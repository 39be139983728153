/** The input events the game reacts to: the few event kinds and keys of the
    windowing library that the game tests for, everything else folded into
    one catch-all constructor each. */
module Input {
  import opened Geometry

  datatype Key = UpKey | DownKey | LeftKey | RightKey | ReturnKey | EscapeKey | OtherKey(code: int)

  /** A polled event. `repeat` marks a key-down generated by holding the key. */
  datatype Event = Quit | KeyDown(key: Key, repeat: bool) | KeyUp(key: Key) | OtherEvent

  /** The heading an arrow key asks for; None for every other key. */
  function Arrow(k: Key): (d: Direction)
    ensures d == None <==> !(k.UpKey? || k.DownKey? || k.LeftKey? || k.RightKey?)
  {
    match k
    case UpKey => Up
    case DownKey => Down
    case LeftKey => Left
    case RightKey => Right
    case _ => None
  }

  /** A key-down of an arrow key that is not an auto-repeat. */
  predicate IsFreshArrow(e: Event) {
    e.KeyDown? && !e.repeat && Arrow(e.key) != None
  }
}
