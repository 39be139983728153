/** One frame of the play loop: drain the polled events into the snake, note
    a quit request, take exactly one step; and the pacing delay that follows
    the frame. Rendering is not modelled. */
module GameLoop {
  import opened Geometry
  import opened Input
  import opened SnakeEngine

  const FPS: int := 10
  /** The frame budget in milliseconds (100). */
  const FrameDelay: int := 1000 / FPS

  /** Hands every event of one poll to the snake, in order. Only the heading
      can change, it changes only on a fresh arrow key-down, and once the
      snake is moving it never becomes idle again. */
  function HandleEvents(s: Snake, events: seq<Event>): (r: Snake)
    ensures r == s.(direction := r.direction)
    ensures s.direction != None ==> r.direction != None
    ensures r.direction == s.direction
         || exists i :: 0 <= i < |events| && IsFreshArrow(events[i]) && r.direction == Arrow(events[i].key)
    decreases |events|
  {
    if |events| == 0 then s
    else
      var t := HandleEvents(HandleEvent(s, events[0]), events[1..]);
      assert t.direction != HandleEvent(s, events[0]).direction ==>
        exists i :: 1 <= i < |events| && IsFreshArrow(events[i]) && t.direction == Arrow(events[i].key)
      by {
        if t.direction != HandleEvent(s, events[0]).direction {
          var j :| 0 <= j < |events[1..]| && IsFreshArrow(events[1..][j]) && t.direction == Arrow(events[1..][j].key);
          assert events[j + 1] == events[1..][j];
        }
      }
      t
  }

  /** What a frame leaves behind: the stepped snake and whether a quit was polled. */
  datatype FrameResult = FrameResult(snake: Snake, quit: bool)

  /** One pass of the play loop: every polled event goes to the snake (a quit
      event too), then the snake steps once, whether or not a quit was seen.
      rx, ry are the draws for an apple eaten in this frame. */
  function PlayFrame(s: Snake, events: seq<Event>, rx: nat, ry: nat): (f: FrameResult)
    requires |s.segments| > 0
    ensures f.quit <==> Quit in events
    ensures Valid(s) ==> Valid(f.snake)
    ensures f.snake.score == s.score || f.snake.score == s.score + Reward
    ensures !s.gameOver && f.snake.gameOver ==> f.snake.segments == s.segments && f.snake.score == s.score
    ensures var t := HandleEvents(s, events);
      && |t.segments| > 0
      && f.snake.direction == t.direction
      && (t.direction == None ==> f.snake == t)
      && (t.direction != None && (HitsWall(t) || HitsBody(t)) ==> f.snake == t.(gameOver := true))
      && |f.snake.segments| > 0
      && (Advances(t) ==>
            && f.snake.segments[0] == NextHead(t)
            && f.snake.gameOver == s.gameOver
            && (NextHead(t) == t.apple ==>
                  f.snake.segments[1..] == t.segments && f.snake.apple == PlaceApple(rx, ry))
            && (NextHead(t) != t.apple ==>
                  f.snake.segments[1..] == t.segments[..|t.segments| - 1] && f.snake.apple == t.apple))
  {
    var t := HandleEvents(s, events);
    var r := Move(t, rx, ry);
    assert Valid(s) ==> Valid(r) by {
      if Valid(s) {
        MoveKeepsValid(t, rx, ry);
      }
    }
    FrameResult(r, Quit in events)
  }

  /** Events are applied in the order they were polled: draining a batch and
      then one more event is draining the batch extended by that event, so a
      later accepted arrow overrides an earlier one. */
  lemma {:induction false} HandleEventsInOrder(s: Snake, events: seq<Event>, e: Event)
    ensures HandleEvents(s, events + [e]) == HandleEvent(HandleEvents(s, events), e)
    decreases |events|
  {
    if |events| == 0 {
      assert events + [e] == [e];
    } else {
      assert (events + [e])[1..] == events[1..] + [e];
      HandleEventsInOrder(HandleEvent(s, events[0]), events[1..], e);
    }
  }

  /** The reversal guard looks at the buffered heading, not at the heading of
      the last step: UP then LEFT polled in one frame turn a snake moving
      RIGHT straight back, and that frame's step runs into its own neck. */
  lemma TwoKeysReverse(rx: nat, ry: nat)
    ensures var s := Snake([Point(100, 100), Point(80, 100)], Right, false, Point(0, 0), 10);
      var f := PlayFrame(s, [KeyDown(UpKey, false), KeyDown(LeftKey, false)], rx, ry);
      Valid(s) && f.snake.direction == Opposite(s.direction) && f.snake.gameOver
  {
    var s := Snake([Point(100, 100), Point(80, 100)], Right, false, Point(0, 0), 10);
    var events := [KeyDown(UpKey, false), KeyDown(LeftKey, false)];
    assert events == [KeyDown(UpKey, false)] + [KeyDown(LeftKey, false)];
    HandleEventsInOrder(s, [KeyDown(UpKey, false)], KeyDown(LeftKey, false));
    var t := HandleEvents(s, events);
    assert t.direction == Left;
    assert NextHead(t) == s.segments[1];
  }

  /** The sleep after a frame that took frameTime milliseconds: a frame
      never lasts less than the budget, and an over-long frame is not made
      up for later. */
  function PacingDelay(frameTime: nat): (d: nat)
    ensures frameTime + d >= FrameDelay
    ensures d > 0 ==> frameTime + d == FrameDelay
    ensures d == 0 <==> frameTime >= FrameDelay
  {
    if frameTime < FrameDelay then FrameDelay - frameTime else 0
  }
}
