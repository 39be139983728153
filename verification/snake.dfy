/** The game-state engine: the snake's body, heading, apple, score and
    game-over flag, and the operations that change them (construction,
    key handling, the per-frame step and apple placement).

    A snake is an immutable record; each operation returns the next record. */
module SnakeEngine {
  import opened Geometry
  import opened Input

  /** Points added to the score for each apple eaten. */
  const Reward: int := 10
  /** The cell a new snake starts on: the centre of the screen, (320, 240). */
  const Center: Point := Point(ScreenWidth / 2, ScreenHeight / 2)

  /** The body is head first; `apple` is the one food cell. */
  datatype Snake = Snake(segments: seq<Point>, direction: Direction, gameOver: bool, apple: Point, score: int)

  /** What every snake the game builds satisfies, at every frame: a non-empty
      body of pairwise distinct cells, an apple on a cell, and a score of ten
      points per segment grown. */
  predicate Valid(s: Snake) {
    && |s.segments| > 0
    && AllCells(s.segments)
    && Distinct(s.segments)
    && IsCell(s.apple)
    && s.score == Reward * (|s.segments| - 1)
  }

  /** The apple's cell for two draws of the random source: the column is the
      first draw modulo 32 and the row the second modulo 24, so every column
      and row is possible. */
  function PlaceApple(rx: nat, ry: nat): (p: Point)
    ensures IsCell(p)
  {
    Point((rx % Columns) * SnakeSize, (ry % Rows) * SnakeSize)
  }

  /** Every cell of the board is a possible apple position. */
  lemma PlaceAppleCoversBoard(p: Point)
    requires IsCell(p)
    ensures p.x / SnakeSize >= 0 && p.y / SnakeSize >= 0
    ensures PlaceApple(p.x / SnakeSize, p.y / SnakeSize) == p
  {
    Multiple(p.x);
    Multiple(p.y);
    var a, b := p.x / SnakeSize, p.y / SnakeSize;
    assert a % Columns == a && b % Rows == b;
  }

  /** A new snake: one segment in the centre, idle, score 0, alive; the apple
      comes from the draws rx, ry. */
  function New(rx: nat, ry: nat): (s: Snake)
    ensures s.segments == [Point(320, 240)]
    ensures s.direction == None && !s.gameOver && s.score == 0
    ensures Valid(s)
  {
    Snake([Center], None, false, PlaceApple(rx, ry), 0)
  }

  /** Key handling: a fresh arrow key-down sets the heading unless the heading
      held now is its exact opposite. Nothing else changes, and the game-over
      flag is not consulted. */
  function HandleEvent(s: Snake, e: Event): (r: Snake)
    ensures r.segments == s.segments && r.apple == s.apple
    ensures r.score == s.score && r.gameOver == s.gameOver
    ensures IsFreshArrow(e) && s.direction != Opposite(Arrow(e.key)) ==> r.direction == Arrow(e.key)
    ensures !(IsFreshArrow(e) && s.direction != Opposite(Arrow(e.key))) ==> r.direction == s.direction
  {
    if e.KeyDown? && !e.repeat then
      match e.key
      case UpKey => if s.direction != Down then s.(direction := Up) else s
      case DownKey => if s.direction != Up then s.(direction := Down) else s
      case LeftKey => if s.direction != Right then s.(direction := Left) else s
      case RightKey => if s.direction != Left then s.(direction := Right) else s
      case _ => s
    else
      s
  }

  /** The cell the head would enter this frame. */
  function NextHead(s: Snake): (p: Point)
    requires |s.segments| > 0
  {
    Shift(s.segments[0], s.direction)
  }

  /** The candidate head leaves the screen. */
  predicate HitsWall(s: Snake)
    requires |s.segments| > 0
  {
    !OnBoard(NextHead(s))
  }

  /** The candidate head lands on a segment behind the head (tail included). */
  predicate HitsBody(s: Snake)
    requires |s.segments| > 0
  {
    NextHead(s) in s.segments[1..]
  }

  /** The step goes through: the snake is moving and collides with nothing. */
  predicate Advances(s: Snake)
    requires |s.segments| > 0
  {
    s.direction != None && !HitsWall(s) && !HitsBody(s)
  }

  /** The per-frame step. rx, ry are the draws used to re-place the apple if
      it is eaten this frame. A collision only raises the game-over flag; a
      step that goes through puts the new head in front and either keeps the
      tail (apple eaten: grow, score + 10, new apple) or drops it. */
  function Move(s: Snake, rx: nat, ry: nat): (r: Snake)
    requires |s.segments| > 0
    ensures |r.segments| > 0
    ensures r.direction == s.direction
    ensures s.direction == None ==> r == s
    ensures s.direction != None && (HitsWall(s) || HitsBody(s)) ==> r == s.(gameOver := true)
    ensures Advances(s) ==>
              && r.gameOver == s.gameOver
              && r.segments[0] == NextHead(s)
              && (NextHead(s) == s.apple ==>
                    r.segments[1..] == s.segments && r.score == s.score + Reward && r.apple == PlaceApple(rx, ry))
              && (NextHead(s) != s.apple ==>
                    r.segments[1..] == s.segments[..|s.segments| - 1] && r.score == s.score && r.apple == s.apple)
  {
    if s.direction == None then s
    else
      var head := Shift(s.segments[0], s.direction);
      if head.x < 0 || head.y < 0 || head.x >= ScreenWidth || head.y >= ScreenHeight then
        s.(gameOver := true)
      else if head in s.segments[1..] then
        s.(gameOver := true)
      else
        var grow := head == s.apple;
        var apple := if grow then PlaceApple(rx, ry) else s.apple;
        var score := if grow then s.score + Reward else s.score;
        var body := [head] + s.segments;
        var body' := if grow then body else body[..|body| - 1];
        s.(segments := body', apple := apple, score := score)
  }

  /** Key handling keeps the invariant. */
  lemma HandleEventKeepsValid(s: Snake, e: Event)
    requires Valid(s)
    ensures Valid(HandleEvent(s, e))
  {
  }

  /** Every step keeps the invariant: the new head is a cell (the wall check
      and the 20-pixel step), it is not on the body (the scan and the step),
      and the score follows the length. */
  lemma MoveKeepsValid(s: Snake, rx: nat, ry: nat)
    requires Valid(s)
    ensures Valid(Move(s, rx, ry))
  {
    var r := Move(s, rx, ry);
    if Advances(s) {
      var c := NextHead(s);
      assert c != s.segments[0];
      assert c !in s.segments by {
        assert s.segments == [s.segments[0]] + s.segments[1..];
      }
      var rest := r.segments[1..];
      assert forall i :: 0 <= i < |rest| ==> rest[i] in s.segments;
      assert r.segments == [c] + rest;
      forall i, j | 0 <= i < j < |r.segments|
        ensures r.segments[i] != r.segments[j]
      {
        if i > 0 {
          assert r.segments[i] == rest[i - 1] && r.segments[j] == rest[j - 1];
        } else {
          assert r.segments[j] in s.segments;
        }
      }
    }
  }

  /** The score is a multiple of ten no larger than 7670 (768 cells, less the
      starting one, ten points each), so it never overflows a 32-bit int. */
  lemma ScoreBounded(s: Snake)
    requires Valid(s)
    ensures 0 <= s.score <= Reward * (Columns * Rows - 1) == 7670
    ensures s.score % Reward == 0
  {
    DistinctCellsBound(s.segments);
  }

  /** A step moves the head exactly one cell, along one axis, and changes the
      length by 0 or +1 with the score rising by 10 exactly when it grows. */
  lemma MoveStepsOneCell(s: Snake, rx: nat, ry: nat)
    requires Valid(s) && Advances(s)
    ensures var r := Move(s, rx, ry);
      && Distance(r.segments[0], s.segments[0]) == SnakeSize
      && (r.segments[0].x == s.segments[0].x || r.segments[0].y == s.segments[0].y)
      && (|r.segments| == |s.segments| + 1 <==> r.score == s.score + Reward)
      && (|r.segments| == |s.segments| <==> r.score == s.score)
      && (|r.segments| == |s.segments| || |r.segments| == |s.segments| + 1)
  {
  }

  /** Skipping the head in the body scan changes nothing: the candidate is
      never the current head, so it hits the rest of the body exactly when it
      hits the whole body. */
  lemma HeadSkipIsHarmless(s: Snake)
    requires |s.segments| > 0 && s.direction != None
    ensures HitsBody(s) <==> NextHead(s) in s.segments
  {
    assert s.segments == [s.segments[0]] + s.segments[1..];
  }

  /** For a valid snake the wall and body checks never both fire, so their
      order is unobservable. */
  lemma WallAndBodyExclusive(s: Snake)
    requires Valid(s) && s.direction != None
    ensures !(HitsWall(s) && HitsBody(s))
  {
    if HitsBody(s) {
      var i :| 1 <= i < |s.segments| && s.segments[i] == NextHead(s);
    }
  }

  /** A snake that has already lost still moves: the step does not consult
      the game-over flag, so a lost snake with a clear path advances and
      stays lost. */
  lemma MoveIgnoresGameOver(s: Snake, rx: nat, ry: nat)
    requires |s.segments| > 0 && s.gameOver && Advances(s)
    ensures Move(s, rx, ry).segments[0] == NextHead(s) && Move(s, rx, ry).gameOver
  {
  }

  /** The body scan includes the tail, although the tail would move away in
      the same step: a snake whose next head is its own tail cell loses, and
      nothing but the flag changes. */
  lemma ChasingTailIsFatal(s: Snake, rx: nat, ry: nat)
    requires |s.segments| >= 2 && s.direction != None
    requires NextHead(s) == s.segments[|s.segments| - 1]
    ensures Move(s, rx, ry) == s.(gameOver := true)
  {
    assert s.segments[1..][|s.segments| - 2] == s.segments[|s.segments| - 1];
  }

  /** A snake in the rightmost column heading right loses and keeps its body. */
  lemma RightWallEndsGame(s: Snake, rx: nat, ry: nat)
    requires Valid(s) && s.direction == Right && s.segments[0].x == ScreenWidth - SnakeSize
    ensures Move(s, rx, ry).gameOver && Move(s, rx, ry).segments == s.segments
  {
  }

  /** With an apple one cell to the right of a new snake, one RIGHT key and
      one step give score 10, length 2 and the head on the former apple. */
  lemma EatOneStepRight(rx: nat, ry: nat)
    ensures var s := New(0, 0).(apple := Point(340, 240));
      var r := Move(HandleEvent(s, KeyDown(RightKey, false)), rx, ry);
      r.score == 10 && |r.segments| == 2 && r.segments[0] == Point(340, 240) && !r.gameOver
  {
  }

  /** A new snake turned RIGHT, with the apple out of its path, has its single
      segment at (380, 240) after three steps and still scores 0. */
  lemma ThreeStepsRight(rx: nat, ry: nat)
    ensures var s := HandleEvent(New(0, 0), KeyDown(RightKey, false));
      var r := Move(Move(Move(s, rx, ry), rx, ry), rx, ry);
      r.segments == [Point(380, 240)] && r.score == 0 && !r.gameOver
  {
  }
}
