/** The screen flow: the title screen, the play loop and the game-over
    screen, with the restart loop around the last two, as one state machine
    that advances one polled batch of events (one frame) at a time.

    Every screen drains its whole batch before acting on it, so several
    events of one batch can interact; the functions below follow that. */
module ScreenFlow {
  import opened Geometry
  import opened Input
  import opened SnakeEngine
  import opened GameLoop

  /** Exited stands for the end of the process, by exit(0) on the title
      screen or by leaving the restart loop. */
  datatype Screen = Title | Playing(snake: Snake) | GameOver(finalScore: int) | Exited

  /** The first four values the random source returns during a frame, in the
      order they are asked for. */
  datatype Draws = Draws(a: nat, b: nat, c: nat, d: nat)

  /** One frame: the batch of events polled at its start, and its draws. */
  datatype Frame = Frame(events: seq<Event>, draws: Draws)

  /** A fresh session as the restart loop builds it: the constructor places
      an apple with the first two draws, then the apple is placed again with
      the next two. No state of an earlier session survives. */
  function StartSession(d: Draws): (s: Snake)
    ensures Valid(s) && s.segments == [Point(320, 240)]
    ensures s.direction == None && s.score == 0 && !s.gameOver
    ensures s.apple == PlaceApple(d.c, d.d)
  {
    New(d.a, d.b).(apple := PlaceApple(d.c, d.d))
  }

  /** The constructor's own apple never shows: only the second placement counts. */
  lemma FirstPlacementOverwritten(d: Draws, d': Draws)
    requires d.c == d'.c && d.d == d'.d
    ensures StartSession(d) == StartSession(d')
  {
  }

  predicate PressesReturn(events: seq<Event>) {
    KeyDown(ReturnKey, false) in events || KeyDown(ReturnKey, true) in events
  }

  datatype TitleOutcome = Waiting | Start | Exit

  /** The title screen's drain of one batch. A QUIT ends the process on the
      spot; a RETURN key-down marks the screen done, but the rest of the batch
      is still drained. `done` says a RETURN came earlier in the batch. */
  function TitleBatch(events: seq<Event>, done: bool): (o: TitleOutcome)
    ensures o == Exit <==> Quit in events
    ensures o == Start <==> Quit !in events && (done || PressesReturn(events))
    decreases |events|
  {
    if |events| == 0 then
      if done then Start else Waiting
    else
      assert events == [events[0]] + events[1..];
      match events[0]
      case Quit => Exit
      case KeyDown(k, _) => TitleBatch(events[1..], done || k == ReturnKey)
      case _ => TitleBatch(events[1..], done)
  }

  /** What the game-over screen has decided so far. */
  datatype Verdict = Pending | Restart | Leave

  /** The decision a single event asks for on the game-over screen: RETURN
      restarts, ESCAPE or QUIT leave, anything else decides nothing. */
  function EventVerdict(e: Event): (v: Verdict) {
    match e
    case Quit => Leave
    case KeyDown(ReturnKey, _) => Restart
    case KeyDown(EscapeKey, _) => Leave
    case _ => Pending
  }

  /** The decision after one more event: a decisive event overrides the
      decision so far, any other event keeps it. */
  function Decide(v: Verdict, e: Event): (v': Verdict) {
    if EventVerdict(e) == Pending then v else EventVerdict(e)
  }

  /** The game-over screen's drain of one batch, each decisive event
      overriding the decision of the ones before it. The outcome is the
      decision held on entry or that of some decisive event of the batch. */
  function GameOverBatch(events: seq<Event>, v: Verdict): (r: Verdict)
    ensures r == v || exists i :: 0 <= i < |events| && EventVerdict(events[i]) != Pending && r == EventVerdict(events[i])
    decreases |events|
  {
    if |events| == 0 then v
    else
      var r := GameOverBatch(events[1..], Decide(v, events[0]));
      assert r != Decide(v, events[0]) ==>
        exists i :: 1 <= i < |events| && EventVerdict(events[i]) != Pending && r == EventVerdict(events[i])
      by {
        if r != Decide(v, events[0]) {
          var j :| 0 <= j < |events[1..]| && EventVerdict(events[1..][j]) != Pending && r == EventVerdict(events[1..][j]);
          assert events[j + 1] == events[1..][j];
        }
      }
      r
  }

  /** A batch with no decisive event keeps the screen waiting. */
  lemma {:induction false} GameOverUndecided(events: seq<Event>, v: Verdict)
    requires forall i :: 0 <= i < |events| ==> EventVerdict(events[i]) == Pending
    ensures GameOverBatch(events, v) == v
    decreases |events|
  {
    if |events| > 0 {
      assert EventVerdict(events[0]) == Pending;
      GameOverUndecided(events[1..], v);
    }
  }

  /** The last decisive event of a batch decides, whatever came before it. */
  lemma {:induction false} GameOverLastWins(events: seq<Event>, v: Verdict, j: nat)
    requires j < |events| && EventVerdict(events[j]) != Pending
    requires forall i :: j < i < |events| ==> EventVerdict(events[i]) == Pending
    ensures GameOverBatch(events, v) == EventVerdict(events[j])
    decreases |events|
  {
    if j == 0 {
      GameOverUndecided(events[1..], Decide(v, events[0]));
    } else {
      GameOverLastWins(events[1..], Decide(v, events[0]), j - 1);
    }
  }

  /** What holds of every screen the game reaches: a session in play has a
      valid, living snake, and a final score is a multiple of ten within the
      32-bit range. */
  predicate FlowInv(sc: Screen) {
    match sc
    case Playing(s) => Valid(s) && !s.gameOver
    case GameOver(score) => 0 <= score <= 7670 && score % Reward == 0
    case _ => true
  }

  /** One frame of the whole game. */
  function Step(sc: Screen, f: Frame): (next: Screen)
    requires sc.Playing? ==> |sc.snake.segments| > 0
    ensures FlowInv(sc) ==> FlowInv(next)
  {
    match sc
    case Title =>
      (match TitleBatch(f.events, false)
       case Exit => Exited
       case Start => Playing(StartSession(f.draws))
       case Waiting => Title)
    case Playing(s) =>
      var r := PlayFrame(s, f.events, f.draws.a, f.draws.b);
      assert FlowInv(sc) ==> FlowInv(GameOver(r.snake.score)) by {
        if FlowInv(sc) {
          ScoreBounded(r.snake);
        }
      }
      if r.snake.gameOver then GameOver(r.snake.score)
      else if r.quit then Exited
      else Playing(r.snake)
    case GameOver(score) =>
      (match GameOverBatch(f.events, Pending)
       case Restart => Playing(StartSession(f.draws))
       case Leave => Exited
       case Pending => GameOver(score))
    case Exited => Exited
  }

  /** The game from a given screen over a sequence of frames. */
  function Run(sc: Screen, frames: seq<Frame>): (last: Screen)
    requires FlowInv(sc)
    ensures FlowInv(last)
    decreases |frames|
  {
    if |frames| == 0 then sc else Run(Step(sc, frames[0]), frames[1..])
  }

  /** The game as the process runs it: it starts on the title screen. */
  function Game(frames: seq<Frame>): (last: Screen)
    ensures FlowInv(last)
  {
    Run(Title, frames)
  }

  /** Title screen: QUIT anywhere in the batch ends the process; otherwise a
      RETURN starts a fresh session; otherwise the title stays. */
  lemma TitleTransitions(f: Frame)
    ensures Step(Title, f) == Exited <==> Quit in f.events
    ensures Step(Title, f) == Playing(StartSession(f.draws)) <==> Quit !in f.events && PressesReturn(f.events)
    ensures Step(Title, f) == Title <==> Quit !in f.events && !PressesReturn(f.events)
  {
  }

  /** In play, the frame's step decides first: a collision always leads to
      the game-over screen with the score the snake had before the frame,
      even when a QUIT was polled in the same frame; without a collision a
      QUIT ends the process and skips the game-over screen. */
  lemma PlayingTransitions(s: Snake, f: Frame)
    requires FlowInv(Playing(s))
    ensures var r := PlayFrame(s, f.events, f.draws.a, f.draws.b);
      && (r.snake.gameOver ==> Step(Playing(s), f) == GameOver(s.score))
      && (!r.snake.gameOver && Quit in f.events ==> Step(Playing(s), f) == Exited)
      && (!r.snake.gameOver && Quit !in f.events ==> Step(Playing(s), f) == Playing(r.snake))
  {
  }

  /** Within a session the score never falls and rises by 10 at most per frame. */
  lemma ScoreMonotone(s: Snake, f: Frame)
    requires FlowInv(Playing(s))
    requires Step(Playing(s), f).Playing?
    ensures var s' := Step(Playing(s), f).snake;
      s'.score == s.score || s'.score == s.score + Reward
  {
  }

  /** Game-over screen: the last of RETURN / ESCAPE / QUIT in the batch
      decides; RETURN gives a fresh session (score 0, length 1) whatever the
      score of the one that ended, ESCAPE or QUIT end the process. */
  lemma GameOverTransitions(score: int, f: Frame, j: nat)
    requires j < |f.events| && EventVerdict(f.events[j]) != Pending
    requires forall i :: j < i < |f.events| ==> EventVerdict(f.events[i]) == Pending
    ensures EventVerdict(f.events[j]) == Restart ==> Step(GameOver(score), f) == Playing(StartSession(f.draws))
    ensures EventVerdict(f.events[j]) == Leave ==> Step(GameOver(score), f) == Exited
  {
    GameOverLastWins(f.events, Pending, j);
  }

  /** A restart always begins from a fresh snake. */
  lemma RestartIsFresh(score: int, f: Frame)
    requires Step(GameOver(score), f).Playing?
    ensures var s := Step(GameOver(score), f).snake;
      s.score == 0 && |s.segments| == 1 && s.direction == None && !s.gameOver
  {
  }

  /** Without RETURN, ESCAPE or QUIT the game-over screen keeps waiting. */
  lemma GameOverWaits(score: int, f: Frame)
    requires forall i :: 0 <= i < |f.events| ==> EventVerdict(f.events[i]) == Pending
    ensures Step(GameOver(score), f) == GameOver(score)
  {
    GameOverUndecided(f.events, Pending);
  }

  /** Once the process has ended nothing more happens. */
  lemma {:induction false} ExitIsFinal(frames: seq<Frame>)
    ensures Run(Exited, frames) == Exited
    decreases |frames|
  {
    if |frames| > 0 {
      ExitIsFinal(frames[1..]);
    }
  }
}
