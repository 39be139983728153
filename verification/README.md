# Snake: a Dafny model of the game engine and its screen flow

This project models the core of a small SDL snake game (`src/main.cpp`):

- the `Snake` class: construction at the centre of the 640×480 pixel board,
  arrow-key handling, the per-frame `move` (wall check, then the body
  scan, then the apple check, then push the new head and pop the tail),
  and apple placement on the 32×24 grid of 20-pixel cells;
- one pass of the play loop: drain the polled events into the snake, note a
  quit, step once, then sleep out the 100 ms frame budget;
- the screen flow of `showTitleScreen`, `playGame` and `showGameOverScreen`,
  written as one state machine (`Title`, `Playing`, `GameOver`, `Exited`)
  that consumes one polled batch of events per frame.

Everything is a pure function over immutable records. Coordinates are pixels,
as in the game. `rand()` becomes explicit draws: `PlaceApple(rx, ry)` takes the
two values `rand()` would return, and each `Frame` carries the first four draws
of that frame. The frame's time is a parameter of `PacingDelay`.

Modules: `Geometry` (constants, points, directions, the one-cell step, a
pigeonhole bound), `Input` (events and keys), `SnakeEngine` (the `Snake`
class), `GameLoop` (one play frame and the pacing delay), `ScreenFlow` (the
three screens and the restart loop).

The model follows the code where it departs from what a player would expect:

- `move` and `handleEvent` do not look at `gameOver`; a lost snake would
  keep moving (`MoveIgnoresGameOver`). Only the play loop's condition stops
  play, and the flow never steps a lost snake (`FlowInv`).
- The body scan skips the head and includes the tail. Skipping the head
  changes nothing, because the candidate head is never the current head
  (`HeadSkipIsHarmless`). Including the tail makes "following one's own
  tail" fatal, although the tail would move away (`ChasingTailIsFatal`).
- The reversal guard compares against the buffered heading. UP then LEFT
  within one frame therefore turns a snake moving RIGHT straight back
  into its neck (`TwoKeysReverse`).
- A QUIT polled during play still lets that frame's `move` run. If the
  move collides, the game-over screen is shown anyway. A QUIT skips it only
  when the move does not collide (`PlayingTransitions`).
- The title and game-over screens drain the whole batch before acting. On the
  title screen a QUIT anywhere in the batch exits, even after a RETURN. On
  the game-over screen the last of RETURN / ESCAPE / QUIT wins.

## Model

| member | source | states |
|---|---|---|
| Geometry.Opposite | src/main.cpp:56-67 | each heading's opposite is another heading, and only the idle heading is its own opposite |
| Geometry.Shift | src/main.cpp:75-81 | a non-idle step moves exactly 20 pixels along one axis: UP lowers y, DOWN raises y, LEFT lowers x, RIGHT raises x; the idle heading does not move, and grid alignment is kept |
| Geometry.ShiftOppositeRoundTrip | src/main.cpp:75-81 | a step followed by a step in the opposite heading returns to the start |
| Geometry.DistinctCellsBound | src/main.cpp:14-16 | at most 32 × 24 = 768 pairwise distinct cells fit on the board |
| SnakeEngine.PlaceApple | src/main.cpp:124-129 | the apple is always a cell: x in {0, 20, …, 620}, y in {0, 20, …, 460} |
| SnakeEngine.PlaceAppleCoversBoard | src/main.cpp:124-129 | every cell of the board is the apple for some pair of draws |
| SnakeEngine.New | src/main.cpp:40-43 | a new snake is the single segment (320, 240), idle, score 0, not over, and satisfies the invariant |
| SnakeEngine.HandleEvent | src/main.cpp:53-70 | a fresh arrow key-down sets the heading exactly when the current heading is not its opposite (idle accepts all); other events and auto-repeats change nothing; only the heading ever changes |
| SnakeEngine.Move | src/main.cpp:72-109 | idle: no change; wall or body hit: only the game-over flag is raised; otherwise the candidate head goes in front and either the apple is eaten (length + 1, score + 10, apple re-placed) or the tail is dropped (length and score unchanged); the heading never changes |
| SnakeEngine.HandleEventKeepsValid | src/main.cpp:53-70 | key handling keeps the body, apple and score invariant |
| SnakeEngine.MoveKeepsValid | src/main.cpp:72-109 | every step keeps the body non-empty, made of pairwise distinct on-board aligned cells, with the score equal to 10 per grown segment |
| SnakeEngine.ScoreBounded | src/main.cpp:97-108 | the score of a valid snake is a multiple of 10 between 0 and 7670, so the `int` score never overflows |
| SnakeEngine.MoveStepsOneCell | src/main.cpp:75-108 | a step that goes through moves the head one cell along one axis; the length grows by one exactly when the score grows by 10, and is otherwise unchanged |
| SnakeEngine.HeadSkipIsHarmless | src/main.cpp:90-95 | the scan from the second segment finds a hit exactly when a scan of the whole body would |
| SnakeEngine.WallAndBodyExclusive | src/main.cpp:83-95 | for a valid snake the wall check and the body check never both fire, so their order is unobservable |
| SnakeEngine.MoveIgnoresGameOver | src/main.cpp:72-109 | any snake whose game is already over and whose path is clear still advances its head to the next cell, and stays over |
| SnakeEngine.ChasingTailIsFatal | src/main.cpp:90-95 | any moving snake of two or more segments whose next head is its current tail cell loses with nothing else changed, though the tail would have moved away |
| SnakeEngine.RightWallEndsGame | src/main.cpp:84-87 | a snake in the rightmost column heading RIGHT loses and keeps its body |
| SnakeEngine.EatOneStepRight | src/main.cpp:97-108 | with the apple just right of a new snake, RIGHT and one step give score 10, length 2, head on the former apple |
| SnakeEngine.ThreeStepsRight | src/main.cpp:72-108 | a new snake turned RIGHT with no apple in its path is the single segment (380, 240) after three steps, score 0 |
| GameLoop.HandleEvents | src/main.cpp:247-253 | draining a poll changes only the heading, to that of one of its fresh arrow key-downs; a moving snake never becomes idle again |
| GameLoop.HandleEventsInOrder | src/main.cpp:247-253 | the events of a poll are applied in order, so the latest accepted arrow wins |
| GameLoop.PlayFrame | src/main.cpp:245-254 | after the drain the snake steps once: idle leaves it as drained, a wall or body hit raises only the game-over flag, otherwise the head moves to the next cell; the heading is the drained one; the old body is kept and the apple re-placed from the frame's draws exactly when the next head is the apple, else the tail is dropped and the apple stays; the frame reports a quit exactly when a QUIT was polled, keeps the invariant and raises the score by 0 or 10 |
| GameLoop.TwoKeysReverse | src/main.cpp:56-67 | UP then LEFT polled in one frame reverse a snake moving RIGHT, and that frame's step hits its own neck |
| GameLoop.PacingDelay | src/main.cpp:264-268 | a frame plus its sleep lasts at least the 100 ms budget, exactly the budget when it sleeps, and an over-long frame gets no sleep and no catch-up |
| ScreenFlow.StartSession | src/main.cpp:237-239 | a session starts with one segment at (320, 240), idle, score 0, not over, with the apple of the second placement |
| ScreenFlow.FirstPlacementOverwritten | src/main.cpp:237-239 | the constructor's own apple placement has no effect on the session |
| ScreenFlow.TitleBatch | src/main.cpp:291-300 | a batch on the title screen exits exactly when it holds a QUIT, and starts play exactly when it holds no QUIT and a RETURN key-down |
| ScreenFlow.GameOverBatch | src/main.cpp:191-205 | the game-over screen's decision after a batch is the one held on entry or that of one of the batch's RETURN, ESCAPE or QUIT events |
| ScreenFlow.GameOverUndecided | src/main.cpp:191-205 | a batch without RETURN, ESCAPE or QUIT leaves the game-over screen undecided |
| ScreenFlow.GameOverLastWins | src/main.cpp:191-205 | the last RETURN (restart) or ESCAPE/QUIT (leave) of the batch decides the game-over screen |
| ScreenFlow.Step | src/main.cpp:235-273 | one frame of the whole game keeps the flow invariant: a session in play holds a valid snake whose game is not over, a final score is a multiple of 10 within 0..7670 |
| ScreenFlow.Run | src/main.cpp:235-273 | any number of frames keeps the flow invariant |
| ScreenFlow.Game | src/main.cpp:377-378 | every screen reachable from the title screen satisfies the flow invariant |
| ScreenFlow.TitleTransitions | src/main.cpp:291-300 | title: QUIT exits, otherwise RETURN starts a fresh session, otherwise the title stays |
| ScreenFlow.PlayingTransitions | src/main.cpp:245-272 | play: a colliding frame leads to the game-over screen with the score from before the frame, even with a QUIT in the batch; otherwise QUIT exits without the game-over screen, and without QUIT play continues |
| ScreenFlow.ScoreMonotone | src/main.cpp:245-269 | within a session the score never falls and rises by at most 10 per frame |
| ScreenFlow.GameOverTransitions | src/main.cpp:191-205 | game over: a last RETURN restarts with a fresh session, a last ESCAPE or QUIT ends the process |
| ScreenFlow.RestartIsFresh | src/main.cpp:235-237 | a restart gives score 0, length 1, idle, not over, whatever the previous session's score was |
| ScreenFlow.GameOverWaits | src/main.cpp:191-205 | with none of RETURN, ESCAPE, QUIT the game-over screen keeps waiting with the same score |
| ScreenFlow.ExitIsFinal | src/main.cpp:273 | once the process has ended, no frame changes anything |

## Left out

- Rendering: `draw`, `drawGrid`, `drawFood`, `loadTexture` and the text of
  the title and game-over screens are calls into the graphics and font
  libraries with no game logic.
- Library, window and renderer set-up and teardown in `main`, and its exit
  codes; `Exited` stands for the end of the process.
- The font-load failure returns: on the title screen it starts play at once;
  on the game-over screen it leaves `restart` at its previous value.
- `SDL_GetTicks` and `SDL_Delay`: the frame time is the parameter of
  `PacingDelay`; `Uint32` tick wrap-around is not modelled.
- `rand()` and `srand(time(NULL))`: replaced by explicit draws. The draws
  are non-negative, like `rand()`'s results, so `%` agrees with C++.
- The `grow` field: `move` assigns it before every read, so it is local to
  one step.
- `getScore` and `isGameOver` are the record fields `score` and `gameOver`.
- The unused `GameState` enum.
