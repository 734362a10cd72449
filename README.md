# Snake game state machine

A model of the game logic of a single-player snake game on a 30 by 20
board whose opposite borders are joined (wrap-around). The snake is a
queue of board cells, head first. Every movement tick it adopts the
buffered direction, steps its head one cell, corrects the head back onto
the board, and dies if the head meets any of its own segments. Otherwise
the new head goes in front, and the snake either eats the food (score and
length grow by one, new food is placed on a free cell, the high score
follows the score) or loses its tail. Arrow keys buffer a direction unless
it reverses the current one, Space pauses, and after game over only R,
which restarts the round, is honoured.

Three modules:

- `Grid` (`grid.dfy`): cells, directions, the one-cell `Step`, the edge
  correction `Wrap`, and a pigeonhole lemma that a body of fewer than 600
  distinct cells leaves a board cell free.
- `GameRules` (`rules.dfy`): the game state as a value (`Game`), the
  invariant of every reachable state, and the transitions as functions:
  `Ticked` (one movement tick), `Keyed` (one key press) and `Restarted`.
  The food cell the game picks at random is a parameter of these
  functions. Lemmas state what each transition promises.
- `Snake` (`snake_game.dfy`): the class `SnakeGame` with the game's own
  fields, updated in place by `Tick`, `OnKey`, `ResetGame`,
  `InitializeSnake` and `GenerateFood`. The constructor establishes
  `Valid()`; `Tick`, `OnKey` and `ResetGame` keep it and are proved equal
  to the matching `GameRules` transition (`Ticked`, `Keyed`, `Restarted`)
  applied to the old state. `InitializeSnake` is proved to build
  `StartBody`, and `GenerateFood` to put the food on a free board cell. The body queue is a `seq<Cell>`: push-front is `[h] + s` and
  pop-back is `s[..|s| - 1]`.

The edge correction is not a modulo: a coordinate below zero becomes the
last column (row), and one at or past the width (height) becomes zero. It
agrees with a modulo only for the one-cell overshoot a step produces
(`Wrap`, `WrapIsNotModulo`). The game has only the wrap-around border.

## Model

| member | source | states |
|---|---|---|
| `Grid.Step` | Snake/main.cpp:289-304 | the candidate head is edge-adjacent to the old head: Up lowers y, Down raises it, Left lowers x, Right raises it, the other coordinate kept |
| `Grid.Wrap` | Snake/main.cpp:198-212 | the corrected cell is always on the board, and for coordinates in [-1, width] and [-1, height] it equals the true modulo |
| `Grid.WrapBorders` | Snake/main.cpp:198-212 | x = -1 goes to column 29, x = 30 to column 0, likewise for rows, and on-board cells are unchanged |
| `Grid.WrapIsNotModulo` | Snake/main.cpp:198-212 | every negative coordinate goes to the last column (row) and every one at or past the width (height) to zero, so beyond a one-cell overshoot it differs from a modulo (-2 goes to 29, 31 goes to 0) |
| `Grid.StepThenWrapIsModular` | Snake/main.cpp:289-307 | from an on-board head, step plus correction is exactly a toroidal step, and the head never stays in place |
| `Grid.FreeCellExists` | Snake/main.cpp:178-184 | a body of distinct cells shorter than the 600-cell board leaves a free board cell, so the food search has something to find |
| `GameRules.NextHead` | Snake/main.cpp:286-307 | the next head is on the board, differs from the current head, and is the toroidal step in the buffered direction |
| `GameRules.Best` | Snake/main.cpp:315-317 | the high score after a check is the larger of score and high score |
| `GameRules.Ticked` | Snake/main.cpp:275-356 | a tick grows the body and the score by one exactly when the food is eaten, sets the high score to the larger of the resulting score and the old high score after a collision or a meal and leaves it alone otherwise, keeps high score ≥ score, changes the food only on eating, sets game over exactly on a collision, and never touches the pause flag or the buffered direction |
| `GameRules.HaltedTickIsIdle` | Snake/main.cpp:277-279 | while game over or paused a tick changes nothing |
| `GameRules.CollisionEndsGame` | Snake/main.cpp:309-324 | a head meeting the body sets game over, keeps body, food and score, and raises the high score to the score only if the score beats it |
| `GameRules.TailCellIsFatal` | Snake/main.cpp:310-311 | a head moving onto the tail cell ends the game, although the tail would have moved on that tick |
| `GameRules.MoveShiftsBody` | Snake/main.cpp:327-354 | without collision the corrected head goes in front; the old body follows whole on eating and without its tail otherwise |
| `GameRules.EatingScores` | Snake/main.cpp:331-348 | eating adds exactly one point and one segment, keeps the tail, and makes the high score the larger of the new score and the old high score |
| `GameRules.TickKeepsInvariant` | Snake/main.cpp:306-354 | every tick keeps the body on the board and free of repeats, the food off the body, and the buffered direction non-reversing |
| `GameRules.Restarted` | Snake/main.cpp:418-430 | a restart yields a valid game with score 0 and the high score kept |
| `GameRules.Keyed` | Snake/main.cpp:237-269 | a key press never changes the high score; only R after game over touches body, food, score, direction in force or game over; only Space (or R after game over) touches the pause flag; the buffered direction changes only to a non-reversing arrow while running, or by a restart |
| `GameRules.GameOverHonoursOnlyRestart` | Snake/main.cpp:238-243 | after game over every key but R is ignored and R restarts the round |
| `GameRules.SpaceTogglesPause` | Snake/main.cpp:246-249 | Space flips the pause flag, and nothing else, exactly when the game is not over |
| `GameRules.ArrowBuffersDirection` | Snake/main.cpp:252-269 | an arrow changes only the buffered direction: it becomes the arrow's direction when running, unpaused and not reversing the current direction, and stays as it was otherwise |
| `GameRules.UnlistedKeysIgnored` | Snake/main.cpp:245-269 | while the game runs, R and keys the game does not know leave the state unchanged |
| `GameRules.KeyKeepsInvariant` | Snake/main.cpp:237-269 | every key press keeps the invariant, so the buffered direction is never the reverse of the current one |
| `GameRules.FirstMealAfterFiveTicks` | Snake/main.cpp:328-354 | from a restart with food at (20, 10), five ticks right put the head on (20, 10) with four segments and score 1 |
| `GameRules.LeftBorderWraps` | Snake/main.cpp:306-307 | a head at (0, 10) moving left reappears at (29, 10) and the game goes on |
| `Snake.SnakeGame.constructor` | Snake/main.cpp:66-92 | a new game is valid, with the start body heading right, score 0, flags cleared and the saved high score |
| `Snake.SnakeGame.InitializeSnake` | Snake/main.cpp:164-175 | the start body is (15,10), (14,10), (13,10), head first |
| `Snake.SnakeGame.GenerateFood` | Snake/main.cpp:178-184 | the food lands on an on-board cell that no segment occupies |
| `Snake.SnakeGame.IsSnakePosition` | Snake/main.cpp:187-195 | the answer is true exactly when the cell is a segment of the body |
| `Snake.SnakeGame.Tick` | Snake/main.cpp:275-356 | the in-place tick keeps the invariant and leaves the state `Ticked` gives for the old state and the food it placed |
| `Snake.SnakeGame.ResetGame` | Snake/main.cpp:418-438 | the in-place restart keeps the invariant and leaves the state `Restarted` gives, with the food off the start body |
| `Snake.SnakeGame.OnKey` | Snake/main.cpp:224-272 | the in-place key handling keeps the invariant and leaves the state `Keyed` gives for the old state and key |

## Left out

- Rendering, window creation, fonts and the on-screen texts, including the score and high-score text updates: drawing calls with no game logic.
- The move timer: ticks are gated by wall-clock time against a floating-point delay; `Tick` models the work done once the timer fires.
- The event polling loop and window closing: `OnKey` models one key press, and the loop applies it to each pending key in order.
- Reading the saved high score is I/O: its value is the constructor's parameter. Writing it back after every rise is omitted.
- The random number generator: `GenerateFood` may pick any free board cell. The distribution of the choice is not modelled.
- Snake.SnakeGame.Tick: requires that, when the snake is about to eat, the grown body still leaves a free cell. With the board full the game's food search would never stop.
- Snake.SnakeGame.GenerateFood: requires a body of distinct cells shorter than the board, a sufficient condition for a free cell (the game's search ends only if one exists).
- The 32-bit width of `score` and `highScore` is not modelled; a score is at most the number of free cells, far below the limit.
