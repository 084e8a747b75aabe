# Snake game state machine

A Dafny model of the game logic in the `useGame` React hook of a browser snake game.
The hook keeps one record: the snake (a head-first list of cells), the food cell, the heading, the game-over flag, the score and the difficulty.
It changes that record in four ways:

- a timer tick moves the snake one cell, then either ends the game, eats and grows, or moves on;
- an arrow key changes the heading, unless the game is over or the key points straight back;
- the restart button resets everything but the difficulty;
- the difficulty buttons set the difficulty, which picks the tick interval (200, 150 or 100 ms).

The model has three modules:

- `Grid` (`grid.dfy`): the 20×20 board, cells, headings, their opposites and one step of movement.
- `Game` (`game.dfy`): the state record and every operation of the hook.
  - The difficulty table, reset and difficulty change, and the key handler are functions.
  - The collision check is a function. The `some` scan behind it is `Occupies`, a recursive function proved to agree with sequence membership.
  - Food placement is the method `GenerateFood`. It keeps the source's retry loop, and the random draws come in as a stream of cells. It is proved to return the first free draw (`FirstFree`).
  - The timer's state update is the pure function `Tick`. `MoveSnake` is the same update written step by step, as the hook runs it: copy, move the head, check, put the head in front, then grow or pop. It is proved equal to `Tick`.
- `SnakeInvariants` (`invariants.dfy`): the invariants of reachable states and the proofs that every operation keeps them.
  - The snake is non-empty, on the board, without repeated cells and contiguous.
  - The score is 10 × (length − 1).
  - The food is on the board and off the snake.
  - Whole games are modelled as sequences of events, run with one of two food placements: as written (food drawn against the snake before the move) or corrected (drawn against the grown snake).
  - With either placement, every reachable state has a well-formed snake and on-board food.
  - Only with the corrected placement is every reachable state also proved to keep the food off the snake. As written that fails: a run of twelve events from the initial record ends with the food under the snake's head (`SnakeInvariants.FoodLandsOnHeadInPlay`, see Findings).

The collision check looks at the snake as it was before the move, as the hook does. It tests the new head against every segment after the head, including the tail cell that a plain move is about to free.

The key handler compares each key only with the heading of that moment. So two accepted keys between ticks can still reverse the snake: heading right, ArrowUp then ArrowLeft gives left. The next tick of a two-cell snake then collides with its own neck (`TwoKeysMayReverse`). So the code guarantees only that no single key reverses the heading of its moment. It does not guarantee that the heading a tick uses is never the reverse of the previous tick's. The model states the guarantee the code gives.

## Model

| member | source | states |
|---|---|---|
| `Grid.Opposite` | src/hooks/useGame.js:119-138 | The heading each arrow may not turn into is a different heading (Up/Down, Left/Right are the refused pairs) |
| `Grid.OppositeIsInvolution` | src/hooks/useGame.js:119-138 | The refused pairs are symmetric: the opposite of the opposite is the heading itself |
| `Grid.Step` | src/hooks/useGame.js:64-81 | Moving the head one unit in a heading lands on a cell sharing an edge with the old head |
| `Grid.StepThenOppositeReturns` | src/hooks/useGame.js:68-81 | A step followed by a step in the opposite heading returns to the start cell |
| `Game.TickInterval` | src/hooks/useGame.js:7-11 | The interval table: EASY 200, MEDIUM 150, HARD 100 |
| `Game.HarderIsNeverSlower` | src/hooks/useGame.js:7-11 | A harder level never has a longer interval, and different levels have different intervals |
| `Game.InitialState` | src/hooks/useGame.js:14-21 | The start record: snake [(10,10)], food (5,5), heading Right, live, score 0, MEDIUM; the food is on the board and off the snake |
| `Game.ResetGame` | src/hooks/useGame.js:150-157 | Reset gives the start-of-game record with the previous difficulty kept |
| `Game.ResetIsIdempotent` | src/hooks/useGame.js:150-157 | Resetting twice equals resetting once; a reset game is live with score 0 |
| `Game.ChangeDifficulty` | src/hooks/useGame.js:161-163 | The new difficulty is the requested one, whatever the game-over flag |
| `Game.ChangeDifficultyOnlyTouchesDifficulty` | src/hooks/useGame.js:161-163 | Only the difficulty changes, the last change wins, and reset commutes with a difficulty change |
| `Game.Occupies` | src/hooks/useGame.js:52-54 | The `some` scan over segments is true exactly when the cell is in the sequence |
| `Game.Collides` | src/hooks/useGame.js:26-41 | Collision holds exactly when the head is off the 20×20 board or equals a segment at index 1 or later |
| `Game.SingleCellHitsOnlyWalls` | src/hooks/useGame.js:37-40 | With a one-cell snake only the wall check can fire |
| `Game.FirstFree` | src/hooks/useGame.js:44-56 | The first unoccupied draw is one of the draws and is not on the snake |
| `Game.GenerateFood` | src/hooks/useGame.js:44-56 | The retry loop returns an on-board cell off the snake: the first free draw, with every earlier draw occupied |
| `Game.Tick` | src/hooks/useGame.js:60-110 | A tick keeps the snake non-empty and never changes heading or difficulty |
| `Game.TickAfterGameOver` | src/hooks/useGame.js:61 | Once the game is over a tick changes nothing |
| `Game.TickOnCollision` | src/hooks/useGame.js:83-86 | A colliding tick only sets the game-over flag; snake, food, score, heading and difficulty stay |
| `Game.TickOnFood` | src/hooks/useGame.js:88-99 | Eating: the new snake is the stepped old head followed by the whole old snake, length +1, score +10, food replaced, game still live |
| `Game.TickOnMove` | src/hooks/useGame.js:88-108 | A plain move: the stepped head followed by the old snake minus its last cell; length, score and food unchanged |
| `Game.TickGrowthMatchesScore` | src/hooks/useGame.js:89-108 | Each tick grows the snake by 0 or 1 and adds 10 points per cell grown; food changes only when eating; game over is never undone |
| `Game.TickIgnoresFoodUnlessEating` | src/hooks/useGame.js:92-108 | The generated food matters only on a tick that eats |
| `Game.MoveSnake` | src/hooks/useGame.js:60-110 | The step-by-step updater equals `Tick` fed with the first free draw against the pre-move snake when it eats |
| `Game.ArrowDirection` | src/hooks/useGame.js:118-138 | Exactly the four arrow key names ask for a heading |
| `Game.ArrowKey` | src/hooks/useGame.js:118-138 | Each heading has an arrow key that asks for it |
| `Game.HandleKeyPress` | src/hooks/useGame.js:113-140 | A key changes at most the heading, and never to the opposite of the current heading |
| `Game.HandleKeyPressGate` | src/hooks/useGame.js:113-140 | The heading becomes the arrow's exactly when the game is live, the key is an arrow and it is not the opposite of the current heading; otherwise nothing changes |
| `Game.TwoKeysMayReverse` | src/hooks/useGame.js:113-140 | Two accepted keys between ticks can set the heading opposite to the tick's, and the next tick then collides |
| `SnakeInvariants.InitialIsValid` | src/hooks/useGame.js:14-21 | The initial record is valid, live and at MEDIUM |
| `SnakeInvariants.ResetIsValid` | src/hooks/useGame.js:150-157 | Reset yields a valid state from any state |
| `SnakeInvariants.ChangeDifficultyKeepsValid` | src/hooks/useGame.js:161-163 | A difficulty change keeps validity and the game-over flag |
| `SnakeInvariants.HandleKeyPressKeepsValid` | src/hooks/useGame.js:113-140 | A key press keeps validity |
| `SnakeInvariants.GameOverIsSticky` | src/hooks/useGame.js:61-163 | After game over, ticks and keys change nothing and difficulty changes keep the flag; only reset clears it |
| `SnakeInvariants.GrownIsWellShaped` | src/hooks/useGame.js:84-89 | After a non-colliding move, the snake with the new head in front is on the board, repeat-free and contiguous |
| `SnakeInvariants.DropLastIsWellShaped` | src/hooks/useGame.js:103 | Popping the tail keeps the snake on the board, repeat-free and contiguous |
| `SnakeInvariants.TickKeepsWellFormed` | src/hooks/useGame.js:60-110 | Every tick keeps length >= 1, on-board, no repeats, contiguity and score = 10 × (length − 1), whatever food is generated |
| `SnakeInvariants.TickKeepsValid` | src/hooks/useGame.js:60-110 | A tick keeps the food off the snake when the food it eats is replaced by a cell off the grown snake |
| `SnakeInvariants.FoodMayLandOnHead` | src/hooks/useGame.js:51-98 | As written, a valid state can tick into one whose food lies under the snake's head |
| `SnakeInvariants.FoodLandsOnHeadInPlay` | src/hooks/useGame.js:14-98 | As written, a game from the initial record (ArrowUp, five ticks, ArrowLeft, four ticks, then a tick whose first draw is (5,5)) is playable and ends with the food under the head, so it is not valid |
| `SnakeInvariants.AsWrittenFoodAvoidsBody` | src/hooks/useGame.js:51-98 | As written, the new food is on the board and off every segment except the new head |
| `SnakeInvariants.MoveSnakeCorrected` | src/hooks/useGame.js:60-110 | Drawing the food against the grown snake maps valid states to valid states |
| `SnakeInvariants.TimerTick` | src/hooks/useGame.js:44-110 | One timer step, `moveSnake` with `generateFood`: when the snake eats, it grows by its new head and the new food is a draw off the pre-move snake (as written) or off the grown snake (corrected); otherwise the food and the length stay |
| `SnakeInvariants.Apply` | src/hooks/useGame.js:113-198 | One event as the hook wires it (timer to `moveSnake`, keydown to `handleKeyPress`, restart button to `resetGame`, difficulty buttons to `changeDifficulty`): only difficulty buttons change the difficulty, a key changes only the heading, restart gives the start record with the difficulty kept, a tick keeps the heading and does nothing after game over |
| `SnakeInvariants.Play` | src/hooks/useGame.js:113-198 | A run of events applied in order: without a difficulty button the difficulty never changes, and without a restart a finished game stays finished |
| `SnakeInvariants.AsWrittenTimerIsMoveSnake` | src/hooks/useGame.js:60-110 | The as-written timer event of a game run is the tick `MoveSnake` computes, with food drawn against the pre-move snake |
| `SnakeInvariants.ApplyKeepsWellFormed` | src/hooks/useGame.js:60-163 | With either food placement, as written included, each event keeps the snake well formed and the food on the board |
| `SnakeInvariants.PlayKeepsWellFormed` | src/hooks/useGame.js:60-163 | With either food placement, as written included, any admissible run keeps the snake well formed and the food on the board |
| `SnakeInvariants.AsWrittenReachableStatesAreWellFormed` | src/hooks/useGame.js:14-21 | As written, every state reachable from the initial record has a well-formed snake and on-board food |
| `SnakeInvariants.ApplyKeepsValid` | src/hooks/useGame.js:113-163 | Under the corrected tick (food drawn against the grown snake), each event (tick, key, restart, difficulty) keeps validity |
| `SnakeInvariants.PlayKeepsValid` | src/hooks/useGame.js:60-163 | Under the corrected tick (food drawn against the grown snake), any admissible sequence of events from a valid state ends in a valid state |
| `SnakeInvariants.ReachableStatesAreValid` | src/hooks/useGame.js:14-21 | Under the corrected tick (food drawn against the grown snake), every state reachable from the initial record is valid |

## Findings

| source | as written | input that shows it | evidently intended | confidence | as-written member | corrected member |
|---|---|---|---|---|---|---|
| src/hooks/useGame.js:52-54 | `generateFood` rejects only cells of the snake from before the move (the render-time `gameState.snake`), so the new food may be placed on the cell the head has just entered | from the initial record (snake [(10,10)], heading RIGHT, food (5,5)): ArrowUp, five ticks, ArrowLeft, four ticks, then a tick whose first random draw is (5,5). The snake eats at (5,5), and the new food is (5,5), under the new head | the new food avoids every cell of the grown snake, so food is never on the snake | high (not executed) | `SnakeInvariants.FoodLandsOnHeadInPlay` | `SnakeInvariants.MoveSnakeCorrected` |

## Left out

- The game loop timers (`setInterval`/`clearInterval` at src/hooks/useGame.js:166-181 and 192-198): scheduling tied to the React effect lifecycle. Only the interval lookup `Game.TickInterval` is modelled; whole games are modelled as event sequences (`SnakeInvariants.Play`), whose timer event is the as-written tick or the corrected tick (food drawn against the grown snake) as the run's placement says.
- The keydown listener registration (src/hooks/useGame.js:184-189): browser I/O. Only the handler's decision is modelled.
- `Math.random`: replaced by a finite stream of drawn cells, each on the board, as `floor(random() * 20)` per axis gives. Uniformity is not modelled.
- Game.GenerateFood: requires that some draw in the stream is free. On a full board the source's `do…while` never ends, and the model does not capture that.
- React stale closures: the helpers read the render-time `gameState`. The model passes the pre-move snake (and the current state) explicitly, which is what they see when the render is current.
- Game.Tick: requires a non-empty snake. The source would compute with `undefined` coordinates on an empty one. No reachable state has one (`SnakeInvariants.PlayKeepsWellFormed`, `SnakeInvariants.AsWrittenReachableStatesAreWellFormed`).
- `GRID_SIZE` (the pixel scale) and the canvas drawing in src/components/GameBoard.jsx: rendering only.
- src/components/GameControls.jsx: buttons and labels. Its `disabled={!isGameOver}` gating of the difficulty buttons is UI policy; `Game.ChangeDifficulty` is unconditional, as in the hook.
- src/main.jsx: application bootstrap.
- src/types/game is not part of this model. `Direction` and `Difficulty` are enumerations here, compared by identity as the source compares its constants.
- Coordinates and the score are unbounded integers. The source's JavaScript numbers stay far below any precision limit on a 20×20 board.
