# Snake game state machine in Dafny

This project models the game logic of a browser snake game (class `SnakeGame`
in `js/game.js`). A snake moves over a square board of `tileCount` by
`tileCount` cells and eats food to grow. It dies on hitting a wall or itself.
The game keeps a score and a high score.

The model has two modules:

- `Grid` (`grid.dfy`) holds board cells, the in-bounds test and a counting
  argument. The argument shows that a snake of distinct on-board cells leaves
  a free cell exactly when it is shorter than `tileCount * tileCount`.
- `Snake` (`snake.dfy`) holds the class `SnakeGame`. Its fields are those of
  the original: `snake` (head first), `food`, `dx`, `dy`, `score`,
  `highScore`, `gameRunning` and `gamePaused`. Each modelled
  operation is a method of the class. The pure rules are module-level
  functions: the arrow-key rule `Turn`, the outcome of a tick `Classify`, the
  high-score rule `Best` and food selection `FirstFree`.

The class invariant `SnakeGame.Valid` is kept by every method except the
helpers `Occupies` and `GenerateFood`. `Update` calls `GenerateFood` while
the food still lies under the new head. The invariant says:

- the snake is non-empty, on the board and never covers a cell twice;
- the food is on the board and not under the snake;
- `score == 10 * (|snake| - 1)`, because each meal adds one segment and 10 points;
- a paused game is a running game;
- a running game heads in one of the four unit directions.

Randomness is an explicit input. Every operation that places food takes
`draws`, the sequence of cells the random source would yield, each on the
board. The original retries by recursion whenever a draw lands on the snake.
`GenerateFood` keeps that recursion and consumes one draw per attempt. The
food it places is `draws[FirstFree(draws, snake)]`, the first draw off the
snake.

Its precondition says that some draw is free. When no free cell exists, the
original's retry call (js/game.js:182) is not in tail position, so each
rejected draw adds a stack frame. The call stack eventually overflows and
a `RangeError` escapes `generateFood`. This model does not represent that
case.
`Grid.RoomIffFreeCell` and `Snake.FullGridRejectsEveryDraw` show exactly
when the precondition cannot be met: when the snake fills the whole board.

The module `SnakeScenarios` is a client that uses only the contracts. It
checks these cases:

- eating from the start position;
- refusing a reversal, and ignoring keys while paused;
- keeping the high score at game over;
- resetting twice, which gives the same fields as resetting once;
- auto-starting on an arrow key: the start heading is right, so a first
  Left press is refused;
- hitting a wall from a corner;
- turning back into the neck segment;
- pressing Up and then Left between two ticks, which turns a snake that
  last stepped right back into its neck.

Behaviour of the code that the model follows:

- An arrow key pressed in an idle game starts it, and only then steers
  (js/game.js:34-36).
- `startGame` works after a game over without a reset. The snake and the
  score stay as they were (js/game.js:74-79). So game over is not terminal
  until a reset.
- The reversal test looks at one coordinate only, for example
  `dy !== 1` for ArrowUp. For the unit headings a running game has, this is
  the same as refusing the exact reverse. `Turn` states both.
- The reversal test compares a key with the current direction, not with
  the step the snake last took. Two keys pressed between ticks, a side
  turn and then the reverse, are both accepted, and the next tick runs the
  head into the neck. `QuickTurnReverses` and `BackIntoNeck` prove this.

## Model

| member | source | states |
|---|---|---|
| `Snake.SnakeGame.constructor` | js/game.js:3-28 | The new game has the single segment (10,10), direction (0,0), score 0, both flags false and the stored high score. Its food is the first free draw. The class invariant holds. |
| `Snake.SnakeGame.Update` | js/game.js:144-171 | A tick off the board or into any segment, tail included, ends the game. Snake, food and score stay the same, and the high score becomes the larger of the two. A plain move puts the new head in front and drops the tail, so length and score are unchanged. Eating puts the head in front and keeps the tail: the length grows by exactly 1, the score by exactly 10, and the food becomes the first free draw. The invariant is kept. |
| `Snake.SnakeGame.Occupies` | js/game.js:153-159 | The scan over the segments reports a hit exactly when the cell is one of the segments. |
| `Snake.SnakeGame.GenerateFood` | js/game.js:173-186 | Rejection sampling leaves the food at the first draw that is not on the snake. |
| `Snake.FirstFree` | js/game.js:180-184 | The kept draw is off the snake, and every earlier draw is on the snake (rejected). |
| `Snake.FullGridRejectsEveryDraw` | js/game.js:180-184 | When distinct on-board segments cover the whole board, every on-board draw is rejected, so no draw ever stops the retrying. |
| `Grid.RoomIffFreeCell` | js/game.js:173-186 | For a snake of distinct on-board cells, a free board cell exists if and only if the snake is shorter than `tileCount * tileCount`. |
| `Snake.Classify` | js/game.js:145-170 | A tick hits the wall exactly when the new head is off the board. It hits the snake exactly when the head is on the board and on any segment. A head entering the tail cell is a self hit, although a plain move would vacate that cell. It eats exactly when the head is on the board, off the snake and on the food. Otherwise it crawls. |
| `Snake.LiveTickKeepsBody` | js/game.js:148-170 | If the tick hits neither wall nor snake, the new snake is still non-empty, on the board and pairwise distinct, whether it grows or drops its tail. |
| `Snake.Turn` | js/game.js:40-65 | A non-arrow key changes nothing. From a unit heading, an arrow is refused exactly when its vector is the reverse of the heading; otherwise the direction becomes that vector. From (0,0) every arrow is taken. The result is again a unit heading and never the reverse of the old one. |
| `Snake.SnakeGame.KeyDown` | js/game.js:32-66 | An arrow key in an idle game starts it and then steers from (1,0). In a running, unpaused game the key steers by `Turn`. A paused game and a non-arrow key in an idle game change nothing. Snake, food and score are never touched. |
| `Snake.SnakeGame.StartGame` | js/game.js:74-96 | In a running game it is a no-op. Otherwise it sets running, clears paused and heads right (1,0). Only the flags and the direction may change. |
| `Snake.SnakeGame.TogglePause` | js/game.js:98-106 | It flips `gamePaused` only when the game runs, and changes nothing else. |
| `Snake.SnakeGame.ResetGame` | js/game.js:108-132 | It sets the snake to [(10,10)], the direction to (0,0), the score to 0 and both flags to false, and the food to the first free draw. The high score is untouched. Every reset field gets a constant value, so a second reset gives the same values. |
| `Snake.SnakeGame.GameOver` | js/game.js:224-250 | It clears both flags and sets the high score to `Best(old highScore, score)`. Nothing else changes. |
| `Snake.QuickTurnReverses` | js/game.js:40-64 | From any unit heading, a side-turn arrow followed by the arrow for the reverse heading is accepted both times. The direction ends as the exact reverse of the starting heading. |
| `Snake.BackIntoNeck` | js/game.js:153-159 | A direction that takes the head onto the second segment (the neck) makes the tick a self hit. |
| `Snake.Best` | js/game.js:239-242 | The new high score is at least the old high score and at least the score, and it equals one of them: their maximum. So the high score never decreases. |

## Left out

- Canvas drawing (`draw`), the score display, button enabling and labels, and the game-over `alert`: these are presentation only.
- The start-sound playback and its swallowed errors: a browser audio API.
- localStorage. The stored high score is a constructor argument and is never written back. The string coercion of the stored value is not modelled.
- The `setTimeout` game loop (`gameLoop`). A tick is an explicit call of `Update` with the loop's guard `gameRunning && !gamePaused` as a precondition. Stray ticks from timers armed before a pause or reset are not modelled.
- `Math.random`. It is replaced by the `draws` sequence of on-board cells.
- Snake.SnakeGame.GenerateFood, Snake.SnakeGame.Update: on a board with no free cell, the original's retry recursion is not in tail position. It overflows the call stack and throws a `RangeError`. The model requires a free draw, so that case is not represented; FullGridRejectsEveryDraw characterises it. For `Update` this excludes the final meal that fills the board. In the original, that meal throws after `unshift` and `score += 10` (js/game.js:161-165). The throw skips the redraw and the rescheduling (js/game.js:138-140) and leaves the game frozen, with `gameRunning` still true and the food on a snake cell.
- Snake.SnakeGame.constructor: `tileCount` is a natural number given as an argument, and the start cell (10,10) must lie on the board. In the original it is the canvas width divided by 20. The page markup that fixes the canvas width is not part of this model, and a width that is not a multiple of 20 would give a fractional `tileCount`.
- Event-listener registration for the keyboard and buttons: the handlers themselves are modelled as methods.
