# Snake game core in Dafny

A model of the game-state core of a browser Snake game (`script.js`): the snake is a sequence of
tile coordinates with the head first, it moves one tile per move along the heading `(dx, dy)`,
grows by one and scores a point when its head reaches the food, and the game ends when the head
leaves [0, cols) on either axis or runs into the body. A frame loop counts frames and moves the
snake only when the frame counter reaches the difficulty's threshold, or half of it from a w/a/s/d
press until the next w/a/s/d release.

Modules, one per component of the script:

- `Wrappers` (`wrappers.dfy`): `Option`, used where an operation needs more random draws than were supplied.
- `Grid` (`grid.dfy`): cells, the board in tiles (`cols` = canvas width / 20, `rows` = canvas height / 20),
  the two bound predicates the script uses, and the cell a pair of `Math.random()` results picks.
- `Input` (`input.dfy`): keys, headings and the direction handler `changeDirection`.
- `Food` (`food.dfy`): `createFood`, with the random results supplied as a sequence of draws.
- `Game` (`game.dfy`): the game state record, `moveSnake`, `checkCollision`, `updateScore`.
- `Loop` (`loop.dfy`): one `gameLoop` frame, `setDifficulty`, `startGame`, the acceleration key
  handlers, the state invariant kept by every frame and key press, and a method running many frames.

Randomness is a parameter: every operation that may place food takes a sequence of draws, each a
pair of reals in [0, 1) standing for two `Math.random()` results. The script redraws without bound
while the cell lies on the snake. The model takes the draws in order and returns `None` when
every supplied draw lands on the snake. On a board the snake fills completely no draw can succeed
(`Food.FullBoardPlacesNoFood`). There the script's recursion (`return createFood()` is not a tail
call) overflows the call stack and throws. By then `moveSnake` has already grown the snake and
raised the score, and the exception escapes `gameLoop` before it schedules the next frame.

Behaviours of the script the model keeps:

- The no-reverse rule is an axis lock. A horizontal key is taken only while `dx == 0` and a vertical
  key only while `dy == 0`. One key press never reverses a moving snake. Two presses between moves
  can: right, then w, then a gives left, and the next move hits the neck (`Input.TwoPressesCanReverse`,
  `Loop.NeckReversalScenario`).
- Acceleration is started and stopped by the letter keys w/a/s/d only. The arrow keys steer but do
  not accelerate. Any w/a/s/d press sets the flag and any w/a/s/d release clears it, so pressing w,
  then a, then releasing a leaves w held and the flag clear.
- The accelerated move test is `counter >= threshold / 2` in real arithmetic. With threshold 5 the
  snake moves every third frame, not every 2.5 frames (`Loop.MoveDue`).
- The collision check bounds both axes by `tileCount`, which is the column count, while food is
  drawn from `[0, cols) x [0, rows)`. On a square board these agree (`Grid.SquareBoundsAgree`). On
  a taller board, food can appear in rows the collision check treats as out of bounds, and the game
  ends while the head is still on the board. On a wider board, a running snake can move below the
  last row without ending the game.
- The head starts at column cols/4 and the tail at column cols/4 - 2, all in row rows/2. The snake
  is inside the collision bounds only when there are at least eight columns and rows/2 < cols
  (`Loop.StartGameEstablishesInvariant`).

## Model

| member | source | states |
|---|---|---|
| `Grid.SampleCell` | script.js:179-183 | `Math.floor(random * count)` on each axis lands inside `[0, cols) x [0, rows)` whenever the board has at least one tile |
| `Grid.SampleCoversBoard` | script.js:180-183 | every cell of the board is reachable: some valid pair of random results samples it |
| `Grid.SquareBoundsAgree` | script.js:231-235 | on a square board the cells food is drawn from are exactly the cells the collision check accepts |
| `Input.KeyStep` | script.js:48-59 | every movement key asks for a unit step, and it is horizontal exactly for the left/right keys |
| `Input.ChangeDirection` | script.js:46-61 | a horizontal key applies only while dx is 0, a vertical key only while dy is 0, other keys change nothing; a changed heading is a unit step, and a nonzero heading is never turned into its exact reverse |
| `Input.ChangeDirectionAccepts` | script.js:46-61 | a movement key takes effect exactly when its axis is at rest (or the heading already is that key's step), and an accepted turn of a moving snake is perpendicular to the old heading |
| `Input.ChangeDirectionKeepsValidHeading` | script.js:46-61 | the heading stays either at rest or a unit step whatever key is pressed |
| `Input.TwoPressesCanReverse` | script.js:46-61 | two presses (w then a) turn heading right into its exact reverse |
| `Food.CreateFood` | script.js:179-190 | placed food lies on no segment and inside the board; it is the first draw that misses the snake; no food is placed exactly when every draw lands on the snake |
| `Food.FullBoardPlacesNoFood` | script.js:185-189 | when the snake covers the whole board, no sequence of draws places food |
| `Food.FirstFreeDrawIsTaken` | script.js:179-190 | the first draw that misses the snake is the food placed |
| `Game.MoveSnake` | script.js:219-229 | the head moves one step along the heading and every other segment takes its predecessor's old cell; on the food the length and score grow by exactly one and new food is off the longer snake, otherwise length, score and food are unchanged; nothing else changes |
| `Game.MoveSnakeFood` | script.js:223-225 | the food an eating move places is the cell `createFood` picks on the lengthened snake from the same draws, that is, the first free draw |
| `Game.HitsFrom` | script.js:237-242 | the body scan finds a hit exactly when some segment at or after the start index equals the head |
| `Game.CheckCollision` | script.js:231-243 | gameOver becomes true exactly when it already was, the head is outside `[0, tileCount)` on either axis, or the head equals a segment at index 1 or later; nothing else changes |
| `Game.UpdateScore` | script.js:245-251 | the high score becomes the maximum of itself and the score, so it never decreases; nothing else changes |
| `Game.EnteringVacatedTailIsSafe` | script.js:219-243 | the tail is dropped before the check, so a head entering the cell the tail just left does not end the game |
| `Loop.MoveDue` | script.js:122-122 | the integer test agrees with the JavaScript test `counter >= threshold` or `counter >= threshold / 2` in real arithmetic; accelerated, the period is the threshold halved and rounded up |
| `Loop.MoveDueMonotone` | script.js:122-122 | a lower threshold never delays a move, and acceleration never delays a move |
| `Loop.SetDifficulty` | script.js:63-68 | the threshold plus the difficulty is 7; nothing else in the state changes |
| `Loop.DifficultyLevels` | script.js:68-68 | difficulties 1, 2, 3 give thresholds 6, 5, 4, and a harder level never moves later |
| `Loop.StartAcceleration` | script.js:72-78 | the flag becomes set exactly when it was set or the key is w/a/s/d; nothing else changes |
| `Loop.StopAcceleration` | script.js:80-86 | the flag stays set exactly when it was set and the key is not w/a/s/d; nothing else changes |
| `Loop.AccelerationKeys` | script.js:72-86 | releasing a w/a/s/d key clears the flag its press set; arrow keys and other keys neither set nor clear it |
| `Loop.KeyDown` | script.js:199-200 | a key press sets the heading to what `changeDirection` gives for that key and updates the flag as `startAcceleration` does; nothing else changes; a changed heading is a unit step that does not reverse the old one |
| `Loop.Frame` | script.js:119-135 | a finished game's frame changes nothing; otherwise the counter goes up by one and, exactly when the move test passes, the snake moves and the counter resets to 0: the head steps along the heading, the body is the whole old snake after eating and the old snake without its tail otherwise, the food is unchanged without eating and off the new snake after eating; gameOver afterwards is the collision verdict on the new snake; the high score of a running game becomes the larger of the old high score and the new score |
| `Loop.FrameEats` | script.js:119-125 | a running frame whose move eats fails exactly when `createFood` finds no free draw on the lengthened snake; otherwise the new food is the cell `createFood` picks |
| `Loop.Frames` | script.js:119-135 | a run of frames, each applied in order to the state the previous one left, as `requestAnimationFrame(gameLoop)` chains them; it gives `None` at the first frame whose draws run out, and a reached state always has a non-empty snake |
| `Loop.IdleFrame` | script.js:119-130 | a frame of a running game whose move test fails only increments the counter: the collision check and score update change nothing |
| `Loop.MovesWhenPeriodElapses` | script.js:119-125 | without key presses, a running snake stays in place until the counter reaches the period, and on that frame the head advances one step along the heading and the counter resets to 0 |
| `Loop.OverIsFinal` | script.js:119-135 | once gameOver is true, any run of later frames leaves the state unchanged, so no further move occurs |
| `Loop.FramesThenFrame` | script.js:119-135 | running one more frame after a run of frames continues from the state that run reached |
| `Loop.StartGame` | script.js:88-103 | a new game has a three-cell horizontal snake with the head rightmost at a quarter of the width, heading right, score and counter 0, not accelerating, not over, threshold 7 - difficulty, the high score carried over, and the food is the cell `createFood` picks for the new snake from the draws, so it is off the snake |
| `Loop.StartGameEstablishesInvariant` | script.js:88-101 | on a board of at least eight columns and at least one row, with rows/2 < cols, a new game satisfies the state invariant and the first move stays inside `[0, cols)` on both axes |
| `Loop.MoveKeepsDistinct` | script.js:219-243 | a move whose new head meets no body segment leaves a snake without repeated cells |
| `Loop.FramePreservesInvariant` | script.js:119-135 | every frame keeps food off the snake and inside the board, keeps the heading valid and the high score at least the score, and keeps a running snake inside `[0, cols)` on both axes with no repeated cell |
| `Loop.RecheckChangesNothing` | script.js:30-35 | re-running the collision check and the score update on a frame's result, before or after a key press, changes nothing |
| `Loop.KeyDownPreservesInvariant` | script.js:46-78 | a key press keeps the state invariant |
| `Loop.Run` | script.js:119-135 | the state returned is the one reached by running the frames done so far in order; the invariant holds and the high score never drops; a finished game never changes; it stops early only on a frame whose draws all land on the snake |
| `Loop.EatScenario` | script.js:219-225 | snake (5,5),(4,5),(3,5) heading right onto food (6,5) becomes (6,5),(5,5),(4,5),(3,5) with score 1 and new food off the snake |
| `Loop.LeftWallScenario` | script.js:231-235 | heading left from (0,5) puts the head at (-1,5) and ends the game |
| `Loop.NeckReversalScenario` | script.js:237-242 | after w then a from heading right, the next move hits the neck and ends the game |

## Left out

- Rendering (`clearCanvas`, `drawSnake`, `drawFood`, `showGameOver`): drawing on a 2D context that is not part of the game state.
- DOM wiring: element lookup, showing and hiding the menu, canvas and buttons (`showStartMenu`, the display lines of `startGame`), score text, the level label and event-listener registration. The menu/running/over screens are represented only by the `gameOver` flag.
- `localStorage` persistence of the high score. This is external I/O, and the stored value is read back as a string. The model keeps the high score as a natural number passed into `StartGame`.
- Timers: `setTimeout` and `requestAnimationFrame` scheduling. One `Frame` call is one animation-frame callback. `gameSpeed`, `normalSpeed` and `acceleratedSpeed` only feed the timer and are not modelled.
- `drawGame`, the second timer loop. It never moves the snake; it only re-runs the collision check and the score update, which `Loop.RecheckChangesNothing` shows change nothing on a state a frame produced. Its first call inside `startGame` is not modelled either.
- `Math.random`: replaced by supplied draws.
- `Food.CreateFood`: returns `None` when the supplied draws run out. The script instead recurses until a free cell turns up. On a full board its recursion overflows the stack and throws, and `None` also stands for that exception. `MoveSnake`, `Frame` and `StartGame` then return `None` and drop the partial state the script keeps: the grown snake and raised score that `moveSnake` has already written, with the food left on the snake. They also do not model the frame loop stopping while `drawGame`'s timer keeps calling `updateScore`.
- Key-name lower-casing and `parseInt` of the difficulty selector. Keys are an enumeration and the difficulty is an integer.
- The module-level state before the first `startGame` (`snake = [{x: 10, y: 10}]`, `food = {}`, heading (0, 0)). The model's states begin at `StartGame`.
- Canvas sizes that are not multiples of the 20-pixel grid: the board is given directly in whole tiles.
- `console.log` calls.
