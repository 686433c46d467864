# Terminal Snake: the game-state machine

This project models the game logic of a terminal Snake game and proves its
invariants in Dafny. The repository has two copies of the rules:

- `snake.py` keeps the game in a `Snake` object. `update` advances one tick,
  `change_direction` turns the snake, `_generate_food` places food, and
  `render` builds a character board.
- `src/snake_ascii.py` runs the same rules as one curses loop over local
  variables.

One tick works like this. The snake's head moves one cell in the current
direction. A head on the border ring or on any current segment ends the
game; the tail about to be vacated counts as a segment. Otherwise the new
head goes in front. If the head lands on the food, the score goes up by one
and new food is drawn by rejection sampling. If not, the tail cell is dropped.

Modules:

- `Geometry` (`geometry.dfy`) has cells, direction vectors, the interior of
  the board, and the two border tests used by the two files.
- `Food` (`food.dfy`) has the rejection-sampling loop. The random source is
  injected as `draws`: the positions the two `randint` calls return, in order,
  one per retry. Each draw is interior, which is the range of `randint`. The
  loop stops because some draw is not on the snake.
- `SnakeGame` (`snake_game.dfy`) covers `snake.py`. Class `Game` has the
  fields of `Snake`: `width` and `height` are fixed, and `snake`, `direction`,
  `food`, `score` and `gameOver` change in place. The value `State` and the
  function `Tick` specify `update`; `Game.Update` is proved to compute `Tick`.
  `Glyph` specifies the board that `Render` fills.
- `SnakeAscii` (`snake_ascii.dfy`) covers `src/snake_ascii.py`. Class
  `Session` holds the loop's local variables. Its constructor is the setup
  before the loop, and `Step` is one pass of the loop body without the
  drawing. The function `Tick` specifies a pass. The board stays at that
  file's 20 x 40 constants.

The class variant has no size check. Below 3 x 3 the start cell is not
interior and `randint(1, h-2)` has an empty range, so `Game` requires at
least 3 x 3. That is not enough by itself: `__init__` draws food against the
start cell, so the board needs a second interior cell. On a 3 x 3 board the
start cell is the only interior cell, and `SnakeGame.NoFoodOnThreeByThree` shows
that no stream of interior draws ends the loop there. In general both food
loops need a draw that misses the snake, because when the snake covers the
interior the source's loop never ends. `Food.FreeDrawNeedsFreeCell` and
`Food.FreeCellGivesFreeDraw` show such a stream exists exactly when the board
still has a free interior cell.

`change_direction` assigns `self.direction` at once. There is no pending
direction for `update` to commit, and the model has none either.

## Model

| member | source | states |
|---|---|---|
| Geometry.WallIsNotInterior | snake.py:63-64 | the wall test holds exactly for cells outside the range `randint(1, height-2)` x `randint(1, width-2)` that food is drawn from |
| Geometry.BorderTestsAgree | src/snake_ascii.py:60-62 | one unit step from an interior cell, the `==` border-line test of the curses loop agrees with the `<=`/`>=` wall test of `update` |
| Food.FirstFree | snake.py:47-51 | the cell the rejection loop settles on is a draw, is not on the snake, and every earlier draw was on the snake |
| Food.FirstFreeUnique | snake.py:47-51 | whatever draw is first off the snake is the one the loop settles on |
| Food.FreeDrawNeedsFreeCell | snake.py:47-51 | a stream of interior draws can end the loop only if the board has a free interior cell |
| Food.FreeCellGivesFreeDraw | src/snake_ascii.py:71-74 | any free interior cell gives a stream that ends the loop |
| Food.Sample | snake.py:45-51 | the `while True` retry loop returns an interior cell off the snake: the first such draw |
| SnakeGame.StartCellInterior | snake.py:39 | the start cell `(height // 2, width // 2)` is interior on any board of at least 3 x 3 |
| SnakeGame.NoFoodOnThreeByThree | snake.py:39-51 | on a 3 x 3 board no stream of interior draws misses the start cell, so the first `_generate_food` never returns |
| SnakeGame.Tick | snake.py:53-81 | the value-level `update`: game-over guard, wall test, self test, then growth or a move; its cases are stated by `TickWhenOver`, `TickCollision`, `TickEats` and `TickMoves`, and `TickKeepsInv` shows it keeps the invariant |
| SnakeGame.TickWhenOver | snake.py:55-56 | once `game_over` is set, `update` changes nothing |
| SnakeGame.TickKeepsOver | snake.py:53-81 | no path through `update` sets `game_over` back to false |
| SnakeGame.TickCollision | snake.py:62-71 | a head on or past the border ring, or on any current segment including the tail, sets `game_over` and leaves snake, direction, food and score unchanged |
| SnakeGame.TickEats | snake.py:74-79 | on the food: the new head is `snake[0]`, the old snake follows it, length and score each go up by exactly 1, and the new food is interior and off the grown snake |
| SnakeGame.TickMoves | snake.py:74-81 | on any other free cell: the new head is `snake[0]`, the rest is the old snake without its last cell, and length, food and score are unchanged |
| SnakeGame.TickKeepsInv | snake.py:53-81 | every tick keeps the invariant: segments distinct and interior, food interior and off the snake, `len(snake) == score + 1` |
| SnakeGame.FiveTicksRight | snake.py:39-40 | on the default 40 x 20 board, five ticks from the start with the food out of the way take the head from (10, 20) to (10, 25), one column per tick, at length 1 and score 0 |
| SnakeGame.Steer | snake.py:83-89 | a request whose components cancel the current direction's is ignored; any other request is taken at once; the result is never the reverse of a unit direction |
| SnakeGame.AfterKeyKeepsUnit | snake.py:153-171 | a key polled by the `run_game` loop, mapped through W/S/A/D or not, leaves the direction a unit vector and changes nothing else |
| SnakeGame.AfterKeyNeverReverses | snake.py:153-171 | no polled key turns the snake straight back on itself |
| SnakeGame.AfterKey | snake.py:153-171 | the direction change of one polled key through `direction_map` and `change_direction`; `AfterKeyKeepsUnit` and `AfterKeyNeverReverses` state its properties |
| SnakeGame.BoardShowsState | snake.py:97-119 | on a state that keeps the invariant, border cells show the frame glyphs, `●` marks exactly the head, `○` exactly the other segments, `★` exactly the food, and blanks exactly the free interior |
| SnakeGame.FrameGlyph | snake.py:99-109 | the border glyph of each cell in the loops' overwrite order; `DrawFrame` is proved to leave it in every cell |
| SnakeGame.Glyph | snake.py:97-119 | what `render` shows in each cell, food over head over body over frame; `BoardShowsState` states what each glyph marks and `Render` is proved to fill it |
| SnakeGame.DrawFrame | snake.py:99-109 | the border loops leave `─` on the top and bottom rows, `│` on the side columns, and `┌ ┐ └ ┘` in the corners, with every other cell still blank |
| SnakeGame.Game.constructor | snake.py:35-43 | `__init__` gives a one-cell snake at the middle moving right, food from the draws, score 0, not over, and establishes the invariant |
| SnakeGame.Game.Update | snake.py:53-81 | `update` changes the object exactly as `Tick` describes and keeps the invariant |
| SnakeGame.Game.ChangeDirection | snake.py:83-89 | `change_direction` sets `direction` to what `Steer` gives and touches no other field |
| SnakeGame.Game.Turn | snake.py:164-174 | one pass of the `run_game` loop: `Q` stops before any update; a mapped key may turn the snake; then one `update` |
| SnakeGame.Game.Render | snake.py:96-119 | the board is `height` rows by `width` columns, and every cell holds what `Glyph` gives: a blank, then the frame, then head and body, then food on top |
| SnakeAscii.InitialInv | src/snake_ascii.py:21-25 | the setup gives the snake `[(10, 20), (10, 21), (10, 22)]` moving left at score 0 and satisfies the loop invariant |
| SnakeAscii.InitialFoodMayBeOnSnake | src/snake_ascii.py:23 | the first food is not checked against the snake, and an interior draw can land on it |
| SnakeAscii.Initial | src/snake_ascii.py:21-23 | the set-up locals; `InitialInv` gives the snake and the invariant, `InitialFoodMayBeOnSnake` the unchecked first food |
| SnakeAscii.Steered | src/snake_ascii.py:43-54 | the direction after the key chain; `SteeredIsSteer` relates it to `change_direction` |
| SnakeAscii.Move | src/snake_ascii.py:68-76 | the move after the collision test; `MoveKeepsInv` keeps the invariant and `MoveAgrees` matches it with `update` |
| SnakeAscii.Tick | src/snake_ascii.py:42-76 | one pass of the loop body; `TickCases` states its cases, `TickKeepsInv` its invariant and `AgreesWithSnakeGame` its agreement with `update` |
| SnakeAscii.SteeredIsSteer | src/snake_ascii.py:43-54 | an arrow key turns the snake unless it is moving the opposite way, the same guard as `change_direction`; any other key keeps the direction |
| SnakeAscii.TickCases | src/snake_ascii.py:42-76 | `q` ends the loop before any movement; a head on the snake or a border line ends the game with snake, food and score unchanged; otherwise the head goes in front, and the tail is popped unless the head is on the food, which adds one point and redraws the food off the snake |
| SnakeAscii.MoveKeepsInv | src/snake_ascii.py:68-76 | a move in a unit direction that passed the `==` collision test keeps the segments distinct and interior, the food interior, and `len(snake) == score + 3` |
| SnakeAscii.TickKeepsInv | src/snake_ascii.py:59-76 | every pass keeps the segments distinct and interior, the food interior, the direction a unit vector, and `len(snake) == score + 3` |
| SnakeAscii.AgreesWithSnakeGame | src/snake_ascii.py:59-76 | from a state that keeps the invariant, a pass ends the game exactly when `update` with the same direction does, and otherwise leaves the same snake, food and score |
| SnakeAscii.MoveAgrees | src/snake_ascii.py:59-76 | for one unit direction from an interior head, the curses collision test fails exactly when `update` ends the game, and otherwise both leave the same snake, food and score |
| SnakeAscii.Session.constructor | src/snake_ascii.py:21-25 | the locals start as `Initial` describes and satisfy the loop invariant |
| SnakeAscii.Session.ReadKey | src/snake_ascii.py:42-56 | the key chain sets `direction` as `Steered` says and returns whether the key was `q` |
| SnakeAscii.Session.Step | src/snake_ascii.py:42-76 | one pass changes the locals exactly as `Tick` describes, reports how the pass ended, and keeps the loop invariant |

## Left out

- Keyboard input (`get_key` with `msvcrt`, `select` and `sys.stdin.read`, snake.py:12-29) is platform I/O. Keys reach `Game.Turn` already read and upper-cased, as `Option<char>`.
- Terminal mode setup and restore (`termios`, `tty`, snake.py:134-145) is terminal I/O.
- Screen output is I/O: `os.system` clearing the screen, printing the board, score, controls and game-over text (snake.py:94, 121-131, 167, 181). So are all curses drawing and setup calls and `curses.wrapper` (src/snake_ascii.py:13-15, 28-39, 63-64, 78-82). Only the board grid is modelled.
- `time.sleep` and tick timing (snake.py:178, 183; src/snake_ascii.py:65) are not part of the state.
- `random.randint` is replaced by the injected `draws`. Uniformity is not modelled. A stream with no free draw, where the source would loop forever, is excluded by precondition.
- The outer `while not game.game_over` loop of `run_game` and its "press any key" wait (snake.py:162-183) are the driver, and so is the outer `while True` of the curses loop. Only one pass of each is modelled: `Game.Turn` and `Session.Step`.
- The curses arrow-key constants are foreign values. They are the abstract keys `KeyUp`, `KeyDown`, `KeyLeft` and `KeyRight`, assumed to differ from the codes 65 to 68 and 113. This holds in curses, where they are 258 to 261. A `getch` result of 258 to 261 is always written as one of the abstract keys, never as `Code(258)` to `Code(261)`; the model does not enforce this, and `Steered` treats those four codes as non-arrow keys.
- Python integers are unbounded and so are Dafny's; no width or wrap-around is involved.
