# Snake game: tick simulation and obstacle table

A Dafny model of the simulation core of a small single-player snake game
written in Python with pygame. A snake moves on a board of 24 rows by 32
columns (a 640x480 window of 20-pixel cells), eats a bonus to grow by one
cell, and the round ends when the head leaves the board or runs into the
body. A separate level class turns a text grid into a list of obstacle
cells.

- `grid.dfy`, module `Grid`: cells as `(row, column)` integer pairs, the
  vector arithmetic on them, and an `Option` type.
- `snake.dfy`, module `Snakes` (Snake.py): class `Snake` with the fields
  `segments` (head first), `direction` and `blockDirection`, whose methods
  update them in place. The pure functions `Advance` (one step), `Extend`
  (growing) and `Steer` (one direction request) state what the mutating
  methods do to the fields, and lemmas state what those functions mean.
- `game.dfy`, module `Games` (Game.py): class `Game` with the snake, the
  bonus cell and the running flag; rejection sampling of the bonus;
  the key handler; one tick (`Update`); the collision test; and the main
  loop (`Run`). Input handling is specified by the fold `HandleEvents` over
  a tick's events, and the lemmas `OneTurnPerTick`, `NoReversalPerTick` and
  `RunningFalls` state what a tick's input can do.
  The class invariant `Game.Valid` says the bonus is on the board and never
  under the snake, and every operation keeps it.
  The state of a round between ticks is the value `Round`; the predicate
  `Stepped` relates the states before and after one update, and `Run`
  returns the sequence of states it passed through.
- `level.dfy`, module `Levels` (Level.py): class `Level` with its obstacle
  list, the scan of text lines as the function `Scan`, and lemmas about it:
  membership, count and row-major order.

Inputs that come from outside the program are parameters:

- the pygame event queue is a sequence of `Event` values (quit, key down
  with an abstract `Key`, anything else);
- the random draws of the bonus sampler are a sequence of cells, each on
  the board as `randint`'s range guarantees;
- the text file of a level is the sequence of its lines.

What the modelled code does and does not do:

- There is no edge wrap: leaving the 24x32 board is fatal (Game.py:53-54).
- The round never consults the obstacle table. `Game` does not use `Level`,
  so obstacles take no part in collisions or in bonus placement.
- The bonus sampler rejects only snake cells (Game.py:23).
- There is a single kind of bonus, which grows the snake by one cell
  (Game.py:43-45).

`Games.FirstTick` is a client of the class contracts. It has no contract of
its own. It builds a round whose first bonus lands at (0, 0), runs one
`Update`, and asserts that the head is at (12, 9), the length is still 2
and the round is still running.

## Model

| member | source | states |
|---|---|---|
| `Snakes.Snake.Valid` | Snake.py:3-4 | the class invariant: the body has at least two segments (the constructor creates two, `move` keeps the length, `grow` adds one) |
| `Snakes.Snake.constructor` | Snake.py:3-6 | the new snake is `[position, position - direction]`, heads along `direction`, lock clear |
| `Snakes.Steer` | Snake.py:10-12 | a set lock or the exact reverse keeps the direction; otherwise the requested direction is adopted; a non-zero direction is never turned into its reverse |
| `Snakes.Snake.ChangeDirection` | Snake.py:8-14 | the direction becomes `Steer(old direction, old lock, request)`, the lock is set in every case, the body is untouched |
| `Snakes.Snake.GetNextPosition` | Snake.py:16-19 | returns head + direction, clears the lock, leaves body and direction unchanged |
| `Snakes.Advance` | Snake.py:21-24 | one step keeps the length, puts head + direction first and shifts every other segment into the place of the one in front of it |
| `Snakes.AdvanceTradesTailForHead` | Snake.py:23-24 | as a multiset, a step removes exactly the old tail cell and adds exactly the new head cell |
| `Snakes.Snake.Move` | Snake.py:21-24 | the body becomes `Advance(old body, direction)`, length at least 2 is kept, the lock is cleared |
| `Snakes.HeadRepeated` | Snake.py:26-27 | the head occurs in the rest of the body iff it occurs at least twice in the whole body |
| `Snakes.Snake.IsCollision` | Snake.py:26-27 | true iff some later segment equals the head, iff the head occurs at least twice in the body |
| `Snakes.Snake.GetHead` | Snake.py:29-30 | the head is the first segment, and a segment of the body |
| `Snakes.Snake.GetSegments` | Snake.py:32-33 | returns the body itself |
| `Snakes.Extend` | Snake.py:35-43 | growing adds exactly one cell, keeps all earlier segments, and the new tail continues the last step of the body (same delta as from second-to-last to last) |
| `Snakes.ExtendKeepsTailContiguous` | Snake.py:39-42 | if the last two segments are neighbours, the new tail is a neighbour of the old tail |
| `Snakes.Snake.Grow` | Snake.py:35-43 | the body becomes `Extend(old body)`; direction and lock unchanged |
| `Snakes.Snake.GetLength` | Snake.py:45-46 | the length is the number of segments, at least 2 for a valid snake |
| `Games.FirstFree` | Game.py:20-24 | the accepted draw is free and every earlier draw lies on the snake |
| `Games.Game.GenerateBonus` | Game.py:20-24 | returns the first draw that is not a snake segment; it lies on the board and off the snake |
| `Games.Game.Valid` | Game.py:18 | the class invariant: the snake is valid, the bonus is on the board and not a snake segment; the constructor establishes it, `ProcessInput`, `Update` and `Run` keep it |
| `Games.Game.constructor` | Game.py:8-18 | the initial snake is `[(12, 8), (12, 7)]` heading `(0, 1)` with the lock clear, the round is running, the bonus is the first free draw |
| `Games.KeyDirection` | Game.py:31-38 | the body is the key table (Down (1, 0), Up (-1, 0), Left (0, -1), Right (0, 1)); the ensures state only that each arrow key stands for a unit step |
| `Games.Requested` | Game.py:31-38 | an arrow key produces a request for its own direction exactly when that direction is not the reverse of the current one; other keys produce none |
| `Games.HandleEvent` | Game.py:27-38 | one event: the round keeps running iff it was and the event is not a quit; the lock is set iff it was set or the key passed the handler's guard; a set lock keeps the direction; a non-zero direction is never reversed |
| `Games.HandleEvents` | Game.py:27-38 | the events of a tick in order: the running flag never comes back, and a lock already set keeps both the lock and the direction |
| `Games.FirstRequest` | Game.py:30-38 | the request is that of the first key event that passes the guard (every earlier key event is stopped by it), and it is never the reverse of the direction; if there is none, no key event passes the guard |
| `Games.OneTurnPerTick` | Game.py:26-38 | after a tick's events the direction is the first request if the lock was clear (otherwise unchanged), and the lock is set iff it was set or some request reached the snake |
| `Games.NoReversalPerTick` | Game.py:31-38 | a tick's input never reverses a non-zero direction |
| `Games.RunningFalls` | Game.py:28-29 | after a tick's events the round is running iff it was running and no quit event arrived |
| `Games.HandlerGuardOnlySavesLock` | Game.py:31-38 | for one arrow key, the handler's guard yields the same direction as asking the snake directly; it only spares the lock when the key is the reverse |
| `Games.Game.ProcessInput` | Game.py:26-38 | direction, lock and running flag become `HandleEvents` of the old ones over the events; body and bonus unchanged |
| `Games.PixelBounds` | Game.py:53-54 | `row * 20 >= 480` iff `row >= 24`, and `col * 20 >= 640` iff `col >= 32` |
| `Games.Game.CheckCollision` | Game.py:50-56 | true iff the head is off the 24x32 board or the snake runs into itself |
| `Games.EatsNext` | Game.py:41-43 | the snake eats the bonus on its next step iff head + direction is the bonus cell |
| `Games.Collided` | Game.py:50-56 | a body has collided iff its head is off the 24x32 board or occurs again in the rest of the body |
| `Games.Stepped` | Game.py:40-48 | one update: the snake steps; on the bonus it grows and the bonus becomes the first free draw of the grown body, otherwise the bonus stays; direction kept, lock cleared; running iff it was and the new body has not collided |
| `Games.StepKeepsBonusClear` | Game.py:40-45 | a step that misses the bonus leaves it off the body |
| `Games.AfterInput` | Game.py:26-38 | handling a tick's input leaves the body and the bonus alone, never restarts the round, and keeps the direction under a set lock |
| `Games.SteppedKeepsBonusClear` | Game.py:40-48 | one update keeps at least two segments and the bonus on the board and off the body, grows the body by one exactly when the bonus is eaten, and never restarts the round |
| `Games.Game.Update` | Game.py:40-48 | the snake steps; if the new head is on the old bonus it grows and the bonus is redrawn (length + 1), otherwise body is the step and the bonus stays; then running becomes false iff the collision test holds on the new state, and never becomes true; the state after is `Stepped` from the state before |
| `Games.Game.Run` | Game.py:70-75 | the ghost `trace` starts with the state on entry; each performed tick started on a running round and `Stepped` from the state after its input (`AfterInput`) to the next entry; without starvation the final state is the last entry, and if not every tick was performed the round has stopped; a starved tick started running, its input was handled, and the step would eat the bonus with no free draw for the grown body; a stopped round runs no tick |
| `Levels.Level.constructor` | Level.py:16-19 | a new level keeps its dimensions and has no obstacles |
| `Levels.Level.GenerateObstacles` | Level.py:30-34 | the obstacle list becomes the old list followed by `Scan(lines)`, so earlier obstacles stay as a prefix |
| `Levels.LineCells` | Level.py:31-34 | the cells of one line all lie in row y, at a column inside the line |
| `Levels.Scan` | Level.py:30-34 | the cells of all lines, line by line; every entry lies in a row of the text |
| `Levels.ScanBounds` | Level.py:30-33 | every entry is a character position of the text |
| `Levels.LineMembership` | Level.py:31-34 | `(y, x)` is in the cells of line y iff character x of the line is `#` |
| `Levels.ScanMembership` | Level.py:30-34 | `(y, x)` is in the table iff line y has a character x and it is `#` |
| `Levels.LineCount` | Level.py:31-34 | a line contributes one entry per `#` character |
| `Levels.ScanCount` | Level.py:30-34 | the table has as many entries as the text has `#` characters |
| `Levels.LineOrdered` | Level.py:31-34 | the cells of one line come in increasing column order |
| `Levels.ScanOrdered` | Level.py:30-34 | the table is in strict row-major order, so no cell appears twice |
| `Levels.Level.IsObstacle` | Level.py:46-56 | true iff the position occurs in the obstacle list |
| `Levels.ObstacleIffHash` | Level.py:30-56 | after loading lines into an empty table, a cell is an obstacle iff its character is `#` |

## Left out

- Rendering (`Game.render`, `Level.render_obstacles`), window and font set-up, `clock.tick`, `pygame.quit` and `sys.exit`: drawing and I/O.
- Event polling (`pygame.event.get`): the events of a tick are a parameter.
- `randint`: the draws of the bonus sampler are a parameter; each draw is required to lie on the board, which is what `randint(0, 23)` and `randint(0, 31)` return.
- Games.Game.GenerateBonus: requires that some supplied draw is free; the source keeps drawing forever, so an unbounded random stream is not modelled.
- Games.Game.constructor: requires a free draw for the first bonus, for the same reason.
- Games.Game.Update: requires a free draw when the step eats the bonus, for the same reason.
- Games.Game.Run: the main loop gets a finite list of ticks; it also stops (`starved`) at a tick whose bonus placement would need more draws than supplied, where the source would keep sampling.
- The file read of `Level.generate_obstacles` (`open` and `readlines`): the lines are a parameter. A missing file is not modelled.
- Menu.py and main.py: menus, name entry, settings and the highscore display are UI. main.py is not part of this model.
- Difficulty tick rates, obstacle collision in the round, and edge wrap: the modelled code has none of them.
