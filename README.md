# Snake game state, modelled in Dafny

A model of the game-state logic of a single-screen Snake game (`the_snake.py`).
The board is a torus of 32 × 24 cells: a 640 × 480 pixel screen cut into
20-pixel cells. The model covers these parts:

- the snake, with its head, its cells head first, its target length, its
  direction and its one-slot pending direction;
- the apple and how it is placed;
- the guard that turns arrow keys into a pending direction;
- one tick of the main loop.

Files and modules:

- `wrappers.dfy` (`Wrappers`): the `Option` type of the pending direction,
  which is `None` or a direction.
- `grid.dfy` (`Grid`): the constants, cells, the four directions, the
  modular step, and the cell-to-pixel mapping `_to_screen`.
- `snake.dfy` (`SnakeObject`): the snake's fields as a value `SnakeState`, and
  one pure transition per operation (`Start`, `DirectionUpdated`, `Moved`,
  `Grown`, `Colliding`). The class `Snake` has the same fields, and each of its
  methods updates them in place. Each method's postcondition ties the new
  state to its transition applied to the old state.
- `controls.dfy` (`Controls`): the key guard `Steer` for one key press. Also
  `PendingAfter` for the key presses of one tick, and the `HandleKeys` loop
  that writes the snake's pending slot.
- `apple.dfy` (`AppleObject`): the empty-cell list `FreeCells`. Also the loop
  that fills the occupancy matrix (`OccupancyMatrix`, over an `array2`), the
  comprehension over that matrix (`EmptyCells`), and the class `Apple` with
  the two branches of `randomize_position`.
- `game.dfy` (`GameLoop`): the start of a game (`NewGame`), one tick (`Tick`),
  and lemmas about a tick.

Nondeterminism and I/O:

- The two `random.randint` draws are the parameters `rx` and `ry`. They carry
  the bounds `randint` guarantees.
- `random.choice` is a nondeterministic choice (`:|`) from the empty-cell list.
- On an empty list, `random.choice` raises an error. The model returns
  `ok == false` and leaves the apple where it was. `Tick` then stops right
  after `grow`, as the game does when the exception ends it.
- The event queue is a sequence of key-down events (`Key`), read in order.

The first apple may lie on the snake, as in the source:

- `main` calls `Apple(snake)`, which passes the snake as the *position*
  argument.
- The constructor then overwrites that position with a draw that ignores the
  snake.
- `NewGame` states this: the first apple is on the snake exactly when the
  draw is the centre cell.
- Only placements after eating avoid the snake, so the first apple is not
  always off the snake.

## Model

| member | source | states |
|---|---|---|
| `Grid.Step` | the_snake.py:80-85 | the new head is always on the board, including from coordinate 0 going left or up |
| `Grid.StepIsNeighbour` | the_snake.py:80-85 | on the board, the modular step equals the neighbour with the wrap at each edge written out (31 → 0 going right, 0 → 23 going up) |
| `Grid.Reverse` | the_snake.py:10-13 | the opposite direction negates both vector components and differs from the direction |
| `Grid.ReverseIsOpposite` | the_snake.py:181-188 | the reverse is the only direction whose vector negates the direction's; reversing twice gives the direction back |
| `Grid.StepMoves` | the_snake.py:80-85 | every step moves the head to a different cell, since the board is more than one cell wide and tall |
| `Grid.ToScreen` | the_snake.py:51-53 | for a positive cell size, dividing the pixel by the cell size gives the cell back with no remainder |
| `Grid.ToScreenOnScreen` | the_snake.py:51-53 | a board cell maps to a cell-aligned pixel whose 20-pixel square lies inside the 640 × 480 screen |
| `Grid.ToScreenInjective` | the_snake.py:51-53 | distinct cells map to distinct pixels; dividing the pixel by the cell size gives the cell back |
| `SnakeObject.Start` | the_snake.py:112-118 | the reset state is one cell at the given position, of length 1, moving right, nothing pending; it is consistent exactly when the position is on the board |
| `SnakeObject.DirectionUpdated` | the_snake.py:72-76 | a pending direction becomes the direction and the slot is emptied; with nothing pending the state is unchanged; cells and length never change |
| `SnakeObject.DirectionUpdateIdempotent` | the_snake.py:72-76 | a second direction update in a row changes nothing |
| `SnakeObject.Moved` | the_snake.py:78-90 | the head is the wrapped step and comes first; the old body follows, losing its last cell only when already at full length; at least one cell and at most the target length are kept |
| `SnakeObject.Grown` | the_snake.py:92-94 | the length goes up by exactly one and nothing else changes; the invariant is kept |
| `SnakeObject.GrowThenMove` | the_snake.py:87-94 | after grow, the next move drops no tail cell: the body is one cell longer and is the new head followed by the whole old body |
| `SnakeObject.MovesFillUp` | the_snake.py:87-90 | moving without growing adds one cell per move until the target length is reached, then keeps it |
| `SnakeObject.MoveKeepsDistinct` | the_snake.py:87-90 | a move that does not collide keeps the body free of repeated cells |
| `SnakeObject.Colliding` | the_snake.py:212 | the head collides exactly when it equals the cell at some index 1 or later of the body |
| `SnakeObject.SingleCellNeverCollides` | the_snake.py:212 | a body of one cell never collides with itself |
| `SnakeObject.Snake.constructor` | the_snake.py:59-70 | a new snake is the start state at the given cell, (0, 0) by default; started on the board it satisfies the invariant |
| `SnakeObject.Snake.UpdateDirection` | the_snake.py:72-76 | the fields become `DirectionUpdated` of the old fields; the invariant is kept |
| `SnakeObject.Snake.Move` | the_snake.py:78-90 | the fields become `Moved` of the old fields; the invariant is kept |
| `SnakeObject.Snake.Grow` | the_snake.py:92-94 | the fields become `Grown` of the old fields; the invariant is kept |
| `SnakeObject.Snake.GetHeadPosition` | the_snake.py:108-110 | returns the head, which is the first cell and on the board when the invariant holds |
| `SnakeObject.Snake.Reset` | the_snake.py:112-118 | whatever the prior state: length 1, cells `[p]`, head `p`, moving right, nothing pending |
| `Controls.Steer` | the_snake.py:181-188 | an arrow key whose direction is not the reverse of the current one overwrites the pending slot; any other key leaves it unchanged |
| `Controls.PendingAfter` | the_snake.py:176-188 | after the key presses of a tick the pending slot is either as it was or the direction of one of the accepted keys |
| `Controls.NoAcceptedKeyKeepsPending` | the_snake.py:176-188 | when no key of a tick is accepted, the pending slot keeps its value |
| `Controls.LastAcceptedKeyWins` | the_snake.py:176-188 | after several key presses the pending direction is that of the last accepted key |
| `Controls.PendingNeverReverse` | the_snake.py:181-188 | the key guard never stores the reverse of the current direction |
| `Controls.HandleKeys` | the_snake.py:170-188 | the loop over the key events leaves in the pending slot what `PendingAfter` gives for those keys, and changes no other field |
| `AppleObject.FreeCells` | the_snake.py:161-165 | the empty-cell list holds exactly the board cells not on the snake, each once, in x-major order |
| `AppleObject.ColumnsInOrder` | the_snake.py:161-163 | the comprehension, x outer and y inner, lists the cells in x-major order |
| `AppleObject.NoFreeCellIffBoardCovered` | the_snake.py:161-167 | the list is empty exactly when the snake covers every board cell, the case where the random choice fails |
| `AppleObject.FreeCellsAtLeast` | the_snake.py:158-167 | at least 768 minus the number of snake cells are free, so a snake with fewer cells than the board always leaves a cell |
| `AppleObject.OccupancyMatrix` | the_snake.py:158-160 | the 32 × 24 matrix is nonzero exactly at the snake's cells |
| `AppleObject.EmptyCells` | the_snake.py:161-165 | the comprehension over the matrix yields exactly `FreeCells` of the snake's cells |
| `AppleObject.Apple.constructor` | the_snake.py:124-133 | the position passed in is discarded; the apple is at the randint draw, which is on the board |
| `AppleObject.Apple.RandomizePosition` | the_snake.py:151-156 | without a snake, the apple may be at any board cell, the one drawn |
| `AppleObject.Apple.RandomizePositionAvoiding` | the_snake.py:146-167 | with a snake, the choice succeeds exactly when a free cell exists; the new position is then on the board and off the snake; otherwise the position is unchanged |
| `GameLoop.NoReversal` | the_snake.py:181-188 | with nothing pending at the start of a tick, the direction after the update is never the exact reverse of the previous one |
| `GameLoop.TickKeepsConsistent` | the_snake.py:205-213 | a tick keeps the snake's invariant, with or without eating and reset |
| `GameLoop.OneCellSnakeNeverResets` | the_snake.py:205-213 | a snake whose body is one cell never collides and is never reset, whatever its target length and whether or not it eats; with length 1 it is still one cell after the move |
| `GameLoop.TickKeepsDistinct` | the_snake.py:205-213 | after a tick the body holds no repeated cell, if it held none before |
| `GameLoop.NewGame` | the_snake.py:199-200 | the snake starts at the centre, and the first apple is on it exactly when the draw is the centre |
| `GameLoop.Tick` | the_snake.py:204-213 | the snake grows and the apple moves to a free cell exactly when the moved head is on the apple; the snake is reset at the centre exactly when the head lies on the rest of the body; the pending slot is empty afterwards; the invariant is kept; placement fails only when the grown snake covers the board |

## Left out

- Drawing: the `draw` methods, `screen.fill`, the border rectangle and
  `pygame.display.update` (the_snake.py:42-48, 96-106, 135-144, 215-226). These
  are calls into the graphics library with no game logic.
- Display and clock set-up, `clock.tick` and `SPEED` (the_snake.py:20-24,
  203). These are side effects and timing.
- Event polling, the quit event, `pygame.quit()` and `SystemExit`
  (the_snake.py:176-180). These are I/O. `HandleKeys` takes the key-down
  events of a tick as a sequence. An event that is not a key press changes
  nothing, like `OtherKey`.
- The colour constants and the `body_color` fields. They only affect drawing.
- The `GameObject` base class. Its only logic is `_to_screen`, which is
  `Grid.ToScreen`. The `assert len(position) == 2` holds by the type of a
  cell.
- The endless `while True` loop. `Tick` is one pass of its body, so a game is
  `NewGame` followed by repeated ticks.
- `randomize_position` is one method whose snake argument may be `None`. The
  model splits it into its two branches, `RandomizePosition` and
  `RandomizePositionAvoiding`.
- `AppleObject.Apple.RandomizePositionAvoiding`: does not model the uniform
  distribution of `random.choice`. It says only that some cell of the
  empty-cell list is chosen.
- `AppleObject.Apple.RandomizePosition`: does not model the uniform
  distribution of `random.randint`. The draws are parameters within
  `randint`'s bounds.
- `AppleObject.Apple.constructor`: its `position` argument is not modelled.
  `main` passes the snake object there, and the constructor overwrites it at
  once.
