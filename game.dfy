/** The game loop without rendering or timing: the start of a game and one tick
    of state update (key guard, direction update, move, eating, self-collision). */
module GameLoop {
  import opened Wrappers
  import opened Grid
  import opened SnakeObject
  import opened Controls
  import opened AppleObject

  /** The snake after the key presses of a tick, the direction update and the move. */
  function Advanced(s: SnakeState, keys: seq<Key>): SnakeState {
    Moved(DirectionUpdated(s.(nextDirection := PendingAfter(s.direction, s.nextDirection, keys))))
  }

  /** After the move the head is on the apple. */
  predicate Eats(s: SnakeState, keys: seq<Key>, apple: Cell) {
    Advanced(s, keys).position == apple
  }

  /** The snake after the move and, if it ate, after growing. */
  function Fed(s: SnakeState, keys: seq<Key>, apple: Cell): SnakeState {
    if Eats(s, keys, apple) then Grown(Advanced(s, keys)) else Advanced(s, keys)
  }

  /** The snake after the self-collision check: reset at the centre on a collision. */
  function Settled(s: SnakeState): SnakeState {
    if Colliding(s) then Start(GridCenter) else s
  }

  /** With nothing pending at the start of a tick (as after every tick) the
      snake never turns straight back: the new direction is never the exact
      reverse of the previous tick's direction. */
  lemma NoReversal(s: SnakeState, keys: seq<Key>)
    requires s.nextDirection == None || s.nextDirection.value != Reverse(s.direction)
    ensures Advanced(s, keys).direction != Reverse(s.direction)
  {
    PendingNeverReverse(s.direction, s.nextDirection, keys);
  }

  /** A tick keeps the snake's invariant, also on the path where the apple
      cannot be placed. */
  lemma TickKeepsConsistent(s: SnakeState, keys: seq<Key>, apple: Cell)
    requires Consistent(s)
    ensures Consistent(Fed(s, keys, apple)) && Consistent(Settled(Fed(s, keys, apple)))
  {
  }

  /** A snake whose body is one cell is never reset, whatever its target
      length and whether or not it eats: the step moves the head off its only
      cell. A snake of length 1 is still one cell after the move. */
  lemma OneCellSnakeNeverResets(s: SnakeState, keys: seq<Key>, apple: Cell)
    requires Consistent(s) && |s.positions| == 1
    ensures s.length == 1 ==> |Fed(s, keys, apple).positions| == 1
    ensures !Colliding(Fed(s, keys, apple))
    ensures Settled(Fed(s, keys, apple)) == Fed(s, keys, apple)
  {
    var u := DirectionUpdated(s.(nextDirection := PendingAfter(s.direction, s.nextDirection, keys)));
    StepMoves(u.position, u.direction);
  }

  /** A tick without a reset keeps the body free of repeated cells. */
  lemma TickKeepsDistinct(s: SnakeState, keys: seq<Key>, apple: Cell)
    requires Consistent(s) && Distinct(s.positions)
    ensures Distinct(Settled(Fed(s, keys, apple)).positions)
  {
  }

  /** main before the loop: the snake starts at the centre and the apple at the
      cell drawn by randint, ignoring the snake, so the first apple lies on the
      snake exactly when that draw is the centre. */
  method NewGame(rx: int, ry: int) returns (snake: Snake, apple: Apple)
    requires 0 <= rx < GridWidth && 0 <= ry < GridHeight
    ensures snake.Valid() && snake.State() == Start(GridCenter)
    ensures apple.position == Cell(rx, ry)
    ensures apple.position in snake.positions <==> Cell(rx, ry) == GridCenter
  {
    snake := new Snake(GridCenter);
    apple := new Apple(rx, ry);
  }

  /** One pass of the loop body without drawing: read the keys, update the
      direction, move; on reaching the apple grow and place the apple off the
      snake; on running into the body reset at the centre. `ok` is false when
      the apple cannot be placed because the snake covers the board, where
      the game stops with an error after growing. */
  method Tick(snake: Snake, apple: Apple, keys: seq<Key>) returns (ok: bool)
    requires snake.Valid()
    modifies snake, apple
    ensures snake.Valid() && snake.nextDirection == None
    ensures old(InGrid(apple.position)) ==> InGrid(apple.position)
    ensures |Fed(old(snake.State()), keys, old(apple.position)).positions| < GridWidth * GridHeight ==> ok
    ensures var fed := Fed(old(snake.State()), keys, old(apple.position));
      ok <==> (!Eats(old(snake.State()), keys, old(apple.position)) || FreeCells(fed.positions) != [])
    ensures var fed := Fed(old(snake.State()), keys, old(apple.position));
      snake.State() == if ok then Settled(fed) else fed
    ensures var fed := Fed(old(snake.State()), keys, old(apple.position));
      if Eats(old(snake.State()), keys, old(apple.position)) && ok
      then apple.position in FreeCells(fed.positions)
      else apple.position == old(apple.position)
  {
    HandleKeys(snake, keys);
    snake.UpdateDirection();
    snake.Move();
    var head := snake.GetHeadPosition();
    if head == apple.position {
      snake.Grow();
      FreeCellsAtLeast(snake.positions);
      ok := apple.RandomizePositionAvoiding(snake);
      if !ok {
        return;
      }
    }
    head := snake.GetHeadPosition();
    if |snake.positions| >= 1 && head in snake.positions[1..] {
      snake.Reset(GridCenter);
    }
    ok := true;
  }
}
