/** The snake: its state as a value, the pure transitions that specify each of
    its operations, and the class whose methods update the state in place. */
module SnakeObject {
  import opened Wrappers
  import opened Grid

  /** The five fields of a snake: the head, the occupied cells head first, the
      target length, the current direction and the one-slot pending direction. */
  datatype SnakeState = SnakeState(
    position: Cell,
    positions: seq<Cell>,
    length: int,
    direction: Direction,
    nextDirection: Option<Direction>)

  /** The snake's invariant: at least one cell and never more than the target
      length, the head is the first cell, and every cell is on the board. */
  predicate Consistent(s: SnakeState) {
    && 1 <= |s.positions| <= s.length
    && s.position == s.positions[0]
    && AllInGrid(s.positions)
  }

  /** No cell is occupied twice. */
  predicate Distinct(cs: seq<Cell>) {
    forall i, j :: 0 <= i < j < |cs| ==> cs[i] != cs[j]
  }

  /** The state set by the constructor and by reset: one cell at `p`, length 1,
      moving right, nothing pending. */
  function Start(p: Cell): (r: SnakeState)
    ensures r.positions == [p] && r.position == p && r.length == 1
    ensures r.direction == Right && r.nextDirection == None
    ensures Consistent(r) <==> InGrid(p)
  {
    SnakeState(p, [p], 1, Right, None)
  }

  /** update_direction: a pending direction becomes the current one and the slot
      is emptied; with nothing pending the state is left as it is. */
  function DirectionUpdated(s: SnakeState): (r: SnakeState)
    ensures r.nextDirection == None
    ensures r.direction == (if s.nextDirection.Some? then s.nextDirection.value else s.direction)
    ensures r.position == s.position && r.positions == s.positions && r.length == s.length
    ensures s.nextDirection == None ==> r == s
  {
    match s.nextDirection
    case Some(d) => s.(direction := d, nextDirection := None)
    case None => s
  }

  /** move: the cell one step ahead, wrapped around the board, becomes the head
      and is put in front; the last cell is dropped only when the list would
      otherwise exceed the target length. */
  function Moved(s: SnakeState): (r: SnakeState)
    ensures r.position == Step(s.position, s.direction) && InGrid(r.position)
    ensures s.length >= 1 ==> |r.positions| >= 1 && r.positions[0] == r.position
    ensures r.length == s.length && r.direction == s.direction && r.nextDirection == s.nextDirection
    ensures Consistent(s) ==> Consistent(r)
    ensures Consistent(s) ==>
      |r.positions| == (if |s.positions| < s.length then |s.positions| + 1 else |s.positions|)
    ensures Consistent(s) ==> r.positions[1..] == s.positions[..|r.positions| - 1]
  {
    var head := Step(s.position, s.direction);
    var inserted := [head] + s.positions;
    var kept := if |inserted| > s.length then inserted[..|inserted| - 1] else inserted;
    s.(position := head, positions := kept)
  }

  /** grow: the target length goes up by one and nothing else changes. */
  function Grown(s: SnakeState): (r: SnakeState)
    ensures r.length == s.length + 1
    ensures r.position == s.position && r.positions == s.positions
    ensures r.direction == s.direction && r.nextDirection == s.nextDirection
    ensures Consistent(s) ==> Consistent(r)
  {
    s.(length := s.length + 1)
  }

  /** The head lies on the rest of the body. */
  predicate Colliding(s: SnakeState)
    ensures Colliding(s) <==> exists i :: 1 <= i < |s.positions| && s.positions[i] == s.position
  {
    |s.positions| >= 1 && s.position in s.positions[1..]
  }

  /** A snake whose body is one cell cannot run into itself. */
  lemma SingleCellNeverCollides(s: SnakeState)
    requires |s.positions| <= 1
    ensures !Colliding(s)
  {
  }

  /** Updating the direction twice in a row changes nothing the second time. */
  lemma DirectionUpdateIdempotent(s: SnakeState)
    ensures DirectionUpdated(DirectionUpdated(s)) == DirectionUpdated(s)
  {
  }

  /** After grow, the next move keeps the tail: the body gets exactly one cell
      longer and the old body follows the new head unchanged. */
  lemma GrowThenMove(s: SnakeState)
    requires Consistent(s)
    ensures |Moved(Grown(s)).positions| == |s.positions| + 1
    ensures Moved(Grown(s)).positions == [Moved(Grown(s)).position] + s.positions
  {
  }

  /** Without a collision, a move keeps the body free of repeated cells. */
  lemma MoveKeepsDistinct(s: SnakeState)
    requires Consistent(s) && Distinct(s.positions)
    requires !Colliding(Moved(s))
    ensures Distinct(Moved(s).positions)
  {
  }

  /** `n` moves in a row. */
  function MovedTimes(s: SnakeState, n: nat): SnakeState
    decreases n
  {
    if n == 0 then s else MovedTimes(Moved(s), n - 1)
  }

  /** Moving without growing lengthens the body by one cell per move until it
      reaches the target length, and keeps it there. */
  lemma {:induction false} MovesFillUp(s: SnakeState, n: nat)
    requires Consistent(s)
    ensures Consistent(MovedTimes(s, n))
    ensures MovedTimes(s, n).length == s.length
    ensures |MovedTimes(s, n).positions| ==
      (if |s.positions| + n < s.length then |s.positions| + n else s.length)
    decreases n
  {
    if n > 0 {
      MovesFillUp(Moved(s), n - 1);
    }
  }

  class Snake {
    var position: Cell
    var positions: seq<Cell>
    var length: int
    var direction: Direction
    var nextDirection: Option<Direction>

    /** The snake's fields as a value. */
    function State(): SnakeState
      reads this
    {
      SnakeState(position, positions, length, direction, nextDirection)
    }

    predicate Valid()
      reads this
    {
      Consistent(State())
    }

    /** Snake(position): one cell at `p`, length 1, moving right; a snake
        started on the board satisfies the invariant. */
    constructor (p: Cell := Cell(0, 0))
      ensures State() == Start(p)
      ensures InGrid(p) ==> Valid()
    {
      position := p;
      length := 1;
      positions := [p];
      direction := Right;
      nextDirection := None;
    }

    method UpdateDirection()
      modifies this
      ensures State() == DirectionUpdated(old(State()))
      ensures old(Valid()) ==> Valid()
    {
      if nextDirection.Some? {
        direction := nextDirection.value;
        nextDirection := None;
      }
    }

    method Move()
      modifies this
      ensures State() == Moved(old(State()))
      ensures old(Valid()) ==> Valid()
    {
      var newHead := Step(position, direction);
      position := newHead;
      positions := [newHead] + positions;
      if |positions| > length {
        positions := positions[..|positions| - 1];
      }
    }

    method Grow()
      modifies this
      ensures State() == Grown(old(State()))
      ensures old(Valid()) ==> Valid()
    {
      length := length + 1;
    }

    method GetHeadPosition() returns (head: Cell)
      ensures head == position
      ensures Valid() ==> head == positions[0] && InGrid(head)
    {
      head := position;
    }

    /** reset(position): whatever the prior state, the snake is a single cell
        at `p`, of length 1, moving right, with nothing pending. */
    method Reset(p: Cell)
      modifies this
      ensures State() == Start(p)
      ensures length == 1 && positions == [p] && position == p
      ensures direction == Right && nextDirection == None
      ensures InGrid(p) ==> Valid()
    {
      length := 1;
      position := p;
      positions := [p];
      direction := Right;
      nextDirection := None;
    }
  }
}
