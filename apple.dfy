/** The apple and its placement: the list of free cells in the order the
    game enumerates them, the occupancy matrix it is read from, and the two
    ways of choosing a new position. */
module AppleObject {
  import opened Grid
  import opened SnakeObject

  /** `a` comes before `b` when the board is read column by column (x-major). */
  predicate Before(a: Cell, b: Cell) {
    a.x < b.x || (a.x == b.x && a.y < b.y)
  }

  predicate XMajor(cs: seq<Cell>) {
    forall i, j :: 0 <= i < j < |cs| ==> Before(cs[i], cs[j])
  }

  /** The free cells (x, 0) .. (x, n - 1) of column x, top to bottom. */
  function FreeInColumn(ps: seq<Cell>, x: int, n: nat): seq<Cell> {
    if n == 0 then []
    else FreeInColumn(ps, x, n - 1) + (if Cell(x, n - 1) in ps then [] else [Cell(x, n - 1)])
  }

  /** The free cells of columns 0 .. m - 1, column by column. */
  function FreeColumns(ps: seq<Cell>, m: nat): seq<Cell> {
    if m == 0 then [] else FreeColumns(ps, m - 1) + FreeInColumn(ps, m - 1, GridHeight)
  }

  /** A column lists exactly its cells off the snake. */
  lemma {:induction false} ColumnMembers(ps: seq<Cell>, x: int, n: nat)
    ensures forall c :: c in FreeInColumn(ps, x, n) <==> c.x == x && 0 <= c.y < n && c !in ps
    ensures forall i :: 0 <= i < |FreeInColumn(ps, x, n)| ==>
      FreeInColumn(ps, x, n)[i].x == x && 0 <= FreeInColumn(ps, x, n)[i].y < n
  {
    if n > 0 {
      ColumnMembers(ps, x, n - 1);
    }
  }

  /** The first m columns list exactly their cells off the snake. */
  lemma {:induction false} ColumnsMembers(ps: seq<Cell>, m: nat)
    ensures forall c :: c in FreeColumns(ps, m) <==> 0 <= c.x < m && 0 <= c.y < GridHeight && c !in ps
    ensures forall i :: 0 <= i < |FreeColumns(ps, m)| ==> 0 <= FreeColumns(ps, m)[i].x < m
  {
    if m > 0 {
      ColumnsMembers(ps, m - 1);
      ColumnMembers(ps, m - 1, GridHeight);
    }
  }

  /** A column lists its free cells top to bottom. */
  lemma {:induction false} ColumnInOrder(ps: seq<Cell>, x: int, n: nat)
    ensures XMajor(FreeInColumn(ps, x, n))
  {
    if n > 0 {
      ColumnInOrder(ps, x, n - 1);
      ColumnMembers(ps, x, n - 1);
    }
  }

  /** Two ordered lists, the first wholly before the second, join into an ordered list. */
  lemma JoinInOrder(a: seq<Cell>, b: seq<Cell>)
    requires XMajor(a) && XMajor(b)
    requires forall i, j :: 0 <= i < |a| && 0 <= j < |b| ==> Before(a[i], b[j])
    ensures XMajor(a + b)
  {
  }

  /** The columns are listed left to right, each top to bottom. */
  lemma {:induction false} ColumnsInOrder(ps: seq<Cell>, m: nat)
    ensures XMajor(FreeColumns(ps, m))
  {
    if m > 0 {
      var left, right := FreeColumns(ps, m - 1), FreeInColumn(ps, m - 1, GridHeight);
      ColumnsInOrder(ps, m - 1);
      ColumnInOrder(ps, m - 1, GridHeight);
      ColumnsMembers(ps, m - 1);
      ColumnMembers(ps, m - 1, GridHeight);
      JoinInOrder(left, right);
    }
  }

  /** The empty_cells list: exactly the board cells not on the snake, each once,
      in x-major order. */
  function FreeCells(ps: seq<Cell>): (r: seq<Cell>)
    ensures forall c :: c in r <==> InGrid(c) && c !in ps
    ensures XMajor(r)
    ensures Distinct(r)
  {
    ColumnsMembers(ps, GridWidth);
    ColumnsInOrder(ps, GridWidth);
    FreeColumns(ps, GridWidth)
  }

  /** No free cell is left exactly when the snake covers the whole board. */
  lemma NoFreeCellIffBoardCovered(ps: seq<Cell>)
    ensures FreeCells(ps) == [] <==> forall c :: InGrid(c) ==> c in ps
  {
    if FreeCells(ps) != [] {
      assert FreeCells(ps)[0] in FreeCells(ps);
    }
  }

  /** The snake's cells in column x with y < n. */
  ghost function TakenInColumn(ps: seq<Cell>, x: int, n: int): set<Cell> {
    set c | c in ps && c.x == x && 0 <= c.y < n
  }

  /** The snake's cells in columns 0 .. m - 1. */
  ghost function TakenInColumns(ps: seq<Cell>, m: int): set<Cell> {
    set c | c in ps && 0 <= c.x < m && 0 <= c.y < GridHeight
  }

  /** Taking one more row of a column adds that cell exactly when the snake is on it. */
  lemma TakenInColumnStep(ps: seq<Cell>, x: int, n: nat)
    ensures |TakenInColumn(ps, x, n + 1)| == |TakenInColumn(ps, x, n)| + (if Cell(x, n) in ps then 1 else 0)
  {
    var c := Cell(x, n);
    var before, after := TakenInColumn(ps, x, n), TakenInColumn(ps, x, n + 1);
    forall e | e in after
      ensures e in before || e == c
    {
      if e.y == n { assert e == Cell(e.x, e.y); }
    }
    if c in ps {
      assert after == before + {c};
    } else {
      assert after == before;
    }
  }

  /** Taking one more column adds that column's taken cells, which are new. */
  lemma TakenInColumnsStep(ps: seq<Cell>, m: nat)
    ensures |TakenInColumns(ps, m + 1)| == |TakenInColumns(ps, m)| + |TakenInColumn(ps, m, GridHeight)|
  {
    var a, b := TakenInColumns(ps, m), TakenInColumn(ps, m, GridHeight);
    assert TakenInColumns(ps, m + 1) == a + b;
    assert a * b == {};
  }

  /** Every cell of a column is either free or taken. */
  lemma {:induction false} ColumnSplits(ps: seq<Cell>, x: int, n: nat)
    requires n <= GridHeight
    ensures |FreeInColumn(ps, x, n)| + |TakenInColumn(ps, x, n)| == n
  {
    if n > 0 {
      ColumnSplits(ps, x, n - 1);
      TakenInColumnStep(ps, x, n - 1);
    }
  }

  /** Every cell of the first m columns is either free or taken. */
  lemma {:induction false} ColumnsSplit(ps: seq<Cell>, m: nat)
    requires m <= GridWidth
    ensures |FreeColumns(ps, m)| + |TakenInColumns(ps, m)| == m * GridHeight
  {
    if m > 0 {
      ColumnsSplit(ps, m - 1);
      ColumnSplits(ps, m - 1, GridHeight);
      TakenInColumnsStep(ps, m - 1);
      assert (m - 1) * GridHeight + GridHeight == m * GridHeight;
    }
  }

  /** A sequence has at most as many distinct elements as entries. */
  lemma {:induction false} ElementsAtMostLength(ps: seq<Cell>)
    ensures |set c | c in ps| <= |ps|
  {
    if ps != [] {
      ElementsAtMostLength(ps[1..]);
      assert (set c | c in ps) == (set c | c in ps[1..]) + {ps[0]};
    }
  }

  /** A subset is no larger than its superset. */
  lemma SubsetNoLarger(a: set<Cell>, b: set<Cell>)
    requires a <= b
    ensures |a| <= |b|
  {
    assert b == a + (b - a);
  }

  /** At least board size minus snake length cells are free; in particular a
      snake with fewer cells than the board always leaves one. */
  lemma FreeCellsAtLeast(ps: seq<Cell>)
    ensures |FreeCells(ps)| >= GridWidth * GridHeight - |ps|
    ensures |ps| < GridWidth * GridHeight ==> FreeCells(ps) != []
  {
    ColumnsSplit(ps, GridWidth);
    ElementsAtMostLength(ps);
    SubsetNoLarger(TakenInColumns(ps, GridWidth), set c | c in ps);
  }

  /** The occupancy matrix marks exactly the snake's cells with a nonzero entry. */
  ghost predicate Marks(cells: array2<int>, ps: seq<Cell>)
    reads cells
  {
    && cells.Length0 == GridWidth && cells.Length1 == GridHeight
    && forall i, j :: 0 <= i < GridWidth && 0 <= j < GridHeight ==>
         (cells[i, j] == 0 <==> Cell(i, j) !in ps)
  }

  /** A GridWidth by GridHeight matrix of zeros in which each snake cell is set to 1. */
  method OccupancyMatrix(ps: seq<Cell>) returns (cells: array2<int>)
    requires AllInGrid(ps)
    ensures fresh(cells) && Marks(cells, ps)
  {
    cells := new int[GridWidth, GridHeight]((i, j) => 0);
    for k := 0 to |ps|
      invariant Marks(cells, ps[..k])
    {
      var c := ps[k];
      cells[c.x, c.y] := 1;
      assert ps[..k + 1] == ps[..k] + [c];
    }
    assert ps[..|ps|] == ps;
  }

  /** The comprehension over the matrix: every cell whose entry is 0, x outer
      and y inner. */
  method EmptyCells(cells: array2<int>, ghost ps: seq<Cell>) returns (empty: seq<Cell>)
    requires Marks(cells, ps)
    ensures empty == FreeCells(ps)
  {
    empty := [];
    for i := 0 to GridWidth
      invariant empty == FreeColumns(ps, i)
    {
      for j := 0 to GridHeight
        invariant empty == FreeColumns(ps, i) + FreeInColumn(ps, i, j)
      {
        assert (cells[i, j] == 0) == (Cell(i, j) !in ps);
        ghost var next := if Cell(i, j) in ps then [] else [Cell(i, j)];
        assert FreeInColumn(ps, i, j + 1) == FreeInColumn(ps, i, j) + next;
        if cells[i, j] == 0 {
          empty := empty + [Cell(i, j)];
        }
      }
      assert FreeColumns(ps, i + 1) == FreeColumns(ps, i) + FreeInColumn(ps, i, GridHeight);
    }
  }

  class Apple {
    var position: Cell

    /** Apple(position): the position handed in is overwritten at once by a
        placement that ignores the snake, so only the random draw matters;
        `rx` and `ry` are the two draws of randint. */
    constructor (rx: int, ry: int)
      requires 0 <= rx < GridWidth && 0 <= ry < GridHeight
      ensures position == Cell(rx, ry) && InGrid(position)
    {
      position := Cell(0, 0);
      new;
      RandomizePosition(rx, ry);
    }

    /** randomize_position() without a snake: any board cell, given by the
        draws `rx` in [0, GridWidth - 1] and `ry` in [0, GridHeight - 1]. */
    method RandomizePosition(rx: int, ry: int)
      requires 0 <= rx < GridWidth && 0 <= ry < GridHeight
      modifies this
      ensures position == Cell(rx, ry) && InGrid(position)
    {
      position := Cell(rx, ry);
    }

    /** randomize_position(snake): some free cell of the empty-cell list. With
        no free cell the choice fails (`ok` is false) and the position stays. */
    method RandomizePositionAvoiding(snake: Snake) returns (ok: bool)
      requires AllInGrid(snake.positions)
      modifies this
      ensures ok <==> FreeCells(snake.positions) != []
      ensures ok ==> position in FreeCells(snake.positions)
      ensures ok ==> InGrid(position) && position !in snake.positions
      ensures !ok ==> position == old(position)
    {
      var cells := OccupancyMatrix(snake.positions);
      var empty := EmptyCells(cells, snake.positions);
      if empty == [] {
        return false;
      }
      assert empty[0] in empty;
      var choice :| choice in empty;
      position := choice;
      ok := true;
    }
  }
}
