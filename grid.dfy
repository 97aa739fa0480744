/** Geometry of the Snake board: the screen and cell constants, cells, the four
    movement directions, the toroidal step and the cell-to-pixel mapping. */
module Grid {

  const ScreenWidth: int := 640
  const ScreenHeight: int := 480
  const GridSize: int := 20
  const GridWidth: int := ScreenWidth / GridSize
  const GridHeight: int := ScreenHeight / GridSize

  /** A cell of the board, as the (x, y) pair the game stores. */
  datatype Cell = Cell(x: int, y: int)

  const GridCenter: Cell := Cell(GridWidth / 2, GridHeight / 2)

  predicate InGrid(c: Cell) {
    0 <= c.x < GridWidth && 0 <= c.y < GridHeight
  }

  predicate AllInGrid(cs: seq<Cell>) {
    forall i :: 0 <= i < |cs| ==> InGrid(cs[i])
  }

  /** The four unit vectors UP = (0, -1), DOWN = (0, 1), LEFT = (-1, 0) and RIGHT = (1, 0). */
  datatype Direction = Up | Down | Left | Right {
    function Dx(): int {
      match this
      case Left => -1
      case Right => 1
      case _ => 0
    }
    function Dy(): int {
      match this
      case Up => -1
      case Down => 1
      case _ => 0
    }
  }

  /** The direction pointing the opposite way. */
  function Reverse(d: Direction): (r: Direction)
    ensures r.Dx() == -d.Dx() && r.Dy() == -d.Dy()
    ensures r != d
  {
    match d
    case Up => Down
    case Down => Up
    case Left => Right
    case Right => Left
  }

  /** `Reverse` is the only direction whose vector is the negation of `d`'s. */
  lemma ReverseIsOpposite(d: Direction, e: Direction)
    ensures (e.Dx() == -d.Dx() && e.Dy() == -d.Dy()) <==> e == Reverse(d)
    ensures Reverse(Reverse(d)) == d
  {
  }

  /** One step of the head: each coordinate is taken modulo the board size, so
      the board is a torus and no step leaves it. */
  function Step(c: Cell, d: Direction): (r: Cell)
    ensures InGrid(r)
  {
    Cell((c.x + d.Dx()) % GridWidth, (c.y + d.Dy()) % GridHeight)
  }

  /** The neighbouring cell of a board cell, with the wrap at each edge written out. */
  function Neighbour(c: Cell, d: Direction): Cell {
    match d
    case Up => Cell(c.x, if c.y == 0 then GridHeight - 1 else c.y - 1)
    case Down => Cell(c.x, if c.y == GridHeight - 1 then 0 else c.y + 1)
    case Left => Cell(if c.x == 0 then GridWidth - 1 else c.x - 1, c.y)
    case Right => Cell(if c.x == GridWidth - 1 then 0 else c.x + 1, c.y)
  }

  /** On the board, the modular step is the neighbour relation, including when
      stepping left or up from coordinate 0. */
  lemma StepIsNeighbour(c: Cell, d: Direction)
    requires InGrid(c)
    ensures Step(c, d) == Neighbour(c, d)
  {
    match d
    case Up => WrapStay(c.x, GridWidth); WrapDown(c.y, GridHeight);
    case Down => WrapStay(c.x, GridWidth); WrapUp(c.y, GridHeight);
    case Left => WrapDown(c.x, GridWidth); WrapStay(c.y, GridHeight);
    case Right => WrapUp(c.x, GridWidth); WrapStay(c.y, GridHeight);
  }

  /** A step always moves the head: the board is wider and taller than one cell,
      so no direction leads back to the same cell. */
  lemma StepMoves(c: Cell, d: Direction)
    requires InGrid(c)
    ensures Step(c, d) != c
  {
    StepIsNeighbour(c, d);
  }

  /** A coordinate on the board is its own remainder. */
  lemma WrapStay(a: int, n: int)
    requires 0 <= a < n
    ensures (a + 0) % n == a
  {
  }

  /** One up from the last coordinate wraps to 0. */
  lemma WrapUp(a: int, n: int)
    requires 0 <= a < n
    ensures (a + 1) % n == if a == n - 1 then 0 else a + 1
  {
  }

  /** One down from coordinate 0 wraps to the last one. */
  lemma WrapDown(a: int, n: int)
    requires 0 <= a < n
    ensures (a - 1) % n == if a == 0 then n - 1 else a - 1
  {
  }

  /** The top-left pixel of a cell; `cell` is the cell size in pixels. For a
      positive cell size, dividing the pixel by it gives the cell back, with no
      remainder. */
  function ToScreen(c: Cell, cell: int := GridSize): (r: (int, int))
    ensures cell > 0 ==> r.0 / cell == c.x && r.0 % cell == 0
    ensures cell > 0 ==> r.1 / cell == c.y && r.1 % cell == 0
  {
    if cell > 0 then
      MultipleDivides(c.x, cell);
      MultipleDivides(c.y, cell);
      (c.x * cell, c.y * cell)
    else
      (c.x * cell, c.y * cell)
  }

  /** A multiple of k divides by k exactly: Euclidean division has one quotient
      and one remainder in [0, k). */
  lemma MultipleDivides(a: int, k: int)
    requires k > 0
    ensures (a * k) / k == a && (a * k) % k == 0
  {
    var q, m := (a * k) / k, (a * k) % k;
    assert (a - q) * k == m by {
      assert a * k == q * k + m;
    }
    if a - q >= 1 {
      MultipleAtLeast(a - q, k);
    } else if a - q <= -1 {
      MultipleAtLeast(q - a, k);
    }
  }

  /** A positive multiple of k is at least k. */
  lemma {:induction false} MultipleAtLeast(n: int, k: int)
    requires n >= 1 && k > 0
    ensures n * k >= k
    decreases n
  {
    if n > 1 {
      MultipleAtLeast(n - 1, k);
      assert n * k == (n - 1) * k + k;
    }
  }

  /** A board cell is drawn as a whole GridSize square inside the screen, on the
      pixel lattice of the cell size. */
  lemma ToScreenOnScreen(c: Cell)
    requires InGrid(c)
    ensures 0 <= ToScreen(c).0 && ToScreen(c).0 + GridSize <= ScreenWidth
    ensures 0 <= ToScreen(c).1 && ToScreen(c).1 + GridSize <= ScreenHeight
    ensures ToScreen(c).0 % GridSize == 0 && ToScreen(c).1 % GridSize == 0
  {
  }

  /** Distinct cells are drawn at distinct pixels: the pixel position determines the cell. */
  lemma ToScreenInjective(a: Cell, b: Cell)
    requires ToScreen(a) == ToScreen(b)
    ensures a == b
    ensures a.x == ToScreen(a).0 / GridSize && a.y == ToScreen(a).1 / GridSize
  {
  }
}
