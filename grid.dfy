/**
  The grid model of the maze: cells stored in row-major order, each with
  four wall flags [top, right, bottom, left], a visited flag used while the
  maze is carved, and a finish marker on the last cell.
*/
module Grid {

  datatype Option<T> = None | Some(value: T)

  /** The four directions a cell can be left by. */
  datatype Direction = Up | Right | Down | Left

  /** Position of the wall facing `dir` in a cell's wall array [top, right, bottom, left]. */
  function Slot(dir: Direction): nat
  {
    match dir
    case Up => 0
    case Right => 1
    case Down => 2
    case Left => 3
  }

  function Opposite(dir: Direction): Direction
  {
    match dir
    case Up => Down
    case Right => Left
    case Down => Up
    case Left => Right
  }

  /** Column offset of one step in direction `dir` (columns grow to the right). */
  function DX(dir: Direction): int
  {
    match dir
    case Left => -1
    case Right => 1
    case _ => 0
  }

  /** Row offset of one step in direction `dir` (rows grow downwards). */
  function DY(dir: Direction): int
  {
    match dir
    case Up => -1
    case Down => 1
    case _ => 0
  }

  /** A cell at column `i`, row `j`. */
  datatype Cell = Cell(i: int, j: int, walls: seq<bool>, visited: bool, finish: bool)

  /** A newly constructed cell: all four walls up, not visited, not the finish. */
  function NewCell(i: int, j: int): Cell
  {
    Cell(i, j, [true, true, true, true], false, false)
  }

  predicate InBounds(cols: int, rows: int, i: int, j: int)
  {
    0 <= i < cols && 0 <= j < rows
  }

  /**
    Row-major index of the cell at (i, j), or -1 when (i, j) lies outside the
    grid (the source then reads `grid[-1]`, which is absent).  An in-bounds
    index lies in [0, cols*rows) and decodes back to (i, j).
  */
  function Index(cols: int, rows: int, i: int, j: int): (r: int)
    ensures r == -1 <==> !InBounds(cols, rows, i, j)
    ensures r != -1 ==> 0 <= r < cols * rows && r % cols == i && r / cols == j
  {
    if i < 0 || j < 0 || i >= cols || j >= rows then -1
    else
      RowMajor(cols, rows, i, j);
      i + j * cols
  }

  lemma RowMajor(cols: int, rows: int, i: int, j: int)
    requires InBounds(cols, rows, i, j)
    ensures 0 <= i + j * cols < cols * rows
    ensures (i + j * cols) % cols == i && (i + j * cols) / cols == j
  {
    MulMono(j, rows - 1, cols);
    var x := i + j * cols;
    var q, m := x / cols, x % cols;
    assert x == q * cols + m && 0 <= m < cols;
    if q < j {
      MulMono(q + 1, j, cols);
      assert false;
    } else if q > j {
      MulMono(j + 1, q, cols);
      assert false;
    }
  }

  lemma MulMono(a: int, b: int, c: int)
    requires a <= b && 0 <= c
    ensures a * c <= b * c
  {
  }

  /** Two in-bounds coordinate pairs with the same index are the same pair. */
  lemma IndexInjective(cols: int, rows: int, i1: int, j1: int, i2: int, j2: int)
    requires InBounds(cols, rows, i1, j1) && InBounds(cols, rows, i2, j2)
    requires Index(cols, rows, i1, j1) == Index(cols, rows, i2, j2)
    ensures i1 == i2 && j1 == j2
  {
  }

  /**
    A grid of `cols` by `rows` cells in row-major order: the cell stored at
    index `k` has the coordinates that `Index` maps to `k`, four wall flags,
    and only the last cell is the finish.
  */
  ghost predicate WellFormed(g: seq<Cell>, cols: int, rows: int)
  {
    1 <= cols && 1 <= rows && |g| == cols * rows &&
    forall k :: 0 <= k < |g| ==>
      Index(cols, rows, g[k].i, g[k].j) == k && |g[k].walls| == 4 && (g[k].finish <==> k == |g| - 1)
  }

  /** The cell one step from cell `k` in direction `dir`, or -1 at the grid's edge. */
  function Neighbor(g: seq<Cell>, cols: int, rows: int, k: int, dir: Direction): (n: int)
    requires WellFormed(g, cols, rows) && 0 <= k < |g|
    ensures n == -1 || 0 <= n < |g|
    ensures n != -1 ==> g[n].i == g[k].i + DX(dir) && g[n].j == g[k].j + DY(dir)
    ensures n != -1 ==> n != k
    ensures n == -1 <==> !InBounds(cols, rows, g[k].i + DX(dir), g[k].j + DY(dir))
  {
    var n := Index(cols, rows, g[k].i + DX(dir), g[k].j + DY(dir));
    assert n != -1 ==> Index(cols, rows, g[n].i, g[n].j) == n;
    n
  }

  /** A step and the step back return to where they started. */
  lemma NeighborBack(g: seq<Cell>, cols: int, rows: int, k: int, dir: Direction)
    requires WellFormed(g, cols, rows) && 0 <= k < |g| && Neighbor(g, cols, rows, k, dir) != -1
    ensures Neighbor(g, cols, rows, Neighbor(g, cols, rows, k, dir), Opposite(dir)) == k
  {
    assert Index(cols, rows, g[k].i, g[k].j) == k;
  }

  /** The direction that leads from cell `a` to cell `b`, if they are 4-adjacent. */
  function DirTo(g: seq<Cell>, a: int, b: int): Option<Direction>
    requires 0 <= a < |g| && 0 <= b < |g|
  {
    var dx, dy := g[b].i - g[a].i, g[b].j - g[a].j;
    if dx == 0 && dy == -1 then Some(Up)
    else if dx == 1 && dy == 0 then Some(Right)
    else if dx == 0 && dy == 1 then Some(Down)
    else if dx == -1 && dy == 0 then Some(Left)
    else None
  }

  /** Cells `a` and `b` share a side (horizontally or vertically adjacent). */
  predicate Adjacent(g: seq<Cell>, a: int, b: int)
  {
    0 <= a < |g| && 0 <= b < |g| && DirTo(g, a, b).Some?
  }

  /**
    Adjacency and the neighbour function agree: `b` is adjacent to `a` exactly
    when `b` is a's neighbour in some direction, and then `a` lies the opposite
    way from `b`.
  */
  lemma AdjacentIsNeighbor(g: seq<Cell>, cols: int, rows: int, a: int, b: int)
    requires WellFormed(g, cols, rows) && 0 <= a < |g| && 0 <= b < |g|
    ensures Adjacent(g, a, b) <==> exists dir :: Neighbor(g, cols, rows, a, dir) == b
    ensures Adjacent(g, a, b) ==>
      Neighbor(g, cols, rows, a, DirTo(g, a, b).value) == b &&
      DirTo(g, b, a) == Some(Opposite(DirTo(g, a, b).value))
  {
    if Adjacent(g, a, b) {
      var d := DirTo(g, a, b).value;
      assert Index(cols, rows, g[b].i, g[b].j) == b;
      assert Neighbor(g, cols, rows, a, d) == b;
    }
    forall dir | Neighbor(g, cols, rows, a, dir) == b
      ensures Adjacent(g, a, b)
    {
    }
  }

  /** The direction from `a` to its neighbour in direction `dir` is `dir`. */
  lemma DirToNeighbor(g: seq<Cell>, cols: int, rows: int, a: int, dir: Direction)
    requires WellFormed(g, cols, rows) && 0 <= a < |g| && Neighbor(g, cols, rows, a, dir) != -1
    ensures DirTo(g, a, Neighbor(g, cols, rows, a, dir)) == Some(dir)
  {
  }
}
