/**
  Player movement over a maze: one move attempt in one of the four
  directions, and walks made of several attempts.  The move is checked
  against the wall of the cell the player stands on; with paired wall flags
  that is enough, and every move crosses a carved passage and can be undone.
*/
module Moves {
  import opened Grid
  import opened Carving

  datatype Point = Point(x: int, y: int)

  /** The grid coordinates of cell `k`. */
  function Pos(g: seq<Cell>, k: int): Point
    requires 0 <= k < |g|
  {
    Point(g[k].i, g[k].j)
  }

  /**
    The position after one move attempt from `p` in direction `dir`: the
    neighbouring position when it is on the grid and the wall of p's cell
    facing it is down, otherwise `p` itself.
  */
  function Stepped(g: seq<Cell>, cols: int, rows: int, p: Point, dir: Direction): (q: Point)
    requires WellFormed(g, cols, rows) && InBounds(cols, rows, p.x, p.y)
    ensures InBounds(cols, rows, q.x, q.y)
  {
    var t := Point(p.x + DX(dir), p.y + DY(dir));
    if InBounds(cols, rows, t.x, t.y) && !g[Index(cols, rows, p.x, p.y)].walls[Slot(dir)] then t else p
  }

  /** A position on the grid is the position of the cell `Index` gives for it. */
  lemma PosOfIndex(g: seq<Cell>, cols: int, rows: int, p: Point)
    requires WellFormed(g, cols, rows) && InBounds(cols, rows, p.x, p.y)
    ensures 0 <= Index(cols, rows, p.x, p.y) < |g| && Pos(g, Index(cols, rows, p.x, p.y)) == p
  {
    var k := Index(cols, rows, p.x, p.y);
    assert Index(cols, rows, g[k].i, g[k].j) == k;
  }

  /**
    A move that changes the position crosses a passage: the player moves
    exactly one step, to the 4-neighbour in direction `dir`, and the two
    cells are linked.
  */
  lemma MoveCrossesPassage(g: seq<Cell>, cols: int, rows: int, p: Point, dir: Direction)
    requires WellFormed(g, cols, rows) && InBounds(cols, rows, p.x, p.y)
    requires Stepped(g, cols, rows, p, dir) != p
    ensures var a, b := Index(cols, rows, p.x, p.y), Index(cols, rows, p.x + DX(dir), p.y + DY(dir));
      b == Neighbor(g, cols, rows, a, dir) && Linked(g, a, b) && DirTo(g, a, b) == Some(dir)
  {
    var a := Index(cols, rows, p.x, p.y);
    PosOfIndex(g, cols, rows, p);
    DirToNeighbor(g, cols, rows, a, dir);
  }

  /** Following a passage is a legal move: from a's position, the move towards `b` arrives at b's position. */
  lemma StepAlongPassage(g: seq<Cell>, cols: int, rows: int, a: int, b: int)
    requires WellFormed(g, cols, rows) && Linked(g, a, b)
    ensures InBounds(cols, rows, Pos(g, a).x, Pos(g, a).y)
    ensures Stepped(g, cols, rows, Pos(g, a), DirTo(g, a, b).value) == Pos(g, b)
  {
    assert Index(cols, rows, g[a].i, g[a].j) == a;
    assert Index(cols, rows, g[b].i, g[b].j) == b;
  }

  /**
    With paired wall flags a successful move can be undone: moving back the
    opposite way returns to the starting position.
  */
  lemma MoveReversible(g: seq<Cell>, cols: int, rows: int, p: Point, dir: Direction)
    requires WellFormed(g, cols, rows) && Consistent(g, cols, rows) && InBounds(cols, rows, p.x, p.y)
    requires Stepped(g, cols, rows, p, dir) != p
    ensures Stepped(g, cols, rows, Stepped(g, cols, rows, p, dir), Opposite(dir)) == p
  {
    var a := Index(cols, rows, p.x, p.y);
    var q := Stepped(g, cols, rows, p, dir);
    MoveCrossesPassage(g, cols, rows, p, dir);
    var b := Neighbor(g, cols, rows, a, dir);
    PosOfIndex(g, cols, rows, p);
    PosOfIndex(g, cols, rows, q);
    assert g[a].walls[Slot(dir)] == g[b].walls[Slot(Opposite(dir))];
  }

  /** The position after a sequence of move attempts. */
  function Walk(g: seq<Cell>, cols: int, rows: int, p: Point, dirs: seq<Direction>): (q: Point)
    requires WellFormed(g, cols, rows) && InBounds(cols, rows, p.x, p.y)
    ensures InBounds(cols, rows, q.x, q.y)
    decreases |dirs|
  {
    if dirs == [] then p
    else Stepped(g, cols, rows, Walk(g, cols, rows, p, dirs[..|dirs| - 1]), dirs[|dirs| - 1])
  }

  /** Dropping the last cell of a chain leaves a chain. */
  lemma ChainFront(g: seq<Cell>, p: seq<int>)
    requires Chain(g, p) && |p| > 1
    ensures Chain(g, p[..|p| - 1]) && Linked(g, p[|p| - 2], p[|p| - 1])
  {
    var front := p[..|p| - 1];
    forall t | 0 <= t < |front| - 1 ensures Linked(g, front[t], front[t + 1]) {
      assert front[t] == p[t] && front[t + 1] == p[t + 1];
    }
  }

  /** The directions that lead along a chain of passages. */
  ghost function Directions(g: seq<Cell>, p: seq<int>): (ds: seq<Direction>)
    requires Chain(g, p)
    ensures |ds| == |p| - 1
    decreases |p|
  {
    if |p| == 1 then []
    else
      ChainFront(g, p);
      Directions(g, p[..|p| - 1]) + [DirTo(g, p[|p| - 2], p[|p| - 1]).value]
  }

  /** Walking the directions of a chain of passages from its first cell ends at its last cell. */
  lemma {:induction false} WalkFollowsPath(g: seq<Cell>, cols: int, rows: int, p: seq<int>)
    requires WellFormed(g, cols, rows) && Chain(g, p) && 0 <= p[0] < |g|
    ensures InBounds(cols, rows, Pos(g, p[0]).x, Pos(g, p[0]).y)
    ensures Walk(g, cols, rows, Pos(g, p[0]), Directions(g, p)) == Pos(g, p[|p| - 1])
    decreases |p|
  {
    assert Index(cols, rows, g[p[0]].i, g[p[0]].j) == p[0];
    if |p| > 1 {
      var front := p[..|p| - 1];
      ChainFront(g, p);
      WalkFollowsPath(g, cols, rows, front);
      var ds := Directions(g, p);
      assert ds[..|ds| - 1] == Directions(g, front);
      StepAlongPassage(g, cols, rows, p[|p| - 2], p[|p| - 1]);
    }
  }

  /** The last cell of a well-formed grid sits at (cols-1, rows-1), the first at (0, 0). */
  lemma CornerCells(g: seq<Cell>, cols: int, rows: int)
    requires WellFormed(g, cols, rows)
    ensures Pos(g, 0) == Point(0, 0)
    ensures Pos(g, |g| - 1) == Point(cols - 1, rows - 1)
  {
    assert Index(cols, rows, g[0].i, g[0].j) == 0;
    var last := |g| - 1;
    assert Index(cols, rows, g[last].i, g[last].j) == last;
    assert (cols - 1) + (rows - 1) * cols == last;
  }

  /** Some sequence of move attempts leads from the start (0, 0) to `q`. */
  ghost predicate MoveReachable(g: seq<Cell>, cols: int, rows: int, q: Point)
    requires WellFormed(g, cols, rows)
  {
    exists ds :: Walk(g, cols, rows, Point(0, 0), ds) == q
  }

  /** A cell reachable through passages from cell 0 is the end of a walk of move attempts from (0, 0). */
  lemma CellReachableByMoves(g: seq<Cell>, cols: int, rows: int, k: int)
    requires WellFormed(g, cols, rows) && 0 <= k < |g| && Reachable(g, k)
    ensures MoveReachable(g, cols, rows, Pos(g, k))
  {
    CornerCells(g, cols, rows);
    var p :| IsPathTo(g, p, k);
    WalkFollowsPath(g, cols, rows, p);
    assert Walk(g, cols, rows, Point(0, 0), Directions(g, p)) == Pos(g, k);
  }

  /**
    In a finished maze every cell is the end of a walk of move attempts from
    the start (0, 0) in that maze; in particular the finish (cols-1, rows-1),
    the position of the last cell, is.  A walk ignores the level change on
    the finish, so for the other cells this is a statement about the maze,
    not about a game played key by key.
  */
  lemma ReachableByMoves(g: seq<Cell>, cols: int, rows: int)
    requires MazeReady(g, cols, rows)
    ensures forall k :: 0 <= k < |g| ==> MoveReachable(g, cols, rows, Pos(g, k))
    ensures MoveReachable(g, cols, rows, Point(cols - 1, rows - 1))
  {
    forall k | 0 <= k < |g| ensures MoveReachable(g, cols, rows, Pos(g, k)) {
      CellReachableByMoves(g, cols, rows, k);
    }
    CornerCells(g, cols, rows);
  }
}
