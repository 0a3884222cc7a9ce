/**
  The passage structure of a maze and the invariant of the randomized
  depth-first carving process, stated on grid values.  The class in module
  MazeGame runs the process; the lemmas here show that each of its steps
  keeps the invariant and that, when it stops, the walls describe a perfect
  maze: every cell visited, cols*rows - 1 passages, every cell reachable
  from cell 0, wall flags paired and the outer boundary intact.
*/
module Carving {
  import opened Grid

  /** The grid after cell `k` has been marked visited. */
  function Mark(g: seq<Cell>, k: int): (h: seq<Cell>)
    requires 0 <= k < |g|
  {
    g[k := g[k].(visited := true)]
  }

  /**
    The grid with the wall pair between adjacent cells `a` and `b` cleared:
    the wall of `a` facing `b` and the wall of `b` facing `a`.
  */
  function Carved(g: seq<Cell>, cols: int, rows: int, a: int, b: int): (h: seq<Cell>)
    requires WellFormed(g, cols, rows) && Adjacent(g, a, b)
  {
    var d := DirTo(g, a, b).value;
    var g1 := g[a := g[a].(walls := g[a].walls[Slot(d) := false])];
    g1[b := g1[b].(walls := g1[b].walls[Slot(Opposite(d)) := false])]
  }

  /** There is a passage from `a` to the adjacent cell `b`: a's wall facing `b` is down. */
  predicate Linked(g: seq<Cell>, a: int, b: int)
  {
    Adjacent(g, a, b) && |g[a].walls| == 4 && !g[a].walls[Slot(DirTo(g, a, b).value)]
  }

  /** Wall-pair consistency: a cell's wall facing a neighbour equals the neighbour's wall facing back. */
  ghost predicate Consistent(g: seq<Cell>, cols: int, rows: int)
    requires WellFormed(g, cols, rows)
  {
    forall k, dir :: 0 <= k < |g| && Neighbor(g, cols, rows, k, dir) != -1 ==>
      g[k].walls[Slot(dir)] == g[Neighbor(g, cols, rows, k, dir)].walls[Slot(Opposite(dir))]
  }

  /** Every wall on the grid's outer edge is up. */
  ghost predicate BorderIntact(g: seq<Cell>, cols: int, rows: int)
    requires WellFormed(g, cols, rows)
  {
    forall k, dir :: 0 <= k < |g| && Neighbor(g, cols, rows, k, dir) == -1 ==> g[k].walls[Slot(dir)]
  }

  /** The cleared wall pairs, each named once by its lower-indexed cell. */
  ghost function Passages(g: seq<Cell>): set<(int, int)>
  {
    set a, b | 0 <= a < b < |g| && Linked(g, a, b) :: (a, b)
  }

  /** A non-empty sequence of cells, each linked to the next by a passage. */
  ghost predicate Chain(g: seq<Cell>, p: seq<int>)
  {
    |p| >= 1 && forall t :: 0 <= t < |p| - 1 ==> Linked(g, p[t], p[t + 1])
  }

  /** A walk from cell 0 to cell `k` that leaves every cell through an open wall. */
  ghost predicate IsPathTo(g: seq<Cell>, p: seq<int>, k: int)
  {
    Chain(g, p) && p[0] == 0 && p[|p| - 1] == k
  }

  ghost predicate Reachable(g: seq<Cell>, k: int)
  {
    exists p :: IsPathTo(g, p, k)
  }

  /** The finished maze: a spanning tree of the grid carved out of intact outer walls. */
  ghost predicate MazeReady(g: seq<Cell>, cols: int, rows: int)
  {
    WellFormed(g, cols, rows) && Consistent(g, cols, rows) && BorderIntact(g, cols, rows) &&
    (forall k :: 0 <= k < |g| ==> g[k].visited) &&
    |Passages(g)| == |g| - 1 &&
    (forall k :: 0 <= k < |g| ==> Reachable(g, k))
  }

  /** The indices 0 .. n-1. */
  function Range(n: int): (r: set<int>)
    ensures forall k :: k in r <==> 0 <= k < n
    decreases n
  {
    if n <= 0 then {} else Range(n - 1) + {n - 1}
  }

  /** Cell `k` has been reached by the carving process: visited, or the current cell. */
  predicate Seen(g: seq<Cell>, cur: int, k: int)
    requires 0 <= k < |g|
  {
    g[k].visited || k == cur
  }

  ghost function Discovered(g: seq<Cell>, cur: int): set<int>
  {
    set k | 0 <= k < |g| && Seen(g, cur, k)
  }

  /** No in-bounds 4-neighbour of cell `k` is unvisited. */
  ghost predicate NeighborsVisited(g: seq<Cell>, cols: int, rows: int, k: int)
    requires WellFormed(g, cols, rows) && 0 <= k < |g|
  {
    forall dir :: Neighbor(g, cols, rows, k, dir) != -1 ==> g[Neighbor(g, cols, rows, k, dir)].visited
  }

  /** Stack entries are distinct visited cells other than the current one. */
  ghost predicate StackOk(g: seq<Cell>, stack: seq<int>, cur: int)
  {
    (forall t :: 0 <= t < |stack| ==> 0 <= stack[t] < |g| && g[stack[t]].visited && stack[t] != cur) &&
    (forall s, t :: 0 <= s < t < |stack| ==> stack[s] != stack[t])
  }

  /** Cells the process has not reached still have all four walls. */
  ghost predicate Pristine(g: seq<Cell>, cur: int)
  {
    forall k :: 0 <= k < |g| && !g[k].visited && k != cur ==> g[k].walls == [true, true, true, true]
  }

  /** A visited cell that is neither current nor stacked has no unreached neighbour. */
  ghost predicate Closed(g: seq<Cell>, cols: int, rows: int, stack: seq<int>, cur: int)
    requires WellFormed(g, cols, rows)
  {
    forall k, dir ::
      (0 <= k < |g| && g[k].visited && k != cur && k !in stack && Neighbor(g, cols, rows, k, dir) != -1) ==>
        Seen(g, cur, Neighbor(g, cols, rows, k, dir))
  }

  /** `paths` holds, for every reached cell, a walk to it from cell 0. */
  ghost predicate PathsOk(g: seq<Cell>, cur: int, paths: map<int, seq<int>>)
  {
    forall k :: 0 <= k < |g| && Seen(g, cur, k) ==> k in paths && IsPathTo(g, paths[k], k)
  }

  /** The invariant of the carving process between two ticks. */
  ghost predicate GenState(g: seq<Cell>, cols: int, rows: int, stack: seq<int>, cur: int,
                           paths: map<int, seq<int>>)
  {
    WellFormed(g, cols, rows) && 0 <= cur < |g| &&
    Consistent(g, cols, rows) && BorderIntact(g, cols, rows) &&
    StackOk(g, stack, cur) && Pristine(g, cur) && Seen(g, cur, 0) &&
    |Passages(g)| + 1 == |Discovered(g, cur)| &&
    Closed(g, cols, rows, stack, cur) && PathsOk(g, cur, paths)
  }

  /** Twice the number of unreached cells plus the stack depth: every tick but the last lowers it. */
  ghost function Measure(g: seq<Cell>, stack: seq<int>, cur: int): nat
  {
    2 * |Range(|g|) - Discovered(g, cur)| + |stack|
  }

  // ---------------------------------------------------------------------------
  // Counting

  lemma {:induction false} RangeSize(n: nat)
    ensures |Range(n)| == n
  {
    if n > 0 {
      RangeSize(n - 1);
      assert n - 1 !in Range(n - 1);
    }
  }

  // ---------------------------------------------------------------------------
  // Effect of clearing one wall pair

  /** Clearing a pair moves no cell and changes no visited or finish flag. */
  lemma CarvedLayout(g: seq<Cell>, cols: int, rows: int, a: int, b: int)
    requires WellFormed(g, cols, rows) && Adjacent(g, a, b)
    ensures var h := Carved(g, cols, rows, a, b);
      WellFormed(h, cols, rows) &&
      forall k :: 0 <= k < |g| ==> h[k].i == g[k].i && h[k].j == g[k].j &&
                                   h[k].visited == g[k].visited && h[k].finish == g[k].finish
  {
    var h := Carved(g, cols, rows, a, b);
    forall k | 0 <= k < |h|
      ensures Index(cols, rows, h[k].i, h[k].j) == k && |h[k].walls| == 4 && (h[k].finish <==> k == |h| - 1)
    {
      assert h[k].i == g[k].i && h[k].j == g[k].j && |h[k].walls| == |g[k].walls|;
    }
  }

  /** Clearing the pair between `a` and `b` lowers exactly those two wall flags. */
  lemma CarvedSlot(g: seq<Cell>, cols: int, rows: int, a: int, b: int, k: int, dir: Direction)
    requires WellFormed(g, cols, rows) && Adjacent(g, a, b) && 0 <= k < |g|
    ensures var h := Carved(g, cols, rows, a, b); var d := DirTo(g, a, b).value;
      |h| == |g| && |h[k].walls| == 4 && h[k].i == g[k].i && h[k].j == g[k].j &&
      h[k].walls[Slot(dir)] ==
        (g[k].walls[Slot(dir)] && !(k == a && dir == d) && !(k == b && dir == Opposite(d)))
  {
    assert a != b;
  }

  /**
    After clearing the pair between `a` and `b`, a passage leads from x to y
    exactly when one did before or {x, y} is {a, b}.
  */
  lemma CarvedLinks(g: seq<Cell>, cols: int, rows: int, a: int, b: int)
    requires WellFormed(g, cols, rows) && Adjacent(g, a, b)
    ensures forall x, y :: Linked(Carved(g, cols, rows, a, b), x, y) <==>
      Linked(g, x, y) || (x == a && y == b) || (x == b && y == a)
  {
    var h := Carved(g, cols, rows, a, b);
    var d := DirTo(g, a, b).value;
    AdjacentIsNeighbor(g, cols, rows, a, b);
    forall x, y
      ensures Linked(h, x, y) <==> Linked(g, x, y) || (x == a && y == b) || (x == b && y == a)
    {
      if 0 <= x < |g| && 0 <= y < |g| {
        CarvedSlot(g, cols, rows, a, b, x, Up);
        CarvedSlot(g, cols, rows, a, b, y, Up);
        assert DirTo(h, x, y) == DirTo(g, x, y);
        if Adjacent(g, x, y) {
          var e := DirTo(g, x, y).value;
          AdjacentIsNeighbor(g, cols, rows, x, y);
          CarvedSlot(g, cols, rows, a, b, x, e);
          if x == a && e == d {
            assert y == b;
          } else if x == b && e == Opposite(d) {
            NeighborBack(g, cols, rows, a, d);
            assert y == a;
          }
        }
      }
    }
  }

  /** Clearing a pair keeps the wall flags of every adjacent pair consistent. */
  lemma CarvedConsistent(g: seq<Cell>, cols: int, rows: int, a: int, b: int)
    requires WellFormed(g, cols, rows) && Adjacent(g, a, b) && Consistent(g, cols, rows)
    ensures WellFormed(Carved(g, cols, rows, a, b), cols, rows)
    ensures Consistent(Carved(g, cols, rows, a, b), cols, rows)
  {
    var h := Carved(g, cols, rows, a, b);
    var d := DirTo(g, a, b).value;
    CarvedLayout(g, cols, rows, a, b);
    AdjacentIsNeighbor(g, cols, rows, a, b);
    NeighborBack(g, cols, rows, a, d);
    forall k, dir | 0 <= k < |h| && Neighbor(h, cols, rows, k, dir) != -1
      ensures h[k].walls[Slot(dir)] == h[Neighbor(h, cols, rows, k, dir)].walls[Slot(Opposite(dir))]
    {
      CarvedSlot(g, cols, rows, a, b, k, dir);
      assert Neighbor(h, cols, rows, k, dir) == Neighbor(g, cols, rows, k, dir);
      var n := Neighbor(g, cols, rows, k, dir);
      CarvedSlot(g, cols, rows, a, b, n, Opposite(dir));
      NeighborBack(g, cols, rows, k, dir);
      assert g[k].walls[Slot(dir)] == g[n].walls[Slot(Opposite(dir))];
      if n == a && Opposite(dir) == d {
        assert k == b && dir == Opposite(d);
      } else if n == b && Opposite(dir) == Opposite(d) {
        assert k == a && dir == d;
      }
    }
  }

  /** Clearing a pair between two cells of the grid never opens the outer boundary. */
  lemma CarvedBorder(g: seq<Cell>, cols: int, rows: int, a: int, b: int)
    requires WellFormed(g, cols, rows) && Adjacent(g, a, b) && BorderIntact(g, cols, rows)
    ensures WellFormed(Carved(g, cols, rows, a, b), cols, rows)
    ensures BorderIntact(Carved(g, cols, rows, a, b), cols, rows)
  {
    var h := Carved(g, cols, rows, a, b);
    var d := DirTo(g, a, b).value;
    CarvedLayout(g, cols, rows, a, b);
    AdjacentIsNeighbor(g, cols, rows, a, b);
    NeighborBack(g, cols, rows, a, d);
    forall k, dir | 0 <= k < |h| && Neighbor(h, cols, rows, k, dir) == -1
      ensures h[k].walls[Slot(dir)]
    {
      CarvedSlot(g, cols, rows, a, b, k, dir);
      assert Neighbor(h, cols, rows, k, dir) == Neighbor(g, cols, rows, k, dir);
    }
  }

  /**
    Clearing the pair between `a` and `b`, when no passage joined them yet,
    adds exactly one passage.
  */
  lemma CarvedPassages(g: seq<Cell>, cols: int, rows: int, a: int, b: int)
    requires WellFormed(g, cols, rows) && Adjacent(g, a, b)
    requires !Linked(g, a, b) && !Linked(g, b, a)
    ensures Passages(Carved(g, cols, rows, a, b)) ==
      Passages(g) + {if a < b then (a, b) else (b, a)}
    ensures |Passages(Carved(g, cols, rows, a, b))| == |Passages(g)| + 1
  {
    var h := Carved(g, cols, rows, a, b);
    CarvedLinks(g, cols, rows, a, b);
    var e := if a < b then (a, b) else (b, a);
    assert Passages(h) == Passages(g) + {e};
    assert e !in Passages(g);
  }

  /** A walk that exists before a wall pair is cleared still exists afterwards. */
  lemma CarvedKeepsPath(g: seq<Cell>, cols: int, rows: int, a: int, b: int, p: seq<int>, k: int)
    requires WellFormed(g, cols, rows) && Adjacent(g, a, b) && IsPathTo(g, p, k)
    ensures IsPathTo(Carved(g, cols, rows, a, b), p, k)
  {
    CarvedLinks(g, cols, rows, a, b);
  }

  // ---------------------------------------------------------------------------
  // Effect of marking a cell visited

  /** Marking a cell visited changes no wall, so no passage and no walk. */
  lemma MarkLayout(g: seq<Cell>, cols: int, rows: int, k: int)
    requires WellFormed(g, cols, rows) && 0 <= k < |g|
    ensures WellFormed(Mark(g, k), cols, rows)
    ensures forall x, y :: Linked(Mark(g, k), x, y) <==> Linked(g, x, y)
    ensures Passages(Mark(g, k)) == Passages(g)
    ensures Consistent(g, cols, rows) ==> Consistent(Mark(g, k), cols, rows)
    ensures BorderIntact(g, cols, rows) ==> BorderIntact(Mark(g, k), cols, rows)
    ensures forall p, x :: IsPathTo(g, p, x) <==> IsPathTo(Mark(g, k), p, x)
  {
    var h := Mark(g, k);
    assert forall x :: 0 <= x < |g| ==> h[x].i == g[x].i && h[x].j == g[x].j && h[x].walls == g[x].walls;
    assert forall x, y :: Linked(h, x, y) <==> Linked(g, x, y);
    assert forall x, dir :: 0 <= x < |g| ==> Neighbor(h, cols, rows, x, dir) == Neighbor(g, cols, rows, x, dir);
  }

  /** Marking the current cell visited (the first thing each tick does) keeps the invariant. */
  lemma MarkKeeps(g: seq<Cell>, cols: int, rows: int, stack: seq<int>, cur: int, paths: map<int, seq<int>>)
    requires GenState(g, cols, rows, stack, cur, paths)
    ensures GenState(Mark(g, cur), cols, rows, stack, cur, paths)
    ensures Discovered(Mark(g, cur), cur) == Discovered(g, cur)
    ensures Measure(Mark(g, cur), stack, cur) == Measure(g, stack, cur)
  {
    var h := Mark(g, cur);
    MarkLayout(g, cols, rows, cur);
    assert Discovered(h, cur) == Discovered(g, cur);
    assert forall x, dir :: 0 <= x < |g| ==> Neighbor(h, cols, rows, x, dir) == Neighbor(g, cols, rows, x, dir);
  }

  // ---------------------------------------------------------------------------
  // The three outcomes of a tick

  /** The pair between the current cell and an unreached neighbour is still closed, so carving it adds one passage. */
  lemma CarveAddsPassage(g: seq<Cell>, cols: int, rows: int, cur: int, next: int)
    requires WellFormed(g, cols, rows) && Consistent(g, cols, rows) && Pristine(g, cur)
    requires Adjacent(g, cur, next) && !g[next].visited && next != cur
    ensures |Passages(Carved(g, cols, rows, cur, next))| == |Passages(g)| + 1
  {
    var d := DirTo(g, cur, next).value;
    AdjacentIsNeighbor(g, cols, rows, cur, next);
    assert g[next].walls == [true, true, true, true];
    assert g[cur].walls[Slot(d)] == g[next].walls[Slot(Opposite(d))];
    CarvedPassages(g, cols, rows, cur, next);
  }

  /** Carving reaches exactly one new cell, the neighbour carved into. */
  lemma CarveReaches(g: seq<Cell>, cols: int, rows: int, cur: int, next: int)
    requires WellFormed(g, cols, rows) && 0 <= cur < |g| && g[cur].visited
    requires Adjacent(g, cur, next) && !g[next].visited
    ensures Discovered(Carved(g, cols, rows, cur, next), next) == Discovered(g, cur) + {next}
    ensures next !in Discovered(g, cur)
    ensures |Range(|g|) - Discovered(Carved(g, cols, rows, cur, next), next)| <
            |Range(|g|) - Discovered(g, cur)|
  {
    var h := Carved(g, cols, rows, cur, next);
    CarvedLayout(g, cols, rows, cur, next);
    var before, after := Discovered(g, cur), Discovered(h, next);
    forall k ensures k in after <==> k in before || k == next {
      if 0 <= k < |g| {
        assert Seen(h, next, k) <==> Seen(g, cur, k) || k == next;
      }
    }
    assert after == before + {next};
    var r := Range(|g|);
    assert next in r - before;
    assert r - after == (r - before) - {next};
  }

  /** Pushing the visited current cell and moving to an unvisited neighbour keeps the stack well-formed. */
  lemma CarveKeepsStack(g: seq<Cell>, cols: int, rows: int, stack: seq<int>, cur: int, next: int)
    requires WellFormed(g, cols, rows) && 0 <= cur < |g| && g[cur].visited && StackOk(g, stack, cur)
    requires Adjacent(g, cur, next) && !g[next].visited
    ensures StackOk(Carved(g, cols, rows, cur, next), stack + [cur], next)
  {
    CarvedLayout(g, cols, rows, cur, next);
  }

  /** Only the current cell and the cell carved into lose walls, and both are reached afterwards. */
  lemma CarveKeepsPristine(g: seq<Cell>, cols: int, rows: int, cur: int, next: int)
    requires WellFormed(g, cols, rows) && 0 <= cur < |g| && g[cur].visited && Pristine(g, cur)
    requires Adjacent(g, cur, next)
    ensures Pristine(Carved(g, cols, rows, cur, next), next)
  {
    CarvedLayout(g, cols, rows, cur, next);
  }

  /** The cells finished before a carve are still finished and their neighbours still reached. */
  lemma CarveKeepsClosed(g: seq<Cell>, cols: int, rows: int, stack: seq<int>, cur: int, next: int)
    requires WellFormed(g, cols, rows) && 0 <= cur < |g| && g[cur].visited
    requires Closed(g, cols, rows, stack, cur)
    requires Adjacent(g, cur, next)
    ensures Closed(Carved(g, cols, rows, cur, next), cols, rows, stack + [cur], next)
  {
    var h := Carved(g, cols, rows, cur, next);
    CarvedLayout(g, cols, rows, cur, next);
    forall k, dir | 0 <= k < |h| && h[k].visited && k != next && k !in stack + [cur] &&
      Neighbor(h, cols, rows, k, dir) != -1
      ensures Seen(h, next, Neighbor(h, cols, rows, k, dir))
    {
      assert Neighbor(h, cols, rows, k, dir) == Neighbor(g, cols, rows, k, dir);
      assert k != cur && k !in stack;
      assert Seen(g, cur, Neighbor(g, cols, rows, k, dir));
    }
  }

  /** The walks recorded so far survive the carve, and the walk to `cur` extends to `next`. */
  lemma CarveKeepsPaths(g: seq<Cell>, cols: int, rows: int, cur: int, next: int,
                        paths: map<int, seq<int>>)
    requires WellFormed(g, cols, rows) && 0 <= cur < |g| && g[cur].visited
    requires PathsOk(g, cur, paths) && Adjacent(g, cur, next)
    ensures PathsOk(Carved(g, cols, rows, cur, next), next, paths[next := paths[cur] + [next]])
  {
    var h := Carved(g, cols, rows, cur, next);
    var paths' := paths[next := paths[cur] + [next]];
    CarvedLayout(g, cols, rows, cur, next);
    CarvedLinks(g, cols, rows, cur, next);
    forall k | 0 <= k < |h| && Seen(h, next, k)
      ensures k in paths' && IsPathTo(h, paths'[k], k)
    {
      if k == next {
        assert Seen(g, cur, cur);
        CarvedKeepsPath(g, cols, rows, cur, next, paths[cur], cur);
        var p := paths[cur] + [next];
        forall t | 0 <= t < |p| - 1 ensures Linked(h, p[t], p[t + 1]) {
          if t < |p| - 2 {
            assert p[t] == paths[cur][t] && p[t + 1] == paths[cur][t + 1];
          } else {
            assert p[t] == cur && p[t + 1] == next;
          }
        }
        assert IsPathTo(h, p, next);
      } else {
        assert Seen(g, cur, k);
        CarvedKeepsPath(g, cols, rows, cur, next, paths[k], k);
      }
    }
  }

  /**
    Carving from the (visited) current cell into an unvisited neighbour keeps
    the invariant: the current cell is pushed, the pair between the two is
    cleared, the neighbour becomes current, and the measure drops.
  */
  lemma CarveStep(g: seq<Cell>, cols: int, rows: int, stack: seq<int>, cur: int,
                  paths: map<int, seq<int>>, next: int)
    requires GenState(g, cols, rows, stack, cur, paths) && g[cur].visited
    requires Adjacent(g, cur, next) && !g[next].visited
    ensures GenState(Carved(g, cols, rows, cur, next), cols, rows, stack + [cur], next,
                     paths[next := paths[cur] + [next]])
    ensures Measure(Carved(g, cols, rows, cur, next), stack + [cur], next) < Measure(g, stack, cur)
  {
    var h := Carved(g, cols, rows, cur, next);
    CarvedLayout(g, cols, rows, cur, next);
    CarvedConsistent(g, cols, rows, cur, next);
    CarvedBorder(g, cols, rows, cur, next);
    CarveAddsPassage(g, cols, rows, cur, next);
    CarveReaches(g, cols, rows, cur, next);
    CarveKeepsStack(g, cols, rows, stack, cur, next);
    CarveKeepsPristine(g, cols, rows, cur, next);
    CarveKeepsClosed(g, cols, rows, stack, cur, next);
    CarveKeepsPaths(g, cols, rows, cur, next, paths);
    assert Seen(h, next, 0);
  }

  /** With two visited cells, it makes no difference to what is reached which of them is current. */
  lemma SwapCurrent(g: seq<Cell>, cur: int, top: int, paths: map<int, seq<int>>)
    requires 0 <= cur < |g| && 0 <= top < |g| && g[cur].visited && g[top].visited
    ensures Discovered(g, top) == Discovered(g, cur)
    ensures Seen(g, cur, 0) ==> Seen(g, top, 0)
    ensures Pristine(g, cur) ==> Pristine(g, top)
    ensures PathsOk(g, cur, paths) ==> PathsOk(g, top, paths)
  {
    assert forall k :: 0 <= k < |g| ==> (Seen(g, cur, k) <==> Seen(g, top, k));
  }

  /** Popping the stack into the current cell keeps its entries distinct, visited and apart from the current cell. */
  lemma PopKeepsStack(g: seq<Cell>, stack: seq<int>, cur: int)
    requires StackOk(g, stack, cur) && |stack| > 0
    ensures StackOk(g, stack[..|stack| - 1], stack[|stack| - 1])
    ensures stack[|stack| - 1] !in stack[..|stack| - 1]
  {
    var rest := stack[..|stack| - 1];
    assert forall t :: 0 <= t < |rest| ==> rest[t] == stack[t];
  }

  /** The cell backtracked from has no unreached neighbour, so closure survives the pop. */
  lemma PopKeepsClosed(g: seq<Cell>, cols: int, rows: int, stack: seq<int>, cur: int)
    requires WellFormed(g, cols, rows) && 0 <= cur < |g| && g[cur].visited
    requires StackOk(g, stack, cur) && |stack| > 0
    requires Closed(g, cols, rows, stack, cur) && NeighborsVisited(g, cols, rows, cur)
    ensures Closed(g, cols, rows, stack[..|stack| - 1], stack[|stack| - 1])
  {
    var top := stack[|stack| - 1];
    var rest := stack[..|stack| - 1];
    forall k, dir | 0 <= k < |g| && g[k].visited && k != top && k !in rest &&
      Neighbor(g, cols, rows, k, dir) != -1
      ensures Seen(g, top, Neighbor(g, cols, rows, k, dir))
    {
      var n := Neighbor(g, cols, rows, k, dir);
      if k != cur {
        assert k !in stack by {
          assert stack == rest + [top];
        }
        assert Seen(g, cur, n);
      }
      assert g[n].visited || n == cur;
    }
  }

  /**
    Backtracking from a (visited) current cell with no unvisited neighbour
    pops the stack into the current cell, changes no wall, and lowers the
    measure.
  */
  lemma BacktrackStep(g: seq<Cell>, cols: int, rows: int, stack: seq<int>, cur: int,
                      paths: map<int, seq<int>>)
    requires GenState(g, cols, rows, stack, cur, paths) && g[cur].visited
    requires NeighborsVisited(g, cols, rows, cur) && |stack| > 0
    ensures GenState(g, cols, rows, stack[..|stack| - 1], stack[|stack| - 1], paths)
    ensures Measure(g, stack[..|stack| - 1], stack[|stack| - 1]) < Measure(g, stack, cur)
  {
    var top := stack[|stack| - 1];
    SwapCurrent(g, cur, top, paths);
    PopKeepsStack(g, stack, cur);
    PopKeepsClosed(g, cols, rows, stack, cur);
  }

  /**
    A set of cells that contains cell 0 and, with each cell, all of its
    4-neighbours, is the whole grid.
  */
  lemma ClosedCoversGrid(g: seq<Cell>, cols: int, rows: int, s: set<int>)
    requires WellFormed(g, cols, rows) && 0 in s
    requires forall k, dir :: k in s && 0 <= k < |g| && Neighbor(g, cols, rows, k, dir) != -1 ==>
      Neighbor(g, cols, rows, k, dir) in s
    ensures forall k :: 0 <= k < |g| ==> k in s
  {
    forall k | 0 <= k < |g| ensures k in s {
      assert Index(cols, rows, g[k].i, g[k].j) == k;
      CoordinatesCovered(g, cols, rows, s, g[k].i, g[k].j);
    }
  }

  lemma {:induction false} CoordinatesCovered(g: seq<Cell>, cols: int, rows: int, s: set<int>, i: int, j: int)
    requires WellFormed(g, cols, rows) && 0 in s
    requires forall k, dir :: k in s && 0 <= k < |g| && Neighbor(g, cols, rows, k, dir) != -1 ==>
      Neighbor(g, cols, rows, k, dir) in s
    requires InBounds(cols, rows, i, j)
    ensures Index(cols, rows, i, j) in s
    decreases j, i
  {
    if i > 0 {
      CoordinatesCovered(g, cols, rows, s, i - 1, j);
      var k := Index(cols, rows, i - 1, j);
      assert Index(cols, rows, g[k].i, g[k].j) == k;
      assert Neighbor(g, cols, rows, k, Right) == Index(cols, rows, i, j);
    } else if j > 0 {
      CoordinatesCovered(g, cols, rows, s, i, j - 1);
      var k := Index(cols, rows, i, j - 1);
      assert Index(cols, rows, g[k].i, g[k].j) == k;
      assert Neighbor(g, cols, rows, k, Down) == Index(cols, rows, i, j);
    }
  }

  /** With nothing stacked and nothing left to carve from the current cell, every cell has been visited. */
  lemma FinishedAllVisited(g: seq<Cell>, cols: int, rows: int, cur: int)
    requires WellFormed(g, cols, rows) && 0 <= cur < |g| && g[cur].visited && Seen(g, cur, 0)
    requires Closed(g, cols, rows, [], cur) && NeighborsVisited(g, cols, rows, cur)
    ensures forall k :: 0 <= k < |g| ==> g[k].visited
  {
    var s := set k | 0 <= k < |g| && g[k].visited;
    forall k, dir | k in s && 0 <= k < |g| && Neighbor(g, cols, rows, k, dir) != -1
      ensures Neighbor(g, cols, rows, k, dir) in s
    {
      if k != cur {
        assert Seen(g, cur, Neighbor(g, cols, rows, k, dir));
      }
    }
    assert 0 in s;
    ClosedCoversGrid(g, cols, rows, s);
    forall k | 0 <= k < |g| ensures g[k].visited {
      assert k in s;
    }
  }

  /** Once every cell is reached, the passage count is one less than the number of cells. */
  lemma FinishedCount(g: seq<Cell>, cur: int)
    requires 0 <= cur < |g| && forall k :: 0 <= k < |g| ==> g[k].visited
    requires |Passages(g)| + 1 == |Discovered(g, cur)|
    ensures |Passages(g)| == |g| - 1
  {
    assert Discovered(g, cur) == Range(|g|);
    RangeSize(|g|);
  }

  /** Every reached cell with a recorded walk is reachable. */
  lemma FinishedReachable(g: seq<Cell>, cur: int, paths: map<int, seq<int>>)
    requires 0 <= cur < |g| && forall k :: 0 <= k < |g| ==> g[k].visited
    requires PathsOk(g, cur, paths)
    ensures forall k :: 0 <= k < |g| ==> Reachable(g, k)
  {
    forall k | 0 <= k < |g| ensures Reachable(g, k) {
      assert Seen(g, cur, k);
      assert IsPathTo(g, paths[k], k);
    }
  }

  /**
    When the current cell has no unvisited neighbour and the stack is empty,
    the process stops with a perfect maze.
  */
  lemma FinishStep(g: seq<Cell>, cols: int, rows: int, cur: int, paths: map<int, seq<int>>)
    requires GenState(g, cols, rows, [], cur, paths) && g[cur].visited
    requires NeighborsVisited(g, cols, rows, cur)
    ensures MazeReady(g, cols, rows)
  {
    FinishedAllVisited(g, cols, rows, cur);
    FinishedCount(g, cur);
    FinishedReachable(g, cur, paths);
  }

  /** A freshly built grid, with cell 0 current and nothing stacked, satisfies the invariant. */
  lemma InitialState(g: seq<Cell>, cols: int, rows: int)
    requires WellFormed(g, cols, rows)
    requires forall k :: 0 <= k < |g| ==> g[k].walls == [true, true, true, true] && !g[k].visited
    ensures GenState(g, cols, rows, [], 0, map[0 := [0]])
  {
    assert Passages(g) == {};
    assert Discovered(g, 0) == {0};
    assert IsPathTo(g, [0], 0);
  }
}
