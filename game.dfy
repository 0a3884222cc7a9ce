/**
  The game state of the maze page and the operations that change it: building
  the grid, the randomized depth-first carving loop, the player's moves, level
  progression and the restart button.  The random numbers the page draws are
  passed in as a stream `random` of values in [0, 1); the drawing, the timers
  and the sound are not modelled.
*/
module MazeGame {
  import opened Grid
  import opened Carving
  import opened Moves

  /** The level at which reaching the finish wins the game instead of starting a new level. */
  const MaxLevel := 100

  /** The cell of `k`'s neighbour in direction `dir` as a one-element list when it is unvisited, else []. */
  function FreshNeighbor(g: seq<Cell>, cols: int, rows: int, k: int, dir: Direction): seq<int>
    requires WellFormed(g, cols, rows) && 0 <= k < |g|
  {
    var n := Neighbor(g, cols, rows, k, dir);
    if n != -1 && !g[n].visited then [n] else []
  }

  /** The unvisited 4-neighbours of cell `k`, in the order top, right, bottom, left. */
  function Candidates(g: seq<Cell>, cols: int, rows: int, k: int): (c: seq<int>)
    requires WellFormed(g, cols, rows) && 0 <= k < |g|
    ensures |c| <= 4
  {
    FreshNeighbor(g, cols, rows, k, Up) + FreshNeighbor(g, cols, rows, k, Right) +
    FreshNeighbor(g, cols, rows, k, Down) + FreshNeighbor(g, cols, rows, k, Left)
  }

  /**
    The candidates are exactly the adjacent unvisited cells, each listed once,
    and there are none exactly when every neighbour has been visited.
  */
  lemma CandidatesSpec(g: seq<Cell>, cols: int, rows: int, k: int)
    requires WellFormed(g, cols, rows) && 0 <= k < |g|
    ensures forall x :: x in Candidates(g, cols, rows, k) <==> Adjacent(g, k, x) && !g[x].visited
    ensures |Candidates(g, cols, rows, k)| == 0 <==> NeighborsVisited(g, cols, rows, k)
    ensures forall s, t :: 0 <= s < t < |Candidates(g, cols, rows, k)| ==>
      Candidates(g, cols, rows, k)[s] != Candidates(g, cols, rows, k)[t]
  {
    var c := Candidates(g, cols, rows, k);
    forall x ensures x in c <==> Adjacent(g, k, x) && !g[x].visited {
      if 0 <= x < |g| {
        AdjacentIsNeighbor(g, cols, rows, k, x);
      }
    }
    assert forall dir :: Neighbor(g, cols, rows, k, dir) != -1 && !g[Neighbor(g, cols, rows, k, dir)].visited ==>
      Neighbor(g, cols, rows, k, dir) in c;
    forall s, t | 0 <= s < t < |c| ensures c[s] != c[t] {
      assert Index(cols, rows, g[k].i, g[k].j) == k;
    }
  }

  /** The position in a list of `n` entries that the draw `draw` from [0, 1) selects. */
  function Pick(draw: real, n: nat): (t: int)
    requires 0.0 <= draw < 1.0 && n > 0
    ensures 0 <= t < n
  {
    assert draw * (n as real) < n as real by {
      assert (1.0 - draw) * (n as real) > 0.0;
    }
    (draw * (n as real)).Floor
  }

  /** The neighbour of cell `k` that the draw `draw` selects among the candidates, if there is any. */
  function Choose(g: seq<Cell>, cols: int, rows: int, k: int, draw: real): Option<int>
    requires WellFormed(g, cols, rows) && 0 <= k < |g| && 0.0 <= draw < 1.0
  {
    var c := Candidates(g, cols, rows, k);
    if |c| == 0 then None else Some(c[Pick(draw, |c|)])
  }

  /** A choice is made exactly when some neighbour is unvisited, and it is an adjacent unvisited cell. */
  lemma ChooseSpec(g: seq<Cell>, cols: int, rows: int, k: int, draw: real)
    requires WellFormed(g, cols, rows) && 0 <= k < |g| && 0.0 <= draw < 1.0
    ensures var next := Choose(g, cols, rows, k, draw);
      (next.None? <==> NeighborsVisited(g, cols, rows, k)) &&
      (next.Some? ==> Adjacent(g, k, next.value) && !g[next.value].visited)
  {
    CandidatesSpec(g, cols, rows, k);
  }

  /** The state of one game: the grid, the carving process, the player and the level. */
  class Game {
    var cols: int
    var rows: int
    var grid: seq<Cell>
    var stack: seq<int>
    var current: int
    var player: Point
    var level: int
    /** A walk from cell 0 to every cell reached so far by the carving process. */
    ghost var paths: map<int, seq<int>>

    /** Between two moves the game shows a finished maze with the player on it, at a level in 1 .. MaxLevel. */
    ghost predicate Valid()
      reads this
    {
      MazeReady(grid, cols, rows) && stack == [] &&
      InBounds(cols, rows, player.x, player.y) && 1 <= level <= MaxLevel
    }

    /** The page starts at level 1 with a maze for a `c` by `r` grid. */
    constructor (c: int, r: int, random: nat -> real)
      requires 1 <= c && 1 <= r
      requires forall t :: 0.0 <= random(t) < 1.0
      ensures Valid() && cols == c && rows == r
      ensures level == 1 && player == Point(0, 0)
    {
      cols, rows := c, r;
      grid, stack, current := [], [], 0;
      player := Point(0, 0);
      level := 1;
      paths := map[];
      new;
      GenerateMaze(c, r, random);
    }

    /**
      The unvisited neighbour of cell `k` that the draw selects, or None when
      every neighbour has been visited.  The candidates are gathered in the
      order top, right, bottom, left and the draw picks floor(draw * count).
    */
    method CheckNeighbors(k: int, draw: real) returns (next: Option<int>)
      requires WellFormed(grid, cols, rows) && 0 <= k < |grid| && 0.0 <= draw < 1.0
      ensures next == Choose(grid, cols, rows, k, draw)
      ensures next.None? <==> NeighborsVisited(grid, cols, rows, k)
      ensures next.Some? ==> Adjacent(grid, k, next.value) && !grid[next.value].visited
    {
      var g := grid;
      var neighbors: seq<int> := [];
      var top := Index(cols, rows, g[k].i, g[k].j - 1);
      var right := Index(cols, rows, g[k].i + 1, g[k].j);
      var bottom := Index(cols, rows, g[k].i, g[k].j + 1);
      var left := Index(cols, rows, g[k].i - 1, g[k].j);
      assert top == Neighbor(g, cols, rows, k, Up) && right == Neighbor(g, cols, rows, k, Right);
      assert bottom == Neighbor(g, cols, rows, k, Down) && left == Neighbor(g, cols, rows, k, Left);
      if top != -1 && !g[top].visited {
        neighbors := neighbors + [top];
      }
      assert neighbors == FreshNeighbor(g, cols, rows, k, Up);
      if right != -1 && !g[right].visited {
        neighbors := neighbors + [right];
      }
      assert neighbors == FreshNeighbor(g, cols, rows, k, Up) + FreshNeighbor(g, cols, rows, k, Right);
      if bottom != -1 && !g[bottom].visited {
        neighbors := neighbors + [bottom];
      }
      assert neighbors == FreshNeighbor(g, cols, rows, k, Up) + FreshNeighbor(g, cols, rows, k, Right) +
        FreshNeighbor(g, cols, rows, k, Down);
      if left != -1 && !g[left].visited {
        neighbors := neighbors + [left];
      }
      assert neighbors == Candidates(g, cols, rows, k);
      ChooseSpec(g, cols, rows, k, draw);
      if |neighbors| > 0 {
        next := Some(neighbors[Pick(draw, |neighbors|)]);
      } else {
        next := None;
      }
    }

    /**
      Clears the walls between cells `a` and `b` according to their coordinate
      differences.  For adjacent cells that is exactly the pair of walls
      between them; no other cell is touched.
    */
    method RemoveWalls(a: int, b: int)
      requires WellFormed(grid, cols, rows) && 0 <= a < |grid| && 0 <= b < |grid|
      modifies this`grid
      ensures WellFormed(grid, cols, rows)
      ensures Adjacent(old(grid), a, b) ==> grid == Carved(old(grid), cols, rows, a, b)
      ensures forall k :: 0 <= k < |grid| && k != a && k != b ==> grid[k] == old(grid)[k]
    {
      var g := grid;
      var x := g[a].i - g[b].i;
      var y := g[a].j - g[b].j;
      if x == 1 {
        g := ClearWall(g, a, 3);
        g := ClearWall(g, b, 1);
      } else if x == -1 {
        g := ClearWall(g, a, 1);
        g := ClearWall(g, b, 3);
      }
      assert WellFormed(g, cols, rows);
      ghost var g1 := g;
      if y == 1 {
        g := ClearWall(g, a, 0);
        g := ClearWall(g, b, 2);
      } else if y == -1 {
        g := ClearWall(g, a, 2);
        g := ClearWall(g, b, 0);
      }
      assert WellFormed(g, cols, rows);
      assert y == 0 ==> g == g1;
      assert x == 0 ==> g1 == old(grid);
      grid := g;
    }

    /**
      The carving branch of a tick: push the (visited) current cell, clear the
      walls between it and the unvisited neighbour `next`, and continue from
      `next`.  The carving invariant is kept and the measure drops.
    */
    method Advance(next: int)
      requires GenState(grid, cols, rows, stack, current, paths) && grid[current].visited
      requires Adjacent(grid, current, next) && !grid[next].visited
      modifies this`grid, this`stack, this`current, this`paths
      ensures grid == Carved(old(grid), cols, rows, old(current), next)
      ensures stack == old(stack) + [old(current)] && current == next
      ensures GenState(grid, cols, rows, stack, current, paths)
      ensures Measure(grid, stack, current) < old(Measure(grid, stack, current))
    {
      ghost var g, st, cur, ps := grid, stack, current, paths;
      CarveStep(g, cols, rows, st, cur, ps, next);
      assert cur in ps by {
        assert Seen(g, cur, cur);
      }
      paths := ps[next := ps[cur] + [next]];
      stack := stack + [current];
      RemoveWalls(current, next);
      current := next;
      assert grid == Carved(g, cols, rows, cur, next) && stack == st + [cur];
      assert GenState(grid, cols, rows, stack, current, paths);
    }

    /**
      The backtracking branch of a tick: the current cell has no unvisited
      neighbour, so the top of the stack is popped into the current cell.  No
      wall changes, the invariant is kept and the measure drops.
    */
    method Retreat()
      requires GenState(grid, cols, rows, stack, current, paths) && grid[current].visited
      requires NeighborsVisited(grid, cols, rows, current) && |stack| > 0
      modifies this`stack, this`current
      ensures stack == old(stack)[..|old(stack)| - 1] && current == old(stack)[|old(stack)| - 1]
      ensures GenState(grid, cols, rows, stack, current, paths)
      ensures Measure(grid, stack, current) < old(Measure(grid, stack, current))
    {
      ghost var st, cur := stack, current;
      BacktrackStep(grid, cols, rows, st, cur, paths);
      current, stack := stack[|stack| - 1], stack[..|stack| - 1];
      assert stack == st[..|st| - 1] && current == st[|st| - 1];
    }

    /**
      One tick of the carving loop: mark the current cell visited, then carve
      into a randomly chosen unvisited neighbour, or else backtrack to the
      cell on top of the stack, or else stop.  Every tick keeps the carving
      invariant; every tick but the last lowers the measure; the last leaves a
      finished maze.
    */
    method Step(draw: real) returns (outcome: Tick)
      requires GenState(grid, cols, rows, stack, current, paths) && 0.0 <= draw < 1.0
      modifies this`grid, this`stack, this`current, this`paths
      ensures GenState(grid, cols, rows, stack, current, paths)
      ensures var marked := Mark(old(grid), old(current));
        match outcome
        case Carve(next) =>
          Adjacent(marked, old(current), next) && !marked[next].visited &&
          grid == Carved(marked, cols, rows, old(current), next) &&
          stack == old(stack) + [old(current)] && current == next
        case Backtrack =>
          NeighborsVisited(marked, cols, rows, old(current)) && old(stack) != [] &&
          grid == marked && stack == old(stack)[..|old(stack)| - 1] && current == old(stack)[|old(stack)| - 1]
        case Stop =>
          NeighborsVisited(marked, cols, rows, old(current)) && old(stack) == [] &&
          grid == marked && stack == [] && current == old(current)
      ensures !outcome.Stop? ==> Measure(grid, stack, current) < old(Measure(grid, stack, current))
      ensures outcome.Stop? ==> MazeReady(grid, cols, rows)
    {
      MarkKeeps(grid, cols, rows, stack, current, paths);
      grid := grid[current := grid[current].(visited := true)];
      var next := CheckNeighbors(current, draw);
      if next.Some? {
        Advance(next.value);
        outcome := Carve(next.value);
      } else if |stack| > 0 {
        Retreat();
        outcome := Backtrack;
      } else {
        FinishStep(grid, cols, rows, current, paths);
        outcome := Stop;
      }
    }

    /**
      Runs the carving loop to completion, the `t`-th tick using the draw
      `random(t)`.  It always stops, and then the grid is a finished maze.
    */
    method MazeLoop(random: nat -> real)
      requires GenState(grid, cols, rows, stack, current, paths)
      requires forall t :: 0.0 <= random(t) < 1.0
      modifies this`grid, this`stack, this`current, this`paths
      ensures MazeReady(grid, cols, rows) && stack == []
    {
      var t := 0;
      var running := true;
      while running
        invariant GenState(grid, cols, rows, stack, current, paths)
        invariant !running ==> MazeReady(grid, cols, rows) && stack == []
        decreases running, Measure(grid, stack, current)
      {
        var outcome := Step(random(t));
        t := t + 1;
        running := !outcome.Stop?;
      }
    }

    /**
      Builds a fresh `c` by `r` grid of closed cells in row-major order, marks
      the bottom-right cell as the finish, puts the player at (0, 0) and
      carves the maze.  The result is a finished maze whose finish the player
      can reach by legal moves; the level is unchanged.
    */
    method GenerateMaze(c: int, r: int, random: nat -> real)
      requires 1 <= c && 1 <= r
      requires forall t :: 0.0 <= random(t) < 1.0
      modifies this
      ensures cols == c && rows == r && MazeReady(grid, cols, rows) && stack == []
      ensures player == Point(0, 0) && level == old(level)
      ensures MoveReachable(grid, cols, rows, Point(cols - 1, rows - 1))
    {
      grid := BuildCells(c, r);
      stack := [];
      cols, rows := c, r;
      current := 0;
      player := Point(0, 0);
      grid := grid[cols * rows - 1 := grid[cols * rows - 1].(finish := true)];
      paths := map[0 := [0]];
      InitialState(grid, cols, rows);
      MazeLoop(random);
      ReachableByMoves(grid, cols, rows);
    }

    /**
      One key press: the player moves one cell in direction `dir` unless that
      leaves the grid or the wall of the player's cell on that side is up.
      When the move attempt stays on the grid and the player then stands on
      the finish, the game is won at level MaxLevel (`won`); below it the
      level goes up by one and a new maze is generated.
    */
    method MovePlayer(dir: Direction, random: nat -> real) returns (won: bool)
      requires Valid()
      requires forall t :: 0.0 <= random(t) < 1.0
      modifies this
      ensures Valid() && cols == old(cols) && rows == old(rows)
      ensures var target := Point(old(player).x + DX(dir), old(player).y + DY(dir));
        var q := Stepped(old(grid), old(cols), old(rows), old(player), dir);
        if !InBounds(old(cols), old(rows), target.x, target.y) then
          !won && player == old(player) && grid == old(grid) && level == old(level)
        else if q != Point(cols - 1, rows - 1) then
          !won && player == q && grid == old(grid) && level == old(level)
        else if old(level) == MaxLevel then
          won && player == q && grid == old(grid) && level == old(level)
        else
          !won && level == old(level) + 1 && player == Point(0, 0)
    {
      won := false;
      var dx, dy := DX(dir), DY(dir);
      var cell := grid[Index(cols, rows, player.x, player.y)];
      var nx := player.x + dx;
      var ny := player.y + dy;
      if nx < 0 || nx >= cols || ny < 0 || ny >= rows {
        return;
      }
      if dx == -1 && !cell.walls[3] {
        player := player.(x := player.x - 1);
      } else if dx == 1 && !cell.walls[1] {
        player := player.(x := player.x + 1);
      } else if dy == -1 && !cell.walls[0] {
        player := player.(y := player.y - 1);
      } else if dy == 1 && !cell.walls[2] {
        player := player.(y := player.y + 1);
      }
      if player.x == cols - 1 && player.y == rows - 1 {
        if level == MaxLevel {
          won := true;
        } else {
          level := level + 1;
          GenerateMaze(cols, rows, random);
        }
      }
    }

    /**
      The restart button first sets the level back to 1 (line 264).  It is a
      member of its own because the handler then removes `confettiCanvas`, a
      name script.js declares only inside `startConfetti`; when that name does
      not resolve, the handler stops here and no new maze is generated.
    */
    method ResetLevel()
      modifies this`level
      ensures level == 1
    {
      level := 1;
    }

    /**
      The restart button as intended: back to level 1 with a new maze of the
      same size.  This assumes the confetti cleanup before the regeneration
      succeeds; see `ResetLevel` for the part that runs when it does not.
    */
    method Restart(random: nat -> real)
      requires Valid()
      requires forall t :: 0.0 <= random(t) < 1.0
      modifies this
      ensures Valid() && level == 1 && player == Point(0, 0)
      ensures cols == old(cols) && rows == old(rows)
    {
      ResetLevel();
      GenerateMaze(cols, rows, random);
    }
  }

  /**
    The cells of a `cols` by `rows` grid, built row by row: the cell at the
    index `Index` gives for (i, j) is a new cell at (i, j), with all walls
    up, not visited and not the finish.
  */
  method BuildCells(cols: int, rows: int) returns (g: seq<Cell>)
    requires 0 <= cols && 0 <= rows
    ensures |g| == cols * rows
    ensures forall k :: 0 <= k < |g| ==> Index(cols, rows, g[k].i, g[k].j) == k && Fresh(g[k])
    ensures forall i, j :: InBounds(cols, rows, i, j) ==> g[Index(cols, rows, i, j)] == NewCell(i, j)
  {
    g := [];
    for j := 0 to rows
      invariant |g| == j * cols
      invariant forall k :: 0 <= k < |g| ==> Index(cols, rows, g[k].i, g[k].j) == k && Fresh(g[k])
    {
      for i := 0 to cols
        invariant |g| == i + j * cols
        invariant forall k :: 0 <= k < |g| ==> Index(cols, rows, g[k].i, g[k].j) == k && Fresh(g[k])
      {
        g := g + [NewCell(i, j)];
      }
    }
    forall i, j | InBounds(cols, rows, i, j) ensures g[Index(cols, rows, i, j)] == NewCell(i, j) {
      var k := Index(cols, rows, i, j);
      IndexInjective(cols, rows, i, j, g[k].i, g[k].j);
    }
  }

  /** What one tick of the carving loop did. */
  datatype Tick = Carve(next: int) | Backtrack | Stop

  /** The grid with wall `s` of cell `k` taken down; nothing else changes. */
  function ClearWall(g: seq<Cell>, k: int, s: int): (h: seq<Cell>)
    requires 0 <= k < |g| && 0 <= s < |g[k].walls|
    ensures |h| == |g| && h[k].walls == g[k].walls[s := false]
    ensures h[k] == g[k].(walls := h[k].walls)
    ensures forall x :: 0 <= x < |g| && x != k ==> h[x] == g[x]
  {
    g[k := g[k].(walls := g[k].walls[s := false])]
  }

  /** A cell as built: all walls up, not visited, not the finish. */
  predicate Fresh(c: Cell)
  {
    c.walls == [true, true, true, true] && !c.visited && !c.finish
  }
}
