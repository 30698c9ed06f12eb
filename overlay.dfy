/** `maze_with_path` of main.py: a copy of the maze's grid with the cells of a
    path marked "*". Indexing follows Python lists: a negative index counts
    from the end of the list, and an index outside raises IndexError. */
module Overlay {
  import opened Common
  import opened Moves
  import opened Grid

  /** The position Python's `xs[i]` reads in a list of length `len`. */
  function PyIndex(i: int, len: nat): (r: Option<nat>)
    ensures r.Some? <==> -(len as int) <= i < len
    ensures r.Some? ==> r.value < len && (r.value == i || r.value == i + len)
  {
    if 0 <= i < len then Some(i)
    else if -(len as int) <= i < 0 then Some(i + len)
    else None
  }

  /** The grid position `grid[r][c]` reads, if it reads one. */
  function Resolve(grid: seq<seq<string>>, cell: Cell): (p: Option<(nat, nat)>)
    ensures p.Some? ==> p.value.0 < |grid| && p.value.1 < |grid[p.value.0]|
  {
    match PyIndex(cell.0, |grid|)
    case None => None
    case Some(r) =>
      match PyIndex(cell.1, |grid[r]|)
      case None => None
      case Some(c) => Some((r, c))
  }

  /** Every cell of `path[1:]` other than the exit reads a grid position. */
  predicate Indexable(m: Maze, path: seq<Cell>) {
    forall k :: 1 <= k < |path| && path[k] != m.exit ==> Resolve(m.grid, path[k]).Some?
  }

  /** Some cell among `path[1:k]`, not the exit, reads position `(i, j)`. */
  ghost predicate MarkedBefore(m: Maze, path: seq<Cell>, k: int, i: nat, j: nat) {
    exists q :: 1 <= q < k && q < |path| && path[q] != m.exit && Resolve(m.grid, path[q]) == Some((i, j))
  }

  /** The token at `(i, j)` once the steps before `k` are done: a "0" that one
      of them reads becomes "*"; every other token stays. */
  ghost function TokenAfter(m: Maze, path: seq<Cell>, k: int, i: nat, j: nat): string
    requires i < |m.grid| && j < |m.grid[i]|
  {
    if m.grid[i][j] == "0" && MarkedBefore(m, path, k, i, j) then "*" else m.grid[i][j]
  }

  /** `maze_with_path(maze, path)`. IndexError is `Err(IndexOutOfRange)`; the
      copy made before it is then dropped, as the exception drops it. On
      success: fresh rows of the original lengths in which exactly the "0"
      cells read by some cell of `path[1:]` other than the exit hold "*". So
      "E", "S", "1" and the cell only `path[0]` names are never marked, and an
      empty path gives an unchanged copy. */
  method MazeWithPath(m: Maze, path: seq<Cell>) returns (res: Result<seq<array<string>>, Raised>)
    ensures res.Ok? <==> Indexable(m, path)
    ensures res.Ok? ==> |res.value| == |m.grid|
    ensures res.Ok? ==> forall i, j :: 0 <= i < j < |res.value| ==> res.value[i] != res.value[j]
    ensures res.Ok? ==> forall i :: 0 <= i < |res.value| ==>
              fresh(res.value[i]) && res.value[i].Length == |m.grid[i]|
    ensures res.Ok? ==> forall i, j :: 0 <= i < |res.value| && 0 <= j < res.value[i].Length ==>
              res.value[i][j] == TokenAfter(m, path, |path|, i, j)
  {
    var grid := CloneGrid(m);
    if |path| == 0 {
      return Ok(grid);
    }
    for k := 1 to |path|
      invariant forall q :: 1 <= q < k && path[q] != m.exit ==> Resolve(m.grid, path[q]).Some?
      invariant forall i :: 0 <= i < |grid| ==> fresh(grid[i]) && grid[i].Length == |m.grid[i]|
      invariant forall i, j :: 0 <= i < |grid| && 0 <= j < grid[i].Length ==>
                  grid[i][j] == TokenAfter(m, path, k, i, j)
    {
      if path[k] == m.exit {
        StepOnExit(m, path, k);
        continue;
      }
      var at := Resolve(m.grid, path[k]);
      if at.None? {
        return Err(IndexOutOfRange);
      }
      var (r, c) := at.value;
      StepOnCell(m, path, k, r, c);
      if grid[r][c] == "0" {
        grid[r][c] := "*";
      }
    }
    res := Ok(grid);
  }

  /** Skipping the exit changes no token. */
  lemma StepOnExit(m: Maze, path: seq<Cell>, k: nat)
    requires 1 <= k < |path| && path[k] == m.exit
    ensures forall i: nat, j: nat :: i < |m.grid| && j < |m.grid[i]| ==>
              TokenAfter(m, path, k + 1, i, j) == TokenAfter(m, path, k, i, j)
  {
    forall i: nat, j: nat | i < |m.grid| && j < |m.grid[i]|
      ensures MarkedBefore(m, path, k + 1, i, j) == MarkedBefore(m, path, k, i, j)
    {
      if MarkedBefore(m, path, k + 1, i, j) {
        var q :| 1 <= q < k + 1 && q < |path| && path[q] != m.exit && Resolve(m.grid, path[q]) == Some((i, j));
        assert q < k;
      }
    }
  }

  /** Step `k` reads `(r, c)`: that token becomes "*" if it was "0" or already
      "*" from an earlier step, and no other token changes. */
  lemma StepOnCell(m: Maze, path: seq<Cell>, k: nat, r: nat, c: nat)
    requires 1 <= k < |path| && path[k] != m.exit && Resolve(m.grid, path[k]) == Some((r, c))
    ensures r < |m.grid| && c < |m.grid[r]|
    ensures TokenAfter(m, path, k + 1, r, c) == if TokenAfter(m, path, k, r, c) == "0" then "*" else TokenAfter(m, path, k, r, c)
    ensures forall i: nat, j: nat :: i < |m.grid| && j < |m.grid[i]| && (i, j) != (r, c) ==>
              TokenAfter(m, path, k + 1, i, j) == TokenAfter(m, path, k, i, j)
  {
    assert MarkedBefore(m, path, k + 1, r, c);
    forall i: nat, j: nat | i < |m.grid| && j < |m.grid[i]| && (i, j) != (r, c)
      ensures MarkedBefore(m, path, k + 1, i, j) == MarkedBefore(m, path, k, i, j)
    {
      if MarkedBefore(m, path, k + 1, i, j) {
        var q :| 1 <= q < k + 1 && q < |path| && path[q] != m.exit && Resolve(m.grid, path[q]) == Some((i, j));
        assert q < k;
      }
    }
  }

  /** Inside the grid a cell reads itself, so for a path of grid cells (every
      path the solvers return) the marked positions are the path's own cells. */
  lemma ResolveInside(m: Maze, cell: Cell)
    requires m.WellFormed()
    ensures m.IsInside(cell.0, cell.1) ==> Resolve(m.grid, cell) == Some((cell.0 as nat, cell.1 as nat))
    ensures cell.0 >= |m.grid| || cell.0 < -|m.grid| ==> Resolve(m.grid, cell).None?
  {
  }

  /** The cell occurs in `path[1:]`. */
  predicate InTail(path: seq<Cell>, cell: Cell) {
    exists q :: 1 <= q < |path| && path[q] == cell
  }

  /** For a path whose cells after the first are free, nothing raises, and a
      free "0" cell is marked exactly when it occurs in `path[1:]` and is not
      the exit; the first cell of a path without repeats stays as it was. */
  lemma FreePathOverlay(m: Maze, path: seq<Cell>)
    requires m.WellFormed()
    requires forall k :: 1 <= k < |path| ==> m.IsFree(path[k].0, path[k].1)
    ensures Indexable(m, path)
    ensures forall i: nat, j: nat :: i < |m.grid| && j < |m.grid[i]| && m.grid[i][j] == "0" ==>
              (TokenAfter(m, path, |path|, i, j) == "*" <==> InTail(path, (i, j)) && (i as int, j as int) != m.exit)
    ensures |path| >= 1 && (forall k :: 1 <= k < |path| ==> path[k] != path[0]) && m.IsInside(path[0].0, path[0].1) ==>
              TokenAfter(m, path, |path|, path[0].0 as nat, path[0].1 as nat) == m.grid[path[0].0][path[0].1]
  {
    forall k | 1 <= k < |path|
      ensures Resolve(m.grid, path[k]) == Some((path[k].0 as nat, path[k].1 as nat))
    {
      ResolveInside(m, path[k]);
    }
    forall i: nat, j: nat | i < |m.grid| && j < |m.grid[i]| && m.grid[i][j] == "0"
      ensures TokenAfter(m, path, |path|, i, j) == "*" <==> InTail(path, (i, j)) && (i as int, j as int) != m.exit
    {
      if InTail(path, (i, j)) && (i as int, j as int) != m.exit {
        var q :| 1 <= q < |path| && path[q] == (i as int, j as int);
        assert Resolve(m.grid, path[q]) == Some((i, j));
      }
    }
  }
}
