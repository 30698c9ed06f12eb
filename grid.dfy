/** The maze of maze.py: an n-by-n grid of cell tokens with a start and an exit. */
module Grid {
  import opened Moves

  /** `Maze(grid, start, exit_pos)`. The Python object is never changed after
      construction, so it is a value here; `n` is the number of rows. Cells are
      the row tokens as strings ("0", "1", "E", "S", or longer tokens). */
  datatype Maze = Maze(grid: seq<seq<string>>, start: Cell, exit: Cell) {

    /** `self.n = len(grid)`. */
    function N(): nat {
      |grid|
    }

    /** Every row is at least `n` tokens long, so `is_free` can index any inside
        cell (otherwise `self.grid[r][c]` raises IndexError). Grids read by
        `from_file` always satisfy this (MazeLoad.LoadAsWrittenWellFormed). */
    predicate WellFormed() {
      forall r :: 0 <= r < |grid| ==> |grid[r]| >= |grid|
    }

    /** `is_inside(r, c)`. */
    predicate IsInside(r: int, c: int) {
      0 <= r < N() && 0 <= c < N()
    }

    /** `is_free(r, c)`: inside the grid and not a wall. */
    predicate IsFree(r: int, c: int)
      requires WellFormed()
    {
      IsInside(r, c) && grid[r][c] != "1"
    }
  }

  /** A free cell is inside the grid; inside it, exactly the non-"1" tokens are
      free, so "0", "E" and "S" are free and a wall never is. */
  lemma FreeMeansInsideAndNotWall(m: Maze, r: int, c: int)
    requires m.WellFormed()
    ensures m.IsFree(r, c) ==> 0 <= r < m.N() && 0 <= c < m.N()
    ensures m.IsInside(r, c) ==> (m.IsFree(r, c) <==> m.grid[r][c] != "1")
    ensures m.IsInside(r, c) && m.grid[r][c] in {"0", "E", "S"} ==> m.IsFree(r, c)
    ensures !m.IsInside(r, c) ==> !m.IsFree(r, c)
  {
  }

  /** `clone_grid`: a copy of the grid made of fresh row lists (arrays here), so
      that writing into the copy cannot change the maze. */
  method CloneGrid(m: Maze) returns (rows: seq<array<string>>)
    ensures |rows| == |m.grid|
    ensures forall i :: 0 <= i < |rows| ==> fresh(rows[i]) && rows[i][..] == m.grid[i]
    ensures forall i, j :: 0 <= i < j < |rows| ==> rows[i] != rows[j]
  {
    rows := [];
    for i := 0 to |m.grid|
      invariant |rows| == i
      invariant forall k :: 0 <= k < i ==> fresh(rows[k]) && rows[k][..] == m.grid[k]
      invariant forall k, l :: 0 <= k < l < i ==> rows[k] != rows[l]
    {
      var row := m.grid[i];
      var copy := new string[|row|](j requires 0 <= j < |row| => row[j]);
      rows := rows + [copy];
    }
  }
}
