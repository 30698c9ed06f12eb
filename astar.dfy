/** `astar` of astar.py: best-first search from `start` with a binary heap of
    `(f, cell)` entries, lazy deletion of stale entries, relaxation of the
    eight neighbours, and path reconstruction from `came_from`. */
module AStar {
  import opened Common
  import opened Moves
  import opened Grid
  import opened AStarState
  import opened AStarTermination
  import opened AStarInvariants
  import opened AStarPath

  /** `heapq.heappop(open_heap)`: removes and returns a least entry. The
      heap's internal array layout is not modelled, only which entry comes out
      and which remain. */
  method HeapPop(heap: seq<Entry>) returns (top: Entry, rest: seq<Entry>)
    requires |heap| > 0
    ensures multiset(heap) == multiset(rest) + multiset{top}
    ensures forall e :: e in heap ==> EntryLe(top, e)
    ensures |rest| == |heap| - 1
    ensures forall e :: e in rest ==> e in heap
    ensures forall e :: e in heap && e != top ==> e in rest
  {
    var k := 0;
    for i := 1 to |heap|
      invariant k < i
      invariant forall j :: 0 <= j < i ==> EntryLe(heap[k], heap[j])
    {
      if !EntryLe(heap[k], heap[i]) {
        k := i;
      }
    }
    top := heap[k];
    rest := heap[..k] + heap[k + 1..];
    assert heap == heap[..k] + [top] + heap[k + 1..];
    assert multiset(heap) == multiset(rest) + multiset{top};
    forall e | e in heap && e != top
      ensures e in rest
    {
      assert e in multiset(heap);
    }
    forall e | e in rest
      ensures e in heap
    {
      assert e in multiset(rest);
    }
  }

  /** The relaxation of neighbour `(nr, nc)` of `current` in the loop over
      `MOVES.values()`: a wall or an outside cell is skipped; otherwise a
      cheaper cost through `current` records `current` as its predecessor, the
      new cost, and pushes `(f_score, neighbor)`. */
  method Relax(m: Maze, goal: Cell, sqrt: nat -> real, s: SearchState, current: Cell, d: Gene)
    returns (s': SearchState)
    requires m.WellFormed() && current in s.g
    ensures s' == RelaxStep(m, goal, sqrt, s, current, d)
  {
    s' := s;
    var (cr, cc) := current;
    var (dr, dc) := Delta(d);
    var nr, nc := cr + dr, cc + dc;
    if !m.IsFree(nr, nc) {
      return;
    }
    var stepCost := if Abs(dr) + Abs(dc) == 2 then Sqrt2 else 1.0;
    var tentative := s.g[current] + stepCost;
    var neighbor := (nr, nc);
    if neighbor !in s.g || tentative < s.g[neighbor] {
      s' := SearchState(s'.heap, s'.g, s'.cameFrom[neighbor := current]);
      s' := s'.(g := s'.g[neighbor := tentative]);
      var fScore := tentative + H(sqrt, goal, neighbor);
      s' := s'.(heap := s'.heap + [(fScore, neighbor)]);
    }
  }

  /** The loop `for dr, dc in MOVES.values()` that relaxes every neighbour of
      `current`: it keeps the invariants, reaches every free neighbour, and
      either changes nothing or removes pending improvements. */
  method Expand(m: Maze, ghost start: Cell, goal: Cell, sqrt: nat -> real, s0: SearchState,
                current: Cell, ghost steps0: map<Cell, (nat, nat)>)
    returns (s: SearchState, ghost steps: map<Cell, (nat, nat)>)
    requires m.WellFormed() && Tree(m, start, s0.g, s0.cameFrom) && Costs(s0.g, steps0) && HeapCells(s0)
    requires current in s0.g
    ensures Tree(m, start, s.g, s.cameFrom) && Costs(s.g, steps) && HeapCells(s)
    ensures Progress(sqrt, goal, s0, s)
    ensures forall d: Gene :: m.IsFree(Apply(current, d).0, Apply(current, d).1) ==> Apply(current, d) in s.g
    ensures s == s0 || Pending(m, start, s.g) < Pending(m, start, s0.g)
  {
    s, steps := s0, steps0;
    for i := 0 to |GeneValues|
      invariant ExpandInv(m, start, goal, sqrt, s0, s, steps, current, i)
    {
      var next := Relax(m, goal, sqrt, s, current, GeneValues[i]);
      steps := RelaxStepKeepsExpandInv(m, start, goal, sqrt, s0, s, steps, current, i);
      s := next;
    }
    forall d: Gene | m.IsFree(Apply(current, d).0, Apply(current, d).1)
      ensures Apply(current, d) in s.g
    {
      assert GeneValues[d - 1] == d;
    }
  }

  /** The reconstruction loop `while current in came_from`: follows the
      predecessor links back from the goal to `start` and reverses the cells
      met. The costs strictly fall along the links, so the loop ends and no
      cell repeats. */
  method Reconstruct(m: Maze, ghost start: Cell, ghost g: map<Cell, real>, cameFrom: map<Cell, Cell>, goal: Cell)
    returns (path: seq<Cell>)
    requires m.WellFormed() && Tree(m, start, g, cameFrom) && goal in g
    requires forall k :: k in g ==> g[k] >= 0.0
    ensures IsWalk(m, start, goal, path) && Distinct(path)
    ensures goal !in cameFrom ==> path == [goal]
  {
    var current := goal;
    var back := [current];
    while current in cameFrom
      invariant BackLinks(g, cameFrom, back) && back[0] == goal && back[|back| - 1] == current
      decreases g[current].Floor
    {
      BackLinksGrow(g, cameFrom, back);
      current := cameFrom[current];
      back := back + [current];
    }
    BackLinksWalk(m, start, g, cameFrom, back, goal);
    path := Reversed(back);
  }

  /** `astar(maze, start, goal)`, with `sqrt` the square root behind
      `math.hypot`. A returned path is a walk from `start` to the goal that
      never repeats a cell; `None` comes back only when no walk exists; and
      `start == goal` gives `[start]`. */
  method Astar(m: Maze, start: Cell, goal: Cell, sqrt: nat -> real) returns (path: Option<seq<Cell>>)
    requires m.WellFormed() && SqrtLaws(sqrt)
    ensures path.Some? ==> IsWalk(m, start, goal, path.value) && Distinct(path.value)
    ensures path.None? ==> forall p :: !IsWalk(m, start, goal, p)
    ensures start == goal ==> path == Some([start])
  {
    var s := Initial(start);
    ghost var steps: map<Cell, (nat, nat)> := map[start := (0, 0)];
    ghost var closed: set<Cell> := {};
    InitialInv(m, start, goal, sqrt);
    while |s.heap| > 0
      invariant Inv(m, start, goal, sqrt, s, steps, closed)
      invariant start == goal ==> s == Initial(start)
      decreases |Pending(m, start, s.g)|, |s.heap|
    {
      var top, rest := HeapPop(s.heap);
      var (currentF, current) := top;
      assert top in s.heap by {
        assert top in multiset(s.heap);
      }
      if current == goal {
        CostsAreNonNegative(s.g, steps);
        var p := Reconstruct(m, start, s.g, s.cameFrom, current);
        return Some(p);
      }
      if currentF > s.g[current] + H(sqrt, goal, current) {
        DropStaleKeepsInv(m, start, goal, sqrt, s, steps, closed, top, rest);
        s := s.(heap := rest);
        continue;
      }
      var s1 := s.(heap := rest);
      var s', steps' := Expand(m, start, goal, sqrt, s1, current, steps);
      ExpandKeepsInv(m, start, goal, sqrt, s, steps, closed, top, rest, s', steps');
      if s' != s1 {
        FewerPending(m, start, s1.g, s'.g);
      }
      s, steps, closed := s', steps', closed + {current};
    }
    assert forall p :: !IsWalk(m, start, goal, p) by {
      NoWalk(m, start, goal, sqrt, s, steps, closed);
    }
    path := None;
  }
}
