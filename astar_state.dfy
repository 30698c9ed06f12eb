/** The state of `astar` in astar.py and the invariants of its search loop:
    the open heap, the costs `g_score` and the predecessor links `came_from`,
    over the maze seen as an implicit graph whose edges are the eight moves
    onto free cells, with step cost 1 (orthogonal) or `Sqrt2` (diagonal) and
    the Euclidean heuristic. Costs are exact reals. */
module AStarState {
  import opened Moves
  import opened Grid

  /** An entry `(f_score, cell)` of `open_heap`. */
  type Entry = (real, Cell)

  /** Python's order on entries: by f, then by row, then by column. */
  predicate EntryLe(x: Entry, y: Entry) {
    || x.0 < y.0
    || (x.0 == y.0 && (x.1.0 < y.1.0 || (x.1.0 == y.1.0 && x.1.1 <= y.1.1)))
  }

  /** The entry order is a total order, so a least entry always exists. */
  lemma EntryLeIsTotalOrder(x: Entry, y: Entry, z: Entry)
    ensures EntryLe(x, x)
    ensures EntryLe(x, y) || EntryLe(y, x)
    ensures EntryLe(x, y) && EntryLe(y, x) ==> x == y
    ensures EntryLe(x, y) && EntryLe(y, z) ==> EntryLe(x, z)
  {
  }

  /** The local state of `astar`: `open_heap`, `g_score` and `came_from`. */
  datatype SearchState = SearchState(heap: seq<Entry>, g: map<Cell, real>, cameFrom: map<Cell, Cell>)

  /** `_heuristic(cell, goal)`. */
  function H(sqrt: nat -> real, goal: Cell, c: Cell): real {
    Heuristic(sqrt, c, goal)
  }

  /** The cost of `a` orthogonal and `b` diagonal steps. */
  function Cost(steps: (nat, nat)): real {
    steps.0 as real + steps.1 as real * Sqrt2
  }

  /** A walk through the maze from `start` to `goal`: every step is one of the
      eight moves and lands on a free cell (`start` itself need not be free). */
  ghost predicate IsWalk(m: Maze, start: Cell, goal: Cell, p: seq<Cell>)
    requires m.WellFormed()
  {
    && |p| >= 1 && p[0] == start && p[|p| - 1] == goal
    && forall i :: 1 <= i < |p| ==> m.IsFree(p[i].0, p[i].1) && Adjacent(p[i - 1], p[i])
  }

  ghost predicate Distinct(p: seq<Cell>) {
    forall i, j :: 0 <= i < j < |p| ==> p[i] != p[j]
  }

  /** The predecessor links: `start` has cost 0 and no predecessor; every
      other reached cell is a free neighbour of its predecessor, which is
      reached too and costs at least 1 less. */
  ghost predicate Tree(m: Maze, start: Cell, g: map<Cell, real>, cameFrom: map<Cell, Cell>)
    requires m.WellFormed()
  {
    && start in g && g[start] == 0.0 && start !in cameFrom
    && (forall k :: k in g && k != start ==> k in cameFrom)
    && forall k {:trigger cameFrom[k]} :: k in cameFrom ==>
         && k in g && cameFrom[k] in g && g[cameFrom[k]] + 1.0 <= g[k]
         && m.IsFree(k.0, k.1) && Adjacent(cameFrom[k], k)
  }

  /** Every cost is that of some number of orthogonal and diagonal steps
      (recorded in the ghost map `steps`), and below twice the number of
      reached cells. */
  ghost predicate Costs(g: map<Cell, real>, steps: map<Cell, (nat, nat)>) {
    forall k :: k in g ==> k in steps && g[k] == Cost(steps[k]) && g[k] <= 2.0 * (|g| - 1) as real
  }

  /** Every cell on the heap has a cost. */
  ghost predicate HeapCells(s: SearchState) {
    forall e :: e in s.heap ==> e.1 in s.g
  }

  /** `k` still has an entry on the heap that is not stale. */
  ghost predicate Open(sqrt: nat -> real, goal: Cell, s: SearchState, k: Cell)
    requires k in s.g
  {
    exists f :: (f, k) in s.heap && f <= s.g[k] + H(sqrt, goal, k)
  }

  /** The expanded cells `closed`: all their free neighbours are reached; the
      goal is never expanded; every reached cell is expanded or still open. */
  ghost predicate Closed(m: Maze, sqrt: nat -> real, goal: Cell, s: SearchState, closed: set<Cell>)
    requires m.WellFormed()
  {
    && (forall k :: k in closed ==> k in s.g) && goal !in closed
    && (forall k, d: Gene :: k in closed && m.IsFree(Apply(k, d).0, Apply(k, d).1) ==> Apply(k, d) in s.g)
    && (forall k :: k in s.g ==> k in closed || Open(sqrt, goal, s, k))
  }

  ghost predicate Inv(m: Maze, start: Cell, goal: Cell, sqrt: nat -> real, s: SearchState,
                      steps: map<Cell, (nat, nat)>, closed: set<Cell>)
    requires m.WellFormed()
  {
    Tree(m, start, s.g, s.cameFrom) && Costs(s.g, steps) && HeapCells(s) && Closed(m, sqrt, goal, s, closed)
  }

  /** The state before the loop: `open_heap = [(0.0, start)]`,
      `g_score = {start: 0.0}` and an empty `came_from`. */
  function Initial(start: Cell): SearchState {
    SearchState([(0.0, start)], map[start := 0.0], map[])
  }

  /** How the state may change while `current` is expanded: more cells are
      reached, no cost rises, no entry leaves the heap, and a cell whose cost
      fell has a fresh entry `(g + h, cell)`. */
  ghost predicate Progress(sqrt: nat -> real, goal: Cell, s: SearchState, s': SearchState) {
    && (forall k :: k in s.g ==> k in s'.g && s'.g[k] <= s.g[k])
    && (forall e :: e in s.heap ==> e in s'.heap)
    && (forall k :: k in s'.g ==>
          (k in s.g && s'.g[k] == s.g[k]) || (s'.g[k] + H(sqrt, goal, k), k) in s'.heap)
  }

  /** The state after a cheaper cost `t` for `n` is found through `current`. */
  function Improve(sqrt: nat -> real, goal: Cell, s: SearchState, current: Cell, n: Cell, t: real): SearchState {
    SearchState(s.heap + [(t + H(sqrt, goal, n), n)], s.g[n := t], s.cameFrom[n := current])
  }

  /** What relaxing the neighbour of `current` by move `d` leaves: the state
      after an improvement when the neighbour is free and its cost through
      `current` is lower than its recorded one (or it has none), the same
      state otherwise. */
  function RelaxStep(m: Maze, goal: Cell, sqrt: nat -> real, s: SearchState, current: Cell, d: Gene): SearchState
    requires m.WellFormed() && current in s.g
  {
    if Improves(m, s, current, d) then Improve(sqrt, goal, s, current, Apply(current, d), s.g[current] + StepCost(d))
    else s
  }

  /** The neighbour of `current` by move `d` is free, and its cost through
      `current` is lower than its recorded one, or it has none. */
  predicate Improves(m: Maze, s: SearchState, current: Cell, d: Gene)
    requires m.WellFormed() && current in s.g
  {
    var n := Apply(current, d);
    m.IsFree(n.0, n.1) && (n !in s.g || s.g[current] + StepCost(d) < s.g[n])
  }

  /** The step counts after one more move `d`. */
  function NextSteps(k: (nat, nat), d: Gene): (nat, nat) {
    if IsDiagonal(d) then (k.0, k.1 + 1) else (k.0 + 1, k.1)
  }

  /** A move reaches a neighbour, at a cost between 1 and `Sqrt2` that adds
      one orthogonal or one diagonal step. */
  lemma StepFacts(current: Cell, d: Gene, k: (nat, nat))
    ensures Adjacent(current, Apply(current, d))
    ensures 1.0 <= StepCost(d) <= Sqrt2
    ensures Cost(k) + StepCost(d) == Cost(NextSteps(k, d))
  {
  }

  lemma CostsAreNonNegative(g: map<Cell, real>, steps: map<Cell, (nat, nat)>)
    requires Costs(g, steps)
    ensures forall k :: k in g ==> g[k] >= 0.0
  {
    forall k | k in g
      ensures g[k] >= 0.0
    {
      assert g[k] == Cost(steps[k]);
    }
  }
}
