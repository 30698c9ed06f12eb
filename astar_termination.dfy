/** Why the search loop of `astar` ends: costs only fall, and only to costs
    of bounded numbers of steps, so the improvements still possible are
    finitely many and every relaxation that changes anything removes one. */
module AStarTermination {
  import opened Moves
  import opened Grid
  import opened AStarState

  /** The inside cells of the maze. */
  ghost function Box(m: Maze): set<Cell> {
    set r: int, c: int | 0 <= r < m.N() && 0 <= c < m.N() :: (r, c)
  }

  ghost function Cells(m: Maze, start: Cell): set<Cell> {
    Box(m) + {start}
  }

  /** The (cell, orthogonal steps, diagonal steps) triples, within the bound
      every reachable cost keeps to, whose cost would still improve on `g`.
      Every improvement removes at least one and none is ever added back. */
  ghost function Pending(m: Maze, start: Cell, g: map<Cell, real>): set<(Cell, nat, nat)> {
    var cells := Cells(m, start);
    var bound := 2 * |cells|;
    set c, a: nat, b: nat | c in cells && a <= bound && b <= bound && (c !in g || Cost((a, b)) < g[c]) :: (c, a, b)
  }

  lemma SubsetCard<T>(a: set<T>, b: set<T>)
    requires a <= b
    ensures |a| <= |b|
    ensures |a| == |b| ==> a == b
  {
    assert b == a + (b - a);
    if |a| == |b| {
      assert |b - a| == 0;
    }
  }

  /** Reached cells are inside cells or the start. */
  lemma ReachedAreCells(m: Maze, start: Cell, g: map<Cell, real>, cameFrom: map<Cell, Cell>)
    requires m.WellFormed() && Tree(m, start, g, cameFrom)
    ensures g.Keys <= Cells(m, start)
    ensures |g| <= |Cells(m, start)|
  {
    forall k | k in g
      ensures k in Cells(m, start)
    {
      if k != start {
        assert m.IsFree(k.0, k.1);
        assert k == (k.0, k.1);
      }
    }
    SubsetCard(g.Keys, Cells(m, start));
  }

  /** Lowering costs and reaching more cells never adds a pending improvement. */
  lemma PendingShrinks(m: Maze, start: Cell, g: map<Cell, real>, g': map<Cell, real>)
    requires forall k :: k in g ==> k in g' && g'[k] <= g[k]
    ensures Pending(m, start, g') <= Pending(m, start, g)
  {
  }

  /** A cost through `current` stays below twice the number of cells, and so
      do its step counts. */
  lemma StepsBound(g: map<Cell, real>, steps: map<Cell, (nat, nat)>, current: Cell, t: real,
                   path: (nat, nat), cells: nat)
    requires Costs(g, steps) && current in g && |g| <= cells
    requires t == Cost(path) && t <= g[current] + Sqrt2
    ensures path.0 < 2 * cells && path.1 < 2 * cells
  {
    assert g[current] <= 2.0 * (|g| - 1) as real;
    assert path.1 as real <= path.1 as real * Sqrt2;
  }

  /** Lowering the cost of a cell to one within the bound removes a pending
      improvement and adds none. */
  lemma PendingLoses(m: Maze, start: Cell, g: map<Cell, real>, n: Cell, t: real, path: (nat, nat))
    requires n in Cells(m, start) && t == Cost(path)
    requires path.0 <= 2 * |Cells(m, start)| && path.1 <= 2 * |Cells(m, start)|
    requires n !in g || t < g[n]
    ensures Pending(m, start, g[n := t]) < Pending(m, start, g)
  {
    PendingShrinks(m, start, g, g[n := t]);
    assert (n, path.0, path.1) in Pending(m, start, g);
    assert (n, path.0, path.1) !in Pending(m, start, g[n := t]);
  }

  /** A relaxation that improves a cost removes the pending improvement it
      makes, and adds none. */
  lemma ImproveShrinksPending(m: Maze, start: Cell, s: SearchState, steps: map<Cell, (nat, nat)>,
                              current: Cell, d: Gene)
    requires m.WellFormed() && Tree(m, start, s.g, s.cameFrom) && Costs(s.g, steps) && current in s.g
    requires Improves(m, s, current, d)
    ensures Pending(m, start, s.g[Apply(current, d) := s.g[current] + StepCost(d)]) < Pending(m, start, s.g)
  {
    var n := Apply(current, d);
    var t := s.g[current] + StepCost(d);
    var path := NextSteps(steps[current], d);
    StepFacts(current, d, steps[current]);
    ReachedAreCells(m, start, s.g, s.cameFrom);
    assert n in Cells(m, start) by {
      assert n == (n.0, n.1);
    }
    StepsBound(s.g, steps, current, t, path, |Cells(m, start)|);
    PendingLoses(m, start, s.g, n, t, path);
  }

  /** A relaxation that changes the state removes a pending improvement. */
  lemma RelaxStepShrinks(m: Maze, start: Cell, goal: Cell, sqrt: nat -> real, s: SearchState,
                         steps: map<Cell, (nat, nat)>, current: Cell, d: Gene)
    requires m.WellFormed() && Tree(m, start, s.g, s.cameFrom) && Costs(s.g, steps) && current in s.g
    ensures Improves(m, s, current, d) ==>
      Pending(m, start, RelaxStep(m, goal, sqrt, s, current, d).g) < Pending(m, start, s.g)
    ensures !Improves(m, s, current, d) ==> RelaxStep(m, goal, sqrt, s, current, d) == s
  {
    if Improves(m, s, current, d) {
      ImproveShrinksPending(m, start, s, steps, current, d);
    }
  }

  /** The pending improvements only shrink, so their number is a bound on the
      iterations that change costs. */
  lemma FewerPending(m: Maze, start: Cell, g: map<Cell, real>, g': map<Cell, real>)
    requires Pending(m, start, g') < Pending(m, start, g)
    ensures |Pending(m, start, g')| < |Pending(m, start, g)|
  {
    SubsetCard(Pending(m, start, g'), Pending(m, start, g));
  }
}
