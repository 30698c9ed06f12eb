/** The search loop of `astar` keeps its invariants: the start state has
    them, a relaxation, a stale pop and an expansion keep them, and when the
    heap runs empty they leave no walk to the goal. */
module AStarInvariants {
  import opened Moves
  import opened Grid
  import opened AStarState
  import opened AStarTermination

  /** The invariants hold before the first iteration. */
  lemma InitialInv(m: Maze, start: Cell, goal: Cell, sqrt: nat -> real)
    requires m.WellFormed() && SqrtLaws(sqrt)
    ensures Inv(m, start, goal, sqrt, Initial(start), map[start := (0, 0)], {})
  {
    var s := Initial(start);
    assert Open(sqrt, goal, s, start) by {
      assert (0.0, start) in s.heap;
      HeuristicProperties(sqrt, start, goal);
    }
  }

  lemma ImproveProgress(sqrt: nat -> real, goal: Cell, s: SearchState, current: Cell, n: Cell, t: real)
    requires HeapCells(s)
    requires n !in s.g || t < s.g[n]
    ensures HeapCells(Improve(sqrt, goal, s, current, n, t))
    ensures Progress(sqrt, goal, s, Improve(sqrt, goal, s, current, n, t))
  {
  }

  lemma ImproveKeepsTree(m: Maze, start: Cell, g: map<Cell, real>, cameFrom: map<Cell, Cell>,
                         current: Cell, n: Cell, t: real)
    requires m.WellFormed() && Tree(m, start, g, cameFrom) && current in g
    requires forall k :: k in g ==> g[k] >= 0.0
    requires m.IsFree(n.0, n.1) && Adjacent(current, n)
    requires t >= g[current] + 1.0
    requires n !in g || t < g[n]
    ensures Tree(m, start, g[n := t], cameFrom[n := current])
  {
    assert n != start;
  }

  lemma ImproveKeepsCosts(g: map<Cell, real>, steps: map<Cell, (nat, nat)>,
                          current: Cell, n: Cell, t: real, path: (nat, nat))
    requires Costs(g, steps) && current in g
    requires t <= g[current] + Sqrt2 && t == Cost(path)
    requires n !in g || t < g[n]
    ensures Costs(g[n := t], steps[n := path])
  {
    var g' := g[n := t];
    if n !in g {
      assert g'.Keys == g.Keys + {n};
      assert |g'| == |g| + 1;
    } else {
      assert g'.Keys == g.Keys;
    }
  }

  /** A relaxation keeps the predecessor links a tree. */
  lemma RelaxStepKeepsTree(m: Maze, start: Cell, goal: Cell, sqrt: nat -> real, s: SearchState,
                           steps: map<Cell, (nat, nat)>, current: Cell, d: Gene)
    requires m.WellFormed() && Tree(m, start, s.g, s.cameFrom) && Costs(s.g, steps) && current in s.g
    ensures var s' := RelaxStep(m, goal, sqrt, s, current, d);
      Tree(m, start, s'.g, s'.cameFrom)
  {
    var n := Apply(current, d);
    var t := s.g[current] + StepCost(d);
    if Improves(m, s, current, d) {
      StepFacts(current, d, steps[current]);
      CostsAreNonNegative(s.g, steps);
      ImproveKeepsTree(m, start, s.g, s.cameFrom, current, n, t);
    }
  }

  /** A relaxation keeps every cost a bounded count of steps: the new cost
      takes one more step than the cost of `current`. */
  lemma RelaxStepKeepsCosts(m: Maze, goal: Cell, sqrt: nat -> real, s: SearchState,
                            steps: map<Cell, (nat, nat)>, current: Cell, d: Gene)
    returns (steps': map<Cell, (nat, nat)>)
    requires m.WellFormed() && Costs(s.g, steps) && current in s.g
    ensures Costs(RelaxStep(m, goal, sqrt, s, current, d).g, steps')
  {
    var n := Apply(current, d);
    var t := s.g[current] + StepCost(d);
    steps' := steps;
    if Improves(m, s, current, d) {
      var path := NextSteps(steps[current], d);
      StepFacts(current, d, steps[current]);
      steps' := steps[n := path];
      ImproveKeepsCosts(s.g, steps, current, n, t, path);
    }
  }

  /** A relaxation keeps heap entries on reached cells, may only lower costs,
      reach more cells and push entries, and reaches the neighbour when it is
      free. */
  lemma RelaxStepProgress(m: Maze, goal: Cell, sqrt: nat -> real, s: SearchState, current: Cell, d: Gene)
    requires m.WellFormed() && HeapCells(s) && current in s.g
    ensures var s' := RelaxStep(m, goal, sqrt, s, current, d);
      && HeapCells(s') && Progress(sqrt, goal, s, s')
      && (m.IsFree(Apply(current, d).0, Apply(current, d).1) ==> Apply(current, d) in s'.g)
  {
    var n := Apply(current, d);
    var t := s.g[current] + StepCost(d);
    if Improves(m, s, current, d) {
      ImproveProgress(sqrt, goal, s, current, n, t);
    }
  }

  /** Changes that each keep `Progress` compose to one that does. */
  lemma ProgressTransitive(sqrt: nat -> real, goal: Cell, s0: SearchState, s1: SearchState, s2: SearchState)
    requires Progress(sqrt, goal, s0, s1) && Progress(sqrt, goal, s1, s2)
    ensures Progress(sqrt, goal, s0, s2)
  {
    forall k | k in s2.g
      ensures (k in s0.g && s2.g[k] == s0.g[k]) || (s2.g[k] + H(sqrt, goal, k), k) in s2.heap
    {
      if k in s1.g && s2.g[k] == s1.g[k] && !(k in s0.g && s1.g[k] == s0.g[k]) {
        assert (s1.g[k] + H(sqrt, goal, k), k) in s1.heap;
      }
    }
  }

  /** The invariant of the loop over the moves, after `i` of them: the search
      invariants, growth from the state `s0` before the loop, the first `i`
      free neighbours reached, and either no change or fewer pending
      improvements. */
  ghost predicate ExpandInv(m: Maze, start: Cell, goal: Cell, sqrt: nat -> real, s0: SearchState, s: SearchState,
                            steps: map<Cell, (nat, nat)>, current: Cell, i: nat)
    requires m.WellFormed()
  {
    && Tree(m, start, s.g, s.cameFrom) && Costs(s.g, steps) && HeapCells(s)
    && current in s.g
    && Progress(sqrt, goal, s0, s)
    && i <= |GeneValues|
    && (forall j :: 0 <= j < i ==>
          m.IsFree(Apply(current, GeneValues[j]).0, Apply(current, GeneValues[j]).1) ==> Apply(current, GeneValues[j]) in s.g)
    && (s == s0 || Pending(m, start, s.g) < Pending(m, start, s0.g))
  }

  /** Relaxing the next move keeps the loop invariant. */
  lemma RelaxStepKeepsExpandInv(m: Maze, start: Cell, goal: Cell, sqrt: nat -> real, s0: SearchState, s: SearchState,
                                steps: map<Cell, (nat, nat)>, current: Cell, i: nat)
    returns (steps': map<Cell, (nat, nat)>)
    requires m.WellFormed() && ExpandInv(m, start, goal, sqrt, s0, s, steps, current, i) && i < |GeneValues|
    ensures ExpandInv(m, start, goal, sqrt, s0, RelaxStep(m, goal, sqrt, s, current, GeneValues[i]), steps', current, i + 1)
  {
    var d := GeneValues[i];
    var next := RelaxStep(m, goal, sqrt, s, current, d);
    RelaxStepKeepsTree(m, start, goal, sqrt, s, steps, current, d);
    steps' := RelaxStepKeepsCosts(m, goal, sqrt, s, steps, current, d);
    RelaxStepShrinks(m, start, goal, sqrt, s, steps, current, d);
    RelaxStepProgress(m, goal, sqrt, s, current, d);
    ProgressTransitive(sqrt, goal, s0, s, next);
  }

  /** A pop that comes out stale (`current_f > g_score[current] + h`) is
      dropped: the invariants hold without it, since a cell that still needs
      expanding has another entry that is not stale. */
  lemma DropStaleKeepsInv(m: Maze, start: Cell, goal: Cell, sqrt: nat -> real, s: SearchState,
                          steps: map<Cell, (nat, nat)>, closed: set<Cell>, top: Entry, rest: seq<Entry>)
    requires m.WellFormed() && Inv(m, start, goal, sqrt, s, steps, closed)
    requires forall e :: e in rest ==> e in s.heap
    requires forall e :: e in s.heap && e != top ==> e in rest
    requires top.1 in s.g && top.0 > s.g[top.1] + H(sqrt, goal, top.1)
    ensures Inv(m, start, goal, sqrt, s.(heap := rest), steps, closed)
  {
    var s1 := s.(heap := rest);
    forall k | k in s1.g && k !in closed
      ensures Open(sqrt, goal, s1, k)
    {
      var f :| (f, k) in s.heap && f <= s.g[k] + H(sqrt, goal, k);
      assert (f, k) in rest;
    }
  }

  /** Expanding a popped cell that is not the goal keeps the expanded cells
      closed, with that cell added to them. */
  lemma ExpandKeepsClosed(m: Maze, goal: Cell, sqrt: nat -> real, s: SearchState,
                          closed: set<Cell>, top: Entry, rest: seq<Entry>, s': SearchState)
    requires m.WellFormed() && Closed(m, sqrt, goal, s, closed)
    requires forall e :: e in s.heap && e != top ==> e in rest
    requires top.1 in s.g && top.1 != goal
    requires Progress(sqrt, goal, s.(heap := rest), s')
    requires forall d: Gene :: m.IsFree(Apply(top.1, d).0, Apply(top.1, d).1) ==> Apply(top.1, d) in s'.g
    ensures Closed(m, sqrt, goal, s', closed + {top.1})
  {
    var s1 := s.(heap := rest);
    var closed' := closed + {top.1};
    forall k | k in s'.g && k !in closed'
      ensures Open(sqrt, goal, s', k)
    {
      if (s'.g[k] + H(sqrt, goal, k), k) !in s'.heap {
        assert k in s.g && s'.g[k] == s.g[k];
        var f :| (f, k) in s.heap && f <= s.g[k] + H(sqrt, goal, k);
        assert (f, k) in s1.heap;
        assert (f, k) in s'.heap;
      }
    }
  }

  /** The invariants after an expansion, from its separate guarantees. */
  lemma ExpandKeepsInv(m: Maze, start: Cell, goal: Cell, sqrt: nat -> real, s: SearchState,
                       steps: map<Cell, (nat, nat)>, closed: set<Cell>, top: Entry, rest: seq<Entry>,
                       s': SearchState, steps': map<Cell, (nat, nat)>)
    requires m.WellFormed() && Inv(m, start, goal, sqrt, s, steps, closed)
    requires forall e :: e in s.heap && e != top ==> e in rest
    requires top.1 in s.g && top.1 != goal
    requires Tree(m, start, s'.g, s'.cameFrom) && Costs(s'.g, steps') && HeapCells(s')
    requires Progress(sqrt, goal, s.(heap := rest), s')
    requires forall d: Gene :: m.IsFree(Apply(top.1, d).0, Apply(top.1, d).1) ==> Apply(top.1, d) in s'.g
    ensures Inv(m, start, goal, sqrt, s', steps', closed + {top.1})
  {
    ExpandKeepsClosed(m, goal, sqrt, s, closed, top, rest, s');
  }

  /** When the heap runs empty, every reached cell has been expanded, so the
      reached cells are closed under free neighbours; `start` is reached and
      the goal is not expanded, so no walk leads from `start` to the goal. */
  lemma {:induction false} NoWalk(m: Maze, start: Cell, goal: Cell, sqrt: nat -> real, s: SearchState,
                                  steps: map<Cell, (nat, nat)>, closed: set<Cell>)
    requires m.WellFormed() && Inv(m, start, goal, sqrt, s, steps, closed) && |s.heap| == 0
    ensures forall p :: !IsWalk(m, start, goal, p)
  {
    forall p | IsWalk(m, start, goal, p)
      ensures false
    {
      WalkStaysReached(m, start, goal, sqrt, s, steps, closed, p, |p| - 1);
    }
  }

  lemma {:induction false} WalkStaysReached(m: Maze, start: Cell, goal: Cell, sqrt: nat -> real, s: SearchState,
                                            steps: map<Cell, (nat, nat)>, closed: set<Cell>, p: seq<Cell>, i: nat)
    requires m.WellFormed() && Inv(m, start, goal, sqrt, s, steps, closed) && |s.heap| == 0
    requires IsWalk(m, start, goal, p) && i < |p|
    ensures p[i] in closed
  {
    if i > 0 {
      WalkStaysReached(m, start, goal, sqrt, s, steps, closed, p, i - 1);
      MovesAreNeighbours(p[i - 1], p[i]);
      var d: Gene :| Apply(p[i - 1], d) == p[i];
      assert p[i] in s.g;
    }
    assert !Open(sqrt, goal, s, p[i]);
  }
}
