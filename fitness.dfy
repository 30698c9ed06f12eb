/** The fitness evaluator of genetic.py (`_simulate`), as a specification: the
    replay of a chromosome against the maze, one gene at a time, and the score
    computed from the final replay state. The imperative `_simulate` is
    `Genetic.GeneticSolver.Simulate`, proved equal to `Evaluate`. */
module Fitness {
  import opened Common
  import opened Moves
  import opened Grid

  const DistScoreCap: real := 20.0
  const DistancePenalty: real := 2.0
  const CollisionScoreCap: real := 20.0
  const CollisionPenalty: real := 4.0
  const LengthScoreCap: real := 20.0
  const LengthPenalty: real := 0.5
  const ExplorationStepBonus: real := 0.7
  const ExplorationMaxBonus: real := 25.0
  const StraightStepBonus: real := 0.5
  const StraightMaxBonus: real := 15.0
  const ProgressStepReward: real := 0.6
  const ProgressMaxBonus: real := 15.0
  const RevisitPenalty: real := 0.7
  const CollisionStreakPenalty: real := 1.5
  const SuccessBonus: real := 40.0
  const SuccessMultiplier: real := 1.3
  const TrimBonusPerGene: real := 0.8
  const MaxFitness: real := 120.0

  /** `IndividualInfo`. */
  datatype Individual = Individual(chromosome: seq<Gene>, path: seq<Cell>, fitness: real, reachedExit: bool)

  /** The local variables of `_simulate` between two genes. */
  datatype Replay = Replay(
    pos: Cell,                      // (r, c)
    path: seq<Cell>,
    visits: map<Cell, nat>,         // visit_counts
    visited: set<Cell>,             // visited_cells
    collisions: nat,
    streak: nat,                    // collision_streak
    collisionPenalty: real,
    lastDirection: Option<(int, int)>,
    straightBonus: real,
    progressBonus: real,
    prevDist: int,
    reachedExit: bool)

  /** The state before the first gene. */
  function Start(m: Maze): Replay {
    Replay(m.start, [m.start], map[m.start := 1], {m.start}, 0, 0, 0.0,
           None, 0.0, 0.0, Manhattan(m.start, m.exit), false)
  }

  /** One iteration of the replay loop. A gene that points at a wall or off the
      grid is consumed without moving and escalates the collision streak; a free
      target is moved to, counted, appended to the path, and scored for progress
      and for keeping the previous direction. */
  function Step(m: Maze, g: Gene, s: Replay): Replay
    requires m.WellFormed()
  {
    var next := Apply(s.pos, g);
    if !m.IsFree(next.0, next.1) then
      s.(collisions := s.collisions + 1,
         streak := s.streak + 1,
         collisionPenalty := s.collisionPenalty + CollisionStreakPenalty * (s.streak + 1) as real)
    else
      var dist := Manhattan(next, m.exit);
      var count := if next in s.visits then s.visits[next] else 0;
      var direction := Delta(g);
      s.(pos := next,
         path := s.path + [next],
         visits := s.visits[next := count + 1],
         visited := s.visited + {next},
         streak := 0,
         progressBonus := if dist < s.prevDist
                          then s.progressBonus + ProgressStepReward * (s.prevDist - dist) as real
                          else s.progressBonus,
         prevDist := dist,
         straightBonus := if s.lastDirection == Some(direction)
                          then s.straightBonus + StraightStepBonus
                          else s.straightBonus,
         lastDirection := Some(direction),
         reachedExit := next == m.exit)
  }

  /** Replays `genes` from state `s`, stopping as soon as the exit is reached. */
  function Run(m: Maze, genes: seq<Gene>, s: Replay): Replay
    requires m.WellFormed()
    decreases |genes|
  {
    if genes == [] || s.reachedExit then s
    else Run(m, genes[1..], Step(m, genes[0], s))
  }

  /** The surplus of one visit count: `count - 1` for a cell visited more than once. */
  function Surplus(count: nat): nat {
    if count > 1 then count - 1 else 0
  }

  /** `sum(count - 1 for count in visit_counts.values() if count > 1)`, over the
      counts of the cells in `keys`. */
  ghost function OverVisits(visits: map<Cell, nat>, keys: set<Cell>): nat
    requires keys <= visits.Keys
    decreases keys
  {
    if keys == {} then 0
    else
      var k :| k in keys;
      Surplus(visits[k]) + OverVisits(visits, keys - {k})
  }

  /** The sum does not depend on which key is taken first. */
  lemma {:induction false} OverVisitsRemove(visits: map<Cell, nat>, keys: set<Cell>, k: Cell)
    requires keys <= visits.Keys && k in keys
    ensures OverVisits(visits, keys) == Surplus(visits[k]) + OverVisits(visits, keys - {k})
    decreases keys
  {
    var j :| j in keys && OverVisits(visits, keys) == Surplus(visits[j]) + OverVisits(visits, keys - {j});
    if j != k {
      OverVisitsRemove(visits, keys - {j}, k);
      OverVisitsRemove(visits, keys - {k}, j);
      assert keys - {j} - {k} == keys - {k} - {j};
    }
  }

  /** Counts outside `keys` do not matter to the sum over `keys`. */
  lemma {:induction false} OverVisitsFrame(v1: map<Cell, nat>, v2: map<Cell, nat>, keys: set<Cell>)
    requires keys <= v1.Keys && keys <= v2.Keys
    requires forall k :: k in keys ==> v1[k] == v2[k]
    ensures OverVisits(v1, keys) == OverVisits(v2, keys)
    decreases keys
  {
    if keys != {} {
      var k :| k in keys;
      OverVisitsRemove(v1, keys, k);
      OverVisitsRemove(v2, keys, k);
      OverVisitsFrame(v1, v2, keys - {k});
    }
  }

  /** Raising the count of one cell from `c >= 1` to `c + 1` adds one to the
      surplus sum; giving a new cell the count 1 adds nothing. */
  lemma OverVisitsUpdate(visits: map<Cell, nat>, k: Cell, v: nat)
    requires k in visits ==> visits[k] >= 1 && v == visits[k] + 1
    requires k !in visits ==> v == 1
    ensures OverVisits(visits[k := v], visits.Keys + {k})
         == OverVisits(visits, visits.Keys) + (if k in visits then 1 else 0)
  {
    var after := visits[k := v];
    var rest := visits.Keys - {k};
    assert after.Keys == visits.Keys + {k};
    OverVisitsRemove(after, after.Keys, k);
    assert after.Keys - {k} == rest;
    OverVisitsFrame(after, visits, rest);
    if k in visits {
      OverVisitsRemove(visits, visits.Keys, k);
    } else {
      assert visits.Keys == rest;
    }
  }

  /** `max(0, chromosome_length - path_len)`. */
  function TrimmedGenes(chromosomeLength: int, pathLen: int): (t: nat)
    ensures t >= chromosomeLength - pathLen
    ensures t == 0 || t == chromosomeLength - pathLen
  {
    if chromosomeLength - pathLen > 0 then chromosomeLength - pathLen else 0
  }

  function Max(a: real, b: real): real { if a >= b then a else b }

  function Min(a: real, b: real): real { if a <= b then a else b }

  /** The final clamp of the score into [0, MAX_FITNESS]. */
  function Clamp(score: real): (r: real)
    ensures 0.0 <= r <= MaxFitness
    ensures 0.0 <= score <= MaxFitness ==> r == score
    ensures score < 0.0 ==> r == 0.0
    ensures score > MaxFitness ==> r == MaxFitness
  {
    if score < 0.0 then 0.0 else if score > MaxFitness then MaxFitness else score
  }

  /** The score before the success multiplier and the clamp: capped proximity,
      collision, brevity, progress, exploration and straightness terms, the
      success and trim bonuses when the exit was reached, minus the revisit and
      collision-streak penalties. */
  ghost function RawScore(m: Maze, chromosomeLength: int, s: Replay): real
    requires s.visited <= s.visits.Keys
  {
    var distExit := Manhattan(s.pos, m.exit);
    var pathLen := |s.path| - 1;
    Max(0.0, DistScoreCap - DistancePenalty * distExit as real)
    + Max(0.0, CollisionScoreCap - CollisionPenalty * s.collisions as real)
    + Max(0.0, LengthScoreCap - LengthPenalty * pathLen as real)
    + Min(s.progressBonus, ProgressMaxBonus)
    + (if s.reachedExit
       then SuccessBonus + TrimmedGenes(chromosomeLength, pathLen) as real * TrimBonusPerGene
       else 0.0)
    - RevisitPenalty * OverVisits(s.visits, s.visits.Keys) as real
    - s.collisionPenalty
    + Min(|s.visited| as real * ExplorationStepBonus, ExplorationMaxBonus)
    + Min(s.straightBonus, StraightMaxBonus)
  }

  /** The fitness of a final replay state. */
  ghost function Score(m: Maze, chromosomeLength: int, s: Replay): real
    requires s.visited <= s.visits.Keys
  {
    var raw := RawScore(m, chromosomeLength, s);
    Clamp(if s.reachedExit then raw * SuccessMultiplier else raw)
  }

  /** What `_simulate(chromosome)` returns. */
  ghost function Evaluate(m: Maze, chromosomeLength: int, chromosome: seq<Gene>): Individual
    requires m.WellFormed()
  {
    var s := Run(m, chromosome, Start(m));
    RunKeepsConsistent(m, chromosome, Start(m));
    Individual(chromosome, s.path, Score(m, chromosomeLength, s), s.reachedExit)
  }

  /** Genes consumed so far: each consumed gene either collided or appended one cell. */
  function Used(s: Replay): int {
    s.collisions + |s.path| - 1
  }

  /** What holds of every state the replay reaches from `Start`. */
  ghost predicate Consistent(m: Maze, s: Replay)
    requires m.WellFormed()
  {
    PathConsistent(m, s) && CountsConsistent(s) && s.streak <= s.collisions
    && s.prevDist == Manhattan(s.pos, m.exit)
    && s.collisionPenalty >= 0.0 && s.progressBonus >= 0.0 && s.straightBonus >= 0.0
  }

  /** The path runs from the start to the current position through free,
      adjacent cells, and meets the exit only as its last cell, when reached. */
  ghost predicate PathConsistent(m: Maze, s: Replay)
    requires m.WellFormed()
  {
    && |s.path| >= 1
    && s.path[0] == m.start
    && s.path[|s.path| - 1] == s.pos
    && (forall i :: 1 <= i < |s.path| ==>
          m.IsFree(s.path[i].0, s.path[i].1) && Adjacent(s.path[i - 1], s.path[i]))
    && (forall i :: 1 <= i < |s.path| - 1 ==> s.path[i] != m.exit)
    && (s.reachedExit ==> s.pos == m.exit && |s.path| >= 2)
    && (!s.reachedExit ==> forall i :: 1 <= i < |s.path| ==> s.path[i] != m.exit)
  }

  /** The visited set is the set of counted cells, every count is positive,
      and the counts beyond the first visit add up to the revisits on the path. */
  ghost predicate CountsConsistent(s: Replay) {
    && s.visited == s.visits.Keys
    && (forall c :: c in s.visits ==> s.visits[c] >= 1)
    && OverVisits(s.visits, s.visits.Keys) == |s.path| - |s.visited|
  }

  /** The effect of one gene: a blocked gene leaves the position and the path as
      they were and adds one collision and one to the streak; a free target is
      appended to the path as the previous cell plus that gene's delta, and
      resets the streak. */
  lemma StepEffect(m: Maze, g: Gene, s: Replay)
    requires m.WellFormed()
    ensures var t := Step(m, g, s);
      var next := Apply(s.pos, g);
      if m.IsFree(next.0, next.1) then
        t.pos == next && t.path == s.path + [next] && t.collisions == s.collisions
        && t.streak == 0 && t.reachedExit == (next == m.exit)
      else
        t.pos == s.pos && t.path == s.path && t.collisions == s.collisions + 1
        && t.streak == s.streak + 1 && t.reachedExit == s.reachedExit
        && t.collisionPenalty == s.collisionPenalty + CollisionStreakPenalty * t.streak as real
  {
  }

  lemma StepKeepsPath(m: Maze, g: Gene, s: Replay)
    requires m.WellFormed() && PathConsistent(m, s) && !s.reachedExit
    ensures PathConsistent(m, Step(m, g, s))
  {
    var next := Apply(s.pos, g);
    MovesAreNeighbours(s.pos, next);
  }

  lemma StepKeepsCounts(m: Maze, g: Gene, s: Replay)
    requires m.WellFormed() && CountsConsistent(s)
    ensures CountsConsistent(Step(m, g, s))
  {
    var next := Apply(s.pos, g);
    if m.IsFree(next.0, next.1) {
      var count := if next in s.visits then s.visits[next] else 0;
      OverVisitsUpdate(s.visits, next, count + 1);
    }
  }

  lemma StepKeepsConsistent(m: Maze, g: Gene, s: Replay)
    requires m.WellFormed() && Consistent(m, s) && !s.reachedExit
    ensures Consistent(m, Step(m, g, s))
    ensures Used(Step(m, g, s)) == Used(s) + 1
  {
    StepKeepsPath(m, g, s);
    StepKeepsCounts(m, g, s);
  }

  /** Replaying keeps the state consistent; every consumed gene is counted
      once, and all remaining genes are consumed unless the exit is reached. */
  lemma {:induction false} RunKeepsConsistent(m: Maze, genes: seq<Gene>, s: Replay)
    requires m.WellFormed() && Consistent(m, s)
    ensures Consistent(m, Run(m, genes, s))
    ensures Used(s) <= Used(Run(m, genes, s)) <= Used(s) + |genes|
    ensures !Run(m, genes, s).reachedExit ==> Used(Run(m, genes, s)) == Used(s) + |genes|
    decreases |genes|
  {
    if genes != [] && !s.reachedExit {
      StepKeepsConsistent(m, genes[0], s);
      RunKeepsConsistent(m, genes[1..], Step(m, genes[0], s));
    }
  }

  lemma StartIsConsistent(m: Maze)
    requires m.WellFormed()
    ensures Consistent(m, Start(m)) && Used(Start(m)) == 0
  {
  }

  /** The contract of `_simulate`: the chromosome is returned unchanged; the
      path starts at the maze's start, has at most one cell per gene beyond
      it, and moves one step onto a free cell at a time; a reached exit is the
      last cell and was not visited earlier (the replay stops at the first
      arrival); and the fitness lies in [0, 120]. */
  lemma EvaluateProperties(m: Maze, chromosomeLength: int, chromosome: seq<Gene>)
    requires m.WellFormed()
    ensures var info := Evaluate(m, chromosomeLength, chromosome);
      && info.chromosome == chromosome
      && 1 <= |info.path| <= |chromosome| + 1
      && info.path[0] == m.start
      && (forall i :: 1 <= i < |info.path| ==>
            m.IsFree(info.path[i].0, info.path[i].1) && Adjacent(info.path[i - 1], info.path[i]))
      && (info.reachedExit ==>
            |info.path| >= 2 && info.path[|info.path| - 1] == m.exit
            && forall i :: 1 <= i < |info.path| - 1 ==> info.path[i] != m.exit)
      && (!info.reachedExit ==> forall i :: 1 <= i < |info.path| ==> info.path[i] != m.exit)
      && 0.0 <= info.fitness <= MaxFitness
  {
    StartIsConsistent(m);
    RunKeepsConsistent(m, chromosome, Start(m));
  }

  /** Replaying one more gene after a replay that has not reached the exit
      is one more step. */
  lemma {:induction false} RunSnoc(m: Maze, genes: seq<Gene>, x: Gene, s: Replay)
    requires m.WellFormed()
    requires !Run(m, genes, s).reachedExit
    ensures Run(m, genes + [x], s) == Step(m, x, Run(m, genes, s))
    decreases |genes|
  {
    if genes == [] {
      assert [x][1..] == [];
    } else {
      assert (genes + [x])[1..] == genes[1..] + [x];
      RunSnoc(m, genes[1..], x, Step(m, genes[0], s));
    }
  }

  /** Replay stops at the exit: genes after the one that reaches it are never
      executed, so appending genes to such a chromosome changes nothing. */
  lemma {:induction false} RunStopsAtExit(m: Maze, genes: seq<Gene>, extra: seq<Gene>, s: Replay)
    requires m.WellFormed()
    requires Run(m, genes, s).reachedExit
    ensures Run(m, genes + extra, s) == Run(m, genes, s)
    decreases |genes|
  {
    if genes != [] && !s.reachedExit {
      assert (genes + extra)[1..] == genes[1..] + extra;
      RunStopsAtExit(m, genes[1..], extra, Step(m, genes[0], s));
    }
  }

  /** Without reaching the exit no success bonus or multiplier applies, and the
      capped terms add up to at most 115, below the 120 an exit can earn. */
  lemma NoExitFitnessBound(m: Maze, chromosomeLength: int, chromosome: seq<Gene>)
    requires m.WellFormed()
    requires !Evaluate(m, chromosomeLength, chromosome).reachedExit
    ensures Evaluate(m, chromosomeLength, chromosome).fitness <= 115.0
  {
    var s := Run(m, chromosome, Start(m));
    assert s.collisionPenalty >= 0.0 && s.visited <= s.visits.Keys && |s.path| >= 1 by {
      StartIsConsistent(m);
      RunKeepsConsistent(m, chromosome, Start(m));
    }
    assert !s.reachedExit;
    assert RawScore(m, chromosomeLength, s) <= 115.0;
  }

  /** The revisit count `sum(count - 1 ...)` equals the number of moves that
      entered an already visited cell: path steps minus new distinct cells. */
  lemma RevisitsCountReentries(m: Maze, chromosome: seq<Gene>)
    requires m.WellFormed()
    ensures var s := Run(m, chromosome, Start(m));
      OverVisits(s.visits, s.visits.Keys) == (|s.path| - 1) - (|s.visited| - 1)
  {
    StartIsConsistent(m);
    RunKeepsConsistent(m, chromosome, Start(m));
  }

  /** The cells a sequence of genes would walk through from `c`, ignoring walls. */
  function Trace(c: Cell, genes: seq<Gene>): (cells: seq<Cell>)
    ensures |cells| == |genes|
    decreases |genes|
  {
    if genes == [] then [] else [Apply(c, genes[0])] + Trace(Apply(c, genes[0]), genes[1..])
  }

  /** Every move of `genes` from `c` lands on a free cell, and none but the
      last lands on the exit. */
  predicate FreeTrace(m: Maze, c: Cell, genes: seq<Gene>)
    requires m.WellFormed()
    decreases |genes|
  {
    genes == [] ||
      var next := Apply(c, genes[0]);
      m.IsFree(next.0, next.1) && (|genes| > 1 ==> next != m.exit) && FreeTrace(m, next, genes[1..])
  }

  /** A chromosome whose moves all land on free cells, none of them the exit
      before the last, is replayed without a collision: the path is the start
      followed by exactly those cells, and the exit is reached exactly when the
      last of them is the exit (a corridor walked gene by gene). */
  lemma {:induction false} FreeWalkHasNoCollision(m: Maze, genes: seq<Gene>, s: Replay)
    requires m.WellFormed() && !s.reachedExit && FreeTrace(m, s.pos, genes)
    ensures var r := Run(m, genes, s);
      && r.collisions == s.collisions
      && r.path == s.path + Trace(s.pos, genes)
      && r.reachedExit == (genes != [] && Trace(s.pos, genes)[|genes| - 1] == m.exit)
    decreases |genes|
  {
    if genes != [] {
      var next := Apply(s.pos, genes[0]);
      var t := Step(m, genes[0], s);
      StepEffect(m, genes[0], s);
      var tail := Trace(next, genes[1..]);
      assert Trace(s.pos, genes) == [next] + tail;
      if |genes| == 1 {
        assert tail == [];
      } else {
        FreeWalkHasNoCollision(m, genes[1..], t);
        assert t.path + tail == s.path + ([next] + tail);
        assert Trace(s.pos, genes)[|genes| - 1] == tail[|genes| - 2];
      }
    }
  }
}
