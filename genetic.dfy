/** The genetic solver of genetic.py: configuration, reproduction operators,
    population evaluation and the attempt/generation driver `run`. Randomness
    is the explicit source `Rng`, handed in and handed on. */
module Genetic {
  import opened Common
  import opened Moves
  import opened Grid
  import opened Fitness
  import opened Ranking
  import opened RandomSource

  /** `run` gives up after this many attempts. */
  const MaxAttempts: nat := 10

  function IntMax(a: int, b: int): int {
    if a >= b then a else b
  }

  /** `elite_size` and `elite_pool_size` after the constructor's defaults and
      clamps; an argument of None or 0 (Python's falsy `or`) takes the default. */
  function EliteSizes(populationSize: int, eliteSize: Option<int>, elitePoolSize: Option<int>): (int, int) {
    var elite0 := if eliteSize.Some? && eliteSize.value != 0 then eliteSize.value
                  else IntMax(1, populationSize / 5);
    var elite := if elite0 > populationSize then populationSize else elite0;
    var poolDefault := IntMax(elite * 2, elite);
    var pool0 := if elitePoolSize.Some? && elitePoolSize.value != 0 then elitePoolSize.value
                 else poolDefault;
    var pool1 := if pool0 < elite then elite else pool0;
    var pool := if pool1 > populationSize then populationSize else pool1;
    (elite, pool)
  }

  /** With at least one individual and no negative elite size, the clamps give
      1 <= elite_size <= elite_pool_size <= population_size; the defaults are
      a fifth of the population (at least 1) and twice the elite size, both
      clipped to the population. */
  lemma EliteSizesBounds(populationSize: int, eliteSize: Option<int>, elitePoolSize: Option<int>)
    requires populationSize >= 1
    requires eliteSize.Some? ==> eliteSize.value >= 0
    ensures var (e, p) := EliteSizes(populationSize, eliteSize, elitePoolSize);
      && 1 <= e <= p <= populationSize
      && (eliteSize.None? || eliteSize.value == 0 ==>
            e == (if populationSize / 5 >= 1 then populationSize / 5 else 1))
      && (elitePoolSize.None? || elitePoolSize.value == 0 ==>
            p == (if 2 * e <= populationSize then 2 * e else populationSize))
  {
  }

  /** `[random.choice(GENE_VALUES) for _ in range(count)]`. */
  function RandomGenes(g: Rng, count: int): (r: (seq<Gene>, Rng))
    ensures |r.0| == (if count < 0 then 0 else count)
    ensures r.1 == g.Skip(|r.0|)
    decreases count
  {
    if count <= 0 then ([], g)
    else
      var (x, g1) := ChooseGene(g);
      var (rest, g2) := RandomGenes(g1, count - 1);
      ([x] + rest, g2)
  }

  /** All chromosomes of a population have `length` genes. */
  predicate AllOfLength(population: seq<seq<Gene>>, length: int) {
    forall i :: 0 <= i < |population| ==> |population[i]| == length
  }

  /** `[self._random_chromosome() for _ in range(count)]`. */
  function RandomPopulation(g: Rng, count: int, chromosomeLength: int): (r: (seq<seq<Gene>>, Rng))
    ensures |r.0| == (if count < 0 then 0 else count)
    ensures AllOfLength(r.0, if chromosomeLength < 0 then 0 else chromosomeLength)
    decreases count
  {
    if count <= 0 then ([], g)
    else
      var (x, g1) := RandomGenes(g, chromosomeLength);
      var (rest, g2) := RandomPopulation(g1, count - 1, chromosomeLength);
      ([x] + rest, g2)
  }

  /** One iteration of the `_mutate` loop: a fresh `random.random()` below the
      rate redraws the gene, otherwise it is kept. */
  function MutateOne(gene: Gene, rate: real, g: Rng): (Gene, Rng) {
    var (roll, g1) := Random(g);
    if roll < rate then ChooseGene(g1) else (gene, g1)
  }

  /** The `_mutate` loop on a list of genes, front to back. */
  function MutateGenes(genes: seq<Gene>, rate: real, g: Rng): (r: (seq<Gene>, Rng))
    decreases |genes|
  {
    if genes == [] then ([], g)
    else
      var (gene, g1) := MutateOne(genes[0], rate, g);
      var (rest, g2) := MutateGenes(genes[1..], rate, g1);
      ([gene] + rest, g2)
  }

  /** Mutating one more gene at the end continues from where the shorter
      list left the random source. */
  lemma {:induction false} MutateGenesSnoc(genes: seq<Gene>, x: Gene, rate: real, g: Rng)
    ensures var (front, g1) := MutateGenes(genes, rate, g);
      MutateGenes(genes + [x], rate, g) == (front + [MutateOne(x, rate, g1).0], MutateOne(x, rate, g1).1)
    decreases |genes|
  {
    if genes == [] {
      assert genes + [x] == [x] && [x][1..] == [];
      var (y, gy) := MutateOne(x, rate, g);
      assert MutateGenes([x], rate, g) == ([y] + [], gy);
      assert [y] + [] == [] + [y];
    } else {
      var (head, g1) := MutateOne(genes[0], rate, g);
      var (rest, g2) := MutateGenes(genes[1..], rate, g1);
      var (y, gy) := MutateOne(x, rate, g2);
      assert (genes + [x])[0] == genes[0];
      assert (genes + [x])[1..] == genes[1..] + [x];
      MutateGenesSnoc(genes[1..], x, rate, g1);
      assert MutateGenes(genes[1..] + [x], rate, g1) == (rest + [y], gy);
      assert MutateGenes(genes + [x], rate, g) == ([head] + (rest + [y]), gy);
      assert MutateGenes(genes, rate, g) == ([head] + rest, g2);
      assert [head] + (rest + [y]) == ([head] + rest) + [y];
    }
  }

  /** Mutation keeps the length; every gene is kept or redrawn from the eight
      moves; with a rate of 0 or less nothing changes, because `random()` is
      never negative; each gene costs one or two draws. */
  lemma {:induction false} MutateGenesProperties(genes: seq<Gene>, rate: real, g: Rng)
    ensures |MutateGenes(genes, rate, g).0| == |genes|
    ensures rate <= 0.0 ==> MutateGenes(genes, rate, g).0 == genes
    ensures g.used + |genes| <= MutateGenes(genes, rate, g).1.used <= g.used + 2 * |genes|
    decreases |genes|
  {
    if genes != [] {
      var (gene, g1) := MutateOne(genes[0], rate, g);
      MutateGenesProperties(genes[1..], rate, g1);
      if rate <= 0.0 {
        assert genes == [genes[0]] + genes[1..];
      }
    }
  }


  /** `p1[:point] + p2[point:]` for a cut inside both parents. */
  function Splice(a: seq<Gene>, b: seq<Gene>, k: nat): seq<Gene>
    requires k <= |a| && k <= |b|
  {
    a[..k] + b[k..]
  }

  /** `_crossover(p1, p2)`: with probability 1 - rate (a roll above the rate)
      copies of the parents; otherwise one-point crossover at a cut drawn by
      `randint(1, chromosome_length - 1)`, which raises for a length below 2. */
  function Crossover(p1: seq<Gene>, p2: seq<Gene>, crossoverRate: real, chromosomeLength: int, g: Rng)
    : (r: Result<(seq<Gene>, seq<Gene>, Rng), Raised>)
    ensures r.Err? ==> r.error == EmptyRange && chromosomeLength < 2
    ensures crossoverRate < 0.0 ==> r == Ok((p1, p2, g.Skip(1)))
  {
    var (roll, g1) := Random(g);
    if roll > crossoverRate then Ok((p1, p2, g1))
    else
      match RandInt(g1, 1, chromosomeLength - 1)
      case Err(e) => Err(e)
      case Ok((point, g2)) =>
        Ok((Prefix(p1, point) + Suffix(p2, point), Prefix(p2, point) + Suffix(p1, point), g2))
  }

  /** Children of equal-length parents: each is one parent up to a common cut
      and the other parent after it, so at every position the two children
      hold the two parents' genes; a rate of 1 or more always crosses, and
      then a length below 2 always raises. */
  lemma CrossoverProperties(p1: seq<Gene>, p2: seq<Gene>, crossoverRate: real, chromosomeLength: int, g: Rng)
    requires |p1| == |p2|
    ensures var r := Crossover(p1, p2, crossoverRate, chromosomeLength, g);
      && (r.Ok? ==>
            var (c1, c2, _) := r.value;
            && |c1| == |p1| && |c2| == |p1|
            && (exists k :: 0 <= k <= |p1| && c1 == Splice(p1, p2, k) && c2 == Splice(p2, p1, k))
            && (forall i :: 0 <= i < |p1| ==>
                  (c1[i] == p1[i] && c2[i] == p2[i]) || (c1[i] == p2[i] && c2[i] == p1[i])))
      && (r.Ok? && |p1| == chromosomeLength ==>
            var (c1, c2, _) := r.value;
            (c1 == p1 && c2 == p2)
            || exists k :: 1 <= k <= |p1| - 1 && c1 == Splice(p1, p2, k) && c2 == Splice(p2, p1, k))
      && (crossoverRate >= 1.0 && chromosomeLength < 2 ==> r == Err(EmptyRange))
  {
    var r := Crossover(p1, p2, crossoverRate, chromosomeLength, g);
    if r.Ok? {
      var (c1, c2, _) := r.value;
      var (roll, g1) := Random(g);
      if roll > crossoverRate {
        assert p2[|p1|..] == [] && p1[|p1|..] == [];
        assert c1 == Splice(p1, p2, |p1|);
        assert c2 == Splice(p2, p1, |p1|);
      } else {
        var (point, g2) := RandInt(g1, 1, chromosomeLength - 1).value;
        var k := SliceBound(p1, point);
        assert SliceBound(p2, point) == k;
        assert c1 == Splice(p1, p2, k);
        assert c2 == Splice(p2, p1, k);
        if |p1| == chromosomeLength {
          assert 1 <= point <= |p1| - 1 && k == point;
        }
      }
    }
  }

  datatype RunResult = RunResult(chromosome: seq<Gene>, path: seq<Cell>, found: bool)

  /** How one attempt ends: with the best exit-reaching individual, or with the
      random source after all generations failed. */
  datatype AttemptOutcome = Solved(best: Individual) | Unsolved(rng: Rng)

  /** `max((inf for inf in infos if inf.reached_exit), key=fitness)` restricted
      to `infos[i..]`: the position of the first individual of highest fitness
      among those that reached the exit, if any did. */
  function BestWithExitFrom(infos: seq<Individual>, i: nat): (k: Option<nat>)
    requires i <= |infos|
    ensures k.None? <==> forall j :: i <= j < |infos| ==> !infos[j].reachedExit
    ensures k.Some? ==>
      && i <= k.value < |infos| && infos[k.value].reachedExit
      && (forall j :: i <= j < |infos| && infos[j].reachedExit ==> infos[j].fitness <= infos[k.value].fitness)
      && (forall j :: i <= j < k.value && infos[j].reachedExit ==> infos[j].fitness < infos[k.value].fitness)
    decreases |infos| - i
  {
    if i == |infos| then None
    else
      var rest := BestWithExitFrom(infos, i + 1);
      if !infos[i].reachedExit then rest
      else if rest.None? || infos[rest.value].fitness <= infos[i].fitness then Some(i)
      else rest
  }

  /** The genes of each individual, in order. */
  function Chromosomes(infos: seq<Individual>): (pop: seq<seq<Gene>>)
    ensures |pop| == |infos|
    ensures forall k :: 0 <= k < |infos| ==> pop[k] == infos[k].chromosome
  {
    seq(|infos|, k requires 0 <= k < |infos| => infos[k].chromosome)
  }

  class GeneticSolver {
    const maze: Maze
    const populationSize: int
    const chromosomeLength: int
    const maxGenerations: int
    const crossoverRate: real
    const mutationRate: real
    const eliteSize: int
    const elitePoolSize: int

    /** `GeneticSolver(maze, ...)` with the same defaults; the elite sizes are
        settled once, here. */
    constructor (maze: Maze, populationSize: int := 5, chromosomeLength: int := 20,
                 maxGenerations: int := 200, crossoverRate: real := 0.5, mutationRate: real := 0.05,
                 eliteSize: Option<int> := None, elitePoolSize: Option<int> := None)
      ensures this.maze == maze && this.populationSize == populationSize
      ensures this.chromosomeLength == chromosomeLength && this.maxGenerations == maxGenerations
      ensures this.crossoverRate == crossoverRate && this.mutationRate == mutationRate
      ensures (this.eliteSize, this.elitePoolSize) == EliteSizes(populationSize, eliteSize, elitePoolSize)
    {
      this.maze := maze;
      this.populationSize := populationSize;
      this.chromosomeLength := chromosomeLength;
      this.maxGenerations := maxGenerations;
      this.crossoverRate := crossoverRate;
      this.mutationRate := mutationRate;
      var sizes := EliteSizes(populationSize, eliteSize, elitePoolSize);
      this.eliteSize := sizes.0;
      this.elitePoolSize := sizes.1;
    }

    /** The number of genes `_random_chromosome` draws. */
    function Len(): nat {
      if chromosomeLength < 0 then 0 else chromosomeLength
    }

    /** The sizes the constructor guarantees for a positive population and a
        non-negative elite size (see EliteSizesBounds). */
    predicate ValidSizes() {
      1 <= eliteSize <= elitePoolSize <= populationSize
    }

    /** `_mutate(chrom)`, in place. */
    method Mutate(chrom: array<Gene>, g: Rng) returns (g': Rng)
      modifies chrom
      ensures (chrom[..], g') == MutateGenes(old(chrom[..]), mutationRate, g)
    {
      ghost var genes := chrom[..];
      g' := g;
      for i := 0 to chrom.Length
        invariant chrom[i..] == genes[i..]
        invariant (chrom[..i], g') == MutateGenes(genes[..i], mutationRate, g)
      {
        MutateGenesSnoc(genes[..i], genes[i], mutationRate, g);
        assert genes[..i + 1] == genes[..i] + [genes[i]];
        var drawn := Random(g');
        g' := drawn.1;
        if drawn.0 < mutationRate {
          var chosen := ChooseGene(g');
          chrom[i] := chosen.0;
          g' := chosen.1;
        }
        assert chrom[..i + 1] == chrom[..i] + [chrom[i]];
        assert chrom[i + 1..] == genes[i + 1..];
      }
      assert genes[..chrom.Length] == genes;
      assert chrom[..chrom.Length] == chrom[..];
    }

    /** The body of the `while` loop of `_next_generation`: two distinct
        parents sampled from the pool, crossed over, and both children mutated. */
    function Breed(pool: seq<Individual>, g: Rng): Result<(seq<Gene>, seq<Gene>, Rng), Raised> {
      match SampleTwo(g, |pool|)
      case Err(e) => Err(e)
      case Ok((i, j, g1)) =>
        match Crossover(pool[i].chromosome, pool[j].chromosome, crossoverRate, chromosomeLength, g1)
        case Err(e) => Err(e)
        case Ok((c1, c2, g2)) =>
          var (m1, g3) := MutateGenes(c1, mutationRate, g2);
          var (m2, g4) := MutateGenes(c2, mutationRate, g3);
          Ok((m1, m2, g4))
    }

    /** Breeding fails only for a pool of fewer than two parents or an empty
        cut range, and always for a pool of fewer than two; the cut is drawn
        only when the roll does not exceed the rate, so a negative rate never
        raises and a rate of 1 or more always meets an empty range. Children
        of `n`-gene parents have `n` genes. */
    lemma BreedProperties(pool: seq<Individual>, g: Rng, n: nat)
      requires forall k :: 0 <= k < |pool| ==> |pool[k].chromosome| == n
      ensures var r := Breed(pool, g);
        && (r.Err? ==>
              if |pool| < 2 then r.error == SampleLargerThanPopulation
              else r.error == EmptyRange && chromosomeLength < 2)
        && (|pool| < 2 ==> r.Err?)
        && (|pool| >= 2 && crossoverRate < 0.0 ==> r.Ok?)
        && (|pool| >= 2 && crossoverRate >= 1.0 && chromosomeLength < 2 ==> r == Err(EmptyRange))
        && (r.Ok? ==> |r.value.0| == n && |r.value.1| == n)
    {
      if |pool| >= 2 {
        var (i, j, g1) := SampleTwo(g, |pool|).value;
        var cross := Crossover(pool[i].chromosome, pool[j].chromosome, crossoverRate, chromosomeLength, g1);
        if cross.Ok? {
          CrossoverProperties(pool[i].chromosome, pool[j].chromosome, crossoverRate, chromosomeLength, g1);
          var (c1, c2, g2) := cross.value;
          MutateGenesProperties(c1, mutationRate, g2);
          MutateGenesProperties(c2, mutationRate, MutateGenes(c1, mutationRate, g2).1);
        } else {
          CrossoverProperties(pool[i].chromosome, pool[j].chromosome, crossoverRate, chromosomeLength, g1);
        }
      }
    }

    /** The `while` loop of `_next_generation`: children are appended two at a
        time (the second only while there is room) until the population is full. */
    function Refill(pool: seq<Individual>, newPop: seq<seq<Gene>>, g: Rng): Result<(seq<seq<Gene>>, Rng), Raised>
      decreases populationSize - |newPop|
    {
      if |newPop| >= populationSize then Ok((newPop, g))
      else
        match Breed(pool, g)
        case Err(e) => Err(e)
        case Ok((m1, m2, g')) =>
          var grown := newPop + [m1];
          if |grown| < populationSize then Refill(pool, grown + [m2], g')
          else Refill(pool, grown, g')
    }

    /** Refilling keeps what is already there as a prefix and stops exactly at
        the population size; children of `n`-gene parents have `n` genes; it
        fails only when there is something to add, either because the pool has
        fewer than two parents or because the cut range is empty. */
    lemma {:induction false} RefillProperties(pool: seq<Individual>, newPop: seq<seq<Gene>>, g: Rng, n: nat)
      requires forall k :: 0 <= k < |pool| ==> |pool[k].chromosome| == n
      ensures var r := Refill(pool, newPop, g);
        && (r.Ok? ==>
              && |r.value.0| == (if |newPop| >= populationSize then |newPop| else populationSize)
              && r.value.0[..|newPop|] == newPop
              && (AllOfLength(newPop, n) ==> AllOfLength(r.value.0, n)))
        && (r.Err? ==>
              && |newPop| < populationSize
              && (if |pool| < 2 then r.error == SampleLargerThanPopulation
                  else r.error == EmptyRange && chromosomeLength < 2))
        && (|newPop| < populationSize && |pool| < 2 ==> r == Err(SampleLargerThanPopulation))
      decreases populationSize - |newPop|
    {
      if |newPop| < populationSize {
        BreedProperties(pool, g, n);
        var b := Breed(pool, g);
        if b.Ok? {
          var (m1, m2, g') := b.value;
          var grown := newPop + [m1];
          var next := if |grown| < populationSize then grown + [m2] else grown;
          assert Refill(pool, newPop, g) == Refill(pool, next, g');
          RefillProperties(pool, next, g', n);
          var r := Refill(pool, newPop, g);
          if r.Ok? {
            assert next[..|newPop|] == newPop;
            assert r.value.0[..|newPop|] == r.value.0[..|next|][..|newPop|];
          }
        }
      }
    }

    /** `_next_generation(infos)`: the `elite_size` fittest chromosomes are
        copied unchanged, and the rest are children of the `elite_pool_size`
        fittest. */
    function NextGen(infos: seq<Individual>, g: Rng): Result<(seq<seq<Gene>>, Rng), Raised> {
      var elites := SortByFitness(infos);
      Refill(Prefix(elites, elitePoolSize), Chromosomes(Prefix(elites, eliteSize)), g)
    }

    /** The properties of `_next_generation` on a full population: the new
        population is full again; its first `elite_size` chromosomes are the
        fittest ones, best first; chromosome lengths are kept; with no room for
        children nothing random happens; and it raises only when children are
        needed but fewer than two parents are in the pool (or the cut range is
        empty). */
    lemma NextGenProperties(infos: seq<Individual>, g: Rng, n: nat)
      requires ValidSizes() && |infos| == populationSize
      requires forall j :: 0 <= j < |infos| ==> |infos[j].chromosome| == n
      ensures var r := NextGen(infos, g);
        var elites := SortByFitness(infos);
        && |elites| == populationSize
        && (r.Ok? ==>
              && |r.value.0| == populationSize
              && (forall p :: 0 <= p < eliteSize ==> r.value.0[p] == elites[p].chromosome)
              && AllOfLength(r.value.0, n))
        && (eliteSize == populationSize ==> r == Ok((Chromosomes(elites), g)))
        && (r.Err? ==>
              && eliteSize < populationSize
              && (if elitePoolSize < 2 then r.error == SampleLargerThanPopulation
                  else r.error == EmptyRange && chromosomeLength < 2))
        && (eliteSize < populationSize && elitePoolSize < 2 ==> r == Err(SampleLargerThanPopulation))
    {
      var elites := SortByFitness(infos);
      assert |elites| == |infos| by {
        SortByFitnessProperties(infos);
      }
      assert forall k :: 0 <= k < |elites| ==> |elites[k].chromosome| == n by {
        SortByFitnessProperties(infos);
      }
      var pool := Prefix(elites, elitePoolSize);
      var top := Prefix(elites, eliteSize);
      assert |top| == eliteSize && |pool| == elitePoolSize;
      var start := Chromosomes(top);
      assert AllOfLength(start, n);
      RefillProperties(pool, start, g, n);
      var r := NextGen(infos, g);
      assert r == Refill(pool, start, g);
      if r.Ok? {
        forall p | 0 <= p < eliteSize
          ensures r.value.0[p] == elites[p].chromosome
        {
          assert r.value.0[p] == r.value.0[..|start|][p];
        }
      }
      if eliteSize == populationSize {
        assert top == elites;
      }
    }

    /** `_next_generation(infos)`. */
    method NextGeneration(infos: seq<Individual>, g: Rng) returns (res: Result<(seq<seq<Gene>>, Rng), Raised>)
      ensures res == NextGen(infos, g)
    {
      var elites := SortByFitness(infos);
      var newPop := Chromosomes(Prefix(elites, eliteSize));
      var pool := Prefix(elites, elitePoolSize);
      var rng := g;
      while |newPop| < populationSize
        invariant Refill(pool, newPop, rng) == NextGen(infos, g)
        decreases populationSize - |newPop|
      {
        var sample := SampleTwo(rng, |pool|);
        if sample.Err? {
          return Err(sample.error);
        }
        var (i, j, rng1) := sample.value;
        var cross := Crossover(pool[i].chromosome, pool[j].chromosome, crossoverRate, chromosomeLength, rng1);
        if cross.Err? {
          return Err(cross.error);
        }
        var (c1, c2, rng2) := cross.value;
        var a1 := new Gene[|c1|](k requires 0 <= k < |c1| => c1[k]);
        var a2 := new Gene[|c2|](k requires 0 <= k < |c2| => c2[k]);
        assert a1[..] == c1 && a2[..] == c2;
        rng := Mutate(a1, rng2);
        rng := Mutate(a2, rng);
        newPop := newPop + [a1[..]];
        if |newPop| < populationSize {
          newPop := newPop + [a2[..]];
        }
      }
      res := Ok((newPop, rng));
    }

    /** One iteration of the replay loop of `_simulate`: a gene pointing at a
        wall or off the grid is a collision (the `continue`); otherwise the
        walker moves, and the bookkeeping of visits, progress and direction is
        updated. The loop's local variables are the fields of the replay. */
    method Advance(gene: Gene, walked: Replay) returns (next: Replay)
      requires maze.WellFormed() && !walked.reachedExit
      ensures next == Step(maze, gene, walked)
    {
      var (exitR, exitC) := maze.exit;
      var (dr, dc) := Delta(gene);
      var (r, c) := walked.pos;
      var nr, nc := r + dr, c + dc;
      next := walked;
      if !maze.IsFree(nr, nc) {
        next := next.(collisions := next.collisions + 1, streak := next.streak + 1);
        next := next.(collisionPenalty := next.collisionPenalty + CollisionStreakPenalty * next.streak as real);
        return;
      }
      var count := if (nr, nc) in next.visits then next.visits[(nr, nc)] else 0;
      next := next.(streak := 0, pos := (nr, nc), visits := next.visits[(nr, nc) := count + 1],
                    path := next.path + [(nr, nc)], visited := next.visited + {(nr, nc)});
      var currentDist := Abs(nr - exitR) + Abs(nc - exitC);
      if currentDist < next.prevDist {
        next := next.(progressBonus := next.progressBonus
                                       + ProgressStepReward * (next.prevDist - currentDist) as real);
      }
      next := next.(prevDist := currentDist);
      var currentDirection := (dr, dc);
      if Some(currentDirection) == next.lastDirection {
        next := next.(straightBonus := next.straightBonus + StraightStepBonus);
      } else {
        next := next.(lastDirection := Some(currentDirection));
      }
      if (nr, nc) == (exitR, exitC) {
        next := next.(reachedExit := true);
      }
    }

    /** The replay loop of `_simulate`: walks the genes from the start and
        stops at the exit (the `break`). */
    method Walk(chromosome: seq<Gene>) returns (walked: Replay)
      requires maze.WellFormed()
      ensures walked == Fitness.Run(maze, chromosome, Start(maze))
    {
      walked := Replay(maze.start, [maze.start], map[maze.start := 1], {maze.start}, 0, 0, 0.0,
                       None, 0.0, 0.0, Abs(maze.start.0 - maze.exit.0) + Abs(maze.start.1 - maze.exit.1), false);
      var i := 0;
      while i < |chromosome|
        invariant 0 <= i <= |chromosome| && !walked.reachedExit
        invariant walked == Fitness.Run(maze, chromosome[..i], Start(maze))
      {
        assert Fitness.Run(maze, chromosome[..i + 1], Start(maze)) == Step(maze, chromosome[i], walked) by {
          RunSnoc(maze, chromosome[..i], chromosome[i], Start(maze));
          assert chromosome[..i + 1] == chromosome[..i] + [chromosome[i]];
        }
        walked := Advance(chromosome[i], walked);
        i := i + 1;
        if walked.reachedExit {
          assert walked == Fitness.Run(maze, chromosome, Start(maze)) by {
            assert chromosome == chromosome[..i] + chromosome[i..];
            RunStopsAtExit(maze, chromosome[..i], chromosome[i..], Start(maze));
          }
          return;
        }
      }
      assert chromosome[..i] == chromosome;
    }

    /** `_simulate(chromosome)`: replays the genes, then scores the walk. */
    method Simulate(chromosome: seq<Gene>) returns (info: Individual)
      requires maze.WellFormed()
      ensures info == Evaluate(maze, chromosomeLength, chromosome)
    {
      var state := Walk(chromosome);
      assert state.visited <= state.visits.Keys by {
        StartIsConsistent(maze);
        RunKeepsConsistent(maze, chromosome, Start(maze));
      }
      var (r, c) := state.pos;
      var (exitR, exitC) := maze.exit;
      var path := state.path;
      var visitCounts := state.visits;
      var visitedCells := state.visited;
      var collisions := state.collisions;
      var collisionPenalty := state.collisionPenalty;
      var progressBonus := state.progressBonus;
      var straightBonus := state.straightBonus;
      var reachedExit := state.reachedExit;
      var distExit := Abs(r - exitR) + Abs(c - exitC);
      var pathLen := |path| - 1;
      var score := 0.0;
      score := score + Max(0.0, DistScoreCap - DistancePenalty * distExit as real);
      score := score + Max(0.0, CollisionScoreCap - CollisionPenalty * collisions as real);
      score := score + Max(0.0, LengthScoreCap - LengthPenalty * pathLen as real);
      score := score + Min(progressBonus, ProgressMaxBonus);
      if reachedExit {
        var trimmedGenes := TrimmedGenes(chromosomeLength, pathLen);
        score := score + SuccessBonus;
        score := score + trimmedGenes as real * TrimBonusPerGene;
      }
      ghost var bonus := if reachedExit
                         then SuccessBonus + TrimmedGenes(chromosomeLength, pathLen) as real * TrimBonusPerGene
                         else 0.0;
      assert score == Max(0.0, DistScoreCap - DistancePenalty * distExit as real)
                      + Max(0.0, CollisionScoreCap - CollisionPenalty * collisions as real)
                      + Max(0.0, LengthScoreCap - LengthPenalty * pathLen as real)
                      + Min(progressBonus, ProgressMaxBonus) + bonus;
      var surplus := 0;
      var keys := visitCounts.Keys;
      while keys != {}
        invariant keys <= visitCounts.Keys
        invariant surplus + OverVisits(visitCounts, keys) == OverVisits(visitCounts, visitCounts.Keys)
        decreases keys
      {
        var k :| k in keys;
        OverVisitsRemove(visitCounts, keys, k);
        surplus := surplus + Surplus(visitCounts[k]);
        keys := keys - {k};
      }
      var repeatPenalty := RevisitPenalty * surplus as real;
      score := score - repeatPenalty;
      score := score - collisionPenalty;
      var explorationBonus := Min(|visitedCells| as real * ExplorationStepBonus, ExplorationMaxBonus);
      score := score + explorationBonus;
      score := score + Min(straightBonus, StraightMaxBonus);
      assert distExit == Manhattan(state.pos, maze.exit);
      assert surplus == OverVisits(state.visits, state.visits.Keys);
      assert score == Max(0.0, DistScoreCap - DistancePenalty * distExit as real)
                      + Max(0.0, CollisionScoreCap - CollisionPenalty * collisions as real)
                      + Max(0.0, LengthScoreCap - LengthPenalty * pathLen as real)
                      + Min(progressBonus, ProgressMaxBonus) + bonus
                      - RevisitPenalty * surplus as real - collisionPenalty
                      + Min(|visitedCells| as real * ExplorationStepBonus, ExplorationMaxBonus)
                      + Min(straightBonus, StraightMaxBonus);
      assert score == RawScore(maze, chromosomeLength, state);
      if reachedExit {
        score := score * SuccessMultiplier;
      }
      if score < 0.0 {
        score := 0.0;
      } else if score > MaxFitness {
        score := MaxFitness;
      }
      info := Individual(chromosome, path, score, reachedExit);
    }

    /** The individual `_simulate` makes of each chromosome, in order. */
    ghost function EvaluateAll(population: seq<seq<Gene>>): seq<Individual>
      requires maze.WellFormed()
    {
      seq(|population|, i requires 0 <= i < |population| => Evaluate(maze, chromosomeLength, population[i]))
    }

    /** `_evaluate_population(population)`: every chromosome simulated; the
        position of the first individual of highest fitness (0 for an empty
        population); and whether any individual reached the exit. */
    method EvaluatePopulation(population: seq<seq<Gene>>) returns (infos: seq<Individual>, bestIdx: nat, exitFound: bool)
      requires maze.WellFormed()
      ensures infos == EvaluateAll(population)
      ensures |population| == 0 ==> bestIdx == 0
      ensures |population| > 0 ==>
        && bestIdx < |infos|
        && (forall j :: 0 <= j < |infos| ==> infos[j].fitness <= infos[bestIdx].fitness)
        && (forall j :: 0 <= j < bestIdx ==> infos[j].fitness < infos[bestIdx].fitness)
      ensures exitFound <==> exists j :: 0 <= j < |infos| && infos[j].reachedExit
    {
      infos := [];
      bestIdx := 0;
      var bestFit: Option<real> := None;   // None stands for -inf
      exitFound := false;
      for i := 0 to |population|
        invariant |infos| == i
        invariant forall j {:trigger population[j]} :: 0 <= j < i ==>
          infos[j] == Evaluate(maze, chromosomeLength, population[j])
        invariant i == 0 ==> bestIdx == 0 && bestFit.None?
        invariant i > 0 ==>
          && bestIdx < i && bestFit == Some(infos[bestIdx].fitness)
          && (forall j :: 0 <= j < i ==> infos[j].fitness <= infos[bestIdx].fitness)
          && (forall j :: 0 <= j < bestIdx ==> infos[j].fitness < infos[bestIdx].fitness)
        invariant exitFound <==> exists j :: 0 <= j < i && infos[j].reachedExit
      {
        var info := Simulate(population[i]);
        ghost var prev := infos;
        infos := infos + [info];
        assert infos[i] == info && infos[..i] == prev;
        if bestFit.None? || info.fitness > bestFit.value {
          bestFit := Some(info.fitness);
          bestIdx := i;
        }
        if info.reachedExit {
          exitFound := true;
        }
      }
      assert forall j :: 0 <= j < |infos| ==> infos[j] == EvaluateAll(population)[j];
    }

    /** The generation loop of one attempt of `run`, from generation `gen`:
        evaluate; stop with the best exit-reaching individual if any; otherwise
        breed the next population. Indexing the best of an empty population
        raises IndexError. */
    ghost function Generations(population: seq<seq<Gene>>, gen: int, g: Rng): Result<AttemptOutcome, Raised>
      requires maze.WellFormed()
      decreases maxGenerations - gen
    {
      if gen >= maxGenerations then Ok(Unsolved(g))
      else
        var infos := EvaluateAll(population);
        if |infos| == 0 then Err(IndexOutOfRange)
        else
          match BestWithExitFrom(infos, 0)
          case Some(k) => Ok(Solved(infos[k]))
          case None =>
            match NextGen(infos, g)
            case Err(e) => Err(e)
            case Ok((next, g')) => Generations(next, gen + 1, g')
    }

    /** The attempt loop of `run` after `attempt` attempts: give up with
        `([], [], False)` once more than `MaxAttempts` have started; otherwise
        start from a fresh random population. */
    ghost function Attempts(attempt: nat, g: Rng): Result<RunResult, Raised>
      requires maze.WellFormed()
      decreases MaxAttempts - attempt
    {
      if attempt + 1 > MaxAttempts then Ok(RunResult([], [], false))
      else
        var (population, g1) := RandomPopulation(g, populationSize, chromosomeLength);
        match Generations(population, 0, g1)
        case Err(e) => Err(e)
        case Ok(Solved(best)) => Ok(RunResult(best.chromosome, best.path, true))
        case Ok(Unsolved(g2)) => Attempts(attempt + 1, g2)
    }

    /** `run()`: what it returns, or the exception it raises. */
    method Run(g: Rng) returns (res: Result<RunResult, Raised>)
      requires maze.WellFormed()
      ensures res == Attempts(0, g)
    {
      var attempt: nat := 0;
      var rng := g;
      while true
        invariant attempt <= MaxAttempts
        invariant Attempts(attempt, rng) == Attempts(0, g)
        decreases MaxAttempts - attempt
      {
        ghost var before := rng;
        attempt := attempt + 1;
        if attempt > MaxAttempts {
          return Ok(RunResult([], [], false));
        }
        var population: seq<seq<Gene>>;
        population, rng := RandomPopulation(rng, populationSize, chromosomeLength).0,
                           RandomPopulation(rng, populationSize, chromosomeLength).1;
        var gen := 0;
        while gen < maxGenerations
          invariant Generations(population, gen, rng) == Generations(RandomPopulation(before, populationSize, chromosomeLength).0, 0, RandomPopulation(before, populationSize, chromosomeLength).1)
          decreases maxGenerations - gen
        {
          var infos, bestIdx, exitFound := EvaluatePopulation(population);
          if bestIdx >= |infos| {
            return Err(IndexOutOfRange);
          }
          if exitFound {
            var best := BestWithExitFrom(infos, 0);
            return Ok(RunResult(infos[best.value].chromosome, infos[best.value].path, true));
          }
          var next := NextGeneration(infos, rng);
          if next.Err? {
            return Err(next.error);
          }
          population, rng := next.value.0, next.value.1;
          gen := gen + 1;
        }
      }
    }

    /** Breeding from `n`-gene individuals gives `n`-gene chromosomes. */
    lemma NextGenKeepsLength(infos: seq<Individual>, g: Rng, n: nat)
      requires forall j :: 0 <= j < |infos| ==> |infos[j].chromosome| == n
      ensures NextGen(infos, g).Ok? ==> AllOfLength(NextGen(infos, g).value.0, n)
    {
      var elites := SortByFitness(infos);
      SortByFitnessProperties(infos);
      assert forall k :: 0 <= k < |elites| ==> |elites[k].chromosome| == n;
      var pool := Prefix(elites, elitePoolSize);
      var top := Chromosomes(Prefix(elites, eliteSize));
      assert AllOfLength(top, n);
      RefillProperties(pool, top, g, n);
    }

    /** Simulation keeps each chromosome: individual `j` is chromosome `j`. */
    lemma EvaluateAllChromosomes(population: seq<seq<Gene>>)
      requires maze.WellFormed()
      ensures |EvaluateAll(population)| == |population|
      ensures forall j :: 0 <= j < |population| ==> EvaluateAll(population)[j].chromosome == population[j]
    {
      forall j | 0 <= j < |population|
        ensures EvaluateAll(population)[j].chromosome == population[j]
      {
        EvaluateProperties(maze, chromosomeLength, population[j]);
      }
    }

    /** Elitism: when the elites are kept, the first chromosome of the next
        generation is as fit as every individual of this one, so the best
        fitness never decreases from one generation to the next. */
    lemma ElitismKeepsBest(population: seq<seq<Gene>>, g: Rng, n: nat)
      requires maze.WellFormed() && ValidSizes() && |population| == populationSize
      requires AllOfLength(population, n)
      requires NextGen(EvaluateAll(population), g).Ok?
      ensures var next := NextGen(EvaluateAll(population), g).value.0;
        && |next| == populationSize
        && forall j :: 0 <= j < |population| ==>
             Evaluate(maze, chromosomeLength, population[j]).fitness
             <= Evaluate(maze, chromosomeLength, next[0]).fitness
    {
      var infos := EvaluateAll(population);
      EvaluateAllChromosomes(population);
      NextGenProperties(infos, g, n);
      var elites := SortByFitness(infos);
      var next := NextGen(infos, g).value.0;
      var k := Rank(infos)[0];
      assert k < |infos| && elites[0] == infos[k] && forall j :: 0 <= j < |infos| ==> infos[j].fitness <= infos[k].fitness by {
        SortByFitnessProperties(infos);
      }
      assert next[0] == population[k];
      forall j | 0 <= j < |population|
        ensures Evaluate(maze, chromosomeLength, population[j]).fitness <= Evaluate(maze, chromosomeLength, next[0]).fitness
      {
        assert infos[j] == Evaluate(maze, chromosomeLength, population[j]);
      }
    }

    /** What the generation loop of one attempt ends in: the returned
        individual is a simulated, exit-reaching chromosome of the attempt's
        length; with no generations left the attempt is unsolved, and an empty
        population fails on `infos[best_idx]`. */
    lemma {:induction false} GenerationsProperties(population: seq<seq<Gene>>, gen: int, g: Rng, n: nat)
      requires maze.WellFormed() && AllOfLength(population, n)
      ensures var r := Generations(population, gen, g);
        && (r.Ok? && r.value.Solved? ==>
              var best := r.value.best;
              && best == Evaluate(maze, chromosomeLength, best.chromosome)
              && best.reachedExit && |best.chromosome| == n)
        && (gen >= maxGenerations ==> r == Ok(Unsolved(g)))
        && (gen < maxGenerations && |population| == 0 ==> r == Err(IndexOutOfRange))
      decreases maxGenerations - gen
    {
      if gen < maxGenerations {
        var infos := EvaluateAll(population);
        EvaluateAllChromosomes(population);
        if |infos| > 0 {
          var best := BestWithExitFrom(infos, 0);
          if best.Some? {
            var k := best.value;
            assert Generations(population, gen, g) == Ok(Solved(infos[k]));
            assert infos[k] == Evaluate(maze, chromosomeLength, population[k]);
          } else {
            var r := NextGen(infos, g);
            if r.Ok? {
              assert Generations(population, gen, g) == Generations(r.value.0, gen + 1, r.value.1);
              NextGenKeepsLength(infos, g, n);
              GenerationsProperties(r.value.0, gen + 1, r.value.1, n);
            }
          }
        }
      }
    }

    /** What the attempt loop of `run` ends in: a found result is the genes and
        path of a simulated chromosome that reaches the exit; otherwise
        `([], [], False)`. With no generations to run every attempt is
        unsolved; with generations but an empty population the first one
        raises. */
    lemma {:induction false} AttemptsProperties(attempt: nat, g: Rng)
      requires maze.WellFormed()
      ensures var r := Attempts(attempt, g);
        && (r.Ok? && r.value.found ==>
              var info := Evaluate(maze, chromosomeLength, r.value.chromosome);
              && info.reachedExit && info.path == r.value.path && |r.value.chromosome| == Len())
        && (r.Ok? && !r.value.found ==> r.value == RunResult([], [], false))
        && (maxGenerations <= 0 ==> r == Ok(RunResult([], [], false)))
        && (0 < maxGenerations && populationSize <= 0 && attempt < MaxAttempts ==> r == Err(IndexOutOfRange))
      decreases MaxAttempts - attempt
    {
      if attempt + 1 <= MaxAttempts {
        var (population, g1) := RandomPopulation(g, populationSize, chromosomeLength);
        GenerationsProperties(population, 0, g1, Len());
        var r := Generations(population, 0, g1);
        if r.Ok? && r.value.Unsolved? {
          AttemptsProperties(attempt + 1, r.value.rng);
        }
      }
    }

    /** A path `run` reports as found solves the maze: it starts at the start,
        ends at the exit, which it touches only there, and moves one step at a
        time, straight or diagonal, onto free cells, one cell per gene at most. */
    lemma RunFindsSolution(g: Rng)
      requires maze.WellFormed()
      requires Attempts(0, g).Ok? && Attempts(0, g).value.found
      ensures var path := Attempts(0, g).value.path;
        && 2 <= |path| <= Len() + 1
        && path[0] == maze.start && path[|path| - 1] == maze.exit
        && (forall i :: 1 <= i < |path| ==>
              maze.IsFree(path[i].0, path[i].1) && Adjacent(path[i - 1], path[i]))
        && (forall i :: 0 < i < |path| - 1 ==> path[i] != maze.exit)
    {
      AttemptsProperties(0, g);
      EvaluateProperties(maze, chromosomeLength, Attempts(0, g).value.chromosome);
    }
  }
}
