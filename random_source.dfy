/** The pseudo-random source behind `random.random`, `random.randint`,
    `random.choice` and `random.sample`, made an explicit input: an infinite
    stream of raw draws and how many have been used. The generator itself is
    not modelled; each call maps its next raw draw into the range the Python
    call promises, and every value of that range is reachable. */
module RandomSource {
  import opened Common
  import opened Moves

  datatype Rng = Rng(draws: nat -> nat, used: nat) {
    /** The next raw draw. */
    function Peek(): nat {
      draws(used)
    }

    /** The source after `k` more draws. */
    function Skip(k: nat): (g: Rng)
      ensures g.draws == draws && g.used == used + k
    {
      Rng(draws, used + k)
    }
  }

  /** 2^53: `random.random()` returns a multiple of 2^-53. */
  const Two53: nat := 9007199254740992

  /** `random.random()`: a value in [0, 1). */
  function Random(g: Rng): (r: (real, Rng))
    ensures 0.0 <= r.0 < 1.0
    ensures r.1 == g.Skip(1)
  {
    var k := g.Peek() % Two53;
    (k as real / Two53 as real, g.Skip(1))
  }

  /** `random.randint(a, b)`: a value in [a, b], or ValueError when b < a. */
  function RandInt(g: Rng, a: int, b: int): (r: Result<(int, Rng), Raised>)
    ensures r.Err? <==> b < a
    ensures r.Err? ==> r.error == EmptyRange
    ensures r.Ok? ==> a <= r.value.0 <= b && r.value.1 == g.Skip(1)
  {
    if b < a then Err(EmptyRange)
    else Ok((a + g.Peek() % (b - a + 1), g.Skip(1)))
  }

  /** `random.choice(GENE_VALUES)`. */
  function ChooseGene(g: Rng): (r: (Gene, Rng))
    ensures r.0 in GeneValues && r.1 == g.Skip(1)
  {
    (GeneValues[g.Peek() % |GeneValues|], g.Skip(1))
  }

  /** The positions `random.sample(population, 2)` picks from a population of
      `n` items: two distinct positions, in the order drawn, or ValueError when
      there are fewer than two items. */
  function SampleTwo(g: Rng, n: int): (r: Result<(nat, nat, Rng), Raised>)
    ensures r.Err? <==> n < 2
    ensures r.Err? ==> r.error == SampleLargerThanPopulation
    ensures r.Ok? ==> r.value.0 < n && r.value.1 < n && r.value.0 != r.value.1
    ensures r.Ok? ==> r.value.2 == g.Skip(2)
  {
    if n < 2 then Err(SampleLargerThanPopulation)
    else
      var i := g.Peek() % n;
      var k := g.Skip(1).Peek() % (n - 1);
      var j := if k < i then k else k + 1;
      Ok((i, j, g.Skip(2)))
  }
}
