/** The ranking `sorted(infos, key=lambda inf: inf.fitness, reverse=True)` of
    `_next_generation`: Python's sort is stable, so the result is the
    individuals in descending fitness, equal fitnesses in their original
    order. The ranking is computed on positions, by insertion. */
module Ranking {
  import opened Fitness

  /** Position `i` comes before position `j` in the ranking. */
  predicate Before(infos: seq<Individual>, i: nat, j: nat)
    requires i < |infos| && j < |infos|
  {
    infos[i].fitness > infos[j].fitness || (infos[i].fitness == infos[j].fitness && i < j)
  }

  predicate InRange(infos: seq<Individual>, order: seq<nat>) {
    forall p :: 0 <= p < |order| ==> order[p] < |infos|
  }

  /** Every earlier position of `order` comes before every later one. */
  predicate Ranked(infos: seq<Individual>, order: seq<nat>)
    requires InRange(infos, order)
  {
    forall p, q :: 0 <= p < q < |order| ==> Before(infos, order[p], order[q])
  }

  /** Inserts position `k` in front of the first position it comes before. */
  function Insert(infos: seq<Individual>, k: nat, order: seq<nat>): (r: seq<nat>)
    requires k < |infos| && InRange(infos, order)
    ensures InRange(infos, r)
    ensures multiset(r) == multiset(order) + multiset{k}
    ensures |r| == |order| + 1
    ensures forall x :: x in r <==> x == k || x in order
  {
    if order == [] || Before(infos, k, order[0]) then [k] + order
    else
      assert order == [order[0]] + order[1..];
      [order[0]] + Insert(infos, k, order[1..])
  }

  /** The ranking of positions `k..|infos|-1`. */
  function RankFrom(infos: seq<Individual>, k: nat): (r: seq<nat>)
    ensures InRange(infos, r)
    decreases |infos| - k
  {
    if k >= |infos| then [] else Insert(infos, k, RankFrom(infos, k + 1))
  }

  /** The positions of `infos` in ranking order. */
  function Rank(infos: seq<Individual>): (r: seq<nat>)
    ensures InRange(infos, r)
  {
    RankFrom(infos, 0)
  }

  /** `sorted(infos, key=fitness, reverse=True)`. */
  function SortByFitness(infos: seq<Individual>): (elites: seq<Individual>) {
    var order := Rank(infos);
    seq(|order|, p requires 0 <= p < |order| => infos[order[p]])
  }

  lemma {:induction false} InsertRanked(infos: seq<Individual>, k: nat, order: seq<nat>)
    requires k < |infos| && InRange(infos, order) && Ranked(infos, order) && k !in order
    ensures Ranked(infos, Insert(infos, k, order))
  {
    if order != [] && !Before(infos, k, order[0]) {
      var rest := order[1..];
      assert order == [order[0]] + rest;
      InsertRanked(infos, k, rest);
      var r := Insert(infos, k, rest);
      forall q | 0 <= q < |r|
        ensures Before(infos, order[0], r[q])
      {
        assert r[q] in multiset(r);
        if r[q] != k {
          assert r[q] in rest;
        }
      }
    }
  }

  /** The ranking is a permutation of the positions `k..|infos|-1`, in order. */
  lemma {:induction false} RankFromIsPermutation(infos: seq<Individual>, k: nat)
    requires k <= |infos|
    ensures |RankFrom(infos, k)| == |infos| - k
    ensures forall x :: x in RankFrom(infos, k) <==> k <= x < |infos|
    ensures Ranked(infos, RankFrom(infos, k))
    decreases |infos| - k
  {
    if k < |infos| {
      var rest := RankFrom(infos, k + 1);
      RankFromIsPermutation(infos, k + 1);
      InsertRanked(infos, k, rest);
    }
  }

  /** The ranking holds every individual exactly once, best fitness first; two
      individuals of equal fitness keep their original relative order. */
  lemma SortByFitnessProperties(infos: seq<Individual>)
    ensures var order := Rank(infos);
      && |order| == |infos|
      && (forall x :: 0 <= x < |infos| ==> x in order)
      && (forall p, q :: 0 <= p < q < |order| ==> order[p] != order[q])
    ensures var elites := SortByFitness(infos);
      && |elites| == |infos|
      && (forall p :: 0 <= p < |elites| ==> elites[p] == infos[Rank(infos)[p]])
      && (forall p, q :: 0 <= p < q < |elites| ==> elites[p].fitness >= elites[q].fitness)
      && (forall p, q :: 0 <= p < q < |elites| && elites[p].fitness == elites[q].fitness ==>
            Rank(infos)[p] < Rank(infos)[q])
      && (|infos| > 0 ==> forall j :: 0 <= j < |infos| ==> infos[j].fitness <= elites[0].fitness)
  {
    RankFromIsPermutation(infos, 0);
    var order := Rank(infos);
    var elites := SortByFitness(infos);
    forall j | 0 <= j < |infos|
      ensures infos[j].fitness <= elites[0].fitness
    {
      assert j in order;
      var q :| 0 <= q < |order| && order[q] == j;
      if q > 0 {
        assert Before(infos, order[0], order[q]);
      }
    }
  }
}
