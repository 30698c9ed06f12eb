/** The move encoding shared by the genetic solver and A* (the `MOVES` table of
    genetic.py and astar.py), step costs and the two distance estimates. */
module Moves {

  /** A gene is one of the eight move identifiers. */
  type Gene = g: int | 1 <= g <= 8 witness 1

  /** A grid coordinate (row, column). */
  type Cell = (int, int)

  /** `GENE_VALUES`: the keys of `MOVES`, in table order. */
  const GeneValues: seq<Gene> := [1, 2, 3, 4, 5, 6, 7, 8]

  /** `MOVES[g]`: the (row delta, column delta) of a move. */
  function Delta(g: Gene): (int, int) {
    match g
    case 1 => (-1, 0)   // up
    case 2 => (0, 1)    // right
    case 3 => (1, 0)    // down
    case 4 => (0, -1)   // left
    case 5 => (-1, 1)   // up-right
    case 6 => (1, 1)    // down-right
    case 7 => (1, -1)   // down-left
    case 8 => (-1, -1)  // up-left
  }

  /** The cell reached from `c` by move `g` (whether or not it is free). */
  function Apply(c: Cell, g: Gene): Cell {
    (c.0 + Delta(g).0, c.1 + Delta(g).1)
  }

  /** `b` is one of the eight neighbours of `a`. */
  predicate Adjacent(a: Cell, b: Cell) {
    -1 <= b.0 - a.0 <= 1 && -1 <= b.1 - a.1 <= 1 && a != b
  }

  /** A move is diagonal when both deltas are non-zero (`abs(dr) + abs(dc) == 2`). */
  predicate IsDiagonal(g: Gene) {
    Abs(Delta(g).0) + Abs(Delta(g).1) == 2
  }

  function Abs(x: int): nat {
    if x < 0 then -x else x
  }

  /** `math.sqrt(2.0)`: the exact value of the double nearest to the square root
      of two (Python prints it as 1.4142135623730951, its shortest round-trip form). */
  const Sqrt2: real := 1.4142135623730951454746218587388284504413604736328125

  /** The A* step cost: 1 for an orthogonal move, `Sqrt2` for a diagonal one. */
  function StepCost(g: Gene): real {
    if IsDiagonal(g) then Sqrt2 else 1.0
  }

  /** Manhattan distance, used by the fitness evaluator. */
  function Manhattan(a: Cell, b: Cell): nat {
    Abs(a.0 - b.0) + Abs(a.1 - b.1)
  }

  /** `_heuristic`: `math.hypot(x1 - x2, y1 - y2)`, the square root of the
      squared Euclidean distance. `sqrt` stands for the square root, whose
      floating-point value is not modelled. */
  function Heuristic(sqrt: nat -> real, a: Cell, b: Cell): real {
    sqrt(SquaredDistance(a, b))
  }

  function SquaredDistance(a: Cell, b: Cell): nat {
    (a.0 - b.0) * (a.0 - b.0) + (a.1 - b.1) * (a.1 - b.1)
  }

  /** The laws of the square root the heuristic's properties rest on. */
  ghost predicate SqrtLaws(sqrt: nat -> real) {
    sqrt(0) == 0.0 && forall n: nat :: sqrt(n) >= 0.0
  }

  /** The table holds exactly the eight neighbour offsets, each once: every gene
      moves to a neighbour, and every neighbour is reached by exactly one gene. */
  lemma {:induction false} MovesAreNeighbours(a: Cell, b: Cell)
    ensures Adjacent(a, b) <==> exists g: Gene :: Apply(a, g) == b
    ensures forall g: Gene, h: Gene :: Apply(a, g) == Apply(a, h) ==> g == h
  {
    if Adjacent(a, b) {
      var dr, dc := b.0 - a.0, b.1 - a.1;
      var g: Gene :=
        if dr == -1 && dc == 0 then 1
        else if dr == 0 && dc == 1 then 2
        else if dr == 1 && dc == 0 then 3
        else if dr == 0 && dc == -1 then 4
        else if dr == -1 && dc == 1 then 5
        else if dr == 1 && dc == 1 then 6
        else if dr == 1 && dc == -1 then 7
        else 8;
      assert Apply(a, g) == b;
    }
  }

  /** Orthogonal moves cost 1 and diagonal ones `Sqrt2`, which lies strictly
      between 1 and 2; so every step costs at least 1 and less than 2. */
  lemma StepCostBounds(g: Gene)
    ensures g <= 4 ==> StepCost(g) == 1.0
    ensures g >= 5 ==> StepCost(g) == Sqrt2
    ensures 1.0 <= StepCost(g) < 2.0
    ensures 1.0 < Sqrt2 < 2.0
  {
  }

  /** `_heuristic` is symmetric, never negative, and zero exactly from a
      cell to itself when the square root is zero only at zero. */
  lemma HeuristicProperties(sqrt: nat -> real, a: Cell, b: Cell)
    requires SqrtLaws(sqrt)
    ensures Heuristic(sqrt, a, b) == Heuristic(sqrt, b, a)
    ensures Heuristic(sqrt, a, a) == 0.0
    ensures Heuristic(sqrt, a, b) >= 0.0
    ensures (forall n: nat :: sqrt(n) == 0.0 ==> n == 0) && a != b ==> Heuristic(sqrt, a, b) > 0.0
  {
    SquaredDistanceProperties(a, b);
  }

  lemma SquaredDistanceProperties(a: Cell, b: Cell)
    ensures SquaredDistance(a, b) == SquaredDistance(b, a)
    ensures SquaredDistance(a, a) == 0
    ensures a != b ==> SquaredDistance(a, b) > 0
  {
    Square(a.0 - b.0);
    Square(a.1 - b.1);
    assert a.0 - b.0 == -(b.0 - a.0) && a.1 - b.1 == -(b.1 - a.1);
    Square(b.0 - a.0);
    Square(b.1 - a.1);
    NegSquare(a.0 - b.0);
    NegSquare(a.1 - b.1);
  }

  lemma Square(x: int)
    ensures x * x >= 0
    ensures x != 0 ==> x * x > 0
  {
    if x > 0 {
      assert x * x >= x * 1;
    } else if x < 0 {
      assert x * x == (-x) * (-x);
      assert (-x) * (-x) >= (-x) * 1;
    }
  }

  lemma NegSquare(x: int)
    ensures (-x) * (-x) == x * x
  {
  }
}
