/** The path `astar` rebuilds from the predecessor links: a chain of links
    back from the goal, reversed, is a walk from `start` without repeats. */
module AStarPath {
  import opened Moves
  import opened Grid
  import opened AStarState

  /** `path.reverse()`. */
  function Reversed(p: seq<Cell>): (r: seq<Cell>)
    ensures |r| == |p|
    ensures forall i :: 0 <= i < |p| ==> r[i] == p[|p| - 1 - i]
  {
    if p == [] then [] else Reversed(p[1..]) + [p[0]]
  }

  /** `back` follows the predecessor links from its first cell, through
      reached cells whose costs strictly fall. */
  ghost predicate BackLinks(g: map<Cell, real>, cameFrom: map<Cell, Cell>, back: seq<Cell>) {
    && |back| >= 1
    && (forall i :: 0 <= i < |back| ==> back[i] in g)
    && (forall i :: 0 <= i < |back| - 1 ==> back[i] in cameFrom && cameFrom[back[i]] == back[i + 1])
    && (forall i, j :: 0 <= i < j < |back| ==> g[back[j]] < g[back[i]])
  }

  /** One more link keeps `back` a chain, and the cost's floor falls. */
  lemma BackLinksGrow(g: map<Cell, real>, cameFrom: map<Cell, Cell>, back: seq<Cell>)
    requires BackLinks(g, cameFrom, back)
    requires back[|back| - 1] in cameFrom
    requires cameFrom[back[|back| - 1]] in g && g[cameFrom[back[|back| - 1]]] + 1.0 <= g[back[|back| - 1]]
    requires g[cameFrom[back[|back| - 1]]] >= 0.0
    ensures BackLinks(g, cameFrom, back + [cameFrom[back[|back| - 1]]])
    ensures g[cameFrom[back[|back| - 1]]].Floor < g[back[|back| - 1]].Floor
  {
    var last := back[|back| - 1];
    var back' := back + [cameFrom[last]];
    forall i, j | 0 <= i < j < |back'|
      ensures g[back'[j]] < g[back'[i]]
    {
      if j == |back| && i < |back| - 1 {
        assert g[back[i]] > g[last];
      }
    }
  }

  /** A chain from the goal that ends at a cell without predecessor ends at
      `start`; reversed, it is a walk from `start` to the goal without repeats. */
  lemma BackLinksWalk(m: Maze, start: Cell, g: map<Cell, real>, cameFrom: map<Cell, Cell>, back: seq<Cell>, goal: Cell)
    requires m.WellFormed() && Tree(m, start, g, cameFrom) && BackLinks(g, cameFrom, back)
    requires back[0] == goal && back[|back| - 1] !in cameFrom
    ensures IsWalk(m, start, goal, Reversed(back)) && Distinct(Reversed(back))
  {
    ReversedSteps(m, g, cameFrom, back);
    ReversedDistinct(g, cameFrom, back);
  }

  lemma ReversedSteps(m: Maze, g: map<Cell, real>, cameFrom: map<Cell, Cell>, back: seq<Cell>)
    requires m.WellFormed() && BackLinks(g, cameFrom, back)
    requires forall k {:trigger cameFrom[k]} :: k in cameFrom ==> m.IsFree(k.0, k.1) && Adjacent(cameFrom[k], k)
    ensures var path := Reversed(back);
      forall i :: 1 <= i < |path| ==> m.IsFree(path[i].0, path[i].1) && Adjacent(path[i - 1], path[i])
  {
    var path := Reversed(back);
    var n := |back|;
    forall i | 1 <= i < n
      ensures m.IsFree(path[i].0, path[i].1) && Adjacent(path[i - 1], path[i])
    {
      assert path[i] == back[n - 1 - i] && path[i - 1] == back[n - i];
    }
  }

  lemma ReversedDistinct(g: map<Cell, real>, cameFrom: map<Cell, Cell>, back: seq<Cell>)
    requires BackLinks(g, cameFrom, back)
    ensures Distinct(Reversed(back))
  {
    var path := Reversed(back);
    var n := |back|;
    forall i, j | 0 <= i < j < n
      ensures path[i] != path[j]
    {
      assert g[path[i]] < g[path[j]];
    }
  }
}
