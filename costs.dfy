/** Facts about the `g_score` table. An absent key stands for the source's
    `float("inf")`: the source fills every node with infinity up front, and a
    lookup of a node the search has not reached yields it. */
module Costs {
  import opened Heuristic

  /** The nodes whose cost is finite and below `v`. */
  ghost function Below(g: map<Pos, nat>, v: int): set<Pos> {
    set m | m in g && g[m] < v
  }

  /** Every finite cost is at most the number of nodes with a smaller cost.
      Each cost is one more than a cost some other node had when it was
      set, and costs only go down, so this holds throughout the search and
      bounds every cost by the number of nodes. */
  ghost predicate Ranked(g: map<Pos, nat>) {
    forall n {:trigger Below(g, g[n])} :: n in g ==> g[n] <= |Below(g, g[n])|
  }

  lemma {:induction false} SubsetCard<T>(a: set<T>, b: set<T>)
    requires a <= b
    ensures |a| <= |b|
    decreases b
  {
    if a != {} {
      var x :| x in a;
      SubsetCard(a - {x}, b - {x});
    }
  }

  /** The relaxation `g[v] := g[u] + 1`, made only when it lowers `g[v]`,
      keeps the costs ranked. */
  lemma RelaxKeepsRanked(g: map<Pos, nat>, u: Pos, v: Pos)
    requires Ranked(g) && u in g
    requires v !in g || g[u] + 1 < g[v]
    ensures Ranked(g[v := g[u] + 1])
  {
    var k := g[u] + 1;
    var g' := g[v := k];
    forall n | n in g' ensures g'[n] <= |Below(g', g'[n])| {
      if n == v {
        assert u != v && u !in Below(g, g[u]);
        assert Below(g, g[u]) + {u} <= Below(g', k);
        SubsetCard(Below(g, g[u]) + {u}, Below(g', k));
      } else {
        assert Below(g, g[n]) <= Below(g', g'[n]);
        SubsetCard(Below(g, g[n]), Below(g', g'[n]));
      }
    }
  }

  /** Ranked costs over the nodes of a grid stay below the number of nodes. */
  lemma CostBound(g: map<Pos, nat>, cells: set<Pos>, n: Pos)
    requires Ranked(g) && g.Keys <= cells && n in g
    ensures g[n] < |cells|
  {
    assert Below(g, g[n]) <= cells - {n};
    SubsetCard(Below(g, g[n]), cells - {n});
  }

  /** The decreases that the costs of `cells` still have room for: the pairs
      `(n, k)` with `k` a possible cost below both the bound and `g[n]`. */
  ghost function Budget(g: map<Pos, nat>, cells: set<Pos>, bound: int): set<(Pos, int)> {
    set n, k | n in cells && 0 <= k < bound && (n !in g || k < g[n]) :: (n, k)
  }

  /** The number of possible decreases left: the size of the budget. */
  ghost function Potential(g: map<Pos, nat>, cells: set<Pos>): nat {
    |Budget(g, cells, |cells|)|
  }

  /** Lowering one cost to a value below the bound spends at least one
      pair of the budget, and nothing is added to it. */
  lemma PotentialShrinks(g: map<Pos, nat>, cells: set<Pos>, v: Pos, k: nat)
    requires v in cells && k < |cells|
    requires v !in g || k < g[v]
    ensures Potential(g[v := k], cells) < Potential(g, cells)
  {
    var b, b' := Budget(g, cells, |cells|), Budget(g[v := k], cells, |cells|);
    assert (v, k) in b;
    forall x | x in b' ensures x in b - {(v, k)} {
      var (n, j) := x;
      assert n in cells && 0 <= j < |cells|;
    }
    SubsetCard(b', b - {(v, k)});
  }

  /** A relaxation `g[v] := g[u] + 1` that lowers `g[v]` spends part of the
      budget: the new cost stays below the number of nodes. */
  lemma RelaxSpends(g: map<Pos, nat>, cells: set<Pos>, u: Pos, v: Pos)
    requires Ranked(g) && g.Keys <= cells && u in g && v in cells
    requires v !in g || g[u] + 1 < g[v]
    ensures Potential(g[v := g[u] + 1], cells) < Potential(g, cells)
  {
    RelaxKeepsRanked(g, u, v);
    CostBound(g[v := g[u] + 1], cells, v);
    PotentialShrinks(g, cells, v, g[u] + 1);
  }
}
