/** The predecessor map `came_from` and `reconstruct_path`. */
module Reconstruct {
  import opened Heuristic
  import opened GridModel

  /** Every predecessor link goes from a node of finite cost to a node whose
      cost is at least one less. */
  ghost predicate Descending(cameFrom: map<Pos, Pos>, g: map<Pos, nat>) {
    forall n {:trigger cameFrom[n]} :: n in cameFrom ==> n in g && cameFrom[n] in g && g[cameFrom[n]] + 1 <= g[n]
  }

  /** Every predecessor is a node of the table whose neighbour list holds
      the node it precedes. */
  ghost predicate LinksFollowNeighbors(adj: map<Pos, seq<Pos>>, cameFrom: map<Pos, Pos>) {
    forall n {:trigger cameFrom[n]} :: n in cameFrom ==> cameFrom[n] in adj && n in adj[cameFrom[n]]
  }

  /** The nodes `reconstruct_path` steps to from `n`, in order. The walk is
      finite, takes at most `g[n]` steps, and stops at a node without a
      predecessor. */
  function Walked(cameFrom: map<Pos, Pos>, g: map<Pos, nat>, n: Pos): (r: seq<Pos>)
    requires Descending(cameFrom, g) && n in g
    ensures |r| <= g[n]
    ensures r == [] <==> n !in cameFrom
    ensures r != [] ==> r[0] == cameFrom[n] && r[|r| - 1] !in cameFrom
    ensures forall i :: 0 <= i < |r| ==> r[i] in g && g[r[i]] + i + 1 <= g[n]
    decreases g[n]
  {
    if n in cameFrom then [cameFrom[n]] + Walked(cameFrom, g, cameFrom[n]) else []
  }

  function Reverse(s: seq<Pos>): (r: seq<Pos>)
    ensures |r| == |s|
    ensures forall i :: 0 <= i < |s| ==> r[i] == s[|s| - 1 - i]
  {
    if s == [] then [] else Reverse(s[1..]) + [s[0]]
  }

  /** The node `n` followed by the nodes walked back from it. */
  function Chain(cameFrom: map<Pos, Pos>, g: map<Pos, nat>, n: Pos): seq<Pos>
    requires Descending(cameFrom, g) && n in g
  {
    [n] + Walked(cameFrom, g, n)
  }

  /** In the chain from `n` each node but the last has a predecessor, and
      the next node is that predecessor. */
  lemma {:induction false} ChainSteps(cameFrom: map<Pos, Pos>, g: map<Pos, nat>, n: Pos)
    requires Descending(cameFrom, g) && n in g
    ensures forall i :: 0 <= i < |Chain(cameFrom, g, n)| - 1 ==>
              Chain(cameFrom, g, n)[i] in cameFrom &&
              Chain(cameFrom, g, n)[i + 1] == cameFrom[Chain(cameFrom, g, n)[i]]
    decreases g[n]
  {
    if n in cameFrom {
      var m := cameFrom[n];
      ChainSteps(cameFrom, g, m);
      var c, cm := Chain(cameFrom, g, n), Chain(cameFrom, g, m);
      assert c == [n] + cm;
      forall i | 0 <= i < |c| - 1 ensures c[i] in cameFrom && c[i + 1] == cameFrom[c[i]] {
        if i > 0 {
          assert c[i] == cm[i - 1] && c[i + 1] == cm[i];
        }
      }
    }
  }

  /** Extending a walk by a node the last node lists gives a walk. */
  lemma WalkAppend(adj: map<Pos, seq<Pos>>, t: seq<Pos>, x: Pos)
    requires IsWalk(adj, t) && |t| > 0 && x in adj && x in adj[t[|t| - 1]]
    ensures IsWalk(adj, t + [x])
  {
    var u := t + [x];
    forall i | 0 <= i < |u| ensures u[i] in adj {
      if i < |t| {
        assert u[i] == t[i];
      }
    }
    forall i | 0 <= i < |u| - 1 ensures u[i + 1] in adj[u[i]] {
      if i < |t| - 1 {
        assert u[i] == t[i] && u[i + 1] == t[i + 1];
      }
    }
  }

  /** A sequence whose every node is listed by the node after it is, read
      backwards, a walk along the neighbour lists. */
  lemma {:induction false} ReverseIsWalk(adj: map<Pos, seq<Pos>>, s: seq<Pos>)
    requires forall j :: 0 <= j < |s| ==> s[j] in adj
    requires forall j :: 0 <= j < |s| - 1 ==> s[j] in adj[s[j + 1]]
    ensures IsWalk(adj, Reverse(s))
    decreases |s|
  {
    if |s| == 1 {
      assert Reverse(s) == [s[0]];
    } else if |s| > 1 {
      var t := s[1..];
      forall j | 0 <= j < |t| ensures t[j] in adj {
        assert t[j] == s[j + 1];
      }
      forall j | 0 <= j < |t| - 1 ensures t[j] in adj[t[j + 1]] {
        assert t[j] == s[j + 1] && t[j + 1] == s[j + 2];
      }
      ReverseIsWalk(adj, t);
      var rt := Reverse(t);
      assert Reverse(s) == rt + [s[0]];
      assert rt[|rt| - 1] == s[1];
      WalkAppend(adj, rt, s[0]);
    }
  }

  /** Read backwards, the chain from `n` is a walk along the neighbour lists
      that ends at `n`. */
  lemma ChainIsWalk(adj: map<Pos, seq<Pos>>, cameFrom: map<Pos, Pos>, g: map<Pos, nat>, n: Pos)
    requires Descending(cameFrom, g) && LinksFollowNeighbors(adj, cameFrom) && n in g && n in adj
    ensures IsWalk(adj, Reverse(Chain(cameFrom, g, n)))
  {
    var s := Chain(cameFrom, g, n);
    ChainSteps(cameFrom, g, n);
    forall j | 0 <= j < |s| ensures s[j] in adj {
      if j > 0 {
        assert s[j - 1] in cameFrom && s[j] == cameFrom[s[j - 1]];
      }
    }
    forall j | 0 <= j < |s| - 1 ensures s[j] in adj[s[j + 1]] {
      assert s[j] in cameFrom && s[j + 1] == cameFrom[s[j]];
    }
    ReverseIsWalk(adj, s);
  }

  /** `reconstruct_path(came_from, current, draw)`: follows `came_from` back
      from `current` and paints every node it steps to as path, leaving
      `current` itself and every other node as it was. The costs `g` are
      not part of the source's call; they only witness termination. */
  method ReconstructPath(grid: Grid, cameFrom: map<Pos, Pos>, current: Pos, ghost g: map<Pos, nat>)
    requires grid.Sized() && Descending(cameFrom, g) && current in g
    requires forall n :: n in cameFrom ==> InBounds(cameFrom[n], grid.rows)
    modifies grid.color
    ensures forall i, j {:trigger grid.color[i, j]} :: 0 <= i < grid.rows && 0 <= j < grid.rows ==>
              grid.color[i, j] == if Pos(i, j) in Walked(cameFrom, g, current) then Path
                                  else old(grid.color[i, j])
  {
    var node := current;
    ghost var visited: seq<Pos> := [];
    while node in cameFrom
      invariant grid.Sized()
      invariant node in g
      invariant Walked(cameFrom, g, current) == visited + Walked(cameFrom, g, node)
      invariant forall i, j {:trigger grid.color[i, j]} :: 0 <= i < grid.rows && 0 <= j < grid.rows ==>
                  grid.color[i, j] == if Pos(i, j) in visited then Path else old(grid.color[i, j])
      decreases g[node]
    {
      node := cameFrom[node];
      grid.Paint(node, Path);
      visited := visited + [node];
    }
  }
}
