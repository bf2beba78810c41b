/** A model of one run of `algorithm`: its state (the open set and its
    hash, the tables `came_from`, `g_score` and `f_score`, and the colours of
    the nodes), the steps the loop takes on it, the loop invariant, and what
    the invariant says when the loop ends. */
module SearchModel {
  import opened Heuristic
  import opened GridModel
  import opened Frontier
  import opened Costs
  import opened Reconstruct

  /** The variables of `algorithm`: the open set's entries, `count`,
      `came_from`, `g_score`, `f_score`, `open_set_hash`, and the colours of
      the nodes as a table. */
  datatype SearchState = SearchState(queue: seq<Entry>, count: int, cameFrom: map<Pos, Pos>,
                                     g: map<Pos, nat>, f: map<Pos, nat>, hash: set<Pos>,
                                     colors: map<Pos, Role>)

  /** Lines 107-118: the start queued with priority 0 and count 0, its cost
      0 and its estimate `h(start, end)`; the colours are those of the grid.
      The queue and its hash agree and hold the start alone, which costs 0
      and has no predecessor. */
  function Initial(start: Pos, end: Pos, colors: map<Pos, Role>): (r: SearchState)
    ensures FrontierInSync(r.queue, r.count, r.hash, r.g) && r.hash == {start}
    ensures start in r.g && r.g[start] == 0 && start !in r.cameFrom
  {
    var q := [Entry(0, 0, start)];
    assert q[0].node == start && Nodes(q) == {start};
    SearchState(q, 0, map[], map[start := 0], map[start := H(start, end)], {start}, colors)
  }

  /** Lines 125-126: the entry at index `k` leaves the queue and its node
      the hash. */
  function Pop(s: SearchState, k: nat): (r: SearchState)
    requires k < |s.queue|
    ensures |r.queue| == |s.queue| - 1 && r.g == s.g
  {
    s.(queue := RemoveAt(s.queue, k), hash := s.hash - {s.queue[k].node})
  }

  /** Lines 135-145, for one neighbour: if going through `current` lowers
      its cost, `current` becomes its predecessor and its `g` and `f` are
      set; unless it is queued already, it is queued with the next count and
      painted open. No cost is ever removed or raised, and the neighbour
      ends up costing at most one more than `current`. */
  function RelaxStep(s: SearchState, end: Pos, current: Pos, neighbor: Pos): (r: SearchState)
    requires current in s.g
    ensures s.g.Keys <= r.g.Keys && neighbor in r.g
    ensures forall n :: n in s.g ==> r.g[n] <= s.g[n]
    ensures r.g[neighbor] <= s.g[current] + 1
  {
    var k := s.g[current] + 1;
    if neighbor in s.g && k >= s.g[neighbor] then s
    else
      var fk := k + H(neighbor, end);
      var t := s.(cameFrom := s.cameFrom[neighbor := current], g := s.g[neighbor := k], f := s.f[neighbor := fk]);
      if neighbor in s.hash then t
      else t.(queue := s.queue + [Entry(fk, s.count + 1, neighbor)], count := s.count + 1,
              hash := s.hash + {neighbor}, colors := s.colors[neighbor := Open])
  }

  /** The relaxations of the neighbours in `ns`, in order: afterwards every
      one of them has a cost, and no cost has been removed or raised. */
  function RelaxAll(s: SearchState, end: Pos, current: Pos, ns: seq<Pos>): (r: SearchState)
    requires current in s.g
    ensures s.g.Keys <= r.g.Keys
    ensures forall n :: n in s.g ==> r.g[n] <= s.g[n]
    ensures forall i :: 0 <= i < |ns| ==> ns[i] in r.g
    decreases |ns|
  {
    if ns == [] then s
    else RelaxStep(RelaxAll(s, end, current, ns[..|ns| - 1]), end, current, ns[|ns| - 1])
  }

  /** Lines 134-149: relax every neighbour of `current`, then paint it
      closed unless it is the start. Afterwards every neighbour has a cost
      and no cost has been removed or raised. */
  function ExpandStep(s: SearchState, start: Pos, end: Pos, current: Pos, ns: seq<Pos>): (r: SearchState)
    requires current in s.g
    ensures s.g.Keys <= r.g.Keys && forall n :: n in s.g ==> r.g[n] <= s.g[n]
    ensures forall i :: 0 <= i < |ns| ==> ns[i] in r.g
  {
    Close(RelaxAll(s, end, current, ns), start, current)
  }

  /** Lines 125-149 when the node taken out is not `end`: one turn of the
      loop, taking out the entry at index `k` and expanding its node. */
  function Turn(adj: map<Pos, seq<Pos>>, start: Pos, end: Pos, s: SearchState, k: nat): (r: SearchState)
    requires k < |s.queue| && s.queue[k].node in s.g && s.queue[k].node in adj
    ensures s.g.Keys <= r.g.Keys && forall n :: n in s.g ==> r.g[n] <= s.g[n]
    ensures forall i :: 0 <= i < |adj[s.queue[k].node]| ==> adj[s.queue[k].node][i] in r.g
  {
    var current := s.queue[k].node;
    ExpandStep(Pop(s, k), start, end, current, adj[current])
  }

  /** Lines 148-149: once expanded, `current` is painted closed unless it
      is the start; only the colours change. */
  function Close(s: SearchState, start: Pos, current: Pos): (r: SearchState)
    ensures r.(colors := s.colors) == s
    ensures current != start ==> current in r.colors && r.colors[current] == Closed
    ensures current == start ==> r == s
  {
    s.(colors := if current == start then s.colors else s.colors[current := Closed])
  }

  /** The open set and its hash agree, and every queued node has a cost. */
  ghost predicate FrontierInSync(q: seq<Entry>, count: int, hash: set<Pos>, g: map<Pos, nat>) {
    WellFormed(q, count) && hash == Nodes(q) && hash <= g.Keys
  }

  /** The predecessor table: every node with a cost is a node of the grid,
      the start costs 0 and has no predecessor, every other node with a
      cost has one, and each predecessor costs at least one less and lists
      its successor as a neighbour. */
  ghost predicate ChainsBack(adj: map<Pos, seq<Pos>>, start: Pos, cameFrom: map<Pos, Pos>, g: map<Pos, nat>) {
    && g.Keys <= adj.Keys
    && start in g && g[start] == 0 && start !in cameFrom
    && (forall n {:trigger n in cameFrom} :: n in g && n != start ==> n in cameFrom)
    && Descending(cameFrom, g) && LinksFollowNeighbors(adj, cameFrom)
  }

  /** The cost, estimate and predecessor tables agree: the predecessors
      chain back to the start, costs stay below the number of nodes with a
      smaller cost, and `f = g + h(., end)`. */
  ghost predicate TablesAgree(adj: map<Pos, seq<Pos>>, start: Pos, end: Pos, cameFrom: map<Pos, Pos>,
                              g: map<Pos, nat>, f: map<Pos, nat>)
  {
    && ChainsBack(adj, start, cameFrom, g)
    && Ranked(g)
    && f.Keys == g.Keys && (forall n {:trigger f[n]} :: n in g ==> f[n] == g[n] + H(n, end))
  }

  /** Every node with a cost that is neither queued nor in `busy` (the node
      being expanded) has had all its neighbours given a cost. */
  ghost predicate Expanded(adj: map<Pos, seq<Pos>>, g: map<Pos, nat>, hash: set<Pos>, busy: set<Pos>) {
    forall n, q :: n in g && n !in hash && n !in busy && n in adj && q in adj[n] ==> q in g
  }

  /** Queued nodes other than the start are painted open and expanded ones
      closed; nodes without a cost, and the start, keep the colour they had
      in `before`. */
  ghost predicate Painted(colors: map<Pos, Role>, start: Pos, g: map<Pos, nat>, hash: set<Pos>,
                          busy: set<Pos>, before: map<Pos, Role>)
  {
    && colors.Keys == before.Keys
    && (forall n :: n in colors && n in g && n != start && n !in busy ==>
          colors[n] == if n in hash then Open else Closed)
    && (forall p :: p in colors && p !in g ==> colors[p] == before[p])
    && (start in colors ==> colors[start] == before[start])
  }

  /** The loop invariant of `algorithm`, with `busy` the node being
      expanded (or none between iterations) and `before` the colours the
      grid had when the search began. */
  ghost predicate SearchInv(adj: map<Pos, seq<Pos>>, start: Pos, end: Pos, s: SearchState,
                            busy: set<Pos>, before: map<Pos, Role>)
  {
    && ListsInside(adj) && start in adj && end in adj
    && FrontierInSync(s.queue, s.count, s.hash, s.g)
    && TablesAgree(adj, start, end, s.cameFrom, s.g, s.f)
    && (end in s.g ==> end in s.hash)
    && Expanded(adj, s.g, s.hash, busy)
    && s.colors.Keys == adj.Keys
    && Painted(s.colors, start, s.g, s.hash, busy, before)
  }

  /** The colours of all nodes, as a table. */
  ghost function Snapshot(grid: Grid): (m: map<Pos, Role>)
    reads grid.color
    requires grid.color.Length0 == grid.rows && grid.color.Length1 == grid.rows
    ensures Shows(grid, m)
  {
    map p | p in Cells(grid.rows) :: grid.color[p.row, p.col]
  }

  /** `colors` is the table of the colours the grid shows. */
  ghost predicate Shows(grid: Grid, colors: map<Pos, Role>)
    reads grid.color
  {
    && colors.Keys == Cells(grid.rows)
    && grid.color.Length0 == grid.rows && grid.color.Length1 == grid.rows
    && forall p {:trigger grid.color[p.row, p.col]} :: p in colors ==> grid.color[p.row, p.col] == colors[p]
  }

  lemma RelaxKeepsDescending(cameFrom: map<Pos, Pos>, g: map<Pos, nat>, current: Pos, neighbor: Pos)
    requires Descending(cameFrom, g) && current in g
    requires neighbor !in g || g[current] + 1 < g[neighbor]
    ensures Descending(cameFrom[neighbor := current], g[neighbor := g[current] + 1])
  {
    var cf', g' := cameFrom[neighbor := current], g[neighbor := g[current] + 1];
    forall n | n in cf' ensures n in g' && cf'[n] in g' && g'[cf'[n]] + 1 <= g'[n] {
      if n != neighbor {
        assert cf'[n] == cameFrom[n];
      }
    }
  }

  lemma RelaxKeepsLinks(adj: map<Pos, seq<Pos>>, cameFrom: map<Pos, Pos>, current: Pos, neighbor: Pos)
    requires LinksFollowNeighbors(adj, cameFrom)
    requires current in adj && neighbor in adj[current]
    ensures LinksFollowNeighbors(adj, cameFrom[neighbor := current])
  {
    var cf' := cameFrom[neighbor := current];
    forall n | n in cf' ensures cf'[n] in adj && n in adj[cf'[n]] {
      if n != neighbor {
        assert cf'[n] == cameFrom[n];
      }
    }
  }

  /** Relaxing `neighbor` through `current` into the tables `cf'`, `g'`
      and `f'`, made only when it lowers the neighbour's cost, keeps the
      tables in agreement; the start is never relaxed, since every tentative
      cost is at least 1. */
  lemma RelaxKeepsTables(adj: map<Pos, seq<Pos>>, start: Pos, end: Pos, cameFrom: map<Pos, Pos>,
                         g: map<Pos, nat>, f: map<Pos, nat>, current: Pos, neighbor: Pos,
                         cf': map<Pos, Pos>, g': map<Pos, nat>, f': map<Pos, nat>)
    requires ListsInside(adj) && TablesAgree(adj, start, end, cameFrom, g, f)
    requires current in g && current in adj && neighbor in adj[current]
    requires neighbor !in g || g[current] + 1 < g[neighbor]
    requires cf' == cameFrom[neighbor := current] && g' == g[neighbor := g[current] + 1]
    requires f' == f[neighbor := g[current] + 1 + H(neighbor, end)]
    ensures neighbor != start && neighbor in adj
    ensures TablesAgree(adj, start, end, cf', g', f')
  {
    RelaxKeepsRanked(g, current, neighbor);
    RelaxKeepsDescending(cameFrom, g, current, neighbor);
    RelaxKeepsLinks(adj, cameFrom, current, neighbor);
    assert f'.Keys == g'.Keys;
    assert forall n :: n in g' && n != start ==> n in cf';
  }

  /** Expanding a growing set of costs and queued nodes keeps the nodes that
      were expanded expanded. */
  lemma ExpandedGrows(adj: map<Pos, seq<Pos>>, g: map<Pos, nat>, hash: set<Pos>, g': map<Pos, nat>,
                      hash': set<Pos>, busy: set<Pos>)
    requires Expanded(adj, g, hash, busy)
    requires g.Keys <= g'.Keys && hash <= hash'
    requires forall n :: n in g' && n !in g ==> n in hash'
    ensures Expanded(adj, g', hash', busy)
  {
  }

  /** Painting the expanded node closed (unless it is the start) once all
      its neighbours have a cost: it is now expanded. */
  lemma CloseKeepsPainted(colors: map<Pos, Role>, start: Pos, g: map<Pos, nat>, hash: set<Pos>,
                          current: Pos, before: map<Pos, Role>)
    requires Painted(colors, start, g, hash, {current}, before)
    requires current in g && current !in hash && current in colors
    ensures Painted(if current == start then colors else colors[current := Closed],
                    start, g, hash, {}, before)
  {
  }

  /** The invariant holds before the first iteration. */
  lemma InitialInv(adj: map<Pos, seq<Pos>>, start: Pos, end: Pos, before: map<Pos, Role>)
    requires ListsInside(adj) && start in adj && end in adj && before.Keys == adj.Keys
    ensures SearchInv(adj, start, end, Initial(start, end, before), {}, before)
  {
    var s := Initial(start, end, before);
    assert Nodes(s.queue) == {start} by {
      assert s.queue[0].node == start;
    }
    assert Below(s.g, 0) == {};
  }

  /** Taking an entry out of the queue (and its node out of the hash)
      keeps the invariant, with that node now the one being expanded. */
  lemma PopKeepsInv(adj: map<Pos, seq<Pos>>, start: Pos, end: Pos, s: SearchState, k: nat,
                    before: map<Pos, Role>)
    requires SearchInv(adj, start, end, s, {}, before)
    requires k < |s.queue|
    ensures s.queue[k].node in s.g && s.queue[k].node in s.hash && s.queue[k].node in adj
    ensures s.queue[k].node != end ==> SearchInv(adj, start, end, Pop(s, k), {s.queue[k].node}, before)
  {
    RemoveKeepsWellFormed(s.queue, k, s.count);
    assert s.queue[k].node in Nodes(s.queue);
  }

  /** A relaxation keeps the tables in agreement. */
  lemma RelaxStepTables(adj: map<Pos, seq<Pos>>, start: Pos, end: Pos, s: SearchState, current: Pos, neighbor: Pos)
    requires ListsInside(adj) && TablesAgree(adj, start, end, s.cameFrom, s.g, s.f)
    requires current in s.g && current in adj && neighbor in adj[current]
    ensures var r := RelaxStep(s, end, current, neighbor); TablesAgree(adj, start, end, r.cameFrom, r.g, r.f)
  {
    if neighbor !in s.g || s.g[current] + 1 < s.g[neighbor] {
      var r := RelaxStep(s, end, current, neighbor);
      RelaxKeepsTables(adj, start, end, s.cameFrom, s.g, s.f, current, neighbor, r.cameFrom, r.g, r.f);
    }
  }

  /** A relaxation only lowers costs, and either leaves the queue alone or
      spends part of the budget of possible decreases. */
  lemma RelaxStepSpends(cells: set<Pos>, s: SearchState, end: Pos, current: Pos, neighbor: Pos)
    requires Ranked(s.g) && s.g.Keys <= cells && current in s.g && neighbor in cells
    ensures var r := RelaxStep(s, end, current, neighbor);
            && (forall n :: n in s.g ==> r.g[n] <= s.g[n])
            && Potential(r.g, cells) <= Potential(s.g, cells)
            && (Potential(r.g, cells) == Potential(s.g, cells) ==> r == s)
  {
    if neighbor !in s.g || s.g[current] + 1 < s.g[neighbor] {
      RelaxSpends(s.g, cells, current, neighbor);
    }
  }

  /** A relaxation keeps the open set, its hash and the cost table in
      step: a node enters the open set and the hash together, with the next
      count, and only when it was in neither. */
  lemma RelaxStepFrontier(s: SearchState, end: Pos, current: Pos, neighbor: Pos)
    requires FrontierInSync(s.queue, s.count, s.hash, s.g) && (end in s.g ==> end in s.hash)
    requires current in s.g && current !in s.hash
    ensures var r := RelaxStep(s, end, current, neighbor);
            FrontierInSync(r.queue, r.count, r.hash, r.g) && (end in r.g ==> end in r.hash)
            && current !in r.hash
  {
    var k := s.g[current] + 1;
    if (neighbor !in s.g || k < s.g[neighbor]) && neighbor !in s.hash {
      PushKeepsWellFormed(s.queue, Entry(k + H(neighbor, end), s.count + 1, neighbor), s.count);
    }
  }

  /** A relaxation keeps the expanded nodes expanded: a node that gets its
      first cost is queued at the same time. */
  lemma RelaxStepExpanded(adj: map<Pos, seq<Pos>>, s: SearchState, end: Pos, current: Pos, neighbor: Pos)
    requires Expanded(adj, s.g, s.hash, {current}) && current in s.g
    ensures var r := RelaxStep(s, end, current, neighbor); Expanded(adj, r.g, r.hash, {current})
  {
    var r := RelaxStep(s, end, current, neighbor);
    ExpandedGrows(adj, s.g, s.hash, r.g, r.hash, {current});
  }

  /** A relaxation keeps the colours in step: a node queued by it is
      painted open, and one already queued is open already. The start and
      the node being expanded are never relaxed. */
  lemma RelaxStepPainted(s: SearchState, start: Pos, end: Pos, current: Pos, neighbor: Pos,
                         before: map<Pos, Role>)
    requires Painted(s.colors, start, s.g, s.hash, {current}, before)
    requires current in s.g && start in s.g && s.g[start] == 0 && s.hash <= s.g.Keys
    requires neighbor in s.colors
    ensures var r := RelaxStep(s, end, current, neighbor);
            Painted(r.colors, start, r.g, r.hash, {current}, before) && r.colors.Keys == s.colors.Keys
  {
  }

  /** One relaxation keeps the invariant, only lowers costs, and either
      leaves the queue alone or spends part of the budget of possible
      decreases. */
  lemma RelaxStepKeepsInv(adj: map<Pos, seq<Pos>>, start: Pos, end: Pos, s: SearchState,
                          current: Pos, neighbor: Pos, before: map<Pos, Role>)
    requires SearchInv(adj, start, end, s, {current}, before)
    requires current in s.g && current !in s.hash && current in adj && neighbor in adj[current]
    ensures var r := RelaxStep(s, end, current, neighbor);
            && SearchInv(adj, start, end, r, {current}, before)
            && current !in r.hash
            && (forall n :: n in s.g ==> r.g[n] <= s.g[n])
            && Potential(r.g, adj.Keys) <= Potential(s.g, adj.Keys)
            && (Potential(r.g, adj.Keys) == Potential(s.g, adj.Keys) ==> r == s)
  {
    RelaxStepTables(adj, start, end, s, current, neighbor);
    RelaxStepSpends(adj.Keys, s, end, current, neighbor);
    RelaxStepFrontier(s, end, current, neighbor);
    RelaxStepExpanded(adj, s, end, current, neighbor);
    RelaxStepPainted(s, start, end, current, neighbor, before);
  }

  /** Relaxing a list of neighbours of `current` keeps the invariant, gives
      every one of them a cost, only lowers costs, and either leaves the
      queue alone or spends part of the budget. */
  lemma {:induction false} RelaxAllKeepsInv(adj: map<Pos, seq<Pos>>, start: Pos, end: Pos, s: SearchState,
                                            current: Pos, ns: seq<Pos>, before: map<Pos, Role>)
    requires SearchInv(adj, start, end, s, {current}, before)
    requires current in s.g && current !in s.hash && current in adj
    requires forall i :: 0 <= i < |ns| ==> ns[i] in adj[current]
    ensures var r := RelaxAll(s, end, current, ns);
            && SearchInv(adj, start, end, r, {current}, before)
            && current in r.g && current !in r.hash
            && (forall i :: 0 <= i < |ns| ==> ns[i] in r.g)
            && (forall n :: n in s.g ==> r.g[n] <= s.g[n])
            && Potential(r.g, adj.Keys) <= Potential(s.g, adj.Keys)
            && (Potential(r.g, adj.Keys) == Potential(s.g, adj.Keys) ==> r.queue == s.queue)
    decreases |ns|
  {
    if ns != [] {
      var init := ns[..|ns| - 1];
      RelaxAllKeepsInv(adj, start, end, s, current, init, before);
      var t := RelaxAll(s, end, current, init);
      RelaxStepKeepsInv(adj, start, end, t, current, ns[|ns| - 1], before);
      var r := RelaxAll(s, end, current, ns);
      assert r == RelaxStep(t, end, current, ns[|ns| - 1]);
      forall i | 0 <= i < |ns| ensures ns[i] in r.g {
        if i < |ns| - 1 {
          assert ns[i] == init[i];
        }
      }
    }
  }

  /** Closing a node whose neighbours all have a cost keeps the invariant
      with no node busy. */
  lemma CloseKeepsInv(adj: map<Pos, seq<Pos>>, start: Pos, end: Pos, s: SearchState,
                      current: Pos, before: map<Pos, Role>)
    requires SearchInv(adj, start, end, s, {current}, before)
    requires current in s.g && current !in s.hash && current in adj
    requires forall q :: q in adj[current] ==> q in s.g
    ensures SearchInv(adj, start, end, Close(s, start, current), {}, before)
  {
    CloseKeepsPainted(s.colors, start, s.g, s.hash, current, before);
  }

  /** Expanding a node keeps the invariant with no node busy: all its
      neighbours now have a cost, and it is painted closed (unless it is the
      start). The budget never grows, and when it stays the same the queue
      is left as it was. */
  lemma ExpandStepKeepsInv(adj: map<Pos, seq<Pos>>, start: Pos, end: Pos, s: SearchState,
                           current: Pos, before: map<Pos, Role>)
    requires SearchInv(adj, start, end, s, {current}, before)
    requires current in s.g && current !in s.hash && current in adj
    ensures var r := ExpandStep(s, start, end, current, adj[current]);
            && SearchInv(adj, start, end, r, {}, before)
            && (forall n :: n in s.g ==> n in r.g && r.g[n] <= s.g[n])
            && Potential(r.g, adj.Keys) <= Potential(s.g, adj.Keys)
            && (Potential(r.g, adj.Keys) == Potential(s.g, adj.Keys) ==> r.queue == s.queue)
  {
    var ns := adj[current];
    RelaxAllKeepsInv(adj, start, end, s, current, ns, before);
    var t := RelaxAll(s, end, current, ns);
    forall q | q in adj[current] ensures q in t.g {
      var i :| 0 <= i < |ns| && ns[i] == q;
    }
    CloseKeepsInv(adj, start, end, t, current, before);
  }

  /** A turn of the loop that does not take out `end` keeps the invariant,
      and it pays for itself: either some cost drops, which spends part of
      the budget of possible decreases, or the queue gets shorter. */
  lemma TurnKeepsInv(adj: map<Pos, seq<Pos>>, start: Pos, end: Pos, s: SearchState, k: nat,
                     before: map<Pos, Role>)
    requires SearchInv(adj, start, end, s, {}, before)
    requires k < |s.queue| && s.queue[k].node != end
    ensures s.queue[k].node in s.g && s.queue[k].node in adj
    ensures var r := Turn(adj, start, end, s, k);
            && SearchInv(adj, start, end, r, {}, before)
            && Potential(r.g, adj.Keys) <= Potential(s.g, adj.Keys)
            && (Potential(r.g, adj.Keys) == Potential(s.g, adj.Keys) ==> |r.queue| < |s.queue|)
  {
    PopKeepsInv(adj, start, end, s, k, before);
    ExpandStepKeepsInv(adj, start, end, Pop(s, k), s.queue[k].node, before);
  }

  /** The chain back from `end` stops at the start (the one node with a
      cost and no predecessor); the nodes strictly between are nodes the
      walk steps to, and are neither the start nor `end`. */
  lemma ChainEndsAtStart(cameFrom: map<Pos, Pos>, g: map<Pos, nat>, start: Pos, end: Pos)
    requires Descending(cameFrom, g) && end in g && start !in cameFrom
    requires forall n {:trigger n in cameFrom} :: n in g && n != start ==> n in cameFrom
    ensures Chain(cameFrom, g, end)[|Chain(cameFrom, g, end)| - 1] == start
    ensures forall j :: 0 < j < |Chain(cameFrom, g, end)| - 1 ==>
              Chain(cameFrom, g, end)[j] in Walked(cameFrom, g, end) &&
              Chain(cameFrom, g, end)[j] != start && Chain(cameFrom, g, end)[j] != end
  {
    var c, w := Chain(cameFrom, g, end), Walked(cameFrom, g, end);
    ChainSteps(cameFrom, g, end);
    if w != [] {
      assert c[|c| - 1] == w[|w| - 1];
      assert w[|w| - 1] in g && w[|w| - 1] !in cameFrom;
    }
    forall j | 0 < j < |c| - 1 ensures c[j] in w && c[j] != start && c[j] != end {
      assert c[j] == w[j - 1];
      assert c[j] in cameFrom;
      assert g[w[j - 1]] < g[end];
    }
  }

  /** Read from the start, the nodes strictly inside the chain back from
      `end` are nodes the walk back steps to, and neither the start nor
      `end`. */
  lemma ReversedChainInside(cameFrom: map<Pos, Pos>, g: map<Pos, nat>, start: Pos, end: Pos)
    requires Descending(cameFrom, g) && end in g && start !in cameFrom
    requires forall n {:trigger n in cameFrom} :: n in g && n != start ==> n in cameFrom
    ensures var path := Reverse(Chain(cameFrom, g, end));
            forall i :: 0 < i < |path| - 1 ==>
              path[i] in Walked(cameFrom, g, end) && path[i] != start && path[i] != end
  {
    ChainEndsAtStart(cameFrom, g, start, end);
    ReverseInterior(Chain(cameFrom, g, end), Walked(cameFrom, g, end), start, end);
  }

  /** Reversing a sequence keeps its inner nodes inner: if every node
      strictly inside `c` is in `w` and is neither `a` nor `b`, so is every
      node strictly inside its reverse. */
  lemma ReverseInterior(c: seq<Pos>, w: seq<Pos>, a: Pos, b: Pos)
    requires forall j :: 0 < j < |c| - 1 ==> c[j] in w && c[j] != a && c[j] != b
    ensures forall i :: 0 < i < |Reverse(c)| - 1 ==>
              Reverse(c)[i] in w && Reverse(c)[i] != a && Reverse(c)[i] != b
  {
    var r := Reverse(c);
    forall i | 0 < i < |r| - 1 ensures r[i] in w && r[i] != a && r[i] != b {
      assert r[i] == c[|c| - 1 - i];
    }
  }

  /** The walk `reconstruct_path` finds, read from the start: it runs along
      the neighbour lists from `start` to `end` in at most `g[end]` steps, and
      the nodes strictly inside it are nodes the walk back steps to. */
  lemma FoundPath(adj: map<Pos, seq<Pos>>, start: Pos, end: Pos, cameFrom: map<Pos, Pos>, g: map<Pos, nat>)
    requires ChainsBack(adj, start, cameFrom, g) && end in g
    ensures var path := Reverse(Chain(cameFrom, g, end));
            && IsWalk(adj, path) && |path| > 0 && path[0] == start && path[|path| - 1] == end
            && |path| <= g[end] + 1
            && forall i :: 0 < i < |path| - 1 ==>
                 path[i] in Walked(cameFrom, g, end) && path[i] != start && path[i] != end
  {
    ChainIsWalk(adj, cameFrom, g, end);
    ChainEndsAtStart(cameFrom, g, start, end);
    ReversedChainInside(cameFrom, g, start, end);
  }

  /** When the queue runs empty, the nodes with a cost are closed under the
      neighbour lists, so a walk from the start never meets `end` and every
      node on it other than the start is painted closed. */
  lemma ExhaustedSeparates(adj: map<Pos, seq<Pos>>, start: Pos, end: Pos, s: SearchState,
                           before: map<Pos, Role>, walk: seq<Pos>)
    requires SearchInv(adj, start, end, s, {}, before) && s.queue == []
    requires IsWalk(adj, walk) && |walk| > 0 && walk[0] == start
    ensures forall i :: 0 <= i < |walk| ==>
              walk[i] != end && (walk[i] != start ==> walk[i] in s.colors && s.colors[walk[i]] == Closed)
  {
    assert s.hash == {};
    assert ClosedUnderNeighbors(adj, s.g.Keys);
    WalkStaysInside(adj, s.g.Keys, walk);
  }
}
