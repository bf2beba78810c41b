/** `algorithm(draw, grid, start, end)`: A* with unit edge costs over the
    neighbour lists of the grid. The `draw` callback and the event polling
    inside the loop are presentation only and are not modelled. Each method
    is proved to compute the step of the search model it implements; the
    search reads the neighbour lists through their table `adj` (they do not
    change while it runs) and tracks the colours it paints in the table
    `colors`. */
module Search {
  import opened Options
  import opened Heuristic
  import opened GridModel
  import opened Frontier
  import opened Costs
  import opened Reconstruct
  import opened SearchModel

  /** `node.make_...()`, with the table of colours kept in step. */
  method PaintCell(grid: Grid, ghost colors: map<Pos, Role>, p: Pos, r: Role)
    returns (ghost colors': map<Pos, Role>)
    requires Shows(grid, colors) && p in colors
    modifies grid.color
    ensures colors' == colors[p := r] && Shows(grid, colors')
  {
    grid.Paint(p, r);
    colors' := colors[p := r];
  }

  /** Lines 135-145, for one neighbour: `RelaxStep` on the search's
      variables, painting the grid as the step paints its table. */
  method Relax(grid: Grid, end: Pos, current: Pos, neighbor: Pos, openSet: PriorityQueue, count0: int,
               cameFrom0: map<Pos, Pos>, g0: map<Pos, nat>, f0: map<Pos, nat>, hash0: set<Pos>,
               ghost colors0: map<Pos, Role>)
    returns (count: int, cameFrom: map<Pos, Pos>, gScore: map<Pos, nat>,
             fScore: map<Pos, nat>, openSetHash: set<Pos>, ghost colors: map<Pos, Role>)
    requires Shows(grid, colors0) && current in g0 && neighbor in colors0
    modifies grid.color, openSet
    ensures Shows(grid, colors)
    ensures SearchState(openSet.entries, count, cameFrom, gScore, fScore, openSetHash, colors)
            == RelaxStep(SearchState(old(openSet.entries), count0, cameFrom0, g0, f0, hash0, colors0),
                         end, current, neighbor)
  {
    count, cameFrom, gScore, fScore, openSetHash, colors := count0, cameFrom0, g0, f0, hash0, colors0;
    var tempGScore := gScore[current] + 1;
    if neighbor !in gScore || tempGScore < gScore[neighbor] {
      cameFrom := cameFrom[neighbor := current];
      gScore := gScore[neighbor := tempGScore];
      fScore := fScore[neighbor := tempGScore + H(neighbor, end)];
      if neighbor !in openSetHash {
        count := count + 1;
        openSet.Put(Entry(fScore[neighbor], count, neighbor));
        openSetHash := openSetHash + {neighbor};
        colors := PaintCell(grid, colors, neighbor, Open);
      }
    }
  }

  /** Lines 134-149: relax every entry of `current`'s neighbour list in
      order, then paint `current` closed unless it is the start; that is,
      `ExpandStep` on the search's variables. */
  method Expand(grid: Grid, ghost adj: map<Pos, seq<Pos>>, start: Pos, end: Pos, current: Pos,
                openSet: PriorityQueue, count0: int, cameFrom0: map<Pos, Pos>, g0: map<Pos, nat>,
                f0: map<Pos, nat>, hash0: set<Pos>, ghost colors0: map<Pos, Role>)
    returns (count: int, cameFrom: map<Pos, Pos>, gScore: map<Pos, nat>,
             fScore: map<Pos, nat>, openSetHash: set<Pos>, ghost colors: map<Pos, Role>)
    requires grid.Lists(adj) && ListsInside(adj) && Shows(grid, colors0)
    requires current in g0 && current in adj
    modifies grid.color, openSet
    ensures Shows(grid, colors)
    ensures SearchState(openSet.entries, count, cameFrom, gScore, fScore, openSetHash, colors)
            == ExpandStep(SearchState(old(openSet.entries), count0, cameFrom0, g0, f0, hash0, colors0),
                          start, end, current, adj[current])
  {
    ghost var s0 := SearchState(openSet.entries, count0, cameFrom0, g0, f0, hash0, colors0);
    count, cameFrom, gScore, fScore, openSetHash, colors := count0, cameFrom0, g0, f0, hash0, colors0;
    var neighbors := grid.neighbors[current.row, current.col];
    assert neighbors == adj[current];
    var i := 0;
    while i < |neighbors|
      invariant 0 <= i <= |neighbors|
      invariant Shows(grid, colors)
      invariant SearchState(openSet.entries, count, cameFrom, gScore, fScore, openSetHash, colors)
                == RelaxAll(s0, end, current, neighbors[..i])
    {
      assert neighbors[i] in adj;
      assert neighbors[..i + 1][..i] == neighbors[..i];
      count, cameFrom, gScore, fScore, openSetHash, colors :=
        Relax(grid, end, current, neighbors[i], openSet, count, cameFrom, gScore, fScore, openSetHash, colors);
      i := i + 1;
    }
    assert neighbors[..i] == neighbors;
    // the source calls `draw()` here; it is presentation only
    if current != start {
      colors := PaintCell(grid, colors, current, Closed);
    }
  }

  /** The grid after `reconstruct_path`: `path` runs along the neighbour
      lists from `start` to `end`, and is painted as path in between, with
      the start and end painted again. */
  ghost predicate Traced(grid: Grid, adj: map<Pos, seq<Pos>>, start: Pos, end: Pos, path: seq<Pos>)
    reads grid.color
  {
    && grid.Sized() && InBounds(start, grid.rows) && InBounds(end, grid.rows)
    && (forall i :: 0 <= i < |path| ==> InBounds(path[i], grid.rows))
    && IsWalk(adj, path) && |path| > 0 && path[0] == start && path[|path| - 1] == end
    && (forall i :: 0 < i < |path| - 1 ==> grid.color[path[i].row, path[i].col] == Path)
    && grid.color[end.row, end.col] == End
    && (start != end ==> grid.color[start.row, start.col] == Start)
  }

  /** The grid when the queue has run empty: the start and end show the
      colours `before` gives them, and every node a walk from the start
      reaches is other than `end` and, the start aside, painted closed. */
  ghost predicate Separated(grid: Grid, adj: map<Pos, seq<Pos>>, start: Pos, end: Pos, before: map<Pos, Role>)
    reads grid.color
  {
    && grid.Sized() && InBounds(start, grid.rows) && InBounds(end, grid.rows)
    && start in before && end in before
    && (forall p :: p in adj ==> InBounds(p, grid.rows))
    && grid.color[start.row, start.col] == before[start]
    && grid.color[end.row, end.col] == before[end]
    && forall s: seq<Pos> :: IsWalk(adj, s) && |s| > 0 && s[0] == start ==>
         forall i :: 0 <= i < |s| ==>
           s[i] != end && (s[i] != start ==> grid.color[s[i].row, s[i].col] == Closed)
  }

  /** `start.make_start()` and `end.make_end()`, once the walk found is
      painted: the nodes strictly inside it keep their path colour. */
  method PaintEnds(grid: Grid, ghost adj: map<Pos, seq<Pos>>, start: Pos, end: Pos, ghost path: seq<Pos>)
    requires grid.Sized() && InBounds(start, grid.rows) && InBounds(end, grid.rows)
    requires IsWalk(adj, path) && |path| > 0 && path[0] == start && path[|path| - 1] == end
    requires forall i :: 0 <= i < |path| ==> InBounds(path[i], grid.rows)
    requires forall i :: 0 < i < |path| - 1 ==>
               && InBounds(path[i], grid.rows) && path[i] != start && path[i] != end
               && grid.color[path[i].row, path[i].col] == Path
    modifies grid.color
    ensures Traced(grid, adj, start, end, path)
  {
    grid.Paint(start, Start);
    grid.Paint(end, End);
  }

  /** The branch taken when `end` is popped: `reconstruct_path`, then the
      start and end are painted again. The path handed back (ghost) runs
      along the neighbour lists from `start` to `end`, has at most `g[end]`
      steps, and every node on it in between is painted as path. */
  method Finish(grid: Grid, ghost adj: map<Pos, seq<Pos>>, start: Pos, end: Pos, cameFrom: map<Pos, Pos>,
                ghost gScore: map<Pos, nat>)
    returns (ghost path: seq<Pos>)
    requires grid.Lists(adj) && start in adj && end in adj
    requires ChainsBack(adj, start, cameFrom, gScore) && end in gScore
    modifies grid.color
    ensures Traced(grid, adj, start, end, path) && |path| <= gScore[end] + 1
  {
    FoundPath(adj, start, end, cameFrom, gScore);
    path := Reverse(Chain(cameFrom, gScore, end));
    ghost var walked := Walked(cameFrom, gScore, end);
    assert forall i :: 0 < i < |path| - 1 ==> path[i] in walked && path[i] != start && path[i] != end;
    assert forall n :: n in cameFrom ==> InBounds(cameFrom[n], grid.rows);
    ReconstructPath(grid, cameFrom, end, gScore);
    PaintEnds(grid, adj, start, end, path);
  }

  /** Lines 125-149, one turn of the loop: take the first entry out of the
      open set and its node out of the hash; if it is `end`, finish (the
      found walk is handed back); otherwise expand it. The state after an
      expansion is `ExpandStep` of `Pop` of the state before. */
  method Iterate(grid: Grid, ghost adj: map<Pos, seq<Pos>>, start: Pos, end: Pos, openSet: PriorityQueue,
                 count0: int, cameFrom0: map<Pos, Pos>, g0: map<Pos, nat>, f0: map<Pos, nat>, hash0: set<Pos>,
                 ghost colors0: map<Pos, Role>, ghost before: map<Pos, Role>)
    returns (found: bool, ghost k: nat, count: int, cameFrom: map<Pos, Pos>, gScore: map<Pos, nat>,
             fScore: map<Pos, nat>, openSetHash: set<Pos>, ghost colors: map<Pos, Role>, ghost path: seq<Pos>)
    requires grid.Lists(adj) && Shows(grid, colors0) && openSet.entries != []
    requires SearchInv(adj, start, end, SearchState(openSet.entries, count0, cameFrom0, g0, f0, hash0, colors0), {}, before)
    modifies grid.color, openSet
    ensures k < |old(openSet.entries)| && (found <==> old(openSet.entries)[k].node == end)
    ensures forall x :: x in old(openSet.entries) ==> Before(old(openSet.entries)[k], x)
    ensures found ==> Traced(grid, adj, start, end, path)
    ensures !found ==>
              var s0 := SearchState(old(openSet.entries), count0, cameFrom0, g0, f0, hash0, colors0);
              && Shows(grid, colors)
              && s0.queue[k].node in s0.g
              && s0.queue[k].node in adj
              && SearchState(openSet.entries, count, cameFrom, gScore, fScore, openSetHash, colors)
                 == Turn(adj, start, end, s0, k)
  {
    ghost var s := SearchState(openSet.entries, count0, cameFrom0, g0, f0, hash0, colors0);
    var entry;
    entry, k := openSet.Get();
    PopKeepsInv(adj, start, end, s, k, before);
    var current := entry.node;
    openSetHash := hash0 - {current};
    count, cameFrom, gScore, fScore, colors := count0, cameFrom0, g0, f0, colors0;

    if current == end {
      found := true;
      path := Finish(grid, adj, start, end, cameFrom, gScore);
      return;
    }
    found, path := false, [];
    count, cameFrom, gScore, fScore, openSetHash, colors :=
      Expand(grid, adj, start, end, current, openSet, count, cameFrom, gScore, fScore, openSetHash, colors);
  }

  /** One turn of the loop together with what it keeps: the entry taken
      out comes first in `(f, count)` order, the state after an expansion is
      `Turn` of the state before, the search invariant still holds, and
      either the budget of possible decreases has shrunk or it is unchanged
      and the queue is shorter. */
  method Step(grid: Grid, ghost adj: map<Pos, seq<Pos>>, start: Pos, end: Pos, openSet: PriorityQueue,
              count0: int, cameFrom0: map<Pos, Pos>, g0: map<Pos, nat>, f0: map<Pos, nat>, hash0: set<Pos>,
              ghost colors0: map<Pos, Role>, ghost before: map<Pos, Role>)
    returns (found: bool, ghost k: nat, count: int, cameFrom: map<Pos, Pos>, gScore: map<Pos, nat>,
             fScore: map<Pos, nat>, openSetHash: set<Pos>, ghost colors: map<Pos, Role>, ghost path: seq<Pos>)
    requires grid.Lists(adj) && Shows(grid, colors0) && openSet.entries != []
    requires SearchInv(adj, start, end, SearchState(openSet.entries, count0, cameFrom0, g0, f0, hash0, colors0), {}, before)
    modifies grid.color, openSet
    ensures k < |old(openSet.entries)| && (found <==> old(openSet.entries)[k].node == end)
    ensures forall x :: x in old(openSet.entries) ==> Before(old(openSet.entries)[k], x)
    ensures found ==> Traced(grid, adj, start, end, path)
    ensures !found ==>
              var s0 := SearchState(old(openSet.entries), count0, cameFrom0, g0, f0, hash0, colors0);
              && s0.queue[k].node in s0.g && s0.queue[k].node in adj
              && SearchState(openSet.entries, count, cameFrom, gScore, fScore, openSetHash, colors)
                 == Turn(adj, start, end, s0, k)
    ensures !found ==>
              && Shows(grid, colors)
              && SearchInv(adj, start, end, SearchState(openSet.entries, count, cameFrom, gScore, fScore, openSetHash, colors),
                           {}, before)
              && Potential(gScore, adj.Keys) <= Potential(g0, adj.Keys)
              && (Potential(gScore, adj.Keys) == Potential(g0, adj.Keys) ==> |openSet.entries| < |old(openSet.entries)|)
  {
    ghost var s := SearchState(openSet.entries, count0, cameFrom0, g0, f0, hash0, colors0);
    found, k, count, cameFrom, gScore, fScore, openSetHash, colors, path :=
      Iterate(grid, adj, start, end, openSet, count0, cameFrom0, g0, f0, hash0, colors0, before);
    if !found {
      TurnKeepsInv(adj, start, end, s, k, before);
    }
  }

  /** The grid when the queue runs empty: the start and end show the
      colours they had before the search, and every node a walk from the
      start reaches is painted closed (other than the start), `end`
      among none of them. */
  lemma NothingFound(grid: Grid, adj: map<Pos, seq<Pos>>, start: Pos, end: Pos, s: SearchState,
                     before: map<Pos, Role>)
    requires grid.Lists(adj) && Shows(grid, s.colors)
    requires SearchInv(adj, start, end, s, {}, before) && s.queue == []
    ensures Separated(grid, adj, start, end, before)
  {
    assert s.hash == {} && end !in s.g;
    forall w: seq<Pos> | IsWalk(adj, w) && |w| > 0 && w[0] == start
      ensures forall i :: 0 <= i < |w| ==>
                w[i] != end && (w[i] != start ==> grid.color[w[i].row, w[i].col] == Closed)
    {
      ExhaustedSeparates(adj, start, end, s, before, w);
    }
  }

  /** Lines 120-149: the `while not open_set.empty()` loop, started from a
      state that keeps the search invariant with nothing expanded yet. It
      stops with `found` when `end` is popped, leaving a painted walk from
      `start` to `end`; otherwise it stops when the queue runs empty,
      leaving every node a walk from the start reaches painted closed
      (other than the start), `end` among none of them. */
  method Loop(grid: Grid, ghost adj: map<Pos, seq<Pos>>, start: Pos, end: Pos, openSet: PriorityQueue,
              count0: int, cameFrom0: map<Pos, Pos>, g0: map<Pos, nat>, f0: map<Pos, nat>, hash0: set<Pos>,
              ghost colors0: map<Pos, Role>, ghost before: map<Pos, Role>)
    returns (found: bool, ghost path: seq<Pos>)
    requires grid.Lists(adj) && Shows(grid, colors0)
    requires SearchInv(adj, start, end, SearchState(openSet.entries, count0, cameFrom0, g0, f0, hash0, colors0), {}, before)
    modifies grid.color, openSet
    ensures found ==> Traced(grid, adj, start, end, path)
    ensures !found ==> Separated(grid, adj, start, end, before)
  {
    var count, cameFrom, gScore, fScore, openSetHash := count0, cameFrom0, g0, f0, hash0;
    ghost var colors := colors0;
    found, path := false, [];
    while !found && !openSet.Empty()
      invariant grid.Lists(adj)
      invariant found ==> Traced(grid, adj, start, end, path)
      invariant !found ==> Shows(grid, colors)
      invariant !found ==>
                  SearchInv(adj, start, end, SearchState(openSet.entries, count, cameFrom, gScore, fScore, openSetHash, colors),
                            {}, before)
      decreases !found, Potential(gScore, adj.Keys), |openSet.entries|
    {
      ghost var k;
      found, k, count, cameFrom, gScore, fScore, openSetHash, colors, path :=
        Step(grid, adj, start, end, openSet, count, cameFrom, gScore, fScore, openSetHash, colors, before);
    }
    if !found {
      path := [];
      NothingFound(grid, adj, start, end, SearchState(openSet.entries, count, cameFrom, gScore, fScore, openSetHash, colors),
                   before);
    }
  }

  /** `algorithm(draw, grid, start, end)`. It returns `True` when `end` is
      popped, and falls through to Python's `None` when the queue runs
      empty. With `True` there is a walk along the neighbour lists from
      `start` to `end`, painted as path in between; with `None` no such walk
      exists, and every node a walk from the start can reach is painted
      closed. The loop terminates: every entry it queues is paid for by a
      strict decrease of some cost, and costs stay below the number of
      nodes. */
  method Algorithm(grid: Grid, start: Pos, end: Pos) returns (r: Option<bool>, ghost path: seq<Pos>)
    requires grid.Valid() && InBounds(start, grid.rows) && InBounds(end, grid.rows)
    modifies grid.color
    ensures r == Some(true) || r == None
    ensures r.Some? ==>
              && IsWalk(grid.Table(), path) && |path| > 0 && path[0] == start && path[|path| - 1] == end
              && (forall i :: 0 < i < |path| - 1 ==> grid.color[path[i].row, path[i].col] == Path)
              && grid.color[end.row, end.col] == End
              && (start != end ==> grid.color[start.row, start.col] == Start)
    ensures r.None? ==>
              && grid.color[start.row, start.col] == old(grid.color[start.row, start.col])
              && grid.color[end.row, end.col] == old(grid.color[end.row, end.col])
              && forall s: seq<Pos> :: IsWalk(grid.Table(), s) && |s| > 0 && s[0] == start ==>
                   forall i :: 0 <= i < |s| ==>
                     s[i] != end && (s[i] != start ==> grid.color[s[i].row, s[i].col] == Closed)
  {
    ghost var adj := grid.Table();
    grid.TableListsInside();
    ghost var before := Snapshot(grid);
    assert start in adj && end in adj;
    assert before[start] == old(grid.color[start.row, start.col]);
    assert before[end] == old(grid.color[end.row, end.col]);
    InitialInv(adj, start, end, before);
    var count := 0;
    var openSet := new PriorityQueue();
    openSet.Put(Entry(0, count, start));
    var cameFrom: map<Pos, Pos> := map[];
    var gScore: map<Pos, nat> := map[start := 0];
    var fScore: map<Pos, nat> := map[start := H(start, end)];
    var openSetHash := {start};
    var found;
    found, path := Loop(grid, adj, start, end, openSet, count, cameFrom, gScore, fScore, openSetHash, before, before);
    assert adj == grid.Table();
    r := if found then Some(true) else None;
  }
}
