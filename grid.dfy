/** The grid of nodes: each node's colour tag (its role) and its list of
    neighbours, held in two `rows` x `rows` arrays indexed by position. */
module GridModel {
  import opened Heuristic

  /** The colour field of a node, read as the role it encodes. */
  datatype Role = White | Start | End | Barrier | Open | Closed | Path {
    predicate IsClosed() { this == Closed }
    predicate IsOpen() { this == Open }
    predicate IsBarrier() { this == Barrier }
    predicate IsStart() { this == Start }
    predicate IsEnd() { this == End }
  }

  function Count(b: bool): nat { if b then 1 else 0 }

  /** A node has one colour, so at most one of the `is_*` tests holds. */
  lemma RoleTestsExclusive(r: Role)
    ensures Count(r.IsClosed()) + Count(r.IsOpen()) + Count(r.IsBarrier())
            + Count(r.IsStart()) + Count(r.IsEnd()) <= 1
  {
  }

  /** The order in which `update_neighbors` tries the four directions:
      down, up, left, right. */
  function Direction(p: Pos, q: Pos): nat {
    if q.row == p.row + 1 then 0
    else if q.row == p.row - 1 then 1
    else if q.col == p.col - 1 then 2
    else 3
  }

  class Grid {
    const rows: nat
    /** The pixel width of every node, `grid_width // rows`. */
    const nodeWidth: int
    const color: array2<Role>
    const neighbors: array2<seq<Pos>>

    /** Both arrays are `rows` x `rows`. */
    predicate Sized() {
      && color.Length0 == rows && color.Length1 == rows
      && neighbors.Length0 == rows && neighbors.Length1 == rows
    }

    /** Both arrays are `rows` x `rows`, and every listed neighbour is an
        in-bounds node orthogonally adjacent to the node listing it. */
    ghost predicate Valid()
      reads neighbors
    {
      && Sized()
      && forall i, j, k :: 0 <= i < rows && 0 <= j < rows && 0 <= k < |neighbors[i, j]| ==>
           InBounds(neighbors[i, j][k], rows) && H(Pos(i, j), neighbors[i, j][k]) == 1
    }

    /** `make_grid(rows, grid_width)`: `rows` rows of `rows` white nodes with
        empty neighbour lists, each `grid_width // rows` pixels wide. The
        division raises in the source when `rows` is 0. */
    constructor (rows: nat, gridWidth: int)
      requires rows > 0
      ensures this.rows == rows && nodeWidth == gridWidth / rows
      ensures Valid() && fresh(color) && fresh(neighbors)
      ensures forall i, j :: 0 <= i < rows && 0 <= j < rows ==>
                color[i, j] == White && neighbors[i, j] == []
    {
      this.rows := rows;
      nodeWidth := gridWidth / rows;
      var c := new Role[rows, rows];
      var nb := new seq<Pos>[rows, rows];
      for i := 0 to rows
        invariant forall i', j :: 0 <= i' < i && 0 <= j < rows ==> c[i', j] == White && nb[i', j] == []
      {
        for j := 0 to rows
          invariant forall i', j' :: 0 <= i' < i && 0 <= j' < rows ==> c[i', j'] == White && nb[i', j'] == []
          invariant forall j' :: 0 <= j' < j ==> c[i, j'] == White && nb[i, j'] == []
        {
          c[i, j] := White;
          nb[i, j] := [];
        }
      }
      color := c;
      neighbors := nb;
    }

    /** The `make_*` methods (`reset`, `make_closed`, `make_open`,
        `make_barrier`, `make_start`, `make_end`, `make_path`): overwrite the
        one colour of node `p` and nothing else. */
    method Paint(p: Pos, r: Role)
      requires color.Length0 == rows && color.Length1 == rows && InBounds(p, rows)
      modifies color
      ensures color[p.row, p.col] == r
      ensures forall i, j {:trigger color[i, j]} :: 0 <= i < rows && 0 <= j < rows && Pos(i, j) != p ==>
                color[i, j] == old(color[i, j])
    {
      color[p.row, p.col] := r;
    }

    /** The entries one call of `update_neighbors` appends for node `p`:
        the in-bounds, non-barrier nodes below, above, left and right of it,
        in that order. */
    function NewNeighbors(p: Pos): (r: seq<Pos>)
      reads color
      requires color.Length0 == rows && color.Length1 == rows && InBounds(p, rows)
      ensures |r| <= 4
    {
      var down := if p.row < rows - 1 && !color[p.row + 1, p.col].IsBarrier()
                  then [Pos(p.row + 1, p.col)] else [];
      var up := if p.row > 0 && !color[p.row - 1, p.col].IsBarrier()
                then [Pos(p.row - 1, p.col)] else [];
      var left := if p.col > 0 && !color[p.row, p.col - 1].IsBarrier()
                  then [Pos(p.row, p.col - 1)] else [];
      var right := if p.col < rows - 1 && !color[p.row, p.col + 1].IsBarrier()
                   then [Pos(p.row, p.col + 1)] else [];
      down + up + left + right
    }

    /** A node is appended exactly when it is in bounds, orthogonally
        adjacent to `p` and not a barrier. */
    lemma NewNeighborsMembers(p: Pos, q: Pos)
      requires color.Length0 == rows && color.Length1 == rows && InBounds(p, rows)
      ensures q in NewNeighbors(p) <==>
                InBounds(q, rows) && H(p, q) == 1 && !color[q.row, q.col].IsBarrier()
    {
      if InBounds(q, rows) && H(p, q) == 1 {
        assert q == Pos(p.row + 1, p.col) || q == Pos(p.row - 1, p.col)
            || q == Pos(p.row, p.col - 1) || q == Pos(p.row, p.col + 1);
      }
    }

    /** The appended entries come in the order down, up, left, right, so
        no node is appended twice by one call. */
    lemma NewNeighborsOrdered(p: Pos)
      requires color.Length0 == rows && color.Length1 == rows && InBounds(p, rows)
      ensures forall i, j :: 0 <= i < j < |NewNeighbors(p)| ==>
                Direction(p, NewNeighbors(p)[i]) < Direction(p, NewNeighbors(p)[j])
    {
    }

    /** `update_neighbors`: appends the new entries to what the list already
        holds; the list is never cleared, so a second call with the same
        barriers repeats every entry. */
    method UpdateNeighbors(p: Pos)
      requires Valid() && InBounds(p, rows)
      modifies neighbors
      ensures Valid()
      ensures neighbors[p.row, p.col] == old(neighbors[p.row, p.col]) + NewNeighbors(p)
      ensures forall i, j {:trigger neighbors[i, j]} :: 0 <= i < rows && 0 <= j < rows && Pos(i, j) != p ==>
                neighbors[i, j] == old(neighbors[i, j])
    {
      var row, col := p.row, p.col;
      var list := neighbors[row, col];
      ghost var before := list;
      if row < rows - 1 && !color[row + 1, col].IsBarrier() {
        list := list + [Pos(row + 1, col)];
      }
      if row > 0 && !color[row - 1, col].IsBarrier() {
        list := list + [Pos(row - 1, col)];
      }
      if col > 0 && !color[row, col - 1].IsBarrier() {
        list := list + [Pos(row, col - 1)];
      }
      if col < rows - 1 && !color[row, col + 1].IsBarrier() {
        list := list + [Pos(row, col + 1)];
      }
      assert list == before + NewNeighbors(p);
      AppendStaysAdjacent(p, before);
      neighbors[row, col] := list;
    }

    /** Appending the new entries to a list of in-bounds nodes adjacent to
        `p` gives such a list. */
    lemma AppendStaysAdjacent(p: Pos, before: seq<Pos>)
      requires color.Length0 == rows && color.Length1 == rows && InBounds(p, rows)
      requires forall k :: 0 <= k < |before| ==> InBounds(before[k], rows) && H(p, before[k]) == 1
      ensures forall k :: 0 <= k < |before + NewNeighbors(p)| ==>
                InBounds((before + NewNeighbors(p))[k], rows) && H(p, (before + NewNeighbors(p))[k]) == 1
    {
      var list := before + NewNeighbors(p);
      forall k | 0 <= k < |list|
        ensures InBounds(list[k], rows) && H(p, list[k]) == 1
      {
        if k >= |before| {
          assert list[k] in NewNeighbors(p);
          NewNeighborsMembers(p, list[k]);
        }
      }
    }

    /** The loop run on a space press: `update_neighbors` for every node. */
    method UpdateAllNeighbors()
      requires Valid()
      modifies neighbors
      ensures Valid()
      ensures forall i, j {:trigger neighbors[i, j]} :: 0 <= i < rows && 0 <= j < rows ==>
                neighbors[i, j] == old(neighbors[i, j]) + NewNeighbors(Pos(i, j))
    {
      for i := 0 to rows
        invariant Valid()
        invariant forall i', j {:trigger neighbors[i', j]} :: 0 <= i' < rows && 0 <= j < rows ==>
                    neighbors[i', j] == if i' < i then old(neighbors[i', j]) + NewNeighbors(Pos(i', j))
                                        else old(neighbors[i', j])
      {
        for j := 0 to rows
          invariant Valid()
          invariant forall i', j' {:trigger neighbors[i', j']} :: 0 <= i' < rows && 0 <= j' < rows ==>
                      neighbors[i', j'] == if i' < i || (i' == i && j' < j)
                                           then old(neighbors[i', j']) + NewNeighbors(Pos(i', j'))
                                           else old(neighbors[i', j'])
        {
          UpdateNeighbors(Pos(i, j));
        }
      }
    }

    /** The neighbour lists, as a table from node to list. */
    ghost function Table(): (adj: map<Pos, seq<Pos>>)
      reads neighbors
      requires Sized()
      ensures adj.Keys == Cells(rows)
      ensures forall p {:trigger adj[p]} :: p in adj ==> adj[p] == neighbors[p.row, p.col]
    {
      map p | p in Cells(rows) :: neighbors[p.row, p.col]
    }

    /** `adj` is the table of the neighbour lists. */
    ghost predicate Lists(adj: map<Pos, seq<Pos>>)
      reads neighbors
    {
      && Sized() && adj.Keys == Cells(rows)
      && forall p {:trigger neighbors[p.row, p.col]} :: p in adj ==> adj[p] == neighbors[p.row, p.col]
    }

    /** In a valid grid every neighbour list names nodes of the grid only. */
    lemma TableListsInside()
      requires Valid()
      ensures ListsInside(Table())
    {
      var adj := Table();
      forall p, q | p in adj && q in adj[p] ensures q in adj {
        var k :| 0 <= k < |adj[p]| && adj[p][k] == q;
        assert InBounds(neighbors[p.row, p.col][k], rows);
      }
    }
  }

  /** All nodes of a `rows` x `rows` grid. */
  function Cells(rows: int): (c: set<Pos>)
    ensures forall p :: p in c <==> InBounds(p, rows)
  {
    set r, k | 0 <= r < rows && 0 <= k < rows :: Pos(r, k)
  }

  /** Every list of the table names nodes of the table only. */
  ghost predicate ListsInside(adj: map<Pos, seq<Pos>>) {
    forall p, q :: p in adj && q in adj[p] ==> q in adj
  }

  /** `s` is a walk along the neighbour lists of `adj`: every step goes from
      a node to an entry of that node's list. */
  ghost predicate IsWalk(adj: map<Pos, seq<Pos>>, s: seq<Pos>) {
    && (forall i :: 0 <= i < |s| ==> s[i] in adj)
    && forall i :: 0 <= i < |s| - 1 ==> s[i + 1] in adj[s[i]]
  }

  /** Every node of `S` lists only nodes of `S`. */
  ghost predicate ClosedUnderNeighbors(adj: map<Pos, seq<Pos>>, S: set<Pos>) {
    forall n, q :: n in S && n in adj && q in adj[n] ==> q in S
  }

  /** A walk that starts inside a set closed under the neighbour lists
      never leaves it. */
  lemma {:induction false} WalkStaysInside(adj: map<Pos, seq<Pos>>, S: set<Pos>, s: seq<Pos>)
    requires IsWalk(adj, s) && |s| > 0 && s[0] in S
    requires ClosedUnderNeighbors(adj, S)
    ensures forall i :: 0 <= i < |s| ==> s[i] in S
  {
    if |s| > 1 {
      var prefix := s[..|s| - 1];
      assert IsWalk(adj, prefix);
      WalkStaysInside(adj, S, prefix);
      assert s[|s| - 2] == prefix[|s| - 2];
      assert s[|s| - 1] in adj[s[|s| - 2]];
    }
  }

  /** `get_clicked_pos`: the node under a pixel, by floor division with the
      node width `gap = width // rows` (the source raises if `rows` or `gap`
      is 0). The node's square contains the pixel. */
  function GetClickedPos(pos: (int, int), rows: int, width: int): (r: Pos)
    requires rows > 0 && width / rows > 0
    ensures r.row * (width / rows) <= pos.0 < (r.row + 1) * (width / rows)
    ensures r.col * (width / rows) <= pos.1 < (r.col + 1) * (width / rows)
    ensures 0 <= pos.0 < rows * (width / rows) && 0 <= pos.1 < rows * (width / rows) ==>
              InBounds(r, rows)
  {
    var gap := width / rows;
    FloorDivInRange(pos.0, gap, rows);
    FloorDivInRange(pos.1, gap, rows);
    Pos(pos.0 / gap, pos.1 / gap)
  }

  /** Floor division by a positive `gap` places `x` in the `x / gap`-th
      interval of width `gap`, which is one of the first `n` when `x` lies in
      `[0, n * gap)`. */
  lemma FloorDivInRange(x: int, gap: int, n: int)
    requires gap > 0
    ensures (x / gap) * gap <= x < (x / gap + 1) * gap
    ensures 0 <= x < n * gap ==> 0 <= x / gap < n
  {
    var q := x / gap;
    assert x == q * gap + x % gap;
    assert (q + 1) * gap == q * gap + gap;
    if 0 <= x < n * gap {
      if q < 0 {
        MulMonotone(q + 1, 0, gap);
      }
      if q >= n {
        MulMonotone(n, q, gap);
      }
    }
  }

  lemma MulMonotone(a: int, b: int, c: int)
    requires a <= b && c > 0
    ensures a * c <= b * c
  {
    assert b * c - a * c == (b - a) * c;
  }
}
