/** The open set: a priority queue of `(f, count, node)` entries, taken out
    smallest first in lexicographic order on `(f, count)`. */
module Frontier {
  import opened Heuristic

  datatype Entry = Entry(f: int, count: int, node: Pos)

  /** `a` comes out of the queue no later than `b`: smaller `f`, or equal
      `f` and an earlier (smaller) insertion count. */
  predicate Before(a: Entry, b: Entry) {
    a.f < b.f || (a.f == b.f && a.count <= b.count)
  }

  /** The index of an entry that comes out first. */
  method FindMin(q: seq<Entry>) returns (k: nat)
    requires |q| > 0
    ensures k < |q|
    ensures forall j :: 0 <= j < |q| ==> Before(q[k], q[j])
  {
    k := 0;
    var i := 1;
    while i < |q|
      invariant 1 <= i <= |q| && k < i
      invariant forall j :: 0 <= j < i ==> Before(q[k], q[j])
    {
      if !Before(q[k], q[i]) {
        k := i;
      }
      i := i + 1;
    }
  }

  /** The nodes present in the queue. */
  function Nodes(q: seq<Entry>): set<Pos> {
    set e | e in q :: e.node
  }

  /** Each node is present at most once, no two entries share a count, and
      every count is at most the last one handed out. Then `(f, count)`
      never ties and the node itself is never compared. */
  predicate WellFormed(q: seq<Entry>, count: int) {
    && (forall i, j :: 0 <= i < j < |q| ==> q[i].node != q[j].node && q[i].count != q[j].count)
    && forall j :: 0 <= j < |q| ==> q[j].count <= count
  }

  function RemoveAt(q: seq<Entry>, k: nat): (r: seq<Entry>)
    requires k < |q|
    ensures |r| == |q| - 1
    ensures forall i :: 0 <= i < |r| ==> r[i] == q[if i < k then i else i + 1]
  {
    q[..k] + q[k + 1..]
  }

  /** Taking out entry `k` keeps the queue well formed and removes exactly
      its node from the set of present nodes. */
  lemma RemoveKeepsWellFormed(q: seq<Entry>, k: nat, count: int)
    requires k < |q| && WellFormed(q, count)
    ensures WellFormed(RemoveAt(q, k), count)
    ensures Nodes(RemoveAt(q, k)) == Nodes(q) - {q[k].node}
  {
    var r := RemoveAt(q, k);
    forall i, j | 0 <= i < j < |r|
      ensures r[i].node != r[j].node && r[i].count != r[j].count
    {
      var i', j' := if i < k then i else i + 1, if j < k then j else j + 1;
      assert r[i] == q[i'] && r[j] == q[j'] && i' < j';
    }
    RemoveDropsNode(q, k, count);
  }

  /** Taking out entry `k` of a well-formed queue removes exactly its node
      from the set of present nodes. */
  lemma RemoveDropsNode(q: seq<Entry>, k: nat, count: int)
    requires k < |q| && WellFormed(q, count)
    ensures Nodes(RemoveAt(q, k)) == Nodes(q) - {q[k].node}
  {
    RemoveKeepsOthers(q, k);
    RemoveKeepsNoOthers(q, k, count);
  }

  /** Every node present after entry `k` is taken out was present before,
      and is not the node taken out (nodes are present at most once). */
  lemma RemoveKeepsNoOthers(q: seq<Entry>, k: nat, count: int)
    requires k < |q| && WellFormed(q, count)
    ensures forall n :: n in Nodes(RemoveAt(q, k)) ==> n in Nodes(q) && n != q[k].node
  {
    var r := RemoveAt(q, k);
    forall n | n in Nodes(r) ensures n in Nodes(q) && n != q[k].node {
      var e :| e in r && e.node == n;
      var m :| 0 <= m < |r| && r[m] == e;
      var m' := if m < k then m else m + 1;
      assert q[m'] == e && m' != k;
    }
  }

  /** Every other node present before entry `k` is taken out is still
      present after. */
  lemma RemoveKeepsOthers(q: seq<Entry>, k: nat)
    requires k < |q|
    ensures forall n :: n in Nodes(q) && n != q[k].node ==> n in Nodes(RemoveAt(q, k))
  {
    var r := RemoveAt(q, k);
    forall n | n in Nodes(q) && n != q[k].node ensures n in Nodes(r) {
      var e :| e in q && e.node == n;
      var m :| 0 <= m < |q| && q[m] == e;
      assert m != k;
      assert r[if m < k then m else m - 1] == e;
    }
  }

  /** Putting in a node that is absent, with the next count, keeps the
      queue well formed and adds exactly that node. */
  lemma PushKeepsWellFormed(q: seq<Entry>, e: Entry, count: int)
    requires WellFormed(q, count) && e.node !in Nodes(q) && e.count == count + 1
    ensures WellFormed(q + [e], count + 1)
    ensures Nodes(q + [e]) == Nodes(q) + {e.node}
  {
    var r := q + [e];
    forall i, j | 0 <= i < j < |r|
      ensures r[i].node != r[j].node && r[i].count != r[j].count
    {
      if j == |q| {
        assert r[i] in q;
      }
    }
  }

  /** Python's `queue.PriorityQueue`, as the search uses it. */
  class PriorityQueue {
    var entries: seq<Entry>

    constructor ()
      ensures entries == []
    {
      entries := [];
    }

    /** `empty()`: no node is queued. */
    predicate Empty()
      reads this
      ensures Empty() <==> Nodes(entries) == {}
    {
      assert entries != [] ==> entries[0].node in Nodes(entries);
      entries == []
    }

    method Put(e: Entry)
      modifies this
      ensures entries == old(entries) + [e]
    {
      entries := entries + [e];
    }

    /** Removes and returns an entry that comes out first; `k` is where it
        stood. The source's `get` blocks on an empty queue, which the search
        never reaches because it tests `empty()` first. */
    method Get() returns (e: Entry, ghost k: nat)
      requires entries != []
      modifies this
      ensures k < |old(entries)| && e == old(entries)[k]
      ensures entries == RemoveAt(old(entries), k)
      ensures forall x :: x in old(entries) ==> Before(e, x)
    {
      var i := FindMin(entries);
      e, k := entries[i], i;
      entries := RemoveAt(entries, i);
    }
  }
}
