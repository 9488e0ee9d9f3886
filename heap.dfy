/**
 The frontier: a list of (distance, node) entries with extract-min and push.
 Only the contract of a min-heap is modelled (pop yields an entry of least
 distance and removes exactly one copy of it; push adds one entry), not the
 binary-heap layout of the list.
 */
module Heap {

  type Entry<N> = (nat, N)

  /** The position of the first entry of least distance. */
  function MinIndex<N>(pq: seq<Entry<N>>): (i: nat)
    requires |pq| > 0
    ensures i < |pq|
    ensures forall j :: 0 <= j < |pq| ==> pq[i].0 <= pq[j].0
  {
    if |pq| == 1 then 0
    else
      var k := MinIndex(pq[1..]) + 1;
      if pq[0].0 <= pq[k].0 then 0 else k
  }

  /** Removes an entry of least distance; returns it and the remaining entries. */
  function Pop<N>(pq: seq<Entry<N>>): (r: (Entry<N>, seq<Entry<N>>))
    requires |pq| > 0
    ensures r.0 in pq
    ensures forall e :: e in pq ==> r.0.0 <= e.0
    ensures multiset(r.1) + multiset{r.0} == multiset(pq) && |r.1| == |pq| - 1
    ensures forall e :: e in r.1 ==> e in pq
    ensures forall e :: e in pq && e != r.0 ==> e in r.1
  {
    var i := MinIndex(pq);
    assert pq == pq[..i] + [pq[i]] + pq[i + 1..];
    (pq[i], pq[..i] + pq[i + 1..])
  }

  /** Adds an entry. A heap push files the entry into the list's heap layout;
      here it is appended, so the old entries stay as a prefix of the new ones. */
  function Push<N>(pq: seq<Entry<N>>, e: Entry<N>): (r: seq<Entry<N>>)
    ensures multiset(r) == multiset(pq) + multiset{e}
    ensures |r| == |pq| + 1 && r[..|pq|] == pq && r[|pq|] == e
  {
    pq + [e]
  }
}
