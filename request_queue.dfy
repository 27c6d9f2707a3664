/**
 * The executor's pending requests: a priority queue of
 * (earliest tick, action, receipt tick) entries, kept here as a sequence
 * ordered by earliest tick. `get` takes the head; `put` inserts after every
 * entry that is not later, so entries with equal ticks leave in the order
 * they were put.
 */
module RequestQueues {
  import opened Messages

  datatype Entry = Entry(earliest: int, action: Action, recv: int)

  predicate Sorted(q: seq<Entry>)
  {
    forall i, j :: 0 <= i < j < |q| ==> q[i].earliest <= q[j].earliest
  }

  /** Where `put` places `e`: after every entry that is not later than it. */
  function InsertionIndex(q: seq<Entry>, e: Entry): (k: nat)
    requires Sorted(q)
    ensures k <= |q|
    ensures forall i :: 0 <= i < k ==> q[i].earliest <= e.earliest
    ensures forall i :: k <= i < |q| ==> e.earliest < q[i].earliest
  {
    if q == [] || e.earliest < q[0].earliest then 0
    else 1 + InsertionIndex(q[1..], e)
  }

  /** `put`: the queue stays ordered and gains exactly `e`. */
  function Put(q: seq<Entry>, e: Entry): (r: seq<Entry>)
    requires Sorted(q)
    ensures Sorted(r)
    ensures multiset(r) == multiset(q) + multiset{e}
  {
    var k := InsertionIndex(q, e);
    assert q == q[..k] + q[k..];
    q[..k] + [e] + q[k..]
  }

  /** `get` hands out an entry with the smallest earliest tick. */
  lemma HeadIsEarliest(q: seq<Entry>)
    requires Sorted(q) && |q| > 0
    ensures forall x :: x in q ==> q[0].earliest <= x.earliest
  {
  }

  /** Taking the head and putting it back leaves the same entries queued. */
  lemma GetThenPutKeepsEntries(q: seq<Entry>)
    requires Sorted(q) && |q| > 0
    ensures Sorted(q[1..])
    ensures multiset(Put(q[1..], q[0])) == multiset(q)
  {
    assert q == [q[0]] + q[1..];
  }
}
