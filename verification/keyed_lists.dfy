/**
 A Python `dict` from string keys to lists, as the sidebar builder uses it.
 Keys keep the order in which they were first inserted; assigning to a key
 that is already present keeps its position.
 */
module KeyedLists {
  datatype Slot<E> = Slot(key: string, entries: seq<E>)

  /** No key is held twice, as in any `dict`. */
  predicate UniqueKeys<E>(d: seq<Slot<E>>) {
    forall i, j :: 0 <= i < j < |d| ==> d[i].key != d[j].key
  }

  predicate HasKey<E>(d: seq<Slot<E>>, k: string) {
    exists i :: 0 <= i < |d| && d[i].key == k
  }

  /** Where key `k` sits, or `|d|` when it is absent. */
  function IndexOfKey<E>(d: seq<Slot<E>>, k: string): (i: nat)
    ensures i <= |d|
    ensures i < |d| ==> d[i].key == k
    ensures i == |d| ==> !HasKey(d, k)
  {
    if |d| == 0 then 0
    else if d[0].key == k then 0
    else
      var j := IndexOfKey(d[1..], k);
      assert forall m :: 1 <= m < |d| ==> d[m] == d[1..][m - 1];
      1 + j
  }

  /** The list under `k`; an absent key reads as the empty list. */
  function Lookup<E>(d: seq<Slot<E>>, k: string): seq<E> {
    var i := IndexOfKey(d, k);
    if i < |d| then d[i].entries else []
  }

  lemma LookupAt<E>(d: seq<Slot<E>>, i: nat)
    requires UniqueKeys(d) && i < |d|
    ensures IndexOfKey(d, d[i].key) == i
    ensures Lookup(d, d[i].key) == d[i].entries
  {
  }

  /** `d[k] = es`. */
  function Put<E>(d: seq<Slot<E>>, k: string, es: seq<E>): (r: seq<Slot<E>>)
    ensures |r| == if HasKey(d, k) then |d| else |d| + 1
    ensures forall i :: 0 <= i < |r| ==> r[i].key == if i < |d| then d[i].key else k
    ensures r[IndexOfKey(d, k)] == Slot(k, es)
  {
    var i := IndexOfKey(d, k);
    if i < |d| then d[i := Slot(k, es)] else d + [Slot(k, es)]
  }

  /** `d.setdefault(k, []).append(e)`: a new key goes last; an existing one keeps its place. */
  function AddEntry<E>(d: seq<Slot<E>>, k: string, e: E): (r: seq<Slot<E>>)
    ensures |r| == if HasKey(d, k) then |d| else |d| + 1
  {
    Put(d, k, Lookup(d, k) + [e])
  }

  lemma PutUnique<E>(d: seq<Slot<E>>, k: string, es: seq<E>)
    requires UniqueKeys(d)
    ensures UniqueKeys(Put(d, k, es))
  {
  }

  lemma PutOther<E>(d: seq<Slot<E>>, k: string, es: seq<E>, k': string)
    requires UniqueKeys(d) && k' != k
    ensures Lookup(Put(d, k, es), k') == Lookup(d, k')
    ensures HasKey(Put(d, k, es), k') <==> HasKey(d, k')
  {
    var r := Put(d, k, es);
    PutUnique(d, k, es);
    if HasKey(d, k') {
      var j := IndexOfKey(d, k');
      LookupAt(d, j);
      LookupAt(r, j);
    }
  }

  /** What a write to one key leaves: unique keys, the new list there, every other key's list as before. */
  lemma PutLaws<E>(d: seq<Slot<E>>, k: string, es: seq<E>)
    requires UniqueKeys(d)
    ensures UniqueKeys(Put(d, k, es))
    ensures Lookup(Put(d, k, es), k) == es
    ensures forall k' :: k' != k ==> Lookup(Put(d, k, es), k') == Lookup(d, k')
    ensures forall k' :: HasKey(Put(d, k, es), k') <==> HasKey(d, k') || k' == k
  {
    PutUnique(d, k, es);
    LookupAt(Put(d, k, es), IndexOfKey(d, k));
    forall k' | k' != k
      ensures Lookup(Put(d, k, es), k') == Lookup(d, k')
      ensures HasKey(Put(d, k, es), k') <==> HasKey(d, k')
    {
      PutOther(d, k, es, k');
    }
  }

  lemma AddEntryLaws<E>(d: seq<Slot<E>>, k: string, e: E)
    requires UniqueKeys(d)
    ensures UniqueKeys(AddEntry(d, k, e))
    ensures Lookup(AddEntry(d, k, e), k) == Lookup(d, k) + [e]
    ensures forall k' :: k' != k ==> Lookup(AddEntry(d, k, e), k') == Lookup(d, k')
    ensures forall k' :: HasKey(AddEntry(d, k, e), k') <==> HasKey(d, k') || k' == k
  {
    PutLaws(d, k, Lookup(d, k) + [e]);
  }

  /** The number of entries over all keys. */
  function Total<E>(d: seq<Slot<E>>): nat {
    if |d| == 0 then 0 else |d[0].entries| + Total(d[1..])
  }

  lemma {:induction false} TotalUpdate<E>(d: seq<Slot<E>>, i: nat, s: Slot<E>)
    requires i < |d|
    ensures Total(d[i := s]) + |d[i].entries| == Total(d) + |s.entries|
  {
    if i > 0 {
      TotalUpdate(d[1..], i - 1, s);
      assert d[i := s][1..] == d[1..][i - 1 := s];
    }
  }

  lemma {:induction false} TotalAppend<E>(d: seq<Slot<E>>, s: Slot<E>)
    ensures Total(d + [s]) == Total(d) + |s.entries|
  {
    if |d| > 0 {
      TotalAppend(d[1..], s);
      assert (d + [s])[1..] == d[1..] + [s];
    }
  }

  /** Adding one entry adds one to the total. */
  lemma AddEntryTotal<E>(d: seq<Slot<E>>, k: string, e: E)
    ensures Total(AddEntry(d, k, e)) == Total(d) + 1
  {
    var i := IndexOfKey(d, k);
    var s := Slot(k, Lookup(d, k) + [e]);
    if i < |d| {
      assert AddEntry(d, k, e) == d[i := s];
      TotalUpdate(d, i, s);
    } else {
      assert AddEntry(d, k, e) == d + [s];
      TotalAppend(d, s);
    }
  }
}
