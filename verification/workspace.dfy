/**
 The sorting workspace: a tree on the left and a "data source" list on the
 right, with items dragged between them. Dropping a tree node on the list
 appends it; dropping a list item on the tree root or on a tree row takes it
 out of the list. List elements are JavaScript objects compared by identity,
 so each carries an explicit reference: two elements are the same object
 exactly when their references are equal.
 */
module Workspace {
  import opened Base
  import opened TreeUtils

  /** A data-source element: the object's reference and the node it holds. */
  datatype Held = Held(ref: nat, node: TreeNode)

  /** What a list row hands to a drag: the element and its index in the list. */
  datatype ListDrag = ListDrag(item: Held, index: int)

  // ---------------------------------------------------------------- tree to list

  /**
   `handleDropToDataSource`: the dropped node goes to the end of the list, and
   its removal from the tree is requested when the tree is mounted and the
   node's id is non-empty.
   */
  function DropToDataSource(ds: seq<Held>, x: Held, treeMounted: bool): (r: (seq<Held>, Option<string>))
    ensures |r.0| == |ds| + 1 && r.0[..|ds|] == ds && r.0[|ds|] == x
    ensures r.1.Some? <==> treeMounted && x.node.id != ""
    ensures r.1.Some? ==> r.1.value == x.node.id
  {
    (ds + [x], if treeMounted && x.node.id != "" then Some(x.node.id) else None)
  }

  // ---------------------------------------------------------------- list to tree root

  /**
   `handleDropToTreeRoot`: every element whose position differs from the drag's
   index stays, in order, and the element itself (not the drag wrapper) is
   handed to the tree when the tree is mounted.
   */
  method DropToTreeRoot(ds: seq<Held>, d: ListDrag, treeMounted: bool) returns (r: seq<Held>, added: Option<Held>)
    ensures 0 <= d.index < |ds| ==> r == ds[..d.index] + ds[d.index + 1..]
    ensures !(0 <= d.index < |ds|) ==> r == ds
    ensures |r| == if 0 <= d.index < |ds| then |ds| - 1 else |ds|
    ensures added == if treeMounted then Some(d.item) else None
  {
    r := [];
    var i := 0;
    while i < |ds|
      invariant 0 <= i <= |ds|
      invariant r == if 0 <= d.index < i then ds[..d.index] + ds[d.index + 1..i] else ds[..i]
    {
      if i != d.index {
        r := r + [ds[i]];
      }
      i := i + 1;
    }
    added := if treeMounted then Some(d.item) else None;
  }

  // ---------------------------------------------------------------- list to tree row

  /** The list without the elements that are the object `ref`, in order. */
  function Without(ds: seq<Held>, ref: nat): (r: seq<Held>)
    ensures |r| <= |ds|
  {
    if |ds| == 0 then []
    else (if ds[0].ref == ref then [] else [ds[0]]) + Without(ds[1..], ref)
  }

  /** How many elements of the list are the object `ref`. */
  function Count(ds: seq<Held>, ref: nat): nat {
    if |ds| == 0 then 0 else (if ds[0].ref == ref then 1 else 0) + Count(ds[1..], ref)
  }

  lemma Assoc(x: seq<Held>, y: seq<Held>, z: seq<Held>)
    ensures (x + y) + z == x + (y + z)
  {
  }

  lemma {:induction false} WithoutAppend(a: seq<Held>, b: seq<Held>, ref: nat)
    ensures Without(a + b, ref) == Without(a, ref) + Without(b, ref)
    ensures Count(a + b, ref) == Count(a, ref) + Count(b, ref)
    decreases |a|
  {
    if |a| == 0 {
      assert a + b == b;
    } else {
      var h := if a[0].ref == ref then [] else [a[0]];
      assert (a + b)[0] == a[0] && (a + b)[1..] == a[1..] + b;
      WithoutAppend(a[1..], b, ref);
      assert Without(a + b, ref) == h + (Without(a[1..], ref) + Without(b, ref));
      assert Without(a, ref) == h + Without(a[1..], ref);
      Assoc(h, Without(a[1..], ref), Without(b, ref));
    }
  }

  /** What the removal keeps: exactly the elements that are not the object. */
  lemma {:induction false} WithoutMembers(ds: seq<Held>, ref: nat)
    ensures forall x: Held :: x in Without(ds, ref) <==> x in ds && x.ref != ref
  {
    if |ds| > 0 {
      WithoutMembers(ds[1..], ref);
      assert ds == [ds[0]] + ds[1..];
    }
  }

  /** Every other element is kept as often as before, and the length drops by the number of copies. */
  lemma {:induction false} WithoutCounts(ds: seq<Held>, ref: nat)
    ensures forall x: Held :: x.ref != ref ==> multiset(Without(ds, ref))[x] == multiset(ds)[x]
    ensures |Without(ds, ref)| == |ds| - Count(ds, ref)
  {
    if |ds| > 0 {
      WithoutCounts(ds[1..], ref);
      assert ds == [ds[0]] + ds[1..];
    }
  }

  /** A list that does not hold the object is left as it is. */
  lemma {:induction false} WithoutAbsent(ds: seq<Held>, ref: nat)
    requires Count(ds, ref) == 0
    ensures Without(ds, ref) == ds
  {
    if |ds| > 0 {
      WithoutAbsent(ds[1..], ref);
      assert ds == [ds[0]] + ds[1..];
    }
  }

  /**
   `handleDropToTreeNode`: every element identical to the dropped one leaves
   the list; the others stay in order.
   */
  method DropToTreeNode(ds: seq<Held>, item: Held) returns (r: seq<Held>)
    ensures r == Without(ds, item.ref)
    ensures forall x :: x in r <==> x in ds && x.ref != item.ref
    ensures |r| == |ds| - Count(ds, item.ref)
  {
    r := [];
    var i := 0;
    while i < |ds|
      invariant 0 <= i <= |ds|
      invariant r == Without(ds[..i], item.ref)
    {
      assert ds[..i + 1] == ds[..i] + [ds[i]];
      WithoutAppend(ds[..i], [ds[i]], item.ref);
      if ds[i].ref != item.ref {
        r := r + [ds[i]];
      }
      i := i + 1;
    }
    assert ds[..i] == ds;
    WithoutMembers(ds, item.ref);
    WithoutCounts(ds, item.ref);
  }

  /** Dropping an element taken from the list removes it; other objects keep their places. */
  lemma DropTakesOut(a: seq<Held>, x: Held, b: seq<Held>)
    requires Count(a, x.ref) == 0 && Count(b, x.ref) == 0
    ensures Without(a + [x] + b, x.ref) == a + b
  {
    WithoutAppend(a + [x], b, x.ref);
    WithoutAppend(a, [x], x.ref);
    WithoutAbsent(a, x.ref);
    WithoutAbsent(b, x.ref);
    assert Without([x], x.ref) == [] by {
      assert [x][1..] == [];
    }
    assert Without(a + [x], x.ref) == a + [];
    assert a + [] == a;
  }

  /** A tree node dropped on the list and dragged straight back onto a row leaves the list as it was. */
  lemma RoundTrip(ds: seq<Held>, x: Held, treeMounted: bool)
    requires Count(ds, x.ref) == 0
    ensures Without(DropToDataSource(ds, x, treeMounted).0, x.ref) == ds
  {
    DropTakesOut(ds, x, []);
    assert ds + [x] + [] == ds + [x];
    assert ds + [] == ds;
  }
}
