/**
 Laws of the tree index, stated over the pre-order outline of a forest: what
 each operation of the tree index does to the outline.
 */
module TreeOrder {
  import opened Base
  import opened TreeUtils
  import opened Outlines

  // ---------------------------------------------------------------- find

  /** `Find` on a list whose first node does not hold the id searches the rest. */
  lemma FindSkips(ns: seq<TreeNode>, id: string)
    requires |ns| > 0 && id !in NodeIds(ns[0])
    ensures Find(ns, id) == Find(ns[1..], id)
  {
    assert id !in Ids(Children(ns[0]));
  }

  /**
   `Find` returns the first node of the pre-order with the id, and the outline
   from that position on starts with that node's whole subtree.
   */
  lemma {:induction false} FindOutline(ns: seq<TreeNode>, id: string, d: nat)
    requires id in Ids(ns)
    ensures SubtreeAt(Outline(ns, d), IndexOf(Outline(ns, d), id), Find(ns, id).value)
    decreases ns, 0
  {
    var p := NodeOutline(ns[0], d);
    var t := Outline(ns[1..], d);
    OutlineSplit(ns, d);
    if ns[0].id == id {
      SubtreeAtStart(ns[0], d);
      IndexOfWithin(p, t, id);
      SubtreeInLeft(Outline(ns, d), p, t, 0, ns[0], IndexOf(Outline(ns, d), id), Find(ns, id).value);
    } else if id in Ids(Children(ns[0])) {
      FindBelowOutline(ns[0], id, d);
      IndexOfWithin(p, t, id);
      SubtreeInLeft(Outline(ns, d), p, t, IndexOf(p, id), FindBelow(ns[0], id).value, IndexOf(Outline(ns, d), id), Find(ns, id).value);
    } else {
      NodeOutlineIds(ns[0], d);
      IndexOfPast(p, t, id);
      FindSkips(ns, id);
      FindOutline(ns[1..], id, d);
      SubtreeInRight(Outline(ns, d), p, t, IndexOf(t, id), Find(ns[1..], id).value, IndexOf(Outline(ns, d), id), Find(ns, id).value);
    }
  }

  lemma {:induction false} FindBelowOutline(n: TreeNode, id: string, d: nat)
    requires n.id != id && id in Ids(Children(n))
    ensures SubtreeAt(NodeOutline(n, d), IndexOf(NodeOutline(n, d), id), FindBelow(n, id).value)
    decreases n, 1
  {
    var c := Children(n);
    NodeOutlineSplit(n, d);
    IndexOfBelowHead(n, id, d);
    FindOutline(c, id, d + 1);
    SubtreeInRight(NodeOutline(n, d), [Entry(Head(n), d)], Outline(c, d + 1), IndexOf(Outline(c, d + 1), id), Find(c, id).value,
                   IndexOf(NodeOutline(n, d), id), FindBelow(n, id).value);
  }

  // ---------------------------------------------------------------- update

  /** `Update` on a list: the first node updated, then the rest. */
  lemma UpdateSplit(ns: seq<TreeNode>, id: string, f: TreeNode -> TreeNode)
    requires |ns| > 0
    ensures Update(ns, id, f) == [UpdateNode(ns[0], id, f)] + Update(ns[1..], id, f)
  {
  }

  /**
   With the id occurring once, `Update` replaces exactly the outline of the
   matching node's subtree by the outline of `f` of that node, at the same
   depth; every other line is unchanged.
   */
  lemma {:induction false} UpdateOutline(ns: seq<TreeNode>, id: string, f: TreeNode -> TreeNode, d: nat)
    requires multiset(Ids(ns))[id] == 1
    ensures id in Ids(ns)
    ensures Rewrites(Outline(ns, d), Outline(Update(ns, id, f), d), IndexOf(Outline(ns, d), id),
                     Find(ns, id).value, f(Find(ns, id).value))
    decreases ns, 0
  {
    var p := NodeOutline(ns[0], d);
    var t := Outline(ns[1..], d);
    var r0 := UpdateNode(ns[0], id, f);
    var rs := Update(ns[1..], id, f);
    OutlineSplit(ns, d);
    UpdateSplit(ns, id, f);
    OutlineCons(r0, rs, d);
    assert multiset(Ids(ns)) == multiset(NodeIds(ns[0])) + multiset(Ids(ns[1..]));
    if ns[0].id == id {
      assert multiset(NodeIds(ns[0]))[id] >= 1;
      assert rs == ns[1..];
      RewritesWhole(ns[0], r0, d);
      IndexOfWithin(p, t, id);
      RewritesInLeft(Outline(ns, d), Outline(Update(ns, id, f), d), p, t, NodeOutline(r0, d), 0, ns[0], r0,
                     IndexOf(Outline(ns, d), id), Find(ns, id).value, f(Find(ns, id).value));
    } else if id in Ids(Children(ns[0])) {
      assert id in NodeIds(ns[0]);
      assert rs == ns[1..];
      UpdateNodeOutline(ns[0], id, f, d);
      var m := FindBelow(ns[0], id).value;
      IndexOfWithin(p, t, id);
      RewritesInLeft(Outline(ns, d), Outline(Update(ns, id, f), d), p, t, NodeOutline(r0, d), IndexOf(p, id), m, f(m),
                     IndexOf(Outline(ns, d), id), Find(ns, id).value, f(Find(ns, id).value));
    } else {
      assert id !in NodeIds(ns[0]);
      assert r0 == ns[0];
      NodeOutlineIds(ns[0], d);
      IndexOfPast(p, t, id);
      FindSkips(ns, id);
      UpdateOutline(ns[1..], id, f, d);
      var m := Find(ns[1..], id).value;
      RewritesInRight(Outline(ns, d), Outline(Update(ns, id, f), d), p, t, Outline(rs, d), IndexOf(t, id), m, f(m),
                      IndexOf(Outline(ns, d), id), Find(ns, id).value, f(Find(ns, id).value));
    }
  }

  lemma {:induction false} UpdateNodeOutline(n: TreeNode, id: string, f: TreeNode -> TreeNode, d: nat)
    requires n.id != id && multiset(Ids(Children(n)))[id] == 1
    ensures id in Ids(Children(n))
    ensures Rewrites(NodeOutline(n, d), NodeOutline(UpdateNode(n, id, f), d), IndexOf(NodeOutline(n, d), id),
                     FindBelow(n, id).value, f(FindBelow(n, id).value))
    decreases n, 1
  {
    var c := Children(n);
    var r := UpdateNode(n, id, f);
    assert r == n.(items := Items(Update(c, id, f)));
    assert Head(r) == Head(n) && Children(r) == Update(c, id, f);
    NodeOutlineSplit(n, d);
    NodeOutlineSplit(r, d);
    IndexOfBelowHead(n, id, d);
    UpdateOutline(c, id, f, d + 1);
    var m := Find(c, id).value;
    RewritesInRight(NodeOutline(n, d), NodeOutline(r, d), [Entry(Head(n), d)], Outline(c, d + 1), Outline(Update(c, id, f), d + 1),
                    IndexOf(Outline(c, d + 1), id), m, f(m),
                    IndexOf(NodeOutline(n, d), id), FindBelow(n, id).value, f(FindBelow(n, id).value));
  }

  // ---------------------------------------------------------------- positions

  /**
   A path names a node by position: its index in the top list, then its index
   in that node's children, and so on down.
   */
  ghost predicate ValidPath(ns: seq<TreeNode>, p: seq<nat>)
    decreases |p|
  {
    && |p| > 0 && p[0] < |ns|
    && (|p| == 1 || ValidPath(Children(ns[p[0]]), p[1..]))
  }

  /** The node a valid path names. */
  ghost function At(ns: seq<TreeNode>, p: seq<nat>): TreeNode
    requires ValidPath(ns, p)
    decreases |p|
  {
    if |p| == 1 then ns[p[0]] else At(Children(ns[p[0]]), p[1..])
  }

  /**
   No node strictly above the end of the path carries the id: the path stops
   at a top-most match or never meets one.
   */
  ghost predicate Clear(ns: seq<TreeNode>, p: seq<nat>, id: string)
    decreases |p|
  {
    |p| <= 1 || (p[0] < |ns| && ns[p[0]].id != id && Clear(Children(ns[p[0]]), p[1..], id))
  }

  /** `Update` works node by node along the list. */
  lemma {:induction false} UpdateIndex(ns: seq<TreeNode>, id: string, f: TreeNode -> TreeNode)
    ensures |Update(ns, id, f)| == |ns|
    ensures forall i :: 0 <= i < |ns| ==> Update(ns, id, f)[i] == UpdateNode(ns[i], id, f)
    decreases |ns|
  {
    if |ns| > 0 {
      UpdateSplit(ns, id, f);
      UpdateIndex(ns[1..], id, f);
    }
  }

  /**
   `updateTreeNode` at every depth, for any forest (ids may repeat): along a
   path that meets no match above its end, the path names a node after the
   update exactly when it did before; a top-most match becomes `f` of itself,
   children and all; any other node keeps every field and the kind and length
   of its child list. So every sibling list above the matches keeps its
   length, and the forest is fixed at every position.
   */
  lemma {:induction false} UpdateAt(ns: seq<TreeNode>, id: string, f: TreeNode -> TreeNode, p: seq<nat>)
    requires Clear(ns, p, id)
    ensures ValidPath(Update(ns, id, f), p) <==> ValidPath(ns, p)
    ensures ValidPath(ns, p) && At(ns, p).id == id ==> At(Update(ns, id, f), p) == f(At(ns, p))
    ensures ValidPath(ns, p) && At(ns, p).id != id ==> SameExceptItems(At(Update(ns, id, f), p), At(ns, p))
    decreases |p|
  {
    UpdateIndex(ns, id, f);
    if |p| > 1 && p[0] < |ns| {
      var n := ns[p[0]];
      var r := Update(ns, id, f);
      assert Children(r[p[0]]) == Update(Children(n), id, f) by {
        assert r[p[0]] == UpdateNode(n, id, f);
      }
      UpdateAt(Children(n), id, f, p[1..]);
    }
  }

  // ---------------------------------------------------------------- insert before / after

  /**
   `Splice` adds the outline of the new node at the depth of the first
   occurrence of the reference: right before the reference's line, or right
   after the last line of the reference's subtree. Every other line keeps its
   place, so the new node is the reference's immediate sibling.
   */
  lemma {:induction false} SpliceOutline(ns: seq<TreeNode>, ref: string, x: TreeNode, after: bool, d: nat)
    requires ref in Ids(ns)
    ensures SplicedAt(Outline(ns, d), Outline(Splice(ns, ref, x, after).value, d),
                      IndexOf(Outline(ns, d), ref), Find(ns, ref).value, x, after)
    decreases ns, 0
  {
    if ns[0].id == ref {
      SpliceHere(ns, ref, x, after, d);
    } else if ref in Ids(Children(ns[0])) {
      SpliceBelowOutline(ns[0], ref, x, after, d);
      SpliceInFirst(ns, ref, x, after, d);
    } else {
      SpliceOutline(ns[1..], ref, x, after, d);
      SpliceInRest(ns, ref, x, after, d);
    }
  }

  /** `SpliceOutline` when the first node is the reference. */
  lemma SpliceHere(ns: seq<TreeNode>, ref: string, x: TreeNode, after: bool, d: nat)
    requires |ns| > 0 && ns[0].id == ref
    ensures SplicedAt(Outline(ns, d), Outline(Splice(ns, ref, x, after).value, d),
                      IndexOf(Outline(ns, d), ref), Find(ns, ref).value, x, after)
  {
    var p := NodeOutline(ns[0], d);
    var t := Outline(ns[1..], d);
    var r := Splice(ns, ref, x, after).value;
    OutlineSplit(ns, d);
    IndexOfWithin(p, t, ref);
    assert IndexOf(p, ref) == 0;
    if after {
      assert r == [ns[0]] + ([x] + ns[1..]);
      OutlineCons(ns[0], [x] + ns[1..], d);
      OutlineCons(x, ns[1..], d);
    } else {
      assert r == [x] + ns;
      OutlineCons(x, ns, d);
    }
    SplicedHere(Outline(ns, d), Outline(r, d), ns[0], x, t, after, d, IndexOf(Outline(ns, d), ref), Find(ns, ref).value);
  }

  /** `SpliceOutline` when the reference lies below the first node. */
  lemma SpliceInFirst(ns: seq<TreeNode>, ref: string, x: TreeNode, after: bool, d: nat)
    requires |ns| > 0 && ns[0].id != ref && ref in Ids(Children(ns[0]))
    requires SplicedAt(NodeOutline(ns[0], d), NodeOutline(SpliceBelow(ns[0], ref, x, after).value, d),
                       IndexOf(NodeOutline(ns[0], d), ref), FindBelow(ns[0], ref).value, x, after)
    ensures SplicedAt(Outline(ns, d), Outline(Splice(ns, ref, x, after).value, d),
                      IndexOf(Outline(ns, d), ref), Find(ns, ref).value, x, after)
  {
    var p := NodeOutline(ns[0], d);
    var t := Outline(ns[1..], d);
    var r := Splice(ns, ref, x, after).value;
    var h := SpliceBelow(ns[0], ref, x, after).value;
    OutlineSplit(ns, d);
    assert r == [h] + ns[1..];
    OutlineCons(h, ns[1..], d);
    IndexOfWithin(p, t, ref);
    SplicedInLeft(Outline(ns, d), Outline(r, d), p, t, NodeOutline(h, d), IndexOf(p, ref), FindBelow(ns[0], ref).value, x, after,
                  IndexOf(Outline(ns, d), ref), Find(ns, ref).value);
  }

  /** `SpliceOutline` when the first node does not hold the reference. */
  lemma SpliceInRest(ns: seq<TreeNode>, ref: string, x: TreeNode, after: bool, d: nat)
    requires |ns| > 0 && ref !in NodeIds(ns[0]) && ref in Ids(ns[1..])
    requires SplicedAt(Outline(ns[1..], d), Outline(Splice(ns[1..], ref, x, after).value, d),
                       IndexOf(Outline(ns[1..], d), ref), Find(ns[1..], ref).value, x, after)
    ensures SplicedAt(Outline(ns, d), Outline(Splice(ns, ref, x, after).value, d),
                      IndexOf(Outline(ns, d), ref), Find(ns, ref).value, x, after)
  {
    var p := NodeOutline(ns[0], d);
    var t := Outline(ns[1..], d);
    var r := Splice(ns, ref, x, after).value;
    var rest := Splice(ns[1..], ref, x, after).value;
    OutlineSplit(ns, d);
    NodeOutlineIds(ns[0], d);
    IndexOfPast(p, t, ref);
    FindSkips(ns, ref);
    assert r == [ns[0]] + rest;
    OutlineCons(ns[0], rest, d);
    SplicedInRight(Outline(ns, d), Outline(r, d), p, t, Outline(rest, d), IndexOf(t, ref), Find(ns[1..], ref).value, x, after,
                   IndexOf(Outline(ns, d), ref), Find(ns, ref).value);
  }

  lemma {:induction false} SpliceBelowOutline(n: TreeNode, ref: string, x: TreeNode, after: bool, d: nat)
    requires n.id != ref && ref in Ids(Children(n))
    ensures SplicedAt(NodeOutline(n, d), NodeOutline(SpliceBelow(n, ref, x, after).value, d),
                      IndexOf(NodeOutline(n, d), ref), FindBelow(n, ref).value, x, after)
    decreases n, 1
  {
    var c := Children(n);
    var c2 := Splice(c, ref, x, after).value;
    var r := SpliceBelow(n, ref, x, after).value;
    assert r == n.(items := Items(c2));
    assert Head(r) == Head(n) && Children(r) == c2;
    NodeOutlineSplit(n, d);
    NodeOutlineSplit(r, d);
    IndexOfBelowHead(n, ref, d);
    SpliceOutline(c, ref, x, after, d + 1);
    SplicedInRight(NodeOutline(n, d), NodeOutline(r, d), [Entry(Head(n), d)], Outline(c, d + 1), Outline(c2, d + 1),
                   IndexOf(Outline(c, d + 1), ref), Find(c, ref).value, x, after,
                   IndexOf(NodeOutline(n, d), ref), FindBelow(n, ref).value);
  }

  /**
   `insertBeforeNode`: the new node's subtree is inserted into the outline
   directly before the first line carrying the reference id, at that line's
   depth.
   */
  lemma InsertBeforeOutline(ns: seq<TreeNode>, ref: string, x: TreeNode, d: nat)
    requires ref in Ids(ns)
    ensures SplicedAt(Outline(ns, d), Outline(InsertBefore(ns, ref, x), d),
                      IndexOf(Outline(ns, d), ref), Find(ns, ref).value, x, false)
  {
    SpliceOutline(ns, ref, x, false, d);
  }

  /**
   `insertAfterNode` and `addSiblingNode` give the same forest: the new node's
   subtree is inserted into the outline directly after the reference node's
   subtree, at the reference's depth.
   */
  lemma InsertAfterOutline(ns: seq<TreeNode>, ref: string, x: TreeNode, d: nat)
    requires ref in Ids(ns)
    ensures SplicedAt(Outline(ns, d), Outline(InsertAfter(ns, ref, x), d),
                      IndexOf(Outline(ns, d), ref), Find(ns, ref).value, x, true)
    ensures AddSibling(ns, ref, x) == InsertAfter(ns, ref, x)
  {
    SpliceOutline(ns, ref, x, true, d);
  }

  // ---------------------------------------------------------------- add child

  /** `addChildNode` is `updateTreeNode` with "append `x` to the children" as the update. */
  lemma {:induction false} AddChildIsUpdate(ns: seq<TreeNode>, parentId: string, x: TreeNode)
    ensures AddChild(ns, parentId, x) == Update(ns, parentId, n => AppendChild(n, x))
    decreases ns, 0
  {
    if |ns| > 0 {
      AddChildUnderIsUpdate(ns[0], parentId, x);
      AddChildIsUpdate(ns[1..], parentId, x);
    }
  }

  lemma {:induction false} AddChildUnderIsUpdate(n: TreeNode, parentId: string, x: TreeNode)
    ensures AddChildUnder(n, parentId, x) == UpdateNode(n, parentId, n => AppendChild(n, x))
    decreases n, 1
  {
    if n.id != parentId {
      match n.items
      case NoItems =>
      case Items(c) => AddChildIsUpdate(c, parentId, x);
    }
  }

  /**
   `addChildNode` at every depth, for any forest: along a path that meets no
   node with the parent id above its end, the path names a node after the call
   exactly when it did before; a top-most match keeps its fields and gets `x`
   as the last element of its child list, created when absent; any other node
   keeps every field and the kind and length of its child list.
   */
  lemma AddChildAt(ns: seq<TreeNode>, parentId: string, x: TreeNode, p: seq<nat>)
    requires Clear(ns, p, parentId)
    ensures ValidPath(AddChild(ns, parentId, x), p) <==> ValidPath(ns, p)
    ensures ValidPath(ns, p) && At(ns, p).id == parentId ==>
      && At(AddChild(ns, parentId, x), p).(items := At(ns, p).items) == At(ns, p)
      && At(AddChild(ns, parentId, x), p).items == Items(Children(At(ns, p)) + [x])
    ensures ValidPath(ns, p) && At(ns, p).id != parentId ==>
      SameExceptItems(At(AddChild(ns, parentId, x), p), At(ns, p))
  {
    AddChildIsUpdate(ns, parentId, x);
    UpdateAt(ns, parentId, n => AppendChild(n, x), p);
  }

  /**
   Appending a child turns the node's line into a folder line and adds the
   child's subtree one level down, after the node's existing descendants.
   */
  lemma AppendChildOutline(n: TreeNode, x: TreeNode, d: nat)
    ensures NodeOutline(AppendChild(n, x), d)
         == [Entry(Head(n).(items := Items([])), d)] + NodeOutline(n, d)[1..] + NodeOutline(x, d + 1)
  {
    var c := Children(n);
    var below := NodeOutline(n, d)[1..];
    assert below == Outline(c, d + 1) by {
      match n.items
      case NoItems =>
      case Items(_) =>
        assert NodeOutline(n, d) == [Entry(Head(n), d)] + Outline(c, d + 1);
    }
    OutlineAppend(c, [x], d + 1);
    OutlineSingle(x, d + 1);
    assert Head(AppendChild(n, x)) == Head(n).(items := Items([]));
  }

  /**
   With the parent id occurring once, `addChildNode` rewrites exactly the
   parent's subtree into that of the parent with `x` appended as last child
   (see `AppendChildOutline`); every other line is unchanged.
   */
  lemma AddChildOutline(ns: seq<TreeNode>, parentId: string, x: TreeNode, d: nat)
    requires multiset(Ids(ns))[parentId] == 1
    ensures parentId in Ids(ns)
    ensures Rewrites(Outline(ns, d), Outline(AddChild(ns, parentId, x), d), IndexOf(Outline(ns, d), parentId),
                     Find(ns, parentId).value, AppendChild(Find(ns, parentId).value, x))
  {
    AddChildIsUpdate(ns, parentId, x);
    UpdateOutline(ns, parentId, n => AppendChild(n, x), d);
  }

  // ---------------------------------------------------------------- rename

  /** The update `renameTreeNode` performs on a matching node. */
  function SetText(text: string): TreeNode -> TreeNode {
    (n: TreeNode) => n.(text := text)
  }

  /** `renameTreeNode(ns, id, t)` equals `updateTreeNode(ns, id, n => ({...n, text: t}))`. */
  lemma {:induction false} RenameIsUpdate(ns: seq<TreeNode>, id: string, text: string)
    ensures Rename(ns, id, text) == Update(ns, id, SetText(text))
    decreases ns, 0
  {
    if |ns| > 0 {
      RenameNodeIsUpdate(ns[0], id, text);
      RenameIsUpdate(ns[1..], id, text);
    }
  }

  lemma {:induction false} RenameNodeIsUpdate(n: TreeNode, id: string, text: string)
    ensures RenameNode(n, id, text) == UpdateNode(n, id, SetText(text))
    decreases n, 1
  {
    if n.id != id {
      match n.items
      case NoItems =>
      case Items(c) => RenameIsUpdate(c, id, text);
    }
  }

  /**
   `renameTreeNode` at every depth, for any forest: along a path that meets no
   node with the id above its end, the path names a node after the rename
   exactly when it did before; a top-most match gets the new text and keeps
   everything else, children included; any other node keeps every field and
   the kind and length of its child list.
   */
  lemma RenameAt(ns: seq<TreeNode>, id: string, text: string, p: seq<nat>)
    requires Clear(ns, p, id)
    ensures ValidPath(Rename(ns, id, text), p) <==> ValidPath(ns, p)
    ensures ValidPath(ns, p) && At(ns, p).id == id ==> At(Rename(ns, id, text), p) == At(ns, p).(text := text)
    ensures ValidPath(ns, p) && At(ns, p).id != id ==> SameExceptItems(At(Rename(ns, id, text), p), At(ns, p))
  {
    RenameIsUpdate(ns, id, text);
    UpdateAt(ns, id, SetText(text), p);
  }

  /** Renaming twice with the same text is renaming once. */
  lemma {:induction false} RenameIdempotent(ns: seq<TreeNode>, id: string, text: string)
    ensures Rename(Rename(ns, id, text), id, text) == Rename(ns, id, text)
    decreases ns, 0
  {
    if |ns| > 0 {
      var r := Rename(ns, id, text);
      assert r == [RenameNode(ns[0], id, text)] + Rename(ns[1..], id, text);
      assert r[0] == RenameNode(ns[0], id, text) && r[1..] == Rename(ns[1..], id, text);
      RenameNodeIdempotent(ns[0], id, text);
      RenameIdempotent(ns[1..], id, text);
    }
  }

  lemma {:induction false} RenameNodeIdempotent(n: TreeNode, id: string, text: string)
    ensures RenameNode(RenameNode(n, id, text), id, text) == RenameNode(n, id, text)
    decreases n, 1
  {
    if n.id != id {
      match n.items
      case NoItems =>
      case Items(c) => RenameIdempotent(c, id, text);
    }
  }

  /** Renaming changes texts only: the outline is the same line for line once texts are blanked. */
  lemma {:induction false} RenameKeepsShape(ns: seq<TreeNode>, id: string, text: string, d: nat)
    ensures Untexted(Outline(Rename(ns, id, text), d)) == Untexted(Outline(ns, d))
    decreases ns, 0
  {
    if |ns| > 0 {
      var r := Rename(ns, id, text);
      assert r == [RenameNode(ns[0], id, text)] + Rename(ns[1..], id, text);
      assert r[0] == RenameNode(ns[0], id, text) && r[1..] == Rename(ns[1..], id, text);
      assert Outline(r, d) == NodeOutline(r[0], d) + Outline(r[1..], d);
      assert Outline(ns, d) == NodeOutline(ns[0], d) + Outline(ns[1..], d);
      RenameNodeKeepsShape(ns[0], id, text, d);
      RenameKeepsShape(ns[1..], id, text, d);
      UntextedAppend(NodeOutline(r[0], d), Outline(r[1..], d));
      UntextedAppend(NodeOutline(ns[0], d), Outline(ns[1..], d));
    }
  }

  lemma {:induction false} RenameNodeKeepsShape(n: TreeNode, id: string, text: string, d: nat)
    ensures Untexted(NodeOutline(RenameNode(n, id, text), d)) == Untexted(NodeOutline(n, d))
    decreases n, 1
  {
    var r := RenameNode(n, id, text);
    var hr := [Entry(Head(r), d)];
    var hn := [Entry(Head(n), d)];
    assert Untexted(hr) == Untexted(hn) by {
      assert Head(r).(text := "") == Head(n).(text := "");
    }
    match n.items
    case NoItems =>
      assert r.items == NoItems;
      assert NodeOutline(r, d) == hr && NodeOutline(n, d) == hn;
    case Items(c) =>
      var c2 := if n.id == id then c else Rename(c, id, text);
      assert r.items == Items(c2);
      assert NodeOutline(r, d) == hr + Outline(c2, d + 1);
      assert NodeOutline(n, d) == hn + Outline(c, d + 1);
      if n.id != id {
        RenameKeepsShape(c, id, text, d + 1);
      }
      UntextedAppend(hr, Outline(c2, d + 1));
      UntextedAppend(hn, Outline(c, d + 1));
  }

  /** After a rename of an id that occurs, looking the id up yields a node carrying the new text. */
  lemma RenameFindsNewText(ns: seq<TreeNode>, id: string, text: string)
    requires id in Ids(ns)
    ensures Find(Rename(ns, id, text), id).Some?
    ensures Find(Rename(ns, id, text), id).value.text == text
    decreases ns, 0
  {
    var r := Rename(ns, id, text);
    assert r[0] == RenameNode(ns[0], id, text) && r[1..] == Rename(ns[1..], id, text);
    if ns[0].id == id {
    } else if id in Ids(Children(ns[0])) {
      var c := ns[0].items.nodes;
      RenameFindsNewText(c, id, text);
      assert Children(r[0]) == Rename(c, id, text);
    } else {
      assert id !in NodeIds(ns[0]);
      assert r[0] == ns[0];
      RenameFindsNewText(ns[1..], id, text);
    }
  }

  // ---------------------------------------------------------------- remove

  /**
   `removeTreeNode` rewrites the outline exactly as `Prune` does: the outline
   of the result is the outline of the input with every matching node and its
   whole subtree cut out. Stated with a trailing context `rest` that starts no
   deeper than `d`, which is what the induction needs.
   */
  lemma {:induction false} RemoveOutlineIn(ns: seq<TreeNode>, id: string, d: nat, rest: seq<Entry>)
    requires |rest| == 0 || rest[0].depth <= d
    ensures Prune(Outline(ns, d) + rest, id) == Outline(Remove(ns, id), d) + Prune(rest, id)
    decreases ns, 0
  {
    if |ns| == 0 {
      assert Outline(ns, d) == [];
      SliceEnds(rest);
    } else {
      RemoveOutlineIn(ns[1..], id, d, rest);
      if ns[0].id == id {
        RemoveFirstIn(ns, id, d, rest);
      } else {
        var rest' := Outline(ns[1..], d) + rest;
        assert |rest'| == 0 || rest'[0].depth <= d by {
          OutlineFirst(ns[1..], d);
        }
        RemoveBelowOutlineIn(ns[0], id, d, rest');
        KeepFirstIn(ns, id, d, rest);
      }
    }
  }

  /** `RemoveOutlineIn` when the first node matches: its subtree goes. */
  lemma RemoveFirstIn(ns: seq<TreeNode>, id: string, d: nat, rest: seq<Entry>)
    requires |ns| > 0 && ns[0].id == id
    requires |rest| == 0 || rest[0].depth <= d
    requires Prune(Outline(ns[1..], d) + rest, id) == Outline(Remove(ns[1..], id), d) + Prune(rest, id)
    ensures Prune(Outline(ns, d) + rest, id) == Outline(Remove(ns, id), d) + Prune(rest, id)
  {
    var rest' := Outline(ns[1..], d) + rest;
    OutlineSplit(ns, d);
    assert |rest'| == 0 || rest'[0].depth <= d by {
      OutlineFirst(ns[1..], d);
    }
    RemoveHere(ns[0], id, d, rest');
    assert Remove(ns, id) == Remove(ns[1..], id);
    PruneChain(Outline(ns, d), NodeOutline(ns[0], d), Outline(ns[1..], d), rest, [], Outline(Remove(ns[1..], id), d),
               Outline(Remove(ns, id), d), id);
  }

  /** `RemoveOutlineIn` when the first node does not match: it stays, pruned below. */
  lemma KeepFirstIn(ns: seq<TreeNode>, id: string, d: nat, rest: seq<Entry>)
    requires |ns| > 0 && ns[0].id != id
    requires Prune(Outline(ns[1..], d) + rest, id) == Outline(Remove(ns[1..], id), d) + Prune(rest, id)
    requires Prune(NodeOutline(ns[0], d) + (Outline(ns[1..], d) + rest), id)
             == NodeOutline(RemoveBelow(ns[0], id), d) + Prune(Outline(ns[1..], d) + rest, id)
    ensures Prune(Outline(ns, d) + rest, id) == Outline(Remove(ns, id), d) + Prune(rest, id)
  {
    OutlineSplit(ns, d);
    assert Remove(ns, id) == [RemoveBelow(ns[0], id)] + Remove(ns[1..], id);
    OutlineCons(RemoveBelow(ns[0], id), Remove(ns[1..], id), d);
    PruneChain(Outline(ns, d), NodeOutline(ns[0], d), Outline(ns[1..], d), rest,
               NodeOutline(RemoveBelow(ns[0], id), d), Outline(Remove(ns[1..], id), d), Outline(Remove(ns, id), d), id);
  }

  /** Pruning at a matching node skips its whole subtree and carries on with what follows. */
  lemma RemoveHere(n: TreeNode, id: string, d: nat, rest: seq<Entry>)
    requires n.id == id
    requires |rest| == 0 || rest[0].depth <= d
    ensures Prune(NodeOutline(n, d) + rest, id) == Prune(rest, id)
  {
    var h := Entry(Head(n), d);
    var below := Outline(Children(n), d + 1);
    NodeOutlineSplit(n, d);
    SeqAssoc([h], below, rest);
    OutlineDepths(Children(n), d + 1);
    SkipDeeperPast(below, rest, d);
    PruneDrops(h, below + rest, id);
  }

  lemma {:induction false} RemoveBelowOutlineIn(n: TreeNode, id: string, d: nat, rest: seq<Entry>)
    requires n.id != id
    requires |rest| == 0 || rest[0].depth <= d
    ensures Prune(NodeOutline(n, d) + rest, id) == NodeOutline(RemoveBelow(n, id), d) + Prune(rest, id)
    decreases n, 1
  {
    var r := RemoveBelow(n, id);
    var below := NodeOutline(n, d)[1..];
    var below' := NodeOutline(r, d)[1..];
    assert Prune(below + rest, id) == below' + Prune(rest, id) by {
      match n.items
      case NoItems =>
        assert r == n && below == [] && below' == [];
        SliceEnds(rest);
        SliceEnds(Prune(rest, id));
      case Items(c) =>
        assert below == Outline(c, d + 1);
        assert r.items == Items(Remove(c, id));
        assert below' == Outline(Remove(c, id), d + 1);
        RemoveOutlineIn(c, id, d + 1, rest);
    }
    RemoveBelowAssemble(n, id, d, rest);
  }

  /** The head line of a non-matching node is kept; the rest follows from pruning below it. */
  lemma RemoveBelowAssemble(n: TreeNode, id: string, d: nat, rest: seq<Entry>)
    requires n.id != id
    requires Prune(NodeOutline(n, d)[1..] + rest, id) == NodeOutline(RemoveBelow(n, id), d)[1..] + Prune(rest, id)
    ensures Prune(NodeOutline(n, d) + rest, id) == NodeOutline(RemoveBelow(n, id), d) + Prune(rest, id)
  {
    var h := Entry(Head(n), d);
    var r := RemoveBelow(n, id);
    assert NodeOutline(n, d) == [h] + NodeOutline(n, d)[1..] && NodeOutline(r, d) == [h] + NodeOutline(r, d)[1..] by {
      assert Head(r) == Head(n);
    }
    PruneKeeps(h, NodeOutline(n, d)[1..], NodeOutline(r, d)[1..], rest, id);
  }

  /** The outline of `removeTreeNode(ns, id)` is `Prune` of the outline of `ns`. */
  lemma RemoveOutline(ns: seq<TreeNode>, id: string, d: nat)
    ensures Outline(Remove(ns, id), d) == Prune(Outline(ns, d), id)
  {
    RemoveOutlineIn(ns, id, d, []);
    SliceEnds(Outline(ns, d));
    SliceEnds(Outline(Remove(ns, id), d));
  }

  /**
   After `removeTreeNode(ns, id)`: looking up `id` fails, and the surviving
   nodes are nodes of the input, keeping their fields and relative pre-order.
   */
  lemma RemoveLaws(ns: seq<TreeNode>, id: string, d: nat)
    ensures Find(Remove(ns, id), id).None?
    ensures forall e :: e in Outline(Remove(ns, id), d) ==> e in Outline(ns, d) && e.node.id != id
    ensures Subsequence(Outline(Remove(ns, id), d), Outline(ns, d))
  {
    RemoveOutline(ns, id, d);
    PruneMembers(Outline(ns, d), id);
    PruneIsSubsequence(Outline(ns, d), id);
  }

}
