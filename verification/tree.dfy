/**
 The client-side tree index: immutable functions over a forest of tree nodes
 (find, update, add-child, insert-before/after, remove, rename) and the
 fractional sort key given to a node appended under a parent.

 Every traversal is written as a pair of mutually recursive functions, one
 over a sibling list and one over the children of a single node, so that
 termination follows from the structure of the datatype.
 */
module TreeUtils {
  import opened Base

  /** A node's optional child list: absent (`items` undefined) or present, possibly empty. */
  datatype Items = NoItems | Items(nodes: seq<TreeNode>)

  /**
   A node of the document tree. `isTop` is false when the field is absent;
   `sort` is the fractional ordering key.
   */
  datatype TreeNode = TreeNode(
    id: string,
    text: string,
    items: Items,
    link: Option<string>,
    isTop: bool,
    collapsed: Option<string>,
    linkTxt: Option<string>,
    folderId: string,
    noteId: Option<string>,
    parentId: Option<string>,
    sort: real)

  /** `node.items || []`. */
  function Children(n: TreeNode): seq<TreeNode> {
    match n.items
    case NoItems => []
    case Items(c) => c
  }

  /** The ids of a forest in pre-order (a node before its children, siblings left to right). */
  ghost function Ids(ns: seq<TreeNode>): seq<string>
    decreases ns, 0
  {
    if |ns| == 0 then [] else NodeIds(ns[0]) + Ids(ns[1..])
  }

  /** The ids of a node and all of its descendants, in pre-order. */
  ghost function NodeIds(n: TreeNode): seq<string>
    decreases n, 1
  {
    [n.id] + match n.items
      case NoItems => []
      case Items(c) => Ids(c)
  }

  /** Two nodes agree on every field but `items`, and have child lists of the same kind and length. */
  ghost predicate SameExceptItems(a: TreeNode, b: TreeNode) {
    && a.(items := b.items) == b
    && (a.items.Items? <==> b.items.Items?)
    && |Children(a)| == |Children(b)|
  }

  // ---------------------------------------------------------------- find

  /** `findTreeNode`: depth-first search; the first node with the id in pre-order. */
  function Find(ns: seq<TreeNode>, id: string): (r: Option<TreeNode>)
    ensures r.None? <==> id !in Ids(ns)
    ensures r.Some? ==> r.value.id == id && r.value.id in Ids(ns)
    decreases ns, 0
  {
    if |ns| == 0 then None
    else if ns[0].id == id then Some(ns[0])
    else match FindBelow(ns[0], id)
      case Some(n) => Some(n)
      case None => Find(ns[1..], id)
  }

  /** Searches the descendants of `n` (not `n` itself). */
  function FindBelow(n: TreeNode, id: string): (r: Option<TreeNode>)
    ensures r.None? <==> id !in Ids(Children(n))
    ensures r.Some? ==> r.value.id == id
    decreases n, 1
  {
    match n.items
    case NoItems => None
    case Items(c) => Find(c, id)
  }

  // ---------------------------------------------------------------- update

  /**
   `updateTreeNode`: every node whose id matches is replaced by `f` of it and
   its subtree is not searched further; every other node keeps its fields and
   its children are updated in turn.
   */
  function Update(ns: seq<TreeNode>, id: string, f: TreeNode -> TreeNode): (r: seq<TreeNode>)
    ensures |r| == |ns|
    ensures forall i :: 0 <= i < |ns| && ns[i].id == id ==> r[i] == f(ns[i])
    ensures forall i :: 0 <= i < |ns| && ns[i].id != id ==> SameExceptItems(r[i], ns[i])
    ensures id !in Ids(ns) ==> r == ns
    decreases ns, 0
  {
    if |ns| == 0 then [] else [UpdateNode(ns[0], id, f)] + Update(ns[1..], id, f)
  }

  function UpdateNode(n: TreeNode, id: string, f: TreeNode -> TreeNode): (r: TreeNode)
    ensures n.id == id ==> r == f(n)
    ensures n.id != id ==> SameExceptItems(r, n)
    ensures id !in NodeIds(n) ==> r == n
    decreases n, 1
  {
    if n.id == id then f(n)
    else match n.items
      case NoItems => n
      case Items(c) => n.(items := Items(Update(c, id, f)))
  }

  // ---------------------------------------------------------------- add child

  /** `n` with `x` appended as its last child, creating the child list if absent. */
  function AppendChild(n: TreeNode, x: TreeNode): TreeNode {
    n.(items := Items(Children(n) + [x]))
  }

  /**
   `addChildNode`: every node whose id is `parentId` gets `x` as its last child
   (its subtree is not searched further); when `parentId` is nowhere in the
   forest the result equals the input.
   */
  function AddChild(ns: seq<TreeNode>, parentId: string, x: TreeNode): (r: seq<TreeNode>)
    ensures |r| == |ns|
    ensures forall i :: 0 <= i < |ns| && ns[i].id == parentId ==>
      r[i].(items := ns[i].items) == ns[i] && r[i].items == Items(Children(ns[i]) + [x])
    ensures forall i :: 0 <= i < |ns| && ns[i].id != parentId ==> SameExceptItems(r[i], ns[i])
    ensures parentId !in Ids(ns) ==> r == ns
    decreases ns, 0
  {
    if |ns| == 0 then [] else [AddChildUnder(ns[0], parentId, x)] + AddChild(ns[1..], parentId, x)
  }

  function AddChildUnder(n: TreeNode, parentId: string, x: TreeNode): (r: TreeNode)
    ensures n.id == parentId ==> r.(items := n.items) == n && r.items == Items(Children(n) + [x])
    ensures n.id != parentId ==> SameExceptItems(r, n)
    ensures parentId !in NodeIds(n) ==> r == n
    decreases n, 1
  {
    if n.id == parentId then AppendChild(n, x)
    else match n.items
      case NoItems => n
      case Items(c) => n.(items := Items(AddChild(c, parentId, x)))
  }

  // ---------------------------------------------------------------- insert before / after

  /**
   Splices `x` into the sibling list that holds the first node (in pre-order)
   whose id is `ref`: just before it, or just after it when `after` holds.
   `None` means the reference was not found, which the source detects by
   comparing array identities.
   */
  function Splice(ns: seq<TreeNode>, ref: string, x: TreeNode, after: bool): (r: Option<seq<TreeNode>>)
    ensures r.None? <==> ref !in Ids(ns)
    ensures r.Some? ==> |Ids(r.value)| == |Ids(ns)| + |NodeIds(x)|
    decreases ns, 0
  {
    if |ns| == 0 then None
    else if ns[0].id == ref then
      if after then Some([ns[0], x] + ns[1..]) else Some([x] + ns)
    else match SpliceBelow(ns[0], ref, x, after)
      case Some(h) => Some([h] + ns[1..])
      case None =>
        match Splice(ns[1..], ref, x, after)
        case Some(t) => Some([ns[0]] + t)
        case None => None
  }

  function SpliceBelow(n: TreeNode, ref: string, x: TreeNode, after: bool): (r: Option<TreeNode>)
    ensures r.None? <==> ref !in Ids(Children(n))
    ensures r.Some? ==> r.value.(items := n.items) == n && r.value.items.Items?
    ensures r.Some? ==> |NodeIds(r.value)| == |NodeIds(n)| + |NodeIds(x)|
    decreases n, 1
  {
    match n.items
    case NoItems => None
    case Items(c) =>
      match Splice(c, ref, x, after)
      case Some(c') => Some(n.(items := Items(c')))
      case None => None
  }

  /**
   `insertBeforeNode`: `x` goes just before the first pre-order occurrence of
   `ref`, in that node's sibling list; the forest is returned unchanged when
   `ref` does not occur.
   */
  function InsertBefore(ns: seq<TreeNode>, ref: string, x: TreeNode): (r: seq<TreeNode>)
    ensures ref !in Ids(ns) ==> r == ns
    ensures ref in Ids(ns) ==> |Ids(r)| == |Ids(ns)| + |NodeIds(x)|
  {
    Splice(ns, ref, x, false).GetOr(ns)
  }

  /** `insertAfterNode`: as `InsertBefore`, but `x` goes just after the reference. */
  function InsertAfter(ns: seq<TreeNode>, ref: string, x: TreeNode): (r: seq<TreeNode>)
    ensures ref !in Ids(ns) ==> r == ns
    ensures ref in Ids(ns) ==> |Ids(r)| == |Ids(ns)| + |NodeIds(x)|
  {
    Splice(ns, ref, x, true).GetOr(ns)
  }

  /**
   `addSiblingNode`, whose body is the same loop as `insertAfterNode`: `x` goes
   just after the first pre-order occurrence of `ref`.
   */
  function AddSibling(ns: seq<TreeNode>, ref: string, x: TreeNode): (r: seq<TreeNode>)
    ensures ref !in Ids(ns) ==> r == ns
    ensures ref in Ids(ns) ==> |Ids(r)| == |Ids(ns)| + |NodeIds(x)|
  {
    Splice(ns, ref, x, true).GetOr(ns)
  }

  // ---------------------------------------------------------------- remove

  /**
   `removeTreeNode`: drops every node whose id matches, together with its
   subtree, at every depth; the other nodes keep their order.
   */
  function Remove(ns: seq<TreeNode>, id: string): (r: seq<TreeNode>)
    ensures id !in Ids(r)
    ensures |r| <= |ns| && |Ids(r)| <= |Ids(ns)|
    ensures id !in Ids(ns) ==> r == ns
    decreases ns, 0
  {
    if |ns| == 0 then []
    else if ns[0].id == id then Remove(ns[1..], id)
    else [RemoveBelow(ns[0], id)] + Remove(ns[1..], id)
  }

  function RemoveBelow(n: TreeNode, id: string): (r: TreeNode)
    requires n.id != id
    ensures r.(items := n.items) == n && (r.items.Items? <==> n.items.Items?)
    ensures id !in NodeIds(r)
    ensures |NodeIds(r)| <= |NodeIds(n)|
    ensures id !in NodeIds(n) ==> r == n
    decreases n, 1
  {
    match n.items
    case NoItems => n
    case Items(c) => n.(items := Items(Remove(c, id)))
  }

  // ---------------------------------------------------------------- rename

  /**
   `renameTreeNode`: every node whose id matches gets the new text (its subtree
   is not searched further); nothing else changes.
   */
  function Rename(ns: seq<TreeNode>, id: string, text: string): (r: seq<TreeNode>)
    ensures |r| == |ns|
    ensures forall i :: 0 <= i < |ns| && ns[i].id == id ==> r[i] == ns[i].(text := text)
    ensures forall i :: 0 <= i < |ns| && ns[i].id != id ==> SameExceptItems(r[i], ns[i])
    ensures id !in Ids(ns) ==> r == ns
    decreases ns, 0
  {
    if |ns| == 0 then [] else [RenameNode(ns[0], id, text)] + Rename(ns[1..], id, text)
  }

  function RenameNode(n: TreeNode, id: string, text: string): (r: TreeNode)
    ensures n.id == id ==> r == n.(text := text)
    ensures n.id != id ==> SameExceptItems(r, n)
    ensures id !in NodeIds(n) ==> r == n
    decreases n, 1
  {
    if n.id == id then n.(text := text)
    else match n.items
      case NoItems => n
      case Items(c) => n.(items := Items(Rename(c, id, text)))
  }

  // ---------------------------------------------------------------- sort key

  /** The step added to the last child's key when a child is appended. */
  const ChildSortStep: real := 0.0001

  /**
   `calculateSortValue`: the key for a node appended as the last child of `n`,
   one step above the last child's key, or above `n`'s own key when `n` has no
   children.
   */
  function CalculateSortValue(n: TreeNode): (r: real)
    ensures |Children(n)| > 0 ==> r > Children(n)[|Children(n)| - 1].sort
    ensures |Children(n)| == 0 ==> r > n.sort
  {
    var c := Children(n);
    if |c| > 0 then c[|c| - 1].sort + ChildSortStep else n.sort + ChildSortStep
  }
}
