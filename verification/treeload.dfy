/**
 Loading the read-only tree view. The server answers with its sidebar: one
 array of tree nodes per group. The view marks the first node of each group
 as a top node, shows the groups one after another, and expands every node
 whose `collapsed` field is the string `"false"`. Any failure leaves the
 shown tree as it was and shows an error text instead. The HTTP exchange is
 an input.
 */
module TreeLoad {
  import opened Base
  import opened TreeUtils
  import opened Outlines

  // ---------------------------------------------------------------- expanded ids

  /** The `collapsed` value that marks an expanded node. */
  const Expanded: string := "false"

  /** `collectExpanded`: the ids of the expanded nodes, a node before its descendants. */
  function CollectExpanded(ns: seq<TreeNode>): (r: seq<string>)
    ensures |r| <= |Ids(ns)|
    decreases ns, 0
  {
    if |ns| == 0 then [] else CollectExpandedNode(ns[0]) + CollectExpanded(ns[1..])
  }

  function CollectExpandedNode(n: TreeNode): (r: seq<string>)
    ensures |r| <= |NodeIds(n)|
    decreases n, 1
  {
    (if n.collapsed == Some(Expanded) then [n.id] else [])
    + match n.items
      case NoItems => []
      case Items(c) => CollectExpanded(c)
  }

  /** The reference: the ids of the expanded lines of an outline, in order. */
  function ExpandedOf(o: seq<Entry>): (r: seq<string>)
    ensures |r| <= |o|
    ensures forall id :: id in r <==> exists k :: 0 <= k < |o| && o[k].node.id == id && o[k].node.collapsed == Some(Expanded)
  {
    if |o| == 0 then []
    else
      var rest := ExpandedOf(o[1..]);
      assert forall k :: 0 <= k < |o| - 1 ==> o[1..][k] == o[k + 1];
      (if o[0].node.collapsed == Some(Expanded) then [o[0].node.id] else []) + rest
  }

  lemma ExpandedOfCons(e: Entry, rest: seq<Entry>)
    ensures ExpandedOf([e] + rest) == (if e.node.collapsed == Some(Expanded) then [e.node.id] else []) + ExpandedOf(rest)
  {
    assert ([e] + rest)[1..] == rest;
  }

  lemma {:induction false} ExpandedOfAppend(a: seq<Entry>, b: seq<Entry>)
    ensures ExpandedOf(a + b) == ExpandedOf(a) + ExpandedOf(b)
    decreases |a|
  {
    if |a| == 0 {
      assert a + b == b;
    } else {
      assert a == [a[0]] + a[1..];
      assert a + b == [a[0]] + (a[1..] + b);
      ExpandedOfCons(a[0], a[1..] + b);
      ExpandedOfCons(a[0], a[1..]);
      ExpandedOfAppend(a[1..], b);
    }
  }

  /** `collectExpanded` lists exactly the expanded lines of the outline, in pre-order. */
  lemma {:induction false} CollectExpandedOutline(ns: seq<TreeNode>, d: nat)
    ensures CollectExpanded(ns) == ExpandedOf(Outline(ns, d))
    decreases ns, 0
  {
    if |ns| > 0 {
      OutlineSplit(ns, d);
      ExpandedOfAppend(NodeOutline(ns[0], d), Outline(ns[1..], d));
      CollectExpandedNodeOutline(ns[0], d);
      CollectExpandedOutline(ns[1..], d);
    }
  }

  lemma {:induction false} CollectExpandedNodeOutline(n: TreeNode, d: nat)
    ensures CollectExpandedNode(n) == ExpandedOf(NodeOutline(n, d))
    decreases n, 1
  {
    NodeOutlineSplit(n, d);
    ExpandedOfCons(Entry(Head(n), d), Outline(Children(n), d + 1));
    match n.items
    case NoItems =>
      assert Outline(Children(n), d + 1) == [];
    case Items(c) =>
      CollectExpandedOutline(c, d + 1);
  }

  // ---------------------------------------------------------------- merging the groups

  /** No group of the answer is empty. */
  predicate NoEmptyGroup(gs: seq<seq<TreeNode>>) {
    forall k :: 0 <= k < |gs| ==> |gs[k]| > 0
  }

  /** The groups one after another, as sent. */
  function Concat(gs: seq<seq<TreeNode>>): seq<TreeNode> {
    if |gs| == 0 then [] else gs[0] + Concat(gs[1..])
  }

  /** A group with its first node marked as a top node. */
  function MarkTop(g: seq<TreeNode>): (r: seq<TreeNode>)
    requires |g| > 0
    ensures |r| == |g| && r[0] == g[0].(isTop := true) && r[1..] == g[1..]
  {
    [g[0].(isTop := true)] + g[1..]
  }

  /** The published tree: every group, its first node marked, one after another. */
  function Merge(gs: seq<seq<TreeNode>>): (r: seq<TreeNode>)
    requires NoEmptyGroup(gs)
    ensures |r| == |Concat(gs)|
  {
    if |gs| == 0 then [] else MarkTop(gs[0]) + Merge(gs[1..])
  }

  /** The positions, counted from `off`, at which the groups start. */
  function GroupStarts(gs: seq<seq<TreeNode>>, off: nat): (r: set<nat>)
    ensures forall s :: s in r ==> s >= off
  {
    if |gs| == 0 then {} else {off} + GroupStarts(gs[1..], off + |gs[0]|)
  }

  /** `n`, marked as a top node when `top` holds. */
  function MarkIf(n: TreeNode, top: bool): TreeNode {
    n.(isTop := n.isTop || top)
  }

  lemma NoEmptyTail(gs: seq<seq<TreeNode>>)
    requires NoEmptyGroup(gs) && |gs| > 0
    ensures |gs[0]| > 0 && NoEmptyGroup(gs[1..])
  {
    assert forall k :: 0 <= k < |gs| - 1 ==> gs[1..][k] == gs[k + 1];
  }

  /**
   The merged tree is the concatenation of the groups in which the node at
   each group's start is marked top and no other node's `isTop` changes.
   */
  lemma {:induction false} MergeMarksStarts(gs: seq<seq<TreeNode>>, off: nat, i: nat)
    requires NoEmptyGroup(gs) && i < |Concat(gs)|
    ensures Merge(gs)[i] == MarkIf(Concat(gs)[i], off + i in GroupStarts(gs, off))
  {
    var g := gs[0];
    NoEmptyTail(gs);
    var m := MarkTop(g);
    assert Merge(gs) == m + Merge(gs[1..]);
    assert Concat(gs) == g + Concat(gs[1..]);
    if i < |g| {
      assert Merge(gs)[i] == m[i] && Concat(gs)[i] == g[i];
      if i > 0 {
        assert m[i] == m[1..][i - 1] == g[1..][i - 1] == g[i];
        assert off + i !in GroupStarts(gs[1..], off + |g|);
      }
    } else {
      var j := i - |g|;
      assert Merge(gs)[i] == Merge(gs[1..])[j] && Concat(gs)[i] == Concat(gs[1..])[j];
      MergeMarksStarts(gs[1..], off + |g|, j);
    }
  }

  /** Every group start holds a top node after the merge. */
  lemma MergeTopsAtStarts(gs: seq<seq<TreeNode>>, i: nat)
    requires NoEmptyGroup(gs) && i < |Concat(gs)| && i in GroupStarts(gs, 0)
    ensures Merge(gs)[i].isTop
    ensures Merge(gs)[i].(isTop := Concat(gs)[i].isTop) == Concat(gs)[i]
  {
    MergeMarksStarts(gs, 0, i);
  }

  /** The expanded ids of the merged tree are the expanded lines of the groups' outline, group by group. */
  lemma MergeExpanded(gs: seq<seq<TreeNode>>)
    requires NoEmptyGroup(gs)
    ensures CollectExpanded(Merge(gs)) == ExpandedOf(Outline(Concat(gs), 0))
  {
    MergeSameExpanded(gs);
    CollectExpandedOutline(Concat(gs), 0);
  }

  /** Marking top nodes does not change which ids are expanded. */
  lemma {:induction false} MergeSameExpanded(gs: seq<seq<TreeNode>>)
    requires NoEmptyGroup(gs)
    ensures CollectExpanded(Merge(gs)) == CollectExpanded(Concat(gs))
  {
    if |gs| > 0 {
      var g := gs[0];
      var rest := gs[1..];
      NoEmptyTail(gs);
      MergeSameExpanded(rest);
      CollectExpandedAppend(MarkTop(g), Merge(rest));
      CollectExpandedAppend(g, Concat(rest));
      assert CollectExpanded(MarkTop(g)) == CollectExpanded(g) by {
        assert MarkTop(g)[1..] == g[1..];
      }
    }
  }

  lemma {:induction false} CollectExpandedAppend(a: seq<TreeNode>, b: seq<TreeNode>)
    ensures CollectExpanded(a + b) == CollectExpanded(a) + CollectExpanded(b)
    decreases |a|
  {
    if |a| == 0 {
      assert a + b == b;
    } else {
      assert (a + b)[0] == a[0] && (a + b)[1..] == a[1..] + b;
      CollectExpandedAppend(a[1..], b);
    }
  }

  // ---------------------------------------------------------------- the load

  /** What the view shows: the tree, the expanded ids, the spinner and the error text. */
  datatype View = View(tree: seq<TreeNode>, expanded: seq<string>, loading: bool, error: Option<string>)

  /**
   How the request for the sidebar ends: a non-OK HTTP status, a decoded body
   (its `code` and `message` may be missing), or something thrown on the way,
   which may or may not be an `Error` with a message.
   */
  datatype Response =
    | HttpFailure(status: nat)
    | Body(code: Option<int>, data: seq<seq<TreeNode>>, message: Option<string>)
    | Raised(isError: bool, error: string)

  const ReplyFailed: string := "接口返回失败"
  const LoadFailed: string := "获取数据失败"

  /** The decimal digits of `n`, as a template literal prints a number: no leading zero. */
  function NatText(n: nat): (s: string)
    ensures |s| > 0 && forall k :: 0 <= k < |s| ==> '0' <= s[k] <= '9'
    ensures |s| > 1 ==> s[0] != '0'
  {
    var digit := ['0' + ((n % 10) as char)];
    if n < 10 then digit else NatText(n / 10) + digit
  }

  /** The number a run of decimal digits stands for, most significant digit first. */
  function DigitsValue(s: string): int
    decreases |s|
  {
    if |s| == 0 then 0 else DigitsValue(s[..|s| - 1]) * 10 + (s[|s| - 1] as int - '0' as int)
  }

  /** The status text reads back as the status: `NatText` is the decimal numeral of `n`. */
  lemma {:induction false} NatTextValue(n: nat)
    ensures DigitsValue(NatText(n)) == n
    decreases n
  {
    if n >= 10 {
      NatTextValue(n / 10);
      assert NatText(n)[..|NatText(n)| - 1] == NatText(n / 10);
    }
  }

  /** The message of the error thrown for a non-OK HTTP status. */
  function HttpErrorText(status: nat): string {
    "HTTP error! status: " + NatText(status)
  }

  /** The load succeeds: code 200 and every group has a first node. */
  predicate Loads(resp: Response) {
    resp.Body? && resp.code == Some(200) && NoEmptyGroup(resp.data)
  }

  /**
   `fetchTreeData`. On success the merged groups and their expanded ids are
   shown and the error cleared. Otherwise the previous tree and expanded ids
   stay and the error text is the thrown error's message: the status text,
   the server's message or a fixed text, or `emptyGroupError`, the engine's
   message for writing to the missing first node of an empty group. The
   spinner stops either way.
   */
  function Load(prev: View, resp: Response, emptyGroupError: string): (v: View)
    ensures !v.loading
    ensures v.error.None? <==> Loads(resp)
    ensures Loads(resp) ==> v.tree == Merge(resp.data) && v.expanded == CollectExpanded(v.tree)
    ensures !Loads(resp) ==> v.tree == prev.tree && v.expanded == prev.expanded
    ensures resp.HttpFailure? ==> v.error == Some(HttpErrorText(resp.status))
    ensures resp.Body? && resp.code != Some(200) ==> v.error == Some(OrElse(resp.message, ReplyFailed))
    ensures resp.Body? && resp.code == Some(200) && !NoEmptyGroup(resp.data) ==> v.error == Some(emptyGroupError)
    ensures resp.Raised? ==> v.error == Some(if resp.isError then resp.error else LoadFailed)
  {
    match resp
    case HttpFailure(status) => prev.(loading := false, error := Some(HttpErrorText(status)))
    case Raised(isError, error) => prev.(loading := false, error := Some(if isError then error else LoadFailed))
    case Body(code, data, message) =>
      if code != Some(200) then prev.(loading := false, error := Some(OrElse(message, ReplyFailed)))
      else if !NoEmptyGroup(data) then prev.(loading := false, error := Some(emptyGroupError))
      else
        var tree := Merge(data);
        View(tree, CollectExpanded(tree), false, None)
  }

  /**
   After a successful load, the shown tree is the groups one after another
   with exactly the group starts marked top, and the expanded ids are exactly
   the expanded nodes at any depth, in pre-order.
   */
  lemma LoadShows(prev: View, resp: Response, emptyGroupError: string)
    requires Loads(resp)
    ensures |Load(prev, resp, emptyGroupError).tree| == |Concat(resp.data)|
    ensures forall i :: 0 <= i < |Concat(resp.data)| ==>
      Load(prev, resp, emptyGroupError).tree[i] == MarkIf(Concat(resp.data)[i], i in GroupStarts(resp.data, 0))
    ensures Load(prev, resp, emptyGroupError).expanded == ExpandedOf(Outline(Concat(resp.data), 0))
  {
    forall i | 0 <= i < |Concat(resp.data)|
      ensures Merge(resp.data)[i] == MarkIf(Concat(resp.data)[i], i in GroupStarts(resp.data, 0))
    {
      MergeMarksStarts(resp.data, 0, i);
    }
    MergeExpanded(resp.data);
  }
}
