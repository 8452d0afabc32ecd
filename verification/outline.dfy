/**
 The pre-order outline of a forest of tree nodes: the sequence of its nodes,
 children erased, each paired with its depth. A forest is determined by its
 outline, so the tree operations are described by how they rewrite it. This
 module holds the outline, searching it, and the three rewrites the
 operations perform (replacing a subtree, splicing a subtree next to another,
 pruning the subtrees of an id), each with its laws for concatenations.
 */
module Outlines {
  import opened TreeUtils


  /** A node with its children erased; only whether it has a child list is kept. */
  function Head(n: TreeNode): TreeNode {
    n.(items := if n.items.Items? then Items([]) else NoItems)
  }

  /** One line of the outline: a node head at a depth. */
  datatype Entry = Entry(node: TreeNode, depth: nat)

  /** The pre-order outline of a sibling list whose members sit at depth `d`. */
  ghost function Outline(ns: seq<TreeNode>, d: nat): seq<Entry>
    decreases ns, 0
  {
    if |ns| == 0 then [] else NodeOutline(ns[0], d) + Outline(ns[1..], d)
  }

  /** The outline of one node at depth `d` followed by its descendants. */
  ghost function NodeOutline(n: TreeNode, d: nat): seq<Entry>
    decreases n, 1
  {
    [Entry(Head(n), d)] + match n.items
      case NoItems => []
      case Items(c) => Outline(c, d + 1)
  }

  /** The ids along an outline. */
  function IdsOf(o: seq<Entry>): (r: seq<string>)
    ensures |r| == |o| && forall k :: 0 <= k < |o| ==> r[k] == o[k].node.id
  {
    seq(|o|, k requires 0 <= k < |o| => o[k].node.id)
  }

  /** The position of the first entry with the id, or `|o|` when there is none. */
  function IndexOf(o: seq<Entry>, id: string): (k: nat)
    ensures k <= |o|
    ensures k < |o| ==> o[k].node.id == id
    ensures forall j :: 0 <= j < k ==> o[j].node.id != id
  {
    if |o| == 0 then 0
    else if o[0].node.id == id then 0
    else 1 + IndexOf(o[1..], id)
  }

  // ---------------------------------------------------------------- outline basics

  lemma IdsOfAppend(a: seq<Entry>, b: seq<Entry>)
    ensures IdsOf(a + b) == IdsOf(a) + IdsOf(b)
  {
  }

  lemma IndexOfAppend(a: seq<Entry>, b: seq<Entry>, id: string)
    ensures IndexOf(a + b, id) == if IndexOf(a, id) < |a| then IndexOf(a, id) else |a| + IndexOf(b, id)
    decreases |a|
  {
    if |a| == 0 {
      assert a + b == b;
    } else {
      assert (a + b)[0] == a[0];
      assert (a + b)[1..] == a[1..] + b;
      if a[0].node.id != id {
        IndexOfAppend(a[1..], b, id);
      }
    }
  }

  /** An id occurs in an outline exactly when `IndexOf` finds it. */
  lemma IndexOfFinds(o: seq<Entry>, id: string)
    ensures IndexOf(o, id) < |o| <==> id in IdsOf(o)
  {
    if id in IdsOf(o) {
      var j :| 0 <= j < |o| && IdsOf(o)[j] == id;
      assert o[j].node.id == id;
    }
  }

  /** The outline lists exactly the ids of the forest, in pre-order, whatever the starting depth. */
  lemma {:induction false} OutlineIds(ns: seq<TreeNode>, d: nat)
    ensures IdsOf(Outline(ns, d)) == Ids(ns)
    decreases ns, 0
  {
    if |ns| > 0 {
      NodeOutlineIds(ns[0], d);
      OutlineIds(ns[1..], d);
      IdsOfAppend(NodeOutline(ns[0], d), Outline(ns[1..], d));
    }
  }

  lemma {:induction false} NodeOutlineIds(n: TreeNode, d: nat)
    ensures IdsOf(NodeOutline(n, d)) == NodeIds(n)
    decreases n, 1
  {
    match n.items
    case NoItems =>
    case Items(c) =>
      OutlineIds(c, d + 1);
      IdsOfAppend([Entry(Head(n), d)], Outline(c, d + 1));
  }

  lemma OutlineAppend(a: seq<TreeNode>, b: seq<TreeNode>, d: nat)
    ensures Outline(a + b, d) == Outline(a, d) + Outline(b, d)
    decreases |a|
  {
    if |a| > 0 {
      assert (a + b)[0] == a[0];
      assert (a + b)[1..] == a[1..] + b;
      OutlineAppend(a[1..], b, d);
    } else {
      assert a + b == b;
    }
  }

  lemma OutlineSingle(n: TreeNode, d: nat)
    ensures Outline([n], d) == NodeOutline(n, d)
  {
    assert [n][1..] == [];
  }

  /** Every entry of an outline taken at depth `d` lies at depth `d` or deeper. */
  lemma {:induction false} OutlineDepths(ns: seq<TreeNode>, d: nat)
    ensures forall e :: e in Outline(ns, d) ==> e.depth >= d
    decreases ns, 0
  {
    if |ns| > 0 {
      NodeOutlineDepths(ns[0], d);
      OutlineDepths(ns[1..], d);
    }
  }

  lemma {:induction false} NodeOutlineDepths(n: TreeNode, d: nat)
    ensures forall e :: e in NodeOutline(n, d) ==> e.depth >= d
    decreases n, 1
  {
    match n.items
    case NoItems =>
    case Items(c) => OutlineDepths(c, d + 1);
  }

  /** A non-empty sibling list's outline starts with a line at the list's depth. */
  lemma OutlineFirst(ns: seq<TreeNode>, d: nat)
    ensures |ns| > 0 <==> |Outline(ns, d)| > 0
    ensures |ns| > 0 ==> Outline(ns, d)[0] == Entry(Head(ns[0]), d)
  {
    if |ns| > 0 {
      assert Outline(ns, d) == [Entry(Head(ns[0]), d)] + (NodeOutline(ns[0], d)[1..] + Outline(ns[1..], d));
    }
  }

  // ---------------------------------------------------------------- one traversal step

  lemma OutlineCons(a: TreeNode, rest: seq<TreeNode>, d: nat)
    ensures Outline([a] + rest, d) == NodeOutline(a, d) + Outline(rest, d)
  {
    assert ([a] + rest)[0] == a && ([a] + rest)[1..] == rest;
  }

  lemma OutlineSplit(ns: seq<TreeNode>, d: nat)
    requires |ns| > 0
    ensures Outline(ns, d) == NodeOutline(ns[0], d) + Outline(ns[1..], d)
  {
  }

  /** A node's outline: its own line, then its children's outline one level down. */
  lemma NodeOutlineSplit(n: TreeNode, d: nat)
    ensures NodeOutline(n, d) == [Entry(Head(n), d)] + Outline(Children(n), d + 1)
  {
    match n.items
    case NoItems => assert Outline([], d + 1) == [];
    case Items(c) =>
  }

  /** Searching past a part that does not hold the id. */
  lemma IndexOfPast(p: seq<Entry>, t: seq<Entry>, id: string)
    requires id !in IdsOf(p)
    ensures IndexOf(p + t, id) == |p| + IndexOf(t, id)
  {
    IndexOfFinds(p, id);
    IndexOfAppend(p, t, id);
  }

  /** Searching a part that holds the id. */
  lemma IndexOfWithin(p: seq<Entry>, t: seq<Entry>, id: string)
    requires IndexOf(p, id) < |p|
    ensures IndexOf(p + t, id) == IndexOf(p, id)
  {
    IndexOfAppend(p, t, id);
  }

  /** The id is not at the head line of a node that does not carry it. */
  lemma IndexOfBelowHead(n: TreeNode, id: string, d: nat)
    requires n.id != id
    ensures IndexOf(NodeOutline(n, d), id) == 1 + IndexOf(Outline(Children(n), d + 1), id)
  {
    NodeOutlineSplit(n, d);
    IndexOfPast([Entry(Head(n), d)], Outline(Children(n), d + 1), id);
  }

  // ---------------------------------------------------------------- subtrees

  /** Position `k` of outline `o` starts the outline of `n`'s whole subtree. */
  ghost predicate SubtreeAt(o: seq<Entry>, k: nat, n: TreeNode) {
    && k < |o|
    && k + |NodeOutline(n, o[k].depth)| <= |o|
    && o[k..k + |NodeOutline(n, o[k].depth)|] == NodeOutline(n, o[k].depth)
  }

  /** The position just past the subtree of `n` that starts at position `k`. */
  ghost function SubtreeEnd(o: seq<Entry>, k: nat, n: TreeNode): nat
    requires k < |o|
  {
    k + |NodeOutline(n, o[k].depth)|
  }

  /** Empty slices and concatenations with the empty outline. */
  lemma SliceEnds(s: seq<Entry>)
    ensures s[..0] == [] && s[0..] == s && s[..|s|] == s && s[|s|..] == []
    ensures [] + s == s && s + [] == s
  {
  }

  /** Slicing a concatenation inside its left part. */
  lemma SliceLeft(p: seq<Entry>, t: seq<Entry>, i: nat, j: nat)
    requires i <= j <= |p|
    ensures (p + t)[..i] == p[..i] && (p + t)[i..] == p[i..] + t && (p + t)[i..j] == p[i..j]
  {
  }

  /** Slicing a concatenation inside its right part. */
  lemma SliceRight(p: seq<Entry>, t: seq<Entry>, i: nat, j: nat)
    requires i <= j <= |t|
    ensures (p + t)[..|p| + i] == p + t[..i] && (p + t)[|p| + i..] == t[i..]
    ensures (p + t)[|p| + i..|p| + j] == t[i..j]
  {
  }

  /** Replacing the slice `[i..j]` of the left part of a concatenation. */
  lemma ReplaceInLeft(p: seq<Entry>, t: seq<Entry>, p2: seq<Entry>, i: nat, j: nat, x: seq<Entry>)
    requires i <= j <= |p| && p2 == p[..i] + x + p[j..]
    ensures p2 + t == (p + t)[..i] + x + (p + t)[j..]
  {
    SliceLeft(p, t, i, j);
    SeqAssoc(p[..i] + x, p[j..], t);
  }

  /** Replacing the slice `[i..j]` of the right part of a concatenation. */
  lemma ReplaceInRight(p: seq<Entry>, t: seq<Entry>, t2: seq<Entry>, i: nat, j: nat, x: seq<Entry>)
    requires i <= j <= |t| && t2 == t[..i] + x + t[j..]
    ensures p + t2 == (p + t)[..|p| + i] + x + (p + t)[|p| + j..]
  {
    SliceRight(p, t, i, j);
    SeqAssoc(p, t[..i], x);
    SeqAssoc(p, t[..i] + x, t[j..]);
  }

  /*
   The concatenation laws below name the whole's position `K` and node `N`
   (and replacement `M`) separately from the part's, tied by equations, so
   that a caller can pass the very terms its own goal is stated in.
   */

  /** A subtree found inside the left part of a concatenation is found in the whole. */
  lemma SubtreeInLeft(o: seq<Entry>, p: seq<Entry>, t: seq<Entry>, k: nat, n: TreeNode, K: nat, N: TreeNode)
    requires o == p + t && SubtreeAt(p, k, n) && K == k && N == n
    ensures SubtreeAt(o, K, N)
  {
    SliceLeft(p, t, k, k + |NodeOutline(n, p[k].depth)|);
  }

  /** A subtree found inside the right part of a concatenation is found in the whole, shifted. */
  lemma SubtreeInRight(o: seq<Entry>, p: seq<Entry>, t: seq<Entry>, k: nat, n: TreeNode, K: nat, N: TreeNode)
    requires o == p + t && SubtreeAt(t, k, n) && K == |p| + k && N == n
    ensures SubtreeAt(o, K, N)
  {
    SliceRight(p, t, k, k + |NodeOutline(n, t[k].depth)|);
  }

  /** Every node's outline starts with the node itself. */
  lemma SubtreeAtStart(n: TreeNode, d: nat)
    ensures SubtreeAt(NodeOutline(n, d), 0, n)
  {
    var o := NodeOutline(n, d);
    assert o[0].depth == d;
    assert o[0..|o|] == o;
  }

  // ---------------------------------------------------------------- rewriting a subtree

  /**
   `o2` is `o` with the subtree of `n` at position `k` replaced by the subtree
   of `m`, at the same depth; every other line is unchanged.
   */
  ghost predicate Rewrites(o: seq<Entry>, o2: seq<Entry>, k: nat, n: TreeNode, m: TreeNode) {
    && SubtreeAt(o, k, n)
    && o2 == o[..k] + NodeOutline(m, o[k].depth) + o[SubtreeEnd(o, k, n)..]
  }

  lemma RewritesWhole(n: TreeNode, m: TreeNode, d: nat)
    ensures Rewrites(NodeOutline(n, d), NodeOutline(m, d), 0, n, m)
  {
    var o := NodeOutline(n, d);
    SubtreeAtStart(n, d);
    assert o[..0] == [] && o[|o|..] == [];
  }

  lemma RewritesInLeft(o: seq<Entry>, o2: seq<Entry>, p: seq<Entry>, t: seq<Entry>, p2: seq<Entry>,
                       k: nat, n: TreeNode, m: TreeNode, K: nat, N: TreeNode, M: TreeNode)
    requires o == p + t && o2 == p2 + t && Rewrites(p, p2, k, n, m) && K == k && N == n && M == m
    ensures Rewrites(o, o2, K, N, M)
  {
    SubtreeInLeft(o, p, t, k, n, K, N);
    assert o[K] == p[k];
    ReplaceInLeft(p, t, p2, k, SubtreeEnd(p, k, n), NodeOutline(m, p[k].depth));
  }

  lemma RewritesInRight(o: seq<Entry>, o2: seq<Entry>, p: seq<Entry>, t: seq<Entry>, t2: seq<Entry>,
                        k: nat, n: TreeNode, m: TreeNode, K: nat, N: TreeNode, M: TreeNode)
    requires o == p + t && o2 == p + t2 && Rewrites(t, t2, k, n, m) && K == |p| + k && N == n && M == m
    ensures Rewrites(o, o2, K, N, M)
  {
    SubtreeInRight(o, p, t, k, n, K, N);
    assert o[K] == t[k];
    ReplaceInRight(p, t, t2, k, SubtreeEnd(t, k, n), NodeOutline(m, t[k].depth));
  }

  // ---------------------------------------------------------------- splicing next to a subtree

  /**
   `o2` is `o` with the outline of `x` inserted, at the depth of the subtree of
   `n` found at position `k`: right before that subtree, or right after it when
   `after` holds. Every other line keeps its place.
   */
  ghost predicate SplicedAt(o: seq<Entry>, o2: seq<Entry>, k: nat, n: TreeNode, x: TreeNode, after: bool) {
    && SubtreeAt(o, k, n)
    && o2 == o[..SplicePoint(o, k, n, after)] + NodeOutline(x, o[k].depth) + o[SplicePoint(o, k, n, after)..]
  }

  /** Where the new subtree goes: at the reference's line, or just past its subtree. */
  ghost function SplicePoint(o: seq<Entry>, k: nat, n: TreeNode, after: bool): (at: nat)
    requires SubtreeAt(o, k, n)
    ensures at <= |o|
  {
    if after then SubtreeEnd(o, k, n) else k
  }

  lemma SplicedInLeft(o: seq<Entry>, o2: seq<Entry>, p: seq<Entry>, t: seq<Entry>, p2: seq<Entry>,
                      k: nat, n: TreeNode, x: TreeNode, after: bool, K: nat, N: TreeNode)
    requires o == p + t && o2 == p2 + t && SplicedAt(p, p2, k, n, x, after) && K == k && N == n
    ensures SplicedAt(o, o2, K, N, x, after)
  {
    SubtreeInLeft(o, p, t, k, n, K, N);
    assert o[K] == p[k];
    var at := SplicePoint(p, k, n, after);
    assert SplicePoint(o, K, N, after) == at;
    ReplaceInLeft(p, t, p2, at, at, NodeOutline(x, p[k].depth));
  }

  lemma SplicedInRight(o: seq<Entry>, o2: seq<Entry>, p: seq<Entry>, t: seq<Entry>, t2: seq<Entry>,
                       k: nat, n: TreeNode, x: TreeNode, after: bool, K: nat, N: TreeNode)
    requires o == p + t && o2 == p + t2 && SplicedAt(t, t2, k, n, x, after) && K == |p| + k && N == n
    ensures SplicedAt(o, o2, K, N, x, after)
  {
    SubtreeInRight(o, p, t, k, n, K, N);
    assert o[K] == t[k];
    var at := SplicePoint(t, k, n, after);
    assert SplicePoint(o, K, N, after) == |p| + at;
    ReplaceInRight(p, t, t2, at, at, NodeOutline(x, t[k].depth));
  }

  /** Splicing next to the first subtree of an outline. */
  lemma SplicedHere(o: seq<Entry>, o2: seq<Entry>, n: TreeNode, x: TreeNode, t: seq<Entry>, after: bool, d: nat, K: nat, N: TreeNode)
    requires o == NodeOutline(n, d) + t
    requires o2 == if after then NodeOutline(n, d) + NodeOutline(x, d) + t else NodeOutline(x, d) + NodeOutline(n, d) + t
    requires K == 0 && N == n
    ensures SplicedAt(o, o2, K, N, x, after)
  {
    var p := NodeOutline(n, d);
    SubtreeAtStart(n, d);
    SubtreeInLeft(o, p, t, 0, n, K, N);
    assert o[K].depth == d;
    if after {
      assert SplicePoint(o, K, N, after) == |p|;
      SliceLeft(p, t, |p|, |p|);
      SliceEnds(p);
      SliceEnds(t);
    } else {
      assert SplicePoint(o, K, N, after) == 0;
      SliceEnds(o);
      SliceEnds(NodeOutline(x, d));
      SeqAssoc(NodeOutline(x, d), p, t);
    }
  }

  // ---------------------------------------------------------------- texts

  /** An outline with every text blanked out: the shape, ids, keys and other fields. */
  function Untexted(o: seq<Entry>): (r: seq<Entry>)
    ensures |r| == |o|
    ensures forall k :: 0 <= k < |o| ==> r[k] == o[k].(node := o[k].node.(text := ""))
  {
    seq(|o|, k requires 0 <= k < |o| => o[k].(node := o[k].node.(text := "")))
  }

  lemma UntextedAppend(a: seq<Entry>, b: seq<Entry>)
    ensures Untexted(a + b) == Untexted(a) + Untexted(b)
  {
    assert forall k :: 0 <= k < |a| ==> (a + b)[k] == a[k];
    assert forall k :: 0 <= k < |b| ==> (a + b)[|a| + k] == b[k];
  }

  // ---------------------------------------------------------------- pruning

  /** Drops the leading entries lying deeper than `d`: the rest of a subtree whose root is at `d`. */
  function SkipDeeper(o: seq<Entry>, d: nat): (r: seq<Entry>)
    ensures |r| <= |o| && r == o[|o| - |r|..]
    ensures forall k :: 0 <= k < |o| - |r| ==> o[k].depth > d
    ensures |r| > 0 ==> r[0].depth <= d
  {
    if |o| > 0 && o[0].depth > d then SkipDeeper(o[1..], d) else o
  }

  /**
   The reference definition of removal on an outline: every line with the id
   goes, together with the lines of its subtree (the deeper lines that follow
   it); every other line stays, in order.
   */
  function Prune(o: seq<Entry>, id: string): seq<Entry>
    decreases |o|
  {
    if |o| == 0 then []
    else if o[0].node.id == id then Prune(SkipDeeper(o[1..], o[0].depth), id)
    else [o[0]] + Prune(o[1..], id)
  }

  lemma SkipDeeperPast(a: seq<Entry>, b: seq<Entry>, d: nat)
    requires forall e :: e in a ==> e.depth > d
    requires |b| == 0 || b[0].depth <= d
    ensures SkipDeeper(a + b, d) == b
    decreases |a|
  {
    if |a| > 0 {
      assert (a + b)[0] == a[0];
      assert (a + b)[1..] == a[1..] + b;
      SkipDeeperPast(a[1..], b, d);
    } else {
      assert a + b == b;
    }
  }

  /**
   Pruning an outline made of two parts, each of whose pruning is known: the
   whole prunes to the two results side by side.
   */
  lemma PruneChain(o: seq<Entry>, b: seq<Entry>, c: seq<Entry>, rest: seq<Entry>,
                   b': seq<Entry>, c': seq<Entry>, r: seq<Entry>, id: string)
    requires o == b + c && r == b' + c'
    requires Prune(b + (c + rest), id) == b' + Prune(c + rest, id)
    requires Prune(c + rest, id) == c' + Prune(rest, id)
    ensures Prune(o + rest, id) == r + Prune(rest, id)
  {
    SeqAssoc(b, c, rest);
    SeqAssoc(b', c', Prune(rest, id));
  }

  /** Concatenation is associative; stated as a lemma so that proofs about `Prune` need not search for it. */
  lemma SeqAssoc(a: seq<Entry>, b: seq<Entry>, c: seq<Entry>)
    ensures (a + b) + c == a + (b + c)
  {
  }

  /** A line with the id goes, together with the deeper lines that follow it. */
  lemma PruneDrops(h: Entry, rest: seq<Entry>, id: string)
    requires h.node.id == id
    ensures Prune([h] + rest, id) == Prune(SkipDeeper(rest, h.depth), id)
  {
    assert ([h] + rest)[1..] == rest;
  }

  /** A line without the id is kept, and pruning carries on after it. */
  lemma PruneKeeps(h: Entry, below: seq<Entry>, below': seq<Entry>, rest: seq<Entry>, id: string)
    requires h.node.id != id
    requires Prune(below + rest, id) == below' + Prune(rest, id)
    ensures Prune([h] + below + rest, id) == [h] + below' + Prune(rest, id)
  {
    var q := below + rest;
    assert [h] + below + rest == [h] + q;
    assert ([h] + q)[0] == h && ([h] + q)[1..] == q;
  }

  /** `a` can be obtained from `b` by deleting entries (greedy matching decides it). */
  ghost predicate Subsequence(a: seq<Entry>, b: seq<Entry>)
    decreases |b|
  {
    |a| == 0 || (|b| > 0 && if a[0] == b[0] then Subsequence(a[1..], b[1..]) else Subsequence(a, b[1..]))
  }

  /**
   Matching against a longer sequence: one more leading entry of `b` does no
   harm. Proved together with `SubsequenceTail`.
   */
  lemma {:induction false} SubsequenceCons(a: seq<Entry>, b: seq<Entry>)
    requires |b| > 0 && Subsequence(a, b[1..])
    ensures Subsequence(a, b)
    decreases |a| + |b|, 1
  {
    if |a| > 0 && a[0] == b[0] {
      SubsequenceTail(a, b[1..]);
    }
  }

  /** Dropping the first entry of `a` keeps it a subsequence. */
  lemma {:induction false} SubsequenceTail(a: seq<Entry>, b: seq<Entry>)
    requires |a| > 0 && Subsequence(a, b)
    ensures Subsequence(a[1..], b)
    decreases |a| + |b|, 0
  {
    if a[0] == b[0] {
      if |a[1..]| > 0 {
        SubsequenceCons(a[1..], b);
      }
    } else {
      SubsequenceTail(a, b[1..]);
      if |a[1..]| > 0 {
        SubsequenceCons(a[1..], b);
      }
    }
  }

  /** A subsequence of a suffix of `b` is a subsequence of `b`. */
  lemma {:induction false} SubsequenceOfLonger(a: seq<Entry>, b: seq<Entry>, k: nat)
    requires k <= |b| && Subsequence(a, b[k..])
    ensures Subsequence(a, b)
    decreases k
  {
    if k > 0 {
      assert b[k - 1..][1..] == b[k..];
      SubsequenceCons(a, b[k - 1..]);
      SubsequenceOfLonger(a, b, k - 1);
    }
  }

  /** `Prune` only keeps lines of its input, and none with the id. */
  lemma {:induction false} PruneMembers(o: seq<Entry>, id: string)
    ensures forall e :: e in Prune(o, id) ==> e in o && e.node.id != id
    decreases |o|
  {
    if |o| > 0 {
      if o[0].node.id == id {
        var s := SkipDeeper(o[1..], o[0].depth);
        PruneMembers(s, id);
        assert forall e :: e in s ==> e in o[1..];
      } else {
        PruneMembers(o[1..], id);
      }
    }
  }

  /** `Prune` keeps the surviving lines in their original relative order. */
  lemma PruneIsSubsequence(o: seq<Entry>, id: string)
    ensures Subsequence(Prune(o, id), o)
    decreases |o|
  {
    if |o| > 0 {
      if o[0].node.id == id {
        var s := SkipDeeper(o[1..], o[0].depth);
        PruneIsSubsequence(s, id);
        SubsequenceOfLonger(Prune(o, id), o, |o| - |s|);
      } else {
        PruneIsSubsequence(o[1..], id);
        assert ([o[0]] + Prune(o[1..], id))[1..] == Prune(o[1..], id);
      }
    }
  }
}
