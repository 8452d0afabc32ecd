/**
 `build_nested_structure`: the flat rows of the sidebar view become a
 two-level sidebar. Rows are grouped by `link_txt`, then by folder; each
 folder with at least one parentless node gives one top entry under the key
 `/{link_txt}/`, holding its parentless nodes in sort order, each with its
 direct children in sort order. Deeper nodes are dropped. Folders without
 any node are merged in afterwards, one entry each.
 */
module Sidebar {
  import opened Base
  import opened SidebarRows
  import opened KeyedLists

  // ---------------------------------------------------------------- keys and links

  /** Python's `str` of an optional string, as an f-string prints it: `None` prints as `None`. */
  function PyStr(v: Option<string>): string {
    if v.None? then "None" else v.value
  }

  /** The sidebar key `/{link_txt}/`. */
  function Key(lt: Option<string>): (k: string)
    ensures |k| >= 2 && k[0] == '/' && k[|k| - 1] == '/'
    ensures k[1..|k| - 1] == PyStr(lt)
  {
    "/" + PyStr(lt) + "/"
  }

  /** A node links to `/{link_txt}/{note_id}` exactly when its note id is a value. */
  function LinkFor(lt: Option<string>, noteId: Option<string>): (r: Option<string>)
    ensures r.Some? <==> !NoValue(noteId)
    ensures r.Some? ==> |r.value| > |Key(lt)| && r.value[..|Key(lt)|] == Key(lt) && r.value[|Key(lt)|..] == noteId.value
  {
    if NoValue(noteId) then None else Some(Key(lt) + noteId.value)
  }

  // ---------------------------------------------------------------- one folder

  /** A sidebar node. `items` and `collapsed` are only set on a top node with children. */
  datatype SideNode = SideNode(
    id: string,
    sort: real,
    text: Option<string>,
    linkTxt: Option<string>,
    folderId: string,
    parentId: Option<string>,
    noteId: Option<string>,
    link: Option<string>,
    collapsed: Option<string>,
    items: Option<seq<SideNode>>)

  /** The `collapsed` value of a top node with children. */
  const Open: string := "false"

  /** The node a row becomes, before any children are attached; its label is the row's own text. */
  function Leaf(lt: Option<string>, x: Item): SideNode {
    SideNode(x.id, x.sortOrder, x.nodeTxt, x.linkTxt, x.folderId, x.parentId, x.noteId, LinkFor(lt, x.noteId), None, None)
  }

  /** A node with its children's fields taken away. */
  function Bare(n: SideNode): SideNode {
    n.(collapsed := None, items := None)
  }

  function Leaves(lt: Option<string>, s: seq<Item>): (r: seq<SideNode>)
    ensures |r| == |s| && forall i :: 0 <= i < |s| ==> r[i] == Leaf(lt, s[i])
  {
    if |s| == 0 then [] else [Leaf(lt, s[0])] + Leaves(lt, s[1..])
  }

  /** The parentless rows of a folder, in row order. */
  function Tops(g: seq<Item>): seq<Item> {
    if |g| == 0 then []
    else (if g[0].parentId.None? then [g[0]] else []) + Tops(g[1..])
  }

  lemma {:induction false} TopsMembers(g: seq<Item>)
    ensures forall x :: x in Tops(g) <==> x in g && x.parentId.None?
  {
    if |g| > 0 {
      TopsMembers(g[1..]);
      assert g == [g[0]] + g[1..];
    }
  }

  /** The rows of a folder whose parent is `id`, in row order. */
  function Kids(g: seq<Item>, id: string): seq<Item> {
    if |g| == 0 then []
    else (if g[0].parentId == Some(id) then [g[0]] else []) + Kids(g[1..], id)
  }

  lemma {:induction false} KidsMembers(g: seq<Item>, id: string)
    ensures forall x :: x in Kids(g, id) <==> x in g && x.parentId == Some(id)
  {
    if |g| > 0 {
      KidsMembers(g[1..], id);
      assert g == [g[0]] + g[1..];
    }
  }

  /** A parentless row as a sidebar node, with its children sorted under it when it has any. */
  function NodeFor(lt: Option<string>, g: seq<Item>, top: Item): SideNode {
    var kids := SortByOrder(Kids(g, top.id));
    if |kids| > 0 then Leaf(lt, top).(collapsed := Some(Open), items := Some(Leaves(lt, kids)))
    else Leaf(lt, top)
  }

  function Nodes(lt: Option<string>, g: seq<Item>, tops: seq<Item>): (r: seq<SideNode>)
    ensures |r| == |tops| && forall i :: 0 <= i < |tops| ==> r[i] == NodeFor(lt, g, tops[i])
  {
    if |tops| == 0 then [] else [NodeFor(lt, g, tops[0])] + Nodes(lt, g, tops[1..])
  }

  /** `items_list` for the folder `g` under `link_txt` `lt`. */
  function FolderList(lt: Option<string>, g: seq<Item>): (r: seq<SideNode>)
    ensures |r| == |Tops(g)|
  {
    Nodes(lt, g, SortByOrder(Tops(g)))
  }

  /** A node of the folder list: one top node, or one child of one top node. */
  predicate Shown(l: seq<SideNode>, n: SideNode) {
    (exists i :: 0 <= i < |l| && Bare(l[i]) == n)
    || (exists i :: 0 <= i < |l| && l[i].items.Some? && n in l[i].items.value)
  }

  /** The parentless rows of a folder in the order the list shows them. */
  function SortedTops(g: seq<Item>): seq<Item> {
    SortByOrder(Tops(g))
  }

  lemma NodeForFacts(lt: Option<string>, g: seq<Item>, t: Item)
    ensures Bare(NodeFor(lt, g, t)) == Leaf(lt, t)
    ensures NodeFor(lt, g, t).id == t.id && NodeFor(lt, g, t).sort == t.sortOrder
  {
  }

  lemma FolderTopAt(lt: Option<string>, g: seq<Item>, i: nat)
    requires i < |FolderList(lt, g)|
    ensures FolderList(lt, g)[i] == NodeFor(lt, g, SortedTops(g)[i])
    ensures SortedTops(g)[i] in g && SortedTops(g)[i].parentId.None?
    ensures Bare(FolderList(lt, g)[i]) == Leaf(lt, SortedTops(g)[i])
  {
    var tops := SortedTops(g);
    SortMembers(Tops(g));
    TopsMembers(g);
    assert tops[i] in Tops(g);
    NodeForFacts(lt, g, tops[i]);
  }

  lemma FolderTopOf(lt: Option<string>, g: seq<Item>, x: Item) returns (i: nat)
    requires x in g && x.parentId.None?
    ensures i < |FolderList(lt, g)| && Bare(FolderList(lt, g)[i]) == Leaf(lt, x) && SortedTops(g)[i] == x
  {
    var tops := SortedTops(g);
    SortMembers(Tops(g));
    TopsMembers(g);
    assert x in tops;
    i :| 0 <= i < |tops| && tops[i] == x;
    NodeForFacts(lt, g, x);
  }

  /** `n` is a parentless row of folder `g`, as a node. */
  predicate IsTopOf(lt: Option<string>, g: seq<Item>, n: SideNode) {
    exists x :: x in g && x.parentId.None? && Bare(n) == Leaf(lt, x)
  }

  /** Row `x` is shown as a top node of list `l`. */
  predicate ShownAsTop(lt: Option<string>, l: seq<SideNode>, x: Item) {
    exists i :: 0 <= i < |l| && Bare(l[i]) == Leaf(lt, x)
  }

  lemma FolderShowsTops(lt: Option<string>, g: seq<Item>)
    ensures forall i :: 0 <= i < |FolderList(lt, g)| ==> IsTopOf(lt, g, FolderList(lt, g)[i])
  {
    forall i | 0 <= i < |FolderList(lt, g)|
      ensures IsTopOf(lt, g, FolderList(lt, g)[i])
    {
      FolderTopAt(lt, g, i);
    }
  }

  lemma FolderShowsAllTops(lt: Option<string>, g: seq<Item>)
    ensures forall x :: x in g && x.parentId.None? ==> ShownAsTop(lt, FolderList(lt, g), x)
  {
    forall x | x in g && x.parentId.None?
      ensures ShownAsTop(lt, FolderList(lt, g), x)
    {
      var i := FolderTopOf(lt, g, x);
    }
  }

  lemma FolderSorted(lt: Option<string>, g: seq<Item>)
    ensures forall i, j :: 0 <= i < j < |FolderList(lt, g)| ==> FolderList(lt, g)[i].sort <= FolderList(lt, g)[j].sort
  {
    var tops := SortedTops(g);
    SortAscending(Tops(g));
    forall i, j | 0 <= i < j < |FolderList(lt, g)|
      ensures FolderList(lt, g)[i].sort <= FolderList(lt, g)[j].sort
    {
      assert FolderList(lt, g)[i] == NodeFor(lt, g, tops[i]);
      assert FolderList(lt, g)[j] == NodeFor(lt, g, tops[j]);
      NodeForFacts(lt, g, tops[i]);
      NodeForFacts(lt, g, tops[j]);
    }
  }

  /** The folder list shows the parentless rows, each once, in ascending sort order. */
  lemma FolderTops(lt: Option<string>, g: seq<Item>)
    ensures forall i :: 0 <= i < |FolderList(lt, g)| ==> IsTopOf(lt, g, FolderList(lt, g)[i])
    ensures forall x :: x in g && x.parentId.None? ==> ShownAsTop(lt, FolderList(lt, g), x)
    ensures forall i, j :: 0 <= i < j < |FolderList(lt, g)| ==> FolderList(lt, g)[i].sort <= FolderList(lt, g)[j].sort
  {
    FolderShowsTops(lt, g);
    FolderShowsAllTops(lt, g);
    FolderSorted(lt, g);
  }

  /** Some row of folder `g` has `id` as parent. */
  predicate HasKids(g: seq<Item>, id: string) {
    exists y :: y in g && y.parentId == Some(id)
  }

  /** `n` is a row of folder `g` whose parent is `id`, as a node. */
  predicate IsKidOf(lt: Option<string>, g: seq<Item>, id: string, n: SideNode) {
    exists y :: y in g && y.parentId == Some(id) && n == Leaf(lt, y)
  }

  /** The children a top node `t` shows, whether or not it has any. */
  function KidList(lt: Option<string>, g: seq<Item>, id: string): seq<SideNode> {
    Leaves(lt, SortByOrder(Kids(g, id)))
  }

  lemma KidListEmpty(lt: Option<string>, g: seq<Item>, id: string)
    ensures |KidList(lt, g, id)| > 0 <==> HasKids(g, id)
  {
    SortMembers(Kids(g, id));
    KidsMembers(g, id);
    if HasKids(g, id) {
      var y :| y in g && y.parentId == Some(id);
      assert y in SortByOrder(Kids(g, id));
    }
  }

  lemma KidListOnly(lt: Option<string>, g: seq<Item>, id: string)
    ensures forall n :: n in KidList(lt, g, id) ==> n.items.None? && n.collapsed.None? && IsKidOf(lt, g, id, n)
  {
    var kids := SortByOrder(Kids(g, id));
    SortMembers(Kids(g, id));
    KidsMembers(g, id);
    forall n | n in KidList(lt, g, id)
      ensures n.items.None? && n.collapsed.None? && IsKidOf(lt, g, id, n)
    {
      var a :| 0 <= a < |kids| && KidList(lt, g, id)[a] == n;
      assert kids[a] in kids;
    }
  }

  lemma KidListAll(lt: Option<string>, g: seq<Item>, id: string)
    ensures forall y :: y in g && y.parentId == Some(id) ==> Leaf(lt, y) in KidList(lt, g, id)
  {
    var kids := SortByOrder(Kids(g, id));
    SortMembers(Kids(g, id));
    KidsMembers(g, id);
    forall y | y in g && y.parentId == Some(id)
      ensures Leaf(lt, y) in KidList(lt, g, id)
    {
      var a :| 0 <= a < |kids| && kids[a] == y;
      assert KidList(lt, g, id)[a] == Leaf(lt, y);
    }
  }

  lemma KidListSorted(lt: Option<string>, g: seq<Item>, id: string)
    ensures forall a, b :: 0 <= a < b < |KidList(lt, g, id)| ==> KidList(lt, g, id)[a].sort <= KidList(lt, g, id)[b].sort
  {
    SortAscending(Kids(g, id));
  }

  /**
   A top node gets `items` and `collapsed = 'false'` exactly when some row of
   its folder has it as parent; its items are exactly those rows, in
   ascending sort order, and never have items of their own.
   */
  lemma FolderChildren(lt: Option<string>, g: seq<Item>, i: nat)
    requires i < |FolderList(lt, g)|
    ensures FolderList(lt, g)[i].items.Some? <==> FolderList(lt, g)[i].collapsed == Some(Open)
    ensures FolderList(lt, g)[i].items.Some? <==> HasKids(g, FolderList(lt, g)[i].id)
    ensures FolderList(lt, g)[i].items.Some? ==> FolderList(lt, g)[i].items.value == KidList(lt, g, FolderList(lt, g)[i].id)
    ensures forall n :: n in KidList(lt, g, FolderList(lt, g)[i].id) ==>
      n.items.None? && n.collapsed.None? && IsKidOf(lt, g, FolderList(lt, g)[i].id, n)
    ensures forall y :: y in g && y.parentId == Some(FolderList(lt, g)[i].id) ==>
      Leaf(lt, y) in KidList(lt, g, FolderList(lt, g)[i].id)
    ensures var c := KidList(lt, g, FolderList(lt, g)[i].id);
      forall a, b :: 0 <= a < b < |c| ==> c[a].sort <= c[b].sort
  {
    var t := SortedTops(g)[i];
    FolderTopAt(lt, g, i);
    NodeForFacts(lt, g, t);
    KidListEmpty(lt, g, t.id);
    KidListOnly(lt, g, t.id);
    KidListAll(lt, g, t.id);
    KidListSorted(lt, g, t.id);
  }

  /**
   Only two levels are kept: a row is shown in its folder's list exactly when
   it has no parent, or its parent is a parentless row of the same folder.
   */
  lemma FolderRows(lt: Option<string>, g: seq<Item>, x: Item)
    requires x in g
    ensures Shown(FolderList(lt, g), Leaf(lt, x)) <==>
      x.parentId.None? || exists t :: t in g && t.parentId.None? && x.parentId == Some(t.id)
  {
    if x.parentId.None? {
      var i := FolderTopOf(lt, g, x);
    } else if t :| t in g && t.parentId.None? && x.parentId == Some(t.id) {
      var i := FolderTopOf(lt, g, t);
      FolderTopAt(lt, g, i);
      NodeForFacts(lt, g, t);
      FolderChildren(lt, g, i);
    } else {
      FolderNotShown(lt, g, x);
    }
  }

  lemma FolderNotShown(lt: Option<string>, g: seq<Item>, x: Item)
    requires x.parentId.Some?
    requires forall t :: t in g && t.parentId.None? ==> x.parentId != Some(t.id)
    ensures !Shown(FolderList(lt, g), Leaf(lt, x))
  {
    var l := FolderList(lt, g);
    forall i | 0 <= i < |l|
      ensures Bare(l[i]) != Leaf(lt, x)
      ensures l[i].items.Some? ==> Leaf(lt, x) !in l[i].items.value
    {
      FolderTopAt(lt, g, i);
      NodeForFacts(lt, g, SortedTops(g)[i]);
      FolderChildren(lt, g, i);
    }
  }

  // ---------------------------------------------------------------- grouping

  /** The rows of one folder under one `link_txt`. */
  datatype Group = Group(linkTxt: Option<string>, folderId: string, items: seq<Item>)

  /** The distinct values of `ks` in order of first appearance, as the keys of a `dict` filled from `ks`. */
  function Distinct<K(==)>(ks: seq<K>): seq<K> {
    if |ks| == 0 then []
    else
      var d := Distinct(ks[..|ks| - 1]);
      if ks[|ks| - 1] in d then d else d + [ks[|ks| - 1]]
  }

  lemma {:induction false} DistinctLaws<K>(ks: seq<K>)
    ensures forall k :: k in Distinct(ks) <==> k in ks
    ensures forall i, j :: 0 <= i < j < |Distinct(ks)| ==> Distinct(ks)[i] != Distinct(ks)[j]
  {
    if |ks| > 0 {
      var init := ks[..|ks| - 1];
      DistinctLaws(init);
      assert ks == init + [ks[|ks| - 1]];
    }
  }

  function LinkTxts(s: seq<Item>): (r: seq<Option<string>>)
    ensures |r| == |s| && forall i :: 0 <= i < |s| ==> r[i] == s[i].linkTxt
  {
    if |s| == 0 then [] else [s[0].linkTxt] + LinkTxts(s[1..])
  }

  function FolderIds(s: seq<Item>): (r: seq<string>)
    ensures |r| == |s| && forall i :: 0 <= i < |s| ==> r[i] == s[i].folderId
  {
    if |s| == 0 then [] else [s[0].folderId] + FolderIds(s[1..])
  }

  /** The rows with `link_txt` `lt`, in row order. */
  function WithLink(s: seq<Item>, lt: Option<string>): seq<Item> {
    if |s| == 0 then [] else (if s[0].linkTxt == lt then [s[0]] else []) + WithLink(s[1..], lt)
  }

  /** The rows of folder `f`, in row order. */
  function WithFolder(s: seq<Item>, f: string): seq<Item> {
    if |s| == 0 then [] else (if s[0].folderId == f then [s[0]] else []) + WithFolder(s[1..], f)
  }

  lemma {:induction false} WithLinkMembers(s: seq<Item>, lt: Option<string>)
    ensures forall x :: x in WithLink(s, lt) <==> x in s && x.linkTxt == lt
  {
    if |s| > 0 {
      WithLinkMembers(s[1..], lt);
      assert s == [s[0]] + s[1..];
    }
  }

  lemma {:induction false} WithFolderMembers(s: seq<Item>, f: string)
    ensures forall x :: x in WithFolder(s, f) <==> x in s && x.folderId == f
  {
    if |s| > 0 {
      WithFolderMembers(s[1..], f);
      assert s == [s[0]] + s[1..];
    }
  }

  /** The folder groups under one `link_txt`, one per folder id in `fids`. */
  function FolderGroups(lt: Option<string>, fids: seq<string>, litems: seq<Item>): (r: seq<Group>)
    ensures |r| == |fids| && forall k :: 0 <= k < |fids| ==> r[k] == Group(lt, fids[k], WithFolder(litems, fids[k]))
  {
    if |fids| == 0 then [] else [Group(lt, fids[0], WithFolder(litems, fids[0]))] + FolderGroups(lt, fids[1..], litems)
  }

  /** The folders of the rows with `link_txt` `lt`, in order of first appearance. */
  function FoldersUnder(items: seq<Item>, lt: Option<string>): seq<Group> {
    FolderGroups(lt, Distinct(FolderIds(WithLink(items, lt))), WithLink(items, lt))
  }

  function GroupsFor(lts: seq<Option<string>>, items: seq<Item>): seq<Group> {
    if |lts| == 0 then [] else FoldersUnder(items, lts[0]) + GroupsFor(lts[1..], items)
  }

  /** Every (`link_txt`, folder) group, in the order the builder visits them. */
  function Groups(items: seq<Item>): seq<Group> {
    GroupsFor(Distinct(LinkTxts(items)), items)
  }

  /** `g` holds exactly the rows with its `link_txt` and folder. */
  ghost predicate Holds(items: seq<Item>, g: Group) {
    forall x :: x in g.items <==> x in items && x.linkTxt == g.linkTxt && x.folderId == g.folderId
  }

  /** Some group has this `link_txt` and folder. */
  predicate HasGroup(gs: seq<Group>, lt: Option<string>, f: string) {
    exists k :: 0 <= k < |gs| && gs[k].linkTxt == lt && gs[k].folderId == f
  }

  /** No two groups share a `link_txt` and folder. */
  predicate DistinctGroups(gs: seq<Group>) {
    forall i, j :: 0 <= i < j < |gs| ==> gs[i].linkTxt != gs[j].linkTxt || gs[i].folderId != gs[j].folderId
  }

  lemma FoldersUnderAt(items: seq<Item>, lt: Option<string>, k: nat)
    requires k < |FoldersUnder(items, lt)|
    ensures Holds(items, FoldersUnder(items, lt)[k]) && FoldersUnder(items, lt)[k].linkTxt == lt
  {
    var g := FoldersUnder(items, lt)[k];
    WithLinkMembers(items, lt);
    WithFolderMembers(WithLink(items, lt), g.folderId);
  }

  lemma {:induction false} GroupsForAt(lts: seq<Option<string>>, items: seq<Item>, k: nat)
    requires k < |GroupsFor(lts, items)|
    ensures Holds(items, GroupsFor(lts, items)[k]) && GroupsFor(lts, items)[k].linkTxt in lts
  {
    var first := FoldersUnder(items, lts[0]);
    if k < |first| {
      FoldersUnderAt(items, lts[0], k);
    } else {
      GroupsForAt(lts[1..], items, k - |first|);
    }
  }

  lemma FoldersUnderCover(items: seq<Item>, x: Item) returns (b: nat)
    requires x in items
    ensures b < |FoldersUnder(items, x.linkTxt)| && FoldersUnder(items, x.linkTxt)[b].folderId == x.folderId
    ensures FoldersUnder(items, x.linkTxt)[b].linkTxt == x.linkTxt
  {
    var ws := WithLink(items, x.linkTxt);
    WithLinkMembers(items, x.linkTxt);
    DistinctLaws(FolderIds(ws));
    assert x in ws;
    var a :| 0 <= a < |ws| && ws[a] == x;
    assert FolderIds(ws)[a] == x.folderId;
    assert x.folderId in FolderIds(ws);
    var fids := Distinct(FolderIds(ws));
    assert x.folderId in fids;
    b :| 0 <= b < |fids| && fids[b] == x.folderId;
  }

  lemma GroupsForSplit(lts: seq<Option<string>>, items: seq<Item>, k: nat)
    requires |lts| > 0
    ensures k < |FoldersUnder(items, lts[0])| ==> GroupsFor(lts, items)[k] == FoldersUnder(items, lts[0])[k]
    ensures k < |GroupsFor(lts[1..], items)| ==>
      GroupsFor(lts, items)[|FoldersUnder(items, lts[0])| + k] == GroupsFor(lts[1..], items)[k]
  {
  }

  lemma {:induction false} GroupsForCover(lts: seq<Option<string>>, items: seq<Item>, x: Item)
    requires x in items && x.linkTxt in lts
    ensures HasGroup(GroupsFor(lts, items), x.linkTxt, x.folderId)
  {
    if lts[0] == x.linkTxt {
      var b := FoldersUnderCover(items, x);
      GroupsForSplit(lts, items, b);
    } else {
      GroupsForCover(lts[1..], items, x);
      var k :| 0 <= k < |GroupsFor(lts[1..], items)| && GroupsFor(lts[1..], items)[k].linkTxt == x.linkTxt
                && GroupsFor(lts[1..], items)[k].folderId == x.folderId;
      GroupsForSplit(lts, items, k);
    }
  }

  lemma DistinctAppend(a: seq<Group>, b: seq<Group>)
    requires DistinctGroups(a) && DistinctGroups(b)
    requires forall i, j :: 0 <= i < |a| && 0 <= j < |b| ==> a[i].linkTxt != b[j].linkTxt
    ensures DistinctGroups(a + b)
  {
  }

  lemma {:induction false} GroupsForDistinct(lts: seq<Option<string>>, items: seq<Item>)
    requires forall i, j :: 0 <= i < j < |lts| ==> lts[i] != lts[j]
    ensures DistinctGroups(GroupsFor(lts, items))
  {
    if |lts| > 0 {
      var first := FoldersUnder(items, lts[0]);
      var rest := GroupsFor(lts[1..], items);
      GroupsForDistinct(lts[1..], items);
      DistinctLaws(FolderIds(WithLink(items, lts[0])));
      forall j | 0 <= j < |rest|
        ensures rest[j].linkTxt != lts[0]
      {
        GroupsForAt(lts[1..], items, j);
      }
      DistinctAppend(first, rest);
    }
  }

  /**
   The groups partition the rows: each holds exactly the rows with its
   `link_txt` and folder, every row's pair has a group, and no pair has two.
   */
  lemma GroupsLaws(items: seq<Item>)
    ensures forall k :: 0 <= k < |Groups(items)| ==> Holds(items, Groups(items)[k])
    ensures forall x :: x in items ==> HasGroup(Groups(items), x.linkTxt, x.folderId)
    ensures DistinctGroups(Groups(items))
  {
    var lts := Distinct(LinkTxts(items));
    DistinctLaws(LinkTxts(items));
    forall k | 0 <= k < |Groups(items)|
      ensures Holds(items, Groups(items)[k])
    {
      GroupsForAt(lts, items, k);
    }
    forall x | x in items
      ensures HasGroup(Groups(items), x.linkTxt, x.folderId)
    {
      assert x.linkTxt in LinkTxts(items);
      GroupsForCover(lts, items, x);
    }
    GroupsForDistinct(lts, items);
  }

  // ---------------------------------------------------------------- the result

  /** A sidebar entry for one folder; its `parent_id` is always `None`. */
  datatype TopEntry = TopEntry(
    id: string,
    sort: nat,
    text: Option<string>,
    items: seq<SideNode>,
    linkTxt: Option<string>,
    folderId: string,
    parentId: Option<string>)

  type SidebarData = seq<Slot<TopEntry>>

  /** The folder has a parentless row, so its list is not empty. */
  predicate HasTop(g: Group) {
    |Tops(g.items)| > 0
  }

  /**
   The top entry for folder group `g` when the result holds `n` keys. It takes
   its ids, title and `link_txt` from the first parentless row in sort order.
   */
  function EntryFor(g: Group, n: nat): TopEntry
    requires HasTop(g)
  {
    var first := SortedTops(g.items)[0];
    TopEntry(first.folderId, n, first.text, FolderList(g.linkTxt, g.items), first.linkTxt, first.folderId, None)
  }

  lemma WithOrderHead(s: seq<Item>)
    requires |s| > 0
    ensures |WithOrder(s, s[0].sortOrder)| > 0 && WithOrder(s, s[0].sortOrder)[0] == s[0]
  {
  }

  /**
   The entry's row is parentless, has the least sort of the folder's
   parentless rows, and is the first such row in row order; the entry's ids
   are the folder's id, its number is the key count, and it holds the folder list.
   */
  lemma EntryForLaws(items: seq<Item>, g: Group, n: nat)
    requires HasTop(g) && Holds(items, g)
    ensures var first := SortedTops(g.items)[0];
      && first in g.items && first.parentId.None?
      && (forall y :: y in g.items && y.parentId.None? ==> first.sortOrder <= y.sortOrder)
      && |WithOrder(Tops(g.items), first.sortOrder)| > 0
      && WithOrder(Tops(g.items), first.sortOrder)[0] == first
      && EntryFor(g, n) == TopEntry(g.folderId, n, first.text, FolderList(g.linkTxt, g.items), g.linkTxt, g.folderId, None)
  {
    var tops := Tops(g.items);
    var sorted := SortByOrder(tops);
    var first := sorted[0];
    SortMembers(tops);
    TopsMembers(g.items);
    SortAscending(tops);
    assert first in sorted;
    forall y | y in g.items && y.parentId.None?
      ensures first.sortOrder <= y.sortOrder
    {
      assert y in sorted;
      var j :| 0 <= j < |sorted| && sorted[j] == y;
    }
    SortStable(tops, first.sortOrder);
    WithOrderHead(sorted);
  }

  /** One folder group added to the result: nothing for a folder without parentless rows. */
  function AddGroup(r: SidebarData, g: Group): SidebarData {
    if HasTop(g) then AddEntry(r, Key(g.linkTxt), EntryFor(g, |r|)) else r
  }

  function AddGroups(r: SidebarData, gs: seq<Group>): SidebarData
    decreases |gs|
  {
    if |gs| == 0 then r else AddGroups(AddGroup(r, gs[0]), gs[1..])
  }

  /** The groups with a parentless row. */
  function CountWithTop(gs: seq<Group>): nat {
    if |gs| == 0 then 0 else (if HasTop(gs[0]) then 1 else 0) + CountWithTop(gs[1..])
  }

  /** Some group with a parentless row has `link_txt` giving key `k`. */
  predicate KeyOfGroup(gs: seq<Group>, k: string) {
    exists i :: 0 <= i < |gs| && HasTop(gs[i]) && Key(gs[i].linkTxt) == k
  }

  /**
   A group with a parentless row appends its entry to the list under its key,
   numbered with the count of keys before it; all other keys keep their lists.
   */
  lemma AddGroupLaws(r: SidebarData, g: Group)
    requires UniqueKeys(r)
    ensures UniqueKeys(AddGroup(r, g))
    ensures HasTop(g) ==> Lookup(AddGroup(r, g), Key(g.linkTxt)) == Lookup(r, Key(g.linkTxt)) + [EntryFor(g, |r|)]
    ensures forall k :: k != Key(g.linkTxt) || !HasTop(g) ==> Lookup(AddGroup(r, g), k) == Lookup(r, k)
    ensures forall k :: HasKey(AddGroup(r, g), k) <==> HasKey(r, k) || (HasTop(g) && k == Key(g.linkTxt))
    ensures Total(AddGroup(r, g)) == Total(r) + if HasTop(g) then 1 else 0
  {
    if HasTop(g) {
      AddEntryLaws(r, Key(g.linkTxt), EntryFor(g, |r|));
      AddEntryTotal(r, Key(g.linkTxt), EntryFor(g, |r|));
    }
  }

  /**
   Adding the groups keeps the keys unique, adds one entry per group with a
   parentless row, and adds exactly the keys of those groups.
   */
  lemma {:induction false} AddGroupsLaws(r: SidebarData, gs: seq<Group>)
    requires UniqueKeys(r)
    ensures UniqueKeys(AddGroups(r, gs))
    ensures Total(AddGroups(r, gs)) == Total(r) + CountWithTop(gs)
    ensures forall k :: HasKey(AddGroups(r, gs), k) <==> HasKey(r, k) || KeyOfGroup(gs, k)
    decreases |gs|
  {
    if |gs| > 0 {
      var r' := AddGroup(r, gs[0]);
      AddGroupLaws(r, gs[0]);
      AddGroupsLaws(r', gs[1..]);
      forall k
        ensures KeyOfGroup(gs, k) <==> (HasTop(gs[0]) && k == Key(gs[0].linkTxt)) || KeyOfGroup(gs[1..], k)
      {
        KeyOfGroupStep(gs, k);
      }
    }
  }

  lemma KeyOfGroupStep(gs: seq<Group>, k: string)
    requires |gs| > 0
    ensures KeyOfGroup(gs, k) <==> (HasTop(gs[0]) && k == Key(gs[0].linkTxt)) || KeyOfGroup(gs[1..], k)
  {
    if KeyOfGroup(gs[1..], k) {
      var i :| 0 <= i < |gs[1..]| && HasTop(gs[1..][i]) && Key(gs[1..][i].linkTxt) == k;
      assert gs[i + 1] == gs[1..][i];
    }
    if KeyOfGroup(gs, k) && !(HasTop(gs[0]) && k == Key(gs[0].linkTxt)) {
      var i :| 0 <= i < |gs| && HasTop(gs[i]) && Key(gs[i].linkTxt) == k;
      assert gs[1..][i - 1] == gs[i];
    }
  }

  /**
   `build_nested_structure`: `None` when a row's sort is null and `float`
   raises; otherwise the entries of every folder group, in visiting order.
   */
  function Build(rows: seq<Row>): (r: Option<SidebarData>)
    ensures r.None? <==> exists k :: 0 <= k < |rows| && rows[k].sort.Null?
  {
    match ProcessAll(rows)
    case None => None
    case Some(items) => Some(AddGroups([], Groups(items)))
  }

  /** Some parentless row has `link_txt` giving key `k`. */
  predicate KeyOfRow(items: seq<Item>, k: string) {
    exists x :: x in items && x.parentId.None? && Key(x.linkTxt) == k
  }

  /**
   The built sidebar has one entry per (`link_txt`, folder) group that holds a
   parentless row, and its keys are exactly the `/{link_txt}/` of the
   parentless rows.
   */
  lemma BuildLaws(rows: seq<Row>)
    requires Build(rows).Some?
    ensures var items := ProcessAll(rows).value;
      && UniqueKeys(Build(rows).value)
      && Total(Build(rows).value) == CountWithTop(Groups(items))
      && forall k :: HasKey(Build(rows).value, k) <==> KeyOfRow(items, k)
  {
    var items := ProcessAll(rows).value;
    AddGroupsLaws([], Groups(items));
    forall k
      ensures KeyOfGroup(Groups(items), k) <==> KeyOfRow(items, k)
    {
      GroupKeyIsRowKey(items, k);
    }
  }

  lemma GroupKeyIsRowKey(items: seq<Item>, k: string)
    ensures KeyOfGroup(Groups(items), k) <==> KeyOfRow(items, k)
  {
    var gs := Groups(items);
    GroupsLaws(items);
    if KeyOfGroup(gs, k) {
      var i :| 0 <= i < |gs| && HasTop(gs[i]) && Key(gs[i].linkTxt) == k;
      var x := Tops(gs[i].items)[0];
      TopsMembers(gs[i].items);
      assert x in Tops(gs[i].items);
      assert Holds(items, gs[i]);
    }
    if KeyOfRow(items, k) {
      var x :| x in items && x.parentId.None? && Key(x.linkTxt) == k;
      assert HasGroup(gs, x.linkTxt, x.folderId);
      var i :| 0 <= i < |gs| && gs[i].linkTxt == x.linkTxt && gs[i].folderId == x.folderId;
      assert Holds(items, gs[i]);
      TopsMembers(gs[i].items);
      assert x in Tops(gs[i].items);
    }
  }

  // ---------------------------------------------------------------- folders without nodes

  /** A folder that no tree node belongs to. */
  datatype EmptyFolder = EmptyFolder(id: string, title: Option<string>, linkTxt: Option<string>)

  /** Its entry, numbered with the count of keys before the assignment, with no items. */
  function EmptyEntry(f: EmptyFolder, n: nat): TopEntry {
    TopEntry(f.id, n, f.title, [], f.linkTxt, f.id, None)
  }

  /** The merge in `getVitePressSidebar`: each empty folder replaces the list under its key with its own entry. */
  function MergeEmpty(d: SidebarData, fs: seq<EmptyFolder>): SidebarData
    decreases |fs|
  {
    if |fs| == 0 then d else MergeEmpty(Put(d, Key(fs[0].linkTxt), [EmptyEntry(fs[0], |d|)]), fs[1..])
  }

  /** The list under a key is the single, empty entry of folder `f`. */
  predicate IsEmptyEntryOf(es: seq<TopEntry>, f: EmptyFolder) {
    |es| == 1 && es[0].id == f.id && es[0].folderId == f.id && es[0].text == f.title
    && es[0].items == [] && es[0].linkTxt == f.linkTxt && es[0].parentId.None?
  }

  /** `fs[i]` is the last of the folders with key `k`. */
  predicate LastWithKey(fs: seq<EmptyFolder>, i: int, k: string) {
    0 <= i < |fs| && Key(fs[i].linkTxt) == k && forall j :: i < j < |fs| ==> Key(fs[j].linkTxt) != k
  }

  /** Some folder has key `k`. */
  predicate SomeWithKey(fs: seq<EmptyFolder>, k: string) {
    exists i :: 0 <= i < |fs| && Key(fs[i].linkTxt) == k
  }

  /**
   After the merge, a key no empty folder maps to keeps its list; a key some
   empty folder maps to holds exactly one entry with no items, that of the
   last such folder, whatever the list held before.
   */
  lemma {:induction false} MergeEmptyAt(d: SidebarData, fs: seq<EmptyFolder>, k: string)
    requires UniqueKeys(d)
    ensures UniqueKeys(MergeEmpty(d, fs))
    ensures !SomeWithKey(fs, k) ==> Lookup(MergeEmpty(d, fs), k) == Lookup(d, k)
    ensures forall i :: LastWithKey(fs, i, k) ==> IsEmptyEntryOf(Lookup(MergeEmpty(d, fs), k), fs[i])
    ensures HasKey(MergeEmpty(d, fs), k) <==> HasKey(d, k) || SomeWithKey(fs, k)
    decreases |fs|
  {
    if |fs| > 0 {
      var k0 := Key(fs[0].linkTxt);
      var d' := Put(d, k0, [EmptyEntry(fs[0], |d|)]);
      PutLaws(d, k0, [EmptyEntry(fs[0], |d|)]);
      MergeEmptyAt(d', fs[1..], k);
      SomeWithKeyStep(fs, k);
      forall i | LastWithKey(fs, i, k)
        ensures IsEmptyEntryOf(Lookup(MergeEmpty(d, fs), k), fs[i])
      {
        if i > 0 {
          LastWithKeyStep(fs, i, k);
        } else {
          LastWithKeyFirst(fs, k);
        }
      }
    }
  }

  lemma SomeWithKeyStep(fs: seq<EmptyFolder>, k: string)
    requires |fs| > 0
    ensures SomeWithKey(fs, k) <==> Key(fs[0].linkTxt) == k || SomeWithKey(fs[1..], k)
  {
    if SomeWithKey(fs, k) && Key(fs[0].linkTxt) != k {
      var i :| 0 <= i < |fs| && Key(fs[i].linkTxt) == k;
      assert fs[1..][i - 1] == fs[i];
    }
    if SomeWithKey(fs[1..], k) {
      var i :| 0 <= i < |fs[1..]| && Key(fs[1..][i].linkTxt) == k;
      assert fs[i + 1] == fs[1..][i];
    }
  }

  lemma LastWithKeyStep(fs: seq<EmptyFolder>, i: int, k: string)
    requires 0 < i < |fs|
    ensures LastWithKey(fs, i, k) <==> LastWithKey(fs[1..], i - 1, k)
  {
    assert forall j :: i < j < |fs| ==> fs[1..][j - 1] == fs[j];
  }

  lemma LastWithKeyFirst(fs: seq<EmptyFolder>, k: string)
    requires |fs| > 0
    ensures LastWithKey(fs, 0, k) <==> Key(fs[0].linkTxt) == k && !SomeWithKey(fs[1..], k)
  {
    assert forall j :: 0 < j < |fs| ==> fs[1..][j - 1] == fs[j];
  }
}
