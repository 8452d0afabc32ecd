/**
 The edit flow of a tree row's context menu: the dialog that adds a child,
 adds a sibling or renames the row, and the menu's remove entry. Each is
 modelled as a function from the tree held in state, the row, the dialog's
 form and the server's reply to the next tree, the request sent and the
 notice shown. Fresh ids are parameters. A reply is an input; it stands for
 the settled request promise.
 */
module TreeEdit {
  import opened Base
  import opened TreeUtils
  import opened Outlines
  import opened TreeOrder

  // ---------------------------------------------------------------- server replies

  /**
   How a request settles: an answer whose body may lack a `code` (or be
   absent altogether, both `None`), or a rejection with something thrown,
   which may or may not be an `Error` carrying a message.
   */
  datatype Reply = Answered(code: Option<int>, message: Option<string>) | Thrown(isError: bool, error: string)

  datatype Severity = Success | Failure

  /** The snackbar shown once the request settles. */
  datatype Notice = Notice(message: Option<string>, severity: Severity)

  const ReplyFailed: string := "接口返回失败"
  const CallFailed: string := "接口调用失败"

  /** The server accepted the request: `res?.code === 200`. */
  predicate Ok(reply: Reply) {
    reply.Answered? && reply.code == Some(200)
  }

  /**
   The notice for a settled request: success with the server's message on
   code 200; otherwise an error with the server's message or a fixed text,
   or with the thrown error's message or a fixed text.
   */
  function Report(reply: Reply): (n: Notice)
    ensures n.severity == Success <==> Ok(reply)
    ensures Ok(reply) ==> n.message == reply.message
    ensures reply.Answered? && !Ok(reply) ==> n.message == Some(OrElse(reply.message, ReplyFailed))
    ensures reply.Thrown? && reply.isError ==> n.message == Some(reply.error)
    ensures reply.Thrown? && !reply.isError ==> n.message == Some(CallFailed)
  {
    match reply
    case Answered(code, message) =>
      if code == Some(200) then Notice(message, Success)
      else Notice(Some(OrElse(message, ReplyFailed)), Failure)
    case Thrown(isError, error) =>
      Notice(Some(if isError then error else CallFailed), Failure)
  }

  // ---------------------------------------------------------------- the dialog

  datatype Mode = ChildMode | SiblingMode | RenameMode

  /** The dialog's fields: the title and the link text, each possibly never set. */
  datatype Form = Form(title: Option<string>, linkTxt: Option<string>)

  /** The form a dialog opens with: the row's text and link text to rename, empty otherwise. */
  function OpenForm(mode: Mode, node: TreeNode): (f: Form)
    ensures mode == RenameMode ==> f.title == Some(node.text) && f.linkTxt == Some(OrElse(node.linkTxt, ""))
    ensures mode != RenameMode ==> f.title.None? && f.linkTxt.None?
  {
    if mode == RenameMode then Form(Some(node.text), Some(OrElse(node.linkTxt, ""))) else Form(None, None)
  }

  /** The link text field is shown only to add a sibling to, or rename, a top row. */
  predicate LinkFieldShown(mode: Mode, node: TreeNode) {
    (mode == SiblingMode || mode == RenameMode) && node.isTop
  }

  /** Typing into the title field. */
  function TypeTitle(f: Form, t: string): Form {
    f.(title := Some(t))
  }

  /** Typing into the link text field, when it is shown. */
  function TypeLink(mode: Mode, node: TreeNode, f: Form, t: string): (g: Form)
    ensures LinkFieldShown(mode, node) ==> g.linkTxt == Some(t) && g.title == f.title
    ensures !LinkFieldShown(mode, node) ==> g == f
  {
    if LinkFieldShown(mode, node) then f.(linkTxt := Some(t)) else f
  }

  /** Confirming does nothing when the title is blank, or a top row's link text is blank. */
  predicate Rejected(node: TreeNode, f: Form) {
    Blank(f.title) || (node.isTop && Blank(f.linkTxt))
  }

  /**
   Whatever is typed, confirming the add-child dialog of a top row is always
   rejected: that dialog opens with no link text and does not show the field.
   */
  lemma ChildOnTopRejected(node: TreeNode, typed: seq<Keystroke>)
    requires node.isTop
    ensures Rejected(node, TypeAll(ChildMode, node, OpenForm(ChildMode, node), typed))
  {
    TypeAllKeepsLink(ChildMode, node, OpenForm(ChildMode, node), typed);
  }

  /** One edit in the dialog: a new value typed into the title field or into the link text field. */
  datatype Keystroke = InTitle(t: string) | InLink(t: string)

  /** The form after one edit. */
  function Type(mode: Mode, node: TreeNode, f: Form, k: Keystroke): Form {
    match k
    case InTitle(t) => TypeTitle(f, t)
    case InLink(t) => TypeLink(mode, node, f, t)
  }

  /** The form after a sequence of edits, in order. */
  function TypeAll(mode: Mode, node: TreeNode, f: Form, typed: seq<Keystroke>): Form
    decreases |typed|
  {
    if |typed| == 0 then f else TypeAll(mode, node, Type(mode, node, f, typed[0]), typed[1..])
  }

  lemma {:induction false} TypeAllKeepsLink(mode: Mode, node: TreeNode, f: Form, typed: seq<Keystroke>)
    requires !LinkFieldShown(mode, node)
    ensures TypeAll(mode, node, f, typed).linkTxt == f.linkTxt
    decreases |typed|
  {
    if |typed| > 0 {
      TypeAllKeepsLink(mode, node, Type(mode, node, f, typed[0]), typed[1..]);
    }
  }

  // ---------------------------------------------------------------- the new node

  /**
   The node built on confirm: the trimmed title as text, an empty child list,
   the link text as link (if non-empty), the row's folder and parent, sort 0.
   */
  function NewNode(node: TreeNode, f: Form, id: string): (r: TreeNode)
    requires !Rejected(node, f)
    ensures r.text == Trim(f.title.value) && r.text != ""
    ensures r.items == Items([]) && r.link == OrUndefined(f.linkTxt)
    ensures r.id == id && r.folderId == node.folderId && r.parentId == node.parentId
  {
    TreeNode(id, Trim(f.title.value), Items([]), OrUndefined(f.linkTxt), false, None, None,
             node.folderId, None, node.parentId, 0.0)
  }

  /** The folder sent when a sibling is added to a top row, under its own fresh id. */
  datatype Folder = Folder(id: string, title: string, linkTxt: Option<string>)

  datatype Request =
    | AddTreeNode(node: TreeNode)
    | AddFolder(folder: Folder)
    | RenameFolder(folder: Folder)
    | RenameTreeNode(id: string, name: string)
    | RemoveTreeNode(id: string)

  /** The next tree, the request sent (if any), the notice shown (if any), and whether the dialog closes. */
  datatype Outcome = Outcome(tree: seq<TreeNode>, request: Option<Request>, notice: Option<Notice>, closes: bool)

  // ---------------------------------------------------------------- add child

  /** The child appended under `n`: no parent id under a top row, else `n`'s id; sorted after `n`'s children. */
  function ChildFor(n: TreeNode, base: TreeNode): (c: TreeNode)
    ensures c.(parentId := base.parentId, sort := base.sort) == base
    ensures c.parentId.None? <==> n.isTop
    ensures !n.isTop ==> c.parentId == Some(n.id)
    ensures c.sort == CalculateSortValue(n)
  {
    base.(parentId := if n.isTop then None else Some(n.id), sort := CalculateSortValue(n))
  }

  /** What adding a child does to row `n` when its id matches. */
  function AppendNewChild(base: TreeNode): TreeNode -> TreeNode {
    n => AppendChild(n, ChildFor(n, base))
  }

  /**
   Add-child: every row of the tree whose id is the target's gets the new
   child last, whatever the server replies; one request is sent when the
   target is in the tree.
   */
  function ConfirmChild(prev: seq<TreeNode>, node: TreeNode, base: TreeNode, reply: Reply): (r: Outcome)
    ensures r.tree == Update(prev, node.id, AppendNewChild(base))
    ensures r.request.Some? <==> Find(prev, node.id).Some?
    ensures r.request.Some? ==> r.request.value == AddTreeNode(ChildFor(Find(prev, node.id).value, base))
    ensures r.notice.Some? <==> r.request.Some?
    ensures r.notice.Some? ==> r.notice.value == Report(reply)
    ensures Find(prev, node.id).None? ==> r.tree == prev
    ensures !r.closes
  {
    var tree := Update(prev, node.id, AppendNewChild(base));
    match Find(prev, node.id)
    case None => Outcome(tree, None, None, false)
    case Some(m) => Outcome(tree, Some(AddTreeNode(ChildFor(m, base))), Some(Report(reply)), false)
  }

  /** The tree after add-child does not depend on the server's reply. */
  lemma ChildIgnoresReply(prev: seq<TreeNode>, node: TreeNode, base: TreeNode, a: Reply, b: Reply)
    ensures ConfirmChild(prev, node, base, a).tree == ConfirmChild(prev, node, base, b).tree
  {
  }

  /**
   With the target's id occurring once, add-child rewrites exactly the
   target's subtree: the target's outline gains the new child as its last
   subtree, and every other line of the tree stays where it was.
   */
  lemma ChildOutline(prev: seq<TreeNode>, node: TreeNode, base: TreeNode, reply: Reply, d: nat)
    requires multiset(Ids(prev))[node.id] == 1
    ensures Find(prev, node.id).Some?
    ensures Rewrites(Outline(prev, d), Outline(ConfirmChild(prev, node, base, reply).tree, d),
                     IndexOf(Outline(prev, d), node.id), Find(prev, node.id).value,
                     AppendChild(Find(prev, node.id).value, ChildFor(Find(prev, node.id).value, base)))
  {
    UpdateOutline(prev, node.id, AppendNewChild(base), d);
  }

  /** Sort keys strictly increase along a sibling list. */
  predicate SortsIncrease(ns: seq<TreeNode>) {
    forall i, j :: 0 <= i < j < |ns| ==> ns[i].sort < ns[j].sort
  }

  /** Appending a node keyed above the last one keeps keys increasing. */
  lemma IncreasingAppend(c: seq<TreeNode>, x: TreeNode)
    requires SortsIncrease(c)
    requires |c| > 0 ==> x.sort > c[|c| - 1].sort
    ensures SortsIncrease(c + [x])
  {
    var c' := c + [x];
    forall i, j | 0 <= i < j < |c'|
      ensures c'[i].sort < c'[j].sort
    {
      if j == |c| {
        assert c'[i] == c[i] && c'[j] == x;
        assert i == |c| - 1 || c[i].sort < c[|c| - 1].sort;
      } else {
        assert c'[i] == c[i] && c'[j] == c[j];
      }
    }
  }

  /** Appending a child with the computed key keeps a row's children in increasing key order. */
  lemma ChildKeepsOrder(n: TreeNode, base: TreeNode)
    requires SortsIncrease(Children(n))
    ensures SortsIncrease(Children(AppendChild(n, ChildFor(n, base))))
  {
    IncreasingAppend(Children(n), ChildFor(n, base));
  }

  /** Two children added in turn under a childless row keyed 1 get the keys 1.0001 and 1.0002. */
  lemma ChildKeysExample(n: TreeNode, base: TreeNode)
    requires n.items == Items([]) && n.sort == 1.0
    ensures ChildFor(n, base).sort == 1.0001
    ensures ChildFor(AppendChild(n, ChildFor(n, base)), base).sort == 1.0002
  {
    var x := ChildFor(n, base);
    assert x.sort == 1.0001;
    var c' := Children(AppendChild(n, x));
    assert |c'| == 1 && c'[0] == x;
  }

  // ---------------------------------------------------------------- add sibling

  /** The sibling key: one thousandth above the reference's. */
  const SiblingSortStep: real := 0.001

  /** The sibling inserted after the reference `m`: the new node keyed one step above `m`. */
  function SiblingFor(m: TreeNode, base: TreeNode): (s: TreeNode)
    ensures s.(sort := base.sort) == base
    ensures s.sort == m.sort + SiblingSortStep && s.sort > m.sort
  {
    base.(sort := m.sort + SiblingSortStep)
  }

  /** A sibling added after a row keyed 1 is keyed 1.001. */
  lemma SiblingKeyExample(m: TreeNode, base: TreeNode)
    requires m.sort == 1.0
    ensures SiblingFor(m, base).sort == 1.001
  {
  }

  /**
   The sibling's key can pass the next sibling's: with siblings keyed 1 and
   1.0005, the node added after the first is keyed 1.001 and lands between
   them, so the list's keys no longer increase. A child's step is 0.0001, so
   keys of appended children sit this close together.
   */
  lemma SiblingKeyPassesNext(a: TreeNode, b: TreeNode, base: TreeNode)
    requires a.sort == 1.0 && b.sort == 1.0005
    ensures SortsIncrease([a, b])
    ensures InsertAfter([a, b], a.id, SiblingFor(a, base)) == [a, SiblingFor(a, base), b]
    ensures !SortsIncrease(InsertAfter([a, b], a.id, SiblingFor(a, base)))
  {
    var s := SiblingFor(a, base);
    assert [a, b][1..] == [b];
    assert [a, s] + [b] == [a, s, b];
    assert [a, s, b][1].sort > [a, s, b][2].sort;
  }

  /**
   Add-sibling: when the target is in the tree, a folder is requested for a
   top row and a tree node otherwise; the sibling goes right after the first
   pre-order occurrence of the target only when the server accepts. When the
   target is not in the tree nothing is sent and nothing changes.
   */
  function ConfirmSibling(prev: seq<TreeNode>, node: TreeNode, base: TreeNode, folder: Folder, reply: Reply): (r: Outcome)
    ensures Find(prev, node.id).None? ==> r == Outcome(prev, None, None, false)
    ensures Find(prev, node.id).Some? ==>
      && r.request == Some(if node.isTop then AddFolder(folder) else AddTreeNode(SiblingFor(Find(prev, node.id).value, base)))
      && r.notice == Some(Report(reply))
      && !r.closes
    ensures Ok(reply) ==> r.tree == InsertAfter(prev, node.id, SiblingFor(Find(prev, node.id).GetOr(node), base))
    ensures !Ok(reply) ==> r.tree == prev
  {
    match Find(prev, node.id)
    case None => Outcome(prev, None, None, false)
    case Some(m) =>
      var s := SiblingFor(m, base);
      var req := if node.isTop then AddFolder(folder) else AddTreeNode(s);
      Outcome(if Ok(reply) then InsertAfter(prev, node.id, s) else prev, Some(req), Some(Report(reply)), false)
  }

  /**
   On acceptance, the sibling's outline sits at the reference's depth right
   after the reference's subtree, every other line keeping its place, and its
   key is above the reference's.
   */
  lemma SiblingOutline(prev: seq<TreeNode>, node: TreeNode, base: TreeNode, folder: Folder, reply: Reply, d: nat)
    requires node.id in Ids(prev) && Ok(reply)
    ensures SplicedAt(Outline(prev, d), Outline(ConfirmSibling(prev, node, base, folder, reply).tree, d),
                      IndexOf(Outline(prev, d), node.id), Find(prev, node.id).value,
                      SiblingFor(Find(prev, node.id).value, base), true)
    ensures SiblingFor(Find(prev, node.id).value, base).sort > Find(prev, node.id).value.sort
  {
    InsertAfterOutline(prev, node.id, SiblingFor(Find(prev, node.id).value, base), d);
  }

  // ---------------------------------------------------------------- rename

  /**
   Rename: a top row is renamed as a folder (title and link text), any other
   row as a tree node; the local tree takes the trimmed title only when the
   server accepts. The dialog closes.
   */
  function ConfirmRename(prev: seq<TreeNode>, node: TreeNode, f: Form, reply: Reply): (r: Outcome)
    requires !Rejected(node, f)
    ensures r.request == Some(if node.isTop then RenameFolder(Folder(node.id, Trim(f.title.value), OrUndefined(f.linkTxt)))
                              else RenameTreeNode(node.id, Trim(f.title.value)))
    ensures r.notice == Some(Report(reply)) && r.closes
    ensures Ok(reply) ==> r.tree == Rename(prev, node.id, Trim(f.title.value))
    ensures !Ok(reply) ==> r.tree == prev
  {
    var text := Trim(f.title.value);
    var req := if node.isTop then RenameFolder(Folder(node.id, text, OrUndefined(f.linkTxt))) else RenameTreeNode(node.id, text);
    Outcome(if Ok(reply) then Rename(prev, node.id, text) else prev, Some(req), Some(Report(reply)), true)
  }

  /**
   An accepted rename changes texts only, leaves the tree's shape, ids, keys
   and links alone, gives the row the trimmed title, and renaming again with
   the same title changes nothing more.
   */
  lemma RenameOutline(prev: seq<TreeNode>, node: TreeNode, f: Form, reply: Reply, d: nat)
    requires !Rejected(node, f) && Ok(reply) && node.id in Ids(prev)
    ensures Untexted(Outline(ConfirmRename(prev, node, f, reply).tree, d)) == Untexted(Outline(prev, d))
    ensures Find(ConfirmRename(prev, node, f, reply).tree, node.id).Some?
    ensures Find(ConfirmRename(prev, node, f, reply).tree, node.id).value.text == Trim(f.title.value)
    ensures ConfirmRename(ConfirmRename(prev, node, f, reply).tree, node, f, reply).tree
            == ConfirmRename(prev, node, f, reply).tree
  {
    var text := Trim(f.title.value);
    RenameKeepsShape(prev, node.id, text, d);
    RenameFindsNewText(prev, node.id, text);
    RenameIdempotent(prev, node.id, text);
  }

  // ---------------------------------------------------------------- confirm

  /**
   `handleConfirmAddNode`: nothing happens when the form is rejected;
   otherwise the new node is built from the form and the mode's handler runs.
   Only a rename closes the dialog.
   */
  function Confirm(mode: Mode, prev: seq<TreeNode>, node: TreeNode, f: Form, nodeId: string, folderId: string,
                   reply: Reply): (r: Outcome)
    ensures Rejected(node, f) ==> r == Outcome(prev, None, None, false)
    ensures r.closes <==> mode == RenameMode && !Rejected(node, f)
    ensures r.request.Some? ==> r.notice == Some(Report(reply))
    ensures r.tree != prev ==> !Rejected(node, f) && r.request.Some?
    ensures !Rejected(node, f) && mode == ChildMode ==>
      r.tree == Update(prev, node.id, AppendNewChild(NewNode(node, f, nodeId)))
  {
    if Rejected(node, f) then Outcome(prev, None, None, false)
    else
      var base := NewNode(node, f, nodeId);
      match mode
      case ChildMode => ConfirmChild(prev, node, base, reply)
      case SiblingMode =>
        ConfirmSibling(prev, node, base, Folder(folderId, base.text, OrUndefined(f.linkTxt)), reply)
      case RenameMode => ConfirmRename(prev, node, f, reply)
  }

  // ---------------------------------------------------------------- remove

  /**
   `handleRemoveNode`: asks the server to remove the row and reports the
   reply; the local tree is never changed.
   */
  function RemoveFromMenu(prev: seq<TreeNode>, node: TreeNode, reply: Reply): (r: Outcome)
    ensures r.tree == prev && r.request == Some(RemoveTreeNode(node.id)) && !r.closes
    ensures r.notice.Some? && (r.notice.value.severity == Success <==> Ok(reply))
  {
    Outcome(prev, Some(RemoveTreeNode(node.id)), Some(Report(reply)), false)
  }
}
