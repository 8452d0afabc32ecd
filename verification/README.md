# A Dafny model of the note tree

This project models the tree engine of a Markdown note editor. The editor keeps its notes in folders and shows them as a tree. The tree is sorted by drag and drop between the tree and a "data source" list, edited from a context menu, and served to a static-site sidebar. The model covers five parts:

- **The client-side tree index** (`TreeUtils`, `Outlines`, `TreeOrder`):
  - find, update, add-child, insert-before, insert-after, add-sibling, remove and rename over a forest of tree nodes;
  - the fractional sort key given to an appended child.

  Each operation is stated twice. Once as a recursive function, as the source writes it. Once against an independent reference: the pre-order *outline* of the forest, a sequence of (node without children, depth) lines. The lemmas relate the two:
  - find returns the subtree at the first outline line that carries the id;
  - update, add-child and rename act on every top-most match, stated position by position (a path of indices from the top list down); with the id occurring once, they rewrite exactly one subtree of the outline;
  - insert splices a subtree next to the reference's subtree;
  - remove is a filter on the outline that drops each matching line with its deeper lines;
  - rename changes texts only.
- **A tree row's drop target and context menu** (`DropResolver`, `TreeEdit`):
  - the hover rule that turns the cursor and the row's box into a drop position, and the drop call it feeds;
  - the add-child, add-sibling and rename dialog;
  - the remove entry.

  A server reply is an input. Each handler is a function from (tree, row, form, reply) to (next tree, request sent, notice shown, dialog closes).
- **Loading the read-only tree view** (`TreeLoad`):
  - the server's groups are merged, with each group's first node marked as top;
  - the expanded ids are collected;
  - every failure path leaves the tree and shows an error text.
- **The sorting workspace list** (`Workspace`): the three list updates made when items are dragged between the tree and the data-source list. JavaScript object identity is an explicit reference number.
- **The server-side sidebar builder** (`SidebarRows`, `KeyedLists`, `Sidebar`):
  - `build_nested_structure`: rows are normalised, grouped by `link_txt` and then by folder, and sorted stably by `sort`. Each folder with a parentless row gives one top entry under the key `/{link_txt}/`, and only two levels are kept;
  - the later merge of folders that hold no tree node.

  A Python `dict` is an insertion-ordered list of slots.

Three behaviours of the code as written are worth knowing. All are modelled as written:

- **Add-child on a top row never succeeds.** Confirm rejects a top row whose link text is blank, but the add-child dialog opens with no link text and does not show that field (`TreeEdit.ChildOnTopRejected`).
- **A sibling's key can pass the next sibling's.** A sibling goes right after the reference with a key 0.001 above it, but an appended child's key is only 0.0001 above the previous one. With siblings keyed 1 and 1.0005, the new node is keyed 1.001 and sits between them (`TreeEdit.SiblingKeyPassesNext`).
- **"Folder" means two different things.** A row counts as a folder for dropping when it has no link, and for the context menu when it has a child list (`DropResolver.FolderNotionsDiffer`).

## Model

| member | source | states |
|---|---|---|
| Base.Trim | src/com/DraggableTreeItem.tsx:172-177 | `trim()` gives a slice of the input with only ECMAScript white space cut from either end; it neither starts nor ends with white space; it is empty exactly when the input is all white space |
| Base.OrElse | src/com/DraggableTreeItem.tsx:155 | the JavaScript or-fallback of an optional string is the string when it is non-empty, else the fallback |
| Base.OrUndefined | src/com/DraggableTreeItem.tsx:179 | the or-undefined of an optional string is absent exactly when the string is absent or empty, else the string itself |
| TreeUtils.Find | src/utils/treeUtils.ts:9-22 | finding an id gives no node exactly when no node at any depth has that id; otherwise it gives a node with that id |
| TreeOrder.FindOutline | src/utils/treeUtils.ts:9-22 | the node found is the whole subtree that starts at the first pre-order line carrying the id, so with duplicates the first in pre-order wins |
| TreeUtils.Update | src/utils/treeUtils.ts:25-42 | at the top level: the list keeps its length; each matching node becomes `f` of itself; every other node keeps all its fields and the kind and length of its child list. An id that occurs nowhere leaves the forest equal to the input |
| TreeOrder.UpdateAt | src/utils/treeUtils.ts:25-42 | at every depth, for any forest, with ids repeated or not: a position that no match lies above exists after the update exactly when it existed before, so every such sibling list keeps its length; a top-most match becomes `f` of itself and its items are not searched; every other node keeps all its fields and the kind and length of its child list |
| TreeOrder.UpdateOutline | src/utils/treeUtils.ts:25-42 | with the id occurring once, the outline after the update is the old outline with exactly the matched node's subtree replaced by that of `f` of it, at the same depth |
| TreeUtils.AddChild | src/utils/treeUtils.ts:45-65 | at the top level: each node whose id matches keeps its other fields and gets the new node as the last element of its child list, which is created when absent; other nodes keep their fields. An absent parent id leaves the forest equal to the input |
| TreeOrder.AddChildAt | src/utils/treeUtils.ts:45-65 | at every depth, for any forest: every top-most node with the parent id keeps its other fields and gets the new node last in its child list, created when absent; every node above or beside the matches keeps its fields and the kind and length of its child list; the positions above the matches are the same before and after |
| TreeOrder.AddChildIsUpdate | src/utils/treeUtils.ts:45-65 | adding a child is the update that appends the node to the matching node's children |
| TreeOrder.AddChildOutline | src/utils/treeUtils.ts:45-65 | with the parent id occurring once, only the parent's subtree changes in the outline: it becomes the parent's subtree with the new subtree one level deeper after all its descendants |
| TreeOrder.AppendChildOutline | src/utils/treeUtils.ts:52-55 | a node with a child appended has the node's line, its old descendants, then the child's subtree one level down |
| TreeUtils.InsertBefore | src/utils/treeUtils.ts:94-117 | a reference id that occurs nowhere leaves the forest unchanged; otherwise the forest gains exactly the nodes of the new subtree |
| TreeOrder.InsertBeforeOutline | src/utils/treeUtils.ts:94-117 | the new subtree enters the outline at the reference's depth, directly before the first pre-order occurrence of the reference; every other line keeps its relative place |
| TreeUtils.InsertAfter | src/utils/treeUtils.ts:120-143 | a reference id that occurs nowhere leaves the forest unchanged; otherwise the forest gains exactly the nodes of the new subtree |
| TreeUtils.AddSibling | src/utils/treeUtils.ts:68-91 | a reference id that occurs nowhere leaves the forest unchanged; otherwise the forest gains exactly the nodes of the new subtree |
| TreeOrder.InsertAfterOutline | src/utils/treeUtils.ts:68-143 | `addSiblingNode` and `insertAfterNode` give the same forest: the new subtree enters the outline at the reference's depth, directly after the reference's whole subtree; every other line keeps its relative place |
| TreeOrder.SpliceOutline | src/utils/treeUtils.ts:94-143 | the shared splice puts the new subtree before or after the subtree of the first pre-order occurrence of the reference, in that node's sibling list |
| TreeUtils.Remove | src/utils/treeUtils.ts:146-158 | no node with the id is left at any depth; neither the top list nor the total node count grows; an id that occurs nowhere leaves the forest equal to the input. Which nodes survive, and where, is stated by `TreeOrder.RemoveOutline` |
| TreeOrder.RemoveOutline | src/utils/treeUtils.ts:146-158 | the outline after removal equals the reference filter: every line with the id goes, together with the deeper lines that follow it (its subtree); every other line stays, in order |
| TreeOrder.RemoveLaws | src/utils/treeUtils.ts:146-158 | after removal, find gives no node for the id; every surviving line was in the old outline and does not carry the id; the surviving lines are a subsequence of the old ones, so they keep their relative order |
| TreeUtils.Rename | src/utils/treeUtils.ts:161-181 | at the top level: each matching node gets the new text and nothing else changes on it; the other nodes keep their fields and the kind and length of their child lists. An absent id leaves the forest unchanged |
| TreeOrder.RenameAt | src/utils/treeUtils.ts:161-181 | at every depth, for any forest: every top-most match gets the new text and keeps everything else, its children included; every other node above or beside the matches keeps its fields and the kind and length of its child list; the positions above the matches are the same before and after |
| TreeOrder.RenameIsUpdate | src/utils/treeUtils.ts:161-181 | renaming equals the update that sets the text |
| TreeOrder.RenameIdempotent | src/utils/treeUtils.ts:161-181 | renaming twice with the same text equals renaming once |
| TreeOrder.RenameKeepsShape | src/utils/treeUtils.ts:161-181 | with texts blanked out, the outline before and after a rename is the same, so shape, ids, depths and sort keys are unchanged |
| TreeOrder.RenameFindsNewText | src/utils/treeUtils.ts:161-181 | after renaming an id present in the forest, find gives a node with the new text |
| TreeUtils.CalculateSortValue | src/utils/treeUtils.ts:184-191 | the new key is strictly greater than the last child's key, or than the node's own key when the child list is absent or empty |
| DropResolver.Resolve | src/com/DraggableTreeItem.tsx:77-101 | no position exactly when the cursor is outside the box (edges inclusive); inside, a row without a link gives child; a row with a link gives top exactly when the cursor is more than 10 above the middle, and bottom otherwise |
| DropResolver.DeadZoneIsBottom | src/com/DraggableTreeItem.tsx:95-101 | inside a linked row, the band of 10 either side of the middle resolves to bottom |
| DropResolver.ResolveMonotone | src/com/DraggableTreeItem.tsx:95-101 | moving the cursor up inside a row never loses top; moving it down never loses bottom |
| DropResolver.ResolveExamples | src/com/DraggableTreeItem.tsx:77-101 | for a box from 100 to 140, height 108 gives top and heights 120 and 132 give bottom; a row without a link gives child; height 141 gives none |
| DropResolver.FolderNotionsDiffer | src/com/DraggableTreeItem.tsx:41-94 | a row with neither link nor child list drops as a folder (child) but is not a folder to the menu; a row with both is a folder to the menu but never takes a child drop |
| DropResolver.Step | src/com/DraggableTreeItem.tsx:71-122 | the page is called exactly on a drop of an item from the data source, with that item, the row and the position held; a drop or leaving the row resets the position; an unusable hover keeps it |
| DropResolver.Run | src/com/DraggableTreeItem.tsx:103-110 | over any run of events, the page gets exactly one call per drop from the data source and none for other events |
| DropResolver.DropAfterHover | src/com/DraggableTreeItem.tsx:71-110 | a drop right after a usable hover carries the position that hover resolved |
| DropResolver.DropAfterReset | src/com/DraggableTreeItem.tsx:103-122 | after a drop or after the cursor leaves, the next drop carries no position |
| TreeEdit.Report | src/com/DraggableTreeItem.tsx:149-161 | success exactly on code 200, with the server's message; otherwise an error with the server's message or `接口返回失败`, or with the thrown error's message or `接口调用失败` |
| TreeEdit.OpenForm | src/com/DraggableTreeItem.tsx:163-169 | the rename dialog opens with the row's text and link text (empty when absent); the others open with both fields unset |
| TreeEdit.TypeLink | src/com/DraggableTreeItem.tsx:448-456 | the link text field changes the form only when shown: adding a sibling to, or renaming, a top row |
| TreeEdit.TypeAllKeepsLink | src/com/DraggableTreeItem.tsx:448-456 | while the link text field is hidden, no sequence of edits to either field changes the form's link text |
| TreeEdit.ChildOnTopRejected | src/com/DraggableTreeItem.tsx:172-174 | whatever is typed, confirming the add-child dialog of a top row is rejected |
| TreeEdit.NewNode | src/com/DraggableTreeItem.tsx:175-183 | for an accepted form, the new node's text is the trimmed title, which is not empty; it has an empty child list, the link text (or none) as link, and the row's folder and parent |
| TreeEdit.ChildFor | src/com/DraggableTreeItem.tsx:192-198 | the child differs from the built node only in parent and key: no parent under a top row, the row's id otherwise, and the key from `calculateSortValue` of the row |
| TreeEdit.ConfirmChild | src/com/DraggableTreeItem.tsx:189-227 | the tree is updated whatever the reply: every row with the target's id gets its own child last; a request and a notice follow exactly when the target is in the tree; an absent target leaves the tree as it was; the dialog stays open |
| TreeEdit.ChildIgnoresReply | src/com/DraggableTreeItem.tsx:199-212 | the tree after add-child is the same for any two replies |
| TreeEdit.ChildOutline | src/com/DraggableTreeItem.tsx:189-227 | with the target's id occurring once, only the target's subtree changes: it gains the new child as its last subtree |
| TreeEdit.ChildKeepsOrder | src/utils/treeUtils.ts:184-191 | when a row's children have increasing keys, they still do after a child is added with the computed key |
| TreeEdit.ChildKeysExample | src/utils/treeUtils.ts:184-191 | two children added in turn under a childless row with key 1 get keys 1.0001 and 1.0002 |
| TreeEdit.SiblingFor | src/com/DraggableTreeItem.tsx:233 | the sibling differs from the built node only in its key, which is the reference's key plus 0.001 and so above it |
| TreeEdit.SiblingKeyExample | src/com/DraggableTreeItem.tsx:233 | a sibling added after a row keyed 1 is keyed 1.001 |
| TreeEdit.SiblingKeyPassesNext | src/com/DraggableTreeItem.tsx:229-238 | with siblings keyed 1 and 1.0005, the sibling added after the first is keyed 1.001 yet lands between them, so the keys of that list stop increasing |
| TreeEdit.ConfirmSibling | src/com/DraggableTreeItem.tsx:228-279 | when the target is absent, nothing is sent and nothing changes; otherwise a folder (top row) or a tree node is requested and its reply reported; the sibling goes after the target only on code 200; on any other reply the tree is unchanged |
| TreeEdit.SiblingOutline | src/com/DraggableTreeItem.tsx:229-260 | on acceptance, the sibling's subtree sits at the reference's depth directly after the reference's subtree, every other line keeping its place, and its key is above the reference's |
| TreeEdit.ConfirmRename | src/com/DraggableTreeItem.tsx:280-319 | a top row is sent as a folder rename (trimmed title, link text), any other row as a node rename; the tree takes the trimmed title only on code 200 and is unchanged otherwise; the notice reports the reply; the dialog closes |
| TreeEdit.RenameOutline | src/com/DraggableTreeItem.tsx:288-308 | an accepted rename changes texts only, gives the row the trimmed title, and repeating it changes nothing more |
| TreeEdit.Confirm | src/com/DraggableTreeItem.tsx:171-320 | a rejected form changes nothing and sends nothing; only an accepted rename closes the dialog; the tree changes only when a request was sent; add-child builds its child from the trimmed form |
| TreeEdit.RemoveFromMenu | src/com/DraggableTreeItem.tsx:149-161 | removing from the menu never changes the local tree; it sends the row's id and reports success exactly on code 200 |
| TreeLoad.CollectExpanded | src/com/TreeViewComponentNoDrag.tsx:58-67 | at most one id per node of the forest |
| TreeLoad.ExpandedOf | src/com/TreeViewComponentNoDrag.tsx:58-67 | the reference: an id is listed exactly when some outline line carries it with `collapsed` equal to `"false"` |
| TreeLoad.CollectExpandedOutline | src/com/TreeViewComponentNoDrag.tsx:58-67 | `collectExpanded` lists exactly the expanded nodes at any depth, in pre-order |
| TreeLoad.MarkTop | src/com/TreeViewComponentNoDrag.tsx:70 | the group's first node is marked top and the rest of the group is unchanged |
| TreeLoad.Merge | src/com/TreeViewComponentNoDrag.tsx:69-75 | the merged tree has as many nodes as the groups together |
| TreeLoad.MergeMarksStarts | src/com/TreeViewComponentNoDrag.tsx:69-73 | each node of the merged tree is the node at the same place in the groups laid end to end, marked top exactly when a group starts there; no other node's `isTop` changes |
| TreeLoad.MergeTopsAtStarts | src/com/TreeViewComponentNoDrag.tsx:70 | every group start holds a top node that otherwise equals the node sent |
| TreeLoad.MergeSameExpanded | src/com/TreeViewComponentNoDrag.tsx:69-73 | marking top nodes does not change the expanded ids |
| TreeLoad.CollectExpandedAppend | src/com/TreeViewComponentNoDrag.tsx:69-73 | collecting group by group equals collecting over the groups laid end to end |
| TreeLoad.MergeExpanded | src/com/TreeViewComponentNoDrag.tsx:58-73 | the expanded ids are the expanded lines of the groups' outline, group by group |
| TreeLoad.NatText | src/com/TreeViewComponentNoDrag.tsx:49 | a status number prints as a non-empty run of decimal digits with no leading zero |
| TreeLoad.NatTextValue | src/com/TreeViewComponentNoDrag.tsx:49 | the status text read as a decimal numeral is the status itself, so `${response.status}` prints exactly that number |
| TreeLoad.Load | src/com/TreeViewComponentNoDrag.tsx:43-85 | the spinner stops; the error is cleared exactly when the body has code 200 and no empty group; then the merged tree and its expanded ids are shown; otherwise the previous tree and expanded ids stay, and the error is the status text, the server's message or `接口返回失败`, the empty-group error, or the thrown error's message or `获取数据失败` |
| TreeLoad.LoadShows | src/com/TreeViewComponentNoDrag.tsx:53-76 | after a successful load the tree is the groups end to end with exactly the group starts marked top, and the expanded ids are the expanded nodes in pre-order |
| Workspace.DropToDataSource | src/page/Sorting.tsx:96-107 | the dropped node is appended and earlier elements are unchanged; removal from the tree is requested, with the node's id, exactly when the tree is mounted and the id is non-empty |
| Workspace.DropToTreeRoot | src/page/Sorting.tsx:110-122 | exactly the element at the drag's index is removed and the rest keep their order; the length drops by one when the index is in range; otherwise the list is unchanged; the element itself, not the drag wrapper, goes to the tree when it is mounted |
| Workspace.WithoutMembers | src/page/Sorting.tsx:128-131 | filtering by identity keeps exactly the elements that are not the dropped object |
| Workspace.WithoutCounts | src/page/Sorting.tsx:128-131 | every other element is kept as often as before, and the length drops by the number of copies of the dropped object |
| Workspace.WithoutAbsent | src/page/Sorting.tsx:128-131 | a list that does not hold the object is returned unchanged |
| Workspace.WithoutAppend | src/page/Sorting.tsx:128-131 | filtering distributes over concatenation |
| Workspace.DropToTreeNode | src/page/Sorting.tsx:125-133 | every element identical to the dropped one leaves the list, the others stay in order, and the length drops by the number removed |
| Workspace.DropTakesOut | src/page/Sorting.tsx:125-133 | dropping an element held once removes exactly that element; the others keep their places |
| Workspace.RoundTrip | src/page/Sorting.tsx:96-133 | a node dropped on the list and dragged straight back onto a row leaves the list as it was |
| SidebarRows.Process | main_note.py:442-464 | a row fails exactly when its sort is null; otherwise its ids, note id, title and link text are kept; the label falls back from `node_txt` to `node.txt`; the parent is dropped exactly when it is `None`, `''` or `'None'` and otherwise kept; a missing sort counts as 0 |
| SidebarRows.ProcessAll | main_note.py:441-464 | normalising fails exactly when some row's sort is null; otherwise each row is normalised in place |
| SidebarRows.SortLaws | main_note.py:490 | the sort gives ascending keys, holds the same elements as often as the input, and keeps each key's elements in input order (stable) |
| SidebarRows.SortAscending | main_note.py:490 | the sorted list is in ascending key order |
| SidebarRows.SortPermutes | main_note.py:490 | the sort is a permutation of its input |
| SidebarRows.SortStable | main_note.py:490 | for every key, the elements with that key keep their input order |
| SidebarRows.SortMembers | main_note.py:490 | the sort keeps exactly the input's elements |
| SidebarRows.InsertWithOrder | main_note.py:490 | inserting an element keeps every key's run in input order, with the element first in its own run |
| SidebarRows.SortExample | main_note.py:490 | two rows keyed 2.0 and one keyed 1.0: the 1.0 row moves first and the two 2.0 rows keep their order |
| KeyedLists.Put | main_note.py:388 | assigning to a key keeps every existing key in place, adds a new key last, and puts the new list at the key |
| KeyedLists.PutLaws | main_note.py:388-389 | after an assignment, the keys stay unique, the key reads the new list, every other key reads its old list, and the key set gains just that key |
| KeyedLists.AddEntry | main_note.py:571-573 | appending under a key adds a slot only when the key is new |
| KeyedLists.AddEntryLaws | main_note.py:571-573 | appending under a key keeps keys unique, extends that key's list by the entry, leaves every other key's list, and adds just that key |
| KeyedLists.AddEntryTotal | main_note.py:571-573 | appending under a key adds one to the total number of entries |
| Sidebar.Key | main_note.py:571 | a key is `/`, the printed `link_txt` (`None` when absent), `/` |
| Sidebar.LinkFor | main_note.py:515-517 | a node has a link exactly when its note id is not `None`, `''` or `'None'`; the link is the key followed by the note id |
| Sidebar.Leaves | main_note.py:524-536 | each child row becomes one childless node, in order |
| Sidebar.TopsMembers | main_note.py:487 | the folder's top rows are exactly its rows without a parent |
| Sidebar.KidsMembers | main_note.py:497-498 | a top row's child rows are exactly the folder's rows whose parent is that row's id |
| Sidebar.Nodes | main_note.py:495-552 | one node per top row, in the given order |
| Sidebar.FolderList | main_note.py:487-552 | one node per parentless row of the folder |
| Sidebar.NodeForFacts | main_note.py:503-552 | a top row's node, without its child fields, is the row as a node, with the row's id and sort |
| Sidebar.FolderTopAt | main_note.py:487-552 | the folder list's node at each place is the node for a parentless row of the folder, in sorted order |
| Sidebar.FolderTopOf | main_note.py:487-495 | every parentless row of the folder is shown as a top node at some place |
| Sidebar.FolderTops | main_note.py:487-495 | the folder list shows exactly the parentless rows of the folder, each as a top node, in ascending sort order |
| Sidebar.FolderSorted | main_note.py:490 | the top nodes of a folder list are in ascending sort order |
| Sidebar.KidListEmpty | main_note.py:497-503 | a top row's child list is non-empty exactly when some row of the folder has it as parent |
| Sidebar.KidListOnly | main_note.py:524-536 | every child node is a row whose parent is the top row, and has no items and no `collapsed` |
| Sidebar.KidListAll | main_note.py:497-498 | every row of the folder whose parent is the top row appears among its children |
| Sidebar.KidListSorted | main_note.py:500 | children appear in ascending sort order |
| Sidebar.FolderChildren | main_note.py:497-552 | a top node has `items` exactly when it has `collapsed = 'false'`, and exactly when some row has it as parent; its items are exactly those rows, in ascending sort order, without items of their own |
| Sidebar.FolderRows | main_note.py:487-498 | only two levels are kept: a row is shown in its folder's list exactly when it has no parent, or its parent is a parentless row of the same folder |
| Sidebar.FolderNotShown | main_note.py:497-498 | a row whose parent is not a parentless row of the folder is shown nowhere in the list |
| Sidebar.DistinctLaws | main_note.py:467-472 | the keys of a dict filled from a list are exactly the list's values, each once |
| Sidebar.WithLinkMembers | main_note.py:467-472 | a `link_txt` group holds exactly the rows with that `link_txt` |
| Sidebar.WithFolderMembers | main_note.py:477-482 | a folder group holds exactly the rows of that folder |
| Sidebar.FolderGroups | main_note.py:477-485 | one folder group per folder id, holding that folder's rows in order |
| Sidebar.FoldersUnderAt | main_note.py:475-485 | each folder group under a `link_txt` holds exactly the rows with its `link_txt` and folder |
| Sidebar.GroupsForAt | main_note.py:475-485 | every group visited holds exactly the rows with its `link_txt` and folder |
| Sidebar.GroupsForCover | main_note.py:467-485 | every row's (`link_txt`, folder) pair has a group |
| Sidebar.GroupsForDistinct | main_note.py:467-485 | no two groups share a (`link_txt`, folder) pair |
| Sidebar.GroupsLaws | main_note.py:466-485 | the groups partition the rows: each holds exactly the rows with its `link_txt` and folder, every row's pair has a group, and no pair has two |
| Sidebar.EntryForLaws | main_note.py:555-565 | the top entry's row is the first parentless row of the least sort, ties going to row order; the entry's id and folder id are the folder's id; its number is the count of keys so far; it holds the folder list and has no parent |
| Sidebar.AddGroupLaws | main_note.py:554-573 | a folder with a parentless row appends its entry to the list under its key, numbered with the keys before it; nothing else changes; a folder without one adds nothing |
| Sidebar.AddGroupsLaws | main_note.py:484-573 | over all groups the keys stay unique, one entry is added per group with a parentless row, and the keys added are exactly those groups' keys |
| Sidebar.Build | main_note.py:434-575 | the build fails exactly when some row's sort is null |
| Sidebar.BuildLaws | main_note.py:434-575 | the built sidebar has unique keys, one entry per (`link_txt`, folder) group holding a parentless row, and its keys are exactly the `/{link_txt}/` of the parentless rows |
| Sidebar.GroupKeyIsRowKey | main_note.py:466-573 | a key comes from a group with a parentless row exactly when it comes from a parentless row |
| Sidebar.MergeEmptyAt | main_note.py:376-389 | after merging the empty folders, a key no empty folder maps to keeps its list; a key some empty folder maps to holds exactly one entry, with no items, for the last such folder, whatever it held before; keys stay unique and the key set grows by the folders' keys |

## Left out

- HTTP calls, React state, effects, refs, snackbars and dialog rendering: a server reply is an input. The request a handler sends is part of its result.
- The SQL queries and FastAPI endpoints around the sidebar builder: rows and the folders without nodes are inputs.
- `generateUniqueId` draws on crypto randomness, so fresh ids are parameters. The sibling dialog on a top row sends a folder whose id differs from the inserted node's. Both ids are parameters.
- Floating point: sort keys, pixel coordinates and Python floats are reals. Rounding and precision exhaustion are not modelled.
- TreeUtils.CalculateSortValue: the contract states that the key strictly increases. The exact step of 0.0001 is pinned only by `TreeEdit.ChildKeysExample`.
- TreeUtils.InsertBefore, TreeUtils.InsertAfter and TreeUtils.AddSibling: their own contracts state not-found and the node count. Placement is stated by `TreeOrder.InsertBeforeOutline` and `TreeOrder.InsertAfterOutline`.
- TreeOrder.UpdateOutline, TreeOrder.AddChildOutline and TreeEdit.ChildOutline: they require the id to occur once. With duplicate ids, `TreeOrder.UpdateAt`, `TreeOrder.AddChildAt` and `TreeOrder.RenameAt` state what happens at every top-most match.
- TreeEdit.ConfirmChild: the source sends one add request per matching row. With duplicate ids the model sends one request, for the first match in pre-order. The shared `newNode` object that the source mutates per match is modelled as one child per match.
- Object identity:
  - `newItems !== nodes[i].items` in the insert functions is an explicit found result;
  - the in-place `splice` on a published array after the reply is the tree after the reply;
  - data-source elements carry an explicit reference number.
- Workspace.DropToTreeNode: which object the tree view passes to the handler is decided in a component that is not part of this model. The handler's argument is an input.
- TreeLoad.Load: the message of the exception that JavaScript raises when writing to the first node of an empty group comes from the engine, so it is a parameter. `Object.values` order for integer-like keys is not modelled; the groups are given in the order they are read.
- The confirm button's `disabled` state (src/com/DraggableTreeItem.tsx:469) only applies when the title is empty, a form that confirm already rejects. It does not change any outcome and is not modelled.
- Sidebar.EntryForLaws: the `link_txt + '手册'` fallback for the entry's text is unreachable, because an entry is only built when the folder has a parentless row. It is not modelled.
- Sidebar ids, folder ids, parent ids and note ids are the text Python's `str` gives them. The conversion of database values to text is not modelled. A `float` of a non-numeric sort is not modelled; only the null sort raises.
- The two-level tree that the sidebar sends is not converted back into client tree nodes. That conversion happens in the server's JSON and the client's types, which carry no logic.
