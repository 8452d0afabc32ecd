/**
 The rows the sidebar is built from, as they come out of the sidebar view of
 the database, and their normalised form. A row's `id`, `folder_id`,
 `parent_id` and `note_id` are given as the text Python's `str` gives them,
 with `None` for a missing or null value. The sort column may be absent, null
 or a number; `float` of a null value raises.
 */
module SidebarRows {
  import opened Base

  datatype SortCell = Missing | Null | Number(value: real)

  datatype Row = Row(
    id: string,
    folderId: string,
    nodeTxt: Option<string>,
    nodeDotTxt: Option<string>,
    parentId: Option<string>,
    noteId: Option<string>,
    title: Option<string>,
    linkTxt: Option<string>,
    sort: SortCell)

  /** A normalised row. `text` is the folder title; `nodeTxt` is the node's own label. */
  datatype Item = Item(
    id: string,
    folderId: string,
    nodeTxt: Option<string>,
    parentId: Option<string>,
    noteId: Option<string>,
    text: Option<string>,
    linkTxt: Option<string>,
    sortOrder: real)

  /** The three values the builder reads as "no value": `None`, `''` and `'None'`. */
  predicate NoValue(v: Option<string>) {
    v == None || v == Some("") || v == Some("None")
  }

  /** Python's `a or b` on two optional strings. */
  function PyOr(a: Option<string>, b: Option<string>): Option<string> {
    if Truthy(a) then a else b
  }

  /**
   One row normalised: the label falls back from `node_txt` to `node.txt`,
   the parent is dropped when it is one of the "no value" values, and a
   missing sort counts as 0. A null sort makes `float` raise.
   */
  function Process(row: Row): (r: Option<Item>)
    ensures r.None? <==> row.sort.Null?
    ensures r.Some? ==> r.value.id == row.id && r.value.folderId == row.folderId && r.value.noteId == row.noteId
                        && r.value.text == row.title && r.value.linkTxt == row.linkTxt
    ensures r.Some? ==> (r.value.parentId.None? <==> NoValue(row.parentId))
    ensures r.Some? && r.value.parentId.Some? ==> r.value.parentId == row.parentId
    ensures r.Some? ==> r.value.sortOrder == if row.sort.Missing? then 0.0 else row.sort.value
    ensures r.Some? && Truthy(row.nodeTxt) ==> r.value.nodeTxt == row.nodeTxt
    ensures r.Some? && !Truthy(row.nodeTxt) ==> r.value.nodeTxt == row.nodeDotTxt
  {
    match row.sort
    case Null => None
    case Missing => Some(Normalised(row, 0.0))
    case Number(v) => Some(Normalised(row, v))
  }

  function Normalised(row: Row, sortOrder: real): Item {
    Item(
      row.id,
      row.folderId,
      PyOr(row.nodeTxt, row.nodeDotTxt),
      if NoValue(row.parentId) then None else row.parentId,
      row.noteId,
      row.title,
      row.linkTxt,
      sortOrder)
  }

  /** All rows normalised, in order; one null sort makes the whole build raise. */
  function ProcessAll(rows: seq<Row>): (r: Option<seq<Item>>)
    ensures r.None? <==> exists k :: 0 <= k < |rows| && rows[k].sort.Null?
    ensures r.Some? ==> |r.value| == |rows| && forall k :: 0 <= k < |rows| ==> Process(rows[k]) == Some(r.value[k])
  {
    if |rows| == 0 then Some([])
    else
      match (Process(rows[0]), ProcessAll(rows[1..]))
      case (Some(x), Some(xs)) =>
        assert forall k :: 1 <= k < |rows| ==> rows[k] == rows[1..][k - 1];
        Some([x] + xs)
      case (None, _) => None
      case (_, None) =>
        assert forall k :: 1 <= k < |rows| ==> rows[k] == rows[1..][k - 1];
        None
  }

  // ---------------------------------------------------------------- stable sort by sort order

  /**
   Python's `list.sort(key=sort_order)`: stable. Built as an insertion sort
   that puts each element before the first later one whose key is not
   smaller, so ties keep their input order.
   */
  function Insert(x: Item, t: seq<Item>): (r: seq<Item>)
    ensures |r| == |t| + 1
  {
    if |t| == 0 || x.sortOrder <= t[0].sortOrder then [x] + t else [t[0]] + Insert(x, t[1..])
  }

  function SortByOrder(s: seq<Item>): (r: seq<Item>)
    ensures |r| == |s|
  {
    if |s| == 0 then [] else Insert(s[0], SortByOrder(s[1..]))
  }

  predicate Ascending(s: seq<Item>) {
    forall i, j :: 0 <= i < j < |s| ==> s[i].sortOrder <= s[j].sortOrder
  }

  /** The elements whose key is `k`, in order. */
  function WithOrder(s: seq<Item>, k: real): seq<Item> {
    if |s| == 0 then [] else (if s[0].sortOrder == k then [s[0]] else []) + WithOrder(s[1..], k)
  }

  lemma Assoc(a: seq<Item>, b: seq<Item>, c: seq<Item>)
    ensures (a + b) + c == a + (b + c)
  {
  }

  lemma Cons(x: Item, t: seq<Item>)
    ensures ([x] + t)[0] == x && ([x] + t)[1..] == t && |[x] + t| == |t| + 1
  {
  }

  lemma {:induction false} InsertMultiset(x: Item, t: seq<Item>)
    ensures multiset(Insert(x, t)) == multiset(t) + multiset{x}
  {
    if |t| > 0 && x.sortOrder > t[0].sortOrder {
      InsertMultiset(x, t[1..]);
      assert t == [t[0]] + t[1..];
    }
  }

  lemma AscendingCons(h: Item, t: seq<Item>)
    requires Ascending(t)
    requires forall i :: 0 <= i < |t| ==> h.sortOrder <= t[i].sortOrder
    ensures Ascending([h] + t)
  {
    assert forall j :: 0 < j <= |t| ==> ([h] + t)[j] == t[j - 1];
  }

  /** A bound below `x` and below every element of `t` stays below every element after the insertion. */
  lemma {:induction false} InsertBound(x: Item, t: seq<Item>, b: real)
    requires b <= x.sortOrder
    requires forall i :: 0 <= i < |t| ==> b <= t[i].sortOrder
    ensures forall i :: 0 <= i < |Insert(x, t)| ==> b <= Insert(x, t)[i].sortOrder
  {
    if |t| == 0 || x.sortOrder <= t[0].sortOrder {
      Cons(x, t);
    } else {
      InsertBound(x, t[1..], b);
      Cons(t[0], Insert(x, t[1..]));
    }
  }

  lemma {:induction false} InsertAscending(x: Item, t: seq<Item>)
    requires Ascending(t)
    ensures Ascending(Insert(x, t))
  {
    if |t| == 0 || x.sortOrder <= t[0].sortOrder {
      AscendingCons(x, t);
    } else {
      InsertAscending(x, t[1..]);
      InsertBound(x, t[1..], t[0].sortOrder);
      AscendingCons(t[0], Insert(x, t[1..]));
    }
  }

  /** Inserting `x` in front of elements it precedes in the input keeps every key's run in input order. */
  lemma {:induction false} InsertWithOrder(x: Item, t: seq<Item>, k: real)
    ensures WithOrder(Insert(x, t), k) == (if x.sortOrder == k then [x] else []) + WithOrder(t, k)
  {
    var hx := if x.sortOrder == k then [x] else [];
    if |t| == 0 || x.sortOrder <= t[0].sortOrder {
      Cons(x, t);
    } else {
      var h0 := if t[0].sortOrder == k then [t[0]] else [];
      InsertWithOrder(x, t[1..], k);
      Cons(t[0], Insert(x, t[1..]));
      assert WithOrder(Insert(x, t), k) == h0 + (hx + WithOrder(t[1..], k));
      assert WithOrder(t, k) == h0 + WithOrder(t[1..], k);
      if x.sortOrder == k {
        assert h0 == [];
        assert [] + (hx + WithOrder(t[1..], k)) == hx + WithOrder(t[1..], k);
        assert [] + WithOrder(t[1..], k) == WithOrder(t[1..], k);
      } else {
        assert hx == [];
        assert h0 + ([] + WithOrder(t[1..], k)) == h0 + WithOrder(t[1..], k);
        assert [] + (h0 + WithOrder(t[1..], k)) == h0 + WithOrder(t[1..], k);
      }
    }
  }

  lemma {:induction false} SortAscending(s: seq<Item>)
    ensures Ascending(SortByOrder(s))
  {
    if |s| > 0 {
      SortAscending(s[1..]);
      InsertAscending(s[0], SortByOrder(s[1..]));
    }
  }

  lemma {:induction false} SortPermutes(s: seq<Item>)
    ensures multiset(SortByOrder(s)) == multiset(s)
  {
    if |s| > 0 {
      SortPermutes(s[1..]);
      InsertMultiset(s[0], SortByOrder(s[1..]));
      assert s == [s[0]] + s[1..];
    }
  }

  lemma {:induction false} SortStable(s: seq<Item>, k: real)
    ensures WithOrder(SortByOrder(s), k) == WithOrder(s, k)
  {
    if |s| > 0 {
      SortStable(s[1..], k);
      InsertWithOrder(s[0], SortByOrder(s[1..]), k);
    }
  }

  /** The sort keeps exactly the elements of its input. */
  lemma SortMembers(s: seq<Item>)
    ensures forall x :: x in SortByOrder(s) <==> x in s
  {
    SortPermutes(s);
    forall x
      ensures x in SortByOrder(s) <==> x in s
    {
      assert x in SortByOrder(s) <==> x in multiset(SortByOrder(s));
    }
  }

  /**
   The sort's result is in ascending key order, holds the same elements as
   often as the input, and lists the elements of each key in input order.
   */
  lemma SortLaws(s: seq<Item>)
    ensures Ascending(SortByOrder(s))
    ensures multiset(SortByOrder(s)) == multiset(s)
    ensures forall k :: WithOrder(SortByOrder(s), k) == WithOrder(s, k)
  {
    SortAscending(s);
    SortPermutes(s);
    forall k
      ensures WithOrder(SortByOrder(s), k) == WithOrder(s, k)
    {
      SortStable(s, k);
    }
  }

  /** Two rows with 2.0 and one with 1.0: the 1.0 row moves first and the two 2.0 rows keep their order. */
  lemma SortExample(a: Item, b: Item, c: Item)
    requires a.sortOrder == 2.0 && b.sortOrder == 2.0 && c.sortOrder == 1.0
    ensures SortByOrder([a, b, c]) == [c, a, b]
  {
    assert [a, b, c][1..] == [b, c];
    assert [b, c][1..] == [c];
    assert [c][1..] == [];
    assert SortByOrder([c]) == [c];
    assert Insert(b, [c]) == [c, b];
    assert [c, b][1..] == [b];
    assert Insert(a, [b]) == [a, b];
    assert Insert(a, [c, b]) == [c] + Insert(a, [b]);
  }
}
