/**
 Where a data-source item dropped on a tree row will go. While an item hovers
 over a row, the row works out a drop position from the cursor and its own
 bounding box: above the row, below it, or as a child. A drop then forwards the
 last position to the page. Pixel coordinates are modelled as reals.
 */
module DropResolver {
  import opened Base
  import opened TreeUtils

  datatype Point = Point(x: real, y: real)

  /** A bounding box in client coordinates, as `getBoundingClientRect` reports it. */
  datatype Rect = Rect(left: real, top: real, right: real, bottom: real)

  /** `'top' | 'bottom' | 'child'`; the source's `null` is `None` of an `Option<Position>`. */
  datatype Position = Top | Bottom | Child

  /** Half the height of the band around a row's middle line. */
  const DeadZone: real := 10.0

  /** The cursor lies in the box, edges included. */
  predicate Inside(p: Point, r: Rect) {
    r.left <= p.x <= r.right && r.top <= p.y <= r.bottom
  }

  /** The cursor's height above the row's top edge. */
  function RelY(p: Point, r: Rect): real {
    p.y - r.top
  }

  /** Half the row's height, measured from its top edge. */
  function Mid(r: Rect): real {
    (r.bottom - r.top) / 2.0
  }

  /**
   The hover rule. Outside the box there is no position. Inside, a row
   without a link takes the item as a child. A row with a link takes it above
   when the cursor is more than `DeadZone` above the middle, and below
   otherwise, the band around the middle included.
   */
  function Resolve(p: Point, r: Rect, link: Option<string>): (res: Option<Position>)
    ensures res.None? <==> !Inside(p, r)
    ensures Inside(p, r) && !Truthy(link) ==> res == Some(Child)
    ensures Inside(p, r) && Truthy(link) ==> res.Some? && res.value != Child
    ensures res == Some(Top) <==> Inside(p, r) && Truthy(link) && RelY(p, r) < Mid(r) - DeadZone
  {
    if !Inside(p, r) then None
    else if !Truthy(link) then Some(Child)
    else if RelY(p, r) < Mid(r) - DeadZone then Some(Top)
    else if RelY(p, r) > Mid(r) + DeadZone then Some(Bottom)
    else Some(Bottom)
  }

  /** Inside a linked row, the band of `DeadZone` around the middle counts as below. */
  lemma DeadZoneIsBottom(p: Point, r: Rect, link: Option<string>)
    requires Inside(p, r) && Truthy(link)
    requires Mid(r) - DeadZone <= RelY(p, r) <= Mid(r) + DeadZone
    ensures Resolve(p, r, link) == Some(Bottom)
  {
  }

  /**
   Within one linked row, moving the cursor up never turns `Top` into
   anything else, and moving it down never turns `Bottom` into anything else.
   */
  lemma ResolveMonotone(p: Point, q: Point, r: Rect, link: Option<string>)
    requires Inside(p, r) && Inside(q, r) && p.y <= q.y
    ensures Resolve(q, r, link) == Some(Top) ==> Resolve(p, r, link) == Some(Top)
    ensures Resolve(p, r, link) == Some(Bottom) ==> Resolve(q, r, link) == Some(Bottom)
  {
  }

  /** A row 40 pixels high at height 100: 108 is above, 120 (the middle) and 132 are below. */
  lemma ResolveExamples()
    ensures Resolve(Point(10.0, 108.0), Rect(0.0, 100.0, 200.0, 140.0), Some("/a/1")) == Some(Top)
    ensures Resolve(Point(10.0, 120.0), Rect(0.0, 100.0, 200.0, 140.0), Some("/a/1")) == Some(Bottom)
    ensures Resolve(Point(10.0, 132.0), Rect(0.0, 100.0, 200.0, 140.0), Some("/a/1")) == Some(Bottom)
    ensures Resolve(Point(10.0, 132.0), Rect(0.0, 100.0, 200.0, 140.0), None) == Some(Child)
    ensures Resolve(Point(10.0, 141.0), Rect(0.0, 100.0, 200.0, 140.0), Some("/a/1")) == None
  {
  }

  /**
   For the drop position a row counts as a folder when it has no link; the
   context menu counts it as a folder when it has a child list. The two
   disagree both ways.
   */
  predicate DropsAsFolder(n: TreeNode) {
    !Truthy(n.link)
  }

  predicate MenuAsFolder(n: TreeNode) {
    n.items.Items?
  }

  lemma FolderNotionsDiffer(n: TreeNode, p: Point, r: Rect)
    requires Inside(p, r)
    ensures n.link.None? && n.items.NoItems? ==> DropsAsFolder(n) && !MenuAsFolder(n) && Resolve(p, r, n.link) == Some(Child)
    ensures Truthy(n.link) && n.items.Items? ==> !DropsAsFolder(n) && MenuAsFolder(n) && Resolve(p, r, n.link) != Some(Child)
  {
  }

  // ---------------------------------------------------------------- hover and drop

  /** What a drag monitor reports on a hover: whether it can drop, the cursor, and the row's box. */
  datatype Hover = Hover(canDrop: bool, offset: Option<Point>, rect: Option<Rect>)

  /** The dragged object: where it was dragged from and its payload. */
  datatype DragItem<T> = DragItem(source: string, item: T)

  /** The row's drag-and-drop events. `Leave` is the monitor no longer reporting the cursor over the row. */
  datatype DropEvent<T> = HoverOver(h: Hover) | Leave | DropOn(d: DragItem<T>)

  /** The call `onDrop(item, node, position)` made to the page. */
  datatype DropCall<T> = DropCall(item: T, target: TreeNode, position: Option<Position>)

  /** The source tag that marks an item dragged out of the data source. */
  const FromDataSource: string := "datasource"

  /**
   One event on row `node`, holding position `pos`: the new position and the
   call made to the page, if any. A hover the monitor cannot drop, or without
   a cursor or box, keeps the position.
   */
  function Step<T>(node: TreeNode, pos: Option<Position>, e: DropEvent<T>): (r: (Option<Position>, Option<DropCall<T>>))
    ensures r.1.Some? <==> e.DropOn? && e.d.source == FromDataSource
    ensures r.1.Some? ==> r.1.value == DropCall(e.d.item, node, pos)
    ensures e.DropOn? || e.Leave? ==> r.0.None?
    ensures e.HoverOver? && !(e.h.canDrop && e.h.offset.Some? && e.h.rect.Some?) ==> r.0 == pos
  {
    match e
    case HoverOver(h) =>
      if !h.canDrop || h.offset.None? || h.rect.None? then (pos, None)
      else (Resolve(h.offset.value, h.rect.value, node.link), None)
    case Leave => (None, None)
    case DropOn(d) =>
      (None, if d.source == FromDataSource then Some(DropCall(d.item, node, pos)) else None)
  }

  /** The number of drops from the data source in a run of events. */
  function DataSourceDrops<T>(es: seq<DropEvent<T>>): nat
    decreases |es|
  {
    if |es| == 0 then 0
    else (if es[0].DropOn? && es[0].d.source == FromDataSource then 1 else 0) + DataSourceDrops(es[1..])
  }

  /**
   The calls made to the page over a run of events, starting from position
   `pos`: exactly one per drop from the data source, and none for other events.
   */
  function Run<T>(node: TreeNode, pos: Option<Position>, es: seq<DropEvent<T>>): (calls: seq<DropCall<T>>)
    ensures |calls| == DataSourceDrops(es)
    decreases |es|
  {
    if |es| == 0 then []
    else
      var (pos', call) := Step(node, pos, es[0]);
      (if call.Some? then [call.value] else []) + Run(node, pos', es[1..])
  }

  /** A drop right after a usable hover carries the position that hover resolved. */
  lemma DropAfterHover<T>(node: TreeNode, pos: Option<Position>, h: Hover, x: T)
    requires h.canDrop && h.offset.Some? && h.rect.Some?
    ensures Run(node, pos, [HoverOver(h), DropOn(DragItem(FromDataSource, x))])
            == [DropCall(x, node, Resolve(h.offset.value, h.rect.value, node.link))]
  {
    var es: seq<DropEvent<T>> := [HoverOver(h), DropOn(DragItem(FromDataSource, x))];
    assert es[1..] == [DropOn(DragItem(FromDataSource, x))];
    assert es[1..][1..] == [];
  }

  /** After a drop or after the cursor leaves, a drop without a new hover carries no position. */
  lemma DropAfterReset<T>(node: TreeNode, pos: Option<Position>, e: DropEvent<T>, x: T)
    requires e.Leave? || e.DropOn?
    ensures Run(node, pos, [e, DropOn(DragItem(FromDataSource, x))])
            == (if e.DropOn? && e.d.source == FromDataSource then [DropCall(e.d.item, node, pos)] else [])
               + [DropCall(x, node, None)]
  {
    var es: seq<DropEvent<T>> := [e, DropOn(DragItem(FromDataSource, x))];
    assert es[1..] == [DropOn(DragItem(FromDataSource, x))];
    assert es[1..][1..] == [];
  }
}
