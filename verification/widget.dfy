/**
 * The widget tree: every widget has a layout entry (nesting level, type,
 * id), a text, its children, size hints, a selection and flags. Building
 * the tree from a flat layout list, looking widgets up by id, sizing,
 * drawing order, focus and key routing are pure functions over the tree.
 */
module Widgets {
  import opened Ints
  import opened UiDefs
  import opened Wrappers
  import CStr

  //{{{ Data model

  /** The standard widget types; `Custom(i)` is `Custom0`..`Custom9`. */
  datatype WidgetType =
    | NoType | HBox | VBox | Stack | GroupFrame
    | Label | Button | Checkbox | Radiobox | Editbox
    | Selbox | Listbox | HSplitter | VSplitter | StatusLine
    | ProgressBar | Custom(slot: CustomSlot)

  type CustomSlot = x: int | 0 <= x < 10

  /** The nesting level is a 4-bit field. */
  type Level = x: int | 0 <= x < 16

  /** One entry of a window's layout list. */
  datatype Layout = Layout(level: Level, wtype: WidgetType, id: u16)

  /** `wid_None` and `wid_Last`. */
  const WidNone: u16 := 0
  const WidLast: u16 := 0xFFFF

  datatype Flags = Flags(focused: bool, canFocus: bool, modified: bool, forced: bool)

  /** How many children can grow in each direction, counted in a byte. */
  datatype Expand = Expand(x: byte, y: byte)

  datatype Widget = Widget(
    lay: Layout,
    text: string,
    children: seq<Widget>,
    areas: seq<Rect>,
    hints: Size,
    selection: Size,
    flags: Flags,
    nexp: Expand)

  /** The widget in preorder: itself, then each child's subtree. */
  function Nodes(w: Widget): (r: seq<Widget>)
    ensures |r| >= 1 && r[0] == w
    decreases w, 1
  {
    [w] + NodesAll(w.children)
  }

  function NodesAll(ws: seq<Widget>): seq<Widget>
    decreases ws, 0
  {
    if ws == [] then [] else Nodes(ws[0]) + NodesAll(ws[1..])
  }

  //}}}
  //{{{ Lookup by id

  /** `widget_by_id`: none for `wid_None`, the widget itself when the id is its own, else the first match among the children, depth first. */
  function WidgetById(w: Widget, id: u16): (r: Option<Widget>)
    ensures r.Some? ==> id != WidNone && r.value.lay.id == id
    decreases w, 1
  {
    if id == WidNone then None
    else if w.lay.id == id then Some(w)
    else ByIdAll(w.children, id)
  }

  function ByIdAll(ws: seq<Widget>, id: u16): (r: Option<Widget>)
    ensures r.Some? ==> id != WidNone && r.value.lay.id == id
    decreases ws, 0
  {
    if ws == [] then None
    else match WidgetById(ws[0], id)
      case Some(x) => Some(x)
      case None => ByIdAll(ws[1..], id)
  }

  /** The first widget of a list with the id, none for `wid_None`. */
  function FirstWithId(ws: seq<Widget>, id: u16): Option<Widget>
  {
    if id == WidNone || ws == [] then None
    else if ws[0].lay.id == id then Some(ws[0])
    else FirstWithId(ws[1..], id)
  }

  lemma {:induction false} FirstWithIdAppend(a: seq<Widget>, b: seq<Widget>, id: u16)
    ensures FirstWithId(a + b, id) == if FirstWithId(a, id).Some? then FirstWithId(a, id) else FirstWithId(b, id)
    decreases |a|
  {
    if id != WidNone && a != [] {
      assert (a + b)[0] == a[0] && (a + b)[1..] == a[1..] + b;
      FirstWithIdAppend(a[1..], b, id);
    } else if a == [] {
      assert a + b == b;
    }
  }

  /** `widget_by_id` finds the first widget with the id in preorder. */
  lemma {:induction false} WidgetByIdFirst(w: Widget, id: u16)
    ensures WidgetById(w, id) == FirstWithId(Nodes(w), id)
    decreases w, 1
  {
    ByIdAllFirst(w.children, id);
    FirstWithIdAppend([w], NodesAll(w.children), id);
  }

  lemma {:induction false} ByIdAllFirst(ws: seq<Widget>, id: u16)
    ensures ByIdAll(ws, id) == FirstWithId(NodesAll(ws), id)
    decreases ws, 0
  {
    if ws != [] {
      WidgetByIdFirst(ws[0], id);
      ByIdAllFirst(ws[1..], id);
      FirstWithIdAppend(Nodes(ws[0]), NodesAll(ws[1..]), id);
    }
  }

  //}}}
  //{{{ Building the tree

  /** The types whose constructor sets `f_CanFocus`. */
  predicate FocusableType(t: WidgetType)
  {
    t == Button || t == Checkbox || t == Radiobox || t == Editbox || t == Selbox || t == Listbox
  }

  /**
   * The default widget factory: the widget a layout entry creates, with the
   * flags and size hints its class's constructor sets. HBox, VBox, Stack and
   * the custom types are not in the factory and get a plain widget.
   */
  function NewWidget(lay: Layout): (r: Widget)
    ensures r.lay == lay && r.children == [] && r.areas == [] && r.text == []
    ensures r.flags.canFocus <==> FocusableType(lay.wtype)
    ensures !r.flags.focused && !r.flags.forced && r.selection == Size(0, 0)
  {
    var hints :=
      match lay.wtype
      case Editbox => Size(0, 1)
      case HSplitter => Size(0, 1)
      case StatusLine => Size(0, 1)
      case ProgressBar => Size(0, 1)
      case VSplitter => Size(1, 0)
      case _ => Size(0, 0);
    Widget(lay, [], [], [], hints, Size(0, 0), Flags(false, FocusableType(lay.wtype), false, false), Expand(0, 0))
  }

  /** `vector::resize` of the child areas: cut to `n`, or extended with empty rectangles. */
  function Resized(a: seq<Rect>, n: nat): (r: seq<Rect>)
    ensures |r| == n && forall k :: 0 <= k < n && k < |a| ==> r[k] == a[k]
    decreases n
  {
    if n <= |a| then a[..n] else Resized(a, n - 1) + [Rect(0, 0, 0, 0)]
  }

  /** Every child has a deeper level than its parent, all the way down. */
  predicate Nested(w: Widget)
    decreases w
  {
    forall j :: 0 <= j < |w.children| ==> w.children[j].lay.level > w.lay.level && Nested(w.children[j])
  }

  function LayoutsOf(ws: seq<Widget>): (r: seq<Layout>)
    ensures |r| == |ws| && forall j :: 0 <= j < |ws| ==> r[j] == ws[j].lay
  {
    if ws == [] then [] else [ws[0].lay] + LayoutsOf(ws[1..])
  }

  /**
   * `add_widgets` below a widget of level `lvl`, from entry `i`: the
   * widgets made from the run of entries deeper than `lvl`, each entry
   * followed by deeper entries taking those as its own children, and the
   * first entry not taken.
   */
  function AddRun(ls: seq<Layout>, i: nat, lvl: int): (r: (seq<Widget>, nat))
    requires i <= |ls|
    ensures i <= r.1 <= |ls|
    ensures forall k :: i <= k < r.1 ==> ls[k].level > lvl
    ensures r.1 < |ls| ==> ls[r.1].level <= lvl
    ensures forall j :: 0 <= j < |r.0| ==> r.0[j].lay.level > lvl && Nested(r.0[j])
    ensures forall j :: 0 <= j < |r.0| ==> |r.0[j].areas| == |r.0[j].children|
    decreases |ls| - i
  {
    if i < |ls| && ls[i].level > lvl then
      var sub := if i + 1 < |ls| && ls[i + 1].level > ls[i].level then AddRun(ls, i + 1, ls[i].level) else ([], i + 1);
      var child := NewWidget(ls[i]).(children := sub.0, areas := Resized([], |sub.0|));
      var rest := AddRun(ls, sub.1, lvl);
      ([child] + rest.0, rest.1)
    else ([], i)
  }

  /** `add_widgets` on a widget: the new children follow the existing ones, and there is one area per child. */
  function AddWidgets(w: Widget, ls: seq<Layout>, i: nat): (r: (Widget, nat))
    requires i <= |ls|
    ensures i <= r.1 <= |ls| && |r.0.children| >= |w.children|
    ensures |r.0.areas| == |r.0.children| && r.0.children[..|w.children|] == w.children
    ensures r.1 < |ls| ==> ls[r.1].level <= w.lay.level
    ensures forall k :: i <= k < r.1 ==> ls[k].level > w.lay.level
  {
    var run := AddRun(ls, i, w.lay.level);
    var ch := w.children + run.0;
    assert ch[..|w.children|] == w.children;
    (w.(children := ch, areas := Resized(w.areas, |ch|)), run.1)
  }

  lemma {:induction false} NodesAllAppend(a: seq<Widget>, b: seq<Widget>)
    ensures NodesAll(a + b) == NodesAll(a) + NodesAll(b)
    decreases |a|
  {
    if a == [] {
      assert a + b == b;
    } else {
      assert (a + b)[0] == a[0] && (a + b)[1..] == a[1..] + b;
      NodesAllAppend(a[1..], b);
    }
  }

  lemma LayoutsOfAppend(a: seq<Widget>, b: seq<Widget>)
    ensures LayoutsOf(a + b) == LayoutsOf(a) + LayoutsOf(b)
  {
  }

  /** One step of the flattening: a widget, then its subtree, then the following siblings' subtrees. */
  lemma FlattenStep(child: Widget, rest: seq<Widget>, a: seq<Layout>, b: seq<Layout>)
    requires LayoutsOf(NodesAll(child.children)) == a && LayoutsOf(NodesAll(rest)) == b
    ensures LayoutsOf(NodesAll([child] + rest)) == [child.lay] + a + b
  {
    NodesAllAppend([child], rest);
    assert NodesAll([child]) == Nodes(child) + NodesAll([]);
    LayoutsOfAppend(Nodes(child), NodesAll(rest));
    LayoutsOfAppend([child], NodesAll(child.children));
  }

  lemma SliceSplit<T>(s: seq<T>, i: nat, j: nat, k: nat)
    requires i < j <= k <= |s|
    ensures s[i..k] == [s[i]] + s[i + 1..j] + s[j..k]
  {
  }

  /** Every entry of the run becomes exactly one widget, in preorder: the tree flattens back to the entries taken. */
  lemma {:induction false} AddRunFlattens(ls: seq<Layout>, i: nat, lvl: int)
    requires i <= |ls|
    ensures LayoutsOf(NodesAll(AddRun(ls, i, lvl).0)) == ls[i..AddRun(ls, i, lvl).1]
    decreases |ls| - i
  {
    if i < |ls| && ls[i].level > lvl {
      var deeper := i + 1 < |ls| && ls[i + 1].level > ls[i].level;
      var sub := if deeper then AddRun(ls, i + 1, ls[i].level) else ([], i + 1);
      if deeper {
        AddRunFlattens(ls, i + 1, ls[i].level);
      }
      var child := NewWidget(ls[i]).(children := sub.0, areas := Resized([], |sub.0|));
      var rest := AddRun(ls, sub.1, lvl);
      AddRunFlattens(ls, sub.1, lvl);
      FlattenStep(child, rest.0, ls[i + 1..sub.1], ls[sub.1..rest.1]);
      SliceSplit(ls, i, sub.1, rest.1);
      assert AddRun(ls, i, lvl) == ([child] + rest.0, rest.1);
    }
  }

  //}}}
  //{{{ Drawing order

  /** A Stack shows only the child its selection start names; other widgets show every child. */
  predicate Shown(w: Widget, i: nat)
  {
    !(w.lay.wtype == Stack && w.selection.w != i)
  }

  /** `draw`: the widgets whose `on_draw` runs, in order: the widget, then each shown child's subtree. */
  function DrawOrder(w: Widget): (r: seq<Widget>)
    ensures |r| >= 1 && r[0] == w
    decreases w, 1, 0
  {
    [w] + DrawFrom(w, 0)
  }

  function DrawFrom(w: Widget, i: nat): seq<Widget>
    requires i <= |w.children|
    decreases w, 0, |w.children| - i
  {
    if i == |w.children| then []
    else (if Shown(w, i) then DrawOrder(w.children[i]) else []) + DrawFrom(w, i + 1)
  }

  /** No Stack anywhere in the tree. */
  predicate NoStack(w: Widget)
    decreases w
  {
    w.lay.wtype != Stack && forall j :: 0 <= j < |w.children| ==> NoStack(w.children[j])
  }

  /** Without a Stack, drawing visits every widget in preorder. */
  lemma {:induction false} DrawOrderNoStack(w: Widget)
    requires NoStack(w)
    ensures DrawOrder(w) == Nodes(w)
    decreases w, 1, 0
  {
    DrawFromNoStack(w, 0);
    assert w.children[0..] == w.children;
  }

  lemma {:induction false} DrawFromNoStack(w: Widget, i: nat)
    requires NoStack(w) && i <= |w.children|
    ensures DrawFrom(w, i) == NodesAll(w.children[i..])
    decreases w, 0, |w.children| - i
  {
    if i < |w.children| {
      DrawOrderNoStack(w.children[i]);
      DrawFromNoStack(w, i + 1);
      assert w.children[i..][0] == w.children[i] && w.children[i..][1..] == w.children[i + 1..];
    }
  }

  lemma {:induction false} DrawFromSkip(w: Widget, i: nat)
    requires i <= |w.children| && forall j :: i <= j < |w.children| ==> !Shown(w, j)
    ensures DrawFrom(w, i) == []
    decreases |w.children| - i
  {
    if i < |w.children| {
      DrawFromSkip(w, i + 1);
    }
  }

  lemma {:induction false} DrawFromStack(w: Widget, i: nat)
    requires w.lay.wtype == Stack && i <= |w.children|
    ensures DrawFrom(w, i) == if i <= w.selection.w < |w.children| then DrawOrder(w.children[w.selection.w]) else []
    decreases |w.children| - i
  {
    if i < |w.children| {
      DrawFromStack(w, i + 1);
    }
  }

  /** A Stack draws itself and the subtree of its selected child, or nothing more when the selection is past the end. */
  lemma StackDrawsSelected(w: Widget)
    requires w.lay.wtype == Stack
    ensures DrawOrder(w) == [w] + if w.selection.w < |w.children| then DrawOrder(w.children[w.selection.w]) else []
  {
    DrawFromStack(w, 0);
  }

  //}}}
  //{{{ Focus neighbours

  /** `FocusNeighbors`: the lowest, previous, next and highest focusable ids around a widget id. */
  datatype FocusNeighbors = FocusNeighbors(first: u16, prev: u16, next: u16, last: u16)

  /** The ids the neighbour search looks at: those of the drawn widgets that have an id and can take focus. */
  function FocusIds(ws: seq<Widget>): (r: seq<u16>)
    ensures forall k :: 0 <= k < |r| ==> r[k] != WidNone
    ensures forall k :: 0 <= k < |ws| && ws[k].lay.id != WidNone && ws[k].flags.canFocus ==> ws[k].lay.id in r
    ensures forall k :: 0 <= k < |r| ==> exists j :: 0 <= j < |ws| && ws[j].lay.id == r[k] && ws[j].flags.canFocus
  {
    if ws == [] then []
    else
      var rest := FocusIds(ws[1..]);
      assert forall k :: 0 < k < |ws| ==> ws[k] == ws[1..][k - 1];
      if ws[0].lay.id != WidNone && ws[0].flags.canFocus then [ws[0].lay.id] + rest else rest
  }

  /** What one visited focusable widget does to the running neighbours of `wid`. */
  function NeighborStep(n: FocusNeighbors, id: u16, wid: u16): FocusNeighbors
  {
    FocusNeighbors(
      Min(n.first, id),
      if id < wid && id > n.prev then id else n.prev,
      if id > wid && id < n.next then id else n.next,
      Max(n.last, id))
  }

  /** The visit over the ids in drawing order. */
  function NeighborFold(n: FocusNeighbors, ids: seq<u16>, wid: u16): FocusNeighbors
    decreases |ids|
  {
    if ids == [] then n else NeighborFold(NeighborStep(n, ids[0], wid), ids[1..], wid)
  }

  /** After the visit `first` is the lowest of the start value and the ids. */
  lemma {:induction false} FoldFirst(n: FocusNeighbors, ids: seq<u16>, wid: u16)
    ensures var r := NeighborFold(n, ids, wid);
      r.first <= n.first && (r.first == n.first || r.first in ids) && forall k :: 0 <= k < |ids| ==> r.first <= ids[k]
    decreases |ids|
  {
    if ids != [] {
      FoldFirst(NeighborStep(n, ids[0], wid), ids[1..], wid);
      assert forall k :: 0 < k < |ids| ==> ids[k] == ids[1..][k - 1];
    }
  }

  /** After the visit `last` is the highest of the start value and the ids. */
  lemma {:induction false} FoldLast(n: FocusNeighbors, ids: seq<u16>, wid: u16)
    ensures var r := NeighborFold(n, ids, wid);
      r.last >= n.last && (r.last == n.last || r.last in ids) && forall k :: 0 <= k < |ids| ==> ids[k] <= r.last
    decreases |ids|
  {
    if ids != [] {
      FoldLast(NeighborStep(n, ids[0], wid), ids[1..], wid);
      assert forall k :: 0 < k < |ids| ==> ids[k] == ids[1..][k - 1];
    }
  }

  /** After the visit `next` is the lowest id above `wid` that is below the start value, or the start value. */
  lemma {:induction false} FoldNext(n: FocusNeighbors, ids: seq<u16>, wid: u16)
    ensures var r := NeighborFold(n, ids, wid);
      && r.next <= n.next && (r.next == n.next || (r.next in ids && wid < r.next))
      && forall k :: 0 <= k < |ids| && wid < ids[k] < n.next ==> r.next <= ids[k]
    decreases |ids|
  {
    if ids != [] {
      FoldNext(NeighborStep(n, ids[0], wid), ids[1..], wid);
      assert forall k :: 0 < k < |ids| ==> ids[k] == ids[1..][k - 1];
    }
  }

  /** After the visit `prev` is the highest id below `wid` that is above the start value, or the start value. */
  lemma {:induction false} FoldPrev(n: FocusNeighbors, ids: seq<u16>, wid: u16)
    ensures var r := NeighborFold(n, ids, wid);
      && r.prev >= n.prev && (r.prev == n.prev || (r.prev in ids && r.prev < wid))
      && forall k :: 0 <= k < |ids| && n.prev < ids[k] < wid ==> ids[k] <= r.prev
    decreases |ids|
  {
    if ids != [] {
      FoldPrev(NeighborStep(n, ids[0], wid), ids[1..], wid);
      assert forall k :: 0 < k < |ids| ==> ids[k] == ids[1..][k - 1];
    }
  }

  /** The visit from the extreme start values, then the wrap-around fix-ups. */
  function Neighbors(ids: seq<u16>, wid: u16): FocusNeighbors
  {
    var n := NeighborFold(FocusNeighbors(WidLast, WidNone, WidLast, WidNone), ids, wid);
    var first := if n.first == WidLast then WidNone else n.first;
    FocusNeighbors(first, if n.prev == WidNone then n.last else n.prev, if n.next == WidLast then first else n.next, n.last)
  }

  /** `get_focus_neighbors_for(wid)`, over the drawn widgets. */
  function FocusNeighborsFor(w: Widget, wid: u16): FocusNeighbors
  {
    Neighbors(FocusIds(DrawOrder(w)), wid)
  }

  function NextFocus(w: Widget, wid: u16): u16 { FocusNeighborsFor(w, wid).next }
  function PrevFocus(w: Widget, wid: u16): u16 { FocusNeighborsFor(w, wid).prev }

  /** `first` is the lowest id below `wid_Last`, or none when there is none. */
  lemma NeighborsFirst(ids: seq<u16>, wid: u16)
    requires forall k :: 0 <= k < |ids| ==> ids[k] != WidNone
    ensures var r := Neighbors(ids, wid);
      && (r.first == WidNone <==> forall k :: 0 <= k < |ids| ==> ids[k] == WidLast)
      && (r.first != WidNone ==> r.first in ids && forall k :: 0 <= k < |ids| ==> r.first <= ids[k])
  {
    FoldFirst(FocusNeighbors(WidLast, WidNone, WidLast, WidNone), ids, wid);
  }

  /** `last` is the highest id, or none when there is no id. */
  lemma NeighborsLast(ids: seq<u16>, wid: u16)
    requires forall k :: 0 <= k < |ids| ==> ids[k] != WidNone
    ensures var r := Neighbors(ids, wid);
      && (r.last == WidNone <==> ids == [])
      && (ids != [] ==> r.last in ids && forall k :: 0 <= k < |ids| ==> ids[k] <= r.last)
  {
    FoldLast(FocusNeighbors(WidLast, WidNone, WidLast, WidNone), ids, wid);
    if ids != [] {
      assert ids[0] > 0;
    }
  }

  /** `next` is the lowest id above `wid` and below `wid_Last`, wrapping around to `first` when there is none. */
  lemma NeighborsNext(ids: seq<u16>, wid: u16)
    ensures var r := Neighbors(ids, wid);
      && ((exists k :: 0 <= k < |ids| && wid < ids[k] < WidLast) ==>
            r.next in ids && wid < r.next < WidLast && forall k :: 0 <= k < |ids| && wid < ids[k] < WidLast ==> r.next <= ids[k])
      && ((forall k :: 0 <= k < |ids| ==> !(wid < ids[k] < WidLast)) ==> r.next == r.first)
  {
    FoldNext(FocusNeighbors(WidLast, WidNone, WidLast, WidNone), ids, wid);
  }

  /** `prev` is the highest id below `wid`, wrapping around to `last` when there is none. */
  lemma NeighborsPrev(ids: seq<u16>, wid: u16)
    requires forall k :: 0 <= k < |ids| ==> ids[k] != WidNone
    ensures var r := Neighbors(ids, wid);
      && ((exists k :: 0 <= k < |ids| && ids[k] < wid) ==>
            r.prev in ids && r.prev < wid && forall k :: 0 <= k < |ids| && ids[k] < wid ==> ids[k] <= r.prev)
      && ((forall k :: 0 <= k < |ids| ==> !(ids[k] < wid)) ==> r.prev == r.last)
  {
    FoldPrev(FocusNeighbors(WidLast, WidNone, WidLast, WidNone), ids, wid);
  }

  /** With no focusable widget drawn, every neighbour is `wid_None`. */
  lemma NoFocusableNeighbors(w: Widget, wid: u16)
    requires FocusIds(DrawOrder(w)) == []
    ensures FocusNeighborsFor(w, wid) == FocusNeighbors(WidNone, WidNone, WidNone, WidNone)
  {
  }

  /** Ids usable for focus cycling: none is `wid_None` or `wid_Last`. */
  predicate CycleIds(ids: seq<u16>)
  {
    forall k :: 0 <= k < |ids| ==> WidNone < ids[k] < WidLast
  }

  /** From a focusable id, the previous id of the next one is the id itself. */
  lemma NextThenPrev(ids: seq<u16>, wid: u16)
    requires wid in ids && CycleIds(ids)
    ensures Neighbors(ids, Neighbors(ids, wid).next).prev == wid
  {
    var nx := Neighbors(ids, wid).next;
    NeighborsFirst(ids, wid);
    NeighborsLast(ids, wid);
    NeighborsNext(ids, wid);
    NeighborsPrev(ids, nx);
    NeighborsLast(ids, nx);
    if !exists k :: 0 <= k < |ids| && wid < ids[k] < WidLast {
      assert forall k :: 0 <= k < |ids| ==> ids[k] <= wid;
    }
  }

  /** From a focusable id, the next id of the previous one is the id itself. */
  lemma PrevThenNext(ids: seq<u16>, wid: u16)
    requires wid in ids && CycleIds(ids)
    ensures Neighbors(ids, Neighbors(ids, wid).prev).next == wid
  {
    var pv := Neighbors(ids, wid).prev;
    NeighborsLast(ids, wid);
    NeighborsPrev(ids, wid);
    NeighborsNext(ids, pv);
    NeighborsFirst(ids, pv);
    if !exists k :: 0 <= k < |ids| && ids[k] < wid {
      assert forall k :: 0 <= k < |ids| ==> wid <= ids[k];
    }
  }

  /** `next_focus` and `prev_focus` undo each other on a focusable drawn widget, when no id is `wid_Last`. */
  lemma FocusCycle(w: Widget, wid: u16)
    requires wid in FocusIds(DrawOrder(w)) && CycleIds(FocusIds(DrawOrder(w)))
    ensures PrevFocus(w, NextFocus(w, wid)) == wid && NextFocus(w, PrevFocus(w, wid)) == wid
  {
    NextThenPrev(FocusIds(DrawOrder(w)), wid);
    PrevThenNext(FocusIds(DrawOrder(w)), wid);
  }

  //}}}
  //{{{ Focus

  predicate AnyFocused(ws: seq<Widget>)
  {
    exists k :: 0 <= k < |ws| && ws[k].flags.focused
  }

  /** Some widget of the list has the id and can take focus. */
  predicate HasFocusable(ws: seq<Widget>, id: u16)
  {
    exists k :: 0 <= k < |ws| && ws[k].lay.id == id && ws[k].flags.canFocus
  }

  /** `focus(id)`: each widget is focused when it is the focusable widget with the id or one of its children is focused. */
  function Focus(w: Widget, id: u16): Widget
    decreases w, 1
  {
    var cs := FocusAll(w.children, id);
    w.(children := cs, flags := w.flags.(focused := (w.lay.id == id && w.flags.canFocus) || AnyFocused(cs)))
  }

  function FocusAll(ws: seq<Widget>, id: u16): (r: seq<Widget>)
    ensures |r| == |ws| && forall k :: 0 <= k < |ws| ==> r[k] == Focus(ws[k], id)
    decreases ws, 0
  {
    if ws == [] then [] else [Focus(ws[0], id)] + FocusAll(ws[1..], id)
  }

  lemma HasFocusableAppend(a: seq<Widget>, b: seq<Widget>, id: u16)
    ensures HasFocusable(a + b, id) <==> HasFocusable(a, id) || HasFocusable(b, id)
  {
    if HasFocusable(a + b, id) {
      var k :| 0 <= k < |a + b| && (a + b)[k].lay.id == id && (a + b)[k].flags.canFocus;
      if k >= |a| {
        assert b[k - |a|] == (a + b)[k];
      }
    }
    if HasFocusable(a, id) {
      var k :| 0 <= k < |a| && a[k].lay.id == id && a[k].flags.canFocus;
      assert (a + b)[k] == a[k];
    }
    if HasFocusable(b, id) {
      var k :| 0 <= k < |b| && b[k].lay.id == id && b[k].flags.canFocus;
      assert (a + b)[|a| + k] == b[k];
    }
  }

  /** After `focus(id)` a widget is focused exactly when its subtree holds a focusable widget with the id. */
  lemma {:induction false} FocusIff(w: Widget, id: u16)
    ensures Focus(w, id).flags.focused <==> HasFocusable(Nodes(w), id)
    decreases w, 1
  {
    FocusAllIff(w.children, id);
    HasFocusableAppend([w], NodesAll(w.children), id);
  }

  lemma {:induction false} FocusAllIff(ws: seq<Widget>, id: u16)
    ensures AnyFocused(FocusAll(ws, id)) <==> HasFocusable(NodesAll(ws), id)
    decreases ws, 0
  {
    if ws != [] {
      var fs := FocusAll(ws, id);
      FocusIff(ws[0], id);
      FocusAllIff(ws[1..], id);
      HasFocusableAppend(Nodes(ws[0]), NodesAll(ws[1..]), id);
      assert fs[1..] == FocusAll(ws[1..], id);
      assert AnyFocused(fs) <==> fs[0].flags.focused || AnyFocused(fs[1..]) by {
        if AnyFocused(fs) && !fs[0].flags.focused {
          var k :| 0 <= k < |fs| && fs[k].flags.focused;
          assert fs[1..][k - 1] == fs[k];
        }
        if AnyFocused(fs[1..]) {
          var k :| 0 <= k < |fs[1..]| && fs[1..][k].flags.focused;
          assert fs[k + 1] == fs[1..][k];
        }
      }
    }
  }

  /** The tree with every focus flag cleared. */
  function ClearFocus(w: Widget): Widget
    decreases w, 1
  {
    w.(children := ClearAll(w.children), flags := w.flags.(focused := false))
  }

  function ClearAll(ws: seq<Widget>): seq<Widget>
    decreases ws, 0
  {
    if ws == [] then [] else [ClearFocus(ws[0])] + ClearAll(ws[1..])
  }

  /** `focus` changes nothing but focus flags. */
  lemma {:induction false} FocusOnlyFlags(w: Widget, id: u16)
    ensures ClearFocus(Focus(w, id)) == ClearFocus(w)
    decreases w, 1
  {
    FocusAllOnlyFlags(w.children, id);
  }

  lemma {:induction false} FocusAllOnlyFlags(ws: seq<Widget>, id: u16)
    ensures ClearAll(FocusAll(ws, id)) == ClearAll(ws)
    decreases ws, 0
  {
    if ws != [] {
      FocusOnlyFlags(ws[0], id);
      FocusAllOnlyFlags(ws[1..], id);
      assert FocusAll(ws, id)[1..] == FocusAll(ws[1..], id);
    }
  }

  //}}}
  //{{{ Key routing

  /** `find_if` for the first focused child. */
  function FirstFocused(ws: seq<Widget>): (r: Option<nat>)
    ensures r.Some? ==> r.value < |ws| && ws[r.value].flags.focused && forall j :: 0 <= j < r.value ==> !ws[j].flags.focused
    ensures r.None? <==> !AnyFocused(ws)
  {
    if ws == [] then None
    else if ws[0].flags.focused then Some(0)
    else match FirstFocused(ws[1..])
      case None =>
        assert forall k :: 0 < k < |ws| ==> ws[k] == ws[1..][k - 1];
        None
      case Some(j) => Some(j + 1)
  }

  /**
   * The widgets whose `on_key` a key event reaches through `on_event`:
   * the widget when it can take focus, then along its first focused child.
   */
  function KeyRoute(w: Widget): (r: seq<Widget>)
    ensures forall k :: 0 <= k < |r| ==> r[k].flags.canFocus
    decreases w
  {
    (if w.flags.canFocus then [w] else []) +
    match FirstFocused(w.children)
    case None => []
    case Some(j) => KeyRoute(w.children[j])
  }

  /** The key event a widget hands back to its window, with itself as the source. */
  datatype KeyReturn = KeyReturn(key: u32, src: u16)

  /** The base `on_key`: a focusable leaf with an id returns the key unused; anything else drops it. */
  function BaseOnKey(w: Widget, key: u32): (r: Option<KeyReturn>)
    ensures r.Some? ==> r.value.src != WidNone && r.value.key == key && w.children == []
  {
    if w.lay.id != WidNone && w.children == [] && w.flags.canFocus then Some(KeyReturn(key, w.lay.id)) else None
  }

  /** Only the end of the focus path can return an unused key. */
  lemma {:induction false} RouteOnlyLastReturns(w: Widget, key: u32)
    ensures forall k :: 0 <= k < |KeyRoute(w)| - 1 ==> BaseOnKey(KeyRoute(w)[k], key).None?
    decreases w
  {
    var pre := if w.flags.canFocus then [w] else [];
    match FirstFocused(w.children)
    case None =>
    case Some(j) =>
      var rest := KeyRoute(w.children[j]);
      RouteOnlyLastReturns(w.children[j], key);
      assert KeyRoute(w) == pre + rest;
      forall k | 0 <= k < |KeyRoute(w)| - 1
        ensures BaseOnKey(KeyRoute(w)[k], key).None?
      {
        if k >= |pre| {
          assert KeyRoute(w)[k] == rest[k - |pre|];
        }
      }
  }

  /** After `focus(id)` with a focusable widget of that id in the tree, key events end at a widget with the id. */
  lemma {:induction false} FocusRouteEnds(w: Widget, id: u16)
    requires HasFocusable(Nodes(w), id)
    ensures var r := KeyRoute(Focus(w, id)); r != [] && r[|r| - 1].lay.id == id
    decreases w
  {
    match FirstFocused(Focus(w, id).children)
    case None =>
      FocusRouteHere(w, id);
    case Some(j) =>
      FocusedChild(w, id, j);
      FocusRouteEnds(w.children[j], id);
      FocusRouteDown(w, id, j);
  }

  /** With no child focused after `focus(id)`, the widget itself is the focusable one with the id, and key events stop at it. */
  lemma FocusRouteHere(w: Widget, id: u16)
    requires HasFocusable(Nodes(w), id) && FirstFocused(Focus(w, id).children).None?
    ensures var r := KeyRoute(Focus(w, id)); r != [] && r[|r| - 1].lay.id == id
  {
    FocusAllIff(w.children, id);
    HasFocusableAppend([w], NodesAll(w.children), id);
    assert KeyRoute(Focus(w, id)) == [Focus(w, id)];
  }

  /** The child `focus(id)` leaves focused first holds the focusable widget with the id. */
  lemma FocusedChild(w: Widget, id: u16, j: nat)
    requires FirstFocused(Focus(w, id).children) == Some(j)
    ensures j < |w.children| && HasFocusable(Nodes(w.children[j]), id)
  {
    assert Focus(w, id).children[j] == Focus(w.children[j], id);
    FocusIff(w.children[j], id);
  }

  /** Key events go down to the first focused child, so they end where its own route ends. */
  lemma FocusRouteDown(w: Widget, id: u16, j: nat)
    requires FirstFocused(Focus(w, id).children) == Some(j) && j < |w.children|
    requires var t := KeyRoute(Focus(w.children[j], id)); t != [] && t[|t| - 1].lay.id == id
    ensures var r := KeyRoute(Focus(w, id)); r != [] && r[|r| - 1].lay.id == id
  {
    var fw := Focus(w, id);
    assert fw.children[j] == Focus(w.children[j], id);
    var t := KeyRoute(fw.children[j]);
    assert KeyRoute(fw) == (if fw.flags.canFocus then [fw] else []) + t;
  }

  //}}}
  //{{{ Text measure

  /** `measure_text`'s loop from a running size: the widest line and the line count, both kept in 16 bits. */
  function MeasureFrom(sz: Size, ls: seq<string>): Size
    decreases |ls|
  {
    if ls == [] then sz else MeasureFrom(Size(WrapU16(Max(sz.w, |ls[0]|)), WrapU16(sz.h + 1)), ls[1..])
  }

  /** `measure_text`: nothing for an empty text, else over the newline-separated lines, a final newline starting none. */
  function MeasureText(t: string): Size
  {
    if t == [] then Size(0, 0) else MeasureFrom(Size(0, 0), CStr.Lines(t))
  }

  /** Lines and counts that fit in 16 bits. */
  predicate MeasureFits(ls: seq<string>)
  {
    |ls| < 0x1_0000 && forall k :: 0 <= k < |ls| ==> |ls[k]| < 0x1_0000
  }

  lemma {:induction false} MeasureFromSpec(sz: Size, ls: seq<string>)
    requires sz.h + |ls| < 0x1_0000 && forall k :: 0 <= k < |ls| ==> |ls[k]| < 0x1_0000
    ensures var r := MeasureFrom(sz, ls);
      && r.h == sz.h + |ls| && r.w >= sz.w && (forall k :: 0 <= k < |ls| ==> |ls[k]| <= r.w)
      && (r.w == sz.w || exists k :: 0 <= k < |ls| && |ls[k]| == r.w)
    decreases |ls|
  {
    if ls != [] {
      MeasureFromSpec(Size(Max(sz.w, |ls[0]|), sz.h + 1), ls[1..]);
      assert forall k :: 0 < k < |ls| ==> ls[k] == ls[1..][k - 1];
    }
  }

  /** The measured height is the number of lines and the width the longest line's length. */
  lemma MeasureTextSpec(t: string)
    requires t != [] && MeasureFits(CStr.Lines(t))
    ensures var ls := CStr.Lines(t); var r := MeasureText(t);
      && r.h == |ls| && (forall k :: 0 <= k < |ls| ==> |ls[k]| <= r.w) && exists k :: 0 <= k < |ls| && |ls[k]| == r.w
  {
    var ls := CStr.Lines(t);
    MeasureFromSpec(Size(0, 0), ls);
    if MeasureText(t).w == 0 {
      assert |ls[0]| <= 0;
    }
  }

  /** Measuring newline-terminated lines counts each of them. */
  lemma MeasureJoined(ls: seq<string>)
    requires ls != [] && MeasureFits(ls) && forall k :: 0 <= k < |ls| ==> CStr.NoNewline(ls[k])
    ensures MeasureText(CStr.JoinLines(ls)).h == |ls|
    ensures forall k :: 0 <= k < |ls| ==> |ls[k]| <= MeasureText(CStr.JoinLines(ls)).w
  {
    CStr.LinesOfJoin(ls);
    MeasureTextSpec(CStr.JoinLines(ls));
  }

  //}}}
  //{{{ Size hints

  /** `expandable_w`/`expandable_h`: the widget has expandable children that way, or no size hint there. */
  predicate ExpandableW(w: Widget) { w.nexp.x != 0 || w.hints.w == 0 }
  predicate ExpandableH(w: Widget) { w.nexp.y != 0 || w.hints.h == 0 }

  function CountW(ws: seq<Widget>): (r: nat)
    ensures r <= |ws| && (r == 0 <==> forall k :: 0 <= k < |ws| ==> !ExpandableW(ws[k]))
  {
    if ws == [] then 0
    else
      assert forall k :: 0 < k < |ws| ==> ws[k] == ws[1..][k - 1];
      (if ExpandableW(ws[0]) then 1 else 0) + CountW(ws[1..])
  }

  function CountH(ws: seq<Widget>): (r: nat)
    ensures r <= |ws| && (r == 0 <==> forall k :: 0 <= k < |ws| ==> !ExpandableH(ws[k]))
  {
    if ws == [] then 0
    else
      assert forall k :: 0 < k < |ws| ==> ws[k] == ws[1..][k - 1];
      (if ExpandableH(ws[0]) then 1 else 0) + CountH(ws[1..])
  }

  /** The widest size hint of the list, 0 for none. */
  function MaxHintW(ws: seq<Widget>): (r: u16)
    ensures forall k :: 0 <= k < |ws| ==> ws[k].hints.w <= r
    ensures ws == [] ==> r == 0
    ensures ws != [] ==> exists k :: 0 <= k < |ws| && ws[k].hints.w == r
  {
    if ws == [] then 0
    else
      var m := MaxHintW(ws[1..]);
      assert forall k :: 0 < k < |ws| ==> ws[k] == ws[1..][k - 1];
      if ws[0].hints.w < m then m else ws[0].hints.w
  }

  /** The tallest size hint of the list, 0 for none. */
  function MaxHintH(ws: seq<Widget>): (r: u16)
    ensures forall k :: 0 <= k < |ws| ==> ws[k].hints.h <= r
    ensures ws == [] ==> r == 0
    ensures ws != [] ==> exists k :: 0 <= k < |ws| && ws[k].hints.h == r
  {
    if ws == [] then 0
    else
      var m := MaxHintH(ws[1..]);
      assert forall k :: 0 < k < |ws| ==> ws[k] == ws[1..][k - 1];
      if ws[0].hints.h < m then m else ws[0].hints.h
  }

  /** `set_size_hints`: ignored once the hints are forced. */
  function SetSizeHints(w: Widget, sh: Size): (r: Widget)
    ensures r.hints == (if w.flags.forced then w.hints else sh) && r.(hints := w.hints) == w
  {
    if w.flags.forced then w else w.(hints := sh)
  }

  /** `set_forced_size_hints`: set the hints and pin them. */
  function SetForcedSizeHints(w: Widget, sh: Size): (r: Widget)
    ensures r.hints == sh && r.flags.forced
  {
    w.(hints := sh, flags := w.flags.(forced := true))
  }

  /**
   * The base `compute_size_hints`: nothing for a widget without children;
   * otherwise each child first, the expandable children counted in a byte
   * each way, and the hints set (unless forced) to the largest child
   * hint each way, every child getting the same size as in a Stack.
   */
  function ComputeSizeHints(w: Widget): (r: Widget)
    ensures r.lay == w.lay && r.flags == w.flags && r.text == w.text && |r.children| == |w.children|
    ensures w.children == [] ==> r == w
    ensures w.children != [] && !w.flags.forced ==>
      (forall k :: 0 <= k < |r.children| ==> r.children[k].hints.w <= r.hints.w && r.children[k].hints.h <= r.hints.h)
      && (exists k :: 0 <= k < |r.children| && r.children[k].hints.w == r.hints.w)
      && (exists k :: 0 <= k < |r.children| && r.children[k].hints.h == r.hints.h)
    ensures w.flags.forced ==> r.hints == w.hints
    ensures w.children != [] ==> r.nexp.x == CountW(r.children) % 0x100 && r.nexp.y == CountH(r.children) % 0x100
    decreases w, 1
  {
    if w.children == [] then w
    else
      var cs := ComputeAll(w.children);
      SetSizeHints(w.(children := cs, nexp := Expand(CountW(cs) % 0x100, CountH(cs) % 0x100)), Size(MaxHintW(cs), MaxHintH(cs)))
  }

  function ComputeAll(ws: seq<Widget>): (r: seq<Widget>)
    ensures |r| == |ws| && forall k :: 0 <= k < |ws| ==> r[k] == ComputeSizeHints(ws[k])
    decreases ws, 0
  {
    if ws == [] then [] else [ComputeSizeHints(ws[0])] + ComputeAll(ws[1..])
  }

  /** Computing the size hints a second time changes nothing. */
  lemma {:induction false} ComputeIdempotent(w: Widget)
    ensures ComputeSizeHints(ComputeSizeHints(w)) == ComputeSizeHints(w)
    decreases w, 1
  {
    if w.children != [] {
      ComputeAllIdempotent(w.children);
    }
  }

  lemma {:induction false} ComputeAllIdempotent(ws: seq<Widget>)
    ensures ComputeAll(ComputeAll(ws)) == ComputeAll(ws)
    decreases ws, 0
  {
    if ws != [] {
      ComputeIdempotent(ws[0]);
      ComputeAllIdempotent(ws[1..]);
      assert ComputeAll(ws)[1..] == ComputeAll(ws[1..]);
    }
  }

  /** Forced hints survive both a later `set_size_hints` and the size computation. */
  lemma ForcedHintsStick(w: Widget, forced: Size, later: Size)
    ensures SetSizeHints(SetForcedSizeHints(w, forced), later).hints == forced
    ensures ComputeSizeHints(SetForcedSizeHints(w, forced)).hints == forced
  {
  }

  //}}}
  //{{{ Selection

  /** `set_selection(f)`: the one-item range from `f`, the end kept in 16 bits. */
  function SetSelectionAt(w: Widget, f: u16): (r: Widget)
    ensures r.selection.w == f && (f < WidLast ==> r.selection.h == f + 1) && r.(selection := w.selection) == w
  {
    w.(selection := Size(f, WrapU16(f + 1)))
  }

  /** `set_stack_selection(s)`: select child `s` and remember its id; ignored past the last child. */
  function SetStackSelection(w: Widget, s: u16): (r: Widget)
    ensures s < |w.children| ==> r.selection == Size(s, w.children[s].lay.id)
    ensures s >= |w.children| ==> r == w
    ensures r.(selection := w.selection) == w
  {
    if s < |w.children| then w.(selection := Size(s, w.children[s].lay.id)) else w
  }

  /** After selecting child `s` of a Stack, drawing shows that child's subtree and no other. */
  lemma StackSelectionDraws(w: Widget, s: u16)
    requires w.lay.wtype == Stack && s < |w.children|
    ensures DrawOrder(SetStackSelection(w, s)) == [SetStackSelection(w, s)] + DrawOrder(w.children[s])
  {
    StackDrawsSelected(SetStackSelection(w, s));
  }

  //}}}
}
