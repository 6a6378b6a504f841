/**
 * The standard widgets' own behaviour on top of the widget tree: the size
 * hints their text gives them, and how the focusable ones answer keys.
 * A key a widget does not use goes back to the window through the base
 * `on_key`; the `report_modified`/`report_selection` messages become flags
 * of the reply.
 */
module CWidgets {
  import opened Ints
  import opened UiDefs
  import opened Wrappers
  import opened Widgets
  import CStr

  /** What handling a key produced: the key handed back unused, and which reports were sent. */
  datatype Reply = Reply(returned: Option<KeyReturn>, modified: bool, selected: bool)

  /** The reply of a widget that leaves the key to the base `on_key`. */
  function Unused(w: Widget, k: u32): Reply
  {
    Reply(BaseOnKey(w, k), false, false)
  }

  //{{{ Label, Button, Checkbox

  /** `Label::on_set_text`: the hints are the measured text. */
  function LabelSetText(w: Widget, t: string): (r: Widget)
    ensures r.text == t && (!w.flags.forced ==> r.hints == MeasureText(t))
    ensures w.flags.forced ==> r.hints == w.hints
    ensures r == w.(text := t, hints := r.hints)
  {
    SetSizeHints(w.(text := t), MeasureText(t))
  }

  /** `Button::on_set_text`: the measured text with room for the `[ ` and ` ]` brackets. */
  function ButtonSetText(w: Widget, t: string): (r: Widget)
    ensures r.text == t
    ensures !w.flags.forced && MeasureText(t).w + 4 < 0x1_0000 ==> r.hints == Size(MeasureText(t).w + 4, MeasureText(t).h)
    ensures w.flags.forced ==> r.hints == w.hints
    ensures r == w.(text := t, hints := r.hints)
  {
    var m := MeasureText(t);
    SetSizeHints(w.(text := t), SizeOf(2 + m.w + 2, m.h))
  }

  /** `Checkbox::on_set_text`: the measured text with room for the `[x]  ` box. */
  function CheckboxSetText(w: Widget, t: string): (r: Widget)
    ensures r.text == t
    ensures !w.flags.forced && MeasureText(t).w + 5 < 0x1_0000 ==> r.hints == Size(MeasureText(t).w + 5, MeasureText(t).h)
    ensures w.flags.forced ==> r.hints == w.hints
    ensures r == w.(text := t, hints := r.hints)
  {
    var m := MeasureText(t);
    SetSizeHints(w.(text := t), SizeOf(5 + m.w, m.h))
  }

  /** One line of text measures its length by one row. */
  lemma MeasureOneLine(t: string)
    requires t != [] && CStr.NoNewline(t) && |t| < 0x1_0000
    ensures MeasureText(t) == Size(|t|, 1)
  {
    CStr.SplitSingle(t, '\n');
    assert CStr.Lines(t) == [t];
    assert MeasureFrom(Size(0, 0), [t]) == MeasureFrom(Size(|t|, 1), []);
  }

  /** The hints a one-line text gives a label, a button and a checkbox. */
  lemma OneLineHints(w: Widget, t: string)
    requires !w.flags.forced && t != [] && CStr.NoNewline(t) && |t| + 5 < 0x1_0000
    ensures LabelSetText(w, t).hints == Size(|t|, 1)
    ensures ButtonSetText(w, t).hints == Size(|t| + 4, 1)
    ensures CheckboxSetText(w, t).hints == Size(|t| + 5, 1)
  {
    MeasureOneLine(t);
  }

  /**
   * `Checkbox::on_key`: Enter and Space turn a checkbox to the other state
   * (anything but 0 counts as on) and a radio box on; the selection is
   * reported when it changes. Other keys go to the base `on_key`.
   */
  function CheckboxKey(w: Widget, k: u32): (r: (Widget, Reply))
    ensures k != KeyEnter && k != KeySpace ==> r == (w, Unused(w, k))
    ensures k == KeyEnter || k == KeySpace ==>
      && r.1.returned.None? && !r.1.modified
      && (r.0.selection.w == 0 || r.0.selection.w == 1)
      && (r.1.selected <==> r.0.selection.w != w.selection.w)
      && (!r.1.selected ==> r.0 == w)
  {
    if k != KeyEnter && k != KeySpace then (w, Unused(w, k))
    else
      var on: u16 := if w.selection.w == 0 || w.lay.wtype == Radiobox then 1 else 0;
      if w.selection.w != on then (SetSelectionAt(w, on), Reply(None, false, true)) else (w, Reply(None, false, false))
  }

  /** Enter flips a checkbox between off and on, and flipping twice restores it. */
  lemma CheckboxToggles(w: Widget)
    requires w.lay.wtype == Checkbox && (w.selection.w == 0 || w.selection.w == 1)
    ensures CheckboxKey(w, KeyEnter).0.selection.w == 1 - w.selection.w && CheckboxKey(w, KeyEnter).1.selected
    ensures CheckboxKey(CheckboxKey(w, KeyEnter).0, KeyEnter).0.selection.w == w.selection.w
  {
  }

  /** Enter always leaves a radio box on, reporting only when it was off. */
  lemma RadioboxSelects(w: Widget)
    requires w.lay.wtype == Radiobox
    ensures CheckboxKey(w, KeyEnter).0.selection.w == 1
    ensures CheckboxKey(w, KeyEnter).1.selected <==> w.selection.w != 1
  {
  }

  //}}}
  //{{{ Editbox

  /** An edit box: its widget, the cursor position, the first visible column and the width of its area. */
  datatype Editbox = Editbox(w: Widget, cpos: i16, fc: u16, width: u16)

  /** The cursor is on the text, whose length fits the cursor's type. */
  predicate EditValid(e: Editbox)
  {
    0 <= e.cpos <= |e.w.text| < 0x8000
  }

  /**
   * The box's invariant: the cursor is on the text and, in a box at least
   * two columns wide, in view; in a box of any width, a scrolled view shows
   * no column past the one after the end of the text.
   */
  predicate EditInvariant(e: Editbox)
  {
    && EditValid(e)
    && (2 <= e.width ==> e.fc <= e.cpos < e.fc + e.width)
    && (1 <= e.width ==> e.fc == 0 || e.fc - 1 + e.width <= |e.w.text|)
  }

  /** `posclip`'s first step: a cursor left of the view scrolls it there, one column early for the `<` mark. */
  function ClipLeft(fc: u16, cpos: i16): (r: u16)
    ensures 0 <= cpos ==> r <= cpos && (cpos < fc ==> r + 1 >= cpos)
    ensures cpos >= fc ==> r == fc
  {
    if cpos < fc then
      var f := WrapU16(cpos);
      if f > 0 then f - 1 else f
    else fc
  }

  /** `posclip`'s last loop: scroll back while the text would fit from one column earlier. */
  function ShrinkFc(fc: u16, w: u16, len: nat): (r: u16)
    ensures r == Min(fc, Max(0, len + 1 - w))
    decreases fc
  {
    if fc != 0 && fc - 1 + w > len then ShrinkFc(fc - 1, w, len) else fc
  }

  /**
   * `posclip`: the first visible column after moving the cursor. With a
   * zero width only the left step applies; otherwise the cursor is kept two
   * columns inside the right edge (room for the `>` mark), and the view
   * scrolls back as far as the text allows.
   */
  function Posclip(fc: u16, cpos: i16, w: u16, len: nat): u16
  {
    var f := ClipLeft(fc, cpos);
    if w == 0 then f
    else ShrinkFc(if f + w < cpos + 2 then WrapU16(cpos + 2 - w) else f, w, len)
  }

  /** With a cursor on the text and a box at least two columns wide, the cursor is in view and no column past the end is scrolled in. */
  lemma PosclipVisible(fc: u16, cpos: i16, w: u16, len: nat)
    requires 2 <= w && 0 <= cpos <= len
    ensures var r := Posclip(fc, cpos, w, len);
      r <= cpos < r + w && (r == 0 || r - 1 + w <= len)
  {
  }

  /** A text shorter than the box is never scrolled. */
  lemma PosclipFits(fc: u16, cpos: i16, w: u16, len: nat)
    requires 0 < w && len < w
    ensures Posclip(fc, cpos, w, len) == 0
  {
  }

  /** Clipping again at the same cursor changes nothing. */
  lemma PosclipIdempotent(fc: u16, cpos: i16, w: u16, len: nat)
    requires 2 <= w && 0 <= cpos <= len
    ensures Posclip(Posclip(fc, cpos, w, len), cpos, w, len) == Posclip(fc, cpos, w, len)
  {
    PosclipVisible(fc, cpos, w, len);
  }

  /** `Editbox::on_set_text`: the cursor goes to the end and the view is clipped from the start. */
  function EditSetText(e: Editbox, t: string): (r: Editbox)
    ensures r.w.text == t && r.width == e.width
    ensures |t| < 0x8000 ==> r.cpos == |t| && EditInvariant(r)
  {
    var cpos := WrapI16(|t|);
    var r := e.(w := e.w.(text := t), cpos := cpos, fc := Posclip(0, cpos, e.width, |t|));
    if |t| < 0x8000 && 2 <= e.width then PosclipVisible(0, cpos, e.width, |t|); r else r
  }

  /** `Editbox::on_resize`: the view is clipped to the new width. */
  function EditResize(e: Editbox, width: u16): (r: Editbox)
    ensures r.width == width && r.w == e.w && r.cpos == e.cpos
    ensures EditValid(e) ==> EditInvariant(r)
  {
    var r := e.(width := width, fc := Posclip(e.fc, e.cpos, width, |e.w.text|));
    if EditValid(e) && 2 <= width then PosclipVisible(e.fc, e.cpos, width, |e.w.text|); r else r
  }

  /** The end of a handled key: new text and cursor, the view clipped, and the selection moved with the cursor. */
  function EditDone(e: Editbox, t: string, cpos: i16, modified: bool): (r: (Editbox, Reply))
    ensures r.0.w.text == t && r.0.cpos == cpos && r.0.width == e.width && r.0.fc == Posclip(e.fc, cpos, e.width, |t|)
    ensures r.1 == Reply(None, modified, cpos != e.cpos)
  {
    var fc := Posclip(e.fc, cpos, e.width, |t|);
    var w := e.w.(text := t);
    if cpos != e.cpos then (e.(w := SetSelectionAt(w, WrapU16(cpos)), cpos := cpos, fc := fc), Reply(None, modified, true))
    else (e.(w := w, fc := fc), Reply(None, modified, false))
  }

  predicate Printable(k: u32) { ' ' as int <= k <= '~' as int }

  /**
   * `Editbox::on_key`: Left, Right, Home and End move the cursor; Backspace
   * and Delete erase the character before or at it; a printable ASCII key
   * is inserted at it. Edits are reported as modifications and a moved
   * cursor as the new selection. Any other key, and a move or erase that
   * cannot happen, goes to the base `on_key` and changes nothing.
   */
  function EditKey(e: Editbox, k: u32): (r: (Editbox, Reply))
    requires EditValid(e)
    ensures r.0.width == e.width
    ensures r.1.returned.Some? ==> r.0 == e && !r.1.modified && !r.1.selected
    ensures r.1.returned.None? ==> (r.1.selected <==> r.0.cpos != e.cpos)
    ensures r.1.returned.None? && r.0.cpos != e.cpos && 0 <= r.0.cpos ==> r.0.w.selection.w == r.0.cpos
  {
    var t := e.w.text;
    var len := WrapI16(|t|);
    if k == KeyLeft && e.cpos != 0 then EditDone(e, t, e.cpos - 1, false)
    else if k == KeyRight && e.cpos < len then EditDone(e, t, e.cpos + 1, false)
    else if k == KeyHome then EditDone(e, t, 0, false)
    else if k == KeyEnd then EditDone(e, t, len, false)
    else if k == KeyBackspace && e.cpos != 0 then EditDone(e, t[..e.cpos - 1] + t[e.cpos..], e.cpos - 1, true)
    else if k == KeyDelete && e.cpos < len then EditDone(e, t[..e.cpos] + t[e.cpos + 1..], e.cpos, true)
    else if Printable(k) then EditDone(e, t[..e.cpos] + [k as char] + t[e.cpos..], WrapI16(e.cpos + 1), true)
    else (e, Unused(e.w, k))
  }

  lemma EditDoneValid(e: Editbox, t: string, cpos: i16, modified: bool)
    requires 0 <= cpos <= |t| < 0x8000
    ensures EditInvariant(EditDone(e, t, cpos, modified).0)
  {
    if 2 <= e.width {
      PosclipVisible(e.fc, cpos, e.width, |t|);
    }
  }

  /** Every key keeps the invariant, short of inserting into a text of the cursor type's size. */
  lemma EditKeyValid(e: Editbox, k: u32)
    requires EditInvariant(e) && |e.w.text| < 0x7FFF
    ensures EditInvariant(EditKey(e, k).0)
  {
    var t := e.w.text;
    if k == KeyLeft && e.cpos != 0 {
      EditDoneValid(e, t, e.cpos - 1, false);
    } else if k == KeyRight && e.cpos < |t| {
      EditDoneValid(e, t, e.cpos + 1, false);
    } else if k == KeyHome {
      EditDoneValid(e, t, 0, false);
    } else if k == KeyEnd {
      EditDoneValid(e, t, |t| as i16, false);
    } else if k == KeyBackspace && e.cpos != 0 {
      EditDoneValid(e, t[..e.cpos - 1] + t[e.cpos..], e.cpos - 1, true);
    } else if k == KeyDelete && e.cpos < |t| {
      EditDoneValid(e, t[..e.cpos] + t[e.cpos + 1..], e.cpos, true);
    } else if Printable(k) {
      EditDoneValid(e, t[..e.cpos] + [k as char] + t[e.cpos..], e.cpos + 1, true);
    }
  }

  /** Cursor keys move the cursor and never change the text. */
  lemma EditNavigation(e: Editbox, k: u32)
    requires EditValid(e) && (k == KeyLeft || k == KeyRight || k == KeyHome || k == KeyEnd)
    ensures var r := EditKey(e, k); r.0.w.text == e.w.text && !r.1.modified
    ensures k == KeyHome ==> EditKey(e, k).0.cpos == 0
    ensures k == KeyEnd ==> EditKey(e, k).0.cpos == |e.w.text|
    ensures k == KeyLeft && e.cpos > 0 ==> EditKey(e, k).0.cpos == e.cpos - 1
    ensures k == KeyRight && e.cpos < |e.w.text| ==> EditKey(e, k).0.cpos == e.cpos + 1
  {
  }

  /** A printable key is inserted at the cursor, which moves past it. */
  lemma EditInsert(e: Editbox, k: u32)
    requires EditValid(e) && |e.w.text| < 0x7FFF && Printable(k)
    ensures var r := EditKey(e, k);
      && r.0.w.text == e.w.text[..e.cpos] + [k as char] + e.w.text[e.cpos..]
      && r.0.cpos == e.cpos + 1 && r.1.modified && r.1.selected
  {
  }

  /** Backspace right after inserting a character restores the text and the cursor. */
  lemma InsertThenBackspace(e: Editbox, k: u32)
    requires EditValid(e) && |e.w.text| < 0x7FFF && Printable(k)
    ensures var r := EditKey(EditKey(e, k).0, KeyBackspace).0; r.w.text == e.w.text && r.cpos == e.cpos
  {
    var t := e.w.text;
    var b := EditKey(e, k).0;
    EditInsert(e, k);
    assert b.w.text[..b.cpos - 1] == t[..e.cpos];
    assert b.w.text[b.cpos..] == t[e.cpos..];
    assert t[..e.cpos] + t[e.cpos..] == t;
  }

  /** Delete erases the character at the cursor and leaves the cursor where it is. */
  lemma EditDelete(e: Editbox)
    requires EditValid(e) && e.cpos < |e.w.text|
    ensures var r := EditKey(e, KeyDelete);
      r.0.w.text == e.w.text[..e.cpos] + e.w.text[e.cpos + 1..] && r.0.cpos == e.cpos && r.1.modified && !r.1.selected
  {
  }

  //}}}
  //{{{ Selbox and Listbox

  /** A selection box or list box: its widget and the number of items. */
  datatype ItemBox = ItemBox(w: Widget, n: u16)

  /** The items of the text: NUL-separated strings, a final NUL starting no further item; an empty text has none. */
  function Items(t: string): (r: seq<string>)
    ensures t != [] ==> |r| >= 1
  {
    if t == [] then [] else CStr.Split(t, 0 as char)
  }

  /**
   * `clip_sel`: the selection start limited to the last item. With no items
   * the limit is -1, which `set_selection` keeps in 16 bits.
   */
  function ClipSel(w: Widget, n: u16): (r: Widget)
    ensures n > 0 ==> r.selection.w < n && (w.selection.w < n ==> r.selection.w == w.selection.w)
    ensures n == 0 ==> r.selection == Size(0xFFFF, 0)
    ensures r.(selection := w.selection) == w
  {
    SetSelectionAt(w, WrapU16(Min(w.selection.w, n - 1)))
  }

  /** `set_n`: the new item count, with the selection clipped to it. */
  function SetN(b: ItemBox, n: u16): (r: ItemBox)
    ensures r.n == n && r.w.(selection := b.w.selection) == b.w
    ensures n > 0 ==> r.w.selection.w < n && (b.w.selection.w < n ==> r.w.selection.w == b.w.selection.w)
    ensures n == 0 ==> r.w.selection == Size(0xFFFF, 0)
  {
    ItemBox(ClipSel(b.w, n), n)
  }

  /** `Selbox::on_set_text`: one row, as wide as the widest item between `< ` and ` >`. */
  function SelboxSetText(b: ItemBox, t: string): (r: ItemBox)
    ensures r.w.text == t
  {
    var m := MeasureFrom(Size(0, 0), Items(t));
    var c := SetN(b.(w := b.w.(text := t)), m.h);
    c.(w := SetSizeHints(c.w, SizeOf(2 + m.w + 2, 1)))
  }

  /** `Listbox::on_set_text`: a row per item, as wide as the widest item. */
  function ListboxSetText(b: ItemBox, t: string): (r: ItemBox)
    ensures r.w.text == t
  {
    var m := MeasureFrom(Size(0, 0), Items(t));
    var c := SetN(b.(w := b.w.(text := t)), m.h);
    c.(w := SetSizeHints(c.w, m))
  }

  /** Items that fit: no NUL inside, and counts and lengths in 16 bits. */
  predicate GoodItems(items: seq<string>)
  {
    items != [] && MeasureFits(items) && forall k :: 0 <= k < |items| ==> CStr.Lacks(items[k], 0 as char)
  }

  /** Setting the NUL-terminated items counts them, keeps the selection on one and sizes the box to the widest. */
  lemma ItemBoxSetText(b: ItemBox, items: seq<string>)
    requires GoodItems(items) && !b.w.flags.forced
    ensures var t := CStr.Join(items, 0 as char); var s := SelboxSetText(b, t); var l := ListboxSetText(b, t);
      && s.n == |items| && l.n == |items| && s.w.selection.w < |items| && l.w.selection.w < |items|
      && l.w.hints.h == |items| && s.w.hints.h == 1
      && (forall k :: 0 <= k < |items| ==> |items[k]| <= l.w.hints.w)
      && (exists k :: 0 <= k < |items| && |items[k]| == l.w.hints.w)
      && (l.w.hints.w + 4 < 0x1_0000 ==> s.w.hints.w == l.w.hints.w + 4)
  {
    var t := CStr.Join(items, 0 as char);
    CStr.SplitOfJoin(items, 0 as char);
    assert Items(t) == items;
    MeasureFromSpec(Size(0, 0), items);
    if MeasureFrom(Size(0, 0), items).w == 0 {
      assert |items[0]| <= 0;
    }
  }

  /**
   * The shared `on_key` of the two boxes: a back key moves the selection
   * to the previous item and a forward key to the next, each reported;
   * at either end, or for any other key, the base `on_key` gets it.
   */
  function ItemMove(b: ItemBox, k: u32, back: u32, backKey: u32, fwd: u32, fwdKey: u32): (r: (ItemBox, Reply))
    ensures r.0.n == b.n && !r.1.modified
    ensures b.w.selection.w < b.n ==> r.0.w.selection.w < b.n
    ensures r.1.selected <==> r.0.w.selection.w != b.w.selection.w
    ensures r.1.selected ==> r.1.returned.None?
    ensures !r.1.selected ==> r == (b, Unused(b.w, k))
  {
    var sel := b.w.selection.w;
    if (k == back || k == backKey) && sel != 0 then (b.(w := SetSelectionAt(b.w, sel - 1)), Reply(None, false, true))
    else if (k == fwd || k == fwdKey) && sel + 1 < b.n then (b.(w := SetSelectionAt(b.w, sel + 1)), Reply(None, false, true))
    else (b, Unused(b.w, k))
  }

  /** `Selbox::on_key`: `h` or Left for the previous item, `l` or Right for the next. */
  function SelboxKey(b: ItemBox, k: u32): (r: (ItemBox, Reply))
    ensures b.w.selection.w < b.n ==> r.0.w.selection.w < b.n
    ensures (k == 'h' as int || k == KeyLeft) && b.w.selection.w > 0 ==> r.0.w.selection.w == b.w.selection.w - 1 && r.1.selected
    ensures (k == 'l' as int || k == KeyRight) && b.w.selection.w + 1 < b.n ==> r.0.w.selection.w == b.w.selection.w + 1 && r.1.selected
  {
    ItemMove(b, k, 'h' as int, KeyLeft, 'l' as int, KeyRight)
  }

  /** `Listbox::on_key`: `k` or Up for the previous item, `j` or Down for the next. */
  function ListboxKey(b: ItemBox, k: u32): (r: (ItemBox, Reply))
    ensures b.w.selection.w < b.n ==> r.0.w.selection.w < b.n
    ensures (k == 'k' as int || k == KeyUp) && b.w.selection.w > 0 ==> r.0.w.selection.w == b.w.selection.w - 1 && r.1.selected
    ensures (k == 'j' as int || k == KeyDown) && b.w.selection.w + 1 < b.n ==> r.0.w.selection.w == b.w.selection.w + 1 && r.1.selected
  {
    ItemMove(b, k, 'k' as int, KeyUp, 'j' as int, KeyDown)
  }

  /** Down then Up, or Up then Down, returns to the same item. */
  lemma ListboxUpDown(b: ItemBox)
    requires b.w.selection.w < b.n
    ensures b.w.selection.w + 1 < b.n ==> ListboxKey(ListboxKey(b, KeyDown).0, KeyUp).0.w.selection.w == b.w.selection.w
    ensures b.w.selection.w > 0 ==> ListboxKey(ListboxKey(b, KeyUp).0, KeyDown).0.w.selection.w == b.w.selection.w
  {
  }

  /** Right then Left, or Left then Right, returns to the same item. */
  lemma SelboxLeftRight(b: ItemBox)
    requires b.w.selection.w < b.n
    ensures b.w.selection.w + 1 < b.n ==> SelboxKey(SelboxKey(b, KeyRight).0, KeyLeft).0.w.selection.w == b.w.selection.w
    ensures b.w.selection.w > 0 ==> SelboxKey(SelboxKey(b, KeyLeft).0, KeyRight).0.w.selection.w == b.w.selection.w
  {
  }

  //}}}
  //{{{ ProgressBar

  /** `ProgressMax`: the selection start that means complete. */
  const ProgressMax: nat := 1024

  /** The width of the filled part of a progress bar: its share of the area width, in 16 bits. */
  function ProgressFill(w: u16, sel: u16): u16
  {
    WrapU16(w * sel / ProgressMax)
  }

  /** Up to `ProgressMax` the fill stays within the bar, fills it only when complete, and grows with the progress. */
  lemma ProgressBounds(w: u16, s1: u16, s2: u16)
    requires s1 <= s2 <= ProgressMax
    ensures ProgressFill(w, s2) <= w
    ensures ProgressFill(w, s2) == w <==> s2 == ProgressMax || w == 0
    ensures ProgressFill(w, s1) <= ProgressFill(w, s2)
    ensures ProgressFill(w, 0) == 0
  {
    assert w * s1 <= w * s2 <= w * ProgressMax;
    if s2 < ProgressMax && w > 0 {
      assert w * s2 < w * ProgressMax;
    }
  }

  //}}}
}
