/**
 * A terminal window as a drawlist sink: the window's own cell surface, the
 * viewport every drawing operation is clipped to, the pen position, the
 * caret, and the pen cell whose character, attributes and colours new
 * cells copy. Every operation is a function from window to window.
 *
 * The viewport always lies inside the window's interior rectangle, and no
 * drawing operation writes a cell outside the viewport.
 */
module RenderTarget {
  import opened Ints
  import opened UiDefs
  import opened TermSurface
  import Utf8
  import Drawlist

  //{{{ Window state

  datatype Window = Window(surface: Surface, viewport: Rect, pos: Point, caret: Point, attr: Cell, area: Rect)

  /** `interior_area`: the window's own rectangle in window coordinates. */
  function Interior(w: Window): Rect
  {
    RectOfSize(RectSize(w.area))
  }

  /**
   * The window's invariant: its surface matches its area, its coordinates fit
   * `int16_t`, and its viewport lies inside its interior.
   */
  predicate Valid(w: Window)
  {
    ValidSurface(w.surface) && w.surface.sz == RectSize(w.area) &&
    w.area.w < 0x8000 && w.area.h < 0x8000 &&
    Within(Interior(w), w.viewport)
  }

  lemma ValidViewport(w: Window)
    requires Valid(w)
    ensures WellFormed(w.viewport) && 0 <= w.viewport.x && 0 <= w.viewport.y
    ensures w.viewport.x + w.viewport.w <= w.surface.sz.w && w.viewport.y + w.viewport.h <= w.surface.sz.h
  {
  }

  /** Only the surface changed, and only inside the viewport. */
  predicate PaintsInside(w: Window, r: Window)
  {
    Valid(w) && Valid(r) && SameOutside(w.surface, r.surface, w.viewport) &&
    r.viewport == w.viewport && r.area == w.area
  }

  //}}}
  //{{{ Reset, features, pen movement, viewport

  const FeatureLast: byte := 5

  /** `reset`: full viewport, default pen at the origin, caret hidden, surface blank. */
  function Reset(w: Window): (r: Window)
    requires Valid(w)
    ensures Valid(r) && r.area == w.area && r.viewport == Interior(w)
    ensures r.attr == DefaultCell && r.pos == Point(0, 0) && !ContainsPoint(Interior(w), r.caret)
    ensures forall y, x :: 0 <= y < w.area.h && 0 <= x < w.area.w ==> At(r.surface, x, y) == DefaultCell
  {
    Window(Blank(w.surface.sz), Interior(w), Point(0, 0), Point(-1, -1), DefaultCell, w.area)
  }

  /** `on_resize`: the window takes the new area, a surface of its size, and is reset. */
  function OnResize(w: Window, warea: Rect): (r: Window)
    requires warea.w < 0x8000 && warea.h < 0x8000
    ensures Valid(r) && r.area == warea && r.viewport == RectOfSize(RectSize(warea))
  {
    var w1 := w.(area := warea, surface := Blank(RectSize(warea)), viewport := RectOfSize(RectSize(warea)));
    Reset(w1)
  }

  /** `Draw_enable` / `Draw_disable`: the feature's attribute bit; unknown features are ignored. */
  function SetFeature(w: Window, f: byte, on: bool): (r: Window)
    ensures f < FeatureLast ==> GetBit(r.attr.attr, f) == on
    ensures forall j :: 0 <= j < 8 && j != f ==> GetBit(r.attr.attr, j) == GetBit(w.attr.attr, j)
    ensures r.(attr := w.attr) == w && r.attr.(attr := w.attr.attr) == w.attr
  {
    if f < FeatureLast then w.(attr := w.attr.(attr := SetBit(w.attr.attr, f, on))) else w
  }

  /** `Draw_move_to`: the point is relative to the viewport. */
  function MoveTo(w: Window, p: Point): (r: Window)
    ensures r.pos == Translate(Pos(w.viewport), PointAsOffset(p))
    ensures r.(pos := w.pos) == w
  {
    w.(pos := PointPlusPoint(Pos(w.viewport), p))
  }

  function MoveBy(w: Window, o: Offset): (r: Window)
    ensures TranslateBack(r.pos, o) == w.pos
    ensures r.(pos := w.pos) == w
  {
    TranslateRoundTrip(w.pos, o);
    w.(pos := Translate(w.pos, o))
  }

  /** `Draw_viewport`: the requested viewport clipped to the interior, pen at its origin. */
  function SetViewport(w: Window, vp: Rect): (r: Window)
    requires Valid(w)
    ensures Valid(r) && r.surface == w.surface && r.pos == Pos(r.viewport)
    ensures forall x: int, y: int :: Covers(r.viewport, x, y) <==> Covers(Interior(w), x, y) && Covers(vp, x, y)
  {
    var v := Clip(Interior(w), vp);
    forall x: int, y: int ensures Covers(v, x, y) <==> Covers(Interior(w), x, y) && Covers(vp, x, y) {
      ClipIsIntersection(Interior(w), vp, x, y);
    }
    w.(viewport := v, pos := Pos(v))
  }

  //}}}
  //{{{ Colours

  /** `1 << depth` for a depth below 8. */
  function ColorCount(depth: byte): (n: nat)
    requires depth < 8
    ensures 2 <= n <= 256 || (depth == 0 && n == 1)
  {
    match depth
    case 0 => 1
    case 1 => 2
    case 2 => 4
    case 3 => 8
    case 4 => 16
    case 5 => 32
    case 6 => 64
    case 7 => 128
  }

  /** The remainder by a positive count is below both the count and the number. */
  lemma ModBelow(c: nat, n: nat)
    requires n > 0
    ensures c % n < n && c % n <= c && (c < n ==> c % n == c)
  {
  }

  /** `(1 << depth) - 1` applied to a palette index; at 8 or more bits every index is kept. */
  function MaskColor(c: byte, depth: byte): (r: byte)
    ensures r <= c
    ensures depth < 8 ==> r < ColorCount(depth) && (c < ColorCount(depth) ==> r == c)
    ensures depth >= 8 ==> r == c
  {
    if depth >= 8 then c else ModBelow(c, ColorCount(depth)); c % ColorCount(depth)
  }

  /**
   * `clip_color`: below 16 colours the bright half of the palette is shown
   * with an attribute instead (bold for text, blink for background); any
   * colour but the default is masked to the screen's depth.
   */
  function ClipColor(c: byte, fattr: nat, depth: byte, a: bv8): (r: (byte, bv8))
    requires fattr < 8
    ensures depth < 4 ==> GetBit(r.1, fattr) == (c >= 8)
    ensures depth >= 4 ==> r.1 == a
    ensures forall j :: 0 <= j < 8 && j != fattr ==> GetBit(r.1, j) == GetBit(a, j)
    ensures c == ColorDefault ==> r.0 == c
    ensures c != ColorDefault ==> r.0 == MaskColor(c, depth)
  {
    var a' := if depth < 4 then SetBit(a, fattr, c >= 8) else a;
    (if c != ColorDefault then MaskColor(c, depth) else c, a')
  }

  function DrawColor(w: Window, c: byte, depth: byte): (r: Window)
    ensures r.(attr := w.attr) == w
  {
    var (fg, a) := ClipColor(c, AttrBold, depth, w.attr.attr);
    w.(attr := w.attr.(fg := fg, attr := a))
  }

  function FillColor(w: Window, c: byte, depth: byte): (r: Window)
    ensures r.(attr := w.attr) == w
  {
    var (bg, a) := ClipColor(c, AttrBlink, depth, w.attr.attr);
    w.(attr := w.attr.(bg := bg, attr := a))
  }

  /** On an 8-colour terminal a bright text colour becomes its base colour in bold. */
  lemma BrightTextIsBold(w: Window, c: byte)
    requires 8 <= c < 16
    ensures DrawColor(w, c, 3).attr.fg == c - 8 && GetBit(DrawColor(w, c, 3).attr.attr, AttrBold)
  {
  }

  /** On an 8-colour terminal a bright background becomes its base colour with blink. */
  lemma BrightFillIsBlink(w: Window, c: byte)
    requires 8 <= c < 16
    ensures FillColor(w, c, 3).attr.bg == c - 8 && GetBit(FillColor(w, c, 3).attr.attr, AttrBlink)
  {
  }

  //}}}
  //{{{ Characters and bars

  /** `cell_from_char`: the pen cell carrying character `ch`. */
  function CellFromChar(w: Window, ch: u32): (c: Cell)
    ensures c.(c := w.attr.c) == w.attr
  {
    w.attr.(c := AssignChar(w.attr.c, ch))
  }

  /** `Draw_char`: writes the cell if the pen is inside the viewport, and always advances the pen. */
  function DrawChar(w: Window, ch: u32): (r: Window)
    requires Valid(w)
    ensures PaintsInside(w, r)
    ensures r.pos == Point(WrapI16(w.pos.x + 1), w.pos.y) && r.caret == w.caret && r.attr == w.attr
    ensures Covers(w.viewport, w.pos.x, w.pos.y) ==> At(r.surface, w.pos.x, w.pos.y) == CellFromChar(w, ch)
    ensures forall y, x :: 0 <= y < w.area.h && 0 <= x < w.area.w && (x, y) != (w.pos.x as int, w.pos.y as int)
              ==> At(r.surface, x, y) == At(w.surface, x, y)
  {
    ContainsIffCovers(w.viewport, w.pos.x, w.pos.y);
    var s := if ContainsPoint(w.viewport, w.pos) then Set(w.surface, w.pos.x, w.pos.y, CellFromChar(w, ch)) else w.surface;
    w.(surface := s, pos := Point(WrapI16(w.pos.x + 1), w.pos.y))
  }

  /**
   * One cell of a character bar: the character always; a blank takes the
   * pen's background and attributes, anything else its foreground and adds
   * its attributes.
   */
  function BarCell(o: Cell, oc: Cell): (r: Cell)
    ensures r.c == oc.c && r.z == o.z
    ensures oc.c[0] == ' ' as int ==> r.bg == oc.bg && r.attr == oc.attr && r.fg == o.fg
    ensures oc.c[0] != ' ' as int ==> r.fg == oc.fg && r.attr == o.attr | oc.attr && r.bg == o.bg
  {
    if oc.c[0] == ' ' as int then o.(c := oc.c, bg := oc.bg, attr := oc.attr)
    else o.(c := oc.c, fg := oc.fg, attr := o.attr | oc.attr)
  }

  /** Applies `BarCell` to every cell of `s` inside `r`. */
  function PaintRect(s: Surface, r: Rect, oc: Cell): (p: Surface)
    requires ValidSurface(s)
    ensures ValidSurface(p) && p.sz == s.sz && SameOutside(s, p, r)
    ensures forall y, x :: 0 <= y < s.sz.h && 0 <= x < s.sz.w && Covers(r, x, y) ==> At(p, x, y) == BarCell(At(s, x, y), oc)
  {
    Surface(s.sz, seq(s.sz.h, y requires 0 <= y < s.sz.h =>
      seq(s.sz.w, x requires 0 <= x < s.sz.w => if Covers(r, x, y) then BarCell(s.rows[y][x], oc) else s.rows[y][x])))
  }

  /** The nested loops of `Draw_char_bar`, row by row over the clipped rectangle. */
  method PaintRectLoop(s: Surface, r: Rect, oc: Cell) returns (p: Surface)
    requires ValidSurface(s) && 0 <= r.x && 0 <= r.y && r.x + r.w <= s.sz.w && r.y + r.h <= s.sz.h
    ensures p == PaintRect(s, r, oc)
  {
    var rows := s.rows;
    var y := r.y as int;
    while y < r.y + r.h
      invariant r.y <= y <= r.y + r.h && |rows| == |s.rows|
      invariant forall j :: 0 <= j < |rows| ==> |rows[j]| == s.sz.w
      invariant forall j :: 0 <= j < |rows| && !(r.y <= j < y) ==> rows[j] == s.rows[j]
      invariant forall j :: r.y <= j < y ==> rows[j] == PaintRect(s, r, oc).rows[j]
    {
      var row := rows[y];
      var x := r.x as int;
      while x < r.x + r.w
        invariant r.x <= x <= r.x + r.w && |row| == s.sz.w
        invariant forall i :: 0 <= i < |row| && !(r.x <= i < x) ==> row[i] == s.rows[y][i]
        invariant forall i :: r.x <= i < x ==> row[i] == BarCell(s.rows[y][i], oc)
      {
        row := row[x := BarCell(row[x], oc)];
        x := x + 1;
      }
      assert row == PaintRect(s, r, oc).rows[y];
      rows := rows[y := row];
      y := y + 1;
    }
    forall j | 0 <= j < |rows| && !(r.y <= j < r.y + r.h)
      ensures rows[j] == PaintRect(s, r, oc).rows[j]
    {
      assert forall i :: 0 <= i < s.sz.w ==> !Covers(r, i, j);
    }
    p := Surface(s.sz, rows);
    assert p.rows == PaintRect(s, r, oc).rows;
  }

  /** `Draw_char_bar`: fills the part of the `wh` rectangle at the pen that is inside the viewport. */
  function CharBar(w: Window, wh: Size, ch: u32): (r: Window)
    requires Valid(w)
    ensures PaintsInside(w, r) && r.pos == w.pos && r.caret == w.caret && r.attr == w.attr
    ensures forall y, x :: 0 <= y < w.area.h && 0 <= x < w.area.w && Covers(w.viewport, x, y) && Covers(RectAt(w.pos, wh), x, y)
              ==> At(r.surface, x, y) == BarCell(At(w.surface, x, y), CellFromChar(w, ch))
    ensures forall y, x :: 0 <= y < w.area.h && 0 <= x < w.area.w && !Covers(RectAt(w.pos, wh), x, y)
              ==> At(r.surface, x, y) == At(w.surface, x, y)
  {
    var orect := Clip(w.viewport, RectAt(w.pos, wh));
    forall x: int, y: int ensures Covers(orect, x, y) <==> Covers(w.viewport, x, y) && Covers(RectAt(w.pos, wh), x, y) {
      ClipIsIntersection(w.viewport, RectAt(w.pos, wh), x, y);
    }
    if Empty(orect) then
      EmptyIffCoversNothing(orect);
      w
    else
      var s := PaintRect(w.surface, orect, CellFromChar(w, ch));
      w.(surface := s)
  }

  /** `Draw_bar`: a bar of blanks. */
  function Bar(w: Window, wh: Size): (r: Window)
    requires Valid(w)
    ensures PaintsInside(w, r) && r.pos == w.pos && r.caret == w.caret && r.attr == w.attr
  {
    CharBar(w, wh, ' ' as int)
  }

  /** `Draw_clear`: the whole viewport blanked with the pen's background. */
  function Clear(w: Window): (r: Window)
    requires Valid(w)
    ensures PaintsInside(w, r) && r.pos == Pos(w.viewport) && r.attr == w.attr
    ensures forall y, x :: 0 <= y < w.area.h && 0 <= x < w.area.w && Covers(w.viewport, x, y)
              ==> At(r.surface, x, y).c == AssignByte(w.attr.c, ' ' as int) && At(r.surface, x, y).bg == w.attr.bg
  {
    var w1 := MoveTo(w, Point(0, 0));
    assert w1.pos == Pos(w.viewport);
    CharBar(w1, RectSize(w.viewport), ' ' as int)
  }

  //}}}
  //{{{ Lines and boxes

  const GCharCheckerboard: u32 := 0x86
  const GCharLRCorner: u32 := 0x8B
  const GCharURCorner: u32 := 0x8C
  const GCharULCorner: u32 := 0x8D
  const GCharLLCorner: u32 := 0x8E
  const GCharHLine: u32 := 0x92
  const GCharVLine: u32 := 0x99

  /**
   * The bar `Draw_line` fills: one cell thick, starting at the pen or, for a
   * negative offset, at the line's far end.
   */
  function LineRect(p: Point, o: Offset): (r: Rect)
    ensures o.dx == 0 ==> r.w == 1 && r.h == Abs(o.dy)
    ensures o.dx != 0 ==> r.h == 1 && r.w == Abs(o.dx)
  {
    if o.dx == 0 then
      if o.dy < 0 then Rect(p.x, WrapI16(p.y + o.dy), 1, Abs(o.dy)) else Rect(p.x, p.y, 1, o.dy)
    else
      if o.dx < 0 then Rect(WrapI16(p.x + o.dx), p.y, Abs(o.dx), 1) else Rect(p.x, p.y, o.dx, 1)
  }

  function Abs(v: int): nat { if v < 0 then -v else v }

  /** `Draw_line`: a vertical or horizontal bar of line characters; the pen ends at the line's end. */
  function Line(w: Window, o: Offset): (r: Window)
    requires Valid(w)
    ensures PaintsInside(w, r) && r.pos == Translate(w.pos, o) && r.attr == w.attr && r.caret == w.caret
    ensures var lr := LineRect(w.pos, o); var lc := if o.dx == 0 then GCharVLine else GCharHLine;
      forall y, x :: 0 <= y < w.area.h && 0 <= x < w.area.w && Covers(w.viewport, x, y) && Covers(lr, x, y)
        ==> At(r.surface, x, y).c == AssignByte(w.attr.c, lc)
  {
    var lr := LineRect(w.pos, o);
    var lc := if o.dx == 0 then GCharVLine else GCharHLine;
    var w1 := w.(pos := Pos(lr));
    var w2 := CharBar(w1, RectSize(lr), lc);
    assert RectAt(w1.pos, RectSize(lr)) == lr;
    w2.(pos := Translate(w.pos, o))
  }

  /** The four sides of `Draw_box`, each followed by its corner character. */
  function BoxSide(wh: Size, i: nat): Offset
    requires i < 4
  {
    if i == 0 then Offset(WrapI16(wh.w - 1), 0)
    else if i == 1 then Offset(0, WrapI16(wh.h - 2))
    else if i == 2 then Offset(WrapI16(-(wh.w - 1)), 0)
    else Offset(0, WrapI16(-(wh.h - 1)))
  }

  function BoxCorner(i: nat): u32
    requires i < 4
  {
    if i == 0 then GCharURCorner else if i == 1 then GCharLRCorner else if i == 2 then GCharLLCorner else GCharULCorner
  }

  /** Where the pen goes over one side: along the side, past the corner, then one cell back (and down after the first). */
  function BoxStepPen(p: Point, wh: Size, i: nat): Point
    requires i < 4
  {
    var q := Translate(p, BoxSide(wh, i));
    Point(WrapI16(WrapI16(q.x + 1) - 1), if i == 0 then WrapI16(q.y + 1) else q.y)
  }

  /** One side of a box: its line, then its corner character. */
  function BoxStep(w: Window, wh: Size, i: nat): (r: Window)
    requires Valid(w) && i < 4
    ensures PaintsInside(w, r) && r.attr == w.attr && r.caret == w.caret
    ensures r.pos == BoxStepPen(w.pos, wh, i)
  {
    var w1 := DrawChar(Line(w, BoxSide(wh, i)), BoxCorner(i));
    SameOutsideTrans(w.surface, Line(w, BoxSide(wh, i)).surface, w1.surface, w.viewport);
    w1.(pos := Point(WrapI16(w1.pos.x - 1), if i == 0 then WrapI16(w1.pos.y + 1) else w1.pos.y))
  }

  /** Sides `i..3` of a box. */
  function BoxFrom(w: Window, wh: Size, i: nat): (r: Window)
    requires Valid(w) && i <= 4
    ensures PaintsInside(w, r) && r.attr == w.attr && r.caret == w.caret
    ensures r.pos == BoxPenFrom(w.pos, wh, i)
    decreases 4 - i
  {
    if i == 4 then w
    else
      var w1 := BoxStep(w, wh, i);
      var r := BoxFrom(w1, wh, i + 1);
      SameOutsideTrans(w.surface, w1.surface, r.surface, w.viewport);
      r
  }

  function BoxPenFrom(p: Point, wh: Size, i: nat): Point
    requires i <= 4
    decreases 4 - i
  {
    if i == 4 then p else BoxPenFrom(BoxStepPen(p, wh, i), wh, i + 1)
  }

  /** `Draw_box`: four sides drawn clockwise from the top left, each ending in its corner. */
  function Box(w: Window, wh: Size): (r: Window)
    requires Valid(w)
    ensures PaintsInside(w, r) && r.attr == w.attr && r.caret == w.caret
  {
    BoxFrom(w, wh, 0)
  }

  /** A box that fits the coordinate range leaves the pen where it started. */
  lemma BoxReturnsPen(w: Window, wh: Size)
    requires Valid(w) && 1 <= wh.w && 2 <= wh.h
    requires 0 <= w.pos.x && w.pos.x + wh.w < 0x8000 && 0 <= w.pos.y && w.pos.y + wh.h < 0x8000
    ensures Box(w, wh).pos == w.pos
  {
    var p := w.pos;
    var p1 := BoxStepPen(p, wh, 0);
    assert p1 == Point(p.x + wh.w - 1, p.y + 1);
    var p2 := BoxStepPen(p1, wh, 1);
    assert p2 == Point(p.x + wh.w - 1, p.y + wh.h - 1);
    var p3 := BoxStepPen(p2, wh, 2);
    assert p3 == Point(p.x, p.y + wh.h - 1);
    var p4 := BoxStepPen(p3, wh, 3);
    assert p4 == p;
    assert BoxPenFrom(p, wh, 0) == BoxPenFrom(p4, wh, 4);
  }

  //}}}
  //{{{ Text

  const HLeft: nat := 0
  const HCenter: nat := 1
  const HRight: nat := 2
  const VTop: nat := 0
  const VCenter: nat := 1
  const VBottom: nat := 2

  const Newline: u32 := 10

  /** `count(t, '\n')`. */
  function CountNewlines(t: seq<byte>): nat
  {
    if t == [] then 0 else (if t[0] == 10 then 1 else 0) + CountNewlines(t[1..])
  }

  /** `find(l, tend, '\n')`, with "not found" meaning the end. */
  function FindNewline(wt: seq<u32>, l: nat): (r: nat)
    requires l <= |wt|
    ensures l <= r <= |wt| && (r < |wt| ==> wt[r] == Newline)
    ensures forall i :: l <= i < r ==> wt[i] != Newline
    decreases |wt| - l
  {
    if l == |wt| || wt[l] == Newline then l else FindNewline(wt, l + 1)
  }

  /**
   * The character array `Draw_edit_text` builds: one slot per byte of the
   * string, the decoded characters first, the rest zero.
   */
  function WideText(t: seq<byte>): (wt: seq<u32>)
    ensures |wt| == |t|
  {
    var d := Utf8.DecodeAll(t);
    d + seq(|t| - |d|, _ => 0)
  }

  /** A text cell: the character and foreground replace, the attributes add. */
  function TextCell(o: Cell, cc: Cell): (r: Cell)
    ensures r.c == cc.c && r.fg == cc.fg && r.bg == o.bg && r.attr == o.attr | cc.attr && r.z == o.z
  {
    o.(c := cc.c, fg := cc.fg, attr := o.attr | cc.attr)
  }

  /** Writes `chars` into row `y` from column `x`. */
  function WriteRow(w: Window, s: Surface, x: nat, y: nat, chars: seq<u32>): (r: Surface)
    requires ValidSurface(s) && y < s.sz.h && x + |chars| <= s.sz.w
    ensures ValidSurface(r) && r.sz == s.sz
    ensures forall i :: 0 <= i < |chars| ==> At(r, x + i, y) == TextCell(At(s, x + i, y), CellFromChar(w, chars[i]))
    ensures forall y', x' :: 0 <= y' < s.sz.h && 0 <= x' < s.sz.w && !(y' == y && x <= x' < x + |chars|)
              ==> At(r, x', y') == At(s, x', y')
  {
    Surface(s.sz, s.rows[y := WriteCells(w, s.rows[y], x, chars)])
  }

  /** One row with `chars` written from column `x`. */
  function WriteCells(w: Window, row: seq<Cell>, x: nat, chars: seq<u32>): (r: seq<Cell>)
    requires x + |chars| <= |row|
    ensures |r| == |row|
    ensures forall i :: 0 <= i < |chars| ==> r[x + i] == TextCell(row[x + i], CellFromChar(w, chars[i]))
    ensures forall i :: 0 <= i < |row| && !(x <= i < x + |chars|) ==> r[i] == row[i]
  {
    row[..x] + seq(|chars|, i requires 0 <= i < |chars| => TextCell(row[x + i], CellFromChar(w, chars[i]))) + row[x + |chars|..]
  }

  /** What the line loop of `Draw_edit_text` carries from line to line. */
  datatype TextRun = TextRun(surface: Surface, caret: Point, ly: i16, lsz: nat)

  /** Left edge of a line of `lsz` characters aligned at `tx`. */
  function AlignX(tx: i16, lsz: nat, ha: nat): i16
  {
    if ha == HCenter then WrapI16(tx - lsz / 2) else if ha == HRight then WrapI16(tx - lsz) else tx
  }

  /**
   * One visible line `wt[l..lend]` on row `ly`: clipped on the left to the
   * viewport, then on the right; the caret lands on this line if its index
   * is within the visible part (its end included).
   */
  function TextLine(w: Window, wt: seq<u32>, l: nat, lend: nat, cpi: nat, tx: i16, ha: nat, ly: i16, st: TextRun): (r: TextRun)
    requires Valid(w) && ValidSurface(st.surface) && st.surface.sz == w.surface.sz
    requires l <= lend <= |wt| && w.viewport.y <= ly < w.viewport.y + w.viewport.h
    ensures ValidSurface(r.surface) && SameOutside(st.surface, r.surface, w.viewport)
    ensures r.ly == st.ly && r.lsz == st.lsz
  {
    var vp := w.viewport;
    var lx0 := AlignX(tx, lend - l, ha);
    var vlx := lx0 - vp.x;
    var l1 := if vlx < 0 then l - vlx else l;
    var lx: int := if vlx < 0 then vp.x else lx0;
    if l1 < lend then
      var nvis := Min(lend - l1, (vp.x + vp.w) - lx);
      var vislend := l1 + nvis;
      var caret := if vislend >= cpi && l1 <= cpi then Point(WrapI16(lx + (cpi - l1)), ly) else st.caret;
      if nvis > 0 then
        var s := WriteRow(w, st.surface, lx, ly, wt[l1..vislend]);
        st.(surface := s, caret := caret)
      else
        st.(caret := caret)
    else
      st
  }

  /** The line loop of `Draw_edit_text` from the line starting at `l`. */
  function TextLines(w: Window, wt: seq<u32>, l: nat, cpi: nat, tx: i16, ha: nat, st: TextRun): (r: TextRun)
    requires Valid(w) && ValidSurface(st.surface) && st.surface.sz == w.surface.sz
    ensures ValidSurface(r.surface) && SameOutside(st.surface, r.surface, w.viewport)
    decreases |wt| - l
  {
    if l >= |wt| then st
    else
      var lend := FindNewline(wt, l);
      RowVisible(w.viewport, st.ly);
      var st1 := if WrapU16(st.ly - w.viewport.y) < w.viewport.h
                 then TextLine(w, wt, l, lend, cpi, tx, ha, st.ly, st) else st;
      var r := TextLines(w, wt, lend + 1, cpi, tx, ha, st1.(ly := WrapI16(st.ly + 1), lsz := lend - l));
      SameOutsideTrans(st.surface, st1.surface, r.surface, w.viewport);
      r
  }

  /**
   * `Draw_edit_text`: draws lines of `t` aligned at the pen, clipped to the
   * viewport, and places the caret at character `cp` when that is visible.
   * The pen ends on the last line: after it for left alignment, at its left
   * edge otherwise.
   */
  function EditText(w: Window, t: seq<byte>, cp: u32, ha: nat, va: nat): (r: Window)
    requires Valid(w)
    ensures PaintsInside(w, r) && r.attr == w.attr
  {
    var nlines := 1 + CountNewlines(t);
    var y0 := if va == VCenter then WrapI16(w.pos.y - nlines / 2)
              else if va == VBottom then WrapI16(w.pos.y - nlines) else w.pos.y;
    var wt := WideText(t);
    var cpi := if cp <= |wt| then cp else 0;
    var caret0 := if cp <= |wt| && |wt| == 0 then Point(w.pos.x, y0) else w.caret;
    var st := TextLines(w, wt, 0, cpi, w.pos.x, ha, TextRun(w.surface, caret0, y0, 0));
    var endx := if ha == HCenter then WrapI16(w.pos.x - st.lsz / 2)
                else if ha == HRight then WrapI16(w.pos.x - st.lsz) else WrapI16(w.pos.x + st.lsz);
    w.(surface := st.surface, caret := st.caret, pos := Point(endx, WrapI16(st.ly - 1)))
  }

  /** `Draw_text`: `Draw_edit_text` with the caret left where it was. */
  function Text(w: Window, t: seq<byte>, ha: nat, va: nat): (r: Window)
    requires Valid(w)
    ensures PaintsInside(w, r) && r.caret == w.caret && r.attr == w.attr
  {
    EditText(w, t, 0, ha, va).(caret := w.caret)
  }

  /**
   * A single left-aligned, top-aligned ASCII line that fits the viewport
   * lands character by character on the pen's row, moves the pen past its
   * end, and puts the caret at character `cp`.
   */
  lemma {:induction false} SingleLineText(w: Window, t: seq<byte>, cp: u32)
    requires Valid(w) && |t| > 0 && cp <= |t|
    requires forall i :: 0 <= i < |t| ==> t[i] < 0x80 && t[i] != 10
    requires Covers(w.viewport, w.pos.x, w.pos.y) && w.pos.x + |t| <= w.viewport.x + w.viewport.w
    ensures var r := EditText(w, t, cp, HLeft, VTop);
      r.pos == Point(w.pos.x + |t|, w.pos.y) &&
      r.caret == Point(w.pos.x + cp, w.pos.y) &&
      forall i :: 0 <= i < |t| ==> At(r.surface, w.pos.x + i, w.pos.y).c == AssignChar(w.attr.c, t[i])
  {
    Utf8.AsciiDecodesToItself(t);
    var wt := WideText(t);
    assert wt == t;
    assert FindNewline(wt, 0) == |t| by {
      FindNoNewline(wt, 0);
    }
    RowVisible(w.viewport, w.pos.y);
    var st0 := TextRun(w.surface, w.caret, w.pos.y, 0);
    FittingLine(w, wt, cp, st0);
    var st1 := TextLine(w, wt, 0, |t|, cp, w.pos.x, HLeft, w.pos.y, st0);
    var st2 := st1.(ly := WrapI16(w.pos.y + 1), lsz := |t|);
    assert TextLines(w, wt, |t| + 1, cp, w.pos.x, HLeft, st2) == st2;
    assert TextLines(w, wt, 0, cp, w.pos.x, HLeft, st0) == st2;
  }

  /** A line that starts inside the viewport and fits in it is written whole, with the caret at character `cp`. */
  lemma FittingLine(w: Window, wt: seq<u32>, cp: nat, st: TextRun)
    requires Valid(w) && st.surface == w.surface && 0 < |wt| && cp <= |wt|
    requires Covers(w.viewport, w.pos.x, w.pos.y) && w.pos.x + |wt| <= w.viewport.x + w.viewport.w
    ensures var r := TextLine(w, wt, 0, |wt|, cp, w.pos.x, HLeft, w.pos.y, st);
      r.caret == Point(w.pos.x + cp, w.pos.y) && r.surface == WriteRow(w, w.surface, w.pos.x, w.pos.y, wt) &&
      r.ly == st.ly && r.lsz == st.lsz
  {
    assert wt[0..|wt|] == wt;
  }

  lemma {:induction false} FindNoNewline(wt: seq<u32>, l: nat)
    requires l <= |wt| && forall i :: l <= i < |wt| ==> wt[i] != Newline
    ensures FindNewline(wt, l) == |wt|
    decreases |wt| - l
  {
    if l < |wt| {
      FindNoNewline(wt, l + 1);
    }
  }

  //}}}
  //{{{ Panels

  const PanelRaised: byte := 0
  const PanelSunken: byte := 1
  const PanelSelection: byte := 2
  const PanelMoreLeft: byte := 3
  const PanelMoreRight: byte := 4
  const PanelButton: byte := 7
  const PanelButtonOn: byte := 8
  const PanelCheckbox: byte := 9
  const PanelCheckboxOn: byte := 10
  const PanelRadio: byte := 11
  const PanelRadioOn: byte := 12
  const PanelEditbox: byte := 13
  const PanelStatusbar: byte := 16
  const PanelProgress: byte := 18
  const PanelProgressOn: byte := 19

  function WithAttrBit(w: Window, bit: nat): (r: Window)
    requires bit < 8
    ensures r.(attr := w.attr) == w
  {
    w.(attr := w.attr.(attr := SetBit(w.attr.attr, bit, true)))
  }

  /**
   * `Draw_panel`: the terminal rendition of each panel type. Buttons are a bar
   * in brackets, edit boxes underlined, selections and status bars reversed,
   * check boxes and radio buttons a four-character text, progress bars a
   * reversed or checkered bar. The pen's attributes are restored afterwards.
   */
  function Panel(w: Window, wh: Size, t: byte): (r: Window)
    requires Valid(w)
    ensures PaintsInside(w, r) && r.attr == w.attr && r.caret == w.caret
  {
    var r :=
      if t == PanelRaised || t == PanelButton || t == PanelButtonOn then
        var w1 := DrawChar(Bar(w, wh), '[' as int);
        var w2 := DrawChar(w1.(pos := Point(WrapI16(w1.pos.x + (wh.w - 2)), w1.pos.y)), ']' as int);
        SameOutsideTrans(w.surface, w1.surface, w2.surface, w.viewport);
        w2.(pos := Point(WrapI16(w2.pos.x - (wh.w - 2)), w2.pos.y))
      else if t == PanelSunken || t == PanelEditbox then Bar(WithAttrBit(w, AttrUnderline), wh)
      else if t == PanelSelection || t == PanelStatusbar then Bar(WithAttrBit(w, AttrReverse), wh)
      else if t == PanelCheckbox then Text(w, AsciiBytes("[ ] "), HLeft, VTop)
      else if t == PanelCheckboxOn then Text(w, AsciiBytes("[x] "), HLeft, VTop)
      else if t == PanelRadio then Text(w, AsciiBytes("( ) "), HLeft, VTop)
      else if t == PanelRadioOn then Text(w, AsciiBytes("(*) "), HLeft, VTop)
      else if t == PanelMoreLeft then DrawChar(w, '<' as int)
      else if t == PanelMoreRight then DrawChar(w, '>' as int)
      else if t == PanelProgressOn then CharBar(WithAttrBit(w, AttrReverse), wh, ' ' as int)
      else if t == PanelProgress then CharBar(w, wh, GCharCheckerboard)
      else w;
    r.(attr := r.attr.(attr := w.attr.attr))
  }

  //}}}
  //{{{ Dispatch onto the window

  /** One drawlist call applied to the window; `depth` is the screen's colour depth. */
  function Apply(w: Window, c: Drawlist.Call, depth: byte): (r: Window)
    requires Valid(w)
    ensures Valid(r)
    ensures !c.DrawReset? && !c.DrawViewport? ==> PaintsInside(w, r)
  {
    match c
    case DrawReset => Reset(w)
    case DrawEnable(f) => SetFeature(w, f, true)
    case DrawDisable(f) => SetFeature(w, f, false)
    case DrawClear => Clear(w)
    case DrawMoveTo(p) => MoveTo(w, p)
    case DrawMoveBy(o) => MoveBy(w, o)
    case DrawViewport(vp) => SetViewport(w, vp)
    case DrawDrawColor(i) => DrawColor(w, i, depth)
    case DrawFillColor(i) => FillColor(w, i, depth)
    case DrawChar(ch, _, _) => DrawChar(w, ch)
    case DrawText(t, ha, va) => Text(w, t, ha, va)
    case DrawLine(o) => Line(w, o)
    case DrawBox(sz) => Box(w, sz)
    case DrawBar(sz) => Bar(w, sz)
    case DrawCharBar(sz, ch) => CharBar(w, sz, ch)
    case DrawPanel(sz, t) => Panel(w, sz, t)
    case DrawEditText(t, cp, ha, va) => EditText(w, t, cp, ha, va)
    case _ => w
  }

  /** The row test of `Draw_edit_text` is interval membership. */
  lemma RowVisible(vp: Rect, ly: i16)
    requires WellFormed(vp)
    ensures WrapU16(ly - vp.y) < vp.h <==> vp.y <= ly < vp.y + vp.h
  {
    if ly < vp.y {
      assert WrapU16(ly - vp.y) == ly - vp.y + 0x1_0000;
    }
  }

  /** A sequence of calls applied in order. */
  function Run(w: Window, cs: seq<Drawlist.Call>, depth: byte): (r: Window)
    requires Valid(w)
    ensures Valid(r) && r.area == w.area
    decreases |cs|
  {
    if cs == [] then w else Run(Apply(w, cs[0], depth), cs[1..], depth)
  }

  /** `Screen_draw`: reset the window, then replay the drawlist onto it. */
  function ScreenDraw(w: Window, dl: seq<byte>, depth: byte): (r: Window)
    requires Valid(w)
    ensures Valid(r) && r.area == w.area
  {
    Run(Reset(w), Drawlist.Dispatch(dl), depth)
  }

  /**
   * A drawlist that neither resets nor changes the viewport leaves every cell
   * outside the viewport as it was.
   */
  lemma {:induction false} RunPaintsInsideViewport(w: Window, cs: seq<Drawlist.Call>, depth: byte)
    requires Valid(w)
    requires forall i :: 0 <= i < |cs| ==> !cs[i].DrawReset? && !cs[i].DrawViewport?
    ensures SameOutside(w.surface, Run(w, cs, depth).surface, w.viewport)
    ensures Run(w, cs, depth).viewport == w.viewport
    decreases |cs|
  {
    if cs != [] {
      var w1 := Apply(w, cs[0], depth);
      RunPaintsInsideViewport(w1, cs[1..], depth);
      SameOutsideTrans(w.surface, w1.surface, Run(w, cs, depth).surface, w.viewport);
    }
  }

  /** Whatever a drawlist does, the window keeps its viewport inside its interior. */
  lemma {:induction false} RunKeepsViewportInside(w: Window, cs: seq<Drawlist.Call>, depth: byte)
    requires Valid(w)
    ensures Within(Interior(w), Run(w, cs, depth).viewport)
    decreases |cs|
  {
    if cs != [] {
      RunKeepsViewportInside(Apply(w, cs[0], depth), cs[1..], depth);
    }
  }

  //}}}
}
