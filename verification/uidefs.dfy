/**
 * The toolkit's value types: 16-bit offsets, sizes, points and rectangles
 * with their arithmetic, packed RGBA colours, key-code modifier masks and the
 * window-type ranges. Coordinates are `int16_t` and dimensions `uint16_t` in
 * the source; every store of a wider intermediate wraps explicitly here.
 */
module UiDefs {
  import opened Ints

  datatype Offset = Offset(dx: i16, dy: i16)
  datatype Size = Size(w: u16, h: u16)
  datatype Point = Point(x: i16, y: i16)
  datatype Rect = Rect(x: i16, y: i16, w: u16, h: u16)

  //{{{ Point, Offset and Size arithmetic

  function AddOffsets(a: Offset, b: Offset): Offset
  {
    Offset(WrapI16(a.dx + b.dx), WrapI16(a.dy + b.dy))
  }

  function SubOffsets(a: Offset, b: Offset): Offset
  {
    Offset(WrapI16(a.dx - b.dx), WrapI16(a.dy - b.dy))
  }

  /** `Size(coord_t, coord_t)` stores signed coordinates into unsigned dimensions. */
  function SizeOf(nw: int, nh: int): (s: Size)
    ensures 0 <= nw < 0x1_0000 && 0 <= nh < 0x1_0000 ==> s == Size(nw, nh)
  {
    Size(WrapU16(nw), WrapU16(nh))
  }

  function SizeAsOffset(s: Size): Offset
  {
    Offset(WrapI16(s.w), WrapI16(s.h))
  }

  function PointAsOffset(p: Point): Offset
  {
    Offset(p.x, p.y)
  }

  function Translate(p: Point, o: Offset): Point
  {
    Point(WrapI16(p.x + o.dx), WrapI16(p.y + o.dy))
  }

  function TranslateBack(p: Point, o: Offset): Point
  {
    Point(WrapI16(p.x - o.dx), WrapI16(p.y - o.dy))
  }

  function PointPlusSize(p: Point, s: Size): Point
  {
    Point(WrapI16(p.x + s.w), WrapI16(p.y + s.h))
  }

  function PointPlusPoint(p: Point, q: Point): Point
  {
    Point(WrapI16(p.x + q.x), WrapI16(p.y + q.y))
  }

  /** `Point - Point` is the Offset between them. */
  function Difference(p: Point, q: Point): Offset
  {
    Offset(WrapI16(p.x - q.x), WrapI16(p.y - q.y))
  }

  /** Subtracting the offset just added gives the point back, 16-bit wrap included. */
  lemma TranslateRoundTrip(p: Point, o: Offset)
    ensures TranslateBack(Translate(p, o), o) == p
  {
    WrapI16Congruent(WrapI16(p.x + o.dx) - o.dx, p.x);
    WrapI16Congruent(WrapI16(p.y + o.dy) - o.dy, p.y);
  }

  /** Adding the difference `p - q` to `q` gives `p`, 16-bit wrap included. */
  lemma DifferenceRoundTrip(p: Point, q: Point)
    ensures Translate(q, Difference(p, q)) == p
  {
    WrapI16Congruent(q.x + WrapI16(p.x - q.x), p.x);
    WrapI16Congruent(q.y + WrapI16(p.y - q.y), p.y);
  }

  //}}}
  //{{{ Rect

  function Pos(r: Rect): Point { Point(r.x, r.y) }
  function RectSize(r: Rect): Size { Size(r.w, r.h) }
  function RectAt(p: Point, s: Size): Rect { Rect(p.x, p.y, s.w, s.h) }
  /** `Rect(const Size&)`: the rectangle of that size at the origin. */
  function RectOfSize(s: Size): Rect { Rect(0, 0, s.w, s.h) }

  /** The far edges of `r` are representable coordinates, as for every on-screen rect. */
  predicate WellFormed(r: Rect)
  {
    r.x + r.w < 0x8000 && r.y + r.h < 0x8000
  }

  /** Mathematical membership of a cell in a rectangle (the reference for `contains`). */
  predicate Covers(r: Rect, px: int, py: int)
  {
    r.x <= px < r.x + r.w && r.y <= py < r.y + r.h
  }

  /** `r` lies entirely inside `a`. */
  predicate Within(a: Rect, r: Rect)
  {
    a.x <= r.x && r.x + r.w <= a.x + a.w && a.y <= r.y && r.y + r.h <= a.y + a.h
  }

  /** `empty()` is `!(w && h)`. */
  predicate Empty(r: Rect)
  {
    !(r.w != 0 && r.h != 0)
  }

  /** A rectangle is empty iff it covers no cell. */
  lemma EmptyIffCoversNothing(r: Rect)
    ensures Empty(r) <==> forall px: int, py: int :: !Covers(r, px, py)
  {
    if !Empty(r) {
      assert Covers(r, r.x, r.y);
    }
  }

  /**
   * `contains` compares `dim_t(px - x) < w`: the difference is stored as an
   * unsigned 16-bit value, so a point left of or above `x` wraps to a large
   * number and is rejected.
   */
  predicate Contains(r: Rect, px: i16, py: i16)
  {
    WrapU16(px - r.x) < r.w && WrapU16(py - r.y) < r.h
  }

  predicate ContainsPoint(r: Rect, p: Point)
  {
    Contains(r, p.x, p.y)
  }

  /** For a well-formed rectangle the unsigned-wrap test is exactly interval membership. */
  lemma ContainsIffCovers(r: Rect, px: i16, py: i16)
    requires WellFormed(r)
    ensures Contains(r, px, py) <==> Covers(r, px, py)
  {
    if px < r.x {
      assert WrapU16(px - r.x) == px - r.x + 0x1_0000;
    }
    if py < r.y {
      assert WrapU16(py - r.y) == py - r.y + 0x1_0000;
    }
  }

  function MoveBy(r: Rect, o: Offset): (m: Rect)
    ensures RectSize(m) == RectSize(r) && Pos(m) == Translate(Pos(r), o)
  {
    Rect(WrapI16(r.x + o.dx), WrapI16(r.y + o.dy), r.w, r.h)
  }

  /**
   * `a.clip(r)`: the part of `r` inside `a`. Each coordinate is first clamped
   * into `a`, then the far edge is clamped between the new origin and `a`'s
   * far edge, so the size can never go negative.
   */
  function Clip(a: Rect, r: Rect): (cr: Rect)
    ensures WellFormed(a) ==> Within(a, cr) && WellFormed(cr)
  {
    var cx := WrapI16(Min(Max(r.x, a.x), a.x + a.w));
    var cy := WrapI16(Min(Max(r.y, a.y), a.y + a.h));
    var cw := WrapU16(Min(Max(r.x + r.w, cx), a.x + a.w) - cx);
    var ch := WrapU16(Min(Max(r.y + r.h, cy), a.y + a.h) - cy);
    Rect(cx, cy, cw, ch)
  }

  /** A cell is in `a.clip(r)` iff it is in both `a` and `r`. */
  lemma ClipIsIntersection(a: Rect, r: Rect, px: int, py: int)
    requires WellFormed(a)
    ensures Covers(Clip(a, r), px, py) <==> Covers(a, px, py) && Covers(r, px, py)
  {
  }

  /** Clipping a rectangle already inside `a` returns it unchanged. */
  lemma ClipWithinUnchanged(a: Rect, r: Rect)
    requires WellFormed(a) && Within(a, r)
    ensures Clip(a, r) == r
  {
  }

  /** Clipping is idempotent. */
  lemma ClipIdempotent(a: Rect, r: Rect)
    requires WellFormed(a)
    ensures Clip(a, Clip(a, r)) == Clip(a, r)
  {
    ClipWithinUnchanged(a, Clip(a, r));
  }

  //}}}
  //{{{ Colours

  /** `RGBA(r,g,b,a)`: red in the low byte, alpha in the high byte. */
  function RGBA(r: byte, g: byte, b: byte, a: byte): u32
  {
    a * 0x100_0000 + b * 0x1_0000 + g * 0x100 + r
  }

  function RGB(r: byte, g: byte, b: byte): u32
  {
    RGBA(r, g, b, 0xFF)
  }

  function Channel(c: u32, i: nat): byte
    requires i < 4
  {
    if i == 0 then c % 0x100
    else if i == 1 then (c / 0x100) % 0x100
    else if i == 2 then (c / 0x1_0000) % 0x100
    else c / 0x100_0000
  }

  /** Reading the four channels back out of `RGBA` gives red, green, blue, alpha. */
  lemma RGBAChannels(r: byte, g: byte, b: byte, a: byte)
    ensures Channel(RGBA(r, g, b, a), 0) == r
    ensures Channel(RGBA(r, g, b, a), 1) == g
    ensures Channel(RGBA(r, g, b, a), 2) == b
    ensures Channel(RGBA(r, g, b, a), 3) == a
  {
    var c := RGBA(r, g, b, a);
    assert c == ((a * 0x100 + b) * 0x100 + g) * 0x100 + r;
    assert c / 0x100 == (a * 0x100 + b) * 0x100 + g;
    assert c / 0x1_0000 == a * 0x100 + b;
  }

  function ByteSwap(c: u32): u32
  {
    RGBA(Channel(c, 3), Channel(c, 2), Channel(c, 1), Channel(c, 0))
  }

  /** `RGB(color_t c)`: `bswap((c << 8) | 0xff)`, the shift wrapping at 32 bits. */
  function RGBPacked(c: u32): u32
  {
    ByteSwap(WrapU32(c * 0x100) + 0xFF)
  }

  /** Packing `0xRRGGBB` gives the same colour as passing the three channels. */
  lemma RGBPackedAgrees(c: u32)
    requires c < 0x100_0000
    ensures RGBPacked(c) == RGB(Channel(c, 2), Channel(c, 1), Channel(c, 0))
  {
    var s := c * 0x100 + 0xFF;
    assert WrapU32(c * 0x100) == c * 0x100;
    assert s % 0x100 == 0xFF;
    assert s / 0x100 == c;
    assert s / 0x1_0000 == c / 0x100;
    assert s / 0x100_0000 == c / 0x1_0000;
  }

  //}}}
  //{{{ Key codes and modifiers

  /** Modifier bits occupy the top byte of a 32-bit key code. */
  const KModFirstBit: nat := 24
  const KModShift: bv32 := 1 << 24
  const KModCtrl: bv32 := KModShift << 1
  const KModAlt: bv32 := KModCtrl << 1
  const KModBanner: bv32 := KModAlt << 1
  const KModLeft: bv32 := KModBanner << 1
  /** `Middle = Left<1` in the source is a comparison, not a shift. */
  const KModMiddleAsWritten: bv32 := if KModLeft < 1 then 1 else 0
  const KModRightAsWritten: bv32 := KModMiddleAsWritten << 1
  /** The evident intent: each modifier is the next bit up. */
  const KModMiddle: bv32 := KModLeft << 1
  const KModRight: bv32 := KModMiddle << 1
  const KModMask: bv32 := !(KModShift - 1)
  const KeyMask: bv32 := !KModMask

  /** As written, the Middle and Right modifiers are both zero, so they carry no bit at all. */
  lemma KModMiddleRightVanish()
    ensures KModMiddleAsWritten == 0 && KModRightAsWritten == 0
    ensures KModMiddleAsWritten & KModMask == 0
  {
  }

  /** With the shift restored, the seven modifiers are distinct bits inside the modifier mask. */
  lemma KModBitsDistinct()
    ensures KModRight == 1 << 30 && KModMiddle == 1 << 29 && KModLeft == 1 << 28
    ensures forall m :: m in [KModShift, KModCtrl, KModAlt, KModBanner, KModLeft, KModMiddle, KModRight] ==> m & KModMask == m && m != 0
  {
  }

  /** Splitting a key code into its modifier part and its key part loses nothing. */
  function SplitKey(k: bv32): (r: (bv32, bv32))
    ensures r.0 & KeyMask == 0 && r.1 & KModMask == 0
    ensures r.0 | r.1 == k && r.0 & r.1 == 0
  {
    assert KModMask == 0xFF00_0000 && KeyMask == 0x00FF_FFFF;
    (k & KModMask, k & KeyMask)
  }

  /** The key codes of `Key` the decoder and the widgets use, in the enumeration's order. */
  const KeyUp: u32 := 141
  const KeyDown: u32 := 133
  const KeyRight: u32 := 139
  const KeyLeft: u32 := 140
  const KeyCenter: u32 := 136
  const KeyHome: u32 := 13
  const KeyEnd: u32 := 3
  const KeyPageUp: u32 := 2
  const KeyPageDown: u32 := 12
  const KeyInsert: u32 := 154
  const KeyDelete: u32 := 127
  const KeyBreak: u32 := 130
  const KeyWheel: u32 := 153
  const KeyBackspace: u32 := 8
  const KeyTab: u32 := 9
  const KeyEnter: u32 := 10
  const KeyEscape: u32 := 27
  const KeyPrint: u32 := 28
  const KeyF1: u32 := 15
  const KeyF2: u32 := 16
  const KeyF3: u32 := 17
  const KeyF4: u32 := 18
  const KeyF5: u32 := 19
  const KeyF6: u32 := 20
  const KeyF7: u32 := 21
  const KeyF8: u32 := 22
  const KeyF9: u32 := 23
  const KeyF10: u32 := 24
  const KeyF11: u32 := 25
  const KeyF12: u32 := 26
  const KeySpace: u32 := 32

  //}}}
  //{{{ WindowInfo

  datatype WindowType =
    | Normal | Desktop | Dock | Dialog | Toolbar | Utility | Menu | PopupMenu
    | DropdownMenu | ComboMenu | Notification | Tooltip | Splash | Dragged | Embedded

  /** Position of a window type in the enum's declaration order. */
  function TypeOrdinal(t: WindowType): nat
  {
    match t
    case Normal => 0 case Desktop => 1 case Dock => 2 case Dialog => 3
    case Toolbar => 4 case Utility => 5 case Menu => 6 case PopupMenu => 7
    case DropdownMenu => 8 case ComboMenu => 9 case Notification => 10
    case Tooltip => 11 case Splash => 12 case Dragged => 13 case Embedded => 14
  }

  predicate InTypeRange(t: WindowType, first: WindowType, last: WindowType)
  {
    TypeOrdinal(first) <= TypeOrdinal(t) <= TypeOrdinal(last)
  }

  predicate IsParented(t: WindowType) { InTypeRange(t, Dialog, Splash) }
  predicate IsDecoless(t: WindowType) { InTypeRange(t, PopupMenu, Dragged) }
  predicate IsPopup(t: WindowType) { InTypeRange(t, PopupMenu, ComboMenu) }

  /** The three range predicates, spelled out as the types they admit. */
  lemma TypeRangesEnumerated(t: WindowType)
    ensures IsParented(t) <==> t in {Dialog, Toolbar, Utility, Menu, PopupMenu, DropdownMenu, ComboMenu, Notification, Tooltip, Splash}
    ensures IsDecoless(t) <==> t in {PopupMenu, DropdownMenu, ComboMenu, Notification, Tooltip, Splash, Dragged}
    ensures IsPopup(t) <==> t in {PopupMenu, DropdownMenu, ComboMenu}
    ensures IsPopup(t) ==> IsParented(t) && IsDecoless(t)
  {
  }

  datatype WindowInfo = WindowInfo(area: Rect, parent: nat, wtype: WindowType)

  //}}}
}
