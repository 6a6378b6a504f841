/**
 * The terminal's character-cell surface: a row-major grid of 8-byte cells.
 * A cell holds four character bytes (one byte for ASCII and graphic
 * characters, the UTF-8 encoding for anything from U+00A0 up), a spare byte,
 * an attribute bit set and two palette colours.
 */
module TermSurface {
  import opened Ints
  import opened UiDefs
  import Utf8

  //{{{ Attributes and colours

  const AttrBold: nat := 0
  const AttrItalic: nat := 1
  const AttrUnderline: nat := 2
  const AttrBlink: nat := 3
  const AttrReverse: nat := 4
  const AttrAltcharset: nat := 5

  const ColorRed: byte := 1
  const ColorGray: byte := 7
  /** `IColor::Default`: the terminal's own colour. */
  const ColorDefault: byte := 16

  /** `1 << i` as an attribute byte. */
  function BitMask(i: nat): bv8
    requires i < 8
  {
    if i == 0 then 0x01 else if i == 1 then 0x02 else if i == 2 then 0x04 else if i == 3 then 0x08
    else if i == 4 then 0x10 else if i == 5 then 0x20 else if i == 6 then 0x40 else 0x80
  }

  /** `get_bit` on an attribute byte. */
  predicate GetBit(b: bv8, i: nat)
    requires i < 8
  {
    b & BitMask(i) != 0
  }

  /** `set_bit`: bit `i` becomes `v`, every other bit is kept. */
  function SetBit(b: bv8, i: nat, v: bool): (r: bv8)
    requires i < 8
    ensures GetBit(r, i) == v
    ensures forall j :: 0 <= j < 8 && j != i ==> GetBit(r, j) == GetBit(b, j)
  {
    var r := if v then b | BitMask(i) else b & !BitMask(i);
    OtherBitsKept(b, r, i);
    r
  }

  /** Two bytes that agree outside bit `i` agree on every other bit. */
  lemma OtherBitsKept(b: bv8, r: bv8, i: nat)
    requires i < 8 && r & !BitMask(i) == b & !BitMask(i)
    ensures forall j :: 0 <= j < 8 && j != i ==> GetBit(r, j) == GetBit(b, j)
  {
    forall j | 0 <= j < 8 && j != i
      ensures GetBit(r, j) == GetBit(b, j)
    {
      assert BitMask(j) & !BitMask(i) == BitMask(j);
    }
  }

  //}}}
  //{{{ Cells

  /** The four character bytes of a cell. */
  type Glyph = s: seq<byte> | |s| == 4 witness [32, 0, 0, 0]

  datatype Cell = Cell(c: Glyph, z: byte, attr: bv8, fg: byte, bg: byte)

  /** `default_cell`: a blank in the terminal's default colours. */
  const DefaultCell: Cell := Cell([32, 0, 0, 0], 0, 0, ColorDefault, ColorDefault)

  /** Assigning a `char`: the first byte is set and the second zeroed; the other two are kept. */
  function AssignByte(g: Glyph, v: byte): (r: Glyph)
    ensures r[0] == v && r[1] == 0 && r[2..] == g[2..]
  {
    [v, 0, g[2], g[3]]
  }

  /** First graphic character past the `GChar` range; from here on characters are stored encoded. */
  const GCharFirst: byte := 0x80
  const GCharLast: byte := 0xA0

  /** The first four bytes of `s`, zero-filled. */
  function Take4(s: seq<byte>): (r: Glyph)
    ensures |s| <= 4 ==> r[..|s|] == s && forall i :: |s| <= i < 4 ==> r[i] == 0
  {
    var p := s + [0, 0, 0, 0];
    [p[0], p[1], p[2], p[3]]
  }

  /**
   * Assigning a `char32_t`: ASCII and graphic characters go in as a `char`,
   * everything else replaces all four bytes with its UTF-8 encoding.
   */
  function AssignChar(g: Glyph, v: u32): (r: Glyph)
    ensures v < GCharLast ==> r == AssignByte(g, v)
    ensures v >= GCharLast ==> r[0] >= 0xC0
  {
    if v >= GCharLast then Take4(Utf8.Encode(v)) else AssignByte(g, v)
  }

  /** A character stored in a cell can be read back: its byte, or its decoded UTF-8. */
  lemma AssignCharReadsBack(g: Glyph, v: u32)
    requires v < 0x20_0000
    ensures var r := AssignChar(g, v);
      if v < GCharLast then r[0] == v
      else Utf8.SeqLen(r[0]) <= 4 && Utf8.DecodeAt(r, 0) == v
  {
    if v >= GCharLast {
      var e := Utf8.Encode(v);
      var r := AssignChar(g, v);
      assert r[..|e|] == e;
      Utf8.EncodeRoundTrip(v, [], r[|e|..]);
      assert r == [] + e + r[|e|..];
    }
  }

  /** `is_ascii`: the first byte is a printable 7-bit character. */
  predicate IsAscii(g: Glyph)
  {
    ' ' as int <= g[0] <= '~' as int
  }

  //}}}
  //{{{ Surface

  /** A grid of `sz.h` rows of `sz.w` cells; the source stores them row-major in one vector. */
  datatype Surface = Surface(sz: Size, rows: seq<seq<Cell>>)

  predicate ValidSurface(s: Surface)
  {
    |s.rows| == s.sz.h && forall y :: 0 <= y < |s.rows| ==> |s.rows[y]| == s.sz.w
  }

  /** `*iat(x, y)`. */
  function At(s: Surface, x: nat, y: nat): Cell
    requires ValidSurface(s) && x < s.sz.w && y < s.sz.h
  {
    s.rows[y][x]
  }

  /** Replaces one cell. */
  function Set(s: Surface, x: nat, y: nat, c: Cell): (r: Surface)
    requires ValidSurface(s) && x < s.sz.w && y < s.sz.h
    ensures ValidSurface(r) && r.sz == s.sz
    ensures At(r, x, y) == c
    ensures forall y', x' :: 0 <= y' < s.sz.h && 0 <= x' < s.sz.w && (x', y') != (x, y) ==> At(r, x', y') == At(s, x', y')
  {
    Surface(s.sz, s.rows[y := s.rows[y][x := c]])
  }

  /** `resize` followed by `clear`: every cell blank. */
  function Blank(sz: Size): (r: Surface)
    ensures ValidSurface(r) && r.sz == sz
    ensures forall y, x :: 0 <= y < sz.h && 0 <= x < sz.w ==> At(r, x, y) == DefaultCell
  {
    Surface(sz, seq(sz.h, _ => seq(sz.w, _ => DefaultCell)))
  }

  /** Two valid surfaces of one size agree on every cell outside `r`. */
  predicate SameOutside(a: Surface, b: Surface, r: Rect)
  {
    ValidSurface(a) && ValidSurface(b) && a.sz == b.sz &&
    forall y, x :: 0 <= y < a.sz.h && 0 <= x < a.sz.w && !Covers(r, x, y) ==> At(a, x, y) == At(b, x, y)
  }

  lemma SameOutsideTrans(a: Surface, b: Surface, c: Surface, r: Rect)
    requires SameOutside(a, b, r) && SameOutside(b, c, r)
    ensures SameOutside(a, c, r)
  {
  }

  /** Writing a cell inside `r` leaves everything outside `r` alone. */
  lemma SetInside(s: Surface, x: nat, y: nat, c: Cell, r: Rect)
    requires ValidSurface(s) && x < s.sz.w && y < s.sz.h && Covers(r, x, y)
    ensures SameOutside(s, Set(s, x, y, c), r)
  {
  }

  //}}}
}
