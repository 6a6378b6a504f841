/**
 * The screen compositor: the terminal-side cell cache, the diff renderer
 * that brings the terminal up to date with a window's surface, window
 * placement, and the terminal reset.
 *
 * The renderer's output is modelled as a sequence of terminal operations,
 * each of which serializes to the exact escape sequence the compositor
 * writes. A small terminal model gives those operations their ECMA-48
 * meaning (cursor movement, select graphic rendition, shift in/out,
 * printing), so the renderer's promise can be stated and proved: after a
 * window is drawn, the terminal shows what the cache says it shows.
 */
module DiffRender {
  import opened Ints
  import opened UiDefs
  import opened TermSurface
  import opened Wrappers
  import RenderTarget

  //{{{ Terminal operations and their bytes

  datatype TermOp =
    | TSgr(ps: seq<byte>)    // select graphic rendition with parameters ps
    | TSkip(n: nat)          // cursor forward n columns
    | TGoto(x: int, y: int)  // cursor to column x, row y (zero-based)
    | THome                  // cursor to the origin
    | TClear                 // erase from the cursor to the end of the screen
    | TShift(alt: bool)      // shift out (alternate characters) or shift in
    | TPut(text: seq<byte>)  // the bytes of one character
    | TCaret(on: bool)       // show or hide the cursor

  const Esc: byte := 27
  const Csi: seq<byte> := [27, 91]

  /** `%u`: decimal digits, most significant first. */
  function Digits(n: nat): (r: seq<byte>)
    ensures 1 <= |r| && forall i :: 0 <= i < |r| ==> 48 <= r[i] <= 57
    decreases n
  {
    if n < 10 then [48 + n] else Digits(n / 10) + [48 + n % 10]
  }

  /** The number a string of decimal digits denotes. */
  function DigitsValue(s: seq<byte>): nat
    requires forall i :: 0 <= i < |s| ==> 48 <= s[i] <= 57
  {
    if s == [] then 0 else DigitsValue(s[..|s| - 1]) * 10 + (s[|s| - 1] - 48)
  }

  lemma {:induction false} DigitsRoundTrip(n: nat)
    ensures DigitsValue(Digits(n)) == n
    decreases n
  {
    if n >= 10 {
      DigitsRoundTrip(n / 10);
      var d := Digits(n);
      assert d[..|d| - 1] == Digits(n / 10);
    }
  }

  /** Each parameter followed by `;`. */
  function SgrBody(ps: seq<byte>): (r: seq<byte>)
    ensures ps != [] ==> |r| >= 2 && r[|r| - 1] == ';' as int
  {
    if ps == [] then [] else Digits(ps[0]) + [';' as int] + SgrBody(ps[1..])
  }

  /** The bytes written for one operation. An SGR's final `;` is overwritten with `m`. */
  function Serialize(op: TermOp): (r: seq<byte>)
    ensures op.TPut? ==> r == op.text
    ensures !op.TPut? && !op.TShift? && !(op.TSgr? && op.ps == []) ==> |r| >= 3 && r[..2] == Csi
  {
    match op
    case TSgr(ps) =>
      var b := SgrBody(ps);
      if b == [] then [] else Csi + b[..|b| - 1] + ['m' as int]
    case TSkip(n) => Csi + Digits(n) + ['C' as int]
    case TGoto(x, y) => Csi + Digits(WrapU32(y + 1)) + [';' as int] + Digits(WrapU32(x + 1)) + ['H' as int]
    case THome => Csi + ['H' as int]
    case TClear => Csi + ['J' as int]
    case TShift(alt) => if alt then [14] else [15]
    case TPut(t) => t
    case TCaret(on) => Csi + ['?' as int, '2' as int, '5' as int, if on then 'h' as int else 'l' as int]
  }

  /** The terminal output buffer's contents for a sequence of operations. */
  function Output(ops: seq<TermOp>): seq<byte>
  {
    if ops == [] then [] else Serialize(ops[0]) + Output(ops[1..])
  }

  /** `T_SET_DEFAULT_ATTRS T_CLEAR_SCREEN`: shift in, default rendition, home, erase. */
  const ResetOps: seq<TermOp> := [TShift(false), TSgr([0, 39, 49]), THome, TClear]

  /** The reset writes SI, `ESC[0;39;49m`, `ESC[H`, `ESC[J`. */
  lemma ResetBytes()
    ensures Output(ResetOps) == [15, 27, 91, 48, 59, 51, 57, 59, 52, 57, 109, 27, 91, 72, 27, 91, 74]
  {
    DefaultRenditionBytes();
    HomeClearBytes();
    var tail := [TSgr([0, 39, 49]), THome, TClear];
    assert ResetOps[1..] == tail && tail[1..] == [THome, TClear];
    assert Output(tail) == Serialize(TSgr([0, 39, 49])) + Output([THome, TClear]);
  }

  lemma DefaultRenditionBytes()
    ensures Serialize(TSgr([0, 39, 49])) == [27, 91, 48, 59, 51, 57, 59, 52, 57, 109]
  {
    DefaultRenditionBody();
    var b := SgrBody([0, 39, 49]);
    assert b[..|b| - 1] == [48, 59, 51, 57, 59, 52, 57];
  }

  lemma DefaultRenditionBody()
    ensures SgrBody([0, 39, 49]) == [48, 59, 51, 57, 59, 52, 57, 59]
  {
    DefaultRenditionDigits();
    assert [49][1..] == [];
    var b49 := SgrBody([49]);
    assert b49 == Digits(49) + [';' as int] + SgrBody([]);
    assert [39, 49][1..] == [49];
    var b39 := SgrBody([39, 49]);
    assert b39 == Digits(39) + [';' as int] + b49;
    assert [0, 39, 49][1..] == [39, 49];
    assert SgrBody([0, 39, 49]) == Digits(0) + [';' as int] + b39;
  }

  lemma DefaultRenditionDigits()
    ensures Digits(0) == [48] && Digits(39) == [51, 57] && Digits(49) == [52, 57]
  {
    assert Digits(3) == [51] && Digits(4) == [52];
  }

  lemma HomeClearBytes()
    ensures Output([THome, TClear]) == [27, 91, 72, 27, 91, 74]
  {
    assert [THome, TClear][1..] == [TClear] && [TClear][1..] == [];
    assert Output([TClear]) == [27, 91, 74];
  }

  //}}}
  //{{{ The terminal

  /** The rendition a terminal applies to printed characters: bits 0-4 SGR attributes, bit 5 the shifted set. */
  datatype Pen = Pen(attr: bv8, fg: byte, bg: byte)

  /** What one terminal cell shows: the printed bytes and their rendition. */
  datatype Look = Look(text: seq<byte>, pen: Pen)

  datatype Term = Term(size: Size, display: seq<seq<Look>>, cx: int, cy: int, pen: Pen, caretShown: bool)

  predicate ValidTerm(t: Term)
  {
    |t.display| == t.size.h && forall y :: 0 <= y < t.size.h ==> |t.display[y]| == t.size.w
  }

  const DefaultPen: Pen := Pen(0, ColorDefault, ColorDefault)

  /** An erased cell: a blank in the current background. */
  function Erased(p: Pen): Look
  {
    Look([' ' as int], Pen(0, ColorDefault, p.bg))
  }

  /** One SGR parameter, as ECMA-48 (section 8.3.117) and the 16-colour extension define it. */
  function SgrCode(p: Pen, k: byte): Pen
  {
    if k == 0 then p.(attr := p.attr & 0x20)
    else if k == 1 then p.(attr := SetBit(p.attr, AttrBold, true))
    else if k == 3 then p.(attr := SetBit(p.attr, AttrItalic, true))
    else if k == 4 then p.(attr := SetBit(p.attr, AttrUnderline, true))
    else if k == 5 then p.(attr := SetBit(p.attr, AttrBlink, true))
    else if k == 7 then p.(attr := SetBit(p.attr, AttrReverse, true))
    else if k == 22 then p.(attr := SetBit(p.attr, AttrBold, false))
    else if k == 23 then p.(attr := SetBit(p.attr, AttrItalic, false))
    else if k == 24 then p.(attr := SetBit(p.attr, AttrUnderline, false))
    else if k == 25 then p.(attr := SetBit(p.attr, AttrBlink, false))
    else if k == 27 then p.(attr := SetBit(p.attr, AttrReverse, false))
    else if 30 <= k <= 37 then p.(fg := k - 30)
    else if k == 39 then p.(fg := ColorDefault)
    else if 40 <= k <= 47 then p.(bg := k - 40)
    else if k == 49 then p.(bg := ColorDefault)
    else if 90 <= k <= 97 then p.(fg := k - 90 + 8)
    else if 100 <= k <= 107 then p.(bg := k - 100 + 8)
    else p
  }

  /** A parameter list: `38;5;n` and `48;5;n` pick a 256-colour palette entry, every other number stands alone. */
  function ApplySgr(p: Pen, ps: seq<byte>): Pen
    decreases |ps|
  {
    if ps == [] then p
    else if (ps[0] == 38 || ps[0] == 48) && |ps| >= 3 && ps[1] == 5 then
      ApplySgr(if ps[0] == 38 then p.(fg := ps[2]) else p.(bg := ps[2]), ps[3..])
    else ApplySgr(SgrCode(p, ps[0]), ps[1..])
  }

  /** Erase in display from the cursor: every cell from the cursor to the end of the screen. */
  function EraseBelow(t: Term): (r: Term)
    ensures r.size == t.size && r.cx == t.cx && r.cy == t.cy && r.pen == t.pen && r.caretShown == t.caretShown
    ensures ValidTerm(t) ==> ValidTerm(r)
  {
    var d := seq(|t.display|, y requires 0 <= y < |t.display| =>
      seq(|t.display[y]|, x requires 0 <= x < |t.display[y]| =>
        if y > t.cy || (y == t.cy && x >= t.cx) then Erased(t.pen) else t.display[y][x]));
    t.(display := d)
  }

  /** A printed character lands under the cursor, if the cursor is on the screen, and the cursor advances. */
  function PutChar(t: Term, text: seq<byte>): (r: Term)
    ensures r.size == t.size && r.cx == t.cx + 1 && r.cy == t.cy && r.pen == t.pen && r.caretShown == t.caretShown
    ensures ValidTerm(t) ==> ValidTerm(r)
  {
    if 0 <= t.cy < |t.display| && 0 <= t.cx < |t.display[t.cy]| then
      t.(display := t.display[t.cy := t.display[t.cy][t.cx := Look(text, t.pen)]], cx := t.cx + 1)
    else t.(cx := t.cx + 1)
  }

  function Step(t: Term, op: TermOp): (r: Term)
    ensures r.size == t.size && (ValidTerm(t) ==> ValidTerm(r))
  {
    match op
    case TSgr(ps) => t.(pen := ApplySgr(t.pen, ps))
    case TSkip(n) => t.(cx := t.cx + n)
    case TGoto(x, y) => t.(cx := x, cy := y)
    case THome => t.(cx := 0, cy := 0)
    case TClear => EraseBelow(t)
    case TShift(alt) => t.(pen := t.pen.(attr := SetBit(t.pen.attr, AttrAltcharset, alt)))
    case TPut(text) => if text == [] then t else PutChar(t, text)
    case TCaret(on) => t.(caretShown := on)
  }

  function Interpret(t: Term, ops: seq<TermOp>): (r: Term)
    ensures r.size == t.size && (ValidTerm(t) ==> ValidTerm(r))
    decreases |ops|
  {
    if ops == [] then t else Interpret(Step(t, ops[0]), ops[1..])
  }

  lemma {:induction false} InterpretAppend(t: Term, a: seq<TermOp>, b: seq<TermOp>)
    ensures Interpret(t, a + b) == Interpret(Interpret(t, a), b)
    decreases |a|
  {
    if a != [] {
      assert (a + b)[0] == a[0] && (a + b)[1..] == a[1..] + b;
      InterpretAppend(Step(t, a[0]), a[1..], b);
    } else {
      assert a + b == b;
    }
  }

  lemma InterpretOne(t: Term, op: TermOp)
    ensures Interpret(t, [op]) == Step(t, op)
  {
    assert [op][1..] == [];
  }

  //}}}
  //{{{ What a cache cell looks like on the terminal

  /** `c_acs_sym` with the terminating NUL the array also holds: the VT100 line-drawing keys of the graphic characters. */
  const AcsSymbols: seq<byte> := AsciiBytes("+,-.0`afghijklmnopqrstuvwxyz{|}~") + [0]

  /**
   * The cell as written: a graphic character becomes its alternate-set key
   * with the alternate-set bit; a control character becomes a `?` blinking
   * gray on red.
   */
  function Substitute(c: Cell): (r: Cell)
    ensures r.z == c.z
    ensures IsAscii(c.c) ==> r == c
    ensures 0x80 <= c.c[0] < 0xA0 ==> r.c[0] == AcsSymbols[c.c[0] - 0x80] && GetBit(r.attr, AttrAltcharset)
    ensures c.c[0] < 0x20 ==> r.c[0] == '?' as int && r.fg == ColorGray && r.bg == ColorRed && GetBit(r.attr, AttrBlink)
  {
    if 0x80 <= c.c[0] < 0x80 + |AcsSymbols| then
      c.(c := AssignByte(c.c, AcsSymbols[c.c[0] - 0x80]), attr := SetBit(c.attr, AttrAltcharset, true))
    else if c.c[0] < 0x20 then
      c.(c := AssignByte(c.c, '?' as int), attr := SetBit(c.attr, AttrBlink, true), fg := ColorGray, bg := ColorRed)
    else c
  }

  /** The bytes `_tout += c` appends: the character bytes up to the first NUL. */
  function GlyphBytes(g: Glyph): (r: seq<byte>)
    ensures |r| <= 4 && r == g[..|r|] && forall i :: 0 <= i < |r| ==> r[i] != 0
    ensures g[0] != 0 ==> |r| >= 1
  {
    if g[0] == 0 then [] else if g[1] == 0 then g[..1] else if g[2] == 0 then g[..2] else if g[3] == 0 then g[..3] else g
  }

  function PenOf(c: Cell): Pen
  {
    Pen(c.attr & 0x3F, c.fg, c.bg)
  }

  function LookOf(c: Cell): Look
  {
    Look(GlyphBytes(c.c), PenOf(c))
  }

  /**
   * A glyph the terminal prints as one cell: a printable ASCII byte, a
   * control or graphic character (both substituted), or a UTF-8 lead byte.
   */
  predicate Drawable(g: Glyph)
  {
    (' ' as int <= g[0] <= '~' as int && g[1] == 0) || g[0] < 0x20 || 0x80 <= g[0] < 0xA0 || g[0] >= 0xC0
  }

  /** Every cell written through the render target is drawable, except the DEL character. */
  lemma AssignCharDrawable(g: Glyph, v: u32)
    requires v != 0x7F
    ensures Drawable(AssignChar(g, v))
  {
  }

  //}}}
  //{{{ SGR parameters

  const AttrOff: seq<byte> := [22, 23, 24, 25, 27]
  const AttrOn: seq<byte> := [1, 3, 4, 5, 7]

  /** The off-or-on code for attribute `a`, if it changed. */
  function AttrCode(chattr: bv8, cur: bv8, a: nat): (r: seq<byte>)
    requires a < 5
    ensures |r| <= 1 && (r == [] <==> !GetBit(chattr, a))
    ensures forall i :: 0 <= i < |r| ==> r[i] != 38 && r[i] != 48
  {
    if GetBit(chattr, a) then [if GetBit(cur, a) then AttrOn[a] else AttrOff[a]] else []
  }

  /** Codes for bold, italic, underline, blink and reverse, in that order. */
  function AttrParams(chattr: bv8, cur: bv8): (r: seq<byte>)
    ensures |r| <= 5 && (r == [] <==> chattr & 0x1F == 0)
  {
    AttrCode(chattr, cur, 0) + AttrCode(chattr, cur, 1) + AttrCode(chattr, cur, 2) + AttrCode(chattr, cur, 3) + AttrCode(chattr, cur, 4)
  }

  /**
   * A colour change: a basic colour, a bright one, the default, or an
   * indexed colour. `bright` is added to a bright colour's index.
   */
  function ColorParams(was: byte, now: byte, base: nat, bright: nat, dflt: byte, ext: byte): (r: seq<byte>)
    requires base <= 40 && bright <= 100
    ensures |r| <= 3 && (r == [] <==> was == now)
  {
    if now == was then []
    else if now < 8 then [base + now]
    else if now < 16 then [bright + now]
    else if now == ColorDefault then [dflt]
    else [ext, 5, now]
  }

  /** The bright-colour offsets as written: background `100 + c`, text `90 + c`. */
  const BrightBgAsWritten: nat := 100
  const BrightFgAsWritten: nat := 90
  /** The offsets that put colours 8-15 on codes 100-107 and 90-97. */
  const BrightBg: nat := 92
  const BrightFg: nat := 82

  /** The SGR parameters for going from rendition `last` to `cur`; `fixed` picks the bright-colour offsets. */
  function SgrParams(last: Cell, cur: Cell, fixed: bool): (ps: seq<byte>)
    ensures |ps| <= 11
    ensures ps == [] <==> last.attr & 0x1F == cur.attr & 0x1F && last.fg == cur.fg && last.bg == cur.bg
  {
    var chattr := last.attr ^ cur.attr;
    AttrParams(chattr, cur.attr)
      + ColorParams(last.bg, cur.bg, 40, if fixed then BrightBg else BrightBgAsWritten, 49, 48)
      + ColorParams(last.fg, cur.fg, 30, if fixed then BrightFg else BrightFgAsWritten, 39, 38)
  }

  /** A parameter list with no 256-colour selector applies parameter by parameter. */
  lemma {:induction false} ApplySgrAppend(p: Pen, xs: seq<byte>, ys: seq<byte>)
    requires forall i :: 0 <= i < |xs| ==> xs[i] != 38 && xs[i] != 48
    ensures ApplySgr(p, xs + ys) == ApplySgr(ApplySgr(p, xs), ys)
    decreases |xs|
  {
    if xs != [] {
      assert (xs + ys)[0] == xs[0] && (xs + ys)[1..] == xs[1..] + ys;
      ApplySgrAppend(SgrCode(p, xs[0]), xs[1..], ys);
    } else {
      assert xs + ys == ys;
    }
  }

  /** What one attribute code does to an attribute byte: where attribute `a` changed, its bit is taken from `cur`. */
  function AttrBits(b: bv8, chattr: bv8, cur: bv8, a: nat): bv8
    requires a < 5
  {
    var m := BitMask(a);
    (b & !m) | (if chattr & m != 0 then cur & m else b & m)
  }

  /** What one attribute code does to a pen. */
  function AttrStep(p: Pen, chattr: bv8, cur: bv8, a: nat): Pen
    requires a < 5
  {
    p.(attr := AttrBits(p.attr, chattr, cur, a))
  }

  lemma AttrCodeStep(p: Pen, chattr: bv8, cur: bv8, a: nat, ys: seq<byte>)
    requires a < 5
    ensures ApplySgr(p, AttrCode(chattr, cur, a) + ys) == ApplySgr(AttrStep(p, chattr, cur, a), ys)
  {
    var xs := AttrCode(chattr, cur, a);
    if xs == [] {
      assert xs + ys == ys;
    } else {
      ApplySgrAppend(p, xs, ys);
    }
  }

  /** Five attribute steps from the last cell's attributes leave bits 0-4 at the new cell's, bit 5 at the last's. */
  lemma AttrStepsReachCur(last: Cell, cur: Cell, p1: Pen, p2: Pen, p3: Pen, p4: Pen, p5: Pen)
    requires var ch := last.attr ^ cur.attr;
      p1 == AttrStep(PenOf(last), ch, cur.attr, 0) && p2 == AttrStep(p1, ch, cur.attr, 1) &&
      p3 == AttrStep(p2, ch, cur.attr, 2) && p4 == AttrStep(p3, ch, cur.attr, 3) && p5 == AttrStep(p4, ch, cur.attr, 4)
    ensures p5 == PenOf(last).(attr := (cur.attr & 0x1F) | (last.attr & 0x20))
  {
    var ch := last.attr ^ cur.attr;
    FiveBits(last.attr, cur.attr, ch, PenOf(last).attr, p1.attr, p2.attr, p3.attr, p4.attr, p5.attr);
  }

  lemma FiveBits(last: bv8, cur: bv8, ch: bv8, b0: bv8, b1: bv8, b2: bv8, b3: bv8, b4: bv8, b5: bv8)
    requires ch == last ^ cur && b0 == last & 0x3F
    requires b1 == AttrBits(b0, ch, cur, 0) && b2 == AttrBits(b1, ch, cur, 1) && b3 == AttrBits(b2, ch, cur, 2)
    requires b4 == AttrBits(b3, ch, cur, 3) && b5 == AttrBits(b4, ch, cur, 4)
    ensures b5 == (cur & 0x1F) | (last & 0x20)
  {
  }

  /** The attribute codes take the last cell's pen to the new cell's attributes, keeping the alternate-set bit. */
  lemma AttrParamsReach(last: Cell, cur: Cell)
    ensures Plain(AttrParams(last.attr ^ cur.attr, cur.attr))
    ensures ApplySgr(PenOf(last), AttrParams(last.attr ^ cur.attr, cur.attr)) ==
      PenOf(last).(attr := (cur.attr & 0x1F) | (last.attr & 0x20))
  {
    var ch := last.attr ^ cur.attr;
    var c := cur.attr;
    var p0 := PenOf(last);
    var p1 := AttrStep(p0, ch, c, 0);
    var p2 := AttrStep(p1, ch, c, 1);
    var p3 := AttrStep(p2, ch, c, 2);
    var p4 := AttrStep(p3, ch, c, 3);
    var p5 := AttrStep(p4, ch, c, 4);
    AttrParamsEffect(p0, ch, c);
    AttrStepsReachCur(last, cur, p1, p2, p3, p4, p5);
  }

  /** A colour change, corrected offsets, moves the colour to its new value and touches nothing else. */
  lemma ColorParamsEffectBg(p: Pen, was: byte, now: byte, ys: seq<byte>)
    requires p.bg == was
    ensures ApplySgr(p, ColorParams(was, now, 40, BrightBg, 49, 48) + ys) == ApplySgr(p.(bg := now), ys)
  {
    var xs := ColorParams(was, now, 40, BrightBg, 49, 48);
    if |xs| == 3 {
      assert (xs + ys)[3..] == ys;
    } else if |xs| == 1 {
      ApplySgrAppend(p, xs, ys);
    } else {
      assert xs + ys == ys;
    }
  }

  lemma ColorParamsEffectFg(p: Pen, was: byte, now: byte, ys: seq<byte>)
    requires p.fg == was
    ensures ApplySgr(p, ColorParams(was, now, 30, BrightFg, 39, 38) + ys) == ApplySgr(p.(fg := now), ys)
  {
    var xs := ColorParams(was, now, 30, BrightFg, 39, 38);
    if |xs| == 3 {
      assert (xs + ys)[3..] == ys;
    } else if |xs| == 1 {
      ApplySgrAppend(p, xs, ys);
    } else {
      assert xs + ys == ys;
    }
  }

  /** Codes with no 256-colour selector. */
  predicate Plain(xs: seq<byte>)
  {
    forall i :: 0 <= i < |xs| ==> xs[i] != 38 && xs[i] != 48
  }

  /** One more attribute code after a plain prefix. */
  lemma AttrCodeAfter(p: Pen, xs: seq<byte>, chattr: bv8, cur: bv8, a: nat)
    requires a < 5 && Plain(xs)
    ensures Plain(xs + AttrCode(chattr, cur, a))
    ensures ApplySgr(p, xs + AttrCode(chattr, cur, a)) == AttrStep(ApplySgr(p, xs), chattr, cur, a)
  {
    var c := AttrCode(chattr, cur, a);
    ApplySgrAppend(p, xs, c);
    assert c + [] == c;
    AttrCodeStep(ApplySgr(p, xs), chattr, cur, a, []);
  }

  /** The attribute codes are the five attribute steps in order. */
  lemma AttrParamsEffect(p: Pen, chattr: bv8, cur: bv8)
    ensures Plain(AttrParams(chattr, cur))
    ensures ApplySgr(p, AttrParams(chattr, cur)) ==
      AttrStep(AttrStep(AttrStep(AttrStep(AttrStep(p, chattr, cur, 0), chattr, cur, 1), chattr, cur, 2), chattr, cur, 3), chattr, cur, 4)
  {
    var c0 := AttrCode(chattr, cur, 0);
    AttrCodeAfter(p, [], chattr, cur, 0);
    assert [] + c0 == c0;
    AttrCodeAfter(p, c0, chattr, cur, 1);
    AttrCodeAfter(p, c0 + AttrCode(chattr, cur, 1), chattr, cur, 2);
    AttrCodeAfter(p, c0 + AttrCode(chattr, cur, 1) + AttrCode(chattr, cur, 2), chattr, cur, 3);
    AttrCodeAfter(p, c0 + AttrCode(chattr, cur, 1) + AttrCode(chattr, cur, 2) + AttrCode(chattr, cur, 3), chattr, cur, 4);
  }

  /**
   * The corrected SGR sequence takes a terminal showing rendition `last` to
   * rendition `cur` in every attribute and both colours; only the
   * alternate-set bit, which SGR does not touch, is left as it was.
   */
  lemma SgrReachesCur(last: Cell, cur: Cell)
    ensures var q := ApplySgr(PenOf(last), SgrParams(last, cur, true));
      q.fg == cur.fg && q.bg == cur.bg && q.attr == (cur.attr & 0x1F) | (last.attr & 0x20)
  {
    var chattr := last.attr ^ cur.attr;
    var ap := AttrParams(chattr, cur.attr);
    var bp := ColorParams(last.bg, cur.bg, 40, BrightBg, 49, 48);
    var fp := ColorParams(last.fg, cur.fg, 30, BrightFg, 39, 38);
    var p0 := PenOf(last);
    var p5 := p0.(attr := (cur.attr & 0x1F) | (last.attr & 0x20));
    AttrParamsReach(last, cur);
    assert ap + bp + fp == ap + (bp + fp);
    ApplySgrAppend(p0, ap, bp + fp);
    ColorParamsEffectBg(p5, last.bg, cur.bg, fp);
    assert fp == fp + [];
    ColorParamsEffectFg(p5.(bg := cur.bg), last.fg, cur.fg, []);
  }

  /** As written, a bright text colour gets code `90 + c`: colour 10 is sent as 100, a background code. */
  lemma BrightColorAsWrittenMisreads()
    ensures var last := DefaultCell; var cur := DefaultCell.(fg := 10);
      SgrParams(last, cur, false) == [100] &&
      ApplySgr(PenOf(last), SgrParams(last, cur, false)) == Pen(0, ColorDefault, 8) &&
      ApplySgr(PenOf(last), SgrParams(last, cur, false)) != PenOf(cur)
  {
    var last := DefaultCell;
    var cur := DefaultCell.(fg := 10);
    assert AttrParams(0, 0) == [];
    assert SgrParams(last, cur, false) == [100];
  }

  /** With the corrected offsets the same colour is sent as 92, bright green text. */
  lemma BrightColorCorrected()
    ensures var last := DefaultCell; var cur := DefaultCell.(fg := 10);
      SgrParams(last, cur, true) == [92] && ApplySgr(PenOf(last), [92]) == PenOf(cur)
  {
    assert AttrParams(0, 0) == [];
  }

  //}}}
  //{{{ The compositor's state

  /** The terminal-side cache, the tracked cursor, the last cell written and the cursor-visibility flag. */
  datatype Screen = Screen(size: Size, cache: Surface, curwpos: Point, lastcell: Cell, caretOn: bool)

  predicate ValidScreen(s: Screen)
  {
    ValidSurface(s.cache) && s.cache.sz == s.size && s.size.w < 0x8000 && s.size.h < 0x8000
  }

  /** A window the renderer accepts: its surface matches its area, which lies on the screen. */
  predicate FitsScreen(s: Screen, w: RenderTarget.Window)
  {
    ValidSurface(w.surface) && w.surface.sz == RectSize(w.area) && Within(RectOfSize(s.size), w.area)
  }

  predicate AllDrawable(w: RenderTarget.Window)
    requires ValidSurface(w.surface)
  {
    forall y, x :: 0 <= y < w.surface.sz.h && 0 <= x < w.surface.sz.w ==> Drawable(At(w.surface, x, y).c)
  }

  /** Every terminal cell shows the cache cell under it, as substituted for display. */
  predicate Shows(t: Term, cache: Surface)
    requires ValidSurface(cache)
  {
    t.size == cache.sz && ValidTerm(t) &&
    forall y, x :: 0 <= y < cache.sz.h && 0 <= x < cache.sz.w ==> t.display[y][x] == LookOf(Substitute(At(cache, x, y)))
  }

  /** The terminal displays the cache, with the cursor and rendition the compositor believes it has. */
  predicate Synced(s: Screen, t: Term)
  {
    ValidScreen(s) && Shows(t, s.cache) &&
    t.pen == PenOf(s.lastcell) && t.cx == s.curwpos.x && t.cy == s.curwpos.y && t.caretShown == s.caretOn &&
    0 <= s.curwpos.x <= s.size.w && 0 <= s.curwpos.y <= s.size.h
  }

  /** `reset`: cache blank, cursor home, default rendition, and the terminal told the same. */
  function ScreenReset(s: Screen): (r: (Screen, seq<TermOp>))
    requires ValidScreen(s)
    ensures ValidScreen(r.0) && r.0.size == s.size && r.0.caretOn == s.caretOn && r.1 == ResetOps
  {
    (s.(cache := Blank(s.size), curwpos := Point(0, 0), lastcell := DefaultCell), ResetOps)
  }

  /** Erasing from the origin blanks every cell. */
  lemma ClearFromHome(t: Term)
    requires ValidTerm(t) && t.cx == 0 && t.cy == 0
    ensures var r := Step(t, TClear);
      ValidTerm(r) && r.pen == t.pen && r.cx == 0 && r.cy == 0 && r.caretShown == t.caretShown &&
      forall y, x :: 0 <= y < t.size.h && 0 <= x < t.size.w ==> r.display[y][x] == Erased(t.pen)
  {
  }

  /** The reset sequence leaves any terminal with the cursor home, the default pen, and every cell erased. */
  lemma ResetOpsEffect(t: Term)
    requires ValidTerm(t)
    ensures var r := Interpret(t, ResetOps);
      ValidTerm(r) && r.pen == DefaultPen && r.cx == 0 && r.cy == 0 && r.caretShown == t.caretShown &&
      forall y, x :: 0 <= y < t.size.h && 0 <= x < t.size.w ==> r.display[y][x] == Erased(DefaultPen)
  {
    ResetOpsSteps(t);
    var t2 := Step(Step(t, TShift(false)), TSgr([0, 39, 49]));
    ShiftSgrResetsPen(t);
    ClearFromHome(Step(t2, THome));
  }

  /** The reset sequence is its four steps in order. */
  lemma ResetOpsSteps(t: Term)
    ensures Interpret(t, ResetOps) == Step(Step(Step(Step(t, TShift(false)), TSgr([0, 39, 49])), THome), TClear)
  {
    var t1 := Step(t, TShift(false));
    var t2 := Step(t1, TSgr([0, 39, 49]));
    var t3 := Step(t2, THome);
    var t4 := Step(t3, TClear);
    assert Interpret(t4, []) == t4;
    assert Interpret(t3, [TClear]) == t4;
    assert Interpret(t2, [THome, TClear]) == t4;
    assert Interpret(t1, [TSgr([0, 39, 49]), THome, TClear]) == t4;
  }

  /** SI then `ESC[0;39;49m` set the default rendition and keep everything else. */
  lemma ShiftSgrResetsPen(t: Term)
    ensures var r := Step(Step(t, TShift(false)), TSgr([0, 39, 49]));
      r.pen == DefaultPen && r.size == t.size && r.display == t.display && r.caretShown == t.caretShown
  {
    var t1 := Step(t, TShift(false));
    var ps: seq<byte> := [0, 39, 49];
    assert ps[1..] == [39] + [49] && ps[1..][1..] == [49] && ps[1..][1..][1..] == [];
    assert ApplySgr(t1.pen, ps) == SgrCode(SgrCode(SgrCode(t1.pen, 0), 39), 49);
  }

  /** Whatever the terminal showed, a reset leaves it in step with the compositor. */
  lemma ResetSyncs(s: Screen, t: Term)
    requires ValidScreen(s) && ValidTerm(t) && t.size == s.size && t.caretShown == s.caretOn
    ensures Synced(ScreenReset(s).0, Interpret(t, ResetOps))
  {
    ResetOpsEffect(t);
    var r := ScreenReset(s).0;
    var t' := Interpret(t, ResetOps);
    assert LookOf(Substitute(DefaultCell)) == Erased(DefaultPen);
    forall y, x | 0 <= y < r.cache.sz.h && 0 <= x < r.cache.sz.w
      ensures t'.display[y][x] == LookOf(Substitute(At(r.cache, x, y)))
    {
      assert At(r.cache, x, y) == DefaultCell;
    }
  }

  /** `caret_state`: the visibility sequence only when visibility changes. */
  function CaretState(s: Screen, on: bool): (r: (Screen, seq<TermOp>))
    ensures r.0 == s.(caretOn := on)
    ensures r.1 == [] <==> s.caretOn == on
  {
    if s.caretOn != on then (s.(caretOn := on), [TCaret(on)]) else (s, [])
  }

  //}}}
  //{{{ Moving the cursor

  /** The cell `k` places before cell `(x, y)` of the surface in row-major order, if there is one. */
  function CellBack(w: RenderTarget.Window, y: nat, x: nat, k: nat): (r: Option<Cell>)
    requires ValidSurface(w.surface) && y < w.surface.sz.h && x < w.surface.sz.w
    ensures k <= x ==> r == Some(At(w.surface, x - k, y))
    decreases k
  {
    if k == 0 then Some(At(w.surface, x, y))
    else if x > 0 then CellBack(w, y, x - 1, k - 1)
    else if y > 0 then CellBack(w, y - 1, w.surface.sz.w - 1, k - 1)
    else None
  }

  /**
   * The unchanged cells a forward skip of `dx` passes over, first to last.
   * As written they are taken from the surface's cells before the current one,
   * which reach into the previous row when `dx > x`; corrected, a skip that
   * starts left of the window rewrites nothing.
   */
  function RewriteCells(w: RenderTarget.Window, y: nat, x: nat, dx: nat, fixed: bool): (r: seq<Cell>)
    requires ValidSurface(w.surface) && y < w.surface.sz.h && x < w.surface.sz.w
    ensures |r| == 0 || |r| == dx
    ensures fixed && r != [] ==> dx <= x && forall i :: 0 <= i < dx ==> r[i] == At(w.surface, x - dx + i, y)
  {
    if dx >= 5 then []
    else if fixed then
      if dx <= x then seq(dx, i requires 0 <= i < dx => At(w.surface, x - dx + i, y)) else []
    else if CellBack(w, y, x, dx).Some? then
      seq(dx, i requires 0 <= i < dx => CellBack(w, y, x, dx - i).GetOr(DefaultCell))
    else []
  }

  /**
   * Whether a skipped cell can be reprinted in place of a cursor escape: as
   * written, the same attributes and a plain ASCII character; corrected,
   * also the same colours.
   */
  predicate Rewritable(c: Cell, last: Cell, fixed: bool)
  {
    c.attr == last.attr && IsAscii(c.c) && (fixed ==> c.fg == last.fg && c.bg == last.bg)
  }

  /** How many of the skipped cells, from the first, get reprinted. */
  function RewriteCount(cells: seq<Cell>, last: Cell, fixed: bool): (k: nat)
    ensures k <= |cells| && forall i :: 0 <= i < k ==> Rewritable(cells[i], last, fixed)
    ensures k < |cells| ==> !Rewritable(cells[k], last, fixed)
  {
    if cells == [] || !Rewritable(cells[0], last, fixed) then 0 else 1 + RewriteCount(cells[1..], last, fixed)
  }

  function Reprint(cells: seq<Cell>): (ops: seq<TermOp>)
    ensures |ops| == |cells| && forall i :: 0 <= i < |cells| ==> ops[i] == TPut([cells[i].c[0]])
  {
    seq(|cells|, i requires 0 <= i < |cells| => TPut([cells[i].c[0]]))
  }

  /** The cursor movement to `wpos`: none, a short forward skip (partly by reprinting), or an absolute move. */
  function Move(s: Screen, w: RenderTarget.Window, y: nat, x: nat, wpos: Point, fixed: bool): (ops: seq<TermOp>)
    requires ValidSurface(w.surface) && y < w.surface.sz.h && x < w.surface.sz.w
  {
    if wpos == s.curwpos then []
    else
      var dx := WrapI16(wpos.x - s.curwpos.x);
      var dy := WrapI16(wpos.y - s.curwpos.y);
      if dy == 0 && dx > 0 then ForwardMove(s, w, y, x, dx, fixed)
      else [TGoto(wpos.x, wpos.y)]
  }

  /** A forward move of `dx` columns on the cursor's row: the reprintable cells, then a skip over the rest. */
  function ForwardMove(s: Screen, w: RenderTarget.Window, y: nat, x: nat, dx: nat, fixed: bool): (ops: seq<TermOp>)
    requires ValidSurface(w.surface) && y < w.surface.sz.h && x < w.surface.sz.w
  {
    var cells := RewriteCells(w, y, x, dx, fixed);
    var k := RewriteCount(cells, s.lastcell, fixed);
    Reprint(cells[..k]) + (if dx - k > 0 then [TSkip(dx - k)] else [])
  }

  //}}}
  //{{{ The diff renderer

  /** The screen position of window cell `(x, y)`. */
  function ScreenPos(w: RenderTarget.Window, x: nat, y: nat): Point
    requires x < w.area.w && y < w.area.h && w.area.x + w.area.w < 0x8000 && w.area.y + w.area.h < 0x8000
  {
    Point(w.area.x + x, w.area.y + y)
  }

  /**
   * The rendition change between two cells: the SGR sequence, then shift
   * out or in if the alternate-set bit differs. Nothing is sent when the two
   * renditions agree.
   */
  function Rendition(last: Cell, cur: Cell, fixed: bool): (ops: seq<TermOp>)
    ensures ops == [] <==> last.attr & 0x3F == cur.attr & 0x3F && last.fg == cur.fg && last.bg == cur.bg
    ensures forall i :: 0 <= i < |ops| ==> ops[i].TSgr? || ops[i].TShift?
  {
    var chattr := last.attr ^ cur.attr;
    var ps := SgrParams(last, cur, fixed);
    (if ps != [] then [TSgr(ps)] else [])
      + (if GetBit(chattr, AttrAltcharset) then [TShift(GetBit(cur.attr, AttrAltcharset))] else [])
  }

  /** A changed cell: move there, send the rendition change, shift if needed, then the character. */
  function CellStep(s: Screen, w: RenderTarget.Window, y: nat, x: nat, fixed: bool): (r: (Screen, seq<TermOp>))
    requires ValidScreen(s) && FitsScreen(s, w) && y < w.area.h && x < w.area.w
    ensures ValidScreen(r.0) && r.0.size == s.size && r.0.caretOn == s.caretOn
  {
    var ic := At(w.surface, x, y);
    var cur := Substitute(ic);
    var wpos := ScreenPos(w, x, y);
    var ops := Move(s, w, y, x, wpos, fixed) + Rendition(s.lastcell, cur, fixed) + [TPut(GlyphBytes(cur.c))];
    var nx := WrapI16(wpos.x + 1);
    var cw := if nx > s.size.w then Point(0, if wpos.y < s.size.h then WrapI16(wpos.y + 1) else wpos.y) else Point(nx, wpos.y);
    (s.(cache := Set(s.cache, wpos.x, wpos.y, ic), curwpos := cw, lastcell := cur), ops)
  }

  /** The cell after `(x, y)` in row-major order: the next column, or the start of the next row. */
  function NextCell(w: RenderTarget.Window, y: nat, x: nat): (n: (nat, nat))
    requires x < w.area.w
    ensures (n.0 == y + 1 && n.1 == 0) || (n.0 == y && n.1 == x + 1 < w.area.w)
  {
    if x + 1 < w.area.w then (y, x + 1) else (y + 1, 0)
  }

  /** One iteration of the cell loop: a changed cell is drawn, an unchanged one skipped. */
  function Visit(s: Screen, w: RenderTarget.Window, y: nat, x: nat, fixed: bool): (r: (Screen, seq<TermOp>))
    requires ValidScreen(s) && FitsScreen(s, w) && y < w.area.h && x < w.area.w
    ensures ValidScreen(r.0) && r.0.size == s.size && r.0.caretOn == s.caretOn
  {
    var p := ScreenPos(w, x, y);
    if At(s.cache, p.x, p.y) != At(w.surface, x, y) then CellStep(s, w, y, x, fixed) else (s, [])
  }

  /** The cell loop of `draw_window` from window cell `(x, y)` on, in row-major order. */
  function DrawFrom(s: Screen, w: RenderTarget.Window, y: nat, x: nat, fixed: bool): (r: (Screen, seq<TermOp>))
    requires ValidScreen(s) && FitsScreen(s, w) && y <= w.area.h && (y < w.area.h ==> x < w.area.w)
    ensures ValidScreen(r.0) && r.0.size == s.size && r.0.caretOn == s.caretOn
    decreases w.area.h - y, w.area.w - x
  {
    if y == w.area.h then (s, [])
    else
      var s1 := Visit(s, w, y, x, fixed);
      var n := NextCell(w, y, x);
      var s2 := DrawFrom(s1.0, w, n.0, n.1, fixed);
      (s2.0, s1.1 + s2.1)
  }

  /** The caret: shown at its screen position if that is inside the window, hidden otherwise. */
  function CaretStep(s: Screen, w: RenderTarget.Window): (r: (Screen, seq<TermOp>))
    requires ValidScreen(s)
    ensures ValidScreen(r.0) && r.0.size == s.size && r.0.cache == s.cache && r.0.lastcell == s.lastcell
  {
    var caretpos := PointPlusPoint(w.caret, Pos(w.area));
    var careton := ContainsPoint(w.area, caretpos);
    var (s1, ops) := CaretState(s, careton);
    if careton && s1.curwpos != caretpos then (s1.(curwpos := caretpos), ops + [TGoto(caretpos.x, caretpos.y)])
    else (s1, ops)
  }

  /** `draw_window`, with `fixed` choosing between the code as written and the corrected renderer. */
  function DrawWindowWith(s: Screen, w: RenderTarget.Window, fixed: bool): (r: (Screen, seq<TermOp>))
    requires ValidScreen(s) && FitsScreen(s, w)
    ensures ValidScreen(r.0) && r.0.size == s.size
    ensures Empty(w.area) ==> r == (s, [])
  {
    if Empty(w.area) then (s, [])
    else
      var (s1, ops1) := DrawFrom(s, w, 0, 0, fixed);
      var (s2, ops2) := CaretStep(s1, w);
      (s2, ops1 + ops2)
  }

  function DrawWindowAsWritten(s: Screen, w: RenderTarget.Window): (r: (Screen, seq<TermOp>))
    requires ValidScreen(s) && FitsScreen(s, w)
    ensures ValidScreen(r.0) && r.0.size == s.size
  {
    DrawWindowWith(s, w, false)
  }

  function DrawWindow(s: Screen, w: RenderTarget.Window): (r: (Screen, seq<TermOp>))
    requires ValidScreen(s) && FitsScreen(s, w)
    ensures ValidScreen(r.0) && r.0.size == s.size
  {
    DrawWindowWith(s, w, true)
  }

  //}}}

  //{{{ The renderer keeps the terminal in step

  /** Window cells before `(x, y)` in row-major order are already in the cache. */
  predicate PrefixDone(s: Screen, w: RenderTarget.Window, y: nat, x: nat)
    requires ValidScreen(s) && FitsScreen(s, w)
  {
    forall j, i :: 0 <= j < w.area.h && 0 <= i < w.area.w && (j < y || (j == y && i < x)) ==>
      At(s.cache, w.area.x + i, w.area.y + j) == At(w.surface, i, j)
  }

  /** The attribute byte after SGR (bits 0-4 from `cur`, bit 5 from `last`) and after the optional shift. */
  lemma PenBits(last: bv8, cur: bv8)
    ensures GetBit(last ^ cur, AttrAltcharset) ==>
      SetBit((cur & 0x1F) | (last & 0x20), AttrAltcharset, GetBit(cur, AttrAltcharset)) == cur & 0x3F
    ensures !GetBit(last ^ cur, AttrAltcharset) ==> (cur & 0x1F) | (last & 0x20) == cur & 0x3F
    ensures last & 0x1F == cur & 0x1F ==> (cur & 0x1F) | (last & 0x20) == last & 0x3F
  {
  }

  /** The corrected SGR part of a rendition change. */
  lemma SgrPartEffect(t: Term, last: Cell, cur: Cell)
    requires t.pen == PenOf(last)
    ensures var ps := SgrParams(last, cur, true);
      Interpret(t, if ps != [] then [TSgr(ps)] else []) == t.(pen := Pen((cur.attr & 0x1F) | (last.attr & 0x20), cur.fg, cur.bg))
  {
    var ps := SgrParams(last, cur, true);
    SgrReachesCur(last, cur);
    PenBits(last.attr, cur.attr);
    if ps != [] {
      InterpretOne(t, TSgr(ps));
    }
  }

  /** The shift part of a rendition change. */
  lemma ShiftPartEffect(t: Term, last: Cell, cur: Cell)
    requires t.pen == Pen((cur.attr & 0x1F) | (last.attr & 0x20), cur.fg, cur.bg)
    ensures var chattr := last.attr ^ cur.attr;
      Interpret(t, if GetBit(chattr, AttrAltcharset) then [TShift(GetBit(cur.attr, AttrAltcharset))] else []) == t.(pen := PenOf(cur))
  {
    var chattr := last.attr ^ cur.attr;
    PenBits(last.attr, cur.attr);
    if GetBit(chattr, AttrAltcharset) {
      InterpretOne(t, TShift(GetBit(cur.attr, AttrAltcharset)));
    }
  }

  /** The corrected rendition change takes the terminal's pen from the last cell's to the new cell's. */
  lemma RenditionEffect(t: Term, last: Cell, cur: Cell)
    requires t.pen == PenOf(last)
    ensures Interpret(t, Rendition(last, cur, true)) == t.(pen := PenOf(cur))
  {
    var chattr := last.attr ^ cur.attr;
    var ps := SgrParams(last, cur, true);
    var a := if ps != [] then [TSgr(ps)] else [];
    var b := if GetBit(chattr, AttrAltcharset) then [TShift(GetBit(cur.attr, AttrAltcharset))] else [];
    SgrPartEffect(t, last, cur);
    var t1 := t.(pen := Pen((cur.attr & 0x1F) | (last.attr & 0x20), cur.fg, cur.bg));
    ShiftPartEffect(t1, last, cur);
    InterpretAppend(t, a, b);
    InterpretEq(t, Rendition(last, cur, true), a + b);
  }

  /** Reprinting cells the terminal already shows, in the current pen, changes nothing but the cursor. */
  lemma {:induction false} ReprintShowsSame(t: Term, cells: seq<Cell>)
    requires ValidTerm(t) && 0 <= t.cy < t.size.h && 0 <= t.cx && t.cx + |cells| <= t.size.w
    requires forall i :: 0 <= i < |cells| ==> t.display[t.cy][t.cx + i] == Look([cells[i].c[0]], t.pen)
    ensures Interpret(t, Reprint(cells)) == t.(cx := t.cx + |cells|)
    decreases |cells|
  {
    if cells != [] {
      var ops := Reprint(cells);
      assert ops[0] == TPut([cells[0].c[0]]) && ops[1..] == Reprint(cells[1..]);
      var row := t.display[t.cy];
      assert row[t.cx := Look([cells[0].c[0]], t.pen)] == row;
      assert t.display[t.cy := row] == t.display;
      var t1 := Step(t, ops[0]);
      assert t1 == t.(cx := t.cx + 1);
      ReprintShowsSame(t1, cells[1..]);
    } else {
      assert Reprint(cells) == [];
    }
  }

  /** Equal operation sequences act alike; stated so the prover need not unfold either side. */
  lemma InterpretEq(t: Term, a: seq<TermOp>, b: seq<TermOp>)
    requires a == b
    ensures Interpret(t, a) == Interpret(t, b)
  {
  }

  /** Two coordinates in `[0, 0x8000)` differ by what their wrapped 16-bit difference says. */
  lemma SmallDifference(a: int, b: int)
    requires 0 <= a < 0x8000 && 0 <= b < 0x8000
    ensures WrapI16(a - b) == a - b
  {
  }

  /** A finished window cell is on the terminal. */
  lemma ShownDone(s: Screen, t: Term, w: RenderTarget.Window, y: nat, x: nat, j: nat, i: nat)
    requires ValidScreen(s) && Shows(t, s.cache) && FitsScreen(s, w) && PrefixDone(s, w, y, x)
    requires j < w.area.h && i < w.area.w && (j < y || (j == y && i < x))
    ensures t.display[w.area.y + j][w.area.x + i] == LookOf(Substitute(At(w.surface, i, j)))
  {
  }

  /** A drawable ASCII cell is shown as its one byte in its own rendition. */
  lemma AsciiLook(c: Cell)
    requires Drawable(c.c) && IsAscii(c.c)
    ensures LookOf(Substitute(c)) == Look([c.c[0]], PenOf(c))
  {
    assert GlyphBytes(c.c) == [c.c[0]];
  }

  /** A forward skip of `dx` that reprints its first cells, which the terminal already shows, only moves the cursor. */
  lemma SkipEffect(t: Term, pre: seq<Cell>, dx: nat)
    requires ValidTerm(t) && 0 <= t.cy < t.size.h && 0 <= t.cx && |pre| <= dx && t.cx + dx <= t.size.w
    requires forall i :: 0 <= i < |pre| ==> t.display[t.cy][t.cx + i] == Look([pre[i].c[0]], t.pen)
    ensures Interpret(t, Reprint(pre) + (if dx - |pre| > 0 then [TSkip(dx - |pre|)] else [])) == t.(cx := t.cx + dx)
  {
    ReprintShowsSame(t, pre);
    var t1 := t.(cx := t.cx + |pre|);
    var rest := if dx - |pre| > 0 then [TSkip(dx - |pre|)] else [];
    InterpretAppend(t, Reprint(pre), rest);
    if rest != [] {
      assert Interpret(t1, rest) == Interpret(Step(t1, rest[0]), []);
    } else {
      assert Interpret(t1, rest) == t1;
    }
  }

  /** The cells the corrected skip reprints are finished cells of the current row, which the terminal shows in the pen. */
  lemma RewrittenShown(s: Screen, t: Term, w: RenderTarget.Window, y: nat, x: nat, dx: nat, k: nat)
    requires Synced(s, t) && FitsScreen(s, w) && AllDrawable(w)
    requires y < w.area.h && x < w.area.w && PrefixDone(s, w, y, x)
    requires s.curwpos.y == w.area.y + y && s.curwpos.x + dx == w.area.x + x
    requires k <= |RewriteCells(w, y, x, dx, true)|
    requires forall i :: 0 <= i < k ==> Rewritable(RewriteCells(w, y, x, dx, true)[i], s.lastcell, true)
    ensures var pre := RewriteCells(w, y, x, dx, true)[..k];
      forall i :: 0 <= i < |pre| ==> t.display[t.cy][t.cx + i] == Look([pre[i].c[0]], t.pen)
  {
    var cells := RewriteCells(w, y, x, dx, true);
    forall i | 0 <= i < k
      ensures t.display[t.cy][t.cx + i] == Look([cells[i].c[0]], t.pen)
    {
      var c := At(w.surface, x - dx + i, y);
      assert cells[i] == c;
      ShownDone(s, t, w, y, x, y, x - dx + i);
      AsciiLook(c);
    }
  }

  /**
   * With the cells before `(x, y)` done, the corrected cursor movement only
   * moves the cursor: any cells it reprints already show exactly that.
   */
  lemma MoveEffect(s: Screen, t: Term, w: RenderTarget.Window, y: nat, x: nat)
    requires Synced(s, t) && FitsScreen(s, w) && AllDrawable(w)
    requires y < w.area.h && x < w.area.w && PrefixDone(s, w, y, x)
    ensures Interpret(t, Move(s, w, y, x, ScreenPos(w, x, y), true)) == t.(cx := w.area.x + x, cy := w.area.y + y)
  {
    var wpos := ScreenPos(w, x, y);
    if wpos == s.curwpos {
      assert Move(s, w, y, x, wpos, true) == [];
    } else if WrapI16(wpos.y - s.curwpos.y) == 0 && WrapI16(wpos.x - s.curwpos.x) > 0 {
      MoveRewriteEffect(s, t, w, y, x);
    } else {
      MoveGotoEffect(s, t, w, y, x);
    }
  }

  /** A short forward move on the same row: reprinted cells and a skip. */
  lemma MoveRewriteEffect(s: Screen, t: Term, w: RenderTarget.Window, y: nat, x: nat)
    requires Synced(s, t) && FitsScreen(s, w) && AllDrawable(w)
    requires y < w.area.h && x < w.area.w && PrefixDone(s, w, y, x)
    requires var wpos := ScreenPos(w, x, y);
      wpos != s.curwpos && WrapI16(wpos.y - s.curwpos.y) == 0 && WrapI16(wpos.x - s.curwpos.x) > 0
    ensures Interpret(t, Move(s, w, y, x, ScreenPos(w, x, y), true)) == t.(cx := w.area.x + x, cy := w.area.y + y)
  {
    var wpos := ScreenPos(w, x, y);
    SmallDifference(wpos.x, s.curwpos.x);
    SmallDifference(wpos.y, s.curwpos.y);
    var dx := wpos.x - s.curwpos.x;
    assert Move(s, w, y, x, wpos, true) == ForwardMove(s, w, y, x, dx, true);
    ForwardMoveEffect(s, t, w, y, x, dx);
  }

  /** A forward move over finished cells only moves the cursor. */
  lemma ForwardMoveEffect(s: Screen, t: Term, w: RenderTarget.Window, y: nat, x: nat, dx: nat)
    requires Synced(s, t) && FitsScreen(s, w) && AllDrawable(w)
    requires y < w.area.h && x < w.area.w && PrefixDone(s, w, y, x)
    requires s.curwpos.y == w.area.y + y && s.curwpos.x + dx == w.area.x + x
    ensures Interpret(t, ForwardMove(s, w, y, x, dx, true)) == t.(cx := w.area.x + x, cy := w.area.y + y)
  {
    var cells := RewriteCells(w, y, x, dx, true);
    var k := RewriteCount(cells, s.lastcell, true);
    RewrittenShown(s, t, w, y, x, dx, k);
    SkipEffect(t, cells[..k], dx);
  }

  /** Any other move is an absolute cursor positioning. */
  lemma MoveGotoEffect(s: Screen, t: Term, w: RenderTarget.Window, y: nat, x: nat)
    requires ValidScreen(s) && FitsScreen(s, w) && y < w.area.h && x < w.area.w
    requires var wpos := ScreenPos(w, x, y);
      wpos != s.curwpos && !(WrapI16(wpos.y - s.curwpos.y) == 0 && WrapI16(wpos.x - s.curwpos.x) > 0)
    ensures Interpret(t, Move(s, w, y, x, ScreenPos(w, x, y), true)) == t.(cx := w.area.x + x, cy := w.area.y + y)
  {
    var wpos := ScreenPos(w, x, y);
    var ops := [TGoto(wpos.x, wpos.y)];
    assert Move(s, w, y, x, wpos, true) == ops;
    assert Interpret(t, ops) == Interpret(Step(t, ops[0]), []);
    InterpretEq(t, Move(s, w, y, x, wpos, true), ops);
  }

  /** Printing a cell at the cursor, in its own rendition, keeps the terminal showing the cache with that cell written. */
  lemma PutShows(t: Term, cache: Surface, px: nat, py: nat, ic: Cell)
    requires ValidSurface(cache) && Shows(t, cache) && px < cache.sz.w && py < cache.sz.h
    requires t.cx == px && t.cy == py && t.pen == PenOf(Substitute(ic)) && Drawable(ic.c)
    ensures var r := Step(t, TPut(GlyphBytes(Substitute(ic).c)));
      Shows(r, Set(cache, px, py, ic)) && r.cx == px + 1 && r.cy == py && r.pen == t.pen && r.caretShown == t.caretShown
  {
    var text := GlyphBytes(Substitute(ic).c);
    assert text != [];
    var r := Step(t, TPut(text));
    assert r == PutChar(t, text);
    var c' := Set(cache, px, py, ic);
    forall y, x | 0 <= y < cache.sz.h && 0 <= x < cache.sz.w
      ensures r.display[y][x] == LookOf(Substitute(At(c', x, y)))
    {
      PutCell(t, cache, px, py, ic, x, y);
    }
  }

  /** One cell of the display after printing at the cursor: the printed cell there, the old one elsewhere. */
  lemma PutCell(t: Term, cache: Surface, px: nat, py: nat, ic: Cell, x: nat, y: nat)
    requires ValidSurface(cache) && Shows(t, cache) && px < cache.sz.w && py < cache.sz.h
    requires t.cx == px && t.cy == py && t.pen == PenOf(Substitute(ic)) && Drawable(ic.c)
    requires x < cache.sz.w && y < cache.sz.h
    ensures var r := PutChar(t, GlyphBytes(Substitute(ic).c));
      y < |r.display| && x < |r.display[y]| && r.display[y][x] == LookOf(Substitute(At(Set(cache, px, py, ic), x, y)))
  {
    var r := PutChar(t, GlyphBytes(Substitute(ic).c));
    var c' := Set(cache, px, py, ic);
    if y != py {
      assert r.display[y] == t.display[y];
      assert At(c', x, y) == At(cache, x, y);
    } else if x != px {
      assert r.display[y][x] == t.display[y][x];
      assert At(c', x, y) == At(cache, x, y);
    } else {
      assert At(c', x, y) == ic;
    }
  }

  /** Writing window cell `(x, y)` into the cache extends the finished prefix past it. */
  lemma PrefixAfterSet(s: Screen, w: RenderTarget.Window, y: nat, x: nat, s': Screen)
    requires ValidScreen(s) && FitsScreen(s, w) && y < w.area.h && x < w.area.w && PrefixDone(s, w, y, x)
    requires s' == s.(cache := Set(s.cache, w.area.x + x, w.area.y + y, At(w.surface, x, y)))
    ensures ValidScreen(s') && PrefixDone(s', w, y, x + 1)
  {
  }

  /**
   * One changed cell, drawn by the corrected renderer: the terminal stays in
   * step with the cache, the cell joins the finished prefix, and nothing
   * outside the window changes.
   */
  lemma CellStepSynced(s: Screen, t: Term, w: RenderTarget.Window, y: nat, x: nat)
    requires Synced(s, t) && FitsScreen(s, w) && AllDrawable(w)
    requires y < w.area.h && x < w.area.w && PrefixDone(s, w, y, x)
    ensures var r := CellStep(s, w, y, x, true);
      Synced(r.0, Interpret(t, r.1)) && PrefixDone(r.0, w, y, x + 1) && SameOutside(s.cache, r.0.cache, w.area)
  {
    var ic := At(w.surface, x, y);
    var cur := Substitute(ic);
    var wpos := ScreenPos(w, x, y);
    MoveEffect(s, t, w, y, x);
    CellStepEffect(s, t, w, y, x);
    var t2 := t.(cx := wpos.x, cy := wpos.y, pen := PenOf(cur));
    PutShows(t2, s.cache, wpos.x, wpos.y, ic);
    var r := CellStep(s, w, y, x, true);
    var cache' := Set(s.cache, wpos.x, wpos.y, ic);
    assert r.0 == s.(cache := cache', curwpos := Point(wpos.x + 1, wpos.y), lastcell := cur);
    PrefixAfterSet(s, w, y, x, s.(cache := cache'));
    SetInside(s.cache, wpos.x, wpos.y, ic, w.area);
  }

  /** What a changed cell's output does to the terminal: cursor to the cell, pen to its rendition, then the character. */
  lemma CellStepEffect(s: Screen, t: Term, w: RenderTarget.Window, y: nat, x: nat)
    requires ValidScreen(s) && FitsScreen(s, w) && y < w.area.h && x < w.area.w && t.pen == PenOf(s.lastcell)
    requires Interpret(t, Move(s, w, y, x, ScreenPos(w, x, y), true)) == t.(cx := w.area.x + x, cy := w.area.y + y)
    ensures var cur := Substitute(At(w.surface, x, y)); var wpos := ScreenPos(w, x, y);
      Interpret(t, CellStep(s, w, y, x, true).1) == Step(t.(cx := wpos.x, cy := wpos.y, pen := PenOf(cur)), TPut(GlyphBytes(cur.c)))
  {
    var ic := At(w.surface, x, y);
    var cur := Substitute(ic);
    var wpos := ScreenPos(w, x, y);
    var mv := Move(s, w, y, x, wpos, true);
    var rd := Rendition(s.lastcell, cur, true);
    var put := [TPut(GlyphBytes(cur.c))];
    var t1 := t.(cx := wpos.x, cy := wpos.y);
    RenditionEffect(t1, s.lastcell, cur);
    var t2 := t1.(pen := PenOf(cur));
    InterpretThree(t, mv, rd, put, t1, t2);
    InterpretOne(t2, put[0]);
    CellStepOps(s, w, y, x);
    InterpretEq(t, CellStep(s, w, y, x, true).1, mv + rd + put);
  }

  /** The output for one changed cell, in its three parts. */
  lemma CellStepOps(s: Screen, w: RenderTarget.Window, y: nat, x: nat)
    requires ValidScreen(s) && FitsScreen(s, w) && y < w.area.h && x < w.area.w
    ensures var cur := Substitute(At(w.surface, x, y));
      CellStep(s, w, y, x, true).1 == Move(s, w, y, x, ScreenPos(w, x, y), true) + Rendition(s.lastcell, cur, true) + [TPut(GlyphBytes(cur.c))]
  {
  }

  /** Running three op sequences in turn, given where the first two lead. */
  lemma InterpretThree(t: Term, a: seq<TermOp>, b: seq<TermOp>, c: seq<TermOp>, t1: Term, t2: Term)
    requires Interpret(t, a) == t1 && Interpret(t1, b) == t2
    ensures Interpret(t, a + b + c) == Interpret(t2, c)
  {
    InterpretAppend(t, a, b);
    InterpretAppend(t, a + b, c);
  }

  /** A finished row is the start of the next one. */
  lemma PrefixNextRow(s: Screen, w: RenderTarget.Window, y: nat)
    requires ValidScreen(s) && FitsScreen(s, w) && PrefixDone(s, w, y, w.area.w)
    ensures PrefixDone(s, w, y + 1, 0)
  {
  }

  /** A cell the cache already holds extends the finished prefix as it is. */
  lemma PrefixKeep(s: Screen, w: RenderTarget.Window, y: nat, x: nat)
    requires ValidScreen(s) && FitsScreen(s, w) && y < w.area.h && x < w.area.w && PrefixDone(s, w, y, x)
    requires At(s.cache, w.area.x + x, w.area.y + y) == At(w.surface, x, y)
    ensures PrefixDone(s, w, y, x + 1)
  {
  }

  /** One iteration of the cell loop, corrected, keeps the terminal in step and extends the finished prefix. */
  lemma VisitSynced(s: Screen, t: Term, w: RenderTarget.Window, y: nat, x: nat)
    requires Synced(s, t) && FitsScreen(s, w) && AllDrawable(w)
    requires y < w.area.h && x < w.area.w && PrefixDone(s, w, y, x)
    ensures var s1 := Visit(s, w, y, x, true); var n := NextCell(w, y, x);
      Synced(s1.0, Interpret(t, s1.1)) && PrefixDone(s1.0, w, n.0, n.1) && SameOutside(s.cache, s1.0.cache, w.area)
  {
    var p := ScreenPos(w, x, y);
    var s1 := Visit(s, w, y, x, true);
    if At(s.cache, p.x, p.y) != At(w.surface, x, y) {
      assert s1 == CellStep(s, w, y, x, true);
      CellStepSynced(s, t, w, y, x);
    } else {
      assert s1 == (s, []);
      PrefixKeep(s, w, y, x);
      assert Interpret(t, []) == t;
    }
    PrefixAdvance(s1.0, w, y, x);
  }

  /** A finished cell moves the finished prefix on to the next cell in row-major order. */
  lemma PrefixAdvance(s: Screen, w: RenderTarget.Window, y: nat, x: nat)
    requires ValidScreen(s) && FitsScreen(s, w) && x < w.area.w && PrefixDone(s, w, y, x + 1)
    ensures var n := NextCell(w, y, x); PrefixDone(s, w, n.0, n.1)
  {
    if x + 1 == w.area.w {
      PrefixNextRow(s, w, y);
    }
  }

  /** `draw_window`'s cell loop, corrected, from `(x, y)` on. */
  lemma {:induction false} DrawFromSynced(s: Screen, t: Term, w: RenderTarget.Window, y: nat, x: nat)
    requires Synced(s, t) && FitsScreen(s, w) && AllDrawable(w)
    requires y <= w.area.h && (y < w.area.h ==> x < w.area.w) && PrefixDone(s, w, y, x)
    ensures var r := DrawFrom(s, w, y, x, true);
      Synced(r.0, Interpret(t, r.1)) && PrefixDone(r.0, w, w.area.h, 0) && SameOutside(s.cache, r.0.cache, w.area)
    decreases w.area.h - y, w.area.w - x
  {
    if y == w.area.h {
      assert Interpret(t, []) == t;
    } else {
      var s1 := Visit(s, w, y, x, true);
      var n := NextCell(w, y, x);
      VisitSynced(s, t, w, y, x);
      DrawFromSynced(s1.0, Interpret(t, s1.1), w, n.0, n.1);
      var s2 := DrawFrom(s1.0, w, n.0, n.1, true);
      InterpretAppend(t, s1.1, s2.1);
      SameOutsideTrans(s.cache, s1.0.cache, s2.0.cache, w.area);
    }
  }

  /** Placing the caret keeps the terminal in step. */
  lemma CaretStepSynced(s: Screen, t: Term, w: RenderTarget.Window)
    requires Synced(s, t) && FitsScreen(s, w)
    ensures var r := CaretStep(s, w);
      Synced(r.0, Interpret(t, r.1)) && Interpret(t, r.1).display == t.display
  {
    var caretpos := PointPlusPoint(w.caret, Pos(w.area));
    var careton := ContainsPoint(w.area, caretpos);
    var (s1, ops) := CaretState(s, careton);
    var t1 := Interpret(t, ops);
    assert t1 == t.(caretShown := careton) by {
      if ops != [] {
        assert Interpret(t, ops) == Interpret(Step(t, ops[0]), []);
      }
    }
    if careton && s1.curwpos != caretpos {
      ContainsIffCovers(w.area, caretpos.x, caretpos.y);
      var g := [TGoto(caretpos.x, caretpos.y)];
      InterpretAppend(t, ops, g);
      assert Interpret(t1, g) == Interpret(Step(t1, g[0]), []);
    }
  }

  /**
   * The renderer's promise: after the corrected `draw_window`, the terminal
   * shows every cell of the window (as substituted for display), still
   * shows the cache everywhere, and the cache is unchanged outside the window.
   */
  lemma DrawWindowShowsWindow(s: Screen, t: Term, w: RenderTarget.Window)
    requires Synced(s, t) && FitsScreen(s, w) && AllDrawable(w)
    ensures var r := DrawWindow(s, w); var t' := Interpret(t, r.1);
      Synced(r.0, t') && SameOutside(s.cache, r.0.cache, w.area) &&
      forall y, x :: 0 <= y < w.area.h && 0 <= x < w.area.w ==>
        t'.display[w.area.y + y][w.area.x + x] == LookOf(Substitute(At(w.surface, x, y)))
  {
    if Empty(w.area) {
      assert Interpret(t, []) == t;
    } else {
      DrawFromSynced(s, t, w, 0, 0);
      var (s1, ops1) := DrawFrom(s, w, 0, 0, true);
      CaretStepSynced(s1, Interpret(t, ops1), w);
      var (s2, ops2) := CaretStep(s1, w);
      InterpretAppend(t, ops1, ops2);
    }
  }

  //}}}
  //{{{ Redrawing an unchanged window

  /** Once every window cell is in the cache, the cell loop emits nothing and changes nothing. */
  lemma {:induction false} DrawFromQuiet(s: Screen, w: RenderTarget.Window, y: nat, x: nat, fixed: bool)
    requires ValidScreen(s) && FitsScreen(s, w) && y <= w.area.h && (y < w.area.h ==> x < w.area.w)
    requires PrefixDone(s, w, w.area.h, 0)
    ensures DrawFrom(s, w, y, x, fixed) == (s, [])
    decreases w.area.h - y, w.area.w - x
  {
    if y < w.area.h {
      var p := ScreenPos(w, x, y);
      assert At(s.cache, p.x, p.y) == At(w.surface, x, y);
      assert Visit(s, w, y, x, fixed) == (s, []);
      var n := NextCell(w, y, x);
      DrawFromQuiet(s, w, n.0, n.1, fixed);
      var none: seq<TermOp> := [];
      assert none + none == none;
      assert DrawFrom(s, w, y, x, fixed) == (s, none + none);
    }
  }

  /** Whichever cell the loop visits, it leaves that cell in the cache and the finished prefix grows. */
  lemma VisitDone(s: Screen, w: RenderTarget.Window, y: nat, x: nat, fixed: bool)
    requires ValidScreen(s) && FitsScreen(s, w) && y < w.area.h && x < w.area.w && PrefixDone(s, w, y, x)
    ensures var r := Visit(s, w, y, x, fixed); var n := NextCell(w, y, x);
      PrefixDone(r.0, w, n.0, n.1)
  {
    var p := ScreenPos(w, x, y);
    var r := Visit(s, w, y, x, fixed);
    if At(s.cache, p.x, p.y) != At(w.surface, x, y) {
      var ic := At(w.surface, x, y);
      assert r.0.cache == Set(s.cache, p.x, p.y, ic);
      PrefixAfterSet(s, w, y, x, s.(cache := Set(s.cache, p.x, p.y, ic)));
    } else {
      PrefixKeep(s, w, y, x);
    }
    if x + 1 == w.area.w {
      PrefixNextRow(r.0, w, y);
    }
  }

  /** The cell loop, as written or corrected, leaves the whole window in the cache. */
  lemma {:induction false} DrawFromDone(s: Screen, w: RenderTarget.Window, y: nat, x: nat, fixed: bool)
    requires ValidScreen(s) && FitsScreen(s, w) && y <= w.area.h && (y < w.area.h ==> x < w.area.w)
    requires PrefixDone(s, w, y, x)
    ensures PrefixDone(DrawFrom(s, w, y, x, fixed).0, w, w.area.h, 0)
    decreases w.area.h - y, w.area.w - x
  {
    if y < w.area.h {
      VisitDone(s, w, y, x, fixed);
      var n := NextCell(w, y, x);
      DrawFromDone(Visit(s, w, y, x, fixed).0, w, n.0, n.1, fixed);
    }
  }

  /** Placing the caret a second time, with nothing changed, emits nothing. */
  lemma CaretStepStable(s: Screen, w: RenderTarget.Window)
    requires ValidScreen(s)
    ensures var r := CaretStep(s, w); CaretStep(r.0, w) == (r.0, [])
  {
  }

  /**
   * `draw_window` is idempotent: drawing the same window again right away
   * sends nothing to the terminal and leaves the compositor's state as it was.
   */
  lemma DrawWindowIdempotent(s: Screen, w: RenderTarget.Window, fixed: bool)
    requires ValidScreen(s) && FitsScreen(s, w)
    ensures var r := DrawWindowWith(s, w, fixed); DrawWindowWith(r.0, w, fixed) == (r.0, [])
  {
    if !Empty(w.area) {
      DrawFromDone(s, w, 0, 0, fixed);
      var s1 := DrawFrom(s, w, 0, 0, fixed).0;
      var s2 := CaretStep(s1, w).0;
      assert PrefixDone(s2, w, w.area.h, 0);
      DrawFromQuiet(s2, w, 0, 0, fixed);
      CaretStepStable(s1, w);
    }
  }

  //}}}
  //{{{ Reprinting skipped cells, as written

  const CellA: Cell := DefaultCell.(c := [65, 0, 0, 0], bg := 1)
  const CellB: Cell := DefaultCell.(c := [66, 0, 0, 0], bg := 2)
  const CellC: Cell := DefaultCell.(c := [67, 0, 0, 0], bg := 3)

  /** A one-row screen whose cache holds A and B; the cursor sits after A, drawn last. */
  const ColourScreen: Screen :=
    Screen(Size(3, 1), Surface(Size(3, 1), [[CellA, CellB, DefaultCell]]), Point(1, 0), CellA, false)
  /** A full-width window showing A, B, C: only C differs from the cache. */
  const ColourWindow: RenderTarget.Window :=
    RenderTarget.Window(Surface(Size(3, 1), [[CellA, CellB, CellC]]), Rect(0, 0, 3, 1), Point(0, 0), Point(-1, -1), DefaultCell, Rect(0, 0, 3, 1))

  /**
   * As written, the skip to C reprints B in the current rendition, which is
   * A's: B's background is lost on the terminal while the cache still
   * believes B is shown.
   */
  lemma RewriteIgnoresColoursAsWritten(t: Term)
    requires Synced(ColourScreen, t)
    ensures Move(ColourScreen, ColourWindow, 0, 2, Point(2, 0), false) == [TPut([66])]
    ensures !Shows(Interpret(t, [TPut([66])]), ColourScreen.cache)
  {
    var s, w := ColourScreen, ColourWindow;
    assert WrapI16(2 - 1) == 1 && WrapI16(0 - 0) == 0;
    assert CellBack(w, 0, 2, 1) == Some(CellB);
    assert RewriteCells(w, 0, 2, 1, false) == [CellB];
    assert RewriteCount([CellB], CellA, false) == 1;
    var t' := Interpret(t, [TPut([66])]);
    assert t' == PutChar(t, [66]);
    assert t'.display[0][1] == Look([66], PenOf(CellA));
    assert LookOf(Substitute(At(s.cache, 1, 0))) == Look([66], PenOf(CellB));
  }

  /** Corrected, the differing background stops the reprint and the cursor skips forward instead. */
  lemma RewriteColoursCorrected()
    ensures Move(ColourScreen, ColourWindow, 0, 2, Point(2, 0), true) == [TSkip(1)]
  {
    var w := ColourWindow;
    assert WrapI16(2 - 1) == 1 && WrapI16(0 - 0) == 0;
    assert RewriteCells(w, 0, 2, 1, true) == [CellB];
    assert RewriteCount([CellB], CellA, true) == 0;
  }

  const CellY: Cell := DefaultCell.(c := [89, 0, 0, 0])
  const CellZ: Cell := DefaultCell.(c := [90, 0, 0, 0])

  /** A blank 3x2 screen with the cursor at the start of the second row. */
  const RowScreen: Screen := Screen(Size(3, 2), Blank(Size(3, 2)), Point(0, 1), DefaultCell, false)
  /** A 2x2 window at column 1: `Y` ends its first row, `Z` starts its second. */
  const RowWindow: RenderTarget.Window :=
    RenderTarget.Window(Surface(Size(2, 2), [[DefaultCell, CellY], [CellZ, DefaultCell]]), Rect(0, 0, 2, 2), Point(0, 0), Point(-1, -1), DefaultCell, Rect(1, 0, 2, 2))

  /**
   * As written, moving one column right to draw `Z` reprints the window
   * cell one place back in row-major order: `Y`, from the row above, lands
   * at screen column 0, outside the window, and the cache is not told.
   */
  lemma RewriteCrossesRowAsWritten(t: Term)
    requires Synced(RowScreen, t)
    ensures Move(RowScreen, RowWindow, 1, 0, Point(1, 1), false) == [TPut([89])]
    ensures !Covers(RowWindow.area, 0, 1)
    ensures !Shows(Interpret(t, [TPut([89])]), RowScreen.cache)
  {
    var s, w := RowScreen, RowWindow;
    assert WrapI16(1 - 0) == 1 && WrapI16(1 - 1) == 0;
    assert CellBack(w, 1, 0, 1) == CellBack(w, 0, 1, 0) == Some(CellY);
    assert RewriteCells(w, 1, 0, 1, false) == [CellY];
    assert RewriteCount([CellY], DefaultCell, false) == 1;
    var t' := Interpret(t, [TPut([89])]);
    assert t' == PutChar(t, [89]);
    assert t'.display[1][0] == Look([89], DefaultPen);
    assert LookOf(Substitute(At(s.cache, 0, 1))) == Look([32], DefaultPen);
  }

  /** Corrected, only cells of the same row are reprinted, so the cursor skips forward instead. */
  lemma RewriteRowCorrected()
    ensures Move(RowScreen, RowWindow, 1, 0, Point(1, 1), true) == [TSkip(1)]
  {
    assert WrapI16(1 - 0) == 1 && WrapI16(1 - 1) == 0;
    assert RewriteCells(RowWindow, 1, 0, 1, true) == [];
  }

  //}}}
}
