/**
 * The drawlist: a self-describing, 4-byte-aligned binary stream of drawing
 * commands. Every command is a header `{cmd, a1, asz}` (opcode, one byte
 * parameter, argument size in 32-bit words) followed by exactly `4*asz`
 * argument bytes. The Writer appends commands; `validate` measures the prefix
 * of an untrusted buffer made of whole accepted commands; `dispatch` replays a
 * buffer as one sink call per command.
 *
 * Argument layouts (little-endian): coordinates are int16, dimensions uint16,
 * colours and characters uint32; a string is a uint32 length counting its
 * terminating zero, the bytes, the zero, and padding to a 4-byte boundary; an
 * array is a uint32 element count followed by the elements, padded likewise.
 */
module Drawlist {
  import opened Ints
  import opened UiDefs
  import opened Wrappers

  //{{{ Opcodes

  const CmdReset: byte := 0
  const CmdEnable: byte := 1
  const CmdDisable: byte := 2
  const CmdClear: byte := 3
  const CmdMoveTo: byte := 4
  const CmdMoveBy: byte := 5
  const CmdViewport: byte := 6
  const CmdDrawColor: byte := 7
  const CmdFillColor: byte := 8
  const CmdChar: byte := 9
  const CmdText: byte := 10
  const CmdLine: byte := 11
  const CmdBox: byte := 12
  const CmdBar: byte := 13
  const CmdCharBar: byte := 14
  const CmdPanel: byte := 15
  const CmdEditText: byte := 16
  /** First opcode the base drawlist does not know. */
  const CmdLast: byte := 17
  // The graphic extension continues the numbering.
  const CmdDefineColor: byte := 17
  const CmdPalette: byte := 18
  const CmdPalette3: byte := 19
  const GraphicCmdLast: byte := 20

  //}}}
  //{{{ Sink calls

  /**
   * One callback on the dispatch sink. Alignments are carried as the raw
   * values dispatch extracts from `a1` (`a1 & 3` and `a1 >> 2`).
   */
  datatype Call =
    | DrawReset
    | DrawEnable(feature: byte)
    | DrawDisable(feature: byte)
    | DrawClear
    | DrawMoveTo(p: Point)
    | DrawMoveBy(o: Offset)
    | DrawViewport(r: Rect)
    | DrawDrawColor(c: byte)
    | DrawFillColor(c: byte)
    | DrawChar(ch: u32, ha: nat, va: nat)
    | DrawText(t: seq<byte>, ha: nat, va: nat)
    | DrawLine(o: Offset)
    | DrawBox(sz: Size)
    | DrawBar(sz: Size)
    | DrawCharBar(sz: Size, ch: u32)
    | DrawPanel(sz: Size, ptype: byte)
    | DrawEditText(t: seq<byte>, cp: u32, ha: nat, va: nat)
    | DrawSetColor(index: byte, rgb: u32)
    | DrawPalette(first: byte, colors: seq<u32>)
    | DrawPalette3(first: byte, rays: seq<byte>)

  //}}}
  //{{{ Framing

  /** Bytes needed to pad `n` up to a multiple of 4. */
  function Pad4(n: nat): (p: nat)
    ensures p < 4 && (n + p) % 4 == 0
  {
    (4 - n % 4) % 4
  }

  function Zeros(n: nat): (z: seq<byte>)
    ensures |z| == n && forall i :: 0 <= i < n ==> z[i] == 0
  {
    seq(n, _ => 0)
  }

  /** The declared argument size of the command at the head of `s`, in bytes. */
  function ArgBytes(s: seq<byte>): nat
    requires |s| >= 4
  {
    4 * U16At(s, 2)
  }

  /** A whole command (header and all declared argument bytes) starts `s`. */
  predicate HasFrame(s: seq<byte>)
  {
    |s| >= 4 && ArgBytes(s) <= |s| - 4
  }

  function FrameLen(s: seq<byte>): (n: nat)
    requires HasFrame(s)
    ensures 4 <= n <= |s| && n % 4 == 0
  {
    4 + ArgBytes(s)
  }

  function FrameArgs(s: seq<byte>): seq<byte>
    requires HasFrame(s)
  {
    s[4..FrameLen(s)]
  }

  /** `s` is a sequence of whole commands with nothing left over. */
  predicate Framed(s: seq<byte>)
    decreases |s|
  {
    |s| == 0 || (HasFrame(s) && Framed(s[FrameLen(s)..]))
  }

  //}}}
  //{{{ Writer

  /**
   * `Writer::write`: header then argument bytes. A payload of more than
   * 65535 words does not fit the 16-bit count, and nothing is written.
   */
  function WriteCmd(cmd: byte, a1: byte, args: seq<byte>): (r: seq<byte>)
    requires |args| % 4 == 0
    ensures |r| % 4 == 0
    ensures |args| / 4 > U16_MAX <==> r == []
    ensures r != [] ==> HasFrame(r) && FrameLen(r) == |r| && r[0] == cmd && r[1] == a1 && FrameArgs(r) == args
  {
    var asz := |args| / 4;
    if asz > U16_MAX then []
    else
      var r := [cmd, a1] + U16Bytes(asz) + args;
      U16RoundTrip(asz, [cmd, a1], args);
      r
  }

  /** `pack_alignment_byte`: `ha | va << 2`. */
  function PackAlignment(ha: nat, va: nat): (a1: byte)
    requires ha < 4 && va < 4
  {
    ha + 4 * va
  }

  /** Dispatch recovers both alignments from the packed byte. */
  lemma PackAlignmentRoundTrip(ha: nat, va: nat)
    requires ha < 4 && va < 4
    ensures PackAlignment(ha, va) % 4 == ha && PackAlignment(ha, va) / 4 == va
  {
  }

  function PointBytes(p: Point): seq<byte> { I16Bytes(p.x) + I16Bytes(p.y) }
  function OffsetBytes(o: Offset): seq<byte> { I16Bytes(o.dx) + I16Bytes(o.dy) }
  function SizeBytes(s: Size): seq<byte> { U16Bytes(s.w) + U16Bytes(s.h) }
  function RectBytes(r: Rect): seq<byte> { I16Bytes(r.x) + I16Bytes(r.y) + U16Bytes(r.w) + U16Bytes(r.h) }

  /** A string: its length with the terminator, the bytes, the terminator, padding. */
  function StrBytes(t: seq<byte>): (r: seq<byte>)
    requires |t| + 1 < 0x1_0000_0000
    ensures |r| % 4 == 0 && |r| == 4 + |t| + 1 + Pad4(|t| + 1)
  {
    var n := |t| + 1;
    var p := Pad4(n);
    var r := U32Bytes(n) + t + [0] + Zeros(p);
    assert |r| == 4 * ((n + p) / 4 + 1);
    r
  }

  function U32sBytes(v: seq<u32>): (r: seq<byte>)
    ensures |r| == 4 * |v|
  {
    if v == [] then [] else U32Bytes(v[0]) + U32sBytes(v[1..])
  }

  function ArrU32Bytes(v: seq<u32>): (r: seq<byte>)
    requires |v| < 0x1_0000_0000
    ensures |r| == 4 + 4 * |v|
  {
    U32Bytes(|v|) + U32sBytes(v)
  }

  function ArrU8Bytes(v: seq<byte>): (r: seq<byte>)
    requires |v| < 0x1_0000_0000
    ensures |r| == 4 + |v| + Pad4(|v|)
  {
    U32Bytes(|v|) + v + Zeros(Pad4(|v|))
  }

  /**
   * What a writer call can be given: enum-valued alignments, and palettes
   * within the colour range the writer asserts.
   */
  predicate Writable(c: Call)
  {
    match c
    case DrawChar(_, ha, va) => ha < 4 && va < 4
    case DrawText(_, ha, va) => ha < 4 && va < 4
    case DrawEditText(_, _, ha, va) => ha < 4 && va < 4
    case DrawPalette(f, colors) => |colors| + f <= 0xFF
    case DrawPalette3(f, rays) => |rays| % 3 == 0 && |rays| / 3 + f <= 0xFF
    case _ => true
  }

  function Opcode(c: Call): byte
  {
    match c
    case DrawReset => CmdReset
    case DrawEnable(_) => CmdEnable
    case DrawDisable(_) => CmdDisable
    case DrawClear => CmdClear
    case DrawMoveTo(_) => CmdMoveTo
    case DrawMoveBy(_) => CmdMoveBy
    case DrawViewport(_) => CmdViewport
    case DrawDrawColor(_) => CmdDrawColor
    case DrawFillColor(_) => CmdFillColor
    case DrawChar(_, _, _) => CmdChar
    case DrawText(_, _, _) => CmdText
    case DrawLine(_) => CmdLine
    case DrawBox(_) => CmdBox
    case DrawBar(_) => CmdBar
    case DrawCharBar(_, _) => CmdCharBar
    case DrawPanel(_, _) => CmdPanel
    case DrawEditText(_, _, _, _) => CmdEditText
    case DrawSetColor(_, _) => CmdDefineColor
    case DrawPalette(_, _) => CmdPalette
    case DrawPalette3(_, _) => CmdPalette3
  }

  function A1(c: Call): byte
    requires Writable(c)
  {
    match c
    case DrawEnable(f) => f
    case DrawDisable(f) => f
    case DrawDrawColor(i) => i
    case DrawFillColor(i) => i
    case DrawChar(_, ha, va) => PackAlignment(ha, va)
    case DrawText(_, ha, va) => PackAlignment(ha, va)
    case DrawPanel(_, t) => t
    case DrawEditText(_, _, ha, va) => PackAlignment(ha, va)
    case DrawSetColor(i, _) => i
    case DrawPalette(f, _) => f
    case DrawPalette3(f, _) => f
    case _ => 0
  }

  /** Bytes the arguments of a call occupy in the stream. */
  function ArgSize(c: Call): (n: nat)
    ensures n % 4 == 0
  {
    match c
    case DrawViewport(_) => 8
    case DrawCharBar(_, _) => 8
    case DrawText(t, _, _) => 4 + |t| + 1 + Pad4(|t| + 1)
    case DrawEditText(t, _, _, _) => 8 + |t| + 1 + Pad4(|t| + 1)
    case DrawPalette(_, colors) => 4 + 4 * |colors|
    case DrawPalette3(_, rays) => 4 + |rays| + Pad4(|rays|)
    case DrawMoveTo(_) => 4
    case DrawMoveBy(_) => 4
    case DrawChar(_, _, _) => 4
    case DrawLine(_) => 4
    case DrawBox(_) => 4
    case DrawBar(_) => 4
    case DrawPanel(_, _) => 4
    case DrawSetColor(_, _) => 4
    case _ => 0
  }

  /** The arguments fit the header's 16-bit word count. */
  predicate Fits(c: Call)
  {
    ArgSize(c) / 4 <= U16_MAX
  }

  /** Only a string argument can overflow the word count: text up to 262135 bytes, edit text up to 262131. */
  lemma FitsExactly(c: Call)
    requires Writable(c)
    ensures c.DrawText? ==> (Fits(c) <==> |c.t| <= 0x3_FFF7)
    ensures c.DrawEditText? ==> (Fits(c) <==> |c.t| <= 0x3_FFF3)
    ensures !c.DrawText? && !c.DrawEditText? ==> Fits(c)
  {
  }

  function Args(c: Call): (r: seq<byte>)
    requires Writable(c) && Fits(c)
    ensures |r| == ArgSize(c)
  {
    match c
    case DrawMoveTo(p) => PointBytes(p)
    case DrawMoveBy(o) => OffsetBytes(o)
    case DrawViewport(r) => RectBytes(r)
    case DrawChar(ch, _, _) => U32Bytes(ch)
    case DrawText(t, _, _) => StrBytes(t)
    case DrawLine(o) => OffsetBytes(o)
    case DrawBox(s) => SizeBytes(s)
    case DrawBar(s) => SizeBytes(s)
    case DrawCharBar(s, ch) => SizeBytes(s) + U32Bytes(ch)
    case DrawPanel(s, _) => SizeBytes(s)
    case DrawEditText(t, cp, _, _) => U32Bytes(cp) + StrBytes(t)
    case DrawSetColor(_, rgb) => U32Bytes(rgb)
    case DrawPalette(_, colors) => ArrU32Bytes(colors)
    case DrawPalette3(_, rays) => ArrU8Bytes(rays)
    case _ => []
  }

  /**
   * One Writer call (`move_to`, `text`, `panel`, ... `define_color`,
   * `palette`): a single whole frame carrying the opcode, the parameter byte
   * and the arguments, or nothing when the arguments overflow the word count.
   */
  function Encode(c: Call): (r: seq<byte>)
    requires Writable(c)
    ensures r == [] <==> !Fits(c)
    ensures Fits(c) ==> |r| == 4 + ArgSize(c) && HasFrame(r) && FrameLen(r) == |r|
    ensures Fits(c) ==> r[0] == Opcode(c) && r[1] == A1(c) && FrameArgs(r) == Args(c)
  {
    if Fits(c) then WriteCmd(Opcode(c), A1(c), Args(c)) else []
  }

  /** The calls of `cs` whose arguments fit, in order: what a writer actually puts in the stream. */
  function Kept(cs: seq<Call>): (r: seq<Call>)
    ensures |r| <= |cs|
    ensures (forall i :: 0 <= i < |cs| ==> Fits(cs[i])) ==> r == cs
  {
    if cs == [] then []
    else if Fits(cs[0]) then [cs[0]] + Kept(cs[1..])
    else Kept(cs[1..])
  }

  /** Every call kept fits and is one of the calls written. */
  lemma {:induction false} KeptFits(cs: seq<Call>)
    ensures forall i :: 0 <= i < |Kept(cs)| ==> Fits(Kept(cs)[i]) && Kept(cs)[i] in cs
  {
    if cs != [] {
      KeptFits(cs[1..]);
      var t := Kept(cs[1..]);
      assert forall i :: 0 <= i < |t| ==> t[i] in cs by {
        forall i | 0 <= i < |t|
          ensures t[i] in cs
        {
          var j :| 0 <= j < |cs[1..]| && cs[1..][j] == t[i];
          assert cs[j + 1] == t[i];
        }
      }
    }
  }

  /** A writer's stream: the frames of its calls, one after another. */
  function EncodeAll(cs: seq<Call>): (r: seq<byte>)
    requires forall i :: 0 <= i < |cs| ==> Writable(cs[i])
    ensures Framed(r)
  {
    if cs == [] then []
    else
      var f, rest := Encode(cs[0]), EncodeAll(cs[1..]);
      EncodeFramed(cs[0]);
      FramedAppend(f, rest);
      f + rest
  }

  //}}}
  //{{{ Validate

  /**
   * `validate_with_func`: walks the stream by declared lengths and returns
   * the byte length of the prefix of whole commands that `vfunc` accepts.
   * It stops at a truncated header, at a declared size larger than what
   * remains, and at the first command whose argument check disagrees with
   * its declared size.
   */
  function ValidateWith(s: seq<byte>, vfunc: (byte, seq<byte>) -> nat): (r: nat)
    ensures r <= |s|
    decreases |s|
  {
    if !HasFrame(s) then 0
    else if vfunc(s[0], FrameArgs(s)) != ArgBytes(s) then 0
    else FrameLen(s) + ValidateWith(s[FrameLen(s)..], vfunc)
  }

  /** Validation stops on a command boundary, so the length it reports is 4-aligned. */
  lemma {:induction false} ValidateWithAligned(s: seq<byte>, vfunc: (byte, seq<byte>) -> nat)
    ensures ValidateWith(s, vfunc) % 4 == 0
    decreases |s|
  {
    if HasFrame(s) && vfunc(s[0], FrameArgs(s)) == ArgBytes(s) {
      var n := FrameLen(s);
      var m := ValidateWith(s[n..], vfunc);
      ValidateWithAligned(s[n..], vfunc);
      assert ValidateWith(s, vfunc) == n + m;
      AlignedSum(n, m);
    }
  }

  /** Two 4-aligned lengths add up to a 4-aligned one. */
  lemma AlignedSum(a: nat, b: nat)
    requires a % 4 == 0 && b % 4 == 0
    ensures (a + b) % 4 == 0
  {
    assert a + b == 4 * (a / 4 + b / 4);
  }

  /** Every command of `s` is whole and accepted by `vfunc`, with nothing left over. */
  predicate Accepted(s: seq<byte>, vfunc: (byte, seq<byte>) -> nat)
    decreases |s|
  {
    |s| == 0 ||
    (HasFrame(s) && vfunc(s[0], FrameArgs(s)) == ArgBytes(s) && Accepted(s[FrameLen(s)..], vfunc))
  }

  /** The loop of `validate_with_func`, with the position and total it keeps. */
  method ValidateLoop(dls: seq<byte>, vfunc: (byte, seq<byte>) -> nat) returns (r: nat)
    ensures r == ValidateWith(dls, vfunc)
    ensures Accepted(dls[..r], vfunc)
  {
    r := 0;
    var rest := dls;
    ghost var total := ValidateWith(dls, vfunc);
    while |rest| >= 4
      invariant r <= |dls| && rest == dls[r..]
      invariant total == r + ValidateWith(rest, vfunc)
      decreases |rest|
    {
      var n := ValidateNext(rest, vfunc);
      if n == 0 {
        break;
      }
      assert rest[n..] == dls[r + n..];
      r, rest := r + n, rest[n..];
    }
    ValidatedPrefixAccepted(dls, vfunc);
  }

  /**
   * One turn of that loop: the length of the command at the head of `s` when
   * its size fits and `vfunc` agrees with it, and 0 where validation stops.
   */
  method ValidateNext(s: seq<byte>, vfunc: (byte, seq<byte>) -> nat) returns (n: nat)
    requires |s| >= 4
    ensures n == 0 ==> ValidateWith(s, vfunc) == 0
    ensures n != 0 ==> 4 <= n <= |s| && ValidateWith(s, vfunc) == n + ValidateWith(s[n..], vfunc)
  {
    var absz := 4 * U16At(s, 2);
    if absz > |s| - 4 || absz != vfunc(s[0], s[4..4 + absz]) {
      return 0;
    }
    n := 4 + absz;
  }

  /** Appending one accepted command to an accepted stream keeps it accepted. */
  lemma {:induction false} AcceptedExtend(a: seq<byte>, f: seq<byte>, vfunc: (byte, seq<byte>) -> nat)
    requires Accepted(a, vfunc)
    requires HasFrame(f) && FrameLen(f) == |f| && vfunc(f[0], FrameArgs(f)) == ArgBytes(f)
    ensures Accepted(a + f, vfunc)
    decreases |a|
  {
    if |a| == 0 {
      assert a + f == f;
      assert f[FrameLen(f)..] == [];
    } else {
      var n := FrameLen(a);
      assert (a + f)[..4] == a[..4];
      assert (a + f)[4..n] == a[4..n];
      assert (a + f)[n..] == a[n..] + f;
      AcceptedExtend(a[n..], f, vfunc);
    }
  }

  /** `validate` reports the whole stream exactly when every command is accepted. */
  lemma {:induction false} ValidateWholeIffAccepted(s: seq<byte>, vfunc: (byte, seq<byte>) -> nat)
    ensures ValidateWith(s, vfunc) == |s| <==> Accepted(s, vfunc)
    decreases |s|
  {
    if HasFrame(s) {
      ValidateWholeIffAccepted(s[FrameLen(s)..], vfunc);
    }
  }

  /** Validation of a concatenation continues where an accepted prefix ends. */
  lemma {:induction false} ValidateAppend(a: seq<byte>, b: seq<byte>, vfunc: (byte, seq<byte>) -> nat)
    requires Accepted(a, vfunc)
    ensures ValidateWith(a + b, vfunc) == |a| + ValidateWith(b, vfunc)
    decreases |a|
  {
    if |a| == 0 {
      assert a + b == b;
    } else {
      var n := FrameLen(a);
      AppendKeepsFrame(a, b);
      ValidateAppend(a[n..], b, vfunc);
    }
  }

  /** Bytes after a whole command leave that command as it was. */
  lemma AppendKeepsFrame(a: seq<byte>, b: seq<byte>)
    requires HasFrame(a)
    ensures HasFrame(a + b) && FrameLen(a + b) == FrameLen(a)
    ensures (a + b)[0] == a[0] && (a + b)[1] == a[1] && FrameArgs(a + b) == FrameArgs(a)
    ensures (a + b)[FrameLen(a)..] == a[FrameLen(a)..] + b
  {
    var n := FrameLen(a);
    assert (a + b)[..4] == a[..4];
    assert (a + b)[4..n] == a[4..n];
    assert (a + b)[n..] == a[n..] + b;
  }

  /** A prefix of `s` long enough to hold its first command frames that same command. */
  lemma PrefixKeepsFrame(s: seq<byte>, n: nat)
    requires HasFrame(s) && FrameLen(s) <= n <= |s|
    ensures HasFrame(s[..n]) && FrameLen(s[..n]) == FrameLen(s)
    ensures s[..n][0] == s[0] && FrameArgs(s[..n]) == FrameArgs(s)
    ensures s[..n][FrameLen(s)..] == s[FrameLen(s)..][..n - FrameLen(s)]
  {
    assert s[..n][..4] == s[..4];
  }

  /** The prefix `validate` measures is made of accepted commands. */
  lemma {:induction false} ValidatedPrefixAccepted(s: seq<byte>, vfunc: (byte, seq<byte>) -> nat)
    ensures Accepted(s[..ValidateWith(s, vfunc)], vfunc)
    decreases |s|
  {
    var r := ValidateWith(s, vfunc);
    if HasFrame(s) && vfunc(s[0], FrameArgs(s)) == ArgBytes(s) {
      var m := FrameLen(s);
      ValidatedPrefixAccepted(s[m..], vfunc);
      PrefixKeepsFrame(s, r);
      assert s[..r][m..] == s[m..][..r - m];
    } else {
      assert s[..r] == [];
    }
  }

  /** No prefix longer than the one `validate` measures is made of accepted commands. */
  lemma {:induction false} ValidateIsLongestAcceptedPrefix(s: seq<byte>, vfunc: (byte, seq<byte>) -> nat, n: nat)
    requires ValidateWith(s, vfunc) < n <= |s|
    ensures !Accepted(s[..n], vfunc)
    decreases |s|
  {
    var p := s[..n];
    if HasFrame(s) && vfunc(s[0], FrameArgs(s)) == ArgBytes(s) {
      var m := FrameLen(s);
      PrefixKeepsFrame(s, n);
      ValidateIsLongestAcceptedPrefix(s[m..], vfunc, n - m);
    } else if HasFrame(s) && FrameLen(s) <= n {
      PrefixKeepsFrame(s, n);
    } else if |s| >= 4 && n >= 4 {
      assert p[..4] == s[..4];
      assert ArgBytes(p) == ArgBytes(s);
    }
  }

  //}}}
  //{{{ Argument signatures (the stand-in for the message signature checker)

  datatype Field = FI16 | FU16 | FU32 | FStr | FArrU32 | FArrU8

  /** The argument signatures of the base opcodes, in opcode order. */
  function Signature(cmd: byte): seq<Field>
    requires cmd < CmdLast
  {
    if cmd <= CmdClear then []
    else if cmd == CmdMoveTo || cmd == CmdMoveBy || cmd == CmdLine then [FI16, FI16]
    else if cmd == CmdViewport then [FI16, FI16, FU16, FU16]
    else if cmd == CmdDrawColor || cmd == CmdFillColor || cmd == CmdChar then [FU32]
    else if cmd == CmdText then [FStr]
    else if cmd == CmdBox || cmd == CmdBar || cmd == CmdPanel then [FU16, FU16]
    else if cmd == CmdCharBar then [FU16, FU16, FU32]
    else [FU32, FStr]
  }

  /** Signatures of the graphic extension's opcodes. */
  function GraphicSignature(cmd: byte): seq<Field>
    requires CmdLast <= cmd < GraphicCmdLast
  {
    if cmd == CmdDefineColor then [FU32]
    else if cmd == CmdPalette then [FArrU32]
    else [FArrU8]
  }

  /** Bytes one field occupies at offset `i` of `s`, if it is all there. */
  function FieldSize(f: Field, s: seq<byte>, i: nat): (r: Option<nat>)
    ensures r.Some? ==> i + r.value <= |s|
  {
    match f
    case FI16 => if i + 2 <= |s| then Some(2) else None
    case FU16 => if i + 2 <= |s| then Some(2) else None
    case FU32 => if i + 4 <= |s| then Some(4) else None
    case FStr =>
      if i + 4 > |s| then None
      else
        var n := U32At(s, i);
        if n == 0 || i + 4 + n + Pad4(n) > |s| || s[i + 4 + n - 1] != 0 then None
        else Some(4 + n + Pad4(n))
    case FArrU32 =>
      if i + 4 > |s| then None
      else
        var n := U32At(s, i);
        if i + 4 + 4 * n > |s| then None else Some(4 + 4 * n)
    case FArrU8 =>
      if i + 4 > |s| then None
      else
        var n := U32At(s, i);
        if i + 4 + n + Pad4(n) > |s| then None else Some(4 + n + Pad4(n))
  }

  /** Bytes a whole signature occupies from offset `i`, if every field is there. */
  function SigSize(sig: seq<Field>, s: seq<byte>, i: nat): (r: Option<nat>)
    requires i <= |s|
    ensures r.Some? ==> i + r.value <= |s|
    decreases |sig|
  {
    if sig == [] then Some(0)
    else
      match FieldSize(sig[0], s, i)
      case None => None
      case Some(n) =>
        match SigSize(sig[1..], s, i + n)
        case None => None
        case Some(m) => Some(n + m)
  }

  /** The signature checker's answer: bytes validated, 0 when the payload is too short. */
  function CheckSignature(sig: seq<Field>, args: seq<byte>): (r: nat)
    ensures r <= |args|
  {
    SigSize(sig, args, 0).GetOr(0)
  }

  /** `Drawlist::validate_cmd`: unknown opcodes are accepted with their declared length. */
  function ValidateCmd(cmd: byte, args: seq<byte>): (r: nat)
    ensures cmd >= CmdLast ==> r == |args|
    ensures r <= |args|
  {
    if cmd >= CmdLast then |args| else CheckSignature(Signature(cmd), args)
  }

  function Validate(dls: seq<byte>): (r: nat)
    ensures r <= |dls| && r % 4 == 0
  {
    ValidateWithAligned(dls, ValidateCmd);
    ValidateWith(dls, ValidateCmd)
  }

  /**
   * `DrawlistGraphic::validate_cmd` as written. It subtracts `Cmd::Last` from
   * the 8-bit opcode and compares the difference with the graphic
   * `Cmd::Last` (20) rather than with the number of graphic opcodes (3). So
   * every base opcode wraps to 239..255 and is accepted on its declared
   * length, and opcodes 20..36 reach the signature lookup with an index past
   * the three signatures; `None` stands for that read past the table.
   */
  function GraphicValidateCmdAsWritten(cmd: byte, args: seq<byte>): (r: Option<nat>)
    ensures r.Some? ==> r.value <= |args|
  {
    var rel := (cmd - CmdLast) % 0x100;
    if rel >= GraphicCmdLast then Some(|args|)
    else if rel < GraphicCmdLast - CmdLast then Some(CheckSignature(GraphicSignature(cmd), args))
    else None
  }

  /**
   * Where the checker as written departs from the corrected one: base
   * opcodes are accepted on length, 20..36 index past the signatures, and
   * only the three graphic opcodes and 37 up get the same answer.
   */
  lemma GraphicValidateAsWrittenRanges(cmd: byte, args: seq<byte>)
    ensures cmd < CmdLast ==> GraphicValidateCmdAsWritten(cmd, args) == Some(|args|)
    ensures CmdLast <= cmd < GraphicCmdLast ==> GraphicValidateCmdAsWritten(cmd, args) == Some(GraphicValidateCmd(cmd, args))
    ensures GraphicCmdLast <= cmd < CmdLast + GraphicCmdLast ==> GraphicValidateCmdAsWritten(cmd, args).None?
    ensures CmdLast + GraphicCmdLast <= cmd ==> GraphicValidateCmdAsWritten(cmd, args) == Some(GraphicValidateCmd(cmd, args))
  {
  }

  /** The graphic checker with base opcodes handed to the base checker. */
  function GraphicValidateCmd(cmd: byte, args: seq<byte>): (r: nat)
    ensures cmd < CmdLast ==> r == ValidateCmd(cmd, args)
    ensures cmd >= GraphicCmdLast ==> r == |args|
    ensures r <= |args|
  {
    if cmd < CmdLast then ValidateCmd(cmd, args)
    else if cmd >= GraphicCmdLast then |args|
    else CheckSignature(GraphicSignature(cmd), args)
  }

  //}}}
  //{{{ Dispatch

  // Readers used by dispatch; a read past the payload yields zeros.
  function Rd16(s: seq<byte>, i: nat): u16 { if i + 2 <= |s| then U16At(s, i) else 0 }
  function RdI16(s: seq<byte>, i: nat): i16 { WrapI16(Rd16(s, i)) }
  function Rd32(s: seq<byte>, i: nat): u32 { if i + 4 <= |s| then U32At(s, i) else 0 }
  function RdPoint(s: seq<byte>, i: nat): Point { Point(RdI16(s, i), RdI16(s, i + 2)) }
  function RdOffset(s: seq<byte>, i: nat): Offset { Offset(RdI16(s, i), RdI16(s, i + 2)) }
  function RdSize(s: seq<byte>, i: nat): Size { Size(Rd16(s, i), Rd16(s, i + 2)) }
  function RdRect(s: seq<byte>, i: nat): Rect { Rect(RdI16(s, i), RdI16(s, i + 2), Rd16(s, i + 4), Rd16(s, i + 6)) }

  /** A string's bytes without its terminator. */
  function RdStr(s: seq<byte>, i: nat): seq<byte>
  {
    var n := Rd32(s, i);
    if n == 0 || i + 4 > |s| then [] else s[i + 4..Min(i + 4 + n - 1, |s|)]
  }

  function RdU32s(s: seq<byte>, i: nat, n: nat): seq<u32>
    decreases n
  {
    if n == 0 then [] else [Rd32(s, i)] + RdU32s(s, i + 4, n - 1)
  }

  function RdArrU32(s: seq<byte>, i: nat): seq<u32>
  {
    var n := Rd32(s, i);
    if i + 4 + 4 * n > |s| then [] else RdU32s(s, i + 4, n)
  }

  function RdArrU8(s: seq<byte>, i: nat): seq<byte>
  {
    var n := Rd32(s, i);
    if i + 4 + n > |s| then [] else s[i + 4..i + 4 + n]
  }

  /** `Drawlist::dispatch_cmd`: one sink call per known opcode, none for the rest. */
  function DispatchCmd(cmd: byte, a1: byte, args: seq<byte>): (r: seq<Call>)
    ensures cmd >= CmdLast <==> r == []
    ensures |r| <= 1
  {
    var ha, va := a1 % 4, a1 / 4;
    if cmd == CmdReset then [DrawReset]
    else if cmd == CmdEnable then [DrawEnable(a1)]
    else if cmd == CmdDisable then [DrawDisable(a1)]
    else if cmd == CmdClear then [DrawClear]
    else if cmd == CmdMoveTo then [DrawMoveTo(RdPoint(args, 0))]
    else if cmd == CmdMoveBy then [DrawMoveBy(RdOffset(args, 0))]
    else if cmd == CmdViewport then [DrawViewport(RdRect(args, 0))]
    else if cmd == CmdDrawColor then [DrawDrawColor(a1)]
    else if cmd == CmdFillColor then [DrawFillColor(a1)]
    else if cmd == CmdChar then [DrawChar(Rd32(args, 0), ha, va)]
    else if cmd == CmdText then [DrawText(RdStr(args, 0), ha, va)]
    else if cmd == CmdLine then [DrawLine(RdOffset(args, 0))]
    else if cmd == CmdBox then [DrawBox(RdSize(args, 0))]
    else if cmd == CmdBar then [DrawBar(RdSize(args, 0))]
    else if cmd == CmdCharBar then [DrawCharBar(RdSize(args, 0), Rd32(args, 4))]
    else if cmd == CmdPanel then [DrawPanel(RdSize(args, 0), a1)]
    else if cmd == CmdEditText then [DrawEditText(RdStr(args, 4), Rd32(args, 0), ha, va)]
    else []
  }

  /** `DrawlistGraphic::dispatch_cmd`: its three opcodes here, the rest to the base. */
  function GraphicDispatchCmd(cmd: byte, a1: byte, args: seq<byte>): (r: seq<Call>)
    ensures cmd < CmdLast ==> r == DispatchCmd(cmd, a1, args)
    ensures cmd >= GraphicCmdLast <==> r == []
  {
    if cmd == CmdDefineColor then [DrawSetColor(a1, Rd32(args, 0))]
    else if cmd == CmdPalette then [DrawPalette(a1, RdArrU32(args, 0))]
    else if cmd == CmdPalette3 then [DrawPalette3(a1, RdArrU8(args, 0))]
    else DispatchCmd(cmd, a1, args)
  }

  /**
   * `dispatch_with_func`: calls `dfunc` on each whole command in order and
   * stops at a truncated header or a declared size larger than what remains.
   */
  function DispatchWith(s: seq<byte>, dfunc: (byte, byte, seq<byte>) -> seq<Call>): seq<Call>
    decreases |s|
  {
    if !HasFrame(s) then []
    else dfunc(s[0], s[1], FrameArgs(s)) + DispatchWith(s[FrameLen(s)..], dfunc)
  }

  function Dispatch(s: seq<byte>): seq<Call> { DispatchWith(s, DispatchCmd) }
  function DispatchGraphic(s: seq<byte>): seq<Call> { DispatchWith(s, GraphicDispatchCmd) }

  /** Number of whole commands before the first truncated one. */
  function FrameCount(s: seq<byte>): nat
    decreases |s|
  {
    if !HasFrame(s) then 0 else 1 + FrameCount(s[FrameLen(s)..])
  }

  /** Base dispatch makes at most one call per whole command, and exactly one when all opcodes are known. */
  lemma {:induction false} DispatchOnePerCommand(s: seq<byte>)
    ensures |Dispatch(s)| <= FrameCount(s)
    ensures AllKnown(s) ==> |Dispatch(s)| == FrameCount(s)
    decreases |s|
  {
    if HasFrame(s) {
      DispatchOnePerCommand(s[FrameLen(s)..]);
    }
  }

  /** Every whole command of `s` carries an opcode the base drawlist knows. */
  predicate AllKnown(s: seq<byte>)
    decreases |s|
  {
    !HasFrame(s) || (s[0] < CmdLast && AllKnown(s[FrameLen(s)..]))
  }

  /** Dispatch of a concatenation continues where a whole-command prefix ends. */
  lemma {:induction false} DispatchAppend(a: seq<byte>, b: seq<byte>, dfunc: (byte, byte, seq<byte>) -> seq<Call>)
    requires Framed(a)
    ensures DispatchWith(a + b, dfunc) == DispatchWith(a, dfunc) + DispatchWith(b, dfunc)
    decreases |a|
  {
    if |a| == 0 {
      assert a + b == b;
    } else {
      var n := FrameLen(a);
      AppendKeepsFrame(a, b);
      DispatchAppend(a[n..], b, dfunc);
    }
  }

  /** A command with an opcode beyond the base set produces no call; the stream goes on after it. */
  lemma DispatchSkipsUnknown(a1: byte, cmd: byte, args: seq<byte>, rest: seq<byte>)
    requires cmd >= CmdLast && |args| % 4 == 0 && |args| / 4 <= U16_MAX
    ensures Dispatch(WriteCmd(cmd, a1, args) + rest) == Dispatch(rest)
  {
    var f := WriteCmd(cmd, a1, args);
    assert f[FrameLen(f)..] == [];
    assert Framed(f);
    DispatchAppend(f, rest, DispatchCmd);
  }

  /** Commands with opcodes beyond the base set pass validation on their declared length alone. */
  lemma ValidateAcceptsUnknown(a1: byte, cmd: byte, args: seq<byte>, rest: seq<byte>)
    requires cmd >= CmdLast && |args| % 4 == 0 && |args| / 4 <= U16_MAX
    ensures Validate(WriteCmd(cmd, a1, args) + rest) == 4 + |args| + Validate(rest)
  {
    var f := WriteCmd(cmd, a1, args);
    assert f[FrameLen(f)..] == [];
    assert Accepted(f, ValidateCmd);
    ValidateAppend(f, rest, ValidateCmd);
  }

  //}}}
  //{{{ Writer -> validate -> dispatch round trip

  lemma StrRoundTrip(t: seq<byte>, pre: seq<byte>, post: seq<byte>)
    requires |t| + 1 < 0x1_0000_0000
    ensures RdStr(pre + StrBytes(t) + post, |pre|) == t
    ensures FieldSize(FStr, pre + StrBytes(t) + post, |pre|) == Some(|StrBytes(t)|)
  {
    var s := pre + StrBytes(t) + post;
    var tail := t + [0] + Zeros(Pad4(|t| + 1)) + post;
    assert s == pre + U32Bytes(|t| + 1) + tail;
    U32RoundTrip(|t| + 1, pre, tail);
    assert Rd32(s, |pre|) == |t| + 1;
    assert s[|pre| + 4..|pre| + 4 + |t|] == t;
    assert s[|pre| + 4 + |t|] == 0;
  }

  lemma U32sRoundTrip(v: seq<u32>, pre: seq<byte>, post: seq<byte>)
    ensures RdU32s(pre + U32sBytes(v) + post, |pre|, |v|) == v
    decreases |v|
  {
    if v != [] {
      var s := pre + U32sBytes(v) + post;
      assert s == pre + U32Bytes(v[0]) + (U32sBytes(v[1..]) + post);
      U32RoundTrip(v[0], pre, U32sBytes(v[1..]) + post);
      assert s == (pre + U32Bytes(v[0])) + U32sBytes(v[1..]) + post;
      U32sRoundTrip(v[1..], pre + U32Bytes(v[0]), post);
    }
  }

  /** One step of the signature walk: a field that is there, then the rest. */
  lemma SigSizeCons(sig: seq<Field>, s: seq<byte>, i: nat, n: nat, m: nat)
    requires i <= |s| && sig != []
    requires FieldSize(sig[0], s, i) == Some(n) && SigSize(sig[1..], s, i + n) == Some(m)
    ensures SigSize(sig, s, i) == Some(n + m)
  {
  }

  /** Two 16-bit fields, as in a point, offset or size. */
  lemma SigSizePair(sig: seq<Field>, s: seq<byte>, i: nat)
    requires |sig| == 2 && sig[0] in {FI16, FU16} && sig[1] in {FI16, FU16}
    requires i + 4 <= |s|
    ensures SigSize(sig, s, i) == Some(4)
  {
    assert sig[1..][1..] == [];
    assert SigSize(sig[1..][1..], s, i + 4) == Some(0);
    SigSizeCons(sig[1..], s, i + 2, 2, 0);
    SigSizeCons(sig, s, i, 2, 2);
  }

  /** A call whose arguments are two 16-bit fields passes the base checker. */
  lemma PairCallValidates(c: Call)
    requires c.DrawMoveTo? || c.DrawMoveBy? || c.DrawLine? || c.DrawBox? || c.DrawBar? || c.DrawPanel?
    ensures ValidateCmd(Opcode(c), Args(c)) == |Args(c)|
  {
    SigSizePair(Signature(Opcode(c)), Args(c), 0);
  }

  lemma TextCallValidates(t: seq<byte>, ha: nat, va: nat)
    requires Writable(DrawText(t, ha, va)) && Fits(DrawText(t, ha, va))
    ensures ValidateCmd(CmdText, Args(DrawText(t, ha, va))) == |Args(DrawText(t, ha, va))|
  {
    var a := StrBytes(t);
    var sig := Signature(CmdText);
    StrRoundTrip(t, [], []);
    assert a == [] + StrBytes(t) + [];
    assert sig[1..] == [];
    SigSizeCons(sig, a, 0, |a|, 0);
  }

  lemma EditTextCallValidates(t: seq<byte>, cp: u32, ha: nat, va: nat)
    requires Writable(DrawEditText(t, cp, ha, va)) && Fits(DrawEditText(t, cp, ha, va))
    ensures ValidateCmd(CmdEditText, Args(DrawEditText(t, cp, ha, va))) == |Args(DrawEditText(t, cp, ha, va))|
  {
    var a := U32Bytes(cp) + StrBytes(t);
    var sig := Signature(CmdEditText);
    assert a == U32Bytes(cp) + StrBytes(t) + [];
    StrRoundTrip(t, U32Bytes(cp), []);
    assert sig[1..] == [FStr] && sig[1..][1..] == [];
    SigSizeCons(sig[1..], a, 4, |a| - 4, 0);
    SigSizeCons(sig, a, 0, 4, |a| - 4);
  }

  lemma ViewportCallValidates(r: Rect)
    ensures ValidateCmd(CmdViewport, Args(DrawViewport(r))) == 8
  {
    var a := Args(DrawViewport(r));
    var sig := Signature(CmdViewport);
    SigSizePair(sig[2..], a, 4);
    assert sig[2..] == sig[1..][1..];
    SigSizeCons(sig[1..], a, 2, 2, 4);
    SigSizeCons(sig, a, 0, 2, 6);
  }

  lemma CharBarCallValidates(sz: Size, ch: u32)
    ensures ValidateCmd(CmdCharBar, Args(DrawCharBar(sz, ch))) == 8
  {
    var a := Args(DrawCharBar(sz, ch));
    var sig := Signature(CmdCharBar);
    assert sig[2..] == sig[1..][1..] && sig[2..][1..] == [];
    SigSizeCons(sig[2..], a, 4, 4, 0);
    SigSizeCons(sig[1..], a, 2, 2, 4);
    SigSizeCons(sig, a, 0, 2, 6);
  }

  lemma CharCallValidates(ch: u32, ha: nat, va: nat)
    requires ha < 4 && va < 4
    ensures ValidateCmd(CmdChar, Args(DrawChar(ch, ha, va))) == 4
  {
    var sig := Signature(CmdChar);
    assert sig[1..] == [];
    SigSizeCons(sig, Args(DrawChar(ch, ha, va)), 0, 4, 0);
  }

  /**
   * The base checker accepts the arguments of every base call that fits, and
   * the base validator accepts every byte a single base writer call produces.
   */
  lemma BaseCallValidates(c: Call)
    requires Writable(c) && Opcode(c) < CmdLast
    ensures Fits(c) ==> ValidateCmd(Opcode(c), Args(c)) == |Args(c)|
    ensures Validate(Encode(c)) == |Encode(c)|
  {
    if Fits(c) {
      BaseArgsValidate(c);
      var f := Encode(c);
      assert f[FrameLen(f)..] == [];
    }
  }

  lemma BaseArgsValidate(c: Call)
    requires Writable(c) && Fits(c) && Opcode(c) < CmdLast
    ensures ValidateCmd(Opcode(c), Args(c)) == |Args(c)|
  {
    match c
    case DrawText(t, ha, va) => TextCallValidates(t, ha, va);
    case DrawEditText(t, cp, ha, va) => EditTextCallValidates(t, cp, ha, va);
    case DrawViewport(r) => ViewportCallValidates(r);
    case DrawCharBar(sz, ch) => CharBarCallValidates(sz, ch);
    case DrawChar(ch, ha, va) => CharCallValidates(ch, ha, va);
    case DrawMoveTo(_) => PairCallValidates(c);
    case DrawMoveBy(_) => PairCallValidates(c);
    case DrawLine(_) => PairCallValidates(c);
    case DrawBox(_) => PairCallValidates(c);
    case DrawBar(_) => PairCallValidates(c);
    case DrawPanel(_, _) => PairCallValidates(c);
    case _ =>
  }

  /** A point, offset or size written as two 16-bit fields reads back unchanged. */
  lemma PairRoundTrip(x: int, y: int, signed: bool, pre: seq<byte>, post: seq<byte>)
    requires if signed then -0x8000 <= x < 0x8000 && -0x8000 <= y < 0x8000 else 0 <= x < 0x1_0000 && 0 <= y < 0x1_0000
    ensures var s := pre + (if signed then I16Bytes(x) + I16Bytes(y) else U16Bytes(x) + U16Bytes(y)) + post;
      if signed then RdI16(s, |pre|) == x && RdI16(s, |pre| + 2) == y
      else Rd16(s, |pre|) == x && Rd16(s, |pre| + 2) == y
  {
    if signed {
      var xb, yb := I16Bytes(x), I16Bytes(y);
      assert pre + (xb + yb) + post == pre + xb + (yb + post) == (pre + xb) + yb + post;
      I16RoundTrip(x, pre, yb + post);
      I16RoundTrip(y, pre + xb, post);
    } else {
      var xb, yb := U16Bytes(x), U16Bytes(y);
      assert pre + (xb + yb) + post == pre + xb + (yb + post) == (pre + xb) + yb + post;
      U16RoundTrip(x, pre, yb + post);
      U16RoundTrip(y, pre + xb, post);
    }
  }

  lemma MoveCallDispatches(c: Call)
    requires c.DrawMoveTo? || c.DrawMoveBy? || c.DrawLine?
    ensures DispatchCmd(Opcode(c), A1(c), Args(c)) == [c]
  {
    var a := Args(c);
    assert a == [] + a + [];
    if c.DrawMoveTo? {
      PairRoundTrip(c.p.x, c.p.y, true, [], []);
    } else {
      PairRoundTrip(c.o.dx, c.o.dy, true, [], []);
    }
  }

  lemma SizeCallDispatches(c: Call)
    requires c.DrawBox? || c.DrawBar? || c.DrawPanel?
    ensures DispatchCmd(Opcode(c), A1(c), Args(c)) == [c]
  {
    var a := Args(c);
    assert a == [] + a + [];
    PairRoundTrip(c.sz.w, c.sz.h, false, [], []);
  }

  lemma ViewportCallDispatches(r: Rect)
    ensures DispatchCmd(CmdViewport, 0, Args(DrawViewport(r))) == [DrawViewport(r)]
  {
    var a := Args(DrawViewport(r));
    PairRoundTrip(r.x, r.y, true, [], SizeBytes(Size(r.w, r.h)));
    PairRoundTrip(r.w, r.h, false, PointBytes(Point(r.x, r.y)), []);
    assert a == [] + PointBytes(Point(r.x, r.y)) + SizeBytes(Size(r.w, r.h));
    assert a == PointBytes(Point(r.x, r.y)) + SizeBytes(Size(r.w, r.h)) + [];
  }

  lemma CharBarCallDispatches(sz: Size, ch: u32)
    ensures DispatchCmd(CmdCharBar, 0, Args(DrawCharBar(sz, ch))) == [DrawCharBar(sz, ch)]
  {
    var a := Args(DrawCharBar(sz, ch));
    PairRoundTrip(sz.w, sz.h, false, [], U32Bytes(ch));
    U32RoundTrip(ch, SizeBytes(sz), []);
    assert a == [] + SizeBytes(sz) + U32Bytes(ch) == SizeBytes(sz) + U32Bytes(ch) + [];
  }

  lemma CharCallDispatches(ch: u32, ha: nat, va: nat)
    requires ha < 4 && va < 4
    ensures DispatchCmd(CmdChar, PackAlignment(ha, va), Args(DrawChar(ch, ha, va))) == [DrawChar(ch, ha, va)]
  {
    U32RoundTrip(ch, [], []);
    assert U32Bytes(ch) == [] + U32Bytes(ch) + [];
    PackAlignmentRoundTrip(ha, va);
  }

  lemma TextCallDispatches(t: seq<byte>, ha: nat, va: nat)
    requires Writable(DrawText(t, ha, va)) && Fits(DrawText(t, ha, va))
    ensures DispatchCmd(CmdText, PackAlignment(ha, va), Args(DrawText(t, ha, va))) == [DrawText(t, ha, va)]
  {
    StrRoundTrip(t, [], []);
    assert StrBytes(t) == [] + StrBytes(t) + [];
    PackAlignmentRoundTrip(ha, va);
  }

  lemma EditTextCallDispatches(t: seq<byte>, cp: u32, ha: nat, va: nat)
    requires Writable(DrawEditText(t, cp, ha, va)) && Fits(DrawEditText(t, cp, ha, va))
    ensures DispatchCmd(CmdEditText, PackAlignment(ha, va), Args(DrawEditText(t, cp, ha, va)))
         == [DrawEditText(t, cp, ha, va)]
  {
    var a := Args(DrawEditText(t, cp, ha, va));
    assert a == U32Bytes(cp) + StrBytes(t);
    assert a == [] + U32Bytes(cp) + StrBytes(t);
    U32RoundTrip(cp, [], StrBytes(t));
    assert a == U32Bytes(cp) + StrBytes(t) + [];
    StrRoundTrip(t, U32Bytes(cp), []);
    PackAlignmentRoundTrip(ha, va);
    var a1 := PackAlignment(ha, va);
    assert DispatchCmd(CmdEditText, a1, a) == [DrawEditText(RdStr(a, 4), Rd32(a, 0), a1 % 4, a1 / 4)];
  }

  /**
   * The base dispatcher turns the encoding of every base call that fits back
   * into that call; a call that does not fit left nothing to dispatch.
   */
  lemma BaseCallDispatches(c: Call)
    requires Writable(c) && Opcode(c) < CmdLast
    ensures Fits(c) ==> DispatchCmd(Opcode(c), A1(c), Args(c)) == [c]
    ensures Dispatch(Encode(c)) == if Fits(c) then [c] else []
  {
    if Fits(c) {
      BaseArgsDispatch(c);
      var f := Encode(c);
      assert f[FrameLen(f)..] == [];
      assert DispatchCmd(f[0], f[1], FrameArgs(f)) == [c];
      assert DispatchWith(f[FrameLen(f)..], DispatchCmd) == [];
    }
  }

  lemma BaseArgsDispatch(c: Call)
    requires Writable(c) && Fits(c) && Opcode(c) < CmdLast
    ensures DispatchCmd(Opcode(c), A1(c), Args(c)) == [c]
  {
    match c
    case DrawMoveTo(_) => MoveCallDispatches(c);
    case DrawMoveBy(_) => MoveCallDispatches(c);
    case DrawLine(_) => MoveCallDispatches(c);
    case DrawBox(_) => SizeCallDispatches(c);
    case DrawBar(_) => SizeCallDispatches(c);
    case DrawPanel(_, _) => SizeCallDispatches(c);
    case DrawViewport(r) => ViewportCallDispatches(r);
    case DrawCharBar(sz, ch) => CharBarCallDispatches(sz, ch);
    case DrawChar(ch, ha, va) => CharCallDispatches(ch, ha, va);
    case DrawText(t, ha, va) => TextCallDispatches(t, ha, va);
    case DrawEditText(t, cp, ha, va) => EditTextCallDispatches(t, cp, ha, va);
    case _ =>
  }

  lemma SetColorRoundTrip(i: byte, rgb: u32)
    ensures GraphicValidateCmd(CmdDefineColor, Args(DrawSetColor(i, rgb))) == 4
    ensures GraphicDispatchCmd(CmdDefineColor, i, Args(DrawSetColor(i, rgb))) == [DrawSetColor(i, rgb)]
  {
    var a := U32Bytes(rgb);
    var sig := GraphicSignature(CmdDefineColor);
    U32RoundTrip(rgb, [], []);
    assert a == [] + a + [];
    assert sig[1..] == [];
    SigSizeCons(sig, a, 0, 4, 0);
  }

  lemma PaletteRoundTrip(f: byte, colors: seq<u32>)
    requires |colors| + f <= 0xFF
    ensures GraphicValidateCmd(CmdPalette, Args(DrawPalette(f, colors))) == |Args(DrawPalette(f, colors))|
    ensures GraphicDispatchCmd(CmdPalette, f, Args(DrawPalette(f, colors))) == [DrawPalette(f, colors)]
  {
    var a := ArrU32Bytes(colors);
    var sig := GraphicSignature(CmdPalette);
    U32RoundTrip(|colors|, [], U32sBytes(colors));
    assert a == [] + U32Bytes(|colors|) + U32sBytes(colors);
    assert a == U32Bytes(|colors|) + U32sBytes(colors) + [];
    U32sRoundTrip(colors, U32Bytes(|colors|), []);
    assert sig[1..] == [];
    SigSizeCons(sig, a, 0, |a|, 0);
  }

  lemma Palette3RoundTrip(f: byte, rays: seq<byte>)
    requires |rays| % 3 == 0 && |rays| / 3 + f <= 0xFF
    ensures GraphicValidateCmd(CmdPalette3, Args(DrawPalette3(f, rays))) == |Args(DrawPalette3(f, rays))|
    ensures GraphicDispatchCmd(CmdPalette3, f, Args(DrawPalette3(f, rays))) == [DrawPalette3(f, rays)]
  {
    var a := ArrU8Bytes(rays);
    var sig := GraphicSignature(CmdPalette3);
    U32RoundTrip(|rays|, [], rays + Zeros(Pad4(|rays|)));
    assert a == [] + U32Bytes(|rays|) + (rays + Zeros(Pad4(|rays|)));
    assert a[4..4 + |rays|] == rays;
    assert sig[1..] == [];
    SigSizeCons(sig, a, 0, |a|, 0);
  }

  /** Each writable graphic call fits, is accepted by the graphic checker and is dispatched back to itself. */
  lemma GraphicCallRoundTrip(c: Call)
    requires Writable(c) && CmdLast <= Opcode(c)
    ensures Fits(c)
    ensures GraphicValidateCmd(Opcode(c), Args(c)) == |Args(c)|
    ensures GraphicDispatchCmd(Opcode(c), A1(c), Args(c)) == [c]
  {
    match c
    case DrawSetColor(i, rgb) => SetColorRoundTrip(i, rgb);
    case DrawPalette(f, colors) => PaletteRoundTrip(f, colors);
    case DrawPalette3(f, rays) => Palette3RoundTrip(f, rays);
  }

  /** One encoded call is a single whole frame. */
  lemma EncodeFramed(c: Call)
    requires Writable(c)
    ensures Framed(Encode(c))
  {
    if Fits(c) {
      var f := Encode(c);
      assert f[FrameLen(f)..] == [];
    }
  }

  /**
   * Writing any sequence of base calls, validating and dispatching the result
   * reproduces the calls that fit, in order, and validation accepts every byte.
   */
  lemma {:induction false} WriteValidateDispatch(cs: seq<Call>)
    requires forall i :: 0 <= i < |cs| ==> Writable(cs[i]) && Opcode(cs[i]) < CmdLast
    ensures Validate(EncodeAll(cs)) == |EncodeAll(cs)|
    ensures Dispatch(EncodeAll(cs)) == Kept(cs)
    ensures Framed(EncodeAll(cs))
    decreases |cs|
  {
    if cs != [] {
      WriteValidateDispatch(cs[1..]);
      WriteStep(cs);
    }
  }

  /** The step of `WriteValidateDispatch`: what holds for the stream of the later calls holds with the first call in front. */
  lemma WriteStep(cs: seq<Call>)
    requires cs != [] && forall i :: 0 <= i < |cs| ==> Writable(cs[i]) && Opcode(cs[i]) < CmdLast
    requires var rest := EncodeAll(cs[1..]);
      Validate(rest) == |rest| && Dispatch(rest) == Kept(cs[1..]) && Framed(rest)
    ensures Validate(EncodeAll(cs)) == |EncodeAll(cs)|
    ensures Dispatch(EncodeAll(cs)) == Kept(cs)
    ensures Framed(EncodeAll(cs))
  {
    var c, tail := cs[0], cs[1..];
    var f, rest := Encode(c), EncodeAll(tail);
    assert EncodeAll(cs) == f + rest;
    if Fits(c) {
      WriteOneThenRest(c, rest);
      assert Kept(cs) == [c] + Kept(tail);
    } else {
      assert f + rest == rest;
      assert Kept(cs) == Kept(tail);
    }
  }

  /** One written base call in front of a valid stream is validated and dispatched with it. */
  lemma WriteOneThenRest(c: Call, rest: seq<byte>)
    requires Writable(c) && Opcode(c) < CmdLast && Fits(c)
    requires Validate(rest) == |rest| && Framed(rest)
    ensures Validate(Encode(c) + rest) == |Encode(c) + rest|
    ensures Dispatch(Encode(c) + rest) == [c] + Dispatch(rest)
    ensures Framed(Encode(c) + rest)
  {
    var f := Encode(c);
    BaseCallValidates(c);
    BaseCallDispatches(c);
    assert f[FrameLen(f)..] == [];
    assert Accepted(f, ValidateCmd);
    EncodeFramed(c);
    ValidateAppend(f, rest, ValidateCmd);
    DispatchAppend(f, rest, DispatchCmd);
    FramedAppend(f, rest);
  }

  /** Whole-command streams concatenate to a whole-command stream. */
  lemma {:induction false} FramedAppend(a: seq<byte>, b: seq<byte>)
    requires Framed(a) && Framed(b)
    ensures Framed(a + b)
    decreases |a|
  {
    if |a| == 0 {
      assert a + b == b;
    } else {
      var n := FrameLen(a);
      AppendKeepsFrame(a, b);
      FramedAppend(a[n..], b);
    }
  }

  /** The same round trip for the graphic writer, validator and dispatcher. */
  lemma {:induction false} GraphicWriteValidateDispatch(cs: seq<Call>)
    requires forall i :: 0 <= i < |cs| ==> Writable(cs[i])
    ensures ValidateWith(EncodeAll(cs), GraphicValidateCmd) == |EncodeAll(cs)|
    ensures DispatchGraphic(EncodeAll(cs)) == Kept(cs)
    decreases |cs|
  {
    if cs != [] {
      GraphicWriteValidateDispatch(cs[1..]);
      GraphicWriteStep(cs);
    }
  }

  /** The step of `GraphicWriteValidateDispatch`. */
  lemma GraphicWriteStep(cs: seq<Call>)
    requires cs != [] && forall i :: 0 <= i < |cs| ==> Writable(cs[i])
    requires var rest := EncodeAll(cs[1..]);
      ValidateWith(rest, GraphicValidateCmd) == |rest| && DispatchGraphic(rest) == Kept(cs[1..])
    ensures ValidateWith(EncodeAll(cs), GraphicValidateCmd) == |EncodeAll(cs)|
    ensures DispatchGraphic(EncodeAll(cs)) == Kept(cs)
  {
    var c, tail := cs[0], cs[1..];
    var f, rest := Encode(c), EncodeAll(tail);
    assert EncodeAll(cs) == f + rest;
    if Fits(c) {
      GraphicWriteOneThenRest(c, rest);
      assert Kept(cs) == [c] + Kept(tail);
    } else {
      assert f + rest == rest;
      assert Kept(cs) == Kept(tail);
    }
  }

  /** One written call in front of a stream the graphic validator accepts is validated and dispatched with it. */
  lemma GraphicWriteOneThenRest(c: Call, rest: seq<byte>)
    requires Writable(c) && Fits(c)
    requires ValidateWith(rest, GraphicValidateCmd) == |rest|
    ensures ValidateWith(Encode(c) + rest, GraphicValidateCmd) == |Encode(c) + rest|
    ensures DispatchGraphic(Encode(c) + rest) == [c] + DispatchGraphic(rest)
  {
    var f := Encode(c);
    GraphicEncodeRoundTrip(c);
    EncodeFramed(c);
    ValidateAppend(f, rest, GraphicValidateCmd);
    DispatchAppend(f, rest, GraphicDispatchCmd);
  }

  /**
   * One written call, base or graphic, is accepted whole and dispatched back
   * by the graphic drawlist; a call that does not fit leaves nothing.
   */
  lemma GraphicEncodeRoundTrip(c: Call)
    requires Writable(c)
    ensures Accepted(Encode(c), GraphicValidateCmd)
    ensures DispatchGraphic(Encode(c)) == if Fits(c) then [c] else []
  {
    var f := Encode(c);
    if Fits(c) {
      if Opcode(c) < CmdLast {
        BaseArgsValidate(c);
        BaseArgsDispatch(c);
      } else {
        GraphicCallRoundTrip(c);
      }
      assert f[FrameLen(f)..] == [];
      assert GraphicDispatchCmd(f[0], f[1], FrameArgs(f)) == [c];
      assert DispatchWith(f[FrameLen(f)..], GraphicDispatchCmd) == [];
    }
  }

  //}}}
  //{{{ The graphic validator's opcode wrap

  /** A Text command that declares a 100-byte string but carries only its length word. */
  const ShortText: seq<byte> := [CmdText, 0, 1, 0, 100, 0, 0, 0]

  /**
   * As written, the graphic validator accepts the whole short Text command
   * that the base validator rejects, so dispatch would read a string past
   * its payload; the corrected graphic validator rejects it too.
   */
  lemma GraphicValidateAcceptsShortText()
    ensures HasFrame(ShortText) && FrameLen(ShortText) == |ShortText|
    ensures GraphicValidateCmdAsWritten(ShortText[0], FrameArgs(ShortText)) == Some(ArgBytes(ShortText))
    ensures Validate(ShortText) == 0
    ensures ValidateWith(ShortText, GraphicValidateCmd) == 0
    ensures 4 + Rd32(FrameArgs(ShortText), 0) > |FrameArgs(ShortText)|
  {
    assert HasFrame(ShortText) && FrameLen(ShortText) == 8;
    assert FrameArgs(ShortText) == [100, 0, 0, 0];
    assert U32At(FrameArgs(ShortText), 0) == 100;
  }

  /** With base opcodes handed to the base checker, the graphic validator agrees with it on base streams. */
  lemma {:induction false} GraphicValidateAgreesOnBase(s: seq<byte>)
    requires AllKnown(s)
    ensures ValidateWith(s, GraphicValidateCmd) == Validate(s)
    decreases |s|
  {
    if HasFrame(s) {
      GraphicValidateAgreesOnBase(s[FrameLen(s)..]);
    }
  }

  //}}}
}
