/**
 * The UTF-8 coding the terminal code relies on (cwiclo's `utf8::out`,
 * `utf8::in`, `utf8::ibytes` and the string's character iterator). That
 * library is not part of this model; it is written here as the original,
 * unrestricted UTF-8 scheme: a lead byte whose count of leading one-bits
 * gives the sequence length, then six payload bits per continuation byte,
 * which covers every 32-bit character with at most seven bytes.
 */
module Utf8 {
  import opened Ints

  /** 64^k, the weight of `k` continuation bytes. */
  function Pow64(k: nat): (p: nat)
    ensures p >= 1
  {
    if k == 0 then 1 else 64 * Pow64(k - 1)
  }

  /** The lead-byte marker of an `n`-byte sequence: `n` one-bits then a zero. */
  function LeadMark(n: nat): byte
    requires 2 <= n <= 8
  {
    if n == 2 then 0xC0 else if n == 3 then 0xE0 else if n == 4 then 0xF0
    else if n == 5 then 0xF8 else if n == 6 then 0xFC else if n == 7 then 0xFE else 0xFF
  }

  /** `utf8::ibytes`: sequence length announced by a lead byte; a stray continuation byte stands alone. */
  function SeqLen(lead: byte): (n: nat)
    ensures 1 <= n <= 8
    ensures n >= 2 ==> LeadMark(n) <= lead && (n == 8 || lead < LeadMark(n + 1))
    ensures n == 1 <==> lead < 0xC0
  {
    if lead < 0xC0 then 1 else if lead < 0xE0 then 2 else if lead < 0xF0 then 3
    else if lead < 0xF8 then 4 else if lead < 0xFC then 5 else if lead < 0xFE then 6
    else if lead < 0xFF then 7 else 8
  }

  /** Number of bytes `Encode` uses for a character. */
  function EncodedLen(v: u32): (n: nat)
    ensures 1 <= n <= 7
    ensures n == 1 <==> v < 0x80
  {
    if v < 0x80 then 1 else if v < 0x800 then 2 else if v < 0x1_0000 then 3
    else if v < 0x20_0000 then 4 else if v < 0x400_0000 then 5
    else if v < 0x8000_0000 then 6 else 7
  }

  /** `v` without its `k` low six-bit groups. */
  function High(v: nat, k: nat): nat
  {
    if k == 0 then v else High(v / 64, k - 1)
  }

  /** The value of the `k` low six-bit groups of `v`. */
  function Low(v: nat, k: nat): nat
  {
    if k == 0 then 0 else Low(v / 64, k - 1) * 64 + v % 64
  }

  /** A number is its high part above `k` six-bit groups plus its low part. */
  lemma {:induction false} HighLowSplit(v: nat, k: nat)
    ensures v == High(v, k) * Pow64(k) + Low(v, k)
  {
    if k > 0 {
      var u := v / 64;
      HighLowSplit(u, k - 1);
      var h, p, l := High(u, k - 1), Pow64(k - 1), Low(u, k - 1);
      assert High(v, k) == h && Pow64(k) == 64 * p && Low(v, k) == l * 64 + v % 64;
      ShiftGroup(v, h, p, l);
    }
  }

  /** One more six-bit group below a split `v / 64 == h * p + l`. */
  lemma ShiftGroup(v: nat, h: nat, p: nat, l: nat)
    requires v / 64 == h * p + l
    ensures v == h * (64 * p) + (l * 64 + v % 64)
  {
    var hp := h * p;
    assert h * (64 * p) == 64 * hp;
  }

  /** The `k` low six-bit groups of `v` as continuation bytes, most significant first. */
  function Conts(v: nat, k: nat): (r: seq<byte>)
    ensures |r| == k
    ensures forall i :: 0 <= i < k ==> 0x80 <= r[i] < 0xC0
  {
    if k == 0 then [] else Conts(v / 64, k - 1) + [0x80 + v % 64]
  }

  /** `utf8::out` of one character. */
  function Encode(v: u32): (r: seq<byte>)
    ensures |r| == EncodedLen(v) && SeqLen(r[0]) == |r|
    ensures v < 0x80 ==> r == [v]
  {
    var n := EncodedLen(v);
    if n == 1 then [v]
    else
      LeadInRange(v);
      [LeadMark(n) + High(v, n - 1)] + Conts(v, n - 1)
  }

  /** The lead byte of a multi-byte encoding stays inside its length class. */
  lemma LeadInRange(v: u32)
    requires EncodedLen(v) >= 2
    ensures var n := EncodedLen(v);
      LeadMark(n) + High(v, n - 1) < (if n == 7 then 0xFF else LeadMark(n + 1))
  {
    var n := EncodedLen(v);
    var a := v / 64;
    var b := a / 64;
    var c := b / 64;
    var d := c / 64;
    var e := d / 64;
    var f := e / 64;
    assert High(v, 1) == a;
    assert High(a, 1) == b && High(v, 2) == b;
    assert High(b, 1) == c && High(a, 2) == c && High(v, 3) == c;
    assert High(c, 1) == d && High(b, 2) == d && High(a, 3) == d && High(v, 4) == d;
    assert High(d, 1) == e && High(c, 2) == e && High(b, 3) == e && High(a, 4) == e && High(v, 5) == e;
    assert High(e, 1) == f && High(d, 2) == f && High(c, 3) == f && High(b, 4) == f && High(a, 5) == f;
    assert High(v, 6) == f;
  }

  /** The continuation bytes from offset `i`, six bits each, under the high part `acc`. */
  function DecodeCont(acc: nat, s: seq<byte>, i: nat, k: nat): nat
    requires i + k <= |s|
    decreases k
  {
    if k == 0 then acc else DecodeCont(acc, s, i, k - 1) * 64 + s[i + k - 1] % 64
  }

  /** `utf8::in`: the character whose sequence starts at `i`, stored in a 32-bit `char32_t`. */
  function DecodeAt(s: seq<byte>, i: nat): u32
    requires i < |s| && i + SeqLen(s[i]) <= |s|
  {
    var n := SeqLen(s[i]);
    if n == 1 then s[i] else WrapU32(DecodeCont(s[i] - LeadMark(n), s, i + 1, n - 1))
  }

  /** The string's character iterator: one character per sequence; an incomplete tail yields none. */
  function DecodeAll(s: seq<byte>): (r: seq<u32>)
    ensures |r| <= |s|
    decreases |s|
  {
    if s == [] || SeqLen(s[0]) > |s| then []
    else [DecodeAt(s, 0)] + DecodeAll(s[SeqLen(s[0])..])
  }

  /** Decoding `k` continuation bytes written by `Conts` recovers the low `6k` bits. */
  lemma {:induction false} ContsRoundTrip(acc: nat, v: nat, k: nat, pre: seq<byte>, post: seq<byte>)
    ensures DecodeCont(acc, pre + Conts(v, k) + post, |pre|, k) == acc * Pow64(k) + Low(v, k)
    decreases k
  {
    if k > 0 {
      var last := [0x80 + v % 64];
      var s := pre + Conts(v, k) + post;
      var c := Conts(v / 64, k - 1);
      assert Conts(v, k) == c + last;
      assert s == pre + c + (last + post) by {
        assert pre + (c + last) + post == pre + c + (last + post);
      }
      ContsRoundTrip(acc, v / 64, k - 1, pre, last + post);
      assert s[|pre| + k - 1] == 0x80 + v % 64;
      var p, l := Pow64(k - 1), Low(v / 64, k - 1);
      var d := DecodeCont(acc, s, |pre|, k - 1);
      assert d == acc * p + l;
      assert DecodeCont(acc, s, |pre|, k) == d * 64 + v % 64;
      assert Pow64(k) == 64 * p && Low(v, k) == l * 64 + v % 64;
      AppendGroup(acc, p, l, v % 64);
    }
  }

  /** Shifting a split value up by one six-bit group. */
  lemma AppendGroup(acc: nat, p: nat, l: nat, r: nat)
    ensures (acc * p + l) * 64 + r == acc * (64 * p) + (l * 64 + r)
  {
    var ap := acc * p;
    assert acc * (64 * p) == 64 * ap;
  }

  /** Decoding an encoded character gives it back and consumes exactly its bytes. */
  lemma EncodeRoundTrip(v: u32, pre: seq<byte>, post: seq<byte>)
    ensures var s := pre + Encode(v) + post;
      SeqLen(s[|pre|]) == |Encode(v)| && DecodeAt(s, |pre|) == v
  {
    var e := Encode(v);
    var s := pre + e + post;
    var n := EncodedLen(v);
    assert s[|pre|] == e[0];
    if n >= 2 {
      assert e == [e[0]] + Conts(v, n - 1);
      assert s == (pre + [e[0]]) + Conts(v, n - 1) + post;
      ContsRoundTrip(High(v, n - 1), v, n - 1, pre + [e[0]], post);
      HighLowSplit(v, n - 1);
    }
  }

  /** Decoding a concatenation of encodings gives the characters back. */
  lemma {:induction false} EncodeAllRoundTrip(vs: seq<u32>)
    ensures DecodeAll(EncodeAll(vs)) == vs
    decreases |vs|
  {
    if vs != [] {
      var e := Encode(vs[0]);
      var s := EncodeAll(vs);
      assert s == [] + e + EncodeAll(vs[1..]);
      EncodeRoundTrip(vs[0], [], EncodeAll(vs[1..]));
      assert s[|e|..] == EncodeAll(vs[1..]);
      EncodeAllRoundTrip(vs[1..]);
    }
  }

  function EncodeAll(vs: seq<u32>): (r: seq<byte>)
    ensures |r| >= |vs|
  {
    if vs == [] then [] else Encode(vs[0]) + EncodeAll(vs[1..])
  }

  /** Plain ASCII is its own encoding. */
  lemma {:induction false} AsciiDecodesToItself(s: seq<byte>)
    requires forall i :: 0 <= i < |s| ==> s[i] < 0x80
    ensures DecodeAll(s) == s
    decreases |s|
  {
    if s != [] {
      AsciiDecodesToItself(s[1..]);
    }
  }
}
