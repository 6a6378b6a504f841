/**
 * The terminal input decoder: bytes read from the terminal become key
 * codes for the topmost window. Each step decodes one UTF-8 character,
 * maps control bytes to keys, and resolves an ESC either to a known escape
 * sequence, to Alt plus a printable character, or to the Escape key.
 * Decoding stops at a character whose bytes have not all arrived, keeping
 * them for the next read, and at an unknown escape sequence when the read
 * filled the buffer and more bytes may follow. In that second case the
 * loop has already skipped the ESC, so only the bytes after it are kept;
 * `ParseFromCorrected` keeps the ESC too.
 */
module InputDecoder {
  import opened Ints
  import opened Wrappers
  import opened UiDefs
  import Utf8

  //{{{ Modifiers

  /** The Ctrl and Alt modifier bits, as numbers. */
  const ModCtrl: u32 := 0x200_0000
  const ModAlt: u32 := 0x400_0000

  lemma ModifiersAgree()
    ensures ModCtrl == KModCtrl as int && ModAlt == KModAlt as int
  {
  }

  //}}}
  //{{{ Escape sequences

  /** One entry of the escape-sequence table: the bytes after ESC and the key they stand for. */
  datatype EscSeq = EscSeq(s: string, k: byte)

  const TableSize: nat := 50

  /** Entry `j` of `c_seq`, the escape-sequence table, in table order. */
  function Entry(j: nat): EscSeq
    requires j < TableSize
  {
    match j
    case 0 => EscSeq("O2P", KeyPrint)
    case 1 => EscSeq("O2Q", KeyBreak)
    case 2 => EscSeq("OA", KeyUp)
    case 3 => EscSeq("OB", KeyDown)
    case 4 => EscSeq("OC", KeyRight)
    case 5 => EscSeq("OD", KeyLeft)
    case 6 => EscSeq("OE", KeyCenter)
    case 7 => EscSeq("OF", KeyEnd)
    case 8 => EscSeq("OH", KeyHome)
    case 9 => EscSeq("OP", KeyF1)
    case 10 => EscSeq("OQ", KeyF2)
    case 11 => EscSeq("OR", KeyF3)
    case 12 => EscSeq("OS", KeyF4)
    case 13 => EscSeq("Ou", KeyCenter)
    case 14 => EscSeq("[11~", KeyF1)
    case 15 => EscSeq("[12~", KeyF2)
    case 16 => EscSeq("[13~", KeyF3)
    case 17 => EscSeq("[14~", KeyF4)
    case 18 => EscSeq("[15~", KeyF5)
    case 19 => EscSeq("[17~", KeyF6)
    case 20 => EscSeq("[18~", KeyF7)
    case 21 => EscSeq("[19~", KeyF8)
    case 22 => EscSeq("[1~", KeyHome)
    case 23 => EscSeq("[20~", KeyF9)
    case 24 => EscSeq("[21~", KeyF10)
    case 25 => EscSeq("[23~", KeyF11)
    case 26 => EscSeq("[24~", KeyF12)
    case 27 => EscSeq("[2~", KeyInsert)
    case 28 => EscSeq("[3~", KeyDelete)
    case 29 => EscSeq("[4~", KeyEnd)
    case 30 => EscSeq("[5~", KeyPageUp)
    case 31 => EscSeq("[6~", KeyPageDown)
    case 32 => EscSeq("[7~", KeyHome)
    case 33 => EscSeq("[8~", KeyEnd)
    case 34 => EscSeq("[<", KeyWheel)
    case 35 => EscSeq("[A", KeyUp)
    case 36 => EscSeq("[B", KeyDown)
    case 37 => EscSeq("[C", KeyRight)
    case 38 => EscSeq("[D", KeyLeft)
    case 39 => EscSeq("[E", KeyCenter)
    case 40 => EscSeq("[F", KeyEnd)
    case 41 => EscSeq("[G", KeyCenter)
    case 42 => EscSeq("[H", KeyHome)
    case 43 => EscSeq("[M", KeyWheel)
    case 44 => EscSeq("[P", KeyBreak)
    case 45 => EscSeq("[[A", KeyF1)
    case 46 => EscSeq("[[B", KeyF2)
    case 47 => EscSeq("[[C", KeyF3)
    case 48 => EscSeq("[[D", KeyF4)
    case _ => EscSeq("[[E", KeyF5)
  }

  /** Every table string is 2 to 4 bytes long. */
  lemma TableShape(j: nat)
    requires j < TableSize
    ensures 2 <= |Entry(j).s| <= 4
  {
  }

  /** No entry before `[A` starts with `[A`. */
  lemma NotBracketA(j: nat)
    requires j < 35
    ensures |Entry(j).s| >= 2 && (Entry(j).s[0] != '[' || Entry(j).s[1] != 'A')
  {
  }

  /** The whole of `e` is a prefix of `buf`. */
  predicate Matches(e: string, buf: seq<byte>)
  {
    |e| <= |buf| && forall i :: 0 <= i < |e| ==> e[i] as int == buf[i]
  }

  /** The first table entry from `from` on that matches `buf`. */
  function FirstMatch(buf: seq<byte>, from: nat): (r: Option<nat>)
    requires from <= TableSize
    ensures r.Some? ==> (from <= r.value < TableSize && Matches(Entry(r.value).s, buf) &&
      forall j :: from <= j < r.value ==> !Matches(Entry(j).s, buf))
    ensures r.None? ==> forall j :: from <= j < TableSize ==> !Matches(Entry(j).s, buf)
    decreases TableSize - from
  {
    if from == TableSize then None
    else if Matches(Entry(from).s, buf) then Some(from)
    else FirstMatch(buf, from + 1)
  }

  /** The inner loop of `match_escape_sequence`: `e` byte by byte; a byte past the end of the input fails. */
  method IsPrefix(e: string, buf: seq<byte>) returns (ok: bool)
    ensures ok <==> Matches(e, buf)
  {
    var i := 0;
    while i < |e|
      invariant 0 <= i <= |e| && i <= |buf|
      invariant forall m :: 0 <= m < i ==> e[m] as int == buf[m]
    {
      if i >= |buf| || e[i] as int != buf[i] {
        return false;
      }
      i := i + 1;
    }
    return true;
  }

  /** `match_escape_sequence`: the first table entry, in table order, that is a prefix of the input. */
  method MatchEscapeSequence(buf: seq<byte>) returns (r: Option<nat>)
    ensures r.Some? ==> (r.value < TableSize && Matches(Entry(r.value).s, buf) &&
      forall j :: 0 <= j < r.value ==> !Matches(Entry(j).s, buf))
    ensures r.None? ==> forall j :: 0 <= j < TableSize ==> !Matches(Entry(j).s, buf)
    ensures r == FirstMatch(buf, 0)
  {
    var j := 0;
    while j < TableSize
      invariant 0 <= j <= TableSize
      invariant forall k :: 0 <= k < j ==> !Matches(Entry(k).s, buf)
      invariant FirstMatch(buf, 0) == FirstMatch(buf, j)
    {
      var ok := IsPrefix(Entry(j).s, buf);
      if ok {
        return Some(j);
      }
      j := j + 1;
    }
    return None;
  }

  /** An entry is the decoder's answer when it matches and no earlier entry does. */
  lemma FirstMatchIs(buf: seq<byte>, j: nat)
    requires j < TableSize && Matches(Entry(j).s, buf)
    requires forall k :: 0 <= k < j ==> !Matches(Entry(k).s, buf)
    ensures FirstMatch(buf, 0) == Some(j)
  {
  }

  //}}}
  //{{{ One key

  /** What one decoding step produced: a key and the bytes it used. */
  datatype KeyStep = KeyStep(key: u32, used: nat)

  /** The key for a character that is not ESC. */
  function CharKey(c: u32): u32
  {
    if c == 8 then KeyBackspace
    else if c == '\t' as int then KeyTab
    else if c == '\n' as int then KeyEnter
    else if c < 27 then ModCtrl + ('a' as int - 1 + c)
    else if c == 28 then KeyPrint
    else if c == 127 then KeyBackspace
    else c
  }

  /**
   * One iteration of `parse_keycodes`' loop on the bytes from the current
   * position; `None` when the loop stops there.
   * `full` says the read filled the input buffer.
   */
  function DecodeOne(buf: seq<byte>, full: bool): (r: Option<KeyStep>)
    requires |buf| > 0
    ensures r.Some? ==> 1 <= r.value.used <= |buf|
  {
    var cb := Utf8.SeqLen(buf[0]);
    if |buf| < cb then None
    else
      var c := Utf8.DecodeAt(buf, 0);
      if c != 27 then Some(KeyStep(CharKey(c), cb))
      else
        var after := buf[cb..];
        match FirstMatch(after, 0)
        case Some(j) => Some(KeyStep(Entry(j).k, cb + |Entry(j).s|))
        case None =>
          if full then None
          else if |after| > 0 && ' ' as int <= after[0] <= '~' as int then Some(KeyStep(ModAlt + after[0], cb + 1))
          else Some(KeyStep(KeyEscape, cb))
  }

  /** The decoder holds back exactly an incomplete character and, in a full buffer, an unknown escape. */
  lemma DecodeStops(buf: seq<byte>, full: bool)
    requires |buf| > 0
    ensures DecodeOne(buf, full).None? <==>
      |buf| < Utf8.SeqLen(buf[0]) ||
      (Utf8.DecodeAt(buf, 0) == 27 && full && FirstMatch(buf[Utf8.SeqLen(buf[0])..], 0).None?)
  {
  }

  /**
   * After ESC there are four outcomes: a table entry, its key and length;
   * in a full buffer, wait for more; Alt with a printable byte; or Escape.
   */
  lemma EscapeOutcomes(buf: seq<byte>, full: bool)
    requires |buf| > 0 && buf[0] == 27
    ensures var r := DecodeOne(buf, full); var m := FirstMatch(buf[1..], 0);
      (m.Some? ==> r == Some(KeyStep(Entry(m.value).k, 1 + |Entry(m.value).s|))) &&
      (m.None? && full ==> r.None?) &&
      (m.None? && !full && |buf| > 1 && ' ' as int <= buf[1] <= '~' as int ==> r == Some(KeyStep(ModAlt + buf[1], 2))) &&
      (m.None? && !full && !(|buf| > 1 && ' ' as int <= buf[1] <= '~' as int) ==> r == Some(KeyStep(KeyEscape, 1)))
  {
  }

  /** Control bytes 1-26 other than backspace, tab and newline are Ctrl plus the letter. */
  lemma CtrlLetters(b: byte)
    requires 1 <= b <= 26 && b != 8 && b != 9 && b != 10
    ensures var k := CharKey(b); k - ModCtrl == 'a' as int - 1 + b && 'a' as int <= k - ModCtrl <= 'z' as int
  {
  }

  //}}}
  //{{{ The loop

  /**
   * The bytes the loop has already skipped at the step where it stops:
   * none before an incomplete character; before an unknown escape sequence
   * in a full buffer, the ESC itself, which `is.skip` consumed before the
   * `break`, so the erase after the loop removes it with the decoded bytes.
   */
  function HeldSkip(buf: seq<byte>): (n: nat)
    requires |buf| > 0
    ensures n <= |buf|
    ensures n == 0 <==> |buf| < Utf8.SeqLen(buf[0])
  {
    if |buf| < Utf8.SeqLen(buf[0]) then 0 else Utf8.SeqLen(buf[0])
  }

  /** A suffix of what follows the first `n` bytes is a suffix of the whole buffer. */
  lemma SuffixOfRest(buf: seq<byte>, n: nat, rest: seq<byte>)
    requires n <= |buf| && |rest| <= |buf| - n && rest == buf[n..][|buf| - n - |rest|..]
    ensures rest == buf[|buf| - |rest|..]
  {
    assert buf[n..][|buf| - n - |rest|..] == buf[|buf| - |rest|..];
  }

  /** `parse_keycodes` from a position, as written: the keys produced and the bytes left in the buffer. */
  function ParseFrom(buf: seq<byte>, full: bool): (r: (seq<u32>, seq<byte>))
    ensures |r.1| <= |buf| && r.1 == buf[|buf| - |r.1|..]
    ensures |r.0| <= |buf| - |r.1|
    decreases |buf|
  {
    if buf == [] then ([], [])
    else match DecodeOne(buf, full)
      case None => ([], buf[HeldSkip(buf)..])
      case Some(st) =>
        var r := ParseFrom(buf[st.used..], full);
        SuffixOfRest(buf, st.used, r.1);
        ([st.key] + r.0, r.1)
  }

  /** The loop with a held escape left in the buffer, ESC included, for the next read to complete. */
  function ParseFromCorrected(buf: seq<byte>, full: bool): (r: (seq<u32>, seq<byte>))
    ensures |r.1| <= |buf| && r.1 == buf[|buf| - |r.1|..]
    ensures |r.0| <= |buf| - |r.1|
    decreases |buf|
  {
    if buf == [] then ([], [])
    else match DecodeOne(buf, full)
      case None => assert buf[0..] == buf; ([], buf)
      case Some(st) =>
        var r := ParseFromCorrected(buf[st.used..], full);
        SuffixOfRest(buf, st.used, r.1);
        ([st.key] + r.0, r.1)
  }

  /**
   * `parse_keycodes`: nothing is read while no window is mapped on top;
   * otherwise the keys go to the top window and the bytes the loop went
   * past leave the buffer.
   */
  function ParseKeycodes(buf: seq<byte>, full: bool, mapped: bool): (r: (seq<u32>, seq<byte>))
    ensures |r.1| <= |buf| && r.1 == buf[|buf| - |r.1|..]
    ensures !mapped ==> r == ([], buf)
    ensures mapped ==> r.0 == ParseFromCorrected(buf, full).0 && ParseStopped(buf, r.1, full)
  {
    if mapped then
      ParseStopsAtHold(buf, full);
      ParseKeysAgree(buf, full);
      ParseFrom(buf, full)
    else ([], buf)
  }

  /**
   * How the loop over `buf` can have left `rest`: nothing; an incomplete
   * character, kept whole; or, after a character that decodes to ESC in a
   * full buffer with no table entry matching what follows, just the bytes
   * after that character, the ESC itself gone.
   */
  predicate ParseStopped(buf: seq<byte>, rest: seq<byte>, full: bool)
    requires |rest| <= |buf|
  {
    rest == [] || |rest| < Utf8.SeqLen(rest[0]) ||
    exists p :: 0 <= p < |buf| - |rest| && EscHeldAt(buf[p..], rest, full)
  }

  /** `q` starts with a whole character that decodes to ESC, `rest` follows it, and the loop stops there in a full buffer. */
  predicate EscHeldAt(q: seq<byte>, rest: seq<byte>, full: bool)
  {
    |q| > 0 && Utf8.SeqLen(q[0]) <= |q| && Utf8.DecodeAt(q, 0) == 27 && full &&
    q[Utf8.SeqLen(q[0])..] == rest && FirstMatch(rest, 0).None?
  }

  /** Where decoding stops, both loops stop: as written past the held ESC, corrected in front of it. */
  lemma ParseStopStep(buf: seq<byte>, full: bool)
    requires buf != [] && DecodeOne(buf, full).None?
    ensures ParseFrom(buf, full) == ([], buf[HeldSkip(buf)..])
    ensures ParseFromCorrected(buf, full) == ([], buf)
  {
  }

  /** Where a step completes, both loops emit its key and go on after it. */
  lemma ParseKeyStep(buf: seq<byte>, full: bool)
    requires buf != [] && DecodeOne(buf, full).Some?
    ensures var st := DecodeOne(buf, full).value; var a := ParseFrom(buf[st.used..], full);
      var c := ParseFromCorrected(buf[st.used..], full);
      ParseFrom(buf, full) == ([st.key] + a.0, a.1) && ParseFromCorrected(buf, full) == ([st.key] + c.0, c.1)
  {
  }

  /** A stop past the first character is the held-escape case. */
  lemma StopIsHeld(buf: seq<byte>, full: bool)
    requires buf != [] && DecodeOne(buf, full).None? && HeldSkip(buf) > 0
    ensures ParseStopped(buf, buf[HeldSkip(buf)..], full)
  {
    DecodeStops(buf, full);
    assert buf[0..] == buf;
    assert EscHeldAt(buf[0..], buf[HeldSkip(buf)..], full);
  }

  /** A stop found in a suffix of `buf` is a stop of `buf`. */
  lemma StoppedShifts(buf: seq<byte>, n: nat, rest: seq<byte>, full: bool)
    requires n <= |buf| && |rest| <= |buf| - n && ParseStopped(buf[n..], rest, full)
    ensures ParseStopped(buf, rest, full)
  {
    var b2 := buf[n..];
    if rest != [] && !(|rest| < Utf8.SeqLen(rest[0])) {
      var p2 :| 0 <= p2 < |b2| - |rest| && EscHeldAt(b2[p2..], rest, full);
      assert b2[p2..] == buf[n + p2..];
    }
  }

  /** Whatever the loop leaves is where it stopped: nothing, an incomplete character, or what follows a lost ESC. */
  lemma {:induction false} ParseStopsAtHold(buf: seq<byte>, full: bool)
    ensures ParseStopped(buf, ParseFrom(buf, full).1, full)
    decreases |buf|
  {
    if buf != [] {
      if DecodeOne(buf, full).None? {
        ParseStopStep(buf, full);
        if HeldSkip(buf) > 0 {
          StopIsHeld(buf, full);
        }
      } else {
        ParseKeyStep(buf, full);
        var n := DecodeOne(buf, full).value.used;
        ParseStopsAtHold(buf[n..], full);
        StoppedShifts(buf, n, ParseFrom(buf[n..], full).1, full);
      }
    }
  }

  /** The corrected loop leaves exactly where decoding stopped: nothing, an incomplete character, or a held escape. */
  lemma {:induction false} ParseCorrectedStopsAtHold(buf: seq<byte>, full: bool)
    ensures var rest := ParseFromCorrected(buf, full).1;
      rest == [] || DecodeOne(rest, full).None?
    decreases |buf|
  {
    if buf != [] {
      if DecodeOne(buf, full).None? {
        ParseStopStep(buf, full);
      } else {
        ParseKeyStep(buf, full);
        ParseCorrectedStopsAtHold(buf[DecodeOne(buf, full).value.used..], full);
      }
    }
  }

  /** Both loops produce the same keys; they differ only in the ESC a held escape leaves behind. */
  lemma {:induction false} ParseKeysAgree(buf: seq<byte>, full: bool)
    ensures ParseFrom(buf, full).0 == ParseFromCorrected(buf, full).0
    ensures var a := ParseFrom(buf, full).1; var c := ParseFromCorrected(buf, full).1;
      a == c || (c != [] && HeldSkip(c) > 0 && DecodeOne(c, full).None? && a == c[HeldSkip(c)..])
    decreases |buf|
  {
    if buf != [] {
      if DecodeOne(buf, full).None? {
        ParseStopStep(buf, full);
      } else {
        ParseKeyStep(buf, full);
        ParseKeysAgree(buf[DecodeOne(buf, full).value.used..], full);
      }
    }
  }

  /** When the read did not fill the buffer, nothing is held back but incomplete characters, and the two loops agree. */
  lemma {:induction false} UnfilledAgree(buf: seq<byte>)
    ensures ParseFrom(buf, false) == ParseFromCorrected(buf, false)
    decreases |buf|
  {
    if buf != [] {
      if DecodeOne(buf, false).None? {
        ParseStopStep(buf, false);
        DecodeStops(buf, false);
      } else {
        ParseKeyStep(buf, false);
        UnfilledAgree(buf[DecodeOne(buf, false).value.used..]);
      }
    }
  }

  /** Decoding in front of more bytes: a step that completes keeps its key, and the rest follows on. */
  lemma {:induction false} ParseStep(buf: seq<byte>, full: bool)
    requires buf != [] && DecodeOne(buf, full).Some?
    ensures var st := DecodeOne(buf, full).value;
      ParseFrom(buf, full) == ([st.key] + ParseFrom(buf[st.used..], full).0, ParseFrom(buf[st.used..], full).1)
  {
  }

  //}}}
  //{{{ Characters and escape sequences end to end

  /** A character from U+0080 up arrives whole as its own key code. */
  lemma CharacterDecodes(v: u32, rest: seq<byte>, full: bool)
    requires 0x80 <= v && v != 127
    ensures var p := ParseFrom(Utf8.Encode(v) + rest, full);
      p == ([v] + ParseFrom(rest, full).0, ParseFrom(rest, full).1)
  {
    var e := Utf8.Encode(v);
    var buf := e + rest;
    Utf8.EncodeRoundTrip(v, [], rest);
    assert [] + e + rest == buf;
    assert buf[0] == e[0] && Utf8.SeqLen(buf[0]) == |e|;
    assert Utf8.DecodeAt(buf, 0) == v;
    assert DecodeOne(buf, full) == Some(KeyStep(v, |e|));
    ParseStep(buf, full);
    assert buf[|e|..] == rest;
  }

  /** The leading bytes of a multi-byte character, without the rest, are all kept for the next read. */
  lemma PartialCharacterKept(v: u32, k: nat, full: bool)
    requires 0x80 <= v && 0 < k < |Utf8.Encode(v)|
    ensures ParseFrom(Utf8.Encode(v)[..k], full) == ([], Utf8.Encode(v)[..k])
  {
    var b := Utf8.Encode(v)[..k];
    assert b[0] == Utf8.Encode(v)[0];
  }

  const UpArrow: seq<byte> := [27, '[' as int, 'A' as int]

  /** `ESC [ A` is the Up key, whether or not the buffer is full. */
  lemma UpArrowDecodes(full: bool)
    ensures ParseFrom(UpArrow, full) == ([KeyUp], [])
  {
    var after := UpArrow[1..];
    assert after == ['[' as int, 'A' as int];
    assert Entry(35).s == "[A";
    assert Matches(Entry(35).s, after);
    forall k | 0 <= k < 35
      ensures !Matches(Entry(k).s, after)
    {
      NotBracketA(k);
    }
    FirstMatchIs(after, 35);
    assert Utf8.SeqLen(UpArrow[0]) == 1 && Utf8.DecodeAt(UpArrow, 0) == 27;
    assert DecodeOne(UpArrow, full) == Some(KeyStep(KeyUp, 3));
    ParseStep(UpArrow, full);
    assert UpArrow[3..] == [];
    assert ParseFrom(UpArrow[3..], full) == ([], []);
    assert [KeyUp] + [] == [KeyUp];
  }

  /** `ESC [` alone: no table entry fits in the single byte after the ESC. */
  lemma EscBracketUnmatched()
    ensures FirstMatch(UpArrow[..2][1..], 0).None?
    ensures DecodeOne(UpArrow[..2], true).None?
  {
    var after := UpArrow[..2][1..];
    forall k | 0 <= k < TableSize
      ensures !Matches(Entry(k).s, after)
    {
      TableShape(k);
    }
  }

  /**
   * An Up arrow split across two reads, as written: the first read filled
   * the buffer and ended in `ESC [`; the loop skips the ESC and breaks, the
   * erase drops it, and the next read decodes `[` and `A` as two plain keys.
   */
  lemma SplitUpArrowAsWritten()
    ensures ParseFrom(UpArrow[..2], true) == ([], ['[' as int])
    ensures ParseFrom(ParseFrom(UpArrow[..2], true).1 + UpArrow[2..], false) == (['[' as int, 'A' as int], [])
  {
    var head := UpArrow[..2];
    EscBracketUnmatched();
    assert Utf8.SeqLen(head[0]) == 1;
    assert head[HeldSkip(head)..] == ['[' as int];
    var next: seq<byte> := ['[' as int, 'A' as int];
    assert ['[' as int] + UpArrow[2..] == next;
    assert Utf8.SeqLen(next[0]) == 1 && Utf8.DecodeAt(next, 0) == '[' as int;
    assert DecodeOne(next, false) == Some(KeyStep('[' as int, 1));
    var last := next[1..];
    assert Utf8.SeqLen(last[0]) == 1 && Utf8.DecodeAt(last, 0) == 'A' as int;
    assert DecodeOne(last, false) == Some(KeyStep('A' as int, 1));
    assert last[1..] == [];
    ParseStep(last, false);
    assert ParseFrom(last[1..], false) == ([], []);
    assert ['A' as u32] + [] == ['A' as u32];
    ParseStep(next, false);
    assert ['[' as u32] + ['A' as u32] == ['[' as u32, 'A' as u32];
    assert ParseFrom(head, true).1 == ['[' as int];
  }

  /**
   * The same split with the ESC kept: `ESC [` is held whole, and the next
   * read completes it to a single Up key.
   */
  lemma SplitUpArrow()
    ensures ParseFromCorrected(UpArrow[..2], true) == ([], UpArrow[..2])
    ensures ParseFromCorrected(ParseFromCorrected(UpArrow[..2], true).1 + UpArrow[2..], false) == ([KeyUp], [])
  {
    var head := UpArrow[..2];
    EscBracketUnmatched();
    assert head + UpArrow[2..] == UpArrow;
    UpArrowDecodes(false);
    UnfilledAgree(UpArrow);
  }

  /** Had the same first read not filled the buffer, `ESC [` would be taken at once as Alt+`[`. */
  lemma SplitUpArrowUnfilled()
    ensures ParseFrom(UpArrow[..2], false) == ([ModAlt + '[' as int], [])
  {
    var head := UpArrow[..2];
    var after := head[1..];
    forall k | 0 <= k < TableSize
      ensures !Matches(Entry(k).s, after)
    {
      TableShape(k);
    }
    assert DecodeOne(head, false) == Some(KeyStep(ModAlt + '[' as int, 2));
    ParseStep(head, false);
    assert head[2..] == [];
    assert ParseFrom(head[2..], false) == ([], []);
    assert [ModAlt + '[' as int] + [] == [ModAlt + '[' as int];
  }

  //}}}
}
