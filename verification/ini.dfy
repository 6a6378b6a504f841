/**
 * The settings store's INI text: `read_ini` parses `[path]` headers,
 * `# description` lines and `name = value` entries into the store, and
 * `write_ini` prints every non-root key that has entries.
 */
module Ini {
  import opened Wrappers
  import opened CStr
  import opened SettingsKey
  import opened Settings

  //{{{ Reading

  /**
   * The parser's state: the store, the path of the key entries go to (the
   * source holds a pointer to it; none before the first header), and the
   * description gathered for the next entry.
   */
  datatype Reader = Reader(keys: seq<Key>, cur: Option<string>, desc: string)

  /**
   * The description text of a `#` line trimmed to `[f, l)` of `ln`: what
   * follows the `#`, with one blank skipped. The blank is looked for at the
   * byte after the `#` even when that is past the trimmed end; for a line
   * `#` followed by blanks the copy length is then -1, which as written
   * (None) is an out-of-bounds copy and corrected is an empty text.
   */
  function DescText(ln: string, f: nat, l: nat, asWritten: bool): (r: Option<string>)
    requires f < l <= |ln| && ln[f] == '#'
    ensures !asWritten ==> r.Some?
  {
    var line := f + 1;
    if line < l && IsSpace(ln[line]) then Some(ln[line + 1..l])
    else if line == l && l < |ln| && IsSpace(ln[l]) then (if asWritten then None else Some([]))
    else Some(ln[line..l])
  }

  /** A description line appended to the gathered text, a newline between. */
  function AddDesc(acc: string, d: string): string
  {
    if acc == [] then d else acc + "\n" + d
  }

  /**
   * A `[name]` header: `create_key`, then the key takes the file name and
   * the later of its time and the file's.
   */
  function OpenKey(st: Reader, name: string, sfn: string, mtime: int): (r: Reader)
    ensures r.cur == Some(name) && r.desc == st.desc
  {
    var c := CreateKey(st.keys, name);
    var k := c.0[c.1];
    var k' := k.(filename := sfn, modified := if mtime > k.modified then mtime else k.modified);
    Reader(c.0[c.1 := k'], Some(name), st.desc)
  }

  /** A `name = value` line: `set_entry` on the current key with the gathered description, which is then cleared. */
  function AddEntry(st: Reader, name: string, value: string): (r: Reader)
    requires st.cur.Some?
    ensures r.cur == st.cur && r.desc == []
  {
    match FindKey(st.keys, st.cur.value)
    case None => st.(desc := [])
    case Some(i) =>
      var k := st.keys[i];
      Reader(st.keys[i := k.(entries := SetEntryAsWritten(k.entries, name, Some(value), st.desc))], st.cur, [])
  }

  /**
   * One line of `read_ini`'s loop, newline excluded. A line that is blank,
   * a bad header, or anything but a description or an entry inside a key
   * changes nothing. None is a copy out of bounds.
   */
  function ReadLine(st: Reader, ln: string, sfn: string, mtime: int, asWritten: bool): (r: Option<Reader>)
    ensures !asWritten ==> r.Some?
  {
    var b := TrimBounds(ln, 0, |ln|);
    var t := ln[b.0..b.1];
    if t != [] && t[0] == '[' then
      if t[|t| - 1] == ']' then Some(OpenKey(st, Trim(t[1..|t| - 1]), sfn, mtime)) else Some(st)
    else if st.cur.None? then Some(st)
    else if t != [] && t[0] == '#' then
      match DescText(ln, b.0, b.1, asWritten)
      case None => None
      case Some(d) => Some(st.(desc := AddDesc(st.desc, d)))
    else
      match Find(t, '=', 0)
      case None => Some(st)
      case Some(eq) => Some(AddEntry(st, Trim(t[..eq]), Trim(t[eq + 1..])))
  }

  /** The loop over the lines, stopping at a copy out of bounds. */
  function ReadLines(st: Reader, lines: seq<string>, sfn: string, mtime: int, asWritten: bool): (r: Option<Reader>)
    ensures !asWritten ==> r.Some?
    decreases |lines|
  {
    if lines == [] then Some(st)
    else match ReadLine(st, lines[0], sfn, mtime, asWritten)
      case None => None
      case Some(st1) => ReadLines(st1, lines[1..], sfn, mtime, asWritten)
  }

  /**
   * `read_ini`: an empty store first gets the root key `""`; the first key
   * takes the file name and the later time; then every line of the text,
   * as the loop visits them.
   */
  function ReadIni(keys: seq<Key>, text: string, sfn: string, mtime: int, asWritten: bool): (r: Option<seq<Key>>)
    ensures !asWritten ==> r.Some?
  {
    var k0 := if keys == [] then CreateKey(keys, "").0 else keys;
    var root := k0[0].(filename := sfn, modified := if mtime > k0[0].modified then mtime else k0[0].modified);
    match ReadLines(Reader(k0[0 := root], None, []), Lines(text), sfn, mtime, asWritten)
    case None => None
    case Some(st) => Some(st.keys)
  }

  //}}}
  //{{{ Writing

  /** The lines of a description, as `write_ini` splits it: at each newline, with no line after a final newline. */
  function DescPieces(d: string): (r: seq<string>)
    ensures forall i :: 0 <= i < |r| ==> NoNewline(r[i])
    decreases |d|
  {
    if d == [] then []
    else match Find(d, '\n', 0)
      case None => [d]
      case Some(i) => [d[..i]] + DescPieces(d[i + 1..])
  }

  /** Each description line behind `# `. */
  function DescLines(ps: seq<string>): (r: seq<string>)
    ensures |r| == |ps| && forall i :: 0 <= i < |r| ==> r[i] == "# " + ps[i]
  {
    if ps == [] then [] else ["# " + ps[0]] + DescLines(ps[1..])
  }

  /** An entry's lines: its description, then `name=value`. */
  function EntryLines(e: Entry): seq<string>
  {
    DescLines(DescPieces(e.description)) + [e.name + "=" + e.value]
  }

  function EntriesLines(es: seq<Entry>): seq<string>
    decreases |es|
  {
    if es == [] then [] else EntryLines(es[0]) + EntriesLines(es[1..])
  }

  /** Whether `write_ini` prints the key: not the root, and with entries. */
  predicate Printed(k: Key)
  {
    k.path != [] && k.entries != []
  }

  /** The lines of the printed keys; every header but the first has an empty line before it. */
  function KeyLines(ks: seq<Key>, first: bool): seq<string>
    decreases |ks|
  {
    if ks == [] then []
    else if !Printed(ks[0]) then KeyLines(ks[1..], first)
    else (if first then [] else [[]]) + ["[" + ks[0].path + "]"] + EntriesLines(ks[0].entries) + KeyLines(ks[1..], false)
  }

  /** `write_ini`: every line followed by a newline. */
  function WriteIni(ks: seq<Key>): string
  {
    JoinLines(KeyLines(ks, true))
  }

  //}}}
  //{{{ Reading back what was written

  /** The loop over two runs of lines is the loop over the first, then over the second. */
  lemma {:induction false} ReadLinesAppend(st: Reader, a: seq<string>, b: seq<string>, sfn: string, mtime: int, asWritten: bool)
    ensures ReadLines(st, a + b, sfn, mtime, asWritten) ==
      match ReadLines(st, a, sfn, mtime, asWritten)
      case None => None
      case Some(st1) => ReadLines(st1, b, sfn, mtime, asWritten)
    decreases |a|
  {
    if a == [] {
      assert a + b == b;
    } else {
      assert (a + b)[0] == a[0] && (a + b)[1..] == a[1..] + b;
      match ReadLine(st, a[0], sfn, mtime, asWritten)
      case None =>
        assert ReadLines(st, a, sfn, mtime, asWritten) == None;
        assert ReadLines(st, a + b, sfn, mtime, asWritten) == None;
      case Some(st1) =>
        assert ReadLines(st, a, sfn, mtime, asWritten) == ReadLines(st1, a[1..], sfn, mtime, asWritten);
        assert ReadLines(st, a + b, sfn, mtime, asWritten) == ReadLines(st1, a[1..] + b, sfn, mtime, asWritten);
        ReadLinesAppend(st1, a[1..], b, sfn, mtime, asWritten);
    }
  }

  /** A line that reads to a state, followed by more lines. */
  lemma ReadLinesStep(st: Reader, ln: string, rest: seq<string>, st1: Reader, sfn: string, mtime: int, asWritten: bool)
    requires ReadLine(st, ln, sfn, mtime, asWritten) == Some(st1)
    ensures ReadLines(st, [ln] + rest, sfn, mtime, asWritten) == ReadLines(st1, rest, sfn, mtime, asWritten)
  {
    assert ([ln] + rest)[0] == ln && ([ln] + rest)[1..] == rest;
  }

  /** Description text whose lines read back: no newline last, and no line ending in a blank. */
  predicate WritableDesc(d: string)
  {
    d == [] ||
    (d[|d| - 1] != '\n' && !IsSpace(d[|d| - 1]) &&
     forall k :: 0 < k < |d| && d[k] == '\n' ==> !IsSpace(d[k - 1]))
  }

  /**
   * An entry that reads back: trimmed one-line name and value, the name
   * free of `=` and not starting like a header or a description, and a
   * description that does not start with a newline.
   */
  predicate WritableEntry(e: Entry)
  {
    Trimmed(e.name) && NoNewline(e.name) && (forall k :: 0 <= k < |e.name| ==> e.name[k] != '=') &&
    (e.name == [] || (e.name[0] != '[' && e.name[0] != '#')) &&
    Trimmed(e.value) && NoNewline(e.value) &&
    WritableDesc(e.description) && (e.description == [] || e.description[0] != '\n')
  }

  /** A key that reads back: a trimmed one-line path and sorted writable entries. */
  predicate WritableKey(k: Key)
  {
    Trimmed(k.path) && NoNewline(k.path) && Sorted(k.entries) &&
    forall i :: 0 <= i < |k.entries| ==> WritableEntry(k.entries[i])
  }

  /** An empty line changes nothing. */
  lemma BlankLine(st: Reader, sfn: string, mtime: int, asWritten: bool)
    ensures ReadLine(st, [], sfn, mtime, asWritten) == Some(st)
  {
  }

  /** A header line opens the key it names. */
  lemma HeaderLine(st: Reader, path: string, sfn: string, mtime: int, asWritten: bool)
    requires Trimmed(path)
    ensures ReadLine(st, "[" + path + "]", sfn, mtime, asWritten) == Some(OpenKey(st, path, sfn, mtime))
  {
    var ln := "[" + path + "]";
    TrimIdentity(ln);
    TrimIdentity(path);
    assert ln[1..|ln| - 1] == path;
  }

  /** A header for a path after every key of the store appends the key, with the first key's file name and time. */
  lemma OpenNewKey(st: Reader, path: string, sfn: string, mtime: int)
    requires st.keys != [] && st.keys[0].filename == sfn && st.keys[0].modified >= mtime
    requires forall i :: 0 <= i < |st.keys| ==> Less(st.keys[i].path, path)
    ensures OpenKey(st, path, sfn, mtime) == Reader(st.keys + [Key(path, sfn, st.keys[0].modified, [])], Some(path), st.desc)
  {
    var lb := LowerBound(st.keys, path);
    assert lb == |st.keys|;
    assert st.keys[..lb] + [NewKey(st.keys, path)] + st.keys[lb..] == st.keys + [NewKey(st.keys, path)];
  }

  /** A description line adds its text to the gathered description. */
  lemma DescLine(st: Reader, piece: string, sfn: string, mtime: int)
    requires st.cur.Some? && NoNewline(piece) && (piece == [] || !IsSpace(piece[|piece| - 1]))
    ensures ReadLine(st, "# " + piece, sfn, mtime, false) == Some(st.(desc := AddDesc(st.desc, piece)))
  {
    var ln := "# " + piece;
    if piece == [] {
      assert TrimBounds(ln, 0, |ln|) == (0, 1);
    } else {
      TrimIdentity(ln);
      assert ln[2..] == piece;
    }
  }

  /** A description splits into its first line and the lines after the first newline. */
  lemma DescPiecesSplit(d: string, i: nat)
    requires d != [] && Find(d, '\n', 0) == Some(i)
    ensures DescLines(DescPieces(d)) == ["# " + d[..i]] + DescLines(DescPieces(d[i + 1..]))
  {
  }

  /** What follows the first newline of a writable description is writable, and the first line ends in no blank. */
  lemma WritableDescRest(d: string, i: nat)
    requires d != [] && WritableDesc(d) && Find(d, '\n', 0) == Some(i)
    ensures i + 1 < |d| && WritableDesc(d[i + 1..])
    ensures i == 0 || !IsSpace(d[..i][i - 1])
  {
    var rest := d[i + 1..];
    assert d[i] == '\n';
    assert rest[|rest| - 1] == d[|d| - 1];
    forall k | 0 < k < |rest| && rest[k] == '\n'
      ensures !IsSpace(rest[k - 1])
    {
      assert rest[k] == d[i + 1 + k] && rest[k - 1] == d[i + k];
    }
  }

  /** Adding a description's first line and then the text after its newline adds the whole description. */
  lemma AddDescSplit(acc: string, d: string, i: nat)
    requires i < |d| && d[i] == '\n' && (acc != [] || i > 0)
    ensures AddDesc(acc, d[..i]) != []
    ensures AddDesc(AddDesc(acc, d[..i]), d[i + 1..]) == AddDesc(acc, d)
  {
    assert d == d[..i] + "\n" + d[i + 1..];
  }

  /** A description of one line reads back from its one `#` line. */
  lemma DescReadOne(st: Reader, d: string, sfn: string, mtime: int)
    requires st.cur.Some? && d != [] && WritableDesc(d) && Find(d, '\n', 0).None?
    ensures ReadLines(st, DescLines(DescPieces(d)), sfn, mtime, false) == Some(st.(desc := AddDesc(st.desc, d)))
  {
    DescLine(st, d, sfn, mtime);
    ReadLinesStep(st, "# " + d, [], st.(desc := AddDesc(st.desc, d)), sfn, mtime, false);
    assert DescLines(DescPieces(d)) == ["# " + d] + [];
  }

  /** The first line of a longer description, then the lines after it. */
  lemma DescReadMore(st: Reader, d: string, i: nat, sfn: string, mtime: int)
    requires st.cur.Some? && d != [] && WritableDesc(d) && Find(d, '\n', 0) == Some(i)
    requires st.desc != [] || d[0] != '\n'
    requires i + 1 < |d| && (i == 0 || !IsSpace(d[..i][i - 1]))
    requires var st1 := st.(desc := AddDesc(st.desc, d[..i]));
      ReadLines(st1, DescLines(DescPieces(d[i + 1..])), sfn, mtime, false) == Some(st1.(desc := AddDesc(st1.desc, d[i + 1..])))
    ensures ReadLines(st, DescLines(DescPieces(d)), sfn, mtime, false) == Some(st.(desc := AddDesc(st.desc, d)))
  {
    var st1 := st.(desc := AddDesc(st.desc, d[..i]));
    DescLine(st, d[..i], sfn, mtime);
    DescPiecesSplit(d, i);
    ReadLinesStep(st, "# " + d[..i], DescLines(DescPieces(d[i + 1..])), st1, sfn, mtime, false);
    AddDescSplit(st.desc, d, i);
  }

  /** Reading back the lines of a description adds the whole description. */
  lemma {:induction false} DescRead(st: Reader, d: string, sfn: string, mtime: int)
    requires st.cur.Some? && WritableDesc(d) && (st.desc != [] || d == [] || d[0] != '\n')
    ensures ReadLines(st, DescLines(DescPieces(d)), sfn, mtime, false) == Some(st.(desc := if d == [] then st.desc else AddDesc(st.desc, d)))
    decreases |d|
  {
    if d != [] {
      match Find(d, '\n', 0)
      case None =>
        DescReadOne(st, d, sfn, mtime);
      case Some(i) =>
        WritableDescRest(d, i);
        var st1 := st.(desc := AddDesc(st.desc, d[..i]));
        assert st1.desc != [] by {
          if st.desc == [] {
            assert d[i] == '\n';
          }
        }
        DescRead(st1, d[i + 1..], sfn, mtime);
        DescReadMore(st, d, i, sfn, mtime);
    }
  }

  /** The parts of an entry line: it is trimmed, starts like neither a header nor a description, and splits at its first `=` into the name and the value. */
  lemma EntryLineParts(e: Entry)
    requires WritableEntry(e)
    ensures var ln := e.name + "=" + e.value;
      TrimBounds(ln, 0, |ln|) == (0, |ln|) && ln[0] != '[' && ln[0] != '#' &&
      Find(ln, '=', 0) == Some(|e.name|) && Trim(ln[..|e.name|]) == e.name && Trim(ln[|e.name| + 1..]) == e.value
  {
    var ln := e.name + "=" + e.value;
    assert ln[|e.name|] == '=';
    assert !IsSpace(ln[0]) && !IsSpace(ln[|ln| - 1]);
    assert forall k :: 0 <= k < |e.name| ==> ln[k] == e.name[k];
    assert ln[..|e.name|] == e.name && ln[|e.name| + 1..] == e.value;
    TrimIdentity(e.name);
    TrimIdentity(e.value);
  }

  /** An entry line stores the entry in the current key. */
  lemma EntryLine(st: Reader, e: Entry, sfn: string, mtime: int)
    requires st.cur.Some? && WritableEntry(e)
    ensures ReadLine(st, e.name + "=" + e.value, sfn, mtime, false) == Some(AddEntry(st, e.name, e.value))
  {
    EntryLineParts(e);
    var ln := e.name + "=" + e.value;
    assert ln[0..|ln|] == ln;
  }

  /** `set_entry` of a name after every existing one appends the entry, description and all. */
  lemma SetEntryAppends(es: seq<Entry>, e: Entry)
    requires forall i :: 0 <= i < |es| ==> Less(es[i].name, e.name)
    ensures SetEntryAsWritten(es, e.name, Some(e.value), e.description) == es + [e]
  {
    var ip := InsertionPoint(es, e.name);
    assert ip == |es|;
    assert es[..ip] + [e] + es[ip..] == es + [e];
  }

  /** Storing a name after every existing one in the last key of an ordered store appends it there. */
  lemma AddEntryLast(st: Reader, ks: seq<Key>, k: Key, e: Entry)
    requires st.keys == ks + [k] && Ordered(st.keys) && st.cur == Some(k.path) && st.desc == e.description
    requires forall i :: 0 <= i < |k.entries| ==> Less(k.entries[i].name, e.name)
    ensures AddEntry(st, e.name, e.value) == Reader(ks + [k.(entries := k.entries + [e])], st.cur, [])
  {
    OrderedFind(st.keys, |ks|);
    SetEntryAppends(k.entries, e);
    assert st.keys[|ks| := k.(entries := k.entries + [e])] == ks + [k.(entries := k.entries + [e])];
  }

  /** Reading an entry's lines into the last key of the store appends the entry to it. */
  lemma EntryRead(st: Reader, ks: seq<Key>, k: Key, e: Entry, sfn: string, mtime: int)
    requires st.keys == ks + [k] && Ordered(st.keys) && st.cur == Some(k.path) && st.desc == []
    requires WritableEntry(e) && forall i :: 0 <= i < |k.entries| ==> Less(k.entries[i].name, e.name)
    ensures ReadLines(st, EntryLines(e), sfn, mtime, false) == Some(Reader(ks + [k.(entries := k.entries + [e])], st.cur, []))
  {
    var ds := DescLines(DescPieces(e.description));
    var st1 := st.(desc := e.description);
    DescRead(st, e.description, sfn, mtime);
    EntryLine(st1, e, sfn, mtime);
    AddEntryLast(st1, ks, k, e);
    var st2 := Reader(ks + [k.(entries := k.entries + [e])], st.cur, []);
    ReadLinesStep(st1, e.name + "=" + e.value, [], st2, sfn, mtime, false);
    ReadLinesAppend(st, ds, [e.name + "=" + e.value], sfn, mtime, false);
  }

  /** The next entry of a sorted run sorts after the ones before it. */
  lemma SortedNext(prev: seq<Entry>, es: seq<Entry>)
    requires Sorted(prev + es) && es != []
    ensures forall i :: 0 <= i < |prev| ==> Less(prev[i].name, es[0].name)
    ensures prev + es == (prev + [es[0]]) + es[1..]
  {
    var all := prev + es;
    assert forall i :: 0 <= i < |prev| ==> all[i] == prev[i];
    assert all[|prev|] == es[0];
  }

  /** Changing the entries of the last key keeps the store ordered. */
  lemma OrderedLastEntries(ks: seq<Key>, k: Key, k1: Key)
    requires Ordered(ks + [k]) && k1.path == k.path
    ensures Ordered(ks + [k1])
  {
    assert forall i :: 0 <= i < |ks| + 1 ==> (ks + [k1])[i].path == (ks + [k])[i].path;
  }

  /** Reading the lines of sorted entries into the last key appends them all. */
  lemma {:induction false} EntriesRead(st: Reader, ks: seq<Key>, k: Key, es: seq<Entry>, sfn: string, mtime: int)
    requires st.keys == ks + [k] && Ordered(st.keys) && st.cur == Some(k.path) && st.desc == []
    requires Sorted(k.entries + es) && forall i :: 0 <= i < |es| ==> WritableEntry(es[i])
    ensures ReadLines(st, EntriesLines(es), sfn, mtime, false) == Some(Reader(ks + [k.(entries := k.entries + es)], st.cur, []))
    decreases |es|
  {
    if es == [] {
      assert k.entries + es == k.entries;
    } else {
      SortedNext(k.entries, es);
      EntryRead(st, ks, k, es[0], sfn, mtime);
      var k1 := k.(entries := k.entries + [es[0]]);
      var st1 := Reader(ks + [k1], st.cur, []);
      OrderedLastEntries(ks, k, k1);
      EntriesRead(st1, ks, k1, es[1..], sfn, mtime);
      ReadLinesAppend(st, EntryLines(es[0]), EntriesLines(es[1..]), sfn, mtime, false);
    }
  }

  /** Appending a path above every path keeps the store ordered. */
  lemma OrderedAppend(ks: seq<Key>, k: Key)
    requires Ordered(ks) && forall i :: 0 <= i < |ks| ==> Less(ks[i].path, k.path)
    ensures Ordered(ks + [k])
  {
  }

  /** The keys `write_ini` prints, as `read_ini` stores them: file name `sfn` and time `m`. */
  function Stored(ks: seq<Key>, sfn: string, m: int): (r: seq<Key>)
    ensures |r| <= |ks|
    decreases |ks|
  {
    if ks == [] then []
    else (if Printed(ks[0]) then [Key(ks[0].path, sfn, m, ks[0].entries)] else []) + Stored(ks[1..], sfn, m)
  }

  /** Conditions under which the store `st` reads back a key appended to it. */
  predicate Appendable(st: Reader, sfn: string, mtime: int)
  {
    st.keys != [] && Ordered(st.keys) && st.keys[0].filename == sfn && st.keys[0].modified >= mtime && st.desc == []
  }

  /** Every printed key of `ks` sorts after every key of the store. */
  predicate Above(keys: seq<Key>, ks: seq<Key>)
  {
    forall i, j :: 0 <= i < |keys| && 0 <= j < |ks| && Printed(ks[j]) ==> Less(keys[i].path, ks[j].path)
  }

  /** After appending the first of ordered keys, the rest are above the store. */
  lemma AboveNext(keys: seq<Key>, ks: seq<Key>, k: Key)
    requires Above(keys, ks) && Ordered(ks) && ks != [] && k.path == ks[0].path
    ensures Above(keys + [k], ks[1..])
  {
    assert forall j :: 0 <= j < |ks[1..]| ==> ks[1..][j] == ks[j + 1];
  }

  /** The empty line before a header changes nothing. */
  lemma SeparatorRead(st: Reader, first: bool, rest: seq<string>, sfn: string, mtime: int)
    ensures ReadLines(st, (if first then [] else [[]]) + rest, sfn, mtime, false) == ReadLines(st, rest, sfn, mtime, false)
  {
    if !first {
      BlankLine(st, sfn, mtime, false);
      ReadLinesStep(st, [], rest, st, sfn, mtime, false);
    } else {
      assert [] + rest == rest;
    }
  }

  /** Reading one printed key's lines after every key of the store appends it, entries and all, before the lines after it. */
  lemma KeyRead(st: Reader, k: Key, first: bool, rest: seq<string>, sfn: string, mtime: int)
    requires Appendable(st, sfn, mtime) && Printed(k) && WritableKey(k)
    requires forall i :: 0 <= i < |st.keys| ==> Less(st.keys[i].path, k.path)
    ensures ReadLines(st, (if first then [] else [[]]) + ["[" + k.path + "]"] + EntriesLines(k.entries) + rest, sfn, mtime, false) ==
      ReadLines(Reader(st.keys + [Key(k.path, sfn, st.keys[0].modified, k.entries)], Some(k.path), []), rest, sfn, mtime, false)
  {
    var h := "[" + k.path + "]";
    var es := EntriesLines(k.entries);
    var nk := Key(k.path, sfn, st.keys[0].modified, []);
    HeaderLine(st, k.path, sfn, mtime, false);
    OpenNewKey(st, k.path, sfn, mtime);
    var st1 := Reader(st.keys + [nk], Some(k.path), []);
    ReadLinesStep(st, h, es + rest, st1, sfn, mtime, false);
    OrderedAppend(st.keys, nk);
    assert nk.entries + k.entries == k.entries;
    EntriesRead(st1, st.keys, nk, k.entries, sfn, mtime);
    ReadLinesAppend(st1, es, rest, sfn, mtime, false);
    var sep := if first then [] else [[]];
    SeparatorRead(st, first, [h] + (es + rest), sfn, mtime);
    SeqAssoc(sep + [h], es, rest);
    SeqAssoc(sep, [h], es + rest);
  }

  /** The lines and the stored form of keys, one key at a time. */
  lemma KeyLinesHead(ks: seq<Key>, first: bool, sfn: string, m: int)
    requires ks != []
    ensures !Printed(ks[0]) ==> KeyLines(ks, first) == KeyLines(ks[1..], first) && Stored(ks, sfn, m) == Stored(ks[1..], sfn, m)
    ensures Printed(ks[0]) ==>
      KeyLines(ks, first) == (if first then [] else [[]]) + ["[" + ks[0].path + "]"] + EntriesLines(ks[0].entries) + KeyLines(ks[1..], false) &&
      Stored(ks, sfn, m) == [Key(ks[0].path, sfn, m, ks[0].entries)] + Stored(ks[1..], sfn, m)
  {
    if !Printed(ks[0]) {
      assert [] + Stored(ks[1..], sfn, m) == Stored(ks[1..], sfn, m);
    }
  }

  /** The lines of a printed key, then lines that append `stored` to the store with the key added. */
  lemma KeysReadMore(st: Reader, k: Key, first: bool, rest: seq<string>, stored: seq<Key>, sfn: string, mtime: int)
    requires Appendable(st, sfn, mtime) && Printed(k) && WritableKey(k)
    requires forall i :: 0 <= i < |st.keys| ==> Less(st.keys[i].path, k.path)
    requires var st1 := Reader(st.keys + [Key(k.path, sfn, st.keys[0].modified, k.entries)], Some(k.path), []);
      var r := ReadLines(st1, rest, sfn, mtime, false);
      r.Some? && r.value.keys == st1.keys + stored
    ensures var r := ReadLines(st, (if first then [] else [[]]) + ["[" + k.path + "]"] + EntriesLines(k.entries) + rest, sfn, mtime, false);
      r.Some? && r.value.keys == st.keys + ([Key(k.path, sfn, st.keys[0].modified, k.entries)] + stored)
  {
    var nk := Key(k.path, sfn, st.keys[0].modified, k.entries);
    var st1 := Reader(st.keys + [nk], Some(k.path), []);
    var L := (if first then [] else [[]]) + ["[" + k.path + "]"] + EntriesLines(k.entries) + rest;
    KeyRead(st, k, first, rest, sfn, mtime);
    var r1 := ReadLines(st1, rest, sfn, mtime, false);
    assert ReadLines(st, L, sfn, mtime, false) == r1;
    SeqAssoc(st.keys, [nk], stored);
  }

  /** Concatenation is associative. */
  lemma SeqAssoc<T>(a: seq<T>, b: seq<T>, c: seq<T>)
    ensures (a + b) + c == a + (b + c)
  {
  }

  /** Reading the lines of ordered writable keys, all above the store's paths, appends the printed ones. */
  lemma {:induction false} KeysRead(st: Reader, ks: seq<Key>, first: bool, sfn: string, mtime: int)
    requires Appendable(st, sfn, mtime) && Above(st.keys, ks)
    requires Ordered(ks) && forall j :: 0 <= j < |ks| ==> WritableKey(ks[j])
    ensures ReadLines(st, KeyLines(ks, first), sfn, mtime, false).Some?
    ensures ReadLines(st, KeyLines(ks, first), sfn, mtime, false).value.keys == st.keys + Stored(ks, sfn, st.keys[0].modified)
    decreases |ks|
  {
    if ks == [] {
      assert st.keys + [] == st.keys;
    } else {
      assert Ordered(ks[1..]) && forall j :: 0 <= j < |ks[1..]| ==> ks[1..][j] == ks[j + 1];
      if !Printed(ks[0]) {
        assert Above(st.keys, ks[1..]);
        KeyLinesHead(ks, first, sfn, st.keys[0].modified);
        KeysRead(st, ks[1..], first, sfn, mtime);
      } else {
        var nk := Key(ks[0].path, sfn, st.keys[0].modified, ks[0].entries);
        var st1 := Reader(st.keys + [nk], Some(ks[0].path), []);
        assert forall i :: 0 <= i < |st.keys| ==> Less(st.keys[i].path, ks[0].path);
        OrderedAppend(st.keys, nk);
        AboveNext(st.keys, ks, nk);
        KeysRead(st1, ks[1..], false, sfn, mtime);
        KeyLinesHead(ks, first, sfn, st.keys[0].modified);
        KeysReadMore(st, ks[0], first, KeyLines(ks[1..], false), Stored(ks[1..], sfn, st.keys[0].modified), sfn, mtime);
      }
    }
  }

  /** No line holds a newline. */
  predicate OneLine(ls: seq<string>)
  {
    forall i :: 0 <= i < |ls| ==> NoNewline(ls[i])
  }

  lemma OneLineAppend(a: seq<string>, b: seq<string>)
    requires OneLine(a) && OneLine(b)
    ensures OneLine(a + b)
  {
    assert forall i :: 0 <= i < |a| ==> (a + b)[i] == a[i];
    assert forall i :: |a| <= i < |a + b| ==> (a + b)[i] == b[i - |a|];
  }

  /** The lines of writable entries hold no newline. */
  lemma {:induction false} EntriesOneLine(es: seq<Entry>)
    requires forall i :: 0 <= i < |es| ==> WritableEntry(es[i])
    ensures OneLine(EntriesLines(es))
    decreases |es|
  {
    if es != [] {
      var e := es[0];
      var ds := DescLines(DescPieces(e.description));
      forall i | 0 <= i < |ds|
        ensures NoNewline(ds[i])
      {
        var pc := DescPieces(e.description)[i];
        assert forall k :: 2 <= k < |ds[i]| ==> ds[i][k] == pc[k - 2];
      }
      var ln := e.name + "=" + e.value;
      assert NoNewline(ln) by {
        assert forall k :: 0 <= k < |e.name| ==> ln[k] == e.name[k];
        assert forall k :: |e.name| < k < |ln| ==> ln[k] == e.value[k - |e.name| - 1];
      }
      OneLineAppend(ds, [ln]);
      assert forall j :: 0 <= j < |es[1..]| ==> es[1..][j] == es[j + 1];
      EntriesOneLine(es[1..]);
      OneLineAppend(EntryLines(e), EntriesLines(es[1..]));
    }
  }

  /** The lines of writable keys hold no newline. */
  lemma {:induction false} KeyLinesOneLine(ks: seq<Key>, first: bool)
    requires forall j :: 0 <= j < |ks| ==> WritableKey(ks[j])
    ensures OneLine(KeyLines(ks, first))
    decreases |ks|
  {
    if ks != [] {
      assert forall j :: 0 <= j < |ks[1..]| ==> ks[1..][j] == ks[j + 1];
      KeyLinesOneLine(ks[1..], false);
      KeyLinesOneLine(ks[1..], first);
      if Printed(ks[0]) {
        var k := ks[0];
        var h := "[" + k.path + "]";
        assert NoNewline(h) by {
          assert forall i :: 1 <= i < |h| - 1 ==> h[i] == k.path[i - 1];
        }
        var sep: seq<string> := if first then [] else [[]];
        OneLineAppend(sep, [h]);
        EntriesOneLine(k.entries);
        OneLineAppend(sep + [h], EntriesLines(k.entries));
        OneLineAppend(sep + [h] + EntriesLines(k.entries), KeyLines(ks[1..], false));
      }
    }
  }

  /**
   * `write_ini` then `read_ini` into an empty store gives back the root key
   * and every printed key, each with the file's name and time: the paths,
   * names, values and descriptions all come back.
   */
  lemma WriteReadIni(s: seq<Key>, sfn: string, mtime: int)
    requires Ordered(s) && forall j :: 0 <= j < |s| ==> WritableKey(s[j])
    ensures ReadIni([], WriteIni(s), sfn, mtime, false) ==
      Some([Key("", sfn, if mtime > 0 then mtime else 0, [])] + Stored(s, sfn, if mtime > 0 then mtime else 0))
  {
    var m := if mtime > 0 then mtime else 0;
    var root := Key("", sfn, m, []);
    var st0 := Reader([root], None, []);
    ReadIniEmpty(WriteIni(s), sfn, mtime, false);
    assert Above([root], s);
    KeysRead(st0, s, true, sfn, mtime);
    var ls := KeyLines(s, true);
    if ls == [] {
      assert Lines(WriteIni(s)) == [[]] + [];
      BlankLine(st0, sfn, mtime, false);
      ReadLinesStep(st0, [], [], st0, sfn, mtime, false);
      assert [root] + Stored(s, sfn, m) == [root];
    } else {
      KeyLinesOneLine(s, true);
      LinesOfJoin(ls);
    }
  }

  /** `read_ini` into an empty store starts from the root key alone, with the file's name and time. */
  lemma ReadIniEmpty(text: string, sfn: string, mtime: int, asWritten: bool)
    ensures ReadIni([], text, sfn, mtime, asWritten) ==
      match ReadLines(Reader([Key("", sfn, if mtime > 0 then mtime else 0, [])], None, []), Lines(text), sfn, mtime, asWritten)
      case None => None
      case Some(st) => Some(st.keys)
  {
    var nk := Key("", "", 0, []);
    assert CreateKey([], "").0 == [nk] by {
      assert LowerBound([], "") == 0;
      assert [][..0] + [nk] + [][0..] == [nk];
    }
    assert [nk][0 := nk.(filename := sfn, modified := if mtime > 0 then mtime else 0)] == [Key("", sfn, if mtime > 0 then mtime else 0, [])];
  }

  /**
   * The description line `# ` ends, once trimmed, right after the `#`, but
   * the blank the parser skips is the trailing one: as written the copy
   * length is -1, corrected the description line is empty.
   */
  lemma DescOverrunAsWritten()
    ensures DescText("# ", 0, 1, true) == None
    ensures DescText("# ", 0, 1, false) == Some([])
  {
  }

  /** So a `# ` line inside a key stops `read_ini` as written. */
  lemma ReadLineOverrunAsWritten(st: Reader, sfn: string, mtime: int)
    requires st.cur.Some?
    ensures ReadLine(st, "# ", sfn, mtime, true) == None
    ensures ReadLine(st, "# ", sfn, mtime, false) == Some(st.(desc := AddDesc(st.desc, [])))
  {
    assert TrimBounds("# ", 0, 2) == (0, 1);
    assert "# "[0..1] == "#";
  }

  /** `write_ini` prints the line `# ` for an empty line inside a description. */
  lemma WriteIniBlankDescLine()
    ensures EntryLines(Entry("x", "1", "a\n\nb")) == ["# a", "# ", "# b", "x=1"]
  {
    var d := "a\n\nb";
    assert Find("b", '\n', 0) == None;
    assert DescPieces("b") == ["b"];
    assert Find("\nb", '\n', 0) == Some(0);
    assert "\nb"[..0] == "" && "\nb"[1..] == "b";
    assert DescPieces("\nb") == [""] + ["b"];
    assert Find(d, '\n', 0) == Some(1);
    assert d[..1] == "a" && d[2..] == "\nb";
    assert DescPieces(d) == ["a"] + ["", "b"];
    assert "# " + "a" == "# a" && "# " + "" == "# " && "# " + "b" == "# b";
    assert DescLines(["a", "", "b"]) == ["# a", "# ", "# b"];
    assert "x" + "=" + "1" == "x=1";
  }

  /** The lines `write_ini` prints for a key whose one entry has a description with an empty line. */
  lemma BlankDescExampleLines(sfn: string)
    ensures Lines(WriteIni([Key("x", sfn, 0, [Entry("x", "1", "a\n\nb")])])) == ["[x]", "# a", "# ", "# b", "x=1"]
  {
    var e := Entry("x", "1", "a\n\nb");
    var k := Key("x", sfn, 0, [e]);
    WriteIniBlankDescLine();
    assert EntriesLines([e]) == EntryLines(e) + [];
    assert "[" + "x" + "]" == "[x]";
    assert KeyLines([k], true) == [] + ["[x]"] + EntriesLines([e]) + KeyLines([], false);
    var ls := ["[x]", "# a", "# ", "# b", "x=1"];
    assert KeyLines([k], true) == ls;
    assert OneLine(ls);
    LinesOfJoin(ls);
  }

  /** A description line with text after the blank reads alike as written and corrected. */
  lemma DescLineAsWritten(st: Reader, sfn: string, mtime: int)
    requires st.cur.Some?
    ensures ReadLine(st, "# a", sfn, mtime, true) == Some(st.(desc := AddDesc(st.desc, "a")))
  {
    assert TrimBounds("# a", 0, 3) == (0, 3);
    assert "# a"[0..3] == "# a" && "# a"[2..3] == "a";
  }

  /** Inside a key, the description lines `# a` then `# ` stop `read_ini` as written. */
  lemma DescOverrunAfter(st1: Reader, sfn: string, mtime: int)
    requires st1.cur.Some?
    ensures ReadLines(st1, ["# a", "# ", "# b", "x=1"], sfn, mtime, true) == None
  {
    var ls := ["# a", "# ", "# b", "x=1"];
    var st2 := st1.(desc := AddDesc(st1.desc, "a"));
    DescLineAsWritten(st1, sfn, mtime);
    ReadLinesStep(st1, "# a", ls[1..], st2, sfn, mtime, true);
    ReadLineOverrunAsWritten(st2, sfn, mtime);
    assert ls == [ls[0]] + ls[1..];
  }

  /** Those lines stop `read_ini` as written at the `# ` line. */
  lemma BlankDescExampleAsWritten(st0: Reader, sfn: string, mtime: int)
    ensures ReadLines(st0, ["[x]", "# a", "# ", "# b", "x=1"], sfn, mtime, true) == None
  {
    var ls := ["[x]", "# a", "# ", "# b", "x=1"];
    HeaderLine(st0, "x", sfn, mtime, true);
    assert "[" + "x" + "]" == "[x]";
    var st1 := OpenKey(st0, "x", sfn, mtime);
    ReadLinesStep(st0, "[x]", ls[1..], st1, sfn, mtime, true);
    assert ls == [ls[0]] + ls[1..];
    DescOverrunAfter(st1, sfn, mtime);
  }

  /**
   * End to end, as written: `read_ini` fails on what `write_ini` printed for
   * a key whose one entry has a description with an empty line.
   */
  lemma ReadIniBlankDescAsWritten(sfn: string, mtime: int)
    ensures ReadIni([], WriteIni([Key("x", sfn, 0, [Entry("x", "1", "a\n\nb")])]), sfn, mtime, true) == None
  {
    var text := WriteIni([Key("x", sfn, 0, [Entry("x", "1", "a\n\nb")])]);
    var m := if mtime > 0 then mtime else 0;
    BlankDescExampleLines(sfn);
    ReadIniEmpty(text, sfn, mtime, true);
    BlankDescExampleAsWritten(Reader([Key("", sfn, m, [])], None, []), sfn, mtime);
  }

  /** The example key is one the writer and the reader agree on. */
  lemma BlankDescExampleWritable(sfn: string)
    ensures WritableKey(Key("x", sfn, 0, [Entry("x", "1", "a\n\nb")]))
  {
    var d := "a\n\nb";
    assert d[0] == 'a' && d[1] == '\n' && d[2] == '\n' && d[3] == 'b';
    assert WritableDesc(d);
    assert Trimmed("x") && NoNewline("x") && Trimmed("1") && NoNewline("1");
    assert WritableEntry(Entry("x", "1", d));
  }

  /** Corrected, the same text reads back the key and its described entry. */
  lemma ReadIniBlankDescCorrected(sfn: string, mtime: int)
    ensures var m := if mtime > 0 then mtime else 0;
      ReadIni([], WriteIni([Key("x", sfn, 0, [Entry("x", "1", "a\n\nb")])]), sfn, mtime, false) ==
      Some([Key("", sfn, m, []), Key("x", sfn, m, [Entry("x", "1", "a\n\nb")])])
  {
    var e := Entry("x", "1", "a\n\nb");
    var k := Key("x", sfn, 0, [e]);
    var m := if mtime > 0 then mtime else 0;
    BlankDescExampleWritable(sfn);
    WriteReadIni([k], sfn, mtime);
    assert Printed(k) && [k][1..] == [];
    assert Stored([k], sfn, m) == [Key("x", sfn, m, [e])] + Stored([], sfn, m);
    assert [Key("", sfn, m, [])] + Stored([k], sfn, m) == [Key("", sfn, m, []), Key("x", sfn, m, [e])];
  }

  //}}}
  //{{{ Where the two readers agree

  /**
   * The one kind of line the readers take differently: trimmed, a lone `#`
   * with a blank after it, so that the blank skipped lies past the trimmed end.
   */
  predicate BareHash(ln: string)
  {
    var b := TrimBounds(ln, 0, |ln|);
    b.1 == b.0 + 1 && ln[b.0] == '#' && b.1 < |ln|
  }

  /** Inside a key a bare `#` line stops `read_ini` as written; every other line reads as the corrected reader reads it. */
  lemma ReadLineRulesAgree(st: Reader, ln: string, sfn: string, mtime: int)
    ensures ReadLine(st, ln, sfn, mtime, true) ==
      if st.cur.Some? && BareHash(ln) then None else ReadLine(st, ln, sfn, mtime, false)
  {
  }

  predicate NoBare(ls: seq<string>)
  {
    forall i :: 0 <= i < |ls| ==> !BareHash(ls[i])
  }

  /** Over lines none of which is a bare `#`, the two readers give the same result. */
  lemma {:induction false} ReadLinesRulesAgree(st: Reader, lines: seq<string>, sfn: string, mtime: int)
    requires NoBare(lines)
    ensures ReadLines(st, lines, sfn, mtime, true) == ReadLines(st, lines, sfn, mtime, false)
    decreases |lines|
  {
    if lines != [] {
      ReadLineRulesAgree(st, lines[0], sfn, mtime);
      var st1 := ReadLine(st, lines[0], sfn, mtime, false).value;
      assert NoBare(lines[1..]) by {
        assert forall i :: 0 <= i < |lines[1..]| ==> lines[1..][i] == lines[i + 1];
      }
      ReadLinesRulesAgree(st1, lines[1..], sfn, mtime);
    }
  }

  lemma NoBareAppend(a: seq<string>, b: seq<string>)
    requires NoBare(a) && NoBare(b)
    ensures NoBare(a + b)
  {
    assert forall i :: 0 <= i < |a| ==> (a + b)[i] == a[i];
    assert forall i :: |a| <= i < |a + b| ==> (a + b)[i] == b[i - |a|];
  }

  /** A line that is empty, or starts with neither a blank nor `#`, is not a bare `#`. */
  lemma NotBareByFirst(ln: string)
    requires ln == [] || (!IsSpace(ln[0]) && ln[0] != '#')
    ensures !BareHash(ln)
  {
  }

  /** A `#` line whose text ends in a non-blank is not a bare `#`. */
  lemma DescLineNotBare(p: string)
    requires p != [] && !IsSpace(p[|p| - 1])
    ensures !BareHash("# " + p)
  {
    var ln := "# " + p;
    assert ln[|ln| - 1] == p[|p| - 1];
    assert TrimBounds(ln, 0, |ln|) == (0, |ln|);
  }

  /** Every line of the description holds text: no newline follows another. */
  predicate NoEmptyLine(d: string)
  {
    forall k :: 0 < k < |d| && d[k] == '\n' ==> d[k - 1] != '\n'
  }

  /** The lines `write_ini` prints for such a description all hold text that ends in a non-blank. */
  lemma {:induction false} DescPiecesFilled(d: string)
    requires WritableDesc(d) && (d == [] || d[0] != '\n') && NoEmptyLine(d)
    ensures forall i :: 0 <= i < |DescPieces(d)| ==> DescPieces(d)[i] != [] && !IsSpace(DescPieces(d)[i][|DescPieces(d)[i]| - 1])
    decreases |d|
  {
    if d != [] {
      match Find(d, '\n', 0)
      case None =>
      case Some(i) =>
        WritableDescRest(d, i);
        var rest := d[i + 1..];
        assert rest[0] == d[i + 1];
        assert NoEmptyLine(rest) by {
          forall k | 0 < k < |rest| && rest[k] == '\n'
            ensures rest[k - 1] != '\n'
          {
            assert rest[k] == d[i + 1 + k] && rest[k - 1] == d[i + k];
          }
        }
        DescPiecesFilled(rest);
        assert DescPieces(d) == [d[..i]] + DescPieces(rest);
    }
  }

  /** An entry whose description has no empty line prints no bare `#` line. */
  lemma EntryLinesNotBare(e: Entry)
    requires WritableEntry(e) && NoEmptyLine(e.description)
    ensures NoBare(EntryLines(e))
  {
    var ps := DescPieces(e.description);
    DescPiecesFilled(e.description);
    forall i | 0 <= i < |ps|
      ensures !BareHash(DescLines(ps)[i])
    {
      DescLineNotBare(ps[i]);
    }
    var ln := e.name + "=" + e.value;
    assert ln[0] == if e.name == [] then '=' else e.name[0];
    NotBareByFirst(ln);
    NoBareAppend(DescLines(ps), [ln]);
  }

  /** No entry of the key has a description with an empty line. */
  predicate FilledDescs(k: Key)
  {
    forall i :: 0 <= i < |k.entries| ==> NoEmptyLine(k.entries[i].description)
  }

  lemma {:induction false} EntriesLinesNotBare(es: seq<Entry>)
    requires forall i :: 0 <= i < |es| ==> WritableEntry(es[i]) && NoEmptyLine(es[i].description)
    ensures NoBare(EntriesLines(es))
    decreases |es|
  {
    if es != [] {
      EntryLinesNotBare(es[0]);
      assert forall j :: 0 <= j < |es[1..]| ==> es[1..][j] == es[j + 1];
      EntriesLinesNotBare(es[1..]);
      NoBareAppend(EntryLines(es[0]), EntriesLines(es[1..]));
    }
  }

  /** Keys none of whose descriptions has an empty line print no bare `#` line. */
  lemma {:induction false} KeyLinesNotBare(ks: seq<Key>, first: bool)
    requires forall j :: 0 <= j < |ks| ==> WritableKey(ks[j]) && FilledDescs(ks[j])
    ensures NoBare(KeyLines(ks, first))
    decreases |ks|
  {
    if ks != [] {
      assert forall j :: 0 <= j < |ks[1..]| ==> ks[1..][j] == ks[j + 1];
      KeyLinesNotBare(ks[1..], false);
      KeyLinesNotBare(ks[1..], first);
      if Printed(ks[0]) {
        var k := ks[0];
        var h := "[" + k.path + "]";
        NotBareByFirst(h);
        NotBareByFirst([]);
        var sep: seq<string> := if first then [] else [[]];
        NoBareAppend(sep, [h]);
        EntriesLinesNotBare(k.entries);
        NoBareAppend(sep + [h], EntriesLines(k.entries));
        NoBareAppend(sep + [h] + EntriesLines(k.entries), KeyLines(ks[1..], false));
      }
    }
  }

  /**
   * `read_ini` as written reads back what `write_ini` printed whenever no
   * description has an empty line: there it agrees with the corrected reader.
   */
  lemma WriteReadIniAsWritten(s: seq<Key>, sfn: string, mtime: int)
    requires Ordered(s) && forall j :: 0 <= j < |s| ==> WritableKey(s[j]) && FilledDescs(s[j])
    ensures ReadIni([], WriteIni(s), sfn, mtime, true) ==
      Some([Key("", sfn, if mtime > 0 then mtime else 0, [])] + Stored(s, sfn, if mtime > 0 then mtime else 0))
  {
    var m := if mtime > 0 then mtime else 0;
    var st0 := Reader([Key("", sfn, m, [])], None, []);
    WriteReadIni(s, sfn, mtime);
    ReadIniEmpty(WriteIni(s), sfn, mtime, true);
    ReadIniEmpty(WriteIni(s), sfn, mtime, false);
    var ls := KeyLines(s, true);
    if ls == [] {
      assert Lines(WriteIni(s)) == [[]];
      NotBareByFirst([]);
    } else {
      KeyLinesOneLine(s, true);
      LinesOfJoin(ls);
      KeyLinesNotBare(s, true);
    }
    ReadLinesRulesAgree(st0, Lines(WriteIni(s)), sfn, mtime);
  }

  //}}}
}
