/**
 * One settings key: a path, the file it came from, a modification time,
 * and a list of (name, value, description) entries kept sorted by name in
 * `strcmp` order with no name twice. The source packs all of it into one
 * block of NUL-terminated strings; the model keeps the entries as records
 * and gives the packed string list separately (`Strings`, `IsValid`).
 */
module SettingsKey {
  import opened Wrappers
  import opened CStr

  datatype Entry = Entry(name: string, value: string, description: string)

  datatype Key = Key(path: string, filename: string, modified: int, entries: seq<Entry>)

  //{{{ Order and lookup

  /** Entry names strictly increase, so each name appears at most once. */
  predicate Sorted(es: seq<Entry>)
  {
    forall i, j :: 0 <= i < j < |es| ==> Less(es[i].name, es[j].name)
  }

  /** `get_entry`: `find` from the first entry, comparing names. */
  function FindEntry(es: seq<Entry>, n: string): (r: Option<nat>)
    ensures r.Some? ==> r.value < |es| && es[r.value].name == n && forall j :: 0 <= j < r.value ==> es[j].name != n
    ensures r.None? ==> forall j :: 0 <= j < |es| ==> es[j].name != n
  {
    if es == [] then None
    else if es[0].name == n then Some(0)
    else match FindEntry(es[1..], n)
      case None => None
      case Some(i) => Some(i + 1)
  }

  /** The entry named `n`, if any. */
  function Lookup(es: seq<Entry>, n: string): (r: Option<Entry>)
    ensures r.Some? ==> r.value in es && r.value.name == n
    ensures r.None? ==> forall j :: 0 <= j < |es| ==> es[j].name != n
  {
    match FindEntry(es, n)
    case None => None
    case Some(i) => Some(es[i])
  }

  /** In a sorted list every entry is the one its name finds. */
  lemma SortedFind(es: seq<Entry>, i: nat)
    requires Sorted(es) && i < |es|
    ensures Lookup(es, es[i].name) == Some(es[i])
  {
    var k := FindEntry(es, es[i].name).value;
    if k < i {
      LessIrreflexive(es[i].name);
    }
  }

  /** `set_entry`'s scan: the first entry whose name is not below `name`. */
  function InsertionPoint(es: seq<Entry>, name: string): (ip: nat)
    ensures ip <= |es| && forall i :: 0 <= i < ip ==> Less(es[i].name, name)
    ensures ip < |es| ==> !Less(es[ip].name, name)
    decreases |es|
  {
    if es == [] || !Less(es[0].name, name) then 0 else 1 + InsertionPoint(es[1..], name)
  }

  /** In a sorted list the entry named `name`, if any, sits at the insertion point, and every later name is above `name`. */
  lemma InsertionPointFinds(es: seq<Entry>, name: string)
    requires Sorted(es)
    ensures var ip := InsertionPoint(es, name);
      Lookup(es, name) == (if ip < |es| && es[ip].name == name then Some(es[ip]) else None) &&
      forall j :: ip <= j < |es| && es[j].name != name ==> Less(name, es[j].name)
  {
    var ip := InsertionPoint(es, name);
    if ip < |es| && es[ip].name == name {
      SortedFind(es, ip);
    } else {
      forall j | 0 <= j < |es|
        ensures es[j].name != name
      {
        if j < ip {
          LessIrreflexive(name);
        }
      }
    }
    forall j | ip <= j < |es| && es[j].name != name
      ensures Less(name, es[j].name)
    {
      LessTotal(es[j].name, name);
      if j > ip && Less(es[j].name, name) {
        LessTransitive(es[ip].name, es[j].name, name);
      }
    }
  }

  /** Inserting an entry between the names below and above it keeps the order and adds exactly its name. */
  lemma InsertSorted(es: seq<Entry>, ip: nat, e: Entry)
    requires Sorted(es) && ip <= |es|
    requires forall i :: 0 <= i < ip ==> Less(es[i].name, e.name)
    requires forall j :: ip <= j < |es| ==> Less(e.name, es[j].name)
    ensures var r := es[..ip] + [e] + es[ip..];
      Sorted(r) && forall n :: Lookup(r, n) == if n == e.name then Some(e) else Lookup(es, n)
  {
    InsertKeepsOrder(es, ip, e);
    InsertLookup(es, ip, e);
  }

  /** The order half of `InsertSorted`. */
  lemma InsertKeepsOrder(es: seq<Entry>, ip: nat, e: Entry)
    requires Sorted(es) && ip <= |es|
    requires forall i :: 0 <= i < ip ==> Less(es[i].name, e.name)
    requires forall j :: ip <= j < |es| ==> Less(e.name, es[j].name)
    ensures Sorted(es[..ip] + [e] + es[ip..])
  {
    var r := es[..ip] + [e] + es[ip..];
    forall i, j | 0 <= i < j < |r|
      ensures Less(r[i].name, r[j].name)
    {
      if j < ip {
        assert r[i] == es[i] && r[j] == es[j];
      } else if j == ip {
        assert r[i] == es[i] && r[j] == e;
      } else if i == ip {
        assert r[j] == es[j - 1];
      } else if i > ip {
        assert r[i] == es[i - 1] && r[j] == es[j - 1];
      } else {
        assert r[i] == es[i] && r[j] == es[j - 1];
        LessTransitive(r[i].name, e.name, r[j].name);
      }
    }
  }

  /** The lookup half of `InsertSorted`. */
  lemma InsertLookup(es: seq<Entry>, ip: nat, e: Entry)
    requires Sorted(es) && ip <= |es|
    requires forall i :: 0 <= i < ip ==> Less(es[i].name, e.name)
    requires forall j :: ip <= j < |es| ==> Less(e.name, es[j].name)
    ensures var r := es[..ip] + [e] + es[ip..];
      forall n :: Lookup(r, n) == if n == e.name then Some(e) else Lookup(es, n)
  {
    var r := es[..ip] + [e] + es[ip..];
    InsertKeepsOrder(es, ip, e);
    forall n
      ensures Lookup(r, n) == if n == e.name then Some(e) else Lookup(es, n)
    {
      if n == e.name {
        assert r[ip] == e;
        SortedFind(r, ip);
      } else {
        InsertLookupOther(es, ip, e, n);
      }
    }
  }

  /** Inserting `e` leaves the lookup of every other name as it was. */
  lemma InsertLookupOther(es: seq<Entry>, ip: nat, e: Entry, n: string)
    requires Sorted(es) && ip <= |es| && n != e.name
    requires Sorted(es[..ip] + [e] + es[ip..])
    ensures Lookup(es[..ip] + [e] + es[ip..], n) == Lookup(es, n)
  {
    var r := es[..ip] + [e] + es[ip..];
    assert |r| == |es| + 1;
    assert forall k :: 0 <= k < ip && k < |r| ==> r[k] == es[k];
    assert forall k :: ip <= k < |es| ==> k + 1 < |r| && r[k + 1] == es[k];
    assert r[ip] == e;
    SameLookupByIndex(es, r, n, ip, 1);
  }

  /** Removing an entry keeps the order and loses exactly its name. */
  lemma RemoveSorted(es: seq<Entry>, i: nat)
    requires Sorted(es) && i < |es|
    ensures var r := es[..i] + es[i + 1..];
      Sorted(r) && forall n :: Lookup(r, n) == if n == es[i].name then None else Lookup(es, n)
  {
    var r := es[..i] + es[i + 1..];
    assert forall k :: 0 <= k < i ==> r[k] == es[k];
    assert forall k :: i <= k < |r| ==> r[k] == es[k + 1];
    assert Sorted(r);
    forall n
      ensures Lookup(r, n) == if n == es[i].name then None else Lookup(es, n)
    {
      if n == es[i].name {
        forall k | 0 <= k < |r|
          ensures r[k].name != n
        {
          LessIrreflexive(n);
        }
      } else {
        SameLookupByIndex(r, es, n, i, 1);
      }
    }
  }

  /** Replacing an entry by one of the same name keeps the order and changes only that name's entry. */
  lemma ReplaceSorted(es: seq<Entry>, i: nat, e: Entry)
    requires Sorted(es) && i < |es| && e.name == es[i].name
    ensures var r := es[..i] + [e] + es[i + 1..];
      Sorted(r) && forall n :: Lookup(r, n) == if n == e.name then Some(e) else Lookup(es, n)
  {
    var r := es[..i] + [e] + es[i + 1..];
    assert forall k :: 0 <= k < |r| ==> r[k].name == es[k].name;
    assert forall k :: 0 <= k < |r| && k != i ==> r[k] == es[k];
    forall n
      ensures Lookup(r, n) == if n == e.name then Some(e) else Lookup(es, n)
    {
      if n == e.name {
        SortedFind(r, i);
      } else if Lookup(es, n).Some? {
        var j := FindEntry(es, n).value;
        SortedFind(es, j);
        SortedFind(r, j);
      }
    }
  }

  /**
   * Two sorted lists that agree on every entry named `n`, one shifted by
   * `d` positions from `at` on, find the same entry for `n`.
   */
  lemma SameLookupByIndex(es: seq<Entry>, r: seq<Entry>, n: string, at: nat, d: nat)
    requires Sorted(es) && Sorted(r) && at <= |es| && |r| >= |es| + d - (if at < |es| then 0 else d)
    requires forall k :: 0 <= k < at && k < |r| ==> r[k] == es[k]
    requires forall k :: at <= k < |es| ==> k + d < |r| && r[k + d] == es[k]
    requires forall k :: 0 <= k < |r| && r[k].name == n ==> (k < at && k < |es|) || (k >= at + d && k - d < |es|)
    ensures Lookup(r, n) == Lookup(es, n)
  {
    if Lookup(es, n).Some? {
      var j := FindEntry(es, n).value;
      SortedFind(es, j);
      if j < at {
        assert r[j] == es[j];
        SortedFind(r, j);
      } else {
        assert r[j + d] == es[j];
        SortedFind(r, j + d);
      }
    } else {
      forall k | 0 <= k < |r|
        ensures r[k].name != n
      {
        if k < at && k < |es| {
          assert r[k] == es[k];
        } else if k >= at + d && k - d < |es| {
          assert r[k] == es[k - d];
        }
      }
    }
  }

  //}}}
  //{{{ set_entry

  /**
   * `set_entry` as the source's comment describes it: no value deletes the
   * entry; a new name is inserted at its place; an existing entry gets the
   * new value and keeps its old description unless a new one is given.
   */
  function SetEntry(es: seq<Entry>, name: string, value: Option<string>, desc: string): (r: seq<Entry>)
    ensures forall j :: 0 <= j < |r| ==> r[j] in es || r[j].name == name
    ensures forall j :: 0 <= j < |es| && es[j].name != name ==> es[j] in r
  {
    var ip := InsertionPoint(es, name);
    var found := ip < |es| && es[ip].name == name;
    match value
    case None =>
      if found then es[..ip] + es[ip + 1..] else es
    case Some(v) =>
      if !found then es[..ip] + [Entry(name, v, desc)] + es[ip..]
      else es[..ip] + [Entry(name, v, if desc == "" then es[ip].description else desc)] + es[ip + 1..]
  }

  /** The description an existing entry ends up with after `set_entry`, by the source's comment. */
  function KeptDescription(prev: Option<Entry>, desc: string): string
  {
    if prev.Some? && desc == "" then prev.value.description else desc
  }

  /**
   * What `set_entry` does: the entries stay sorted, the named entry takes
   * the new value (or is gone), every other name finds what it found
   * before, and the count grows by one only for a new name and shrinks by
   * one only for a deleted one.
   */
  lemma SetEntryLookup(es: seq<Entry>, name: string, value: Option<string>, desc: string)
    requires Sorted(es)
    ensures var r := SetEntry(es, name, value, desc); var prev := Lookup(es, name);
      Sorted(r) &&
      Lookup(r, name) == (if value.None? then None else Some(Entry(name, value.value, KeptDescription(prev, desc)))) &&
      (forall n :: n != name ==> Lookup(r, n) == Lookup(es, n)) &&
      |r| == |es| + (if value.Some? && prev.None? then 1 else 0) - (if value.None? && prev.Some? then 1 else 0)
  {
    var ip := InsertionPoint(es, name);
    var found := ip < |es| && es[ip].name == name;
    InsertionPointFinds(es, name);
    if value.Some? && !found {
      InsertSorted(es, ip, Entry(name, value.value, desc));
    } else if value.Some? {
      ReplaceSorted(es, ip, Entry(name, value.value, KeptDescription(Lookup(es, name), desc)));
    } else if found {
      RemoveSorted(es, ip);
    } else {
      assert SetEntry(es, name, value, desc) == es;
    }
  }

  /**
   * `set_entry` as written: an existing entry's description is replaced
   * when the new one is empty and kept when a new one is given, the
   * opposite of its comment.
   */
  function SetEntryAsWritten(es: seq<Entry>, name: string, value: Option<string>, desc: string): (r: seq<Entry>)
    ensures forall j :: 0 <= j < |r| ==> r[j] in es || r[j].name == name
    ensures forall j :: 0 <= j < |es| && es[j].name != name ==> es[j] in r
  {
    var ip := InsertionPoint(es, name);
    var found := ip < |es| && es[ip].name == name;
    match value
    case None =>
      if found then es[..ip] + es[ip + 1..] else es
    case Some(v) =>
      if !found then es[..ip] + [Entry(name, v, desc)] + es[ip..]
      else es[..ip] + [Entry(name, v, if desc == "" then "" else es[ip].description)] + es[ip + 1..]
  }

  /** The description an entry ends up with after `set_entry` as written. */
  function KeptDescriptionAsWritten(prev: Option<Entry>, desc: string): string
  {
    if prev.Some? && desc != "" then prev.value.description else desc
  }

  /**
   * What `set_entry` as written does: the same as `SetEntryLookup` except
   * for the description an existing entry ends up with.
   */
  lemma SetEntryAsWrittenLookup(es: seq<Entry>, name: string, value: Option<string>, desc: string)
    requires Sorted(es)
    ensures var r := SetEntryAsWritten(es, name, value, desc); var prev := Lookup(es, name);
      Sorted(r) &&
      Lookup(r, name) == (if value.None? then None else Some(Entry(name, value.value, KeptDescriptionAsWritten(prev, desc)))) &&
      (forall n :: n != name ==> Lookup(r, n) == Lookup(es, n)) &&
      |r| == |es| + (if value.Some? && prev.None? then 1 else 0) - (if value.None? && prev.Some? then 1 else 0)
  {
    var ip := InsertionPoint(es, name);
    var found := ip < |es| && es[ip].name == name;
    InsertionPointFinds(es, name);
    if value.Some? && !found {
      InsertSorted(es, ip, Entry(name, value.value, desc));
    } else if value.Some? {
      ReplaceSorted(es, ip, Entry(name, value.value, KeptDescriptionAsWritten(Lookup(es, name), desc)));
    } else if found {
      RemoveSorted(es, ip);
    } else {
      assert SetEntryAsWritten(es, name, value, desc) == es;
    }
  }

  /** The two rules differ only in the description of an entry that is already there. */
  lemma SetEntryRulesAgree(es: seq<Entry>, name: string, value: Option<string>, desc: string)
    requires Sorted(es)
    ensures value.None? || Lookup(es, name).None? ==> SetEntryAsWritten(es, name, value, desc) == SetEntry(es, name, value, desc)
    ensures KeptDescriptionAsWritten(Lookup(es, name), desc) != KeptDescription(Lookup(es, name), desc) ==>
      Lookup(es, name).Some? && (desc == "" || desc != Lookup(es, name).value.description)
  {
    InsertionPointFinds(es, name);
  }

  /** Updating a described entry's value without a description erases the description, and a new description is dropped. */
  lemma SetEntryDescriptionAsWritten()
    ensures SetEntryAsWritten([Entry("w", "1", "width")], "w", Some("2"), "") == [Entry("w", "2", "")]
    ensures SetEntryAsWritten([Entry("w", "1", "width")], "w", Some("2"), "columns") == [Entry("w", "2", "width")]
  {
  }

  /** The corrected `set_entry` keeps the description in the first case and takes the new one in the second. */
  lemma SetEntryDescriptionCorrected()
    ensures SetEntry([Entry("w", "1", "width")], "w", Some("2"), "") == [Entry("w", "2", "width")]
    ensures SetEntry([Entry("w", "1", "width")], "w", Some("2"), "columns") == [Entry("w", "2", "columns")]
  {
  }

  //}}}
  //{{{ Numbers

  /** C `isspace`, which `atol` skips before the number. */
  predicate IsCSpace(c: char)
  {
    c == ' ' || c == '\t' || c == '\n' || c as int == 11 || c as int == 12 || c == '\r'
  }

  predicate IsDigit(c: char)
  {
    '0' <= c <= '9'
  }

  predicate AllDigits(s: string)
  {
    forall k :: 0 <= k < |s| ==> IsDigit(s[k])
  }

  /** The number a run of decimal digits spells. */
  function DigitsValue(ds: string): nat
    requires AllDigits(ds)
  {
    if ds == [] then 0 else DigitsValue(ds[..|ds| - 1]) * 10 + (ds[|ds| - 1] as int - '0' as int)
  }

  /** The first position from `i` that is not a digit. */
  function DigitRun(s: string, i: nat): (r: nat)
    requires i <= |s|
    ensures i <= r <= |s| && AllDigits(s[i..r]) && (r < |s| ==> !IsDigit(s[r]))
    decreases |s| - i
  {
    if i < |s| && IsDigit(s[i]) then DigitRun(s, i + 1) else i
  }

  /** The first position from `i` that is not white space. */
  function SkipCSpaces(s: string, i: nat): (r: nat)
    requires i <= |s|
    ensures i <= r <= |s| && (r < |s| ==> !IsCSpace(s[r]))
    decreases |s| - i
  {
    if i < |s| && IsCSpace(s[i]) then SkipCSpaces(s, i + 1) else i
  }

  /** `atol`: white space, an optional sign, then the longest run of digits; no digits read as 0. */
  function Atol(s: string): int
  {
    var i := SkipCSpaces(s, 0);
    var signed := i < |s| && (s[i] == '-' || s[i] == '+');
    var j := if signed then i + 1 else i;
    var m: int := DigitsValue(s[j..DigitRun(s, j)]);
    if signed && s[i] == '-' then -m else m
  }

  /** The decimal digits of `n`, most significant first, without leading zeros. */
  function Digits(n: nat): (r: string)
    ensures |r| >= 1 && AllDigits(r)
  {
    if n < 10 then ['0' + n as char] else Digits(n / 10) + ['0' + (n % 10) as char]
  }

  lemma {:induction false} DigitsValueOf(n: nat)
    ensures DigitsValue(Digits(n)) == n
  {
    if n >= 10 {
      DigitsValueOf(n / 10);
      var d := Digits(n);
      assert d[..|d| - 1] == Digits(n / 10);
    }
  }

  /** `snprintf("%ld")`. */
  function FormatLong(v: int): (r: string)
    ensures |r| >= 1
  {
    if v < 0 then "-" + Digits(-v) else Digits(v)
  }

  /** `atol` reads back what `%ld` printed. */
  lemma AtolFormat(v: int)
    ensures Atol(FormatLong(v)) == v
  {
    var s := FormatLong(v);
    var d := if v < 0 then Digits(-v) else Digits(v);
    assert !IsCSpace(s[0]);
    assert SkipCSpaces(s, 0) == 0;
    var j := if v < 0 then 1 else 0;
    assert s[j..] == d;
    assert DigitRun(s, j) == |s| by {
      assert forall k :: j <= k < |s| ==> IsDigit(s[k]);
      DigitRunToEnd(s, j);
    }
    assert s[j..|s|] == d;
    DigitsValueOf(if v < 0 then -v else v);
  }

  lemma {:induction false} DigitRunToEnd(s: string, i: nat)
    requires i <= |s| && forall k :: i <= k < |s| ==> IsDigit(s[k])
    ensures DigitRun(s, i) == |s|
    decreases |s| - i
  {
    if i < |s| {
      DigitRunToEnd(s, i + 1);
    }
  }

  //}}}
  //{{{ Typed entries

  /** `delete_entry`: `set_entry` without a value. */
  function DeleteEntry(es: seq<Entry>, name: string): (r: seq<Entry>)
    ensures Sorted(es) ==> (Sorted(r) && Lookup(r, name).None? && (forall n :: n != name ==> Lookup(r, n) == Lookup(es, n)) &&
      |r| == |es| - (if Lookup(es, name).Some? then 1 else 0))
  {
    if Sorted(es) then
      SetEntryAsWrittenLookup(es, name, None, "");
      SetEntryAsWritten(es, name, None, "")
    else SetEntryAsWritten(es, name, None, "")
  }

  /** `get_entry_str`: the value, or the empty string. */
  function GetEntryStr(es: seq<Entry>, name: string): (r: string)
    ensures Lookup(es, name).None? ==> r == ""
  {
    match Lookup(es, name)
    case Some(e) => e.value
    case None => ""
  }

  /** `get_entry_str` with a default for a missing entry. */
  function GetEntryStrOr(es: seq<Entry>, name: string, dv: string): (r: string)
    ensures Lookup(es, name).None? ==> r == dv
  {
    match Lookup(es, name)
    case Some(e) => e.value
    case None => dv
  }

  /**
   * `set_entry_str`: an empty value deletes the entry; any other is stored
   * with an empty description, whatever description the entry had.
   */
  function SetEntryStr(es: seq<Entry>, name: string, value: string): (r: seq<Entry>)
    ensures Sorted(es) ==> (Sorted(r) && (forall n :: n != name ==> Lookup(r, n) == Lookup(es, n)) &&
      Lookup(r, name) == if value == "" then None else Some(Entry(name, value, "")))
  {
    var v := if value == "" then None else Some(value);
    if Sorted(es) then
      SetEntryAsWrittenLookup(es, name, v, "");
      SetEntryAsWritten(es, name, v, "")
    else SetEntryAsWritten(es, name, v, "")
  }

  /** `set_entry_str` with a default: the default value deletes the entry. */
  function SetEntryStrOr(es: seq<Entry>, name: string, value: string, dv: string): (r: seq<Entry>)
    ensures Sorted(es) ==> (Sorted(r) && (forall n :: n != name ==> Lookup(r, n) == Lookup(es, n)) &&
      Lookup(r, name) == if value == dv then None else Some(Entry(name, value, "")))
  {
    var v := if value == dv then None else Some(value);
    if Sorted(es) then
      SetEntryAsWrittenLookup(es, name, v, "");
      SetEntryAsWritten(es, name, v, "")
    else SetEntryAsWritten(es, name, v, "")
  }

  /** `get_entry_int`: `atol` of the value, or the default. */
  function GetEntryInt(es: seq<Entry>, name: string, dv: int): (r: int)
    ensures Lookup(es, name).None? ==> r == dv
  {
    match Lookup(es, name)
    case Some(e) => Atol(e.value)
    case None => dv
  }

  /**
   * `set_entry_int`: the decimal value, or no entry when it equals the
   * default; the description follows `set_entry` as written.
   */
  function SetEntryInt(es: seq<Entry>, name: string, value: int, desc: string, dv: int): (r: seq<Entry>)
    ensures Sorted(es) ==> (Sorted(r) && (forall n :: n != name ==> Lookup(r, n) == Lookup(es, n)) &&
      Lookup(r, name) == if value == dv then None
        else Some(Entry(name, FormatLong(value), KeptDescriptionAsWritten(Lookup(es, name), desc))))
  {
    var v := if value == dv then None else Some(FormatLong(value));
    if Sorted(es) then
      SetEntryAsWrittenLookup(es, name, v, desc);
      SetEntryAsWritten(es, name, v, desc)
    else SetEntryAsWritten(es, name, v, desc)
  }

  /** The first position of `v` among `names`, or `|names|` when it is not there. */
  function Position(v: string, names: seq<string>): (r: nat)
    ensures r <= |names| && forall i :: 0 <= i < r ==> names[i] != v
    ensures r < |names| ==> names[r] == v
  {
    if names == [] then 0
    else if names[0] == v then 0
    else 1 + Position(v, names[1..])
  }

  /** `zstr::index`: the position of `v` among `names`, or `nfv` when it is not there. */
  function IndexOf(v: string, names: seq<string>, nfv: nat): (r: nat)
    ensures v in names ==> r < |names| && names[r] == v && forall i :: 0 <= i < r ==> names[i] != v
    ensures v !in names ==> r == nfv
  {
    var p := Position(v, names);
    if p < |names| then p else nfv
  }

  /** `get_entry_enum`: the value's position in the names, or the default. */
  function GetEntryEnum(es: seq<Entry>, name: string, names: seq<string>, dev: nat): (r: nat)
    ensures Lookup(es, name).None? ==> r == dev
  {
    match Lookup(es, name)
    case Some(e) => IndexOf(e.value, names, dev)
    case None => dev
  }

  /** `set_entry_enum`: the name of the value, or no entry for the default. */
  function SetEntryEnum(es: seq<Entry>, name: string, ev: nat, names: seq<string>, evd: nat): (r: seq<Entry>)
    requires ev == evd || ev < |names|
    ensures Sorted(es) ==> (Sorted(r) && (forall n :: n != name ==> Lookup(r, n) == Lookup(es, n)) &&
      Lookup(r, name) == if ev == evd then None else Some(Entry(name, names[ev], "")))
  {
    var v := if ev == evd then None else Some(names[ev]);
    if Sorted(es) then
      SetEntryAsWrittenLookup(es, name, v, "");
      SetEntryAsWritten(es, name, v, "")
    else SetEntryAsWritten(es, name, v, "")
  }

  /** `c_Bool_names`. */
  const BoolNames: seq<string> := ["false", "true"]

  function BoolIndex(b: bool): nat { if b then 1 else 0 }

  /** `bool_value`: the value starts with `t`. */
  predicate BoolValue(v: string)
  {
    |v| > 0 && v[0] == 't'
  }

  /** `get_entry_bool`. */
  function GetEntryBool(es: seq<Entry>, name: string, dv: bool): (r: bool)
    ensures Lookup(es, name).None? ==> r == dv
  {
    match Lookup(es, name)
    case Some(e) => BoolValue(e.value)
    case None => dv
  }

  /** `set_entry_bool`: `set_entry_enum` over `false`/`true`. */
  function SetEntryBool(es: seq<Entry>, name: string, value: bool, dv: bool): (r: seq<Entry>)
    ensures Sorted(es) ==> (Sorted(r) && (forall n :: n != name ==> Lookup(r, n) == Lookup(es, n)) &&
      Lookup(r, name) == if value == dv then None else Some(Entry(name, if value then "true" else "false", "")))
  {
    SetEntryEnum(es, name, BoolIndex(value), BoolNames, BoolIndex(dv))
  }

  /** Every typed setter is undone by its getter, whatever the default. */
  lemma IntRoundTrip(es: seq<Entry>, name: string, v: int, desc: string, dv: int)
    requires Sorted(es)
    ensures GetEntryInt(SetEntryInt(es, name, v, desc, dv), name, dv) == v
  {
    if v != dv {
      AtolFormat(v);
    }
  }

  lemma StrRoundTrip(es: seq<Entry>, name: string, v: string)
    requires Sorted(es)
    ensures GetEntryStr(SetEntryStr(es, name, v), name) == v
  {
  }

  lemma StrOrRoundTrip(es: seq<Entry>, name: string, v: string, dv: string)
    requires Sorted(es)
    ensures GetEntryStrOr(SetEntryStrOr(es, name, v, dv), name, dv) == v
  {
  }

  lemma EnumRoundTrip(es: seq<Entry>, name: string, ev: nat, names: seq<string>, evd: nat)
    requires Sorted(es) && ev < |names|
    requires forall i, j :: 0 <= i < j < |names| ==> names[i] != names[j]
    ensures GetEntryEnum(SetEntryEnum(es, name, ev, names, evd), name, names, evd) == ev
  {
  }

  lemma BoolRoundTrip(es: seq<Entry>, name: string, v: bool, dv: bool)
    requires Sorted(es)
    ensures GetEntryBool(SetEntryBool(es, name, v, dv), name, dv) == v
  {
  }

  //}}}
  //{{{ Arrays

  /** `set_entry_array`'s text: each element after its separator, `[` first and `,` after, then `]`. */
  function ArrayText(v: seq<string>, sep: char): (r: string)
    ensures |r| >= 1 && r[|r| - 1] == ']'
  {
    if v == [] then "]" else [sep] + v[0] + ArrayText(v[1..], ',')
  }

  /** `set_entry_array`: the array text, stored as a string with no description. */
  function SetEntryArray(es: seq<Entry>, name: string, v: seq<string>): (r: seq<Entry>)
    ensures Sorted(es) ==> (Sorted(r) && (forall n :: n != name ==> Lookup(r, n) == Lookup(es, n)) &&
      Lookup(r, name) == Some(Entry(name, ArrayText(v, '['), "")))
  {
    SetEntryStr(es, name, ArrayText(v, '['))
  }

  /** The parser's `while (*p == ' ') ++p`, stopped at the latest by the closing bracket. */
  function SkipBlanks(s: string, i: nat, lim: nat): (r: nat)
    requires i <= lim < |s| && s[lim] == ']'
    ensures i <= r <= lim && s[r] != ' '
    decreases lim - i
  {
    if s[i] == ' ' then SkipBlanks(s, i + 1, lim) else i
  }

  /** The end of an element: the next `,` or `]`. */
  function ElementEnd(s: string, i: nat, lim: nat): (r: nat)
    requires i <= lim < |s| && s[lim] == ']'
    ensures i <= r <= lim && (s[r] == ',' || s[r] == ']')
    decreases lim - i
  {
    if s[i] == ',' || s[i] == ']' then i else ElementEnd(s, i + 1, lim)
  }

  /** The element's end after dropping trailing blanks. */
  function DropBlanks(s: string, st: nat, en: nat): (r: nat)
    requires st <= en <= |s|
    ensures st <= r <= en && (r > st ==> s[r - 1] != ' ')
    decreases en - st
  {
    if en > st && s[en - 1] == ' ' then DropBlanks(s, st, en - 1) else en
  }

  /**
   * `get_entry_array`'s loop, from the position `ai` it increments first:
   * each element has its blanks trimmed. `asWritten` resumes one past the
   * separator, so the increment then skips the next element's first byte;
   * otherwise it resumes at the separator.
   */
  function Elements(s: string, ai: nat, alast: nat, asWritten: bool): (r: seq<string>)
    requires ai <= |s| && alast < |s| && s[alast] == ']'
    decreases |s| - ai
  {
    var a := ai + 1;
    if a >= alast then []
    else
      var st := SkipBlanks(s, a, alast);
      var en := ElementEnd(s, st, alast);
      var next := if asWritten then en + 1 else en;
      [s[st..DropBlanks(s, st, en)]] + Elements(s, next, alast, asWritten)
  }

  /** The array in a value: from the first `[` to the next `]`; none without both. */
  function ParseArray(s: string, asWritten: bool): seq<string>
  {
    match Find(s, '[', 0)
    case None => []
    case Some(ai) =>
      match Find(s, ']', ai)
      case None => []
      case Some(alast) => Elements(s, ai, alast, asWritten)
  }

  /** `get_entry_array` as written. */
  function GetEntryArrayAsWritten(es: seq<Entry>, name: string): seq<string>
  {
    ParseArray(GetEntryStr(es, name), true)
  }

  /** `get_entry_array` with the element scan resuming at the separator. */
  function GetEntryArray(es: seq<Entry>, name: string): seq<string>
  {
    ParseArray(GetEntryStr(es, name), false)
  }

  /** An element `set_entry_array` can store and `get_entry_array` read back: no separator, no bracket, no edge blanks. */
  predicate PlainElement(e: string)
  {
    (forall k :: 0 <= k < |e| ==> e[k] != ',' && e[k] != ']') && (e == [] || (e[0] != ' ' && e[|e| - 1] != ' '))
  }

  /** The elements a stored array reads back as; the last must not be empty, as an empty last element leaves no trace. */
  predicate PlainArray(v: seq<string>)
  {
    (forall i :: 0 <= i < |v| ==> PlainElement(v[i])) && (v != [] ==> v[|v| - 1] != [])
  }

  /** `SkipBlanks` passes over blanks only. */
  lemma {:induction false} SkipBlanksPasses(s: string, i: nat, lim: nat)
    requires i <= lim < |s| && s[lim] == ']'
    ensures forall k :: i <= k < SkipBlanks(s, i, lim) ==> s[k] == ' '
    decreases lim - i
  {
    if s[i] == ' ' {
      SkipBlanksPasses(s, i + 1, lim);
    }
  }

  /** `ElementEnd` passes over no separator. */
  lemma {:induction false} ElementEndPasses(s: string, i: nat, lim: nat)
    requires i <= lim < |s| && s[lim] == ']'
    ensures forall k :: i <= k < ElementEnd(s, i, lim) ==> s[k] != ',' && s[k] != ']'
    decreases lim - i
  {
    if s[i] != ',' && s[i] != ']' {
      ElementEndPasses(s, i + 1, lim);
    }
  }

  /** `DropBlanks` drops blanks only. */
  lemma {:induction false} DropBlanksPasses(s: string, st: nat, en: nat)
    requires st <= en <= |s|
    ensures forall k :: DropBlanks(s, st, en) <= k < en ==> s[k] == ' '
    decreases en - st
  {
    if en > st && s[en - 1] == ' ' {
      DropBlanksPasses(s, st, en - 1);
    }
  }

  /** One element between `a` and the separator after it: the scan finds exactly its bounds. */
  lemma ElementAt(s: string, a: nat, lim: nat, w: string)
    requires a + |w| <= lim < |s| && s[lim] == ']' && PlainElement(w)
    requires s[a..a + |w|] == w && (s[a + |w|] == ',' || s[a + |w|] == ']')
    ensures SkipBlanks(s, a, lim) == a && ElementEnd(s, a, lim) == a + |w| && DropBlanks(s, a, a + |w|) == a + |w|
  {
    var q := a + |w|;
    SkipBlanksPasses(s, a, lim);
    ElementEndPasses(s, a, lim);
    DropBlanksPasses(s, a, q);
    assert forall k :: a <= k < q ==> s[k] == w[k - a];
    if w != [] {
      assert s[a] == w[0] && s[q - 1] == w[|w| - 1];
    }
  }

  /**
   * From the separator at `p`, `s` holds the elements `v` in turn, each
   * right after its separator and followed by `,` or by the `]` at `lim`.
   */
  predicate Laid(s: string, p: nat, lim: nat, v: seq<string>)
    decreases |v|
  {
    if v == [] then p == lim
    else
      var a, q := p + 1, p + 1 + |v[0]|;
      a < lim && q <= lim < |s| && s[a..q] == v[0] && (s[q] == ',' || s[q] == ']') && Laid(s, q, lim, v[1..])
  }

  /** The scan from the separator at `p` reads the element `w` the scanning functions bound, and goes on from the separator after it. */
  lemma ElementsStep(s: string, p: nat, lim: nat, w: string)
    requires p + 1 < lim < |s| && s[lim] == ']'
    requires SkipBlanks(s, p + 1, lim) == p + 1 && ElementEnd(s, p + 1, lim) == p + 1 + |w|
    requires DropBlanks(s, p + 1, p + 1 + |w|) == p + 1 + |w| && s[p + 1..p + 1 + |w|] == w
    ensures Elements(s, p, lim, false) == [w] + Elements(s, p + 1 + |w|, lim, false)
  {
  }

  /** Over laid-out elements, the scan reads the first plain one and goes on at the separator after it. */
  lemma LaidHead(s: string, p: nat, lim: nat, v: seq<string>)
    requires p <= lim < |s| && s[lim] == ']' && Laid(s, p, lim, v) && v != [] && PlainElement(v[0])
    ensures p + 1 + |v[0]| <= lim && Laid(s, p + 1 + |v[0]|, lim, v[1..])
    ensures Elements(s, p, lim, false) == [v[0]] + Elements(s, p + 1 + |v[0]|, lim, false)
  {
    ElementAt(s, p + 1, lim, v[0]);
    ElementsStep(s, p, lim, v[0]);
  }

  /** Over laid-out plain elements, the scan reads exactly those elements. */
  lemma {:induction false} LaidElements(s: string, p: nat, lim: nat, v: seq<string>)
    requires p <= lim < |s| && s[lim] == ']' && Laid(s, p, lim, v)
    requires forall i :: 0 <= i < |v| ==> PlainElement(v[i])
    ensures Elements(s, p, lim, false) == v
    decreases |v|
  {
    if v != [] {
      LaidHead(s, p, lim, v);
      assert forall i :: 0 <= i < |v[1..]| ==> v[1..][i] == v[i + 1];
      LaidElements(s, p + 1 + |v[0]|, lim, v[1..]);
      assert [v[0]] + v[1..] == v;
    }
  }

  /** An array text after its separator at `p`: the first element, then the text of the rest. */
  lemma ArrayTextSplit(s: string, p: nat, v: seq<string>, c: char)
    requires p < |s| && s[p..] == ArrayText(v, c) && PlainArray(v) && v != []
    ensures p + 1 < |s| - 1 && p + 1 + |v[0]| < |s| && PlainArray(v[1..])
    ensures s[p + 1..p + 1 + |v[0]|] == v[0]
    ensures s[p + 1 + |v[0]|..] == ArrayText(v[1..], ',')
    ensures s[p + 1 + |v[0]|] == ',' || s[p + 1 + |v[0]|] == ']'
  {
    var w := v[0];
    var rest := ArrayText(v[1..], ',');
    var a := p + 1;
    var q := a + |w|;
    assert s[p..] == [c] + w + rest;
    assert s[a..q] == w;
    assert s[q..] == rest;
    assert s[q] == rest[0];
    assert a < |s| - 1 by {
      if |v| == 1 {
        assert w != [];
      }
    }
    assert PlainArray(v[1..]) by {
      assert forall i :: 0 <= i < |v[1..]| ==> v[1..][i] == v[i + 1];
    }
  }

  /** The array text of plain elements `v`, from the separator at `p` to the end of `s`, lays them out. */
  lemma {:induction false} ArrayTextLaid(s: string, p: nat, v: seq<string>, c: char)
    requires p < |s| && s[p..] == ArrayText(v, c) && PlainArray(v)
    ensures Laid(s, p, |s| - 1, v)
    decreases |v|
  {
    if v == [] {
      assert |s[p..]| == 1;
    } else {
      ArrayTextSplit(s, p, v, c);
      ArrayTextLaid(s, p + 1 + |v[0]|, v[1..], ',');
    }
  }

  /** No `]` before the end of an array text whose elements have none. */
  lemma {:induction false} TextBracketAtEnd(v: seq<string>, c: char)
    requires c != ']' && forall i :: 0 <= i < |v| ==> PlainElement(v[i])
    ensures forall k :: 0 <= k < |ArrayText(v, c)| - 1 ==> ArrayText(v, c)[k] != ']'
    decreases |v|
  {
    if v != [] {
      var rest := ArrayText(v[1..], ',');
      TextBracketAtEnd(v[1..], ',');
      var s := ArrayText(v, c);
      assert s == [c] + v[0] + rest;
      assert s[0] == c && PlainElement(v[0]);
      forall k | 0 <= k < |s| - 1
        ensures s[k] != ']'
      {
        if k == 0 {
          assert s[k] == c;
        } else if k < 1 + |v[0]| {
          assert s[k] == v[0][k - 1];
          assert v[0][k - 1] != ']';
        } else {
          var k' := k - 1 - |v[0]|;
          assert s[k] == rest[k'] && k' < |rest| - 1;
        }
      }
    }
  }

  /** `get_entry_array` reads back what `set_entry_array` stored, once it resumes at the separator. */
  lemma ArrayRoundTrip(es: seq<Entry>, name: string, v: seq<string>)
    requires Sorted(es) && PlainArray(v)
    ensures GetEntryArray(SetEntryArray(es, name, v), name) == v
  {
    ParseArrayText(v);
  }

  /** `get_entry_array`'s parse of a stored array text reads back its elements. */
  lemma ParseArrayText(v: seq<string>)
    requires PlainArray(v)
    ensures ParseArray(ArrayText(v, '['), false) == v
  {
    var s := ArrayText(v, '[');
    ArrayTextBrackets(v);
    if v != [] {
      assert s[0..] == s;
      ArrayTextLaid(s, 0, v, '[');
    }
    ParseLaid(s, v);
  }

  /** A stored array text opens with its `[` and closes with its only `]`, or is a lone `]` when empty. */
  lemma ArrayTextBrackets(v: seq<string>)
    requires PlainArray(v)
    ensures v == [] ==> Find(ArrayText(v, '['), '[', 0) == None
    ensures v != [] ==> Find(ArrayText(v, '['), '[', 0) == Some(0)
    ensures v != [] ==> Find(ArrayText(v, '['), ']', 0) == Some(|ArrayText(v, '[')| - 1)
  {
    var s := ArrayText(v, '[');
    TextBracketAtEnd(v, '[');
    if v == [] {
      assert s == "]";
    } else {
      assert s[0] == '[';
    }
  }

  /** The parse of a text that lays out plain elements between its first `[` and the `]` after it reads them back. */
  lemma ParseLaid(s: string, v: seq<string>)
    requires v == [] ==> Find(s, '[', 0) == None
    requires v != [] ==> Find(s, '[', 0) == Some(0) && Find(s, ']', 0) == Some(|s| - 1) && Laid(s, 0, |s| - 1, v)
    requires PlainArray(v)
    ensures ParseArray(s, false) == v
  {
    if v != [] {
      LaidElements(s, 0, |s| - 1, v);
    }
  }

  /** As written, a two-element array loses the first byte of its second element. */
  lemma ArrayLosesByteAsWritten(es: seq<Entry>)
    requires Sorted(es)
    ensures GetEntryArrayAsWritten(SetEntryArray(es, "a", ["ab", "cd"]), "a") == ["ab", "d"]
  {
    var s := ArrayText(["ab", "cd"], '[');
    assert s == "[ab,cd]" by {
      assert ArrayText(["cd"], ',') == ",cd]";
    }
    StrRoundTrip(es, "a", s);
    ParseTwoAsWritten(s);
  }

  /** The as-written scan of `[ab,cd]`. */
  lemma ParseTwoAsWritten(s: string)
    requires s == "[ab,cd]"
    ensures ParseArray(s, true) == ["ab", "d"]
  {
    assert s[0] == '[';
    assert Find(s, ']', 0) == Some(6) by {
      assert s[6] == ']' && forall k :: 0 <= k < 6 ==> s[k] != ']';
    }
    FirstElementAsWritten(s);
    SecondElementAsWritten(s);
  }

  lemma FirstElementAsWritten(s: string)
    requires s == "[ab,cd]"
    ensures Elements(s, 0, 6, true) == ["ab"] + Elements(s, 4, 6, true)
  {
    assert s[1..3] == "ab" && s[3] == ',';
    ElementAt(s, 1, 6, "ab");
  }

  lemma SecondElementAsWritten(s: string)
    requires s == "[ab,cd]"
    ensures Elements(s, 4, 6, true) == ["d"]
  {
    assert s[5..6] == "d" && s[6] == ']';
    ElementAt(s, 5, 6, "d");
  }

  //}}}
  //{{{ Whole keys

  /** One pass of `subtract`'s loop: drop `k`'s name when it holds `k`'s value. */
  function DropSame(es: seq<Entry>, k: Entry): (r: seq<Entry>)
    ensures |r| <= |es| && forall j :: 0 <= j < |r| ==> r[j] in es
  {
    var me := FindEntry(es, k.name);
    if me.Some? && es[me.value].value == k.value then
      var r := es[..me.value] + es[me.value + 1..];
      assert forall j :: 0 <= j < |r| ==> r[j] in es by {
        forall j | 0 <= j < |r| ensures r[j] in es {
          if j >= me.value { assert r[j] == es[j + 1]; }
        }
      }
      r
    else es
  }

  /** `subtract`: drop each entry `k` also has with the same value. */
  function SubtractEntries(es: seq<Entry>, ks: seq<Entry>): (r: seq<Entry>)
    ensures |r| <= |es| && forall j :: 0 <= j < |r| ==> r[j] in es
    decreases |ks|
  {
    if ks == [] then es else SubtractEntries(DropSame(es, ks[0]), ks[1..])
  }

  /** Whether `k`'s entries hold `e`'s name with `e`'s value. */
  predicate SameIn(ks: seq<Entry>, n: string, e: Option<Entry>)
  {
    e.Some? && Lookup(ks, n).Some? && Lookup(ks, n).value.value == e.value.value
  }

  /** The first entry of a sorted list, and the names after it. */
  lemma HeadLookup(ks: seq<Entry>, n: string)
    requires Sorted(ks) && ks != []
    ensures Lookup(ks, n) == if n == ks[0].name then Some(ks[0]) else Lookup(ks[1..], n)
    ensures Sorted(ks[1..]) && Lookup(ks[1..], ks[0].name) == None
  {
    forall j | 0 <= j < |ks[1..]|
      ensures ks[1..][j].name != ks[0].name
    {
      assert Less(ks[0].name, ks[j + 1].name);
      LessIrreflexive(ks[0].name);
    }
  }

  /** After `subtract`, a name is gone exactly when the other key gives it the same value. */
  lemma {:induction false} SubtractLookup(es: seq<Entry>, ks: seq<Entry>, n: string)
    requires Sorted(es) && Sorted(ks)
    ensures Sorted(SubtractEntries(es, ks))
    ensures Lookup(SubtractEntries(es, ks), n) == if SameIn(ks, n, Lookup(es, n)) then None else Lookup(es, n)
    decreases |ks|
  {
    if ks != [] {
      SubtractStep(es, ks, n);
      SubtractLookup(DropSame(es, ks[0]), ks[1..], n);
    }
  }

  /** One step of `subtract`: what the rest of the other key leaves of a name after the first entry's drop is what the whole key leaves. */
  lemma SubtractStep(es: seq<Entry>, ks: seq<Entry>, n: string)
    requires Sorted(es) && Sorted(ks) && ks != []
    ensures Sorted(DropSame(es, ks[0])) && Sorted(ks[1..])
    ensures var es' := DropSame(es, ks[0]);
      (if SameIn(ks[1..], n, Lookup(es', n)) then None else Lookup(es', n)) ==
      (if SameIn(ks, n, Lookup(es, n)) then None else Lookup(es, n))
  {
    var me := FindEntry(es, ks[0].name);
    var drop := me.Some? && es[me.value].value == ks[0].value;
    var es' := DropSame(es, ks[0]);
    HeadLookup(ks, n);
    if drop {
      RemoveSorted(es, me.value);
      assert Lookup(es', n) == if n == ks[0].name then None else Lookup(es, n);
    }
    if n == ks[0].name {
      assert !SameIn(ks[1..], n, Lookup(es', n));
      if !drop {
        assert me == FindEntry(es, n);
        assert !SameIn(ks, n, Lookup(es, n));
      }
    } else {
      assert Lookup(es', n) == Lookup(es, n) && Lookup(ks, n) == Lookup(ks[1..], n);
    }
  }

  /** `subtract` over every name at once. */
  lemma SubtractLookupAll(es: seq<Entry>, ks: seq<Entry>)
    requires Sorted(es) && Sorted(ks)
    ensures Sorted(SubtractEntries(es, ks))
    ensures forall n :: Lookup(SubtractEntries(es, ks), n) == if SameIn(ks, n, Lookup(es, n)) then None else Lookup(es, n)
  {
    SubtractLookup(es, ks, "");
    forall n
      ensures Lookup(SubtractEntries(es, ks), n) == if SameIn(ks, n, Lookup(es, n)) then None else Lookup(es, n)
    {
      SubtractLookup(es, ks, n);
    }
  }

  /**
   * `SettingsKey::subtract`: the key keeps its path, file and time, and
   * loses exactly the entries the other key holds with the same value.
   */
  function Subtract(k: Key, other: Key): (r: Key)
    ensures r.path == k.path && r.filename == k.filename && r.modified == k.modified
    ensures |r.entries| <= |k.entries| && forall j :: 0 <= j < |r.entries| ==> r.entries[j] in k.entries
    ensures Sorted(k.entries) && Sorted(other.entries) ==>
      Sorted(r.entries) &&
      forall n :: Lookup(r.entries, n) == if SameIn(other.entries, n, Lookup(k.entries, n)) then None else Lookup(k.entries, n)
  {
    var r := k.(entries := SubtractEntries(k.entries, other.entries));
    if Sorted(k.entries) && Sorted(other.entries) then
      SubtractLookupAll(k.entries, other.entries);
      r
    else r
  }

  /** `merge`'s loop: `set_entry` for each of the other key's entries, description included. */
  function MergeEntries(es: seq<Entry>, ks: seq<Entry>): (r: seq<Entry>)
    decreases |ks|
  {
    if ks == [] then es else MergeEntries(SetEntryAsWritten(es, ks[0].name, Some(ks[0].value), ks[0].description), ks[1..])
  }

  /** What a name finds after a merge: the other key's value, the description by `set_entry` as written; else what it found before. */
  function Merged(es: seq<Entry>, ks: seq<Entry>, n: string): Option<Entry>
  {
    match Lookup(ks, n)
    case Some(kv) => Some(Entry(n, kv.value, KeptDescriptionAsWritten(Lookup(es, n), kv.description)))
    case None => Lookup(es, n)
  }

  /** Merging keeps the order, and each name finds its merged entry. */
  lemma {:induction false} MergeLookup(es: seq<Entry>, ks: seq<Entry>, n: string)
    requires Sorted(es) && Sorted(ks)
    ensures Sorted(MergeEntries(es, ks))
    ensures Lookup(MergeEntries(es, ks), n) == Merged(es, ks, n)
    decreases |ks|
  {
    if ks != [] {
      var e := ks[0];
      var es' := SetEntryAsWritten(es, e.name, Some(e.value), e.description);
      SetEntryAsWrittenLookup(es, e.name, Some(e.value), e.description);
      HeadLookup(ks, n);
      MergeLookup(es', ks[1..], n);
      if n == e.name {
        assert Lookup(ks[1..], n).None?;
      } else {
        assert Lookup(es', n) == Lookup(es, n);
      }
    }
  }

  /** `MergeLookup` for every name at once. */
  lemma MergeLookupAll(es: seq<Entry>, ks: seq<Entry>)
    requires Sorted(es) && Sorted(ks)
    ensures Sorted(MergeEntries(es, ks))
    ensures forall n :: Lookup(MergeEntries(es, ks), n) == Merged(es, ks, n)
  {
    MergeLookup(es, ks, "");
    forall n
      ensures Lookup(MergeEntries(es, ks), n) == Merged(es, ks, n)
    {
      MergeLookup(es, ks, n);
    }
  }

  /**
   * `SettingsKey::merge`: the other key's non-empty file name, the later of
   * the two times, and the other key's entries set over this key's.
   */
  function Merge(k: Key, other: Key): (r: Key)
    ensures r.path == k.path && r.modified >= k.modified && r.modified >= other.modified
    ensures r.modified == k.modified || r.modified == other.modified
    ensures other.filename != "" ==> r.filename == other.filename
    ensures other.filename == "" ==> r.filename == k.filename
    ensures Sorted(k.entries) && Sorted(other.entries) ==>
      Sorted(r.entries) && forall n :: Lookup(r.entries, n) == Merged(k.entries, other.entries, n)
  {
    var es := MergeEntries(k.entries, other.entries);
    var r := Key(k.path, if other.filename != "" then other.filename else k.filename,
      if other.modified > k.modified then other.modified else k.modified, es);
    if Sorted(k.entries) && Sorted(other.entries) then
      MergeLookupAll(k.entries, other.entries);
      r
    else r
  }

  /** `name`: the path after its last `/`, or the whole path. */
  function Name(path: string): (r: string)
    ensures |r| <= |path| && r == path[|path| - |r|..]
    ensures forall k :: 0 <= k < |r| ==> r[k] != '/'
    ensures |r| < |path| ==> path[|path| - |r| - 1] == '/'
  {
    match FindLast(path, '/')
    case None => path
    case Some(i) => path[i + 1..]
  }

  //}}}
  //{{{ The packed layout

  /** The key as the source stores it: path, file name, then name, value and description of each entry. */
  function Strings(k: Key): (r: seq<string>)
    ensures |r| == 2 + 3 * |k.entries|
  {
    [k.path, k.filename] + EntryStrings(k.entries)
  }

  function EntryStrings(es: seq<Entry>): (r: seq<string>)
    ensures |r| == 3 * |es|
  {
    if es == [] then [] else [es[0].name, es[0].value, es[0].description] + EntryStrings(es[1..])
  }

  /** Bytes of the packed block: each string and its NUL. */
  function BlockSize(strs: seq<string>): (n: nat)
    ensures n >= |strs|
  {
    if strs == [] then 0 else |strs[0]| + 1 + BlockSize(strs[1..])
  }

  /** `SettingsKey::is_valid`: at least two bytes, and path, file name and whole entries of three strings. */
  predicate IsValid(strs: seq<string>)
  {
    BlockSize(strs) >= 2 && |strs| >= 2 && (|strs| - 2) % 3 == 0
  }

  /** Reading the entries back from their strings. */
  function ParseEntries(strs: seq<string>): (r: seq<Entry>)
    requires |strs| % 3 == 0
    ensures |r| == |strs| / 3
    decreases |strs|
  {
    if strs == [] then [] else [Entry(strs[0], strs[1], strs[2])] + ParseEntries(strs[3..])
  }

  /** The key a valid block holds. */
  function Unpack(strs: seq<string>, modified: int): (k: Key)
    requires IsValid(strs)
  {
    Key(strs[0], strs[1], modified, ParseEntries(strs[2..]))
  }

  lemma {:induction false} ParseEntryStrings(es: seq<Entry>)
    ensures ParseEntries(EntryStrings(es)) == es
    decreases |es|
  {
    if es != [] {
      var s := EntryStrings(es);
      assert s[3..] == EntryStrings(es[1..]);
      ParseEntryStrings(es[1..]);
    }
  }

  lemma {:induction false} EntryStringsOfParse(strs: seq<string>)
    requires |strs| % 3 == 0
    ensures EntryStrings(ParseEntries(strs)) == strs
    decreases |strs|
  {
    if strs != [] {
      EntryStringsOfParse(strs[3..]);
      var es := ParseEntries(strs);
      assert es[1..] == ParseEntries(strs[3..]);
      assert strs == strs[..3] + strs[3..];
    }
  }

  /** Every key packs into a valid block, and the block unpacks to the key. */
  lemma PackedKeyValid(k: Key)
    ensures IsValid(Strings(k)) && Unpack(Strings(k), k.modified) == k
  {
    var s := Strings(k);
    assert s[2..] == EntryStrings(k.entries);
    ParseEntryStrings(k.entries);
  }

  /** A valid block is exactly the packing of the key it holds. */
  lemma ValidBlockPacks(strs: seq<string>, modified: int)
    requires IsValid(strs)
    ensures Strings(Unpack(strs, modified)) == strs
  {
    EntryStringsOfParse(strs[2..]);
    assert strs == [strs[0], strs[1]] + strs[2..];
  }

  //}}}
}
