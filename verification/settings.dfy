/**
 * The settings store: keys kept in `strcmp` order of their paths, found by
 * binary search and inserted at their lower bound; whole keys merged or
 * replaced, a new key created with the store's file name and time, the
 * keys under a path matched or deleted, and the missing parents of keys
 * created.
 */
module Settings {
  import opened Wrappers
  import opened CStr
  import opened SettingsKey

  //{{{ Order and lookup

  /** Key paths strictly increase: the order the store keeps, with no path twice. */
  predicate Ordered(ks: seq<Key>)
  {
    forall i, j :: 0 <= i < j < |ks| ==> Less(ks[i].path, ks[j].path)
  }

  /** `Settings::is_valid`: every key block is valid and no key sorts before the one ahead of it. */
  predicate IsValid(ks: seq<Key>)
  {
    (forall i :: 0 <= i < |ks| ==> SettingsKey.IsValid(Strings(ks[i]))) &&
    forall i :: 0 < i < |ks| ==> !Less(ks[i].path, ks[i - 1].path)
  }

  /** A chain of increasing neighbours is increasing throughout. */
  lemma {:induction false} ChainOrdered(ks: seq<Key>)
    requires forall i :: 0 < i < |ks| ==> Less(ks[i - 1].path, ks[i].path)
    ensures Ordered(ks)
    decreases |ks|
  {
    if |ks| > 1 {
      var init := ks[..|ks| - 1];
      ChainOrdered(init);
      forall i, j | 0 <= i < j < |ks|
        ensures Less(ks[i].path, ks[j].path)
      {
        if j == |ks| - 1 && i < j - 1 {
          assert init[i] == ks[i] && init[j - 1] == ks[j - 1];
          LessTransitive(ks[i].path, ks[j - 1].path, ks[j].path);
        } else if j < |ks| - 1 {
          assert init[i] == ks[i] && init[j] == ks[j];
        }
      }
    }
  }

  /** The store's order is exactly what `is_valid` checks, with no two neighbours sharing a path. */
  lemma OrderedIsValid(ks: seq<Key>)
    ensures Ordered(ks) <==> IsValid(ks) && forall i :: 0 < i < |ks| ==> ks[i].path != ks[i - 1].path
  {
    forall i | 0 <= i < |ks|
      ensures SettingsKey.IsValid(Strings(ks[i]))
    {
      PackedKeyValid(ks[i]);
    }
    if Ordered(ks) {
      forall i | 0 < i < |ks|
        ensures !Less(ks[i].path, ks[i - 1].path) && ks[i].path != ks[i - 1].path
      {
        LessAsymmetric(ks[i].path, ks[i - 1].path);
        LessIrreflexive(ks[i].path);
      }
    } else if IsValid(ks) && forall i :: 0 < i < |ks| ==> ks[i].path != ks[i - 1].path {
      forall i | 0 < i < |ks|
        ensures Less(ks[i - 1].path, ks[i].path)
      {
        LessTotal(ks[i].path, ks[i - 1].path);
      }
      ChainOrdered(ks);
    }
  }

  /** The first key with path `p`. */
  function FindKey(ks: seq<Key>, p: string): (r: Option<nat>)
    ensures r.Some? ==> r.value < |ks| && ks[r.value].path == p && forall j :: 0 <= j < r.value ==> ks[j].path != p
    ensures r.None? ==> forall j :: 0 <= j < |ks| ==> ks[j].path != p
  {
    if ks == [] then None
    else if ks[0].path == p then Some(0)
    else match FindKey(ks[1..], p)
      case None => None
      case Some(i) => Some(i + 1)
  }

  /** `get_key`: the key with path `p`, if any. */
  function GetKey(ks: seq<Key>, p: string): (r: Option<Key>)
    ensures r.Some? ==> r.value in ks && r.value.path == p
    ensures r.None? ==> forall j :: 0 <= j < |ks| ==> ks[j].path != p
  {
    match FindKey(ks, p)
    case None => None
    case Some(i) => Some(ks[i])
  }

  /** In an ordered store every key is the one its path finds. */
  lemma OrderedFind(ks: seq<Key>, i: nat)
    requires Ordered(ks) && i < |ks|
    ensures FindKey(ks, ks[i].path) == Some(i) && GetKey(ks, ks[i].path) == Some(ks[i])
  {
    var k := FindKey(ks, ks[i].path).value;
    if k < i {
      LessIrreflexive(ks[i].path);
    }
  }

  /** The first key and the keys after it. */
  lemma HeadKey(ks: seq<Key>, p: string)
    requires ks != []
    ensures GetKey(ks, p) == if ks[0].path == p then Some(ks[0]) else GetKey(ks[1..], p)
  {
  }

  /** After the first key of an ordered store, its path is not found again. */
  lemma HeadKeyOnce(ks: seq<Key>)
    requires Ordered(ks) && ks != []
    ensures Ordered(ks[1..]) && GetKey(ks[1..], ks[0].path) == None
  {
    forall j | 0 <= j < |ks[1..]|
      ensures ks[1..][j].path != ks[0].path
    {
      assert Less(ks[0].path, ks[j + 1].path);
      LessIrreflexive(ks[0].path);
    }
  }

  /** `lower_bound`: the first key whose path is not below `p`. */
  function LowerBound(ks: seq<Key>, p: string): (lb: nat)
    ensures lb <= |ks| && forall i :: 0 <= i < lb ==> Less(ks[i].path, p)
    ensures lb < |ks| ==> !Less(ks[lb].path, p)
    decreases |ks|
  {
    if ks == [] || !Less(ks[0].path, p) then 0 else 1 + LowerBound(ks[1..], p)
  }

  /** In an ordered store the key with path `p`, if any, is at the lower bound, and every later path is above `p`. */
  lemma LowerBoundFinds(ks: seq<Key>, p: string)
    requires Ordered(ks)
    ensures var lb := LowerBound(ks, p);
      GetKey(ks, p) == (if lb < |ks| && ks[lb].path == p then Some(ks[lb]) else None) &&
      forall j :: lb <= j < |ks| && ks[j].path != p ==> Less(p, ks[j].path)
  {
    var lb := LowerBound(ks, p);
    if lb < |ks| && ks[lb].path == p {
      OrderedFind(ks, lb);
    } else {
      forall j | 0 <= j < |ks|
        ensures ks[j].path != p
      {
        if j < lb {
          LessIrreflexive(p);
        }
      }
    }
    forall j | lb <= j < |ks| && ks[j].path != p
      ensures Less(p, ks[j].path)
    {
      LessTotal(ks[j].path, p);
      if j > lb && Less(ks[j].path, p) {
        LessTransitive(ks[lb].path, ks[j].path, p);
      }
    }
  }

  //}}}
  //{{{ Writing one key

  /** The store with `k` written at position `lb`: over the key there when it has `k`'s path, else inserted before it. */
  function PutKey(ks: seq<Key>, lb: nat, k: Key): (r: seq<Key>)
    requires lb <= |ks|
    ensures |r| == |ks| || |r| == |ks| + 1
  {
    if lb < |ks| && ks[lb].path == k.path then ks[lb := k] else ks[..lb] + [k] + ks[lb..]
  }

  /** Inserting a key between the paths below and above it keeps the order and adds exactly its path. */
  lemma InsertKeyOrdered(ks: seq<Key>, lb: nat, k: Key)
    requires Ordered(ks) && lb <= |ks|
    requires forall i :: 0 <= i < lb ==> Less(ks[i].path, k.path)
    requires forall j :: lb <= j < |ks| ==> Less(k.path, ks[j].path)
    ensures var r := ks[..lb] + [k] + ks[lb..];
      Ordered(r) && forall p :: GetKey(r, p) == if p == k.path then Some(k) else GetKey(ks, p)
  {
    var r := ks[..lb] + [k] + ks[lb..];
    assert forall i :: 0 <= i < lb ==> r[i] == ks[i];
    assert forall i :: lb < i < |r| ==> r[i] == ks[i - 1];
    forall i, j | 0 <= i < j < |r|
      ensures Less(r[i].path, r[j].path)
    {
      if i < lb && j > lb {
        LessTransitive(r[i].path, k.path, r[j].path);
      }
    }
    forall p
      ensures GetKey(r, p) == if p == k.path then Some(k) else GetKey(ks, p)
    {
      if p == k.path {
        OrderedFind(r, lb);
      } else if GetKey(ks, p).Some? {
        var j := FindKey(ks, p).value;
        OrderedFind(ks, j);
        if j < lb {
          OrderedFind(r, j);
        } else {
          assert r[j + 1] == ks[j];
          OrderedFind(r, j + 1);
        }
      } else {
        forall i | 0 <= i < |r|
          ensures r[i].path != p
        {
          if i < lb {
            assert r[i] == ks[i];
          } else if i > lb {
            assert r[i] == ks[i - 1];
          }
        }
      }
    }
  }

  /** Replacing a key by one with the same path keeps the order and changes only that path's key. */
  lemma ReplaceKeyOrdered(ks: seq<Key>, i: nat, k: Key)
    requires Ordered(ks) && i < |ks| && k.path == ks[i].path
    ensures var r := ks[i := k];
      Ordered(r) && forall p :: GetKey(r, p) == if p == k.path then Some(k) else GetKey(ks, p)
  {
    var r := ks[i := k];
    forall p
      ensures GetKey(r, p) == if p == k.path then Some(k) else GetKey(ks, p)
    {
      if p == k.path {
        OrderedFind(r, i);
      } else if GetKey(ks, p).Some? {
        var j := FindKey(ks, p).value;
        OrderedFind(ks, j);
        OrderedFind(r, j);
      }
    }
  }

  /** Writing a key at the lower bound of its path keeps the order; that path finds the key, and no other path changes. */
  lemma PutKeyLookup(ks: seq<Key>, k: Key)
    requires Ordered(ks)
    ensures var r := PutKey(ks, LowerBound(ks, k.path), k);
      Ordered(r) && GetKey(r, k.path) == Some(k) &&
      (forall p :: p != k.path ==> GetKey(r, p) == GetKey(ks, p)) &&
      |r| == |ks| + (if GetKey(ks, k.path).None? then 1 else 0)
  {
    var lb := LowerBound(ks, k.path);
    LowerBoundFinds(ks, k.path);
    if lb < |ks| && ks[lb].path == k.path {
      ReplaceKeyOrdered(ks, lb, k);
    } else {
      InsertKeyOrdered(ks, lb, k);
    }
  }

  /** `set_key`: the key replaces the one with its path, or is inserted in order. */
  function SetKey(ks: seq<Key>, k: Key): (r: seq<Key>)
    ensures |r| == |ks| || |r| == |ks| + 1
  {
    PutKey(ks, LowerBound(ks, k.path), k)
  }

  /** After `set_key` the path finds the new key and nothing else changes. */
  lemma SetKeyLookup(ks: seq<Key>, k: Key)
    requires Ordered(ks)
    ensures var r := SetKey(ks, k);
      Ordered(r) && GetKey(r, k.path) == Some(k) && forall p :: p != k.path ==> GetKey(r, p) == GetKey(ks, p)
  {
    PutKeyLookup(ks, k);
  }

  /** `merge_key`: the key is merged into the one with its path, or inserted in order. */
  function MergeKey(ks: seq<Key>, k: Key): (r: seq<Key>)
    ensures |r| == |ks| || |r| == |ks| + 1
  {
    var lb := LowerBound(ks, k.path);
    PutKey(ks, lb, if lb < |ks| && ks[lb].path == k.path then Merge(ks[lb], k) else k)
  }

  /** The key a path holds after merging `k` into what it held. */
  function Merged(prev: Option<Key>, k: Key): Key
  {
    match prev
    case None => k
    case Some(o) => Merge(o, k)
  }

  /** After `merge_key` the path finds the merge of the old key and the new one, and nothing else changes. */
  lemma MergeKeyLookup(ks: seq<Key>, k: Key)
    requires Ordered(ks)
    ensures var r := MergeKey(ks, k);
      Ordered(r) && GetKey(r, k.path) == Some(Merged(GetKey(ks, k.path), k)) &&
      forall p :: p != k.path ==> GetKey(r, p) == GetKey(ks, p)
  {
    var lb := LowerBound(ks, k.path);
    LowerBoundFinds(ks, k.path);
    var k' := Merged(GetKey(ks, k.path), k);
    assert MergeKey(ks, k) == PutKey(ks, LowerBound(ks, k'.path), k');
    PutKeyLookup(ks, k');
  }

  /** `set_keys`: `set_key` for each key of the other store, in its order. */
  function SetKeys(ks: seq<Key>, other: seq<Key>): seq<Key>
    decreases |other|
  {
    if other == [] then ks else SetKeys(SetKey(ks, other[0]), other[1..])
  }

  /** After `set_keys` every path of the other store finds its key there, and every other path what it found before. */
  lemma {:induction false} SetKeysLookup(ks: seq<Key>, other: seq<Key>, p: string)
    requires Ordered(ks) && Ordered(other)
    ensures Ordered(SetKeys(ks, other))
    ensures GetKey(SetKeys(ks, other), p) == if GetKey(other, p).Some? then GetKey(other, p) else GetKey(ks, p)
    decreases |other|
  {
    if other != [] {
      SetKeyLookup(ks, other[0]);
      HeadKey(other, p);
      HeadKeyOnce(other);
      SetKeysLookup(SetKey(ks, other[0]), other[1..], p);
    }
  }

  /** `Settings::merge`: `merge_key` for each key of the other store, in its order. */
  function MergeAll(ks: seq<Key>, other: seq<Key>): seq<Key>
    decreases |other|
  {
    if other == [] then ks else MergeAll(MergeKey(ks, other[0]), other[1..])
  }

  /** After merging a store every path it holds finds the merge of both keys, and every other path what it found before. */
  lemma {:induction false} MergeAllLookup(ks: seq<Key>, other: seq<Key>, p: string)
    requires Ordered(ks) && Ordered(other)
    ensures Ordered(MergeAll(ks, other))
    ensures GetKey(MergeAll(ks, other), p) ==
      match GetKey(other, p)
      case None => GetKey(ks, p)
      case Some(k) => Some(Merged(GetKey(ks, p), k))
    decreases |other|
  {
    if other != [] {
      MergeKeyLookup(ks, other[0]);
      HeadKey(other, p);
      HeadKeyOnce(other);
      MergeAllLookup(MergeKey(ks, other[0]), other[1..], p);
    }
  }

  /** Merging keys that all sort after the store's appends them. */
  lemma {:induction false} MergeAllAppends(ks: seq<Key>, other: seq<Key>)
    requires Ordered(ks + other)
    ensures MergeAll(ks, other) == ks + other
    decreases |other|
  {
    if other != [] {
      var all := ks + other;
      assert forall i :: 0 <= i < |ks| ==> Less(ks[i].path, other[0].path) by {
        assert forall i :: 0 <= i < |ks| ==> all[i] == ks[i];
        assert all[|ks|] == other[0];
      }
      assert LowerBound(ks, other[0].path) == |ks|;
      assert MergeKey(ks, other[0]) == ks + [other[0]];
      assert (ks + [other[0]]) + other[1..] == all;
      MergeAllAppends(ks + [other[0]], other[1..]);
    }
  }

  //}}}
  //{{{ Creating and deleting keys

  /** The key `create_key` makes: the store's file name and time (those of its first key), and no entries. */
  function NewKey(ks: seq<Key>, path: string): Key
  {
    if ks == [] then Key(path, "", 0, []) else Key(path, ks[0].filename, ks[0].modified, [])
  }

  /** `create_key`: the store and the position of the key with `path`, made when there was none. */
  function CreateKey(ks: seq<Key>, path: string): (r: (seq<Key>, nat))
    ensures r.1 < |r.0| && r.0[r.1].path == path
  {
    var lb := LowerBound(ks, path);
    if lb < |ks| && ks[lb].path == path then (ks, lb)
    else (PutKey(ks, lb, NewKey(ks, path)), lb)
  }

  /** `create_key` leaves an existing key alone and otherwise adds the new key in order, touching nothing else. */
  lemma CreateKeyLookup(ks: seq<Key>, path: string)
    requires Ordered(ks)
    ensures var r := CreateKey(ks, path);
      Ordered(r.0) && GetKey(r.0, path) == Some(r.0[r.1]) &&
      (GetKey(ks, path).Some? ==> r.0 == ks) &&
      (GetKey(ks, path).None? ==> r.0[r.1] == NewKey(ks, path) && |r.0| == |ks| + 1) &&
      forall p :: p != path ==> GetKey(r.0, p) == GetKey(ks, p)
  {
    LowerBoundFinds(ks, path);
    var lb := LowerBound(ks, path);
    if !(lb < |ks| && ks[lb].path == path) {
      PutKeyLookup(ks, NewKey(ks, path));
    }
  }

  /** The keys whose paths do not start with `path`: what `delete_key`'s `remove_if` keeps. */
  function Unprefixed(ks: seq<Key>, path: string): (r: seq<Key>)
    ensures |r| <= |ks|
    ensures forall i :: 0 <= i < |r| ==> !IsPrefix(path, r[i].path) && r[i] in ks
    decreases |ks|
  {
    if ks == [] then []
    else (if IsPrefix(path, ks[0].path) then [] else [ks[0]]) + Unprefixed(ks[1..], path)
  }

  /** How many keys have paths starting with `path`. */
  function CountPrefixed(ks: seq<Key>, path: string): nat
    decreases |ks|
  {
    if ks == [] then 0 else (if IsPrefix(path, ks[0].path) then 1 else 0) + CountPrefixed(ks[1..], path)
  }

  /**
   * `delete_key`: every key whose path starts with `path` goes, in one
   * pass, and the count removed is returned. The test is a plain prefix
   * test, so deleting `a/b` also removes a sibling such as `a/bc`. Those
   * paths find nothing afterwards, every other path finds what it found
   * before, and the order is kept.
   */
  function DeleteKey(ks: seq<Key>, path: string): (r: (seq<Key>, nat))
    ensures r.1 == CountPrefixed(ks, path) && |r.0| == |ks| - r.1
    ensures forall p :: GetKey(r.0, p) == if IsPrefix(path, p) then None else GetKey(ks, p)
    ensures Ordered(ks) ==> Ordered(r.0)
  {
    var kept := Unprefixed(ks, path);
    UnprefixedCount(ks, path);
    assert forall p :: GetKey(kept, p) == if IsPrefix(path, p) then None else GetKey(ks, p) by {
      forall p
        ensures GetKey(kept, p) == if IsPrefix(path, p) then None else GetKey(ks, p)
      {
        UnprefixedLookup(ks, path, p);
      }
    }
    if Ordered(ks) then
      UnprefixedOrdered(ks, path);
      (kept, |ks| - |kept|)
    else (kept, |ks| - |kept|)
  }

  /** Deleting keeps the order. */
  lemma {:induction false} UnprefixedOrdered(ks: seq<Key>, path: string)
    requires Ordered(ks)
    ensures Ordered(Unprefixed(ks, path))
    decreases |ks|
  {
    if ks != [] {
      HeadKeyOnce(ks);
      UnprefixedOrdered(ks[1..], path);
      var rest := Unprefixed(ks[1..], path);
      if !IsPrefix(path, ks[0].path) {
        var r := [ks[0]] + rest;
        forall i, j | 0 <= i < j < |r|
          ensures Less(r[i].path, r[j].path)
        {
          assert r[j] == rest[j - 1] && rest[j - 1] in ks[1..];
          if i > 0 {
            assert r[i] == rest[i - 1];
          }
        }
      }
    }
  }

  /** After deleting, paths starting with `path` find nothing and every other path finds what it found before. */
  lemma {:induction false} UnprefixedLookup(ks: seq<Key>, path: string, p: string)
    ensures GetKey(Unprefixed(ks, path), p) == if IsPrefix(path, p) then None else GetKey(ks, p)
    decreases |ks|
  {
    if ks != [] {
      UnprefixedLookup(ks[1..], path, p);
      HeadKey(ks, p);
      var rest := Unprefixed(ks[1..], path);
      if !IsPrefix(path, ks[0].path) {
        var r := [ks[0]] + rest;
        assert Unprefixed(ks, path) == r;
        assert r[1..] == rest;
        HeadKey(r, p);
      } else {
        assert Unprefixed(ks, path) == rest;
      }
    }
  }

  /** The keys `remove_if` drops are the ones starting with `path`. */
  lemma {:induction false} UnprefixedCount(ks: seq<Key>, path: string)
    ensures |ks| - |Unprefixed(ks, path)| == CountPrefixed(ks, path)
    decreases |ks|
  {
    if ks != [] {
      UnprefixedCount(ks[1..], path);
    }
  }

  //}}}
  //{{{ Matching a path

  /** The number of `/` in `s`. */
  function Slashes(s: string): nat
    decreases |s|
  {
    if s == [] then 0 else (if s[0] == '/' then 1 else 0) + Slashes(s[1..])
  }

  /** A key's depth below a path of `n` bytes: the slashes after them (`path/x/y` has depth 2). */
  function Depth(kpath: string, n: nat): nat
  {
    Slashes(kpath[if n <= |kpath| then n else |kpath|..])
  }

  /** Whether `match` selects the key: its path starts with `path`, at most `depth` levels below it. */
  predicate Selected(k: Key, path: string, depth: nat)
  {
    IsPrefix(path, k.path) && Depth(k.path, |path|) <= depth
  }

  /** `match`'s loop from position `i`: it stops at the first non-empty path not starting with `path` and skips keys too deep. */
  function MatchFrom(ks: seq<Key>, i: nat, path: string, depth: nat): seq<Key>
    decreases |ks| - i
  {
    if i >= |ks| then []
    else if ks[i].path != "" && !IsPrefix(path, ks[i].path) then []
    else (if Depth(ks[i].path, |path|) > depth then [] else [ks[i]]) + MatchFrom(ks, i + 1, path, depth)
  }

  /** `Settings::match`: the selected keys, starting from the lower bound of `path`, merged into `result`. */
  function Match(ks: seq<Key>, result: seq<Key>, path: string, depth: nat): seq<Key>
  {
    MergeAll(result, MatchFrom(ks, LowerBound(ks, path), path, depth))
  }

  /** The reference: every key from position `i` on that is selected, in order. */
  function SelectFrom(ks: seq<Key>, i: nat, path: string, depth: nat): (r: seq<Key>)
    ensures forall k :: k in r <==> exists j :: i <= j < |ks| && ks[j] == k && Selected(k, path, depth)
    decreases |ks| - i
  {
    if i >= |ks| then []
    else (if Selected(ks[i], path, depth) then [ks[i]] else []) + SelectFrom(ks, i + 1, path, depth)
  }

  /** No key before the lower bound starts with `path`. */
  lemma {:induction false} SelectBelowBound(ks: seq<Key>, i: nat, path: string, depth: nat)
    requires i <= LowerBound(ks, path)
    ensures SelectFrom(ks, i, path, depth) == SelectFrom(ks, LowerBound(ks, path), path, depth)
    decreases LowerBound(ks, path) - i
  {
    if i < LowerBound(ks, path) {
      if IsPrefix(path, ks[i].path) {
        PrefixNotLess(path, ks[i].path);
      }
      SelectBelowBound(ks, i + 1, path, depth);
    }
  }

  /** Once a key at or after the lower bound does not start with `path`, no later key does. */
  lemma {:induction false} SelectPastBlock(ks: seq<Key>, a: nat, i: nat, path: string, depth: nat)
    requires Ordered(ks) && a < |ks| && a <= i && !Less(ks[a].path, path) && !IsPrefix(path, ks[a].path)
    ensures SelectFrom(ks, i, path, depth) == []
    decreases |ks| - i
  {
    if i < |ks| {
      if i > a {
        LessAsymmetric(ks[a].path, ks[i].path);
      } else {
        LessIrreflexive(ks[a].path);
      }
      PrefixBlockEnds(path, ks[a].path, ks[i].path);
      SelectPastBlock(ks, a, i + 1, path, depth);
    }
  }

  /** In an ordered store no path at or after the lower bound is below `path`. */
  lemma AtOrAfterBound(ks: seq<Key>, i: nat, path: string)
    requires Ordered(ks) && LowerBound(ks, path) <= i < |ks|
    ensures !Less(ks[i].path, path)
  {
    var lb := LowerBound(ks, path);
    if i > lb && Less(ks[i].path, path) {
      LessTransitive(ks[lb].path, ks[i].path, path);
    }
  }

  /** From any position at or after the lower bound the loop selects what the reference selects. */
  lemma {:induction false} MatchFromSelects(ks: seq<Key>, i: nat, path: string, depth: nat)
    requires Ordered(ks) && LowerBound(ks, path) <= i
    ensures MatchFrom(ks, i, path, depth) == SelectFrom(ks, i, path, depth)
    decreases |ks| - i
  {
    if i < |ks| {
      AtOrAfterBound(ks, i, path);
      if !IsPrefix(path, ks[i].path) {
        SelectPastBlock(ks, i, i, path, depth);
      } else {
        MatchFromSelects(ks, i + 1, path, depth);
      }
    }
  }

  /** `match` into an empty store gives exactly the selected keys, in order: all keys starting with `path` down to `depth` levels. */
  lemma MatchSelects(ks: seq<Key>, path: string, depth: nat)
    requires Ordered(ks)
    ensures Match(ks, [], path, depth) == SelectFrom(ks, 0, path, depth)
    ensures forall k :: k in Match(ks, [], path, depth) <==> k in ks && Selected(k, path, depth)
  {
    var lb := LowerBound(ks, path);
    MatchFromSelects(ks, lb, path, depth);
    SelectBelowBound(ks, 0, path, depth);
    var sel := SelectFrom(ks, 0, path, depth);
    SelectOrdered(ks, 0, path, depth);
    assert [] + sel == sel;
    MergeAllAppends([], sel);
  }

  /** The selected keys keep the store's order. */
  lemma {:induction false} SelectOrdered(ks: seq<Key>, i: nat, path: string, depth: nat)
    requires Ordered(ks)
    ensures Ordered(SelectFrom(ks, i, path, depth))
    decreases |ks| - i
  {
    if i < |ks| {
      SelectOrdered(ks, i + 1, path, depth);
      var rest := SelectFrom(ks, i + 1, path, depth);
      if Selected(ks[i], path, depth) {
        var r := [ks[i]] + rest;
        forall a, b | 0 <= a < b < |r|
          ensures Less(r[a].path, r[b].path)
        {
          assert r[b] == rest[b - 1] && rest[b - 1] in rest;
          if a > 0 {
            assert r[a] == rest[a - 1];
          }
        }
      }
    }
  }

  //}}}
  //{{{ Creating missing parents

  /** The length of a path's directory part: up to its last `/`, or 0 without one. */
  function DirSize(path: string): (n: nat)
    ensures n < |path| || n == 0
    ensures n > 0 ==> path[n] == '/' && forall k :: n < k < |path| ==> path[k] != '/'
  {
    match FindLast(path, '/')
    case None => 0
    case Some(i) => i
  }

  /** The parent key's path: the directory part. */
  function Dir(path: string): (d: string)
    ensures |d| == DirSize(path) && d == path[..DirSize(path)]
  {
    path[..DirSize(path)]
  }

  /** `strncmp(a, b, n) == 0`: the first `n` bytes agree, or both strings end together before that. */
  predicate StrnEqual(a: string, b: string, n: nat)
  {
    if |a| >= n && |b| >= n then a[..n] == b[..n] else a == b
  }

  /** The test `create_all_paths` makes before creating a parent: no directory part, or the previous path agrees with the current one over its length. */
  predicate ParentSeenAsWritten(last: string, path: string)
  {
    DirSize(path) == 0 || StrnEqual(last, path, DirSize(path))
  }

  /**
   * The parents `create_all_paths` inserts before a key, outermost first:
   * each failed test inserts the parent at the key and revisits it, with the
   * same previous path; the first to pass ends the chain, and the ones below
   * it then pass against their own parents.
   */
  function ParentsAsWritten(path: string, last: string, fn: string, mod: int): seq<Key>
    decreases |path|
  {
    if ParentSeenAsWritten(last, path) then []
    else ParentsAsWritten(Dir(path), last, fn, mod) + [Key(Dir(path), fn, mod, [])]
  }

  /** `create_all_paths` as written, from the previous path `last` (initially empty). */
  function CreateAllPathsAsWritten(ks: seq<Key>, last: string): (r: seq<Key>)
    ensures forall i :: 0 <= i < |ks| ==> ks[i] in r
    decreases |ks|
  {
    if ks == [] then []
    else
      var r := ParentsAsWritten(ks[0].path, last, ks[0].filename, ks[0].modified) + [ks[0]] + CreateAllPathsAsWritten(ks[1..], ks[0].path);
      assert forall i :: 0 < i < |ks| ==> ks[i] == ks[1..][i - 1];
      r
  }

  lemma DirSizeOfExample()
    ensures DirSize("a/b.c") == 1 && DirSize("a/b/d") == 3 && DirSize("a") == 0
  {
    var x: string := "a/b.c";
    assert x[1] == '/' && x[2] != '/' && x[3] != '/' && x[4] != '/';
    var y: string := "a/b/d";
    assert y[3] == '/' && y[4] != '/';
    var z: string := "a";
    assert z[0] != '/';
  }

  /**
   * As written, a path with a byte below `/` after the directory name
   * (`a/b.c`) passes for the directory (`a/b`) of the next key (`a/b/d`),
   * so that key is left without its parent.
   */
  lemma CreateAllPathsAsWrittenMissesParent()
    ensures var r := CreateAllPathsAsWritten([Key("a/b.c", "", 0, []), Key("a/b/d", "", 0, [])], "");
      r == [Key("a", "", 0, []), Key("a/b.c", "", 0, []), Key("a/b/d", "", 0, [])] &&
      Dir("a/b/d") == "a/b" && GetKey(r, "a/b") == None
  {
    MissesParentStore();
    MissesParentLookup();
    DirSizeOfExample();
    assert "a/b/d"[..3] == "a/b";
  }

  /** The store `create_all_paths` builds in the example, as written. */
  lemma MissesParentStore()
    ensures CreateAllPathsAsWritten([Key("a/b.c", "", 0, []), Key("a/b/d", "", 0, [])], "") ==
      [Key("a", "", 0, []), Key("a/b.c", "", 0, []), Key("a/b/d", "", 0, [])]
  {
    var k1, k2 := Key("a/b.c", "", 0, []), Key("a/b/d", "", 0, []);
    MissesParentFirst();
    MissesParentSecond();
    assert CreateAllPathsAsWritten([k2], "a/b.c") == [k2] by {
      assert [k2][1..] == [];
    }
    assert [k1, k2][1..] == [k2];
  }

  /** As written, the example's first key gets its parent `a`. */
  lemma MissesParentFirst()
    ensures ParentsAsWritten("a/b.c", "", "", 0) == [Key("a", "", 0, [])]
  {
    DirSizeOfExample();
    assert !ParentSeenAsWritten("", "a/b.c") && Dir("a/b.c") == "a";
    assert ParentsAsWritten("a", "", "", 0) == [];
  }

  /** As written, the example's second key passes the parent test against the first. */
  lemma MissesParentSecond()
    ensures ParentsAsWritten("a/b/d", "a/b.c", "", 0) == []
  {
    DirSizeOfExample();
    assert StrnEqual("a/b.c", "a/b/d", 3);
  }

  /** None of the example's keys is `a/b`. */
  lemma MissesParentLookup()
    ensures GetKey([Key("a", "", 0, []), Key("a/b.c", "", 0, []), Key("a/b/d", "", 0, [])], "a/b") == None
  {
    var r := [Key("a", "", 0, []), Key("a/b.c", "", 0, []), Key("a/b/d", "", 0, [])];
    assert |"a"| == 1 && |"a/b.c"| == 5 && |"a/b"| == 3 && "a/b/d"[3] != "a/b"[2];
    assert forall j :: 0 <= j < |r| ==> r[j].path != "a/b";
  }

  /** The store holds a key with path `p`. */
  predicate Present(ks: seq<Key>, p: string)
  {
    GetKey(ks, p).Some?
  }

  /** Every key with a directory part has its parent's key in the store. */
  predicate ParentsPresent(ks: seq<Key>)
  {
    forall i :: 0 <= i < |ks| && DirSize(ks[i].path) > 0 ==> Present(ks, Dir(ks[i].path))
  }

  /** The corrected step for one key: while its parent is missing, create the parent (with the key's file name and time) in order and continue with it. */
  function AddParents(ks: seq<Key>, path: string, fn: string, mod: int): (r: seq<Key>)
    requires Ordered(ks)
    ensures Ordered(r)
    decreases |path|
  {
    if DirSize(path) == 0 || Present(ks, Dir(path)) then ks
    else
      var k := Key(Dir(path), fn, mod, []);
      SetKeyLookup(ks, k);
      AddParents(SetKey(ks, k), Dir(path), fn, mod)
  }

  /** One key's step keeps every existing key, gives the key its parent, and gives every key it creates its own parent. */
  lemma {:induction false} AddParentsSpec(ks: seq<Key>, path: string, fn: string, mod: int)
    requires Ordered(ks)
    ensures var r := AddParents(ks, path, fn, mod);
      (forall p :: Present(ks, p) ==> GetKey(r, p) == GetKey(ks, p)) &&
      (DirSize(path) > 0 ==> Present(r, Dir(path))) &&
      (forall p :: Present(r, p) && !Present(ks, p) ==> DirSize(p) == 0 || Present(r, Dir(p)))
    decreases |path|
  {
    if !(DirSize(path) == 0 || Present(ks, Dir(path))) {
      var d := Dir(path);
      var k := Key(d, fn, mod, []);
      var ks1 := SetKey(ks, k);
      SetKeyLookup(ks, k);
      AddParentsSpec(ks1, d, fn, mod);
      var r := AddParents(ks1, d, fn, mod);
      assert r == AddParents(ks, path, fn, mod);
      forall p | Present(ks, p)
        ensures GetKey(r, p) == GetKey(ks, p)
      {
        assert p != d;
      }
      forall p | Present(r, p) && !Present(ks, p)
        ensures DirSize(p) == 0 || Present(r, Dir(p))
      {
        if Present(ks1, p) {
          assert p == d;
        }
      }
    }
  }

  /** The corrected `create_all_paths` over the original keys `orig`, in order. */
  function AddAllParents(ks: seq<Key>, orig: seq<Key>): (r: seq<Key>)
    requires Ordered(ks)
    ensures Ordered(r)
    decreases |orig|
  {
    if orig == [] then ks else AddAllParents(AddParents(ks, orig[0].path, orig[0].filename, orig[0].modified), orig[1..])
  }

  /** `create_all_paths` corrected: each missing parent is found by lookup and created in order. */
  function CreateAllPaths(ks: seq<Key>): (r: seq<Key>)
    requires Ordered(ks)
    ensures Ordered(r)
  {
    AddAllParents(ks, ks)
  }

  /** Keys still waiting for a parent are among those not yet visited; once all are visited, none waits. */
  lemma {:induction false} AddAllParentsSpec(ks: seq<Key>, orig: seq<Key>)
    requires Ordered(ks)
    requires forall i :: 0 <= i < |ks| && DirSize(ks[i].path) > 0 && !Present(ks, Dir(ks[i].path)) ==> Present(orig, ks[i].path)
    ensures var r := AddAllParents(ks, orig);
      ParentsPresent(r) && forall p :: Present(ks, p) ==> GetKey(r, p) == GetKey(ks, p)
    decreases |orig|
  {
    if orig != [] {
      var o := orig[0];
      var ks1 := AddParents(ks, o.path, o.filename, o.modified);
      AddParentsSpec(ks, o.path, o.filename, o.modified);
      forall i | 0 <= i < |ks1| && DirSize(ks1[i].path) > 0 && !Present(ks1, Dir(ks1[i].path))
        ensures Present(orig[1..], ks1[i].path)
      {
        var q := ks1[i].path;
        OrderedFind(ks1, i);
        HeadKey(orig, q);
        if Present(ks, q) {
          var j := FindKey(ks, q).value;
          OrderedFind(ks, j);
          assert ks[j] == ks1[i];
        }
      }
      AddAllParentsSpec(ks1, orig[1..]);
    }
  }

  /** The corrected `create_all_paths` keeps every key as it was and leaves no key without its parent. */
  lemma CreateAllPathsSpec(ks: seq<Key>)
    requires Ordered(ks)
    ensures var r := CreateAllPaths(ks);
      ParentsPresent(r) && forall p :: Present(ks, p) ==> GetKey(r, p) == GetKey(ks, p)
  {
    forall i | 0 <= i < |ks|
      ensures Present(ks, ks[i].path)
    {
      OrderedFind(ks, i);
    }
    AddAllParentsSpec(ks, ks);
  }

  /** Corrected, the example's missing parent is created. */
  lemma CreateAllPathsCorrected()
    ensures var ks := [Key("a/b.c", "", 0, []), Key("a/b/d", "", 0, [])];
      Ordered(ks) && Present(CreateAllPaths(ks), "a/b")
  {
    var ks := [Key("a/b.c", "", 0, []), Key("a/b/d", "", 0, [])];
    ExampleOrdered();
    CreateAllPathsSpec(ks);
    var r := CreateAllPaths(ks);
    OrderedFind(ks, 1);
    ExampleDir();
    var j := FindKey(r, "a/b/d").value;
    assert r[j].path == "a/b/d";
  }

  /** The example's two keys are in order. */
  lemma ExampleOrdered()
    ensures Ordered([Key("a/b.c", "", 0, []), Key("a/b/d", "", 0, [])])
  {
    var ks := [Key("a/b.c", "", 0, []), Key("a/b/d", "", 0, [])];
    assert Less(ks[0].path, ks[1].path);
  }

  /** The example key's directory is `a/b`. */
  lemma ExampleDir()
    ensures DirSize("a/b/d") == 3 && Dir("a/b/d") == "a/b"
  {
    DirSizeOfExample();
    assert "a/b/d"[..3] == "a/b";
  }

  //}}}
}
