/**
 * The C-string operations the settings store is built on: `strcmp` order,
 * `strncmp` prefix tests, the INI parser's space trimming and line
 * splitting. Strings are byte strings written as `string`, one `char` per
 * byte; none contains a NUL, so a C string's end is the sequence's end.
 */
module CStr {
  import opened Wrappers

  //{{{ strcmp order

  /** `strcmp(a, b) < 0`: the first differing byte decides, and a proper prefix comes first. */
  predicate Less(a: string, b: string)
    decreases |a|
  {
    if b == [] then false
    else if a == [] then true
    else if a[0] != b[0] then a[0] < b[0]
    else Less(a[1..], b[1..])
  }

  /** `strncmp(p, s, |p|) == 0`: `p` is a prefix of `s`. */
  predicate IsPrefix(p: string, s: string)
  {
    |p| <= |s| && s[..|p|] == p
  }

  lemma {:induction false} LessIrreflexive(a: string)
    ensures !Less(a, a)
    decreases |a|
  {
    if a != [] {
      LessIrreflexive(a[1..]);
    }
  }

  lemma {:induction false} LessAsymmetric(a: string, b: string)
    ensures !(Less(a, b) && Less(b, a))
    decreases |a|
  {
    if a != [] && b != [] && a[0] == b[0] {
      LessAsymmetric(a[1..], b[1..]);
    }
  }

  /** `strcmp` is a total order: two different strings compare one way or the other. */
  lemma {:induction false} LessTotal(a: string, b: string)
    ensures a == b || Less(a, b) || Less(b, a)
    decreases |a|
  {
    if a != [] && b != [] && a[0] == b[0] {
      LessTotal(a[1..], b[1..]);
      if a[1..] == b[1..] {
        assert a == [a[0]] + a[1..] && b == [b[0]] + b[1..];
      }
    }
  }

  lemma {:induction false} LessTransitive(a: string, b: string, c: string)
    requires Less(a, b) && Less(b, c)
    ensures Less(a, c)
    decreases |a|
  {
    if a != [] && a[0] == b[0] && b[0] == c[0] {
      LessTransitive(a[1..], b[1..], c[1..]);
    }
  }

  /** A string never sorts before its own prefix. */
  lemma {:induction false} PrefixNotLess(p: string, s: string)
    requires IsPrefix(p, s)
    ensures !Less(s, p)
    decreases |p|
  {
    if p != [] {
      assert s[1..][..|p| - 1] == p[1..];
      PrefixNotLess(p[1..], s[1..]);
    }
  }

  /**
   * The strings starting with `p` are contiguous in `strcmp` order: once a
   * string at or after `p` does not start with it, no later string does.
   */
  lemma {:induction false} PrefixBlockEnds(p: string, a: string, b: string)
    requires !Less(a, p) && !IsPrefix(p, a) && !Less(b, a)
    ensures !IsPrefix(p, b)
    decreases |p|
  {
    if IsPrefix(p, b) {
      assert p != [];
      if a != [] && a[0] == p[0] {
        assert b[0] == p[0] && b[0] == a[0];
        assert !IsPrefix(p[1..], a[1..]);
        assert b[1..][..|p| - 1] == p[1..];
        PrefixBlockEnds(p[1..], a[1..], b[1..]);
      }
    }
  }

  //}}}
  //{{{ Searching

  /** `strchr`/`memchr`: the first position of `c` at or after `from`. */
  function Find(s: string, c: char, from: nat): (r: Option<nat>)
    ensures r.Some? ==> from <= r.value < |s| && s[r.value] == c && forall k :: from <= k < r.value ==> s[k] != c
    ensures r.None? ==> forall k :: from <= k < |s| ==> s[k] != c
    decreases |s| - from
  {
    if from >= |s| then None
    else if s[from] == c then Some(from)
    else Find(s, c, from + 1)
  }

  /** `strrchr`: the last position of `c`. */
  function FindLast(s: string, c: char): (r: Option<nat>)
    ensures r.Some? ==> r.value < |s| && s[r.value] == c && forall k :: r.value < k < |s| ==> s[k] != c
    ensures r.None? ==> forall k :: 0 <= k < |s| ==> s[k] != c
    decreases |s|
  {
    if s == [] then None
    else if s[|s| - 1] == c then Some(|s| - 1)
    else FindLast(s[..|s| - 1], c)
  }

  //}}}
  //{{{ Trimming

  /** The INI parser's `is_space`: blank and tab only. */
  predicate IsSpace(c: char)
  {
    c == ' ' || c == '\t'
  }

  /** No space or tab at either end. */
  predicate Trimmed(s: string)
  {
    s == [] || (!IsSpace(s[0]) && !IsSpace(s[|s| - 1]))
  }

  /** `trim_spaces`' first loop: the first position from `f` that is not a space, or `l`. */
  function SkipSpaces(s: string, f: nat, l: nat): (r: nat)
    requires f <= l <= |s|
    ensures f <= r <= l && forall k :: f <= k < r ==> IsSpace(s[k])
    ensures r < l ==> !IsSpace(s[r])
    decreases l - f
  {
    if f < l && IsSpace(s[f]) then SkipSpaces(s, f + 1, l) else f
  }

  /** `trim_spaces`' second loop: the end after dropping trailing spaces, never below `f`. */
  function DropSpaces(s: string, f: nat, l: nat): (r: nat)
    requires f <= l <= |s|
    ensures f <= r <= l && forall k :: r <= k < l ==> IsSpace(s[k])
    ensures r > f ==> !IsSpace(s[r - 1])
    decreases l - f
  {
    if l > f && IsSpace(s[l - 1]) then DropSpaces(s, f, l - 1) else l
  }

  /** `trim_spaces` over `[f, l)`: the bounds of the trimmed part. */
  function TrimBounds(s: string, f: nat, l: nat): (r: (nat, nat))
    requires f <= l <= |s|
    ensures f <= r.0 <= r.1 <= l && Trimmed(s[r.0..r.1])
    ensures forall k :: f <= k < r.0 ==> IsSpace(s[k])
    ensures forall k :: r.1 <= k < l ==> IsSpace(s[k])
  {
    var a := SkipSpaces(s, f, l);
    (a, DropSpaces(s, a, l))
  }

  /** The whole string with spaces and tabs trimmed from both ends. */
  function Trim(s: string): (r: string)
    ensures Trimmed(r) && |r| <= |s|
  {
    var b := TrimBounds(s, 0, |s|);
    s[b.0..b.1]
  }

  /** Trimming removes exactly the padding: a trimmed string between spaces comes back. */
  lemma TrimPadded(pre: string, s: string, post: string)
    requires Trimmed(s)
    requires forall k :: 0 <= k < |pre| ==> IsSpace(pre[k])
    requires forall k :: 0 <= k < |post| ==> IsSpace(post[k])
    ensures Trim(pre + s + post) == s
  {
    var t := pre + s + post;
    var b := TrimBounds(t, 0, |t|);
    if s == [] {
      assert forall k :: 0 <= k < |t| ==> IsSpace(t[k]);
      assert b.0 == |t|;
    } else {
      assert !IsSpace(t[|pre|]) && !IsSpace(t[|pre| + |s| - 1]);
      assert b.0 == |pre|;
      assert b.1 == |pre| + |s|;
      assert t[b.0..b.1] == s;
    }
  }

  lemma TrimIdentity(s: string)
    requires Trimmed(s)
    ensures Trim(s) == s
  {
    TrimPadded([], s, []);
    assert [] + s + [] == s;
  }

  //}}}
  //{{{ Lines

  /**
   * The pieces of a text separated by `c`: each runs to the next `c` or to
   * the end; a `c` at the very end starts no further piece, and an empty
   * text is one empty piece.
   */
  function Split(text: string, c: char): (r: seq<string>)
    ensures |r| >= 1
    decreases |text|
  {
    match Find(text, c, 0)
    case None => [text]
    case Some(i) => [text[..i]] + (if i + 1 < |text| then Split(text[i + 1..], c) else [])
  }

  /** Each piece followed by `c`. */
  function Join(ls: seq<string>, c: char): (r: string)
    ensures |r| >= |ls|
  {
    if ls == [] then [] else ls[0] + [c] + Join(ls[1..], c)
  }

  /** The lines `read_ini`'s loop visits. */
  function Lines(text: string): (r: seq<string>)
    ensures |r| >= 1
  {
    Split(text, '\n')
  }

  /** Each line followed by a newline. */
  function JoinLines(ls: seq<string>): (r: string)
    ensures |r| >= |ls|
  {
    Join(ls, '\n')
  }

  predicate Lacks(s: string, c: char)
  {
    forall k :: 0 <= k < |s| ==> s[k] != c
  }

  predicate NoNewline(s: string)
  {
    Lacks(s, '\n')
  }

  /** Splitting `c`-terminated pieces gives them back. */
  lemma {:induction false} SplitOfJoin(ls: seq<string>, c: char)
    requires ls != [] && forall i :: 0 <= i < |ls| ==> Lacks(ls[i], c)
    ensures Split(Join(ls, c), c) == ls
    decreases |ls|
  {
    var t := Join(ls, c);
    var rest := Join(ls[1..], c);
    assert t == ls[0] + ([c] + rest);
    assert Find(t, c, 0) == Some(|ls[0]|) by {
      assert t[|ls[0]|] == c;
      assert forall k :: 0 <= k < |ls[0]| ==> t[k] == ls[0][k];
    }
    assert t[..|ls[0]|] == ls[0];
    assert t[|ls[0]| + 1..] == rest;
    if |ls| == 1 {
      assert rest == [];
    } else {
      SplitOfJoin(ls[1..], c);
      assert [ls[0]] + ls[1..] == ls;
    }
  }

  /** Splitting newline-terminated lines gives them back. */
  lemma LinesOfJoin(ls: seq<string>)
    requires ls != [] && forall i :: 0 <= i < |ls| ==> NoNewline(ls[i])
    ensures Lines(JoinLines(ls)) == ls
  {
    SplitOfJoin(ls, '\n');
  }

  /** A text without the separator is a single piece. */
  lemma SplitSingle(s: string, c: char)
    requires Lacks(s, c)
    ensures Split(s, c) == [s]
  {
  }

  //}}}
}
