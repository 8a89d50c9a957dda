/**
 * The Python `str` built-ins that the recipe handler of pic2plate.py relies on:
 * `find`, substring `in`, `split(sep)`, `split(sep, 1)`, `strip()`, `lower()`
 * and slicing with non-negative bounds.  Strings are sequences of Unicode
 * scalar values.  A Python `str` may also hold lone surrogates, which Dafny's
 * `char` cannot; the texts modelled here are answers of a remote service
 * delivered as valid Unicode, so they hold none.
 */
module PyStr {

  /** `c.isspace()`: the characters that `str.strip()` with no argument
      removes. */
  predicate IsSpace(c: char)
    ensures IsSpace(c) ==> !('!' <= c <= '~')
  {
    var n := c as int;
    (0x09 <= n <= 0x0D) || (0x1C <= n <= 0x20) || n == 0x85 || n == 0xA0 ||
    n == 0x1680 || (0x2000 <= n <= 0x200A) || n == 0x2028 || n == 0x2029 ||
    n == 0x202F || n == 0x205F || n == 0x3000
  }

  /** True when `s` has no leading and no trailing whitespace. */
  predicate IsStripped(s: string) {
    s == [] || (!IsSpace(s[0]) && !IsSpace(s[|s| - 1]))
  }

  // ---------------------------------------------------------------------------
  // find and `in`
  // ---------------------------------------------------------------------------

  /** `pat` occurs in `s` starting at index `i`. */
  predicate OccursAt(s: string, pat: string, i: int) {
    0 <= i && i + |pat| <= |s| && s[i..i + |pat|] == pat
  }

  /** `i` is the lowest index at which `pat` occurs in `s`. */
  predicate FirstOccurrence(s: string, pat: string, i: int) {
    OccursAt(s, pat, i) && forall j :: 0 <= j < i ==> !OccursAt(s, pat, j)
  }

  /** The scan behind `s.find(pat)`, starting at index `from`. */
  function FindFrom(s: string, pat: string, from: nat): (r: int)
    requires from <= |s|
    ensures r == -1 || (from <= r && OccursAt(s, pat, r))
    ensures forall j :: from <= j && (r == -1 || j < r) ==> !OccursAt(s, pat, j)
    decreases |s| - from
  {
    if from + |pat| > |s| then -1
    else if s[from..from + |pat|] == pat then from
    else if from == |s| then -1
    else FindFrom(s, pat, from + 1)
  }

  /** `s.find(pat)`: the lowest index of `pat` in `s`, or -1 when it is absent. */
  function Find(s: string, pat: string): (r: int)
    ensures r == -1 <==> forall j :: !OccursAt(s, pat, j)
    ensures r != -1 ==> FirstOccurrence(s, pat, r)
  {
    FindFrom(s, pat, 0)
  }

  /** `Find` returns exactly the first occurrence, when there is one. */
  lemma FindIsFirstOccurrence(s: string, pat: string, i: int)
    ensures Find(s, pat) == i <==> (FirstOccurrence(s, pat, i) || (i == -1 && forall j :: !OccursAt(s, pat, j)))
  {
    if FirstOccurrence(s, pat, i) {
      assert OccursAt(s, pat, i);
    }
  }

  /** `pat in s` for strings. */
  predicate Contains(s: string, pat: string)
    ensures Contains(s, pat) <==> exists i :: OccursAt(s, pat, i)
  {
    Find(s, pat) != -1
  }

  // ---------------------------------------------------------------------------
  // split
  // ---------------------------------------------------------------------------

  /** Index of the first `c` in `s` (the scan that `split` performs). */
  function IndexOf(s: string, c: char): (r: nat)
    requires c in s
    ensures r < |s| && s[r] == c && c !in s[..r]
  {
    if s[0] == c then 0
    else
      assert c in s[1..] by { assert s == [s[0]] + s[1..]; }
      var r := 1 + IndexOf(s[1..], c);
      assert s[..r] == [s[0]] + s[1..][..r - 1];
      r
  }

  /** `sep.join(parts)` for a one-character separator. */
  function Join(parts: seq<string>, sep: char): string
  {
    if parts == [] then []
    else if |parts| == 1 then parts[0]
    else parts[0] + [sep] + Join(parts[1..], sep)
  }

  /** A character other than the separator is in the joined string exactly
      when it is in one of the parts. */
  lemma {:induction false} JoinContains(parts: seq<string>, sep: char, c: char)
    requires c != sep
    ensures c in Join(parts, sep) <==> exists k :: 0 <= k < |parts| && c in parts[k]
  {
    if |parts| > 1 {
      JoinContains(parts[1..], sep, c);
      var rest := Join(parts[1..], sep);
      assert Join(parts, sep) == parts[0] + [sep] + rest;
      if exists k :: 0 <= k < |parts| && c in parts[k] {
        var k :| 0 <= k < |parts| && c in parts[k];
        if k > 0 { assert c in parts[1..][k - 1]; }
      }
      if exists k :: 0 <= k < |parts[1..]| && c in parts[1..][k] {
        var k :| 0 <= k < |parts[1..]| && c in parts[1..][k];
        assert c in parts[k + 1];
      }
    }
  }

  /** `s.split(sep)` for a one-character separator: never empty, no piece
      holds `sep`, and joining the pieces with `sep` gives `s` back. */
  function Split(s: string, sep: char): (r: seq<string>)
    ensures |r| >= 1
    ensures forall k :: 0 <= k < |r| ==> sep !in r[k]
    ensures Join(r, sep) == s
    decreases |s|
  {
    if sep !in s then [s]
    else
      var i := IndexOf(s, sep);
      var rest := Split(s[i + 1..], sep);
      var r := [s[..i]] + rest;
      assert r[1..] == rest;
      assert s == s[..i] + [sep] + s[i + 1..];
      r
  }

  /** The first piece of `s.split(sep)` is the text before the first `sep`. */
  lemma {:induction false} SplitHead(s: string, sep: char, k: nat)
    requires k <= |s| && sep !in s[..k] && (k == |s| || s[k] == sep)
    ensures Split(s, sep)[0] == s[..k]
  {
    if sep in s {
      var i := IndexOf(s, sep);
    }
  }

  /** `s.split(sep, 1)` when `sep in s`: the text before the first `sep` and
      the text after it, which may hold further separators. */
  function SplitOnce(s: string, sep: char): (r: (string, string))
    requires sep in s
    ensures sep !in r.0 && s == r.0 + [sep] + r.1
  {
    var i := IndexOf(s, sep);
    assert s == s[..i] + [sep] + s[i + 1..];
    (s[..i], s[i + 1..])
  }

  /** The two halves of `s.split(sep, 1)` are the only ones with a
      separator-free first half. */
  lemma SplitOnceUnique(s: string, sep: char, before: string, after: string)
    requires s == before + [sep] + after && sep !in before
    ensures sep in s && SplitOnce(s, sep) == (before, after)
  {
    assert s[|before|] == sep;
    var (b, a) := SplitOnce(s, sep);
    assert b == s[..|b|] && before == s[..|before|];
    assert a == s[|b| + 1..] && after == s[|before| + 1..];
  }

  // ---------------------------------------------------------------------------
  // strip
  // ---------------------------------------------------------------------------

  /** Every character of `s` is whitespace. */
  predicate AllSpace(s: string) {
    forall k :: 0 <= k < |s| ==> IsSpace(s[k])
  }

  /** `i` is where the text of `s` starts: only whitespace before it. */
  predicate IsTextStart(s: string, i: nat) {
    i <= |s| && AllSpace(s[..i]) && (i == |s| || !IsSpace(s[i]))
  }

  /** `j` is where the text of `s` ends: only whitespace from it on. */
  predicate IsTextEnd(s: string, j: nat) {
    j <= |s| && AllSpace(s[j..]) && (j == 0 || !IsSpace(s[j - 1]))
  }

  lemma SpaceBefore(s: string, c: nat)
    requires c <= |s| && AllSpace(s[..c])
    ensures forall k :: 0 <= k < c ==> IsSpace(s[k])
  {
    forall k | 0 <= k < c ensures IsSpace(s[k]) { assert s[..c][k] == s[k]; }
  }

  lemma SpaceFrom(s: string, c: nat)
    requires c <= |s| && AllSpace(s[c..])
    ensures forall k :: c <= k < |s| ==> IsSpace(s[k])
  {
    forall k | c <= k < |s| ensures IsSpace(s[k]) { assert s[c..][k - c] == s[k]; }
  }

  lemma TextStartUnique(s: string, a: nat, b: nat)
    requires IsTextStart(s, a) && IsTextStart(s, b)
    ensures a == b
  {
    SpaceBefore(s, a);
    SpaceBefore(s, b);
  }

  lemma TextEndUnique(s: string, a: nat, b: nat)
    requires IsTextEnd(s, a) && IsTextEnd(s, b)
    ensures a == b
  {
    SpaceFrom(s, a);
    SpaceFrom(s, b);
  }

  /** `s.lstrip()`: leading whitespace removed. */
  function TrimStart(s: string): (r: string)
    ensures |r| <= |s|
  {
    if s != [] && IsSpace(s[0]) then TrimStart(s[1..]) else s
  }

  /** `s.lstrip()` is the suffix of `s` from where its text starts. */
  lemma {:induction false} TrimStartIsSuffix(s: string)
    ensures TrimStart(s) == s[|s| - |TrimStart(s)|..] && IsTextStart(s, |s| - |TrimStart(s)|)
  {
    if s != [] && IsSpace(s[0]) {
      var r := TrimStart(s[1..]);
      TrimStartIsSuffix(s[1..]);
      assert s[..|s| - |r|] == [s[0]] + s[1..][..|s| - 1 - |r|];
    }
  }

  /** `s.rstrip()`: trailing whitespace removed. */
  function TrimEnd(s: string): (r: string)
    ensures |r| <= |s|
  {
    if s != [] && IsSpace(s[|s| - 1]) then TrimEnd(s[..|s| - 1]) else s
  }

  /** `s.rstrip()` is the prefix of `s` up to where its text ends. */
  lemma {:induction false} TrimEndIsPrefix(s: string)
    ensures TrimEnd(s) == s[..|TrimEnd(s)|] && IsTextEnd(s, |TrimEnd(s)|)
  {
    if s != [] && IsSpace(s[|s| - 1]) {
      var r := TrimEnd(s[..|s| - 1]);
      TrimEndIsPrefix(s[..|s| - 1]);
      assert s[|r|..] == s[..|s| - 1][|r|..] + [s[|s| - 1]];
    }
  }

  /** `s.strip()`: whitespace removed at both ends. */
  function Strip(s: string): (r: string)
    ensures |r| <= |s| && IsStripped(r)
  {
    var t := TrimStart(s);
    var r := TrimEnd(t);
    TrimStartIsSuffix(s);
    TrimEndIsPrefix(t);
    assert r == [] || !IsSpace(r[0]) by {
      if r != [] { assert r[0] == t[0]; }
    }
    r
  }

  /** `s.strip()` is the middle of a cut of `s` into leading whitespace, the
      stripped text and trailing whitespace. */
  lemma StripIsMiddle(s: string) returns (lo: nat)
    ensures lo + |Strip(s)| <= |s| && Strip(s) == s[lo..lo + |Strip(s)|]
    ensures AllSpace(s[..lo]) && AllSpace(s[lo + |Strip(s)|..])
  {
    var t := TrimStart(s);
    var r := TrimEnd(t);
    TrimStartIsSuffix(s);
    TrimEndIsPrefix(t);
    lo := |s| - |t|;
    SuffixSlices(s, lo, |r|);
  }

  /** Slicing a suffix is slicing the whole string further on. */
  lemma SuffixSlices(s: string, lo: nat, m: nat)
    requires lo + m <= |s|
    ensures s[lo..][..m] == s[lo..lo + m] && s[lo..][m..] == s[lo + m..]
  {
  }

  /** `strip()` adds no character. */
  lemma StripWithin(s: string, c: char)
    ensures c in Strip(s) ==> c in s
  {
    var lo := StripIsMiddle(s);
    var r := Strip(s);
    if c in r {
      var i :| 0 <= i < |r| && r[i] == c;
      assert s[lo + i] == c;
    }
  }

  /** Any cut of `s` into whitespace, a stripped middle and whitespace has
      that middle as `s.strip()`. */
  lemma StripUnique(s: string, lo: nat, r: string)
    requires lo + |r| <= |s| && r == s[lo..lo + |r|] && IsStripped(r)
    requires AllSpace(s[..lo]) && AllSpace(s[lo + |r|..])
    ensures Strip(s) == r
  {
    var t := TrimStart(s);
    TrimStartIsSuffix(s);
    if r == [] {
      SpaceBefore(s, lo);
      SpaceFrom(s, lo);
      assert IsTextStart(s, |s|) by { assert s[..|s|] == s; }
      TextStartUnique(s, |s|, |s| - |t|);
    } else {
      assert IsTextStart(s, lo) by { assert s[lo] == r[0]; }
      TextStartUnique(s, lo, |s| - |t|);
      assert t == s[lo..];
      SuffixSlices(s, lo, |r|);
      assert IsTextEnd(t, |r|) by {
        assert t[|r| - 1] == r[|r| - 1];
      }
      TrimEndIsPrefix(t);
      TextEndUnique(t, |r|, |TrimEnd(t)|);
    }
  }

  /** `strip()` leaves a stripped string alone, so stripping twice is
      stripping once. */
  lemma StripIdempotent(s: string)
    ensures IsStripped(s) ==> Strip(s) == s
    ensures Strip(Strip(s)) == Strip(s)
  {
    if IsStripped(s) {
      StripUnique(s, 0, s);
    }
    var t := Strip(s);
    StripUnique(t, 0, t);
  }

  // ---------------------------------------------------------------------------
  // slicing and lower
  // ---------------------------------------------------------------------------

  /** `s[lo:hi]` for non-negative bounds: Python clamps both bounds to the
      length and yields the empty string when they cross. */
  function Slice(s: string, lo: nat, hi: nat): (r: string)
    ensures hi <= lo || |s| <= lo ==> r == []
    ensures lo <= hi <= |s| ==> r == s[lo..hi]
    ensures lo <= |s| <= hi ==> r == s[lo..]
  {
    var h := if hi < |s| then hi else |s|;
    if lo < h then s[lo..h] else []
  }

  /** `c.lower()` on ASCII letters; every other character is kept. */
  function LowerChar(c: char): char {
    if 'A' <= c <= 'Z' then (c as int + 32) as char else c
  }

  /** `s.lower()`, character by character. */
  function Lower(s: string): (r: string)
    ensures |r| == |s|
    ensures forall k :: 0 <= k < |s| ==> r[k] == LowerChar(s[k])
  {
    if s == [] then [] else [LowerChar(s[0])] + Lower(s[1..])
  }
}
