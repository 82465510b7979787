/** The Python string operations the parser relies on: `str.strip()`,
    `os.path.basename` and `str.replace(pattern, "")`. */
module Text {

  /** Python's `str.isspace` for a single character: TAB through CR, the
      separators FS through US, SPACE, NEL, NO-BREAK SPACE and the Unicode
      space separators. */
  predicate IsSpace(c: char) {
    var n := c as int;
    || 0x09 <= n <= 0x0D
    || 0x1C <= n <= 0x20
    || n == 0x85 || n == 0xA0 || n == 0x1680
    || 0x2000 <= n <= 0x200A
    || n == 0x2028 || n == 0x2029 || n == 0x202F || n == 0x205F || n == 0x3000
  }

  /** The index of the first non-space character of `s` at or after `i`,
      or `|s|` when there is none. */
  function SkipSpaces(s: string, i: nat): (r: nat)
    requires i <= |s|
    ensures i <= r <= |s|
    ensures forall k :: i <= k < r ==> IsSpace(s[k])
    ensures r < |s| ==> !IsSpace(s[r])
    decreases |s| - i
  {
    if i == |s| || !IsSpace(s[i]) then i else SkipSpaces(s, i + 1)
  }

  /** The index just past the last non-space character of `s[lo..j]`, or
      `lo` when there is none. */
  function TrimEnd(s: string, lo: nat, j: nat): (r: nat)
    requires lo <= j <= |s|
    ensures lo <= r <= j
    ensures forall k :: r <= k < j ==> IsSpace(s[k])
    ensures r > lo ==> !IsSpace(s[r - 1])
    decreases j
  {
    if j == lo || !IsSpace(s[j - 1]) then j else TrimEnd(s, lo, j - 1)
  }

  /** `r` is the slice of `s` starting at `i` and everything of `s` outside
      that slice is whitespace. */
  predicate TrimmedAt(s: string, r: string, i: nat) {
    && i + |r| <= |s|
    && r == s[i..i + |r|]
    && (forall k :: 0 <= k < i ==> IsSpace(s[k]))
    && (forall k :: i + |r| <= k < |s| ==> IsSpace(s[k]))
  }

  /** `t` is what `strip()` leaves of `s`: a slice of `s` with only
      whitespace around it, itself neither starting nor ending in whitespace. */
  ghost predicate StrippedOf(s: string, t: string) {
    && (exists i: nat :: TrimmedAt(s, t, i))
    && (|t| > 0 ==> !IsSpace(t[0]) && !IsSpace(t[|t| - 1]))
  }

  /** Python's `str.strip()` with no argument: leading whitespace goes,
      then trailing whitespace. */
  function Strip(s: string): (r: string)
    ensures StrippedOf(s, r)
  {
    var lo := SkipSpaces(s, 0);
    var hi := TrimEnd(s, lo, |s|);
    var r := s[lo..hi];
    assert TrimmedAt(s, r, lo);
    r
  }

  /** Stripping is idempotent. */
  lemma {:induction false} StripIdempotent(s: string)
    ensures Strip(Strip(s)) == Strip(s)
  {
    var t := Strip(s);
    assert SkipSpaces(t, 0) == 0;
    assert TrimEnd(t, 0, |t|) == |t|;
    assert t[0..|t|] == t;
  }

  /** A string that neither starts nor ends with whitespace is its own
      stripped form. */
  lemma {:induction false} StripUnpadded(s: string)
    requires |s| > 0 && !IsSpace(s[0]) && !IsSpace(s[|s| - 1])
    ensures Strip(s) == s
  {
    assert SkipSpaces(s, 0) == 0;
    assert TrimEnd(s, 0, |s|) == |s|;
    assert s[0..|s|] == s;
  }

  /** `os.path.basename` on POSIX paths: everything after the last `/`. */
  function Basename(path: string): (r: string)
    ensures |r| <= |path| && r == path[|path| - |r|..]
    ensures forall k :: 0 <= k < |r| ==> r[k] != '/'
    ensures |r| < |path| ==> path[|path| - |r| - 1] == '/'
  {
    if |path| == 0 || path[|path| - 1] == '/' then []
    else
      var p := path[..|path| - 1];
      var b := Basename(p);
      var r := b + [path[|path| - 1]];
      assert path == p + [path[|path| - 1]];
      assert path[|path| - |r|..] == p[|p| - |b|..] + [path[|path| - 1]];
      r
  }

  /** `pat` occurs in `s` at position `i`. */
  predicate OccursAt(s: string, pat: string, i: nat) {
    i + |pat| <= |s| && s[i..i + |pat|] == pat
  }

  /** Python's `pat in s`. */
  predicate Contains(s: string, pat: string) {
    exists i: nat | i <= |s| :: OccursAt(s, pat, i)
  }

  /** Python's `s.replace(pat, "")`: scanning left to right, every
      non-overlapping occurrence of `pat` is deleted. An empty `pat` leaves
      `s` unchanged, as Python does. */
  function RemoveAll(s: string, pat: string): (r: string)
    ensures |r| <= |s|
    ensures forall k :: 0 <= k < |r| ==> r[k] in s
    decreases |s|
  {
    if |pat| == 0 || |s| < |pat| then s
    else if s[..|pat|] == pat then RemoveAll(s[|pat|..], pat)
    else [s[0]] + RemoveAll(s[1..], pat)
  }

  /** A string in which the first character of `pat` never appears does
      not contain `pat`. */
  lemma {:induction false} FirstCharAbsent(s: string, pat: string)
    requires |pat| > 0
    requires forall k :: 0 <= k < |s| ==> s[k] != pat[0]
    ensures !Contains(s, pat)
  {
    forall i: nat | i <= |s|
      ensures !OccursAt(s, pat, i)
    {
      if i + |pat| <= |s| {
        assert s[i..i + |pat|][0] == s[i];
      }
    }
  }

  /** A string without `pat` is returned unchanged. */
  lemma {:induction false} RemoveAllAbsent(s: string, pat: string)
    requires !Contains(s, pat)
    ensures RemoveAll(s, pat) == s
    decreases |s|
  {
    if |pat| == 0 {
      assert OccursAt(s, pat, 0);
    } else if |s| >= |pat| {
      assert !OccursAt(s, pat, 0);
      forall i: nat
        ensures !OccursAt(s[1..], pat, i)
      {
        if OccursAt(s[1..], pat, i) {
          assert s[1..][i..i + |pat|] == s[i + 1..i + 1 + |pat|];
          assert OccursAt(s, pat, i + 1);
        }
      }
      RemoveAllAbsent(s[1..], pat);
      assert s == [s[0]] + s[1..];
    }
  }

  /** Without an occurrence at the front, the first character is kept. */
  lemma {:induction false} RemoveAllKeepsFirst(s: string, pat: string)
    requires |s| > 0 && |pat| > 0 && !OccursAt(s, pat, 0)
    ensures RemoveAll(s, pat) == [s[0]] + RemoveAll(s[1..], pat)
  {
    if |s| < |pat| {
      assert s == [s[0]] + s[1..];
    }
  }

  /** Non-occurrence at positions `1..` of `s` carries over to `s[1..]`. */
  lemma {:induction false} NoOccurrenceShift(s: string, pat: string, n: nat)
    requires 0 < n <= |s|
    requires forall i: nat :: i < n ==> !OccursAt(s, pat, i)
    ensures forall i: nat :: i < n - 1 ==> !OccursAt(s[1..], pat, i)
  {
    forall i: nat | i < n - 1
      ensures !OccursAt(s[1..], pat, i)
    {
      assert !OccursAt(s, pat, i + 1);
      if i + |pat| <= |s| - 1 {
        assert s[1..][i..i + |pat|] == s[i + 1..i + 1 + |pat|];
      }
    }
  }

  /** A prefix `a` in which no occurrence of `pat` starts is kept as it is. */
  lemma {:induction false} RemoveAllSkip(a: string, rest: string, pat: string)
    requires |pat| > 0
    requires forall i: nat :: i < |a| ==> !OccursAt(a + rest, pat, i)
    ensures RemoveAll(a + rest, pat) == a + RemoveAll(rest, pat)
    decreases |a|
  {
    var s := a + rest;
    if |a| > 0 {
      assert !OccursAt(s, pat, 0);
      assert s[1..] == a[1..] + rest;
      calc {
        RemoveAll(s, pat);
        { RemoveAllKeepsFirst(s, pat); }
        [a[0]] + RemoveAll(a[1..] + rest, pat);
        { NoOccurrenceShift(s, pat, |a|);
          RemoveAllSkip(a[1..], rest, pat); }
        [a[0]] + (a[1..] + RemoveAll(rest, pat));
        { assert a == [a[0]] + a[1..]; }
        a + RemoveAll(rest, pat);
      }
    } else {
      assert s == rest;
    }
  }

  /** An occurrence of `pat` at the start is deleted. */
  lemma {:induction false} RemoveAllLeading(pat: string, rest: string)
    requires |pat| > 0
    ensures RemoveAll(pat + rest, pat) == RemoveAll(rest, pat)
  {
    assert (pat + rest)[..|pat|] == pat;
    assert (pat + rest)[|pat|..] == rest;
  }
}
