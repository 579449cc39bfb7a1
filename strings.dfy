/** Character classes and string scanning shared by the pattern models.
    Python strings are sequences of code points; here they are `string`. */
module Strings {
  import opened Results

  /** Python's `str.isspace()` set, which is also what `\s` matches in a
      `str` pattern and what `str.strip()` removes. */
  predicate IsSpace(c: char)
  {
    ('\t' <= c <= '\r') || ('\U{1C}' <= c <= '\U{1F}') || c == ' '
    || c == '\U{85}' || c == '\U{A0}' || c == '\U{1680}'
    || ('\U{2000}' <= c <= '\U{200A}') || c == '\U{2028}' || c == '\U{2029}'
    || c == '\U{202F}' || c == '\U{205F}' || c == '\U{3000}'
  }

  /** `\d`, restricted to the ASCII digits. */
  predicate IsDigit(c: char)
  {
    '0' <= c <= '9'
  }

  /** `\w`, restricted to ASCII letters, digits and the underscore. */
  predicate IsWordChar(c: char)
  {
    ('a' <= c <= 'z') || ('A' <= c <= 'Z') || IsDigit(c) || c == '_'
  }

  /** The case folding an IGNORECASE pattern applies to a subject character
      before comparing it with a lower-case literal: ASCII letters, and LONG S,
      the one non-ASCII letter that folds onto a letter of the tags. */
  function Fold(c: char): char
  {
    if 'A' <= c <= 'Z' then (c as int - 'A' as int + 'a' as int) as char
    else if c == '\U{17F}' then 's'
    else c
  }

  /** `str.upper()`, restricted to ASCII letters. */
  function UpperChar(c: char): char
  {
    if 'a' <= c <= 'z' then (c as int - 'a' as int + 'A' as int) as char else c
  }

  function Upper(s: string): (r: string)
    ensures |r| == |s|
    ensures forall k :: 0 <= k < |s| ==> r[k] == UpperChar(s[k])
  {
    seq(|s|, k requires 0 <= k < |s| => UpperChar(s[k]))
  }

  /** An upper-cased key is left unchanged by upper-casing it again. */
  lemma UpperIdempotent(s: string)
    ensures Upper(Upper(s)) == Upper(s)
  {
    assert forall k :: 0 <= k < |s| ==> UpperChar(UpperChar(s[k])) == UpperChar(s[k]);
  }

  /** An IGNORECASE literal `pat` (given in folded form) matches `s` at `i`:
      every character it covers folds onto the literal's. */
  predicate MatchesAt(s: string, i: nat, pat: string)
  {
    i + |pat| <= |s| && forall k :: 0 <= k < |pat| ==> Fold(s[i + k]) == pat[k]
  }

  /** A match fixes the folded form of every character it covers. */
  lemma MatchesAtChar(s: string, i: nat, pat: string, k: nat)
    requires k < |pat|
    ensures MatchesAt(s, i, pat) ==> Fold(s[i + k]) == pat[k]
  {
  }

  /** Leftmost match of `pat` at or after `from`: how a regex engine finds
      the first position where a literal can start. */
  function Find(s: string, pat: string, from: nat): (r: Option<nat>)
    decreases |s| - from
    ensures r.Some? ==> from <= r.value && MatchesAt(s, r.value, pat)
  {
    if from + |pat| > |s| then None
    else if MatchesAt(s, from, pat) then Some(from)
    else Find(s, pat, from + 1)
  }

  /** No match is missed and none is skipped: every match at or after
      `from` is found or preceded by the one found. */
  lemma {:induction false} FindIsLeftmost(s: string, pat: string, from: nat, j: nat)
    requires from <= j && MatchesAt(s, j, pat)
    decreases |s| - from
    ensures Find(s, pat, from).Some? && Find(s, pat, from).value <= j
  {
    if from + |pat| <= |s| && !MatchesAt(s, from, pat) {
      FindIsLeftmost(s, pat, from + 1, j);
    }
  }

  /** First occurrence of the character `c` at or after `from`. */
  function IndexOf(s: string, c: char, from: nat): (r: Option<nat>)
    decreases |s| - from
    ensures r.Some? ==> from <= r.value < |s| && s[r.value] == c
    ensures r.Some? ==> forall j :: from <= j < r.value ==> s[j] != c
    ensures r.None? ==> forall j :: from <= j < |s| ==> s[j] != c
  {
    if from >= |s| then None
    else if s[from] == c then Some(from)
    else IndexOf(s, c, from + 1)
  }

  /** Rightmost match of `pat` in the positions `lo..hi`. */
  function LastAtOrBelow(s: string, pat: string, lo: nat, hi: nat): (r: Option<nat>)
    decreases hi
    ensures r.Some? ==> lo <= r.value <= hi && MatchesAt(s, r.value, pat)
  {
    if hi < lo then None
    else if MatchesAt(s, hi, pat) then Some(hi)
    else if hi == 0 then None
    else LastAtOrBelow(s, pat, lo, hi - 1)
  }

  lemma {:induction false} LastAtOrBelowIsRightmost(s: string, pat: string, lo: nat, hi: nat, j: nat)
    requires lo <= j <= hi && MatchesAt(s, j, pat)
    decreases hi
    ensures LastAtOrBelow(s, pat, lo, hi).Some? && j <= LastAtOrBelow(s, pat, lo, hi).value
  {
    if !MatchesAt(s, hi, pat) {
      LastAtOrBelowIsRightmost(s, pat, lo, hi - 1, j);
    }
  }

  /** Rightmost match of `pat` at or after `lo`: where a greedy `.*` followed
      by the literal stops. */
  function FindLast(s: string, pat: string, lo: nat): (r: Option<nat>)
    ensures r.Some? ==> lo <= r.value && MatchesAt(s, r.value, pat)
  {
    if |s| < |pat| then None else LastAtOrBelow(s, pat, lo, |s| - |pat|)
  }

  /** Every match at or after `lo` is found or followed by the one found. */
  lemma FindLastIsRightmost(s: string, pat: string, lo: nat, j: nat)
    requires lo <= j && MatchesAt(s, j, pat)
    ensures FindLast(s, pat, lo).Some? && j <= FindLast(s, pat, lo).value
  {
    LastAtOrBelowIsRightmost(s, pat, lo, |s| - |pat|, j);
  }

  /** A match inside a slice is a match in the whole string. */
  lemma MatchesInSlice(s: string, a: nat, b: nat, j: nat, pat: string)
    requires a <= b <= |s|
    ensures MatchesAt(s[a..b], j, pat) <==> (j + |pat| <= b - a && MatchesAt(s, a + j, pat))
  {
    if j + |pat| <= b - a {
      var n := |pat|;
      var u, w := s[a..b][j..j + n], s[a + j..a + j + n];
      assert forall k :: 0 <= k < n ==> u[k] == w[k];
      assert u == w;
    }
  }

  /** `s` with leading characters satisfying `p` removed (`str.lstrip`). */
  function TrimStart(s: string, p: char -> bool): (r: string)
    ensures |r| <= |s| && r == s[|s| - |r|..]
    ensures forall k :: 0 <= k < |s| - |r| ==> p(s[k])
    ensures |r| > 0 ==> !p(r[0])
  {
    if |s| > 0 && p(s[0]) then
      var r := TrimStart(s[1..], p);
      assert s[1..][|s| - 1 - |r|..] == s[|s| - |r|..];
      assert forall k :: 0 <= k < |s| - 1 ==> s[1..][k] == s[k + 1];
      r
    else s
  }

  /** `s` with trailing characters satisfying `p` removed (`str.rstrip`). */
  function TrimEnd(s: string, p: char -> bool): (r: string)
    ensures |r| <= |s| && r == s[..|r|]
    ensures forall k :: |r| <= k < |s| ==> p(s[k])
    ensures |r| > 0 ==> !p(r[|r| - 1])
  {
    if |s| > 0 && p(s[|s| - 1]) then TrimEnd(s[..|s| - 1], p) else s
  }

  /** Length of the leading run of characters satisfying `p`. */
  function LeadingRun(s: string, p: char -> bool): (n: nat)
    ensures n <= |s|
    ensures forall k :: 0 <= k < n ==> p(s[k])
    ensures n < |s| ==> !p(s[n])
  {
    var t := TrimStart(s, p);
    assert |t| > 0 ==> t[0] == s[|s| - |t|];
    |s| - |t|
  }

  /** The leading run is determined by where its first non-member stands. */
  lemma LeadingRunAt(s: string, p: char -> bool, a: nat)
    requires a <= |s|
    requires forall k :: 0 <= k < a ==> p(s[k])
    requires a < |s| ==> !p(s[a])
    ensures LeadingRun(s, p) == a
  {
  }

  /** Where the trailing run of characters satisfying `p` begins. */
  function TrailingStart(s: string, p: char -> bool): (z: nat)
    ensures z <= |s|
    ensures forall k :: z <= k < |s| ==> p(s[k])
    ensures z > 0 ==> !p(s[z - 1])
  {
    var t := TrimEnd(s, p);
    assert |t| > 0 ==> t[|t| - 1] == s[|t| - 1];
    |t|
  }

  /** The trailing run is determined by where its last non-member stands. */
  lemma TrailingStartAt(s: string, p: char -> bool, z: nat)
    requires z <= |s|
    requires forall k :: z <= k < |s| ==> p(s[k])
    requires z > 0 ==> !p(s[z - 1])
    ensures TrailingStart(s, p) == z
  {
  }

  /** `str.strip(chars)`: both ends trimmed. The result is the slice of `s`
      that starts after the leading run and stops before the trailing run. */
  function Strip(s: string, p: char -> bool): (r: string)
    ensures LeadingRun(s, p) + |r| <= |s|
    ensures r == s[LeadingRun(s, p)..LeadingRun(s, p) + |r|]
    ensures forall k :: 0 <= k < LeadingRun(s, p) ==> p(s[k])
    ensures forall k :: LeadingRun(s, p) + |r| <= k < |s| ==> p(s[k])
    ensures |r| > 0 ==> !p(r[0]) && !p(r[|r| - 1])
  {
    var t := TrimStart(s, p);
    var r := TrimEnd(t, p);
    SliceOfSuffix(s, t, r);
    TrailingRunOfSuffix(s, t, r, p);
    r
  }

  lemma SliceOfSuffix(s: string, t: string, r: string)
    requires |t| <= |s| && t == s[|s| - |t|..] && |r| <= |t| && r == t[..|r|]
    ensures r == s[|s| - |t|..|s| - |t| + |r|]
  {
    var a := |s| - |t|;
    assert forall k :: 0 <= k < |r| ==> r[k] == s[a..a + |r|][k];
  }

  lemma TrailingRunOfSuffix(s: string, t: string, r: string, p: char -> bool)
    requires |t| <= |s| && t == s[|s| - |t|..] && |r| <= |t|
    requires forall k :: |r| <= k < |t| ==> p(t[k])
    ensures forall k :: |s| - |t| + |r| <= k < |s| ==> p(s[k])
  {
    var a := |s| - |t|;
    forall k | a + |r| <= k < |s|
      ensures p(s[k])
    {
      assert s[k] == t[k - a];
    }
  }

  /** `str.replace(old, new)` for single characters. */
  function Replace(s: string, from: char, to: char): (r: string)
    ensures |r| == |s|
    ensures forall k :: 0 <= k < |s| ==> r[k] == (if s[k] == from then to else s[k])
  {
    seq(|s|, k requires 0 <= k < |s| => if s[k] == from then to else s[k])
  }

  /** `str.split(sep)` for a one-character separator. */
  function Split(s: string, sep: char): (r: seq<string>)
    ensures |r| >= 1
    ensures forall i :: 0 <= i < |r| ==> sep !in r[i]
  {
    if s == [] then [[]]
    else
      var rest := Split(s[1..], sep);
      if s[0] == sep then [[]] + rest
      else [[s[0]] + rest[0]] + rest[1..]
  }

  /** `sep.join(parts)`. */
  function Join(parts: seq<string>, sep: char): string
  {
    if |parts| == 0 then []
    else if |parts| == 1 then parts[0]
    else parts[0] + [sep] + Join(parts[1..], sep)
  }

  lemma {:induction false} SplitNoSep(a: string, sep: char)
    requires sep !in a
    ensures Split(a, sep) == [a]
  {
    if a != [] {
      SplitNoSep(a[1..], sep);
      assert [a[0]] + a[1..] == a;
    }
  }

  lemma {:induction false} SplitAfterPart(a: string, sep: char, b: string)
    requires sep !in a
    ensures Split(a + [sep] + b, sep) == [a] + Split(b, sep)
  {
    var s := a + [sep] + b;
    if a == [] {
      assert s[1..] == b;
    } else {
      assert s[1..] == a[1..] + [sep] + b;
      SplitAfterPart(a[1..], sep, b);
      assert s[0] == a[0] && [a[0]] + a[1..] == a;
    }
  }

  /** Splitting at one separator splits the two sides independently. */
  lemma {:induction false} SplitConcat(x: string, sep: char, y: string)
    ensures Split(x + [sep] + y, sep) == Split(x, sep) + Split(y, sep)
  {
    var s := x + [sep] + y;
    if x == [] {
      assert s[1..] == y;
      assert Split(s, sep) == [[]] + Split(y, sep);
    } else {
      assert s[0] == x[0] && s[1..] == x[1..] + [sep] + y;
      SplitConcat(x[1..], sep, y);
      var left, right := Split(x[1..], sep), Split(y, sep);
      var rest := left + right;
      assert Split(s[1..], sep) == rest;
      if x[0] != sep {
        assert rest[0] == left[0] && rest[1..] == left[1..] + right;
      }
    }
  }

  /** Splitting undoes joining, when no part holds the separator. */
  lemma {:induction false} SplitJoin(parts: seq<string>, sep: char)
    requires |parts| >= 1
    requires forall i :: 0 <= i < |parts| ==> sep !in parts[i]
    ensures Split(Join(parts, sep), sep) == parts
  {
    if |parts| == 1 {
      SplitNoSep(parts[0], sep);
    } else {
      SplitJoin(parts[1..], sep);
      SplitAfterPart(parts[0], sep, Join(parts[1..], sep));
    }
  }
}
