// Helpers shared by every module: an Option type and the handful of Python
// `str` operations the scripts rely on (strip, startswith, find, `in`).

module Wrappers {

  datatype Option<T> = None | Some(value: T)
}

module PyStrings {

  import opened Wrappers

  /** The characters for which Python's `str.isspace()` holds; `str.strip()`
      and the regular-expression class `\s` both use exactly this set. */
  predicate IsSpace(c: char) {
    || c == ' '
    || '\t' <= c <= '\r'
    || '\U{1C}' <= c <= '\U{1F}'
    || c == '\U{85}'
    || c == '\U{A0}'
    || c == '\U{1680}'
    || '\U{2000}' <= c <= '\U{200A}'
    || c == '\U{2028}'
    || c == '\U{2029}'
    || c == '\U{202F}'
    || c == '\U{205F}'
    || c == '\U{3000}'
  }

  /** A class of characters that a strip or a span runs over. */
  datatype CharClass =
    | Space              // Python whitespace
    | OneOf(cs: set<char>)  // the argument of `str.strip(chars)`
    | NotNewline         // what a line body and the regex `.` consist of
    | KeyChar            // the regex class `[\w.-]`, with `\w` taken as ASCII

  predicate In(c: char, k: CharClass) {
    match k
    case Space => IsSpace(c)
    case OneOf(cs) => c in cs
    case NotNewline => c != '\n'
    case KeyChar => 'a' <= c <= 'z' || 'A' <= c <= 'Z' || '0' <= c <= '9' || c == '_' || c == '.' || c == '-'
  }

  /** Length of the longest prefix of `s` made of characters of class `k`. */
  function LeadingCount(s: string, k: CharClass): (n: nat)
    ensures n <= |s|
    ensures forall i :: 0 <= i < n ==> In(s[i], k)
    ensures n < |s| ==> !In(s[n], k)
  {
    if s == [] || !In(s[0], k) then 0 else 1 + LeadingCount(s[1..], k)
  }

  /** Length of the longest suffix of `s` made of characters of class `k`. */
  function TrailingCount(s: string, k: CharClass): (n: nat)
    ensures n <= |s|
    ensures forall i :: |s| - n <= i < |s| ==> In(s[i], k)
    ensures n < |s| ==> !In(s[|s| - 1 - n], k)
  {
    if s == [] || !In(s[|s| - 1], k) then 0 else 1 + TrailingCount(s[..|s| - 1], k)
  }

  lemma LeadingCountIs(s: string, k: CharClass, n: nat)
    requires n <= |s|
    requires forall i :: 0 <= i < n ==> In(s[i], k)
    requires n < |s| ==> !In(s[n], k)
    ensures LeadingCount(s, k) == n
  {
  }

  lemma DropLast(s: string, i: nat)
    requires i < |s|
    ensures s[i..] == s[i..|s| - 1] + [s[|s| - 1]]
  {
  }

  /** LeadingCount of a suffix, read as positions of the whole string. */
  lemma LeadingRun(s: string, k: CharClass, i: nat)
    requires i <= |s|
    ensures i + LeadingCount(s[i..], k) <= |s|
    ensures forall m :: i <= m < i + LeadingCount(s[i..], k) ==> In(s[m], k)
    ensures i + LeadingCount(s[i..], k) < |s| ==> !In(s[i + LeadingCount(s[i..], k)], k)
  {
    var t := s[i..];
    var n := LeadingCount(t, k);
    forall m | i <= m < i + n ensures In(s[m], k) {
      assert s[m] == t[m - i];
    }
    if i + n < |s| {
      assert s[i + n] == t[n];
    }
  }

  /** The run of class `k` starting at `i` ends at `j`. */
  lemma LeadingCountFrom(s: string, k: CharClass, i: nat, j: nat)
    requires i <= j <= |s|
    requires forall m :: i <= m < j ==> In(s[m], k)
    requires j < |s| ==> !In(s[j], k)
    ensures LeadingCount(s[i..], k) == j - i
  {
    var t := s[i..];
    forall m | 0 <= m < j - i ensures In(t[m], k) {
      assert t[m] == s[i + m];
    }
    if j < |s| {
      assert t[j - i] == s[j];
    }
    LeadingCountIs(t, k, j - i);
  }

  lemma TrailingCountIs(s: string, k: CharClass, n: nat)
    requires n <= |s|
    requires forall i :: |s| - n <= i < |s| ==> In(s[i], k)
    requires n < |s| ==> !In(s[|s| - 1 - n], k)
    ensures TrailingCount(s, k) == n
  {
  }

  /** Python `s.lstrip(...)`. */
  function LStrip(s: string, k: CharClass): string {
    s[LeadingCount(s, k)..]
  }

  /** Python `s.rstrip(...)`. */
  function RStrip(s: string, k: CharClass): string {
    s[..|s| - TrailingCount(s, k)]
  }

  /** Python `s.strip(...)`: neither starts nor ends with a character of `k`
      (StripBySlice says what it keeps). */
  function StripBy(s: string, k: CharClass): (r: string)
    ensures r == [] || (!In(r[0], k) && !In(r[|r| - 1], k))
  {
    RStrip(LStrip(s, k), k)
  }

  /** What `strip` keeps is a contiguous slice of `s`, and everything cut off
      is of class `k`. */
  lemma StripBySlice(s: string, k: CharClass) returns (i: nat, j: nat)
    ensures i <= j <= |s| && StripBy(s, k) == s[i..j]
    ensures forall m :: 0 <= m < i ==> In(s[m], k)
    ensures forall m :: j <= m < |s| ==> In(s[m], k)
  {
    i := LeadingCount(s, k);
    var t := s[i..];
    j := |s| - TrailingCount(t, k);
    assert t[..|t| - TrailingCount(t, k)] == s[i..j];
  }

  lemma StripByKeepsOut(s: string, k: CharClass, c: char)
    requires c !in s
    ensures c !in StripBy(s, k)
  {
    var i, j := StripBySlice(s, k);
  }

  /** Stripping text padded only with characters of `k` gives back the text,
      when the text itself neither starts nor ends with one. */
  lemma StripByPadded(pre: string, core: string, post: string, k: CharClass)
    requires forall i :: 0 <= i < |pre| ==> In(pre[i], k)
    requires forall i :: 0 <= i < |post| ==> In(post[i], k)
    requires core != [] && !In(core[0], k) && !In(core[|core| - 1], k)
    ensures StripBy(pre + core + post, k) == core
  {
    var s := pre + core + post;
    LeadingCountIs(s, k, |pre|);
    var t := s[|pre|..];
    assert t == core + post;
    TrailingCountIs(t, k, |post|);
    assert t[..|t| - |post|] == core;
  }

  /** Stripping text that neither starts nor ends with a character of `k`
      leaves it as it is. */
  lemma StripByUnpadded(s: string, k: CharClass)
    requires s == [] || (!In(s[0], k) && !In(s[|s| - 1], k))
    ensures StripBy(s, k) == s
  {
    if s != [] {
      StripByPadded([], s, [], k);
      assert [] + s + [] == s;
    }
  }

  /** Stripping one character of `k` from each end of text that neither
      starts nor ends with one. */
  lemma StripByEnclosed(c: char, v: string, k: CharClass)
    requires In(c, k) && v != [] && !In(v[0], k) && !In(v[|v| - 1], k)
    ensures StripBy([c] + v + [c], k) == v
  {
    StripByPadded([c], v, [c], k);
  }

  /** One trailing character of `k` after text that neither starts nor ends
      with one is stripped away. */
  lemma StripByTrailing(v: string, c: char, k: CharClass)
    requires In(c, k) && v != [] && !In(v[0], k) && !In(v[|v| - 1], k)
    ensures StripBy(v + [c], k) == v
  {
    StripByPadded([], v, [c], k);
    assert [] + v + [c] == v + [c];
  }

  /** Stripping text made only of characters of `k` leaves nothing. */
  lemma StripByAll(s: string, k: CharClass)
    requires forall i :: 0 <= i < |s| ==> In(s[i], k)
    ensures StripBy(s, k) == []
  {
    LeadingCountIs(s, k, |s|);
  }

  lemma LStripAppend(s: string, c: char, k: CharClass)
    requires In(c, k)
    ensures LStrip(s + [c], k) == if LStrip(s, k) == [] then [] else LStrip(s, k) + [c]
  {
    var i := LeadingCount(s, k);
    if i == |s| {
      LeadingCountIs(s + [c], k, |s| + 1);
    } else {
      assert (s + [c])[i] == s[i];
      LeadingCountIs(s + [c], k, i);
      assert (s + [c])[i..] == s[i..] + [c];
    }
  }

  lemma RStripAppend(t: string, c: char, k: CharClass)
    requires In(c, k)
    ensures RStrip(t + [c], k) == RStrip(t, k)
  {
    var n := TrailingCount(t, k);
    TrailingCountIs(t + [c], k, n + 1);
    assert (t + [c])[..|t| - n] == t[..|t| - n];
  }

  /** A trailing character of the stripped class makes no difference. */
  lemma StripByAppend(s: string, c: char, k: CharClass)
    requires In(c, k)
    ensures StripBy(s + [c], k) == StripBy(s, k)
  {
    LStripAppend(s, c, k);
    if LStrip(s, k) != [] {
      RStripAppend(LStrip(s, k), c, k);
    }
  }

  /** Python `s.strip()` with no argument. */
  function Strip(s: string): string {
    StripBy(s, Space)
  }

  /** Python `s.startswith(p)`. */
  predicate StartsWith(s: string, p: string) {
    |p| <= |s| && s[..|p|] == p
  }

  /** Python `s.endswith(p)`. */
  predicate EndsWith(s: string, p: string) {
    |p| <= |s| && s[|s| - |p|..] == p
  }

  predicate OccursAt(s: string, sub: string, i: int) {
    0 <= i && i + |sub| <= |s| && s[i..i + |sub|] == sub
  }

  /** Python `s.find(sub, from)`, as an Option: the least index at or after
      `from` where `sub` occurs. */
  function Find(s: string, sub: string, from: nat): (r: Option<nat>)
    decreases |s| - from
    ensures r.Some? ==> from <= r.value && OccursAt(s, sub, r.value)
    ensures r.Some? ==> forall i :: from <= i < r.value ==> !OccursAt(s, sub, i)
    ensures r.None? ==> forall i :: from <= i ==> !OccursAt(s, sub, i)
  {
    if from + |sub| > |s| then None
    else if s[from..from + |sub|] == sub then Some(from)
    else Find(s, sub, from + 1)
  }

  /** Python `sub in s`. */
  function Contains(s: string, sub: string): (b: bool)
    ensures b <==> exists i :: OccursAt(s, sub, i)
  {
    Find(s, sub, 0).Some?
  }

  /** Python `s.split(c)[0]`: the text before the first `c`, or all of `s`. */
  function BeforeFirst(s: string, c: char): (r: string)
    ensures c !in r
    ensures StartsWith(s, r)
    ensures c !in s ==> r == s
    ensures |r| < |s| ==> s[|r|] == c
  {
    match Find(s, [c], 0)
    case Some(i) =>
      assert s[i..i + 1] == [s[i]];
      assert forall j :: 0 <= j < i ==> s[j..j + 1] == [s[j]] && !OccursAt(s, [c], j);
      s[..i]
    case None =>
      assert forall j :: 0 <= j < |s| ==> s[j..j + 1] == [s[j]] && !OccursAt(s, [c], j);
      s
  }

  /** Python `s.split(c, 1)[1]`: the text after the first `c`. */
  function AfterFirst(s: string, c: char): (r: string)
    requires c in s
    ensures s == BeforeFirst(s, c) + [c] + r
  {
    var b := BeforeFirst(s, c);
    assert |b| < |s|;
    assert s == b + [c] + s[|b| + 1..] by {
      assert s[..|b|] == b;
      assert s == s[..|b|] + [s[|b|]] + s[|b| + 1..];
    }
    s[|b| + 1..]
  }

  /** Splitting at the first `c` of a text whose prefix has none finds
      that prefix. */
  lemma AfterFirstPrefix(p: string, c: char, t: string)
    requires c !in p
    ensures AfterFirst(p + [c] + t, c) == t
  {
    var s := p + [c] + t;
    var b := BeforeFirst(s, c);
    assert forall m :: 0 <= m < |p| ==> s[m] == p[m];
    assert s[|p|] == c;
    assert |b| == |p|;
    assert s[|p| + 1..] == t;
  }

  /** A leading character of the stripped class makes no difference. */
  lemma LStripPrepend(s: string, c: char, k: CharClass)
    requires In(c, k)
    ensures LStrip([c] + s, k) == LStrip(s, k)
  {
    assert ([c] + s)[1..] == s;
  }
}
