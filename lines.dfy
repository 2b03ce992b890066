// Text files as the setup scripts handle them: read as a list of lines
// (`readlines()` / `for line in f`), edited as a list, written back with
// `writelines`.  The replace-first-or-append edit that both `.env` and
// `~/.zshrc` updates perform is specified here once.

module TextLines {

  import opened Wrappers
  import opened PyStrings

  /** A file as the scripts see it: missing, or present with its text. */
  datatype TextFile = Absent | Present(content: string)

  /** Length of the first line of a non-empty text: up to and including the
      first '\n', or the whole text when it has none. */
  function FirstLineLength(s: string): (n: nat)
    requires s != []
    ensures 0 < n <= |s|
    ensures forall j :: 0 <= j < n - 1 ==> s[j] != '\n'
    ensures n < |s| ==> s[n - 1] == '\n'
  {
    var k := LeadingCount(s, NotNewline);
    if k < |s| then k + 1 else k
  }

  /** The lines Python's text-file iteration yields for the text `s`; each
      keeps its '\n'. */
  function SplitLines(s: string): seq<string>
    decreases |s|
  {
    if s == [] then []
    else
      var n := FirstLineLength(s);
      [s[..n]] + SplitLines(s[n..])
  }

  /** Python's universal-newlines translation on reading a text file: "\r\n"
      and a lone '\r' both end a line and are read as '\n'. */
  function Translate(s: string): (r: string)
    decreases |s|
    ensures '\r' !in r
    ensures '\r' !in s ==> r == s
  {
    if s == [] then []
    else if s[0] == '\r' then
      "\n" + Translate(if |s| > 1 && s[1] == '\n' then s[2..] else s[1..])
    else
      assert '\r' !in s ==> '\r' !in s[1..];
      [s[0]] + Translate(s[1..])
  }

  /** `f.readlines()` in text mode; a missing file reads as no lines. */
  function ReadLines(f: TextFile): seq<string> {
    if f.Absent? then [] else SplitLines(Translate(f.content))
  }

  /** The text `f.writelines(lines)` writes. */
  function Concat(lines: seq<string>): string {
    if lines == [] then [] else lines[0] + Concat(lines[1..])
  }

  /** One line as reading returns it: non-empty, with no carriage return
      and '\n' at most at its end. */
  predicate IsLine(l: string) {
    l != [] && '\r' !in l && forall j :: 0 <= j < |l| - 1 ==> l[j] != '\n'
  }

  predicate EndsWithNewline(l: string) {
    l != [] && l[|l| - 1] == '\n'
  }

  /** The shape of what line iteration returns: non-empty lines, '\n' only at
      the end of a line, every line but the last terminated. */
  predicate WellFormed(lines: seq<string>) {
    && (forall i :: 0 <= i < |lines| ==> IsLine(lines[i]))
    && (forall i :: 0 <= i < |lines| - 1 ==> EndsWithNewline(lines[i]))
  }

  lemma {:induction false} SplitLinesWellFormed(s: string)
    requires '\r' !in s
    ensures WellFormed(SplitLines(s))
    decreases |s|
  {
    if s != [] {
      var n := FirstLineLength(s);
      assert '\r' !in s[..n] && '\r' !in s[n..] by {
        assert s == s[..n] + s[n..];
      }
      SplitLinesWellFormed(s[n..]);
    }
  }

  /** What reading a file returns is always well formed. */
  lemma ReadLinesWellFormed(f: TextFile)
    ensures WellFormed(ReadLines(f))
  {
    if f.Present? {
      SplitLinesWellFormed(Translate(f.content));
    }
  }

  /** Reading loses nothing: the lines put back together are the text. */
  lemma {:induction false} ConcatSplitLines(s: string)
    ensures Concat(SplitLines(s)) == s
    decreases |s|
  {
    if s != [] {
      var n := FirstLineLength(s);
      var head, rest := s[..n], s[n..];
      ConcatSplitLines(rest);
      var ls := SplitLines(s);
      assert ls == [head] + SplitLines(rest);
      assert ls[0] == head && ls[1..] == SplitLines(rest);
      assert Concat(ls) == head + Concat(SplitLines(rest));
      assert s == head + rest;
    }
  }

  /** A line followed by more text, which it ends before, is the first line. */
  lemma FirstLineLengthOf(l: string, t: string)
    requires IsLine(l) && (t != [] ==> EndsWithNewline(l))
    ensures FirstLineLength(l + t) == |l|
  {
    var s := l + t;
    assert forall j :: 0 <= j < |l| - 1 ==> s[j] == l[j];
    if EndsWithNewline(l) {
      assert s[|l| - 1] == '\n';
      LeadingCountIs(s, NotNewline, |l| - 1);
    } else {
      assert s == l;
      LeadingCountIs(s, NotNewline, |l|);
    }
  }

  /** Writing a well-formed list of lines and reading it back gives the list:
      the written text holds no '\r' for the reader to translate, and it
      splits where the lines end. */
  lemma SplitConcat(lines: seq<string>)
    requires WellFormed(lines)
    ensures '\r' !in Concat(lines)
    ensures SplitLines(Concat(lines)) == lines
    ensures ReadLines(Present(Concat(lines))) == lines
  {
    ConcatKeepsOut(lines, '\r');
    SplitConcatLines(lines);
  }

  /** `t` as written with line ends `e`: every '\n' of `t` becomes `e`. */
  function WithLineEnds(t: string, e: string): string {
    if t == [] then []
    else if t[0] == '\n' then e + WithLineEnds(t[1..], e)
    else [t[0]] + WithLineEnds(t[1..], e)
  }

  /** With lone '\r' line ends no '\n' is left. */
  lemma {:induction false} WithCrHasNoNewline(t: string)
    ensures '\n' !in WithLineEnds(t, "\r")
  {
    if t != [] {
      WithCrHasNoNewline(t[1..]);
    }
  }

  /** Reading undoes any of the three line-end conventions: text written
      with "\r\n" (Windows), '\r' (old Mac OS) or '\n' line ends reads back
      as the same text with '\n' line ends. */
  lemma {:induction false} TranslateLineEnds(t: string, e: string)
    requires '\r' !in t && (e == "\r\n" || e == "\r" || e == "\n")
    ensures Translate(WithLineEnds(t, e)) == t
  {
    if t != [] {
      var rest := WithLineEnds(t[1..], e);
      TranslateLineEnds(t[1..], e);
      if t[0] == '\n' {
        var s := e + rest;
        if e == "\r\n" {
          assert s[2..] == rest;
        } else if e == "\r" {
          WithCrHasNoNewline(t[1..]);
          assert s[1..] == rest;
          assert |s| > 1 ==> s[1] == rest[0];
        } else {
          assert s[1..] == rest;
        }
      } else {
        assert ([t[0]] + rest)[1..] == rest;
      }
    }
  }

  /** A file whose lines were written with "\r\n" or lone '\r' line ends
      reads back as those lines with '\n' ends. */
  lemma ReadLinesOtherEnds(lines: seq<string>, e: string)
    requires WellFormed(lines) && (e == "\r\n" || e == "\r")
    ensures ReadLines(Present(WithLineEnds(Concat(lines), e))) == lines
  {
    SplitConcat(lines);
    TranslateLineEnds(Concat(lines), e);
  }

  /** A character in none of the lines is not in the text written. */
  lemma {:induction false} ConcatKeepsOut(lines: seq<string>, c: char)
    requires forall i :: 0 <= i < |lines| ==> c !in lines[i]
    ensures c !in Concat(lines)
  {
    if lines != [] {
      var rest := lines[1..];
      assert forall i :: 0 <= i < |rest| ==> rest[i] == lines[i + 1];
      ConcatKeepsOut(rest, c);
      assert Concat(lines) == lines[0] + Concat(rest);
    }
  }

  lemma {:induction false} SplitConcatLines(lines: seq<string>)
    requires WellFormed(lines)
    ensures SplitLines(Concat(lines)) == lines
  {
    if lines != [] {
      var l, rest := lines[0], lines[1..];
      assert WellFormed(rest) by {
        assert forall i :: 0 <= i < |rest| ==> rest[i] == lines[i + 1];
      }
      SplitConcatLines(rest);
      var s := Concat(lines);
      assert s == l + Concat(rest);
      assert rest != [] ==> EndsWithNewline(l);
      FirstLineLengthOf(l, Concat(rest));
      assert s[..|l|] == l && s[|l|..] == Concat(rest);
    }
  }

  /** The line `<p>"<v>"` and a line break, the shape both update functions
      write. */
  function QuotedLine(p: string, v: string): string {
    p + "\"" + v + "\"\n"
  }

  /** A quoted line is one well-formed line whose stripped text is `p` and the
      quoted value, so it starts with `p`. */
  lemma QuotedLineShape(p: string, v: string)
    requires p != [] && !IsSpace(p[0]) && '\n' !in p && '\n' !in v && '\r' !in p && '\r' !in v
    ensures IsLine(QuotedLine(p, v)) && EndsWithNewline(QuotedLine(p, v))
    ensures Strip(QuotedLine(p, v)) == p + ("\"" + v + "\"")
    ensures StartsWith(Strip(QuotedLine(p, v)), p)
  {
    QuotedLineIsLine(p, v);
    QuotedLineStrip(p, v);
  }

  lemma QuotedLineIsLine(p: string, v: string)
    requires '\n' !in p && '\n' !in v && '\r' !in p && '\r' !in v
    ensures IsLine(QuotedLine(p, v)) && EndsWithNewline(QuotedLine(p, v))
  {
    var l := QuotedLine(p, v);
    forall m | 0 <= m < |l| - 1 ensures l[m] != '\n' {
      if m < |p| {
        assert l[m] == p[m];
      } else if |p| + 1 <= m < |p| + 1 + |v| {
        assert l[m] == v[m - |p| - 1];
      }
    }
  }

  lemma QuotedLineStrip(p: string, v: string)
    requires p != [] && !IsSpace(p[0])
    ensures Strip(QuotedLine(p, v)) == p + ("\"" + v + "\"")
    ensures StartsWith(Strip(QuotedLine(p, v)), p)
  {
    var core := p + ("\"" + v + "\"");
    assert QuotedLine(p, v) == [] + core + "\n";
    assert core[0] == p[0] && core[|core| - 1] == '"';
    StripByPadded([], core, "\n", Space);
    assert core[..|p|] == p;
  }

  /** The test both update loops apply: the stripped line starts with one of
      the prefixes. */
  predicate Matches(line: string, prefixes: seq<string>) {
    StartsWithAny(Strip(line), prefixes)
  }

  predicate StartsWithAny(s: string, prefixes: seq<string>) {
    prefixes != [] && (StartsWith(s, prefixes[0]) || StartsWithAny(s, prefixes[1..]))
  }

  predicate IsFirstMatch(lines: seq<string>, prefixes: seq<string>, i: int) {
    && 0 <= i < |lines|
    && Matches(lines[i], prefixes)
    && forall j :: 0 <= j < i ==> !Matches(lines[j], prefixes)
  }

  /** The index the update loops stop at with `break`, if any. */
  function FirstMatch(lines: seq<string>, prefixes: seq<string>): (r: Option<nat>)
    ensures r.Some? ==> r.value < |lines|
  {
    if lines == [] then None
    else if Matches(lines[0], prefixes) then Some(0)
    else
      match FirstMatch(lines[1..], prefixes)
      case Some(i) => Some(i + 1)
      case None => None
  }

  /** FirstMatch finds the first matching line, and finds none only when no
      line matches. */
  lemma {:induction false} FirstMatchSpec(lines: seq<string>, prefixes: seq<string>)
    ensures FirstMatch(lines, prefixes).Some? ==> IsFirstMatch(lines, prefixes, FirstMatch(lines, prefixes).value)
    ensures FirstMatch(lines, prefixes).None? ==> forall i :: 0 <= i < |lines| ==> !Matches(lines[i], prefixes)
  {
    if lines != [] && !Matches(lines[0], prefixes) {
      var rest := lines[1..];
      FirstMatchSpec(rest, prefixes);
      var k := if FirstMatch(rest, prefixes).Some? then FirstMatch(rest, prefixes).value + 1 else |lines|;
      forall j | 1 <= j < k ensures !Matches(lines[j], prefixes) {
        assert lines[j] == rest[j - 1];
      }
      if FirstMatch(rest, prefixes).Some? {
        assert lines[k] == rest[k - 1];
      }
    }
  }

  lemma MatchesOne(line: string, p: string)
    ensures Matches(line, [p]) <==> StartsWith(Strip(line), p)
  {
    var t := Strip(line);
    assert [p][1..] == [];
    assert !StartsWithAny(t, []);
    assert StartsWithAny(t, [p]) == (StartsWith(t, p) || StartsWithAny(t, []));
  }

  lemma MatchesTwo(line: string, p: string, q: string)
    ensures Matches(line, [p, q]) <==> StartsWith(Strip(line), p) || StartsWith(Strip(line), q)
  {
    var t := Strip(line);
    assert [p, q][1..] == [q];
    assert [q][1..] == [];
    assert !StartsWithAny(t, []);
    assert StartsWithAny(t, [q]) == (StartsWith(t, q) || StartsWithAny(t, []));
    assert StartsWithAny(t, [p, q]) == (StartsWith(t, p) || StartsWithAny(t, [q]));
  }

  lemma FirstMatchIs(lines: seq<string>, prefixes: seq<string>, i: int)
    requires IsFirstMatch(lines, prefixes, i)
    ensures FirstMatch(lines, prefixes) == Some(i)
  {
    FirstMatchSpec(lines, prefixes);
  }

  lemma FirstMatchNone(lines: seq<string>, prefixes: seq<string>)
    requires forall i :: 0 <= i < |lines| ==> !Matches(lines[i], prefixes)
    ensures FirstMatch(lines, prefixes) == None
  {
    FirstMatchSpec(lines, prefixes);
  }

  /** `if lines and not lines[-1].endswith("\n"): lines[-1] += "\n"` */
  function TerminateLast(lines: seq<string>): seq<string> {
    if lines != [] && !EndsWithNewline(lines[|lines| - 1])
    then lines[..|lines| - 1] + [lines[|lines| - 1] + "\n"]
    else lines
  }

  /** The newline fix keeps every line but the last, and leaves the last one
      ending with '\n', adding one only when it was missing; a list already
      ending with '\n' is left alone, so the fix is idempotent. */
  lemma TerminateLastSpec(lines: seq<string>)
    ensures |TerminateLast(lines)| == |lines|
    ensures forall j :: 0 <= j < |lines| - 1 ==> TerminateLast(lines)[j] == lines[j]
    ensures lines != [] ==>
              var last := TerminateLast(lines)[|lines| - 1];
              && EndsWithNewline(last)
              && (last == lines[|lines| - 1] || last == lines[|lines| - 1] + "\n")
    ensures lines != [] && EndsWithNewline(lines[|lines| - 1]) ==> TerminateLast(lines) == lines
    ensures TerminateLast(TerminateLast(lines)) == TerminateLast(lines)
  {
  }

  /** The edit both update functions make: replace the first matching line
      by `newLine`, or, with no match, terminate the last line and append
      `newLine`. */
  function ReplaceFirstOrAppend(lines: seq<string>, prefixes: seq<string>, newLine: string): seq<string> {
    match FirstMatch(lines, prefixes)
    case Some(i) => lines[i := newLine]
    case None => TerminateLast(lines) + [newLine]
  }

  /** With a matching line, only the first one changes: it becomes `newLine`,
      and the line count and every other line stay as they were. */
  lemma ReplacesFirstMatch(lines: seq<string>, prefixes: seq<string>, newLine: string, i: int)
    requires IsFirstMatch(lines, prefixes, i)
    ensures var r := ReplaceFirstOrAppend(lines, prefixes, newLine);
            && |r| == |lines| && r[i] == newLine
            && forall j :: 0 <= j < |lines| && j != i ==> r[j] == lines[j]
  {
    FirstMatchIs(lines, prefixes, i);
  }

  /** With no matching line, exactly one line is added at the end, and the
      old last line gets a '\n' when it lacks one. */
  lemma AppendsWhenNoMatch(lines: seq<string>, prefixes: seq<string>, newLine: string)
    requires forall i :: 0 <= i < |lines| ==> !Matches(lines[i], prefixes)
    ensures var r := ReplaceFirstOrAppend(lines, prefixes, newLine);
            && |r| == |lines| + 1
            && r[|lines|] == newLine
            && (forall j :: 0 <= j < |lines| - 1 ==> r[j] == lines[j])
            && (lines != [] ==>
                  r[|lines| - 1] ==
                  (if EndsWithNewline(lines[|lines| - 1]) then lines[|lines| - 1]
                   else lines[|lines| - 1] + "\n"))
  {
    FirstMatchNone(lines, prefixes);
  }

  /** Where a scan for the first line whose stripped text starts with `p`
      stops decides the edit: replace there, or append at the end. */
  lemma EditWhereScanStops(lines: seq<string>, p: string, newLine: string, i: int)
    requires 0 <= i <= |lines|
    requires forall j :: 0 <= j < i ==> !StartsWith(Strip(lines[j]), p)
    requires i < |lines| ==> StartsWith(Strip(lines[i]), p)
    ensures ReplaceFirstOrAppend(lines, [p], newLine)
            == if i < |lines| then lines[i := newLine] else TerminateLast(lines) + [newLine]
  {
    forall j | 0 <= j < i ensures !Matches(lines[j], [p]) {
      MatchesOne(lines[j], p);
    }
    if i < |lines| {
      MatchesOne(lines[i], p);
      FirstMatchIs(lines, [p], i);
    } else {
      FirstMatchNone(lines, [p]);
    }
  }

  /** The same for a scan that stops at a line starting with `p` or `q`. */
  lemma EditWhereScanStopsTwo(lines: seq<string>, p: string, q: string, newLine: string, i: int)
    requires 0 <= i <= |lines|
    requires forall j :: 0 <= j < i ==> !StartsWith(Strip(lines[j]), p) && !StartsWith(Strip(lines[j]), q)
    requires i < |lines| ==> StartsWith(Strip(lines[i]), p) || StartsWith(Strip(lines[i]), q)
    ensures ReplaceFirstOrAppend(lines, [p, q], newLine)
            == if i < |lines| then lines[i := newLine] else TerminateLast(lines) + [newLine]
  {
    forall j | 0 <= j < i ensures !Matches(lines[j], [p, q]) {
      MatchesTwo(lines[j], p, q);
    }
    if i < |lines| {
      MatchesTwo(lines[i], p, q);
      FirstMatchIs(lines, [p, q], i);
    } else {
      FirstMatchNone(lines, [p, q]);
    }
  }

  /** Terminating a line does not change whether it matches. */
  lemma MatchesTerminated(line: string, prefixes: seq<string>)
    ensures Matches(line + "\n", prefixes) == Matches(line, prefixes)
  {
    StripByAppend(line, '\n', Space);
  }

  /** A second edit with a matching line overwrites the line the first one
      wrote: editing twice is editing once with the later line. */
  lemma ReplaceTwice(lines: seq<string>, prefixes: seq<string>, n1: string, n2: string)
    requires Matches(n1, prefixes)
    ensures ReplaceFirstOrAppend(ReplaceFirstOrAppend(lines, prefixes, n1), prefixes, n2)
            == ReplaceFirstOrAppend(lines, prefixes, n2)
  {
    match FirstMatch(lines, prefixes)
    case Some(i) =>
      ReplacedTwice(lines, prefixes, i, n1, n2);
    case None =>
      AppendedThenReplaced(lines, prefixes, n1, n2);
  }

  lemma ReplacedTwice(lines: seq<string>, prefixes: seq<string>, i: nat, n1: string, n2: string)
    requires FirstMatch(lines, prefixes) == Some(i) && Matches(n1, prefixes)
    ensures ReplaceFirstOrAppend(lines[i := n1], prefixes, n2) == lines[i := n2]
  {
    var r1 := lines[i := n1];
    FirstMatchSpec(lines, prefixes);
    assert forall j :: 0 <= j < i ==> r1[j] == lines[j];
    FirstMatchIs(r1, prefixes, i);
    assert r1[i := n2] == lines[i := n2];
  }

  lemma AppendedThenReplaced(lines: seq<string>, prefixes: seq<string>, n1: string, n2: string)
    requires FirstMatch(lines, prefixes) == None && Matches(n1, prefixes)
    ensures ReplaceFirstOrAppend(TerminateLast(lines) + [n1], prefixes, n2) == TerminateLast(lines) + [n2]
  {
    var t := TerminateLast(lines);
    var r1 := t + [n1];
    assert IsFirstMatch(r1, prefixes, |lines|) by {
      FirstMatchSpec(lines, prefixes);
      TerminateLastMatches(lines, prefixes);
      assert forall j :: 0 <= j < |lines| ==> r1[j] == t[j];
    }
    FirstMatchIs(r1, prefixes, |lines|);
    assert ReplaceFirstOrAppend(r1, prefixes, n2) == r1[|lines| := n2];
    assert r1[|lines| := n2] == t + [n2];
  }

  lemma TerminateLastMatches(lines: seq<string>, prefixes: seq<string>)
    ensures |TerminateLast(lines)| == |lines|
    ensures forall j :: 0 <= j < |lines| ==>
              Matches(TerminateLast(lines)[j], prefixes) == Matches(lines[j], prefixes)
  {
    var t := TerminateLast(lines);
    forall j | 0 <= j < |lines| ensures Matches(t[j], prefixes) == Matches(lines[j], prefixes) {
      if j == |lines| - 1 && !EndsWithNewline(lines[j]) {
        assert t[j] == lines[j] + "\n";
        MatchesTerminated(lines[j], prefixes);
      } else {
        assert t[j] == lines[j];
      }
    }
  }

  /** The edit keeps a read file well formed, so reading the written file back
      yields exactly the edited list (with SplitConcat). */
  lemma ReplaceFirstOrAppendWellFormed(lines: seq<string>, prefixes: seq<string>, newLine: string)
    requires WellFormed(lines)
    requires IsLine(newLine) && EndsWithNewline(newLine)
    ensures WellFormed(ReplaceFirstOrAppend(lines, prefixes, newLine))
  {
    match FirstMatch(lines, prefixes)
    case Some(i) =>
      UpdateWellFormed(lines, i, newLine);
    case None =>
      AppendWellFormed(lines, newLine);
  }

  lemma UpdateWellFormed(lines: seq<string>, i: nat, newLine: string)
    requires WellFormed(lines) && i < |lines|
    requires IsLine(newLine) && EndsWithNewline(newLine)
    ensures WellFormed(lines[i := newLine])
  {
    var r := lines[i := newLine];
    forall j | 0 <= j < |r| ensures IsLine(r[j]) {
      if j != i { assert r[j] == lines[j]; }
    }
    forall j | 0 <= j < |r| - 1 ensures EndsWithNewline(r[j]) {
      if j != i { assert r[j] == lines[j]; }
    }
  }

  lemma AppendWellFormed(lines: seq<string>, newLine: string)
    requires WellFormed(lines)
    requires IsLine(newLine) && EndsWithNewline(newLine)
    ensures WellFormed(TerminateLast(lines) + [newLine])
  {
    var t := TerminateLast(lines);
    var r := t + [newLine];
    assert |t| == |lines|;
    forall j | 0 <= j < |t| ensures IsLine(t[j]) && EndsWithNewline(t[j]) {
      var last := lines[|lines| - 1];
      if j < |lines| - 1 {
        assert t[j] == lines[j];
      } else if EndsWithNewline(last) {
        assert t[j] == last;
      } else {
        assert t[j] == last + "\n";
        forall m | 0 <= m < |t[j]| - 1 ensures t[j][m] != '\n' {
          assert t[j][m] == last[m];
        }
      }
    }
    assert forall j :: 0 <= j < |t| ==> r[j] == t[j];
  }
}
