// setup/recreate_gateway.py: pulling the API token out of the bootstrap
// script's output, writing it into ~/.zshrc, and the checks that decide
// whether registering and invoking the demo server succeeded.

module RecreateGateway {

  import opened Wrappers
  import opened PyStrings
  import opened TextLines

  const StartMarker := "BOOTSTRAP_TOKEN_START:"
  const EndMarker := ":BOOTSTRAP_TOKEN_END"

  /** No line break in `s[a..b]`. */
  predicate NoBreak(s: string, a: int, b: int)
    requires 0 <= a && b <= |s|
  {
    forall k :: a <= k < b ==> s[k] != '\n'
  }

  /** The pattern `<sm>(.*?)<em>` matches at `p` with the group ending at
      `q`: both markers in place and no line break between them, since `.`
      does not match '\n'. */
  predicate TokenAt(s: string, sm: string, em: string, p: int, q: int) {
    && OccursAt(s, sm, p)
    && p + |sm| <= q
    && OccursAt(s, em, q)
    && NoBreak(s, p + |sm|, q)
  }

  /** Where the lazy group `(.*?)` begun at `from` ends: the first position
      where the end marker follows, scanning no further than the line's end. */
  function LazyEnd(s: string, em: string, from: nat): (r: Option<nat>)
    decreases |s| - from
    ensures r.Some? ==> from <= r.value && OccursAt(s, em, r.value) && NoBreak(s, from, r.value)
    ensures r.Some? ==> forall q :: from <= q < r.value ==> !OccursAt(s, em, q)
    ensures r.None? ==> forall q :: from <= q && OccursAt(s, em, q) ==> !NoBreak(s, from, q)
  {
    if OccursAt(s, em, from) then Some(from)
    else if from < |s| && s[from] != '\n' then
      var r := LazyEnd(s, em, from + 1);
      assert forall q :: from + 1 <= q <= |s| && NoBreak(s, from, q) ==> NoBreak(s, from + 1, q);
      r
    else None
  }

  /** `re.search`: the leftmost start at or after `from` where the pattern
      matches, with the group the lazy quantifier picks there. */
  function FindToken(s: string, sm: string, em: string, from: nat): (r: Option<(nat, nat)>)
    decreases |s| - from
    ensures r.Some? ==> from <= r.value.0 && TokenAt(s, sm, em, r.value.0, r.value.1)
    ensures r.Some? ==> forall p, q :: from <= p < r.value.0 ==> !TokenAt(s, sm, em, p, q)
    ensures r.Some? ==> forall q :: q < r.value.1 ==> !TokenAt(s, sm, em, r.value.0, q)
    ensures r.None? ==> forall p, q :: from <= p ==> !TokenAt(s, sm, em, p, q)
  {
    if from + |sm| > |s| then None
    else if OccursAt(s, sm, from) && LazyEnd(s, em, from + |sm|).Some? then
      Some((from, LazyEnd(s, em, from + |sm|).value))
    else
      FindToken(s, sm, em, from + 1)
  }

  /** Lines 121-126 of provision_token: the token group of the first match of
      `BOOTSTRAP_TOKEN_START:(.*?):BOOTSTRAP_TOKEN_END`, or None when the
      output holds no match. */
  function ExtractToken(stdout: string): Option<string> {
    Extract(stdout, StartMarker, EndMarker)
  }

  /** `re.search(sm + "(.*?)" + em, s).group(1)` for literal markers. */
  function Extract(s: string, sm: string, em: string): Option<string> {
    match FindToken(s, sm, em, 0)
    case Some((p, q)) => Some(s[p + |sm|..q])
    case None => None
  }

  /** Extraction fails exactly when no start marker is followed, on the same
      line, by an end marker. */
  lemma ExtractTokenNone(stdout: string)
    ensures ExtractToken(stdout).None? <==> forall p, q :: !TokenAt(stdout, StartMarker, EndMarker, p, q)
  {
  }

  /** The extracted token is the text between a start marker and an end
      marker on the same line. */
  lemma ExtractTokenBetweenMarkers(stdout: string)
    requires ExtractToken(stdout).Some?
    ensures exists p, q :: && TokenAt(stdout, StartMarker, EndMarker, p, q)
                           && ExtractToken(stdout).value == stdout[p + |StartMarker|..q]
                           && forall p2, q2 :: TokenAt(stdout, StartMarker, EndMarker, p2, q2) ==>
                                                 p < p2 || (p == p2 && q <= q2)
  {
    var r := FindToken(stdout, StartMarker, EndMarker, 0).value;
    assert TokenAt(stdout, StartMarker, EndMarker, r.0, r.1);
  }

  /** A lazy group never holds a line break or the end marker. */
  lemma GroupIsClean(s: string, sm: string, em: string)
    requires em != [] && FindToken(s, sm, em, 0).Some?
    ensures var (p, q) := FindToken(s, sm, em, 0).value;
            '\n' !in s[p + |sm|..q] && !Contains(s[p + |sm|..q], em)
  {
    var (p, q) := FindToken(s, sm, em, 0).value;
    var b := p + |sm|;
    var t := s[b..q];
    assert forall k :: 0 <= k < |t| ==> t[k] == s[b + k];
    if Contains(t, em) {
      var i :| OccursAt(t, em, i);
      var u, v := s[b + i..b + i + |em|], t[i..i + |em|];
      assert forall k :: 0 <= k < |em| ==> u[k] == v[k];
      assert u == v;
      assert NoBreak(s, b, b + i);
      assert TokenAt(s, sm, em, p, b + i) && b + i < q;
      assert false;
    }
  }

  /** Because the group is lazy and `.` stops at '\n', an extracted token
      never holds a line break or the end marker. */
  lemma ExtractedTokenIsClean(stdout: string)
    requires ExtractToken(stdout).Some?
    ensures '\n' !in ExtractToken(stdout).value
    ensures !Contains(ExtractToken(stdout).value, EndMarker)
  {
    GroupIsClean(stdout, StartMarker, EndMarker);
  }

  /** A marker whose first character does not occur again in it cannot
      overlap another occurrence of itself. */
  predicate NoBorder(m: string) {
    m != [] && forall d :: 1 <= d < |m| ==> m[d] != m[0]
  }

  lemma MarkersHaveNoBorder()
    ensures NoBorder(StartMarker) && NoBorder(EndMarker)
  {
  }

  /** No occurrence of `m` starts in `[lo, e)` when one starts at `e` and the
      text `s[lo..e]` does not contain `m`. */
  lemma NoOccurrenceBefore(s: string, m: string, lo: int, e: int, x: int)
    requires NoBorder(m)
    requires 0 <= lo <= x < e && OccursAt(s, m, e)
    requires !Contains(s[lo..e], m)
    ensures !OccursAt(s, m, x)
  {
    var a := s[lo..e];
    if x + |m| <= e {
      var u, v := a[x - lo..x - lo + |m|], s[x..x + |m|];
      assert forall k :: 0 <= k < |m| ==> u[k] == v[k];
      assert u == v;
      assert !OccursAt(a, m, x - lo);
    } else {
      assert s[e..e + |m|][0] == s[e];
      if x + |m| <= |s| {
        assert s[x..x + |m|][e - x] == s[e];
      }
    }
  }

  /** Where the printed line puts the markers and the token. */
  lemma PrintedLayout(pre: string, sm: string, token: string, em: string, post: string)
    ensures var s := pre + sm + token + em + post;
            var b := |pre| + |sm|;
            var c := b + |token|;
            && s[..|pre|] == pre
            && OccursAt(s, sm, |pre|)
            && s[b..c] == token
            && OccursAt(s, em, c)
  {
    var s := pre + sm + token + em + post;
    var b := |pre| + |sm|;
    var c := b + |token|;
    assert s[|pre|..b] == sm;
    assert s[c..c + |em|] == em;
  }

  /** A match at `p` whose group ends at `q`, with no match starting earlier
      and no earlier end for this start, is the one re.search returns. */
  lemma FindTokenIs(s: string, sm: string, em: string, p: nat, q: nat)
    requires TokenAt(s, sm, em, p, q)
    requires forall p', q' :: 0 <= p' < p ==> !TokenAt(s, sm, em, p', q')
    requires forall q' :: q' < q ==> !TokenAt(s, sm, em, p, q')
    ensures FindToken(s, sm, em, 0) == Some((p, q))
  {
  }

  /** Searching a printed `sm + token + em` line finds that token, when the
      markers cannot overlap themselves, nothing before holds `sm`, and the
      token holds neither a line break nor `em`. */
  lemma FindPrinted(pre: string, sm: string, token: string, em: string, post: string)
    requires NoBorder(sm) && NoBorder(em)
    requires '\n' !in token && !Contains(token, em)
    requires !Contains(pre, sm)
    ensures var b := |pre| + |sm|;
            FindToken(pre + sm + token + em + post, sm, em, 0) == Some((|pre|, b + |token|))
  {
    PrintedLayout(pre, sm, token, em, post);
    var s := pre + sm + token + em + post;
    var a := |pre|;
    var b := a + |sm|;
    var c := b + |token|;
    assert NoBreak(s, b, c) by {
      assert forall k :: b <= k < c ==> s[k] == s[b..c][k - b];
    }
    assert s[0..a] == pre;
    forall p, q | 0 <= p < a ensures !TokenAt(s, sm, em, p, q) {
      NoOccurrenceBefore(s, sm, 0, a, p);
    }
    forall q | q < c ensures !TokenAt(s, sm, em, a, q) {
      if b <= q {
        NoOccurrenceBefore(s, em, b, c, q);
      }
    }
    FindTokenIs(s, sm, em, a, c);
  }

  /** Printing a token between the markers and extracting it gives the token
      back. */
  lemma ExtractPrinted(pre: string, sm: string, token: string, em: string, post: string)
    requires NoBorder(sm) && NoBorder(em)
    requires '\n' !in token && !Contains(token, em)
    requires !Contains(pre, sm)
    ensures Extract(pre + sm + token + em + post, sm, em) == Some(token)
  {
    FindPrinted(pre, sm, token, em, post);
    PrintedLayout(pre, sm, token, em, post);
  }

  /** Round trip with scripts/bootstrap_token.py:62: printing a token between
      the markers and extracting it gives the token back, whatever output
      follows and whatever precedes it without a start marker. */
  lemma ExtractPrintedToken(pre: string, token: string, post: string)
    requires '\n' !in token && !Contains(token, EndMarker)
    requires !Contains(pre, StartMarker)
    ensures ExtractToken(pre + StartMarker + token + EndMarker + post) == Some(token)
  {
    MarkersHaveNoBorder();
    ExtractPrinted(pre, StartMarker, token, EndMarker, post);
  }

  /** provision_token's outcome once the bootstrap script has run: None when
      the script is missing or fails or its output holds no token, the
      placeholder token in a dry run. */
  function ProvisionToken(scriptExists: bool, dryRun: bool, exitCode: int, stdout: string): (r: Option<string>)
    ensures r.Some? && !dryRun ==> scriptExists && exitCode == 0 && r == ExtractToken(stdout)
    ensures !scriptExists || (!dryRun && exitCode != 0) ==> r.None?
    ensures scriptExists && dryRun ==> r == Some("DRY_RUN_TOKEN")
    ensures scriptExists && !dryRun && exitCode == 0 ==> r == ExtractToken(stdout)
  {
    if !scriptExists then None
    else if dryRun then Some("DRY_RUN_TOKEN")
    else if exitCode != 0 then None
    else ExtractToken(stdout)
  }

  const TokenKey := "MCPGATEWAY_BEARER_TOKEN"

  /** The two prefixes update_zshrc looks for in a stripped line. */
  const ZshrcPrefixes := ["export " + TokenKey + "=", TokenKey + "="]

  /** The line update_zshrc writes. */
  function ZshrcLine(token: string): string {
    QuotedLine("export " + TokenKey + "=", token)
  }

  /** The lines update_zshrc writes: the first line setting the variable is
      replaced, otherwise the line is appended. */
  function ZshrcLines(token: string, file: TextFile): seq<string> {
    ReplaceFirstOrAppend(ReadLines(file), ZshrcPrefixes, ZshrcLine(token))
  }

  /** update_zshrc(token): returns the text it writes to ~/.zshrc; a missing
      file counts as empty. */
  method UpdateZshrc(token: string, file: TextFile) returns (written: string)
    ensures written == Concat(ZshrcLines(token, file))
  {
    var lineContent := ZshrcLine(token);
    var lines := [];
    if file.Present? {
      lines := SplitLines(Translate(file.content));
    }
    ghost var original := lines;
    var i := FindTokenLine(lines);
    if i < |lines| {
      lines := lines[i := lineContent];
    } else {
      if lines != [] && !EndsWithNewline(lines[|lines| - 1]) {
        lines := lines[|lines| - 1 := lines[|lines| - 1] + "\n"];
      }
      assert lines == TerminateLast(original);
      lines := lines + [lineContent];
    }
    assert lines == ReplaceFirstOrAppend(original, ZshrcPrefixes, lineContent) by {
      EditWhereScanStopsTwo(original, "export " + TokenKey + "=", TokenKey + "=", lineContent, i);
    }
    assert original == ReadLines(file);
    written := Concat(lines);
  }

  /** The loop of update_zshrc: the index of the first line whose stripped
      text starts with either assignment of the token, or |lines| if none
      does. */
  method FindTokenLine(lines: seq<string>) returns (i: nat)
    ensures i <= |lines|
    ensures forall j :: 0 <= j < i ==>
              !StartsWith(Strip(lines[j]), "export " + TokenKey + "=")
              && !StartsWith(Strip(lines[j]), TokenKey + "=")
    ensures i < |lines| ==>
              StartsWith(Strip(lines[i]), "export " + TokenKey + "=")
              || StartsWith(Strip(lines[i]), TokenKey + "=")
  {
    i := 0;
    while i < |lines|
      invariant i <= |lines|
      invariant forall j :: 0 <= j < i ==>
                  !StartsWith(Strip(lines[j]), "export " + TokenKey + "=")
                  && !StartsWith(Strip(lines[j]), TokenKey + "=")
    {
      var line := lines[i];
      if StartsWith(Strip(line), "export " + TokenKey + "=") || StartsWith(Strip(line), TokenKey + "=") {
        return;
      }
      i := i + 1;
    }
  }

  lemma ZshrcLineShape(token: string)
    requires '\n' !in token && '\r' !in token
    ensures IsLine(ZshrcLine(token)) && EndsWithNewline(ZshrcLine(token))
    ensures Matches(ZshrcLine(token), ZshrcPrefixes)
  {
    var p := "export " + TokenKey + "=";
    assert p[0] == 'e' && '\n' !in p;
    QuotedLineShape(p, token);
    MatchesTwo(ZshrcLine(token), p, TokenKey + "=");
  }

  /** Reading back the written ~/.zshrc yields the edited lines. */
  lemma ZshrcLinesRead(token: string, file: TextFile)
    requires '\n' !in token && '\r' !in token
    ensures ReadLines(Present(Concat(ZshrcLines(token, file)))) == ZshrcLines(token, file)
  {
    ReadLinesWellFormed(file);
    ZshrcLineShape(token);
    ReplaceFirstOrAppendWellFormed(ReadLines(file), ZshrcPrefixes, ZshrcLine(token));
    SplitConcat(ZshrcLines(token, file));
  }

  /** Provisioning twice leaves ~/.zshrc as provisioning once with the second
      token: the second update overwrites the line the first one wrote. */
  lemma ZshrcUpdateTwice(t1: string, t2: string, file: TextFile)
    requires '\n' !in t1 && '\r' !in t1
    ensures ZshrcLines(t2, Present(Concat(ZshrcLines(t1, file)))) == ZshrcLines(t2, file)
  {
    ZshrcLinesRead(t1, file);
    ZshrcLineShape(t1);
    ReplaceTwice(ReadLines(file), ZshrcPrefixes, ZshrcLine(t1), ZshrcLine(t2));
  }

  /** register_demo_server's verdict: a dry run succeeds; otherwise curl must
      exit with 0 and the response must name the server or report that it
      already exists. */
  function RegistrationSucceeded(dryRun: bool, exitCode: int, stdout: string): (ok: bool)
    ensures ok <==> dryRun || (exitCode == 0 && exists w :: w in RegistrationWords && Contains(stdout, w))
  {
    if dryRun then true
    else if exitCode != 0 then false
    else if Contains(stdout, "hello-world") then true
    else Contains(stdout, "Conflict") || Contains(stdout, "already exists")
  }

  const RegistrationWords: set<string> := {"hello-world", "Conflict", "already exists"}

  /** invoke_demo_tool's verdict: a dry run succeeds; otherwise curl must exit
      with 0 and the response must carry the greeting for SanctuaryUser. */
  function InvocationSucceeded(dryRun: bool, exitCode: int, stdout: string): (ok: bool)
    ensures ok <==> dryRun || (exitCode == 0 && exists i :: OccursAt(stdout, ExpectedGreeting, i))
  {
    if dryRun then true
    else exitCode == 0 && Contains(stdout, ExpectedGreeting)
  }

  const ExpectedGreeting := "Hello, SanctuaryUser!"
}
