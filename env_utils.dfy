// setup/env_utils.py: reading a `.env` file into a dictionary and updating
// one key in it in place.

module EnvUtils {

  import opened Wrappers
  import opened PyStrings
  import opened TextLines

  /** A name the key group `[\w.-]+` of load_env's pattern matches whole. */
  predicate ValidKey(key: string) {
    key != [] && forall i :: 0 <= i < |key| ==> In(key[i], KeyChar)
  }

  /** A key holds no '=' (nor any other character outside `[\w.-]`). */
  lemma ValidKeyNoEquals(key: string)
    requires ValidKey(key)
    ensures '=' !in key && '#' !in key
  {
  }

  /** `re.match(r"^\s*([\w.-]+)\s*=\s*(.*)$", s)`: the key group and the
      value group, or None when the pattern does not match.  `.` stops at
      '\n' and `$` also matches just before a final '\n'. */
  function MatchAssignment(s: string): (r: Option<(string, string)>)
    ensures r.Some? ==> ValidKey(r.value.0) && '\n' !in r.value.1
  {
    var scan := AssignmentScan(s);
    var r := MatchScan(s, scan.0, scan.1, scan.2, scan.3);
    if r.None? then r
    else
      ScanKeyValid(s, scan.0, scan.1);
      r
  }

  /** A non-empty key run is a valid key. */
  lemma ScanKeyValid(s: string, a: nat, n: nat)
    requires a == AssignmentScan(s).0 && n == AssignmentScan(s).1 && n != 0
    ensures a + n <= |s| && ValidKey(s[a..a + n])
  {
    LeadingRun(s, KeyChar, a);
    var key := s[a..a + n];
    assert forall i :: 0 <= i < n ==> key[i] == s[a + i];
  }

  /** The match read off the scan's positions: the '=' must stand at `b`,
      the key run must be non-empty and the group must hold no '\n'. */
  function MatchScan(s: string, a: nat, n: nat, b: nat, c: nat): (r: Option<(string, string)>)
    requires a + n <= b <= |s| && (b < |s| ==> b < c <= |s|)
    ensures r.Some? ==> n != 0 && b < |s| && s[b] == '=' && c <= |s|
    ensures r.Some? ==> r.value.0 == s[a..a + n] && '\n' !in r.value.1
    ensures r.Some? ==> r.value.1 == if c < |s| && s[|s| - 1] == '\n' then s[c..|s| - 1] else s[c..]
  {
    if n == 0 || b == |s| || s[b] != '=' then None
    else
      var group := if c < |s| && s[|s| - 1] == '\n' then s[c..|s| - 1] else s[c..];
      if '\n' in group then None else Some((s[a..a + n], group))
  }

  /** The pattern's greedy scan of `s`: the leading whitespace ends at `a`,
      the key run has length `n`, the whitespace after it ends at `b` (where
      '=' must stand) and the whitespace after that ends at `c`. */
  function AssignmentScan(s: string): (r: (nat, nat, nat, nat))
    ensures r.0 + r.1 <= r.2 <= |s| && (r.2 < |s| ==> r.2 < r.3 <= |s|)
  {
    var a := LeadingCount(s, Space);
    var n := LeadingCount(s[a..], KeyChar);
    var b := a + n + LeadingCount(s[a + n..], Space);
    var c := if b < |s| then b + 1 + LeadingCount(s[b + 1..], Space) else b;
    (a, n, b, c)
  }

  /** The shape the pattern gives `s`, by positions: whitespace before `a`,
      the key at `a`, whitespace up to the '=' at `b`, whitespace up to `c`,
      then the value group, possibly followed by one final '\n' (where `$`
      also matches).  `\s*` is greedy, so the group does not start with
      whitespace, and `.` stops at '\n', so the group holds none. */
  predicate AssignmentAt(s: string, a: int, b: int, c: int, key: string, group: string) {
    && 0 <= a && a + |key| <= b < c <= |s|
    && ValidKey(key)
    && s[a..a + |key|] == key
    && s[b] == '='
    && (forall m :: 0 <= m < a ==> IsSpace(s[m]))
    && (forall m :: a + |key| <= m < b ==> IsSpace(s[m]))
    && (forall m :: b < m < c ==> IsSpace(s[m]))
    && (s[c..] == group || s[c..] == group + "\n")
    && '\n' !in group
    && (group == [] || !IsSpace(group[0]))
  }

  /** `s` matches the pattern with these two groups. */
  ghost predicate IsAssignment(s: string, key: string, group: string) {
    exists a, b, c :: AssignmentAt(s, a, b, c, key, group)
  }

  /** The scan MatchAssignment performs finds the shape it claims. */
  lemma MatchAssignmentSplit(s: string) returns (a: int, b: int, c: int)
    requires MatchAssignment(s).Some?
    ensures AssignmentAt(s, a, b, c, MatchAssignment(s).value.0, MatchAssignment(s).value.1)
  {
    var n;
    a, n, b, c := AssignmentScan(s).0, AssignmentScan(s).1, AssignmentScan(s).2, AssignmentScan(s).3;
    MatchedGroups(s, a, n, b, c);
    ScanShape(s, a, n, b, c);
    ShapeOfScan(s, a, n, b, c, MatchAssignment(s).value.1);
  }

  /** The groups of a match, read off the scan. */
  lemma MatchedGroups(s: string, a: nat, n: nat, b: nat, c: nat)
    requires MatchAssignment(s).Some?
    requires a == AssignmentScan(s).0 && n == AssignmentScan(s).1
    requires b == AssignmentScan(s).2 && c == AssignmentScan(s).3
    ensures n != 0 && b < |s| && s[b] == '='
    ensures a + n <= |s| && MatchAssignment(s).value.0 == s[a..a + n]
    ensures c <= |s| && MatchAssignment(s).value.1 == if c < |s| && s[|s| - 1] == '\n' then s[c..|s| - 1] else s[c..]
  {
    assert MatchAssignment(s) == MatchScan(s, a, n, b, c);
  }

  /** The scan's positions give the pattern's shape whenever the '=' is in
      place and the group holds no line break. */
  lemma ShapeOfScan(s: string, a: nat, n: nat, b: nat, c: nat, group: string)
    requires a + n <= b < c <= |s|
    requires forall m :: 0 <= m < a ==> IsSpace(s[m])
    requires forall m :: a <= m < a + n ==> In(s[m], KeyChar)
    requires forall m :: a + n <= m < b ==> IsSpace(s[m])
    requires forall m :: b < m < c ==> IsSpace(s[m])
    requires c < |s| ==> !IsSpace(s[c])
    requires n != 0 && s[b] == '=' && '\n' !in group
    requires group == if c < |s| && s[|s| - 1] == '\n' then s[c..|s| - 1] else s[c..]
    ensures AssignmentAt(s, a, b, c, s[a..a + n], group)
  {
    var key := s[a..a + n];
    forall i | 0 <= i < n ensures In(key[i], KeyChar) {
      assert key[i] == s[a + i];
    }
    if c < |s| && s[|s| - 1] == '\n' {
      DropLast(s, c);
    }
  }

  /** What the scan has passed over, by positions. */
  lemma ScanShape(s: string, a: nat, n: nat, b: nat, c: nat)
    requires a == AssignmentScan(s).0 && n == AssignmentScan(s).1
    requires b == AssignmentScan(s).2 && c == AssignmentScan(s).3
    ensures forall m :: 0 <= m < a ==> IsSpace(s[m])
    ensures forall m :: a <= m < a + n ==> In(s[m], KeyChar)
    ensures forall m :: a + n <= m < b ==> IsSpace(s[m])
    ensures forall m :: b < m < c ==> IsSpace(s[m])
    ensures b < c < |s| ==> !IsSpace(s[c])
  {
    KeyScanShape(s, a, n, b);
    if b < |s| {
      ValueScanShape(s, b, c);
    }
  }

  /** The leading spaces, the key and the spaces before '='. */
  lemma KeyScanShape(s: string, a: nat, n: nat, b: nat)
    requires a <= |s| && a == LeadingCount(s, Space)
    requires a + n <= |s| && n == LeadingCount(s[a..], KeyChar)
    requires b == a + n + LeadingCount(s[a + n..], Space)
    ensures forall m :: 0 <= m < a ==> IsSpace(s[m])
    ensures forall m :: a <= m < a + n ==> In(s[m], KeyChar)
    ensures forall m :: a + n <= m < b ==> IsSpace(s[m])
  {
    assert s[0..] == s;
    LeadingRun(s, Space, 0);
    LeadingRun(s, KeyChar, a);
    LeadingRun(s, Space, a + n);
  }

  /** The spaces after '=' and where they stop. */
  lemma ValueScanShape(s: string, b: nat, c: nat)
    requires b < |s| && c == b + 1 + LeadingCount(s[b + 1..], Space)
    ensures forall m :: b < m < c ==> IsSpace(s[m])
    ensures c < |s| ==> !IsSpace(s[c])
  {
    LeadingRun(s, Space, b + 1);
  }

  /** A string of the pattern's shape is matched with exactly those groups. */
  lemma MatchAssignmentOfSplit(s: string, a: int, b: int, c: int, key: string, group: string)
    requires AssignmentAt(s, a, b, c, key, group)
    ensures MatchAssignment(s) == Some((key, group))
  {
    var c2 := ScanOfSplit(s, a, b, c, key, group);
    if group != [] {
      GroupAt(s, c, group);
    }
    assert MatchAssignment(s).value.0 == key;
  }

  /** `(.*)$` read from `c`: the group, with a final '\n' left out. */
  lemma GroupAt(s: string, c: int, group: string)
    requires 0 <= c <= |s| && group != [] && '\n' !in group
    requires s[c..] == group || s[c..] == group + "\n"
    ensures (if c < |s| && s[|s| - 1] == '\n' then s[c..|s| - 1] else s[c..]) == group
  {
    if s[c..] == group + "\n" {
      assert s[c..|s| - 1] == group;
    } else {
      assert s[|s| - 1] == s[c..][|group| - 1] == group[|group| - 1];
    }
  }

  /** On a string of the pattern's shape the scan stops where the shape
      says; after an empty group it runs to the end. */
  lemma ScanOfSplit(s: string, a: int, b: int, c: int, key: string, group: string) returns (c2: int)
    requires AssignmentAt(s, a, b, c, key, group)
    ensures AssignmentScan(s).0 == a && AssignmentScan(s).1 == |key|
    ensures AssignmentScan(s).2 == b && AssignmentScan(s).3 == c2
    ensures s[a..a + |key|] == key
    ensures c2 == if group == [] then |s| else c
  {
    var n := |key|;
    forall m | a <= m < a + n ensures In(s[m], KeyChar) {
      assert s[m] == key[m - a];
    }
    assert !IsSpace(s[a]) by { assert In(s[a], KeyChar); }
    assert !In(s[a + n], KeyChar) by {
      if a + n < b {
        assert IsSpace(s[a + n]);
      }
    }
    if group == [] {
      forall m | b < m < |s| ensures IsSpace(s[m]) {
        if m >= c {
          assert s[m] == s[c..][m - c] == '\n';
        }
      }
      c2 := |s|;
    } else {
      assert s[c] == s[c..][0] == group[0];
      c2 := c;
    }
    ScanIs(s, a, n, b, c2);
  }

  /** The converse of ScanShape: runs that end where these positions say
      are the ones the scan finds. */
  lemma ScanIs(s: string, a: nat, n: nat, b: nat, c: nat)
    requires a + n <= b < c <= |s|
    requires forall m :: 0 <= m < a ==> IsSpace(s[m])
    requires !IsSpace(s[a])
    requires forall m :: a <= m < a + n ==> In(s[m], KeyChar)
    requires !In(s[a + n], KeyChar)
    requires forall m :: a + n <= m < b ==> IsSpace(s[m])
    requires !IsSpace(s[b])
    requires forall m :: b < m < c ==> IsSpace(s[m])
    requires c < |s| ==> !IsSpace(s[c])
    ensures AssignmentScan(s).0 == a && AssignmentScan(s).1 == n
    ensures AssignmentScan(s).2 == b && AssignmentScan(s).3 == c
  {
    KeyScanIs(s, a, n, b);
    assert AssignmentScan(s).3 == c by {
      LeadingCountFrom(s, Space, b + 1, c);
    }
  }

  /** The first three runs of the scan. */
  lemma KeyScanIs(s: string, a: nat, n: nat, b: nat)
    requires a + n <= b < |s|
    requires forall m :: 0 <= m < a ==> IsSpace(s[m])
    requires !IsSpace(s[a])
    requires forall m :: a <= m < a + n ==> In(s[m], KeyChar)
    requires !In(s[a + n], KeyChar)
    requires forall m :: a + n <= m < b ==> IsSpace(s[m])
    requires !IsSpace(s[b])
    ensures AssignmentScan(s).0 == a && AssignmentScan(s).1 == n && AssignmentScan(s).2 == b
  {
    assert AssignmentScan(s).0 == a by {
      assert s[0..] == s;
      LeadingCountFrom(s, Space, 0, a);
    }
    assert AssignmentScan(s).1 == n by {
      LeadingCountFrom(s, KeyChar, a, a + n);
    }
    assert AssignmentScan(s).2 == b by {
      LeadingCountFrom(s, Space, a + n, b);
    }
  }

  /** MatchAssignment is `re.match` of the pattern: it gives a key and a
      value group exactly when `s` has the pattern's shape with them, and
      None when `s` has it with none. */
  lemma MatchAssignmentMeans(s: string, key: string, group: string)
    ensures MatchAssignment(s) == Some((key, group)) <==> IsAssignment(s, key, group)
  {
    if MatchAssignment(s) == Some((key, group)) {
      var a, b, c := MatchAssignmentSplit(s);
    }
    if IsAssignment(s, key, group) {
      var a, b, c :| AssignmentAt(s, a, b, c, key, group);
      MatchAssignmentOfSplit(s, a, b, c, key, group);
    }
  }

  /** Remove one pair of matching surrounding quotes (`value[1:-1]`; a lone
      quote character becomes ""). */
  function Unquote(v: string): (r: string)
    ensures |r| <= |v|
    ensures forall c :: c in r ==> c in v
    ensures |v| >= 2 && v[0] == v[|v| - 1] && v[0] in {'"', '\''} ==> v == [v[0]] + r + [v[0]]
    ensures |v| == 1 && v[0] in {'"', '\''} ==> r == []
    ensures v == [] || v[0] != v[|v| - 1] || v[0] !in {'"', '\''} ==> r == v
  {
    if v != [] && ((v[0] == '"' && v[|v| - 1] == '"') || (v[0] == '\'' && v[|v| - 1] == '\''))
    then (if |v| >= 2 then v[1..|v| - 1] else [])
    else v
  }

  /** What load_env keeps of the value group: cut at the first '#', strip,
      unquote. */
  function CleanValue(group: string): (r: string)
    ensures '#' !in r
    ensures '\n' in r ==> '\n' in group
  {
    var cut := BeforeFirst(group, '#');
    var stripped := Strip(cut);
    StripByKeepsOut(cut, Space, '#');
    assert '\n' !in group ==> '\n' !in cut && '\n' !in stripped by {
      if '\n' !in group {
        assert forall m :: 0 <= m < |cut| ==> cut[m] == group[m];
        StripByKeepsOut(cut, Space, '\n');
      }
    }
    Unquote(stripped)
  }

  /** load_env's cleaning reads the value up to the first '#' (the whole
      group when it has none), stripped and with one pair of matching
      quotes removed. */
  lemma CleanValueCut(group: string, i: int)
    requires 0 <= i <= |group| && '#' !in group[..i]
    requires i < |group| ==> group[i] == '#'
    ensures CleanValue(group) == Unquote(Strip(group[..i]))
  {
    var cut := BeforeFirst(group, '#');
    assert group[..|cut|] == cut;
    assert cut == group[..i];
  }

  /** The entry one line contributes to load_env's dictionary, if any.  Blank
      lines and comments contribute nothing; a key is always a valid name and
      a value never holds '#' or a line break. */
  function ParseEnvLine(line: string): (r: Option<(string, string)>)
    ensures Strip(line) == [] || Strip(line)[0] == '#' ==> r.None?
    ensures MatchAssignment(Strip(line)).None? ==> r.None?
    ensures r.Some? ==> ValidKey(r.value.0) && '#' !in r.value.1 && '\n' !in r.value.1
  {
    var s := Strip(line);
    if s == [] || s[0] == '#' then None
    else
      match MatchAssignment(s)
      case None => None
      case Some((key, group)) => Some((key, CleanValue(group)))
  }

  /** A line gives the entry (key, v) exactly when, stripped, it is not
      blank or a comment and matches the pattern with that key and a value
      group that cleans to `v`. */
  lemma ParseEnvLineMeans(line: string, key: string, v: string)
    ensures ParseEnvLine(line) == Some((key, v)) <==>
              && Strip(line) != [] && Strip(line)[0] != '#'
              && exists group :: IsAssignment(Strip(line), key, group) && v == CleanValue(group)
  {
    var s := Strip(line);
    if ParseEnvLine(line) == Some((key, v)) {
      var group := MatchAssignment(s).value.1;
      MatchAssignmentMeans(s, key, group);
    }
    if s != [] && s[0] != '#' && exists group :: IsAssignment(s, key, group) && v == CleanValue(group) {
      var group :| IsAssignment(s, key, group) && v == CleanValue(group);
      MatchAssignmentMeans(s, key, group);
    }
  }

  /** A line gives no entry exactly when, stripped, it is blank, a comment,
      or does not match the pattern at all. */
  lemma ParseEnvLineNone(line: string)
    ensures ParseEnvLine(line).None? <==>
              || Strip(line) == [] || Strip(line)[0] == '#'
              || forall key, group :: !IsAssignment(Strip(line), key, group)
  {
    var s := Strip(line);
    if MatchAssignment(s).Some? {
      var m := MatchAssignment(s).value;
      MatchAssignmentMeans(s, m.0, m.1);
    } else {
      forall key, group ensures !IsAssignment(s, key, group) {
        MatchAssignmentMeans(s, key, group);
      }
    }
  }

  predicate Binds(line: string, key: string) {
    ParseEnvLine(line).Some? && ParseEnvLine(line).value.0 == key
  }

  /** The entry each line contributes, in file order. */
  function Entries(lines: seq<string>): (es: seq<Option<(string, string)>>)
    ensures |es| == |lines|
    ensures forall i :: 0 <= i < |lines| ==> es[i] == ParseEnvLine(lines[i])
  {
    seq(|lines|, i requires 0 <= i < |lines| => ParseEnvLine(lines[i]))
  }

  /** Folding entries into a dictionary, later entries overwriting earlier. */
  function Collect(es: seq<Option<(string, string)>>): map<string, string> {
    if es == [] then map[]
    else
      var env := Collect(es[..|es| - 1]);
      match es[|es| - 1]
      case Some((k, v)) => env[k := v]
      case None => env
  }

  /** The dictionary load_env builds from `lines`. */
  function EnvOf(lines: seq<string>): map<string, string> {
    Collect(Entries(lines))
  }

  /** load_env(file_path) */
  method LoadEnv(file: TextFile) returns (env: map<string, string>)
    ensures env == EnvOf(ReadLines(file))
    ensures file.Absent? ==> env == map[]
  {
    env := map[];
    if file.Absent? {
      return;
    }
    var lines := SplitLines(Translate(file.content));
    ghost var es := Entries(lines);
    for i := 0 to |lines|
      invariant env == Collect(es[..i])
    {
      CollectSnoc(es, i);
      var line := Strip(lines[i]);
      if line == [] || line[0] == '#' {
        continue;
      }
      var m := MatchAssignment(line);
      if m.Some? {
        var (key, group) := m.value;
        env := env[key := CleanValue(group)];
      }
    }
    assert es[..|lines|] == es;
  }

  lemma CollectSnoc(es: seq<Option<(string, string)>>, i: int)
    requires 0 <= i < |es|
    ensures Collect(es[..i + 1]) ==
              if es[i].Some? then Collect(es[..i])[es[i].value.0 := es[i].value.1] else Collect(es[..i])
  {
    assert es[..i + 1][..i] == es[..i];
  }

  predicate EntryBinds(e: Option<(string, string)>, key: string) {
    e.Some? && e.value.0 == key
  }

  lemma {:induction false} CollectBindingOf(es: seq<Option<(string, string)>>, key: string) returns (j: int)
    requires key in Collect(es)
    ensures 0 <= j < |es| && EntryBinds(es[j], key) && Collect(es)[key] == es[j].value.1
    ensures forall m :: j < m < |es| ==> !EntryBinds(es[m], key)
  {
    var init := es[..|es| - 1];
    if EntryBinds(es[|es| - 1], key) {
      j := |es| - 1;
    } else {
      j := CollectBindingOf(init, key);
      assert es[j] == init[j];
      forall m | j < m < |es| ensures !EntryBinds(es[m], key) {
        if m < |init| { assert es[m] == init[m]; }
      }
    }
  }

  lemma {:induction false} CollectLastBinding(es: seq<Option<(string, string)>>, i: int, key: string)
    requires 0 <= i < |es| && EntryBinds(es[i], key)
    requires forall j :: i < j < |es| ==> !EntryBinds(es[j], key)
    ensures key in Collect(es) && Collect(es)[key] == es[i].value.1
  {
    var init := es[..|es| - 1];
    if i < |es| - 1 {
      forall j | i < j < |init| ensures !EntryBinds(init[j], key) {
        assert init[j] == es[j];
      }
      assert init[i] == es[i];
      CollectLastBinding(init, i, key);
    }
  }

  /** Every key of the dictionary comes from a line that binds it, the last
      such line. */
  lemma BindingOf(lines: seq<string>, key: string) returns (j: int)
    requires key in EnvOf(lines)
    ensures 0 <= j < |lines| && Binds(lines[j], key)
    ensures EnvOf(lines)[key] == ParseEnvLine(lines[j]).value.1
    ensures forall m :: j < m < |lines| ==> !Binds(lines[m], key)
  {
    j := CollectBindingOf(Entries(lines), key);
  }

  /** When several lines bind a key, the last one wins. */
  lemma LastBindingWins(lines: seq<string>, i: int, key: string)
    requires 0 <= i < |lines| && Binds(lines[i], key)
    requires forall j :: i < j < |lines| ==> !Binds(lines[j], key)
    ensures key in EnvOf(lines) && EnvOf(lines)[key] == ParseEnvLine(lines[i]).value.1
  {
    CollectLastBinding(Entries(lines), i, key);
  }

  /** The line update_env_file writes for `key`. */
  function EnvLine(key: string, value: string): string {
    QuotedLine(key + "=", value)
  }

  /** update_env_file's normalisation: strip, then remove one matching pair
      of surrounding quotes. */
  function NormalizeValue(value: string): (r: string)
    ensures var t := Strip(value);
            t == [] || t[0] != t[|t| - 1] || t[0] !in {'"', '\''} ==> r == t
    ensures var t := Strip(value);
            |t| >= 2 && t[0] == t[|t| - 1] && t[0] in {'"', '\''} ==> t == [t[0]] + r + [t[0]]
    ensures var t := Strip(value);
            |t| == 1 && t[0] in {'"', '\''} ==> r == []
  {
    Unquote(Strip(value))
  }

  /** A value given in either kind of quotes is stored without them. */
  lemma NormalizeQuoted(v: string, q: char)
    requires q == '"' || q == '\''
    ensures NormalizeValue([q] + v + [q]) == v
  {
    var quoted := [q] + v + [q];
    assert Strip(quoted) == quoted by {
      StripByPadded([], quoted, [], Space);
      assert [] + quoted + [] == quoted;
    }
    assert quoted[1..|quoted| - 1] == v;
  }

  /** The lines update_env_file writes: the first line whose stripped text
      starts with `key=` is replaced, otherwise the line is appended. */
  function UpdatedEnvLines(key: string, value: string, file: TextFile): seq<string> {
    ReplaceFirstOrAppend(ReadLines(file), [key + "="], EnvLine(key, NormalizeValue(value)))
  }

  /** update_env_file(key, value, file_path): returns the text it writes. */
  method UpdateEnvFile(key: string, value: string, file: TextFile) returns (written: string)
    ensures written == Concat(UpdatedEnvLines(key, value, file))
  {
    var v := Strip(value);
    v := Unquote(v);
    var newLine := EnvLine(key, v);
    if file.Absent? {
      written := newLine;
      assert Concat([newLine]) == newLine + Concat([]);
      return;
    }
    var lines := SplitLines(Translate(file.content));
    assert lines == ReadLines(file);
    lines := ReplaceKeyLine(lines, key, newLine);
    written := Concat(lines);
  }

  /** The edit update_env_file makes to the lines it read: the first line
      that sets `key` is replaced, otherwise the last line is terminated and
      the new line appended. */
  method ReplaceKeyLine(original: seq<string>, key: string, newLine: string) returns (lines: seq<string>)
    ensures lines == ReplaceFirstOrAppend(original, [key + "="], newLine)
  {
    lines := original;
    var i := FindKeyLine(lines, key);
    if i < |lines| {
      lines := lines[i := newLine];
    } else {
      if lines != [] && !EndsWithNewline(lines[|lines| - 1]) {
        lines := lines[|lines| - 1 := lines[|lines| - 1] + "\n"];
      }
      assert lines == TerminateLast(original);
      lines := lines + [newLine];
    }
    EditWhereScanStops(original, key + "=", newLine, i);
  }

  /** The loop of update_env_file: the index of the first line whose
      stripped text starts with `key=`, or |lines| when none does. */
  method FindKeyLine(lines: seq<string>, key: string) returns (i: nat)
    ensures i <= |lines|
    ensures forall j :: 0 <= j < i ==> !StartsWith(Strip(lines[j]), key + "=")
    ensures i < |lines| ==> StartsWith(Strip(lines[i]), key + "=")
  {
    i := 0;
    while i < |lines|
      invariant i <= |lines|
      invariant forall j :: 0 <= j < i ==> !StartsWith(Strip(lines[j]), key + "=")
    {
      if StartsWith(Strip(lines[i]), key + "=") {
        return;
      }
      i := i + 1;
    }
  }

  /** Updating a key twice leaves the file as updating it once with the
      second value: the second call finds and overwrites the line the first
      one wrote, so repeated updates never pile up lines. */
  lemma UpdateTwice(key: string, v1: string, v2: string, file: TextFile)
    requires ValidKey(key) && '\n' !in NormalizeValue(v1) && '\r' !in NormalizeValue(v1)
    ensures UpdatedEnvLines(key, v2, Present(Concat(UpdatedEnvLines(key, v1, file))))
            == UpdatedEnvLines(key, v2, file)
  {
    var n1 := EnvLine(key, NormalizeValue(v1));
    UpdatedEnvLinesRead(key, v1, file);
    EnvLineShape(key, NormalizeValue(v1));
    ReplaceTwice(ReadLines(file), [key + "="], n1, EnvLine(key, NormalizeValue(v2)));
  }

  /** load_env's pattern splits a written line into its key and quoted value. */
  lemma MatchAssignmentOfEnvLine(key: string, quoted: string)
    requires ValidKey(key) && quoted != [] && quoted[0] == '"' && '\n' !in quoted
    ensures MatchAssignment(key + "=" + quoted) == Some((key, quoted))
  {
    var core := key + "=" + quoted;
    assert core[..|key|] == key && core[|key|] == '=' && core[|key| + 1..] == quoted;
    MatchAssignmentOfSplit(core, 0, |key|, |key| + 1, key, quoted);
  }

  lemma UnquoteQuoted(v: string)
    ensures Unquote("\"" + v + "\"") == v
  {
    var quoted := "\"" + v + "\"";
    assert quoted[0] == '"' && quoted[|quoted| - 1] == '"';
    assert quoted[1..|quoted| - 1] == v;
  }

  /** load_env's value cleaning takes the quotes off a written value. */
  lemma CleanValueOfQuoted(v: string)
    requires '#' !in v
    ensures CleanValue("\"" + v + "\"") == v
  {
    var quoted := "\"" + v + "\"";
    assert BeforeFirst(quoted, '#') == quoted by {
      assert forall m :: 0 <= m < |quoted| ==> quoted[m] == '"' || quoted[m] in v;
    }
    assert Strip(quoted) == quoted by {
      StripByPadded([], quoted, [], Space);
      assert [] + quoted + [] == quoted;
    }
    UnquoteQuoted(v);
  }

  /** What follows the first '=' of the line written for `key`. */
  lemma EnvLineAfterEquals(key: string, v: string)
    requires ValidKey(key)
    ensures '=' in EnvLine(key, v)
    ensures AfterFirst(EnvLine(key, v), '=') == "\"" + v + "\"" + "\n"
  {
    var rest := "\"" + v + "\"" + "\n";
    assert EnvLine(key, v) == key + "=" + rest;
    assert EnvLine(key, v)[|key|] == '=';
    ValidKeyNoEquals(key);
    AfterFirstPrefix(key, '=', rest);
  }

  lemma EnvLineShape(key: string, v: string)
    requires ValidKey(key) && '\n' !in v && '\r' !in v
    ensures IsLine(EnvLine(key, v)) && EndsWithNewline(EnvLine(key, v))
    ensures Strip(EnvLine(key, v)) == key + "=" + ("\"" + v + "\"")
    ensures Matches(EnvLine(key, v), [key + "="])
  {
    assert '\n' !in key + "=" && '\r' !in key + "=" by {
      assert forall m :: 0 <= m < |key| ==> (key + "=")[m] == key[m];
    }
    QuotedLineShape(key + "=", v);
    MatchesOne(EnvLine(key, v), key + "=");
  }

  /** Under the pattern, the written line reads back as its key and value. */
  lemma ParseEnvLineOfEnvLine(key: string, v: string)
    requires ValidKey(key) && '#' !in v && '\n' !in v
    ensures ParseEnvLine(EnvLine(key, v)) == Some((key, v))
  {
    var quoted := "\"" + v + "\"";
    var core := key + "=" + quoted;
    assert (key + "=")[0] == key[0];
    QuotedLineStrip(key + "=", v);
    assert core[0] == key[0];
    assert '\n' !in quoted by {
      assert forall m :: 0 <= m < |quoted| ==> quoted[m] == '"' || quoted[m] in v;
    }
    MatchAssignmentOfEnvLine(key, quoted);
    ParseEnvLineOfAssignment(EnvLine(key, v), key, quoted);
    CleanValueOfQuoted(v);
  }

  lemma ParseEnvLineOfAssignment(line: string, key: string, group: string)
    requires Strip(line) != [] && Strip(line)[0] != '#'
    requires MatchAssignment(Strip(line)) == Some((key, group))
    ensures ParseEnvLine(line) == Some((key, CleanValue(group)))
  {
  }

  /** Write/read round trip: after update_env_file(key, value), load_env maps
      `key` to the normalised value, provided the value has no '#' or line
      break (load_env cuts at '#') and no line after the replaced one binds
      the key again (load_env keeps the last binding). */
  lemma UpdateThenLoad(key: string, value: string, file: TextFile)
    requires ValidKey(key)
    requires '#' !in NormalizeValue(value) && '\n' !in NormalizeValue(value) && '\r' !in NormalizeValue(value)
    requires NoLaterBinding(ReadLines(file), key)
    ensures var env := EnvOf(ReadLines(Present(Concat(UpdatedEnvLines(key, value, file)))));
            key in env && env[key] == NormalizeValue(value)
  {
    var lines := ReadLines(file);
    var v := NormalizeValue(value);
    var r := UpdatedEnvLines(key, value, file);
    UpdatedEnvLinesRead(key, value, file);
    ParseEnvLineOfEnvLine(key, v);
    var newLine := EnvLine(key, v);
    FirstMatchSpec(lines, [key + "="]);
    match FirstMatch(lines, [key + "="])
    case Some(i) =>
      ReplacesFirstMatch(lines, [key + "="], newLine, i);
      forall m | i < m < |r| ensures !Binds(r[m], key) {
        assert r[m] == lines[m];
      }
      LastBindingWins(r, i, key);
    case None =>
      AppendsWhenNoMatch(lines, [key + "="], newLine);
      LastBindingWins(r, |r| - 1, key);
  }

  /** Reading back the file update_env_file wrote yields the edited lines. */
  lemma UpdatedEnvLinesRead(key: string, value: string, file: TextFile)
    requires ValidKey(key) && '\n' !in NormalizeValue(value) && '\r' !in NormalizeValue(value)
    ensures ReadLines(Present(Concat(UpdatedEnvLines(key, value, file)))) == UpdatedEnvLines(key, value, file)
  {
    var newLine := EnvLine(key, NormalizeValue(value));
    ReadLinesWellFormed(file);
    EnvLineShape(key, NormalizeValue(value));
    ReplaceFirstOrAppendWellFormed(ReadLines(file), [key + "="], newLine);
    SplitConcat(UpdatedEnvLines(key, value, file));
  }

  /** No line after the first `key=` line binds `key` again. */
  predicate NoLaterBinding(lines: seq<string>, key: string) {
    match FirstMatch(lines, [key + "="])
    case None => true
    case Some(i) => forall j :: i < j < |lines| ==> !Binds(lines[j], key)
  }

  /** Why the round trip needs NoLaterBinding: a later line binding the same
      key (a duplicate `key=` line, or a spaced `key = ...` one) survives the
      update and is the value load_env returns. */
  lemma LaterBindingShadowsUpdate(key: string, value: string, file: TextFile, j: int)
    requires ValidKey(key) && '#' !in NormalizeValue(value) && '\n' !in NormalizeValue(value) && '\r' !in NormalizeValue(value)
    requires FirstMatch(ReadLines(file), [key + "="]).Some?
    requires FirstMatch(ReadLines(file), [key + "="]).value < j < |ReadLines(file)|
    requires Binds(ReadLines(file)[j], key)
    requires forall m :: j < m < |ReadLines(file)| ==> !Binds(ReadLines(file)[m], key)
    ensures var env := EnvOf(ReadLines(Present(Concat(UpdatedEnvLines(key, value, file)))));
            key in env && env[key] == ParseEnvLine(ReadLines(file)[j]).value.1
  {
    var lines := ReadLines(file);
    var i := FirstMatch(lines, [key + "="]).value;
    var r := UpdatedEnvLines(key, value, file);
    UpdatedEnvLinesRead(key, value, file);
    FirstMatchSpec(lines, [key + "="]);
    ReplacesFirstMatch(lines, [key + "="], EnvLine(key, NormalizeValue(value)), i);
    ReplacedBindingSurvives(lines, r, i, j, key);
  }

  /** Replacing a line before the last binding of `key` keeps that binding
      the one load_env returns. */
  lemma ReplacedBindingSurvives(lines: seq<string>, r: seq<string>, i: int, j: int, key: string)
    requires |r| == |lines| && 0 <= i < j < |lines|
    requires forall m :: 0 <= m < |lines| && m != i ==> r[m] == lines[m]
    requires Binds(lines[j], key)
    requires forall m :: j < m < |lines| ==> !Binds(lines[m], key)
    ensures key in EnvOf(r) && EnvOf(r)[key] == ParseEnvLine(lines[j]).value.1
  {
    assert r[j] == lines[j];
    forall m | j < m < |r| ensures !Binds(r[m], key) {
      assert r[m] == lines[m];
    }
    LastBindingWins(r, j, key);
  }
}
