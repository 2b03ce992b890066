// scripts/verify_jwt_auth.py: reading MCP_GATEWAY_API_TOKEN from `.env`
// and the headers of a request made with or without that token.

module VerifyJwtAuth {

  import opened Wrappers
  import opened PyStrings
  import opened TextLines
  import opened EnvUtils

  const ApiTokenKey := "MCP_GATEWAY_API_TOKEN"

  const Quotes := OneOf({'\'', '"'})

  /** A line get_token stops at: its stripped text starts with `key=`. */
  predicate IsTokenLine(line: string, key: string) {
    StartsWith(Strip(line), key + "=")
  }

  /** `line.split('=', 1)[1].strip().strip('\'"')`: everything after the
      first '=' of the raw line, stripped of whitespace and then of any run
      of either quote character. */
  function ApiTokenValue(line: string): (r: string)
    requires '=' in line
    ensures r == [] || (!In(r[0], Quotes) && !In(r[|r| - 1], Quotes))
  {
    var t := Strip(AfterFirst(line, '='));
    var r := StripBy(t, Quotes);
    assert r == [] || (!In(r[0], Quotes) && !In(r[|r| - 1], Quotes));
    r
  }

  /** A line whose stripped text starts with `key=` holds an '='. */
  lemma TokenLineHasEquals(line: string, key: string)
    requires IsTokenLine(line, key)
    ensures '=' in line
  {
    var i, j := StripBySlice(line, Space);
    assert Strip(line)[|key|] == (key + "=")[|key|] == '=' by {
      assert Strip(line)[..|key| + 1][|key|] == Strip(line)[|key|];
    }
    assert line[i + |key|] == '=';
  }

  /** The value of the first token line; an empty value still counts. */
  function LinesApiToken(lines: seq<string>, key: string): Option<string> {
    if lines == [] then None
    else if IsTokenLine(lines[0], key) then
      TokenLineHasEquals(lines[0], key);
      Some(ApiTokenValue(lines[0]))
    else LinesApiToken(lines[1..], key)
  }

  /** What get_token returns for the file. */
  function FileApiToken(file: TextFile): Option<string> {
    LinesApiToken(ReadLines(file), ApiTokenKey)
  }

  /** With no token line the result is None, and only then. */
  lemma {:induction false} LinesApiTokenNone(lines: seq<string>, key: string)
    ensures LinesApiToken(lines, key).None? <==> forall j :: 0 <= j < |lines| ==> !IsTokenLine(lines[j], key)
  {
    if lines != [] {
      LinesApiTokenNone(lines[1..], key);
      assert forall j :: 1 <= j < |lines| ==> lines[j] == lines[1..][j - 1];
    }
  }

  /** A token line with no token line before it decides. */
  lemma {:induction false} LinesApiTokenIs(lines: seq<string>, key: string, i: nat)
    requires i < |lines| && IsTokenLine(lines[i], key)
    requires forall j :: 0 <= j < i ==> !IsTokenLine(lines[j], key)
    ensures '=' in lines[i]
    ensures LinesApiToken(lines, key) == Some(ApiTokenValue(lines[i]))
  {
    TokenLineHasEquals(lines[i], key);
    if i > 0 {
      assert lines[1..][i - 1] == lines[i];
      LinesApiTokenIs(lines[1..], key, i - 1);
    }
  }

  /** get_token(): the value of the first line whose stripped text starts
      with `MCP_GATEWAY_API_TOKEN=`; None when the file is missing or no
      line does. */
  method GetToken(file: TextFile) returns (token: Option<string>)
    ensures token == FileApiToken(file)
  {
    token := None;
    if file.Absent? {
      return None;
    }
    var key := ApiTokenKey;
    var lines := SplitLines(Translate(file.content));
    var i := 0;
    while i < |lines|
      invariant 0 <= i <= |lines|
      invariant LinesApiToken(lines[i..], key) == LinesApiToken(lines, key)
      invariant token.None?
    {
      assert lines[i..][1..] == lines[i + 1..];
      var line := lines[i];
      if StartsWith(Strip(line), key + "=") {
        TokenLineHasEquals(line, key);
        var value := AfterFirst(line, '=');
        token := Some(StripBy(Strip(value), Quotes));
        break;
      }
      i := i + 1;
    }
    assert lines[|lines|..] == [];
  }

  /** What the reader makes of a value written after `key=`: the value
      itself, '=' characters included, when it has no surrounding
      whitespace or quotes; an empty value gives "". */
  lemma ApiTokenValueOfAssignment(key: string, v: string)
    requires '=' !in key
    requires v == [] || (!IsSpace(v[0]) && !IsSpace(v[|v| - 1]) && !In(v[0], Quotes) && !In(v[|v| - 1], Quotes))
    ensures '=' in key + "=" + v
    ensures ApiTokenValue(key + "=" + v) == v
  {
    var line := key + "=" + v;
    assert line[|key|] == '=';
    assert AfterFirst(line, '=') == v by {
      AfterFirstPrefix(key, '=', v);
    }
    assert Strip(v) == v by {
      StripByUnpadded(v, Space);
    }
    assert StripBy(v, Quotes) == v by {
      StripByUnpadded(v, Quotes);
    }
  }

  /** A value get_token would not trim further: on one line and neither
      starting nor ending with a quote character. */
  predicate PlainApiToken(v: string) {
    '\n' !in v && '\r' !in v && (v == [] || (!In(v[0], Quotes) && !In(v[|v| - 1], Quotes)))
  }

  /** Stripping whitespace and then quotes from a quoted value, as written
      and followed by its line break, gives back the value. */
  lemma QuotedApiToken(v: string)
    requires PlainApiToken(v)
    ensures StripBy(Strip("\"" + v + "\"" + "\n"), Quotes) == v
  {
    var q := ['"'] + v + ['"'];
    StripByTrailing(q, '\n', Space);
    if v == [] {
      StripByAll(q, Quotes);
    } else {
      StripByEnclosed('"', v, Quotes);
    }
  }

  lemma EnvLineIsTokenLine(key: string, v: string)
    requires ValidKey(key) && '\n' !in v && '\r' !in v
    ensures IsTokenLine(EnvLine(key, v), key)
  {
    EnvLineShape(key, v);
    assert Strip(EnvLine(key, v))[..|key| + 1] == key + "=";
  }

  /** The line update_env_file writes gives back the value it quoted. */
  lemma EnvLineApiToken(key: string, v: string)
    requires ValidKey(key) && PlainApiToken(v)
    ensures IsTokenLine(EnvLine(key, v), key)
    ensures '=' in EnvLine(key, v)
    ensures ApiTokenValue(EnvLine(key, v)) == v
  {
    EnvLineIsTokenLine(key, v);
    EnvLineAfterEquals(key, v);
    QuotedApiToken(v);
  }

  /** A line no `key=` edit would match, terminated or not, is not a token
      line for `key`. */
  lemma UnmatchedNotTokenLine(line: string, key: string)
    requires !Matches(line, [key + "="])
    ensures !IsTokenLine(line, key) && !IsTokenLine(line + "\n", key)
  {
    MatchesOne(line, key + "=");
    StripByAppend(line, '\n', Space);
  }

  lemma ReplacedApiToken(lines: seq<string>, key: string, v: string, i: nat)
    requires ValidKey(key) && PlainApiToken(v)
    requires IsFirstMatch(lines, [key + "="], i)
    ensures LinesApiToken(ReplaceFirstOrAppend(lines, [key + "="], EnvLine(key, v)), key) == Some(v)
  {
    var r := ReplaceFirstOrAppend(lines, [key + "="], EnvLine(key, v));
    ReplacesFirstMatch(lines, [key + "="], EnvLine(key, v), i);
    EnvLineApiToken(key, v);
    forall j | 0 <= j < i
      ensures !IsTokenLine(r[j], key)
    {
      UnmatchedNotTokenLine(lines[j], key);
    }
    LinesApiTokenIs(r, key, i);
  }

  lemma AppendedApiToken(lines: seq<string>, key: string, v: string)
    requires ValidKey(key) && PlainApiToken(v)
    requires forall j :: 0 <= j < |lines| ==> !Matches(lines[j], [key + "="])
    ensures LinesApiToken(ReplaceFirstOrAppend(lines, [key + "="], EnvLine(key, v)), key) == Some(v)
  {
    var r := ReplaceFirstOrAppend(lines, [key + "="], EnvLine(key, v));
    AppendsWhenNoMatch(lines, [key + "="], EnvLine(key, v));
    EnvLineApiToken(key, v);
    forall j | 0 <= j < |lines|
      ensures !IsTokenLine(r[j], key)
    {
      UnmatchedNotTokenLine(lines[j], key);
      assert r[j] == lines[j] || r[j] == lines[j] + "\n";
    }
    LinesApiTokenIs(r, key, |lines|);
  }

  /** After update_env_file(key, value), get_token looking for `key` reads
      back the normalised value, whatever the file held before. */
  lemma UpdatedApiTokenLoads(key: string, value: string, file: TextFile)
    requires ValidKey(key) && PlainApiToken(NormalizeValue(value))
    ensures LinesApiToken(ReadLines(Present(Concat(UpdatedEnvLines(key, value, file)))), key)
            == Some(NormalizeValue(value))
  {
    var lines := ReadLines(file);
    UpdatedEnvLinesRead(key, value, file);
    FirstMatchSpec(lines, [key + "="]);
    if FirstMatch(lines, [key + "="]).Some? {
      ReplacedApiToken(lines, key, NormalizeValue(value), FirstMatch(lines, [key + "="]).value);
    } else {
      AppendedApiToken(lines, key, NormalizeValue(value));
    }
  }

  /** The same for the script's own variable. */
  lemma StoredApiTokenLoads(value: string, file: TextFile)
    requires PlainApiToken(NormalizeValue(value))
    ensures FileApiToken(Present(Concat(UpdatedEnvLines(ApiTokenKey, value, file))))
            == Some(NormalizeValue(value))
  {
    UpdatedApiTokenLoads(ApiTokenKey, value, file);
  }

  /** The headers make_request sends: a bearer Authorization header exactly
      when the token is non-empty, and nothing else. */
  method MakeRequestHeaders(token: Option<string>) returns (headers: map<string, string>)
    ensures "Authorization" in headers <==> token.Some? && token.value != []
    ensures headers.Keys <= {"Authorization"}
    ensures "Authorization" in headers ==> headers["Authorization"] == "Bearer " + token.value
  {
    headers := map[];
    if token.Some? && token.value != [] {
      headers := headers["Authorization" := "Bearer " + token.value];
    }
  }

  /** `if not token` in main: a missing or empty token stops the script. */
  predicate HasToken(token: Option<string>) {
    token.Some? && token.value != []
  }
}
