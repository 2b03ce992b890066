// setup/verify_hello_world_rpc.py: the gateway client's URL and header
// construction, reading the bearer token from `.env`, and picking the
// say_hello tool out of the gateway's tool list.

module VerifyHelloWorldRpc {

  import opened Wrappers
  import opened PyStrings
  import opened TextLines
  import opened EnvUtils

  const Slash := OneOf({'/'})

  /** GatewayClient after `__init__`: its fields are never changed. */
  datatype GatewayClient = GatewayClient(baseUrl: string, headers: map<string, string>)

  /** `GatewayClient(base_url, token)`: trailing slashes dropped from the
      base URL; a bearer header and a JSON content type. */
  function NewGatewayClient(baseUrl: string, token: string): (c: GatewayClient)
    ensures c.baseUrl == [] || c.baseUrl[|c.baseUrl| - 1] != '/'
    ensures StartsWith(baseUrl, c.baseUrl)
    ensures forall i :: |c.baseUrl| <= i < |baseUrl| ==> baseUrl[i] == '/'
    ensures c.headers.Keys == {"Authorization", "Content-Type"}
    ensures c.headers["Authorization"] == "Bearer " + token
    ensures c.headers["Content-Type"] == "application/json"
  {
    var n := TrailingCount(baseUrl, Slash);
    assert baseUrl[..|baseUrl| - n][..|baseUrl| - n] == baseUrl[..|baseUrl| - n];
    GatewayClient(RStrip(baseUrl, Slash), map["Authorization" := "Bearer " + token, "Content-Type" := "application/json"])
  }

  /** The URL `post` and `get` request: base URL, one '/', then the path
      without its leading slashes. */
  function Url(c: GatewayClient, path: string): (u: string)
    ensures |u| > |c.baseUrl| && u[..|c.baseUrl| + 1] == c.baseUrl + "/"
    ensures var p := u[|c.baseUrl| + 1..];
            && |p| <= |path| && p == path[|path| - |p|..]
            && (forall i :: 0 <= i < |path| - |p| ==> path[i] == '/')
            && (p == [] || p[0] != '/')
  {
    var n := LeadingCount(path, Slash);
    c.baseUrl + "/" + path[n..]
  }

  /** However many slashes end the base URL or start the path, the request
      goes to the same URL. */
  lemma UrlIgnoresExtraSlashes(baseUrl: string, token: string, path: string)
    ensures Url(NewGatewayClient(baseUrl + "/", token), path) == Url(NewGatewayClient(baseUrl, token), path)
    ensures Url(NewGatewayClient(baseUrl, token), "/" + path) == Url(NewGatewayClient(baseUrl, token), path)
  {
    RStripAppend(baseUrl, '/', Slash);
    LStripPrepend(path, '/', Slash);
  }

  /** `token_vars`: the variables load_token_from_env_file looks for. */
  const TokenVars := ["MCPGATEWAY_BEARER_TOKEN"]

  /** The value of a stripped `VAR=` line: the text after the first '=',
      stripped of whitespace, then of '"', then of "'". */
  function BearerValue(line: string): (r: string)
    requires '=' in line
    ensures r == [] || (r[0] != '\'' && r[|r| - 1] != '\'')
  {
    StripBy(StripBy(Strip(AfterFirst(line, '=')), OneOf({'"'})), OneOf({'\''}))
  }

  /** The token a stripped line gives for one variable, if its value is
      non-empty. */
  function VarToken(s: string, v: string): (r: Option<string>)
    ensures !StartsWith(s, v + "=") ==> r.None?
    ensures StartsWith(s, v + "=") ==> '=' in s
    ensures r.Some? <==> StartsWith(s, v + "=") && BearerValue(s) != []
    ensures r.Some? ==> r.value == BearerValue(s)
    ensures r.Some? ==> r.value != []
  {
    if StartsWith(s, v + "=") then
      assert s[|v|] == '=';
      var value := BearerValue(s);
      if value != [] then Some(value) else None
    else None
  }

  /** The token a stripped line gives for the first variable that yields one. */
  function VarsToken(s: string, vars: seq<string>): (r: Option<string>)
    ensures r.Some? ==> r.value != []
  {
    if vars == [] then None
    else if VarToken(s, vars[0]).Some? then VarToken(s, vars[0])
    else VarsToken(s, vars[1..])
  }

  /** The token one line of `.env` yields: blank lines and comments yield
      none. */
  function LineToken(line: string, vars: seq<string>): (r: Option<string>)
    ensures r.Some? ==> r.value != []
    ensures Strip(line) == [] || Strip(line)[0] == '#' ==> r.None?
  {
    var s := Strip(line);
    if s == [] || s[0] == '#' then None else VarsToken(s, vars)
  }

  /** The token of the first line of `.env` that yields one. */
  function LinesToken(lines: seq<string>, vars: seq<string>): (r: Option<string>)
    ensures r.Some? ==> r.value != []
  {
    if lines == [] then None
    else if LineToken(lines[0], vars).Some? then LineToken(lines[0], vars)
    else LinesToken(lines[1..], vars)
  }

  /** What load_token_from_env_file returns for the file. */
  function EnvFileToken(file: TextFile): Option<string> {
    LinesToken(ReadLines(file), TokenVars)
  }

  /** With no line yielding a token the result is None, and only then. */
  lemma {:induction false} LinesTokenNone(lines: seq<string>, vars: seq<string>)
    ensures LinesToken(lines, vars).None? <==> forall j :: 0 <= j < |lines| ==> LineToken(lines[j], vars).None?
  {
    if lines != [] {
      LinesTokenNone(lines[1..], vars);
      assert forall j :: 1 <= j < |lines| ==> lines[j] == lines[1..][j - 1];
    }
  }

  /** A line that yields a token, with no such line before it, decides. */
  lemma {:induction false} LinesTokenIs(lines: seq<string>, vars: seq<string>, i: nat)
    requires i < |lines| && LineToken(lines[i], vars).Some?
    requires forall j :: 0 <= j < i ==> LineToken(lines[j], vars).None?
    ensures LinesToken(lines, vars) == LineToken(lines[i], vars)
  {
    if i > 0 {
      assert LineToken(lines[0], vars).None?;
      assert lines[1..][i - 1] == lines[i];
      forall j | 0 <= j < i - 1 ensures LineToken(lines[1..][j], vars).None? {
        assert lines[1..][j] == lines[j + 1];
      }
      LinesTokenIs(lines[1..], vars, i - 1);
    }
  }

  /** load_token_from_env_file(): scans `.env` and returns the first
      non-empty token; None for a missing file or when no line has one. */
  method LoadTokenFromEnvFile(file: TextFile) returns (token: Option<string>)
    ensures token == EnvFileToken(file)
  {
    if file.Absent? {
      return None;
    }
    token := ScanForToken(SplitLines(Translate(file.content)), TokenVars);
  }

  /** The loop of load_token_from_env_file over the lines of the file and,
      for each line, over `token_vars`. */
  method ScanForToken(lines: seq<string>, tokenVars: seq<string>) returns (token: Option<string>)
    ensures token == LinesToken(lines, tokenVars)
  {
    for i := 0 to |lines|
      invariant LinesToken(lines[i..], tokenVars) == LinesToken(lines, tokenVars)
    {
      assert lines[i..][1..] == lines[i + 1..];
      var line := Strip(lines[i]);
      if line == [] || line[0] == '#' {
        continue;
      }
      for k := 0 to |tokenVars|
        invariant VarsToken(line, tokenVars[k..]) == VarsToken(line, tokenVars)
      {
        assert tokenVars[k..][1..] == tokenVars[k + 1..];
        var v := tokenVars[k];
        if StartsWith(line, v + "=") {
          assert line[|v|] == (v + "=")[|v|] == '=' by {
            assert line[..|v| + 1][|v|] == line[|v|];
          }
          var value := StripBy(StripBy(Strip(AfterFirst(line, '=')), OneOf({'"'})), OneOf({'\''}));
          if value != [] {
            return Some(value);
          }
        }
      }
      assert tokenVars[|tokenVars|..] == [];
    }
    assert lines[|lines|..] == [];
    return None;
  }

  /** A line no `key=` edit would match yields no token for `key`. */
  lemma UnmatchedLineNoToken(line: string, key: string)
    requires !Matches(line, [key + "="])
    ensures LineToken(line, [key]).None?
  {
    MatchesOne(line, key + "=");
    assert [key][1..] == [];
    assert VarsToken(Strip(line), []) == None;
  }

  /** Terminating a line does not change the token it yields. */
  lemma TerminatedLineToken(line: string, vars: seq<string>)
    ensures LineToken(line + "\n", vars) == LineToken(line, vars)
  {
    StripByAppend(line, '\n', Space);
  }

  /** A token the reader would not trim: non-empty, on one line, and neither
      starting nor ending with a quote character. */
  predicate PlainToken(v: string) {
    && v != [] && '\n' !in v && '\r' !in v
    && v[0] != '"' && v[0] != '\'' && v[|v| - 1] != '"' && v[|v| - 1] != '\''
  }

  /** The reader's trimming gives back a plain value written in quotes. */
  lemma BearerValueOfQuoted(key: string, v: string)
    requires '=' !in key && PlainToken(v)
    ensures '=' in key + "=" + ("\"" + v + "\"")
    ensures BearerValue(key + "=" + ("\"" + v + "\"")) == v
  {
    var q := "\"" + v + "\"";
    var line := key + "=" + q;
    assert line[|key|] == '=';
    assert AfterFirst(line, '=') == q by {
      AfterFirstPrefix(key, '=', q);
    }
    StripQuoted(v);
  }

  /** The trimming chain applied to a plain value in double quotes. */
  lemma StripQuoted(v: string)
    requires PlainToken(v)
    ensures StripBy(StripBy(Strip("\"" + v + "\""), OneOf({'"'})), OneOf({'\''})) == v
  {
    var q := ['"'] + v + ['"'];
    StripByUnpadded(q, Space);
    StripByEnclosed('"', v, OneOf({'"'}));
    StripByUnpadded(v, OneOf({'\''}));
  }

  /** The line update_env_file writes gives back the value it quoted. */
  lemma EnvLineToken(key: string, v: string)
    requires ValidKey(key) && PlainToken(v)
    ensures LineToken(EnvLine(key, v), [key]) == Some(v)
  {
    var s := key + "=" + ("\"" + v + "\"");
    assert Strip(EnvLine(key, v)) == s by {
      EnvLineShape(key, v);
    }
    assert s != [] && s[0] != '#' by {
      assert s[0] == key[0];
    }
    assert VarToken(s, key) == Some(v) by {
      assert s[..|key| + 1] == key + "=";
      ValidKeyNoEquals(key);
      BearerValueOfQuoted(key, v);
    }
    assert VarsToken(s, [key]) == Some(v) by {
      assert [key][0] == key;
    }
  }

  lemma ReplacedLineToken(lines: seq<string>, key: string, v: string, i: nat)
    requires ValidKey(key) && PlainToken(v)
    requires IsFirstMatch(lines, [key + "="], i)
    ensures LinesToken(ReplaceFirstOrAppend(lines, [key + "="], EnvLine(key, v)), [key]) == Some(v)
  {
    var r := ReplaceFirstOrAppend(lines, [key + "="], EnvLine(key, v));
    ReplacesFirstMatch(lines, [key + "="], EnvLine(key, v), i);
    EnvLineToken(key, v);
    forall j | 0 <= j < i
      ensures LineToken(r[j], [key]).None?
    {
      UnmatchedLineNoToken(lines[j], key);
    }
    LinesTokenIs(r, [key], i);
  }

  lemma AppendedLineToken(lines: seq<string>, key: string, v: string)
    requires ValidKey(key) && PlainToken(v)
    requires forall j :: 0 <= j < |lines| ==> !Matches(lines[j], [key + "="])
    ensures LinesToken(ReplaceFirstOrAppend(lines, [key + "="], EnvLine(key, v)), [key]) == Some(v)
  {
    var r := ReplaceFirstOrAppend(lines, [key + "="], EnvLine(key, v));
    AppendsWhenNoMatch(lines, [key + "="], EnvLine(key, v));
    EnvLineToken(key, v);
    forall j | 0 <= j < |lines|
      ensures LineToken(r[j], [key]).None?
    {
      UnmatchedLineNoToken(lines[j], key);
      if j == |lines| - 1 && !EndsWithNewline(lines[j]) {
        assert r[j] == lines[j] + "\n";
        TerminatedLineToken(lines[j], [key]);
      } else {
        assert r[j] == lines[j];
      }
    }
    LinesTokenIs(r, [key], |lines|);
  }

  /** After update_env_file(key, value) the reader, looking for `key`, finds
      the value written, whatever the file held before, as long as the
      reader's own trimming leaves it intact. */
  lemma UpdatedTokenLoads(key: string, value: string, file: TextFile)
    requires ValidKey(key) && PlainToken(NormalizeValue(value))
    ensures LinesToken(ReadLines(Present(Concat(UpdatedEnvLines(key, value, file)))), [key])
            == Some(NormalizeValue(value))
  {
    var lines := ReadLines(file);
    UpdatedEnvLinesRead(key, value, file);
    FirstMatchSpec(lines, [key + "="]);
    if FirstMatch(lines, [key + "="]).Some? {
      ReplacedLineToken(lines, key, NormalizeValue(value), FirstMatch(lines, [key + "="]).value);
    } else {
      AppendedLineToken(lines, key, NormalizeValue(value));
    }
  }

  /** The token recreate_gateway stores with
      update_env_file("MCPGATEWAY_BEARER_TOKEN", token) is the token
      load_token_from_env_file reads back. */
  lemma ProvisionedTokenLoads(token: string, file: TextFile)
    requires PlainToken(NormalizeValue(token))
    ensures EnvFileToken(Present(Concat(UpdatedEnvLines(TokenVars[0], token, file))))
            == Some(NormalizeValue(token))
  {
    UpdatedTokenLoads(TokenVars[0], token, file);
  }

  /** A tool entry of the gateway's `/tools` listing; a missing key is None. */
  datatype Tool = Tool(name: Option<string>, id: Option<string>)

  /** `tool.get("name", "")` */
  function ToolName(t: Tool): string {
    if t.name.Some? then t.name.value else ""
  }

  predicate IsSayHello(t: Tool) {
    Contains(ToolName(t), "say-hello") || Contains(ToolName(t), "say_hello")
  }

  /** The first say_hello tool in the listing. */
  function FirstSayHello(tools: seq<Tool>): (r: Option<nat>)
    ensures r.Some? ==> r.value < |tools| && IsSayHello(tools[r.value])
    ensures r.Some? ==> forall j :: 0 <= j < r.value ==> !IsSayHello(tools[j])
    ensures r.None? ==> forall j :: 0 <= j < |tools| ==> !IsSayHello(tools[j])
  {
    if tools == [] then None
    else if IsSayHello(tools[0]) then Some(0)
    else
      match FirstSayHello(tools[1..])
      case Some(i) => Some(i + 1)
      case None => None
  }

  lemma FirstSayHelloIs(tools: seq<Tool>, i: nat)
    requires i < |tools| && IsSayHello(tools[i])
    requires forall j :: 0 <= j < i ==> !IsSayHello(tools[j])
    ensures FirstSayHello(tools) == Some(i)
  {
  }

  /** The tool search in main(): the id and name of the first tool whose name
      contains "say-hello" or "say_hello"; both None when there is none. */
  method FindSayHelloTool(tools: seq<Tool>) returns (toolId: Option<string>, toolNameFound: Option<string>)
    ensures FirstSayHello(tools).Some? ==>
              var k := FirstSayHello(tools).value;
              toolId == tools[k].id && toolNameFound == Some(ToolName(tools[k]))
    ensures FirstSayHello(tools).None? ==> toolId.None? && toolNameFound.None?
  {
    toolId := None;
    toolNameFound := None;
    for i := 0 to |tools|
      invariant forall j :: 0 <= j < i ==> !IsSayHello(tools[j])
      invariant toolId.None? && toolNameFound.None?
    {
      var name := ToolName(tools[i]);
      if Contains(name, "say-hello") || Contains(name, "say_hello") {
        toolId := tools[i].id;
        toolNameFound := Some(name);
        FirstSayHelloIs(tools, i);
        return;
      }
    }
  }

  /** `if not tool_id`: main goes on only with a non-empty id. */
  predicate ToolFound(toolId: Option<string>) {
    toolId.Some? && toolId.value != []
  }
}
