# Sanctuary gateway tooling: a Dafny model of its session server and config editors

This project models the parts of the gateway toolkit that are logic rather
than orchestration, and proves what they promise.

- **The Hello-World MCP server** (`tests/assets/helloworld/server.py`) is one
  side of the HTTP+SSE transport of the Model Context Protocol (revision
  2024-11-05).
  - `HelloWorldServer.ProcessJsonRpc` is the closed JSON-RPC 2.0 method
    table: `initialize`, `notifications/initialized`, `tools/list`,
    `tools/call` of `say_hello`, and the -32601 "Method not found" error of
    section 5.1 of the JSON-RPC 2.0 specification for everything else.
  - The shared `active_sessions` dictionary is the class
    `HelloWorldServer.SessionRegistry`. It maps each session id to its queue
    of responses not yet sent.
  - `Open` is what `GET /sse` does when a client connects. `Deliver` is one
    pass of the stream loop. `Close` is the cleanup when the stream ends.
    `Submit` is `POST /messages`.
  - The pure step functions `SubmitStep`, `DeliverStep` and `Step`/`Run`
    specify those methods. A run of operations is the sequential form of
    the concurrent handlers. The trace lemmas prove FIFO delivery and the
    rejection of ended sessions.
- **`.env` handling** (`setup/env_utils.py`):
  - `EnvUtils.LoadEnv` parses a file into a dictionary;
  - `EnvUtils.UpdateEnvFile` replaces the first `KEY=` line or appends one;
  - a write/read round trip connects the two.
- **`setup/recreate_gateway.py`**:
  - the token extraction `re.search(r"BOOTSTRAP_TOKEN_START:(.*?):BOOTSTRAP_TOKEN_END", ...)`;
  - `update_zshrc`;
  - the stdout checks of `register_demo_server` and `invoke_demo_tool`.
- **`setup/verify_hello_world_rpc.py`**: the `GatewayClient` URL and headers,
  `load_token_from_env_file`, and the say_hello tool lookup of `main`.
- **`scripts/verify_jwt_auth.py`**: `get_token` and the headers of
  `make_request`.

A file is `TextLines.TextFile`: either `Absent`, or `Present(content)`.
- Files are opened in text mode, so reading uses universal newlines:
  `TextLines.Translate` reads "\r\n" and a lone '\r' as '\n'.
- `readlines()` / line iteration is `TextLines.ReadLines`: `SplitLines` of
  the translated text. Each line keeps its '\n', holds no '\r', and only
  the last line may lack a '\n'.
- `writelines` is `TextLines.Concat`. Writing translates nothing, as on a
  POSIX system, so a value holding '\r' is written as it is and read back
  split: the round-trip lemmas exclude '\r' (and '\n') from the value.
- Splitting and joining are proved inverse on well-formed line lists.
- Every method that writes a file returns the text it writes.

Python's `str.strip()` is `PyStrings.Strip` over the exact `str.isspace()`
character set. `str.strip(chars)` is `PyStrings.StripBy` with a character
class.

The server's own comments promise more than its code does.
- The module docstring (tests/assets/helloworld/server.py:6) says a POST
  to /messages "returns 202", and the comment at server.py:96 says
  "Return 202 Accepted". The model follows the code instead.
  - In the code, `body.get`, `params.get` and `args.get` raise
    `AttributeError` when the body, `params` or the `arguments` of a
    say_hello call is not a JSON object.
  - The framework then answers 500 and queues nothing.
  - `ProcessJsonRpc` returns `Raised` in exactly those cases (for `params`
    and `arguments`). `Dispatched` does the same for a non-object body.
    `SubmitRegistered` states 202 for every other dispatch.

The `.env` round trip.
- `update_env_file` replaces only the first `KEY=` line. Any later line
  that `load_env` parses to the same key survives the edit, and `load_env`
  keeps the last one. A plain duplicate `KEY=` line and a spaced
  `KEY = …` line are both such lines.
- `EnvUtils.UpdateThenLoad` reads back the value just written under
  `EnvUtils.NoLaterBinding`: no line after the first `KEY=` line binds the
  key. `EnvUtils.LaterBindingShadowsUpdate` shows that without it the last
  later binding is the value `load_env` returns.

## Model

| member | source | states |
|---|---|---|
| TextLines.Translate | setup/env_utils.py:61-62 | universal-newline reading leaves no '\r', and leaves text without '\r' unchanged |
| TextLines.SplitLinesWellFormed | setup/env_utils.py:61-62 | the lines `readlines()` returns are non-empty and free of '\r', and only the last may lack its '\n' |
| TextLines.TranslateLineEnds | setup/env_utils.py:61-62 | text written with "\r\n", lone '\r' or '\n' line ends reads back as the same text with '\n' ends: each "\r\n" and each lone '\r' becomes exactly one '\n' |
| TextLines.ReadLinesOtherEnds | setup/env_utils.py:61-62 | a file whose well-formed lines were written with "\r\n" or lone '\r' ends reads as exactly those lines with '\n' ends |
| TextLines.ReadLinesWellFormed | setup/env_utils.py:61-62 | whatever a file holds, including "\r\n" endings, the lines read from it are well formed |
| TextLines.ConcatSplitLines | setup/env_utils.py:59-76 | joining the lines split from a text reproduces the text exactly (for a file, its text after newline translation) |
| TextLines.SplitConcat | setup/env_utils.py:75-76 | text written from a well-formed list of lines holds no '\r', and reading it back gives that list |
| TextLines.QuotedLineShape | setup/env_utils.py:56 | a `<prefix>"<value>"` line is one terminated line whose stripped text starts with the prefix |
| TextLines.FirstMatch | setup/env_utils.py:64-68 | the index the update loop breaks at lies inside the file |
| TextLines.FirstMatchSpec | setup/env_utils.py:64-68 | the loop stops at the first line whose stripped text starts with a prefix, and runs to the end only when no line does |
| TextLines.MatchesOne | setup/env_utils.py:65 | the one-prefix test is `line.strip().startswith(prefix)` |
| TextLines.MatchesTwo | setup/recreate_gateway.py:157 | the two-prefix test holds iff either `startswith` holds |
| TextLines.ReplacesFirstMatch | setup/env_utils.py:64-68 | with a matching line, only the first one is replaced; the line count and every other line are unchanged |
| TextLines.AppendsWhenNoMatch | setup/env_utils.py:70-73 | with no matching line, exactly one line is appended, and only the old last line may change, by gaining its missing '\n' |
| TextLines.EditWhereScanStops | setup/env_utils.py:64-73 | editing at the index where the `found`/`break` scan stops, or appending when it runs out, is the replace-first-or-append edit |
| TextLines.EditWhereScanStopsTwo | setup/recreate_gateway.py:155-165 | the same for the scan over the two ~/.zshrc prefixes |
| TextLines.TerminateLastSpec | setup/env_utils.py:71-72 | the newline fix keeps the line count and every line but the last, which then ends with '\n' and differs only by that added '\n'; a terminated list is unchanged, so the fix is idempotent |
| TextLines.MatchesTerminated | setup/env_utils.py:71-72 | adding the missing '\n' to the last line does not change whether it matches |
| TextLines.TerminateLastMatches | setup/env_utils.py:71-72 | the newline fix keeps the line count and whether each line matches |
| TextLines.ReplaceTwice | setup/env_utils.py:64-73 | a second edit, whose written line matches, overwrites the first edit's line: the result is the same as editing once with the second line |
| TextLines.ReplaceFirstOrAppendWellFormed | setup/env_utils.py:59-76 | the edit keeps a well-formed list of lines well formed when the new line is one terminated line |
| EnvUtils.MatchAssignment | setup/env_utils.py:28 | a match of `^\s*([\w.-]+)\s*=\s*(.*)$` has a key of `[\w.-]` characters and a one-line value |
| EnvUtils.MatchAssignmentMeans | setup/env_utils.py:28-30 | the pattern matches with groups (key, group) iff the string is whitespace, the key, whitespace, '=', whitespace, then the group (no '\n', not starting with whitespace), with at most one final '\n' after it |
| EnvUtils.MatchAssignmentSplit | setup/env_utils.py:28-30 | every match has that shape, at positions the greedy scan finds |
| EnvUtils.MatchAssignmentOfSplit | setup/env_utils.py:28-30 | every string of that shape matches, with exactly that key and group |
| EnvUtils.Unquote | setup/env_utils.py:33-35 | a value starting and ending with the same quote loses exactly those two characters (a lone quote becomes ""); any other value is unchanged |
| EnvUtils.CleanValue | setup/env_utils.py:31-35 | the cleaned value has no '#' and gains no line break |
| EnvUtils.CleanValueCut | setup/env_utils.py:31-35 | the cleaned value is the group up to its first '#' (all of it without one), stripped, then unquoted |
| EnvUtils.ParseEnvLine | setup/env_utils.py:24-36 | blank and comment lines, and lines the pattern does not match, give no entry; an entry has a `[\w.-]+` key and a value without '#' or line break |
| EnvUtils.ParseEnvLineMeans | setup/env_utils.py:24-36 | a line gives (key, v) iff, stripped, it is neither blank nor a comment, matches the pattern with that key, and its value group cleans to v |
| EnvUtils.ParseEnvLineNone | setup/env_utils.py:24-36 | a line gives no entry iff, stripped, it is blank, a comment, or not of the pattern's shape for any key and group |
| EnvUtils.LoadEnv | setup/env_utils.py:10-37 | `load_env` builds the dictionary of the file's lines; a missing file gives the empty dictionary |
| EnvUtils.CollectBindingOf | setup/env_utils.py:36 | every key of the dictionary comes from the last entry that binds it |
| EnvUtils.CollectLastBinding | setup/env_utils.py:36 | the last entry binding a key decides its value |
| EnvUtils.BindingOf | setup/env_utils.py:24-37 | every key in the result is bound by some line, and its value is that of the last line binding it |
| EnvUtils.LastBindingWins | setup/env_utils.py:24-37 | when several lines bind a key, the value of the last one is the one kept |
| EnvUtils.NormalizeValue | setup/env_utils.py:48-52 | the stored value is the stripped value with one pair of matching surrounding quotes removed (a lone quote becomes ""); otherwise the stripped value itself |
| EnvUtils.NormalizeQuoted | setup/env_utils.py:48-52 | a value given in double or single quotes is stored without them |
| EnvUtils.FindKeyLine | setup/env_utils.py:64-68 | the loop stops at the first line whose stripped text starts with `KEY=`, or runs past the end when none does |
| EnvUtils.ReplaceKeyLine | setup/env_utils.py:64-73 | the lines after the edit are the read lines with the first `KEY=` line replaced, or, when there is none, with the last line terminated and the new line appended |
| EnvUtils.UpdateEnvFile | setup/env_utils.py:40-76 | the written text is the file's lines with the first `KEY=` line replaced by `KEY="value"` and a newline, or that line appended (after a newline fix); a missing file gets only that line |
| EnvUtils.UpdateTwice | setup/env_utils.py:40-76 | updating a key twice gives the file updating it once with the second value gives, when the first stored value has no '\n' or '\r' |
| EnvUtils.MatchAssignmentOfEnvLine | setup/env_utils.py:28 | the pattern splits a written `KEY="value"` line into the key and the quoted value |
| EnvUtils.UnquoteQuoted | setup/env_utils.py:33-35 | the quotes update_env_file adds are the ones load_env removes |
| EnvUtils.CleanValueOfQuoted | setup/env_utils.py:31-35 | load_env's value cleaning gives back a quoted value without '#' |
| EnvUtils.EnvLineShape | setup/env_utils.py:56 | the written line is one terminated line, stripping to `KEY="value"`, that the `KEY=` test matches |
| EnvUtils.ParseEnvLineOfEnvLine | setup/env_utils.py:24-35 | the written line parses back to the key and the value |
| EnvUtils.ParseEnvLineOfAssignment | setup/env_utils.py:25-36 | a non-blank, non-comment line the pattern matches gives its key and the cleaned value group |
| EnvUtils.UpdateThenLoad | setup/env_utils.py:10-76 | after update_env_file(k, v), load_env maps k to the normalised v, if it has no '#', '\n' or '\r' and no later line binds k |
| EnvUtils.UpdatedEnvLinesRead | setup/env_utils.py:59-76 | reading back the written file gives exactly the edited lines, when the stored value has no '\n' or '\r' |
| EnvUtils.LaterBindingShadowsUpdate | setup/env_utils.py:36 | a line after the replaced one that binds the same key survives the update, and its value is what load_env returns |
| RecreateGateway.LazyEnd | setup/recreate_gateway.py:121 | the lazy group ends at the first end marker after its start, with no line break before it; with none it fails |
| RecreateGateway.FindToken | setup/recreate_gateway.py:121 | `re.search` finds the leftmost start marker whose lazy group closes on its line, and the shortest group there; with none it fails |
| RecreateGateway.ExtractTokenNone | setup/recreate_gateway.py:121-124 | extraction fails exactly when no start marker is followed by an end marker on the same line |
| RecreateGateway.ExtractTokenBetweenMarkers | setup/recreate_gateway.py:121-126 | the token is the text between a start marker and an end marker on its line, and that pair is the leftmost one, with the nearest end |
| RecreateGateway.ExtractedTokenIsClean | setup/recreate_gateway.py:121 | an extracted token holds no line break and no `:BOOTSTRAP_TOKEN_END` |
| RecreateGateway.ExtractPrintedToken | setup/recreate_gateway.py:121-126 | a token without line break or end marker, printed between the markers, is extracted unchanged |
| RecreateGateway.ProvisionToken | setup/recreate_gateway.py:91-126 | a missing script or a failed run gives None; a dry run gives "DRY_RUN_TOKEN"; a run that exits 0 gives exactly what extraction gives |
| RecreateGateway.UpdateZshrc | setup/recreate_gateway.py:143-168 | the written ~/.zshrc is its lines with the first `export KEY=` or `KEY=` line replaced by `export KEY="token"`, or that line appended after a newline fix |
| RecreateGateway.FindTokenLine | setup/recreate_gateway.py:155-160 | the loop stops at the first line whose stripped text starts with `export KEY=` or `KEY=`, or runs past the end when none does |
| RecreateGateway.ZshrcLineShape | setup/recreate_gateway.py:146-147 | the written line is one terminated line that the update's own test matches |
| RecreateGateway.ZshrcLinesRead | setup/recreate_gateway.py:150-168 | reading back the written ~/.zshrc gives exactly the edited lines, for a token without '\n' or '\r' |
| RecreateGateway.ZshrcUpdateTwice | setup/recreate_gateway.py:143-168 | provisioning twice leaves ~/.zshrc as provisioning once with the second token, when the first has no '\n' or '\r' |
| RecreateGateway.RegistrationSucceeded | setup/recreate_gateway.py:198-219 | registration succeeds iff it is a dry run, or curl exits 0 and stdout contains "hello-world", "Conflict" or "already exists" |
| RecreateGateway.InvocationSucceeded | setup/recreate_gateway.py:248-264 | invocation succeeds iff it is a dry run, or curl exits 0 and stdout contains "Hello, SanctuaryUser!" |
| VerifyHelloWorldRpc.NewGatewayClient | setup/verify_hello_world_rpc.py:17-23 | the base URL is the given one minus only trailing '/'; the headers are exactly Authorization "Bearer " + token and Content-Type "application/json" |
| VerifyHelloWorldRpc.Url | setup/verify_hello_world_rpc.py:25-32 | the request URL is the base URL and one '/', followed by the path less only '/' characters at its start, and that rest does not start with '/' |
| VerifyHelloWorldRpc.UrlIgnoresExtraSlashes | setup/verify_hello_world_rpc.py:19-32 | extra '/' at the end of the base URL or the start of the path do not change the URL |
| VerifyHelloWorldRpc.BearerValue | setup/verify_hello_world_rpc.py:48 | the value read neither starts nor ends with "'" (the last strip) |
| VerifyHelloWorldRpc.VarToken | setup/verify_hello_world_rpc.py:46-51 | a line yields a value for a variable iff it starts with `VAR=` and its trimmed value is non-empty, and then it yields that value |
| VerifyHelloWorldRpc.LineToken | setup/verify_hello_world_rpc.py:42-51 | blank and `#` lines yield nothing; a yielded value is non-empty |
| VerifyHelloWorldRpc.LinesToken | setup/verify_hello_world_rpc.py:42-54 | a token read from the lines is never empty |
| VerifyHelloWorldRpc.LinesTokenNone | setup/verify_hello_world_rpc.py:42-54 | the reader returns None exactly when no line yields a value |
| VerifyHelloWorldRpc.LinesTokenIs | setup/verify_hello_world_rpc.py:42-51 | the first line that yields a value decides the result; empty values are skipped |
| VerifyHelloWorldRpc.LoadTokenFromEnvFile | setup/verify_hello_world_rpc.py:37-54 | the method returns the file's token: None for a missing file, else the scan's result |
| VerifyHelloWorldRpc.ScanForToken | setup/verify_hello_world_rpc.py:42-54 | the nested loop with early return computes the first value of the line scan |
| VerifyHelloWorldRpc.BearerValueOfQuoted | setup/verify_hello_world_rpc.py:48 | stripping whitespace, '"' and then "'" from `KEY="value"` gives back a plain value |
| VerifyHelloWorldRpc.EnvLineToken | setup/verify_hello_world_rpc.py:43-51 | the line update_env_file writes yields the value it quoted |
| VerifyHelloWorldRpc.UpdatedTokenLoads | setup/verify_hello_world_rpc.py:37-54 | after update_env_file(key, value), the reader looking for key finds the normalised value, whatever the file held before, if that value is non-empty, has no '\n' or '\r' and no quote at either end |
| VerifyHelloWorldRpc.ProvisionedTokenLoads | setup/recreate_gateway.py:129 | the token recreate_gateway stores in `.env` is the one load_token_from_env_file reads back |
| VerifyHelloWorldRpc.FirstSayHello | setup/verify_hello_world_rpc.py:104-111 | the index of the first tool whose name contains "say-hello" or "say_hello", or none when no tool's does |
| VerifyHelloWorldRpc.FindSayHelloTool | setup/verify_hello_world_rpc.py:102-111 | the loop returns the id and name of the first say_hello tool (a missing name reads as ""), and None for both when there is none |
| VerifyJwtAuth.TokenLineHasEquals | scripts/verify_jwt_auth.py:13-16 | a line that passes the `startswith` test always splits in two at '=' |
| VerifyJwtAuth.ApiTokenValue | scripts/verify_jwt_auth.py:15-17 | the value read neither starts nor ends with a quote character |
| VerifyJwtAuth.LinesApiTokenNone | scripts/verify_jwt_auth.py:9-22 | get_token gives None exactly when no stripped line starts with `MCP_GATEWAY_API_TOKEN=` |
| VerifyJwtAuth.LinesApiTokenIs | scripts/verify_jwt_auth.py:12-18 | the first matching line decides, even when its value is empty; later ones are ignored |
| VerifyJwtAuth.GetToken | scripts/verify_jwt_auth.py:7-22 | the loop with `break` returns the first matching line's value; None for a missing file or no matching line |
| VerifyJwtAuth.ApiTokenValueOfAssignment | scripts/verify_jwt_auth.py:15-17 | the value is everything after the first '=', '=' included, and an empty value gives "" |
| VerifyJwtAuth.QuotedApiToken | scripts/verify_jwt_auth.py:17 | stripping whitespace and then any run of quotes from a quoted value gives back the value |
| VerifyJwtAuth.UnmatchedNotTokenLine | scripts/verify_jwt_auth.py:13 | a line update_env_file would not replace is not a token line, with or without a newline fix |
| VerifyJwtAuth.EnvLineApiToken | scripts/verify_jwt_auth.py:13-17 | the line update_env_file writes is a token line whose value is the one it quoted |
| VerifyJwtAuth.UpdatedApiTokenLoads | scripts/verify_jwt_auth.py:7-22 | after update_env_file(key, value), get_token looking for key reads back the normalised value, if it has no '\n' or '\r' and no quote at either end |
| VerifyJwtAuth.StoredApiTokenLoads | scripts/verify_jwt_auth.py:7-22 | the same for `MCP_GATEWAY_API_TOKEN` itself |
| VerifyJwtAuth.MakeRequestHeaders | scripts/verify_jwt_auth.py:24-27 | an Authorization "Bearer " + token header is sent iff the token is non-empty, and no other header |
| HelloWorldServer.ProcessJsonRpc | tests/assets/helloworld/server.py:100-173 | no response exactly for `notifications/initialized`; raises exactly on tools/call with non-object params or say_hello arguments; every response has jsonrpc "2.0", the request's id, and exactly one of result or error |
| HelloWorldServer.SayHelloGreets | tests/assets/helloworld/server.py:146-163 | say_hello answers with one text item "Hello, " + name + "!", with "World" when the name is absent |
| HelloWorldServer.ToolsListHasSayHello | tests/assets/helloworld/server.py:123-144 | tools/list lists exactly one tool, named say_hello |
| HelloWorldServer.UnknownMethodNotFound | tests/assets/helloworld/server.py:146-173 | any other method, and tools/call of any tool but say_hello, gets error -32601 "Method not found" |
| HelloWorldServer.InitializeAnnouncesRevision | tests/assets/helloworld/server.py:103-117 | initialize answers with a result whose protocol version is 2024-11-05 |
| HelloWorldServer.EndpointUrl | tests/assets/helloworld/server.py:30-31 | the POST URL is b + `/messages?session_id=<id>`, where b is the base URL less only '/' characters at its end and does not itself end with '/' |
| HelloWorldServer.Dispatched | tests/assets/helloworld/server.py:85-90 | a non-object body raises; a response answers the body's own `id` |
| HelloWorldServer.SubmitStep | tests/assets/helloworld/server.py:76-97 | the status is 400 iff the session id is missing, empty or unknown, else 500 iff the dispatch raised, else 202; only a 202 can change the queues, and the set of sessions never changes |
| HelloWorldServer.SubmitUnknownRejected | tests/assets/helloworld/server.py:76-83 | a missing, empty or unknown session id gets 400 and changes no session |
| HelloWorldServer.SubmitRegistered | tests/assets/helloworld/server.py:85-97 | on an open session: 202 (500 if the dispatch raises), at most the request's own response appended to that queue, no other session changed |
| HelloWorldServer.DeliverStep | tests/assets/helloworld/server.py:46-60 | an event is sent iff the session is open with a non-empty queue; it is a `message` carrying the queue's front, which leaves the queue; otherwise nothing changes; no other session and no session id changes |
| HelloWorldServer.Run | tests/assets/helloworld/server.py:23-97 | a run of operations answers each operation once |
| HelloWorldServer.StepFifo | tests/assets/helloworld/server.py:52-60 | one operation keeps an open session's balance: sent plus still queued equals queued before plus newly queued |
| HelloWorldServer.RunFifo | tests/assets/helloworld/server.py:52-60 | over any run, the messages a session's stream sent, followed by its queue, are its old queue followed by every response queued for it, in order |
| HelloWorldServer.ClosedSessionRejects | tests/assets/helloworld/server.py:78 | an unknown id stays unknown, and every submission for it gets 400, until a stream with that id opens |
| HelloWorldServer.SubmitAfterCloseRejected | tests/assets/helloworld/server.py:65-78 | after a stream ends, every later submission for its id gets 400 |
| HelloWorldServer.SessionRegistry.constructor | tests/assets/helloworld/server.py:20 | the registry starts empty |
| HelloWorldServer.SessionRegistry.ValidMeansReachable | tests/assets/helloworld/server.py:27-35 | the registry invariant (no empty id, as uuid4 ids never are) holds exactly when a POST naming any registered id passes handle_messages' session check (lines 73-79), never getting 400 |
| HelloWorldServer.SessionRegistry.Open | tests/assets/helloworld/server.py:27-43 | registers an empty queue under the fresh id, changes nothing else, and the first event is `endpoint` with the POST URL |
| HelloWorldServer.SessionRegistry.Submit | tests/assets/helloworld/server.py:72-97 | the status and the new sessions are those of the submission step on the dispatched body |
| HelloWorldServer.SessionRegistry.Deliver | tests/assets/helloworld/server.py:46-60 | pops the oldest queued response of the session and sends it as a `message` event; an empty queue sends nothing |
| HelloWorldServer.SessionRegistry.Close | tests/assets/helloworld/server.py:65-67 | removes the session's id and nothing else |

## Left out

- Concurrency and the web framework (asyncio, FastAPI, sse_starlette, uvicorn): `await`, the `wait_for` timeout and its keepalive, and `is_disconnected` polling. Concurrent handlers are modelled as a sequence of registry calls, or of trace operations. The check-then-put race around `await request.json()` is not modelled.
- `uuid.uuid4()`: the session id is a parameter. `SessionRegistry.Open` requires it to be non-empty and not already open.
- HelloWorldServer.SessionRegistry.Deliver: requires an open session. In the source the loop of a closed stream no longer runs.
- HelloWorldServer.Step: the trace model's submission carries its dispatch outcome rather than the body. `SessionRegistry.Submit` ties the two with `Dispatched(body)`.
- JSON text: `json.dumps` and `request.json()` are not modelled, and parse errors of a request body are out of scope. Bodies and responses are the `Json` datatype, with integers only and no floats.
- HelloWorldServer.Display: a say_hello `name` that is a list or an object is rendered as "", not as Python's `repr`. Strings, integers, booleans and null follow `str`.
- File I/O (`open`, `os.path.exists`, `readlines`, `writelines`): a file is passed in as absent or present with its text, and each writer returns the text it writes. The `try`/`except` around update_zshrc only prints, and is not modelled.
- Python's `re`: the two patterns are hand-coded. The key class `[\w.-]` is taken as ASCII, whereas Python's `\w` also accepts other Unicode letters and digits.
- `subprocess`, podman, curl, `time.sleep` and `wait_for_ready`: the exit code and stdout of a command are parameters of `ProvisionToken`, `RegistrationSucceeded` and `InvocationSucceeded`. `ProvisionToken` starts from the script's outcome. It does not model the copy into the container or the `os.environ` updates.
- `main` of `setup/verify_hello_world_rpc.py`: the environment-variable-first token choice and the HTTP calls are not modelled. `ToolFound` is its `if not tool_id` test.
- `main` of `scripts/verify_jwt_auth.py`: the printing and `urlopen` calls are not modelled. `HasToken` is its `if not token` test.
- FindSayHelloTool: a tool's `name` is either absent or a string. In the source a `name` of JSON null or a number makes the `"say-hello" in name` test raise TypeError, and a list `name` is tested for membership; neither case is modelled, because the tool list comes from an HTTP call outside the model.
- Newline translation on writing: files are written with '\n' unchanged, as on a POSIX system. Writing "\r\n" line ends, as text mode does on Windows, is not modelled.
- `GatewayClient.post` and `get`: only the URL they build is modelled, not the request.
- VerifyHelloWorldRpc.LoadTokenFromEnvFile: `token_vars` is the one-element list of the source. The scan is `ScanForToken`, stated for any list of variable names.
- The database cleanup, password reset, bootstrap and token-check scripts, and the black-box gateway tests, are not part of this model.
