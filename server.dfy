// tests/assets/helloworld/server.py: the Hello World MCP server, one side of
// the HTTP+SSE transport of the Model Context Protocol (revision 2024-11-05).
// GET /sse opens a session and streams its queued JSON-RPC responses; POST
// /messages dispatches a request and queues the response for the session.

module HelloWorldServer {

  import opened Wrappers
  import opened PyStrings

  /** A JSON value as `request.json()` produces it (numbers are integers here). */
  datatype Json =
    | JNull
    | JBool(b: bool)
    | JInt(i: int)
    | JStr(s: string)
    | JArr(items: seq<Json>)
    | JObj(obj: map<string, Json>)

  /** `d.get(key, default)` on a dict. */
  function Get(d: map<string, Json>, key: string, default: Json): Json {
    if key in d then d[key] else default
  }

  function Obj1(k: string, v: Json): Json {
    JObj(map[k := v])
  }

  /** Decimal digits of a natural number, as `str` prints it. */
  function NatToString(n: nat): (r: string)
    ensures r != [] && forall i :: 0 <= i < |r| ==> '0' <= r[i] <= '9'
  {
    var d := ['0' + (n % 10) as char];
    if n < 10 then d else NatToString(n / 10) + d
  }

  /** `f"{value}"` for the JSON scalars: strings as they are, integers in
      decimal, booleans and null by their Python names. */
  function Display(j: Json): string {
    match j
    case JStr(s) => s
    case JInt(i) => if i < 0 then "-" + NatToString(-i) else NatToString(i)
    case JBool(b) => if b then "True" else "False"
    case JNull => "None"
    case _ => ""
  }

  /** The three results of a request: a response envelope to queue, no
      response (a notification), or an exception (params or arguments that
      are not an object), which the framework turns into a 500. */
  datatype Dispatch = Reply(envelope: Json) | NoReply | Raised

  function Envelope(id: Json, key: string, payload: Json): Json {
    JObj(map["jsonrpc" := JStr("2.0"), "id" := id, key := payload])
  }

  const SayHelloTool: Json :=
    JObj(map[
      "name" := JStr("say_hello"),
      "description" := JStr("Says hello to someone"),
      "inputSchema" := JObj(map[
        "type" := JStr("object"),
        "properties" := Obj1("name", JObj(map["type" := JStr("string"), "description" := JStr("Name to greet")]))])])

  const InitializeResult: Json :=
    JObj(map[
      "protocolVersion" := JStr("2024-11-05"),
      "capabilities" := Obj1("tools", JObj(map[])),
      "serverInfo" := JObj(map["name" := JStr("hello-world"), "version" := JStr("1.0.0")])])

  /** The error of section 5.1 of the JSON-RPC 2.0 specification for a
      method the server does not have. */
  const MethodNotFound: Json :=
    JObj(map["code" := JInt(-32601), "message" := JStr("Method not found")])

  function GreetingContent(text: string): Json {
    Obj1("content", JArr([JObj(map["type" := JStr("text"), "text" := JStr(text)])]))
  }

  /** What a tools/call request raises on: params that are not an object, or
      a say_hello call whose arguments are not an object. */
  predicate CallRaises(params: Json) {
    !params.JObj? || (Get(params.obj, "name", JNull) == JStr("say_hello")
                      && !Get(params.obj, "arguments", JObj(map[])).JObj?)
  }

  /** A JSON-RPC 2.0 response to the request `id`: version "2.0", that id,
      and exactly one of `result` and `error`. */
  predicate IsResponseTo(j: Json, id: Json) {
    && j.JObj?
    && (j.obj.Keys == {"jsonrpc", "id", "result"} || j.obj.Keys == {"jsonrpc", "id", "error"})
    && j.obj["jsonrpc"] == JStr("2.0")
    && j.obj["id"] == id
  }

  /** process_jsonrpc(method, params, req_id): the method table. */
  function ProcessJsonRpc(methodName: Json, params: Json, reqId: Json): (r: Dispatch)
    ensures r.NoReply? <==> methodName == JStr("notifications/initialized")
    ensures r.Raised? <==> methodName == JStr("tools/call") && CallRaises(params)
    ensures r.Reply? ==> IsResponseTo(r.envelope, reqId)
  {
    if methodName == JStr("initialize") then Reply(Envelope(reqId, "result", InitializeResult))
    else if methodName == JStr("notifications/initialized") then NoReply
    else if methodName == JStr("tools/list") then
      Reply(Envelope(reqId, "result", Obj1("tools", JArr([SayHelloTool]))))
    else if methodName == JStr("tools/call") && !params.JObj? then Raised
    else if methodName == JStr("tools/call") && Get(params.obj, "name", JNull) == JStr("say_hello") then
      var args := Get(params.obj, "arguments", JObj(map[]));
      if !args.JObj? then Raised
      else
        var name := Get(args.obj, "name", JStr("World"));
        Reply(Envelope(reqId, "result", GreetingContent("Hello, " + Display(name) + "!")))
    else Reply(Envelope(reqId, "error", MethodNotFound))
  }

  /** The text items of a `result.content` list. */
  function ContentTexts(items: seq<Json>): seq<string> {
    if items == [] then []
    else
      var rest := ContentTexts(items[1..]);
      if items[0].JObj? && "text" in items[0].obj && items[0].obj["text"].JStr?
      then [items[0].obj["text"].s] + rest
      else rest
  }

  /** The greeting a say_hello reply carries, if it is one. */
  function ReplyTexts(d: Dispatch): seq<string> {
    if d.Reply? && d.envelope.JObj? && "result" in d.envelope.obj
       && d.envelope.obj["result"].JObj? && "content" in d.envelope.obj["result"].obj
       && d.envelope.obj["result"].obj["content"].JArr?
    then ContentTexts(d.envelope.obj["result"].obj["content"].items)
    else []
  }

  /** tools/call of say_hello answers with one text item greeting the name
      argument, "World" when there is none. */
  lemma SayHelloGreets(params: Json, reqId: Json)
    requires params.JObj? && Get(params.obj, "name", JNull) == JStr("say_hello")
    requires Get(params.obj, "arguments", JObj(map[])).JObj?
    ensures var args := Get(params.obj, "arguments", JObj(map[])).obj;
            ReplyTexts(ProcessJsonRpc(JStr("tools/call"), params, reqId))
            == ["Hello, " + Display(Get(args, "name", JStr("World"))) + "!"]
    ensures var args := Get(params.obj, "arguments", JObj(map[])).obj;
            "name" !in args ==> ReplyTexts(ProcessJsonRpc(JStr("tools/call"), params, reqId)) == ["Hello, World!"]
    ensures var args := Get(params.obj, "arguments", JObj(map[])).obj;
            "name" in args && args["name"].JStr? ==>
              ReplyTexts(ProcessJsonRpc(JStr("tools/call"), params, reqId)) == ["Hello, " + args["name"].s + "!"]
  {
    var args := Get(params.obj, "arguments", JObj(map[])).obj;
    var text := "Hello, " + Display(Get(args, "name", JStr("World"))) + "!";
    var item := JObj(map["type" := JStr("text"), "text" := JStr(text)]);
    assert [item][1..] == [];
    assert ContentTexts([item]) == [text];
    assert "Hello, " + "World" + "!" == "Hello, World!";
  }

  /** tools/list lists exactly one tool, say_hello. */
  lemma ToolsListHasSayHello(params: Json, reqId: Json)
    ensures var r := ProcessJsonRpc(JStr("tools/list"), params, reqId);
            && r.Reply? && r.envelope.obj["result"] == Obj1("tools", JArr([SayHelloTool]))
            && SayHelloTool.obj["name"] == JStr("say_hello")
  {
  }

  /** Any other method, and tools/call of any other tool, is answered with
      the -32601 "Method not found" error. */
  lemma UnknownMethodNotFound(methodName: Json, params: Json, reqId: Json)
    requires methodName !in {JStr("initialize"), JStr("notifications/initialized"), JStr("tools/list"), JStr("tools/call")}
             || (methodName == JStr("tools/call") && params.JObj? && Get(params.obj, "name", JNull) != JStr("say_hello"))
    ensures var r := ProcessJsonRpc(methodName, params, reqId);
            && r.Reply? && "error" in r.envelope.obj
            && r.envelope.obj["error"].obj["code"] == JInt(-32601)
            && r.envelope.obj["error"].obj["message"] == JStr("Method not found")
  {
  }

  /** initialize announces protocol revision 2024-11-05. */
  lemma InitializeAnnouncesRevision(params: Json, reqId: Json)
    ensures var r := ProcessJsonRpc(JStr("initialize"), params, reqId);
            && r.Reply? && "result" in r.envelope.obj
            && r.envelope.obj["result"].obj["protocolVersion"] == JStr("2024-11-05")
  {
  }

  // ---------------------------------------------------------------------
  // Sessions

  /** An event on a session's stream. */
  datatype Event = Endpoint(url: string) | Message(payload: Json)

  /** The POST URL announced in the `endpoint` event. */
  function EndpointUrl(baseUrl: string, sessionId: string): (u: string)
    ensures |u| >= |"/messages?session_id=" + sessionId|
    ensures var b := u[..|u| - |"/messages?session_id=" + sessionId|];
            && u == b + "/messages?session_id=" + sessionId
            && StartsWith(baseUrl, b)
            && (forall i :: |b| <= i < |baseUrl| ==> baseUrl[i] == '/')
            && (b == [] || b[|b| - 1] != '/')
  {
    var base := RStrip(baseUrl, OneOf({'/'}));
    var n := TrailingCount(baseUrl, OneOf({'/'}));
    assert baseUrl[..|baseUrl| - n] == base;
    assert (base + "/messages?session_id=" + sessionId)[|base|..] == "/messages?session_id=" + sessionId;
    base + "/messages?session_id=" + sessionId
  }

  /** `active_sessions`: each open session's queue of responses not yet sent. */
  type Sessions = map<string, seq<Json>>

  /** What handle_messages answers and how the sessions change. */
  datatype Submitted = Submitted(sessions: Sessions, status: int)

  /** The dispatch of a POST body: `body.get("method")`, `body.get("params",
      {})` and `body.get("id")` handed to process_jsonrpc; a body that is not
      an object raises. */
  function Dispatched(body: Json): (d: Dispatch)
    ensures !body.JObj? ==> d.Raised?
    ensures d.Reply? ==> IsResponseTo(d.envelope, Get(body.obj, "id", JNull))
  {
    if !body.JObj? then Raised
    else ProcessJsonRpc(Get(body.obj, "method", JNull), Get(body.obj, "params", JObj(map[])), Get(body.obj, "id", JNull))
  }

  /** handle_messages, given what the body dispatches to: 400 for a missing,
      empty or unknown session id; otherwise any response is queued on that
      session and 202 returned (500 when the dispatch raised). */
  function SubmitStep(s: Sessions, sessionId: Option<string>, d: Dispatch): (r: Submitted)
    ensures r.status in {202, 400, 500}
    ensures r.status == 400 <==> sessionId.None? || sessionId.value == [] || sessionId.value !in s
    ensures r.status == 500 <==> r.status != 400 && d.Raised?
    ensures r.status != 202 ==> r.sessions == s
    ensures r.sessions.Keys == s.Keys
  {
    if sessionId.None? || sessionId.value == [] || sessionId.value !in s then Submitted(s, 400)
    else
      match d
      case Raised => Submitted(s, 500)
      case NoReply => Submitted(s, 202)
      case Reply(e) => Submitted(s[sessionId.value := s[sessionId.value] + [e]], 202)
  }

  /** A submission for a missing or unknown session is refused with 400 and
      changes nothing. */
  lemma SubmitUnknownRejected(s: Sessions, sessionId: Option<string>, body: Json)
    requires sessionId.None? || sessionId.value !in s
    ensures SubmitStep(s, sessionId, Dispatched(body)) == Submitted(s, 400)
  {
  }

  /** A submission for an open session is accepted (202) unless the dispatch
      raises (500); it queues at most one response, the request's own, at the
      end of that session's queue, and touches no other session. */
  lemma SubmitRegistered(s: Sessions, id: string, d: Dispatch)
    requires id != [] && id in s
    ensures var r := SubmitStep(s, Some(id), d);
            && r.status == (if d.Raised? then 500 else 202)
            && r.sessions.Keys == s.Keys
            && (forall other :: other in s && other != id ==> r.sessions[other] == s[other])
            && r.sessions[id] == s[id] + (if d.Reply? then [d.envelope] else [])
  {
  }

  /** One pass of the stream loop: the next queued response leaves as a
      `message` event; with an empty queue nothing is sent. */
  function DeliverStep(s: Sessions, id: string): (r: (Sessions, Option<Event>))
    ensures r.0.Keys == s.Keys
    ensures r.1.Some? <==> id in s && s[id] != []
    ensures r.1.None? ==> r.0 == s
    ensures r.1.Some? ==> r.1.value.Message? && s[id] == [r.1.value.payload] + r.0[id]
    ensures forall k :: k in s && k != id ==> r.0[k] == s[k]
  {
    if id !in s || s[id] == [] then (s, None)
    else (s[id := s[id][1..]], Some(Message(s[id][0])))
  }

  /** One operation on the server: a stream opened or ended, a POST, or a
      pass of a stream's loop. */
  datatype Op =
    | OpOpen(id: string)
    | OpSubmit(sessionId: Option<string>, outcome: Dispatch)  // outcome: Dispatched(body)
    | OpDeliver(id: string)
    | OpClose(id: string)

  /** What an operation answers. */
  datatype Output = Opened | Status(code: int) | Sent(event: Option<Event>) | Closed

  function Step(s: Sessions, op: Op): (Sessions, Output) {
    match op
    case OpOpen(id) => (s[id := []], Opened)
    case OpSubmit(sid, d) =>
      var r := SubmitStep(s, sid, d);
      (r.sessions, Status(r.status))
    case OpDeliver(id) =>
      var (s', e) := DeliverStep(s, id);
      (s', Sent(e))
    case OpClose(id) => (s - {id}, Closed)
  }

  /** The sessions after a run of operations and what each answered. */
  function Run(s: Sessions, ops: seq<Op>): (r: (Sessions, seq<Output>))
    decreases ops
    ensures |r.1| == |ops|
  {
    if ops == [] then (s, [])
    else
      var (s', out) := Step(s, ops[0]);
      var (final, outs) := Run(s', ops[1..]);
      (final, [out] + outs)
  }

  /** The responses queued for `id` by the submissions in `ops`. */
  function QueuedFor(ops: seq<Op>, id: string): seq<Json> {
    if ops == [] then []
    else
      var here := match ops[0]
        case OpSubmit(sid, d) =>
          if sid == Some(id) && d.Reply? then [d.envelope] else []
        case _ => [];
      here + QueuedFor(ops[1..], id)
  }

  /** The payloads of the `message` events `id`'s stream sent. */
  function SentOn(ops: seq<Op>, outs: seq<Output>, id: string): seq<Json>
    requires |outs| == |ops|
  {
    if ops == [] then []
    else
      var here := if ops[0] == OpDeliver(id) && outs[0].Sent? && outs[0].event.Some? && outs[0].event.value.Message?
                  then [outs[0].event.value.payload] else [];
      here + SentOn(ops[1..], outs[1..], id)
  }

  predicate Untouched(ops: seq<Op>, id: string) {
    forall k :: 0 <= k < |ops| ==> ops[k] != OpOpen(id) && ops[k] != OpClose(id)
  }

  /** One step keeps the FIFO balance of an open session: what it sends plus
      what stays queued is what was queued plus what it queues. */
  lemma StepFifo(s: Sessions, op: Op, id: string)
    requires id != [] && id in s && op != OpOpen(id) && op != OpClose(id)
    ensures id in Step(s, op).0
    ensures SentOn([op], [Step(s, op).1], id) + Step(s, op).0[id] == s[id] + QueuedFor([op], id)
  {
    assert [op][1..] == [];
    var (s', out) := Step(s, op);
    match op
    case OpOpen(_) =>
    case OpClose(_) =>
    case OpSubmit(sid, d) =>
      if sid == Some(id) {
        SubmitRegistered(s, id, d);
      }
    case OpDeliver(d) =>
      if d == id && s[id] != [] {
        assert [s[id][0]] + s[id][1..] == s[id];
      }
  }

  lemma RunCons(s: Sessions, ops: seq<Op>)
    requires ops != []
    ensures Run(s, ops).0 == Run(Step(s, ops[0]).0, ops[1..]).0
    ensures Run(s, ops).1 == [Step(s, ops[0]).1] + Run(Step(s, ops[0]).0, ops[1..]).1
  {
  }

  lemma SentOnCons(ops: seq<Op>, outs: seq<Output>, id: string)
    requires ops != [] && |outs| == |ops|
    ensures SentOn(ops, outs, id) == SentOn([ops[0]], [outs[0]], id) + SentOn(ops[1..], outs[1..], id)
  {
    assert [ops[0]][1..] == [];
  }

  lemma QueuedForCons(ops: seq<Op>, id: string)
    requires ops != []
    ensures QueuedFor(ops, id) == QueuedFor([ops[0]], id) + QueuedFor(ops[1..], id)
  {
    assert [ops[0]][1..] == [];
  }

  /** Responses leave a session's stream in the order they were queued, one
      `message` event each: over any run that neither reopens nor ends the
      session, the messages sent followed by what is still queued are the
      responses queued before followed by the ones the run queued. */
  lemma {:induction false} RunFifo(s: Sessions, ops: seq<Op>, id: string)
    requires id != [] && id in s && Untouched(ops, id)
    decreases ops
    ensures id in Run(s, ops).0
    ensures SentOn(ops, Run(s, ops).1, id) + Run(s, ops).0[id] == s[id] + QueuedFor(ops, id)
  {
    if ops != [] {
      var next := Step(s, ops[0]);
      StepFifo(s, ops[0], id);
      assert Untouched(ops[1..], id) by {
        assert forall k :: 0 <= k < |ops[1..]| ==> ops[1..][k] == ops[k + 1];
      }
      var rest := Run(next.0, ops[1..]);
      RunFifo(next.0, ops[1..], id);
      RunCons(s, ops);
      var outs := [next.1] + rest.1;
      assert outs[1..] == rest.1 && outs[0] == next.1;
      SentOnCons(ops, outs, id);
      QueuedForCons(ops, id);
      Rebalance(SentOn([ops[0]], [next.1], id), SentOn(ops[1..], rest.1, id), rest.0[id],
                next.0[id], s[id], QueuedFor([ops[0]], id), QueuedFor(ops[1..], id));
    }
  }

  /** Chaining two FIFO balances. */
  lemma Rebalance<T>(sentFirst: seq<T>, sentLater: seq<T>, final: seq<T>, middle: seq<T>,
                     initial: seq<T>, queuedFirst: seq<T>, queuedLater: seq<T>)
    requires sentFirst + middle == initial + queuedFirst
    requires sentLater + final == middle + queuedLater
    ensures (sentFirst + sentLater) + final == initial + (queuedFirst + queuedLater)
  {
    calc {
      (sentFirst + sentLater) + final;
      sentFirst + (sentLater + final);
      sentFirst + (middle + queuedLater);
      (sentFirst + middle) + queuedLater;
      (initial + queuedFirst) + queuedLater;
    }
  }

  /** Once a stream has ended its id stays unknown: every later submission
      for it is refused with 400, until a stream with that id is opened. */
  lemma {:induction false} ClosedSessionRejects(s: Sessions, ops: seq<Op>, id: string)
    requires id !in s
    requires forall k :: 0 <= k < |ops| ==> ops[k] != OpOpen(id)
    decreases ops
    ensures id !in Run(s, ops).0
    ensures forall k :: 0 <= k < |ops| && ops[k].OpSubmit? && ops[k].sessionId == Some(id) ==>
              Run(s, ops).1[k] == Status(400)
  {
    if ops != [] {
      var (s', out) := Step(s, ops[0]);
      ClosedSessionRejects(s', ops[1..], id);
      var outs := Run(s, ops).1;
      assert outs[1..] == Run(s', ops[1..]).1;
      forall k | 1 <= k < |ops| && ops[k].OpSubmit? && ops[k].sessionId == Some(id)
        ensures outs[k] == Status(400)
      {
        assert ops[1..][k - 1] == ops[k];
      }
    }
  }

  /** After a stream ends, submissions for its id get 400. */
  lemma SubmitAfterCloseRejected(s: Sessions, id: string, ops: seq<Op>)
    requires forall k :: 0 <= k < |ops| ==> ops[k] != OpOpen(id)
    ensures var after := Step(s, OpClose(id)).0;
            forall k :: 0 <= k < |ops| && ops[k].OpSubmit? && ops[k].sessionId == Some(id) ==>
              Run(after, ops).1[k] == Status(400)
  {
    ClosedSessionRejects(s - {id}, ops, id);
  }

  /** The module-level `active_sessions` registry shared by both handlers. */
  class SessionRegistry {

    var sessions: Sessions

    /** Session ids are uuid4 strings, never empty. */
    predicate Valid()
      reads this
    {
      [] !in sessions
    }

    /** What the invariant buys: a POST naming any registered id passes the
        session check of handle_messages (it gets 202 or 500, never 400).  An
        empty id could be registered but never posted to. */
    lemma ValidMeansReachable()
      ensures Valid() <==> forall id, d :: id in sessions ==> SubmitStep(sessions, Some(id), d).status != 400
    {
      if !Valid() {
        assert SubmitStep(sessions, Some([]), NoReply).status == 400;
      }
    }

    constructor ()
      ensures Valid() && sessions == map[]
    {
      sessions := map[];
    }

    /** handle_sse, on connecting: registers an empty queue under a fresh id
        and gives the first event, `endpoint`, with the POST URL. */
    method Open(id: string, baseUrl: string) returns (first: Event)
      requires Valid() && id != [] && id !in sessions
      modifies this
      ensures Valid()
      ensures sessions == old(sessions)[id := []]
      ensures first == Endpoint(EndpointUrl(baseUrl, id))
    {
      var base := RStrip(baseUrl, OneOf({'/'}));
      first := Endpoint(base + "/messages?session_id=" + id);
      sessions := sessions[id := []];
    }

    /** handle_messages: answers the POST and queues any response. */
    method Submit(sessionId: Option<string>, body: Json) returns (status: int)
      requires Valid()
      modifies this
      ensures Valid()
      ensures sessions == SubmitStep(old(sessions), sessionId, Dispatched(body)).sessions
      ensures status == SubmitStep(old(sessions), sessionId, Dispatched(body)).status
    {
      if sessionId.None? || sessionId.value == [] || sessionId.value !in sessions {
        return 400;
      }
      if !body.JObj? {
        return 500;
      }
      var methodName := Get(body.obj, "method", JNull);
      var reqId := Get(body.obj, "id", JNull);
      var response := ProcessJsonRpc(methodName, Get(body.obj, "params", JObj(map[])), reqId);
      if response.Raised? {
        return 500;
      }
      if response.Reply? {
        var id := sessionId.value;
        sessions := sessions[id := sessions[id] + [response.envelope]];
      }
      return 202;
    }

    /** One pass of the stream loop of session `id`: takes the oldest queued
        response; None when the queue is empty (the loop waits). */
    method Deliver(id: string) returns (event: Option<Event>)
      requires Valid() && id in sessions
      modifies this
      ensures Valid()
      ensures (sessions, event) == DeliverStep(old(sessions), id)
    {
      if sessions[id] == [] {
        return None;
      }
      var queue := sessions[id];
      event := Some(Message(queue[0]));
      sessions := sessions[id := queue[1..]];
    }

    /** handle_sse, when the stream ends: forgets the session. */
    method Close(id: string)
      requires Valid()
      modifies this
      ensures Valid()
      ensures sessions == old(sessions) - {id}
    {
      sessions := sessions - {id};
    }
  }
}
