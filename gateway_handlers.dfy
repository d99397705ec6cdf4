/**
 * The HTTP handlers of the web gateway, up to and after their single daemon
 * call: each handler authorises the request (HTTP routes with headers only,
 * the event socket also with its `token` query parameter), rejects blank
 * required fields with 400, and then makes one daemon call whose reply it
 * reshapes. The call itself is network I/O; its reply is a parameter here.
 */
module GatewayHandlers {
  import opened Base
  import opened Text
  import opened Json
  import opened GatewayAuth
  import opened GatewayDaemon

  /** A call the gateway makes to the daemon: a method name and its parameters. */
  datatype DaemonCall = DaemonCall(rpcMethod: string, params: Value)

  /** A required request field and the value the client sent for it. */
  datatype Field = Field(name: string, value: string)

  function EmptyField(name: string): GatewayError {
    BadRequest("`" + name + "` must not be empty")
  }

  /**
   * The handlers' checks, in the order they are written: the first field whose
   * value is blank after trimming is reported.
   */
  function CheckFields(fields: seq<Field>): (r: Result<(), GatewayError>)
    ensures r.Ok? <==> Filled(fields)
    ensures forall k: nat :: FirstBlank(fields, k) ==> r == Err(EmptyField(fields[k].name))
    decreases |fields|
  {
    if fields == [] then Ok(())
    else if IsBlank(fields[0].value, IsWhitespace) then Err(EmptyField(fields[0].name))
    else
      var rest := CheckFields(fields[1..]);
      forall k: nat | FirstBlank(fields, k) ensures k > 0 && FirstBlank(fields[1..], k - 1) {
        assert fields[1..][k - 1] == fields[k];
        forall j | 0 <= j < k - 1 ensures !IsBlank(fields[1..][j].value, IsWhitespace) {
          assert fields[1..][j] == fields[j + 1];
        }
      }
      rest
  }

  /** No field is blank. */
  predicate Filled(fields: seq<Field>) {
    forall i :: 0 <= i < |fields| ==> !IsBlank(fields[i].value, IsWhitespace)
  }

  /** Field `k` is blank and every field before it is not. */
  predicate FirstBlank(fields: seq<Field>, k: nat) {
    && k < |fields|
    && IsBlank(fields[k].value, IsWhitespace)
    && forall j :: 0 <= j < k ==> !IsBlank(fields[j].value, IsWhitespace)
  }

  lemma SecondBlank(fields: seq<Field>)
    requires |fields| >= 2
    requires !IsBlank(fields[0].value, IsWhitespace) && IsBlank(fields[1].value, IsWhitespace)
    ensures FirstBlank(fields, 1)
  {
  }

  lemma FilledTwo(fields: seq<Field>)
    requires |fields| == 2
    ensures Filled(fields) <==> !IsBlank(fields[0].value, IsWhitespace) && !IsBlank(fields[1].value, IsWhitespace)
  {
  }

  lemma FilledThree(fields: seq<Field>)
    requires |fields| == 3
    ensures Filled(fields) <==> !IsBlank(fields[0].value, IsWhitespace) && !IsBlank(fields[1].value, IsWhitespace)
                                 && !IsBlank(fields[2].value, IsWhitespace)
  {
  }

  lemma ThirdBlank(fields: seq<Field>)
    requires |fields| >= 3
    requires !IsBlank(fields[0].value, IsWhitespace) && !IsBlank(fields[1].value, IsWhitespace)
    requires IsBlank(fields[2].value, IsWhitespace)
    ensures FirstBlank(fields, 2)
  {
  }

  /** Authorisation first, then the field checks, then the daemon call. */
  function Guarded(auth: Result<(), GatewayError>, fields: seq<Field>, call: DaemonCall): (r: Result<DaemonCall, GatewayError>)
    ensures auth.Err? ==> r == Err(auth.error)
    ensures auth.Ok? ==> (r.Ok? <==> Filled(fields))
    ensures auth.Ok? && r.Err? ==> r.error == CheckFields(fields).error
    ensures r.Ok? ==> r.value == call
  {
    match auth
    case Err(e) => Err(e)
    case Ok(_) =>
      match CheckFields(fields)
      case Err(e) => Err(e)
      case Ok(_) => Ok(call)
  }

  /** `Option<String>` as `json!` writes it. */
  function OptionalStr(o: Option<string>): (v: Value)
    ensures o.None? <==> v == Null
    ensures o.Some? ==> v == Str(o.value)
  {
    if o.Some? then Str(o.value) else Null
  }

  const U32_LIMIT: int := 0x1_0000_0000

  /** `u32`: the query extractor refuses a `limit` outside this range before the handler runs. */
  type U32 = n: nat | n < U32_LIMIT

  /** `Option<u32>` as `json!` writes it. */
  function OptionalInt(o: Option<U32>): (v: Value)
    ensures o.None? <==> v == Null
    ensures o.Some? ==> v == Int(o.value) && 0 <= v.i < U32_LIMIT
  {
    if o.Some? then Int(o.value) else Null
  }

  datatype ListThreadsQuery = ListThreadsQuery(workspaceId: string, cursor: Option<string>, limit: Option<U32>, sortKey: Option<string>)

  /** `list_threads` up to its daemon call. */
  function ListThreadsCall(apiToken: Option<string>, headers: HeaderMap, query: ListThreadsQuery): (r: Result<DaemonCall, GatewayError>)
    ensures AuthorizeRequest(apiToken, headers, None).Err? ==> r == Err(AuthorizeRequest(apiToken, headers, None).error)
    ensures AuthorizeRequest(apiToken, headers, None).Ok? && IsBlank(query.workspaceId, IsWhitespace) ==>
              r == Err(EmptyField("workspaceId"))
    ensures r.Ok? <==> AuthorizeRequest(apiToken, headers, None).Ok? && !IsBlank(query.workspaceId, IsWhitespace)
    ensures r.Ok? ==> r.value == DaemonCall("list_threads", ListThreadsParams(query))
  {
    Guarded(AuthorizeRequest(apiToken, headers, None), [Field("workspaceId", query.workspaceId)],
            DaemonCall("list_threads", ListThreadsParams(query)))
  }

  /** The parameters `list_threads` forwards; absent options are sent as `null`. */
  function ListThreadsParams(query: ListThreadsQuery): (v: Value)
    ensures v.Obj? && "workspaceId" in v.fields && v.fields["workspaceId"] == Str(query.workspaceId)
  {
    Obj(map["workspaceId" := Str(query.workspaceId), "cursor" := OptionalStr(query.cursor),
            "limit" := OptionalInt(query.limit), "sortKey" := OptionalStr(query.sortKey)])
  }

  /** The body `list_threads` answers with. */
  datatype ThreadListResponse = ThreadListResponse(workspaceId: string, threads: seq<Value>, nextCursor: Option<string>, raw: Value)

  /** `list_threads` after its daemon call: daemon failures become 502, a reply is read as a thread page. */
  function ListThreadsResponse(query: ListThreadsQuery, reply: Result<Value, string>): (r: Result<ThreadListResponse, GatewayError>)
    ensures r.Err? <==> reply.Err?
    ensures r.Err? ==> r.error == DaemonFailure(reply.error)
    ensures r.Ok? ==> r.value.raw == reply.value && r.value.workspaceId == query.workspaceId
  {
    match reply
    case Err(message) => Err(DaemonFailure(message))
    case Ok(raw) =>
      var page := ParseThreadPage(raw);
      Ok(ThreadListResponse(query.workspaceId, page.threads, page.nextCursor, raw))
  }

  /** A page the daemon returns inside its envelopes reaches the browser intact. */
  lemma ListThreadsPage(query: ListThreadsQuery, threads: seq<Value>, cursor: Option<string>)
    ensures var r := ListThreadsResponse(query, Ok(Wrap(PageValue(threads, cursor))));
            r.Ok? && r.value.threads == threads && r.value.nextCursor == cursor
  {
    ThreadPageRoundTrip(threads, cursor);
  }

  /** `start_thread` up to its daemon call. */
  function StartThreadCall(apiToken: Option<string>, headers: HeaderMap, workspaceId: string): (r: Result<DaemonCall, GatewayError>)
    ensures AuthorizeRequest(apiToken, headers, None).Err? ==> r == Err(AuthorizeRequest(apiToken, headers, None).error)
    ensures AuthorizeRequest(apiToken, headers, None).Ok? && IsBlank(workspaceId, IsWhitespace) ==>
              r == Err(EmptyField("workspaceId"))
    ensures r.Ok? <==> AuthorizeRequest(apiToken, headers, None).Ok? && !IsBlank(workspaceId, IsWhitespace)
    ensures r.Ok? ==> r.value == DaemonCall("start_thread", Obj(map["workspaceId" := Str(workspaceId)]))
  {
    Guarded(AuthorizeRequest(apiToken, headers, None), [Field("workspaceId", workspaceId)],
            DaemonCall("start_thread", Obj(map["workspaceId" := Str(workspaceId)])))
  }

  /** `start_thread` after its daemon call: the reply and the thread id found in it. */
  function StartThreadResponse(reply: Result<Value, string>): (r: Result<Value, GatewayError>)
    ensures r.Err? <==> reply.Err?
    ensures r.Err? ==> r.error == DaemonFailure(reply.error)
    ensures r.Ok? ==> r.value.Obj? && "result" in r.value.fields && "threadId" in r.value.fields
    ensures r.Ok? ==> r.value.fields["result"] == reply.value
                      && r.value.fields["threadId"] == OptionalStr(ParseThreadIdFromStartResponse(reply.value))
  {
    match reply
    case Err(message) => Err(DaemonFailure(message))
    case Ok(result) =>
      Ok(Obj(map["threadId" := OptionalStr(ParseThreadIdFromStartResponse(result)), "result" := result]))
  }

  /** The id of a thread the daemon reports, bare or enveloped, is handed to the browser. */
  lemma StartThreadId(id: string)
    ensures StartThreadResponse(Ok(StartedThread(id))).value.fields["threadId"] == Str(id)
    ensures StartThreadResponse(Ok(Wrap(Wrap(StartedThread(id))))).value.fields["threadId"] == Str(id)
  {
    ThreadIdRoundTrip(id);
  }

  /** `resume_thread` up to its daemon call. */
  function ResumeThreadCall(apiToken: Option<string>, headers: HeaderMap, workspaceId: string, threadId: string): (r: Result<DaemonCall, GatewayError>)
    ensures AuthorizeRequest(apiToken, headers, None).Err? ==> r == Err(AuthorizeRequest(apiToken, headers, None).error)
    ensures AuthorizeRequest(apiToken, headers, None).Ok? && IsBlank(workspaceId, IsWhitespace) ==>
              r == Err(EmptyField("workspaceId"))
    ensures AuthorizeRequest(apiToken, headers, None).Ok? && !IsBlank(workspaceId, IsWhitespace) && IsBlank(threadId, IsWhitespace) ==>
              r == Err(EmptyField("threadId"))
    ensures r.Ok? <==> AuthorizeRequest(apiToken, headers, None).Ok? && !IsBlank(workspaceId, IsWhitespace) && !IsBlank(threadId, IsWhitespace)
    ensures r.Ok? ==> r.value == DaemonCall("resume_thread", Obj(map["workspaceId" := Str(workspaceId), "threadId" := Str(threadId)]))
  {
    var fields := [Field("workspaceId", workspaceId), Field("threadId", threadId)];
    assert !IsBlank(workspaceId, IsWhitespace) && IsBlank(threadId, IsWhitespace) ==> FirstBlank(fields, 1) by {
      if !IsBlank(workspaceId, IsWhitespace) && IsBlank(threadId, IsWhitespace) {
        SecondBlank(fields);
      }
    }
    FilledTwo(fields);
    Guarded(AuthorizeRequest(apiToken, headers, None), fields,
            DaemonCall("resume_thread", Obj(map["workspaceId" := Str(workspaceId), "threadId" := Str(threadId)])))
  }

  /** The body of `send_message`. */
  datatype SendMessageRequest = SendMessageRequest(
    workspaceId: string, threadId: string, text: string,
    model: Option<string>, effort: Option<string>, accessMode: Option<string>,
    images: Option<seq<string>>, collaborationMode: Option<Value>)

  function OptionalStrs(o: Option<seq<string>>): (v: Value)
    ensures o.None? <==> v == Null
    ensures o.Some? ==> v.Arr? && |v.items| == |o.value| && forall i :: 0 <= i < |o.value| ==> v.items[i] == Str(o.value[i])
  {
    if o.Some? then Arr(seq(|o.value|, i requires 0 <= i < |o.value| => Str(o.value[i]))) else Null
  }

  /** `send_message` up to its daemon call. */
  function SendMessageCall(apiToken: Option<string>, headers: HeaderMap, request: SendMessageRequest): (r: Result<DaemonCall, GatewayError>)
    ensures AuthorizeRequest(apiToken, headers, None).Err? ==> r == Err(AuthorizeRequest(apiToken, headers, None).error)
    ensures AuthorizeRequest(apiToken, headers, None).Ok? && IsBlank(request.workspaceId, IsWhitespace) ==>
              r == Err(EmptyField("workspaceId"))
    ensures AuthorizeRequest(apiToken, headers, None).Ok? && !IsBlank(request.workspaceId, IsWhitespace)
              && IsBlank(request.threadId, IsWhitespace) ==>
              r == Err(EmptyField("threadId"))
    ensures AuthorizeRequest(apiToken, headers, None).Ok? && !IsBlank(request.workspaceId, IsWhitespace)
              && !IsBlank(request.threadId, IsWhitespace) && IsBlank(request.text, IsWhitespace) ==>
              r == Err(EmptyField("text"))
    ensures r.Ok? <==> AuthorizeRequest(apiToken, headers, None).Ok? && !IsBlank(request.workspaceId, IsWhitespace)
                       && !IsBlank(request.threadId, IsWhitespace) && !IsBlank(request.text, IsWhitespace)
    ensures r.Ok? ==> r.value == DaemonCall("send_user_message", SendMessageParams(request))
  {
    var fields := [Field("workspaceId", request.workspaceId), Field("threadId", request.threadId), Field("text", request.text)];
    assert !IsBlank(request.workspaceId, IsWhitespace) && IsBlank(request.threadId, IsWhitespace) ==> FirstBlank(fields, 1) by {
      if !IsBlank(request.workspaceId, IsWhitespace) && IsBlank(request.threadId, IsWhitespace) {
        SecondBlank(fields);
      }
    }
    assert (!IsBlank(request.workspaceId, IsWhitespace) && !IsBlank(request.threadId, IsWhitespace)
            && IsBlank(request.text, IsWhitespace)) ==> FirstBlank(fields, 2) by {
      if !IsBlank(request.workspaceId, IsWhitespace) && !IsBlank(request.threadId, IsWhitespace) && IsBlank(request.text, IsWhitespace) {
        ThirdBlank(fields);
      }
    }
    FilledThree(fields);
    Guarded(AuthorizeRequest(apiToken, headers, None), fields, DaemonCall("send_user_message", SendMessageParams(request)))
  }

  /** The parameters `send_message` forwards: the three required fields and the optional ones (`null` when absent). */
  function SendMessageParams(request: SendMessageRequest): (v: Value)
    ensures v.Obj? && "workspaceId" in v.fields && "threadId" in v.fields && "text" in v.fields
    ensures v.fields["workspaceId"] == Str(request.workspaceId) && v.fields["threadId"] == Str(request.threadId)
    ensures v.fields["text"] == Str(request.text)
  {
    Obj(map[
      "workspaceId" := Str(request.workspaceId),
      "threadId" := Str(request.threadId),
      "text" := Str(request.text),
      "model" := OptionalStr(request.model),
      "effort" := OptionalStr(request.effort),
      "accessMode" := OptionalStr(request.accessMode),
      "images" := OptionalStrs(request.images),
      "collaborationMode" := request.collaborationMode.GetOr(Null)])
  }

  /** `rpc_proxy` up to its daemon call: any method name that is not blank is forwarded. */
  function RpcProxyCall(apiToken: Option<string>, headers: HeaderMap, rpcMethod: string, params: Value): (r: Result<DaemonCall, GatewayError>)
    ensures AuthorizeRequest(apiToken, headers, None).Err? ==> r == Err(AuthorizeRequest(apiToken, headers, None).error)
    ensures AuthorizeRequest(apiToken, headers, None).Ok? && IsBlank(rpcMethod, IsWhitespace) ==>
              r == Err(EmptyField("method"))
    ensures r.Ok? <==> AuthorizeRequest(apiToken, headers, None).Ok? && !IsBlank(rpcMethod, IsWhitespace)
    ensures r.Ok? ==> r.value == DaemonCall(rpcMethod, params)
  {
    Guarded(AuthorizeRequest(apiToken, headers, None), [Field("method", rpcMethod)], DaemonCall(rpcMethod, params))
  }

  /** `resume_thread`, `send_message` and `rpc_proxy` after their call: `{"result": reply}`, or 502. */
  function RpcResponse(reply: Result<Value, string>): (r: Result<Value, GatewayError>)
    ensures r.Err? <==> reply.Err?
    ensures r.Err? ==> r.error == DaemonFailure(reply.error)
    ensures r.Ok? ==> r.value.Obj? && r.value.fields.Keys == {"result"} && r.value.fields["result"] == reply.value
  {
    match reply
    case Err(message) => Err(DaemonFailure(message))
    case Ok(result) => Ok(Obj(map["result" := result]))
  }

  /** `ws_events`: the only route that also accepts the token as a query parameter. */
  function WsEventsAuthorize(apiToken: Option<string>, headers: HeaderMap, queryToken: Option<string>): (r: Result<(), GatewayError>)
    ensures apiToken.None? ==> r.Ok?
    ensures apiToken.Some? ==> (r.Ok? <==> ExtractRequestToken(headers, queryToken) == Some(apiToken.value))
    ensures r.Err? ==> r.error.status == 401
  {
    AuthorizeRequest(apiToken, headers, queryToken)
  }

  /**
   * A token given only as a query parameter opens the event socket but no
   * HTTP route: those authorise from the headers alone.
   */
  lemma QueryTokenOnlyOpensSocket(apiToken: string, headers: HeaderMap, workspaceId: string)
    requires NormalizeToken(Some(apiToken)) == Some(apiToken)
    requires BearerToken(headers).None? && CustomToken(headers).None?
    ensures WsEventsAuthorize(Some(apiToken), headers, Some(apiToken)).Ok?
    ensures StartThreadCall(Some(apiToken), headers, workspaceId) == Err(Unauthorized(MISSING_TOKEN))
  {
  }
}
