/**
 * How the web gateway reads what the daemon sends back: error messages,
 * event notifications, the `result` envelopes around thread pages and
 * start-thread replies, and the line filter that waits for the reply to one
 * request id.
 */
module GatewayDaemon {
  import opened Base
  import opened Text
  import opened Json

  const UNKNOWN_ERROR: string := "daemon returned an unknown error"
  const DISCONNECTED: string := "daemon disconnected"
  const INVALID_RESPONSE: string := "invalid daemon response: "

  /** Request ids are `u64`. */
  type U64 = n: nat | n < U64_LIMIT

  /** `parse_error_message`: `error.message` when it is a string, else a fixed text. */
  function ParseErrorMessage(message: Value): (r: string)
    ensures Get(message, "error").Some? && GetStr(Get(message, "error").value, "message").Some? ==>
              r == GetStr(Get(message, "error").value, "message").value
    ensures r != UNKNOWN_ERROR ==> Get(message, "error").Some? && GetStr(Get(message, "error").value, "message") == Some(r)
  {
    match Get(message, "error")
    case None => UNKNOWN_ERROR
    case Some(error) => GetStr(error, "message").GetOr(UNKNOWN_ERROR)
  }

  /** The reply the daemon sends when request `id` fails with `message`. */
  function ErrorReply(id: U64, message: string): Value {
    Obj(map["id" := Int(id), "error" := Obj(map["message" := Str(message)])])
  }

  /** The reply the daemon sends when request `id` succeeds with `result`. */
  function ResultReply(id: U64, result: Value): Value {
    Obj(map["id" := Int(id), "result" := result])
  }

  lemma ErrorMessageOfErrorReply(id: U64, message: string)
    ensures ParseErrorMessage(ErrorReply(id, message)) == message
  {
    assert "error" in ErrorReply(id, message).fields;
  }

  /**
   * `is_event_notification`: a message is pushed to browsers exactly when it
   * carries no `id` and its `method` is a string that is not blank.
   */
  function IsEventNotification(message: Value): (r: bool)
    ensures r <==> message.Obj? && "id" !in message.fields && "method" in message.fields
                   && message.fields["method"].Str?
                   && !(forall i :: 0 <= i < |message.fields["method"].s| ==> IsWhitespace(message.fields["method"].s[i]))
  {
    match GetStr(message, "method")
    case None => false
    case Some(name) =>
      BlankIffAllWhitespace(name, IsWhitespace);
      Get(message, "id").None? && !IsBlank(name, IsWhitespace)
  }

  /** The request line the gateway writes to the daemon (`send_daemon_request`). */
  function DaemonRequest(id: U64, rpcMethod: string, params: Value): Value {
    Obj(map["id" := Int(id), "method" := Str(rpcMethod), "params" := params])
  }

  /** A notification as the daemon pushes it. */
  function Notification(rpcMethod: string, params: Value): Value {
    Obj(map["method" := Str(rpcMethod), "params" := params])
  }

  /**
   * Requests and replies always carry an `id`, so they are never taken for
   * events; a notification is an event exactly when its method is not blank
   * (the test `event_detection_requires_method_and_no_id`).
   */
  lemma EventClassification(id: U64, rpcMethod: string, params: Value, result: Value)
    ensures !IsEventNotification(DaemonRequest(id, rpcMethod, params))
    ensures !IsEventNotification(ResultReply(id, result))
    ensures IsEventNotification(Notification(rpcMethod, params)) <==> !IsBlank(rpcMethod, IsWhitespace)
  {
    BlankIffAllWhitespace(rpcMethod, IsWhitespace);
    assert "id" in DaemonRequest(id, rpcMethod, params).fields;
    assert "id" in ResultReply(id, result).fields;
    var n := Notification(rpcMethod, params);
    assert "id" !in n.fields && n.fields["method"] == Str(rpcMethod);
  }

  /** `peel_result_envelope`: the `result` member when it is an object, else the value itself. */
  function PeelResultEnvelope(value: Value): (r: Value)
    ensures r == value || (value.Obj? && "result" in value.fields && value.fields["result"] == r && r.Obj?)
    ensures Get(value, "result").Some? && Get(value, "result").value.Obj? ==> r == value.fields["result"]
  {
    match Get(value, "result")
    case Some(inner) => if inner.Obj? then inner else value
    case None => value
  }

  /** The envelope the daemon may put around an object. */
  function Wrap(v: Value): Value {
    Obj(map["result" := v])
  }

  /** Wrapping an object and peeling gives the object back; a non-object is not unwrapped. */
  lemma PeelWrap(v: Value)
    ensures v.Obj? ==> PeelResultEnvelope(Wrap(v)) == v
    ensures !v.Obj? ==> PeelResultEnvelope(Wrap(v)) == Wrap(v)
  {
    assert "result" in Wrap(v).fields;
  }

  /** A page of threads: the `data` array and the cursor of the next page. */
  datatype ThreadPage = ThreadPage(threads: seq<Value>, nextCursor: Option<string>)

  /** `object.get("nextCursor").or_else(|| object.get("next_cursor")).and_then(as_str)` */
  function PageCursor(fields: map<string, Value>): (r: Option<string>)
    ensures "nextCursor" in fields ==> (r.Some? <==> fields["nextCursor"].Str?)
    ensures "nextCursor" !in fields ==> (r.Some? <==> "next_cursor" in fields && fields["next_cursor"].Str?)
    ensures r.Some? ==> Str(r.value) == (if "nextCursor" in fields then fields["nextCursor"] else fields["next_cursor"])
  {
    var member := if "nextCursor" in fields then Some(fields["nextCursor"])
                  else if "next_cursor" in fields then Some(fields["next_cursor"])
                  else None;
    AsStr(member)
  }

  /**
   * `parse_thread_page`: up to two envelopes are peeled; the page is the
   * `data` array (empty when missing or not an array) and the cursor.
   */
  function ParseThreadPage(value: Value): (r: ThreadPage)
    ensures !PeelResultEnvelope(PeelResultEnvelope(value)).Obj? ==> r == ThreadPage([], None)
  {
    var response := PeelResultEnvelope(PeelResultEnvelope(value));
    match response
    case Obj(fields) =>
      var threads := if "data" in fields && fields["data"].Arr? then fields["data"].items else [];
      ThreadPage(threads, PageCursor(fields))
    case _ => ThreadPage([], None)
  }

  /**
   * For any response that is an object once peeled, the page is its `data`
   * array (nothing when `data` is missing or not an array) and its cursor.
   */
  lemma ThreadPageOfObject(value: Value, fields: map<string, Value>)
    requires PeelResultEnvelope(PeelResultEnvelope(value)) == Obj(fields)
    ensures "data" in fields && fields["data"].Arr? ==> ParseThreadPage(value).threads == fields["data"].items
    ensures !("data" in fields && fields["data"].Arr?) ==> ParseThreadPage(value).threads == []
    ensures ParseThreadPage(value).nextCursor == PageCursor(fields)
  {
  }

  /** The page as the daemon encodes it (`Option<String>` is written as `null` when absent). */
  function PageValue(threads: seq<Value>, cursor: Option<string>): Value {
    Obj(map["data" := Arr(threads), "nextCursor" := if cursor.Some? then Str(cursor.value) else Null])
  }

  /** A page is read back whether it comes bare or inside one or two envelopes. */
  lemma ThreadPageRoundTrip(threads: seq<Value>, cursor: Option<string>)
    ensures ParseThreadPage(PageValue(threads, cursor)) == ThreadPage(threads, cursor)
    ensures ParseThreadPage(Wrap(PageValue(threads, cursor))) == ThreadPage(threads, cursor)
    ensures ParseThreadPage(Wrap(Wrap(PageValue(threads, cursor)))) == ThreadPage(threads, cursor)
  {
    var page := PageValue(threads, cursor);
    assert "result" !in page.fields;
    PeelWrap(page);
    PeelWrap(Wrap(page));
    assert "data" in page.fields && "nextCursor" in page.fields;
  }

  /** Only two envelopes are peeled: a third hides the page completely. */
  lemma ThreadPageThirdEnvelope(threads: seq<Value>, cursor: Option<string>)
    ensures ParseThreadPage(Wrap(Wrap(Wrap(PageValue(threads, cursor))))) == ThreadPage([], None)
  {
    var page := PageValue(threads, cursor);
    PeelWrap(Wrap(Wrap(page)));
    PeelWrap(Wrap(page));
    var w := Wrap(page);
    assert "data" !in w.fields && "nextCursor" !in w.fields && "next_cursor" !in w.fields;
  }

  /**
   * `next_cursor` is consulted only when `nextCursor` is absent: a present
   * `nextCursor` that is not a string yields no cursor at all.
   */
  lemma CursorFallback(fields: map<string, Value>, cursor: string)
    requires "next_cursor" in fields && fields["next_cursor"] == Str(cursor)
    ensures "nextCursor" !in fields ==> PageCursor(fields) == Some(cursor)
    ensures "nextCursor" in fields && !fields["nextCursor"].Str? ==> PageCursor(fields) == None
  {
  }

  /** `value.get("thread").and_then(|t| t.get("id")).and_then(as_str)` */
  function ThreadIdOf(value: Value): (r: Option<string>)
    ensures r.Some? <==> Get(value, "thread").Some? && GetStr(Get(value, "thread").value, "id").Some?
    ensures r.Some? ==> r == GetStr(value.fields["thread"], "id")
  {
    match Get(value, "thread")
    case None => None
    case Some(thread) => GetStr(thread, "id")
  }

  /**
   * `parse_thread_id_from_start_response`: the thread id of the doubly peeled
   * response, falling back to the thread id of the value as given.
   */
  function ParseThreadIdFromStartResponse(value: Value): (r: Option<string>)
    ensures r.None? <==> ThreadIdOf(PeelResultEnvelope(PeelResultEnvelope(value))).None? && ThreadIdOf(value).None?
    ensures ThreadIdOf(PeelResultEnvelope(PeelResultEnvelope(value))).Some? ==>
              r == ThreadIdOf(PeelResultEnvelope(PeelResultEnvelope(value)))
  {
    ThreadIdOf(PeelResultEnvelope(PeelResultEnvelope(value))).Or(ThreadIdOf(value))
  }

  /** The reply to `start_thread`: `{"thread": {"id": id}}`. */
  function StartedThread(id: string): Value {
    Obj(map["thread" := Obj(map["id" := Str(id)])])
  }

  /** The thread id is found bare and inside one or two envelopes, but not inside three. */
  lemma ThreadIdRoundTrip(id: string)
    ensures ParseThreadIdFromStartResponse(StartedThread(id)) == Some(id)
    ensures ParseThreadIdFromStartResponse(Wrap(StartedThread(id))) == Some(id)
    ensures ParseThreadIdFromStartResponse(Wrap(Wrap(StartedThread(id)))) == Some(id)
    ensures ParseThreadIdFromStartResponse(Wrap(Wrap(Wrap(StartedThread(id))))) == None
  {
    var s := StartedThread(id);
    assert "result" !in s.fields && "thread" in s.fields;
    assert s.fields["thread"].fields["id"] == Str(id);
    PeelWrap(s);
    PeelWrap(Wrap(s));
    PeelWrap(Wrap(Wrap(s)));
    assert "thread" !in Wrap(s).fields;
    assert "thread" !in Wrap(Wrap(Wrap(s))).fields;
  }

  /** A `thread.id` at the top level is used when the peeled response has none. */
  lemma ThreadIdOriginalFallback(value: Value, id: string)
    requires ThreadIdOf(PeelResultEnvelope(PeelResultEnvelope(value))).None?
    requires ThreadIdOf(value) == Some(id)
    ensures ParseThreadIdFromStartResponse(value) == Some(id)
  {
  }

  /** One `next_line` result: a line of text, or a read error. End of stream is the end of the sequence. */
  datatype LineRead = Got(line: string) | Failed(error: string)

  /** The reply is for request `expectedId`: its `id` is that number as a `u64`. */
  predicate Answers(message: Value, expectedId: U64) {
    AsU64(Get(message, "id")) == Some(expectedId)
  }

  /** What a matching reply amounts to: its error message, or its `result` (`null` when absent). */
  function Outcome(message: Value): (r: Result<Value, string>)
    ensures r.Err? <==> Get(message, "error").Some?
  {
    if Get(message, "error").Some? then Err(ParseErrorMessage(message))
    else Ok(Get(message, "result").GetOr(Null))
  }

  /** What reading one line does: pass over it, or stop with an outcome. */
  datatype Verdict = Skip | Stop(outcome: Result<Value, string>)

  /**
   * One turn of the loop of `read_daemon_response`: a read error stops it, a
   * blank line is passed over, a line that is not JSON stops it (`parse`
   * stands for `serde_json::from_str`), a message for another id is passed
   * over, and a reply to the expected id stops it with that reply's outcome.
   */
  function LineVerdict(l: LineRead, expectedId: U64, parse: string -> Result<Value, string>): Verdict {
    match l
    case Failed(error) => Stop(Err(error))
    case Got(line) =>
      var trimmed := Trim(line, IsWhitespace);
      if trimmed == [] then Skip
      else match parse(trimmed)
        case Err(reason) => Stop(Err(INVALID_RESPONSE + reason))
        case Ok(message) => if !Answers(message, expectedId) then Skip else Stop(Outcome(message))
  }

  /** The verdict on every line of the stream. */
  function Verdicts(lines: seq<LineRead>, expectedId: U64, parse: string -> Result<Value, string>): (vs: seq<Verdict>)
    ensures |vs| == |lines|
    ensures forall k :: 0 <= k < |lines| ==> vs[k] == LineVerdict(lines[k], expectedId, parse)
  {
    seq(|lines|, k requires 0 <= k < |lines| => LineVerdict(lines[k], expectedId, parse))
  }

  /**
   * Reading verdicts from position `i` on: the first `Stop` gives the outcome
   * and the index after it; running out of lines means the daemon has
   * disconnected.
   */
  function FirstStop(vs: seq<Verdict>, i: nat): (r: (Result<Value, string>, nat))
    requires i <= |vs|
    decreases |vs| - i
    ensures i <= r.1 <= |vs|
  {
    if i == |vs| then (Err(DISCONNECTED), i)
    else match vs[i]
      case Skip => FirstStop(vs, i + 1)
      case Stop(outcome) => (outcome, i + 1)
  }

  /**
   * The loop of `read_daemon_response`, reading from line `i` on: the outcome
   * and the index of the first line not yet consumed.
   */
  function ResponseFrom(lines: seq<LineRead>, i: nat, expectedId: U64, parse: string -> Result<Value, string>): (r: (Result<Value, string>, nat))
    requires i <= |lines|
    ensures i <= r.1 <= |lines|
  {
    FirstStop(Verdicts(lines, expectedId, parse), i)
  }

  /**
   * The answer is decided by the first line that is not passed over, and that
   * line is the last one consumed; when every remaining line is passed over,
   * the daemon has disconnected and everything is consumed.
   */
  lemma {:induction false} FirstStopDecides(vs: seq<Verdict>, i: nat)
    requires i <= |vs|
    decreases |vs| - i
    ensures var r := FirstStop(vs, i);
            || (r.1 == |vs| && r.0 == Err(DISCONNECTED) && forall k :: i <= k < |vs| ==> vs[k].Skip?)
            || (i < r.1 && vs[r.1 - 1] == Stop(r.0) && forall k :: i <= k < r.1 - 1 ==> vs[k].Skip?)
  {
    if i < |vs| && vs[i].Skip? {
      FirstStopDecides(vs, i + 1);
    }
  }

  /** Verdicts that pass over lines change nothing: reading resumes after them. */
  lemma {:induction false} SkipPrefix(vs: seq<Verdict>, i: nat, j: nat)
    requires i <= j <= |vs|
    requires forall k :: i <= k < j ==> vs[k].Skip?
    ensures FirstStop(vs, i) == FirstStop(vs, j)
    decreases j - i
  {
    if i < j {
      SkipPrefix(vs, i + 1, j);
    }
  }

  /** `read_daemon_response` over the lines from `start`. */
  method ReadDaemonResponse(lines: seq<LineRead>, start: nat, expectedId: U64, parse: string -> Result<Value, string>)
      returns (r: Result<Value, string>, next: nat)
    requires start <= |lines|
    ensures (r, next) == ResponseFrom(lines, start, expectedId, parse)
  {
    ghost var vs := Verdicts(lines, expectedId, parse);
    next := start;
    while next < |lines|
      invariant start <= next <= |lines|
      invariant FirstStop(vs, next) == FirstStop(vs, start)
      decreases |lines| - next
    {
      var l := lines[next];
      assert vs[next] == LineVerdict(l, expectedId, parse);
      next := next + 1;
      match l {
        case Failed(error) =>
          return Err(error), next;
        case Got(line) =>
          var trimmed := Trim(line, IsWhitespace);
          if trimmed == [] {
            continue;
          }
          match parse(trimmed) {
            case Err(reason) =>
              return Err(INVALID_RESPONSE + reason), next;
            case Ok(message) =>
              if !Answers(message, expectedId) {
                continue;
              }
              return Outcome(message), next;
          }
      }
    }
    r := Err(DISCONNECTED);
  }

  /**
   * After lines that are passed over, a reply to the expected id ends the
   * wait: an error reply gives its message, any other reply its `result`.
   */
  lemma ReplyAfterSkipped(lines: seq<LineRead>, i: nat, j: nat, expectedId: U64, parse: string -> Result<Value, string>, message: Value)
    requires i <= j < |lines|
    requires forall k :: i <= k < j ==> LineVerdict(lines[k], expectedId, parse).Skip?
    requires lines[j].Got? && Trim(lines[j].line, IsWhitespace) != []
    requires parse(Trim(lines[j].line, IsWhitespace)) == Ok(message)
    requires Answers(message, expectedId)
    ensures ResponseFrom(lines, i, expectedId, parse) == (Outcome(message), j + 1)
  {
    var vs := Verdicts(lines, expectedId, parse);
    SkipPrefix(vs, i, j);
    assert vs[j] == Stop(Outcome(message));
  }

  /** The replies the daemon writes are read back as the outcome they encode. */
  lemma OutcomeOfReplies(id: U64, result: Value, message: string)
    ensures Answers(ResultReply(id, result), id) && Outcome(ResultReply(id, result)) == Ok(result)
    ensures Answers(ErrorReply(id, message), id) && Outcome(ErrorReply(id, message)) == Err(message)
  {
    assert "id" in ResultReply(id, result).fields && "error" !in ResultReply(id, result).fields;
    assert "result" in ResultReply(id, result).fields;
    assert "id" in ErrorReply(id, message).fields;
    ErrorMessageOfErrorReply(id, message);
  }

  /** An `error` member that is `null` still marks the reply as failed, with the fixed message. */
  lemma NullErrorFails(id: U64)
    ensures Outcome(Obj(map["id" := Int(id), "error" := Null])) == Err(UNKNOWN_ERROR)
  {
    var m := Obj(map["id" := Int(id), "error" := Null]);
    assert "error" in m.fields;
  }

  /** A reply without `result` or `error` succeeds with `null`. */
  lemma BareReplyIsNull(id: U64)
    ensures Outcome(Obj(map["id" := Int(id)])) == Ok(Null)
  {
    var m := Obj(map["id" := Int(id)]);
    assert "error" !in m.fields && "result" !in m.fields;
  }
}
