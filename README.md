# CodexMonitor web companion and web gateway, modelled in Dafny

CodexMonitor is a desktop app that drives Codex agent sessions. It offers
two browser-facing ways in.

The first is the **web companion**, embedded in the app (`web_companion.rs`).
It is a minimal HTTP/1.1 server that reads a request off a TCP stream:
- it accumulates bytes until the `CR LF CR LF` terminator;
- it parses the request line, the target and its `application/x-www-form-urlencoded` query, and the header lines;
- it reads a body of `content-length` bytes;
- it checks a shared token.

It also serves a small JavaScript client. That client keeps a global
`state` object holding the workspace list, the threads of each workspace
and the active workspace and thread ids, and reconciles the selection after
every refresh.

The second is the **web gateway** binary (`codex_monitor_web_gateway.rs`).
It puts a REST and WebSocket front on the daemon's line-delimited JSON-RPC:
- it parses its command line;
- it extracts and checks an API token from three sources;
- it checks the required request fields;
- it classifies daemon messages;
- it unwraps `result` envelopes;
- it waits for the reply whose `id` matches the request.

The project has one Dafny module per concern:

| file | module | what |
|---|---|---|
| `base.dfy` | `Base` | `Option` and `Result` |
| `text.dfy` | `Text` | trimming (generic over the whitespace predicate), ASCII lower-casing, substring search, `split` and `split_once` |
| `json.dfy` | `Json` | the JSON value datatype and the `serde_json::Value` accessors used (`get`, `as_str`, `as_u64`) |
| `companion_http.dfy` | `CompanionHttp` | `from_hex`, `decode_component`, `parse_query_string`, `parse_target`, `find_header_end`, `read_request`, `validate_token`, the status reason phrases |
| `companion_client.dfy` | `CompanionClient` | the embedded client's `normalizePath`, `threadBelongsToWorkspace`, the thread filter of `refreshThreadsForWorkspace`, and the `state` object as a class whose methods are `ensureWorkspaceSelection`, `ensureThreadSelection`, `refreshWorkspaces`, `refreshAllThreads` and the state part of `fullRefresh` |
| `gateway_auth.dfy` | `GatewayAuth` | `normalize_token`, `extract_request_token`, `authorize_request` |
| `gateway_daemon.dfy` | `GatewayDaemon` | `parse_error_message`, `is_event_notification`, `peel_result_envelope`, `parse_thread_page`, `parse_thread_id_from_start_response`, the id-matching loop of `read_daemon_response` |
| `gateway_handlers.dfy` | `GatewayHandlers` | the auth-then-field checks and the daemon calls of `list_threads`, `start_thread`, `resume_thread`, `send_message`, `rpc_proxy` and `ws_events` |
| `gateway_args.dfy` | `GatewayArgs` | the `parse_args` option state machine and its error messages |

The loops of the source are Dafny methods with loop invariants:
- `decode_component`, the insertion loop of `parse_query_string`, the two read loops and the header loop of `read_request`;
- the argument loop of `parse_args` and the line loop of `read_daemon_response`.

Each loop method is proved equal to a recursive specification function, and
the lemmas state the properties of those functions.

`read_request` works on a sequence of read results: bytes, end of stream or
an I/O failure. The model proves that a successful read is *framed*: the
header is the received bytes before the first terminator, and the body is
exactly `content-length` bytes from just after it. It follows that every
other stream gives an error.

## Model

| member | source | states |
|---|---|---|
| CompanionHttp.Ascii | src-tauri/src/web_companion.rs:346-349 | the byte form of a literal such as `token`, `x-codex-monitor-token` or `content-length` (line 417) has one byte per character, and each ASCII character becomes its own code |
| CompanionHttp.AsciiLowerBytes | src-tauri/src/web_companion.rs:415 | `to_ascii_lowercase` keeps the length and lowers each byte on its own |
| CompanionHttp.ReasonPhraseStandard | src-tauri/src/web_companion.rs:532-539 | 200, 204, 400, 401, 404 and 500 get their standard reason phrases; every other status gets "Internal Server Error" |
| CompanionHttp.FromHex | src-tauri/src/web_companion.rs:517-524 | a value exactly for `0-9`, `a-f` and `A-F`, and that value is below 16 |
| CompanionHttp.FromHexIsDigitValue | src-tauri/src/web_companion.rs:517-524 | the value of a hex digit is its digit value (`'a'`/`'A'` give 10) |
| CompanionHttp.DecodeComponent | src-tauri/src/web_companion.rs:486-515 | the index-driven loop produces exactly the percent/plus decoding `Decoded` of its input |
| CompanionHttp.DecodedNotLonger | src-tauri/src/web_companion.rs:486-515 | decoding never lengthens the input |
| CompanionHttp.DecodedPlain | src-tauri/src/web_companion.rs:486-515 | input with no `+` and no `%` is returned unchanged |
| CompanionHttp.DecodedMalformedEscape | src-tauri/src/web_companion.rs:496-507 | a `%` without two hex digits after it is copied literally and decoding goes on at the next byte |
| CompanionHttp.DecodeEncode | src-tauri/src/web_companion.rs:486-515 | decoding undoes percent-encoding of every byte outside the unreserved set, so every byte string is the decoded bytes of some query text; the source hands that string on only when it is valid UTF-8 (see Left out) |
| CompanionHttp.ParseQueryString | src-tauri/src/web_companion.rs:470-484 | the insertion loop yields the fold `QueryMap` of the `&`-separated parts |
| CompanionHttp.QueryFoldAppend | src-tauri/src/web_companion.rs:472-482 | folding a concatenation of parts equals folding the second list on top of the first map |
| CompanionHttp.SplitAround | src-tauri/src/web_companion.rs:472 | splitting `a & b` gives the pieces of `a` followed by the pieces of `b` |
| CompanionHttp.QueryFoldKeysNonEmpty | src-tauri/src/web_companion.rs:478-480 | no empty key ever enters the map |
| CompanionHttp.QueryMapLaterWins | src-tauri/src/web_companion.rs:470-484 | a later part overwrites any earlier value for its key; a blank or empty-key part changes nothing; keys are never empty |
| CompanionHttp.QueryEntryWithoutEquals | src-tauri/src/web_companion.rs:476-481 | a part without `=` maps its decoded key to the empty value |
| CompanionHttp.ParseTarget | src-tauri/src/web_companion.rs:460-468 | without `?` the path is the whole target and the query is empty; otherwise the path is the text before the first `?` and the query is parsed from the text after it |
| CompanionHttp.FindHeaderEnd | src-tauri/src/web_companion.rs:452-458 | the result is the smallest index where `CR LF CR LF` starts, and None when it occurs nowhere |
| CompanionHttp.Decimal | src-tauri/src/web_companion.rs:418-420 | the decimal rendering of a number is a non-empty digit string |
| CompanionHttp.DecimalValue | src-tauri/src/web_companion.rs:418-420 | the digit value of a rendered number is the number |
| CompanionHttp.ParseUsizeDecimal | src-tauri/src/web_companion.rs:418-420 | `parse::<usize>` accepts the decimal rendering of every number below the `usize` limit |
| CompanionHttp.ParseHeaderLines | src-tauri/src/web_companion.rs:406-426 | the header loop yields exactly the fold `HeaderFold` over the header lines, starting from an empty map and length 0 |
| CompanionHttp.LowerTrimmedIsNormal | src-tauri/src/web_companion.rs:415 | lower-casing a trimmed key leaves it trimmed and lower-case |
| CompanionHttp.FieldKeyNormal | src-tauri/src/web_companion.rs:412-415 | every key that the `split_once(':')` step produces is trimmed and lower-case |
| CompanionHttp.HeaderStepFails | src-tauri/src/web_companion.rs:408-425 | one header line fails exactly when it is a `content-length` field whose value is non-numeric or over 512 KiB |
| CompanionHttp.HeaderStepKeepsInvariant | src-tauri/src/web_companion.rs:408-425 | one header line keeps the keys normal, and keeps the length equal to the stored `content-length` and within 512 KiB |
| CompanionHttp.HeaderFoldFails | src-tauri/src/web_companion.rs:406-426 | the header loop fails exactly when some line is a bad `content-length` field |
| CompanionHttp.HeaderFoldKeepsInvariant | src-tauri/src/web_companion.rs:406-426 | after a successful header loop the keys are normal and the body length is the one the last `content-length` field declares |
| CompanionHttp.TokenLength | src-tauri/src/web_companion.rs:394 | the leading non-whitespace run ends at the first ASCII whitespace byte |
| CompanionHttp.NextToken | src-tauri/src/web_companion.rs:394-402 | `split_whitespace` finds no token exactly when the text is all whitespace; a token it finds is non-empty and has no whitespace |
| CompanionHttp.ParseHeadFails | src-tauri/src/web_companion.rs:385-426 | the head fails exactly when the request line lacks a method, or lacks a target, or a header line has a bad `content-length` |
| CompanionHttp.ParseHeadInvariant | src-tauri/src/web_companion.rs:385-426 | a parsed head has a non-empty method, normal header keys, and a length matching its `content-length` within 512 KiB |
| CompanionHttp.ReadHead | src-tauri/src/web_companion.rs:366-383 | a successful header loop holds the terminator inside a buffer of at most 64 KiB |
| CompanionHttp.ReadHeadLoop | src-tauri/src/web_companion.rs:366-383 | the read loop returns exactly `ReadHead` of the chunks |
| CompanionHttp.ReadBodyLoop | src-tauri/src/web_companion.rs:428-441 | the body loop and the truncate return exactly `ReadBody` |
| CompanionHttp.ReadRequest | src-tauri/src/web_companion.rs:362-450 | the whole method returns exactly the composition `ReadRequestSpec` of head reading, head parsing and body reading |
| CompanionHttp.ReadHeadSound | src-tauri/src/web_companion.rs:366-383 | the terminator found is the first one in the bytes received, the buffer is within 64 KiB, and buffer plus unread bytes is all that was received |
| CompanionHttp.ReadBodySound | src-tauri/src/web_companion.rs:428-441 | a read body is the first `content-length` bytes of what was already buffered plus what arrives later |
| CompanionHttp.ReadRequestSound | src-tauri/src/web_companion.rs:362-441 | a successful request is framed: the header is the received bytes before the first terminator, at most 64 KiB; the body is the `content-length` bytes just after the terminator; the length is at most 512 KiB; the keys are normal |
| CompanionHttp.HeadFramedFromParts | src-tauri/src/web_companion.rs:385-441 | the stage results of a read assemble into a framed head |
| CompanionHttp.BodyFramedFromParts | src-tauri/src/web_companion.rs:385-441 | a prefix of the bytes after the terminator is a framed body |
| CompanionHttp.ReadRequestStages | src-tauri/src/web_companion.rs:362-441 | a successful request comes from a successful head read, head parse and body read, in that order |
| CompanionHttp.HeadFromStream | src-tauri/src/web_companion.rs:366-386 | the terminator the loop finds is the first one in the whole stream, and the text around it is the stream's |
| CompanionHttp.ConcatSlices | src-tauri/src/web_companion.rs:385-386 | bytes read after the terminator join the body and leave the header unchanged |
| CompanionHttp.ValidateToken | src-tauri/src/web_companion.rs:345-356 | Ok exactly when the supplied token equals the expected one; otherwise 401 "Unauthorized" |
| CompanionHttp.ValidateTokenPrecedence | src-tauri/src/web_companion.rs:345-356 | the `x-codex-monitor-token` header decides and the `token` query is then ignored; with neither, the supplied value is empty and any non-empty expected token is refused |
| CompanionClient.ForwardSlashes | src-tauri/src/web_companion.rs:1148 | every `\` becomes `/` and every other character stays |
| CompanionClient.StripTrailingSlashes | src-tauri/src/web_companion.rs:1149 | the result is the path with its trailing run of `/` removed, and never ends in `/` |
| CompanionClient.NormalizePath | src-tauri/src/web_companion.rs:1143-1151 | a normalized path is no longer than its input, has no `\`, no upper-case ASCII letter and no trailing `/` |
| CompanionClient.NormalizePathChars | src-tauri/src/web_companion.rs:1143-1151 | each kept character is the lower-cased, slash-converted character at the same position; only `/` and `\` are dropped at the end |
| CompanionClient.NormalizePathIdempotent | src-tauri/src/web_companion.rs:1143-1151 | normalizing twice equals normalizing once |
| CompanionClient.NormalizeIgnoresTrailingSeparator | src-tauri/src/web_companion.rs:1143-1151 | appending `/` or `\` does not change the normalized path |
| CompanionClient.ThreadBelongsToWorkspace | src-tauri/src/web_companion.rs:1185-1192 | true when either normalized path is empty, else exactly when the cwd equals the workspace path or starts with it followed by `/` |
| CompanionClient.StartsWithSlash | src-tauri/src/web_companion.rs:1191 | `startsWith(p + '/')` means that `p` is a proper prefix followed by `/` |
| CompanionClient.WorkspaceOwnsItsPath | src-tauri/src/web_companion.rs:1185-1192 | a thread whose cwd normalizes to the workspace path belongs to it |
| CompanionClient.BelongsUpToNormalization | src-tauri/src/web_companion.rs:1185-1192 | membership does not change when both paths are normalized first |
| CompanionClient.SiblingNotInside | src-tauri/src/web_companion.rs:1185-1192 | a longer cwd that does not continue with `/` after the workspace path (`/a/bc` against `/a/b`) does not belong |
| CompanionClient.UnderPathTransitive | src-tauri/src/web_companion.rs:1191 | being under a path is transitive |
| CompanionClient.NestedWorkspaces | src-tauri/src/web_companion.rs:1185-1192 | a thread of a workspace nested inside another also belongs to the outer one |
| CompanionClient.Filter | src-tauri/src/web_companion.rs:1480-1485 | the kept elements are exactly the elements of the input that satisfy the test |
| CompanionClient.FilterSingle | src-tauri/src/web_companion.rs:1480-1485 | a one-element list keeps its element exactly when it passes |
| CompanionClient.FilterAppend | src-tauri/src/web_companion.rs:1480-1485 | filtering a concatenation is the concatenation of the filtered parts, so order and repetitions are kept |
| CompanionClient.FilterFirst | src-tauri/src/web_companion.rs:1480-1485 | the first kept element is the first element that passes |
| CompanionClient.FilterFilter | src-tauri/src/web_companion.rs:1480-1485 | filtering by one test and then another equals filtering once by both |
| CompanionClient.WorkspaceThreads | src-tauri/src/web_companion.rs:1480-1486 | with no thread carrying a cwd the list is returned whole; otherwise it is exactly the threads with a cwd that belong to the workspace, in their order and with their repetitions (`Filter` of the list by `KeepFor`) |
| CompanionClient.WorkspaceThreadsFirst | src-tauri/src/web_companion.rs:1480-1486 | when some thread has a cwd, the list starts with the first thread whose cwd lies inside the workspace |
| CompanionClient.WorkspaceThreadsAppend | src-tauri/src/web_companion.rs:1480-1486 | once the front of a list has a thread with a cwd, the rest is filtered on its own and appended |
| CompanionClient.FindWorkspace | src-tauri/src/web_companion.rs:1167-1169 | None exactly when no workspace has the id; a found workspace is listed and has that id |
| CompanionClient.SelectWorkspace | src-tauri/src/web_companion.rs:1284-1289 | a listed non-empty id is kept; otherwise the first workspace's id, or empty for an empty list |
| CompanionClient.SelectedWorkspaceListed | src-tauri/src/web_companion.rs:1284-1289 | the chosen workspace is empty or listed |
| CompanionClient.NoWorkspaceSelected | src-tauri/src/web_companion.rs:1284-1289 | nothing is selected exactly when the current id is not a listed non-empty id and the list is empty or starts with an empty id |
| CompanionClient.SelectWorkspaceIdempotent | src-tauri/src/web_companion.rs:1284-1289 | reconciling twice equals reconciling once |
| CompanionClient.FirstThreadId | src-tauri/src/web_companion.rs:1300 | the fallback `threads[0]?.id`, or `''`, is empty for an empty list or a first thread without an id, else the first thread's id, which is then listed |
| CompanionClient.SelectThread | src-tauri/src/web_companion.rs:1291-1302 | empty without an active workspace; the current thread if that workspace lists a thread with exactly that id; otherwise its first thread's id, or empty |
| CompanionClient.MissingThreadIdNeverMatches | src-tauri/src/web_companion.rs:1298-1300 | a thread without an id does not match an empty active id, so the first thread's id is chosen |
| CompanionClient.SelectedThreadListed | src-tauri/src/web_companion.rs:1291-1302 | the chosen thread is empty or listed under the active workspace |
| CompanionClient.SelectThreadIdempotent | src-tauri/src/web_companion.rs:1291-1302 | reconciling twice equals reconciling once |
| CompanionClient.FromEntries | src-tauri/src/web_companion.rs:1502 | `Object.fromEntries` has a key exactly for each listed workspace id |
| CompanionClient.HasWorkspaceSplit | src-tauri/src/web_companion.rs:1502 | an id is listed exactly when it is in the front of the list or is the last id |
| CompanionClient.FromEntriesLast | src-tauri/src/web_companion.rs:1489-1502 | a workspace's entry holds the threads fetched for the last workspace with that id |
| CompanionClient.CompanionState.constructor | src-tauri/src/web_companion.rs:1101-1111 | the initial state is empty and consistent |
| CompanionClient.CompanionState.EnsureWorkspaceSelection | src-tauri/src/web_companion.rs:1284-1289 | sets the workspace id to `SelectWorkspace` of the old one and changes nothing else; the result is empty or listed |
| CompanionClient.CompanionState.EnsureThreadSelection | src-tauri/src/web_companion.rs:1291-1302 | sets the thread id to `SelectThread` and changes nothing else; after it, with a valid workspace id, the state is consistent |
| CompanionClient.CompanionState.RefreshWorkspaces | src-tauri/src/web_companion.rs:1462-1470 | replaces the list (empty when the payload has no array), clears both ids on an empty list, then reconciles the workspace; the thread map is unchanged |
| CompanionClient.CompanionState.RefreshAllThreads | src-tauri/src/web_companion.rs:1489-1504 | rebuilds the thread map from the fetched lists, reconciles the thread, leaves the workspace part alone, and ends consistent |
| CompanionClient.FullRefresh | src-tauri/src/web_companion.rs:1599-1610 | refreshing the workspaces and then all threads gives the fetched list, the rebuilt map, the reconciled workspace and the thread `SelectThread` picks from the old thread id; the state is consistent |
| CompanionClient.RefreshKeepsListedThread | src-tauri/src/web_companion.rs:1462-1504 | a selection that is still listed after a refresh survives it |
| GatewayAuth.NormalizeToken | src-tauri/src/bin/codex_monitor_web_gateway.rs:224-233 | None for an absent or whitespace-only token, else the trimmed token, which is non-empty and trimmed at both ends |
| GatewayAuth.NormalizeTokenIdempotent | src-tauri/src/bin/codex_monitor_web_gateway.rs:224-233 | normalizing twice equals normalizing once |
| GatewayAuth.StripPrefix | src-tauri/src/bin/codex_monitor_web_gateway.rs:243 | `strip_prefix` succeeds exactly when the prefix is there, and the rest follows it |
| GatewayAuth.HeaderText | src-tauri/src/bin/codex_monitor_web_gateway.rs:239-241 | a header value is read only when present and valid visible text |
| GatewayAuth.ExtractRequestToken | src-tauri/src/bin/codex_monitor_web_gateway.rs:235-259 | the token comes from the Bearer header, the custom header or the query; it is None exactly when all three give none; a token found is trimmed and non-empty |
| GatewayAuth.BearerWins | src-tauri/src/bin/codex_monitor_web_gateway.rs:239-247 | a non-blank `Bearer` value wins, trimmed, whatever the other sources say |
| GatewayAuth.UnusableBearerFallsThrough | src-tauri/src/bin/codex_monitor_web_gateway.rs:239-256 | an unusable `Authorization` header counts as absent |
| GatewayAuth.BlankBearerFallsThrough | src-tauri/src/bin/codex_monitor_web_gateway.rs:239-256 | a blank Bearer value counts as absent |
| GatewayAuth.QueryIgnoredWithHeaderToken | src-tauri/src/bin/codex_monitor_web_gateway.rs:235-259 | with a usable header token the query token is irrelevant |
| GatewayAuth.OtherSchemeIgnored | src-tauri/src/bin/codex_monitor_web_gateway.rs:243 | an `Authorization` value without the `Bearer ` prefix yields no Bearer token |
| GatewayAuth.CustomHeaderWins | src-tauri/src/bin/codex_monitor_web_gateway.rs:250-256 | without a Bearer token a non-blank `x-codex-monitor-token` wins, trimmed |
| GatewayAuth.QueryTokenFallback | src-tauri/src/bin/codex_monitor_web_gateway.rs:258 | with neither header the normalized query token decides |
| GatewayAuth.AuthorizeRequest | src-tauri/src/bin/codex_monitor_web_gateway.rs:261-281 | Ok whenever no API token is configured; otherwise Ok exactly on an equal extracted token; a 401 says "missing" exactly when nothing was extracted and "invalid" exactly when something was |
| GatewayAuth.UntrimmedApiTokenNeverMatches | src-tauri/src/bin/codex_monitor_web_gateway.rs:261-281 | a configured token that is empty or has whitespace at either end refuses every request |
| GatewayAuth.BearerTokenAdmitted | src-tauri/src/bin/codex_monitor_web_gateway.rs:261-281 | a trimmed configured token presented as `Bearer <token>` is admitted |
| GatewayDaemon.ParseErrorMessage | src-tauri/src/bin/codex_monitor_web_gateway.rs:283-290 | `error.message` when it is a string, else the unknown-error text |
| GatewayDaemon.ErrorMessageOfErrorReply | src-tauri/src/bin/codex_monitor_web_gateway.rs:283-290 | the message of an error reply is recovered |
| GatewayDaemon.IsEventNotification | src-tauri/src/bin/codex_monitor_web_gateway.rs:292-299 | true exactly for an object with no `id` whose `method` is a string with non-whitespace content |
| GatewayDaemon.EventClassification | src-tauri/src/bin/codex_monitor_web_gateway.rs:957-968 | requests and replies (which carry `id`) are never events; a notification is one exactly when its method is not blank |
| GatewayDaemon.PeelResultEnvelope | src-tauri/src/bin/codex_monitor_web_gateway.rs:301-308 | returns `result` exactly when it is an object, otherwise the value itself |
| GatewayDaemon.PeelWrap | src-tauri/src/bin/codex_monitor_web_gateway.rs:301-308 | peeling undoes a `result` envelope around an object and leaves one around anything else |
| GatewayDaemon.PageCursor | src-tauri/src/bin/codex_monitor_web_gateway.rs:324-328 | the cursor is `nextCursor` when it is present (and a string), otherwise `next_cursor` |
| GatewayDaemon.ParseThreadPage | src-tauri/src/bin/codex_monitor_web_gateway.rs:310-331 | if the twice-peeled value is not an object, the page is empty with no cursor |
| GatewayDaemon.ThreadPageOfObject | src-tauri/src/bin/codex_monitor_web_gateway.rs:310-331 | for a twice-peeled object, the threads are its `data` array (none when missing or not an array) and the cursor is `PageCursor` of its fields |
| GatewayDaemon.ThreadPageRoundTrip | src-tauri/src/bin/codex_monitor_web_gateway.rs:310-331 | a page's `data` and cursor are recovered under zero, one or two `result` envelopes |
| GatewayDaemon.ThreadPageThirdEnvelope | src-tauri/src/bin/codex_monitor_web_gateway.rs:310-331 | a third envelope is not peeled, so the page comes out empty |
| GatewayDaemon.CursorFallback | src-tauri/src/bin/codex_monitor_web_gateway.rs:324-328 | `next_cursor` is used only when `nextCursor` is absent; a present non-string `nextCursor` gives no cursor |
| GatewayDaemon.ThreadIdOf | src-tauri/src/bin/codex_monitor_web_gateway.rs:337-341 | `thread.id` when it is a string, else None |
| GatewayDaemon.ParseThreadIdFromStartResponse | src-tauri/src/bin/codex_monitor_web_gateway.rs:333-349 | the twice-peeled `thread.id` wins, then the original value's; None exactly when both are missing |
| GatewayDaemon.ThreadIdRoundTrip | src-tauri/src/bin/codex_monitor_web_gateway.rs:333-349 | a started thread's id is recovered under up to two envelopes, and not under three |
| GatewayDaemon.ThreadIdOriginalFallback | src-tauri/src/bin/codex_monitor_web_gateway.rs:342-348 | when the peeled value has no id, the original value's `thread.id` is used |
| GatewayDaemon.Outcome | src-tauri/src/bin/codex_monitor_web_gateway.rs:406-410 | a matching reply is an error exactly when it has an `error` field |
| GatewayDaemon.Verdicts | src-tauri/src/bin/codex_monitor_web_gateway.rs:387-412 | one verdict per line, each the line's own verdict |
| GatewayDaemon.FirstStop | src-tauri/src/bin/codex_monitor_web_gateway.rs:387-412 | the loop stops at or after its start and within the lines |
| GatewayDaemon.ResponseFrom | src-tauri/src/bin/codex_monitor_web_gateway.rs:387-412 | the reading position only moves forward and stays within the lines |
| GatewayDaemon.FirstStopDecides | src-tauri/src/bin/codex_monitor_web_gateway.rs:387-412 | the result is decided by the first line that is not skipped; with none, "daemon disconnected" |
| GatewayDaemon.SkipPrefix | src-tauri/src/bin/codex_monitor_web_gateway.rs:394-404 | skipped lines do not affect the result |
| GatewayDaemon.ReadDaemonResponse | src-tauri/src/bin/codex_monitor_web_gateway.rs:387-412 | the loop returns exactly the specified result and position |
| GatewayDaemon.ReplyAfterSkipped | src-tauri/src/bin/codex_monitor_web_gateway.rs:387-412 | after blank or foreign-id lines, the reply with the expected id decides, and reading resumes after it |
| GatewayDaemon.OutcomeOfReplies | src-tauri/src/bin/codex_monitor_web_gateway.rs:406-410 | a result reply gives its `result`; an error reply gives its message |
| GatewayDaemon.NullErrorFails | src-tauri/src/bin/codex_monitor_web_gateway.rs:406-407 | even `"error": null` is an error, with the unknown-error text |
| GatewayDaemon.BareReplyIsNull | src-tauri/src/bin/codex_monitor_web_gateway.rs:410 | a reply with neither field yields `null` |
| GatewayHandlers.CheckFields | src-tauri/src/bin/codex_monitor_web_gateway.rs:643-651 | Ok exactly when every field has non-whitespace content; otherwise the error names the first blank field |
| GatewayHandlers.SecondBlank | src-tauri/src/bin/codex_monitor_web_gateway.rs:616-621 | with the first field filled, a blank second field is the one reported |
| GatewayHandlers.FilledTwo | src-tauri/src/bin/codex_monitor_web_gateway.rs:616-621 | two fields pass exactly when both are filled |
| GatewayHandlers.FilledThree | src-tauri/src/bin/codex_monitor_web_gateway.rs:643-651 | three fields pass exactly when all are filled |
| GatewayHandlers.ThirdBlank | src-tauri/src/bin/codex_monitor_web_gateway.rs:643-651 | with the first two filled, a blank third field is the one reported |
| GatewayHandlers.Guarded | src-tauri/src/bin/codex_monitor_web_gateway.rs:506-510 | an auth failure comes first; then the daemon is called exactly when every field is filled, and otherwise the first blank field is reported |
| GatewayHandlers.OptionalStr | src-tauri/src/bin/codex_monitor_web_gateway.rs:512-517 | an absent option becomes `null`, a present one its string |
| GatewayHandlers.OptionalInt | src-tauri/src/bin/codex_monitor_web_gateway.rs:512-517 | an absent `u32` option becomes `null`, a present one its number, which is below 2^32 |
| GatewayHandlers.ListThreadsCall | src-tauri/src/bin/codex_monitor_web_gateway.rs:501-519 | auth (without a query token) first, then a blank workspace id is refused, else `list_threads` with its parameters |
| GatewayHandlers.ListThreadsParams | src-tauri/src/bin/codex_monitor_web_gateway.rs:512-517 | the parameters carry the workspace id |
| GatewayHandlers.ListThreadsResponse | src-tauri/src/bin/codex_monitor_web_gateway.rs:519-528 | a daemon error becomes a 502; a reply is returned raw with the workspace id |
| GatewayHandlers.ListThreadsPage | src-tauri/src/bin/codex_monitor_web_gateway.rs:519-527 | the threads and cursor of an enveloped page reach the response |
| GatewayHandlers.StartThreadCall | src-tauri/src/bin/codex_monitor_web_gateway.rs:583-599 | auth first, then a blank workspace id is refused, else `start_thread` with the workspace id |
| GatewayHandlers.StartThreadResponse | src-tauri/src/bin/codex_monitor_web_gateway.rs:594-606 | a daemon error becomes a 502; otherwise the raw result and the parsed thread id |
| GatewayHandlers.StartThreadId | src-tauri/src/bin/codex_monitor_web_gateway.rs:601-606 | a started thread's id is reported, also under two envelopes |
| GatewayHandlers.ResumeThreadCall | src-tauri/src/bin/codex_monitor_web_gateway.rs:609-634 | auth, then the workspace id, then the thread id; the first failure is reported, else `resume_thread` with both ids |
| GatewayHandlers.OptionalStrs | src-tauri/src/bin/codex_monitor_web_gateway.rs:656-665 | an absent list becomes `null`, a present one an array of the same strings |
| GatewayHandlers.SendMessageCall | src-tauri/src/bin/codex_monitor_web_gateway.rs:636-670 | auth, then workspace id, thread id and text in that order; the first failure is reported, else `send_user_message` |
| GatewayHandlers.SendMessageParams | src-tauri/src/bin/codex_monitor_web_gateway.rs:656-665 | the parameters carry the workspace id, thread id and text unchanged |
| GatewayHandlers.RpcProxyCall | src-tauri/src/bin/codex_monitor_web_gateway.rs:672-685 | auth, then a blank method is refused; else the method and parameters are forwarded unchanged |
| GatewayHandlers.RpcResponse | src-tauri/src/bin/codex_monitor_web_gateway.rs:683-684 | a daemon error becomes a 502, a reply is wrapped as the only key `result` |
| GatewayHandlers.WsEventsAuthorize | src-tauri/src/bin/codex_monitor_web_gateway.rs:687-695 | the event socket opens whenever no API token is configured, and otherwise exactly when the token extracted from the headers or the `token` query equals it; a refusal is a 401 |
| GatewayHandlers.QueryTokenOnlyOpensSocket | src-tauri/src/bin/codex_monitor_web_gateway.rs:687-695 | the query token opens the event socket but not a REST route, which refuses with "missing API token" |
| GatewayArgs.OptionStep | src-tauri/src/bin/codex_monitor_web_gateway.rs:171-202 | an accepted option consumes itself, or itself and a value that is present |
| GatewayArgs.FlagIgnoresValue | src-tauri/src/bin/codex_monitor_web_gateway.rs:171-202 | an option consuming no value does not depend on the next argument |
| GatewayArgs.Finish | src-tauri/src/bin/codex_monitor_web_gateway.rs:205-221 | fails with the missing-token message exactly when no API token is set without `--insecure-no-auth`; with the flag the token is dropped; other fields are copied |
| GatewayArgs.ParseArgs | src-tauri/src/bin/codex_monitor_web_gateway.rs:154-222 | the argument loop returns exactly `ParseArgsSpec` |
| GatewayArgs.ScanAppend | src-tauri/src/bin/codex_monitor_web_gateway.rs:169-203 | a scan of `a + b` that gets through `a` continues on `b` from the state reached |
| GatewayArgs.ScanShift | src-tauri/src/bin/codex_monitor_web_gateway.rs:169-203 | scanning from inside `b` does not depend on a prefix before it |
| GatewayArgs.InsecureSticky | src-tauri/src/bin/codex_monitor_web_gateway.rs:169-203 | once `--insecure-no-auth` is seen, no later option clears it |
| GatewayArgs.InsecureDisablesAuth | src-tauri/src/bin/codex_monitor_web_gateway.rs:169-221 | `--insecure-no-auth` anywhere in a well-formed command line gives a configuration with no API token |
| GatewayArgs.ScanInsecureFlag | src-tauri/src/bin/codex_monitor_web_gateway.rs:196-198 | the flag only sets the insecure bit |
| GatewayArgs.MissingApiTokenRefused | src-tauri/src/bin/codex_monitor_web_gateway.rs:205-211 | no token from the option or the environment, and no insecure flag, is an error |
| GatewayArgs.UnknownOptionRefused | src-tauri/src/bin/codex_monitor_web_gateway.rs:199-201 | an unknown option is an error naming it |
| GatewayArgs.MissingValueRefused | src-tauri/src/bin/codex_monitor_web_gateway.rs:175-195 | an option needing a value at the end of the line is an error naming the option |
| GatewayArgs.BlankDaemonRefused | src-tauri/src/bin/codex_monitor_web_gateway.rs:181-187 | `--daemon` with a whitespace-only value is an error |
| GatewayArgs.HelpRequested | src-tauri/src/bin/codex_monitor_web_gateway.rs:172-174 | `--help` and `-h` stop with the usage text |
| GatewayArgs.ScanKeepsAddrTrimmed | src-tauri/src/bin/codex_monitor_web_gateway.rs:181-187 | the daemon address stays trimmed and non-empty through the loop |
| GatewayArgs.DaemonAddrTrimmed | src-tauri/src/bin/codex_monitor_web_gateway.rs:154-222 | the configured daemon address is trimmed and non-empty |
| GatewayArgs.CliApiTokenVerbatim | src-tauri/src/bin/codex_monitor_web_gateway.rs:192-195 | a final `--api-token` value is kept verbatim (untrimmed) |
| GatewayArgs.CliDaemonTokenVerbatim | src-tauri/src/bin/codex_monitor_web_gateway.rs:188-191 | a final `--daemon-token` value is kept verbatim (untrimmed) in any accepted configuration |

## Left out

- Sockets, the axum router, WebSocket plumbing and `tokio` concurrency are not modelled: `bind_listener`, `run_listener`, `handle_connection`, `ensure_server_running`, `route_request`, `handle_ws_connection`, `build_router` and `main`. Only the pure filter `is_event_notification` that the socket loop uses is modelled.
- The socket writes of `write_response` are not modelled, only its status-to-reason mapping.
- The daemon transport is not modelled: `connect_daemon_stream`, `send_daemon_request`, `authenticate_daemon` and `call_daemon_rpc`. A handler model ends in the `DaemonCall` it would make, and a response model starts from the parsed daemon reply.
- `list_workspaces`, `list_drawings`, `api_root`, `health` and the console routes are not modelled: they only forward to foreign code or return constants.
- `codex_core`, `workspaces_core` and `ensure_workspace_connected` are foreign code that is not part of this model.
- JSON text parsing (`serde_json`) is a function parameter of `ReadDaemonResponse`. JSON values are the abstract `Json.Value`, and serde's request-body deserialization is not modelled.
- `String::from_utf8_lossy` is not modelled. The request head is parsed as bytes, which is the same for valid ASCII heads.
- CompanionHttp.Decoded and CompanionHttp.DecodeComponent: the decoded bytes are the result, while the source passes them through `String::from_utf8_lossy` (web_companion.rs:514). For decoded bytes that are not valid UTF-8 the source has U+FFFD in their place: `a=%FF` gives the bytes EF BF BD there, and `[255]` here. For valid UTF-8 the two agree.
- GatewayHandlers.ListThreadsCall: axum's `Query<ListThreadsQuery>` extractor (codex_monitor_web_gateway.rs:93-98) rejects a request with no `workspaceId` or with a `limit` that is not a `u32` before the handler runs. The model starts from an extracted query: `workspaceId` is always present and `limit` has type `U32`. The extractor's rejection response is not modelled.
- CompanionHttp.NextToken: `split_whitespace` also splits at non-ASCII Unicode whitespace and `trim` also trims it; the model uses ASCII whitespace only.
- The fixed 1024-byte read buffer is not modelled: a read may deliver any number of bytes, which covers every 1024-byte schedule.
- CompanionHttp.HeaderFoldKeepsInvariant: repeated header names keep only the last value, as in the source's `HashMap` insert; that property is not stated separately.
- CompanionClient.NormalizePath: JavaScript's `toLowerCase` lowers all of Unicode, the model only ASCII letters; a non-string path (which the source turns into `''`) is not representable.
- CompanionClient.WorkspaceThreads: the sort by `updatedAt` that precedes the filter is not modelled; the filter is stated on the list as given.
- CompanionClient.CompanionState.RefreshAllThreads: per-workspace fetch failures are the empty lists passed in, as the source's `catch` returns `[]`; the fetches themselves are I/O.
- CompanionClient.CompanionState.RefreshAllThreads: the source reads `state.workspaces` before and after its `await` (web_companion.rs:1490-1502). The method assumes no other refresh changes it in between; interleaved asynchronous refreshes are not modelled.
- CompanionClient.Thread: a thread id is a string or missing. A non-string id (a number, say) is not representable, and neither is `Object.fromEntries` turning a missing workspace id into the key `"undefined"`.
- CompanionClient.FullRefresh models only the state changes of `fullRefresh`. The `isRefreshing` guard, rendering, the thread-detail fetch and the status text are UI or I/O.
- DOM rendering, `relativeTime`, the `fetch` wrapper `api`, polling timers, `createThread`, `sendMessage` and the message extraction helpers of the embedded client are not modelled: they are UI or network code.
- The web-gateway console (`web_gateway_console/app.js`) is compiled in with `include_str!` and is not part of this model.
- GatewayArgs.OptionStep: `--listen` is validated by a parameter `isSocketAddr` standing for `SocketAddr` parsing. The accepted text is kept rather than the parsed socket address's canonical form, and the parser's own error text is the fixed `ADDR_PARSE_ERROR`.
- Environment variables (`CODEX_MONITOR_DAEMON_TOKEN`, `CODEX_MONITOR_WEB_TOKEN`) are parameters of `GatewayArgs.ParseArgs`.
- GatewayArgs.CliApiTokenVerbatim: a `--api-token` option value is stored untrimmed while the environment value is normalized. Together with GatewayAuth.UntrimmedApiTokenNeverMatches, this shows that a padded command-line token refuses every request.
- GatewayDaemon.ReadDaemonResponse works on a finite sequence of line reads, each a line or a read error. The end of the sequence is the end of the stream, and the asynchronous waiting is not modelled.
