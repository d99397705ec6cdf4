/**
 * Command-line parsing of the web gateway (`parse_args`). The arguments are
 * those after the program name; the two environment variables are passed in,
 * and so is the standard library's socket-address parser, as a predicate
 * telling which texts it accepts.
 */
module GatewayArgs {
  import opened Base
  import opened Text
  import opened GatewayAuth

  const DEFAULT_WEB_LISTEN_ADDR: string := "127.0.0.1:8741"
  const DEFAULT_DAEMON_ADDR: string := "127.0.0.1:4732"

  const USAGE: string :=
    "USAGE:\n  codex-monitor-web-gateway [--listen <addr>] [--daemon <addr>] [--daemon-token <token>] [--api-token <token> | --insecure-no-auth]\n\n"
    + "OPTIONS:\n  --listen <addr>          Bind address for browser clients (default: 127.0.0.1:8741)\n"
    + "  --daemon <addr>          codex-monitor-daemon address (default: 127.0.0.1:4732)\n"
    + "  --daemon-token <token>   Token used for daemon auth (or CODEX_MONITOR_DAEMON_TOKEN)\n"
    + "  --api-token <token>      Token required from browser clients (or CODEX_MONITOR_WEB_TOKEN)\n"
    + "  --insecure-no-auth       Disable browser auth (LAN dev only)\n"
    + "  -h, --help               Show this help\n"

  const MISSING_API_TOKEN: string :=
    "Missing --api-token (or set CODEX_MONITOR_WEB_TOKEN). Use --insecure-no-auth for local dev only."
  const EMPTY_DAEMON: string := "--daemon requires a non-empty value"

  /** What `SocketAddr::from_str` reports for text it rejects. */
  const ADDR_PARSE_ERROR: string := "invalid socket address syntax"

  /** `GatewayConfig`; the listen address is kept as the text that parsed. */
  datatype GatewayConfig = GatewayConfig(listen: string, daemonAddr: string, daemonToken: Option<string>, apiToken: Option<string>)

  /** The variables the loop of `parse_args` updates. */
  datatype ArgsState = ArgsState(listen: string, daemonAddr: string, daemonToken: Option<string>, apiToken: Option<string>, insecureNoAuth: bool)

  /** The options that take a value. */
  predicate TakesValue(arg: string) {
    arg == "--listen" || arg == "--daemon" || arg == "--daemon-token" || arg == "--api-token"
  }

  /** Every option `parse_args` knows. */
  predicate KnownOption(arg: string) {
    arg == "-h" || arg == "--help" || TakesValue(arg) || arg == "--insecure-no-auth"
  }

  /** Why `parse_args` gave up; `Message` is the text it returns. */
  datatype ArgError =
    | ShowUsage
    | MissingValue(option: string)
    | InvalidListen(value: string)
    | EmptyDaemon
    | UnknownOption(arg: string)
    | MissingApiToken
  {
    function Message(): string {
      match this
      case ShowUsage => USAGE
      case MissingValue(option) => option + " requires a value"
      case InvalidListen(value) => "invalid listen address `" + value + "`: " + ADDR_PARSE_ERROR
      case EmptyDaemon => EMPTY_DAEMON
      case UnknownOption(arg) => "unknown option: " + arg
      case MissingApiToken => MISSING_API_TOKEN
    }
  }

  /** The state before any argument is read: defaults, and the environment tokens trimmed (blank ones dropped). */
  function Initial(envDaemonToken: Option<string>, envWebToken: Option<string>): ArgsState {
    ArgsState(DEFAULT_WEB_LISTEN_ADDR, DEFAULT_DAEMON_ADDR, NormalizeToken(envDaemonToken), NormalizeToken(envWebToken), false)
  }

  /** The argument after `args[i]`, if there is one: the value an option would take. */
  function NextArg(args: seq<string>, i: nat): Option<string> {
    if i + 1 < |args| then Some(args[i + 1]) else None
  }

  /**
   * The effect of the option `arg`, followed by `value` when another
   * argument follows it: how many arguments it consumes and the new state,
   * or the error it raises.
   */
  function OptionStep(arg: string, value: Option<string>, st: ArgsState, isSocketAddr: string -> bool): (r: Result<(nat, ArgsState), ArgError>)
    ensures r.Ok? ==> r.value.0 == 1 || (r.value.0 == 2 && value.Some?)
  {
    if arg == "-h" || arg == "--help" then Err(ShowUsage)
    else if arg == "--insecure-no-auth" then Ok((1, st.(insecureNoAuth := true)))
    else if !TakesValue(arg) then Err(UnknownOption(arg))
    else if value.None? then Err(MissingValue(arg))
    else if arg == "--listen" then
      if isSocketAddr(value.value) then Ok((2, st.(listen := value.value))) else Err(InvalidListen(value.value))
    else if arg == "--daemon" then
      var addr := Trim(value.value, IsWhitespace);
      if addr == [] then Err(EmptyDaemon) else Ok((2, st.(daemonAddr := addr)))
    else if arg == "--daemon-token" then Ok((2, st.(daemonToken := Some(value.value))))
    else Ok((2, st.(apiToken := Some(value.value))))
  }

  /** An option that consumes no value does not look at the next argument. */
  lemma FlagIgnoresValue(arg: string, v1: Option<string>, v2: Option<string>, st: ArgsState, isSocketAddr: string -> bool)
    requires OptionStep(arg, v1, st, isSocketAddr).Ok? && OptionStep(arg, v1, st, isSocketAddr).value.0 == 1
    ensures OptionStep(arg, v2, st, isSocketAddr) == OptionStep(arg, v1, st, isSocketAddr)
  {
  }

  /** The loop of `parse_args` from argument `i` on. */
  function Scan(args: seq<string>, i: nat, st: ArgsState, isSocketAddr: string -> bool): Result<ArgsState, ArgError>
    requires i <= |args|
    decreases |args| - i
  {
    if i == |args| then Ok(st)
    else match OptionStep(args[i], NextArg(args, i), st, isSocketAddr)
      case Err(e) => Err(e)
      case Ok((width, next)) => Scan(args, i + width, next, isSocketAddr)
  }

  /** After the loop: browser authentication is required unless it was switched off. */
  function Finish(st: ArgsState): (r: Result<GatewayConfig, ArgError>)
    ensures r.Ok? ==> (r.value.apiToken.None? <==> st.insecureNoAuth)
    ensures r.Err? <==> !st.insecureNoAuth && st.apiToken.None?
    ensures r.Err? ==> r.error == MissingApiToken
    ensures r.Ok? ==> r.value.listen == st.listen && r.value.daemonAddr == st.daemonAddr && r.value.daemonToken == st.daemonToken
    ensures r.Ok? && !st.insecureNoAuth ==> r.value.apiToken == st.apiToken
  {
    if !st.insecureNoAuth then
      if st.apiToken.None? then Err(MissingApiToken)
      else Ok(GatewayConfig(st.listen, st.daemonAddr, st.daemonToken, st.apiToken))
    else Ok(GatewayConfig(st.listen, st.daemonAddr, st.daemonToken, None))
  }

  /** `parse_args` as a function of its inputs. */
  function ParseArgsSpec(args: seq<string>, envDaemonToken: Option<string>, envWebToken: Option<string>, isSocketAddr: string -> bool): Result<GatewayConfig, ArgError> {
    match Scan(args, 0, Initial(envDaemonToken, envWebToken), isSocketAddr)
    case Err(e) => Err(e)
    case Ok(st) => Finish(st)
  }

  /** `parse_args`. */
  method ParseArgs(args: seq<string>, envDaemonToken: Option<string>, envWebToken: Option<string>, isSocketAddr: string -> bool)
      returns (r: Result<GatewayConfig, ArgError>)
    ensures r == ParseArgsSpec(args, envDaemonToken, envWebToken, isSocketAddr)
  {
    var listen := DEFAULT_WEB_LISTEN_ADDR;
    var daemonAddr := DEFAULT_DAEMON_ADDR;
    var daemonToken := NormalizeToken(envDaemonToken);
    var apiToken := NormalizeToken(envWebToken);
    var insecureNoAuth := false;
    ghost var start := Initial(envDaemonToken, envWebToken);
    var i := 0;
    while i < |args|
      invariant i <= |args|
      invariant Scan(args, i, ArgsState(listen, daemonAddr, daemonToken, apiToken, insecureNoAuth), isSocketAddr)
                == Scan(args, 0, start, isSocketAddr)
      decreases |args| - i
    {
      ghost var before := ArgsState(listen, daemonAddr, daemonToken, apiToken, insecureNoAuth);
      ghost var step := OptionStep(args[i], NextArg(args, i), before, isSocketAddr);
      ghost var at := i;
      var arg := args[i];
      i := i + 1;
      if arg == "-h" || arg == "--help" {
        return Err(ShowUsage);
      } else if arg == "--listen" {
        if i == |args| {
          return Err(MissingValue(arg));
        }
        var value := args[i];
        i := i + 1;
        if !isSocketAddr(value) {
          return Err(InvalidListen(value));
        }
        listen := value;
      } else if arg == "--daemon" {
        if i == |args| {
          return Err(MissingValue(arg));
        }
        var value := args[i];
        i := i + 1;
        daemonAddr := Trim(value, IsWhitespace);
        if daemonAddr == [] {
          return Err(EmptyDaemon);
        }
      } else if arg == "--daemon-token" {
        if i == |args| {
          return Err(MissingValue(arg));
        }
        daemonToken := Some(args[i]);
        i := i + 1;
      } else if arg == "--api-token" {
        if i == |args| {
          return Err(MissingValue(arg));
        }
        apiToken := Some(args[i]);
        i := i + 1;
      } else if arg == "--insecure-no-auth" {
        insecureNoAuth := true;
      } else {
        return Err(UnknownOption(arg));
      }
      assert step == Ok((i - at, ArgsState(listen, daemonAddr, daemonToken, apiToken, insecureNoAuth)));
    }
    if !insecureNoAuth {
      if apiToken.None? {
        return Err(MissingApiToken);
      }
    } else {
      apiToken := None;
    }
    return Ok(GatewayConfig(listen, daemonAddr, daemonToken, apiToken));
  }

  /**
   * Arguments are read left to right, one option at a time: once a prefix has
   * been read without error, the rest is read from the state it left.
   */
  lemma {:induction false} ScanAppend(a: seq<string>, b: seq<string>, i: nat, st: ArgsState, isSocketAddr: string -> bool)
    requires i <= |a|
    requires Scan(a, i, st, isSocketAddr).Ok?
    ensures Scan(a + b, i, st, isSocketAddr) == Scan(b, 0, Scan(a, i, st, isSocketAddr).value, isSocketAddr)
    decreases |a| - i
  {
    if i == |a| {
      ScanShift(a, b, 0, st, isSocketAddr);
    } else {
      var step := OptionStep(a[i], NextArg(a, i), st, isSocketAddr);
      assert (a + b)[i] == a[i];
      if step.value.0 == 2 {
        assert NextArg(a + b, i) == NextArg(a, i) by {
          assert (a + b)[i + 1] == a[i + 1];
        }
      } else {
        FlagIgnoresValue(a[i], NextArg(a, i), NextArg(a + b, i), st, isSocketAddr);
      }
      ScanAppend(a, b, i + step.value.0, step.value.1, isSocketAddr);
    }
  }

  /** Reading `a + b` from inside `b` is reading `b` alone. */
  lemma {:induction false} ScanShift(a: seq<string>, b: seq<string>, k: nat, st: ArgsState, isSocketAddr: string -> bool)
    requires k <= |b|
    ensures Scan(a + b, |a| + k, st, isSocketAddr) == Scan(b, k, st, isSocketAddr)
    decreases |b| - k
  {
    if k < |b| {
      assert (a + b)[|a| + k] == b[k];
      assert NextArg(a + b, |a| + k) == NextArg(b, k) by {
        if k + 1 < |b| {
          assert (a + b)[|a| + k + 1] == b[k + 1];
        }
      }
      match OptionStep(b[k], NextArg(b, k), st, isSocketAddr)
      case Err(_) =>
      case Ok((width, next)) => ScanShift(a, b, k + width, next, isSocketAddr);
    }
  }

  /** Once set, `--insecure-no-auth` stays set: no later option clears it. */
  lemma {:induction false} InsecureSticky(args: seq<string>, i: nat, st: ArgsState, isSocketAddr: string -> bool)
    requires i <= |args|
    requires st.insecureNoAuth
    requires Scan(args, i, st, isSocketAddr).Ok?
    ensures Scan(args, i, st, isSocketAddr).value.insecureNoAuth
    decreases |args| - i
  {
    if i < |args| {
      var (width, next) := OptionStep(args[i], NextArg(args, i), st, isSocketAddr).value;
      InsecureSticky(args, i + width, next, isSocketAddr);
    }
  }

  /**
   * `--insecure-no-auth` anywhere among the options disables browser
   * authentication, whatever API token the environment or `--api-token` gives.
   */
  lemma InsecureDisablesAuth(a: seq<string>, b: seq<string>, envDaemonToken: Option<string>, envWebToken: Option<string>, isSocketAddr: string -> bool)
    requires Scan(a, 0, Initial(envDaemonToken, envWebToken), isSocketAddr).Ok?
    requires Scan(b, 0, Scan(a, 0, Initial(envDaemonToken, envWebToken), isSocketAddr).value.(insecureNoAuth := true), isSocketAddr).Ok?
    ensures var r := ParseArgsSpec(a + ["--insecure-no-auth"] + b, envDaemonToken, envWebToken, isSocketAddr);
            r.Ok? && r.value.apiToken.None?
  {
    var init := Initial(envDaemonToken, envWebToken);
    var sa := Scan(a, 0, init, isSocketAddr).value;
    ScanAppend(a, ["--insecure-no-auth"] + b, 0, init, isSocketAddr);
    assert a + ["--insecure-no-auth"] + b == a + (["--insecure-no-auth"] + b);
    ScanInsecureFlag(b, sa, isSocketAddr);
    InsecureSticky(b, 0, sa.(insecureNoAuth := true), isSocketAddr);
  }

  /** Reading `--insecure-no-auth` sets the flag and goes on with the next argument. */
  lemma ScanInsecureFlag(b: seq<string>, st: ArgsState, isSocketAddr: string -> bool)
    ensures Scan(["--insecure-no-auth"] + b, 0, st, isSocketAddr) == Scan(b, 0, st.(insecureNoAuth := true), isSocketAddr)
  {
    assert (["--insecure-no-auth"] + b)[0] == "--insecure-no-auth";
    ScanShift(["--insecure-no-auth"], b, 0, st.(insecureNoAuth := true), isSocketAddr);
  }

  /** Without `--insecure-no-auth`, a run with no API token from either source is refused. */
  lemma MissingApiTokenRefused(args: seq<string>, envDaemonToken: Option<string>, envWebToken: Option<string>, isSocketAddr: string -> bool)
    requires Scan(args, 0, Initial(envDaemonToken, envWebToken), isSocketAddr).Ok?
    requires !Scan(args, 0, Initial(envDaemonToken, envWebToken), isSocketAddr).value.insecureNoAuth
    requires Scan(args, 0, Initial(envDaemonToken, envWebToken), isSocketAddr).value.apiToken.None?
    ensures ParseArgsSpec(args, envDaemonToken, envWebToken, isSocketAddr) == Err(MissingApiToken)
  {
  }

  /** An option the gateway does not know stops parsing with an error naming it. */
  lemma UnknownOptionRefused(a: seq<string>, x: string, b: seq<string>, envDaemonToken: Option<string>, envWebToken: Option<string>, isSocketAddr: string -> bool)
    requires Scan(a, 0, Initial(envDaemonToken, envWebToken), isSocketAddr).Ok?
    requires !KnownOption(x)
    ensures ParseArgsSpec(a + [x] + b, envDaemonToken, envWebToken, isSocketAddr) == Err(UnknownOption(x))
  {
    var init := Initial(envDaemonToken, envWebToken);
    ScanAppend(a, [x] + b, 0, init, isSocketAddr);
    assert a + [x] + b == a + ([x] + b);
  }

  /** An option that takes a value but comes last is an error naming it. */
  lemma MissingValueRefused(a: seq<string>, option: string, envDaemonToken: Option<string>, envWebToken: Option<string>, isSocketAddr: string -> bool)
    requires Scan(a, 0, Initial(envDaemonToken, envWebToken), isSocketAddr).Ok?
    requires TakesValue(option)
    ensures ParseArgsSpec(a + [option], envDaemonToken, envWebToken, isSocketAddr) == Err(MissingValue(option))
  {
    ScanAppend(a, [option], 0, Initial(envDaemonToken, envWebToken), isSocketAddr);
  }

  /** `--daemon` with a value that is blank after trimming is an error. */
  lemma BlankDaemonRefused(a: seq<string>, value: string, b: seq<string>, envDaemonToken: Option<string>, envWebToken: Option<string>, isSocketAddr: string -> bool)
    requires Scan(a, 0, Initial(envDaemonToken, envWebToken), isSocketAddr).Ok?
    requires IsBlank(value, IsWhitespace)
    ensures ParseArgsSpec(a + ["--daemon", value] + b, envDaemonToken, envWebToken, isSocketAddr) == Err(EmptyDaemon)
  {
    ScanAppend(a, ["--daemon", value] + b, 0, Initial(envDaemonToken, envWebToken), isSocketAddr);
    assert a + ["--daemon", value] + b == a + (["--daemon", value] + b);
  }

  /** `-h` or `--help` among the options answers with the usage text. */
  lemma HelpRequested(a: seq<string>, b: seq<string>, envDaemonToken: Option<string>, envWebToken: Option<string>, isSocketAddr: string -> bool)
    requires Scan(a, 0, Initial(envDaemonToken, envWebToken), isSocketAddr).Ok?
    ensures ParseArgsSpec(a + ["--help"] + b, envDaemonToken, envWebToken, isSocketAddr) == Err(ShowUsage)
    ensures ParseArgsSpec(a + ["-h"] + b, envDaemonToken, envWebToken, isSocketAddr) == Err(ShowUsage)
  {
    ScanAppend(a, ["--help"] + b, 0, Initial(envDaemonToken, envWebToken), isSocketAddr);
    assert a + ["--help"] + b == a + (["--help"] + b);
    ScanAppend(a, ["-h"] + b, 0, Initial(envDaemonToken, envWebToken), isSocketAddr);
    assert a + ["-h"] + b == a + (["-h"] + b);
  }

  /** The daemon address is non-empty and has no surrounding whitespace. */
  predicate AddrTrimmed(st: ArgsState) {
    st.daemonAddr != [] && !IsWhitespace(st.daemonAddr[0]) && !IsWhitespace(st.daemonAddr[|st.daemonAddr| - 1])
  }

  lemma {:induction false} ScanKeepsAddrTrimmed(args: seq<string>, i: nat, st: ArgsState, isSocketAddr: string -> bool)
    requires i <= |args|
    requires AddrTrimmed(st)
    requires Scan(args, i, st, isSocketAddr).Ok?
    ensures AddrTrimmed(Scan(args, i, st, isSocketAddr).value)
    decreases |args| - i
  {
    if i < |args| {
      var (width, next) := OptionStep(args[i], NextArg(args, i), st, isSocketAddr).value;
      ScanKeepsAddrTrimmed(args, i + width, next, isSocketAddr);
    }
  }

  /** The daemon address of every accepted configuration is non-empty and trimmed. */
  lemma DaemonAddrTrimmed(args: seq<string>, envDaemonToken: Option<string>, envWebToken: Option<string>, isSocketAddr: string -> bool)
    requires ParseArgsSpec(args, envDaemonToken, envWebToken, isSocketAddr).Ok?
    ensures var addr := ParseArgsSpec(args, envDaemonToken, envWebToken, isSocketAddr).value.daemonAddr;
            addr != [] && !IsWhitespace(addr[0]) && !IsWhitespace(addr[|addr| - 1])
  {
    var init := Initial(envDaemonToken, envWebToken);
    assert AddrTrimmed(init) by {
      assert DEFAULT_DAEMON_ADDR[0] == '1' && DEFAULT_DAEMON_ADDR[|DEFAULT_DAEMON_ADDR| - 1] == '2';
    }
    ScanKeepsAddrTrimmed(args, 0, init, isSocketAddr);
  }

  /** `--api-token` keeps its value untrimmed, and the last one given wins. */
  lemma CliApiTokenVerbatim(a: seq<string>, token: string, envDaemonToken: Option<string>, envWebToken: Option<string>, isSocketAddr: string -> bool)
    requires Scan(a, 0, Initial(envDaemonToken, envWebToken), isSocketAddr).Ok?
    requires !Scan(a, 0, Initial(envDaemonToken, envWebToken), isSocketAddr).value.insecureNoAuth
    ensures var r := ParseArgsSpec(a + ["--api-token", token], envDaemonToken, envWebToken, isSocketAddr);
            r.Ok? && r.value.apiToken == Some(token)
  {
    var init := Initial(envDaemonToken, envWebToken);
    ScanAppend(a, ["--api-token", token], 0, init, isSocketAddr);
  }

  /** `--daemon-token` keeps its value untrimmed, and the last one given wins. */
  lemma CliDaemonTokenVerbatim(a: seq<string>, token: string, envDaemonToken: Option<string>, envWebToken: Option<string>, isSocketAddr: string -> bool)
    requires ParseArgsSpec(a, envDaemonToken, envWebToken, isSocketAddr).Ok?
    ensures var r := ParseArgsSpec(a + ["--daemon-token", token], envDaemonToken, envWebToken, isSocketAddr);
            r.Ok? && r.value.daemonToken == Some(token)
  {
    var init := Initial(envDaemonToken, envWebToken);
    ScanAppend(a, ["--daemon-token", token], 0, init, isSocketAddr);
  }
}
