/**
  The startup sequence of the server: classify the command line, load the
  configuration, commit it to the write-once slot, and assemble the route
  table that the listener will serve.

  Reading the file and decoding JSON are not modelled; they enter as the
  functions `readFile` (`std::fs::read_to_string`) and `decode`
  (`serde_json::from_str` into a `ConfigDocument`), each `None` on failure.
 */
module Server {
  import opened Wrappers
  import opened ServerConfig

  /** The option that names a configuration file. */
  const CONFIG_OPTION: string := "--config"

  /** Why startup stops before serving. Each one ends the process. */
  datatype StartupError =
    | ConfigReadError(path: string)    // "Could not read config file"
    | ConfigParseError(path: string)   // "Could not parse config JSON"
    | UnknownOption(option: string)    // "Unknown option {}"
    | UsageError                       // "Only expected --config <filename>"

  /**
    The argument match of `main`, up to the configuration it would commit.
    `args[0]` is the program name: `[prog]` selects the defaults,
    `[prog, "--config", f]` loads file `f`, `[prog, opt, v]` with any other
    `opt` is an unknown option, and every other length is a usage error.
   */
  function Resolve(args: seq<string>, readFile: string -> Option<string>,
                   decode: string -> Option<ConfigDocument>): (r: Result<Config, StartupError>)
    ensures |args| == 1 ==> r == Ok(DefaultConfig())
    ensures |args| == 3 && args[1] != CONFIG_OPTION ==> r == Err(UnknownOption(args[1]))
    ensures |args| == 3 && args[1] == CONFIG_OPTION ==>
              (r == Err(ConfigReadError(args[2])) <==> readFile(args[2]).None?)
    ensures |args| == 3 && args[1] == CONFIG_OPTION && readFile(args[2]).Some? ==>
              (r == Err(ConfigParseError(args[2])) <==> decode(readFile(args[2]).value).None?)
    ensures |args| == 3 && args[1] == CONFIG_OPTION && readFile(args[2]).Some?
            && decode(readFile(args[2]).value).Some? ==>
              r == Ok(FromDocument(decode(readFile(args[2]).value).value))
    ensures |args| != 1 && |args| != 3 ==> r == Err(UsageError)
  {
    if |args| == 3 then
      var option, value := args[1], args[2];
      if option == CONFIG_OPTION then
        match readFile(value)
        case None => Err(ConfigReadError(value))
        case Some(text) =>
          match decode(text)
          case None => Err(ConfigParseError(value))
          case Some(doc) => Ok(FromDocument(doc))
      else
        Err(UnknownOption(option))
    else if |args| == 1 then
      Ok(DefaultConfig())
    else
      Err(UsageError)
  }

  /** A request handler of the route table. */
  datatype Handler =
    | Root      // `root`: the greeting page
    | Debug     // `debug`: a dump of the committed configuration
    | NotFound  // `not_found`: the fallback

  /** The route table: a `GET` route per path, and the fallback for everything else. */
  datatype Router = Router(routes: seq<(string, Handler)>, fallback: Handler)

  /** The body of a response. */
  datatype Body =
    | Html(text: string)
    | PlainText(text: string)
    | ConfigDump(config: Option<Config>)  // `<pre>{:#?}</pre>` of the slot; formatting not modelled

  datatype Response = Response(status: int, body: Body)

  /** The paths the table routes explicitly. */
  function Paths(router: Router): (paths: set<string>) {
    set i | 0 <= i < |router.routes| :: router.routes[i].0
  }

  /**
    The table `main` assembles: `/` always, `/debug` exactly when the
    configuration enables diagnostics, and `not_found` as the fallback.
   */
  function BuildRouter(config: Config): (router: Router)
    ensures "/" in Paths(router)
    ensures "/debug" in Paths(router) <==> config.debug
    ensures Paths(router) <= {"/", "/debug"}
    ensures router.fallback == NotFound
  {
    var base := [("/", Root)];
    var routes := if config.debug then base + [("/debug", Debug)] else base;
    assert routes[0].0 == "/";
    assert config.debug ==> routes[1].0 == "/debug";
    Router(routes, NotFound)
  }

  /** The handler for a `GET` of `path`: the route for that path, else the fallback. */
  function Lookup(routes: seq<(string, Handler)>, fallback: Handler, path: string): (h: Handler)
    ensures (forall i :: 0 <= i < |routes| ==> routes[i].0 != path) ==> h == fallback
    ensures (exists i :: 0 <= i < |routes| && routes[i].0 == path) ==>
              exists i :: 0 <= i < |routes| && routes[i].0 == path && h == routes[i].1
  {
    if |routes| == 0 then fallback
    else if routes[0].0 == path then routes[0].1
    else
      var h := Lookup(routes[1..], fallback, path);
      assert forall i :: 0 < i < |routes| ==> routes[i] == routes[1..][i - 1];
      h
  }

  /**
    What each handler answers: `not_found` is the only 404, `root` is the
    greeting page, and `debug` dumps the committed slot.
   */
  function Handle(h: Handler, slot: Option<Config>): (r: Response)
    ensures r.status == 200 || r.status == 404
    ensures r.status == 404 <==> h == NotFound
    ensures r.body.ConfigDump? <==> h == Debug
    ensures r.body.ConfigDump? ==> r.body.config == slot
  {
    match h
    case Root => Response(200, Html("Hello, notetakers!"))
    case Debug => Response(200, ConfigDump(slot))
    case NotFound => Response(404, PlainText("Not found"))
  }

  /**
    Serving one `GET` request for `path`: a path the table routes is
    answered by the handler of one of its routes, any other path by the
    fallback.
   */
  function Dispatch(router: Router, slot: Option<Config>, path: string): (r: Response)
    ensures (forall i :: 0 <= i < |router.routes| ==> router.routes[i].0 != path) ==>
              r == Handle(router.fallback, slot)
    ensures (exists i :: 0 <= i < |router.routes| && router.routes[i].0 == path) ==>
              exists i :: 0 <= i < |router.routes| && router.routes[i].0 == path
                          && r == Handle(router.routes[i].1, slot)
  {
    Handle(Lookup(router.routes, router.fallback, path), slot)
  }

  /** What startup leaves behind: the slot, and either the router to serve or the error that stopped it. */
  datatype Startup = Startup(slot: Option<Config>, outcome: Result<Router, StartupError>)

  /**
    `main` up to binding the listener: resolve the configuration from the
    arguments, commit it with `get_or_init`, read the slot back (the
    `expect` there cannot fail), and build the route table from the
    configuration the slot holds. An error commits nothing; a slot that
    was already filled keeps its value, and the router is built from that
    value rather than from the arguments.
   */
  function Start(args: seq<string>, readFile: string -> Option<string>,
                 decode: string -> Option<ConfigDocument>, slot: Option<Config>): (s: Startup)
    ensures s.outcome.Err? <==> Resolve(args, readFile, decode).Err?
    ensures s.outcome.Err? ==> s.slot == slot && s.outcome.error == Resolve(args, readFile, decode).error
    ensures s.outcome.Ok? ==> s.slot.Some? && s.outcome.value == BuildRouter(s.slot.value)
    ensures slot.Some? ==> s.slot == slot
    ensures slot.None? && s.outcome.Ok? ==> s.slot == Some(Resolve(args, readFile, decode).value)
  {
    match Resolve(args, readFile, decode)
    case Err(e) => Startup(slot, Err(e))
    case Ok(config) =>
      var (committed, _) := GetOrInit(slot, config);
      var current := committed.value;
      Startup(committed, Ok(BuildRouter(current)))
  }

  /** `GET /` is always the greeting page. */
  lemma RootAlwaysServed(config: Config, slot: Option<Config>)
    ensures Dispatch(BuildRouter(config), slot, "/") == Response(200, Html("Hello, notetakers!"))
  {
    var r := BuildRouter(config);
    assert r.routes[0] == ("/", Root);
  }

  /**
    `GET /debug` answers 200 with a dump of the slot when diagnostics are
    enabled, and falls through to the 404 fallback when they are not.
   */
  lemma DebugRouteIffEnabled(config: Config, slot: Option<Config>)
    ensures Dispatch(BuildRouter(config), slot, "/debug").status == 200 <==> config.debug
    ensures config.debug ==> Dispatch(BuildRouter(config), slot, "/debug") == Response(200, ConfigDump(slot))
    ensures !config.debug ==> Dispatch(BuildRouter(config), slot, "/debug") == Response(404, PlainText("Not found"))
  {
    var r := BuildRouter(config);
    assert r.routes[0].0 == "/";
    if config.debug {
      assert r.routes[1] == ("/debug", Debug);
      assert Lookup(r.routes[1..], r.fallback, "/debug") == Debug;
    }
  }

  /** Every other path is answered by the fallback with 404 "Not found". */
  lemma OtherPathsNotFound(config: Config, slot: Option<Config>, path: string)
    requires path != "/" && path != "/debug"
    ensures Dispatch(BuildRouter(config), slot, path) == Response(404, PlainText("Not found"))
  {
    var r := BuildRouter(config);
    assert forall i :: 0 <= i < |r.routes| ==> r.routes[i].0 in Paths(r);
  }

  /**
    End to end: after a successful startup from an empty slot with
    `[prog]`, the server listens on 0.0.0.0:8888 and `GET /debug` is 404.
   */
  lemma DefaultStartup(prog: string, readFile: string -> Option<string>,
                       decode: string -> Option<ConfigDocument>)
    ensures Start([prog], readFile, decode, None) ==
              Startup(Some(DefaultConfig()), Ok(BuildRouter(DefaultConfig())))
    ensures Dispatch(BuildRouter(DefaultConfig()), Some(DefaultConfig()), "/debug").status == 404
  {
    DebugRouteIffEnabled(DefaultConfig(), Some(DefaultConfig()));
  }

  /**
    A second startup after a successful first one is a no-op on the slot:
    if it succeeds, it serves the first configuration, whatever its own
    arguments say; if it fails, the slot still holds the first one.
   */
  lemma RestartKeepsFirstConfig(args1: seq<string>, args2: seq<string>,
                                readFile: string -> Option<string>,
                                decode: string -> Option<ConfigDocument>)
    requires Start(args1, readFile, decode, None).outcome.Ok?
    ensures Start(args2, readFile, decode, Start(args1, readFile, decode, None).slot).slot
            == Some(Resolve(args1, readFile, decode).value)
  {
  }

  /**
    Any command line other than `[prog]` and `[prog, "--config", f]`
    stops startup before anything is committed: three arguments with
    another option are an unknown option, every other length a usage error.
   */
  lemma RejectedArgumentsCommitNothing(args: seq<string>, readFile: string -> Option<string>,
                                       decode: string -> Option<ConfigDocument>, slot: Option<Config>)
    requires |args| != 1 && !(|args| == 3 && args[1] == CONFIG_OPTION)
    ensures Start(args, readFile, decode, slot) ==
              Startup(slot, Err(if |args| == 3 then UnknownOption(args[1]) else UsageError))
  {
  }

  /**
    `[prog, "--config", f]`: a file that cannot be read, or whose contents
    do not decode, stops startup with the matching error and commits
    nothing. Otherwise an empty slot takes the decoded document with
    defaults for omitted fields, and `GET /debug` is served exactly when
    the document turns diagnostics on.
   */
  lemma ConfigFileStartup(prog: string, path: string, readFile: string -> Option<string>,
                          decode: string -> Option<ConfigDocument>, slot: Option<Config>)
    ensures readFile(path).None? ==>
              Start([prog, CONFIG_OPTION, path], readFile, decode, slot) == Startup(slot, Err(ConfigReadError(path)))
    ensures readFile(path).Some? && decode(readFile(path).value).None? ==>
              Start([prog, CONFIG_OPTION, path], readFile, decode, slot) == Startup(slot, Err(ConfigParseError(path)))
    ensures readFile(path).Some? && decode(readFile(path).value).Some? && slot.None? ==>
              var doc := decode(readFile(path).value).value;
              var s := Start([prog, CONFIG_OPTION, path], readFile, decode, slot);
              && s.slot == Some(FromDocument(doc))
              && s.outcome == Ok(BuildRouter(FromDocument(doc)))
              && (Dispatch(s.outcome.value, s.slot, "/debug").status == 200 <==> doc.debug == Some(true))
  {
    var args := [prog, CONFIG_OPTION, path];
    if readFile(path).Some? && decode(readFile(path).value).Some? && slot.None? {
      var config := FromDocument(decode(readFile(path).value).value);
      DebugRouteIffEnabled(config, Some(config));
    }
  }
}
