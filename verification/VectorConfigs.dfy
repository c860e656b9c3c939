/**
 The configuration generated for the Vector ingest service (`update_vector_config` with
 a clean start): sources, transforms, sinks and the routes between them.
 */
module VectorConfigs {
  const HTTP_INPUT := "http_input"
  const INTERNAL_INPUT := "vector_internal_logs"
  const REMAP := "ip_addr_remap"
  const ROUTER := "http_router"
  const SINK_PREFIX := "sink-"

  datatype Stream = Stream(table: string, preset: string, ingestKey: string, url: string, database: string)

  datatype Sink =
    | Console(inputs: seq<string>)
    | ClickHouse(inputs: seq<string>, table: string, url: string, database: string)

  datatype Transform = Remap(inputs: seq<string>) | Route(inputs: seq<string>, routes: map<string, string>)

  datatype Config = Config(sources: set<string>, transforms: map<string, Transform>, sinks: map<string, Sink>)

  predicate IsInternal(s: Stream) {
    s.preset != "" && s.preset[0] == '_'
  }

  function Dashed(table: string): (r: string)
    ensures |r| == |table|
  {
    if table == "" then "" else [if table[0] == '_' || table[0] == '.' then '-' else table[0]] + Dashed(table[1..])
  }

  function RouteKey(s: Stream): string { Dashed(s.table) }

  function SinkKey(s: Stream): string { SINK_PREFIX + RouteKey(s) }

  function Condition(s: Stream): string {
    "._path_ == \"/ingest/" + s.ingestKey + "\""
  }

  function SinkOf(s: Stream, router: string): Sink {
    ClickHouse([if IsInternal(s) then INTERNAL_INPUT else router + "." + RouteKey(s)], s.table, s.url, s.database)
  }

  const DEFAULTS := Config(
    {INTERNAL_INPUT, HTTP_INPUT}, map[REMAP := Remap([HTTP_INPUT])],
    map["console" := Console([HTTP_INPUT, INTERNAL_INPUT])])

  // ----- the result as a function of the streams -----

  function Sinks(streams: seq<Stream>, router: string): map<string, Sink> {
    if streams == [] then DEFAULTS.sinks
    else
      var s := streams[|streams| - 1];
      Sinks(streams[..|streams| - 1], router)[SinkKey(s) := SinkOf(s, router)]
  }

  function Routes(streams: seq<Stream>): map<string, string> {
    if streams == [] then map[]
    else
      var s := streams[|streams| - 1];
      var before := Routes(streams[..|streams| - 1]);
      if IsInternal(s) then before else before[RouteKey(s) := Condition(s)]
  }

  function Generated(streams: seq<Stream>, router: string): Config {
    Config(DEFAULTS.sources,
           DEFAULTS.transforms[router := Route([REMAP], Routes(streams))],
           Sinks(streams, router))
  }

  // ----- integrity -----

  /** An input names a source, a transform, or a route of the router. */
  ghost predicate Exists(c: Config, input: string) {
    input in c.sources || input in c.transforms
    || exists t, route :: t in c.transforms && c.transforms[t].Route? && route in c.transforms[t].routes
                           && input == t + "." + route
  }

  ghost predicate Integrity(c: Config) {
    (forall k, i :: k in c.sinks && i in c.sinks[k].inputs ==> Exists(c, i))
    && forall k, i :: k in c.transforms && i in c.transforms[k].inputs ==> Exists(c, i)
  }

  /** The positions of the last stream, and of the last routed stream, with a route key. */
  predicate LastWith(streams: seq<Stream>, i: nat, routedOnly: bool) {
    i < |streams| && (routedOnly ==> !IsInternal(streams[i]))
    && forall j :: i < j < |streams| && (routedOnly ==> !IsInternal(streams[j])) ==>
                     RouteKey(streams[j]) != RouteKey(streams[i])
  }

  lemma LastWithFront(streams: seq<Stream>, i: nat, routedOnly: bool)
    requires LastWith(streams, i, routedOnly) && i < |streams| - 1
    ensures LastWith(streams[..|streams| - 1], i, routedOnly)
    ensures (routedOnly && IsInternal(streams[|streams| - 1]))
            || RouteKey(streams[|streams| - 1]) != RouteKey(streams[i])
  {
  }

  /** Every routed stream's key has a route. */
  lemma {:induction false} RouteExists(streams: seq<Stream>, i: nat)
    requires i < |streams| && !IsInternal(streams[i])
    ensures RouteKey(streams[i]) in Routes(streams)
  {
    if i < |streams| - 1 {
      RouteExists(streams[..|streams| - 1], i);
    }
  }

  /** A route belongs to the last routed stream with its key. */
  lemma {:induction false} RouteAt(streams: seq<Stream>, i: nat)
    requires LastWith(streams, i, true)
    ensures RouteKey(streams[i]) in Routes(streams) && Routes(streams)[RouteKey(streams[i])] == Condition(streams[i])
  {
    if i < |streams| - 1 {
      LastWithFront(streams, i, true);
      RouteAt(streams[..|streams| - 1], i);
    }
  }

  lemma SinkKeyIsInjective(s: Stream, t: Stream)
    ensures SinkKey(s) == SinkKey(t) <==> RouteKey(s) == RouteKey(t)
    ensures SinkKey(s) != "console"
  {
    assert SinkKey(s)[|SINK_PREFIX|..] == RouteKey(s) && SinkKey(t)[|SINK_PREFIX|..] == RouteKey(t);
    assert SinkKey(s)[0] == 's' && "console"[0] == 'c';
  }

  lemma {:induction false} ConsoleStays(streams: seq<Stream>, router: string)
    ensures "console" in Sinks(streams, router)
            && Sinks(streams, router)["console"] == Console([HTTP_INPUT, INTERNAL_INPUT])
  {
    if streams != [] {
      ConsoleStays(streams[..|streams| - 1], router);
      SinkKeyIsInjective(streams[|streams| - 1], streams[|streams| - 1]);
    }
  }

  /** A sink belongs to the last stream with its key. */
  lemma {:induction false} SinkAt(streams: seq<Stream>, router: string, i: nat)
    requires LastWith(streams, i, false)
    ensures SinkKey(streams[i]) in Sinks(streams, router)
            && Sinks(streams, router)[SinkKey(streams[i])] == SinkOf(streams[i], router)
  {
    if i < |streams| - 1 {
      LastWithFront(streams, i, false);
      SinkAt(streams[..|streams| - 1], router, i);
      SinkKeyIsInjective(streams[i], streams[|streams| - 1]);
    }
  }

  /** Every sink but the console is some stream's own sink. */
  lemma {:induction false} SinkOrigin(streams: seq<Stream>, router: string, key: string)
    requires key in Sinks(streams, router) && key != "console"
    ensures exists i :: 0 <= i < |streams| && Sinks(streams, router)[key] == SinkOf(streams[i], router)
  {
    var n := |streams| - 1;
    if SinkKey(streams[n]) != key {
      SinkOrigin(streams[..n], router, key);
      var i :| 0 <= i < n && Sinks(streams[..n], router)[key] == SinkOf(streams[..n][i], router);
      assert streams[..n][i] == streams[i];
    }
  }

  /** For every list of streams each input of the generated configuration exists. */
  lemma GeneratedHasIntegrity(streams: seq<Stream>, router: string)
    ensures Integrity(Generated(streams, router))
  {
    var c := Generated(streams, router);
    forall k, input | k in c.sinks && input in c.sinks[k].inputs
      ensures Exists(c, input)
    {
      if k == "console" {
        ConsoleStays(streams, router);
      } else {
        SinkOrigin(streams, router, k);
        var i :| 0 <= i < |streams| && c.sinks[k] == SinkOf(streams[i], router);
        if !IsInternal(streams[i]) {
          RouteExists(streams, i);
          assert input == router + "." + RouteKey(streams[i]);
          assert router in c.transforms && c.transforms[router] == Route([REMAP], Routes(streams));
        }
      }
    }
  }

  predicate DistinctRouteKeys(streams: seq<Stream>) {
    forall i, j :: 0 <= i < j < |streams| ==> RouteKey(streams[i]) != RouteKey(streams[j])
  }

  /**
   The last stream with a route key owns the sink of that key, and when it is a routed
   stream its sink reads the route that tests its own ingest key.
   */
  lemma OwnSinkReadsOwnRoute(streams: seq<Stream>, router: string, i: nat)
    requires LastWith(streams, i, false)
    ensures var s, c := streams[i], Generated(streams, router);
            SinkKey(s) in c.sinks && c.sinks[SinkKey(s)] == SinkOf(s, router)
            && (!IsInternal(s) ==>
                  router in c.transforms && c.transforms[router].Route? && RouteKey(s) in c.transforms[router].routes
                  && c.transforms[router].routes[RouteKey(s)] == Condition(s))
  {
    SinkAt(streams, router, i);
    if !IsInternal(streams[i]) {
      RouteAt(streams, i);
    }
  }

  /** With pairwise distinct route keys this holds of every stream. */
  lemma DistinctKeysServeAll(streams: seq<Stream>, router: string, i: nat)
    requires DistinctRouteKeys(streams) && i < |streams| && !IsInternal(streams[i])
    ensures var s, c := streams[i], Generated(streams, router);
            SinkKey(s) in c.sinks && c.sinks[SinkKey(s)].inputs == [router + "." + RouteKey(s)]
            && c.transforms[router].Route? && RouteKey(s) in c.transforms[router].routes
            && c.transforms[router].routes[RouteKey(s)] == Condition(s)
  {
    assert LastWith(streams, i, false);
    OwnSinkReadsOwnRoute(streams, router, i);
  }

  lemma ConditionIsInjective(s: Stream, t: Stream)
    requires Condition(s) == Condition(t)
    ensures s.ingestKey == t.ingestKey
  {
    var p := "._path_ == \"/ingest/";
    assert Condition(s) == p + (s.ingestKey + "\"") && Condition(t) == p + (t.ingestKey + "\"");
    assert Condition(s)[|p|..] == s.ingestKey + "\"" && Condition(t)[|p|..] == t.ingestKey + "\"";
    assert (s.ingestKey + "\"")[..|s.ingestKey|] == s.ingestKey;
    assert (t.ingestKey + "\"")[..|t.ingestKey|] == t.ingestKey;
    assert |s.ingestKey| == |t.ingestKey|;
  }

  /**
   Otherwise a routed stream with a later routed stream of the same route key loses its
   route: as ingest keys are unique, the route tests its own key exactly when it is the last.
   */
  lemma RouteIsOwnIffLast(streams: seq<Stream>, i: nat)
    requires i < |streams| && !IsInternal(streams[i])
    requires forall j, k :: 0 <= j < k < |streams| ==> streams[j].ingestKey != streams[k].ingestKey
    ensures RouteKey(streams[i]) in Routes(streams)
    ensures Routes(streams)[RouteKey(streams[i])] == Condition(streams[i]) <==> LastWith(streams, i, true)
  {
    var j := LastSame(streams, i, true);
    RouteAt(streams, j);
    if !LastWith(streams, i, true) {
      if Condition(streams[i]) == Condition(streams[j]) {
        ConditionIsInjective(streams[i], streams[j]);
        assert false;
      }
    }
  }

  lemma {:induction false} LastSame(streams: seq<Stream>, i: nat, routedOnly: bool) returns (j: nat)
    requires i < |streams| && (routedOnly ==> !IsInternal(streams[i]))
    ensures LastWith(streams, j, routedOnly) && i <= j && RouteKey(streams[j]) == RouteKey(streams[i])
    decreases |streams| - i
  {
    j := i;
    if !LastWith(streams, i, routedOnly) {
      var k :| i < k < |streams| && (routedOnly ==> !IsInternal(streams[k]))
               && RouteKey(streams[k]) == RouteKey(streams[i]);
      j := LastSame(streams, k, routedOnly);
    }
  }

  /**
   The last stream with a route key gets a sink that writes to the stream's own table, url
   and database, and reads the internal logs or the route of its key.
   */
  lemma SinkWritesOwnTable(streams: seq<Stream>, router: string, i: nat)
    requires LastWith(streams, i, false)
    ensures var s, sinks := streams[i], Generated(streams, router).sinks;
            SinkKey(s) in sinks && sinks[SinkKey(s)].ClickHouse?
            && sinks[SinkKey(s)].table == s.table && sinks[SinkKey(s)].url == s.url
            && sinks[SinkKey(s)].database == s.database
            && sinks[SinkKey(s)].inputs ==
               [if s.preset != "" && s.preset[0] == '_' then "vector_internal_logs" else router + "." + Dashed(s.table)]
  {
    SinkAt(streams, router, i);
  }

  /** The events sent to the stream's ingest key reach a sink that writes to the stream's table. */
  ghost predicate IsServed(c: Config, s: Stream, router: string) {
    SinkKey(s) in c.sinks && c.sinks[SinkKey(s)] == SinkOf(s, router)
    && router in c.transforms && c.transforms[router].Route? && RouteKey(s) in c.transforms[router].routes
    && c.transforms[router].routes[RouteKey(s)] == Condition(s)
  }

  /**
   A routed stream is served exactly when no later stream has its route key. A later
   internal stream leaves the route alone but takes over the sink.
   */
  lemma ServedIffLast(streams: seq<Stream>, router: string, i: nat)
    requires i < |streams| && !IsInternal(streams[i])
    requires forall j, k :: 0 <= j < k < |streams| ==> streams[j].ingestKey != streams[k].ingestKey
    ensures IsServed(Generated(streams, router), streams[i], router) <==> LastWith(streams, i, false)
  {
    RouteIsOwnIffLast(streams, i);
    if LastWith(streams, i, false) {
      OwnSinkReadsOwnRoute(streams, router, i);
    } else if LastWith(streams, i, true) {
      var j := LastSame(streams, i, false);
      SinkAt(streams, router, j);
      SinkKeyIsInjective(streams[i], streams[j]);
      assert IsInternal(streams[j]);
      RouteIsNoLog(router, RouteKey(streams[i]));
    }
  }

  lemma RouteIsNoLog(router: string, route: string)
    ensures router + "." + route != INTERNAL_INPUT
  {
    assert (router + "." + route)[|router|] == '.';
    assert forall i :: 0 <= i < |INTERNAL_INPUT| ==> INTERNAL_INPUT[i] != '.';
  }

  predicate IsSeparator(c: char) { c == '_' || c == '.' || c == '-' }

  /** Two route keys agree exactly when the tables differ in nothing but their separators. */
  lemma {:induction false} KeysAgree(s: string, t: string)
    ensures Dashed(s) == Dashed(t)
            <==> |s| == |t| && forall i :: 0 <= i < |s| ==> s[i] == t[i] || (IsSeparator(s[i]) && IsSeparator(t[i]))
  {
    if s != "" && t != "" {
      KeysAgree(s[1..], t[1..]);
      assert Dashed(s)[1..] == Dashed(s[1..]) && Dashed(t)[1..] == Dashed(t[1..]);
      assert forall i :: 0 < i < |s| ==> s[i] == s[1..][i - 1];
      assert forall i :: 0 < i < |t| ==> t[i] == t[1..][i - 1];
    }
  }

  /**
   The generated configuration in full, for a router with a name of its own: two sources,
   the address transform between the HTTP source and the router, the console behind both
   sources, and one sink and at most one route for each key of a stream, and nothing else.
   */
  lemma GeneratedExactly(streams: seq<Stream>, router: string)
    requires router != "ip_addr_remap"
    ensures var c := Generated(streams, router);
            c.sources == {"vector_internal_logs", "http_input"}
            && c.transforms.Keys == {"ip_addr_remap", router}
            && c.transforms["ip_addr_remap"] == Remap(["http_input"])
            && c.transforms[router].Route? && c.transforms[router].inputs == ["ip_addr_remap"]
            && (forall k :: k in c.transforms[router].routes <==>
                            exists i :: 0 <= i < |streams| && !IsInternal(streams[i]) && k == Dashed(streams[i].table))
            && "console" in c.sinks && c.sinks["console"] == Console(["http_input", "vector_internal_logs"])
            && (forall k :: k in c.sinks <==>
                            k == "console" || exists i :: 0 <= i < |streams| && k == "sink-" + Dashed(streams[i].table))
  {
    ConsoleStays(streams, router);
    RouteKeys(streams);
    SinkKeys(streams, router);
  }

  lemma {:induction false} RouteKeys(streams: seq<Stream>)
    ensures forall k :: k in Routes(streams) <==>
                        exists i :: 0 <= i < |streams| && !IsInternal(streams[i]) && k == Dashed(streams[i].table)
  {
    if streams != [] {
      var n := |streams| - 1;
      RouteKeys(streams[..n]);
      forall k
        ensures k in Routes(streams) <==>
                exists i :: 0 <= i < |streams| && !IsInternal(streams[i]) && k == Dashed(streams[i].table)
      {
        if i :| 0 <= i < n && !IsInternal(streams[i]) && k == Dashed(streams[i].table) {
          assert streams[..n][i] == streams[i];
        }
      }
    }
  }

  lemma {:induction false} SinkKeys(streams: seq<Stream>, router: string)
    ensures forall k :: k in Sinks(streams, router) <==>
                        k == "console" || exists i :: 0 <= i < |streams| && k == "sink-" + Dashed(streams[i].table)
  {
    if streams != [] {
      var n := |streams| - 1;
      SinkKeys(streams[..n], router);
      forall k
        ensures k in Sinks(streams, router) <==>
                k == "console" || exists i :: 0 <= i < |streams| && k == "sink-" + Dashed(streams[i].table)
      {
        if i :| 0 <= i < n && k == "sink-" + Dashed(streams[i].table) {
          assert streams[..n][i] == streams[i];
        }
      }
    }
  }

  // ----- the program -----

  class Router {
    const key: string
    var route: map<string, string>

    constructor (key: string)
      ensures this.key == key && route == map[]
    {
      this.key := key;
      route := map[];
    }

    method AddRoute(routeKey: string, condition: string)
      modifies this
      ensures route == old(route)[routeKey := condition]
    {
      route := route[routeKey := condition];
    }
  }

  class VectorConfig {
    var config: Config

    constructor ()
      ensures config == DEFAULTS
    {
      config := DEFAULTS;
    }

    method Clean()
      modifies this
      ensures config == DEFAULTS
    {
      config := Config({}, map[], map[]);
      AddSource(INTERNAL_INPUT);
      AddSource(HTTP_INPUT);
      AddSink("console", Console([HTTP_INPUT, INTERNAL_INPUT]));
      AddTransform(REMAP, Remap([HTTP_INPUT]));
      assert config.sources == DEFAULTS.sources;
    }

    method AddSource(key: string)
      modifies this
      ensures config == old(config).(sources := old(config).sources + {key})
    {
      config := config.(sources := config.sources + {key});
    }

    method AddTransform(key: string, t: Transform)
      modifies this
      ensures config == old(config).(transforms := old(config).transforms[key := t])
    {
      config := config.(transforms := config.transforms[key := t]);
    }

    method AddSink(key: string, s: Sink)
      modifies this
      ensures config == old(config).(sinks := old(config).sinks[key := s])
    {
      config := config.(sinks := config.sinks[key := s]);
    }

    method GetSinkForStreamIngest(stream: Stream, router: Router) returns (key: string, sink: Sink)
      requires !IsInternal(stream)
      modifies router
      ensures router.route == old(router.route)[RouteKey(stream) := Condition(stream)]
      ensures key == SinkKey(stream) && sink == SinkOf(stream, router.key)
    {
      var routeKey := RouteKey(stream);
      router.AddRoute(routeKey, Condition(stream));
      key := SINK_PREFIX + routeKey;
      sink := ClickHouse([router.key + "." + routeKey], stream.table, stream.url, stream.database);
    }

    method GetSinkForInternalLogs(stream: Stream) returns (key: string, sink: Sink)
      requires IsInternal(stream)
      ensures key == SinkKey(stream) && sink == ClickHouse([INTERNAL_INPUT], stream.table, stream.url, stream.database)
    {
      key := SINK_PREFIX + RouteKey(stream);
      sink := ClickHouse([INTERNAL_INPUT], stream.table, stream.url, stream.database);
    }

    /** The shared configuration object may hold anything before; a clean update forgets it. */
    method UpdateClean(streams: seq<Stream>, routerKey: string := ROUTER)
      modifies this
      ensures config == Generated(streams, routerKey)
      ensures Integrity(config)
    {
      Clean();
      var router := new Router(routerKey);
      for i := 0 to |streams|
        invariant fresh(router) && router.key == routerKey
        invariant config == DEFAULTS.(sinks := Sinks(streams[..i], routerKey))
        invariant router.route == Routes(streams[..i])
      {
        assert streams[..i + 1][..i] == streams[..i];
        var key, sink;
        if IsInternal(streams[i]) {
          key, sink := GetSinkForInternalLogs(streams[i]);
        } else {
          key, sink := GetSinkForStreamIngest(streams[i], router);
        }
        AddSink(key, sink);
      }
      assert streams[..|streams|] == streams;
      AddTransform(router.key, Route([REMAP], router.route));
      GeneratedHasIntegrity(streams, routerKey);
    }
  }
}
