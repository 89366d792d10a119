/**
 * Naming servers across a chain of daemons: every hop prefixes its gateway to the source of a row,
 * and every hop peels one gateway off the target again.
 */
module Routing {
  import opened Bytes

  datatype Source = Local | Gateway(path: string)

  datatype Route = Route(gateway: string, endTarget: string)

  datatype Resolved = Routed(route: Route) | Unknown(reason: string) | Legacy

  const LOCAL: string := "local"
  const SELF: string := "_self"

  // ---------------------------------------------------------------------------
  // Colons
  // ---------------------------------------------------------------------------

  /** Index of the first colon, or the length of the text. */
  function FirstColon(s: string): (i: nat)
    ensures i <= |s|
    ensures forall j :: 0 <= j < i ==> s[j] != ':'
    ensures i < |s| ==> s[i] == ':'
  {
    if s == "" || s[0] == ':' then 0 else 1 + FirstColon(s[1..])
  }

  lemma ColonAfterName(name: string, rest: string)
    requires ':' !in name
    ensures FirstColon(name + ":" + rest) == |name|
  {
    hide FirstColon;
    var s := name + ":" + rest;
    assert s[|name|] == ':';
    var i := FirstColon(s);
    assert forall j :: 0 <= j < |name| ==> s[j] == name[j];
  }

  lemma NoColon(s: string)
    requires ':' !in s
    ensures FirstColon(s) == |s|
  {
    hide FirstColon;
    var i := FirstColon(s);
  }

  predicate AllDigits(s: string) {
    forall i :: 0 <= i < |s| ==> '0' <= s[i] <= '9'
  }

  // ---------------------------------------------------------------------------
  // Sources, routes and targets
  // ---------------------------------------------------------------------------

  /** How a source travels between daemons. */
  function SourceText(s: Source): (t: string) {
    match s
    case Local => LOCAL
    case Gateway(path) => path
  }

  /** The naming step of one hop. */
  function PrefixSource(gateway: string, remote: string): (s: Source) {
    if remote == LOCAL || remote == "" then Gateway(gateway) else Gateway(gateway + ":" + remote)
  }

  /** The route to a listed row; None for a source whose first gateway is empty. */
  function RouteFromSource(source: Source, alias: string): (r: Option<Route>) {
    match source
    case Local => Some(Route(LOCAL, alias))
    case Gateway(path) =>
      var i := FirstColon(path);
      if i == 0 then None
      else if i >= |path| - 1 then Some(Route(path[..i], alias))
      else Some(Route(path[..i], path[i + 1..] + ":" + alias))
  }

  /** `gateway:target`, split at the first colon; not when it looks like a port or an IPv6 address. */
  function ParseExplicit(input: string): (r: Option<(string, string)>) {
    var i := FirstColon(input);
    if i == |input| then None
    else
      var gateway, target := input[..i], input[i + 1..];
      if gateway == "" || target == "" || target[0] == ':' || AllDigits(target) then None
      else Some((gateway, target))
  }

  datatype Row = Row(source: Source, alias: string)

  /**
   * What a daemon knows: its configured gateways, its dynamic ones, its own server aliases, its merged
   * server list, and which listed sources reported successfully.
   */
  datatype Daemon = Daemon(gateways: seq<string>, dynamic: seq<string>, servers: set<string>,
                           rows: seq<Row>, reported: map<string, bool>)

  predicate HasGateway(d: Daemon, name: string) {
    name in d.gateways || name in d.dynamic
  }

  function FullTargetName(source: Source, alias: string): (t: string) {
    SourceText(source) + ":" + alias
  }

  /** What precedes the last colon, if there is one. */
  function BeforeLastColon(s: string): (r: Option<string>) {
    if s == "" then None
    else if s[|s| - 1] == ':' then Some(s[..|s| - 1])
    else BeforeLastColon(s[..|s| - 1])
  }

  /** Whether the source that would list `gateway:target` reported a list; absence from it is then proof. */
  function ReportedOk(d: Daemon, gateway: string, target: string): (ok: bool) {
    var nested := BeforeLastColon(target);
    var exact := if nested.Some? then gateway + ":" + nested.value else gateway;
    if exact in d.reported then d.reported[exact]
    else gateway in d.reported && d.reported[gateway]
  }

  /** An explicitly qualified target; `merged` tells whether the merged list is at hand. */
  function ResolveExplicit(d: Daemon, gateway: string, target: string, merged: bool): (r: Resolved) {
    if gateway == LOCAL then
      if target in d.servers then Routed(Route(LOCAL, target)) else Unknown("alias not in local server config")
    else if gateway in d.gateways then
      if merged && ReportedOk(d, gateway, target)
         && (forall i :: 0 <= i < |d.rows| ==> FullTargetName(d.rows[i].source, d.rows[i].alias) != gateway + ":" + target)
      then Unknown("target not in merged server list")
      else Routed(Route(gateway, target))
    else if gateway in d.dynamic then Routed(Route(gateway, target))
    else Unknown("gateway not found")
  }

  /** The rows for an alias, in list order. */
  function Matching(rows: seq<Row>, alias: string): (m: seq<Row>) {
    if rows == [] then []
    else (if rows[0].alias == alias then [rows[0]] else []) + Matching(rows[1..], alias)
  }

  /** The first listed row decides, unless some row for that alias has no gateway to go through. */
  function BareFromMergedView(rows: seq<Row>, alias: string): (r: Resolved) {
    var m := Matching(rows, alias);
    if m == [] then Legacy
    else if exists i :: 0 <= i < |m| && RouteFromSource(m[i].source, alias).None? then Unknown("empty gateway in source")
    else Routed(RouteFromSource(m[0].source, alias).value)
  }

  /**
   * A target as it arrives at a daemon. `Legacy` stands for the lookups by host, by derived address
   * and through `ssh.fallback`, which are not part of this model.
   */
  function ResolveTarget(d: Daemon, target: string): (r: Resolved) {
    if HasGateway(d, target) && target != LOCAL then Routed(Route(target, SELF))
    else if ':' in target && !("[" <= target) then
      var e := ParseExplicit(target);
      if e.None? then Legacy else ResolveExplicit(d, e.value.0, e.value.1, false)
    else if target == SELF then Unknown("'_self' is not available")
    else
      var e := ParseExplicit(target);
      if e.Some? then ResolveExplicit(d, e.value.0, e.value.1, true) else BareFromMergedView(d.rows, target)
  }

  /** Equal display names mean equal routes, so skipping a repeated name loses nothing. */
  lemma SameNameSameRoute(a: Source, b: Source, alias: string)
    requires FullTargetName(a, alias) == FullTargetName(b, alias)
    ensures RouteFromSource(a, alias) == RouteFromSource(b, alias)
  {
    var x, y := SourceText(a), SourceText(b);
    assert FullTargetName(a, alias)[..|x|] == x && FullTargetName(b, alias)[..|y|] == y;
    NoColon(LOCAL);
    assert LOCAL[..|LOCAL|] == LOCAL;
  }

  method CollectMatching(rows: seq<Row>, alias: string) returns (matching: seq<Row>)
    ensures matching == Matching(rows, alias)
  {
    matching := [];
    for i := 0 to |rows|
      invariant matching + Matching(rows[i..], alias) == Matching(rows, alias)
    {
      assert rows[i..][1..] == rows[i + 1..];
      if rows[i].alias == alias {
        matching := matching + [rows[i]];
      }
    }
  }

  /** The source's loop: keep one route per display name, then take the first. */
  method ResolveBareFromMergedView(rows: seq<Row>, alias: string) returns (r: Resolved)
    ensures r == BareFromMergedView(rows, alias)
  {
    hide RouteFromSource, FullTargetName, Matching;
    var matching := CollectMatching(rows, alias);
    if |matching| == 0 {
      return Legacy;
    }
    var names: seq<string> := [];
    var routes: seq<Route> := [];
    for i := 0 to |matching|
      invariant |names| == |routes| && (i > 0 <==> |names| > 0)
      invariant i > 0 ==> Some(routes[0]) == RouteFromSource(matching[0].source, alias)
      invariant forall j :: 0 <= j < i ==> RouteFromSource(matching[j].source, alias).Some?
      invariant forall n :: 0 <= n < |names| ==> NamedBy(names[n], matching[..i], alias)
    {
      var name := FullTargetName(matching[i].source, alias);
      assert matching[..i + 1] == matching[..i] + [matching[i]];
      if name !in names {
        var route := RouteFromSource(matching[i].source, alias);
        if route.None? {
          return Unknown("empty gateway in source");
        }
        names := names + [name];
        routes := routes + [route.value];
      } else {
        RepeatedName(matching, i, alias);
      }
      NamedByMore(matching, i, alias, names);
    }
    r := Routed(routes[0]);
  }

  ghost predicate NamedBy(name: string, rows: seq<Row>, alias: string) {
    exists j :: 0 <= j < |rows| && name == FullTargetName(rows[j].source, alias)
  }

  lemma RepeatedName(rows: seq<Row>, i: nat, alias: string)
    requires i < |rows| && NamedBy(FullTargetName(rows[i].source, alias), rows[..i], alias)
    requires forall j :: 0 <= j < i ==> RouteFromSource(rows[j].source, alias).Some?
    ensures RouteFromSource(rows[i].source, alias).Some?
  {
    hide FullTargetName, RouteFromSource;
    var j :| 0 <= j < |rows[..i]| && FullTargetName(rows[i].source, alias) == FullTargetName(rows[..i][j].source, alias);
    SameNameSameRoute(rows[i].source, rows[j].source, alias);
  }

  lemma NamedByMore(rows: seq<Row>, i: nat, alias: string, names: seq<string>)
    requires i < |rows|
    requires forall n :: 0 <= n < |names| ==>
                           NamedBy(names[n], rows[..i], alias) || names[n] == FullTargetName(rows[i].source, alias)
    ensures forall n :: 0 <= n < |names| ==> NamedBy(names[n], rows[..i + 1], alias)
  {
    hide FullTargetName;
    forall n | 0 <= n < |names|
      ensures NamedBy(names[n], rows[..i + 1], alias)
    {
      if NamedBy(names[n], rows[..i], alias) {
        var j :| 0 <= j < |rows[..i]| && names[n] == FullTargetName(rows[..i][j].source, alias);
        assert rows[..i + 1][j] == rows[..i][j];
      } else {
        assert rows[..i + 1][i] == rows[i];
      }
    }
  }

  // ---------------------------------------------------------------------------
  // Chains of daemons
  // ---------------------------------------------------------------------------

  /** The source of a local row of the last daemon, as the daemon `|gws|` hops before it lists it. */
  function SourceThrough(gws: seq<string>): (s: Source) {
    if gws == [] then Local else PrefixSource(gws[0], SourceText(SourceThrough(gws[1..])))
  }

  /** The target text that names `alias` behind these gateways. */
  function TargetThrough(gws: seq<string>, alias: string): (t: string) {
    if gws == [] then alias else gws[0] + ":" + TargetThrough(gws[1..], alias)
  }

  /** Names a configuration gives to gateways, and that do not look like something else. */
  predicate IsGatewayName(g: string) {
    g != "" && ':' !in g && g != LOCAL && g[0] != '['
  }

  predicate AreGatewayNames(gws: seq<string>) {
    forall i :: 0 <= i < |gws| ==> IsGatewayName(gws[i])
  }

  /** Prefixing never yields something that the next hop would take for a local row. */
  lemma {:induction false} SourceIsPath(gws: seq<string>)
    requires gws != [] && AreGatewayNames(gws)
    ensures SourceThrough(gws) == Gateway(PathOf(gws))
    ensures PathOf(gws) != "" && PathOf(gws) != LOCAL
  {
    if |gws| > 1 {
      SourceIsPath(gws[1..]);
      var path := PathOf(gws);
      assert path[|gws[0]|] == ':';
      assert ':' !in LOCAL;
    } else {
      assert gws[1..] == [];
    }
  }

  /** Gateways joined by colons. */
  function PathOf(gws: seq<string>): (p: string)
    requires gws != []
  {
    if |gws| == 1 then gws[0] else gws[0] + ":" + PathOf(gws[1..])
  }

  lemma {:induction false} TargetIsPath(gws: seq<string>, alias: string)
    requires gws != []
    ensures TargetThrough(gws, alias) == PathOf(gws) + ":" + alias
  {
    if |gws| == 1 {
      assert gws[1..] == [];
    } else {
      TargetIsPath(gws[1..], alias);
      var a, b := gws[0], PathOf(gws[1..]);
      assert a + ":" + (b + ":" + alias) == a + ":" + b + ":" + alias;
    }
  }

  /** A listed row's route goes to the first gateway and names the rest of the way. */
  lemma RowRoute(gws: seq<string>, alias: string)
    requires gws != [] && AreGatewayNames(gws)
    ensures RouteFromSource(SourceThrough(gws), alias) == Some(Route(gws[0], TargetThrough(gws[1..], alias)))
  {
    hide FirstColon;
    SourceIsPath(gws);
    if |gws| == 1 {
      NoColon(gws[0]);
      assert gws[0][..|gws[0]|] == gws[0];
      assert gws[1..] == [];
    } else {
      var rest := PathOf(gws[1..]);
      ColonAfterName(gws[0], rest);
      var path := PathOf(gws);
      assert path[..|gws[0]|] == gws[0] && path[|gws[0]| + 1..] == rest;
      SourceIsPath(gws[1..]);
      TargetIsPath(gws[1..], alias);
    }
  }

  /** An alias that survives the last colon: not empty, no leading colon, not a port number. */
  predicate IsNameable(alias: string) {
    alias != "" && alias[0] != ':' && !AllDigits(alias)
  }

  /** What each daemon on the way does with the target: peel exactly its own gateway. */
  lemma PeelOne(gws: seq<string>, alias: string)
    requires gws != [] && AreGatewayNames(gws)
    ensures ParseExplicit(TargetThrough(gws, alias))
            == if |gws| > 1 || IsNameable(alias) then Some((gws[0], TargetThrough(gws[1..], alias))) else None
  {
    hide FirstColon;
    var rest := TargetThrough(gws[1..], alias);
    var t := TargetThrough(gws, alias);
    ColonAfterName(gws[0], rest);
    assert t[..|gws[0]|] == gws[0] && t[|gws[0]| + 1..] == rest;
    if |gws| > 1 {
      var next := gws[1];
      assert IsGatewayName(next) && rest[0] == next[0] != ':' && rest[|next|] == ':';
    } else {
      assert rest == alias;
    }
  }

  /** Daemon `i` of a chain knows gateway `i`. */
  ghost predicate IsChain(daemons: seq<Daemon>, gws: seq<string>) {
    |daemons| == |gws| && forall i :: 0 <= i < |gws| ==> HasGateway(daemons[i], gws[i]) && NoColonNames(daemons[i])
  }

  /** A daemon's own gateway names have no colon in them. */
  ghost predicate NoColonNames(d: Daemon) {
    forall g :: HasGateway(d, g) ==> ':' !in g
  }

  /** What a target becomes after passing through all daemons of the chain, each using its own gateway. */
  function Deliver(daemons: seq<Daemon>, gws: seq<string>, target: string): (r: Option<string>)
    requires |daemons| == |gws|
    decreases |gws|
  {
    if gws == [] then Some(target)
    else
      var r := ResolveTarget(daemons[0], target);
      if r.Routed? && r.route.gateway == gws[0] then Deliver(daemons[1..], gws[1..], r.route.endTarget) else None
  }

  lemma HopTakesGateway(d: Daemon, gws: seq<string>, alias: string)
    requires gws != [] && AreGatewayNames(gws) && HasGateway(d, gws[0]) && NoColonNames(d)
    ensures ResolveTarget(d, TargetThrough(gws, alias))
            == if |gws| > 1 || IsNameable(alias) then Routed(Route(gws[0], TargetThrough(gws[1..], alias))) else Legacy
  {
    var t := TargetThrough(gws, alias);
    PeelOne(gws, alias);
    assert t[|gws[0]|] == ':';
    assert t[0] == gws[0][0];
  }

  /**
   * For every chain length: a target is delivered through exactly those gateways, as that very
   * alias, if and only if there is nothing to peel or the alias is nameable.
   */
  lemma {:induction false} DeliveredIff(daemons: seq<Daemon>, gws: seq<string>, alias: string)
    requires IsChain(daemons, gws) && AreGatewayNames(gws)
    ensures Deliver(daemons, gws, TargetThrough(gws, alias)) == if gws == [] || IsNameable(alias) then Some(alias) else None
    decreases |gws|
  {
    hide ResolveTarget, IsNameable;
    if gws != [] {
      HopTakesGateway(daemons[0], gws, alias);
      DeliveredIff(daemons[1..], gws[1..], alias);
    }
  }

  /**
   * Multi-hop routing: the route computed from a listed row goes to the first gateway, and the
   * daemons behind it carry the target to the row's own alias at the daemon that listed it.
   */
  lemma ListedRowIsReachable(daemons: seq<Daemon>, gws: seq<string>, alias: string)
    requires gws != [] && AreGatewayNames(gws) && IsChain(daemons, gws[1..])
    ensures var route := RouteFromSource(SourceThrough(gws), alias);
            && route.Some? && route.value.gateway == gws[0]
            && (Deliver(daemons, gws[1..], route.value.endTarget) == Some(alias) <==> |gws| == 1 || IsNameable(alias))
  {
    hide IsNameable, ResolveTarget;
    RowRoute(gws, alias);
    DeliveredIff(daemons, gws[1..], alias);
  }

  /** Rows a daemon lists for servers of its own. */
  predicate IsOwn(source: Source) {
    source.Local? || source.path == LOCAL || source.path == LOCAL + ":"
  }

  /**
   * The alias is neither a gateway of this daemon nor reserved, some row carries it, the first of these
   * is the daemon's own, and each of them has a gateway to go through.
   */
  ghost predicate NamesOwnServer(d: Daemon, alias: string) {
    var m := Matching(d.rows, alias);
    && (HasGateway(d, alias) ==> alias == LOCAL) && alias != SELF
    && m != [] && IsOwn(m[0].source)
    && forall i :: 0 <= i < |m| ==> RouteFromSource(m[i].source, alias).Some?
  }

  lemma OwnRoute(source: Source, alias: string)
    ensures RouteFromSource(source, alias) == Some(Route(LOCAL, alias)) <==> IsOwn(source)
  {
    if source.Gateway? {
      GatewayRoute(source.path, alias);
      NoColon(LOCAL);
      ColonAfterName(LOCAL, "");
      assert LOCAL + ":" + "" == LOCAL + ":";
    }
  }

  /** A route through a gateway of its own name only if nothing follows that name. */
  lemma GatewayRoute(path: string, alias: string)
    ensures var i := FirstColon(path);
            RouteFromSource(Gateway(path), alias) == Some(Route(LOCAL, alias)) <==>
              i == |LOCAL| && path[..i] == LOCAL && (path == LOCAL || path == LOCAL + ":")
  {
    var i := FirstColon(path);
    if i + 1 < |path| {
      assert |path[i + 1..] + ":" + alias| > |alias|;
      assert |LOCAL + ":"| == |LOCAL| + 1;
    } else if i + 1 == |path| {
      assert path == path[..i] + ":";
    } else {
      assert path[..i] == path;
    }
  }

  /** A bare alias means a daemon's own server exactly when it names one there. */
  lemma AliasMeansLocalServer(d: Daemon, alias: string)
    requires ':' !in alias
    ensures ResolveTarget(d, alias) == Routed(Route(LOCAL, alias)) <==> NamesOwnServer(d, alias)
  {
    hide Matching, RouteFromSource, IsOwn;
    NoColon(alias);
    if Matching(d.rows, alias) != [] {
      OwnRoute(Matching(d.rows, alias)[0].source, alias);
    }
  }

  /**
   * From the list to the server: a row that came through the gateways `gws` is routed to the first of
   * them, carried by the daemons in between, and resolved by the last one to its own server of that
   * alias, if and only if the alias survives the way (or there is none) and names that server there.
   */
  lemma RowReachesItsServer(daemons: seq<Daemon>, last: Daemon, gws: seq<string>, alias: string)
    requires gws != [] && AreGatewayNames(gws) && IsChain(daemons, gws[1..]) && ':' !in alias
    ensures var route := RouteFromSource(SourceThrough(gws), alias);
            && route.Some? && route.value.gateway == gws[0]
            && (Deliver(daemons, gws[1..], route.value.endTarget) == Some(alias)
                && ResolveTarget(last, alias) == Routed(Route(LOCAL, alias))
                <==> (|gws| == 1 || IsNameable(alias)) && NamesOwnServer(last, alias))
  {
    hide IsNameable, ResolveTarget, NamesOwnServer;
    ListedRowIsReachable(daemons, gws, alias);
    AliasMeansLocalServer(last, alias);
  }

  // ---------------------------------------------------------------------------
  // Explicit targets, case by case
  // ---------------------------------------------------------------------------

  /** A gateway name by itself means that gateway's own host; `_self` needs a gateway of that name. */
  lemma GatewayByName(d: Daemon, name: string)
    ensures HasGateway(d, name) && name != "local" ==> ResolveTarget(d, name) == Routed(Route(name, "_self"))
    ensures !HasGateway(d, "_self") ==> ResolveTarget(d, "_self").Unknown?
  {
    assert ':' !in "_self";
  }

  /** `local:alias` is one of this daemon's own servers or an error; an unknown gateway is an error. */
  lemma ExplicitTargets(d: Daemon, gateway: string, alias: string)
    requires NoColonNames(d) && gateway != "" && ':' !in gateway && gateway[0] != '['
    requires alias != "" && alias[0] != ':' && !AllDigits(alias)
    ensures var r := ResolveTarget(d, gateway + ":" + alias);
            && (gateway == "local" ==>
                  if alias in d.servers then r == Routed(Route("local", alias)) else r.Unknown?)
            && (gateway != "local" ==>
                  if HasGateway(d, gateway) then r == Routed(Route(gateway, alias)) else r.Unknown?)
  {
    var target := gateway + ":" + alias;
    ColonAfterName(gateway, alias);
    hide AllDigits;
    assert target[|gateway|] == ':' && target[0] == gateway[0];
    assert target[..|gateway|] == gateway && target[|gateway| + 1..] == alias;
  }

  /** What looks like a port or an IPv6 address is not taken apart, nor is a text with an empty half. */
  lemma NotExplicit(host: string, rest: string)
    requires ':' !in host
    ensures AllDigits(rest) || rest == "" || rest[0] == ':' || host == "" ==> ParseExplicit(host + ":" + rest) == None
    ensures ParseExplicit(host) == None
  {
    ColonAfterName(host, rest);
    NoColon(host);
    assert (host + ":" + rest)[|host| + 1..] == rest && (host + ":" + rest)[..|host|] == host;
  }

  lemma DigitsAre(s: string)
    ensures AllDigits(s) <==> forall i :: 0 <= i < |s| ==> '0' <= s[i] <= '9'
  {
  }

  lemma {:induction false} BeforeLastColonIs(a: string, b: string)
    requires ':' !in b
    ensures BeforeLastColon(a + ":" + b) == Some(a) && BeforeLastColon(b) == None
    decreases |b|
  {
    var s := a + ":" + b;
    if b == "" {
      assert s[|s| - 1] == ':' && s[..|s| - 1] == a;
    } else {
      var n := |b| - 1;
      BeforeLastColonIs(a, b[..n]);
      assert s[|s| - 1] == b[n] && s[..|s| - 1] == a + ":" + b[..n];
    }
  }

  /** The source nearest to the target decides whether its list is proof of absence. */
  lemma NearestSourceDecides(d: Daemon, gateway: string, path: string, alias: string)
    requires gateway in d.gateways && gateway != "local" && ':' !in alias
    ensures var target := path + ":" + alias;
            var source := gateway + ":" + path;
            source in d.reported ==>
              (ResolveExplicit(d, gateway, target, true).Unknown? <==>
                 d.reported[source] && forall j :: 0 <= j < |d.rows| ==>
                   FullTargetName(d.rows[j].source, d.rows[j].alias) != gateway + ":" + target)
  {
    BeforeLastColonIs(path, alias);
  }

  /** With the merged list at hand, a target that is listed, or whose source did not report, is never refused. */
  lemma ListedIsNotRefused(d: Daemon, gateway: string, target: string, i: int)
    requires gateway in d.gateways && gateway != "local"
    ensures 0 <= i < |d.rows| && FullTargetName(d.rows[i].source, d.rows[i].alias) == gateway + ":" + target ==>
              ResolveExplicit(d, gateway, target, true) == Routed(Route(gateway, target))
    ensures gateway !in d.reported && (forall path :: path in d.reported ==> !d.reported[path]) ==>
              ResolveExplicit(d, gateway, target, true) == Routed(Route(gateway, target))
    ensures BeforeLastColon(target).None? && gateway in d.reported && d.reported[gateway]
            && (forall j :: 0 <= j < |d.rows| ==>
                  FullTargetName(d.rows[j].source, d.rows[j].alias) != gateway + ":" + target) ==>
              ResolveExplicit(d, gateway, target, true).Unknown?
  {
  }

  /** The naming step: a local row gets the gateway's name, another one has it put in front. */
  lemma PrefixingIs(gateway: string, remote: string)
    ensures PrefixSource(gateway, "local") == Gateway(gateway) && PrefixSource(gateway, "") == Gateway(gateway)
    ensures remote != "local" && remote != "" ==> PrefixSource(gateway, remote) == Gateway(gateway + ":" + remote)
  {
  }
}
