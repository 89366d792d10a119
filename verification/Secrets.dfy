/**
 * Secrets: references in configuration values, and `secret encrypt`, which moves
 * every plaintext secret of the two configuration files into the vault and puts
 * a reference in its place.  Reading environment variables and files is a
 * parameter (`World`); what the vault decrypts to is a map of plaintexts.
 */
module Secrets {
  import opened Bytes

  // ---------------------------------------------------------------------------
  // References
  // ---------------------------------------------------------------------------

  const ENV_PREFIX: string := "env:"
  const FILE_PREFIX: string := "file:"
  const VAULT_PREFIX: string := "vault:"

  datatype Source = Literal(text: string) | Env(name: string) | File(path: string) | InVault(entry: string)

  function FromReference(raw: string): (s: Source)
    ensures ToReference(s) == raw
  {
    if ENV_PREFIX <= raw then Split(raw, ENV_PREFIX); Env(raw[|ENV_PREFIX|..])
    else if FILE_PREFIX <= raw then Split(raw, FILE_PREFIX); File(raw[|FILE_PREFIX|..])
    else if VAULT_PREFIX <= raw then Split(raw, VAULT_PREFIX); InVault(raw[|VAULT_PREFIX|..])
    else Literal(raw)
  }

  function ToReference(s: Source): string {
    match s
    case Literal(text) => text
    case Env(name) => ENV_PREFIX + name
    case File(path) => FILE_PREFIX + path
    case InVault(entry) => VAULT_PREFIX + entry
  }

  lemma Split(raw: string, prefix: string)
    requires prefix <= raw
    ensures prefix + raw[|prefix|..] == raw
  {
  }

  predicate IsReference(value: string) {
    ENV_PREFIX <= value || FILE_PREFIX <= value || VAULT_PREFIX <= value
  }

  /** Writing a secret back and reading it again is lossless, unless a literal looks like a reference. */
  lemma ReferenceRoundTripIff(s: Source)
    ensures FromReference(ToReference(s)) == s <==> !(s.Literal? && IsReference(s.text))
  {
    var raw := ToReference(s);
    match s {
      case Literal(text) =>
      case Env(name) =>
        assert raw[|ENV_PREFIX|..] == name;
      case File(path) =>
        assert raw[|FILE_PREFIX|..] == path && raw[0] != ENV_PREFIX[0];
      case InVault(entry) =>
        assert raw[|VAULT_PREFIX|..] == entry && raw[0] != ENV_PREFIX[0] && raw[0] != FILE_PREFIX[0];
    }
  }

  datatype World = World(env: map<string, string>, files: map<string, string>)

  function TrimLineEnds(s: string): (r: string)
    ensures r <= s && (r != [] ==> r[|r| - 1] != '\n' && r[|r| - 1] != '\r')
  {
    if s != [] && (s[|s| - 1] == '\n' || s[|s| - 1] == '\r') then TrimLineEnds(s[..|s| - 1]) else s
  }

  function At(m: map<string, string>, key: string): Option<string> {
    if key in m then Some(m[key]) else None
  }

  /** What a configured value stands for. */
  function Resolve(raw: string, world: World, vault: map<string, string>): Option<string> {
    match FromReference(raw)
    case Literal(text) => Some(text)
    case Env(name) => At(world.env, name)
    case File(path) => if path in world.files then Some(TrimLineEnds(world.files[path])) else None
    case InVault(entry) => At(vault, entry)
  }

  /** Where each kind of value is looked up. */
  lemma ResolvesWhere(name: string, world: World, vault: map<string, string>)
    ensures Resolve("env:" + name, world, vault) == if name in world.env then Some(world.env[name]) else None
    ensures Resolve("vault:" + name, world, vault) == if name in vault then Some(vault[name]) else None
    ensures Resolve("file:" + name, world, vault)
            == if name in world.files then Some(TrimLineEnds(world.files[name])) else None
    ensures !LooksLikeReference(name) ==> Resolve(name, world, vault) == Some(name)
  {
    ReferenceRoundTripIff(Env(name));
    ReferenceRoundTripIff(InVault(name));
    ReferenceRoundTripIff(File(name));
    ReferenceRoundTripIff(Literal(name));
  }

  /** Line ends go off the end of a secret file, and nothing else does. */
  lemma {:induction false} TrimsLineEnds(core: string, ends: string)
    requires forall i :: 0 <= i < |ends| ==> ends[i] == '\n' || ends[i] == '\r'
    requires core != "" ==> core[|core| - 1] != '\n' && core[|core| - 1] != '\r'
    ensures TrimLineEnds(core + ends) == core
    decreases |ends|
  {
    if ends == "" {
      assert core + ends == core;
    } else {
      var s, n := core + ends, |ends| - 1;
      assert s[|s| - 1] == ends[n] && s[..|s| - 1] == core + ends[..n];
      TrimsLineEnds(core, ends[..n]);
    }
  }

  // ---------------------------------------------------------------------------
  // The two documents
  // ---------------------------------------------------------------------------

  /** The prefixes of a reference, written out. */
  predicate LooksLikeReference(text: string) {
    "env:" <= text || "file:" <= text || "vault:" <= text
  }

  /** A value in a document; only strings can be secrets. */
  datatype Value = Str(text: string) | Other(toml: string)

  datatype ServerItem = NotATable(toml: string) | Server(password: Option<Value>, rest: string)
  datatype ServerRow = ServerRow(alias: string, item: ServerItem)
  /** `inline` are the secret fields of tables written in place, which are read but not visited here. */
  datatype ServerDoc = ServerDoc(servers: seq<ServerRow>, inline: seq<Value>, rest: string)

  datatype Header = Header(name: string, value: Value)
  datatype Review = Review(apiKey: Option<Value>, headers: seq<Header>, rest: string)
  datatype Gateway = Gateway(name: Option<Value>, password: Option<Value>, totp: Option<Value>, rest: string)

  /** The bootstrap token is read like a secret too, and not visited either. */
  datatype ConfigDoc = ConfigDoc(review: Option<Review>, gateways: seq<Gateway>, bootstrapToken: Option<Value>,
                                 inline: seq<Value>, rest: string)

  datatype Place =
    | ServerPassword(alias: string)
    | ApiKey
    | HeaderValue(header: string)
    | GatewayPassword(gateway: string)
    | GatewayTotp(gateway: string)

  function EntryName(p: Place): string {
    match p
    case ServerPassword(alias) => "server." + alias + ".password"
    case ApiKey => "review.api_key"
    case HeaderValue(header) => "review.header." + header
    case GatewayPassword(gateway) => "gateway." + gateway + ".password"
    case GatewayTotp(gateway) => "gateway." + gateway + ".totp"
  }

  function GatewayName(g: Gateway): string {
    if g.name.Some? && g.name.value.Str? then g.name.value.text else "unnamed"
  }

  lemma Between(prefix: string, a: string, b: string, suffix: string)
    requires prefix + a + suffix == prefix + b + suffix
    ensures a == b
  {
    var s := prefix + a + suffix;
    assert |a| == |b|;
    assert a == s[|prefix|..|prefix| + |a|];
    assert b == s[|prefix|..|prefix| + |b|];
  }

  lemma KindsDiffer(p: Place, q: Place)
    requires EntryName(p) == EntryName(q)
    ensures p.ServerPassword? <==> q.ServerPassword?
    ensures p.ApiKey? <==> q.ApiKey?
    ensures p.HeaderValue? <==> q.HeaderValue?
    ensures p.GatewayPassword? <==> q.GatewayPassword?
  {
    var a, b := EntryName(p), EntryName(q);
    assert p.ServerPassword? <==> a[0] == 's';
    assert q.ServerPassword? <==> b[0] == 's';
    assert p.ApiKey? || p.HeaderValue? <==> a[0] == 'r';
    assert q.ApiKey? || q.HeaderValue? <==> b[0] == 'r';
    assert p.ApiKey? ==> a[7] == 'a';
    assert q.ApiKey? ==> b[7] == 'a';
    assert p.HeaderValue? ==> a[7] == 'h';
    assert q.HeaderValue? ==> b[7] == 'h';
    assert p.GatewayPassword? ==> a[|a| - 1] == 'd';
    assert q.GatewayPassword? ==> b[|b| - 1] == 'd';
    assert p.GatewayTotp? ==> a[|a| - 1] == 'p';
    assert q.GatewayTotp? ==> b[|b| - 1] == 'p';
  }

  lemma EntryNamesAreInjective(p: Place, q: Place)
    requires EntryName(p) == EntryName(q)
    ensures p == q
  {
    KindsDiffer(p, q);
    match p {
      case ServerPassword(alias) => Between("server.", alias, q.alias, ".password");
      case ApiKey =>
      case HeaderValue(header) =>
        assert "review.header." + header + "" == EntryName(p) && "review.header." + q.header + "" == EntryName(q);
        Between("review.header.", header, q.header, "");
      case GatewayPassword(gateway) => Between("gateway.", gateway, q.gateway, ".password");
      case GatewayTotp(gateway) => Between("gateway.", gateway, q.gateway, ".totp");
    }
  }

  // ---------------------------------------------------------------------------
  // Every secret field of a document, as a list
  // ---------------------------------------------------------------------------

  /** A field that may hold a secret.  An empty one-time-code secret means there is none. */
  datatype Slot = Slot(place: Place, value: Option<Value>)

  predicate IsPlain(place: Place, value: Option<Value>) {
    value.Some? && value.value.Str? && !IsReference(value.value.text)
    && !(place.GatewayTotp? && value.value.text == "")
  }

  predicate Plain(s: Slot): (r: bool)
    ensures r ==> s.value.Some? && s.value.value.Str?
  {
    IsPlain(s.place, s.value)
  }

  function ServerSlots(rows: seq<ServerRow>): seq<Slot> {
    if rows == [] then []
    else (if rows[0].item.Server? then [Slot(ServerPassword(rows[0].alias), rows[0].item.password)] else [])
         + ServerSlots(rows[1..])
  }

  function HeaderSlots(headers: seq<Header>): seq<Slot> {
    if headers == [] then []
    else [Slot(HeaderValue(headers[0].name), Some(headers[0].value))] + HeaderSlots(headers[1..])
  }

  function GatewaySlots(gateways: seq<Gateway>): seq<Slot> {
    if gateways == [] then []
    else [Slot(GatewayPassword(GatewayName(gateways[0])), gateways[0].password),
          Slot(GatewayTotp(GatewayName(gateways[0])), gateways[0].totp)] + GatewaySlots(gateways[1..])
  }

  function ReviewSlots(review: Option<Review>): seq<Slot> {
    if review.None? then [] else [Slot(ApiKey, review.value.apiKey)] + HeaderSlots(review.value.headers)
  }

  function ConfigSlots(doc: ConfigDoc): seq<Slot> {
    ReviewSlots(doc.review) + GatewaySlots(doc.gateways)
  }

  function ServerPart(server: Option<ServerDoc>): seq<Slot> {
    if server.Some? then ServerSlots(server.value.servers) else []
  }

  function ConfigPart(config: Option<ConfigDoc>): seq<Slot> {
    if config.Some? then ConfigSlots(config.value) else []
  }

  function AllSlots(server: Option<ServerDoc>, config: Option<ConfigDoc>): seq<Slot> {
    ServerPart(server) + ConfigPart(config)
  }

  /** Values that are resolved when they are needed but that collecting and rewriting pass over. */
  function Unvisited(server: Option<ServerDoc>, config: Option<ConfigDoc>): seq<Value> {
    (if server.Some? then server.value.inline else [])
    + (if config.Some? && config.value.bootstrapToken.Some? then [config.value.bootstrapToken.value] else [])
    + (if config.Some? then config.value.inline else [])
  }

  datatype Found = Found(entry: string, plaintext: string)

  function FoundAt(slot: Slot): seq<Found> {
    if Plain(slot) then [Found(EntryName(slot.place), slot.value.value.text)] else []
  }

  function FoundIn(slots: seq<Slot>): seq<Found> {
    if slots == [] then [] else FoundAt(slots[0]) + FoundIn(slots[1..])
  }

  lemma {:induction false} FoundInConcat(a: seq<Slot>, b: seq<Slot>)
    ensures FoundIn(a + b) == FoundIn(a) + FoundIn(b)
  {
    hide FoundAt;
    if a == [] {
      assert a + b == b;
      assert [] + FoundIn(b) == FoundIn(b);
    } else {
      assert (a + b)[0] == a[0] && (a + b)[1..] == a[1..] + b;
      FoundInConcat(a[1..], b);
      assert FoundAt(a[0]) + (FoundIn(a[1..]) + FoundIn(b)) == FoundAt(a[0]) + FoundIn(a[1..]) + FoundIn(b);
    }
  }

  lemma FoundInOne(s: Slot)
    ensures FoundIn([s]) == if Plain(s) then [Found(EntryName(s.place), s.value.value.text)] else []
  {
    assert [s][1..] == [];
  }

  // ---------------------------------------------------------------------------
  // What has to be found, field by field
  // ---------------------------------------------------------------------------

  /** A string that is no reference is among the entries, under `entry`. */
  predicate Held(entries: set<Found>, value: Option<Value>, entry: string) {
    value.Some? && value.value.Str? && !LooksLikeReference(value.value.text) ==> Found(entry, value.value.text) in entries
  }

  ghost predicate RowsHeld(entries: set<Found>, rows: seq<ServerRow>) {
    forall i :: 0 <= i < |rows| ==>
      (rows[i].item.Server? ==> Held(entries, rows[i].item.password, "server." + rows[i].alias + ".password"))
  }

  ghost predicate ReviewHeld(entries: set<Found>, review: Review) {
    && Held(entries, review.apiKey, "review.api_key")
    && forall i :: 0 <= i < |review.headers| ==>
         Held(entries, Some(review.headers[i].value), "review.header." + review.headers[i].name)
  }

  /** An empty one-time-code secret means there is none. */
  ghost predicate GatewayHeld(entries: set<Found>, g: Gateway) {
    var name := if g.name.Some? && g.name.value.Str? then g.name.value.text else "unnamed";
    && Held(entries, g.password, "gateway." + name + ".password")
    && (g.totp != Some(Str("")) ==> Held(entries, g.totp, "gateway." + name + ".totp"))
  }

  ghost predicate ConfigHeld(entries: set<Found>, doc: ConfigDoc) {
    && (doc.review.Some? ==> ReviewHeld(entries, doc.review.value))
    && forall i :: 0 <= i < |doc.gateways| ==> GatewayHeld(entries, doc.gateways[i])
  }

  ghost predicate DocsHeld(entries: set<Found>, server: Option<ServerDoc>, config: Option<ConfigDoc>) {
    && (server.Some? ==> RowsHeld(entries, server.value.servers))
    && (config.Some? ==> ConfigHeld(entries, config.value))
  }

  ghost function EntriesOf(found: seq<Found>): set<Found> {
    set f | f in found
  }

  lemma {:induction false} SlotIsFound(slots: seq<Slot>, s: Slot)
    requires s in slots
    ensures (s.place.GatewayTotp? && s.value == Some(Str("")))
            || Held(EntriesOf(FoundIn(slots)), s.value, EntryName(s.place))
  {
    hide EntryName;
    assert slots == [slots[0]] + slots[1..];
    if s != slots[0] {
      SlotIsFound(slots[1..], s);
    }
  }

  lemma {:induction false} RowIsListed(rows: seq<ServerRow>, i: nat)
    requires i < |rows| && rows[i].item.Server?
    ensures Slot(ServerPassword(rows[i].alias), rows[i].item.password) in ServerSlots(rows)
  {
    if i > 0 {
      RowIsListed(rows[1..], i - 1);
    }
  }

  lemma {:induction false} HeaderIsListed(headers: seq<Header>, i: nat)
    requires i < |headers|
    ensures Slot(HeaderValue(headers[i].name), Some(headers[i].value)) in HeaderSlots(headers)
  {
    if i > 0 {
      HeaderIsListed(headers[1..], i - 1);
    }
  }

  lemma {:induction false} GatewayIsListed(gateways: seq<Gateway>, i: nat)
    requires i < |gateways|
    ensures Slot(GatewayPassword(GatewayName(gateways[i])), gateways[i].password) in GatewaySlots(gateways)
    ensures Slot(GatewayTotp(GatewayName(gateways[i])), gateways[i].totp) in GatewaySlots(gateways)
  {
    if i > 0 {
      GatewayIsListed(gateways[1..], i - 1);
    }
  }

  lemma RowsFound(rows: seq<ServerRow>)
    ensures RowsHeld(EntriesOf(FoundIn(ServerSlots(rows))), rows)
  {
    hide FoundIn, ServerSlots, EntriesOf, Held;
    var slots := ServerSlots(rows);
    forall i | 0 <= i < |rows| && rows[i].item.Server?
      ensures Held(EntriesOf(FoundIn(slots)), rows[i].item.password, "server." + rows[i].alias + ".password")
    {
      RowIsListed(rows, i);
      SlotIsFound(slots, Slot(ServerPassword(rows[i].alias), rows[i].item.password));
    }
  }

  lemma ReviewFound(doc: ConfigDoc)
    requires doc.review.Some?
    ensures ReviewHeld(EntriesOf(FoundIn(ConfigSlots(doc))), doc.review.value)
  {
    hide FoundIn, HeaderSlots, GatewaySlots, EntriesOf, Held;
    var slots, review := ConfigSlots(doc), doc.review.value;
    SlotIsFound(slots, Slot(ApiKey, review.apiKey));
    forall i | 0 <= i < |review.headers|
      ensures Held(EntriesOf(FoundIn(slots)), Some(review.headers[i].value), "review.header." + review.headers[i].name)
    {
      HeaderIsListed(review.headers, i);
      SlotIsFound(slots, Slot(HeaderValue(review.headers[i].name), Some(review.headers[i].value)));
    }
  }

  lemma GatewayFound(doc: ConfigDoc, i: nat)
    requires i < |doc.gateways|
    ensures GatewayHeld(EntriesOf(FoundIn(ConfigSlots(doc))), doc.gateways[i])
  {
    hide FoundIn, ReviewSlots, GatewaySlots, EntriesOf, Held;
    var slots, g := ConfigSlots(doc), doc.gateways[i];
    GatewayIsListed(doc.gateways, i);
    SlotIsFound(slots, Slot(GatewayPassword(GatewayName(g)), g.password));
    SlotIsFound(slots, Slot(GatewayTotp(GatewayName(g)), g.totp));
  }

  lemma ConfigFound(doc: ConfigDoc)
    ensures ConfigHeld(EntriesOf(FoundIn(ConfigSlots(doc))), doc)
  {
    hide FoundIn, ConfigSlots, EntriesOf, ReviewHeld, GatewayHeld;
    if doc.review.Some? {
      ReviewFound(doc);
    }
    forall i | 0 <= i < |doc.gateways| ensures GatewayHeld(EntriesOf(FoundIn(ConfigSlots(doc))), doc.gateways[i]) {
      GatewayFound(doc, i);
    }
  }

  // ---------------------------------------------------------------------------
  // Collecting
  // ---------------------------------------------------------------------------

  /** One field's contribution: its plaintext, if it is one. */
  method CollectField(found: seq<Found>, place: Place, value: Option<Value>) returns (r: seq<Found>)
    ensures r == found + FoundIn([Slot(place, value)])
  {
    FoundInOne(Slot(place, value));
    r := found;
    if value.Some? && value.value.Str? {
      var text := value.value.text;
      if !(place.GatewayTotp? && text == "") && !IsReference(text) {
        r := r + [Found(EntryName(place), text)];
      }
    }
  }

  method CollectServerSecrets(doc: ServerDoc, found0: seq<Found>) returns (found: seq<Found>)
    ensures found == found0 + FoundIn(ServerSlots(doc.servers))
    ensures RowsHeld(EntriesOf(found[|found0|..]), doc.servers)
  {
    hide FoundIn, RowsHeld, EntriesOf;
    RowsFound(doc.servers);
    found := found0;
    EmptyFinds();
    assert doc.servers[0..] == doc.servers;
    for i := 0 to |doc.servers|
      invariant found + FoundIn(ServerSlots(doc.servers[i..])) == found0 + FoundIn(ServerSlots(doc.servers))
    {
      var row := doc.servers[i];
      assert doc.servers[i..][0] == row && doc.servers[i..][1..] == doc.servers[i + 1..];
      if row.item.Server? {
        var s := Slot(ServerPassword(row.alias), row.item.password);
        FoundInConcat([s], ServerSlots(doc.servers[i + 1..]));
        found := CollectField(found, s.place, s.value);
      } else {
        assert [] + ServerSlots(doc.servers[i + 1..]) == ServerSlots(doc.servers[i + 1..]);
      }
    }
    assert doc.servers[|doc.servers|..] == [];
  }

  lemma EmptyFinds()
    ensures FoundIn([]) == []
  {
  }

  method CollectHeaders(headers: seq<Header>, found0: seq<Found>) returns (found: seq<Found>)
    ensures found == found0 + FoundIn(HeaderSlots(headers))
  {
    hide FoundIn;
    found := found0;
    EmptyFinds();
    assert headers[0..] == headers;
    for i := 0 to |headers|
      invariant found + FoundIn(HeaderSlots(headers[i..])) == found0 + FoundIn(HeaderSlots(headers))
    {
      assert headers[i..][1..] == headers[i + 1..];
      var s := Slot(HeaderValue(headers[i].name), Some(headers[i].value));
      FoundInConcat([s], HeaderSlots(headers[i + 1..]));
      found := CollectField(found, s.place, s.value);
    }
    assert headers[|headers|..] == [];
  }

  method CollectGateways(gateways: seq<Gateway>, found0: seq<Found>) returns (found: seq<Found>)
    ensures found == found0 + FoundIn(GatewaySlots(gateways))
  {
    hide FoundIn;
    found := found0;
    EmptyFinds();
    assert gateways[0..] == gateways;
    for i := 0 to |gateways|
      invariant found + FoundIn(GatewaySlots(gateways[i..])) == found0 + FoundIn(GatewaySlots(gateways))
    {
      var g := gateways[i];
      assert gateways[i..][1..] == gateways[i + 1..];
      var a, b := Slot(GatewayPassword(GatewayName(g)), g.password), Slot(GatewayTotp(GatewayName(g)), g.totp);
      FoundInConcat([a, b], GatewaySlots(gateways[i + 1..]));
      FoundInConcat([a], [b]);
      assert [a] + [b] == [a, b];
      found := CollectField(found, a.place, a.value);
      found := CollectField(found, b.place, b.value);
    }
    assert gateways[|gateways|..] == [];
  }

  /** Everything collected before stays in front; each plaintext field of this document is among the rest. */
  method CollectConfigSecrets(doc: ConfigDoc, found0: seq<Found>) returns (found: seq<Found>)
    ensures found == found0 + FoundIn(ConfigSlots(doc))
    ensures ConfigHeld(EntriesOf(found[|found0|..]), doc)
  {
    hide FoundIn, ConfigHeld, EntriesOf;
    ConfigFound(doc);
    found := found0;
    EmptyFinds();
    FoundInConcat(ReviewSlots(doc.review), GatewaySlots(doc.gateways));
    if doc.review.Some? {
      FoundInConcat([Slot(ApiKey, doc.review.value.apiKey)], HeaderSlots(doc.review.value.headers));
      found := CollectField(found, ApiKey, doc.review.value.apiKey);
      found := CollectHeaders(doc.review.value.headers, found);
    }
    found := CollectGateways(doc.gateways, found);
  }

  // ---------------------------------------------------------------------------
  // Rewriting
  // ---------------------------------------------------------------------------

  function Referring(place: Place, value: Option<Value>): Option<Value> {
    if IsPlain(place, value) then Some(Str(VAULT_PREFIX + EntryName(place))) else value
  }

  function RowRewritten(r: ServerRow): ServerRow {
    if r.item.Server? then r.(item := r.item.(password := Referring(ServerPassword(r.alias), r.item.password)))
    else r
  }

  function HeaderRewritten(h: Header): Header {
    h.(value := Referring(HeaderValue(h.name), Some(h.value)).value)
  }

  function GatewayRewritten(g: Gateway): Gateway {
    g.(password := Referring(GatewayPassword(GatewayName(g)), g.password),
       totp := Referring(GatewayTotp(GatewayName(g)), g.totp))
  }

  function ServerRewritten(doc: ServerDoc): ServerDoc {
    doc.(servers := seq(|doc.servers|, i requires 0 <= i < |doc.servers| => RowRewritten(doc.servers[i])))
  }

  function ReviewRewritten(r: Review): Review {
    r.(apiKey := Referring(ApiKey, r.apiKey),
       headers := seq(|r.headers|, i requires 0 <= i < |r.headers| => HeaderRewritten(r.headers[i])))
  }

  function ConfigRewritten(doc: ConfigDoc): ConfigDoc {
    doc.(review := if doc.review.Some? then Some(ReviewRewritten(doc.review.value)) else None,
         gateways := seq(|doc.gateways|, i requires 0 <= i < |doc.gateways| => GatewayRewritten(doc.gateways[i])))
  }

  method RewriteServerSecrets(doc: ServerDoc) returns (r: ServerDoc)
    ensures r == ServerRewritten(doc)
  {
    var rows := doc.servers;
    for i := 0 to |rows|
      invariant |rows| == |doc.servers|
      invariant forall j :: 0 <= j < i ==> rows[j] == RowRewritten(doc.servers[j])
      invariant forall j :: i <= j < |rows| ==> rows[j] == doc.servers[j]
    {
      var row := rows[i];
      if row.item.Server? && row.item.password.Some? && row.item.password.value.Str?
         && !IsReference(row.item.password.value.text)
      {
        var reference := VAULT_PREFIX + ("server." + row.alias + ".password");
        rows := rows[i := row.(item := row.item.(password := Some(Str(reference))))];
      }
    }
    r := doc.(servers := rows);
  }

  method RewriteHeaders(before: seq<Header>) returns (headers: seq<Header>)
    ensures |headers| == |before|
    ensures forall j :: 0 <= j < |before| ==> headers[j] == HeaderRewritten(before[j])
  {
    headers := before;
    for i := 0 to |headers|
      invariant |headers| == |before|
      invariant forall j :: 0 <= j < i ==> headers[j] == HeaderRewritten(before[j])
      invariant forall j :: i <= j < |headers| ==> headers[j] == before[j]
    {
      var h := headers[i];
      if h.value.Str? && !IsReference(h.value.text) {
        headers := headers[i := h.(value := Str(VAULT_PREFIX + ("review.header." + h.name)))];
      }
    }
  }

  method RewriteReview(review: Review) returns (r: Review)
    ensures r == ReviewRewritten(review)
  {
    hide HeaderRewritten;
    r := review;
    if r.apiKey.Some? && r.apiKey.value.Str? && !IsReference(r.apiKey.value.text) {
      r := r.(apiKey := Some(Str(VAULT_PREFIX + "review.api_key")));
    }
    var headers := RewriteHeaders(review.headers);
    r := r.(headers := headers);
  }

  method RewriteConfigSecrets(doc: ConfigDoc) returns (r: ConfigDoc)
    ensures r == ConfigRewritten(doc)
  {
    r := doc;
    if doc.review.Some? {
      var review := RewriteReview(doc.review.value);
      r := r.(review := Some(review));
    }
    var gateways := doc.gateways;
    for i := 0 to |gateways|
      invariant |gateways| == |doc.gateways|
      invariant forall j :: 0 <= j < i ==> gateways[j] == GatewayRewritten(doc.gateways[j])
      invariant forall j :: i <= j < |gateways| ==> gateways[j] == doc.gateways[j]
    {
      var g := gateways[i];
      var name := GatewayName(g);
      if g.password.Some? && g.password.value.Str? && !IsReference(g.password.value.text) {
        g := g.(password := Some(Str(VAULT_PREFIX + ("gateway." + name + ".password"))));
      }
      if g.totp.Some? && g.totp.value.Str? && g.totp.value.text != "" && !IsReference(g.totp.value.text) {
        g := g.(totp := Some(Str(VAULT_PREFIX + ("gateway." + name + ".totp"))));
      }
      gateways := gateways[i := g];
    }
    r := r.(gateways := gateways);
  }

  // ---------------------------------------------------------------------------
  // Rewriting a document rewrites its slots, and nothing else
  // ---------------------------------------------------------------------------

  function SlotsRewritten(slots: seq<Slot>): (r: seq<Slot>)
    ensures |r| == |slots|
    ensures forall i :: 0 <= i < |r| ==> r[i] == Slot(slots[i].place, Referring(slots[i].place, slots[i].value))
  {
    seq(|slots|, i requires 0 <= i < |slots| => Slot(slots[i].place, Referring(slots[i].place, slots[i].value)))
  }

  lemma {:induction false} ServerSlotsFollow(rows: seq<ServerRow>, after: seq<ServerRow>)
    requires |after| == |rows| && forall i :: 0 <= i < |rows| ==> after[i] == RowRewritten(rows[i])
    ensures ServerSlots(after) == SlotsRewritten(ServerSlots(rows))
  {
    if rows != [] {
      ServerSlotsFollow(rows[1..], after[1..]);
      assert after[0] == RowRewritten(rows[0]);
    }
  }

  lemma {:induction false} HeaderSlotsFollow(headers: seq<Header>, after: seq<Header>)
    requires |after| == |headers| && forall i :: 0 <= i < |headers| ==> after[i] == HeaderRewritten(headers[i])
    ensures HeaderSlots(after) == SlotsRewritten(HeaderSlots(headers))
  {
    if headers != [] {
      HeaderSlotsFollow(headers[1..], after[1..]);
      assert after[0] == HeaderRewritten(headers[0]);
    }
  }

  lemma {:induction false} GatewaySlotsFollow(gateways: seq<Gateway>, after: seq<Gateway>)
    requires |after| == |gateways| && forall i :: 0 <= i < |gateways| ==> after[i] == GatewayRewritten(gateways[i])
    ensures GatewaySlots(after) == SlotsRewritten(GatewaySlots(gateways))
  {
    if gateways != [] {
      GatewaySlotsFollow(gateways[1..], after[1..]);
      assert after[0] == GatewayRewritten(gateways[0]);
    }
  }

  lemma ConfigSlotsFollow(doc: ConfigDoc)
    ensures ConfigSlots(ConfigRewritten(doc)) == SlotsRewritten(ConfigSlots(doc))
  {
    hide HeaderSlots, GatewaySlots, HeaderRewritten, GatewayRewritten;
    var after := ConfigRewritten(doc);
    GatewaySlotsFollow(doc.gateways, after.gateways);
    if doc.review.Some? {
      HeaderSlotsFollow(doc.review.value.headers, after.review.value.headers);
    }
  }

  function Rewritten(server: Option<ServerDoc>, config: Option<ConfigDoc>): (Option<ServerDoc>, Option<ConfigDoc>) {
    (if server.Some? then Some(ServerRewritten(server.value)) else None,
     if config.Some? then Some(ConfigRewritten(config.value)) else None)
  }

  lemma PartsFollow(server: Option<ServerDoc>, config: Option<ConfigDoc>)
    ensures var after := Rewritten(server, config);
            && ServerPart(after.0) == SlotsRewritten(ServerPart(server))
            && ConfigPart(after.1) == SlotsRewritten(ConfigPart(config))
  {
    hide ServerSlots, ConfigSlots, ConfigRewritten, RowRewritten;
    if server.Some? {
      ServerSlotsFollow(server.value.servers, ServerRewritten(server.value).servers);
    }
    if config.Some? {
      ConfigSlotsFollow(config.value);
    }
  }

  /** Collecting and rewriting see the same fields: each slot is rewritten exactly when it is collected. */
  lemma SlotsFollow(server: Option<ServerDoc>, config: Option<ConfigDoc>)
    ensures var after := Rewritten(server, config);
            AllSlots(after.0, after.1) == SlotsRewritten(AllSlots(server, config))
  {
    hide ServerPart, ConfigPart, Rewritten;
    PartsFollow(server, config);
  }

  /** Unvisited values stay as they are. */
  lemma RewritingPassesOver(server: Option<ServerDoc>, config: Option<ConfigDoc>)
    ensures var after := Rewritten(server, config);
            && after.0.Some? == server.Some? && after.1.Some? == config.Some?
            && (server.Some? ==> after.0.value.inline == server.value.inline)
            && (config.Some? ==> after.1.value.inline == config.value.inline
                                 && after.1.value.bootstrapToken == config.value.bootstrapToken)
  {
    hide RowRewritten, ReviewRewritten, GatewayRewritten;
  }

  function Blank(value: Option<Value>): Option<Value> {
    if value.Some? && value.value.Str? then Some(Str("")) else value
  }

  function RowBlanked(r: ServerRow): ServerRow {
    if r.item.Server? then r.(item := r.item.(password := Blank(r.item.password))) else r
  }

  function HeaderBlanked(h: Header): Header {
    h.(value := Blank(Some(h.value)).value)
  }

  function GatewayBlanked(g: Gateway): Gateway {
    g.(password := Blank(g.password), totp := Blank(g.totp))
  }

  function ReviewBlanked(r: Review): Review {
    r.(apiKey := Blank(r.apiKey),
       headers := seq(|r.headers|, i requires 0 <= i < |r.headers| => HeaderBlanked(r.headers[i])))
  }

  function ServerBlanked(doc: ServerDoc): ServerDoc {
    doc.(servers := seq(|doc.servers|, i requires 0 <= i < |doc.servers| => RowBlanked(doc.servers[i])))
  }

  function ConfigBlanked(doc: ConfigDoc): ConfigDoc {
    doc.(review := if doc.review.Some? then Some(ReviewBlanked(doc.review.value)) else None,
         gateways := seq(|doc.gateways|, i requires 0 <= i < |doc.gateways| => GatewayBlanked(doc.gateways[i])))
  }

  /** With the secret texts blanked out, a document and its rewriting are the same. */
  lemma NothingElseChanges(server: ServerDoc, config: ConfigDoc)
    ensures ServerBlanked(ServerRewritten(server)) == ServerBlanked(server)
    ensures ConfigBlanked(ConfigRewritten(config)) == ConfigBlanked(config)
  {
    if config.review.Some? {
      var r := config.review.value;
      assert ReviewBlanked(ReviewRewritten(r)).headers == ReviewBlanked(r).headers;
    }
    assert ConfigBlanked(ConfigRewritten(config)).gateways == ConfigBlanked(config).gateways;
  }

  // ---------------------------------------------------------------------------
  // What becomes of each field
  // ---------------------------------------------------------------------------

  /** A string that was no reference has become `reference`; anything else is as it was. */
  predicate Moved(was: Option<Value>, now: Option<Value>, reference: string) {
    if was.Some? && was.value.Str? && !LooksLikeReference(was.value.text) then now == Some(Str(reference)) else now == was
  }

  ghost predicate RowMoved(was: ServerRow, now: ServerRow) {
    && now.alias == was.alias && now.item.Server? == was.item.Server?
    && (was.item.Server? ==> Moved(was.item.password, now.item.password, "vault:server." + was.alias + ".password"))
  }

  ghost predicate ServerMoved(was: ServerDoc, now: ServerDoc) {
    |now.servers| == |was.servers| && forall i :: 0 <= i < |was.servers| ==> RowMoved(was.servers[i], now.servers[i])
  }

  ghost predicate HeaderMoved(was: Header, now: Header) {
    now.name == was.name && Moved(Some(was.value), Some(now.value), "vault:review.header." + was.name)
  }

  ghost predicate ReviewMoved(was: Review, now: Review) {
    && Moved(was.apiKey, now.apiKey, "vault:review.api_key")
    && |now.headers| == |was.headers|
    && forall i :: 0 <= i < |was.headers| ==> HeaderMoved(was.headers[i], now.headers[i])
  }

  /** An empty one-time-code secret means there is none, and stays empty. */
  ghost predicate GatewayMoved(was: Gateway, now: Gateway) {
    var name := if was.name.Some? && was.name.value.Str? then was.name.value.text else "unnamed";
    && now.name == was.name
    && Moved(was.password, now.password, "vault:gateway." + name + ".password")
    && (if was.totp == Some(Str("")) then now.totp == was.totp
        else Moved(was.totp, now.totp, "vault:gateway." + name + ".totp"))
  }

  ghost predicate ConfigMoved(was: ConfigDoc, now: ConfigDoc) {
    && was.review.Some? == now.review.Some?
    && (was.review.Some? ==> ReviewMoved(was.review.value, now.review.value))
    && |now.gateways| == |was.gateways|
    && forall i :: 0 <= i < |was.gateways| ==> GatewayMoved(was.gateways[i], now.gateways[i])
  }

  ghost predicate DocsMoved(server: Option<ServerDoc>, config: Option<ConfigDoc>,
                            server': Option<ServerDoc>, config': Option<ConfigDoc>)
  {
    && server.Some? == server'.Some? && config.Some? == config'.Some?
    && (server.Some? ==> ServerMoved(server.value, server'.value))
    && (config.Some? ==> ConfigMoved(config.value, config'.value))
  }

  /** So no plaintext is left: a string there looks like a reference. */
  lemma MovedIsReference(was: Option<Value>, now: Option<Value>, entry: string)
    requires Moved(was, now, "vault:" + entry) && now.Some? && now.value.Str?
    ensures LooksLikeReference(now.value.text)
  {
  }

  lemma ReferringMoves(place: Place, value: Option<Value>)
    ensures !place.GatewayTotp? || value != Some(Str("")) ==>
              Moved(value, Referring(place, value), "vault:" + EntryName(place))
    ensures place.GatewayTotp? && value == Some(Str("")) ==> Referring(place, value) == value
  {
    hide EntryName;
  }

  lemma RowMoves(r: ServerRow)
    ensures RowMoved(r, RowRewritten(r))
  {
    hide Moved, Referring;
    if r.item.Server? {
      ReferringMoves(ServerPassword(r.alias), r.item.password);
      assert "vault:" + ("server." + r.alias + ".password") == "vault:server." + r.alias + ".password";
    }
  }

  lemma HeaderMoves(h: Header)
    ensures HeaderMoved(h, HeaderRewritten(h))
  {
    ReferringMoves(HeaderValue(h.name), Some(h.value));
    assert "vault:" + ("review.header." + h.name) == "vault:review.header." + h.name;
  }

  lemma GatewayMoves(g: Gateway)
    ensures GatewayMoved(g, GatewayRewritten(g))
  {
    hide Moved, Referring;
    var name := GatewayName(g);
    ReferringMoves(GatewayPassword(name), g.password);
    ReferringMoves(GatewayTotp(name), g.totp);
    assert "vault:" + ("gateway." + name + ".password") == "vault:gateway." + name + ".password";
    assert "vault:" + ("gateway." + name + ".totp") == "vault:gateway." + name + ".totp";
  }

  lemma ReviewMoves(r: Review)
    ensures ReviewMoved(r, ReviewRewritten(r))
  {
    hide Moved, Referring, HeaderMoved, HeaderRewritten;
    ReferringMoves(ApiKey, r.apiKey);
    assert "vault:" + "review.api_key" == "vault:review.api_key";
    forall i | 0 <= i < |r.headers|
      ensures HeaderMoved(r.headers[i], ReviewRewritten(r).headers[i])
    {
      HeaderMoves(r.headers[i]);
    }
  }

  /** Rewriting moves every plaintext field to its own reference, in both documents. */
  lemma RewritingMoves(server: Option<ServerDoc>, config: Option<ConfigDoc>)
    ensures var after := Rewritten(server, config); DocsMoved(server, config, after.0, after.1)
  {
    hide RowMoved, RowRewritten, ReviewMoved, ReviewRewritten, GatewayMoved, GatewayRewritten;
    if server.Some? {
      var rows := server.value.servers;
      forall i | 0 <= i < |rows|
        ensures RowMoved(rows[i], ServerRewritten(server.value).servers[i])
      {
        RowMoves(rows[i]);
      }
    }
    if config.Some? {
      var c := config.value;
      if c.review.Some? {
        ReviewMoves(c.review.value);
      }
      forall i | 0 <= i < |c.gateways|
        ensures GatewayMoved(c.gateways[i], ConfigRewritten(c).gateways[i])
      {
        GatewayMoves(c.gateways[i]);
      }
    }
  }

  // ---------------------------------------------------------------------------
  // Nothing found, nothing to rewrite
  // ---------------------------------------------------------------------------

  lemma {:induction false} NonePlain(slots: seq<Slot>, i: nat)
    requires FoundIn(slots) == [] && i < |slots|
    ensures !Plain(slots[i])
  {
    hide Plain;
    if i > 0 {
      NonePlain(slots[1..], i - 1);
    }
  }

  lemma {:induction false} ServerStays(rows: seq<ServerRow>, i: nat)
    requires FoundIn(ServerSlots(rows)) == [] && i < |rows|
    ensures RowRewritten(rows[i]) == rows[i]
  {
    var own := if rows[0].item.Server? then [Slot(ServerPassword(rows[0].alias), rows[0].item.password)] else [];
    FoundInConcat(own, ServerSlots(rows[1..]));
    if i > 0 {
      ServerStays(rows[1..], i - 1);
    } else if rows[0].item.Server? {
      NonePlain(own, 0);
    }
  }

  lemma {:induction false} HeadersStay(headers: seq<Header>, i: nat)
    requires FoundIn(HeaderSlots(headers)) == [] && i < |headers|
    ensures HeaderRewritten(headers[i]) == headers[i]
  {
    var own := [Slot(HeaderValue(headers[0].name), Some(headers[0].value))];
    FoundInConcat(own, HeaderSlots(headers[1..]));
    if i > 0 {
      HeadersStay(headers[1..], i - 1);
    } else {
      NonePlain(own, 0);
    }
  }

  lemma {:induction false} GatewaysStay(gateways: seq<Gateway>, i: nat)
    requires FoundIn(GatewaySlots(gateways)) == [] && i < |gateways|
    ensures GatewayRewritten(gateways[i]) == gateways[i]
  {
    var name := GatewayName(gateways[0]);
    var own := [Slot(GatewayPassword(name), gateways[0].password), Slot(GatewayTotp(name), gateways[0].totp)];
    FoundInConcat(own, GatewaySlots(gateways[1..]));
    if i > 0 {
      GatewaysStay(gateways[1..], i - 1);
    } else {
      NonePlain(own, 0);
      NonePlain(own, 1);
    }
  }

  lemma ReviewStays(review: Review)
    requires FoundIn(ReviewSlots(Some(review))) == []
    ensures ReviewRewritten(review) == review
  {
    hide HeaderRewritten, FoundIn, HeaderSlots;
    var own := [Slot(ApiKey, review.apiKey)];
    FoundInConcat(own, HeaderSlots(review.headers));
    NonePlain(own, 0);
    forall i | 0 <= i < |review.headers|
      ensures HeaderRewritten(review.headers[i]) == review.headers[i]
    {
      HeadersStay(review.headers, i);
    }
    assert ReviewRewritten(review).headers == review.headers;
  }

  /** When collecting finds nothing, rewriting changes nothing. */
  lemma NothingToRewrite(server: Option<ServerDoc>, config: Option<ConfigDoc>)
    requires FoundIn(AllSlots(server, config)) == []
    ensures Rewritten(server, config) == (server, config)
  {
    hide FoundIn, ServerSlots, ReviewSlots, GatewaySlots, RowRewritten, ReviewRewritten, GatewayRewritten;
    FoundInConcat(ServerPart(server), ConfigPart(config));
    if server.Some? {
      var rows := server.value.servers;
      forall i | 0 <= i < |rows|
        ensures RowRewritten(rows[i]) == rows[i]
      {
        ServerStays(rows, i);
      }
      assert ServerRewritten(server.value).servers == rows;
    }
    if config.Some? {
      var c := config.value;
      FoundInConcat(ReviewSlots(c.review), GatewaySlots(c.gateways));
      if c.review.Some? {
        ReviewStays(c.review.value);
      }
      forall i | 0 <= i < |c.gateways|
        ensures GatewayRewritten(c.gateways[i]) == c.gateways[i]
      {
        GatewaysStay(c.gateways, i);
      }
      assert ConfigRewritten(c).gateways == c.gateways;
    }
  }
}
