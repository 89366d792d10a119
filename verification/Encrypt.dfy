/**
 * `secret encrypt` as a whole: collect, store in the vault, rewrite; and when the
 * configuration still means the same afterwards.
 */
module Encrypt {
  import opened Bytes
  import opened Secrets
  import opened Vaults

  // ---------------------------------------------------------------------------
  // Which identity the vault key comes from
  // ---------------------------------------------------------------------------

  datatype KeyConfig = KeyConfig(keySource: Option<string>, remoteEnabled: bool, hostKeyPath: string)

  /** The key source `secret encrypt` uses. */
  function EncryptKey(k: KeyConfig, defaultIdentity: Option<string>): Option<string> {
    if k.keySource.Some? then k.keySource
    else if k.remoteEnabled then Some(k.hostKeyPath)
    else defaultIdentity
  }

  /** The key source a reader uses, with the fallback identity that reader passes. */
  function ResolverKey(k: KeyConfig, fallback: Option<string>): Option<string> {
    if k.keySource.Some? then k.keySource
    else if k.remoteEnabled then Some(k.hostKeyPath)
    else fallback
  }

  /** An explicit key source first, then the host key of remote access, then the identity at hand. */
  lemma KeyPrecedence(k: KeyConfig, identity: Option<string>)
    ensures k.keySource.Some? ==> EncryptKey(k, identity) == ResolverKey(k, identity) == k.keySource
    ensures k.keySource.None? && k.remoteEnabled ==>
              EncryptKey(k, identity) == ResolverKey(k, identity) == Some(k.hostKeyPath)
    ensures k.keySource.None? && !k.remoteEnabled ==> EncryptKey(k, identity) == ResolverKey(k, identity) == identity
  {
  }

  predicate ReaderFindsKey(k: KeyConfig, defaultIdentity: Option<string>, fallback: Option<string>) {
    EncryptKey(k, defaultIdentity).Some? && ResolverKey(k, fallback) == EncryptKey(k, defaultIdentity)
  }

  /** Every reader finds the key exactly when a key source is set or remote access is on. */
  lemma ReadersFindTheKeyIff(k: KeyConfig, defaultIdentity: Option<string>)
    ensures (forall fallback :: ReaderFindsKey(k, defaultIdentity, fallback))
       <==> k.keySource.Some? || k.remoteEnabled
  {
    if !k.keySource.Some? && !k.remoteEnabled {
      assert !ReaderFindsKey(k, defaultIdentity, None);
    }
  }

  // ---------------------------------------------------------------------------
  // What the vault holds afterwards
  // ---------------------------------------------------------------------------

  function Stored(texts: map<string, string>, found: seq<Found>): map<string, string>
    decreases |found|
  {
    if found == [] then texts else Stored(texts[found[0].entry := found[0].plaintext], found[1..])
  }

  ghost predicate Agree(found: seq<Found>) {
    forall f, g :: f in found && g in found && f.entry == g.entry ==> f == g
  }

  lemma {:induction false} StoredElsewhere(texts: map<string, string>, found: seq<Found>, entry: string)
    requires forall f :: f in found ==> f.entry != entry
    ensures At(Stored(texts, found), entry) == At(texts, entry)
    decreases |found|
  {
    if found != [] {
      assert found[0].entry != entry;
      StoredElsewhere(texts[found[0].entry := found[0].plaintext], found[1..], entry);
    }
  }

  lemma {:induction false} StoredEverything(texts: map<string, string>, found: seq<Found>, f: Found)
    requires Agree(found) && f in found
    ensures At(Stored(texts, found), f.entry) == Some(f.plaintext)
    decreases |found|
  {
    var next := texts[found[0].entry := found[0].plaintext];
    assert found == [found[0]] + found[1..];
    if g :| g in found[1..] && g.entry == f.entry {
      assert g == f;
      StoredEverything(next, found[1..], f);
    } else {
      assert f == found[0];
      StoredElsewhere(next, found[1..], f.entry);
    }
  }

  lemma {:induction false} FoundComesFromSlot(slots: seq<Slot>, f: Found)
    ensures f in FoundIn(slots)
       <==> exists i :: 0 <= i < |slots| && Plain(slots[i])
                        && f == Found(EntryName(slots[i].place), slots[i].value.value.text)
  {
    hide EntryName, Plain;
    if slots != [] {
      FoundComesFromSlot(slots[1..], f);
      if i :| 0 <= i < |slots[1..]| && Plain(slots[1..][i])
              && f == Found(EntryName(slots[1..][i].place), slots[1..][i].value.value.text)
      {
        assert slots[i + 1] == slots[1..][i];
      }
      if i :| 0 <= i < |slots| && Plain(slots[i]) && f == Found(EntryName(slots[i].place), slots[i].value.value.text) {
        assert i > 0 ==> slots[1..][i - 1] == slots[i];
      }
    }
  }

  /** The rewritten field means, to a reader of the new vault, what the plaintext said. */
  ghost predicate KeepsMeaning(slot: Slot, world: World, vault: map<string, string>) {
    Plain(slot) ==>
      && Referring(slot.place, slot.value).value.Str?
      && Resolve(Referring(slot.place, slot.value).value.text, world, vault) == Some(slot.value.value.text)
  }

  lemma ReferenceReadsEntry(slot: Slot, world: World, vault: map<string, string>)
    requires Plain(slot)
    ensures KeepsMeaning(slot, world, vault) <==> At(vault, EntryName(slot.place)) == Some(slot.value.value.text)
  {
    hide EntryName;
    ReferenceRoundTripIff(InVault(EntryName(slot.place)));
  }

  /**
   * Every rewritten field keeps its meaning exactly when no two plaintexts that go
   * to the same vault entry differ.
   */
  lemma MeaningKeptIff(slots: seq<Slot>, texts: map<string, string>, world: World)
    ensures (forall i :: 0 <= i < |slots| ==> KeepsMeaning(slots[i], world, Stored(texts, FoundIn(slots))))
       <==> Agree(FoundIn(slots))
  {
    hide KeepsMeaning, EntryName, Stored, FoundIn;
    var found := FoundIn(slots);
    var after := Stored(texts, found);
    if Agree(found) {
      forall i | 0 <= i < |slots|
        ensures KeepsMeaning(slots[i], world, after)
      {
        AgreedSlotKept(slots, texts, world, i);
      }
    }
    if forall i :: 0 <= i < |slots| ==> KeepsMeaning(slots[i], world, after) {
      forall f, g | f in found && g in found && f.entry == g.entry
        ensures f == g
      {
        FoundIsKept(slots, world, after, f);
        FoundIsKept(slots, world, after, g);
      }
    }
  }

  lemma AgreedSlotKept(slots: seq<Slot>, texts: map<string, string>, world: World, i: nat)
    requires i < |slots| && Agree(FoundIn(slots))
    ensures KeepsMeaning(slots[i], world, Stored(texts, FoundIn(slots)))
  {
    hide Stored, FoundIn, EntryName;
    if Plain(slots[i]) {
      var f := Found(EntryName(slots[i].place), slots[i].value.value.text);
      FoundComesFromSlot(slots, f);
      StoredEverything(texts, FoundIn(slots), f);
      ReferenceReadsEntry(slots[i], world, Stored(texts, FoundIn(slots)));
    }
  }

  lemma FoundIsKept(slots: seq<Slot>, world: World, vault: map<string, string>, f: Found)
    requires f in FoundIn(slots)
    requires forall i :: 0 <= i < |slots| ==> KeepsMeaning(slots[i], world, vault)
    ensures At(vault, f.entry) == Some(f.plaintext)
  {
    hide KeepsMeaning, FoundIn, EntryName;
    FoundComesFromSlot(slots, f);
    var i :| 0 <= i < |slots| && Plain(slots[i]) && f == Found(EntryName(slots[i].place), slots[i].value.value.text);
    ReferenceReadsEntry(slots[i], world, vault);
  }

  // ---------------------------------------------------------------------------
  // Unique names are enough
  // ---------------------------------------------------------------------------

  ghost predicate DistinctPlaces(slots: seq<Slot>) {
    forall i, j :: 0 <= i < j < |slots| ==> slots[i].place != slots[j].place
  }

  /** Keys of a TOML table are unique; gateways are a list, so their names need not be. */
  ghost predicate UniqueNames(server: Option<ServerDoc>, config: Option<ConfigDoc>) {
    && (server.Some? ==> UniqueAliases(server.value.servers))
    && (config.Some? && config.value.review.Some? ==> UniqueHeaders(config.value.review.value.headers))
    && (config.Some? ==> UniqueGateways(config.value.gateways))
  }

  ghost predicate UniqueAliases(rows: seq<ServerRow>) {
    forall i, j :: 0 <= i < j < |rows| ==> rows[i].alias != rows[j].alias
  }

  ghost predicate UniqueHeaders(headers: seq<Header>) {
    forall i, j :: 0 <= i < j < |headers| ==> headers[i].name != headers[j].name
  }

  ghost predicate UniqueGateways(gateways: seq<Gateway>) {
    forall i, j :: 0 <= i < j < |gateways| ==> GatewayName(gateways[i]) != GatewayName(gateways[j])
  }

  lemma {:induction false} ServerPlaces(rows: seq<ServerRow>)
    ensures forall s :: s in ServerSlots(rows) ==>
              s.place.ServerPassword? && exists i :: 0 <= i < |rows| && rows[i].alias == s.place.alias
    ensures UniqueAliases(rows) ==> DistinctPlaces(ServerSlots(rows))
  {
    if rows != [] {
      ServerPlaces(rows[1..]);
      forall s | s in ServerSlots(rows)
        ensures s.place.ServerPassword? && exists i :: 0 <= i < |rows| && rows[i].alias == s.place.alias
      {
        if s in ServerSlots(rows[1..]) {
          var i :| 0 <= i < |rows[1..]| && rows[1..][i].alias == s.place.alias;
          assert rows[i + 1].alias == s.place.alias;
        } else {
          assert rows[0].alias == s.place.alias;
        }
      }
    }
  }

  lemma {:induction false} HeaderPlaces(headers: seq<Header>)
    ensures forall s :: s in HeaderSlots(headers) ==>
              s.place.HeaderValue? && exists i :: 0 <= i < |headers| && headers[i].name == s.place.header
    ensures UniqueHeaders(headers) ==> DistinctPlaces(HeaderSlots(headers))
  {
    if headers != [] {
      HeaderPlaces(headers[1..]);
      forall s | s in HeaderSlots(headers)
        ensures s.place.HeaderValue? && exists i :: 0 <= i < |headers| && headers[i].name == s.place.header
      {
        if s in HeaderSlots(headers[1..]) {
          var i :| 0 <= i < |headers[1..]| && headers[1..][i].name == s.place.header;
          assert headers[i + 1].name == s.place.header;
        } else {
          assert headers[0].name == s.place.header;
        }
      }
    }
  }

  ghost predicate OfGateway(s: Slot, gateways: seq<Gateway>) {
    && (s.place.GatewayPassword? || s.place.GatewayTotp?)
    && exists i :: 0 <= i < |gateways| && GatewayName(gateways[i]) == s.place.gateway
  }

  lemma {:induction false} GatewayPlaces(gateways: seq<Gateway>)
    ensures forall s :: s in GatewaySlots(gateways) ==> OfGateway(s, gateways)
    ensures UniqueGateways(gateways) ==> DistinctPlaces(GatewaySlots(gateways))
  {
    hide GatewayName;
    if gateways != [] {
      var rest := gateways[1..];
      GatewayPlaces(rest);
      var name := GatewayName(gateways[0]);
      var own := [Slot(GatewayPassword(name), gateways[0].password), Slot(GatewayTotp(name), gateways[0].totp)];
      assert GatewaySlots(gateways) == own + GatewaySlots(rest);
      forall s | s in GatewaySlots(gateways)
        ensures OfGateway(s, gateways)
      {
        if s in GatewaySlots(rest) {
          var i :| 0 <= i < |rest| && GatewayName(rest[i]) == s.place.gateway;
          assert GatewayName(gateways[i + 1]) == s.place.gateway;
        } else {
          assert GatewayName(gateways[0]) == s.place.gateway;
        }
      }
      if UniqueGateways(gateways) {
        forall s | s in GatewaySlots(rest)
          ensures s.place != own[0].place && s.place != own[1].place
        {
          var i :| 0 <= i < |rest| && GatewayName(rest[i]) == s.place.gateway;
          assert GatewayName(gateways[i + 1]) != name;
        }
        DistinctJoin(own, GatewaySlots(rest));
      }
    }
  }

  lemma DistinctJoin(a: seq<Slot>, b: seq<Slot>)
    requires DistinctPlaces(a) && DistinctPlaces(b)
    requires forall s, t :: s in a && t in b ==> s.place != t.place
    ensures DistinctPlaces(a + b)
  {
    var c := a + b;
    forall i, j | 0 <= i < j < |c|
      ensures c[i].place != c[j].place
    {
      assert i < |a| ==> c[i] in a;
      assert j >= |a| ==> c[j] in b;
    }
  }

  lemma ReviewPlaces(review: Option<Review>)
    requires review.Some? ==> UniqueHeaders(review.value.headers)
    ensures DistinctPlaces(ReviewSlots(review))
    ensures forall s :: s in ReviewSlots(review) ==> s.place.ApiKey? || s.place.HeaderValue?
  {
    if review.Some? {
      HeaderPlaces(review.value.headers);
      DistinctJoin([Slot(ApiKey, review.value.apiKey)], HeaderSlots(review.value.headers));
    }
  }

  lemma ConfigPlaces(config: ConfigDoc)
    requires UniqueGateways(config.gateways)
    requires config.review.Some? ==> UniqueHeaders(config.review.value.headers)
    ensures DistinctPlaces(ConfigSlots(config))
    ensures forall s :: s in ConfigSlots(config) ==> !s.place.ServerPassword?
  {
    hide ReviewSlots, GatewaySlots, DistinctPlaces, UniqueGateways, UniqueHeaders;
    ReviewPlaces(config.review);
    GatewayPlaces(config.gateways);
    DistinctJoin(ReviewSlots(config.review), GatewaySlots(config.gateways));
  }

  lemma UniqueNamesAgree(server: Option<ServerDoc>, config: Option<ConfigDoc>)
    requires UniqueNames(server, config)
    ensures Agree(FoundIn(AllSlots(server, config)))
  {
    hide ServerSlots, ConfigSlots, FoundIn, EntryName, DistinctPlaces, Agree;
    var a, b := ServerPart(server), ConfigPart(config);
    assert DistinctPlaces(a) && forall s :: s in a ==> s.place.ServerPassword? by {
      NoPlaces();
      if server.Some? {
        ServerPlaces(server.value.servers);
      }
    }
    assert DistinctPlaces(b) && forall s :: s in b ==> !s.place.ServerPassword? by {
      NoPlaces();
      if config.Some? {
        ConfigPlaces(config.value);
      }
    }
    DistinctJoin(a, b);
    DistinctPlacesAgree(a + b);
  }

  lemma NoPlaces()
    ensures DistinctPlaces([])
  {
  }

  lemma DistinctPlacesAgree(slots: seq<Slot>)
    requires DistinctPlaces(slots)
    ensures Agree(FoundIn(slots))
  {
    hide FoundIn, EntryName, Plain;
    var found := FoundIn(slots);
    forall f, g | f in found && g in found && f.entry == g.entry
      ensures f == g
    {
      FoundComesFromSlot(slots, f);
      FoundComesFromSlot(slots, g);
      var i :| 0 <= i < |slots| && Plain(slots[i]) && f == Found(EntryName(slots[i].place), slots[i].value.value.text);
      var j :| 0 <= j < |slots| && Plain(slots[j]) && g == Found(EntryName(slots[j].place), slots[j].value.value.text);
      EntryNamesAreInjective(slots[i].place, slots[j].place);
      assert i == j;
    }
  }

  const SAME_NAME: ConfigDoc :=
    ConfigDoc(None, [Gateway(None, Some(Str("one")), None, ""), Gateway(None, Some(Str("two")), None, "")], None, [], "")

  /** Two gateways without a name share an entry, and one password is lost. */
  lemma SameGatewayNameDisagrees()
    ensures !Agree(FoundIn(AllSlots(None, Some(SAME_NAME))))
  {
    var slots := AllSlots(None, Some(SAME_NAME));
    var gs := SAME_NAME.gateways;
    var p, q := GatewayPassword("unnamed"), GatewayTotp("unnamed");
    assert gs[1..][1..] == [];
    assert GatewaySlots(gs[1..]) == [Slot(p, Some(Str("two"))), Slot(q, None)];
    assert slots == [Slot(p, Some(Str("one"))), Slot(q, None), Slot(p, Some(Str("two"))), Slot(q, None)];
    var f, g := Found(EntryName(p), "one"), Found(EntryName(p), "two");
    assert Plain(slots[0]) && Plain(slots[2]);
    FoundComesFromSlot(slots, f);
    FoundComesFromSlot(slots, g);
    assert f.plaintext[0] != g.plaintext[0];
  }

  // ---------------------------------------------------------------------------
  // The command
  // ---------------------------------------------------------------------------

  /** A vault that exists is opened; otherwise a new one is bound to the identity. */
  function OpenOrInit(c: Crypto, existing: Option<VaultFile>, source: string, salt: string): Option<VaultFile> {
    if existing.Some? then existing
    else if c.fingerprint(source).Some? then Some(VaultFile(salt, c.fingerprint(source).value, map[]))
    else None
  }

  method StoreFound(vault: Vault, found: seq<Found>, source: string) returns (ok: bool)
    modifies vault
    ensures found != [] ==> (ok <==> vault.c.fingerprint(source) == Some(old(vault.file).fingerprint))
    ensures ok && Lawful(vault.c) ==>
              Plaintexts(vault.c, vault.file, source) == Stored(Plaintexts(vault.c, old(vault.file), source), found)
  {
    hide Plaintexts, OpenedAt;
    ghost var goal := Stored(Plaintexts(vault.c, vault.file, source), found);
    assert found[0..] == found;
    for i := 0 to |found|
      invariant vault.file.fingerprint == old(vault.file).fingerprint
      invariant i > 0 ==> vault.c.fingerprint(source) == Some(vault.file.fingerprint)
      invariant Lawful(vault.c) ==> Stored(Plaintexts(vault.c, vault.file, source), found[i..]) == goal
    {
      ghost var before := vault.file;
      var stored := vault.Set(found[i].entry, found[i].plaintext, source);
      if !stored {
        return false;
      }
      assert found[i..][1..] == found[i + 1..];
      if Lawful(vault.c) {
        SetAddsText(vault.c, before, vault.file, found[i].entry, found[i].plaintext, source);
      }
    }
    assert found[|found|..] == [];
    ok := true;
  }

  /** `saved` is the vault file if it was replaced; the documents are as they are on disk afterwards. */
  datatype Result = Result(ok: bool, saved: Option<VaultFile>, server: Option<ServerDoc>, config: Option<ConfigDoc>)

  /** Which of the three file replacements go through. */
  datatype Writes = Writes(vault: bool, server: bool, config: bool)

  /**
   * What the command may leave behind, also when a write fails on the way: the vault goes first, each
   * document is replaced whole or not at all, and only success replaces both.
   */
  ghost predicate IsOutcome(c: Crypto, server: Option<ServerDoc>, config: Option<ConfigDoc>, key: Option<string>,
                            existing: Option<VaultFile>, salt: string, r: Result)
  {
    var found, after := FoundIn(AllSlots(server, config)), Rewritten(server, config);
    && (r.saved.None? ==> r.server == server && r.config == config)
    && (r.saved.Some? ==>
          && (r.server == server || r.server == after.0) && (r.config == config || r.config == after.1)
          && (r.ok ==> r.server == after.0 && r.config == after.1)
          && key.Some? && OpenOrInit(c, existing, key.value, salt).Some?
          && (Lawful(c) ==>
                Plaintexts(c, r.saved.value, key.value)
                == Stored(Plaintexts(c, OpenOrInit(c, existing, key.value, salt).value, key.value), found)))
  }

  lemma RewrittenIs(server: Option<ServerDoc>, config: Option<ConfigDoc>)
    ensures Rewritten(server, config).0 == if server.Some? then Some(ServerRewritten(server.value)) else None
    ensures Rewritten(server, config).1 == if config.Some? then Some(ConfigRewritten(config.value)) else None
  {
  }

  /**
   * `salt` is the random salt of a vault that has to be created.  After a run that is not dry and
   * succeeds, every plaintext field of both documents is its own reference.
   */
  method EncryptSecrets(c: Crypto, server: Option<ServerDoc>, config: Option<ConfigDoc>, key: Option<string>,
                        existing: Option<VaultFile>, salt: string, dryRun: bool, writes: Writes)
    returns (r: Result)
    ensures IsOutcome(c, server, config, key, existing, salt, r)
    ensures FoundIn(AllSlots(server, config)) == [] || dryRun ==> r.ok && r.saved.None?
    ensures r.ok && FoundIn(AllSlots(server, config)) != [] && !dryRun ==> r.saved.Some?
    ensures r.ok <==>
              || FoundIn(AllSlots(server, config)) == [] || dryRun
              || (&& key.Some? && OpenOrInit(c, existing, key.value, salt).Some?
                  && c.fingerprint(key.value) == Some(OpenOrInit(c, existing, key.value, salt).value.fingerprint)
                  && writes.vault && (server.Some? ==> writes.server) && (config.Some? ==> writes.config))
    ensures r.ok && !dryRun ==> DocsMoved(server, config, r.server, r.config)
    ensures r.saved.Some? && Lawful(c) && UniqueNames(server, config) ==>
              DocsHeld(EntriesIn(Plaintexts(c, r.saved.value, key.value)), server, config)
    ensures r.ok && r.saved.Some? ==> writes.vault && (server.Some? ==> writes.server) && (config.Some? ==> writes.config)
  {
    hide FoundIn, Stored, Plaintexts, ServerRewritten, ConfigRewritten, ServerSlots, ConfigSlots;
    hide DocsMoved, Rewritten, DocsHeld, UniqueNames, EntriesIn, RowsHeld, ConfigHeld, EntriesOf;
    RewritingMoves(server, config);
    RewrittenIs(server, config);
    var asBefore := Result(true, None, server, config);
    var found: seq<Found> := [];
    if server.Some? {
      found := CollectServerSecrets(server.value, found);
    }
    if config.Some? {
      found := CollectConfigSecrets(config.value, found);
    }
    assert found == FoundIn(AllSlots(server, config)) by {
      EmptyFinds();
      FoundInConcat(ServerPart(server), ConfigPart(config));
    }
    if found == [] || dryRun {
      if found == [] {
        NothingToRewrite(server, config);
      }
      return asBefore;
    }
    if key.None? {
      return asBefore.(ok := false);
    }
    var ready := OpenOrInit(c, existing, key.value, salt);
    if ready.None? {
      return asBefore.(ok := false);
    }
    if UniqueNames(server, config) {
      SavedHoldsAll(server, config, Plaintexts(c, ready.value, key.value));
    }
    var vault := new Vault(c, ready.value);
    var stored := StoreFound(vault, found, key.value);
    if !stored || !writes.vault {
      return asBefore.(ok := false);
    }
    r := Result(false, Some(vault.file), server, config);
    if server.Some? {
      var doc := RewriteServerSecrets(server.value);
      if !writes.server {
        return;
      }
      r := r.(server := Some(doc));
    }
    if config.Some? {
      var doc := RewriteConfigSecrets(config.value);
      if !writes.config {
        return;
      }
      r := r.(config := Some(doc));
    }
    r := r.(ok := true);
  }

  /** After encrypting there is no plaintext left to find. */
  lemma SecondRunFindsNothing(server: Option<ServerDoc>, config: Option<ConfigDoc>)
    ensures var after := Rewritten(server, config);
            FoundIn(AllSlots(after.0, after.1)) == []
  {
    hide Rewritten, AllSlots, EntryName;
    SlotsFollow(server, config);
    NoneFound(SlotsRewritten(AllSlots(server, config)));
  }

  lemma {:induction false} NoneFound(slots: seq<Slot>)
    requires forall i :: 0 <= i < |slots| ==> !Plain(slots[i])
    ensures FoundIn(slots) == []
  {
    if slots != [] {
      NoneFound(slots[1..]);
    }
  }

  ghost function EntriesIn(texts: map<string, string>): set<Found> {
    set entry | entry in texts :: Found(entry, texts[entry])
  }

  lemma HeldMore(a: set<Found>, b: set<Found>, server: Option<ServerDoc>, config: Option<ConfigDoc>)
    requires DocsHeld(a, server, config) && a <= b
    ensures DocsHeld(b, server, config)
  {
  }

  lemma DocsFound(server: Option<ServerDoc>, config: Option<ConfigDoc>)
    ensures DocsHeld(EntriesOf(FoundIn(AllSlots(server, config))), server, config)
  {
    hide FoundIn, ServerSlots, ConfigSlots, RowsHeld, ConfigHeld;
    var a, b := FoundIn(ServerPart(server)), FoundIn(ConfigPart(config));
    FoundInConcat(ServerPart(server), ConfigPart(config));
    assert EntriesOf(a) <= EntriesOf(a + b) && EntriesOf(b) <= EntriesOf(a + b);
    if server.Some? {
      RowsFound(server.value.servers);
      HeldMore(EntriesOf(a), EntriesOf(a + b), server, None);
    }
    if config.Some? {
      ConfigFound(config.value);
      HeldMore(EntriesOf(b), EntriesOf(a + b), None, config);
    }
  }

  /** With unique names the vault of a saved run holds every plaintext of both documents, under its own entry. */
  lemma SavedHoldsAll(server: Option<ServerDoc>, config: Option<ConfigDoc>, texts: map<string, string>)
    requires UniqueNames(server, config)
    ensures DocsHeld(EntriesIn(Stored(texts, FoundIn(AllSlots(server, config)))), server, config)
  {
    hide FoundIn, AllSlots, Stored, DocsHeld, UniqueNames, Agree;
    var found := FoundIn(AllSlots(server, config));
    var after := Stored(texts, found);
    UniqueNamesAgree(server, config);
    DocsFound(server, config);
    forall f | f in found ensures f in EntriesIn(after) {
      StoredEverything(texts, found, f);
      assert f.entry in after;
    }
    HeldMore(EntriesOf(found), EntriesIn(after), server, config);
  }

  /** Already a reference before: it still reads the same exactly when its entry was not overwritten with another text. */
  lemma OldReferenceKeptIff(slots: seq<Slot>, texts: map<string, string>, world: World, entry: string)
    requires Agree(FoundIn(slots))
    ensures Resolve(VAULT_PREFIX + entry, world, Stored(texts, FoundIn(slots)))
            == Resolve(VAULT_PREFIX + entry, world, texts)
       <==> forall f :: f in FoundIn(slots) && f.entry == entry ==> At(texts, entry) == Some(f.plaintext)
  {
    hide Stored, FoundIn;
    ReferenceRoundTripIff(InVault(entry));
    var found := FoundIn(slots);
    if f :| f in found && f.entry == entry {
      StoredEverything(texts, found, f);
    } else {
      StoredElsewhere(texts, found, entry);
    }
  }

  // ---------------------------------------------------------------------------
  // The promise of the command, over documents and readers
  // ---------------------------------------------------------------------------

  /** What a value stands for; nothing if it is not a string. */
  function ValueMeaning(v: Value, world: World, vault: map<string, string>): Option<string> {
    if v.Str? then Resolve(v.text, world, vault) else None
  }

  function Meaning(slot: Slot, world: World, vault: map<string, string>): Option<string> {
    if slot.value.Some? then ValueMeaning(slot.value.value, world, vault) else None
  }

  predicate Names(v: Value, entry: string) {
    v.Str? && FromReference(v.text) == InVault(entry)
  }

  predicate RefersTo(slot: Slot, entry: string) {
    slot.value.Some? && Names(slot.value.value, entry)
  }

  /** No field refers to an entry that will be overwritten with another text. */
  ghost predicate NoClash(slots: seq<Slot>, texts: map<string, string>) {
    forall i, f :: 0 <= i < |slots| && f in FoundIn(slots) && RefersTo(slots[i], f.entry) ==>
                     At(texts, f.entry) == Some(f.plaintext)
  }

  /** Nor does any value that the command does not visit. */
  ghost predicate NoOtherClash(others: seq<Value>, found: seq<Found>, texts: map<string, string>) {
    forall i, f :: 0 <= i < |others| && f in found && Names(others[i], f.entry) ==> At(texts, f.entry) == Some(f.plaintext)
  }

  /** A value left as it is means the same in the new vault exactly when it does not clash. */
  lemma SameValueKeptIff(slots: seq<Slot>, v: Value, texts: map<string, string>, world: World)
    requires Agree(FoundIn(slots))
    ensures ValueMeaning(v, world, Stored(texts, FoundIn(slots))) == ValueMeaning(v, world, texts)
       <==> forall f :: f in FoundIn(slots) && Names(v, f.entry) ==> At(texts, f.entry) == Some(f.plaintext)
  {
    hide FoundIn, Stored;
    if v.Str? && FromReference(v.text).InVault? {
      var entry := FromReference(v.text).entry;
      assert v.text == VAULT_PREFIX + entry;
      OldReferenceKeptIff(slots, texts, world, entry);
    }
  }

  lemma SameFieldKeptIff(slots: seq<Slot>, i: nat, texts: map<string, string>, world: World)
    requires i < |slots| && Agree(FoundIn(slots))
    ensures Meaning(slots[i], world, Stored(texts, FoundIn(slots))) == Meaning(slots[i], world, texts)
       <==> forall f :: f in FoundIn(slots) && RefersTo(slots[i], f.entry) ==> At(texts, f.entry) == Some(f.plaintext)
  {
    hide FoundIn, Stored, ValueMeaning, Names;
    if slots[i].value.Some? {
      SameValueKeptIff(slots, slots[i].value.value, texts, world);
    }
  }

  lemma PlainIsLiteral(slot: Slot, world: World, vault: map<string, string>)
    requires Plain(slot)
    ensures Meaning(slot, world, vault) == Some(slot.value.value.text)
    ensures forall entry :: !RefersTo(slot, entry)
  {
  }

  /** A rewritten field means what the field meant before, unless it was left as it is and clashes. */
  lemma NewFieldKeptIff(slots: seq<Slot>, i: nat, texts: map<string, string>, world: World)
    requires i < |slots| && Agree(FoundIn(slots))
    ensures Meaning(SlotsRewritten(slots)[i], world, Stored(texts, FoundIn(slots))) == Meaning(slots[i], world, texts)
       <==> forall f :: f in FoundIn(slots) && RefersTo(slots[i], f.entry) ==> At(texts, f.entry) == Some(f.plaintext)
  {
    hide FoundIn, Stored, RefersTo, Resolve, EntryName;
    if Plain(slots[i]) {
      PlainIsLiteral(slots[i], world, texts);
      AgreedSlotKept(slots, texts, world, i);
    } else {
      SameFieldKeptIff(slots, i, texts, world);
    }
  }

  /** Each slot of these documents is the old one or the rewritten one. */
  ghost predicate Mixed(slots: seq<Slot>, now: seq<Slot>) {
    |now| == |slots| && forall i :: 0 <= i < |slots| ==> now[i] == slots[i] || now[i] == SlotsRewritten(slots)[i]
  }

  lemma MixedJoin(a: seq<Slot>, a': seq<Slot>, b: seq<Slot>, b': seq<Slot>)
    requires Mixed(a, a') && Mixed(b, b')
    ensures Mixed(a + b, a' + b')
  {
    forall i | 0 <= i < |a + b|
      ensures (a' + b')[i] == (a + b)[i] || (a' + b')[i] == SlotsRewritten(a + b)[i]
    {
      if i < |a| {
        assert a'[i] == a[i] || a'[i] == SlotsRewritten(a)[i];
      } else {
        assert b'[i - |a|] == b[i - |a|] || b'[i - |a|] == SlotsRewritten(b)[i - |a|];
      }
    }
  }

  lemma OutcomeIsMixed(c: Crypto, server: Option<ServerDoc>, config: Option<ConfigDoc>, key: Option<string>,
                       existing: Option<VaultFile>, salt: string, r: Result)
    requires IsOutcome(c, server, config, key, existing, salt, r)
    ensures Mixed(AllSlots(server, config), AllSlots(r.server, r.config))
    ensures r.ok && r.saved.Some? ==> AllSlots(r.server, r.config) == SlotsRewritten(AllSlots(server, config))
  {
    hide ServerPart, ConfigPart, Lawful, Plaintexts, Stored, FoundIn, Rewritten, OpenOrInit, SlotsRewritten;
    PartsFollow(server, config);
    SlotsFollow(server, config);
    MixedJoin(ServerPart(server), ServerPart(r.server), ConfigPart(config), ConfigPart(r.config));
  }

  /** What a reader with this key source sees in the vault. */
  function Readable(c: Crypto, file: Option<VaultFile>, source: Option<string>): map<string, string> {
    if file.Some? && source.Some? then Plaintexts(c, file.value, source.value) else map[]
  }

  function VaultNow(existing: Option<VaultFile>, r: Result): Option<VaultFile> {
    if r.saved.Some? then r.saved else existing
  }

  lemma ReadableBefore(c: Crypto, existing: Option<VaultFile>, source: string, salt: string)
    requires OpenOrInit(c, existing, source, salt).Some?
    ensures Plaintexts(c, OpenOrInit(c, existing, source, salt).value, source) == Readable(c, existing, Some(source))
  {
  }

  lemma OutcomeDocs(c: Crypto, server: Option<ServerDoc>, config: Option<ConfigDoc>, key: Option<string>,
                    existing: Option<VaultFile>, salt: string, r: Result)
    requires IsOutcome(c, server, config, key, existing, salt, r)
    ensures r.server == server || r.server == Rewritten(server, config).0
    ensures r.config == config || r.config == Rewritten(server, config).1
  {
    hide Lawful, Plaintexts, Stored, FoundIn, OpenOrInit, AllSlots, Rewritten;
  }

  lemma OthersStay(c: Crypto, server: Option<ServerDoc>, config: Option<ConfigDoc>, key: Option<string>,
                   existing: Option<VaultFile>, salt: string, r: Result)
    requires IsOutcome(c, server, config, key, existing, salt, r)
    ensures Unvisited(r.server, r.config) == Unvisited(server, config)
  {
    OutcomeDocs(c, server, config, key, existing, salt, r);
    hide IsOutcome, Rewritten;
    RewritingPassesOver(server, config);
  }

  /** The fields and the other values of `now` read, for this reader, as those of `was` read before. */
  ghost predicate ReadsAsBefore(c: Crypto, was: (Option<ServerDoc>, Option<ConfigDoc>), existing: Option<VaultFile>,
                                r: Result, source: Option<string>, world: World)
  {
    var slots, now := AllSlots(was.0, was.1), AllSlots(r.server, r.config);
    var others := Unvisited(was.0, was.1);
    var before, after := Readable(c, existing, source), Readable(c, VaultNow(existing, r), source);
    && SlotsRead(slots, before, now, after, world)
    && Unvisited(r.server, r.config) == others
    && OthersRead(others, before, after, world)
  }

  ghost predicate SlotsRead(slots: seq<Slot>, before: map<string, string>, now: seq<Slot>, after: map<string, string>,
                            world: World)
  {
    |now| == |slots| && forall i :: 0 <= i < |slots| ==> Meaning(now[i], world, after) == Meaning(slots[i], world, before)
  }

  ghost predicate OthersRead(others: seq<Value>, before: map<string, string>, after: map<string, string>, world: World) {
    forall i :: 0 <= i < |others| ==> ValueMeaning(others[i], world, after) == ValueMeaning(others[i], world, before)
  }

  /** No reference anywhere in the documents names an entry that is overwritten with another text. */
  ghost predicate NothingClashes(server: Option<ServerDoc>, config: Option<ConfigDoc>, texts: map<string, string>) {
    var slots := AllSlots(server, config);
    NoClash(slots, texts) && NoOtherClash(Unvisited(server, config), FoundIn(slots), texts)
  }

  /**
   * The promise: with unique names, and a key source set or remote access enabled, whatever the command
   * leaves behind, every value of the documents then on disk that is read as a secret means, to every
   * reader, what it meant before; references and the values the command does not visit included, unless
   * one names an entry that is overwritten with another text.  After a completed run that exception is
   * exact.
   */
  lemma EncryptKeepsMeaning(c: Crypto, server: Option<ServerDoc>, config: Option<ConfigDoc>, k: KeyConfig,
                            identity: Option<string>, existing: Option<VaultFile>, salt: string, r: Result,
                            fallback: Option<string>, world: World)
    requires Lawful(c) && UniqueNames(server, config) && (k.keySource.Some? || k.remoteEnabled)
    requires IsOutcome(c, server, config, EncryptKey(k, identity), existing, salt, r)
    ensures var reader := ResolverKey(k, fallback);
            var clean := NothingClashes(server, config, Readable(c, existing, reader));
            && (clean ==> ReadsAsBefore(c, (server, config), existing, r, reader, world))
            && (r.ok && r.saved.Some? ==> (ReadsAsBefore(c, (server, config), existing, r, reader, world) <==> clean))
  {
    hide FoundIn, Stored, AllSlots, Unvisited, Plaintexts, UniqueNames, Agree, Meaning, ValueMeaning, RefersTo, Names;
    hide NoClash, NoOtherClash;
    var slots, now, reader := AllSlots(server, config), AllSlots(r.server, r.config), ResolverKey(k, fallback);
    var others, texts := Unvisited(server, config), Readable(c, existing, reader);
    assert reader == EncryptKey(k, identity) && reader.Some?;
    OutcomeIsMixed(c, server, config, reader, existing, salt, r);
    OthersStay(c, server, config, reader, existing, salt, r);
    if r.saved.Some? {
      UniqueNamesAgree(server, config);
      ReadableBefore(c, existing, reader.value, salt);
      MixedKept(slots, now, texts, world);
      OthersKeptIff(slots, others, texts, world);
    }
  }

  lemma OthersKeptIff(slots: seq<Slot>, others: seq<Value>, texts: map<string, string>, world: World)
    requires Agree(FoundIn(slots))
    ensures OthersRead(others, texts, Stored(texts, FoundIn(slots)), world) <==> NoOtherClash(others, FoundIn(slots), texts)
  {
    hide FoundIn, Stored, Agree, ValueMeaning, Names;
    forall i | 0 <= i < |others|
      ensures ValueMeaning(others[i], world, Stored(texts, FoundIn(slots))) == ValueMeaning(others[i], world, texts)
         <==> forall f :: f in FoundIn(slots) && Names(others[i], f.entry) ==> At(texts, f.entry) == Some(f.plaintext)
    {
      SameValueKeptIff(slots, others[i], texts, world);
    }
  }

  lemma MixedKept(slots: seq<Slot>, now: seq<Slot>, texts: map<string, string>, world: World)
    requires Agree(FoundIn(slots)) && Mixed(slots, now)
    ensures NoClash(slots, texts) ==> SlotsRead(slots, texts, now, Stored(texts, FoundIn(slots)), world)
    ensures now == SlotsRewritten(slots) && SlotsRead(slots, texts, now, Stored(texts, FoundIn(slots)), world) ==>
              NoClash(slots, texts)
  {
    hide FoundIn, Stored, Agree, Meaning, RefersTo;
    forall i | 0 <= i < |slots|
      ensures NoClash(slots, texts) ==>
                Meaning(now[i], world, Stored(texts, FoundIn(slots))) == Meaning(slots[i], world, texts)
    {
      NewFieldKeptIff(slots, i, texts, world);
      SameFieldKeptIff(slots, i, texts, world);
    }
    if now == SlotsRewritten(slots) && SlotsRead(slots, texts, now, Stored(texts, FoundIn(slots)), world) {
      forall i, f | 0 <= i < |slots| && f in FoundIn(slots) && RefersTo(slots[i], f.entry)
        ensures At(texts, f.entry) == Some(f.plaintext)
      {
        NewFieldKeptIff(slots, i, texts, world);
      }
    }
  }

  const OTHERS_ENTRY: string := EntryName(GatewayPassword("b"))

  const CROSSED: seq<Slot> := [Slot(GatewayPassword("a"), Some(Str(VAULT_PREFIX + OTHERS_ENTRY))), Slot(GatewayTotp("a"), None),
                               Slot(GatewayPassword("b"), Some(Str("new"))), Slot(GatewayTotp("b"), None)]

  const CROSSED_DOC: ConfigDoc :=
    ConfigDoc(None, [Gateway(Some(Str("a")), CROSSED[0].value, None, ""), Gateway(Some(Str("b")), CROSSED[2].value, None, "")],
              None, [], "")

  lemma CrossedSlots()
    ensures AllSlots(None, Some(CROSSED_DOC)) == CROSSED && UniqueNames(None, Some(CROSSED_DOC))
  {
    hide EntryName;
    var gs := CROSSED_DOC.gateways;
    assert gs[1..][1..] == [];
    assert GatewaySlots(gs[1..]) == [CROSSED[2], CROSSED[3]];
    assert GatewaySlots(gs) == [CROSSED[0], CROSSED[1]] + GatewaySlots(gs[1..]);
    assert |"a"| == 1 && "a"[0] != "b"[0];
  }

  /** A clash: gateway `a` refers to the entry that gateway `b`'s plaintext is about to overwrite. */
  lemma CrossedReferenceClashes()
    ensures UniqueNames(None, Some(CROSSED_DOC))
    ensures !NoClash(AllSlots(None, Some(CROSSED_DOC)), map[OTHERS_ENTRY := "old"])
  {
    hide EntryName, FoundIn, AllSlots, UniqueNames;
    CrossedSlots();
    var f := Found(OTHERS_ENTRY, "new");
    assert Plain(CROSSED[2]);
    FoundComesFromSlot(CROSSED, f);
    ReferenceRoundTripIff(InVault(OTHERS_ENTRY));
    assert RefersTo(CROSSED[0], f.entry);
    assert "new"[0] != "old"[0];
  }

  const TOKEN_DOC: ConfigDoc :=
    ConfigDoc(Some(Review(Some(Str("new")), [], "")), [], Some(Str(VAULT_PREFIX + EntryName(ApiKey))), [], "")

  /** A clash outside the visited fields: the bootstrap token refers to the entry the API key overwrites. */
  lemma TokenReferenceClashes()
    ensures UniqueNames(None, Some(TOKEN_DOC))
    ensures var texts := map[EntryName(ApiKey) := "old"];
            NoClash(AllSlots(None, Some(TOKEN_DOC)), texts) && !NothingClashes(None, Some(TOKEN_DOC), texts)
  {
    hide EntryName, FoundIn;
    var slot := Slot(ApiKey, Some(Str("new")));
    var slots, others := AllSlots(None, Some(TOKEN_DOC)), Unvisited(None, Some(TOKEN_DOC));
    assert slots == [slot] && others == [TOKEN_DOC.bootstrapToken.value];
    assert Plain(slot) && !IsReference("new");
    FoundInOne(slot);
    var f := Found(EntryName(ApiKey), "new");
    assert FoundIn(slots) == [f];
    ReferenceRoundTripIff(InVault(EntryName(ApiKey)));
    assert Names(others[0], f.entry);
    assert "new"[0] != "old"[0];
  }
}
