/**
 * Bootstrap tokens: the in-memory store of issued tokens.  Only a digest of a
 * token is kept.  `hash` is the digest function (any function from strings to
 * strings; nothing is assumed of it unless a lemma says so), and the clock is a
 * parameter of each call, free to stand still or go backwards.
 */
module Tokens {
  import opened Bytes

  const PREFIX_LEN: nat := 8

  datatype Entry = Entry(hash: string, prefix: string, expires: int, once: bool, consumed: bool,
                         created: int, note: Option<string>)

  type Store = map<string, Entry>

  datatype Event =
    | Generate(token: string, now: int, ttl: nat, once: bool, note: Option<string>)
    | Validate(raw: string, now: int)
    | Invalidate(needle: string)
    | List(now: int)

  predicate IsWhitespace(c: char) {
    var n := c as int;
    9 <= n <= 13 || n == 0x20 || n == 0x85 || n == 0xA0 || n == 0x1680 || 0x2000 <= n <= 0x200A
    || n == 0x2028 || n == 0x2029 || n == 0x202F || n == 0x205F || n == 0x3000
  }

  function Trim(s: string): string {
    if s == [] then s
    else if IsWhitespace(s[0]) then Trim(s[1..])
    else if IsWhitespace(s[|s| - 1]) then Trim(s[..|s| - 1])
    else s
  }

  /** The usual blanks are, letters, digits and the dash are not. */
  lemma WhitespaceIs(c: char)
    ensures c == ' ' || c == '\t' || c == '\n' || c == '\r' || c == '\U{A0}' || c == '\U{3000}' ==> IsWhitespace(c)
    ensures '!' <= c <= '~' ==> !IsWhitespace(c)
  {
  }

  predicate IsBlank(s: string) {
    forall i :: 0 <= i < |s| ==> IsWhitespace(s[i])
  }

  /** Trimming takes the blanks off both ends and nothing else. */
  lemma {:induction false} TrimKeepsCore(left: string, core: string, right: string)
    requires IsBlank(left) && IsBlank(right)
    requires core != "" ==> !IsWhitespace(core[0]) && !IsWhitespace(core[|core| - 1])
    ensures Trim(left + core + right) == core
    decreases |left| + |right|
  {
    hide IsWhitespace;
    var s := left + core + right;
    if left != "" {
      assert s[1..] == left[1..] + core + right;
      TrimKeepsCore(left[1..], core, right);
    } else if core == "" && right != "" {
      assert s[1..] == "" + core + right[1..];
      TrimKeepsCore("", core, right[1..]);
    } else if right != "" {
      assert s[0] == core[0] && s[..|s| - 1] == left + core + right[..|right| - 1];
      TrimKeepsCore(left, core, right[..|right| - 1]);
    } else {
      assert s == core;
    }
  }

  function PrefixOf(token: string): (r: string) {
    if |token| <= PREFIX_LEN then token else token[..PREFIX_LEN]
  }

  function Issued(hash: string -> string, e: Event): Entry
    requires e.Generate?
  {
    Entry(hash(e.token), PrefixOf(e.token), e.now + e.ttl, e.once, false, e.now, e.note)
  }

  predicate Expired(entry: Entry, now: int) {
    now > entry.expires
  }

  function WithoutPrefix(m: Store, prefix: string): Store {
    map h | h in m && m[h].prefix != prefix :: m[h]
  }

  function Swept(m: Store, now: int): Store {
    map h | h in m && !Expired(m[h], now) :: m[h]
  }

  function Invalidated(m: Store, h: string, needle: string): Store {
    if h in m then m - {h} else WithoutPrefix(m, needle)
  }

  predicate Accepts(m: Store, h: string, now: int) {
    h in m && !Expired(m[h], now) && !(m[h].once && m[h].consumed)
  }

  function Validated(m: Store, h: string, now: int): Store {
    if h !in m then m
    else if Expired(m[h], now) then m - {h}
    else if m[h].once then m[h := m[h].(consumed := true)]
    else m
  }

  /** The store after one call. */
  function Apply(hash: string -> string, m: Store, e: Event): Store {
    match e
    case Generate(token, _, _, _, _) => m[hash(token) := Issued(hash, e)]
    case Validate(raw, now) => Validated(m, hash(raw), now)
    case Invalidate(needle) => Invalidated(m, hash(Trim(needle)), Trim(needle))
    case List(now) => Swept(m, now)
  }

  function Run(hash: string -> string, events: seq<Event>): Store {
    if events == [] then map[]
    else Apply(hash, Run(hash, events[..|events| - 1]), events[|events| - 1])
  }

  class TokenStore {
    const hash: string -> string
    var entries: Store

    ghost predicate Valid()
      reads this
    {
      forall h :: h in entries ==> entries[h].hash == h
    }

    constructor (hash: string -> string)
      ensures Valid() && this.hash == hash && entries == Run(hash, [])
    {
      this.hash := hash;
      entries := map[];
    }

    /** `token` is the random text drawn by the call. */
    method Generate(token: string, now: int, ttl: nat, once: bool, note: Option<string>) returns (r: string)
      requires Valid()
      modifies this
      ensures Valid() && r == token
      ensures entries == Apply(hash, old(entries), Event.Generate(token, now, ttl, once, note))
      ensures entries == old(entries)[hash(token) :=
                Entry(hash(token), if |token| <= 8 then token else token[..8], now + ttl, once, false, now, note)]
    {
      var h := hash(token);
      entries := entries[h := Entry(h, PrefixOf(token), now + ttl, once, false, now, note)];
      r := token;
    }

    method Validate(raw: string, now: int) returns (ok: bool)
      requires Valid()
      modifies this
      ensures Valid()
      ensures ok == Accepts(old(entries), hash(raw), now)
      ensures entries == Apply(hash, old(entries), Event.Validate(raw, now))
    {
      var h := hash(raw);
      if h !in entries {
        return false;
      }
      var entry := entries[h];
      if Expired(entry, now) {
        entries := entries - {h};
        return false;
      }
      if entry.once && entry.consumed {
        assert entry.(consumed := true) == entry;
        return false;
      }
      if entry.once {
        entries := entries[h := entry.(consumed := true)];
      }
      ok := true;
    }

    method Invalidate(tokenOrPrefix: string) returns (removed: bool)
      requires Valid()
      modifies this
      ensures Valid()
      ensures removed <==> entries != old(entries)
      ensures entries == Apply(hash, old(entries), Event.Invalidate(tokenOrPrefix))
    {
      var needle := Trim(tokenOrPrefix);
      var h := hash(needle);
      if h in entries {
        entries := entries - {h};
        assert h in old(entries) && h !in entries;
        return true;
      }
      var doomed := Where(entries, HasPrefix(needle));
      ghost var before := entries;
      removed := doomed != [];
      RemoveAll(doomed);
      assert removed ==> doomed[0] in before && doomed[0] !in entries;
    }

    method List(now: int) returns (list: seq<Entry>)
      requires Valid()
      modifies this
      ensures Valid()
      ensures entries == Apply(hash, old(entries), Event.List(now))
      ensures Ordered(list) && Lists(list, entries, entries.Keys)
    {
      var doomed := Where(entries, IsPast(now));
      RemoveAll(doomed);
      list := [];
      var keys := entries.Keys;
      while keys != {}
        invariant keys <= entries.Keys
        invariant Valid() && entries == Swept(old(entries), now)
        invariant Ordered(list) && Lists(list, entries, entries.Keys - keys)
        decreases keys
      {
        var h :| h in keys;
        list := InsertByExpiry(list, entries[h]);
        keys := keys - {h};
      }
    }

    method RemoveAll(doomed: seq<string>)
      requires Valid()
      modifies this
      ensures Valid()
      ensures entries == map h | h in old(entries) && h !in doomed :: old(entries)[h]
    {
      for i := 0 to |doomed|
        invariant Valid()
        invariant entries == map h | h in old(entries) && h !in doomed[..i] :: old(entries)[h]
      {
        assert doomed[..i + 1] == doomed[..i] + [doomed[i]];
        entries := entries - {doomed[i]};
      }
      assert doomed[..|doomed|] == doomed;
    }
  }

  datatype Filter = HasPrefix(prefix: string) | IsPast(now: int)

  predicate Selects(f: Filter, e: Entry) {
    match f
    case HasPrefix(prefix) => e.prefix == prefix
    case IsPast(now) => Expired(e, now)
  }

  /** The keys, in some order, of the entries a filter selects. */
  method Where(m: Store, f: Filter) returns (r: seq<string>)
    ensures forall h :: h in r <==> h in m && Selects(f, m[h])
  {
    r := [];
    var keys := m.Keys;
    while keys != {}
      invariant keys <= m.Keys
      invariant forall h :: h in r <==> h in m && h !in keys && Selects(f, m[h])
      decreases keys
    {
      var h :| h in keys;
      if Selects(f, m[h]) {
        r := r + [h];
      }
      keys := keys - {h};
    }
  }

  /** Soonest to expire first, no digest twice. */
  ghost predicate Ordered(list: seq<Entry>) {
    forall i, j :: 0 <= i < j < |list| ==> list[i].hash != list[j].hash && list[i].expires <= list[j].expires
  }

  ghost predicate Lists(list: seq<Entry>, m: Store, hs: set<string>) {
    && (forall e :: e in list ==> e.hash in hs && e.hash in m && e == m[e.hash])
    && (forall h :: h in hs && h in m ==> m[h] in list)
  }

  /** Where an entry goes in a list sorted by expiry. */
  method InsertByExpiry(list: seq<Entry>, entry: Entry) returns (r: seq<Entry>)
    requires Ordered(list) && forall e :: e in list ==> e.hash != entry.hash
    ensures Ordered(r)
    ensures forall e :: e in r <==> e == entry || e in list
  {
    var k := |list|;
    while k > 0 && list[k - 1].expires > entry.expires
      invariant 0 <= k <= |list|
      invariant k < |list| ==> list[k].expires > entry.expires
    {
      k := k - 1;
    }
    r := list[..k] + [entry] + list[k..];
    InsertKeepsOrder(list, entry, k);
    InsertAdds(list, entry, k);
  }

  lemma InsertAdds(list: seq<Entry>, entry: Entry, k: nat)
    requires k <= |list|
    ensures forall e :: e in list[..k] + [entry] + list[k..] <==> e == entry || e in list
  {
    assert list == list[..k] + list[k..];
  }

  lemma InsertKeepsOrder(list: seq<Entry>, entry: Entry, k: nat)
    requires k <= |list| && Ordered(list) && forall e :: e in list ==> e.hash != entry.hash
    requires k > 0 ==> list[k - 1].expires <= entry.expires
    requires k < |list| ==> list[k].expires > entry.expires
    ensures Ordered(list[..k] + [entry] + list[k..])
  {
    var r := list[..k] + [entry] + list[k..];
    forall i, j | 0 <= i < j < |r|
      ensures r[i].hash != r[j].hash && r[i].expires <= r[j].expires
    {
      if i < k {
        assert r[i] == list[i] && list[i].expires <= list[k - 1].expires;
      } else if i > k {
        assert r[i] == list[i - 1];
      }
      if j < k {
        assert r[j] == list[j];
      } else if j > k {
        assert r[j] == list[j - 1] && list[k].expires <= list[j - 1].expires;
      }
    }
  }

  // ---------------------------------------------------------------------------
  // What the history alone says
  // ---------------------------------------------------------------------------

  /**
   * The call `e`, made after the calls `before`, takes the token issued by `g`
   * out of the store (or replaces it).  Said from the history only.
   */
  ghost predicate Retires(hash: string -> string, before: seq<Event>, e: Event, g: Event)
    requires g.Generate?
    decreases |before|, 2
  {
    match e
    case Generate(token, _, _, _, _) => hash(token) == hash(g.token)
    case Validate(raw, now) => hash(raw) == hash(g.token) && now > g.now + g.ttl
    case Invalidate(needle) =>
      hash(Trim(needle)) == hash(g.token)
      || (Trim(needle) == PrefixOf(g.token) && !OnRecord(hash, before, hash(Trim(needle))))
    case List(now) => now > g.now + g.ttl
  }

  /** Call `i` issued a token with digest `h`, and nothing has retired it since. */
  ghost predicate InForce(hash: string -> string, events: seq<Event>, h: string, i: int): (r: bool)
    ensures r ==> 0 <= i < |events| && events[i].Generate? && hash(events[i].token) == h
    decreases |events|, 0
  {
    && 0 <= i < |events| && events[i].Generate? && hash(events[i].token) == h
    && forall j :: i < j < |events| ==> !Retires(hash, events[..j], events[j], events[i])
  }

  ghost predicate OnRecord(hash: string -> string, events: seq<Event>, h: string)
    decreases |events|, 1
  {
    exists i :: InForce(hash, events, h, i)
  }

  lemma IssueOnRecord(hash: string -> string, events: seq<Event>, h: string) returns (i: int)
    requires OnRecord(hash, events, h)
    ensures InForce(hash, events, h, i)
  {
    i :| InForce(hash, events, h, i);
  }

  predicate Presents(hash: string -> string, e: Event, h: string) {
    e.Validate? && hash(e.raw) == h
  }

  /** Some call after call `i` presented the digest `h`. */
  ghost predicate Presented(hash: string -> string, events: seq<Event>, h: string, i: int) {
    exists j :: 0 <= i < j < |events| && Presents(hash, events[j], h)
  }

  ghost predicate Acceptable(hash: string -> string, events: seq<Event>, h: string, now: int, i: int) {
    && InForce(hash, events, h, i)
    && now <= events[i].now + events[i].ttl
    && (events[i].once ==> !Presented(hash, events, h, i))
  }

  lemma InForceStep(hash: string -> string, events: seq<Event>, e: Event, h: string, i: int)
    ensures InForce(hash, events + [e], h, i)
       <==> (i == |events| && e.Generate? && hash(e.token) == h)
            || (InForce(hash, events, h, i) && !Retires(hash, events, e, events[i]))
  {
    hide Retires;
    var more := events + [e];
    assert more[..|events|] == events;
    if 0 <= i < |events| {
      assert more[i] == events[i];
      assert forall j :: 0 <= j < |events| ==> more[..j] == events[..j] && more[j] == events[j];
      if InForce(hash, events, h, i) && !Retires(hash, events, e, events[i]) {
        forall j | i < j < |more|
          ensures !Retires(hash, more[..j], more[j], more[i])
        {
          if j < |events| {
            assert more[..j] == events[..j];
          }
        }
      }
      if InForce(hash, more, h, i) {
        forall j | i < j < |events|
          ensures !Retires(hash, events[..j], events[j], events[i])
        {
          assert !Retires(hash, more[..j], more[j], more[i]);
          assert more[..j] == events[..j];
        }
        assert !Retires(hash, more[..|events|], more[|events|], more[i]);
      }
    }
  }

  lemma PresentedStep(hash: string -> string, events: seq<Event>, e: Event, h: string, i: int)
    requires 0 <= i < |events|
    ensures Presented(hash, events + [e], h, i) <==> Presented(hash, events, h, i) || Presents(hash, e, h)
  {
    hide Presents;
    var more := events + [e];
    if Presented(hash, events, h, i) {
      var j :| i < j < |events| && Presents(hash, events[j], h);
      assert more[j] == events[j];
    }
    if Presents(hash, e, h) {
      assert more[|events|] == e;
    }
    if Presented(hash, more, h, i) && !Presents(hash, e, h) {
      var j :| i < j < |more| && Presents(hash, more[j], h);
      assert more[j] == events[j];
    }
  }

  /** What the store holds for a token in force. */
  function HeldFor(hash: string -> string, g: Event, presented: bool): Entry
    requires g.Generate?
  {
    Issued(hash, g).(consumed := g.once && presented)
  }

  ghost predicate Matches(hash: string -> string, events: seq<Event>, m: Store, h: string) {
    && (h in m <==> OnRecord(hash, events, h))
    && forall i :: InForce(hash, events, h, i) ==>
         h in m && m[h] == HeldFor(hash, events[i], Presented(hash, events, h, i))
  }

  lemma StepMatches(hash: string -> string, events: seq<Event>, m: Store, e: Event, h: string)
    requires forall k :: Matches(hash, events, m, k)
    ensures Matches(hash, events + [e], Apply(hash, m, e), h)
  {
    hide InForce, Presented, Retires, Apply;
    var more, after := events + [e], Apply(hash, m, e);
    assert Matches(hash, events, m, h);
    forall i | InForce(hash, more, h, i)
      ensures h in after && after[h] == HeldFor(hash, more[i], Presented(hash, more, h, i))
    {
      InForceStep(hash, events, e, h, i);
      if i == |events| && e.Generate? && hash(e.token) == h {
        JustIssued(hash, events, m, e);
      } else {
        SurvivorMatches(hash, events, m, e, h, i);
      }
    }
    if OnRecord(hash, more, h) {
      var i := IssueOnRecord(hash, more, h);
      assert h in after;
    } else {
      GoneMatches(hash, events, m, e, h);
    }
  }

  lemma JustIssued(hash: string -> string, events: seq<Event>, m: Store, e: Event)
    requires e.Generate?
    ensures hash(e.token) in Apply(hash, m, e)
    ensures Apply(hash, m, e)[hash(e.token)]
         == HeldFor(hash, (events + [e])[|events|], Presented(hash, events + [e], hash(e.token), |events|))
  {
  }

  lemma SurvivorMatches(hash: string -> string, events: seq<Event>, m: Store, e: Event, h: string, i: int)
    requires forall k :: Matches(hash, events, m, k)
    requires InForce(hash, events, h, i) && !Retires(hash, events, e, events[i])
    ensures h in Apply(hash, m, e)
    ensures Apply(hash, m, e)[h] == HeldFor(hash, (events + [e])[i], Presented(hash, events + [e], h, i))
  {
    hide Presented, OnRecord;
    assert Matches(hash, events, m, h);
    PresentedStep(hash, events, e, h, i);
    assert (events + [e])[i] == events[i];
    if e.Invalidate? {
      assert Matches(hash, events, m, hash(Trim(e.needle)));
    }
  }

  lemma GoneMatches(hash: string -> string, events: seq<Event>, m: Store, e: Event, h: string)
    requires forall k :: Matches(hash, events, m, k)
    requires !OnRecord(hash, events + [e], h)
    ensures h !in Apply(hash, m, e)
  {
    hide InForce, Presented;
    assert Matches(hash, events, m, h);
    InForceStep(hash, events, e, h, |events|);
    assert !InForce(hash, events + [e], h, |events|);
    if OnRecord(hash, events, h) {
      var i := IssueOnRecord(hash, events, h);
      InForceStep(hash, events, e, h, i);
      assert !InForce(hash, events + [e], h, i);
      RetiredIsGone(hash, events, m, e, h, i);
    }
  }

  lemma RetiredIsGone(hash: string -> string, events: seq<Event>, m: Store, e: Event, h: string, i: int)
    requires forall k :: Matches(hash, events, m, k)
    requires InForce(hash, events, h, i) && Retires(hash, events, e, events[i])
    requires !(e.Generate? && hash(e.token) == h)
    ensures h !in Apply(hash, m, e)
  {
    hide Presented, OnRecord;
    assert Matches(hash, events, m, h);
    if e.Invalidate? {
      assert Matches(hash, events, m, hash(Trim(e.needle)));
    }
  }

  /** The store holds exactly the tokens in force, with the right flags. */
  lemma {:induction false} StoreIsHistory(hash: string -> string, events: seq<Event>, h: string)
    ensures Matches(hash, events, Run(hash, events), h)
    decreases |events|
  {
    if events == [] {
      assert forall i :: !InForce(hash, events, h, i);
    } else {
      var n := |events| - 1;
      forall k
        ensures Matches(hash, events[..n], Run(hash, events[..n]), k)
      {
        StoreIsHistory(hash, events[..n], k);
      }
      StepMatches(hash, events[..n], Run(hash, events[..n]), events[n], h);
      assert events == events[..n] + [events[n]];
    }
  }

  /**
   * After any run, presenting `raw` is accepted exactly when some call issued a
   * token with its digest, nothing has retired that token since, it has not
   * expired, and, for a one-time token, it has not been presented since.
   */
  lemma AcceptedIff(hash: string -> string, events: seq<Event>, raw: string, now: int)
    ensures Accepts(Run(hash, events), hash(raw), now)
       <==> exists i :: Acceptable(hash, events, hash(raw), now, i)
  {
    hide InForce, Presented, Run;
    var m, h := Run(hash, events), hash(raw);
    StoreIsHistory(hash, events, h);
    if Accepts(m, h, now) {
      var i := IssueOnRecord(hash, events, h);
      assert Acceptable(hash, events, h, now, i);
    }
    if i :| Acceptable(hash, events, h, now, i) {
      assert m[h] == HeldFor(hash, events[i], Presented(hash, events, h, i));
    }
  }

  ghost predicate AcceptedAt(hash: string -> string, events: seq<Event>, j: int) {
    0 <= j < |events| && events[j].Validate? && Accepts(Run(hash, events[..j]), hash(events[j].raw), events[j].now)
  }

  ghost predicate NotReissued(hash: string -> string, events: seq<Event>, h: string, from: int, to: int) {
    forall l :: 0 <= from < l < to <= |events| && events[l].Generate? ==> hash(events[l].token) != h
  }

  /**
   * A one-time token wins once: of two presentations of the same digest with no
   * new issue between them, the second is refused if the first was accepted.
   */
  lemma OneTimeTokenWinsOnce(hash: string -> string, events: seq<Event>, h: string, g: int, j: int, k: int)
    requires 0 <= g < j < k < |events|
    requires events[g].Generate? && events[g].once && hash(events[g].token) == h
    requires Presents(hash, events[j], h) && Presents(hash, events[k], h)
    requires NotReissued(hash, events, h, g, k)
    ensures !AcceptedAt(hash, events, k)
  {
    hide Run, Accepts;
    AcceptedIff(hash, events[..k], events[k].raw, events[k].now);
    forall i
      ensures !Acceptable(hash, events[..k], h, events[k].now, i)
    {
      if i == g {
        assert events[..k][g] == events[g] && events[..k][j] == events[j];
        assert Presented(hash, events[..k], h, i);
      } else {
        OnlyNewestInForce(hash, events, h, g, k, i);
      }
    }
  }

  lemma OnlyNewestInForce(hash: string -> string, events: seq<Event>, h: string, g: int, k: int, i: int)
    requires 0 <= g < k <= |events| && events[g].Generate? && hash(events[g].token) == h
    requires NotReissued(hash, events, h, g, k) && i != g
    ensures !InForce(hash, events[..k], h, i)
  {
    var before := events[..k];
    if 0 <= i < g && before[i].Generate? && hash(before[i].token) == h {
      assert Retires(hash, before[..g], before[g], before[i]);
    }
  }

  ghost predicate Injective(hash: string -> string) {
    forall a, b :: hash(a) == hash(b) ==> a == b
  }

  /** With a collision-free digest only texts that were issued are ever accepted. */
  lemma AcceptedWasIssued(hash: string -> string, events: seq<Event>, j: int)
    requires Injective(hash) && AcceptedAt(hash, events, j)
    ensures exists i :: 0 <= i < j && events[i].Generate? && events[i].token == events[j].raw
  {
    hide Run, Accepts;
    AcceptedIff(hash, events[..j], events[j].raw, events[j].now);
    var i :| Acceptable(hash, events[..j], hash(events[j].raw), events[j].now, i);
    assert events[..j][i] == events[i];
  }

  // ---------------------------------------------------------------------------
  // Invalidating by a stored digest
  // ---------------------------------------------------------------------------

  /**
   * Giving the digest of a stored token takes the token out exactly when that text is its own digest,
   * or is no known digest and happens to be the token's prefix.
   */
  lemma InvalidateByDigestIff(hash: string -> string, m: Store, h: string)
    requires h in m
    ensures h !in Apply(hash, m, Invalidate(h))
       <==> hash(Trim(h)) == h || (hash(Trim(h)) !in m && m[h].prefix == Trim(h))
  {
  }

  /** What SHA-256 in hexadecimal yields: 64 characters, none of them white space. */
  ghost predicate IsDigest(h: string) {
    |h| == 64 && forall i :: 0 <= i < |h| ==> !IsWhitespace(h[i])
  }

  ghost predicate YieldsDigests(hash: string -> string) {
    forall s :: IsDigest(hash(s))
  }

  lemma StoredUnderItsDigest(hash: string -> string, events: seq<Event>, h: string)
    requires YieldsDigests(hash) && h in Run(hash, events)
    ensures IsDigest(h) && |Run(hash, events)[h].prefix| <= PREFIX_LEN
  {
    hide Run, InForce, IsDigest;
    StoreIsHistory(hash, events, h);
    var i := IssueOnRecord(hash, events, h);
    assert IsDigest(hash(events[i].token));
  }

  /** Of a real digest only the first way is left: after any run, no token goes unless its digest is its own digest. */
  lemma RealDigestIff(hash: string -> string, events: seq<Event>, h: string)
    requires YieldsDigests(hash) && h in Run(hash, events)
    ensures h !in Apply(hash, Run(hash, events), Invalidate(h)) <==> hash(h) == h
  {
    hide Run, YieldsDigests, IsWhitespace;
    StoredUnderItsDigest(hash, events, h);
    TrimKeepsCore("", h, "");
    assert "" + h + "" == h;
    InvalidateByDigestIff(hash, Run(hash, events), h);
  }

  function Repeat(c: char): string {
    seq(64, _ => c)
  }

  /** A digest function on two classes of texts. */
  function ToyDigest(s: string): string {
    if s == "t" then Repeat('a') else Repeat('b')
  }

  const ISSUED: seq<Event> := [Generate("t", 0, 10, false, None)]

  /** One token, invalidated by the digest it is listed under, is still accepted afterwards. */
  lemma DigestLeavesTokenAccepted()
    ensures YieldsDigests(ToyDigest)
    ensures ToyDigest("t") in Run(ToyDigest, ISSUED)
    ensures Accepts(Run(ToyDigest, ISSUED + [Invalidate(ToyDigest("t"))]), ToyDigest("t"), 5)
  {
    var h := ToyDigest("t");
    var m := Run(ToyDigest, ISSUED);
    assert ISSUED[..0] == [];
    assert h in m && m[h] == Issued(ToyDigest, ISSUED[0]);
    assert |h| == 64 && h[0] == 'a' && ToyDigest(h)[0] == 'b' by {
      assert h != "t";
    }
    RealDigestIff(ToyDigest, ISSUED, h);
    var more := ISSUED + [Invalidate(h)];
    assert more[..1] == ISSUED;
    InvalidateOnlyRemoves(ToyDigest, m, h);
  }

  lemma InvalidateOnlyRemoves(hash: string -> string, m: Store, needle: string)
    ensures forall h :: h in Apply(hash, m, Invalidate(needle)) ==>
              h in m && Apply(hash, m, Invalidate(needle))[h] == m[h]
  {
  }
}
