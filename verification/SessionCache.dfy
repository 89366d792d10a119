/**
 * The cache of navigated shells: an ordered map and a lazily stale reverse index that together
 * behave like a plain insertion-ordered list.
 */
module SessionCache {
  import opened Bytes

  /** `(last_used, unique_id)`, ordered by time and then by id. */
  datatype ShellKey = ShellKey(at: int, id: nat)

  predicate Before(a: ShellKey, b: ShellKey) {
    a.at < b.at || (a.at == b.at && a.id < b.id)
  }

  datatype Cached<S> = Cached(ip: string, shell: S)

  /** One element of the list the cache stands for. */
  datatype Item<S> = Item(at: int, ip: string, shell: S)

  // ---------------------------------------------------------------------------
  // The list: oldest first
  // ---------------------------------------------------------------------------

  /** Index of the newest item for `ip`, or -1. */
  function Newest<S>(items: seq<Item<S>>, ip: string): (i: int)
    ensures -1 <= i < |items|
    ensures i >= 0 ==> items[i].ip == ip
    ensures forall j :: i < j < |items| ==> items[j].ip != ip
  {
    if items == [] then -1
    else if items[|items| - 1].ip == ip then |items| - 1
    else Newest(items[..|items| - 1], ip)
  }

  function Without<S>(items: seq<Item<S>>, i: int): (rest: seq<Item<S>>)
    requires -1 <= i < |items|
  {
    if i < 0 then items else items[..i] + items[i + 1..]
  }

  /** Item `i` is the last one for `ip`, and `after` is the list without it. */
  ghost predicate Takes<S>(items: seq<Item<S>>, ip: string, i: int, after: seq<Item<S>>) {
    && 0 <= i < |items| && items[i].ip == ip && (forall j :: i < j < |items| ==> items[j].ip != ip)
    && after == items[..i] + items[i + 1..]
  }

  lemma TakesIndex<S>(items: seq<Item<S>>, ip: string, i: int, after: seq<Item<S>>)
    ensures Takes(items, ip, i, after) ==> 0 <= i < |items|
  {
  }

  lemma TakingNewest<S>(items: seq<Item<S>>, ip: string)
    ensures var i := Newest(items, ip);
            && (i >= 0 ==> Takes(items, ip, i, Apply(items, None, Checkout(ip))))
            && (i < 0 ==> Apply(items, None, Checkout(ip)) == items && forall j :: 0 <= j < |items| ==> items[j].ip != ip)
  {
    hide Newest;
  }

  /** Room for one more: the newest `max - 1` items survive. */
  function Evicted<S>(items: seq<Item<S>>, max: Option<nat>): (rest: seq<Item<S>>)
    requires max != Some(0)
  {
    if max.Some? && |items| >= max.value then items[|items| - (max.value - 1)..] else items
  }

  /** Drop the longest prefix of items idle for more than `timeout` at time `now`. */
  function Pruned<S>(items: seq<Item<S>>, now: int, timeout: int): (rest: seq<Item<S>>) {
    if items != [] && now - items[0].at > timeout then Pruned(items[1..], now, timeout) else items
  }

  datatype Op<S> = Checkout(ip: string) | Insert(item: Item<S>) | Prune(now: int, timeout: int) | Clear

  function Apply<S>(items: seq<Item<S>>, max: Option<nat>, op: Op<S>): (next: seq<Item<S>>)
    requires max != Some(0)
  {
    match op
    case Checkout(ip) => Without(items, Newest(items, ip))
    case Insert(item) => Evicted(items, max) + [item]
    case Prune(now, timeout) => Pruned(items, now, timeout)
    case Clear => []
  }

  function Run<S>(items: seq<Item<S>>, max: Option<nat>, ops: seq<Op<S>>): (end: seq<Item<S>>)
    requires max != Some(0)
    decreases |ops|
  {
    if ops == [] then items else Run(Apply(items, max, ops[0]), max, ops[1..])
  }

  ghost predicate TimeOrdered<S>(items: seq<Item<S>>) {
    forall i, j :: 0 <= i < j < |items| ==> items[i].at <= items[j].at
  }

  /** On a time-ordered list, pruning keeps exactly the items that are not expired. */
  lemma {:induction false} PruneIsExact<S>(items: seq<Item<S>>, now: int, timeout: int)
    requires TimeOrdered(items)
    ensures var rest := Pruned(items, now, timeout);
            && |rest| <= |items| && rest == items[|items| - |rest|..]
            && (forall i :: 0 <= i < |items| - |rest| ==> now - items[i].at > timeout)
            && (forall i :: |items| - |rest| <= i < |items| ==> now - items[i].at <= timeout)
  {
    if items != [] && now - items[0].at > timeout {
      PruneIsExact(items[1..], now, timeout);
      var rest := Pruned(items, now, timeout);
      assert forall i :: 1 <= i < |items| ==> items[i] == items[1..][i - 1];
    }
  }

  /** Every run keeps the list within its bound, oldest entries leaving first. */
  lemma {:induction false} RunStaysBounded<S>(items: seq<Item<S>>, max: Option<nat>, ops: seq<Op<S>>)
    requires max != Some(0) && (max.Some? ==> |items| <= max.value)
    ensures max.Some? ==> |Run(items, max, ops)| <= max.value
    decreases |ops|
  {
    if ops != [] {
      if ops[0].Prune? {
        PrunedShrinks(items, ops[0].now, ops[0].timeout);
      }
      RunStaysBounded(Apply(items, max, ops[0]), max, ops[1..]);
    }
  }

  /** Eviction takes from the oldest end, and no more than it must. */
  lemma EvictedIs<S>(items: seq<Item<S>>, max: Option<nat>)
    requires max != Some(0)
    ensures var kept := if max.Some? && |items| >= max.value then max.value - 1 else |items|;
            Evicted(items, max) == items[|items| - kept..]
  {
  }

  lemma TailOfSuffix<T>(s: seq<T>, k: nat)
    requires k < |s|
    ensures s[k..][1..] == s[k + 1..]
  {
  }

  // ---------------------------------------------------------------------------
  // No shell is handed out twice
  // ---------------------------------------------------------------------------

  ghost function One(b: bool): (n: nat) {
    if b then 1 else 0
  }

  /** How often a shell is in the list. */
  ghost function Times<S>(items: seq<Item<S>>, shell: S): (n: nat) {
    if items == [] then 0 else One(items[0].shell == shell) + Times(items[1..], shell)
  }

  /** How often an operation, or a run, hands it out. */
  ghost function HandsOut<S>(items: seq<Item<S>>, op: Op<S>, shell: S): (n: nat) {
    if op.Checkout? && Newest(items, op.ip) >= 0 then One(items[Newest(items, op.ip)].shell == shell) else 0
  }

  ghost function TimesOut<S>(items: seq<Item<S>>, max: Option<nat>, ops: seq<Op<S>>, shell: S): (n: nat)
    requires max != Some(0)
    decreases |ops|
  {
    if ops == [] then 0
    else HandsOut(items, ops[0], shell) + TimesOut(Apply(items, max, ops[0]), max, ops[1..], shell)
  }

  /** How often an operation, or a run, puts it in. */
  ghost function PutsIn<S>(op: Op<S>, shell: S): (n: nat) {
    if op.Insert? then One(op.item.shell == shell) else 0
  }

  ghost function TimesIn<S>(ops: seq<Op<S>>, shell: S): (n: nat) {
    if ops == [] then 0 else PutsIn(ops[0], shell) + TimesIn(ops[1..], shell)
  }

  lemma {:induction false} TimesConcat<S>(a: seq<Item<S>>, b: seq<Item<S>>, shell: S)
    ensures Times(a + b, shell) == Times(a, shell) + Times(b, shell)
  {
    if a == [] {
      assert a + b == b;
    } else {
      assert (a + b)[1..] == a[1..] + b;
      TimesConcat(a[1..], b, shell);
    }
  }

  lemma TimesOne<S>(item: Item<S>, shell: S)
    ensures Times([item], shell) == One(item.shell == shell)
  {
    assert [item][1..] == [];
  }

  lemma TimesSuffix<S>(items: seq<Item<S>>, n: nat, shell: S)
    requires n <= |items|
    ensures Times(items[n..], shell) <= Times(items, shell)
  {
    hide Times;
    assert items == items[..n] + items[n..];
    TimesConcat(items[..n], items[n..], shell);
  }

  lemma TimesTaken<S>(items: seq<Item<S>>, i: nat, shell: S)
    requires i < |items|
    ensures Times(items, shell) == Times(items[..i] + items[i + 1..], shell) + One(items[i].shell == shell)
  {
    hide Times, One;
    assert items == items[..i] + [items[i]] + items[i + 1..];
    TimesConcat(items[..i] + [items[i]], items[i + 1..], shell);
    TimesConcat(items[..i], [items[i]], shell);
    TimesConcat(items[..i], items[i + 1..], shell);
    TimesOne(items[i], shell);
  }

  lemma {:induction false} PrunedIsSuffix<S>(items: seq<Item<S>>, now: int, timeout: int)
    ensures var rest := Pruned(items, now, timeout); |rest| <= |items| && rest == items[|items| - |rest|..]
  {
    if items != [] && now - items[0].at > timeout {
      PrunedIsSuffix(items[1..], now, timeout);
      var k := |items[1..]| - |Pruned(items[1..], now, timeout)|;
      assert items[1..][k..] == items[k + 1..];
    }
  }

  /** One operation: what it hands out and what it keeps were there before or are put in by it. */
  lemma StepAccounts<S>(items: seq<Item<S>>, max: Option<nat>, op: Op<S>, shell: S)
    requires max != Some(0)
    ensures HandsOut(items, op, shell) + Times(Apply(items, max, op), shell) <= Times(items, shell) + PutsIn(op, shell)
  {
    hide Times, Newest, Pruned, One;
    match op
    case Checkout(ip) =>
      if Newest(items, ip) >= 0 {
        TimesTaken(items, Newest(items, ip), shell);
      }
    case Insert(item) =>
      EvictedIs(items, max);
      var kept := if max.Some? && |items| >= max.value then max.value - 1 else |items|;
      TimesSuffix(items, |items| - kept, shell);
      TimesConcat(Evicted(items, max), [item], shell);
      TimesOne(item, shell);
    case Prune(now, timeout) =>
      PrunedIsSuffix(items, now, timeout);
      TimesSuffix(items, |items| - |Pruned(items, now, timeout)|, shell);
    case Clear =>
      TimesSuffix(items, |items|, shell);
      assert items[|items|..] == [];
  }

  /**
   * Over every run: a shell is handed out, or still there at the end, at most as often as it was there
   * at the start or put in.
   */
  lemma {:induction false} RunAccounts<S>(items: seq<Item<S>>, max: Option<nat>, ops: seq<Op<S>>, shell: S)
    requires max != Some(0)
    ensures TimesOut(items, max, ops, shell) + Times(Run(items, max, ops), shell)
            <= Times(items, shell) + TimesIn(ops, shell)
    decreases |ops|
  {
    hide Times, HandsOut, PutsIn, Apply;
    if ops != [] {
      RunAccounts(Apply(items, max, ops[0]), max, ops[1..], shell);
      StepAccounts(items, max, ops[0], shell);
    }
  }

  /** From an empty cache, a shell that is put in once is handed out at most once. */
  lemma HandedOutOnce<S>(max: Option<nat>, ops: seq<Op<S>>, shell: S)
    requires max != Some(0) && TimesIn(ops, shell) <= 1
    ensures TimesOut([], max, ops, shell) <= 1
  {
    RunAccounts([], max, ops, shell);
  }

  lemma {:induction false} PrunedShrinks<S>(items: seq<Item<S>>, now: int, timeout: int)
    ensures |Pruned(items, now, timeout)| <= |items|
  {
    if items != [] && now - items[0].at > timeout {
      PrunedShrinks(items[1..], now, timeout);
    }
  }

  // ---------------------------------------------------------------------------
  // The eviction loop's guard
  // ---------------------------------------------------------------------------

  /** Map size after `n` rounds of `pop_first`, which does nothing on an empty map. */
  function LenAfter(len: nat, n: nat): (r: nat) {
    if n == 0 || len == 0 then len else LenAfter(len - 1, n - 1)
  }

  /** `while len >= max { pop_first }` ends if and only if the maximum is not zero. */
  lemma EvictionEndsIff(len: nat, max: nat)
    ensures (exists n :: LenAfter(len, n) < max) <==> max >= 1
  {
    if max >= 1 {
      LenReachesZero(len);
      assert LenAfter(len, len) < max;
    }
  }

  lemma {:induction false} LenReachesZero(len: nat)
    ensures LenAfter(len, len) == 0
  {
    if len > 0 {
      LenReachesZero(len - 1);
    }
  }

  // ---------------------------------------------------------------------------
  // The cache
  // ---------------------------------------------------------------------------

  ghost predicate Ascending(keys: seq<ShellKey>, bound: nat) {
    && (forall i :: 0 <= i < |keys| ==> keys[i].id < bound)
    && (forall i, j :: 0 <= i < j < |keys| ==> keys[i].id < keys[j].id)
  }

  /** Every live shell is indexed under its ip; an index may also hold keys that are gone. */
  ghost predicate Indexed<S>(byIp: map<string, seq<ShellKey>>, shells: map<ShellKey, Cached<S>>, bound: nat) {
    IndexAscends(byIp, bound) && IndexTags(byIp, shells) && IndexCovers(byIp, shells)
  }

  ghost predicate IndexAscends(byIp: map<string, seq<ShellKey>>, bound: nat) {
    forall ip :: ip in byIp ==> Ascending(byIp[ip], bound)
  }

  ghost predicate IndexTags<S>(byIp: map<string, seq<ShellKey>>, shells: map<ShellKey, Cached<S>>) {
    forall ip, i :: ip in byIp && 0 <= i < |byIp[ip]| && byIp[ip][i] in shells ==> shells[byIp[ip][i]].ip == ip
  }

  ghost predicate IndexCovers<S>(byIp: map<string, seq<ShellKey>>, shells: map<ShellKey, Cached<S>>) {
    forall k :: k in shells ==> shells[k].ip in byIp && k in byIp[shells[k].ip]
  }

  /** `order` lists the keys of the map, oldest first. */
  ghost predicate Ordered<S>(order: seq<ShellKey>, shells: map<ShellKey, Cached<S>>, bound: nat, now: int) {
    Ascending(order, bound) && InTime(order, now) && Lists(order, shells)
  }

  ghost predicate InTime(order: seq<ShellKey>, now: int) {
    && (forall i :: 0 <= i < |order| ==> order[i].at <= now)
    && (forall i, j :: 0 <= i < j < |order| ==> order[i].at <= order[j].at)
  }

  ghost predicate Lists<S>(order: seq<ShellKey>, shells: map<ShellKey, Cached<S>>) {
    && (forall i :: 0 <= i < |order| ==> order[i] in shells)
    && (forall k :: k in shells ==> k in order)
  }

  ghost function ItemsOf<S>(order: seq<ShellKey>, shells: map<ShellKey, Cached<S>>): (items: seq<Item<S>>)
    requires Lists(order, shells)
    ensures |items| == |order|
  {
    seq(|order|, i requires 0 <= i < |order| => Item(order[i].at, shells[order[i]].ip, shells[order[i]].shell))
  }

  /** The least key of a non-empty key set: `first_key_value`. */
  method FirstKey(keys: set<ShellKey>) returns (k: ShellKey)
    requires keys != {}
    ensures k in keys && forall j :: j in keys && j != k ==> Before(k, j)
  {
    k :| k in keys;
    var rest := keys - {k};
    while rest != {}
      invariant k in keys && rest <= keys
      invariant forall j :: j in keys && j !in rest && j != k ==> Before(k, j)
    {
      var j :| j in rest;
      rest := rest - {j};
      if Before(j, k) {
        k := j;
      }
    }
  }

  class SessionCache<S> {
    var shells: map<ShellKey, Cached<S>>
    var byIp: map<string, seq<ShellKey>>
    var nextId: nat
    const maxCached: Option<nat>
    /** The monotonic clock, as last read. */
    var clock: int
    ghost var order: seq<ShellKey>

    ghost predicate Valid()
      reads this
    {
      && Ordered(order, shells, nextId, clock)
      && Indexed(byIp, shells, nextId)
      && (maxCached.Some? ==> |order| <= maxCached.value)
    }

    /** The list the cache stands for, oldest first. */
    ghost function Items(): (items: seq<Item<S>>)
      requires Valid()
      reads this
      ensures TimeOrdered(items)
    {
      ItemsInTime(order, shells, nextId, clock);
      ItemsOf(order, shells)
    }

    constructor (maxCached: Option<nat>, now: int)
      ensures Valid() && Items() == [] && this.maxCached == maxCached && clock == now
    {
      this.maxCached := maxCached;
      shells, byIp, nextId, clock, order := map[], map[], 0, now, [];
    }

    /** Reads the clock: any value not before the last reading. */
    method Now() returns (t: int)
      modifies this`clock
      ensures t == clock && clock >= old(clock)
    {
      t :| t >= clock;
      clock := t;
    }

    method OldestKey() returns (k: ShellKey)
      requires Valid() && |shells| > 0
      ensures |order| > 0 && k == order[0] && Items()[0].at == k.at
    {
      hide Indexed, Ordered, ItemsOf, TimeOrdered;
      k := FirstKey(shells.Keys);
      OldestIsFirst(order, shells, nextId, clock, shells.Keys, 0, k);
    }

    method PopFirst()
      requires Valid() && |shells| > 0
      modifies this`shells, this`order
      ensures |old(order)| > 0
      ensures Valid() && order == old(order)[1..] && Items() == old(Items())[1..]
    {
      hide Indexed, Ordered, ItemsOf, TimeOrdered;
      var k := OldestKey();
      IndexedAfterRemoval(byIp, shells, nextId, k);
      OrderedWithout(order, shells, nextId, clock, 0);
      ItemsWithout(order, shells, nextId, clock, 0);
      shells := shells - {k};
      order := order[1..];
      assert order == old(order)[..0] + old(order)[1..];
      assert old(Items())[..0] + old(Items())[1..] == old(Items())[1..];
    }

    /** The newest live shell for `ip`, if there is one; it leaves the cache, and nothing else does. */
    method Checkout(ip: string) returns (r: Option<S>)
      requires Valid()
      modifies this
      ensures Valid() && clock == old(clock)
      ensures Items() == Apply(old(Items()), None, Op.Checkout(ip))
      ensures r.Some? ==> exists i :: Takes(old(Items()), ip, i, Items()) && r == Some(old(Items())[i].shell)
      ensures r.None? ==> Items() == old(Items()) && forall i :: 0 <= i < |old(Items())| ==> old(Items())[i].ip != ip
    {
      hide Newest, Indexed, Ordered, ItemsOf, TimeOrdered, Takes, Apply;
      ghost var items := Items();
      r := PopLive(ip);
      TakingNewest(items, ip);
      TakesIndex(items, ip, Newest(items, ip), Apply(items, None, Op.Checkout(ip)));
    }

    /** The loop of `checkout`: skips index keys whose shells are gone. */
    method PopLive(ip: string) returns (r: Option<S>)
      requires Valid()
      modifies this
      ensures Valid() && clock == old(clock)
      ensures Items() == Apply(old(Items()), None, Op.Checkout(ip))
      ensures r == var i := Newest(old(Items()), ip); if i < 0 then None else Some(old(Items())[i].shell)
    {
      hide Newest, Indexed, Ordered, ItemsOf, TimeOrdered;
      if ip !in byIp {
        NoneIndexed(byIp, order, shells, nextId, clock, ip, []);
        return None;
      }
      var keys := byIp[ip];
      ghost var all := keys;
      while |keys| > 0
        invariant |keys| <= |all| && keys == all[..|keys|]
        invariant forall j :: |keys| <= j < |all| ==> all[j] !in shells
      {
        var key := keys[|keys| - 1];
        keys := keys[..|keys| - 1];
        assert keys == all[..|keys|];
        if key in shells {
          var shell := shells[key].shell;
          ghost var i := FindKey(byIp, order, shells, nextId, clock, ip, |keys|);
          OrderedWithout(order, shells, nextId, clock, i);
          ItemsWithout(order, shells, nextId, clock, i);
          IndexedAfterCheckout(byIp, shells, nextId, ip, |keys|);
          shells := shells - {key};
          order := order[..i] + order[i + 1..];
          byIp := if |keys| == 0 then byIp - {ip} else byIp[ip := keys];
          return Some(shell);
        }
      }
      NoneIndexed(byIp, order, shells, nextId, clock, ip, all);
      byIp := byIp - {ip};
      return None;
    }

    /** Makes room for one more by dropping the globally oldest shells. */
    method Evict()
      requires Valid() && maxCached != Some(0)
      modifies this`shells, this`order
      ensures Valid() && Items() == Evicted(old(Items()), maxCached)
      ensures maxCached.Some? ==> |order| < maxCached.value
    {
      hide Indexed, Ordered, ItemsOf, TimeOrdered, Evicted;
      ghost var items := Items();
      if maxCached.Some? {
        SizeOfOrder(order, shells, nextId, clock);
        while |shells| >= maxCached.value
          invariant Valid() && |shells| == |order| <= |items|
          invariant |order| < |items| ==> |order| >= maxCached.value - 1
          invariant Items() == items[|items| - |order|..]
        {
          TailOfSuffix(items, |items| - |order|);
          PopFirst();
          SizeOfOrder(order, shells, nextId, clock);
        }
      }
      EvictedIs(items, maxCached);
    }

    /** Store a shell, first evicting the globally oldest ones while the cache is full, and no more than that. */
    method Insert(ip: string, shell: S)
      requires Valid() && maxCached != Some(0)
      modifies this
      ensures Valid() && clock >= old(clock)
      ensures Items() == Apply(old(Items()), maxCached, Op.Insert(Item(clock, ip, shell)))
      ensures var was := old(Items());
              var kept := if maxCached.Some? && |was| >= maxCached.value then maxCached.value - 1 else |was|;
              Items() == was[|was| - kept..] + [Item(clock, ip, shell)]
    {
      hide Indexed, Ordered, ItemsOf, TimeOrdered, Evicted;
      ghost var items := Items();
      Append(ip, shell);
      EvictedIs(items, maxCached);
    }

    method Append(ip: string, shell: S)
      requires Valid() && maxCached != Some(0)
      modifies this
      ensures Valid() && clock >= old(clock)
      ensures Items() == Apply(old(Items()), maxCached, Op.Insert(Item(clock, ip, shell)))
    {
      hide Indexed, Ordered, ItemsOf, TimeOrdered, Evicted;
      Evict();
      var now := Now();
      var key := ShellKey(now, nextId);
      OrderedAppend(order, shells, nextId, old(clock), now, Cached(ip, shell));
      IndexedAppend(byIp, shells, key, Cached(ip, shell));
      nextId := nextId + 1;
      shells := shells[key := Cached(ip, shell)];
      byIp := byIp[ip := (if ip in byIp then byIp[ip] else []) + [key]];
      order := order + [key];
    }

    /**
     * Drop expired shells from the oldest end, reading the clock at every check, and rebuild the
     * index if anything went. The last reading decides: exactly the entries expired by then are gone.
     */
    method Prune(timeout: int)
      requires Valid()
      modifies this
      ensures Valid() && clock >= old(clock)
      ensures Items() == Apply(old(Items()), None, Op.Prune(clock, timeout))
      ensures |Items()| <= |old(Items())| && Items() == old(Items())[|old(Items())| - |Items()|..]
      ensures forall i :: 0 <= i < |old(Items())| ==>
                (clock - old(Items())[i].at > timeout <==> i < |old(Items())| - |Items()|)
    {
      hide Indexed, Ordered, ItemsOf, Pruned;
      ghost var items := Items();
      DropExpired(timeout);
      PruneIsExact(items, clock, timeout);
    }

    /** The loop of `prune`. */
    method DropExpired(timeout: int)
      requires Valid()
      modifies this
      ensures Valid() && clock >= old(clock)
      ensures Items() == Apply(old(Items()), None, Op.Prune(clock, timeout))
    {
      hide Indexed, Ordered, ItemsOf, Pruned, TimeOrdered;
      var changed := false;
      ghost var items := Items();
      SizeOfOrder(order, shells, nextId, clock);
      while |shells| > 0
        invariant Valid() && clock >= old(clock) && |shells| == |order|
        invariant |order| <= |items| && Items() == items[|items| - |order|..]
        invariant forall i :: 0 <= i < |items| - |order| ==> clock - items[i].at > timeout
        decreases |order|
      {
        var key := OldestKey();
        assert items[|items| - |order|] == Items()[0];
        ghost var was := clock;
        var t := Now();
        OrderedLater(order, shells, nextId, was, t);
        if t - key.at > timeout {
          PopFirst();
          SizeOfOrder(order, shells, nextId, clock);
          changed := true;
        } else {
          break;
        }
      }
      PrunedFromSplit(items, clock, timeout, |items| - |order|);
      if changed {
        Reindex();
      }
    }

    method Reindex()
      requires Ordered(order, shells, nextId, clock)
      modifies this`byIp
      ensures Indexed(byIp, shells, nextId)
    {
      hide Indexed, Ordered, TimeOrdered;
      byIp := map[];
      var rest := shells.Keys;
      ghost var i := 0;
      IndexedNone(shells, order, nextId, clock);
      while rest != {}
        invariant 0 <= i <= |order| && rest == shells.Keys - Sub(shells, order[..i]).Keys
        invariant Indexed(byIp, Sub(shells, order[..i]), nextId) && OnlyFrom(byIp, order[..i])
        decreases |order| - i
      {
        var key := FirstKey(rest);
        OldestIsFirst(order, shells, nextId, clock, rest, i, key);
        IndexedNext(byIp, shells, order, nextId, clock, i);
        var ip := shells[key].ip;
        byIp := byIp[ip := (if ip in byIp then byIp[ip] else []) + [key]];
        rest := rest - {key};
        i := i + 1;
      }
      SubAll(shells, order[..i]);
    }

    method Clear()
      requires Valid()
      modifies this
      ensures Valid() && Items() == Apply(old(Items()), None, Op.Clear) && Items() == [] && clock == old(clock)
    {
      shells, byIp, order := map[], map[], [];
    }
  }

  // ---------------------------------------------------------------------------
  // Order
  // ---------------------------------------------------------------------------

  lemma SizeOfOrder<S>(order: seq<ShellKey>, shells: map<ShellKey, Cached<S>>, bound: nat, now: int)
    requires Ordered(order, shells, bound, now)
    ensures |shells| == |order|
  {
    DistinctCount(order, bound);
    assert shells.Keys == set k | k in order;
  }

  lemma {:induction false} DistinctCount(keys: seq<ShellKey>, bound: nat)
    requires Ascending(keys, bound)
    ensures |set k | k in keys| == |keys|
  {
    if keys != [] {
      var n := |keys| - 1;
      DistinctCount(keys[..n], bound);
      assert keys == keys[..n] + [keys[n]];
      assert (set k | k in keys) == (set k | k in keys[..n]) + {keys[n]};
    }
  }

  /** Once the first `i` keys are gone, the least remaining key is `order[i]`; the first one is the oldest item. */
  lemma OldestIsFirst<S>(order: seq<ShellKey>, shells: map<ShellKey, Cached<S>>, bound: nat, now: int,
                         rest: set<ShellKey>, i: nat, k: ShellKey)
    requires Ordered(order, shells, bound, now) && i <= |order|
    requires rest == shells.Keys - Sub(shells, order[..i]).Keys
    requires k in rest && forall j :: j in rest && j != k ==> Before(k, j)
    ensures i < |order| && k == order[i]
    ensures i == 0 ==> ItemsOf(order, shells)[0].at == k.at
  {
    var j :| 0 <= j < |order| && order[j] == k;
    assert forall n :: 0 <= n < i ==> order[..i][n] == order[n];
    NotAmongFirst(order, bound, i);
    assert order[i] in rest;
  }

  lemma ItemsInTime<S>(order: seq<ShellKey>, shells: map<ShellKey, Cached<S>>, bound: nat, now: int)
    requires Ordered(order, shells, bound, now)
    ensures TimeOrdered(ItemsOf(order, shells))
  {
  }

  lemma NotAmongFirst(order: seq<ShellKey>, bound: nat, i: nat)
    requires Ascending(order, bound) && i < |order|
    ensures order[i] !in order[..i]
  {
  }

  lemma OrderedLater<S>(order: seq<ShellKey>, shells: map<ShellKey, Cached<S>>, bound: nat, was: int, now: int)
    requires Ordered(order, shells, bound, was) && was <= now
    ensures Ordered(order, shells, bound, now)
  {
  }

  lemma OrderedWithout<S>(order: seq<ShellKey>, shells: map<ShellKey, Cached<S>>, bound: nat, now: int, i: nat)
    requires i < |order| && Ordered(order, shells, bound, now)
    ensures Ordered(order[..i] + order[i + 1..], shells - {order[i]}, bound, now)
  {
    hide Ascending, InTime, Lists;
    AscendingWithout(order, bound, i);
    InTimeWithout(order, now, i);
    ListsWithout(order, shells, bound, i);
  }

  lemma AscendingWithout(order: seq<ShellKey>, bound: nat, i: nat)
    requires i < |order| && Ascending(order, bound)
    ensures Ascending(order[..i] + order[i + 1..], bound)
  {
  }

  lemma InTimeWithout(order: seq<ShellKey>, now: int, i: nat)
    requires i < |order| && InTime(order, now)
    ensures InTime(order[..i] + order[i + 1..], now)
  {
  }

  lemma ListsWithout<S>(order: seq<ShellKey>, shells: map<ShellKey, Cached<S>>, bound: nat, i: nat)
    requires i < |order| && Lists(order, shells) && Ascending(order, bound)
    ensures Lists(order[..i] + order[i + 1..], shells - {order[i]})
  {
    hide Ascending;
    var rest := order[..i] + order[i + 1..];
    forall k | k in shells && k != order[i]
      ensures k in rest
    {
      var j :| 0 <= j < |order| && order[j] == k;
      assert rest[if j < i then j else j - 1] == k;
    }
    StaysAbsent(order, bound, i);
    forall j | 0 <= j < |rest|
      ensures rest[j] in shells - {order[i]}
    {
      assert rest[j] == order[if j < i then j else j + 1];
      assert rest[j] in rest;
    }
  }

  lemma StaysAbsent(order: seq<ShellKey>, bound: nat, i: nat)
    requires i < |order| && Ascending(order, bound)
    ensures order[i] !in order[..i] + order[i + 1..]
  {
  }

  lemma ItemsWithout<S>(order: seq<ShellKey>, shells: map<ShellKey, Cached<S>>, bound: nat, now: int, i: nat)
    requires i < |order| && Ordered(order, shells, bound, now)
    requires Ordered(order[..i] + order[i + 1..], shells - {order[i]}, bound, now)
    ensures ItemsOf(order[..i] + order[i + 1..], shells - {order[i]}) == Without(ItemsOf(order, shells), i)
  {
    hide Ascending, InTime;
    var rest := order[..i] + order[i + 1..];
    var items, fewer := ItemsOf(order, shells), ItemsOf(rest, shells - {order[i]});
    forall j | 0 <= j < |rest|
      ensures fewer[j] == Without(items, i)[j]
    {
      var m := if j < i then j else j + 1;
      assert rest[j] == order[m];
    }
  }

  lemma OrderedAppend<S>(order: seq<ShellKey>, shells: map<ShellKey, Cached<S>>, bound: nat, was: int, now: int, c: Cached<S>)
    requires Ordered(order, shells, bound, was) && was <= now
    ensures var key := ShellKey(now, bound);
            && Ordered(order + [key], shells[key := c], bound + 1, now)
            && ItemsOf(order + [key], shells[key := c]) == ItemsOf(order, shells) + [Item(now, c.ip, c.shell)]
  {
    var key := ShellKey(now, bound);
    var longer := order + [key];
    assert longer[|order|] == key;
    assert forall j :: 0 <= j < |order| ==> longer[j] == order[j];
  }

  // ---------------------------------------------------------------------------
  // Index
  // ---------------------------------------------------------------------------

  lemma IndexedAfterRemoval<S>(byIp: map<string, seq<ShellKey>>, shells: map<ShellKey, Cached<S>>, bound: nat, k: ShellKey)
    requires Indexed(byIp, shells, bound)
    ensures Indexed(byIp, shells - {k}, bound)
  {
    hide IndexAscends;
  }

  lemma NewestIs<S>(items: seq<Item<S>>, ip: string, i: int)
    requires -1 <= i < |items| && (i >= 0 ==> items[i].ip == ip)
    requires forall j :: i < j < |items| ==> items[j].ip != ip
    ensures Newest(items, ip) == i
  {
    hide Newest;
    var n := Newest(items, ip);
  }

  /** An absent or fully stale index means no live shell for that ip. */
  lemma NoneIndexed<S>(byIp: map<string, seq<ShellKey>>, order: seq<ShellKey>, shells: map<ShellKey, Cached<S>>,
                       bound: nat, now: int, ip: string, keys: seq<ShellKey>)
    requires Indexed(byIp, shells, bound) && Ordered(order, shells, bound, now)
    requires ip in byIp ==> keys == byIp[ip]
    requires forall j :: 0 <= j < |keys| ==> keys[j] !in shells
    ensures Newest(ItemsOf(order, shells), ip) == -1
    ensures Indexed(byIp - {ip}, shells, bound)
  {
    hide Newest;
    assert forall k :: k in shells ==> shells[k].ip != ip;
    NewestIs(ItemsOf(order, shells), ip, -1);
  }

  /** The last live key of an index is the newest live shell of its ip. */
  lemma FindKey<S>(byIp: map<string, seq<ShellKey>>, order: seq<ShellKey>, shells: map<ShellKey, Cached<S>>,
                   bound: nat, now: int, ip: string, n: nat) returns (i: nat)
    requires Indexed(byIp, shells, bound) && Ordered(order, shells, bound, now)
    requires ip in byIp && n < |byIp[ip]| && byIp[ip][n] in shells
    requires forall j :: n < j < |byIp[ip]| ==> byIp[ip][j] !in shells
    ensures i < |order| && order[i] == byIp[ip][n] && Newest(ItemsOf(order, shells), ip) == i
    ensures ItemsOf(order, shells)[i].shell == shells[order[i]].shell
  {
    hide Newest;
    var keys := byIp[ip];
    i :| 0 <= i < |order| && order[i] == keys[n];
    var items := ItemsOf(order, shells);
    forall j | i < j < |order|
      ensures items[j].ip != ip
    {
      LaterIsStale(order, keys, shells, bound, i, n, j);
    }
    NewestIs(items, ip, i);
  }

  lemma LaterIsStale<S>(order: seq<ShellKey>, keys: seq<ShellKey>, shells: map<ShellKey, Cached<S>>, bound: nat,
                        i: nat, n: nat, j: nat)
    requires Ascending(order, bound) && Ascending(keys, bound) && i < j < |order| && n < |keys| && order[i] == keys[n]
    requires order[j] in shells && forall m :: n < m < |keys| ==> keys[m] !in shells
    ensures order[j] !in keys
  {
  }

  lemma IndexedAfterCheckout<S>(byIp: map<string, seq<ShellKey>>, shells: map<ShellKey, Cached<S>>, bound: nat,
                                ip: string, n: nat)
    requires Indexed(byIp, shells, bound) && ip in byIp && n < |byIp[ip]| && byIp[ip][n] in shells
    requires forall j :: n < j < |byIp[ip]| ==> byIp[ip][j] !in shells
    ensures Indexed(if n == 0 then byIp - {ip} else byIp[ip := byIp[ip][..n]], shells - {byIp[ip][n]}, bound)
  {
    var next := if n == 0 then byIp - {ip} else byIp[ip := byIp[ip][..n]];
    var left := shells - {byIp[ip][n]};
    assert IndexAscends(next, bound);
    assert IndexTags(next, left);
    forall k | k in left
      ensures left[k].ip in next && k in next[left[k].ip]
    {
      if left[k].ip == ip {
        var j :| 0 <= j < |byIp[ip]| && byIp[ip][j] == k;
        assert next[ip][j] == k;
      }
    }
  }

  lemma IndexedAppend<S>(byIp: map<string, seq<ShellKey>>, shells: map<ShellKey, Cached<S>>, key: ShellKey, c: Cached<S>)
    requires Indexed(byIp, shells, key.id)
    ensures Indexed(byIp[c.ip := (if c.ip in byIp then byIp[c.ip] else []) + [key]], shells[key := c], key.id + 1)
  {
    var keys := if c.ip in byIp then byIp[c.ip] else [];
    var next := byIp[c.ip := keys + [key]];
    assert next[c.ip][|keys|] == key;
    assert IndexAscends(next, key.id + 1);
    assert IndexTags(next, shells[key := c]);
  }

  // ---------------------------------------------------------------------------
  // Pruning
  // ---------------------------------------------------------------------------

  lemma {:induction false} PrunedFromSplit<S>(items: seq<Item<S>>, now: int, timeout: int, n: nat)
    requires n <= |items| && forall i :: 0 <= i < n ==> now - items[i].at > timeout
    requires n < |items| ==> now - items[n].at <= timeout
    ensures Pruned(items, now, timeout) == items[n..]
    decreases n
  {
    if n > 0 {
      PrunedFromSplit(items[1..], now, timeout, n - 1);
    }
  }

  ghost function Sub<S>(shells: map<ShellKey, Cached<S>>, keys: seq<ShellKey>): (m: map<ShellKey, Cached<S>>) {
    map k | k in keys && k in shells :: shells[k]
  }

  lemma SubAll<S>(shells: map<ShellKey, Cached<S>>, keys: seq<ShellKey>)
    requires shells.Keys - Sub(shells, keys).Keys == {}
    ensures Sub(shells, keys) == shells
  {
    var gone := shells.Keys - Sub(shells, keys).Keys;
    forall k | k in shells
      ensures k in keys
    {
      assert k !in gone;
    }
  }

  ghost predicate OnlyFrom(byIp: map<string, seq<ShellKey>>, keys: seq<ShellKey>) {
    forall ip, i :: ip in byIp && 0 <= i < |byIp[ip]| ==> byIp[ip][i] in keys
  }

  lemma IndexedNone<S>(shells: map<ShellKey, Cached<S>>, order: seq<ShellKey>, bound: nat, now: int)
    ensures Indexed(map[], Sub(shells, order[..0]), bound) && OnlyFrom(map[], order[..0])
    ensures shells.Keys - Sub(shells, order[..0]).Keys == shells.Keys
  {
  }

  lemma IndexedNext<S>(byIp: map<string, seq<ShellKey>>, shells: map<ShellKey, Cached<S>>, order: seq<ShellKey>,
                       bound: nat, now: int, i: nat)
    requires i < |order| && Ordered(order, shells, bound, now)
    requires Indexed(byIp, Sub(shells, order[..i]), bound) && OnlyFrom(byIp, order[..i])
    ensures order[i] in shells
    ensures var ip := shells[order[i]].ip;
            var next := byIp[ip := (if ip in byIp then byIp[ip] else []) + [order[i]]];
            && Indexed(next, Sub(shells, order[..i + 1]), bound)
            && OnlyFrom(next, order[..i + 1])
    ensures Sub(shells, order[..i + 1]).Keys == Sub(shells, order[..i]).Keys + {order[i]}
  {
    hide IndexTags, IndexCovers, IndexAscends, OnlyFrom, Ascending, Sub;
    var key := order[i];
    var ip := shells[key].ip;
    var before, after := Sub(shells, order[..i]), Sub(shells, order[..i + 1]);
    assert order[..i + 1] == order[..i] + [key];
    NotAmongFirst(order, bound, i);
    SubNext(shells, order, i);
    NextAscends(byIp, order, bound, i, ip);
    NextTags(byIp, before, key, shells[key], order[..i]);
    NextCovers(byIp, before, key, shells[key]);
  }

  lemma SubNext<S>(shells: map<ShellKey, Cached<S>>, order: seq<ShellKey>, i: nat)
    requires i < |order| && order[i] in shells
    ensures Sub(shells, order[..i + 1]) == Sub(shells, order[..i])[order[i] := shells[order[i]]]
  {
    assert order[..i + 1] == order[..i] + [order[i]];
  }

  lemma NextTags<S>(byIp: map<string, seq<ShellKey>>, shells: map<ShellKey, Cached<S>>, key: ShellKey, c: Cached<S>,
                    from: seq<ShellKey>)
    requires IndexTags(byIp, shells) && OnlyFrom(byIp, from) && key !in from
    ensures var next := byIp[c.ip := (if c.ip in byIp then byIp[c.ip] else []) + [key]];
            IndexTags(next, shells[key := c]) && OnlyFrom(next, from + [key])
  {
  }

  lemma NextCovers<S>(byIp: map<string, seq<ShellKey>>, shells: map<ShellKey, Cached<S>>, key: ShellKey, c: Cached<S>)
    requires IndexCovers(byIp, shells)
    ensures IndexCovers(byIp[c.ip := (if c.ip in byIp then byIp[c.ip] else []) + [key]], shells[key := c])
  {
    var keys := if c.ip in byIp then byIp[c.ip] else [];
    assert (keys + [key])[|keys|] == key;
  }

  lemma NextAscends(byIp: map<string, seq<ShellKey>>, order: seq<ShellKey>, bound: nat, i: nat, ip: string)
    requires i < |order| && Ascending(order, bound) && IndexAscends(byIp, bound) && OnlyFrom(byIp, order[..i])
    ensures IndexAscends(byIp[ip := (if ip in byIp then byIp[ip] else []) + [order[i]]], bound)
  {
    var keys := if ip in byIp then byIp[ip] else [];
    forall j | 0 <= j < |keys|
      ensures keys[j].id < order[i].id
    {
      assert keys[j] in order[..i];
    }
    assert Ascending(keys + [order[i]], bound);
  }
}
