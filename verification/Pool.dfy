/**
 * The keyed connection pool, one step per lock region, so that every interleaving of tasks is a
 * sequence of steps. Each permit remembers the semaphore it came from, because a key's state can
 * be dropped and created anew while a task still holds handles to the old one.
 */
module Pool {
  import opened Bytes

  /** Keys are only compared; permits, tasks and resources are named by numbers. */
  type Key = nat

  datatype Entry = Entry(resource: nat, generation: nat, sem: nat)

  datatype PoolState = PoolState(sem: nat, idle: seq<Entry>, active: nat, latest: nat)

  datatype Sem = Sem(key: Key, available: nat)

  /** Where a task stands between two lock regions. */
  datatype Task =
    | Handles(key: Key, sem: nat)      // has the key's semaphore, no permit yet
    | Acquired(key: Key, sem: nat)     // has a permit, not yet counted as active
    | Creating(key: Key, sem: nat)     // counted, running the create callback
    | Created(key: Key, sem: nat, resource: nat, generation: nat)
    | Leased(key: Key, sem: nat, resource: nat, generation: nat)
    | Failing(key: Key, sem: nat)      // no longer counted, permit about to drop
    | Releasing(key: Key)              // permit and resource gone, still counted

  datatype Pool = Pool(
    capacity: nat,
    inner: map<Key, PoolState>,
    sems: map<nat, Sem>,
    nextSem: nat,
    tasks: map<nat, Task>,
    nextGen: nat)

  datatype Action =
    | CheckoutIdle(task: nat, key: Key)
    | PoolHandles(task: nat, key: Key)
    | TryAcquire(task: nat)
    | MarkActive(task: nat)
    | CreateOk(task: nat, resource: nat)
    | RecordGeneration(task: nat)
    | CreateFail(task: nat)
    | DropPermit(task: nat)
    | ReturnHealthy(task: nat)
    | ReleasePermit(task: nat)
    | FinishRelease(task: nat)
    | Invalidate(key: Key, generation: nat)
    | Sweep(discard: set<nat>)

  function Empty(capacity: nat): (p: Pool) {
    Pool(if capacity == 0 then 1 else capacity, map[], map[], 0, map[], 1)
  }

  function Max(a: nat, b: nat): (m: nat) {
    if a < b then b else a
  }

  function Pred(n: nat): (m: nat) {
    if n == 0 then 0 else n - 1
  }

  /** `entry(key).or_insert_with(PoolState::new)`: a new state brings a new, full semaphore. */
  function WithState(p: Pool, key: Key): (q: Pool)
    ensures key in q.inner && q.tasks == p.tasks && q.capacity == p.capacity
  {
    if key in p.inner then p
    else p.(inner := p.inner[key := PoolState(p.nextSem, [], 0, 0)],
            sems := p.sems[p.nextSem := Sem(key, p.capacity)],
            nextSem := p.nextSem + 1)
  }

  function Update(p: Pool, key: Key, st: PoolState): (q: Pool) {
    p.(inner := p.inner[key := st])
  }

  function SetTask(p: Pool, t: nat, task: Task): (q: Pool) {
    p.(tasks := p.tasks[t := task])
  }

  function EndTask(p: Pool, t: nat): (q: Pool) {
    p.(tasks := p.tasks - {t})
  }

  function Release(p: Pool, sem: nat): (q: Pool) {
    if sem in p.sems then p.(sems := p.sems[sem := p.sems[sem].(available := p.sems[sem].available + 1)]) else p
  }

  function ReleaseAll(p: Pool, entries: seq<Entry>): (q: Pool)
    decreases |entries|
  {
    if entries == [] then p else ReleaseAll(Release(p, entries[0].sem), entries[1..])
  }

  /** Which idle entries an operation keeps. */
  datatype Filter = NotGeneration(generation: nat) | NotAmong(discard: set<nat>)

  predicate Keeps(f: Filter, e: Entry) {
    match f
    case NotGeneration(g) => e.generation != g
    case NotAmong(discard) => e.resource !in discard
  }

  /** `Vec::retain`: the entries the filter keeps (or, for `kept == false`, the ones it drops), in order. */
  function Retain(entries: seq<Entry>, f: Filter, kept: bool): (r: seq<Entry>) {
    if entries == [] then []
    else if Keeps(f, entries[0]) == kept then [entries[0]] + Retain(entries[1..], f, kept)
    else Retain(entries[1..], f, kept)
  }

  /** Keep some idle entries of one key; the others drop their permits. */
  function RetainKey(p: Pool, key: Key, f: Filter): (q: Pool)
    requires key in p.inner
  {
    var st := p.inner[key];
    ReleaseAll(Update(p, key, st.(idle := Retain(st.idle, f, true))), Retain(st.idle, f, false))
  }

  ghost function RetainKeys(p: Pool, keys: set<Key>, f: Filter): (q: Pool)
    requires keys <= p.inner.Keys
    decreases |keys|
  {
    if keys == {} then p
    else
      var k :| k in keys;
      RetainKeyKeys(p, k, f);
      RetainKeys(RetainKey(p, k, f), keys - {k}, f)
  }

  /** Drop the states that are neither active nor idle. */
  function DropUnused(p: Pool): (q: Pool) {
    p.(inner := map k | k in p.inner && (p.inner[k].active > 0 || p.inner[k].idle != []) :: p.inner[k])
  }

  lemma {:induction false} ReleaseAllKeeps(p: Pool, entries: seq<Entry>)
    ensures var q := ReleaseAll(p, entries);
            q.inner == p.inner && q.tasks == p.tasks && q.capacity == p.capacity && q.nextSem == p.nextSem
            && q.sems.Keys == p.sems.Keys && forall s :: s in p.sems ==> q.sems[s].key == p.sems[s].key
    decreases |entries|
  {
    if entries != [] {
      ReleaseAllKeeps(Release(p, entries[0].sem), entries[1..]);
    }
  }

  lemma RetainKeyKeys(p: Pool, key: Key, f: Filter)
    requires key in p.inner
    ensures RetainKey(p, key, f).inner.Keys == p.inner.Keys
  {
    var st := p.inner[key];
    ReleaseAllKeeps(Update(p, key, st.(idle := Retain(st.idle, f, true))), Retain(st.idle, f, false));
  }

  /** One lock region (or one permit operation) of one task; None when that step is not its next one. */
  ghost function Apply(p: Pool, a: Action): (r: Option<Pool>) {
    match a
    case CheckoutIdle(t, key) =>
      if t in p.tasks || key !in p.inner || p.inner[key].idle == [] then None
      else
        var st := p.inner[key];
        var e := st.idle[|st.idle| - 1];
        var taken := st.(idle := st.idle[..|st.idle| - 1], active := st.active + 1, latest := Max(st.latest, e.generation));
        Some(SetTask(Update(p, key, taken), t, Leased(key, e.sem, e.resource, e.generation)))
    case PoolHandles(t, key) =>
      if t in p.tasks then None
      else var q := WithState(p, key); Some(SetTask(q, t, Handles(key, q.inner[key].sem)))
    case TryAcquire(t) =>
      if t !in p.tasks || !p.tasks[t].Handles? || p.tasks[t].sem !in p.sems then None
      else
        var s := p.tasks[t].sem;
        if p.sems[s].available == 0 then Some(EndTask(p, t))
        else Some(SetTask(p.(sems := p.sems[s := p.sems[s].(available := p.sems[s].available - 1)]), t,
                          Acquired(p.tasks[t].key, s)))
    case MarkActive(t) =>
      if t !in p.tasks || !p.tasks[t].Acquired? then None
      else
        var key := p.tasks[t].key;
        var q := WithState(p, key);
        Some(SetTask(Update(q, key, q.inner[key].(active := q.inner[key].active + 1)), t, Creating(key, p.tasks[t].sem)))
    case CreateOk(t, resource) =>
      if t !in p.tasks || !p.tasks[t].Creating? then None
      else Some(SetTask(p, t, Created(p.tasks[t].key, p.tasks[t].sem, resource, p.nextGen)).(nextGen := SaturatingNext(p.nextGen)))
    case RecordGeneration(t) =>
      if t !in p.tasks || !p.tasks[t].Created? then None
      else
        var Created(key, sem, resource, generation) := p.tasks[t];
        var q := WithState(p, key);
        Some(SetTask(Update(q, key, q.inner[key].(latest := Max(q.inner[key].latest, generation))), t,
                     Leased(key, sem, resource, generation)))
    case CreateFail(t) =>
      if t !in p.tasks || !p.tasks[t].Creating? then None
      else
        var key := p.tasks[t].key;
        var q := SetTask(p, t, Failing(key, p.tasks[t].sem));
        if key !in p.inner then Some(q)
        else Some(Update(q, key, p.inner[key].(active := Pred(p.inner[key].active))))
    case DropPermit(t) =>
      if t !in p.tasks || !p.tasks[t].Failing? then None
      else Some(EndTask(Release(p, p.tasks[t].sem), t))
    case ReturnHealthy(t) =>
      if t !in p.tasks || !p.tasks[t].Leased? then None
      else
        var Leased(key, sem, resource, generation) := p.tasks[t];
        var q := WithState(p, key);
        var st := q.inner[key];
        var back := st.(active := Pred(st.active), latest := Max(st.latest, generation),
                        idle := st.idle + [Entry(resource, generation, sem)]);
        Some(EndTask(Update(q, key, back), t))
    case ReleasePermit(t) =>
      if t !in p.tasks || !p.tasks[t].Leased? then None
      else Some(SetTask(Release(p, p.tasks[t].sem), t, Releasing(p.tasks[t].key)))
    case FinishRelease(t) =>
      if t !in p.tasks || !p.tasks[t].Releasing? then None
      else
        var key := p.tasks[t].key;
        var q := EndTask(p, t);
        if key !in p.inner then Some(q)
        else
          var st := p.inner[key].(active := Pred(p.inner[key].active));
          if st.active == 0 && st.idle == [] then Some(q.(inner := q.inner - {key}))
          else Some(Update(q, key, st))
    case Invalidate(key, generation) =>
      if key !in p.inner then Some(p) else Some(RetainKey(p, key, NotGeneration(generation)))
    case Sweep(discard) =>
      Some(DropUnused(RetainKeys(p, p.inner.Keys, NotAmong(discard))))
  }

  // ---------------------------------------------------------------------------
  // Counting
  // ---------------------------------------------------------------------------

  function CountSem(entries: seq<Entry>, s: nat): (n: nat)
    ensures n <= |entries|
  {
    if entries == [] then 0 else (if entries[0].sem == s then 1 else 0) + CountSem(entries[1..], s)
  }

  lemma {:induction false} CountConcat(a: seq<Entry>, b: seq<Entry>, s: nat)
    ensures CountSem(a + b, s) == CountSem(a, s) + CountSem(b, s)
  {
    if a == [] {
      assert a + b == b;
    } else {
      assert (a + b)[1..] == a[1..] + b;
      CountConcat(a[1..], b, s);
    }
  }

  lemma {:induction false} CountSplit(entries: seq<Entry>, f: Filter, s: nat)
    ensures CountSem(Retain(entries, f, true), s) + CountSem(Retain(entries, f, false), s) == CountSem(entries, s)
  {
    if entries != [] {
      hide Keeps;
      CountSplit(entries[1..], f, s);
      var kept := Keeps(f, entries[0]);
      assert Retain(entries, f, kept)[1..] == Retain(entries[1..], f, kept);
    }
  }

  /** Sum over a finite map. */
  ghost function Sum(m: map<Key, nat>): (n: nat) {
    if m == map[] then 0 else var k :| k in m; m[k] + Sum(m - {k})
  }

  lemma {:induction false} SumRemove(m: map<Key, nat>, k: Key)
    requires k in m
    ensures Sum(m) == m[k] + Sum(m - {k})
    decreases |m|
  {
    var j :| j in m && Sum(m) == m[j] + Sum(m - {j});
    if j != k {
      SumRemove(m - {j}, k);
      SumRemove(m - {k}, j);
      assert m - {j} - {k} == m - {k} - {j};
    }
  }

  lemma SumUpdate(m: map<Key, nat>, k: Key, v: nat)
    ensures Sum(m[k := v]) == Sum(m) - (if k in m then m[k] else 0) + v
  {
    SumRemove(m[k := v], k);
    assert m[k := v] - {k} == m - {k};
    if k in m {
      SumRemove(m, k);
    } else {
      assert m - {k} == m;
    }
  }

  ghost function IdleCounts(inner: map<Key, PoolState>, s: nat): (m: map<Key, nat>) {
    map k | k in inner :: CountSem(inner[k].idle, s)
  }

  /** Idle entries, under any key, that hold a permit of semaphore `s`. */
  ghost function IdleWith(inner: map<Key, PoolState>, s: nat): (n: nat) {
    Sum(IdleCounts(inner, s))
  }

  predicate HoldsPermit(task: Task, s: nat) {
    !task.Handles? && !task.Releasing? && task.sem == s
  }

  ghost function Holders(tasks: map<nat, Task>, s: nat): (ts: set<nat>) {
    set t | t in tasks && HoldsPermit(tasks[t], s)
  }

  // ---------------------------------------------------------------------------
  // Conservation of permits, under every interleaving
  // ---------------------------------------------------------------------------

  /** Semaphores are numbered below `nextSem`, and everything that names one agrees on its key. */
  ghost predicate WellKeyed(p: Pool) {
    && (forall s :: s in p.sems ==> s < p.nextSem)
    && (forall k :: k in p.inner ==> StateKeyed(p, k, p.inner[k]))
    && (forall t :: t in p.tasks ==> TaskKeyed(p, p.tasks[t]))
  }

  ghost predicate StateKeyed(p: Pool, k: Key, st: PoolState) {
    IsOf(p, st.sem, k) && forall i :: 0 <= i < |st.idle| ==> IsOf(p, st.idle[i].sem, k)
  }

  ghost predicate TaskKeyed(p: Pool, task: Task) {
    task.Releasing? || IsOf(p, task.sem, task.key)
  }

  ghost predicate IsOf(p: Pool, s: nat, k: Key) {
    s in p.sems && p.sems[s].key == k
  }

  ghost function Balance(p: Pool, s: nat): (n: nat)
    requires s in p.sems
  {
    p.sems[s].available + IdleWith(p.inner, s) + |Holders(p.tasks, s)|
  }

  /** Every permit of every semaphore is available, with an idle entry, or with a task. */
  ghost predicate Conserved(p: Pool) {
    WellKeyed(p) && forall s :: s in p.sems ==> Balance(p, s) == p.capacity
  }

  ghost function IdleAt(p: Pool, k: Key, s: nat): (n: nat) {
    if k in p.inner then CountSem(p.inner[k].idle, s) else 0
  }

  ghost function HeldBy(p: Pool, t: nat, s: nat): (n: nat) {
    if t in p.tasks && HoldsPermit(p.tasks[t], s) then 1 else 0
  }

  lemma IdleSplit(p: Pool, k: Key, s: nat)
    ensures IdleWith(p.inner, s) == IdleAt(p, k, s) + IdleWith(p.inner - {k}, s)
  {
    var m := IdleCounts(p.inner, s);
    assert IdleCounts(p.inner - {k}, s) == m - {k};
    if k in p.inner {
      SumRemove(m, k);
    } else {
      assert m - {k} == m;
    }
  }

  lemma HoldersSplit(p: Pool, t: nat, s: nat)
    ensures |Holders(p.tasks, s)| == HeldBy(p, t, s) + |Holders(p.tasks - {t}, s)|
  {
    if HeldBy(p, t, s) == 1 {
      assert Holders(p.tasks, s) == Holders(p.tasks - {t}, s) + {t};
    } else {
      assert Holders(p.tasks, s) == Holders(p.tasks - {t}, s);
    }
  }

  /** `q` differs from `p` at most at key `k`, at task `t` and in semaphore counts. */
  ghost predicate Local(p: Pool, q: Pool, k: Key, t: nat) {
    && p.inner - {k} == q.inner - {k} && p.tasks - {t} == q.tasks - {t}
    && q.sems.Keys == p.sems.Keys && (forall s :: s in p.sems ==> q.sems[s].key == p.sems[s].key)
    && q.nextSem == p.nextSem && q.capacity == p.capacity
  }

  /** A local step conserves permits when it does at its key, its task and each semaphore. */
  lemma LocalConserves(p: Pool, q: Pool, k: Key, t: nat)
    requires Conserved(p) && Local(p, q, k, t)
    requires k in q.inner ==> StateKeyed(p, k, q.inner[k])
    requires t in q.tasks ==> TaskKeyed(p, q.tasks[t])
    requires forall s :: s in p.sems ==>
                           q.sems[s].available + IdleAt(q, k, s) + HeldBy(q, t, s)
                           == p.sems[s].available + IdleAt(p, k, s) + HeldBy(p, t, s)
    ensures Conserved(q)
  {
    hide IdleAt, HeldBy, Holders, IdleWith;
    LocalKeyed(p, q, k, t);
    forall s | s in q.sems
      ensures Balance(q, s) == q.capacity
    {
      IdleSplit(p, k, s);
      IdleSplit(q, k, s);
      HoldersSplit(p, t, s);
      HoldersSplit(q, t, s);
    }
  }

  lemma LocalKeyed(p: Pool, q: Pool, k: Key, t: nat)
    requires WellKeyed(p) && Local(p, q, k, t)
    requires k in q.inner ==> StateKeyed(p, k, q.inner[k])
    requires t in q.tasks ==> TaskKeyed(p, q.tasks[t])
    ensures WellKeyed(q)
  {
    forall j | j in q.inner
      ensures StateKeyed(q, j, q.inner[j])
    {
      if j != k {
        assert j in q.inner - {k} && (q.inner - {k})[j] == (p.inner - {k})[j];
      }
    }
    forall u | u in q.tasks
      ensures TaskKeyed(q, q.tasks[u])
    {
      if u != t {
        assert u in q.tasks - {t} && (q.tasks - {t})[u] == (p.tasks - {t})[u];
      }
    }
  }

  lemma {:induction false} SumZero(m: map<Key, nat>)
    requires forall k :: k in m ==> m[k] == 0
    ensures Sum(m) == 0
    decreases |m|
  {
    if m != map[] {
      var k :| k in m;
      SumRemove(m, k);
      SumZero(m - {k});
    }
  }

  lemma {:induction false} CountNone(entries: seq<Entry>, s: nat)
    requires forall i :: 0 <= i < |entries| ==> entries[i].sem != s
    ensures CountSem(entries, s) == 0
  {
    if entries != [] {
      CountNone(entries[1..], s);
    }
  }

  /** Nothing refers to a semaphore that does not exist yet. */
  lemma UnusedIsFree(p: Pool, s: nat)
    requires WellKeyed(p) && s !in p.sems
    ensures IdleWith(p.inner, s) == 0 && Holders(p.tasks, s) == {}
  {
    forall k | k in p.inner
      ensures CountSem(p.inner[k].idle, s) == 0
    {
      assert StateKeyed(p, k, p.inner[k]);
      CountNone(p.inner[k].idle, s);
    }
    SumZero(IdleCounts(p.inner, s));
    assert forall t :: t in p.tasks ==> TaskKeyed(p, p.tasks[t]);
  }

  lemma WithStateConserves(p: Pool, key: Key)
    requires Conserved(p)
    ensures Conserved(WithState(p, key))
    ensures forall s :: s in p.sems ==> s in WithState(p, key).sems && WithState(p, key).sems[s] == p.sems[s]
  {
    hide Holders, IdleWith, IdleAt;
    if key !in p.inner {
      var q := WithState(p, key);
      WithStateKeyed(p, key);
      forall s | s in q.sems
        ensures Balance(q, s) == q.capacity
      {
        IdleSplit(q, key, s);
        assert q.inner - {key} == p.inner;
        NewStateIdle(p, key, s);
        if s == p.nextSem {
          UnusedIsFree(p, s);
        }
      }
    }
  }

  lemma NewStateIdle(p: Pool, key: Key, s: nat)
    requires key !in p.inner
    ensures IdleAt(WithState(p, key), key, s) == 0
  {
  }

  lemma WithStateKeyed(p: Pool, key: Key)
    requires WellKeyed(p) && key !in p.inner
    ensures WellKeyed(WithState(p, key))
  {
    var q := WithState(p, key);
    forall k | k in q.inner
      ensures StateKeyed(q, k, q.inner[k])
    {
      if k != key {
        assert StateKeyed(p, k, p.inner[k]);
      }
    }
    forall t | t in q.tasks
      ensures TaskKeyed(q, q.tasks[t])
    {
      assert TaskKeyed(p, p.tasks[t]);
    }
  }

  lemma {:induction false} ReleaseAllCounts(p: Pool, entries: seq<Entry>, s: nat)
    requires s in p.sems
    ensures s in ReleaseAll(p, entries).sems
    ensures ReleaseAll(p, entries).sems[s].available == p.sems[s].available + CountSem(entries, s)
    decreases |entries|
  {
    if entries != [] {
      ReleaseAllCounts(Release(p, entries[0].sem), entries[1..], s);
    }
  }

  lemma {:induction false} RetainIsPart(entries: seq<Entry>, f: Filter, kept: bool, i: nat)
    requires i < |Retain(entries, f, kept)|
    ensures Retain(entries, f, kept)[i] in entries
  {
    hide Keeps;
    if Keeps(f, entries[0]) == kept {
      if i > 0 {
        RetainIsPart(entries[1..], f, kept, i - 1);
      }
    } else {
      RetainIsPart(entries[1..], f, kept, i);
    }
  }

  lemma RetainKeyConserves(p: Pool, key: Key, f: Filter)
    requires Conserved(p) && key in p.inner
    ensures Conserved(RetainKey(p, key, f)) && RetainKey(p, key, f).capacity == p.capacity
  {
    hide Balance, StateKeyed, TaskKeyed, RetainKey, IdleAt, HeldBy;
    var q := RetainKey(p, key, f);
    var t := 0;
    RetainKeyIsLocal(p, key, f, t);
    forall s | s in p.sems
      ensures q.sems[s].available + IdleAt(q, key, s) + HeldBy(q, t, s)
              == p.sems[s].available + IdleAt(p, key, s) + HeldBy(p, t, s)
    {
      RetainKeyBalance(p, key, f, s, t);
    }
    LocalConserves(p, q, key, t);
  }

  lemma RetainKeyIsLocal(p: Pool, key: Key, f: Filter, t: nat)
    requires WellKeyed(p) && key in p.inner
    ensures var q := RetainKey(p, key, f);
            && Local(p, q, key, t) && q.tasks == p.tasks
            && q.inner == p.inner[key := p.inner[key].(idle := Retain(p.inner[key].idle, f, true))]
            && StateKeyed(p, key, q.inner[key])
  {
    hide Retain, StateKeyed;
    var st := p.inner[key];
    ReleaseAllKeeps(Update(p, key, st.(idle := Retain(st.idle, f, true))), Retain(st.idle, f, false));
    RetainKeepsKeyed(p, key, st, f);
  }

  lemma RetainKeyBalance(p: Pool, key: Key, f: Filter, s: nat, t: nat)
    requires WellKeyed(p) && key in p.inner && s in p.sems
    ensures var q := RetainKey(p, key, f);
            && s in q.sems
            && q.sems[s].available + IdleAt(q, key, s) + HeldBy(q, t, s)
               == p.sems[s].available + IdleAt(p, key, s) + HeldBy(p, t, s)
  {
    hide Retain, StateKeyed, TaskKeyed, CountSem, ReleaseAll;
    RetainKeyIsLocal(p, key, f, t);
    var st := p.inner[key];
    ReleaseAllCounts(Update(p, key, st.(idle := Retain(st.idle, f, true))), Retain(st.idle, f, false), s);
    CountSplit(st.idle, f, s);
  }

  lemma RetainKeepsKeyed(p: Pool, key: Key, st: PoolState, f: Filter)
    requires StateKeyed(p, key, st)
    ensures StateKeyed(p, key, st.(idle := Retain(st.idle, f, true)))
  {
    hide Retain;
    var kept := Retain(st.idle, f, true);
    forall i | 0 <= i < |kept|
      ensures IsOf(p, kept[i].sem, key)
    {
      RetainIsPart(st.idle, f, true, i);
    }
  }

  lemma {:induction false} RetainKeysConserves(p: Pool, keys: set<Key>, f: Filter)
    requires Conserved(p) && keys <= p.inner.Keys
    ensures Conserved(RetainKeys(p, keys, f)) && RetainKeys(p, keys, f).capacity == p.capacity
    decreases |keys|
  {
    hide RetainKey, Conserved;
    if keys != {} {
      var k :| k in keys && RetainKeys(p, keys, f) == (RetainKeyKeys(p, k, f); RetainKeys(RetainKey(p, k, f), keys - {k}, f));
      RetainKeyConserves(p, k, f);
      RetainKeyKeys(p, k, f);
      RetainKeysConserves(RetainKey(p, k, f), keys - {k}, f);
    }
  }

  /** Dropping unused states loses no permit, because they hold none. */
  lemma DropUnusedConserves(p: Pool)
    requires Conserved(p)
    ensures Conserved(DropUnused(p))
  {
    hide Holders, CountSem, StateKeyed, TaskKeyed, DropUnused;
    var q := DropUnused(p);
    DropUnusedKeyed(p);
    forall s | s in q.sems
      ensures Balance(q, s) == q.capacity
    {
      DropUnusedIdle(p, s);
    }
  }

  lemma DropUnusedKeyed(p: Pool)
    requires WellKeyed(p)
    ensures WellKeyed(DropUnused(p)) && DropUnused(p) == p.(inner := DropUnused(p).inner)
  {
    var q := DropUnused(p);
    forall k | k in q.inner
      ensures StateKeyed(q, k, q.inner[k])
    {
      assert StateKeyed(p, k, p.inner[k]);
    }
    forall t | t in q.tasks
      ensures TaskKeyed(q, q.tasks[t])
    {
      assert TaskKeyed(p, p.tasks[t]);
    }
  }

  lemma DropUnusedIdle(p: Pool, s: nat)
    ensures IdleWith(DropUnused(p).inner, s) == IdleWith(p.inner, s)
  {
    SumOfPart(IdleCounts(p.inner, s), IdleCounts(DropUnused(p).inner, s));
  }

  lemma {:induction false} SumOfPart(m: map<Key, nat>, part: map<Key, nat>)
    requires part.Keys <= m.Keys && forall k :: k in m ==> m[k] == if k in part then part[k] else 0
    ensures Sum(part) == Sum(m)
    decreases |m|
  {
    if m == map[] {
      assert part == map[];
    } else {
      var k :| k in m;
      SumRemove(m, k);
      SumOfPart(m - {k}, part - {k});
      if k in part {
        SumRemove(part, k);
      } else {
        assert part - {k} == part;
      }
    }
  }

  lemma TaskStepConserves(p: Pool, q: Pool, t: nat)
    requires Conserved(p) && q.inner == p.inner && Local(p, q, 0, t)
    requires t in q.tasks ==> TaskKeyed(p, q.tasks[t])
    requires forall s :: s in p.sems ==>
                           q.sems[s].available + HeldBy(q, t, s) == p.sems[s].available + HeldBy(p, t, s)
    ensures Conserved(q)
  {
    hide HeldBy, TaskKeyed, StateKeyed;
    LocalConserves(p, q, 0, t);
  }

  lemma CheckoutIdleConserves(p: Pool, t: nat, key: Key)
    requires Conserved(p)
    ensures var r := Apply(p, CheckoutIdle(t, key)); r.Some? ==> Conserved(r.value)
  {
    hide Balance;
    var r := Apply(p, CheckoutIdle(t, key));
    if r.Some? {
      var q := r.value;
      var idle := p.inner[key].idle;
      var n := |idle| - 1;
      assert StateKeyed(p, key, p.inner[key]);
      assert IsOf(p, idle[n].sem, key);
      assert q.inner - {key} == p.inner - {key} && q.tasks - {t} == p.tasks - {t};
      forall s | s in p.sems
        ensures q.sems[s].available + IdleAt(q, key, s) + HeldBy(q, t, s)
                == p.sems[s].available + IdleAt(p, key, s) + HeldBy(p, t, s)
      {
        assert idle == idle[..n] + [idle[n]];
        CountConcat(idle[..n], [idle[n]], s);
        CountOne(idle[n], s);
      }
      LocalConserves(p, q, key, t);
    }
  }

  lemma CountOne(e: Entry, s: nat)
    ensures CountSem([e], s) == if e.sem == s then 1 else 0
  {
  }

  lemma ReturnHealthyConserves(p: Pool, t: nat)
    requires Conserved(p)
    ensures var r := Apply(p, ReturnHealthy(t)); r.Some? ==> Conserved(r.value)
  {
    hide Balance;
    var r := Apply(p, ReturnHealthy(t));
    if r.Some? {
      var q := r.value;
      var Leased(key, sem, resource, generation) := p.tasks[t];
      var mid := WithState(p, key);
      WithStateConserves(p, key);
      var idle, e := mid.inner[key].idle, Entry(resource, generation, sem);
      assert TaskKeyed(mid, mid.tasks[t]) && StateKeyed(mid, key, mid.inner[key]);
      assert q.inner - {key} == mid.inner - {key} && q.tasks - {t} == mid.tasks - {t};
      forall s | s in mid.sems
        ensures q.sems[s].available + IdleAt(q, key, s) + HeldBy(q, t, s)
                == mid.sems[s].available + IdleAt(mid, key, s) + HeldBy(mid, t, s)
      {
        CountConcat(idle, [e], s);
        CountOne(e, s);
      }
      LocalConserves(mid, q, key, t);
    }
  }

  /** Steps that only count, record or create a state: no permit moves. */
  lemma CountingConserves(p: Pool, a: Action)
    requires Conserved(p) && (a.MarkActive? || a.RecordGeneration? || a.PoolHandles?)
    ensures Apply(p, a).Some? ==> Conserved(Apply(p, a).value)
  {
    hide Balance;
    var r := Apply(p, a);
    if r.Some? {
      var q := r.value;
      var t := a.task;
      var key := if a.PoolHandles? then a.key else p.tasks[t].key;
      var mid := WithState(p, key);
      WithStateConserves(p, key);
      assert t in p.tasks ==> TaskKeyed(mid, mid.tasks[t]);
      assert StateKeyed(mid, key, mid.inner[key]);
      assert q.inner - {key} == mid.inner - {key} && q.tasks - {t} == mid.tasks - {t};
      LocalConserves(mid, q, key, t);
    }
  }

  lemma UncountingConserves(p: Pool, a: Action)
    requires Conserved(p) && (a.CreateFail? || a.FinishRelease?)
    ensures Apply(p, a).Some? ==> Conserved(Apply(p, a).value)
  {
    hide Balance;
    var r := Apply(p, a);
    if r.Some? {
      var q := r.value;
      var t := a.task;
      var key := p.tasks[t].key;
      assert TaskKeyed(p, p.tasks[t]);
      assert key in p.inner ==> StateKeyed(p, key, p.inner[key]);
      assert q.inner - {key} == p.inner - {key} && q.tasks - {t} == p.tasks - {t};
      LocalConserves(p, q, key, t);
    }
  }

  /** Steps that move a permit between a semaphore and a task, or only change a task. */
  lemma PermitConserves(p: Pool, a: Action)
    requires Conserved(p) && (a.TryAcquire? || a.CreateOk? || a.DropPermit? || a.ReleasePermit?)
    ensures Apply(p, a).Some? ==> Conserved(Apply(p, a).value)
  {
    hide Balance;
    var r := Apply(p, a);
    if r.Some? {
      var q := r.value;
      var t := a.task;
      assert TaskKeyed(p, p.tasks[t]);
      assert q.tasks - {t} == p.tasks - {t};
      TaskStepConserves(p, q, t);
    }
  }

  lemma StepConserves(p: Pool, a: Action)
    requires Conserved(p)
    ensures Apply(p, a).Some? ==> Conserved(Apply(p, a).value) && Apply(p, a).value.capacity == p.capacity
  {
    hide Conserved;
    match a
    case CheckoutIdle(t, key) => CheckoutIdleConserves(p, t, key);
    case PoolHandles(_, _) => CountingConserves(p, a);
    case TryAcquire(_) => PermitConserves(p, a);
    case MarkActive(_) => CountingConserves(p, a);
    case CreateOk(_, _) => PermitConserves(p, a);
    case RecordGeneration(_) => CountingConserves(p, a);
    case CreateFail(_) => UncountingConserves(p, a);
    case DropPermit(_) => PermitConserves(p, a);
    case ReturnHealthy(t) => ReturnHealthyConserves(p, t);
    case ReleasePermit(_) => PermitConserves(p, a);
    case FinishRelease(_) => UncountingConserves(p, a);
    case Invalidate(key, g) =>
      if key in p.inner {
        RetainKeyConserves(p, key, NotGeneration(g));
      }
    case Sweep(discard) =>
      RetainKeysConserves(p, p.inner.Keys, NotAmong(discard));
      DropUnusedConserves(RetainKeys(p, p.inner.Keys, NotAmong(discard)));
  }
}
