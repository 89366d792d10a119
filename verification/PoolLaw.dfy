/**
 * The per-key law of the pool (active + idle + available = capacity): it holds throughout a run
 * if and only if every task that marks itself active finds the state whose permit it holds.
 */
module PoolLaw {
  import opened Bytes
  import opened Pool

  /** Counted in its key's `active`. */
  predicate Marked(task: Task) {
    task.Creating? || task.Created? || task.Leased? || task.Releasing?
  }

  predicate Unmarked(task: Task, s: nat) {
    (task.Acquired? || task.Failing?) && task.sem == s
  }

  ghost function MarkedAt(tasks: map<nat, Task>, k: Key): (ts: set<nat>) {
    set t | t in tasks && Marked(tasks[t]) && tasks[t].key == k
  }

  ghost function ReleasingAt(tasks: map<nat, Task>, k: Key): (ts: set<nat>) {
    set t | t in tasks && tasks[t].Releasing? && tasks[t].key == k
  }

  ghost function UnmarkedWith(tasks: map<nat, Task>, s: nat): (ts: set<nat>) {
    set t | t in tasks && Unmarked(tasks[t], s)
  }

  /**
   * active + idle + available = capacity, corrected for tasks between two lock regions: a permit
   * taken but not yet counted (or no longer), and a count whose permit is already back.
   */
  ghost predicate KeyLaw(p: Pool, k: Key) {
    k in p.inner && p.inner[k].sem in p.sems ==>
      var st := p.inner[k];
      st.active + |st.idle| + p.sems[st.sem].available + |UnmarkedWith(p.tasks, st.sem)|
      == p.capacity + |ReleasingAt(p.tasks, k)|
  }

  ghost predicate Law(p: Pool) {
    forall k :: k in p.inner ==> KeyLaw(p, k)
  }

  /** Counters count, and everything counted under a key holds a permit of that key's present semaphore. */
  ghost predicate Clean(p: Pool) {
    && (forall k :: k in p.inner ==> StateClean(p.inner[k], p.tasks, k))
    && (forall t :: t in p.tasks ==> TaskClean(p.inner, p.tasks[t]))
  }

  ghost predicate StateClean(st: PoolState, tasks: map<nat, Task>, k: Key) {
    st.active == |MarkedAt(tasks, k)| && forall i :: 0 <= i < |st.idle| ==> st.idle[i].sem == st.sem
  }

  ghost predicate TaskClean(inner: map<Key, PoolState>, task: Task) {
    Marked(task) ==> task.key in inner && (!task.Releasing? ==> task.sem == inner[task.key].sem)
  }

  // ---------------------------------------------------------------------------
  // A clean pool obeys the law
  // ---------------------------------------------------------------------------

  lemma {:induction false} CountAll(entries: seq<Entry>, s: nat)
    requires forall i :: 0 <= i < |entries| ==> entries[i].sem == s
    ensures CountSem(entries, s) == |entries|
  {
    if entries != [] {
      CountAll(entries[1..], s);
    }
  }

  /** Only a semaphore's own key can have idle entries with its permits. */
  lemma IdleElsewhere(p: Pool, s: nat, k: Key)
    requires WellKeyed(p) && s in p.sems && p.sems[s].key == k
    ensures IdleWith(p.inner - {k}, s) == 0
  {
    forall j | j in p.inner - {k}
      ensures CountSem(p.inner[j].idle, s) == 0
    {
      assert StateKeyed(p, j, p.inner[j]);
      CountNone(p.inner[j].idle, s);
    }
    SumZero(IdleCounts(p.inner - {k}, s));
  }

  lemma HoldersOfCurrent(p: Pool, k: Key)
    requires WellKeyed(p) && Clean(p) && k in p.inner
    ensures var s := p.inner[k].sem;
            |Holders(p.tasks, s)| + |ReleasingAt(p.tasks, k)| == |MarkedAt(p.tasks, k)| + |UnmarkedWith(p.tasks, s)|
  {
    var s := p.inner[k].sem;
    var m, r, u := MarkedAt(p.tasks, k), ReleasingAt(p.tasks, k), UnmarkedWith(p.tasks, s);
    assert StateKeyed(p, k, p.inner[k]);
    forall t | t in p.tasks
      ensures t in Holders(p.tasks, s) <==> t in (m - r) + u
    {
      assert TaskKeyed(p, p.tasks[t]) && TaskClean(p.inner, p.tasks[t]);
    }
    assert Holders(p.tasks, s) == (m - r) + u;
    assert r <= m && (m - r) !! u;
  }

  lemma CleanObeysLaw(p: Pool)
    requires Conserved(p) && Clean(p)
    ensures Law(p)
  {
    hide Holders, IdleWith, StateKeyed, WellKeyed;
    forall k | k in p.inner && p.inner[k].sem in p.sems
      ensures KeyLaw(p, k)
    {
      var s := p.inner[k].sem;
      SemOfState(p, k);
      HoldersOfCurrent(p, k);
      IdleSplit(p, k, s);
      IdleElsewhere(p, s, k);
      assert StateClean(p.inner[k], p.tasks, k);
      CountAll(p.inner[k].idle, s);
      assert Balance(p, s) == p.capacity;
    }
  }

  lemma SemOfState(p: Pool, k: Key)
    requires WellKeyed(p) && k in p.inner
    ensures p.inner[k].sem in p.sems && p.sems[p.inner[k].sem].key == k
  {
    assert StateKeyed(p, k, p.inner[k]);
  }

  /** A key without a state has every permit of its semaphores home, but for tasks not counted. */
  lemma AbsentKeyIsHome(p: Pool, s: nat)
    requires Conserved(p) && Clean(p) && s in p.sems && p.sems[s].key !in p.inner
    ensures p.sems[s].available + |UnmarkedWith(p.tasks, s)| == p.capacity
  {
    hide IdleWith, StateKeyed, StateClean;
    var k := p.sems[s].key;
    assert p.inner - {k} == p.inner;
    IdleElsewhere(p, s, k);
    forall t | t in p.tasks
      ensures t in Holders(p.tasks, s) <==> t in UnmarkedWith(p.tasks, s)
    {
      assert TaskKeyed(p, p.tasks[t]) && TaskClean(p.inner, p.tasks[t]);
    }
    assert Holders(p.tasks, s) == UnmarkedWith(p.tasks, s);
    assert Balance(p, s) == p.capacity;
  }

  // ---------------------------------------------------------------------------
  // Which steps keep a pool clean
  // ---------------------------------------------------------------------------

  ghost function MarkOf(tasks: map<nat, Task>, t: nat, k: Key): (n: nat) {
    if t in tasks && Marked(tasks[t]) && tasks[t].key == k then 1 else 0
  }

  lemma MarkedSplit(tasks: map<nat, Task>, t: nat, k: Key)
    ensures |MarkedAt(tasks, k)| == MarkOf(tasks, t, k) + |MarkedAt(tasks - {t}, k)|
  {
    if MarkOf(tasks, t, k) == 1 {
      assert MarkedAt(tasks, k) == MarkedAt(tasks - {t}, k) + {t};
    } else {
      assert MarkedAt(tasks, k) == MarkedAt(tasks - {t}, k);
    }
  }

  ghost function ActiveAt(p: Pool, k: Key): (n: nat) {
    if k in p.inner then p.inner[k].active else 0
  }

  /** Task `t` only ever counts under key `k`. */
  ghost predicate TiedTo(tasks: map<nat, Task>, t: nat, k: Key) {
    t in tasks ==> tasks[t].key == k
  }

  lemma ActiveIsMarked(p: Pool, k: Key)
    requires Clean(p)
    ensures ActiveAt(p, k) == |MarkedAt(p.tasks, k)|
  {
    if k in p.inner {
      assert StateClean(p.inner[k], p.tasks, k);
    } else {
      assert forall t :: t in p.tasks ==> TaskClean(p.inner, p.tasks[t]);
      assert MarkedAt(p.tasks, k) == {};
    }
  }

  /** A local step keeps a pool clean when its count and its task agree and its semaphore stays. */
  lemma LocalClean(p: Pool, q: Pool, k: Key, t: nat)
    requires Clean(p) && p.inner - {k} == q.inner - {k} && p.tasks - {t} == q.tasks - {t}
    requires TiedTo(p.tasks, t, k) && TiedTo(q.tasks, t, k)
    requires ActiveAt(q, k) + MarkOf(p.tasks, t, k) == ActiveAt(p, k) + MarkOf(q.tasks, t, k)
    requires k in p.inner && k in q.inner ==> q.inner[k].sem == p.inner[k].sem
    requires k in q.inner ==> forall i :: 0 <= i < |q.inner[k].idle| ==> q.inner[k].idle[i].sem == q.inner[k].sem
    requires t in q.tasks ==> TaskClean(q.inner, q.tasks[t])
    ensures Clean(q)
  {
    hide MarkedAt;
    ActiveIsMarked(p, k);
    MarkedSplit(p.tasks, t, k);
    MarkedSplit(q.tasks, t, k);
    forall j | j in q.inner
      ensures StateClean(q.inner[j], q.tasks, j)
    {
      if j != k {
        assert j in q.inner - {k} && (q.inner - {k})[j] == (p.inner - {k})[j];
        assert StateClean(p.inner[j], p.tasks, j);
        MarkedSplit(p.tasks, t, j);
        MarkedSplit(q.tasks, t, j);
      }
    }
    forall u | u in q.tasks
      ensures TaskClean(q.inner, q.tasks[u])
    {
      if u != t {
        OtherTaskClean(p, q, k, t, u);
      }
    }
  }

  lemma OtherTaskClean(p: Pool, q: Pool, k: Key, t: nat, u: nat)
    requires Clean(p) && p.inner - {k} == q.inner - {k} && p.tasks - {t} == q.tasks - {t}
    requires ActiveAt(q, k) == |MarkedAt(q.tasks, k)|
    requires k in p.inner && k in q.inner ==> q.inner[k].sem == p.inner[k].sem
    requires u in q.tasks && u != t
    ensures TaskClean(q.inner, q.tasks[u])
  {
    assert u in q.tasks - {t} && (q.tasks - {t})[u] == (p.tasks - {t})[u];
    var task := q.tasks[u];
    assert TaskClean(p.inner, task);
    if Marked(task) {
      if task.key == k {
        assert u in MarkedAt(q.tasks, k);
      } else {
        assert task.key in p.inner - {k} && (q.inner - {k})[task.key] == (p.inner - {k})[task.key];
      }
    }
  }

  /** The permit a task is about to count belongs to the state it will be counted in. */
  ghost predicate Matched(p: Pool, t: nat) {
    t in p.tasks && p.tasks[t].Acquired? ==>
      p.tasks[t].key in p.inner && p.inner[p.tasks[t].key].sem == p.tasks[t].sem
  }

  lemma TakeOrReturnClean(p: Pool, a: Action)
    requires WellKeyed(p) && Clean(p) && (a.CheckoutIdle? || a.ReturnHealthy?)
    ensures Apply(p, a).Some? ==> Clean(Apply(p, a).value)
  {
    hide MarkedAt;
    var r := Apply(p, a);
    if r.Some? {
      var q, t := r.value, a.task;
      var key := if a.CheckoutIdle? then a.key else p.tasks[t].key;
      if t in p.tasks {
        assert TaskClean(p.inner, p.tasks[t]);
      }
      assert StateClean(p.inner[key], p.tasks, key);
      if a.ReturnHealthy? {
        MarkedIsCounted(p, t);
      }
      assert q.inner - {key} == p.inner - {key} && q.tasks - {t} == p.tasks - {t};
      LocalClean(p, q, key, t);
    }
  }

  /** A counted task's key has a positive count. */
  lemma MarkedIsCounted(p: Pool, t: nat)
    requires Clean(p) && t in p.tasks && Marked(p.tasks[t])
    ensures p.tasks[t].key in p.inner && p.inner[p.tasks[t].key].active > 0
  {
    var k := p.tasks[t].key;
    assert TaskClean(p.inner, p.tasks[t]);
    assert StateClean(p.inner[k], p.tasks, k);
    assert t in MarkedAt(p.tasks, k);
  }

  lemma CountingClean(p: Pool, a: Action)
    requires WellKeyed(p) && Clean(p) && (a.PoolHandles? || a.MarkActive? || a.RecordGeneration?)
    requires a.MarkActive? ==> Matched(p, a.task)
    ensures Apply(p, a).Some? ==> Clean(Apply(p, a).value)
  {
    hide MarkedAt;
    var r := Apply(p, a);
    if r.Some? {
      var q, t := r.value, a.task;
      var key := if a.PoolHandles? then a.key else p.tasks[t].key;
      if t in p.tasks {
        assert TaskClean(p.inner, p.tasks[t]);
      }
      if key in p.inner {
        assert StateClean(p.inner[key], p.tasks, key);
      }
      assert q.inner - {key} == p.inner - {key} && q.tasks - {t} == p.tasks - {t};
      LocalClean(p, q, key, t);
    }
  }

  lemma TaskOnlyClean(p: Pool, a: Action)
    requires WellKeyed(p) && Clean(p) && (a.TryAcquire? || a.CreateOk? || a.DropPermit? || a.ReleasePermit?)
    ensures Apply(p, a).Some? ==> Clean(Apply(p, a).value)
  {
    hide MarkedAt;
    var r := Apply(p, a);
    if r.Some? {
      var q, t := r.value, a.task;
      var key := p.tasks[t].key;
      assert TaskClean(p.inner, p.tasks[t]);
      if key in p.inner {
        assert StateClean(p.inner[key], p.tasks, key);
      }
      assert q.tasks - {t} == p.tasks - {t};
      LocalClean(p, q, key, t);
    }
  }

  lemma UncountingClean(p: Pool, a: Action)
    requires WellKeyed(p) && Clean(p) && (a.CreateFail? || a.FinishRelease?)
    ensures Apply(p, a).Some? ==> Clean(Apply(p, a).value)
  {
    hide MarkedAt;
    var r := Apply(p, a);
    if r.Some? {
      var q, t := r.value, a.task;
      var key := p.tasks[t].key;
      assert TaskClean(p.inner, p.tasks[t]);
      MarkedIsCounted(p, t);
      assert StateClean(p.inner[key], p.tasks, key);
      assert q.inner - {key} == p.inner - {key} && q.tasks - {t} == p.tasks - {t};
      LocalClean(p, q, key, t);
    }
  }

  /** What `retain` leaves of a state: the same semaphore and count, and a part of its idle entries. */
  ghost predicate Thinned(st: PoolState, was: PoolState) {
    st.sem == was.sem && st.active == was.active && forall i :: 0 <= i < |st.idle| ==> st.idle[i] in was.idle
  }

  ghost predicate AllThinned(p: Pool, q: Pool) {
    q.tasks == p.tasks && q.inner.Keys == p.inner.Keys && forall k :: k in p.inner ==> Thinned(q.inner[k], p.inner[k])
  }

  lemma RetainKeyThins(p: Pool, key: Key, f: Filter)
    requires key in p.inner
    ensures AllThinned(p, RetainKey(p, key, f))
  {
    hide Retain;
    var st := p.inner[key];
    var kept := Retain(st.idle, f, true);
    ReleaseAllKeeps(Update(p, key, st.(idle := kept)), Retain(st.idle, f, false));
    forall i | 0 <= i < |kept|
      ensures kept[i] in st.idle
    {
      RetainIsPart(st.idle, f, true, i);
    }
  }

  lemma ThinnedTwice(p: Pool, q: Pool, r: Pool)
    requires AllThinned(p, q) && AllThinned(q, r)
    ensures AllThinned(p, r)
  {
    forall k | k in p.inner
      ensures Thinned(r.inner[k], p.inner[k])
    {
      assert Thinned(q.inner[k], p.inner[k]) && Thinned(r.inner[k], q.inner[k]);
    }
  }

  lemma {:induction false} RetainKeysThins(p: Pool, keys: set<Key>, f: Filter)
    requires keys <= p.inner.Keys
    ensures AllThinned(p, RetainKeys(p, keys, f))
    decreases |keys|
  {
    hide RetainKey, AllThinned;
    if keys == {} {
      ThinnedSelf(p);
    } else {
      var k :| k in keys && RetainKeys(p, keys, f) == (RetainKeyKeys(p, k, f); RetainKeys(RetainKey(p, k, f), keys - {k}, f));
      RetainKeyKeys(p, k, f);
      RetainKeyThins(p, k, f);
      RetainKeysThins(RetainKey(p, k, f), keys - {k}, f);
      ThinnedTwice(p, RetainKey(p, k, f), RetainKeys(p, keys, f));
    }
  }

  lemma ThinnedSelf(p: Pool)
    ensures AllThinned(p, p)
  {
  }

  lemma ThinnedClean(p: Pool, q: Pool)
    requires Clean(p) && AllThinned(p, q)
    ensures Clean(q)
  {
    hide MarkedAt;
    forall k | k in q.inner
      ensures StateClean(q.inner[k], q.tasks, k)
    {
      assert StateClean(p.inner[k], p.tasks, k) && Thinned(q.inner[k], p.inner[k]);
    }
    forall t | t in q.tasks
      ensures TaskClean(q.inner, q.tasks[t])
    {
      assert TaskClean(p.inner, p.tasks[t]);
      if Marked(q.tasks[t]) {
        assert Thinned(q.inner[q.tasks[t].key], p.inner[q.tasks[t].key]);
      }
    }
  }

  lemma DropUnusedClean(p: Pool)
    requires Clean(p)
    ensures Clean(DropUnused(p))
  {
    hide MarkedAt;
    var q := DropUnused(p);
    forall k | k in q.inner
      ensures StateClean(q.inner[k], q.tasks, k)
    {
      assert StateClean(p.inner[k], p.tasks, k);
    }
    forall t | t in q.tasks
      ensures TaskClean(q.inner, q.tasks[t])
    {
      assert TaskClean(p.inner, p.tasks[t]);
      if Marked(p.tasks[t]) {
        MarkedIsCounted(p, t);
      }
    }
  }

  /** Every step keeps a clean pool clean, except marking active against the wrong state. */
  lemma StepClean(p: Pool, a: Action)
    requires WellKeyed(p) && Clean(p) && (a.MarkActive? ==> Matched(p, a.task))
    ensures Apply(p, a).Some? ==> Clean(Apply(p, a).value)
  {
    hide Clean, WellKeyed, Matched;
    match a
    case CheckoutIdle(_, _) => TakeOrReturnClean(p, a);
    case PoolHandles(_, _) => CountingClean(p, a);
    case TryAcquire(_) => TaskOnlyClean(p, a);
    case MarkActive(_) => CountingClean(p, a);
    case CreateOk(_, _) => TaskOnlyClean(p, a);
    case RecordGeneration(_) => CountingClean(p, a);
    case CreateFail(_) => UncountingClean(p, a);
    case DropPermit(_) => TaskOnlyClean(p, a);
    case ReturnHealthy(_) => TakeOrReturnClean(p, a);
    case ReleasePermit(_) => TaskOnlyClean(p, a);
    case FinishRelease(_) => UncountingClean(p, a);
    case Invalidate(key, g) =>
      if key in p.inner {
        RetainKeyThins(p, key, NotGeneration(g));
        ThinnedClean(p, RetainKey(p, key, NotGeneration(g)));
      }
    case Sweep(discard) =>
      var q := RetainKeys(p, p.inner.Keys, NotAmong(discard));
      RetainKeysThins(p, p.inner.Keys, NotAmong(discard));
      ThinnedClean(p, q);
      DropUnusedClean(q);
  }

  /** Marking active against the wrong state breaks the law at once. */
  lemma UnmatchedBreaksLaw(p: Pool, t: nat)
    requires Conserved(p) && Clean(p) && Apply(p, MarkActive(t)).Some? && !Matched(p, t)
    ensures !Law(Apply(p, MarkActive(t)).value)
  {
    hide Holders, IdleWith;
    var q := Apply(p, MarkActive(t)).value;
    var key := p.tasks[t].key;
    if key in p.inner {
      CleanObeysLaw(p);
      assert KeyLaw(p, key);
      SemOfState(p, key);
      assert UnmarkedWith(q.tasks, p.inner[key].sem) == UnmarkedWith(p.tasks, p.inner[key].sem);
      assert ReleasingAt(q.tasks, key) == ReleasingAt(p.tasks, key);
    } else {
      assert forall u :: u in p.tasks ==> TaskKeyed(p, p.tasks[u]) && TaskClean(p.inner, p.tasks[u]);
      assert UnmarkedWith(q.tasks, p.nextSem) == {};
      assert ReleasingAt(q.tasks, key) == {};
    }
    assert !KeyLaw(q, key);
  }

  // ---------------------------------------------------------------------------
  // Runs
  // ---------------------------------------------------------------------------

  /** The pool after the first `n` actions, or None if one of them was not possible. */
  ghost function StateAt(capacity: nat, run: seq<Action>, n: nat): (r: Option<Pool>)
    requires n <= |run|
  {
    if n == 0 then Some(Empty(capacity))
    else
      var before := StateAt(capacity, run, n - 1);
      if before.None? then None else Apply(before.value, run[n - 1])
  }

  ghost predicate IsRun(capacity: nat, run: seq<Action>) {
    forall n :: 0 <= n <= |run| ==> StateAt(capacity, run, n).Some?
  }

  /** Permits are conserved, for every semaphore, at every point of every interleaving. */
  lemma {:induction false} RunConserves(capacity: nat, run: seq<Action>, n: nat)
    requires IsRun(capacity, run) && n <= |run|
    ensures Conserved(StateAt(capacity, run, n).value)
    ensures StateAt(capacity, run, n).value.capacity == Empty(capacity).capacity
  {
    hide Apply;
    if n > 0 {
      RunConserves(capacity, run, n - 1);
      assert StateAt(capacity, run, n - 1).Some?;
      StepConserves(StateAt(capacity, run, n - 1).value, run[n - 1]);
    }
  }

  /** Every `MarkActive` among the first `n` actions met its own state. */
  ghost predicate MatchedUpTo(capacity: nat, run: seq<Action>, n: nat)
    requires IsRun(capacity, run) && n <= |run|
  {
    forall i :: 0 <= i < n && run[i].MarkActive? ==> Matched(StateAt(capacity, run, i).value, run[i].task)
  }

  lemma {:induction false} RunClean(capacity: nat, run: seq<Action>, n: nat)
    requires IsRun(capacity, run) && n <= |run| && MatchedUpTo(capacity, run, n)
    ensures Clean(StateAt(capacity, run, n).value)
  {
    hide Apply, Matched;
    if n > 0 {
      RunClean(capacity, run, n - 1);
      RunConserves(capacity, run, n - 1);
      StepClean(StateAt(capacity, run, n - 1).value, run[n - 1]);
    }
  }

  /**
   * For every run of every interleaving: the per-key law holds at every point if and only if
   * every task marks itself active in the state its permit came from.
   */
  lemma KeyLawIff(capacity: nat, run: seq<Action>)
    requires IsRun(capacity, run)
    ensures (forall n :: 0 <= n <= |run| ==> Law(StateAt(capacity, run, n).value))
              <==> MatchedUpTo(capacity, run, |run|)
  {
    hide Apply, Matched, Law, Clean;
    if MatchedUpTo(capacity, run, |run|) {
      forall n | 0 <= n <= |run|
        ensures Law(StateAt(capacity, run, n).value)
      {
        RunClean(capacity, run, n);
        RunConserves(capacity, run, n);
        CleanObeysLaw(StateAt(capacity, run, n).value);
      }
    } else {
      var n := FirstUnmatched(capacity, run, |run|);
      RunClean(capacity, run, n);
      RunConserves(capacity, run, n);
      assert StateAt(capacity, run, n + 1).Some?;
      UnmatchedBreaksLaw(StateAt(capacity, run, n).value, run[n].task);
    }
  }

  lemma {:induction false} FirstUnmatched(capacity: nat, run: seq<Action>, n: nat) returns (i: nat)
    requires IsRun(capacity, run) && n <= |run| && !MatchedUpTo(capacity, run, n)
    ensures i < n && MatchedUpTo(capacity, run, i)
    ensures run[i].MarkActive? && !Matched(StateAt(capacity, run, i).value, run[i].task)
  {
    hide Apply, Matched, StateAt;
    if MatchedUpTo(capacity, run, n - 1) {
      i := n - 1;
    } else {
      i := FirstUnmatched(capacity, run, n - 1);
    }
  }

  /** One-at-a-time histories: a checkout takes handles, acquires and marks with nothing in between. */
  ghost predicate BackToBack(run: seq<Action>) {
    forall i :: 0 <= i < |run| && run[i].MarkActive? ==>
                  i >= 2 && run[i - 1] == TryAcquire(run[i].task)
                  && run[i - 2].PoolHandles? && run[i - 2].task == run[i].task
  }

  /** In such histories the per-key law holds throughout. */
  lemma OneAtATimeKeepsLaw(capacity: nat, run: seq<Action>)
    requires IsRun(capacity, run) && BackToBack(run)
    ensures forall n :: 0 <= n <= |run| ==> Law(StateAt(capacity, run, n).value)
  {
    hide Law, Apply, Matched;
    forall i | 0 <= i < |run| && run[i].MarkActive?
      ensures Matched(StateAt(capacity, run, i).value, run[i].task)
    {
      var p := StateAt(capacity, run, i - 2).value;
      assert StateAt(capacity, run, i - 1).Some? && StateAt(capacity, run, i).Some?;
      HandOffMatches(p, run[i].task, run[i - 2].key);
    }
    KeyLawIff(capacity, run);
  }

  lemma HandOffMatches(p: Pool, t: nat, key: Key)
    requires Apply(p, PoolHandles(t, key)).Some?
    requires Apply(Apply(p, PoolHandles(t, key)).value, TryAcquire(t)).Some?
    ensures Matched(Apply(Apply(p, PoolHandles(t, key)).value, TryAcquire(t)).value, t)
  {
  }

  // ---------------------------------------------------------------------------
  // Removal, and the race that breaks the law
  // ---------------------------------------------------------------------------

  lemma StepKeepsSems(p: Pool, a: Action, s: nat)
    requires WellKeyed(p) && s in p.sems && Apply(p, a).Some?
    ensures s in Apply(p, a).value.sems && Apply(p, a).value.sems[s].key == p.sems[s].key
  {
    match a
    case Invalidate(key, g) =>
      if key in p.inner {
        RetainKeyIsLocal(p, key, NotGeneration(g), 0);
      }
    case Sweep(discard) =>
      RetainKeysKeepsSems(p, p.inner.Keys, NotAmong(discard), s);
    case _ =>
  }

  lemma {:induction false} RetainKeysKeepsSems(p: Pool, keys: set<Key>, f: Filter, s: nat)
    requires keys <= p.inner.Keys && s in p.sems
    ensures s in RetainKeys(p, keys, f).sems && RetainKeys(p, keys, f).sems[s].key == p.sems[s].key
    decreases |keys|
  {
    hide RetainKey;
    if keys != {} {
      var k :| k in keys && RetainKeys(p, keys, f) == (RetainKeyKeys(p, k, f); RetainKeys(RetainKey(p, k, f), keys - {k}, f));
      RetainKeyKeys(p, k, f);
      RetainKeyKeepsSems(p, k, f, s);
      RetainKeysKeepsSems(RetainKey(p, k, f), keys - {k}, f, s);
    }
  }

  lemma RetainKeyKeepsSems(p: Pool, key: Key, f: Filter, s: nat)
    requires key in p.inner && s in p.sems
    ensures s in RetainKey(p, key, f).sems && RetainKey(p, key, f).sems[s].key == p.sems[s].key
  {
    hide Retain;
    var st := p.inner[key];
    ReleaseAllKeeps(Update(p, key, st.(idle := Retain(st.idle, f, true))), Retain(st.idle, f, false));
  }

  /** While marks match, a key's state goes away only with its permits home (or with tasks not counted). */
  lemma RemovedOnlyWhenHome(capacity: nat, run: seq<Action>, n: nat, k: Key)
    requires IsRun(capacity, run) && n < |run| && MatchedUpTo(capacity, run, n + 1)
    requires k in StateAt(capacity, run, n).value.inner && k !in StateAt(capacity, run, n + 1).value.inner
    ensures var s := StateAt(capacity, run, n).value.inner[k].sem;
            var q := StateAt(capacity, run, n + 1).value;
            s in q.sems && q.sems[s].available + |UnmarkedWith(q.tasks, s)| == q.capacity
  {
    hide Apply, Matched, Clean;
    var p := StateAt(capacity, run, n).value;
    RunConserves(capacity, run, n);
    RunConserves(capacity, run, n + 1);
    RunClean(capacity, run, n + 1);
    SemOfState(p, k);
    StepKeepsSems(p, run[n], p.inner[k].sem);
    AbsentKeyIsHome(StateAt(capacity, run, n + 1).value, p.inner[k].sem);
  }

  /** Task 2 takes handles, task 1's release removes the state, and task 2 is counted in a new one. */
  const RACE: seq<Action> := [
    PoolHandles(1, 0), TryAcquire(1), MarkActive(1), CreateOk(1, 100), RecordGeneration(1),
    PoolHandles(2, 0), ReleasePermit(1), FinishRelease(1), TryAcquire(2), MarkActive(2),
    PoolHandles(3, 0), TryAcquire(3), MarkActive(3)]

  ghost predicate Has(tasks: map<nat, Task>, t: nat, task: Task) {
    t in tasks && tasks[t] == task
  }

  /** After `n` actions of the race the pool is `p`; all before were possible. */
  ghost predicate RaceAt(n: nat, p: Pool) {
    n <= |RACE| && StateAt(1, RACE, n) == Some(p) && forall i :: 0 <= i <= n ==> StateAt(1, RACE, i).Some?
  }

  lemma RaceStep(n: nat, p: Pool, q: Pool)
    requires n < |RACE| && RaceAt(n, p) && Apply(p, RACE[n]) == Some(q)
    ensures RaceAt(n + 1, q)
  {
    hide Apply;
  }

  lemma RaceStart()
    ensures RaceAt(0, Empty(1))
  {
  }

  /** Key 0 has one state, on semaphore 0. */
  ghost predicate OnlyState(p: Pool, active: nat, available: nat) {
    && p.capacity == 1 && p.nextSem == 1
    && 0 in p.inner && p.inner[0].sem == 0 && p.inner[0].active == active && p.inner[0].idle == []
    && 0 in p.sems && p.sems[0] == Sem(0, available)
  }

  lemma RaceHandles() returns (p: Pool)
    ensures RaceAt(1, p) && OnlyState(p, 0, 1) && p.nextGen == 1
    ensures p.tasks.Keys == {1} && Has(p.tasks, 1, Handles(0, 0))
  {
    hide RaceAt;
    RaceStart();
    p := Apply(Empty(1), RACE[0]).value;
    RaceStep(0, Empty(1), p);
  }

  lemma RaceAcquires() returns (p: Pool)
    ensures RaceAt(2, p) && OnlyState(p, 0, 0) && p.nextGen == 1
    ensures p.tasks.Keys == {1} && Has(p.tasks, 1, Acquired(0, 0))
  {
    hide RaceAt;
    var before := RaceHandles();
    p := Apply(before, RACE[1]).value;
    RaceStep(1, before, p);
  }

  lemma RaceToCreate() returns (p: Pool)
    ensures RaceAt(3, p) && OnlyState(p, 1, 0) && p.nextGen == 1
    ensures p.tasks.Keys == {1} && Has(p.tasks, 1, Creating(0, 0))
  {
    hide RaceAt;
    var before := RaceAcquires();
    p := Apply(before, RACE[2]).value;
    RaceStep(2, before, p);
  }

  lemma RaceCreates() returns (p: Pool)
    ensures RaceAt(4, p) && OnlyState(p, 1, 0)
    ensures p.tasks.Keys == {1} && Has(p.tasks, 1, Created(0, 0, 100, 1))
  {
    hide RaceAt;
    var before := RaceToCreate();
    p := Apply(before, RACE[3]).value;
    RaceStep(3, before, p);
  }

  lemma RaceToLease() returns (p: Pool)
    ensures RaceAt(5, p) && OnlyState(p, 1, 0)
    ensures p.tasks.Keys == {1} && Has(p.tasks, 1, Leased(0, 0, 100, 1))
  {
    hide RaceAt;
    var before := RaceCreates();
    p := Apply(before, RACE[4]).value;
    RaceStep(4, before, p);
  }

  lemma RaceOtherHandles() returns (p: Pool)
    ensures RaceAt(6, p) && OnlyState(p, 1, 0)
    ensures p.tasks.Keys == {1, 2} && Has(p.tasks, 1, Leased(0, 0, 100, 1)) && Has(p.tasks, 2, Handles(0, 0))
  {
    hide RaceAt;
    var before := RaceToLease();
    p := Apply(before, RACE[5]).value;
    RaceStep(5, before, p);
  }

  lemma RaceReleases() returns (p: Pool)
    ensures RaceAt(7, p) && OnlyState(p, 1, 1)
    ensures p.tasks.Keys == {1, 2} && Has(p.tasks, 1, Releasing(0)) && Has(p.tasks, 2, Handles(0, 0))
  {
    hide RaceAt;
    var before := RaceOtherHandles();
    p := Apply(before, RACE[6]).value;
    RaceStep(6, before, p);
  }

  /** Task 1's release removes the state while task 2 has handles to it. */
  lemma RaceToRemoval() returns (p: Pool)
    ensures RaceAt(8, p) && 0 !in p.inner && p.capacity == 1 && p.nextSem == 1
    ensures 0 in p.sems && p.sems[0] == Sem(0, 1)
    ensures p.tasks.Keys == {2} && Has(p.tasks, 2, Handles(0, 0))
  {
    hide RaceAt;
    var before := RaceReleases();
    p := Apply(before, RACE[7]).value;
    RaceStep(7, before, p);
  }

  lemma RaceOtherAcquires() returns (p: Pool)
    ensures RaceAt(9, p) && 0 !in p.inner && p.capacity == 1 && p.nextSem == 1
    ensures p.tasks.Keys == {2} && Has(p.tasks, 2, Acquired(0, 0))
  {
    hide RaceAt;
    var before := RaceToRemoval();
    p := Apply(before, RACE[8]).value;
    RaceStep(8, before, p);
  }

  /** Task 2 is counted in a new state, whose semaphore is full. */
  lemma RaceRecreates() returns (p: Pool)
    ensures RaceAt(10, p) && p.capacity == 1 && 0 in p.inner && p.inner[0].sem == 1
    ensures 1 in p.sems && p.sems[1] == Sem(0, 1)
    ensures p.tasks.Keys == {2} && Has(p.tasks, 2, Creating(0, 0))
  {
    hide RaceAt;
    var before := RaceOtherAcquires();
    p := Apply(before, RACE[9]).value;
    RaceStep(9, before, p);
  }

  lemma RaceThirdHandles() returns (p: Pool)
    ensures RaceAt(11, p) && p.capacity == 1 && 0 in p.inner && 1 in p.sems && p.sems[1] == Sem(0, 1)
    ensures p.tasks.Keys == {2, 3} && Has(p.tasks, 2, Creating(0, 0)) && Has(p.tasks, 3, Handles(0, 1))
  {
    hide RaceAt;
    var before := RaceRecreates();
    p := Apply(before, RACE[10]).value;
    RaceStep(10, before, p);
  }

  lemma RaceThirdAcquires() returns (p: Pool)
    ensures RaceAt(12, p) && p.capacity == 1 && 0 in p.inner
    ensures Has(p.tasks, 2, Creating(0, 0)) && Has(p.tasks, 3, Acquired(0, 1))
  {
    hide RaceAt;
    var before := RaceThirdHandles();
    p := Apply(before, RACE[11]).value;
    RaceStep(11, before, p);
  }

  lemma RaceEnds() returns (p: Pool)
    ensures RaceAt(13, p) && p.capacity == 1
    ensures Has(p.tasks, 2, Creating(0, 0)) && Has(p.tasks, 3, Creating(0, 1))
  {
    hide RaceAt;
    var before := RaceThirdAcquires();
    p := Apply(before, RACE[12]).value;
    RaceStep(12, before, p);
  }

  /** With capacity 1, that interleaving lets two tasks create a resource for the same key at once. */
  lemma RaceExceedsCapacity()
    ensures IsRun(1, RACE)
    ensures var p := StateAt(1, RACE, |RACE|).value;
            p.capacity == 1 && Has(p.tasks, 2, Creating(0, 0)) && Has(p.tasks, 3, Creating(0, 1))
  {
    hide StateAt, Has;
    var p := RaceEnds();
  }
}
