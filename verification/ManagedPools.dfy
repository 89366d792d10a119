/**
 * The pool as an object.  Each method is one lock region of the source, or one permit operation, and
 * takes exactly the step of that name; where the calling task stands is ghost state.
 */
module ManagedPools {
  import opened Bytes
  import opened Pool

  datatype Lease = Lease(key: Key, resource: nat, generation: nat, sem: nat)

  predicate IsLastIdle(st: PoolState, lease: Lease)
    requires st.idle != []
  {
    st.idle[|st.idle| - 1] == Entry(lease.resource, lease.generation, lease.sem)
  }

  class ManagedPool {
    const capacity: nat
    var inner: map<Key, PoolState>
    var sems: map<nat, Sem>
    var nextSem: nat
    var nextGeneration: nat
    ghost var tasks: map<nat, Task>

    ghost function Snapshot(): (p: Pool)
      reads this
    {
      Pool(capacity, inner, sems, nextSem, tasks, nextGeneration)
    }

    /** Permits are accounted for. */
    ghost predicate Valid()
      reads this
    {
      Conserved(Snapshot())
    }

    constructor (capacity: nat)
      ensures Valid() && Snapshot() == Empty(capacity)
      ensures this.capacity == (if capacity == 0 then 1 else capacity) && inner == map[] && nextGeneration == 1
    {
      this.capacity := if capacity == 0 then 1 else capacity;
      inner, sems, nextSem, tasks, nextGeneration := map[], map[], 0, map[], 1;
      new;
      assert IdleCounts(inner, 0) == map[];
    }

    method EnsureState(key: Key)
      modifies this`inner, this`sems, this`nextSem
      ensures Snapshot() == WithState(old(Snapshot()), key)
      ensures key in old(inner) ==> inner == old(inner) && sems == old(sems)
      ensures key !in old(inner) ==> inner == old(inner)[key := PoolState(old(nextSem), [], 0, 0)]
                                     && sems == old(sems)[old(nextSem) := Sem(key, capacity)]
    {
      if key !in inner {
        inner := inner[key := PoolState(nextSem, [], 0, 0)];
        sems := sems[nextSem := Sem(key, capacity)];
        nextSem := nextSem + 1;
      }
    }

    method ReleaseOne(sem: nat)
      modifies this`sems
      ensures Snapshot() == Release(old(Snapshot()), sem)
    {
      if sem in sems {
        sems := sems[sem := sems[sem].(available := sems[sem].available + 1)];
      }
    }

    method CheckoutIdle(ghost t: nat, key: Key) returns (lease: Option<Lease>)
      requires Valid() && t !in tasks
      modifies this
      ensures Valid()
      ensures lease.None? ==> Snapshot() == old(Snapshot()) && Apply(old(Snapshot()), Action.CheckoutIdle(t, key)).None?
      ensures lease.None? ==> key !in inner || inner[key].idle == []
      ensures lease.Some? ==>
                && Apply(old(Snapshot()), Action.CheckoutIdle(t, key)) == Some(Snapshot())
                && t in tasks && tasks[t] == Leased(key, lease.value.sem, lease.value.resource, lease.value.generation)
      ensures lease.Some? ==> key in old(inner) && old(inner)[key].idle != [] && IsLastIdle(old(inner)[key], lease.value)
      ensures lease.Some? ==>
                && var st := old(inner)[key];
                && inner == old(inner)[key := PoolState(st.sem, st.idle[..|st.idle| - 1], st.active + 1,
                                                        Max(st.latest, lease.value.generation))]
                && sems == old(sems)
    {
      hide Conserved;
      if key !in inner || inner[key].idle == [] {
        return None;
      }
      StepConserves(Snapshot(), Action.CheckoutIdle(t, key));
      var st := inner[key];
      var last := |st.idle| - 1;
      var e := st.idle[last];
      inner := inner[key := st.(idle := st.idle[..last], active := st.active + 1, latest := Max(st.latest, e.generation))];
      tasks := tasks[t := Leased(key, e.sem, e.resource, e.generation)];
      lease := Some(Lease(key, e.resource, e.generation, e.sem));
    }

    method PoolHandles(ghost t: nat, key: Key) returns (sem: nat)
      requires Valid() && t !in tasks
      modifies this
      ensures Valid() && Apply(old(Snapshot()), Action.PoolHandles(t, key)) == Some(Snapshot())
      ensures t in tasks && tasks[t] == Handles(key, sem) && sem in sems
      ensures key in inner && inner[key].sem == sem
      ensures inner[key].idle == if key in old(inner) then old(inner)[key].idle else []
    {
      hide Conserved;
      StepConserves(Snapshot(), Action.PoolHandles(t, key));
      EnsureState(key);
      sem := inner[key].sem;
      tasks := tasks[t := Handles(key, sem)];
      HandleExists(Snapshot(), t);
    }

    method TryAcquire(ghost t: nat, ghost key: Key, sem: nat) returns (ok: bool)
      requires Valid() && t in tasks && tasks[t] == Handles(key, sem) && sem in sems
      modifies this
      ensures Valid() && Apply(old(Snapshot()), Action.TryAcquire(t)) == Some(Snapshot())
      ensures ok <==> old(sems)[sem].available > 0
      ensures ok ==> t in tasks && tasks[t] == Acquired(key, sem) && inner == old(inner)
                     && sems == old(sems)[sem := Sem(old(sems)[sem].key, old(sems)[sem].available - 1)]
      ensures !ok ==> t !in tasks && sems == old(sems) && sems[sem].available == 0 && inner == old(inner)
    {
      hide Conserved;
      StepConserves(Snapshot(), Action.TryAcquire(t));
      if sems[sem].available == 0 {
        tasks := tasks - {t};
        return false;
      }
      sems := sems[sem := sems[sem].(available := sems[sem].available - 1)];
      tasks := tasks[t := Acquired(key, sem)];
      ok := true;
    }

    method MarkActive(ghost t: nat, key: Key, ghost sem: nat)
      requires Valid() && t in tasks && tasks[t] == Acquired(key, sem)
      modifies this
      ensures Valid() && Apply(old(Snapshot()), Action.MarkActive(t)) == Some(Snapshot())
      ensures t in tasks && tasks[t] == Creating(key, sem)
      ensures key in inner && OthersSame(old(inner), inner, key)
      ensures key in old(inner) ==> inner[key] == old(inner)[key].(active := old(inner)[key].active + 1)
      ensures key !in old(inner) ==> inner[key] == PoolState(old(nextSem), [], 1, 0)
    {
      hide Conserved;
      StepConserves(Snapshot(), Action.MarkActive(t));
      EnsureState(key);
      inner := inner[key := inner[key].(active := inner[key].active + 1)];
      tasks := tasks[t := Creating(key, sem)];
    }

    method AllocateGeneration(ghost t: nat, ghost key: Key, ghost sem: nat, ghost resource: nat) returns (generation: nat)
      requires Valid() && t in tasks && tasks[t] == Creating(key, sem)
      modifies this
      ensures Valid() && Apply(old(Snapshot()), CreateOk(t, resource)) == Some(Snapshot())
      ensures t in tasks && tasks[t] == Created(key, sem, resource, generation)
      ensures generation == old(nextGeneration) && inner == old(inner) && sems == old(sems)
      ensures generation < 0xFFFF_FFFF_FFFF_FFFF ==> nextGeneration == generation + 1
    {
      hide Conserved;
      StepConserves(Snapshot(), CreateOk(t, resource));
      generation := nextGeneration;
      nextGeneration := SaturatingNext(generation);
      tasks := tasks[t := Created(key, sem, resource, generation)];
    }

    method RecordGeneration(ghost t: nat, key: Key, ghost sem: nat, ghost resource: nat, generation: nat)
      requires Valid() && t in tasks && tasks[t] == Created(key, sem, resource, generation)
      modifies this
      ensures Valid() && Apply(old(Snapshot()), Action.RecordGeneration(t)) == Some(Snapshot())
      ensures t in tasks && tasks[t] == Leased(key, sem, resource, generation)
      ensures key in inner && OthersSame(old(inner), inner, key) && inner[key].latest >= generation
      ensures key in old(inner) ==>
                inner[key] == old(inner)[key].(latest := inner[key].latest)
                && (inner[key].latest == generation || inner[key].latest == old(inner)[key].latest > generation)
    {
      hide Conserved;
      StepConserves(Snapshot(), Action.RecordGeneration(t));
      EnsureState(key);
      inner := inner[key := inner[key].(latest := Max(inner[key].latest, generation))];
      tasks := tasks[t := Leased(key, sem, resource, generation)];
    }

    method UnmarkActive(ghost t: nat, key: Key, ghost sem: nat)
      requires Valid() && t in tasks && tasks[t] == Creating(key, sem)
      modifies this
      ensures Valid() && Apply(old(Snapshot()), CreateFail(t)) == Some(Snapshot())
      ensures t in tasks && tasks[t] == Failing(key, sem)
      ensures OthersSame(old(inner), inner, key) && sems == old(sems) && (key in inner <==> key in old(inner))
      ensures key in inner ==>
                inner[key] == old(inner)[key].(active := if old(inner)[key].active == 0 then 0 else old(inner)[key].active - 1)
    {
      hide Conserved;
      StepConserves(Snapshot(), CreateFail(t));
      if key in inner {
        inner := inner[key := inner[key].(active := Pred(inner[key].active))];
      }
      tasks := tasks[t := Failing(key, sem)];
    }

    method DropPermit(ghost t: nat, ghost key: Key, sem: nat)
      requires Valid() && t in tasks && tasks[t] == Failing(key, sem)
      modifies this
      ensures Valid() && Apply(old(Snapshot()), Action.DropPermit(t)) == Some(Snapshot())
      ensures t !in tasks && inner == old(inner) && PermitBack(old(sems), sems, sem)
    {
      hide Conserved;
      StepConserves(Snapshot(), Action.DropPermit(t));
      ReleaseOne(sem);
      tasks := tasks - {t};
    }

    method ReturnHealthy(ghost t: nat, lease: Lease)
      requires Valid() && t in tasks && tasks[t] == Leased(lease.key, lease.sem, lease.resource, lease.generation)
      modifies this
      ensures Valid() && Apply(old(Snapshot()), Action.ReturnHealthy(t)) == Some(Snapshot())
      ensures t !in tasks && lease.key in inner && OthersSame(old(inner), inner, lease.key)
      ensures lease.key in old(inner) ==>
                && var st := old(inner)[lease.key];
                inner[lease.key] == PoolState(st.sem, st.idle + [Entry(lease.resource, lease.generation, lease.sem)],
                                              if st.active == 0 then 0 else st.active - 1,
                                              Max(st.latest, lease.generation))
      ensures lease.key !in old(inner) ==>
                inner[lease.key] == PoolState(old(nextSem), [Entry(lease.resource, lease.generation, lease.sem)], 0, lease.generation)
    {
      hide Conserved;
      StepConserves(Snapshot(), Action.ReturnHealthy(t));
      EnsureState(lease.key);
      var st := inner[lease.key];
      inner := inner[lease.key := st.(active := Pred(st.active), latest := Max(st.latest, lease.generation),
                                      idle := st.idle + [Entry(lease.resource, lease.generation, lease.sem)])];
      tasks := tasks - {t};
    }

    /** The first half of giving a lease up, by `discard` or by dropping it: resource and permit go. */
    method ReleasePermit(ghost t: nat, lease: Lease)
      requires Valid() && t in tasks && tasks[t] == Leased(lease.key, lease.sem, lease.resource, lease.generation)
      modifies this
      ensures Valid() && Apply(old(Snapshot()), Action.ReleasePermit(t)) == Some(Snapshot())
      ensures t in tasks && tasks[t] == Releasing(lease.key)
      ensures inner == old(inner) && PermitBack(old(sems), sems, lease.sem)
    {
      hide Conserved;
      StepConserves(Snapshot(), Action.ReleasePermit(t));
      ReleaseOne(lease.sem);
      tasks := tasks[t := Releasing(lease.key)];
    }

    /** The second half, under the lock: uncount, and drop a state that is no longer used. */
    method FinishRelease(ghost t: nat, key: Key)
      requires Valid() && t in tasks && tasks[t] == Releasing(key)
      modifies this
      ensures Valid() && Apply(old(Snapshot()), Action.FinishRelease(t)) == Some(Snapshot())
      ensures t !in tasks && sems == old(sems) && OthersSame(old(inner), inner, key)
      ensures key in inner <==> key in old(inner) && (old(inner)[key].active > 1 || old(inner)[key].idle != [])
      ensures key in inner ==>
                inner[key] == old(inner)[key].(active := if old(inner)[key].active == 0 then 0 else old(inner)[key].active - 1)
    {
      hide Conserved;
      StepConserves(Snapshot(), Action.FinishRelease(t));
      tasks := tasks - {t};
      if key in inner {
        var st := inner[key].(active := Pred(inner[key].active));
        if st.active == 0 && st.idle == [] {
          inner := inner - {key};
        } else {
          inner := inner[key := st];
        }
      }
    }

    /**
     * One turn of the checkout loop with no other task in between.  `created` is what the create
     * callback would return; `wait` means every permit is out, so the caller has to wait for one.
     */
    method CheckoutOrCreateWith(ghost t: nat, key: Key, created: Option<nat>) returns (lease: Option<Lease>, wait: bool)
      requires Valid() && t !in tasks
      modifies this
      ensures Valid()
      ensures lease.Some? ==> t in tasks
                              && tasks[t] == Leased(key, lease.value.sem, lease.value.resource, lease.value.generation)
      ensures lease.None? ==> t !in tasks && (wait || created.None?)
      ensures key in old(inner) && old(inner)[key].idle != [] ==> lease.Some? && IsLastIdle(old(inner)[key], lease.value)
      ensures lease.Some? && !(key in old(inner) && old(inner)[key].idle != []) ==>
                created == Some(lease.value.resource)
      ensures wait ==> lease.None? && key in inner && inner[key].idle == [] && inner[key].sem in sems
                       && sems[inner[key].sem].available == 0
    {
      hide Conserved, Apply;
      wait := false;
      lease := CheckoutIdle(t, key);
      if lease.Some? {
        return;
      }
      var sem := PoolHandles(t, key);
      var ok := TryAcquire(t, key, sem);
      if !ok {
        wait := true;
        return;
      }
      lease := CreateWith(t, key, sem, created);
    }

    /** With a permit in hand: count, run the callback, and either record the resource or undo. */
    method CreateWith(ghost t: nat, key: Key, sem: nat, created: Option<nat>) returns (lease: Option<Lease>)
      requires Valid() && t in tasks && tasks[t] == Acquired(key, sem)
      modifies this
      ensures Valid()
      ensures created == if lease.Some? then Some(lease.value.resource) else None
      ensures lease.Some? ==> t in tasks
                              && tasks[t] == Leased(key, lease.value.sem, lease.value.resource, lease.value.generation)
      ensures lease.None? ==> t !in tasks
    {
      hide Conserved, Apply;
      MarkActive(t, key, sem);
      if created.None? {
        UnmarkActive(t, key, sem);
        DropPermit(t, key, sem);
        return None;
      }
      var generation := AllocateGeneration(t, key, sem, created.value);
      RecordGeneration(t, key, sem, created.value, generation);
      lease := Some(Lease(key, created.value, generation, sem));
    }

    /** `retain` on one key's idle entries; a dropped entry gives its permit back. */
    method RetainIdle(key: Key, f: Filter) returns (removed: nat)
      requires key in inner
      modifies this`inner, this`sems
      ensures Snapshot() == RetainKey(old(Snapshot()), key, f)
      ensures removed == |Retain(old(inner)[key].idle, f, false)|
      ensures removed + IdleTotal(inner) == IdleTotal(old(inner))
      ensures inner == old(inner)[key := old(inner)[key].(idle := Retain(old(inner)[key].idle, f, true))]
    {
      var st := inner[key];
      var kept, dropped := Partition(st.idle, f);
      removed := |dropped|;
      RetainSizes(st.idle, f);
      SumUpdate(IdleSizes(inner), key, |kept|);
      assert IdleSizes(inner[key := st.(idle := kept)]) == IdleSizes(inner)[key := |kept|];
      inner := inner[key := st.(idle := kept)];
      ghost var goal := ReleaseAll(Snapshot(), dropped);
      var i := 0;
      assert dropped[0..] == dropped;
      while i < |dropped|
        invariant i <= |dropped| && inner == old(inner)[key := st.(idle := kept)]
        invariant ReleaseAll(Snapshot(), dropped[i..]) == goal
      {
        assert dropped[i..][1..] == dropped[i + 1..];
        ReleaseOne(dropped[i].sem);
        i := i + 1;
      }
    }

    method InvalidateGeneration(key: Key, generation: nat) returns (changed: bool)
      requires Valid()
      modifies this`inner, this`sems
      ensures Valid() && Apply(old(Snapshot()), Invalidate(key, generation)) == Some(Snapshot())
      ensures changed <==> key in old(inner) && exists e :: e in old(inner)[key].idle && e.generation == generation
      ensures key !in old(inner) ==> inner == old(inner) && sems == old(sems)
      ensures key in old(inner) ==>
                inner == old(inner)[key := old(inner)[key].(idle := OfOtherGenerations(old(inner)[key].idle, generation))]
    {
      hide Conserved;
      StepConserves(Snapshot(), Invalidate(key, generation));
      if key !in inner {
        return false;
      }
      DroppedIff(inner[key].idle, NotGeneration(generation));
      RetainsOtherGenerations(inner[key].idle, generation);
      var removed := RetainIdle(key, NotGeneration(generation));
      changed := removed > 0;
    }

    /**
     * `discard_idle_where` and `prune_idle_with`; `discard` names the resources to let go, and
     * `discarded` counts the entries that went.  Under every key exactly the other entries stay, in
     * their order, and a key stays if it is active or has one left.
     */
    method Sweep(discard: set<nat>) returns (discarded: nat)
      requires Valid()
      modifies this`inner, this`sems
      ensures Valid() && Apply(old(Snapshot()), Action.Sweep(discard)) == Some(Snapshot())
      ensures discarded + IdleTotal(inner) == IdleTotal(old(inner))
      ensures discarded == Sum(DueSizes(old(inner), old(inner).Keys, discard))
      ensures forall k :: k in inner <==>
                k in old(inner) && (old(inner)[k].active > 0
                                    || exists e :: e in old(inner)[k].idle && e.resource !in discard)
      ensures forall k :: k in inner ==> inner[k] == old(inner)[k].(idle := Survivors(old(inner)[k].idle, discard))
      ensures forall k, e :: k in inner ==> (e in inner[k].idle <==> e in old(inner)[k].idle && e.resource !in discard)
    {
      hide Conserved, RetainKey, Retain, IdleTotal, Survivors, Due, Apply;
      ghost var was := inner;
      StepConserves(Snapshot(), Action.Sweep(discard));
      discarded := RetainEverywhere(discard);
      UnusedHoldNothing(inner);
      SurvivorsEverywhere(was, discard);
      SweepIs(old(Snapshot()), discard);
      inner := Used(inner);
    }

    /** The loop over the keys. */
    method RetainEverywhere(discard: set<nat>) returns (discarded: nat)
      modifies this`inner, this`sems
      ensures Snapshot() == RetainKeys(old(Snapshot()), old(inner).Keys, NotAmong(discard))
      ensures discarded + IdleTotal(inner) == IdleTotal(old(inner))
      ensures discarded == Sum(DueSizes(old(inner), old(inner).Keys, discard))
      ensures inner.Keys == old(inner).Keys
      ensures forall k :: k in inner ==> inner[k] == old(inner)[k].(idle := Survivors(old(inner)[k].idle, discard))
    {
      hide Conserved, RetainKey, Retain, IdleTotal, Survivors, Due, Sum;
      discarded := 0;
      var keys := inner.Keys;
      ghost var goal := RetainKeys(Snapshot(), keys, NotAmong(discard));
      ghost var due := Sum(DueSizes(inner, keys, discard));
      while keys != {}
        invariant keys <= inner.Keys == old(inner).Keys && RetainKeys(Snapshot(), keys, NotAmong(discard)) == goal
        invariant discarded + IdleTotal(inner) == IdleTotal(old(inner))
        invariant discarded + Sum(DueSizes(old(inner), keys, discard)) == due
        invariant forall k :: k in keys ==> inner[k] == old(inner)[k]
        invariant forall k :: k in inner && k !in keys ==>
                    inner[k] == old(inner)[k].(idle := Survivors(old(inner)[k].idle, discard))
        decreases keys
      {
        var k :| k in keys;
        AnyKeyFirst(Snapshot(), keys, NotAmong(discard), k);
        RetainKeyKeys(Snapshot(), k, NotAmong(discard));
        RetainsSurvivors(inner[k].idle, discard);
        SumRemove(DueSizes(old(inner), keys, discard), k);
        assert DueSizes(old(inner), keys, discard) - {k} == DueSizes(old(inner), keys - {k}, discard);
        var removed := RetainIdle(k, NotAmong(discard));
        discarded := discarded + removed;
        keys := keys - {k};
      }
      assert DueSizes(old(inner), keys, discard) == map[];
      NothingDue();
    }
  }

  /** Nothing but `key` may differ. */
  ghost predicate OthersSame(was: map<Key, PoolState>, now: map<Key, PoolState>, key: Key) {
    was - {key} == now - {key}
  }

  ghost predicate PermitBack(was: map<nat, Sem>, now: map<nat, Sem>, sem: nat) {
    && (sem in was ==> now == was[sem := Sem(was[sem].key, was[sem].available + 1)])
    && (sem !in was ==> now == was)
  }

  /** The entries that are not to be discarded, in their order. */
  ghost function Survivors(entries: seq<Entry>, discard: set<nat>): (r: seq<Entry>) {
    if entries == [] then []
    else (if entries[0].resource in discard then [] else [entries[0]]) + Survivors(entries[1..], discard)
  }

  ghost function OfOtherGenerations(entries: seq<Entry>, generation: nat): (r: seq<Entry>) {
    if entries == [] then []
    else (if entries[0].generation == generation then [] else [entries[0]]) + OfOtherGenerations(entries[1..], generation)
  }

  /** How many entries are to be discarded. */
  ghost function Due(entries: seq<Entry>, discard: set<nat>): (n: nat) {
    if entries == [] then 0 else (if entries[0].resource in discard then 1 else 0) + Due(entries[1..], discard)
  }

  ghost function DueSizes(inner: map<Key, PoolState>, keys: set<Key>, discard: set<nat>): (m: map<Key, nat>)
    requires keys <= inner.Keys
  {
    map k | k in keys :: Due(inner[k].idle, discard)
  }

  lemma NothingDue()
    ensures Sum(map[]) == 0
  {
  }

  lemma {:induction false} RetainsSurvivors(entries: seq<Entry>, discard: set<nat>)
    ensures Retain(entries, NotAmong(discard), true) == Survivors(entries, discard)
    ensures |Retain(entries, NotAmong(discard), false)| == Due(entries, discard)
  {
    if entries != [] {
      RetainsSurvivors(entries[1..], discard);
    }
  }

  lemma {:induction false} RetainsOtherGenerations(entries: seq<Entry>, generation: nat)
    ensures Retain(entries, NotGeneration(generation), true) == OfOtherGenerations(entries, generation)
  {
    if entries != [] {
      RetainsOtherGenerations(entries[1..], generation);
    }
  }

  lemma {:induction false} SurvivorsAre(entries: seq<Entry>, discard: set<nat>)
    ensures forall e :: e in Survivors(entries, discard) <==> e in entries && e.resource !in discard
  {
    if entries != [] {
      SurvivorsAre(entries[1..], discard);
      assert entries == [entries[0]] + entries[1..];
    }
  }

  lemma SurvivorsEverywhere(inner: map<Key, PoolState>, discard: set<nat>)
    ensures forall k :: k in inner ==>
              && (Survivors(inner[k].idle, discard) != [] <==>
                    exists e :: e in inner[k].idle && e.resource !in discard)
              && forall e :: e in Survivors(inner[k].idle, discard) <==> e in inner[k].idle && e.resource !in discard
  {
    hide Survivors;
    forall k | k in inner
      ensures (Survivors(inner[k].idle, discard) != [] <==> exists e :: e in inner[k].idle && e.resource !in discard)
      ensures forall e :: e in Survivors(inner[k].idle, discard) <==> e in inner[k].idle && e.resource !in discard
    {
      SurvivorsAre(inner[k].idle, discard);
      var r := Survivors(inner[k].idle, discard);
      if r != [] {
        assert r[0] in r;
      }
    }
  }

  lemma SweepIs(p: Pool, discard: set<nat>)
    ensures var q := RetainKeys(p, p.inner.Keys, NotAmong(discard));
            Apply(p, Sweep(discard)) == Some(q.(inner := Used(q.inner)))
  {
    hide RetainKeys;
  }

  function Used(inner: map<Key, PoolState>): map<Key, PoolState> {
    map k | k in inner && (inner[k].active > 0 || inner[k].idle != []) :: inner[k]
  }

  ghost function IdleSizes(inner: map<Key, PoolState>): (m: map<Key, nat>) {
    map k | k in inner :: |inner[k].idle|
  }

  /** Idle entries over all keys. */
  ghost function IdleTotal(inner: map<Key, PoolState>): (n: nat) {
    Sum(IdleSizes(inner))
  }

  lemma UnusedHoldNothing(inner: map<Key, PoolState>)
    ensures IdleTotal(Used(inner)) == IdleTotal(inner)
  {
    SumOfPart(IdleSizes(inner), IdleSizes(Used(inner)));
  }

  lemma {:induction false} RetainSizes(entries: seq<Entry>, f: Filter)
    ensures |Retain(entries, f, true)| + |Retain(entries, f, false)| == |entries|
  {
    hide Keeps;
    if entries != [] {
      RetainSizes(entries[1..], f);
    }
  }

  /** The semaphore a task has a handle to exists. */
  lemma HandleExists(p: Pool, t: nat)
    requires Conserved(p) && t in p.tasks && p.tasks[t].Handles?
    ensures p.tasks[t].sem in p.sems
  {
    assert TaskKeyed(p, p.tasks[t]);
  }

  method Partition(entries: seq<Entry>, f: Filter) returns (kept: seq<Entry>, dropped: seq<Entry>)
    ensures kept == Retain(entries, f, true) && dropped == Retain(entries, f, false)
  {
    hide Keeps;
    kept, dropped := [], [];
    assert entries[0..] == entries;
    for i := 0 to |entries|
      invariant kept + Retain(entries[i..], f, true) == Retain(entries, f, true)
      invariant dropped + Retain(entries[i..], f, false) == Retain(entries, f, false)
    {
      assert entries[i..][1..] == entries[i + 1..];
      if Keeps(f, entries[i]) {
        kept := kept + [entries[i]];
      } else {
        dropped := dropped + [entries[i]];
      }
    }
    assert entries[|entries|..] == [];
  }

  lemma {:induction false} DroppedIff(entries: seq<Entry>, f: Filter)
    ensures |Retain(entries, f, false)| > 0 <==> exists e :: e in entries && !Keeps(f, e)
  {
    hide Keeps;
    if entries != [] {
      DroppedIff(entries[1..], f);
      assert entries == [entries[0]] + entries[1..];
    }
  }

  // ---------------------------------------------------------------------------
  // The order in which a sweep visits the keys does not matter
  // ---------------------------------------------------------------------------

  /** Everything about a retain, field by field. */
  lemma RetainKeyExact(p: Pool, key: Key, f: Filter)
    requires key in p.inner
    ensures var q := RetainKey(p, key, f);
            && q == p.(inner := q.inner, sems := q.sems)
            && q.inner == p.inner[key := p.inner[key].(idle := Retain(p.inner[key].idle, f, true))]
            && q.sems.Keys == p.sems.Keys
            && forall s :: s in p.sems ==>
                 q.sems[s] == Sem(p.sems[s].key, p.sems[s].available + CountSem(Retain(p.inner[key].idle, f, false), s))
  {
    var st := p.inner[key];
    var mid, dropped := Update(p, key, st.(idle := Retain(st.idle, f, true))), Retain(st.idle, f, false);
    ReleaseAllKeeps(mid, dropped);
    ReleaseAllGenerations(mid, dropped);
    forall s | s in p.sems
      ensures ReleaseAll(mid, dropped).sems[s] == Sem(p.sems[s].key, p.sems[s].available + CountSem(dropped, s))
    {
      ReleaseAllCounts(mid, dropped, s);
    }
  }

  lemma {:induction false} ReleaseAllGenerations(p: Pool, entries: seq<Entry>)
    ensures ReleaseAll(p, entries).nextGen == p.nextGen
    decreases |entries|
  {
    if entries != [] {
      ReleaseAllGenerations(Release(p, entries[0].sem), entries[1..]);
    }
  }

  lemma RetainKeysCommute(p: Pool, j: Key, k: Key, f: Filter)
    requires j in p.inner && k in p.inner && j != k
    ensures k in RetainKey(p, j, f).inner && j in RetainKey(p, k, f).inner
    ensures RetainKey(RetainKey(p, j, f), k, f) == RetainKey(RetainKey(p, k, f), j, f)
  {
    hide RetainKey, Retain, CountSem;
    RetainKeyExact(p, j, f);
    RetainKeyExact(p, k, f);
    RetainKeyExact(RetainKey(p, j, f), k, f);
    RetainKeyExact(RetainKey(p, k, f), j, f);
    var a, b := RetainKey(RetainKey(p, j, f), k, f), RetainKey(RetainKey(p, k, f), j, f);
    assert a.inner == b.inner;
    assert a.sems == b.sems;
  }

  lemma {:induction false} AnyKeyFirst(p: Pool, keys: set<Key>, f: Filter, k: Key)
    requires keys <= p.inner.Keys && k in keys
    ensures keys - {k} <= RetainKey(p, k, f).inner.Keys
    ensures RetainKeys(p, keys, f) == RetainKeys(RetainKey(p, k, f), keys - {k}, f)
    decreases |keys|
  {
    hide RetainKey;
    RetainKeyKeys(p, k, f);
    var j := FirstKey(p, keys, f);
    if j != k {
      RetainKeyKeys(p, j, f);
      AnyKeyFirst(RetainKey(p, j, f), keys - {j}, f, k);
      RetainKeysCommute(p, j, k, f);
      AnyKeyFirst(RetainKey(p, k, f), keys - {k}, f, j);
      assert keys - {j} - {k} == keys - {k} - {j};
    }
  }

  /** The key that `RetainKeys` happens to take first. */
  lemma FirstKey(p: Pool, keys: set<Key>, f: Filter) returns (j: Key)
    requires keys <= p.inner.Keys && keys != {}
    ensures j in keys && keys - {j} <= RetainKey(p, j, f).inner.Keys
    ensures RetainKeys(p, keys, f) == RetainKeys(RetainKey(p, j, f), keys - {j}, f)
  {
    hide RetainKey;
    forall k | k in keys
      ensures keys - {k} <= RetainKey(p, k, f).inner.Keys
    {
      RetainKeyKeys(p, k, f);
    }
    j :| j in keys && RetainKeys(p, keys, f) == RetainKeys(RetainKey(p, j, f), keys - {j}, f);
  }
}
