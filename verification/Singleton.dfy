/**
 * The shared transport: one entry at a time, each under its own generation, with reference counts
 * deciding whether an idle entry may be pruned.
 */
module Singleton {
  import opened Bytes

  /** `arc` names one shared resource; clones of it share the name. */
  datatype Entry = Entry(arc: nat, generation: nat, lastUsed: int)

  datatype Lease = Lease(arc: nat, generation: nat)

  /**
   * `refs` are the strong counts.  `leases` counts, per resource, the leases not yet dropped, and
   * `handles` the bare references taken from them, which may outlive their lease.
   */
  datatype State = State(entry: Option<Entry>, next: nat, nextArc: nat, refs: map<nat, nat>,
                         leases: multiset<nat>, handles: multiset<nat>)

  const NEW: State := State(None, 1, 0, map[], multiset{}, multiset{})

  datatype Op =
    | CheckoutOrInsert(created: bool, now: int)
    | InvalidateGeneration(generation: nat)
    | CheckoutGeneration(generation: nat, now: int)
    | PruneIdle(now: int, maxIdle: int)
    | CloneLease(arc: nat)
    | DropLease(arc: nat)
    | TakeHandle(arc: nat)
    | DropHandle(arc: nat)

  function Refs(s: State, arc: nat): (n: nat) {
    if arc in s.refs then s.refs[arc] else 0
  }

  function AddRef(s: State, arc: nat): (r: State) {
    s.(refs := s.refs[arc := Refs(s, arc) + 1])
  }

  function DropRef(s: State, arc: nat): (r: State) {
    s.(refs := s.refs[arc := if Refs(s, arc) == 0 then 0 else Refs(s, arc) - 1])
  }

  function Lend(s: State, e: Entry): (r: State) {
    AddRef(s, e.arc).(leases := s.leases + multiset{e.arc})
  }

  /** Clearing the slot drops the entry's own reference. */
  function ClearEntry(s: State): (r: State)
    requires s.entry.Some?
  {
    DropRef(s, s.entry.value.arc).(entry := None)
  }

  function Install(s: State, now: int): (r: State) {
    var e := Entry(s.nextArc, s.next, now);
    Lend(AddRef(s.(next := SaturatingNext(s.next), nextArc := s.nextArc + 1, entry := Some(e)), e.arc), e)
  }

  /** The generation a successful checkout hands out. */
  function Granted(s: State, op: Op): (g: Option<nat>) {
    match op
    case CheckoutOrInsert(created, _) =>
      if s.entry.Some? then Some(s.entry.value.generation) else if created then Some(s.next) else None
    case CheckoutGeneration(g, _) =>
      if s.entry.Some? && s.entry.value.generation == g then Some(g) else None
    case _ => None
  }

  function Step(s: State, op: Op): (r: State) {
    match op
    case CheckoutOrInsert(created, now) =>
      if s.entry.Some? then
        var e := s.entry.value.(lastUsed := now);
        Lend(s.(entry := Some(e)), e)
      else if created then Install(s, now)
      else s
    case InvalidateGeneration(g) =>
      if s.entry.Some? && s.entry.value.generation == g then ClearEntry(s) else s
    case CheckoutGeneration(g, now) =>
      if s.entry.Some? && s.entry.value.generation == g then
        var e := s.entry.value.(lastUsed := now);
        Lend(s.(entry := Some(e)), e)
      else s
    case PruneIdle(now, maxIdle) =>
      if s.entry.Some? && Refs(s, s.entry.value.arc) == 1 && now - s.entry.value.lastUsed > maxIdle
      then ClearEntry(s) else s
    case CloneLease(arc) =>
      if arc in s.leases then AddRef(s, arc).(leases := s.leases + multiset{arc}) else s
    case DropLease(arc) =>
      if arc in s.leases then DropRef(s, arc).(leases := s.leases - multiset{arc}) else s
    case TakeHandle(arc) =>
      if arc in s.leases + s.handles then AddRef(s, arc).(handles := s.handles + multiset{arc}) else s
    case DropHandle(arc) =>
      if arc in s.handles then DropRef(s, arc).(handles := s.handles - multiset{arc}) else s
  }

  function Run(s: State, ops: seq<Op>): (r: State)
    decreases |ops|
  {
    if ops == [] then s else Run(Step(s, ops[0]), ops[1..])
  }

  // ---------------------------------------------------------------------------
  // The object
  // ---------------------------------------------------------------------------

  class ManagedSingleton {
    var inner: Option<Entry>
    var nextGeneration: nat
    var nextArc: nat
    var refs: map<nat, nat>
    ghost var leases: multiset<nat>
    ghost var handles: multiset<nat>

    ghost function Snapshot(): (s: State)
      reads this
    {
      State(inner, nextGeneration, nextArc, refs, leases, handles)
    }

    constructor ()
      ensures Snapshot() == NEW && inner == None && nextGeneration == 1
    {
      inner, nextGeneration, nextArc, refs, leases, handles := None, 1, 0, map[], multiset{}, multiset{};
    }

    method AllocateGeneration() returns (g: nat)
      modifies this`nextGeneration
      ensures g == old(nextGeneration) && nextGeneration == SaturatingNext(g)
      ensures g < 0xFFFF_FFFF_FFFF_FFFF ==> nextGeneration == g + 1
    {
      g := nextGeneration;
      nextGeneration := SaturatingNext(nextGeneration);
    }

    method Retain(arc: nat)
      modifies this`refs
      ensures Snapshot() == AddRef(old(Snapshot()), arc)
    {
      refs := refs[arc := (if arc in refs then refs[arc] else 0) + 1];
    }

    method Forget(arc: nat)
      modifies this`refs
      ensures Snapshot() == DropRef(old(Snapshot()), arc)
    {
      var n := if arc in refs then refs[arc] else 0;
      refs := refs[arc := if n == 0 then 0 else n - 1];
    }

    /** `created` is what the connect callback returned; the lock is held across it. */
    method CheckoutOrInsertWith(created: bool, now: int) returns (lease: Option<Lease>)
      modifies this
      ensures Snapshot() == Step(old(Snapshot()), CheckoutOrInsert(created, now))
      ensures Granted(old(Snapshot()), CheckoutOrInsert(created, now))
              == if lease.Some? then Some(lease.value.generation) else None
      ensures old(inner).Some? ==>
                && inner == Some(old(inner).value.(lastUsed := now)) && nextGeneration == old(nextGeneration)
                && lease == Some(Lease(inner.value.arc, inner.value.generation))
      ensures old(inner).None? && created ==>
                && inner == Some(Entry(old(nextArc), old(nextGeneration), now))
                && lease == Some(Lease(old(nextArc), old(nextGeneration)))
      ensures old(inner).None? && !created ==> inner == None && lease == None && nextGeneration == old(nextGeneration)
    {
      if inner.Some? {
        inner := Some(inner.value.(lastUsed := now));
        Retain(inner.value.arc);
        lease := Some(Lease(inner.value.arc, inner.value.generation));
      } else {
        if !created {
          return None;
        }
        var arc := nextArc;
        nextArc := nextArc + 1;
        var generation := AllocateGeneration();
        inner := Some(Entry(arc, generation, now));
        Retain(arc);
        Retain(arc);
        lease := Some(Lease(arc, generation));
      }
      leases := leases + multiset{lease.value.arc};
    }

    method Invalidate(generation: nat) returns (cleared: bool)
      modifies this
      ensures Snapshot() == Step(old(Snapshot()), InvalidateGeneration(generation))
      ensures cleared <==> old(inner).Some? && old(inner).value.generation == generation
      ensures inner == if cleared then None else old(inner)
    {
      cleared := inner.Some? && inner.value.generation == generation;
      if cleared {
        Forget(inner.value.arc);
        inner := None;
      }
    }

    method CheckoutByGeneration(generation: nat, now: int) returns (lease: Option<Lease>)
      modifies this
      ensures Snapshot() == Step(old(Snapshot()), CheckoutGeneration(generation, now))
      ensures Granted(old(Snapshot()), CheckoutGeneration(generation, now))
              == if lease.Some? then Some(lease.value.generation) else None
      ensures lease.Some? <==> old(inner).Some? && old(inner).value.generation == generation
      ensures lease.Some? ==> lease.value == Lease(old(inner).value.arc, generation)
                              && inner == Some(old(inner).value.(lastUsed := now))
      ensures lease.None? ==> inner == old(inner)
    {
      if inner.None? || inner.value.generation != generation {
        return None;
      }
      inner := Some(inner.value.(lastUsed := now));
      Retain(inner.value.arc);
      lease := Some(Lease(inner.value.arc, inner.value.generation));
      leases := leases + multiset{lease.value.arc};
    }

    method CloneOfLease(lease: Lease) returns (r: Lease)
      requires lease.arc in leases
      modifies this`refs, this`leases
      ensures r == lease && Snapshot() == Step(old(Snapshot()), CloneLease(lease.arc))
    {
      Retain(lease.arc);
      leases := leases + multiset{lease.arc};
      r := lease;
    }

    /** The resource behind a lease, as a reference of its own. */
    method Resource(lease: Lease) returns (arc: nat)
      requires lease.arc in leases
      modifies this`refs, this`handles
      ensures arc == lease.arc && Snapshot() == Step(old(Snapshot()), TakeHandle(arc))
    {
      arc := lease.arc;
      Retain(arc);
      handles := handles + multiset{arc};
    }

    method Prune(now: int, maxIdle: int) returns (cleared: bool)
      modifies this
      ensures Snapshot() == Step(old(Snapshot()), PruneIdle(now, maxIdle))
      ensures cleared <==> old(inner).Some? && inner.None?
      ensures cleared ==> now - old(inner).value.lastUsed > maxIdle
      ensures !cleared ==> inner == old(inner)
    {
      cleared := false;
      if inner.Some? {
        var count := if inner.value.arc in refs then refs[inner.value.arc] else 0;
        if count == 1 && now - inner.value.lastUsed > maxIdle {
          Forget(inner.value.arc);
          inner := None;
          cleared := true;
        }
      }
    }
  }

  // ---------------------------------------------------------------------------
  // Generations
  // ---------------------------------------------------------------------------

  /** The present entry's generation was allocated before `next`, unless the counter is stuck at its maximum. */
  ghost predicate Allocated(s: State) {
    && s.next <= U64_MAX
    && (s.entry.Some? ==> s.entry.value.generation < s.next || s.entry.value.generation == s.next == U64_MAX)
  }

  /** References the outside and the slot hold on `a`. */
  ghost function Owed(s: State, a: nat): (n: nat) {
    s.leases[a] + s.handles[a] + (if s.entry.Some? && s.entry.value.arc == a then 1 else 0)
  }

  /** Strong counts are one per lease, one per handle and one for the present entry; unused names are free. */
  ghost predicate Counted(s: State) {
    && (forall a: nat :: Refs(s, a) == Owed(s, a))
    && (forall a: nat :: Refs(s, a) > 0 ==> a < s.nextArc)
  }

  /** A step that moves counts of one resource only, and there in step with what is owed. */
  lemma MovedAt(s: State, r: State, arc: nat)
    requires Counted(s) && s.nextArc <= r.nextArc
    requires Refs(r, arc) == Owed(r, arc) && (Refs(r, arc) > 0 ==> arc < r.nextArc)
    requires forall a: nat :: a != arc ==> Refs(r, a) == Refs(s, a) && Owed(r, a) == Owed(s, a)
    ensures Counted(r)
  {
    hide Owed, Refs;
  }

  lemma StepKeeps(s: State, op: Op)
    requires Allocated(s) && Counted(s)
    ensures Allocated(Step(s, op)) && Counted(Step(s, op))
  {
    StepAllocates(s, op);
    if op.CloneLease? || op.DropLease? || op.TakeHandle? || op.DropHandle? {
      HolderCounts(s, op);
    } else if op.InvalidateGeneration? || op.PruneIdle? {
      hide Owed, Refs;
      if s.entry.Some? {
        ClearCounts(s);
      }
    } else {
      CheckoutCounts(s, op);
    }
  }

  lemma StepAllocates(s: State, op: Op)
    requires Allocated(s)
    ensures Allocated(Step(s, op))
  {
  }

  lemma CheckoutCounts(s: State, op: Op)
    requires Counted(s) && (op.CheckoutOrInsert? || op.CheckoutGeneration?)
    ensures Counted(Step(s, op))
  {
    var r := Step(s, op);
    if r != s {
      var arc := r.entry.value.arc;
      assert Refs(s, arc) == Owed(s, arc);
      MovedAt(s, r, arc);
    }
  }

  lemma ClearCounts(s: State)
    requires Counted(s) && s.entry.Some?
    ensures Counted(ClearEntry(s))
  {
    var arc := s.entry.value.arc;
    assert Refs(s, arc) == Owed(s, arc);
    MovedAt(s, ClearEntry(s), arc);
  }

  lemma HolderCounts(s: State, op: Op)
    requires Counted(s) && (op.CloneLease? || op.DropLease? || op.TakeHandle? || op.DropHandle?)
    ensures Counted(Step(s, op))
  {
    var r := Step(s, op);
    if r != s {
      assert Refs(s, op.arc) == Owed(s, op.arc) > 0;
      MovedAt(s, r, op.arc);
    }
  }

  lemma {:induction false} RunKeeps(s: State, ops: seq<Op>)
    requires Allocated(s) && Counted(s)
    ensures Allocated(Run(s, ops)) && Counted(Run(s, ops))
    decreases |ops|
  {
    hide Allocated, Counted, Step;
    if ops != [] {
      StepKeeps(s, ops[0]);
      RunKeeps(Step(s, ops[0]), ops[1..]);
    }
  }

  /**
   * After every run, pruning clears the entry exactly when neither a lease nor a handle on it is
   * outstanding and it idled too long.
   */
  lemma PruneSparesLeased(ops: seq<Op>, now: int, maxIdle: int)
    requires Run(NEW, ops).entry.Some?
    ensures var s := Run(NEW, ops);
            var e := s.entry.value;
            Step(s, PruneIdle(now, maxIdle)).entry.None? <==>
              s.leases[e.arc] == 0 && s.handles[e.arc] == 0 && now - e.lastUsed > maxIdle
  {
    hide Run;
    RunKeeps(NEW, ops);
  }

  /** Generation `g` was handed out earlier and is not the present one. */
  ghost predicate Gone(s: State, g: nat) {
    g < s.next && (s.entry.Some? ==> s.entry.value.generation != g)
  }

  /** Once a generation is gone, no interleaving brings it back, and invalidating it late changes nothing. */
  lemma {:induction false} GoneForever(s: State, ops: seq<Op>, g: nat, now: int)
    requires s.next <= U64_MAX && Gone(s, g)
    ensures var r := Run(s, ops);
            Gone(r, g) && Granted(r, CheckoutGeneration(g, now)).None? && Step(r, InvalidateGeneration(g)) == r
    decreases |ops|
  {
    if ops != [] {
      GoneForever(Step(s, ops[0]), ops[1..], g, now);
    }
  }

  /** Only the saturated generation can return: an invalidated `g` stays gone iff `g` is below `u64::MAX`. */
  lemma ReturnsOnlyWhenSaturated(s: State, g: nat, now: int)
    requires Allocated(s) && s.entry.Some? && s.entry.value.generation == g
    ensures var cleared := Step(s, InvalidateGeneration(g));
            (forall ops :: Granted(Run(cleared, ops), CheckoutGeneration(g, now)).None?) <==> g < U64_MAX
  {
    var cleared := Step(s, InvalidateGeneration(g));
    if g < U64_MAX {
      forall ops
        ensures Granted(Run(cleared, ops), CheckoutGeneration(g, now)).None?
      {
        GoneForever(cleared, ops, g, now);
      }
    } else {
      var ops := [CheckoutOrInsert(true, now)];
      assert ops[1..] == [];
      assert Run(cleared, ops) == Run(Step(cleared, ops[0]), ops[1..]) == Step(cleared, ops[0]);
      assert Granted(Run(cleared, ops), CheckoutGeneration(g, now)).Some?;
    }
  }

  /** The generations installed by a run, in order. */
  function Installed(s: State, ops: seq<Op>): (gs: seq<nat>)
    decreases |ops|
  {
    if ops == [] then []
    else
      var rest := Installed(Step(s, ops[0]), ops[1..]);
      if ops[0].CheckoutOrInsert? && s.entry.None? && ops[0].created then [s.next] + rest else rest
  }

  /** Numbers from `lo` up, strictly increasing until they reach `u64::MAX`. */
  ghost predicate Climbs(gs: seq<nat>, lo: nat) {
    && (forall i :: 0 <= i < |gs| ==> lo <= gs[i] <= U64_MAX)
    && (forall i, j :: 0 <= i < j < |gs| ==> gs[i] < gs[j] || gs[i] == U64_MAX)
  }

  /** Installed generations strictly increase, for as long as they stay below `u64::MAX`. */
  lemma {:induction false} GenerationsIncrease(s: State, ops: seq<Op>)
    requires s.next <= U64_MAX
    ensures Climbs(Installed(s, ops), s.next)
    decreases |ops|
  {
    if ops != [] {
      hide Step;
      NextGrows(s, ops[0]);
      GenerationsIncrease(Step(s, ops[0]), ops[1..]);
    }
  }

  lemma NextGrows(s: State, op: Op)
    requires s.next <= U64_MAX
    ensures s.next <= Step(s, op).next <= U64_MAX
    ensures op.CheckoutOrInsert? && s.entry.None? && op.created ==> Step(s, op).next == SaturatingNext(s.next)
  {
  }
}
