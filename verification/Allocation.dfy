/** What the allocator does, as a transition system over its two records: the pools' slots and the
  * allocation table (internal/allocator/allocator.go). */
module Allocation {
  import opened Wrappers
  import opened IPRanges
  import opened Pools

  datatype Alloc = Alloc(pool: string, ip: Addr, ports: seq<ServicePort>, key: Key)

  datatype AllocatorState = AllocatorState(pools: map<string, PoolState>, allocs: map<Service, Alloc>)

  function UnassignState(st: AllocatorState, svc: Service, variant: Variant): AllocatorState {
    if svc !in st.allocs then st
    else
      var al := st.allocs[svc];
      AllocatorState(
        if al.pool in st.pools
        then st.pools[al.pool := ReleaseState(st.pools[al.pool], al.ip, svc, variant)]
        else st.pools,
        st.allocs - {svc})
  }

  /** `assign`: drops the old allocation, records the new one, and ignores the pool's answer. */
  function RecordState(st: AllocatorState, svc: Service, al: Alloc, variant: Variant): AllocatorState
    requires al.pool in st.pools
  {
    var st1 := UnassignState(st, svc, variant);
    var p := st1.pools[al.pool];
    AllocatorState(
      if CanUse(p.At(al.ip), al.ports, svc, Some(al.key))
      then st1.pools[al.pool := AssignState(p, al.ip, al.ports, svc, Some(al.key))]
      else st1.pools,
      st1.allocs[svc := al])
  }

  datatype Op =
    | Unassign(svc: Service)
    | Assign(svc: Service, ip: Addr, ports: seq<ServicePort>, sharing: string)
    | AllocateFromPool(svc: Service, pool: string, ports: seq<ServicePort>, sharing: string)
    | RemovePool(name: string)

  ghost predicate Offers(st: AllocatorState, name: string, ip: Addr) {
    name in st.pools && Contains(st.pools[name].range, ip)
  }

  /** The pool can hand out the address: it is in the range, or the start of an inverted range. */
  ghost predicate Holds(st: AllocatorState, name: string, ip: Addr) {
    name in st.pools && Reaches(st.pools[name].range, ip)
  }

  ghost predicate Usable(st: AllocatorState, al: Alloc, svc: Service) {
    al.pool in st.pools && CanUse(st.pools[al.pool].At(al.ip), al.ports, svc, Some(al.key))
  }

  /** One operation, with the choices that Go's map iteration leaves open. */
  ghost predicate Step(st: AllocatorState, op: Op, st': AllocatorState, variant: Variant) {
    match op
    case Unassign(svc) => st' == UnassignState(st, svc, variant)
    case Assign(svc, ip, ports, sharing) =>
      || st' == st
      || exists name ::
           && Offers(st, name, ip) && Usable(st, Alloc(name, ip, ports, Key(sharing)), svc)
           && st' == RecordState(st, svc, Alloc(name, ip, ports, Key(sharing)), variant)
    case AllocateFromPool(svc, pool, ports, sharing) =>
      || st' == st
      || exists n, ip ::
           && svc !in st.allocs && pool in st.pools
           && FirstFit(st.pools[pool], n, ip, ports, svc, Some(Key(sharing)))
           && st' == AllocateState(st, svc, Alloc(pool, ip, ports, Key(sharing)), variant)
    case RemovePool(name) =>
      || st' == st
      || (&& (forall s :: s in st.allocs ==> st.allocs[s].pool != name)
          && st' == st.(pools := st.pools - {name}))
  }

  /** `AllocateFromPool` assigns in the pool and then records, which assigns a second time. */
  function AllocateState(st: AllocatorState, svc: Service, al: Alloc, variant: Variant): AllocatorState
    requires al.pool in st.pools
  {
    var p := AssignState(st.pools[al.pool], al.ip, al.ports, svc, Some(al.key));
    RecordState(st.(pools := st.pools[al.pool := p]), svc, al, variant)
  }

  /** The second assignment changes nothing, so allocating and recording are one step. */
  lemma AllocateIsRecord(st: AllocatorState, svc: Service, al: Alloc, variant: Variant)
    requires Usable(st, al, svc) && svc !in st.allocs
    ensures AllocateState(st, svc, al, variant) == RecordState(st, svc, al, variant)
  {
    var p := st.pools[al.pool];
    var p' := AssignState(p, al.ip, al.ports, svc, Some(al.key));
    AssignTwice(p.At(al.ip), al.ports, svc, Some(al.key));
    assert AssignState(p', al.ip, al.ports, svc, Some(al.key)) == p';
    assert st.pools[al.pool := p'][al.pool := p'] == st.pools[al.pool := p'];
  }

  /** The pool never refuses what `assign` ignores the answer of: if the address was usable before
    * the old allocation was dropped, it is usable after, in both variants and from any state. */
  lemma RecordNeverRefused(st: AllocatorState, svc: Service, al: Alloc, variant: Variant)
    requires Usable(st, al, svc)
    ensures Usable(UnassignState(st, svc, variant), al, svc)
  {
    if svc in st.allocs && st.allocs[svc].pool == al.pool {
      ReleasedAt(st.pools[al.pool], st.allocs[svc].ip, svc, variant, al.ip);
    }
  }

  // ----- the invariant -----

  /** The two records agree on one slot. */
  ghost predicate Agrees(slot: Slot, allocs: map<Service, Alloc>, pool: string, ip: Addr) {
    forall s :: s in slot.users <==> s in allocs && allocs[s].pool == pool && allocs[s].ip == ip
  }

  /** The services on an address hold its key, the key allows sharing if they are several, and each
    * of their ports is theirs. */
  ghost predicate Held(slot: Slot, allocs: map<Service, Alloc>) {
    && (forall s :: s in slot.users && s in allocs ==> slot.key == Some(allocs[s].key))
    && (forall s, t :: s in slot.users && t in slot.users && s != t ==> slot.key.Some? && slot.key.value.sharing != "")
    && (forall s, p :: s in slot.users && s in allocs && p in allocs[s].ports ==>
          p in slot.ports && slot.ports[p] == s)
  }

  /** Nothing is left behind: a free address has no key and every recorded port has its service. */
  ghost predicate Clean(slot: Slot, allocs: map<Service, Alloc>) {
    && (slot.users == {} ==> slot.key.None?)
    && (forall p :: p in slot.ports ==>
          slot.ports[p] in slot.users && slot.ports[p] in allocs && p in allocs[slot.ports[p]].ports)
  }

  /** How much is claimed: that the records agree; that sharing is respected too; that nothing is
    * left behind either. */
  datatype Level = Records | Sharing | Exact

  /** What an operation keeps: agreement always; the rest with the repaired release; and sharing as
    * written as long as no service leaves an address to others. */
  ghost predicate Keeps(variant: Variant, level: Level, quiet: bool) {
    level.Records? || variant.Repaired? || (level.Sharing? && quiet)
  }

  ghost predicate SlotInv(slot: Slot, allocs: map<Service, Alloc>, pool: string, ip: Addr, level: Level) {
    && Agrees(slot, allocs, pool, ip)
    && (!level.Records? ==> Held(slot, allocs))
    && (level.Exact? ==> Clean(slot, allocs))
  }

  ghost predicate Placed(st: AllocatorState) {
    && (forall s :: s in st.allocs ==> Holds(st, st.allocs[s].pool, st.allocs[s].ip))
    && (forall n :: n in st.pools ==> NoEmptyUsers(st.pools[n]))
  }

  ghost predicate Inv(st: AllocatorState, level: Level) {
    && Placed(st)
    && forall n, ip :: n in st.pools ==> SlotInv(st.pools[n].At(ip), st.allocs, n, ip, level)
  }

  ghost predicate DisjointPools(st: AllocatorState) {
    forall a, b, ip :: Holds(st, a, ip) && Holds(st, b, ip) ==> a == b
  }

  /** The same non-empty sharing key, and no port in common. */
  ghost predicate MayShare(a: Alloc, b: Alloc) {
    a.key == b.key && a.key.sharing != "" && forall p :: p in a.ports ==> p !in b.ports
  }

  /** Two services on one address may share it. */
  ghost predicate Exclusive(st: AllocatorState) {
    forall s, t :: s in st.allocs && t in st.allocs && s != t && st.allocs[s].ip == st.allocs[t].ip ==>
      MayShare(st.allocs[s], st.allocs[t])
  }

  lemma InvExclusive(st: AllocatorState, level: Level)
    requires Inv(st, level) && !level.Records? && DisjointPools(st)
    ensures Exclusive(st)
  {
    forall s, t | s in st.allocs && t in st.allocs && s != t && st.allocs[s].ip == st.allocs[t].ip
      ensures MayShare(st.allocs[s], st.allocs[t])
    {
      var a, b := st.allocs[s], st.allocs[t];
      assert Holds(st, a.pool, a.ip) && Holds(st, b.pool, a.ip);
      var slot := st.pools[a.pool].At(a.ip);
      assert SlotInv(slot, st.allocs, a.pool, a.ip, level);
      forall p | p in a.ports
        ensures p !in b.ports
      {
        assert slot.ports[p] == s;
      }
    }
  }

  // ----- one slot -----

  lemma ReleaseKeepsSlot(slot: Slot, allocs: map<Service, Alloc>, svc: Service, variant: Variant, level: Level)
    requires svc in allocs && svc in slot.users
    requires SlotInv(slot, allocs, allocs[svc].pool, allocs[svc].ip, level)
    requires Keeps(variant, level, slot.users == {svc})
    ensures SlotInv(ReleaseSlot(slot, svc, variant), allocs - {svc}, allocs[svc].pool, allocs[svc].ip, level)
  {}

  lemma OtherSlot(slot: Slot, allocs: map<Service, Alloc>, svc: Service, al: Alloc, pool: string, ip: Addr,
                  level: Level)
    requires SlotInv(slot, allocs, pool, ip, level)
    requires svc in allocs ==> allocs[svc].pool != pool || allocs[svc].ip != ip
    ensures SlotInv(slot, allocs - {svc}, pool, ip, level)
    ensures al.pool != pool || al.ip != ip ==> SlotInv(slot, allocs[svc := al], pool, ip, level)
  {}

  lemma AssignKeepsSlot(slot: Slot, allocs: map<Service, Alloc>, svc: Service, al: Alloc, level: Level)
    requires SlotInv(slot, allocs, al.pool, al.ip, level)
    requires svc !in allocs && CanUse(slot, al.ports, svc, Some(al.key))
    ensures SlotInv(AssignSlot(slot, al.ports, svc, Some(al.key)), allocs[svc := al], al.pool, al.ip, level)
  {
    if s :| s in slot.users {
      assert !(slot.users <= {svc});
    }
  }

  // ----- every operation keeps it -----

  /** No other service is on the address that `svc` would leave. */
  ghost predicate Alone(st: AllocatorState, svc: Service) {
    svc in st.allocs && st.allocs[svc].pool in st.pools ==>
      st.pools[st.allocs[svc].pool].At(st.allocs[svc].ip).users <= {svc}
  }

  lemma UnassignKeeps(st: AllocatorState, svc: Service, variant: Variant, level: Level)
    requires Inv(st, level) && Keeps(variant, level, Alone(st, svc))
    ensures Inv(UnassignState(st, svc, variant), level)
    ensures svc !in UnassignState(st, svc, variant).allocs
  {
    if svc in st.allocs {
      var st' := UnassignState(st, svc, variant);
      forall n, ip | n in st'.pools
        ensures SlotInv(st'.pools[n].At(ip), st'.allocs, n, ip, level)
      {
        UnassignSlot(st, svc, variant, level, n, ip);
      }
      UnassignPlaced(st, svc, variant);
    }
  }

  lemma UnassignSlot(st: AllocatorState, svc: Service, variant: Variant, level: Level, n: string, ip: Addr)
    requires Inv(st, level) && Keeps(variant, level, Alone(st, svc)) && svc in st.allocs && n in st.pools
    ensures var st' := UnassignState(st, svc, variant);
            n in st'.pools && SlotInv(st'.pools[n].At(ip), st'.allocs, n, ip, level)
  {
    hide ReleaseState, PoolState.At, ReleaseSlot;
    var al := st.allocs[svc];
    var slot := st.pools[n].At(ip);
    assert SlotInv(slot, st.allocs, n, ip, level);
    ReleasedAt(st.pools[n], al.ip, svc, variant, ip);
    if n == al.pool && ip == al.ip {
      ReleaseKeepsSlot(slot, st.allocs, svc, variant, level);
    } else {
      OtherSlot(slot, st.allocs, svc, al, n, ip, level);
    }
  }

  lemma UnassignPlaced(st: AllocatorState, svc: Service, variant: Variant)
    requires Placed(st)
    ensures Placed(UnassignState(st, svc, variant))
  {
    hide ReleaseState, AssignState, NoEmptyUsers;
    if svc in st.allocs {
      var al, st' := st.allocs[svc], UnassignState(st, svc, variant);
      assert Holds(st, al.pool, al.ip);
      NoEmptyUsersKept(st.pools[al.pool], al.ip, al.ports, svc, None, variant);
      forall s | s in st'.allocs
        ensures Holds(st', st'.allocs[s].pool, st'.allocs[s].ip)
      {
        assert Holds(st, st.allocs[s].pool, st.allocs[s].ip);
      }
    }
  }

  lemma AddPlaced(st: AllocatorState, svc: Service, al: Alloc)
    requires Placed(st) && Holds(st, al.pool, al.ip)
    ensures Placed(AllocatorState(
                     st.pools[al.pool := AssignState(st.pools[al.pool], al.ip, al.ports, svc, Some(al.key))],
                     st.allocs[svc := al]))
  {
    hide AssignState, ReleaseState, NoEmptyUsers;
    var p' := AssignState(st.pools[al.pool], al.ip, al.ports, svc, Some(al.key));
    var st' := AllocatorState(st.pools[al.pool := p'], st.allocs[svc := al]);
    NoEmptyUsersKept(st.pools[al.pool], al.ip, al.ports, svc, Some(al.key), Repaired);
    forall s | s in st'.allocs
      ensures Holds(st', st'.allocs[s].pool, st'.allocs[s].ip)
    {
      if s != svc {
        assert Holds(st, st.allocs[s].pool, st.allocs[s].ip);
      }
    }
  }

  /** A service without an allocation is added. */
  lemma AddKeeps(st: AllocatorState, svc: Service, al: Alloc, level: Level)
    requires Inv(st, level) && svc !in st.allocs
    requires Holds(st, al.pool, al.ip) && Usable(st, al, svc)
    ensures Inv(RecordState(st, svc, al, AsWritten), level)
    ensures RecordState(st, svc, al, AsWritten)
         == AllocatorState(st.pools[al.pool := AssignState(st.pools[al.pool], al.ip, al.ports, svc, Some(al.key))],
                           st.allocs[svc := al])
  {
    hide SlotInv, PoolState.At, AssignState, ReleaseState, AssignSlot, Placed;
    var p, st' := st.pools[al.pool], RecordState(st, svc, al, AsWritten);
    assert SlotInv(p.At(al.ip), st.allocs, al.pool, al.ip, level);
    AssignKeepsSlot(p.At(al.ip), st.allocs, svc, al, level);
    forall n, ip | n in st'.pools
      ensures SlotInv(st'.pools[n].At(ip), st'.allocs, n, ip, level)
    {
      assert SlotInv(st.pools[n].At(ip), st.allocs, n, ip, level);
      AssignedAt(p, al.ip, al.ports, svc, Some(al.key), ip);
      if n != al.pool || ip != al.ip {
        OtherSlot(st.pools[n].At(ip), st.allocs, svc, al, n, ip, level);
      }
    }
    AddPlaced(st, svc, al);
  }

  lemma RecordKeeps(st: AllocatorState, svc: Service, al: Alloc, variant: Variant, level: Level)
    requires Inv(st, level) && Keeps(variant, level, Alone(st, svc))
    requires Holds(st, al.pool, al.ip) && Usable(st, al, svc)
    ensures Inv(RecordState(st, svc, al, variant), level)
  {
    RecordNeverRefused(st, svc, al, variant);
    UnassignKeeps(st, svc, variant, level);
    SameReach(st, svc, al, variant);
    AddKeeps(UnassignState(st, svc, variant), svc, al, level);
    hide AssignState, ReleaseState, Inv, CanUse;
    assert RecordState(st, svc, al, variant) == RecordState(UnassignState(st, svc, variant), svc, al, AsWritten);
  }

  lemma SameReach(st: AllocatorState, svc: Service, al: Alloc, variant: Variant)
    requires Holds(st, al.pool, al.ip)
    ensures Holds(UnassignState(st, svc, variant), al.pool, al.ip)
  {}

  /** The operation does not release from an address that another service shares. */
  ghost predicate Quiet(st: AllocatorState, op: Op, st': AllocatorState) {
    st' == st || ((op.Unassign? || op.Assign?) ==> Alone(st, op.svc))
  }

  lemma StepKeeps(st: AllocatorState, op: Op, st': AllocatorState, variant: Variant, level: Level)
    requires Inv(st, level) && Step(st, op, st', variant) && Keeps(variant, level, Quiet(st, op, st'))
    ensures Inv(st', level)
  {
    match op
    case Unassign(svc) =>
      if st' != st {
        UnassignKeeps(st, svc, variant, level);
      }
    case Assign(svc, ip, ports, sharing) =>
      if st' != st {
        var name :| Offers(st, name, ip) && Usable(st, Alloc(name, ip, ports, Key(sharing)), svc)
                    && st' == RecordState(st, svc, Alloc(name, ip, ports, Key(sharing)), variant);
        RecordKeeps(st, svc, Alloc(name, ip, ports, Key(sharing)), variant, level);
      }
    case AllocateFromPool(svc, pool, ports, sharing) =>
      if st' != st {
        var n, ip :| FirstFit(st.pools[pool], n, ip, ports, svc, Some(Key(sharing)))
                     && st' == AllocateState(st, svc, Alloc(pool, ip, ports, Key(sharing)), variant);
        FitReached(st.pools[pool], n, ip, ports, svc, Some(Key(sharing)));
        AllocateIsRecord(st, svc, Alloc(pool, ip, ports, Key(sharing)), variant);
        RecordKeeps(st, svc, Alloc(pool, ip, ports, Key(sharing)), variant, level);
      }
    case RemovePool(name) =>
      RemoveKeeps(st, name, st', variant, level);
  }

  lemma RemoveKeeps(st: AllocatorState, name: string, st': AllocatorState, variant: Variant, level: Level)
    requires Inv(st, level) && Step(st, RemovePool(name), st', variant)
    ensures Inv(st', level)
  {
    forall s | s in st'.allocs
      ensures Holds(st', st'.allocs[s].pool, st'.allocs[s].ip)
    {
      assert Holds(st, st.allocs[s].pool, st.allocs[s].ip);
    }
    forall n, ip | n in st'.pools
      ensures SlotInv(st'.pools[n].At(ip), st'.allocs, n, ip, level)
    {
      assert SlotInv(st.pools[n].At(ip), st.allocs, n, ip, level);
    }
  }

  lemma SameRangesDisjoint(st: AllocatorState, st': AllocatorState)
    requires DisjointPools(st)
    requires forall n :: n in st'.pools ==> n in st.pools && st'.pools[n].range == st.pools[n].range
    ensures DisjointPools(st')
  {
    forall a, b, ip | Holds(st', a, ip) && Holds(st', b, ip)
      ensures a == b
    {
      assert Holds(st, a, ip) && Holds(st, b, ip);
    }
  }

  /** Ranges never change, so pools stay disjoint. */
  lemma StepKeepsDisjoint(st: AllocatorState, op: Op, st': AllocatorState, variant: Variant)
    requires DisjointPools(st) && Step(st, op, st', variant)
    ensures DisjointPools(st')
  {
    hide AssignState, ReleaseState, CanUse, DisjointPools;
    SameRangesDisjoint(st, st');
  }

  // ----- whole runs -----

  ghost predicate IsRun(trace: seq<AllocatorState>, ops: seq<Op>, variant: Variant) {
    && |trace| == |ops| + 1
    && forall i :: 0 <= i < |ops| ==> Step(trace[i], ops[i], trace[i + 1], variant)
  }

  ghost predicate QuietRun(trace: seq<AllocatorState>, ops: seq<Op>)
    requires |trace| == |ops| + 1
  {
    forall i :: 0 <= i < |ops| ==> Quiet(trace[i], ops[i], trace[i + 1])
  }

  ghost predicate Starts(st: AllocatorState) {
    && st.allocs == map[]
    && forall n :: n in st.pools ==> st.pools[n] == PoolState(st.pools[n].range, map[], map[], map[])
  }

  lemma StartInv(st: AllocatorState, level: Level)
    requires Starts(st)
    ensures Inv(st, level)
  {}

  /** The invariant over every run from empty pools. At level `Records`: over all runs, as written and
    * repaired, the two records agree. At level `Sharing`: over all runs of the repaired allocator, and
    * as written over all runs that never release from a shared address, addresses are exclusive. */
  lemma {:induction false} RunsKeepInv(trace: seq<AllocatorState>, ops: seq<Op>, variant: Variant, level: Level, i: nat)
    requires IsRun(trace, ops, variant) && Keeps(variant, level, QuietRun(trace, ops))
    requires Starts(trace[0]) && DisjointPools(trace[0]) && i < |trace|
    ensures Inv(trace[i], level) && DisjointPools(trace[i])
    ensures !level.Records? ==> Exclusive(trace[i])
  {
    hide Step, SlotInv, Exclusive;
    if i == 0 {
      StartInv(trace[0], level);
    } else {
      RunsKeepInv(trace, ops, variant, level, i - 1);
      StepKeeps(trace[i - 1], ops[i - 1], trace[i], variant, level);
      StepKeepsDisjoint(trace[i - 1], ops[i - 1], trace[i], variant);
    }
    if !level.Records? {
      InvExclusive(trace[i], level);
    }
  }

  // ----- consequences of agreement -----

  /** `InUse` counts the distinct addresses allocated from the pool. */
  lemma InUseCountsAddresses(st: AllocatorState, level: Level, n: string)
    requires Inv(st, level) && n in st.pools
    ensures st.pools[n].inUse.Keys
         == set s | s in st.allocs && st.allocs[s].pool == n :: st.allocs[s].ip
    ensures |st.pools[n].inUse| == |set s | s in st.allocs && st.allocs[s].pool == n :: st.allocs[s].ip|
  {
    var p := st.pools[n];
    forall ip: Addr
      ensures ip in p.inUse <==> exists s :: s in st.allocs && st.allocs[s].pool == n && st.allocs[s].ip == ip
    {
      assert SlotInv(p.At(ip), st.allocs, n, ip, level);
      if ip in p.inUse {
        var s :| s in p.inUse[ip];
      }
    }
    assert p.inUse.Keys == set s | s in st.allocs && st.allocs[s].pool == n :: st.allocs[s].ip;
  }

  /** From any state an unassignment takes out that allocation alone, and touches its pool at its address
    * alone. */
  lemma UnassignTouchesOne(st: AllocatorState, svc: Service, variant: Variant, n: string, ip: Addr)
    requires n in st.pools
    ensures var st' := UnassignState(st, svc, variant);
            && st'.allocs == st.allocs - {svc} && st'.pools.Keys == st.pools.Keys
            && st'.pools[n].range == st.pools[n].range
            && st'.pools[n].At(ip)
               == if svc in st.allocs && st.allocs[svc].pool == n && st.allocs[svc].ip == ip
                  then ReleaseSlot(st.pools[n].At(ip), svc, variant) else st.pools[n].At(ip)
  {
    hide ReleaseState, ReleaseSlot, PoolState.At;
    if svc in st.allocs && st.allocs[svc].pool == n {
      ReleasedAt(st.pools[n], st.allocs[svc].ip, svc, variant, ip);
    }
    assert svc !in st.allocs ==> st.allocs - {svc} == st.allocs;
  }

  /** No operation on one service touches the allocation of another. */
  lemma OthersUntouched(st: AllocatorState, op: Op, st': AllocatorState, variant: Variant, other: Service)
    requires Step(st, op, st', variant) && (op.RemovePool? || op.svc != other)
    ensures other in st'.allocs <==> other in st.allocs
    ensures other in st.allocs ==> st'.allocs[other] == st.allocs[other]
  {}

  /** Allocating and then unassigning restores the table and every `addressesInUse`; with the
    * repaired release it restores every slot, keys and ports included. */
  lemma AllocateThenUnassign(st: AllocatorState, svc: Service, al: Alloc, variant: Variant, level: Level)
    requires Inv(st, level) && svc !in st.allocs
    requires Holds(st, al.pool, al.ip) && Usable(st, al, svc)
    ensures var st2 := UnassignState(AllocateState(st, svc, al, variant), svc, variant);
            && st2.allocs == st.allocs && st2.pools.Keys == st.pools.Keys
            && (forall n :: n in st.pools ==> st2.pools[n].inUse == st.pools[n].inUse)
            && (variant.Repaired? && level.Exact? ==>
                  forall n, ip :: n in st.pools ==> st2.pools[n].At(ip) == st.pools[n].At(ip))
  {
    hide AssignState, ReleaseState, PoolState.At, AssignSlot, ReleaseSlot, CanUse;
    AllocateIsRecord(st, svc, al, variant);
    var p, slot := st.pools[al.pool], st.pools[al.pool].At(al.ip);
    assert SlotInv(slot, st.allocs, al.pool, al.ip, level);
    UsersRestored(p, al.ip, al.ports, svc, Some(al.key), variant);
    if variant.Repaired? && level.Exact? {
      SlotRestored(slot, st.allocs, svc, al);
      forall ip: Addr
        ensures ReleaseState(AssignState(p, al.ip, al.ports, svc, Some(al.key)), al.ip, svc, variant).At(ip) == p.At(ip)
      {
        AssignedAt(p, al.ip, al.ports, svc, Some(al.key), ip);
        AssignedAt(p, al.ip, al.ports, svc, Some(al.key), al.ip);
        ReleasedAt(AssignState(p, al.ip, al.ports, svc, Some(al.key)), al.ip, svc, variant, ip);
      }
    }
  }

  lemma SlotRestored(slot: Slot, allocs: map<Service, Alloc>, svc: Service, al: Alloc)
    requires SlotInv(slot, allocs, al.pool, al.ip, Exact)
    requires svc !in allocs && CanUse(slot, al.ports, svc, Some(al.key))
    ensures ReleaseSlot(AssignSlot(slot, al.ports, svc, Some(al.key)), svc, Repaired) == slot
  {
    var once := AssignSlot(slot, al.ports, svc, Some(al.key));
    assert once.users - {svc} == slot.users;
    if s :| s in slot.users {
      assert slot.key.Some? && !(slot.users <= {svc});
      assert slot.key == Some(al.key);
    }
    assert KeptPorts(once.ports, svc, Repaired) == slot.ports;
  }

  // ----- exactly where the written release is unsafe -----

  /** From an invariant state every operation leaves addresses exclusive, in both variants. */
  lemma StepExclusive(st: AllocatorState, op: Op, st': AllocatorState, variant: Variant)
    requires Inv(st, Sharing) && DisjointPools(st) && Step(st, op, st', variant)
    ensures Exclusive(st')
  {
    hide RecordState, AllocateState, CanUse, SlotInv, MayShare;
    InvExclusive(st, Sharing);
    if st' != st && op.Assign? {
      var al := NewAssignment(st, op, st', variant);
      NewcomerMayShare(st, op.svc, al);
    } else if st' != st && op.AllocateFromPool? {
      var al := NewAllocation(st, op, st', variant);
      NewcomerMayShare(st, op.svc, al);
    }
  }

  lemma NewcomerMayShare(st: AllocatorState, svc: Service, al: Alloc)
    requires Inv(st, Sharing) && DisjointPools(st) && Holds(st, al.pool, al.ip) && Usable(st, al, svc)
    ensures forall s :: s in st.allocs && s != svc && st.allocs[s].ip == al.ip ==>
              MayShare(al, st.allocs[s]) && MayShare(st.allocs[s], al)
  {
    var slot := st.pools[al.pool].At(al.ip);
    assert SlotInv(slot, st.allocs, al.pool, al.ip, Sharing);
    forall s | s in st.allocs && s != svc && st.allocs[s].ip == al.ip
      ensures MayShare(al, st.allocs[s]) && MayShare(st.allocs[s], al)
    {
      assert Holds(st, st.allocs[s].pool, al.ip);
      assert s in slot.users && !(slot.users <= {svc});
      forall p | p in al.ports
        ensures p !in st.allocs[s].ports
      {
        assert !(p in slot.ports && slot.ports[p] != svc);
      }
    }
  }

  lemma RecordedAllocs(st: AllocatorState, svc: Service, al: Alloc, variant: Variant)
    requires al.pool in st.pools
    ensures RecordState(st, svc, al, variant).allocs == st.allocs[svc := al]
  {
    hide AssignState, ReleaseState, CanUse;
    assert (st.allocs - {svc})[svc := al] == st.allocs[svc := al];
  }

  lemma NewAssignment(st: AllocatorState, op: Op, st': AllocatorState, variant: Variant) returns (al: Alloc)
    requires Step(st, op, st', variant) && st' != st && op.Assign?
    ensures Holds(st, al.pool, al.ip) && Usable(st, al, op.svc)
    ensures st'.allocs == st.allocs[op.svc := al]
  {
    hide RecordState, AllocateState, UnassignState, CanUse, Contains;
    var name :| Offers(st, name, op.ip) && Usable(st, Alloc(name, op.ip, op.ports, Key(op.sharing)), op.svc)
                && st' == RecordState(st, op.svc, Alloc(name, op.ip, op.ports, Key(op.sharing)), variant);
    al := Alloc(name, op.ip, op.ports, Key(op.sharing));
    RecordedAllocs(st, op.svc, al, variant);
  }

  lemma NewAllocation(st: AllocatorState, op: Op, st': AllocatorState, variant: Variant) returns (al: Alloc)
    requires Placed(st) && Step(st, op, st', variant) && st' != st && op.AllocateFromPool?
    ensures Holds(st, al.pool, al.ip) && Usable(st, al, op.svc)
    ensures st'.allocs == st.allocs[op.svc := al]
  {
    hide AssignState, ReleaseState;
    var n, ip :| FirstFit(st.pools[op.pool], n, ip, op.ports, op.svc, Some(Key(op.sharing)))
                 && st' == AllocateState(st, op.svc, Alloc(op.pool, ip, op.ports, Key(op.sharing)), variant);
    al := Alloc(op.pool, ip, op.ports, Key(op.sharing));
    FitReached(st.pools[op.pool], n, ip, op.ports, op.svc, Some(Key(op.sharing)));
  }

  lemma {:induction false} NewName(names: set<string>) returns (u: string)
    ensures u !in names && forall x :: x in names ==> |x| < |u|
    decreases names
  {
    if names == {} {
      u := "x";
    } else {
      var x :| x in names;
      var v := NewName(names - {x});
      u := v + x + "x";
      forall y | y in names
        ensures |y| < |u|
      {
        assert y == x || y in names - {x};
      }
    }
  }

  /** As written, an unassignment is safe, in that no single later operation can put two services
    * on one address that may not share it, if and only if nobody else was on the address. */
  lemma WrittenReleaseExactly(st: AllocatorState, svc: Service)
    requires Inv(st, Sharing) && DisjointPools(st) && svc in st.allocs
    ensures (forall op, st2 :: Step(UnassignState(st, svc, AsWritten), op, st2, AsWritten) ==> Exclusive(st2))
       <==> Alone(st, svc)
  {
    var al, st1 := st.allocs[svc], UnassignState(st, svc, AsWritten);
    assert Holds(st, al.pool, al.ip);
    assert SlotInv(st.pools[al.pool].At(al.ip), st.allocs, al.pool, al.ip, Sharing);
    if Alone(st, svc) {
      UnassignKeeps(st, svc, AsWritten, Sharing);
      StepKeepsDisjoint(st, Unassign(svc), st1, AsWritten);
      forall op, st2 | Step(st1, op, st2, AsWritten)
        ensures Exclusive(st2)
      {
        StepExclusive(st1, op, st2, AsWritten);
      }
    } else {
      var t :| t in st.pools[al.pool].At(al.ip).users && t != svc;
      var op, st2 := Intrusion(st, svc, t);
    }
  }

  /** The address has lost its key, so a service that does not share at all gets in. */
  lemma Intrusion(st: AllocatorState, svc: Service, t: Service) returns (op: Op, st2: AllocatorState)
    requires Placed(st) && svc in st.allocs && t in st.allocs && t != svc
    requires st.allocs[t].pool == st.allocs[svc].pool && st.allocs[t].ip == st.allocs[svc].ip
    ensures Step(UnassignState(st, svc, AsWritten), op, st2, AsWritten) && !Exclusive(st2)
  {
    hide UnassignState, Step, Usable, Exclusive;
    var al := st.allocs[svc];
    assert Holds(st, al.pool, al.ip);
    var u := NewName(st.allocs.Keys);
    var intruder := Alloc(al.pool, al.ip, [], Key(""));
    KeyDropped(st, svc, u, intruder);
    op, st2 := Entered(UnassignState(st, svc, AsWritten), u, intruder, t);
  }

  /** A newcomer that the pool accepts next to a service it may not share with breaks exclusivity. */
  lemma Entered(st: AllocatorState, u: Service, al: Alloc, t: Service) returns (op: Op, st2: AllocatorState)
    requires u !in st.allocs && t in st.allocs && st.allocs[t].ip == al.ip && !MayShare(al, st.allocs[t])
    requires Holds(st, al.pool, al.ip) && Usable(st, al, u)
    ensures Step(st, op, st2, AsWritten) && !Exclusive(st2)
  {
    hide UnassignState, AllocateState, Usable, Exclusive, MayShare;
    IntruderRecorded(st, u, al, t);
    st2 := RecordState(st, u, al, AsWritten);
    if Offers(st, al.pool, al.ip) {
      op := Assign(u, al.ip, al.ports, al.key.sharing);
      assert Offers(st, al.pool, al.ip) && Usable(st, al, u);
    } else {
      op := AllocateFromPool(u, al.pool, al.ports, al.key.sharing);
      FirstTaken(st, al, u);
      AllocateIsRecord(st, u, al, AsWritten);
    }
  }

  /** The start of a range is the first to be tried. */
  lemma FirstTaken(st: AllocatorState, al: Alloc, svc: Service)
    requires Holds(st, al.pool, al.ip) && !Offers(st, al.pool, al.ip) && Usable(st, al, svc)
    ensures FirstFit(st.pools[al.pool], 0, al.ip, al.ports, svc, Some(al.key))
  {}

  lemma KeyDropped(st: AllocatorState, svc: Service, u: Service, intruder: Alloc)
    requires Placed(st) && svc in st.allocs && st.allocs[svc].pool in st.pools
    requires intruder.pool == st.allocs[svc].pool && intruder.ip == st.allocs[svc].ip
    ensures Holds(UnassignState(st, svc, AsWritten), intruder.pool, intruder.ip)
    ensures Usable(UnassignState(st, svc, AsWritten), intruder, u)
    ensures UnassignState(st, svc, AsWritten).allocs == st.allocs - {svc}
  {
    hide ReleaseState;
    assert Holds(st, st.allocs[svc].pool, st.allocs[svc].ip);
    ReleasedAt(st.pools[intruder.pool], intruder.ip, svc, AsWritten, intruder.ip);
  }

  lemma IntruderRecorded(st: AllocatorState, u: Service, al: Alloc, t: Service)
    requires al.pool in st.pools && u !in st.allocs && t in st.allocs
    requires st.allocs[t].ip == al.ip && !MayShare(al, st.allocs[t])
    ensures !Exclusive(RecordState(st, u, al, AsWritten))
  {
    hide CanUse, AssignState, ReleaseState, MayShare;
    var st2 := RecordState(st, u, al, AsWritten);
    assert u in st2.allocs && t in st2.allocs && u != t;
    assert !MayShare(st2.allocs[u], st2.allocs[t]);
  }

  /** As written, an unassignment keeps the invariant if and only if nobody else was on the address
    * and, where nothing may be left behind, the service had no ports. */
  lemma WrittenReleaseKeepsExactly(st: AllocatorState, svc: Service, level: Level)
    requires Inv(st, level) && !level.Records? && svc in st.allocs
    ensures Inv(UnassignState(st, svc, AsWritten), level)
       <==> Alone(st, svc) && (level.Exact? ==> st.allocs[svc].ports == [])
  {
    var al, st' := st.allocs[svc], UnassignState(st, svc, AsWritten);
    assert Holds(st, al.pool, al.ip);
    var slot := st.pools[al.pool].At(al.ip);
    assert SlotInv(slot, st.allocs, al.pool, al.ip, level);
    WrittenSlotExactly(slot, st.allocs, svc, level);
    ReleasedSlot(st, svc);
    hide SlotInv, PoolState.At, ReleaseSlot, ReleaseState, Placed;
    if SlotInv(st'.pools[al.pool].At(al.ip), st'.allocs, al.pool, al.ip, level) {
      forall n, ip | n in st'.pools
        ensures SlotInv(st'.pools[n].At(ip), st'.allocs, n, ip, level)
      {
        if n != al.pool || ip != al.ip {
          ElsewhereKept(st, svc, level, n, ip);
        }
      }
      UnassignPlaced(st, svc, AsWritten);
    }
  }

  lemma ReleasedSlot(st: AllocatorState, svc: Service)
    requires svc in st.allocs && st.allocs[svc].pool in st.pools
    ensures var al, st' := st.allocs[svc], UnassignState(st, svc, AsWritten);
            && st'.allocs == st.allocs - {svc} && st'.pools.Keys == st.pools.Keys
            && st'.pools[al.pool].At(al.ip) == ReleaseSlot(st.pools[al.pool].At(al.ip), svc, AsWritten)
  {
    hide ReleaseSlot, ReleaseState;
    ReleasedAt(st.pools[st.allocs[svc].pool], st.allocs[svc].ip, svc, AsWritten, st.allocs[svc].ip);
  }

  lemma ElsewhereKept(st: AllocatorState, svc: Service, level: Level, n: string, ip: Addr)
    requires Inv(st, level) && svc in st.allocs && n in st.pools
    requires n != st.allocs[svc].pool || ip != st.allocs[svc].ip
    ensures var st' := UnassignState(st, svc, AsWritten);
            n in st'.pools && SlotInv(st'.pools[n].At(ip), st'.allocs, n, ip, level)
  {
    hide ReleaseState, ReleaseSlot;
    var al := st.allocs[svc];
    assert SlotInv(st.pools[n].At(ip), st.allocs, n, ip, level);
    ReleasedAt(st.pools[n], al.ip, svc, AsWritten, ip);
    OtherSlot(st.pools[n].At(ip), st.allocs, svc, al, n, ip, level);
  }

  /** The key goes and the service's own ports stay; either can be seen. */
  lemma WrittenSlotExactly(slot: Slot, allocs: map<Service, Alloc>, svc: Service, level: Level)
    requires svc in allocs && !level.Records?
    requires SlotInv(slot, allocs, allocs[svc].pool, allocs[svc].ip, level) && svc in slot.users
    ensures SlotInv(ReleaseSlot(slot, svc, AsWritten), allocs - {svc}, allocs[svc].pool, allocs[svc].ip, level)
       <==> slot.users <= {svc} && (level.Exact? ==> allocs[svc].ports == [])
  {
    var slot', ports := ReleaseSlot(slot, svc, AsWritten), allocs[svc].ports;
    if t :| t in slot.users && t != svc {
      assert t in slot'.users && t in allocs - {svc};
    } else if ports != [] {
      assert ports[0] in ports;
      assert ports[0] in slot'.ports;
    }
  }

  // ----- the same, when a service that has an allocation is assigned anew -----

  ghost predicate SamePlace(a: Alloc, b: Alloc) {
    a.pool == b.pool && a.ip == b.ip
  }

  /** Assigned anew where it is, the service drops the ports of the others and restores their key; they
    * must have none. Assigned elsewhere, it is released as by an unassignment. */
  ghost predicate Harmless(st: AllocatorState, svc: Service, al: Alloc, level: Level) {
    svc in st.allocs ==>
      var was := st.allocs[svc];
      if SamePlace(was, al) then
        && (forall t :: t in st.allocs && t != svc && SamePlace(st.allocs[t], al) ==> st.allocs[t].ports == [])
        && (level.Exact? ==> forall p :: p in was.ports ==> p in al.ports)
      else Alone(st, svc) && (level.Exact? ==> was.ports == [])
  }

  lemma ReassignedSlotExactly(slot: Slot, allocs: map<Service, Alloc>, svc: Service, al: Alloc, level: Level)
    requires svc in allocs && SamePlace(allocs[svc], al) && !level.Records?
    requires SlotInv(slot, allocs, al.pool, al.ip, level) && CanUse(slot, al.ports, svc, Some(al.key))
    ensures SlotInv(AssignSlot(ReleaseSlot(slot, svc, AsWritten), al.ports, svc, Some(al.key)), allocs[svc := al],
                    al.pool, al.ip, level)
       <==> && (forall t :: t in slot.users && t != svc ==> allocs[t].ports == [])
            && (level.Exact? ==> forall p :: p in allocs[svc].ports ==> p in al.ports)
  {
    var slot', allocs' := AssignSlot(ReleaseSlot(slot, svc, AsWritten), al.ports, svc, Some(al.key)), allocs[svc := al];
    assert slot'.users == slot.users;
    if t :| t in slot.users && t != svc && allocs[t].ports != [] {
      var p := allocs[t].ports[0];
      assert p in allocs[t].ports && slot.ports[p] == t;
      assert p !in slot'.ports;
      assert t in allocs' && p in allocs'[t].ports;
    } else {
      ReassignedHeld(slot, allocs, svc, al, level);
      if level.Exact? {
        ReassignedClean(slot, allocs, svc, al);
      }
    }
  }

  lemma ReassignedHeld(slot: Slot, allocs: map<Service, Alloc>, svc: Service, al: Alloc, level: Level)
    requires svc in allocs && SamePlace(allocs[svc], al) && !level.Records?
    requires SlotInv(slot, allocs, al.pool, al.ip, level) && CanUse(slot, al.ports, svc, Some(al.key))
    requires forall t :: t in slot.users && t != svc ==> allocs[t].ports == []
    ensures Held(AssignSlot(ReleaseSlot(slot, svc, AsWritten), al.ports, svc, Some(al.key)), allocs[svc := al])
    ensures Agrees(AssignSlot(ReleaseSlot(slot, svc, AsWritten), al.ports, svc, Some(al.key)), allocs[svc := al],
                   al.pool, al.ip)
  {
    if t :| t in slot.users && t != svc {
      assert !(slot.users <= {svc}) && slot.key == Some(allocs[t].key);
    }
  }

  lemma ReassignedClean(slot: Slot, allocs: map<Service, Alloc>, svc: Service, al: Alloc)
    requires svc in allocs && SamePlace(allocs[svc], al)
    requires SlotInv(slot, allocs, al.pool, al.ip, Exact)
    ensures Clean(AssignSlot(ReleaseSlot(slot, svc, AsWritten), al.ports, svc, Some(al.key)), allocs[svc := al])
       <==> forall p :: p in allocs[svc].ports ==> p in al.ports
  {
    var slot' := AssignSlot(ReleaseSlot(slot, svc, AsWritten), al.ports, svc, Some(al.key));
    forall p | p in allocs[svc].ports
      ensures p in slot'.ports && slot'.ports[p] == svc
    {}
  }

  /** What a recording leaves at each address. */
  lemma RecordedAt(st: AllocatorState, svc: Service, al: Alloc, n: string, ip: Addr)
    requires n in st.pools && Usable(st, al, svc)
    ensures var st' := RecordState(st, svc, al, AsWritten);
            var slot := st.pools[n].At(ip);
            var left := if svc in st.allocs && st.allocs[svc].pool == n && st.allocs[svc].ip == ip
                        then ReleaseSlot(slot, svc, AsWritten) else slot;
            && n in st'.pools && st'.allocs == st.allocs[svc := al]
            && st'.pools[n].range == st.pools[n].range
            && st'.pools[n].At(ip)
               == if al.pool == n && al.ip == ip then AssignSlot(left, al.ports, svc, Some(al.key)) else left
  {
    hide AssignState, ReleaseState, AssignSlot, ReleaseSlot, PoolState.At, CanUse;
    RecordNeverRefused(st, svc, al, AsWritten);
    if svc in st.allocs && st.allocs[svc].pool == n {
      ReleasedAt(st.pools[n], st.allocs[svc].ip, svc, AsWritten, ip);
    }
    AssignedAt(UnassignState(st, svc, AsWritten).pools[n], al.ip, al.ports, svc, Some(al.key), ip);
    assert (st.allocs - {svc})[svc := al] == st.allocs[svc := al];
  }

  /** As written, assigning keeps the invariant if and only if it is harmless. */
  lemma WrittenAssignKeepsExactly(st: AllocatorState, svc: Service, al: Alloc, level: Level)
    requires Inv(st, level) && !level.Records?
    requires Holds(st, al.pool, al.ip) && Usable(st, al, svc)
    ensures Inv(RecordState(st, svc, al, AsWritten), level) <==> Harmless(st, svc, al, level)
  {
    if svc !in st.allocs {
      AddKeeps(st, svc, al, level);
    } else if SamePlace(st.allocs[svc], al) {
      ReassignKeepsExactly(st, svc, al, level);
    } else {
      MoveKeepsExactly(st, svc, al, level);
    }
  }

  /** The slot where the service is assigned anew. */
  lemma ReassignedPlace(st: AllocatorState, svc: Service, al: Alloc, level: Level)
    requires Inv(st, level) && !level.Records? && svc in st.allocs && SamePlace(st.allocs[svc], al)
    requires Usable(st, al, svc)
    ensures var st' := RecordState(st, svc, al, AsWritten);
            && al.pool in st'.pools
            && (SlotInv(st'.pools[al.pool].At(al.ip), st'.allocs, al.pool, al.ip, level) <==> Harmless(st, svc, al, level))
  {
    var slot := st.pools[al.pool].At(al.ip);
    assert SlotInv(slot, st.allocs, al.pool, al.ip, level);
    assert forall t :: t in slot.users <==> t in st.allocs && SamePlace(st.allocs[t], al);
    ReassignedSlotExactly(slot, st.allocs, svc, al, level);
    RecordedAt(st, svc, al, al.pool, al.ip);
    hide RecordState, SlotInv, PoolState.At, AssignSlot, ReleaseSlot, CanUse;
  }

  lemma ReassignKeepsExactly(st: AllocatorState, svc: Service, al: Alloc, level: Level)
    requires Inv(st, level) && !level.Records? && svc in st.allocs && SamePlace(st.allocs[svc], al)
    requires Holds(st, al.pool, al.ip) && Usable(st, al, svc)
    ensures Inv(RecordState(st, svc, al, AsWritten), level) <==> Harmless(st, svc, al, level)
  {
    hide SlotInv, PoolState.At, RecordState, Placed, Harmless, Usable, SamePlace;
    var st' := RecordState(st, svc, al, AsWritten);
    ReassignedPlace(st, svc, al, level);
    if Harmless(st, svc, al, level) {
      forall n, ip | n in st'.pools
        ensures SlotInv(st'.pools[n].At(ip), st'.allocs, n, ip, level)
      {
        if n != al.pool || ip != al.ip {
          RecordedElsewhere(st, svc, al, level, n, ip);
        }
      }
      RecordPlaced(st, svc, al);
    }
  }

  lemma RecordedElsewhere(st: AllocatorState, svc: Service, al: Alloc, level: Level, n: string, ip: Addr)
    requires Inv(st, level) && svc in st.allocs && SamePlace(st.allocs[svc], al) && Usable(st, al, svc)
    requires n in RecordState(st, svc, al, AsWritten).pools && (n != al.pool || ip != al.ip)
    ensures var st' := RecordState(st, svc, al, AsWritten);
            SlotInv(st'.pools[n].At(ip), st'.allocs, n, ip, level)
  {
    hide CanUse, AssignState, ReleaseState;
    assert n in st.pools && SlotInv(st.pools[n].At(ip), st.allocs, n, ip, level);
    hide SlotInv, PoolState.At;
    RecordedAt(st, svc, al, n, ip);
    OtherSlot(st.pools[n].At(ip), st.allocs, svc, al, n, ip, level);
  }

  lemma RecordPlaced(st: AllocatorState, svc: Service, al: Alloc)
    requires Placed(st) && Holds(st, al.pool, al.ip) && Usable(st, al, svc)
    ensures Placed(RecordState(st, svc, al, AsWritten))
  {
    RecordNeverRefused(st, svc, al, AsWritten);
    UnassignPlaced(st, svc, AsWritten);
    SameReach(st, svc, al, AsWritten);
    AddPlaced(UnassignState(st, svc, AsWritten), svc, al);
    hide Placed, AssignState, ReleaseState, CanUse;
  }

  lemma MoveKeepsExactly(st: AllocatorState, svc: Service, al: Alloc, level: Level)
    requires Inv(st, level) && !level.Records? && svc in st.allocs && !SamePlace(st.allocs[svc], al)
    requires Holds(st, al.pool, al.ip) && Usable(st, al, svc)
    ensures Inv(RecordState(st, svc, al, AsWritten), level) <==> Harmless(st, svc, al, level)
  {
    var was, st1 := st.allocs[svc], UnassignState(st, svc, AsWritten);
    WrittenReleaseKeepsExactly(st, svc, level);
    if Inv(st1, level) {
      RecordNeverRefused(st, svc, al, AsWritten);
      SameReach(st, svc, al, AsWritten);
      ReleasedSlot(st, svc);
      AddKeeps(st1, svc, al, level);
      RecordAfterRelease(st, svc, al);
    } else {
      assert Holds(st, was.pool, was.ip);
      assert SlotInv(st.pools[was.pool].At(was.ip), st.allocs, was.pool, was.ip, level);
      WrittenSlotExactly(st.pools[was.pool].At(was.ip), st.allocs, svc, level);
      RecordedAt(st, svc, al, was.pool, was.ip);
      MovedSlot(ReleaseSlot(st.pools[was.pool].At(was.ip), svc, AsWritten), st.allocs, svc, al, level);
    }
  }

  lemma RecordAfterRelease(st: AllocatorState, svc: Service, al: Alloc)
    requires al.pool in st.pools
    ensures RecordState(st, svc, al, AsWritten) == RecordState(UnassignState(st, svc, AsWritten), svc, al, AsWritten)
  {
    hide AssignState, ReleaseState, CanUse;
  }

  /** At the place it has left, a service is as good as unassigned. */
  lemma MovedSlot(left: Slot, allocs: map<Service, Alloc>, svc: Service, al: Alloc, level: Level)
    requires svc in allocs && !SamePlace(allocs[svc], al) && svc !in left.users
    ensures SlotInv(left, allocs[svc := al], allocs[svc].pool, allocs[svc].ip, level)
       <==> SlotInv(left, allocs - {svc}, allocs[svc].pool, allocs[svc].ip, level)
  {
    assert allocs[svc := al] - {svc} == allocs - {svc};
  }

  /** As written, an assignment is safe, in that no single later operation can put two services on one
    * address that may not share it, if and only if it is harmless. */
  lemma WrittenAssignExactly(st: AllocatorState, svc: Service, al: Alloc)
    requires Inv(st, Sharing) && DisjointPools(st) && Holds(st, al.pool, al.ip) && Usable(st, al, svc)
    ensures (forall op, st2 :: Step(RecordState(st, svc, al, AsWritten), op, st2, AsWritten) ==> Exclusive(st2))
       <==> Harmless(st, svc, al, Sharing)
  {
    var st1 := RecordState(st, svc, al, AsWritten);
    hide Step, Exclusive, RecordState, Usable;
    if Harmless(st, svc, al, Sharing) {
      WrittenAssignKeepsExactly(st, svc, al, Sharing);
      RecordDisjoint(st, svc, al);
      forall op, st2 | Step(st1, op, st2, AsWritten)
        ensures Exclusive(st2)
      {
        StepExclusive(st1, op, st2, AsWritten);
      }
    } else {
      var u, intruder, t := Opening(st, svc, al);
      var op, st2 := Entered(st1, u, intruder, t);
    }
  }

  lemma RecordDisjoint(st: AllocatorState, svc: Service, al: Alloc)
    requires DisjointPools(st) && al.pool in st.pools
    ensures DisjointPools(RecordState(st, svc, al, AsWritten))
  {
    hide AssignState, ReleaseState, CanUse, DisjointPools;
    SameRangesDisjoint(st, RecordState(st, svc, al, AsWritten));
  }

  /** Who gets in: where the service was, one that shares with nobody, for the key is gone; where it was
    * assigned anew, one with the same key and a port that another service has and lost. */
  lemma Opening(st: AllocatorState, svc: Service, al: Alloc) returns (u: Service, intruder: Alloc, t: Service)
    requires Inv(st, Sharing) && Holds(st, al.pool, al.ip) && Usable(st, al, svc) && !Harmless(st, svc, al, Sharing)
    ensures GetsIn(RecordState(st, svc, al, AsWritten), u, intruder, t)
  {
    u := NewName(st.allocs.Keys);
    var was := st.allocs[svc];
    if SamePlace(was, al) {
      t :| t in st.allocs && t != svc && SamePlace(st.allocs[t], al) && st.allocs[t].ports != [];
      intruder := Alloc(al.pool, al.ip, [st.allocs[t].ports[0]], al.key);
      OpenByPort(st, svc, al, t, st.allocs[t].ports[0], u);
    } else {
      assert Holds(st, was.pool, was.ip);
      t :| t in st.pools[was.pool].At(was.ip).users && t != svc;
      intruder := Alloc(was.pool, was.ip, [], Key(""));
      OpenByKey(st, svc, al, t, u);
    }
  }

  ghost predicate GetsIn(st: AllocatorState, u: Service, al: Alloc, t: Service) {
    && u !in st.allocs && t in st.allocs && st.allocs[t].ip == al.ip && !MayShare(al, st.allocs[t])
    && Holds(st, al.pool, al.ip) && Usable(st, al, u)
  }

  lemma OpenByPort(st: AllocatorState, svc: Service, al: Alloc, t: Service, p: ServicePort, u: Service)
    requires Inv(st, Sharing) && Holds(st, al.pool, al.ip) && Usable(st, al, svc)
    requires svc in st.allocs && SamePlace(st.allocs[svc], al) && u !in st.allocs
    requires t in st.allocs && t != svc && SamePlace(st.allocs[t], al) && p in st.allocs[t].ports
    ensures GetsIn(RecordState(st, svc, al, AsWritten), u, Alloc(al.pool, al.ip, [p], al.key), t)
  {
    var slot := st.pools[al.pool].At(al.ip);
    assert SlotInv(slot, st.allocs, al.pool, al.ip, Sharing);
    LostPortTaken(slot, st.allocs, svc, al, t, p, u);
    RecordedAt(st, svc, al, al.pool, al.ip);
    hide RecordState, PoolState.At, AssignSlot, ReleaseSlot, CanUse, MayShare, SlotInv;
  }

  lemma OpenByKey(st: AllocatorState, svc: Service, al: Alloc, t: Service, u: Service)
    requires Inv(st, Sharing) && Usable(st, al, svc)
    requires svc in st.allocs && !SamePlace(st.allocs[svc], al) && u !in st.allocs
    requires var was := st.allocs[svc]; Holds(st, was.pool, was.ip) && t in st.pools[was.pool].At(was.ip).users && t != svc
    ensures var was := st.allocs[svc]; GetsIn(RecordState(st, svc, al, AsWritten), u, Alloc(was.pool, was.ip, [], Key("")), t)
  {
    var was := st.allocs[svc];
    assert SlotInv(st.pools[was.pool].At(was.ip), st.allocs, was.pool, was.ip, Sharing);
    RecordedAt(st, svc, al, was.pool, was.ip);
    hide RecordState, PoolState.At, AssignSlot, KeptPorts, SlotInv;
  }

  lemma LostPortTaken(slot: Slot, allocs: map<Service, Alloc>, svc: Service, al: Alloc, t: Service, p: ServicePort, u: Service)
    requires svc in allocs && SamePlace(allocs[svc], al) && t in allocs && t != svc && SamePlace(allocs[t], al)
    requires SlotInv(slot, allocs, al.pool, al.ip, Sharing) && CanUse(slot, al.ports, svc, Some(al.key))
    requires p in allocs[t].ports
    ensures CanUse(AssignSlot(ReleaseSlot(slot, svc, AsWritten), al.ports, svc, Some(al.key)), [p], u, Some(al.key))
    ensures !MayShare(Alloc(al.pool, al.ip, [p], al.key), allocs[t])
  {
    assert t in slot.users && !(slot.users <= {svc});
    assert p in slot.ports && slot.ports[p] == t;
    assert p in [p];
  }

  /** One address: `a` with port `p` and `b` with port `q` share a key. Assigned anew as it is, `a` makes
    * the pool forget `q`, and `c` is given the port although `b` still has it. */
  lemma ReassignLosesPorts(p: ServicePort, q: ServicePort, a: Service, b: Service, c: Service, key: Key)
    requires p != q && a != b && c != b && key.sharing != ""
    ensures var shared := AssignSlot(AssignSlot(EMPTY_SLOT, [p], a, Some(key)), [q], b, Some(key));
            var again := AssignSlot(ReleaseSlot(shared, a, AsWritten), [p], a, Some(key));
            && !CanUse(shared, [q], c, Some(key)) && CanUse(shared, [p], a, Some(key))
            && again.users == {a, b} && CanUse(again, [q], c, Some(key))
  {
    var shared := AssignSlot(AssignSlot(EMPTY_SLOT, [p], a, Some(key)), [q], b, Some(key));
    assert q in [q] && p in [p] && p !in [q] && q !in [p];
    assert shared.ports[q] == b && shared.ports[p] == a;
    assert ReleaseSlot(shared, a, AsWritten).users + {a} == {a, b};
  }

  /** One address: `a` takes port `p` and is released, `b` takes port `q`. Port `p` is nobody's, yet
    * `c`, which has the same key, is refused it. */
  lemma StalePortRefused(p: ServicePort, q: ServicePort, a: Service, b: Service, c: Service, key: Key)
    requires p != q && a != c && key.sharing != ""
    ensures var taken := AssignSlot(EMPTY_SLOT, [p], a, Some(key));
            var left := ReleaseSlot(taken, a, AsWritten);
            var shared := AssignSlot(left, [q], b, Some(key));
            && CanUse(EMPTY_SLOT, [p], a, Some(key)) && CanUse(left, [q], b, Some(key))
            && left.users == {} && shared.users == {b} && CanUse(left, [p], c, Some(key))
            && !CanUse(shared, [p], c, Some(key))
  {
    var taken := AssignSlot(EMPTY_SLOT, [p], a, Some(key));
    assert p in [p] && taken.ports[p] == a;
    assert p !in [q];
  }

  // ----- refusals -----

  /** Exclusivity is exact where nothing is left behind: an address is usable if and only if the
    * newcomer may share it with everyone who is there, so a refusal names a real conflict. */
  lemma UsableExactly(st: AllocatorState, svc: Service, al: Alloc)
    requires Inv(st, Exact) && DisjointPools(st) && Holds(st, al.pool, al.ip)
    ensures Usable(st, al, svc)
       <==> forall t :: t in st.allocs && t != svc && st.allocs[t].ip == al.ip ==> MayShare(al, st.allocs[t])
  {
    var slot := st.pools[al.pool].At(al.ip);
    assert SlotInv(slot, st.allocs, al.pool, al.ip, Exact);
    forall t | t in st.allocs && st.allocs[t].ip == al.ip
      ensures t in slot.users
    {
      assert Holds(st, st.allocs[t].pool, al.ip);
    }
    SlotUsableExactly(slot, st.allocs, svc, al);
  }

  lemma SlotUsableExactly(slot: Slot, allocs: map<Service, Alloc>, svc: Service, al: Alloc)
    requires SlotInv(slot, allocs, al.pool, al.ip, Exact)
    ensures CanUse(slot, al.ports, svc, Some(al.key))
       <==> forall t :: t in slot.users && t != svc ==> MayShare(al, allocs[t])
  {
    if forall t :: t in slot.users && t != svc ==> MayShare(al, allocs[t]) {
      if t :| t in slot.users && t != svc {
        assert slot.key == Some(allocs[t].key);
      }
      forall p | p in al.ports
        ensures !(p in slot.ports && slot.ports[p] != svc)
      {}
    }
  }

  /** Over every run of the repaired allocator: whoever is refused an address could not share it. */
  lemma RepairedRefusesExactly(trace: seq<AllocatorState>, ops: seq<Op>, i: nat, svc: Service, al: Alloc)
    requires IsRun(trace, ops, Repaired) && Starts(trace[0]) && DisjointPools(trace[0]) && i < |trace|
    requires Holds(trace[i], al.pool, al.ip)
    ensures Usable(trace[i], al, svc)
       <==> forall t :: t in trace[i].allocs && t != svc && trace[i].allocs[t].ip == al.ip ==>
              MayShare(al, trace[i].allocs[t])
  {
    RunsKeepInv(trace, ops, Repaired, Exact, i);
    UsableExactly(trace[i], svc, al);
  }

  /** Ports are compared as whole entries: the same protocol and number under two names can share. */
  lemma SamePortTwoNames(slot: Slot, a: ServicePort, b: ServicePort, svc: Service, other: Service, key: Key)
    requires a.protocol == b.protocol && a.port == b.port && a.name != b.name
    requires key.sharing != "" && svc != other
    requires slot == Slot({other}, Some(key), map[a := other])
    ensures CanUse(slot, [b], svc, Some(key))
  {}
}
