/** The allocator object: pools and the allocation table, updated in place
  * (internal/allocator/allocator.go). Every method is one step of `Allocation.Step`. */
module Allocators {
  import opened Wrappers
  import opened IPRanges
  import opened Pools
  import opened Allocation

  class Allocator {
    var pools: map<string, LocalPool>
    var allocs: map<Service, Alloc>

    /** Pools are distinct objects with non-empty names. */
    ghost predicate Valid()
      reads this
    {
      "" !in pools && forall a, b :: a in pools && b in pools && a != b ==> pools[a] != pools[b]
    }

    ghost function State(): AllocatorState
      reads this, pools.Values
    {
      AllocatorState(map n | n in pools :: pools[n].State(), allocs)
    }

    constructor ()
      ensures Valid() && State() == AllocatorState(map[], map[])
    {
      pools, allocs := map[], map[];
    }

    /** A pool's count is the number of distinct addresses allocated from it. */
    lemma InUseCounts(name: string, level: Level)
      requires Valid() && Inv(State(), level) && name in pools
      ensures pools[name].InUse() == |set s | s in allocs && allocs[s].pool == name :: allocs[s].ip|
    {
      InUseCountsAddresses(State(), level, name);
    }

    /** One pool has changed; the others are different objects. */
    twostate lemma OnePoolChanged(name: string)
      requires old(Valid()) && pools == old(pools) && name in pools
      requires forall n :: n in pools && n != name ==> unchanged(pools[n])
      ensures State().pools == old(State()).pools[name := pools[name].State()]
    {}

    /** The nil check on the pool is for pools that have been removed since. */
    method Unassign(svc: Service) returns (ok: bool)
      requires Valid()
      modifies this`allocs, pools.Values
      ensures Valid() && ok && State() == UnassignState(old(State()), svc, AsWritten)
    {
      if svc !in allocs {
        return true;
      }
      var al := allocs[svc];
      if al.pool in pools {
        pools[al.pool].Release(al.ip, svc);
        OnePoolChanged(al.pool);
      }
      allocs := allocs - {svc};
      ok := true;
    }

    /** `assign`: the caller has checked that the pool would accept. */
    method Record(svc: Service, al: Alloc)
      requires Valid() && al.pool in pools
      modifies this`allocs, pools.Values
      ensures Valid() && State() == RecordState(old(State()), svc, al, AsWritten)
    {
      var ok := Unassign(svc);
      label Unassigned:
      allocs := allocs[svc := al];
      var ignored := pools[al.pool].Assign(al.ip, al.ports, svc, Some(al.key));
      OnePoolChanged@Unassigned(al.pool);
    }

    /** The first pool, in map order, that contains the address; "" if none does. */
    method PoolFor(ip: Addr) returns (name: string)
      requires Valid()
      ensures name != "" ==> Offers(State(), name, ip)
      ensures name == "" ==> forall n :: !Offers(State(), n, ip)
    {
      var rest := pools.Keys;
      while rest != {}
        invariant rest <= pools.Keys
        invariant forall n :: n in pools.Keys - rest ==> !Contains(pools[n].addresses, ip)
      {
        var n :| n in rest;
        if Contains(pools[n].addresses, ip) {
          return n;
        }
        rest := rest - {n};
      }
      name := "";
    }

    method Assign(svc: Service, ip: Addr, ports: seq<ServicePort>, sharingKey: string)
      returns (r: Result<string, Refusal>)
      requires Valid()
      modifies this`allocs, pools.Values
      ensures Valid() && Step(old(State()), Op.Assign(svc, ip, ports, sharingKey), State(), AsWritten)
      ensures r.Success? ==>
                var al := Alloc(r.value, ip, ports, Key(sharingKey));
                && Offers(old(State()), al.pool, ip) && Usable(old(State()), al, svc)
                && State() == RecordState(old(State()), svc, al, AsWritten)
                && Usable(UnassignState(old(State()), svc, AsWritten), al, svc)
      ensures r.Failure? ==> State() == old(State())
      ensures r.Failure? ==>
                (forall n :: !Offers(old(State()), n, ip))
                || exists n :: Offers(old(State()), n, ip)
                               && !Usable(old(State()), Alloc(n, ip, ports, Key(sharingKey)), svc)
    {
      var pool := PoolFor(ip);
      if pool == "" {
        return Failure(NotAllowed);
      }
      var sk := Key(sharingKey);
      var available := pools[pool].Available(ip, ports, svc, Some(sk));
      if available.Failure? {
        assert Offers(State(), pool, ip) && !Usable(State(), Alloc(pool, ip, ports, sk), svc);
        return Failure(available.error);
      }
      var al := Alloc(pool, ip, ports, sk);
      assert Usable(State(), al, svc);
      RecordNeverRefused(State(), svc, al, AsWritten);
      hide PoolState.At, CanUse, Contains, Usable, RecordState, UnassignState;
      ghost var st := State();
      assert st == old(State());
      Record(svc, al);
      r := Success(pool);
    }

    method AllocateFromPool(svc: Service, poolName: string, ports: seq<ServicePort>, sharingKey: string)
      returns (r: Result<Addr, Refusal>)
      requires Valid()
      modifies this`allocs, pools.Values
      ensures Valid() && Step(old(State()), Op.AllocateFromPool(svc, poolName, ports, sharingKey), State(), AsWritten)
      ensures svc in old(allocs) ==> r == Success(old(allocs)[svc].ip) && State() == old(State())
      ensures r.Success? ==> svc in allocs && allocs[svc].ip == r.value
      ensures r.Success? && svc !in old(allocs) ==>
                var al := Alloc(poolName, r.value, ports, Key(sharingKey));
                && poolName in old(State()).pools && Usable(old(State()), al, svc)
                && (exists n :: FirstFit(old(State()).pools[poolName], n, r.value, ports, svc, Some(al.key)))
                && State() == RecordState(old(State()), svc, al, AsWritten)
      ensures r.Failure? ==> State() == old(State()) && svc !in old(allocs)
                             && (poolName in old(State()).pools ==>
                                   NoFit(old(State()).pools[poolName], ports, svc, Some(Key(sharingKey))))
    {
      if svc in allocs {
        return Success(allocs[svc].ip);
      }
      if poolName !in pools {
        return Failure(UnknownPool);
      }
      var sk := Key(sharingKey);
      var found := pools[poolName].AssignNext(svc, ports, Some(sk));
      label Assigned:
      OnePoolChanged(poolName);
      if found.Failure? {
        return found;
      }
      var al := Alloc(poolName, found.value, ports, sk);
      AllocateIsRecord(old(State()), svc, al, AsWritten);
      Record(svc, al);
      r := Success(found.value);
    }

    /** Refuses exactly while some allocation names the pool. */
    method ValidateDelete(name: string) returns (ok: bool)
      ensures ok <==> forall s :: s in allocs ==> allocs[s].pool != name
    {
      var rest := allocs.Keys;
      while rest != {}
        invariant rest <= allocs.Keys
        invariant forall s :: s in allocs.Keys - rest ==> allocs[s].pool != name
      {
        var s :| s in rest;
        if allocs[s].pool == name {
          return false;
        }
        rest := rest - {s};
      }
      ok := true;
    }

    method RemovePool(name: string) returns (ok: bool)
      requires Valid()
      modifies this`pools
      ensures Valid() && Step(old(State()), Op.RemovePool(name), State(), AsWritten)
      ensures ok <==> forall s :: s in allocs ==> allocs[s].pool != name
      ensures pools == if ok then old(pools) - {name} else old(pools)
    {
      ok := ValidateDelete(name);
      if ok {
        pools := pools - {name};
      }
    }
  }
}
