/** A pool of addresses that services may share (internal/allocator/pool.go and localpool.go). */
module Pools {
  import opened Wrappers
  import Bytes
  import opened IPRanges

  type Service = string

  /** A map key in `portsInUse` is the whole port entry, name and target included. */
  datatype ServicePort = ServicePort(name: string, protocol: string, port: int, targetPort: string, nodePort: int)

  datatype Key = Key(sharing: string)

  datatype Refusal = NoSharing | PortTaken(port: ServicePort) | NoAddress | UnknownPool | NotAllowed

  /** Two ways to release: as the code is written, and repaired. */
  datatype Variant = AsWritten | Repaired

  /** `sharingOK`. */
  predicate SharingOK(existing: Key, new_: Key) {
    if existing.sharing == "" then false
    else if new_.sharing == "" then false
    else existing.sharing == new_.sharing
  }

  /** What the pool's three maps say about one address. */
  datatype Slot = Slot(users: set<Service>, key: Option<Key>, ports: map<ServicePort, Service>)

  const EMPTY_SLOT := Slot({}, None, map[])

  datatype PoolState = PoolState(
    range: IPRange,
    inUse: map<Addr, set<Service>>,
    keys: map<Addr, Option<Key>>,
    ports: map<Addr, map<ServicePort, Service>>)
  {
    function At(ip: Addr): Slot {
      Slot(if ip in inUse then inUse[ip] else {},
           if ip in keys then keys[ip] else None,
           if ip in ports then ports[ip] else map[])
    }
  }

  // ----- one address -----

  /** When `svc` may use the address with these ports: an address without a key is free; otherwise
    * the keys must allow sharing, or nobody else is there, and nobody else has any of the ports. */
  predicate CanUse(slot: Slot, ports: seq<ServicePort>, svc: Service, key: Option<Key>) {
    slot.key.Some? ==>
      && (SharingOK(slot.key.value, if key.Some? then key.value else Key("")) || slot.users <= {svc})
      && (forall p :: p in ports ==> !(p in slot.ports && slot.ports[p] != svc))
  }

  function AssignSlot(slot: Slot, ports: seq<ServicePort>, svc: Service, key: Option<Key>): Slot {
    Slot(slot.users + {svc}, key, slot.ports + OwnedBy(ports, svc))
  }

  function OwnedBy(ports: seq<ServicePort>, svc: Service): map<ServicePort, Service> {
    map p | p in ports :: svc
  }

  /** As written, the key goes whoever stays, and the ports that go are those of the others. */
  function ReleaseSlot(slot: Slot, svc: Service, variant: Variant): Slot {
    var users := slot.users - {svc};
    Slot(users, if variant.Repaired? && users != {} then slot.key else None, KeptPorts(slot.ports, svc, variant))
  }

  function KeptPorts(ports: map<ServicePort, Service>, svc: Service, variant: Variant): map<ServicePort, Service> {
    match variant
    case AsWritten => map p | p in ports && ports[p] == svc :: ports[p]
    case Repaired => map p | p in ports && ports[p] != svc :: ports[p]
  }

  // ----- the pool -----

  function AssignState(p: PoolState, ip: Addr, ports: seq<ServicePort>, svc: Service, key: Option<Key>): (r: PoolState)
    ensures r.range == p.range
  {
    var slot := AssignSlot(p.At(ip), ports, svc, key);
    p.(inUse := p.inUse[ip := slot.users], keys := p.keys[ip := slot.key], ports := p.ports[ip := slot.ports])
  }

  /** Entries that become empty are deleted. */
  function ReleaseState(p: PoolState, ip: Addr, svc: Service, variant: Variant): (r: PoolState)
    ensures r.range == p.range
  {
    var slot := ReleaseSlot(p.At(ip), svc, variant);
    p.(inUse := if slot.users == {} then p.inUse - {ip} else p.inUse[ip := slot.users],
       keys := if slot.key.None? then p.keys - {ip} else p.keys[ip := slot.key],
       ports := if |slot.ports| == 0 then p.ports - {ip} else p.ports[ip := slot.ports])
  }

  /** Only the named address changes. */
  lemma AssignedAt(p: PoolState, ip: Addr, ports: seq<ServicePort>, svc: Service, key: Option<Key>, x: Addr)
    ensures AssignState(p, ip, ports, svc, key).At(x)
         == if x == ip then AssignSlot(p.At(ip), ports, svc, key) else p.At(x)
  {}

  lemma ReleasedAt(p: PoolState, ip: Addr, svc: Service, variant: Variant, x: Addr)
    ensures ReleaseState(p, ip, svc, variant).At(x)
         == if x == ip then ReleaseSlot(p.At(ip), svc, variant) else p.At(x)
  {
    var slot := ReleaseSlot(p.At(ip), svc, variant);
    assert |slot.ports| == 0 ==> slot.ports == map[];
  }

  /** No address is recorded as in use by nobody. */
  ghost predicate NoEmptyUsers(p: PoolState) {
    forall ip :: ip in p.inUse ==> p.inUse[ip] != {}
  }

  lemma NoEmptyUsersKept(p: PoolState, ip: Addr, ports: seq<ServicePort>, svc: Service, key: Option<Key>,
                         variant: Variant)
    requires NoEmptyUsers(p)
    ensures NoEmptyUsers(AssignState(p, ip, ports, svc, key)) && NoEmptyUsers(ReleaseState(p, ip, svc, variant))
  {
    hide OwnedBy, KeptPorts;
    var users := p.At(ip).users;
    assert svc in users + {svc};
    assert AssignState(p, ip, ports, svc, key).inUse == p.inUse[ip := users + {svc}];
  }

  /** Assigning to a newcomer and releasing restores `addressesInUse` exactly. */
  lemma UsersRestored(p: PoolState, ip: Addr, ports: seq<ServicePort>, svc: Service, key: Option<Key>, variant: Variant)
    requires NoEmptyUsers(p) && svc !in p.At(ip).users
    ensures ReleaseState(AssignState(p, ip, ports, svc, key), ip, svc, variant).inUse == p.inUse
  {
    hide OwnedBy, KeptPorts;
    var users := p.At(ip).users;
    assert AssignState(p, ip, ports, svc, key).At(ip).users == users + {svc};
    assert users + {svc} - {svc} == users;
  }

  /** Assigning again what was just assigned changes nothing, whether or not it is refused. */
  lemma AssignTwice(slot: Slot, ports: seq<ServicePort>, svc: Service, key: Option<Key>)
    ensures var once := AssignSlot(slot, ports, svc, key); AssignSlot(once, ports, svc, key) == once
  {}

  /** First fit: `n` tries are refused and the next visited address is taken. */
  ghost predicate FirstFit(p: PoolState, n: nat, ip: Addr, ports: seq<ServicePort>, svc: Service, key: Option<Key>) {
    && Visit(p.range, n) == Some(ip)
    && CanUse(p.At(ip), ports, svc, key)
    && forall k :: 0 <= k < n && Visit(p.range, k).Some? ==> !CanUse(p.At(Visit(p.range, k).value), ports, svc, key)
  }

  ghost predicate NoFit(p: PoolState, ports: seq<ServicePort>, svc: Service, key: Option<Key>) {
    forall k: nat :: Visit(p.range, k).Some? ==> !CanUse(p.At(Visit(p.range, k).value), ports, svc, key)
  }

  lemma FitReached(p: PoolState, n: nat, ip: Addr, ports: seq<ServicePort>, svc: Service, key: Option<Key>)
    requires FirstFit(p, n, ip, ports, svc, key)
    ensures Reaches(p.range, ip) && CanUse(p.At(ip), ports, svc, key)
  {
    VisitReaches(p.range, n, ip);
  }

  /** On a non-empty range first fit is the lowest usable address of the range. */
  lemma FirstFitIsLowest(p: PoolState, n: nat, ip: Addr, ports: seq<ServicePort>, svc: Service, key: Option<Key>,
                         other: Addr)
    requires NonEmpty(p.range) && FirstFit(p, n, ip, ports, svc, key)
    ensures Contains(p.range, ip)
    ensures Contains(p.range, other) && CanUse(p.At(other), ports, svc, key) ==> Bytes.Value(ip) <= Bytes.Value(other)
  {
    VisitedOnce(p.range, ip);
    VisitedOnce(p.range, other);
    VisitsInOrder(p.range, n);
    if Contains(p.range, other) {
      var k :| Visit(p.range, k) == Some(other);
      VisitsInOrder(p.range, k);
    }
  }

  /** And it fails only when no address of the range is usable. */
  lemma NoFitExactly(p: PoolState, ports: seq<ServicePort>, svc: Service, key: Option<Key>)
    requires NonEmpty(p.range)
    ensures NoFit(p, ports, svc, key)
       <==> forall ip: Addr :: Contains(p.range, ip) ==> !CanUse(p.At(ip), ports, svc, key)
  {
    forall ip: Addr
      ensures Contains(p.range, ip) <==> exists k :: Visit(p.range, k) == Some(ip)
    {
      VisitedOnce(p.range, ip);
    }
    if NoFit(p, ports, svc, key) {
      forall ip: Addr | Contains(p.range, ip)
        ensures !CanUse(p.At(ip), ports, svc, key)
      {
        var k :| Visit(p.range, k) == Some(ip);
      }
    }
  }

  class LocalPool {
    const addresses: IPRange
    var addressesInUse: map<Addr, set<Service>>
    var sharingKeys: map<Addr, Option<Key>>
    var portsInUse: map<Addr, map<ServicePort, Service>>

    ghost function State(): PoolState
      reads this
    {
      PoolState(addresses, addressesInUse, sharingKeys, portsInUse)
    }

    constructor (range: IPRange)
      ensures State() == PoolState(range, map[], map[], map[])
    {
      addresses := range;
      addressesInUse, sharingKeys, portsInUse := map[], map[], map[];
    }

    function SharingKey(ip: Addr): Option<Key>
      reads this
      ensures SharingKey(ip) == State().At(ip).key
    {
      if ip in sharingKeys then sharingKeys[ip] else None
    }

    function ServicesOnIP(ip: Addr): set<Service>
      reads this
      ensures ServicesOnIP(ip) == State().At(ip).users
    {
      if ip in addressesInUse then addressesInUse[ip] else {}
    }

    function PortsOn(ip: Addr): map<ServicePort, Service>
      reads this
      ensures PortsOn(ip) == State().At(ip).ports
    {
      if ip in portsInUse then portsInUse[ip] else map[]
    }

    method Available(ip: Addr, ports: seq<ServicePort>, service: Service, key: Option<Key>)
      returns (r: Result<(), Refusal>)
      ensures r.Success? <==> CanUse(State().At(ip), ports, service, key)
      ensures r.Failure? && r.error.PortTaken? ==>
                r.error.port in ports && r.error.port in PortsOn(ip) && PortsOn(ip)[r.error.port] != service
    {
      var wanted := if key.Some? then key.value else Key("");
      var existing := SharingKey(ip);
      if existing.Some? {
        if !SharingOK(existing.value, wanted) {
          var others := ServicesOnIP(ip) - {service};
          if |others| > 0 {
            assert !(ServicesOnIP(ip) <= {service});
            return Failure(NoSharing);
          }
          assert others == {};
        }
        for i := 0 to |ports|
          invariant forall k :: 0 <= k < i ==> !(ports[k] in PortsOn(ip) && PortsOn(ip)[ports[k]] != service)
        {
          if ports[i] in PortsOn(ip) && PortsOn(ip)[ports[i]] != service {
            return Failure(PortTaken(ports[i]));
          }
        }
      }
      r := Success(());
    }

    method Assign(ip: Addr, ports: seq<ServicePort>, service: Service, sharingKey: Option<Key>)
      returns (r: Result<(), Refusal>)
      modifies this
      ensures r.Success? <==> CanUse(old(State()).At(ip), ports, service, sharingKey)
      ensures State() == if r.Success? then AssignState(old(State()), ip, ports, service, sharingKey) else old(State())
    {
      r := Available(ip, ports, service, sharingKey);
      if r.Failure? {
        return;
      }
      sharingKeys := sharingKeys[ip := sharingKey];
      AddUser(ip, service);
      AddPorts(ip, ports, service);
    }

    method AddUser(ip: Addr, service: Service)
      modifies `addressesInUse
      ensures addressesInUse == old(addressesInUse)[ip := old(ServicesOnIP(ip)) + {service}]
    {
      if ip !in addressesInUse {
        addressesInUse := addressesInUse[ip := {}];
      }
      addressesInUse := addressesInUse[ip := addressesInUse[ip] + {service}];
    }

    method AddPorts(ip: Addr, ports: seq<ServicePort>, service: Service)
      modifies `portsInUse
      ensures portsInUse == old(portsInUse)[ip := old(PortsOn(ip)) + OwnedBy(ports, service)]
    {
      var table := PortsOn(ip);
      ghost var was := table;
      for i := 0 to |ports|
        invariant table == was + OwnedBy(ports[..i], service)
      {
        assert ports[..i + 1] == ports[..i] + [ports[i]];
        table := table[ports[i] := service];
      }
      assert ports[..|ports|] == ports;
      portsInUse := portsInUse[ip := table];
    }

    /** Tries each address in order; a refused try leaves the pool as it was. */
    method AssignNext(service: Service, ports: seq<ServicePort>, sharingKey: Option<Key>)
      returns (r: Result<Addr, Refusal>)
      modifies this
      ensures r.Success? ==> (exists n :: FirstFit(old(State()), n, r.value, ports, service, sharingKey))
                             && State() == AssignState(old(State()), r.value, ports, service, sharingKey)
      ensures r.Failure? ==> NoFit(old(State()), ports, service, sharingKey) && State() == old(State())
    {
      var pos := Some(First(addresses));
      ghost var n := 0;
      while pos.Some?
        invariant State() == old(State()) && pos == Visit(addresses, n)
        invariant forall k :: 0 <= k < n && Visit(addresses, k).Some? ==>
                    !CanUse(old(State()).At(Visit(addresses, k).value), ports, service, sharingKey)
        decreases if pos.Some? then (if Bytes.Value(addresses.last) >= Bytes.Value(pos.value)
                                     then 1 + Bytes.Value(addresses.last) - Bytes.Value(pos.value) else 1) else 0
      {
        var tried := Assign(pos.value, ports, service, sharingKey);
        if tried.Success? {
          assert FirstFit(old(State()), n, pos.value, ports, service, sharingKey);
          return Success(pos.value);
        }
        NextIsNumeric(addresses, pos.value);
        pos := Next(addresses, pos.value);
        n := n + 1;
      }
      NoneAfter(addresses, n);
      r := Failure(NoAddress);
    }

    method Release(ip: Addr, service: Service)
      modifies this
      ensures State() == ReleaseState(old(State()), ip, service, AsWritten)
    {
      sharingKeys := sharingKeys - {ip};
      RemoveUser(ip, service);
      DropPorts(ip, service, AsWritten);
    }

    method RemoveUser(ip: Addr, service: Service)
      modifies `addressesInUse
      ensures var users := old(ServicesOnIP(ip)) - {service};
              addressesInUse == if users == {} then old(addressesInUse) - {ip} else old(addressesInUse)[ip := users]
    {
      if ip in addressesInUse {
        addressesInUse := addressesInUse[ip := addressesInUse[ip] - {service}];
      }
      if |ServicesOnIP(ip)| == 0 {
        addressesInUse := addressesInUse - {ip};
      }
    }

    /** The repaired release: the key stays while others do, and the service's own ports go. */
    method ReleaseRepaired(ip: Addr, service: Service)
      modifies this
      ensures State() == ReleaseState(old(State()), ip, service, Repaired)
    {
      RemoveUser(ip, service);
      if |ServicesOnIP(ip)| == 0 || SharingKey(ip).None? {
        sharingKeys := sharingKeys - {ip};
      }
      DropPorts(ip, service, Repaired);
    }

    /** The loop over the address's ports, in an arbitrary order. */
    method DropPorts(ip: Addr, service: Service, variant: Variant)
      modifies `portsInUse
      ensures portsInUse
           == var kept := KeptPorts(old(PortsOn(ip)), service, variant);
              if |kept| == 0 then old(portsInUse) - {ip} else old(portsInUse)[ip := kept]
    {
      if ip in portsInUse {
        var was := portsInUse[ip];
        var ports := was;
        var rest := was.Keys;
        while rest != {}
          invariant rest <= was.Keys
          invariant forall p :: p in ports <==> p in was && (p in rest || (was[p] == service) == variant.AsWritten?)
          invariant forall p :: p in ports ==> ports[p] == was[p]
        {
          var port :| port in rest;
          var drop := match variant case AsWritten => was[port] != service case Repaired => was[port] == service;
          if drop {
            ports := ports - {port};
          }
          rest := rest - {port};
        }
        portsInUse := portsInUse[ip := ports];
        assert ports == KeptPorts(was, service, variant);
      }
      if ip !in portsInUse || |portsInUse[ip]| == 0 {
        portsInUse := portsInUse - {ip};
      }
    }

    function InUse(): nat
      reads this
      ensures InUse() == |State().inUse|
    {
      |addressesInUse|
    }
  }

  lemma {:induction false} NoneAfter(r: IPRange, n: nat)
    requires Visit(r, n).None?
    ensures forall k: nat :: Visit(r, k).Some? ==> k < n
  {
    forall k: nat | Visit(r, k).Some?
      ensures k < n
    {
      VisitedBefore(r, n, k);
    }
  }

  lemma {:induction false} VisitedBefore(r: IPRange, n: nat, k: nat)
    requires Visit(r, n).None? && Visit(r, k).Some?
    ensures k < n
  {
    if k > n {
      VisitedBefore(r, n, k - 1);
    }
  }
}
