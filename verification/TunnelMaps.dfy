/** The tunnel map of a proxy: a tunnel from each client node to each EPIC node that hosts one of the
  * proxy's pods (controllers/gwproxy_controller.go and api/v1/gwproxy_types.go). */
module TunnelMaps {
  import opened Wrappers
  import opened Strings
  import opened TunnelIds
  import opened TunnelStore

  datatype GUETunnelEndpoint = GUETunnelEndpoint(address: string, port: int, tunnelID: nat)

  datatype ProxyInterfaceInfo = ProxyInterfaceInfo(epicNodeAddress: string, index: int, name: string)

  /** Client node, then EPIC node. */
  type TunnelMap = map<string, map<string, GUETunnelEndpoint>>

  type Interfaces = map<string, ProxyInterfaceInfo>

  /** The EPIC nodes that host a registered proxy pod. */
  function Nodes(ifs: Interfaces): set<string> {
    set pod | pod in ifs :: ifs[pod].epicNodeAddress
  }

  predicate Has(m: TunnelMap, c: string, e: string) {
    c in m && e in m[c]
  }

  function Put(m: TunnelMap, c: string, e: string, t: GUETunnelEndpoint): TunnelMap {
    m[c := (if c in m then m[c] else map[])[e := t]]
  }

  // ----- what a rebuild owes -----

  /** A tunnel that existed is copied; a new one is the configured endpoint at the EPIC node. */
  ghost predicate EntryOk(was: TunnelMap, base: GUETunnelEndpoint, c: string, e: string, t: GUETunnelEndpoint) {
    if Has(was, c, e) then t == was[c][e] else t.address == e && t.port == base.port
  }

  ghost predicate EntriesOk(was: TunnelMap, base: GUETunnelEndpoint, m: TunnelMap) {
    forall c, e :: Has(m, c, e) ==> EntryOk(was, base, c, e, m[c][e])
  }

  ghost predicate Rebuilt(was: TunnelMap, clients: seq<string>, ifs: Interfaces, base: GUETunnelEndpoint, m: TunnelMap) {
    && m.Keys == (if ifs == map[] then {} else Elements(clients))
    && (forall c :: c in m ==> m[c].Keys == Nodes(ifs))
    && EntriesOk(was, base, m)
  }

  /** New tunnels have IDs from `low` up to below `high`, no two the same. */
  ghost predicate FreshIds(was: TunnelMap, m: TunnelMap, low: nat, high: nat) {
    && (forall c, e :: Has(m, c, e) && !Has(was, c, e) ==> low <= m[c][e].tunnelID < high)
    && (forall c, e, c', e' ::
          Has(m, c, e) && !Has(was, c, e) && Has(m, c', e') && !Has(was, c', e') && (c, e) != (c', e') ==>
            m[c][e].tunnelID != m[c'][e'].tunnelID)
  }

  ghost predicate IdsDistinct(m: TunnelMap) {
    forall c, e, c', e' :: Has(m, c, e) && Has(m, c', e') && (c, e) != (c', e') ==>
      m[c][e].tunnelID != m[c'][e'].tunnelID
  }

  ghost predicate IdsBelow(m: TunnelMap, bound: nat) {
    forall c, e :: Has(m, c, e) ==> m[c][e].tunnelID < bound
  }

  /** Every EPIC node in the map hosts a registered proxy pod. */
  ghost predicate Hosted(m: TunnelMap, ifs: Interfaces) {
    forall c, e :: Has(m, c, e) ==> e in Nodes(ifs)
  }

  ghost predicate AllPresent(m: TunnelMap, clients: seq<string>, ifs: Interfaces) {
    forall c, e :: c in clients && e in Nodes(ifs) ==> Has(m, c, e)
  }

  lemma RebuiltHosted(was: TunnelMap, clients: seq<string>, ifs: Interfaces, base: GUETunnelEndpoint, m: TunnelMap)
    requires Rebuilt(was, clients, ifs, base, m)
    ensures Hosted(m, ifs)
  {}

  /** Fresh IDs next to surviving ones stay distinct. */
  lemma RebuiltIdsDistinct(was: TunnelMap, base: GUETunnelEndpoint, m: TunnelMap, low: nat, high: nat)
    requires EntriesOk(was, base, m) && FreshIds(was, m, low, high)
    requires IdsDistinct(was) && IdsBelow(was, low) && low <= high
    ensures IdsDistinct(m) && IdsBelow(m, high)
  {
    forall c, e | Has(m, c, e)
      ensures if Has(was, c, e) then m[c][e].tunnelID == was[c][e].tunnelID < low else m[c][e].tunnelID >= low
    {
      assert EntryOk(was, base, c, e, m[c][e]);
    }
  }

  lemma RebuiltHasAll(was: TunnelMap, clients: seq<string>, ifs: Interfaces, base: GUETunnelEndpoint, m: TunnelMap)
    requires Rebuilt(was, clients, ifs, base, m)
    ensures AllPresent(m, clients, ifs)
  {
    forall c, e | c in clients && e in Nodes(ifs)
      ensures Has(m, c, e)
    {
      assert ifs != map[] && c in Elements(clients);
    }
  }

  /** Rebuilding the result once more gives the same map: every pair survives. */
  lemma RebuiltAgain(was: TunnelMap, clients: seq<string>, ifs: Interfaces, base: GUETunnelEndpoint, m: TunnelMap,
                     again: TunnelMap)
    requires Rebuilt(was, clients, ifs, base, m) && Rebuilt(m, clients, ifs, base, again)
    ensures again == m
  {
    hide EntriesOk;
    forall c | c in m
      ensures again[c] == m[c]
    {
      forall e | e in m[c]
        ensures again[c][e] == m[c][e]
      {
        SurvivorKept(m, base, again, c, e);
      }
    }
  }

  lemma SurvivorKept(was: TunnelMap, base: GUETunnelEndpoint, m: TunnelMap, c: string, e: string)
    requires EntriesOk(was, base, m) && Has(was, c, e) && Has(m, c, e)
    ensures m[c][e] == was[c][e]
  {
    assert EntryOk(was, base, c, e, m[c][e]);
  }

  // ----- removing a pod -----

  function Without(m: TunnelMap, node: string): TunnelMap {
    map c | c in m :: m[c] - {node}
  }

  /** The pod goes; its node's tunnels go with the node's last pod. */
  function AfterRemoval(m: TunnelMap, ifs: Interfaces, pod: string): TunnelMap {
    if pod in ifs && ifs[pod].epicNodeAddress !in Nodes(ifs - {pod}) then Without(m, ifs[pod].epicNodeAddress) else m
  }

  lemma RemovalKeeps(m: TunnelMap, ifs: Interfaces, pod: string, bound: nat)
    requires Hosted(m, ifs) && IdsDistinct(m) && IdsBelow(m, bound)
    ensures var m' := AfterRemoval(m, ifs, pod);
            && Hosted(m', ifs - {pod}) && IdsDistinct(m') && IdsBelow(m', bound)
            && (forall c, e :: Has(m', c, e) <==> Has(m, c, e) && e in Nodes(ifs - {pod}))
            && (forall c, e :: Has(m', c, e) ==> m'[c][e] == m[c][e])
  {
    var m' := AfterRemoval(m, ifs, pod);
    forall c, e | Has(m', c, e)
      ensures Has(m, c, e) && m'[c][e] == m[c][e]
    {}
    forall e | e in Nodes(ifs)
      ensures e in Nodes(ifs - {pod}) || (pod in ifs && e == ifs[pod].epicNodeAddress)
    {
      var p :| p in ifs && ifs[p].epicNodeAddress == e;
      if p != pod {
        assert p in ifs - {pod};
      }
    }
  }

  // ----- the object -----

  class GWProxy {
    var tunnelMaps: TunnelMap
    var proxyInterfaces: Interfaces
  }

  /** Until the counter wraps, the new tunnels have IDs handed out since it stood at `low`. */
  ghost predicate IdsOk(store: EpicStore, was: TunnelMap, m: TunnelMap, low: nat)
    reads store
  {
    NoWrap(store.start, store.commits) ==> low <= store.counter && FreshIds(was, m, low, store.counter)
  }

  lemma NothingBuilt(store: EpicStore, was: TunnelMap, base: GUETunnelEndpoint, ifs: Interfaces)
    ensures EntriesOk(was, base, map[]) && IdsOk(store, was, map[], store.counter) && Built(map[], Elements<string>([]), ifs)
    ensures Consumed(was, [], ifs) == 0
  {}

  // ----- where the new IDs come from -----

  /** Each new tunnel has the ID of one of the caller's own `AllocateTunnelID` commits, numbered `from` or
    * later; `src` says which, and different pairs have different commits. */
  ghost predicate IssuedBy(commits: seq<Commit>, own: seq<nat>, was: TunnelMap, m: TunnelMap, from: nat,
                           src: map<(string, string), nat>) {
    && (forall c, e :: Has(m, c, e) && !Has(was, c, e) ==>
          && (c, e) in src && Issue(commits, own, from, src[(c, e)])
          && m[c][e].tunnelID == CommitId(commits[src[(c, e)]]))
    && (forall p :: p in src ==> src[p] < |commits|)
    && (forall p, q :: p in src && q in src && p != q ==> src[p] != src[q])
  }

  ghost predicate Issue(commits: seq<Commit>, own: seq<nat>, from: nat, k: nat) {
    from <= k < |commits| && k in own && commits[k].kind.ReturnsOld?
  }

  ghost predicate Issued(store: EpicStore, was: TunnelMap, m: TunnelMap, from: nat)
    reads store
  {
    exists src :: IssuedBy(store.commits, store.own, was, m, from, src)
  }

  lemma NothingIssued(store: EpicStore, was: TunnelMap)
    ensures Issued(store, was, map[], |store.commits|)
  {
    assert IssuedBy(store.commits, store.own, was, map[], |store.commits|, map[]);
  }

  /** A copied tunnel needs no commit. */
  lemma IssuedCopy(commits: seq<Commit>, own: seq<nat>, was: TunnelMap, m: TunnelMap, from: nat,
                   src: map<(string, string), nat>, c: string, e: string, t: GUETunnelEndpoint)
    requires IssuedBy(commits, own, was, m, from, src) && Has(was, c, e)
    ensures IssuedBy(commits, own, was, Put(m, c, e, t), from, src)
  {
    forall x, y | Has(Put(m, c, e, t), x, y) && !Has(was, x, y)
      ensures Has(m, x, y) && Put(m, c, e, t)[x][y] == m[x][y]
    {}
  }

  lemma IssueStays(commits: seq<Commit>, own: seq<nat>, from: nat, k: nat, commits': seq<Commit>, own': seq<nat>)
    requires Issue(commits, own, from, k) && commits <= commits' && own <= own'
    ensures Issue(commits', own', from, k) && commits'[k] == commits[k]
  {}

  /** A new tunnel has a commit that came after all earlier ones. */
  lemma IssuedNew(commits: seq<Commit>, own: seq<nat>, was: TunnelMap, m: TunnelMap, from: nat,
                  src: map<(string, string), nat>, c: string, e: string, t: GUETunnelEndpoint,
                  commits': seq<Commit>, own': seq<nat>, k: nat)
    requires IssuedBy(commits, own, was, m, from, src) && commits <= commits' && own <= own'
    requires |commits| <= k && Issue(commits', own', from, k) && t.tunnelID == CommitId(commits'[k])
    ensures IssuedBy(commits', own', was, Put(m, c, e, t), from, src[(c, e) := k])
  {
    var m', src' := Put(m, c, e, t), src[(c, e) := k];
    assert k < |commits'| && forall p :: p in src ==> src[p] < |commits|;
    hide Issue;
    forall x, y | Has(m', x, y) && !Has(was, x, y)
      ensures (x, y) in src' && Issue(commits', own', from, src'[(x, y)])
      ensures src'[(x, y)] < |commits'| && m'[x][y].tunnelID == CommitId(commits'[src'[(x, y)]])
    {
      if (x, y) != (c, e) {
        assert Has(m, x, y) && m'[x][y] == m[x][y];
        IssueStays(commits, own, from, src[(x, y)], commits', own');
      }
    }
  }

  /** Two commits of `AllocateTunnelID` less than 2^32 - 2 apart have different IDs, so the new tunnels of a
    * rebuild differ from each other and from those of any other one, wherever the counter stands. */
  lemma NewTunnelsDiffer(start: nat, commits: seq<Commit>, counter: nat, own: seq<nat>,
                         was1: TunnelMap, m1: TunnelMap, from1: nat, src1: map<(string, string), nat>,
                         was2: TunnelMap, m2: TunnelMap, from2: nat, src2: map<(string, string), nat>,
                         p: (string, string), q: (string, string))
    requires Chain(start, commits, counter) && start < WIDTH
    requires IssuedBy(commits, own, was1, m1, from1, src1) && IssuedBy(commits, own, was2, m2, from2, src2)
    requires Has(m1, p.0, p.1) && !Has(was1, p.0, p.1) && Has(m2, q.0, q.1) && !Has(was2, q.0, q.1)
    requires |commits| - from1 < WIDTH - 2 && |commits| - from2 < WIDTH - 2
    requires (src1 == src2 && p != q) || (forall x, y :: x in src1 && y in src2 ==> src1[x] < from2)
    ensures m1[p.0][p.1].tunnelID != m2[q.0][q.1].tunnelID
  {
    assert p == (p.0, p.1) && q == (q.0, q.1);
    var k, l := src1[p], src2[q];
    assert Issue(commits, own, from1, k) && Issue(commits, own, from2, l) && k != l;
    if k < l {
      SameIdExactly(start, commits, counter, k, l);
    } else {
      SameIdExactly(start, commits, counter, l, k);
    }
  }

  lemma AddEntry(was: TunnelMap, base: GUETunnelEndpoint, m: TunnelMap, c: string, e: string,
                 t: GUETunnelEndpoint, m': TunnelMap)
    requires EntriesOk(was, base, m) && EntryOk(was, base, c, e, t)
    requires m' == Put(m, c, e, t)
    ensures EntriesOk(was, base, m')
  {
    forall x, y | Has(m', x, y)
      ensures EntryOk(was, base, x, y, m'[x][y])
    {
      if (x, y) != (c, e) {
        assert Has(m, x, y);
      }
    }
  }

  lemma AddFresh(was: TunnelMap, m: TunnelMap, low: nat, mid: nat, high: nat, c: string, e: string,
                 t: GUETunnelEndpoint, m': TunnelMap)
    requires FreshIds(was, m, low, mid) && low <= mid
    requires m' == Put(m, c, e, t)
    requires if Has(was, c, e) then mid <= high else mid <= t.tunnelID < high
    ensures FreshIds(was, m', low, high)
  {
    assert forall x, y :: Has(m', x, y) ==> (x, y) == (c, e) || (Has(m, x, y) && m'[x][y] == m[x][y]);
  }

  /** `m'` is `m` with the given EPIC nodes under client node `c` as well. */
  ghost predicate Grown(m: TunnelMap, m': TunnelMap, c: string, nodes: set<string>) {
    && m'.Keys == m.Keys + (if nodes == {} then {} else {c})
    && forall x :: x in m' ==> m'[x].Keys == (if x in m then m[x].Keys else {}) + (if x == c then nodes else {})
  }

  lemma GrownByNothing(m: TunnelMap, c: string)
    ensures Grown(m, m, c, {})
  {}

  lemma GrownStep(m: TunnelMap, m1: TunnelMap, m2: TunnelMap, c: string, nodes: set<string>, e: string)
    requires Grown(m, m1, c, nodes) && Grown(m1, m2, c, {e})
    ensures Grown(m, m2, c, nodes + {e})
  {}

  /** The client nodes done so far have all the EPIC nodes. */
  ghost predicate Built(m: TunnelMap, done: set<string>, ifs: Interfaces) {
    && m.Keys == (if ifs == map[] then {} else done)
    && forall c :: c in m ==> m[c].Keys == Nodes(ifs)
  }

  lemma SomeNodes(ifs: Interfaces)
    ensures ifs == map[] <==> Nodes(ifs) == {}
  {
    if pod :| pod in ifs {
      assert ifs[pod].epicNodeAddress in Nodes(ifs);
    }
  }

  lemma ClientDone(m: TunnelMap, m': TunnelMap, done: set<string>, c: string, ifs: Interfaces)
    requires Built(m, done, ifs) && Grown(m, m', c, Nodes(ifs))
    ensures Built(m', done + {c}, ifs)
  {
    SomeNodes(ifs);
    hide Nodes;
    forall x | x in m'
      ensures m'[x].Keys == Nodes(ifs)
    {
      if x in m {
        assert m[x].Keys == Nodes(ifs);
      }
    }
  }

  lemma ElementsStep(s: seq<string>, i: nat)
    requires i < |s|
    ensures Elements(s[..i + 1]) == Elements(s[..i]) + {s[i]}
  {
    assert s[..i + 1] == s[..i] + [s[i]];
  }

  /** The tunnel of a pair: copied, or the configured endpoint with an ID allocated for it. */
  method FindTunnel(was: TunnelMap, c: string, e: string, base: GUETunnelEndpoint, store: EpicStore, steps: nat)
    returns (r: Option<GUETunnelEndpoint>)
    requires store.Valid() && steps > 0
    modifies store
    ensures store.Valid() && store.Later() && |old(store.failures)| <= |store.failures|
    ensures Has(was, c, e) ==> store.Untouched() && r == Some(was[c][e])
    ensures r.None? ==> |old(store.failures)| < |store.failures|
    ensures r.Some? && !Has(was, c, e) ==>
              && r.value == base.(address := e, tunnelID := r.value.tunnelID)
              && Owns(store, ReturnsOld, r.value.tunnelID) && |store.own| == |old(store.own)| + 1
              && (NoWrap(store.start, store.commits) ==> old(store.counter) <= r.value.tunnelID < store.counter)
  {
    if c in was && e in was[c] {
      return Some(was[c][e]);
    }
    var id := AllocateTunnelID(store, steps);
    if id.Failure? {
      return None;
    }
    r := Some(base.(address := e, tunnelID := id.value));
  }

  /** One (client node, proxy pod) turn: the entry of the pair is copied or allocated. */
  method AddTunnel(was: TunnelMap, c: string, e: string, base: GUETunnelEndpoint, m: TunnelMap,
                   store: EpicStore, steps: nat, ghost low: nat, ghost from: nat)
    returns (r: Option<TunnelMap>)
    requires store.Valid() && steps > 0 && EntriesOk(was, base, m) && IdsOk(store, was, m, low)
    requires from <= |store.commits| && Issued(store, was, m, from)
    modifies store
    ensures store.Valid() && store.Later()
    ensures Has(was, c, e) ==> store.Untouched() && r.Some?
    ensures |old(store.failures)| <= |store.failures|
    ensures r.None? ==> |old(store.failures)| < |store.failures|
    ensures r.Some? ==> |store.own| == |old(store.own)| + (if Has(was, c, e) then 0 else 1)
    ensures r.Some? ==>
              && Has(r.value, c, e) && r.value == Put(m, c, e, r.value[c][e])
              && (!Has(was, c, e) ==> Owns(store, ReturnsOld, r.value[c][e].tunnelID))
              && Issued(store, was, r.value, from)
              && EntriesOk(was, base, r.value)
              && Grown(m, r.value, c, {e})
              && IdsOk(store, was, r.value, low)
  {
    ghost var src :| IssuedBy(store.commits, store.own, was, m, from, src);
    ghost var commits, own, counter := store.commits, store.own, store.counter;
    assert NoWrap(store.start, commits) ==> low <= counter && FreshIds(was, m, low, counter);
    hide EntriesOk, IdsOk, Issued, IssuedBy, FreshIds, Grown, Put, Chain, NoWrap, CommitId;
    var tunnel := FindTunnel(was, c, e, base, store, steps);
    if tunnel.None? {
      return None;
    }
    var tunnels := if c in m then m[c] else map[];
    var m' := m[c := tunnels[e := tunnel.value]];
    PutIs(m, c, e, tunnel.value);
    AddIssued(commits, own, was, c, e, m, store, from, src, tunnel.value);
    AddIdsOk(commits, counter, was, c, e, m, store, low, tunnel.value);
    AddEntry(was, base, m, c, e, tunnel.value, m');
    r := Some(m');
  }

  lemma PutIs(m: TunnelMap, c: string, e: string, t: GUETunnelEndpoint)
    ensures Put(m, c, e, t) == m[c := (if c in m then m[c] else map[])[e := t]]
    ensures Has(Put(m, c, e, t), c, e) && Put(m, c, e, t)[c][e] == t
    ensures Grown(m, Put(m, c, e, t), c, {e})
  {}

  /** `counter` is what the counter was when the history was `commits`. */
  lemma AddIdsOk(commits: seq<Commit>, counter: nat, was: TunnelMap, c: string, e: string, m: TunnelMap,
                 store: EpicStore, low: nat, t: GUETunnelEndpoint)
    requires store.Valid() && commits <= store.commits && Chain(store.start, commits, counter)
    requires NoWrap(store.start, commits) ==> low <= counter && FreshIds(was, m, low, counter)
    requires if Has(was, c, e) then store.counter == counter
             else NoWrap(store.start, store.commits) ==> counter <= t.tunnelID < store.counter
    ensures IdsOk(store, was, Put(m, c, e, t), low)
  {
    if NoWrap(store.start, store.commits) {
      AddFresh(was, m, low, counter, store.counter, c, e, t, Put(m, c, e, t));
    }
  }

  /** An old tunnel is copied and nothing is requested, or the last own commit is new and has the ID. */
  lemma AddIssued(commits: seq<Commit>, own: seq<nat>, was: TunnelMap, c: string, e: string, m: TunnelMap,
                  store: EpicStore, from: nat, src: map<(string, string), nat>, t: GUETunnelEndpoint)
    requires from <= |commits| <= |store.commits| && commits <= store.commits && own <= store.own
    requires IssuedBy(commits, own, was, m, from, src)
    requires if Has(was, c, e) then store.commits == commits && store.own == own
             else && |own| < |store.own|
                  && var k := store.own[|store.own| - 1];
                     && |commits| <= k < |store.commits| && store.commits[k].kind.ReturnsOld?
                     && t.tunnelID == CommitId(store.commits[k])
    ensures Issued(store, was, Put(m, c, e, t), from)
  {
    hide IssuedBy, Put;
    if Has(was, c, e) {
      IssuedCopy(commits, own, was, m, from, src, c, e, t);
    } else {
      var k := store.own[|store.own| - 1];
      IssuedNew(commits, own, was, m, from, src, c, e, t, store.commits, store.own, k);
    }
  }

  /** Nothing is new at client node `c`. */
  ghost predicate AllHad(was: TunnelMap, c: string, ifs: Interfaces) {
    forall e :: e in Nodes(ifs) ==> Has(was, c, e)
  }

  lemma HadTunnel(was: TunnelMap, c: string, ifs: Interfaces, pod: string)
    requires pod in ifs
    ensures AllHad(was, c, ifs) ==> Has(was, c, ifs[pod].epicNodeAddress)
  {
    assert ifs[pod].epicNodeAddress in Nodes(ifs);
  }

  /** A run of the rebuild over one client node: the pods in an arbitrary order. */
  method AddClient(was: TunnelMap, c: string, ifs: Interfaces, base: GUETunnelEndpoint, m: TunnelMap,
                   store: EpicStore, steps: nat, ghost low: nat, ghost from: nat)
    returns (r: Option<TunnelMap>)
    requires store.Valid() && steps > 0 && EntriesOk(was, base, m) && IdsOk(store, was, m, low)
    requires from <= |store.commits| && Issued(store, was, m, from)
    modifies store
    ensures store.Valid() && store.Later()
    ensures AllHad(was, c, ifs) ==> store.Untouched() && r.Some?
    ensures |old(store.failures)| <= |store.failures|
    ensures r.None? ==> |old(store.failures)| < |store.failures|
    ensures r.Some? ==> |store.own| == |old(store.own)| + |NewPods(was, c, ifs)|
    ensures r.Some? ==>
              && EntriesOk(was, base, r.value) && Issued(store, was, r.value, from)
              && Grown(m, r.value, c, Nodes(ifs))
              && IdsOk(store, was, r.value, low)
  {
    hide EntriesOk, IdsOk, Issued, Grown, NewAmong, NewPods, Has, Put, Nodes, NodesOf, AllHad;
    GrownByNothing(m, c);
    NewAmongEnds(was, c, ifs);
    NodesEnds(ifs);
    var m' := m;
    var rest := ifs.Keys;
    ghost var done: set<string> := {};
    while rest != {}
      invariant done + rest == ifs.Keys && done !! rest
      invariant store.Valid() && store.Later() && EntriesOk(was, base, m')
      invariant AllHad(was, c, ifs) ==> store.Untouched()
      invariant |old(store.failures)| <= |store.failures|
      invariant Grown(m, m', c, NodesOf(ifs, done))
      invariant |store.own| == |old(store.own)| + NewAmong(was, c, ifs, done)
      invariant IdsOk(store, was, m', low) && Issued(store, was, m', from)
    {
      var pod :| pod in rest;
      HadTunnel(was, c, ifs, pod);
      var added := AddTunnel(was, c, ifs[pod].epicNodeAddress, base, m', store, steps, low, from);
      if added.None? {
        return None;
      }
      NodesStep(ifs, done, pod);
      NewAmongStep(was, c, ifs, done, pod);
      GrownStep(m, m', added.value, c, NodesOf(ifs, done), ifs[pod].epicNodeAddress);
      m' := added.value;
      rest, done := rest - {pod}, done + {pod};
    }
    assert done == ifs.Keys;
    r := Some(m');
  }

  ghost function NodesOf(ifs: Interfaces, pods: set<string>): set<string> {
    set pod | pod in ifs && pod in pods :: ifs[pod].epicNodeAddress
  }

  lemma NodesEnds(ifs: Interfaces)
    ensures NodesOf(ifs, {}) == {} && NodesOf(ifs, ifs.Keys) == Nodes(ifs)
  {}

  lemma NodesStep(ifs: Interfaces, pods: set<string>, pod: string)
    requires pod in ifs
    ensures NodesOf(ifs, pods + {pod}) == NodesOf(ifs, pods) + {ifs[pod].epicNodeAddress}
  {
    forall e | e in NodesOf(ifs, pods) + {ifs[pod].epicNodeAddress}
      ensures e in NodesOf(ifs, pods + {pod})
    {
      if e in NodesOf(ifs, pods) {
        var p :| p in ifs && p in pods && ifs[p].epicNodeAddress == e;
      }
    }
  }

  // ----- how many IDs a rebuild consumes -----

  /** The pods whose turn at client node `c` finds no old tunnel. */
  ghost function NewPods(was: TunnelMap, c: string, ifs: Interfaces): set<string> {
    set pod | pod in ifs && !Has(was, c, ifs[pod].epicNodeAddress)
  }

  /** One ID for each turn of a client node and a pod that finds no old tunnel. */
  ghost function Consumed(was: TunnelMap, clients: seq<string>, ifs: Interfaces): nat {
    if clients == [] then 0
    else Consumed(was, clients[..|clients| - 1], ifs) + |NewPods(was, clients[|clients| - 1], ifs)|
  }

  ghost function NewAmong(was: TunnelMap, c: string, ifs: Interfaces, pods: set<string>): nat {
    |NewPods(was, c, ifs) * pods|
  }

  lemma NewAmongEnds(was: TunnelMap, c: string, ifs: Interfaces)
    ensures NewAmong(was, c, ifs, {}) == 0 && NewAmong(was, c, ifs, ifs.Keys) == |NewPods(was, c, ifs)|
  {
    assert NewPods(was, c, ifs) * {} == {};
    assert NewPods(was, c, ifs) * ifs.Keys == NewPods(was, c, ifs);
  }

  lemma NewAmongStep(was: TunnelMap, c: string, ifs: Interfaces, done: set<string>, pod: string)
    requires pod in ifs && pod !in done
    ensures NewAmong(was, c, ifs, done + {pod})
         == NewAmong(was, c, ifs, done) + (if Has(was, c, ifs[pod].epicNodeAddress) then 0 else 1)
  {
    var pods := NewPods(was, c, ifs);
    if pod in pods {
      assert pods * (done + {pod}) == pods * done + {pod};
    } else {
      assert pods * (done + {pod}) == pods * done;
    }
  }

  lemma ConsumedStep(was: TunnelMap, clients: seq<string>, i: nat, ifs: Interfaces)
    requires i < |clients|
    ensures Consumed(was, clients[..i + 1], ifs) == Consumed(was, clients[..i], ifs) + |NewPods(was, clients[i], ifs)|
  {
    assert clients[..i + 1][..i] == clients[..i];
  }

  ghost function NewPairs(was: TunnelMap, clients: seq<string>, ifs: Interfaces): set<(string, string)> {
    set c, e | c in clients && e in Nodes(ifs) && !Has(was, c, e) :: (c, e)
  }

  ghost function Turns(was: TunnelMap, clients: seq<string>, ifs: Interfaces): set<(nat, string)> {
    set i: nat, pod | i < |clients| && pod in NewPods(was, clients[i], ifs) :: (i, pod)
  }

  lemma {:induction false} TurnsCount(was: TunnelMap, clients: seq<string>, ifs: Interfaces)
    ensures |Turns(was, clients, ifs)| == Consumed(was, clients, ifs)
  {
    hide NewPods;
    if clients == [] {
      assert Turns(was, clients, ifs) == {};
    } else {
      var n := |clients| - 1;
      var init, last := Turns(was, clients[..n], ifs), LastTurns(was, clients, ifs);
      TurnsCount(was, clients[..n], ifs);
      TurnsSnoc(was, clients, ifs);
      var turns := map pod | pod in NewPods(was, clients[n], ifs) :: (n, pod);
      ImageSize(turns);
      assert turns.Keys == NewPods(was, clients[n], ifs) && turns.Values == last;
      assert init !! last && Turns(was, clients, ifs) == init + last;
    }
  }

  ghost function LastTurns(was: TunnelMap, clients: seq<string>, ifs: Interfaces): set<(nat, string)>
    requires clients != []
  {
    var n := |clients| - 1;
    set pod | pod in NewPods(was, clients[n], ifs) :: (n, pod)
  }

  lemma TurnsSnoc(was: TunnelMap, clients: seq<string>, ifs: Interfaces)
    requires clients != []
    ensures Turns(was, clients, ifs) == Turns(was, clients[..|clients| - 1], ifs) + LastTurns(was, clients, ifs)
    ensures Turns(was, clients[..|clients| - 1], ifs) !! LastTurns(was, clients, ifs)
  {
    hide NewPods;
    var n := |clients| - 1;
    assert forall i :: 0 <= i < n ==> clients[..n][i] == clients[i];
    var init, last := Turns(was, clients[..n], ifs), LastTurns(was, clients, ifs);
    assert forall t :: t in Turns(was, clients, ifs) ==> t in init || t in last;
    assert forall t :: t in init ==> t in Turns(was, clients, ifs);
    assert forall t :: t in last ==> t in Turns(was, clients, ifs);
  }

  /** A map has as many values as keys iff it is injective, and never more. */
  lemma {:induction false} ImageSize<A, B>(m: map<A, B>)
    ensures |m.Values| <= |m|
    ensures |m.Values| == |m| <==> forall x, y :: x in m && y in m && m[x] == m[y] ==> x == y
    decreases |m|
  {
    if x :| x in m {
      var rest := m - {x};
      assert rest.Keys == m.Keys - {x};
      ImageSize(rest);
      assert forall y :: y in rest ==> rest[y] == m[y];
      assert m.Values == rest.Values + {m[x]};
      if y :| y in rest && m[y] == m[x] {
        assert rest[y] in rest.Values;
        assert m.Values == rest.Values;
      } else {
        assert m[x] !in rest.Values;
      }
    } else {
      assert m.Values == {};
    }
  }

  ghost function PairOf(clients: seq<string>, ifs: Interfaces, turn: (nat, string)): (string, string) {
    (if turn.0 < |clients| then clients[turn.0] else "", if turn.1 in ifs then ifs[turn.1].epicNodeAddress else "")
  }

  /** Two turns meet the same new pair: two endpoints on one node, or two pods on one EPIC node. */
  ghost predicate PairShared(was: TunnelMap, clients: seq<string>, ifs: Interfaces) {
    exists s, t :: s in Turns(was, clients, ifs) && t in Turns(was, clients, ifs) && s != t
                   && PairOf(clients, ifs, s) == PairOf(clients, ifs, t)
  }

  /** A rebuild never consumes fewer IDs than there are new pairs, and exactly as many if and only if no
    * two turns meet the same new pair: each such turn allocates, and the last ID stays. */
  lemma ConsumedExactly(was: TunnelMap, clients: seq<string>, ifs: Interfaces)
    ensures |NewPairs(was, clients, ifs)| <= Consumed(was, clients, ifs)
    ensures |NewPairs(was, clients, ifs)| == Consumed(was, clients, ifs) <==> !PairShared(was, clients, ifs)
  {
    var turns := Turns(was, clients, ifs);
    TurnsCount(was, clients, ifs);
    var pairs := map t | t in turns :: PairOf(clients, ifs, t);
    assert pairs.Keys == turns;
    forall p | p in NewPairs(was, clients, ifs)
      ensures p in pairs.Values
    {
      var t := TurnOf(was, clients, ifs, p);
      assert pairs[t] == p;
    }
    forall t | t in turns
      ensures pairs[t] in NewPairs(was, clients, ifs)
    {
      PairOfTurn(was, clients, ifs, t);
    }
    hide Turns, NewPairs, PairOf, Consumed;
    assert pairs.Values == NewPairs(was, clients, ifs);
    ImageSize(pairs);
  }

  lemma TurnOf(was: TunnelMap, clients: seq<string>, ifs: Interfaces, p: (string, string)) returns (t: (nat, string))
    requires p in NewPairs(was, clients, ifs)
    ensures t in Turns(was, clients, ifs) && PairOf(clients, ifs, t) == p
  {
    var i :| 0 <= i < |clients| && clients[i] == p.0;
    var pod :| pod in ifs && ifs[pod].epicNodeAddress == p.1;
    t := (i, pod);
    assert pod in NewPods(was, clients[i], ifs);
  }

  lemma PairOfTurn(was: TunnelMap, clients: seq<string>, ifs: Interfaces, t: (nat, string))
    requires t in Turns(was, clients, ifs)
    ensures PairOf(clients, ifs, t) in NewPairs(was, clients, ifs)
  {
    assert t.1 in NewPods(was, clients[t.0], ifs);
    assert clients[t.0] in clients && ifs[t.1].epicNodeAddress in Nodes(ifs);
  }

  lemma TurnOfSuccess(store: EpicStore, was: TunnelMap, clients: seq<string>, ifs: Interfaces, base: GUETunnelEndpoint,
                      m: TunnelMap, low: nat)
    requires Built(m, Elements(clients), ifs) && EntriesOk(was, base, m) && IdsOk(store, was, m, low)
    ensures Rebuilt(was, clients, ifs, base, m)
    ensures NoWrap(store.start, store.commits) ==>
              Turn(ProxyState(was, ifs, low), Rebuild(clients, base), ProxyState(m, ifs, store.counter))
  {}

  lemma TurnOfFailure(m: TunnelMap, clients: seq<string>, ifs: Interfaces, base: GUETunnelEndpoint,
                      start: nat, before: seq<Commit>, low: nat, commits: seq<Commit>, high: nat)
    requires Chain(start, before, low) && Chain(start, commits, high) && before <= commits
    ensures NoWrap(start, commits) ==> Turn(ProxyState(m, ifs, low), Rebuild(clients, base), ProxyState(m, ifs, high))
  {
    CounterGrows(start, before, low, commits, high);
  }

  /** The rebuild, once the configuration and the endpoints are known: `clients` are the client nodes of
    * the proxy's active endpoints, `base` the endpoint of the EPIC configuration, and `patched` says
    * whether the server takes the patch. False: an error, and the proxy is as it was. */
  method RebuildTunnels(proxy: GWProxy, clients: seq<string>, base: GUETunnelEndpoint,
                        store: EpicStore, steps: nat, patched: bool)
    returns (ok: bool)
    requires store.Valid() && steps > 0
    modifies proxy`tunnelMaps, store
    ensures store.Valid() && store.Later()
    ensures ok ==> Rebuilt(old(proxy.tunnelMaps), clients, proxy.proxyInterfaces, base, proxy.tunnelMaps)
    ensures !ok ==> proxy.tunnelMaps == old(proxy.tunnelMaps)
    ensures ok ==> patched
    ensures !ok && patched ==> |old(store.failures)| < |store.failures|
    ensures AllPresent(old(proxy.tunnelMaps), clients, proxy.proxyInterfaces) ==> store.Untouched()
    ensures ok ==> IdsOk(store, old(proxy.tunnelMaps), proxy.tunnelMaps, old(store.counter))
    ensures ok ==> Issued(store, old(proxy.tunnelMaps), proxy.tunnelMaps, |old(store.commits)|)
    ensures ok ==> |store.own| == |old(store.own)| + Consumed(old(proxy.tunnelMaps), clients, proxy.proxyInterfaces)
    ensures NoWrap(store.start, store.commits) ==>
              Turn(ProxyState(old(proxy.tunnelMaps), proxy.proxyInterfaces, old(store.counter)), Rebuild(clients, base),
                   ProxyState(proxy.tunnelMaps, proxy.proxyInterfaces, store.counter))
  {
    hide EntriesOk, IdsOk, Issued, Grown, Turn, NewPods, Built, Consumed;
    var was, ifs := proxy.tunnelMaps, proxy.proxyInterfaces;
    ghost var low, from := store.counter, |store.commits|;
    NothingIssued(store, was);
    NothingBuilt(store, was, base, ifs);
    var newMap: TunnelMap := map[];
    for i := 0 to |clients|
      invariant store.Valid() && store.Later() && EntriesOk(was, base, newMap)
      invariant proxy.tunnelMaps == was && |old(store.failures)| <= |store.failures|
      invariant AllPresent(was, clients, ifs) ==> store.Untouched()
      invariant Built(newMap, Elements(clients[..i]), ifs)
      invariant IdsOk(store, was, newMap, low) && Issued(store, was, newMap, from)
      invariant |store.own| == |old(store.own)| + Consumed(was, clients[..i], ifs)
    {
      var added := AddClient(was, clients[i], ifs, base, newMap, store, steps, low, from);
      assert clients[i] in clients;
      if added.None? {
        TurnOfFailure(was, clients, ifs, base, store.start, old(store.commits), low, store.commits, store.counter);
        return false;
      }
      ClientDone(newMap, added.value, Elements(clients[..i]), clients[i], ifs);
      ElementsStep(clients, i);
      ConsumedStep(was, clients, i, ifs);
      newMap := added.value;
    }
    assert clients[..|clients|] == clients;
    if patched {
      proxy.tunnelMaps := newMap;
      TurnOfSuccess(store, was, clients, ifs, base, newMap, low);
    } else {
      TurnOfFailure(was, clients, ifs, base, store.start, old(store.commits), low, store.commits, store.counter);
    }
    ok := patched;
  }

  /** None: the configuration or the endpoints could not be read. */
  method AllocateProxyTunnels(proxy: GWProxy, config: Option<GUETunnelEndpoint>, endpoints: Option<seq<string>>,
                              store: EpicStore, steps: nat, patched: bool)
    returns (ok: bool)
    requires store.Valid() && steps > 0
    modifies proxy`tunnelMaps, store
    ensures store.Valid() && store.Later()
    ensures config.None? || endpoints.None? ==> !ok && store.Untouched()
    ensures !ok ==> proxy.tunnelMaps == old(proxy.tunnelMaps)
    ensures !ok ==> config.None? || endpoints.None? || !patched || |old(store.failures)| < |store.failures|
    ensures ok ==> patched && Rebuilt(old(proxy.tunnelMaps), endpoints.value, proxy.proxyInterfaces, config.value, proxy.tunnelMaps)
    ensures ok ==> IdsOk(store, old(proxy.tunnelMaps), proxy.tunnelMaps, old(store.counter))
    ensures ok ==> Issued(store, old(proxy.tunnelMaps), proxy.tunnelMaps, |old(store.commits)|)
    ensures ok ==> |store.own| == |old(store.own)| + Consumed(old(proxy.tunnelMaps), endpoints.value, proxy.proxyInterfaces)
    ensures endpoints.Some? && AllPresent(old(proxy.tunnelMaps), endpoints.value, proxy.proxyInterfaces) ==> store.Untouched()
    ensures config.Some? && endpoints.Some? && NoWrap(store.start, store.commits) ==>
              Turn(ProxyState(old(proxy.tunnelMaps), proxy.proxyInterfaces, old(store.counter)),
                   Rebuild(endpoints.value, config.value),
                   ProxyState(proxy.tunnelMaps, proxy.proxyInterfaces, store.counter))
  {
    hide Rebuilt, IdsOk, Issued, Turn, AllPresent, Consumed;
    if config.None? {
      return false;
    }
    if endpoints.None? {
      return false;
    }
    ok := RebuildTunnels(proxy, endpoints.value, config.value, store, steps, patched);
  }

  /** Removes a pod that is gone, and its node's tunnels if no other pod runs there. */
  method RemoveProxyInfo(proxy: GWProxy, pod: string)
    modifies proxy
    ensures proxy.proxyInterfaces == old(proxy.proxyInterfaces) - {pod}
    ensures proxy.tunnelMaps == AfterRemoval(old(proxy.tunnelMaps), old(proxy.proxyInterfaces), pod)
    ensures forall counter: nat :: Turn(ProxyState(old(proxy.tunnelMaps), old(proxy.proxyInterfaces), counter), Remove(pod),
                                        ProxyState(proxy.tunnelMaps, proxy.proxyInterfaces, counter))
  {
    if pod !in proxy.proxyInterfaces {
      return;
    }
    var podInfo := proxy.proxyInterfaces[pod];
    proxy.proxyInterfaces := proxy.proxyInterfaces - {pod};
    var ifs := proxy.proxyInterfaces;

    var hasProxies := false;
    var rest := ifs.Keys;
    while rest != {}
      invariant rest <= ifs.Keys
      invariant hasProxies <==> exists p :: p in ifs.Keys - rest && ifs[p].epicNodeAddress == podInfo.epicNodeAddress
    {
      var p :| p in rest;
      if podInfo.epicNodeAddress == ifs[p].epicNodeAddress {
        hasProxies := true;
      }
      rest := rest - {p};
    }

    if !hasProxies {
      var m := proxy.tunnelMaps;
      var clients := m.Keys;
      while clients != {}
        invariant clients <= m.Keys && m.Keys == old(proxy.tunnelMaps).Keys
        invariant forall c :: c in m ==>
                    m[c] == if c in clients then old(proxy.tunnelMaps)[c]
                            else old(proxy.tunnelMaps)[c] - {podInfo.epicNodeAddress}
      {
        var c :| c in clients;
        m := m[c := m[c] - {podInfo.epicNodeAddress}];
        clients := clients - {c};
      }
      proxy.tunnelMaps := m;
      assert m == Without(old(proxy.tunnelMaps), podInfo.epicNodeAddress);
    }
  }

  // ----- whole runs -----

  /** The proxy, and the counter that the IDs come from. */
  datatype ProxyState = ProxyState(tunnels: TunnelMap, ifs: Interfaces, counter: nat)

  datatype Op =
    | Rebuild(clients: seq<string>, base: GUETunnelEndpoint)
    | Remove(pod: string)
    | Register(pod: string, info: ProxyInterfaceInfo)

  /** One operation, below the wrap; the counter may be moved by others at any time. */
  ghost predicate Turn(s: ProxyState, op: Op, s': ProxyState) {
    && s.counter <= s'.counter
    && match op
       case Rebuild(clients, base) =>
         && s'.ifs == s.ifs
         && (|| s'.tunnels == s.tunnels
             || (Rebuilt(s.tunnels, clients, s.ifs, base, s'.tunnels)
                 && FreshIds(s.tunnels, s'.tunnels, s.counter, s'.counter)))
       case Remove(pod) => s'.ifs == s.ifs - {pod} && s'.tunnels == AfterRemoval(s.tunnels, s.ifs, pod)
       case Register(pod, info) => pod !in s.ifs && s'.ifs == s.ifs[pod := info] && s'.tunnels == s.tunnels
  }

  ghost predicate TunnelInv(s: ProxyState) {
    Hosted(s.tunnels, s.ifs) && IdsDistinct(s.tunnels) && IdsBelow(s.tunnels, s.counter)
  }

  lemma TurnKeeps(s: ProxyState, op: Op, s': ProxyState)
    requires TunnelInv(s) && Turn(s, op, s')
    ensures TunnelInv(s')
  {
    match op
    case Rebuild(clients, base) =>
      if s'.tunnels != s.tunnels {
        RebuiltHosted(s.tunnels, clients, s.ifs, base, s'.tunnels);
        RebuiltIdsDistinct(s.tunnels, base, s'.tunnels, s.counter, s'.counter);
      }
    case Remove(pod) =>
      RemovalKeeps(s.tunnels, s.ifs, pod, s'.counter);
    case Register(pod, info) =>
      forall e | e in Nodes(s.ifs)
        ensures e in Nodes(s'.ifs)
      {
        var p :| p in s.ifs && s.ifs[p].epicNodeAddress == e;
        assert p in s'.ifs && s'.ifs[p] == s.ifs[p];
      }
  }

  /** Over every sequence of rebuilds, removals and registrations from an empty map: each EPIC node in
    * the map hosts a registered pod, and all IDs in the map are distinct. */
  lemma {:induction false} RunsKeepTunnels(trace: seq<ProxyState>, ops: seq<Op>, i: nat)
    requires |trace| == |ops| + 1 && forall k :: 0 <= k < |ops| ==> Turn(trace[k], ops[k], trace[k + 1])
    requires trace[0].tunnels == map[] && i < |trace|
    ensures TunnelInv(trace[i])
  {
    if i > 0 {
      RunsKeepTunnels(trace, ops, i - 1);
      TurnKeeps(trace[i - 1], ops[i - 1], trace[i]);
    }
  }
}
