/** The two ID allocators as code: retry loops around Get and Update of the EPIC object, while other
  * clients write to it (api/v1/epic_types.go and controllers/remoteendpoint_controller.go). */
module TunnelStore {
  import opened Wrappers
  import opened TunnelIds

  /** A copy of the EPIC object, as read from the server. */
  datatype Epic = Epic(version: nat, counter: nat)

  datatype ApiError = Conflict | OtherError

  /** The server's object. `commits` is its history from the counter `start` on, `failures` the errors
    * that this client's requests have met, and `own` lists the commits that are its. */
  class EpicStore {
    var version: nat
    var counter: nat
    ghost const start: nat
    ghost var commits: seq<Commit>
    ghost var failures: seq<ApiError>
    ghost var own: seq<nat>

    constructor (counter: nat)
      requires counter < WIDTH
      ensures Valid() && start == counter && commits == [] && failures == [] && own == []
    {
      version, this.counter, start := 0, counter, counter;
      commits, failures, own := [], [], [];
    }

    ghost predicate Valid()
      reads this
    {
      counter < WIDTH && Chain(start, commits, counter)
    }

    /** Versions only grow, history is only appended to, and an unchanged version means an
      * unchanged object. */
    twostate predicate Later()
      reads this
    {
      && old(version) <= version
      && old(commits) <= commits && old(own) <= own
      && (version == old(version) ==> counter == old(counter) && commits == old(commits))
    }

    /** No request has been made and nobody has written. */
    twostate predicate Untouched()
      reads this
    {
      && version == old(version) && counter == old(counter) && commits == old(commits)
      && failures == old(failures) && own == old(own)
    }

    /** Any number of writes by other clients: ID allocations of both kinds, and writes that leave
      * the counter alone. */
    method Others()
      requires Valid()
      modifies `version, `counter, `commits
      ensures Valid() && Later()
    {
      var rounds: int := *;
      while rounds > 0
        invariant Valid() && Later()
      {
        var allocates: bool := *;
        var kind: Kind := *;
        if allocates {
          assert (commits + [Commit(kind, counter)])[..|commits|] == commits;
          commits := commits + [Commit(kind, counter)];
          counter := NewCounter(kind, counter);
        }
        version := version + 1;
        rounds := rounds - 1;
      }
    }

    /** Returns the current object, or out of a cache whatever it was at an older version. */
    method Get() returns (r: Result<Epic, ApiError>)
      requires Valid()
      modifies this
      ensures Valid() && Later()
      ensures r.Success? ==> r.value.counter < WIDTH && r.value.version <= version
      ensures r.Success? && r.value.version == version ==> r.value.counter == counter
      ensures r != Failure(Conflict) && failures == old(failures) + Met(r) && own == old(own)
    {
      Others();
      var reached: bool := *;
      var cached: Epic := *;
      var read := if cached.version < version && cached.counter < WIDTH then cached else Epic(version, counter);
      r := if reached then Success(read) else Failure(OtherError);
      failures := failures + Met(r);
    }

    method Accept(epic: Epic, ghost mine: Commit)
      requires Valid() && mine.read == counter && epic.counter == NewCounter(mine.kind, mine.read)
      modifies `version, `counter, `commits, `own
      ensures Valid() && version == old(version) + 1 && counter == epic.counter
      ensures commits == old(commits) + [mine] && own == old(own) + [|old(commits)|]
    {
      assert (commits + [mine])[..|commits|] == commits;
      own := own + [|commits|];
      commits := commits + [mine];
      counter := epic.counter;
      version := version + 1;
    }

    /** Takes the object if its version is still current, and only then. The reply may be lost after a
      * commit. */
    method Update(epic: Epic, ghost mine: Commit) returns (r: Result<(), ApiError>)
      requires Valid() && mine.read < WIDTH && epic.counter == NewCounter(mine.kind, mine.read)
      requires epic.version <= version && (epic.version == version ==> mine.read == counter)
      modifies this
      ensures Valid() && Later()
      ensures r.Success? ==> |commits| > |old(commits)| && commits[|commits| - 1] == mine && counter == epic.counter
      ensures || own == old(own)
              || (&& own == old(own) + [|old(commits)|] && old(version) == epic.version && version == epic.version + 1
                  && commits == old(commits) + [mine])
      ensures r.Success? ==> own != old(own)
      ensures r == Failure(Conflict) ==> epic.version < version && own == old(own)
      ensures failures == old(failures) + Met(r)
    {
      hide Chain, NewCounter;
      Others();
      var reached: bool := *;
      if !reached {
        failures := failures + [OtherError];
        return Failure(OtherError);
      }
      if epic.version != version {
        failures := failures + [Conflict];
        return Failure(Conflict);
      }
      Accept(epic, mine);
      var answered: bool := *;
      r := if answered then Success(()) else Failure(OtherError);
      failures := failures + Met(r);
    }
  }

  function Met<T>(r: Result<T, ApiError>): seq<ApiError> {
    if r.Failure? then [r.error] else []
  }

  function Conflicts(n: nat): (s: seq<ApiError>)
    ensures |s| == n
  {
    seq(n, _ => Conflict)
  }

  /** How a call may end that retries conflicts only: `n` conflicts, and then what decides it; all
    * `steps` attempts are used up before it reports a conflict. */
  ghost predicate RetriesConflicts<T>(before: seq<ApiError>, after: seq<ApiError>, steps: nat, r: Result<T, ApiError>) {
    exists n: nat :: RetriedConflicts(before, after, steps, r, n)
  }

  ghost predicate RetriedConflicts<T>(before: seq<ApiError>, after: seq<ApiError>, steps: nat,
                                      r: Result<T, ApiError>, n: nat) {
    if r == Failure(Conflict) then n == steps && after == before + Conflicts(n)
    else n < steps && after == before + Conflicts(n) + Met(r)
  }

  /** This client's last commit is of that kind, was made during the call, and has that ID. */
  twostate predicate Owns(store: EpicStore, kind: Kind, id: nat)
    reads store
  {
    && |old(store.own)| < |store.own|
    && var k := store.own[|store.own| - 1];
       && |old(store.commits)| <= k < |store.commits|
       && store.commits[k].kind == kind && id == CommitId(store.commits[k])
  }

  /** `RetryOnConflict` runs its closure up to `steps` times and gives up on any other error. */
  method AllocateTunnelID(store: EpicStore, steps: nat) returns (r: Result<nat, ApiError>)
    requires store.Valid() && steps > 0
    modifies store
    ensures store.Valid() && store.Later()
    ensures RetriesConflicts(old(store.failures), store.failures, steps, r)
    ensures r.Success? ==> r.value != 0 && Owns(store, ReturnsOld, r.value)
    ensures r.Success? && NoWrap(store.start, store.commits) ==> old(store.counter) <= r.value < store.counter
    ensures |old(store.own)| <= |store.own| <= |old(store.own)| + 1
    ensures r.Success? ==> |store.own| == |old(store.own)| + 1
  {
    for attempt := 0 to steps
      invariant store.Valid() && store.Later()
      invariant store.failures == old(store.failures) + Conflicts(attempt) && store.own == old(store.own)
    {
      var got := store.Get();
      if got.Failure? {
        assert RetriedConflicts(old(store.failures), store.failures, steps, Result<nat, ApiError>.Failure(got.error), attempt);
        return Failure(got.error);
      }
      var epic := got.value;
      ghost var mine := Commit(ReturnsOld, epic.counter);
      if epic.counter == 0 {
        epic := epic.(counter := 1);
      }
      var tunnelID := epic.counter;
      epic := epic.(counter := (epic.counter + 1) % WIDTH);
      var updated := store.Update(epic, mine);
      if updated.Success? {
        FreshId(store.start, old(store.commits), old(store.counter), store.commits, store.counter, |store.commits| - 1);
        assert RetriedConflicts(old(store.failures), store.failures, steps, Result<nat, ApiError>.Success(tunnelID), attempt);
        return Success(tunnelID);
      }
      if updated.error != Conflict {
        assert RetriedConflicts(old(store.failures), store.failures, steps, Result<nat, ApiError>.Failure(updated.error), attempt);
        return Failure(updated.error);
      }
      assert Conflicts(attempt + 1) == Conflicts(attempt) + [Conflict];
    }
    assert RetriedConflicts(old(store.failures), store.failures, steps, Result<nat, ApiError>.Failure(Conflict), steps);
    r := Failure(Conflict);
  }

  /** One read-modify-write cycle, without retry. */
  method NextTunnelID(store: EpicStore) returns (r: Result<nat, ApiError>)
    requires store.Valid()
    modifies store
    ensures store.Valid() && store.Later()
    ensures store.failures == old(store.failures) + Met(r)
    ensures |old(store.own)| <= |store.own| <= |old(store.own)| + 1
    ensures r.Success? ==> |store.own| == |old(store.own)| + 1 && Owns(store, ReturnsNew, r.value)
  {
    var got := store.Get();
    if got.Failure? {
      return Failure(got.error);
    }
    var epic := got.value;
    ghost var mine := Commit(ReturnsNew, epic.counter);
    epic := epic.(counter := (epic.counter + 1) % WIDTH);
    var updated := store.Update(epic, mine);
    if updated.Failure? {
      return Failure(updated.error);
    }
    r := Success(epic.counter);
  }

  /** The other allocator, `allocateTunnelID`: up to three cycles, whatever the error. */
  method AllocateTunnelIDInThreeTries(store: EpicStore) returns (r: Result<nat, ApiError>)
    requires store.Valid()
    modifies store
    ensures store.Valid() && store.Later()
    ensures old(store.failures) <= store.failures
    ensures var n := |store.failures| - |old(store.failures)|;
            && (if r.Success? then n < 3 else n == 3 && r.error == store.failures[|store.failures| - 1])
            && (if r.Success? then 1 else 0) <= |store.own| - |old(store.own)| <= n + (if r.Success? then 1 else 0)
    ensures r.Success? ==> Owns(store, ReturnsNew, r.value)
  {
    var tries := 3;
    r := Failure(OtherError);
    while r.Failure? && tries > 0
      invariant store.Valid() && store.Later() && 0 <= tries <= 3
      invariant old(store.failures) <= store.failures
      invariant |store.failures| - |old(store.failures)| == if r.Success? then 3 - tries - 1 else 3 - tries
      invariant (if r.Success? then 1 else 0) <= |store.own| - |old(store.own)| <= 3 - tries
      invariant r.Failure? && tries < 3 ==> r.error == store.failures[|store.failures| - 1]
      invariant r.Success? ==> Owns(store, ReturnsNew, r.value)
      decreases tries
    {
      r := NextTunnelID(store);
      tries := tries - 1;
    }
  }

  /** Below the wrap the counter is ahead of every commit. */
  lemma {:induction false} CounterAhead(start: nat, commits: seq<Commit>, counter: nat, k: nat)
    requires Chain(start, commits, counter) && NoWrap(start, commits) && k < |commits|
    ensures counter == commits[k].read + Stride(commits[k]) + (|commits| - k - 1)
  {
    var last := |commits| - 1;
    ChainPrefix(start, commits, counter, last);
    ChainBounds(start, commits[..last], commits[last].read);
    if k < last {
      ReadsGrow(start, commits, counter, k, last);
    }
  }

  /** An ID from a later commit is at least the counter before and below the counter after. */
  lemma FreshId(start: nat, before: seq<Commit>, low: nat, commits: seq<Commit>, high: nat, k: nat)
    requires Chain(start, before, low) && Chain(start, commits, high)
    requires before <= commits && |before| <= k < |commits| && commits[k].kind.ReturnsOld?
    ensures NoWrap(start, commits) ==> low <= CommitId(commits[k]) < high
  {
    if NoWrap(start, commits) {
      CounterAhead(start, commits, high, k);
      ChainPrefix(start, commits, high, |before|);
      assert commits[..|before|] == before;
      if |before| < k {
        ReadsGrow(start, commits, high, |before|, k);
      }
    }
  }

  /** Below the wrap the counter never goes back. */
  lemma CounterGrows(start: nat, before: seq<Commit>, low: nat, commits: seq<Commit>, high: nat)
    requires Chain(start, before, low) && Chain(start, commits, high) && before <= commits
    ensures NoWrap(start, commits) ==> low <= high
  {
    if NoWrap(start, commits) && |before| < |commits| {
      CounterAhead(start, commits, high, |before|);
      ChainPrefix(start, commits, high, |before|);
      assert commits[..|before|] == before;
      SameEnd(start, before, low, commits[|before|].read);
    } else if NoWrap(start, commits) {
      assert before == commits;
      SameEnd(start, before, low, high);
    }
  }

  lemma SameEnd(start: nat, commits: seq<Commit>, a: nat, b: nat)
    requires Chain(start, commits, a) && Chain(start, commits, b)
    ensures a == b
  {}
}
