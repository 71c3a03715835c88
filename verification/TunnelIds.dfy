/** Tunnel IDs: any number of clients run optimistic read-modify-write cycles on one counter
  * (api/v1/epic_types.go and controllers/remoteendpoint_controller.go). */
module TunnelIds {
  /** The counter is a `uint32`. */
  const WIDTH: nat := 0x1_0000_0000

  /** `AllocateTunnelID` returns the counter it read, `nextTunnelID` the counter it writes. */
  datatype Kind = ReturnsOld | ReturnsNew

  /** What the client writes back. `AllocateTunnelID` takes a zero counter for one. */
  function NewCounter(kind: Kind, counter: nat): nat {
    match kind
    case ReturnsOld => ((if counter == 0 then 1 else counter) + 1) % WIDTH
    case ReturnsNew => (counter + 1) % WIDTH
  }

  /** The ID that the call returns if the write succeeds. */
  function IdOf(kind: Kind, counter: nat): nat {
    match kind
    case ReturnsOld => if counter == 0 then 1 else counter
    case ReturnsNew => (counter + 1) % WIDTH
  }

  /** A committed write: who wrote, and the counter it had read. */
  datatype Commit = Commit(kind: Kind, read: nat)

  function CommitId(c: Commit): nat {
    IdOf(c.kind, c.read)
  }

  /** Each commit read what the one before it wrote. */
  ghost predicate Chain(start: nat, commits: seq<Commit>, counter: nat) {
    if commits == [] then counter == start
    else
      var last := commits[|commits| - 1];
      counter == NewCounter(last.kind, last.read) && Chain(start, commits[..|commits| - 1], last.read)
  }

  lemma {:induction false} ChainPrefix(start: nat, commits: seq<Commit>, counter: nat, k: nat)
    requires Chain(start, commits, counter) && k < |commits|
    ensures Chain(start, commits[..k], commits[k].read)
  {
    var init, last := commits[..|commits| - 1], commits[|commits| - 1];
    if k < |init| {
      ChainPrefix(start, init, last.read, k);
      assert init[..k] == commits[..k];
    }
  }

  // ----- the chain, below the wrap -----

  /** No commit has taken the counter past the top. */
  ghost predicate NoWrap(start: nat, commits: seq<Commit>) {
    start + |commits| + 1 < WIDTH
  }

  /** A commit moves the counter up by one, or from zero to two. */
  lemma {:induction false} ChainBounds(start: nat, commits: seq<Commit>, counter: nat)
    requires Chain(start, commits, counter) && NoWrap(start, commits)
    ensures start + |commits| <= counter <= start + |commits| + 1
    ensures counter == start + |commits| + 1 ==> commits != [] && start == 0 && commits[0].kind.ReturnsOld?
  {
    if commits != [] {
      ChainBounds(start, commits[..|commits| - 1], commits[|commits| - 1].read);
    }
  }

  function Stride(c: Commit): nat {
    if c.kind.ReturnsOld? && c.read == 0 then 2 else 1
  }

  /** Below the wrap the counter read by a later commit is ahead by the number of commits between. */
  lemma {:induction false} ReadsGrow(start: nat, commits: seq<Commit>, counter: nat, i: nat, j: nat)
    requires Chain(start, commits, counter) && NoWrap(start, commits) && i < j < |commits|
    ensures commits[j].read == commits[i].read + Stride(commits[i]) + (j - i - 1) < WIDTH - 1
  {
    ChainPrefix(start, commits, counter, j);
    ChainBounds(start, commits[..j], commits[j].read);
    assert commits[..j][j - 1] == commits[j - 1];
    assert commits[j].read == NewCounter(commits[j - 1].kind, commits[j - 1].read);
    if i < j - 1 {
      ReadsGrow(start, commits, counter, i, j - 1);
    } else {
      ChainPrefix(start, commits, counter, i);
      ChainBounds(start, commits[..i], commits[i].read);
    }
  }

  // ----- the chain, through the wrap -----

  lemma {:induction false} ChainInRange(start: nat, commits: seq<Commit>, counter: nat, k: nat)
    requires Chain(start, commits, counter) && start < WIDTH && k < |commits|
    ensures commits[k].read < WIDTH && counter < WIDTH
  {
    var init, last := commits[..|commits| - 1], commits[|commits| - 1];
    if init != [] {
      ChainInRange(start, init, last.read, if k < |init| then k else 0);
    }
  }

  /** How far ahead of `from` the counter is, at most once round. */
  function Lead(from: nat, counter: nat): int {
    if counter > from then counter - from else counter + WIDTH - from
  }

  /** `n` commits, `first` the first of them, have moved the counter on by `n`, or by one more if an
    * `AllocateTunnelID` read zero on the way. */
  ghost predicate MovedOn(first: Commit, n: nat, counter: nat) {
    var lead := Lead(first.read, counter);
    && first.read < WIDTH && counter < WIDTH && n <= lead <= n + 1
    && (lead == n + 1 ==> counter >= 2 && (first.read == 0 || counter <= first.read))
    && (first.kind.ReturnsOld? && first.read == 0 ==> counter >= 2)
  }

  /** The counter after a commit, without the modulus. */
  lemma Bumped(kind: Kind, counter: nat)
    requires counter < WIDTH
    ensures NewCounter(kind, counter)
         == if kind.ReturnsOld? && counter == 0 then 2 else if counter + 1 == WIDTH then 0 else counter + 1
    ensures IdOf(kind, counter)
         == if kind.ReturnsOld? then (if counter == 0 then 1 else counter)
            else if counter + 1 == WIDTH then 0 else counter + 1
  {}

  lemma MovesOn(first: Commit, n: nat, kind: Kind, counter: nat)
    requires n > 0 ==> MovedOn(first, n, counter)
    requires n == 0 ==> first.kind == kind && first.read == counter < WIDTH
    requires n < WIDTH - 3
    ensures MovedOn(first, n + 1, NewCounter(kind, counter))
  {
    Bumped(kind, counter);
    hide NewCounter;
  }

  lemma {:induction false} WindowReads(start: nat, commits: seq<Commit>, counter: nat, i: nat, j: nat)
    requires Chain(start, commits, counter) && start < WIDTH && i < j < |commits| && j - i < WIDTH - 2
    ensures MovedOn(commits[i], j - i, commits[j].read)
    ensures j == i + 1 ==> commits[j].read == NewCounter(commits[i].kind, commits[i].read)
  {
    hide MovedOn, NewCounter;
    ChainPrefix(start, commits, counter, j);
    ChainInRange(start, commits, counter, i);
    assert commits[..j][j - 1] == commits[j - 1];
    assert commits[j].read == NewCounter(commits[j - 1].kind, commits[j - 1].read);
    if i < j - 1 {
      WindowReads(start, commits, counter, i, j - 1);
    }
    MovesOn(commits[i], j - 1 - i, commits[j - 1].kind, commits[j - 1].read);
  }

  lemma SameIdApart(a: Commit, b: Commit, n: nat)
    requires MovedOn(a, n, b.read) && 0 < n < WIDTH - 2
    requires n == 1 ==> b.read == NewCounter(a.kind, a.read)
    ensures CommitId(a) == CommitId(b) <==> a.kind.ReturnsNew? && b.kind.ReturnsOld? && n == 1 && a.read != WIDTH - 1
  {
    Bumped(a.kind, a.read);
    Bumped(b.kind, b.read);
    hide NewCounter, IdOf;
  }

  /** Two commits less than 2^32 - 2 apart, wherever the counter stands, return the same ID exactly when
    * the second is an `AllocateTunnelID` that directly follows a `nextTunnelID`, unless that wrapped to
    * zero. */
  lemma SameIdExactly(start: nat, commits: seq<Commit>, counter: nat, i: nat, j: nat)
    requires Chain(start, commits, counter) && start < WIDTH && i < j < |commits| && j - i < WIDTH - 2
    ensures CommitId(commits[i]) == CommitId(commits[j])
       <==> && commits[i].kind.ReturnsNew? && commits[j].kind.ReturnsOld? && j == i + 1
            && commits[i].read != WIDTH - 1
  {
    WindowReads(start, commits, counter, i, j);
    SameIdApart(commits[i], commits[j], j - i);
  }

  // ----- one kind only, wrap included -----

  ghost predicate AllOf(kind: Kind, commits: seq<Commit>) {
    forall i :: 0 <= i < |commits| ==> commits[i].kind == kind
  }

  lemma ModStep(a: nat, m: nat)
    requires m == WIDTH || m == WIDTH - 1
    ensures (a + 1) % m == if a % m + 1 == m then 0 else a % m + 1
  {
    var q, r := a / m, a % m;
    assert a == q * m + r;
    if r + 1 == m {
      assert a + 1 == (q + 1) * m;
    } else {
      assert a + 1 == q * m + (r + 1);
    }
  }

  /** `nextTunnelID` alone counts through all of `uint32`, zero included. */
  lemma {:induction false} NewClosedForm(start: nat, commits: seq<Commit>, counter: nat)
    requires Chain(start, commits, counter) && AllOf(ReturnsNew, commits) && start < WIDTH
    ensures counter == (start + |commits|) % WIDTH
    ensures IdOf(ReturnsNew, counter) == (start + 1 + |commits|) % WIDTH
  {
    if commits != [] {
      NewClosedForm(start, commits[..|commits| - 1], commits[|commits| - 1].read);
    }
    ModStep(start + |commits|, WIDTH);
  }

  /** `AllocateTunnelID` alone skips zero: its counter goes round 1, ..., 2^32 - 1, with 0 for 2^32. */
  lemma {:induction false} OldClosedForm(start: nat, commits: seq<Commit>, counter: nat)
    requires Chain(start, commits, counter) && AllOf(ReturnsOld, commits) && start < WIDTH
    ensures IdOf(ReturnsOld, counter) == 1 + (IdOf(ReturnsOld, start) - 1 + |commits|) % (WIDTH - 1)
    ensures counter < WIDTH
  {
    if commits != [] {
      OldClosedForm(start, commits[..|commits| - 1], commits[|commits| - 1].read);
      ModStep(IdOf(ReturnsOld, start) - 1 + |commits| - 1, WIDTH - 1);
      NextOld(commits[|commits| - 1].read);
    }
  }

  lemma NextOld(read: nat)
    requires read < WIDTH
    ensures var id := IdOf(ReturnsOld, read);
            IdOf(ReturnsOld, NewCounter(ReturnsOld, read)) == if id == WIDTH - 1 then 1 else id + 1
    ensures NewCounter(ReturnsOld, read) < WIDTH
  {}

  lemma CongruentExactly(a: nat, i: nat, j: nat, m: nat)
    requires i <= j && (m == WIDTH || m == WIDTH - 1)
    ensures (a + i) % m == (a + j) % m <==> (j - i) % m == 0
  {
    var q, r := (a + i) / m, (a + i) % m;
    var q', r' := (a + j) / m, (a + j) % m;
    var d := (j - i) / m;
    assert j - i == (q' - q) * m + (r' - r);
  }

  function Cycle(kind: Kind): nat {
    match kind
    case ReturnsOld => WIDTH - 1
    case ReturnsNew => WIDTH
  }

  /** The k-th ID of one allocator is that many steps round its cycle. */
  lemma OneKindId(kind: Kind, start: nat, commits: seq<Commit>, counter: nat, k: nat)
    requires Chain(start, commits, counter) && AllOf(kind, commits) && start < WIDTH && k < |commits|
    ensures CommitId(commits[k]) == match kind
                                    case ReturnsOld => 1 + (IdOf(ReturnsOld, start) - 1 + k) % (WIDTH - 1)
                                    case ReturnsNew => (start + 1 + k) % WIDTH
  {
    ChainPrefix(start, commits, counter, k);
    if kind.ReturnsOld? {
      OldClosedForm(start, commits[..k], commits[k].read);
    } else {
      NewClosedForm(start, commits[..k], commits[k].read);
    }
  }

  /** Runs of one allocator reuse an ID after exactly a full cycle, never before: 2^32 commits of
    * `nextTunnelID`, 2^32 - 1 of `AllocateTunnelID`. */
  lemma OneKindCycle(kind: Kind, start: nat, commits: seq<Commit>, counter: nat, i: nat, j: nat)
    requires Chain(start, commits, counter) && AllOf(kind, commits) && start < WIDTH && i < j < |commits|
    ensures CommitId(commits[i]) == CommitId(commits[j]) <==> (j - i) % Cycle(kind) == 0
  {
    OneKindId(kind, start, commits, counter, i);
    OneKindId(kind, start, commits, counter, j);
    if kind.ReturnsOld? {
      CongruentExactly(IdOf(kind, start) - 1, i, j, WIDTH - 1);
    } else {
      CongruentExactly(start + 1, i, j, WIDTH);
    }
  }

  /** `AllocateTunnelID` never returns 0; `nextTunnelID` returns 0 exactly at the wrap. */
  lemma ZeroExactly(c: Commit)
    requires c.read < WIDTH
    ensures CommitId(c) == 0 <==> c.kind.ReturnsNew? && c.read == WIDTH - 1
  {}

  // ----- the protocol -----

  /** The EPIC object on the server; `commits` is its history. */
  datatype Server = Server(version: nat, counter: nat, commits: seq<Commit>)

  /** A client between two of its requests. `tries` counts the cycles it may still begin. */
  datatype Client =
    | Idle
    | Getting(kind: Kind, tries: nat)
    | Updating(kind: Kind, tries: nat, version: nat, counter: nat)

  /** A call that returned without error, and the commit it owes its ID to. */
  datatype Returned = Returned(kind: Kind, id: nat, commit: nat)

  datatype State = State(server: Server, clients: map<nat, Client>, successes: seq<Returned>)

  datatype Event =
    | Call(c: nat, kind: Kind, tries: nat)
    | GetSucceeds(c: nat, version: nat, counter: nat)
    | GetFails(c: nat)
    | UpdateCommits(c: nat)
    | UpdateCommitsReplyLost(c: nat, retried: bool)
    | UpdateConflicts(c: nat)
    | UpdateFails(c: nat)
    | OtherWrite

  /** After an error: `AllocateTunnelID` retries conflicts only, `allocateTunnelID` every error. */
  function AfterError(kind: Kind, tries: nat, conflict: bool): Client {
    if tries > 0 && (kind.ReturnsNew? || conflict) then Getting(kind, tries - 1) else Idle
  }

  /** An update carries the object that was read, so the server takes the counter the client
    * computed, if the version is still the one read. */
  function Written(server: Server, client: Client): Server
    requires client.Updating?
  {
    Server(server.version + 1, NewCounter(client.kind, client.counter),
           server.commits + [Commit(client.kind, client.counter)])
  }

  /** What a Get may return: the current object, or out of a cache anything with an older version. */
  predicate IsRead(server: Server, version: nat, counter: nat) {
    version < server.version || (version == server.version && counter == server.counter)
  }

  predicate Enabled(s: State, e: Event) {
    match e
    case Call(c, _, tries) => (c in s.clients ==> s.clients[c].Idle?)
    case GetSucceeds(c, version, counter) =>
      c in s.clients && s.clients[c].Getting? && IsRead(s.server, version, counter)
    case GetFails(c) => c in s.clients && s.clients[c].Getting?
    case UpdateCommits(c) => c in s.clients && s.clients[c].Updating? && s.clients[c].version == s.server.version
    case UpdateCommitsReplyLost(c, _) =>
      c in s.clients && s.clients[c].Updating? && s.clients[c].version == s.server.version
    case UpdateConflicts(c) => c in s.clients && s.clients[c].Updating? && s.clients[c].version != s.server.version
    case UpdateFails(c) => c in s.clients && s.clients[c].Updating?
    case OtherWrite => true
  }

  function Apply(s: State, e: Event): State
    requires Enabled(s, e)
  {
    match e
    case Call(c, kind, tries) => s.(clients := s.clients[c := Getting(kind, tries)])
    case GetSucceeds(c, version, counter) =>
      var cl := s.clients[c];
      s.(clients := s.clients[c := Updating(cl.kind, cl.tries, version, counter)])
    case GetFails(c) =>
      s.(clients := s.clients[c := AfterError(s.clients[c].kind, s.clients[c].tries, false)])
    case UpdateCommits(c) =>
      var cl := s.clients[c];
      State(Written(s.server, cl), s.clients[c := Idle],
            s.successes + [Returned(cl.kind, IdOf(cl.kind, cl.counter), |s.server.commits|)])
    case UpdateCommitsReplyLost(c, retried) =>
      var cl := s.clients[c];
      State(Written(s.server, cl), s.clients[c := AfterError(cl.kind, cl.tries, retried)], s.successes)
    case UpdateConflicts(c) =>
      s.(clients := s.clients[c := AfterError(s.clients[c].kind, s.clients[c].tries, true)])
    case UpdateFails(c) =>
      s.(clients := s.clients[c := AfterError(s.clients[c].kind, s.clients[c].tries, false)])
    case OtherWrite => s.(server := s.server.(version := s.server.version + 1))
  }

  ghost predicate Inv(start: nat, s: State) {
    && Chain(start, s.server.commits, s.server.counter)
    && (forall c :: c in s.clients ==> Fresh(s, s.clients[c]))
    && (forall i :: 0 <= i < |s.successes| ==> Owned(s, s.successes[i]))
    && (forall i, j :: 0 <= i < j < |s.successes| ==> s.successes[i].commit < s.successes[j].commit)
  }

  /** A client whose version is current holds the current counter. */
  ghost predicate Fresh(s: State, cl: Client) {
    cl.Updating? ==> cl.version <= s.server.version && (cl.version == s.server.version ==> cl.counter == s.server.counter)
  }

  ghost predicate Owned(s: State, r: Returned) {
    r.commit < |s.server.commits| && s.server.commits[r.commit].kind == r.kind
    && r.id == CommitId(s.server.commits[r.commit])
  }

  lemma StepKeepsFresh(s: State, e: Event)
    requires Enabled(s, e) && forall c :: c in s.clients ==> Fresh(s, s.clients[c])
    ensures forall c :: c in Apply(s, e).clients ==> Fresh(Apply(s, e), Apply(s, e).clients[c])
  {
    hide NewCounter, IdOf;
    var s' := Apply(s, e);
    forall c | c in s'.clients
      ensures Fresh(s', s'.clients[c])
    {
      if c in s.clients {
        assert Fresh(s, s.clients[c]);
      }
    }
  }

  lemma StepKeepsOwned(s: State, e: Event)
    requires Enabled(s, e) && forall i :: 0 <= i < |s.successes| ==> Owned(s, s.successes[i])
    ensures var s' := Apply(s, e);
            && s.server.commits <= s'.server.commits && s.successes <= s'.successes
            && forall i :: 0 <= i < |s'.successes| ==> Owned(s', s'.successes[i])
  {
    hide NewCounter, IdOf, AfterError;
    var s' := Apply(s, e);
    forall i | 0 <= i < |s'.successes|
      ensures Owned(s', s'.successes[i])
    {
      if i < |s.successes| {
        assert Owned(s, s.successes[i]);
      }
    }
  }

  lemma StepKeepsInv(start: nat, s: State, e: Event)
    requires Inv(start, s) && Enabled(s, e)
    ensures Inv(start, Apply(s, e))
  {
    hide NewCounter, IdOf, AfterError;
    var s' := Apply(s, e);
    StepKeepsFresh(s, e);
    StepKeepsOwned(s, e);
    if e.UpdateCommits? || e.UpdateCommitsReplyLost? {
      assert Fresh(s, s.clients[e.c]);
      assert s'.server.commits[..|s.server.commits|] == s.server.commits;
    }
    forall i, j | 0 <= i < j < |s'.successes|
      ensures s'.successes[i].commit < s'.successes[j].commit
    {
      assert Owned(s, s.successes[i]);
    }
  }

  ghost predicate Initial(start: nat, s: State) {
    s.server.commits == [] && s.server.counter == start < WIDTH && s.successes == []
    && forall c :: c in s.clients ==> s.clients[c].Idle?
  }

  /** Every interleaving: the states that the events lead to. */
  ghost predicate IsRun(s: State, events: seq<Event>, s': State)
    decreases |events|
  {
    if events == [] then s' == s
    else Enabled(s, events[0]) && IsRun(Apply(s, events[0]), events[1..], s')
  }

  lemma {:induction false} RunKeepsInv(start: nat, s: State, events: seq<Event>, s': State)
    requires Inv(start, s) && IsRun(s, events, s')
    ensures Inv(start, s')
    decreases |events|
  {
    if events != [] {
      StepKeepsInv(start, s, events[0]);
      RunKeepsInv(start, Apply(s, events[0]), events[1..], s');
    }
  }

  /** Uniqueness over every interleaving of any number of clients of both kinds, with stale reads,
    * conflicts, lost replies and failures: two successful calls less than 2^32 - 2 commits apart return
    * the same ID if and only if an `AllocateTunnelID` commit directly follows a `nextTunnelID` commit
    * that did not wrap to zero. */
  lemma SuccessfulIds(start: nat, s: State, events: seq<Event>, s': State, i: nat, j: nat)
    requires Initial(start, s) && IsRun(s, events, s')
    requires i < j < |s'.successes| && s'.successes[j].commit - s'.successes[i].commit < WIDTH - 2
    ensures var a, b := s'.successes[i], s'.successes[j];
            a.id == b.id <==> a.kind.ReturnsNew? && b.kind.ReturnsOld? && b.commit == a.commit + 1 && a.id != 0
  {
    RunKeepsInv(start, s, events, s');
    var a, b := s'.successes[i], s'.successes[j];
    assert Owned(s', a) && Owned(s', b);
    SameIdExactly(start, s'.server.commits, s'.server.counter, a.commit, b.commit);
    ChainInRange(start, s'.server.commits, s'.server.counter, a.commit);
    ZeroExactly(s'.server.commits[a.commit]);
  }

  /** So within one kind the IDs are pairwise distinct, whatever the other kind does. */
  lemma OneKindDistinct(start: nat, s: State, events: seq<Event>, s': State, i: nat, j: nat)
    requires Initial(start, s) && IsRun(s, events, s')
    requires i < j < |s'.successes| && s'.successes[j].commit - s'.successes[i].commit < WIDTH - 2
    requires s'.successes[i].kind == s'.successes[j].kind
    ensures s'.successes[i].id != s'.successes[j].id
  {
    SuccessfulIds(start, s, events, s', i, j);
  }

  /** Past the wrap, when only one kind is in use: the same ID exactly after a full cycle. */
  lemma OneKindForever(kind: Kind, start: nat, s: State, events: seq<Event>, s': State, i: nat, j: nat)
    requires Initial(start, s) && IsRun(s, events, s') && AllOf(kind, s'.server.commits)
    requires i < j < |s'.successes|
    ensures var a, b := s'.successes[i], s'.successes[j];
            a.id == b.id <==> (b.commit - a.commit) % Cycle(kind) == 0
  {
    RunKeepsInv(start, s, events, s');
    var a, b := s'.successes[i], s'.successes[j];
    assert Owned(s', a) && Owned(s', b);
    OneKindCycle(kind, start, s'.server.commits, s'.server.counter, a.commit, b.commit);
  }

  /** How many requests a call may still send. */
  function Budget(cl: Client): nat {
    match cl
    case Idle => 0
    case Getting(_, tries) => 2 * tries + 2
    case Updating(_, tries, _, _) => 2 * tries + 1
  }

  /** Every request of a call uses up budget, and nobody else touches it. */
  lemma RetriesBounded(s: State, e: Event, c: nat)
    requires Enabled(s, e) && c in s.clients && !e.Call?
    ensures c in Apply(s, e).clients
    ensures if !e.OtherWrite? && e.c == c then Budget(Apply(s, e).clients[c]) < Budget(s.clients[c])
            else Apply(s, e).clients[c] == s.clients[c]
  {}

  /** Who tries again: after an error a call goes on with a new Get exactly if it has tries left and is
    * `allocateTunnelID`, or met a conflict; a conflict is met exactly if the object has moved on. */
  lemma RetriesExactly(s: State, e: Event, version: nat, counter: nat)
    requires Enabled(s, e) && (e.GetFails? || e.UpdateFails? || e.UpdateConflicts?)
    requires IsRead(s.server, version, counter)
    ensures var cl := s.clients[e.c];
            Enabled(Apply(s, e), GetSucceeds(e.c, version, counter)) <==>
              cl.tries > 0 && (cl.kind.ReturnsNew? || (cl.Updating? && e.UpdateConflicts?))
    ensures e.UpdateConflicts? ==> !Enabled(s, UpdateCommits(e.c))
  {}

  function Left(s: State, c: nat): nat {
    if c in s.clients then Budget(s.clients[c]) else 0
  }

  /** How many requests a client has sent, and how many its calls entitled it to. */
  function Requests(events: seq<Event>, c: nat): nat {
    if events == [] then 0
    else (if !events[0].Call? && !events[0].OtherWrite? && events[0].c == c then 1 else 0) + Requests(events[1..], c)
  }

  function Allowance(events: seq<Event>, c: nat): nat {
    if events == [] then 0
    else (if events[0].Call? && events[0].c == c then 2 * events[0].tries + 2 else 0) + Allowance(events[1..], c)
  }

  /** Over every interleaving: a client sends at most two requests for each try of its calls. */
  lemma {:induction false} RequestsBounded(s: State, events: seq<Event>, s': State, c: nat)
    requires IsRun(s, events, s')
    ensures Requests(events, c) + Left(s', c) <= Left(s, c) + Allowance(events, c)
    decreases |events|
  {
    if events != [] {
      var e := events[0];
      if c in s.clients && !e.Call? {
        RetriesBounded(s, e, c);
      }
      RequestsBounded(Apply(s, e), events[1..], s', c);
    }
  }
}
