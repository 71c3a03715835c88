/** Which orders can come out of the sort of route rules, and exactly when the comparison
  * (internal/envoy/resource.go) keeps its promises whatever order the rules come in. */
module SortOrders {
  import opened Wrappers
  import Strings
  import opened Routes
  import opened Combine
  import opened SortRules

  // ----- what can come out ahead of what -----

  /** Each rule but the first is not less than the one before it. */
  ghost predicate Blocked(c: seq<Rule>) {
    IsSplit(c) && forall i :: 0 < i < |c| ==> !Less(c[i], c[i - 1])
  }

  /** `x` heads a chain of rules that block each other down to `y`, or is less than its head; chain and
    * `x` are taken from `rules`. */
  ghost predicate Leads(rules: seq<Rule>, x: Rule, c: seq<Rule>, y: Rule) {
    && c != [] && Blocked(c) && c[|c| - 1] == y && |x.matches| == 1
    && (|| (c[0] == x && |c| > 1 && multiset(c) <= multiset(rules))
        || (Less(x, c[0]) && multiset(c) + multiset{x} <= multiset(rules)))
  }

  ghost predicate LeadsTo(rules: seq<Rule>, x: Rule, y: Rule) {
    exists c :: Leads(rules, x, c, y)
  }

  lemma LeadsFurther(rules: seq<Rule>, x: Rule, y: Rule, z: Rule)
    requires LeadsTo(rules, x, y) && |z.matches| == 1 && !Less(z, y)
    ensures LeadsTo(rules + [z], x, z)
  {
    hide Less;
    var c :| Leads(rules, x, c, y);
    var d := c + [z];
    forall i | 0 < i < |d|
      ensures !Less(d[i], d[i - 1])
    {
      assert i < |c| ==> d[i] == c[i];
    }
    assert Leads(rules + [z], x, d, z);
  }

  lemma LeadsStill(rules: seq<Rule>, x: Rule, y: Rule, z: Rule)
    requires LeadsTo(rules, x, y)
    ensures LeadsTo(rules + [z], x, y)
  {
    var c :| Leads(rules, x, c, y);
    assert Leads(rules + [z], x, c, y);
  }

  lemma JumperLeads(init: seq<Rule>, last: Rule, y: Rule)
    requires |last.matches| == 1 && |y.matches| == 1 && Less(last, y) && y in multiset(init)
    ensures LeadsTo(init + [last], last, y)
  {
    assert Leads(init + [last], last, [y], y);
  }

  lemma BlockerLeads(init: seq<Rule>, x: Rule, last: Rule)
    requires |last.matches| == 1 && |x.matches| == 1 && !Less(last, x) && x in multiset(init)
    ensures LeadsTo(init + [last], x, last)
  {
    assert Leads(init + [last], x, [x, last], last);
  }

  lemma InsertLeads(init: seq<Rule>, s: seq<Rule>, x: Rule, i: nat, j: nat)
    requires IsSplit(s) && |x.matches| == 1 && i < j <= |s|
    requires forall n :: 0 <= n < |s| ==> s[n] in multiset(init)
    requires forall a, b :: 0 <= a < b < |s| ==> LeadsTo(init, s[a], s[b])
    ensures LeadsTo(init + [x], Insert(s, x)[i], Insert(s, x)[j])
  {
    hide Less, LeadsTo;
    var k := InsertPos(s, x);
    PlacedAt(s, x, k, i);
    PlacedAt(s, x, k, j);
    if i == k {
      JumperLeads(init, x, s[j - 1]);
    } else if j == k {
      if i == k - 1 {
        BlockerLeads(init, s[i], x);
      } else {
        LeadsFurther(init, s[i], s[k - 1], x);
      }
    } else {
      LeadsStill(init, s[if i < k then i else i - 1], s[if j < k then j else j - 1], x);
    }
  }

  lemma PlacedAt(s: seq<Rule>, x: Rule, k: nat, n: nat)
    requires k <= |s| && n <= |s|
    ensures |Placed(s, x, k)| == |s| + 1
    ensures Placed(s, x, k)[n] == if n < k then s[n] else if n == k then x else s[n - 1]
  {}

  /** Whatever stands ahead in the result leads to what stands behind. */
  lemma {:induction false} SortedLeads(rules: seq<Rule>)
    requires IsSplit(rules)
    ensures forall i, j :: 0 <= i < j < |rules| ==> LeadsTo(rules, Sorted(rules)[i], Sorted(rules)[j])
  {
    if rules != [] {
      var init, last := rules[..|rules| - 1], rules[|rules| - 1];
      assert rules == init + [last];
      SplitPart(rules, |init|);
      SortedLeads(init);
      InitMembers(init);
      hide LeadsTo, Insert;
      forall i, j | 0 <= i < j < |rules|
        ensures LeadsTo(rules, Sorted(rules)[i], Sorted(rules)[j])
      {
        InsertLeads(init, Sorted(init), last, i, j);
      }
    }
  }

  lemma InitMembers(init: seq<Rule>)
    requires IsSplit(init)
    ensures forall n :: 0 <= n < |Sorted(init)| ==> Sorted(init)[n] in multiset(init)
  {
    SortedPermutes(init);
    assert forall n :: 0 <= n < |Sorted(init)| ==> Sorted(init)[n] in multiset(Sorted(init));
  }

  lemma {:induction false} BlockedStays(c: seq<Rule>)
    requires Blocked(c)
    ensures Sorted(c) == c
  {
    if c != [] {
      var init, last := c[..|c| - 1], c[|c| - 1];
      assert c == init + [last];
      SplitPart(c, |init|);
      BlockedStays(init);
      if init == [] {
        SortedPair(last, last);
        assert c == [last];
      } else {
        InsertLast(init, last);
      }
    }
  }

  /** `x` jumps ahead of the head, and the rest stays blocked behind. */
  lemma {:induction false} JumpStays(x: Rule, c: seq<Rule>)
    requires c != [] && Blocked(c) && |x.matches| == 1 && Less(x, c[0])
    ensures IsSplit([c[0], x] + c[1..])
    ensures Sorted([c[0], x] + c[1..]) == [x] + c
  {
    hide Less;
    if |c| == 1 {
      SortedPair(c[0], x);
      assert [c[0], x] + c[1..] == [c[0], x] && [x] + c == [x, c[0]];
    } else {
      var init, last := c[..|c| - 1], c[|c| - 1];
      SplitPart(c, |init|);
      JumpStays(x, init);
      assert [c[0], x] + c[1..] == ([c[0], x] + init[1..]) + [last];
      SortedSnoc([c[0], x] + init[1..], last);
      assert ([x] + init)[|init|] == c[|c| - 2];
      InsertLast([x] + init, last);
      assert [x] + c == ([x] + init) + [last];
    }
  }

  lemma {:induction false} Complete(rules: seq<Rule>, front: seq<Rule>) returns (rest: seq<Rule>)
    requires multiset(front) <= multiset(rules)
    ensures Permutes(front + rest, rules)
  {
    if front == [] {
      rest := rules;
      assert front + rest == rules;
    } else {
      var init, last := front[..|front| - 1], front[|front| - 1];
      assert front == init + [last];
      var more := Complete(rules, init);
      assert multiset(init + more) == multiset(init) + multiset(more);
      assert multiset(front)[last] == multiset(init)[last] + 1;
      assert multiset(rules)[last] == multiset(init + more)[last];
      assert last in multiset(more);
      rest := Extract(more, last);
      assert front + rest == init + ([last] + rest);
    }
  }

  lemma FrontOut(rules: seq<Rule>, front: seq<Rule>, x: Rule, y: Rule) returns (perm: seq<Rule>)
    requires IsSplit(rules) && IsSplit(front) && multiset(front) <= multiset(rules)
    requires InOrder(Sorted(front), x, y)
    ensures Permutes(perm, rules) && IsSplit(perm) && InOrder(Sorted(perm), x, y)
  {
    var rest := Complete(rules, front);
    perm := front + rest;
    PermutesSplit(perm, rules);
    SortedKeepsOrder(front, rest, x, y);
  }

  lemma ChainOut(rules: seq<Rule>, c: seq<Rule>) returns (perm: seq<Rule>)
    requires IsSplit(rules) && Blocked(c) && |c| > 1 && multiset(c) <= multiset(rules)
    ensures Permutes(perm, rules) && IsSplit(perm) && InOrder(Sorted(perm), c[0], c[|c| - 1])
  {
    hide Less, Sorted;
    BlockedStays(c);
    assert Sorted(c)[0] == c[0] && Sorted(c)[|c| - 1] == c[|c| - 1];
    perm := FrontOut(rules, c, c[0], c[|c| - 1]);
  }

  lemma JumpOut(rules: seq<Rule>, x: Rule, c: seq<Rule>) returns (perm: seq<Rule>)
    requires IsSplit(rules) && Blocked(c) && c != [] && |x.matches| == 1 && Less(x, c[0])
    requires multiset(c) + multiset{x} <= multiset(rules)
    ensures Permutes(perm, rules) && IsSplit(perm) && InOrder(Sorted(perm), x, c[|c| - 1])
  {
    hide Less, Sorted;
    var front := [c[0], x] + c[1..];
    JumpStays(x, c);
    assert c == [c[0]] + c[1..];
    assert multiset(front) == multiset(c) + multiset{x};
    assert Sorted(front)[0] == x && Sorted(front)[|c|] == c[|c| - 1];
    perm := FrontOut(rules, front, x, c[|c| - 1]);
  }

  lemma LeadsOut(rules: seq<Rule>, x: Rule, y: Rule) returns (perm: seq<Rule>)
    requires IsSplit(rules) && LeadsTo(rules, x, y)
    ensures Permutes(perm, rules) && IsSplit(perm) && InOrder(Sorted(perm), x, y)
  {
    hide Less, Sorted, InOrder;
    var c :| Leads(rules, x, c, y);
    if c[0] == x && |c| > 1 && multiset(c) <= multiset(rules) {
      perm := ChainOut(rules, c);
    } else {
      perm := JumpOut(rules, x, c);
    }
  }

  /** Exactly what the sort can do: some input order puts `x` ahead of `y` if and only if `x` leads
    * to `y`. */
  lemma PrecedesExactly(rules: seq<Rule>, x: Rule, y: Rule)
    requires IsSplit(rules)
    ensures (exists perm :: Permutes(perm, rules) && IsSplit(perm) && InOrder(Sorted(perm), x, y))
       <==> LeadsTo(rules, x, y)
  {
    hide LeadsTo;
    if perm :| Permutes(perm, rules) && IsSplit(perm) && InOrder(Sorted(perm), x, y) {
      SortedLeads(perm);
      LeadsInAnyOrder(perm, rules, x, y);
    }
    if LeadsTo(rules, x, y) {
      var perm := LeadsOut(rules, x, y);
    }
  }

  lemma LeadsInAnyOrder(perm: seq<Rule>, rules: seq<Rule>, x: Rule, y: Rule)
    requires Permutes(perm, rules) && LeadsTo(perm, x, y)
    ensures LeadsTo(rules, x, y)
  {
    var c :| Leads(perm, x, c, y);
    assert Leads(rules, x, c, y);
  }

  /** No rule stands behind one that it is to precede. */
  ghost predicate Keeps(s: seq<Rule>, promise: (Rule, Rule) -> bool) {
    forall i, j :: 0 <= i < j < |s| ==> !promise(s[j], s[i])
  }

  /** Any promise that certain rules precede others holds for every input order, if and only if no rule
    * leads to one that is to precede it. */
  lemma PromiseExactly(rules: seq<Rule>, promise: (Rule, Rule) -> bool)
    requires IsSplit(rules)
    ensures (forall perm :: Permutes(perm, rules) && IsSplit(perm) ==> Keeps(Sorted(perm), promise))
       <==> !(exists x, y :: promise(y, x) && LeadsTo(rules, x, y))
  {
    hide LeadsTo;
    if x, y :| promise(y, x) && LeadsTo(rules, x, y) {
      var perm := LeadsOut(rules, x, y);
      assert !Keeps(Sorted(perm), promise);
    } else {
      forall perm | Permutes(perm, rules) && IsSplit(perm)
        ensures Keeps(Sorted(perm), promise)
      {
        SortedLeads(perm);
        forall i, j | 0 <= i < j < |perm|
          ensures !promise(Sorted(perm)[j], Sorted(perm)[i])
        {
          LeadsInAnyOrder(perm, rules, Sorted(perm)[i], Sorted(perm)[j]);
        }
      }
    }
  }

  lemma {:induction false} FirstAccepting(s: seq<Rule>, req: Request) returns (i: nat)
    requires FirstMatch(s, req).Some?
    ensures i < |s| && s[i] == FirstMatch(s, req).value
    ensures forall n :: 0 <= n < i ==> !Accepts(s[n], req)
  {
    if Accepts(s[0], req) {
      i := 0;
    } else {
      var k := FirstAccepting(s[1..], req);
      i := k + 1;
      assert forall n :: 0 < n < i ==> s[n] == s[1..][n - 1];
    }
  }

  /** What a kept promise means for requests: whoever accepts one, no rule that it is to precede is
    * selected instead. */
  lemma PromiseAnswers(rules: seq<Rule>, promise: (Rule, Rule) -> bool, req: Request, y: Rule)
    requires IsSplit(rules) && y in rules && Accepts(y, req) && !promise(y, y)
    requires forall x :: promise(y, x) ==> !LeadsTo(rules, x, y)
    ensures var sel := FirstMatch(Sorted(rules), req); sel.Some? && !promise(y, sel.value)
  {
    hide LeadsTo;
    SortedMembers(rules);
    SortedLeads(rules);
    var s := Sorted(rules);
    assert Routable(s, req);
    var i := FirstAccepting(s, req);
    var j :| 0 <= j < |s| && s[j] == y;
    assert i <= j;
  }

  // ----- promises by rank -----

  ghost predicate AllFollow(rules: seq<Rule>, rank: Rule -> int) {
    forall x, y :: x in rules && y in rules ==> |x.matches| == 1 && |y.matches| == 1 && Follows(x, y, rank)
  }

  /** Every input order comes out by descending rank if and only if the comparison follows the rank. */
  lemma RankExactly(rules: seq<Rule>, rank: Rule -> int)
    requires IsSplit(rules)
    ensures (forall perm :: Permutes(perm, rules) && IsSplit(perm) ==> Descending(Sorted(perm), rank))
       <==> AllFollow(rules, rank)
    ensures forall r :: r in rules ==> |r.matches| == 1
  {
    if AllFollow(rules, rank) {
      forall perm | Permutes(perm, rules) && IsSplit(perm)
        ensures Descending(Sorted(perm), rank)
      {
        PermutesSplit(perm, rules);
        assert forall i :: 0 <= i < |perm| ==> perm[i] in rules;
        SortedDescends(perm, rank);
      }
    } else {
      var x, y :| x in rules && y in rules && !Follows(x, y, rank);
      var perm := RankBroken(rules, x, y, rank);
    }
  }

  lemma FollowInPairs(rules: seq<Rule>, rank: Rule -> int, breaks: (Rule, Rule) -> bool)
    requires forall x, y :: x in rules && y in rules ==> |x.matches| == 1 && |y.matches| == 1
    requires forall x, y :: x in rules && y in rules ==>
               (Follows(x, y, rank) && Follows(y, x, rank) <==> !breaks(x, y) && !breaks(y, x))
    ensures AllFollow(rules, rank) <==> !(exists x, y :: x in rules && y in rules && breaks(x, y))
  {
    hide Follows;
    if x, y :| x in rules && y in rules && breaks(x, y) {
      assert !(Follows(x, y, rank) && Follows(y, x, rank));
    }
  }

  lemma RankBroken(rules: seq<Rule>, x: Rule, y: Rule, rank: Rule -> int) returns (perm: seq<Rule>)
    requires IsSplit(rules) && x in rules && y in rules && |x.matches| == 1 && |y.matches| == 1
    requires !Follows(x, y, rank)
    ensures Permutes(perm, rules) && IsSplit(perm) && !Descending(Sorted(perm), rank)
  {
    hide Less, Sorted;
    var rest := ExtractTwo(rules, y, x);
    perm := [y, x] + rest;
    PermutesSplit(perm, rules);
    SortedPair(y, x);
    var a, b := if Less(x, y) then x else y, if Less(x, y) then y else x;
    assert Sorted([y, x])[0] == a && Sorted([y, x])[1] == b;
    assert rank(a) < rank(b);
    SortedKeepsOrder([y, x], rest, a, b);
    OutOfRank(Sorted(perm), a, b, rank);
  }

  lemma OutOfRank(s: seq<Rule>, a: Rule, b: Rule, rank: Rule -> int)
    requires InOrder(s, a, b) && rank(a) < rank(b)
    ensures !Descending(s, rank)
  {}

  // ----- exact paths first -----

  function HeaderCount(rule: Rule): nat {
    if |rule.matches| == 1 then |rule.matches[0].headers| else 0
  }

  function QueryCount(rule: Rule): nat {
    if |rule.matches| == 1 then |rule.matches[0].queryParams| else 0
  }

  /** More headers, or unless both have headers more parameters. */
  predicate More(x: Rule, y: Rule) {
    if HeaderCount(x) > 0 && HeaderCount(y) > 0 then HeaderCount(x) > HeaderCount(y)
    else QueryCount(y) > 0 && QueryCount(x) > QueryCount(y)
  }

  predicate ExactRule(rule: Rule) {
    |rule.matches| == 1 && HasPath(rule.matches[0], Exact)
  }

  function ExactRank(rule: Rule): int {
    if ExactRule(rule) then 1 else 0
  }

  predicate WithPath(rule: Rule) {
    |rule.matches| == 1 && rule.matches[0].path.Some?
  }

  /** `r` has no exact path and yet can come out ahead of the exact `e`: by more headers or parameters,
    * or because it has a path, when the comparison looks at headers and parameters only. */
  predicate Displaces(r: Rule, e: Rule) {
    ExactRule(e) && !ExactRule(r) && (More(r, e) || (WithPath(r) && !IsCatchall(r) && !More(e, r)))
  }

  lemma DisplacesIsNotFollowing(x: Rule, y: Rule)
    requires |x.matches| == 1 && |y.matches| == 1
    ensures Follows(x, y, ExactRank) && Follows(y, x, ExactRank) <==> !Displaces(x, y) && !Displaces(y, x)
  {
    if ExactRule(x) && !ExactRule(y) {
      LessByExact(x, y);
    } else if ExactRule(y) && !ExactRule(x) {
      LessByExact(y, x);
    }
  }

  lemma LessByExact(e: Rule, r: Rule)
    requires ExactRule(e) && !ExactRule(r) && |r.matches| == 1
    ensures Less(r, e) <==> More(r, e)
    ensures Less(e, r) <==> !WithPath(r) || IsCatchall(r) || More(e, r)
  {}

  /** For all single-match rules: every input order puts exact paths first if and only if nothing
    * displaces an exact path. */
  lemma ExactFirstExactly(rules: seq<Rule>)
    requires IsSplit(rules)
    ensures (forall perm :: Permutes(perm, rules) && IsSplit(perm) ==> Descending(Sorted(perm), ExactRank))
       <==> !(exists r, e :: r in rules && e in rules && Displaces(r, e))
  {
    hide Displaces, AllFollow, Follows, ExactRank, Descending;
    RankExactly(rules, ExactRank);
    forall x, y | x in rules && y in rules
      ensures Follows(x, y, ExactRank) && Follows(y, x, ExactRank) <==> !Displaces(x, y) && !Displaces(y, x)
    {
      DisplacesIsNotFollowing(x, y);
    }
    FollowInPairs(rules, ExactRank, Displaces);
  }

  /** Then an exact path that accepts a request is answered by an exact path. */
  lemma ExactPathWins(rules: seq<Rule>, req: Request, e: Rule)
    requires IsSplit(rules) && forall r, x :: r in rules && x in rules ==> !Displaces(r, x)
    requires e in rules && ExactRule(e) && Accepts(e, req)
    ensures FirstMatch(Sorted(rules), req).Some? && ExactRule(FirstMatch(Sorted(rules), req).value)
  {
    ExactFirstExactly(rules);
    assert Permutes(rules, rules);
    SortedMembers(rules);
    DescendingFirst(Sorted(rules), ExactRank, req, e);
  }

  const PREFIX_A := Rule([Match(Some(PathMatch(PathPrefix, "/a")), [], [], None)], [], [])
  const EXACT_AB := Rule([Match(Some(PathMatch(Exact, "/a/b")), [], [], None)], [], [])
  const ONE_METHOD := Rule([Match(None, [], [], Some("GET"))], [], [])

  // ----- the comparison as a list of reasons, for any number of criteria -----

  predicate WithMethod(rule: Rule) {
    |rule.matches| == 1 && rule.matches[0].verb.Some?
  }

  /** Neither a path nor a method. */
  predicate Plain(rule: Rule) {
    |rule.matches| == 1 && !WithPath(rule) && !WithMethod(rule)
  }

  lemma CatchallExactly(rule: Rule)
    ensures IsCatchall(rule) <==> rule.matches == [Match(Some(PathMatch(PathPrefix, "/")), [], [], None)]
  {
    if IsCatchall(rule) {
      var m := rule.matches[0];
      assert rule.matches == [m] && m.headers == [] && m.queryParams == [];
    }
  }

  /** A rule is less than another for one of five reasons and for no other. */
  lemma LessExactly(x: Rule, y: Rule)
    requires |x.matches| == 1 && |y.matches| == 1
    ensures Less(x, y) <==>
              || IsCatchall(y)
              || (ExactRule(x) && !WithPath(y))
              || (PrefixRule(x) && PrefixRule(y) && |PrefixOf(x)| > |PrefixOf(y)|)
              || (WithMethod(x) && Plain(y))
              || More(x, y)
  {}

  // ----- a method before neither path nor method -----

  function MethodFirst(): (Rule, Rule) -> bool {
    (y: Rule, x: Rule) => WithMethod(y) && Plain(x)
  }

  /** For all single-match rules: every input order puts rules with a method ahead of rules with neither
    * path nor method, if and only if none of the latter leads to one of the former. */
  lemma MethodFirstExactly(rules: seq<Rule>)
    requires IsSplit(rules)
    ensures (forall perm :: Permutes(perm, rules) && IsSplit(perm) ==> Keeps(Sorted(perm), MethodFirst()))
       <==> !(exists x, y :: WithMethod(y) && Plain(x) && LeadsTo(rules, x, y))
  {
    hide LeadsTo, Keeps;
    PromiseExactly(rules, MethodFirst());
    if x, y :| WithMethod(y) && Plain(x) && LeadsTo(rules, x, y) {
      assert MethodFirst()(y, x);
    }
  }

  /** There a request that a rule with a method accepts is not answered by a rule with neither. */
  lemma MethodWins(rules: seq<Rule>, req: Request, y: Rule)
    requires IsSplit(rules) && forall x :: Plain(x) ==> !LeadsTo(rules, x, y)
    requires y in rules && WithMethod(y) && Accepts(y, req)
    ensures FirstMatch(Sorted(rules), req).Some? && !Plain(FirstMatch(Sorted(rules), req).value)
  {
    hide LeadsTo;
    PromiseAnswers(rules, MethodFirst(), req, y);
  }

  function MethodRank(rule: Rule): int {
    if WithMethod(rule) then 1 else 0
  }

  /** For rules without a path, whatever else they match: every input order puts methods first if and only
    * if no rule without a method has more headers or parameters than one with a method. */
  lemma PathlessMethodExactly(rules: seq<Rule>)
    requires IsSplit(rules) && forall r :: r in rules ==> !WithPath(r)
    ensures (forall perm :: Permutes(perm, rules) && IsSplit(perm) ==> Descending(Sorted(perm), MethodRank))
       <==> !(exists x, y :: x in rules && y in rules && !WithMethod(x) && WithMethod(y) && More(x, y))
  {
    RankExactly(rules, MethodRank);
    hide Less, More, WithMethod, WithPath;
    forall x, y | x in rules && y in rules
      ensures Follows(x, y, MethodRank) <==> !(!WithMethod(x) && WithMethod(y) && More(x, y))
    {
      PathlessFollows(x, y);
    }
  }

  lemma PathlessFollows(x: Rule, y: Rule)
    requires |x.matches| == 1 && |y.matches| == 1 && !WithPath(x) && !WithPath(y)
    ensures Follows(x, y, MethodRank) <==> !(!WithMethod(x) && WithMethod(y) && More(x, y))
  {
    LessExactly(x, y);
    hide Less, More;
  }

  /** There a request that a rule with a method accepts is answered by a rule with a method. */
  lemma PathlessMethodWins(rules: seq<Rule>, req: Request, y: Rule)
    requires IsSplit(rules) && forall r :: r in rules ==> !WithPath(r)
    requires forall x, z :: x in rules && z in rules && !WithMethod(x) && WithMethod(z) ==> !More(x, z)
    requires y in rules && WithMethod(y) && Accepts(y, req)
    ensures FirstMatch(Sorted(rules), req).Some? && WithMethod(FirstMatch(Sorted(rules), req).value)
  {
    PathlessMethodExactly(rules);
    assert Permutes(rules, rules);
    SortedMembers(rules);
    DescendingFirst(Sorted(rules), MethodRank, req, y);
  }

  /** The rules that come after all others: neither path nor method, or the catch-all. */
  function LowRank(rule: Rule): int {
    if Plain(rule) || IsCatchall(rule) then 0 else 1
  }

  /** `h` is such a rule and `r` is not, and yet `h` can come out ahead. */
  predicate Overtakes(h: Rule, r: Rule) {
    && LowRank(h) == 0 && LowRank(r) == 1
    && (|| (IsCatchall(h) && EmptyPrefix(r))
        || (Plain(h) && (More(h, r) || (!ExactRule(r) && !WithMethod(r) && !More(r, h)))))
  }

  lemma OvertakesIsNotFollowing(x: Rule, y: Rule)
    requires |x.matches| == 1 && |y.matches| == 1
    ensures Follows(x, y, LowRank) && Follows(y, x, LowRank) <==> !Overtakes(x, y) && !Overtakes(y, x)
  {
    if LowRank(x) < LowRank(y) {
      OvertakesByLess(x, y);
    } else if LowRank(y) < LowRank(x) {
      OvertakesByLess(y, x);
    }
  }

  lemma OvertakesByLess(h: Rule, r: Rule)
    requires |h.matches| == 1 && |r.matches| == 1 && LowRank(h) == 0 && LowRank(r) == 1
    ensures Overtakes(h, r) <==> Less(h, r) || !Less(r, h)
  {
    LessExactly(h, r);
    LessExactly(r, h);
    if IsCatchall(h) {
      CatchallIsLess(h, r);
    }
    hide Less;
  }

  /** For all single-match rules: every input order puts rules with neither path nor method, and
    * catch-alls, after all others, if and only if none of them overtakes another rule. */
  lemma PlainLastExactly(rules: seq<Rule>)
    requires IsSplit(rules)
    ensures (forall perm :: Permutes(perm, rules) && IsSplit(perm) ==> Descending(Sorted(perm), LowRank))
       <==> !(exists h, r :: h in rules && r in rules && Overtakes(h, r))
  {
    hide Overtakes, AllFollow, Follows, LowRank, Descending;
    RankExactly(rules, LowRank);
    forall x, y | x in rules && y in rules
      ensures Follows(x, y, LowRank) && Follows(y, x, LowRank) <==> !Overtakes(x, y) && !Overtakes(y, x)
    {
      OvertakesIsNotFollowing(x, y);
    }
    FollowInPairs(rules, LowRank, Overtakes);
  }

  // ----- more headers first, for any number of criteria -----

  /** Two exact paths, or two rules without a path that both have a method or both have none. */
  predicate Peers(x: Rule, y: Rule) {
    || (ExactRule(x) && ExactRule(y))
    || (|x.matches| == 1 && |y.matches| == 1 && !WithPath(x) && !WithPath(y) && (WithMethod(x) <==> WithMethod(y)))
  }

  /** Between peers the headers and parameters decide alone. */
  lemma PeersCompareByMore(x: Rule, y: Rule)
    requires Peers(x, y)
    ensures Less(x, y) <==> More(x, y)
  {
    LessExactly(x, y);
    hide Less, More;
  }

  function MoreHeadersFirst(): (Rule, Rule) -> bool {
    (y: Rule, x: Rule) => Peers(x, y) && HeaderCount(y) > HeaderCount(x) > 0
  }

  /** For all single-match rules: every input order puts more headers before fewer among peers, if and only
    * if no peer with fewer leads to one with more. */
  lemma MoreHeadersExactly(rules: seq<Rule>)
    requires IsSplit(rules)
    ensures (forall perm :: Permutes(perm, rules) && IsSplit(perm) ==> Keeps(Sorted(perm), MoreHeadersFirst()))
       <==> !(exists x, y :: Peers(x, y) && HeaderCount(y) > HeaderCount(x) > 0 && LeadsTo(rules, x, y))
  {
    hide LeadsTo, Keeps, Peers;
    PromiseExactly(rules, MoreHeadersFirst());
    if x, y :| Peers(x, y) && HeaderCount(y) > HeaderCount(x) > 0 && LeadsTo(rules, x, y) {
      assert MoreHeadersFirst()(y, x);
    }
  }

  /** There no peer with fewer headers is selected instead of a rule that accepts. */
  lemma MoreHeadersWin(rules: seq<Rule>, req: Request, y: Rule)
    requires IsSplit(rules) && y in rules && Accepts(y, req)
    requires forall x :: Peers(x, y) && HeaderCount(y) > HeaderCount(x) > 0 ==> !LeadsTo(rules, x, y)
    ensures var sel := FirstMatch(Sorted(rules), req);
            sel.Some? && (Peers(sel.value, y) && HeaderCount(sel.value) > 0 ==> HeaderCount(sel.value) >= HeaderCount(y))
  {
    hide LeadsTo, Peers;
    PromiseAnswers(rules, MoreHeadersFirst(), req, y);
  }

  ghost predicate AllPeers(rules: seq<Rule>) {
    forall x, y :: x in rules && y in rules ==> Peers(x, y)
  }

  /** The number of headers and the comparison disagree. */
  predicate Disagree(x: Rule, y: Rule) {
    if HeaderCount(x) > HeaderCount(y) then !More(x, y) else HeaderCount(x) < HeaderCount(y) && More(x, y)
  }

  function HeaderRank(rule: Rule): int {
    HeaderCount(rule)
  }

  lemma PeersFollow(x: Rule, y: Rule)
    requires Peers(x, y) && |x.matches| == 1 && |y.matches| == 1
    ensures Follows(x, y, HeaderRank) <==> !Disagree(x, y)
  {
    PeersCompareByMore(x, y);
    hide Less, Peers, More;
  }

  /** Lists of peers, whatever else they match: every input order comes out by the number of headers, if and
    * only if that never disagrees with the comparison. */
  lemma HeadersDescendExactly(rules: seq<Rule>)
    requires IsSplit(rules) && AllPeers(rules)
    ensures (forall perm :: Permutes(perm, rules) && IsSplit(perm) ==> Descending(Sorted(perm), HeaderRank))
       <==> !(exists x, y :: x in rules && y in rules && Disagree(x, y))
  {
    hide Follows, Peers, Disagree, HeaderRank;
    RankExactly(rules, HeaderRank);
    forall x, y | x in rules && y in rules
      ensures Follows(x, y, HeaderRank) <==> !Disagree(x, y)
    {
      PeersFollow(x, y);
    }
  }

  /** So it is when all of them have headers. */
  lemma PeersWithHeadersDescend(rules: seq<Rule>)
    requires IsSplit(rules) && AllPeers(rules) && forall r :: r in rules ==> HeaderCount(r) > 0
    ensures Descending(Sorted(rules), HeaderRank)
  {
    hide Peers, Descending;
    HeadersDescendExactly(rules);
    forall x, y | x in rules && y in rules
      ensures !Disagree(x, y)
    {
      MoreByHeaders(x, y);
    }
    assert Permutes(rules, rules);
  }

  lemma MoreByHeaders(x: Rule, y: Rule)
    requires HeaderCount(x) > 0 && HeaderCount(y) > 0
    ensures More(x, y) <==> HeaderCount(x) > HeaderCount(y)
  {}

  const HEADER_V2 := Rule([Match(None, [ValueMatch("v", "2", false)], [], None)], [], [])
  const POST_HEADER_V2 := Rule([Match(None, [ValueMatch("v", "2", false)], [], Some("POST"))], [], [])

  /** A method counts next to further criteria too. */
  lemma MethodPassesHeader()
    ensures Sorted([HEADER_V2, POST_HEADER_V2]) == [POST_HEADER_V2, HEADER_V2]
  {
    SortedPair(HEADER_V2, POST_HEADER_V2);
  }

  // ----- inputs on which an exact path or a method is held up -----

  /** Prefix `/a` ahead of exact `/a/b` stays there, and answers for path `/a/b`. */
  lemma PrefixBeforeExact(req: Request)
    requires req.path == "/a/b"
    ensures Sorted([PREFIX_A, EXACT_AB]) == [PREFIX_A, EXACT_AB]
    ensures Accepts(EXACT_AB, req) && FirstMatch(Sorted([PREFIX_A, EXACT_AB]), req) == Some(PREFIX_A)
  {
    SortedPair(PREFIX_A, EXACT_AB);
    var m := PREFIX_A.matches[0];
    assert req.path[..3] == "/a" + "/";
    assert !Strings.HasSuffix("/a", "/");
    assert m in PREFIX_A.matches && Matches(m, req);
    assert EXACT_AB.matches[0] in EXACT_AB.matches && Matches(EXACT_AB.matches[0], req);
  }

  // ----- single-criterion rules: exact path, then method, then most headers (or parameters) -----

  predicate OneCriterion(rule: Rule) {
    |rule.matches| == 1 && CriteriaCount(rule.matches[0]) == 1
  }

  /** A prefix or a regular expression, but not the catch-all: nothing without a path passes it, nor an
    * exact path without a further criterion. */
  predicate Holdup(rule: Rule) {
    WithPath(rule) && !ExactRule(rule) && !IsCatchall(rule)
  }

  /** Exact paths, methods, the rest, and the catch-all. */
  function Class(rule: Rule): int {
    if ExactRule(rule) then 2
    else if WithMethod(rule) then 1
    else if IsCatchall(rule) then -1
    else 0
  }

  /** Rules between which the class is not kept: a path that is not exact next to an exact path or a
    * method, an empty prefix next to the catch-all. */
  predicate Disturbs(h: Rule, x: Rule) {
    Holdup(h) && (Class(x) > 0 || (IsCatchall(x) && EmptyPrefix(h)))
  }

  lemma DisturbsIsNotFollowing(x: Rule, y: Rule)
    requires OneCriterion(x) && OneCriterion(y)
    ensures Follows(x, y, Class) <==>
              !(Class(x) > 0 && Holdup(y)) && !(IsCatchall(x) && EmptyPrefix(y))
  {}

  lemma OneCriterionSplit(rules: seq<Rule>)
    requires forall r :: r in rules ==> OneCriterion(r)
    ensures IsSplit(rules)
  {
    assert forall i :: 0 <= i < |rules| ==> OneCriterion(rules[i]);
  }

  /** For all rules with one criterion: exact paths come before methods, methods before the rest and the
    * catch-all last, whatever the input order, if and only if no two rules disturb that. */
  lemma SingleCriterionOrder(rules: seq<Rule>)
    requires forall r :: r in rules ==> OneCriterion(r)
    ensures (forall perm :: Permutes(perm, rules) && IsSplit(perm) ==> Descending(Sorted(perm), Class))
       <==> !(exists h, x :: h in rules && x in rules && Disturbs(h, x))
  {
    OneCriterionSplit(rules);
    hide Disturbs, AllFollow, Follows, Class, Descending, OneCriterion;
    RankExactly(rules, Class);
    forall x, y | x in rules && y in rules
      ensures Follows(x, y, Class) && Follows(y, x, Class) <==> !Disturbs(x, y) && !Disturbs(y, x)
    {
      DisturbsIsNotFollowing(x, y);
      DisturbsIsNotFollowing(y, x);
    }
    FollowInPairs(rules, Class, Disturbs);
  }

  /** The rules like this one, which the comparison does not tell from it. */
  function Alike(like: Rule): Rule -> bool {
    (rule: Rule) =>
      && !IsCatchall(rule) && Class(rule) == Class(like) && PrefixLength(rule) == PrefixLength(like)
      && HeaderCount(rule) == HeaderCount(like) && QueryCount(rule) == QueryCount(like)
  }

  /** For all rules with one criterion: those alike keep their order, whatever else is in the list. */
  lemma SingleCriterionStable(rules: seq<Rule>, like: Rule)
    requires forall r :: r in rules ==> OneCriterion(r)
    ensures IsSplit(rules)
    ensures Chosen(Sorted(rules), Alike(like)) == Chosen(rules, Alike(like))
  {
    assert forall i :: 0 <= i < |rules| ==> OneCriterion(rules[i]);
    SortedStable(rules, Alike(like));
  }

  /** More headers before fewer, and more parameters before fewer. */
  ghost predicate MoreFirst(s: seq<Rule>) {
    forall i, j :: 0 <= i < j < |s| ==>
      && (HeaderCount(s[i]) > 0 && HeaderCount(s[j]) > 0 ==> HeaderCount(s[i]) >= HeaderCount(s[j]))
      && (QueryCount(s[i]) > 0 && QueryCount(s[j]) > 0 ==> QueryCount(s[i]) >= QueryCount(s[j]))
  }

  /** `p` and `r` are of one kind, `r` has more, and `q` is of the other kind or has a path that holds
    * things up. */
  predicate Separates(p: Rule, q: Rule, r: Rule) {
    || (0 < HeaderCount(p) < HeaderCount(r) && (QueryCount(q) > 0 || Holdup(q)))
    || (0 < QueryCount(p) < QueryCount(r) && (HeaderCount(q) > 0 || Holdup(q)))
  }

  /** The order stays as it is: `q` does not pass `p`, and `r` does not pass `q`. */
  lemma OtherKindHolds(p: Rule, q: Rule, r: Rule)
    requires OneCriterion(p) && OneCriterion(q) && OneCriterion(r) && Separates(p, q, r)
    ensures Sorted([p, q, r]) == [p, q, r]
    ensures !MoreFirst([p, q, r])
  {
    SortedPair(p, q);
    assert [p, q] + [r] == [p, q, r];
    SortedSnoc([p, q], r);
    InsertLast([p, q], r);
    assert [p, q, r][0] == p && [p, q, r][2] == r;
  }

  const ONE_HEADER := Rule([Match(None, [ValueMatch("x", "1", false)], [], None)], [], [])
  const ONE_PARAMETER := Rule([Match(None, [], [ValueMatch("q", "1", false)], None)], [], [])
  const TWO_HEADERS :=
    Rule([Match(None, [ValueMatch("x", "1", false), ValueMatch("y", "2", false)], [], None)], [], [])

  lemma ParameterBetweenHeaders()
    ensures Sorted([ONE_HEADER, ONE_PARAMETER, TWO_HEADERS]) == [ONE_HEADER, ONE_PARAMETER, TWO_HEADERS]
  {
    OtherKindHolds(ONE_HEADER, ONE_PARAMETER, TWO_HEADERS);
  }

  lemma PrefixBetweenHeaders()
    ensures Sorted([ONE_HEADER, PREFIX_A, TWO_HEADERS]) == [ONE_HEADER, PREFIX_A, TWO_HEADERS]
  {
    assert PrefixOf(PREFIX_A) == "/a";
    OtherKindHolds(ONE_HEADER, PREFIX_A, TWO_HEADERS);
  }

  /** A method behind a prefix stays behind one header, which it is to precede; it does so although the
    * header rule does not have more. */
  lemma PrefixBeforeMethod()
    ensures WithMethod(ONE_METHOD) && Plain(ONE_HEADER) && !More(ONE_HEADER, ONE_METHOD)
    ensures Sorted([ONE_HEADER, PREFIX_A, ONE_METHOD]) == [ONE_HEADER, PREFIX_A, ONE_METHOD]
  {
    assert PrefixOf(PREFIX_A) == "/a";
    BlockedStays([ONE_HEADER, PREFIX_A, ONE_METHOD]);
  }

  lemma OtherKindBreaks(rules: seq<Rule>, p: Rule, q: Rule, r: Rule) returns (perm: seq<Rule>)
    requires IsSplit(rules) && p in rules && q in rules && r in rules
    requires OneCriterion(p) && OneCriterion(q) && OneCriterion(r) && Separates(p, q, r)
    ensures Permutes(perm, rules) && IsSplit(perm) && !MoreFirst(Sorted(perm))
  {
    var rest := ExtractThree(rules, p, q, r);
    perm := [p, q, r] + rest;
    PermutesSplit(perm, rules);
    OtherKindHolds(p, q, r);
    hide OneCriterion, Less;
    assert Sorted([p, q, r])[0] == p && Sorted([p, q, r])[2] == r;
    SortedKeepsOrder([p, q, r], rest, p, r);
  }

  /** A class by itself, then by count. */
  function Tier(bound: nat): Rule -> int {
    (rule: Rule) => if Class(rule) > 0 then bound + Class(rule)
                    else if Class(rule) < 0 then -1
                    else HeaderCount(rule) + QueryCount(rule)
  }

  function MaxCount(rules: seq<Rule>): (n: nat)
    ensures forall i :: 0 <= i < |rules| ==> HeaderCount(rules[i]) + QueryCount(rules[i]) <= n
  {
    if rules == [] then 0
    else
      var rest, last := MaxCount(rules[..|rules| - 1]), rules[|rules| - 1];
      assert forall i :: 0 <= i < |rules| - 1 ==> rules[i] == rules[..|rules| - 1][i];
      if HeaderCount(last) + QueryCount(last) > rest then HeaderCount(last) + QueryCount(last) else rest
  }

  lemma TierFollows(x: Rule, y: Rule, bound: nat)
    requires OneCriterion(x) && OneCriterion(y) && !Holdup(x) && !Holdup(y)
    requires HeaderCount(x) + QueryCount(x) <= bound && HeaderCount(y) + QueryCount(y) <= bound
    requires HeaderCount(x) == HeaderCount(y) == 0 || QueryCount(x) == QueryCount(y) == 0
    ensures Follows(x, y, Tier(bound))
  {}

  /** One kind only: no headers, or no parameters; and nothing that holds up. */
  ghost predicate OneKind(rules: seq<Rule>) {
    && (forall i :: 0 <= i < |rules| ==> OneCriterion(rules[i]) && !Holdup(rules[i]))
    && (|| (forall i :: 0 <= i < |rules| ==> HeaderCount(rules[i]) == 0)
        || (forall i :: 0 <= i < |rules| ==> QueryCount(rules[i]) == 0))
  }

  lemma OneKindRespects(rules: seq<Rule>)
    requires OneKind(rules)
    ensures Respects(rules, Tier(MaxCount(rules)))
  {
    hide HeaderCount, QueryCount, Tier;
    forall i, j | 0 <= i < |rules| && 0 <= j < |rules| && i != j
      ensures Follows(rules[i], rules[j], Tier(MaxCount(rules)))
    {
      TierFollows(rules[i], rules[j], MaxCount(rules));
    }
  }

  /** With one kind only, the comparison is by tier. */
  lemma OneKindMoreFirst(rules: seq<Rule>)
    requires OneKind(rules)
    ensures IsSplit(rules) && MoreFirst(Sorted(rules))
  {
    hide Less, HeaderCount, QueryCount, Tier, Sorted, OneCriterion;
    OneKindRespects(rules);
    SortedDescends(rules, Tier(MaxCount(rules)));
    var s := Sorted(rules);
    forall i, j | 0 <= i < j < |s|
      ensures HeaderCount(s[i]) > 0 && HeaderCount(s[j]) > 0 ==> HeaderCount(s[i]) >= HeaderCount(s[j])
      ensures QueryCount(s[i]) > 0 && QueryCount(s[j]) > 0 ==> QueryCount(s[i]) >= QueryCount(s[j])
    {
      var i' := SortedOrigin(rules, i);
      var j' := SortedOrigin(rules, j);
      TierMoreFirst(s[i], s[j], MaxCount(rules));
    }
  }

  lemma TierMoreFirst(x: Rule, y: Rule, bound: nat)
    requires OneCriterion(x) && OneCriterion(y) && Tier(bound)(x) >= Tier(bound)(y)
    requires HeaderCount(x) == HeaderCount(y) == 0 || QueryCount(x) == QueryCount(y) == 0
    ensures HeaderCount(x) > 0 && HeaderCount(y) > 0 ==> HeaderCount(x) >= HeaderCount(y)
    ensures QueryCount(x) > 0 && QueryCount(y) > 0 ==> QueryCount(x) >= QueryCount(y)
  {}

  lemma KindsApart(rules: seq<Rule>)
    requires IsSplit(rules) && forall r :: r in rules ==> OneCriterion(r)
    requires forall p, q, r :: p in rules && q in rules && r in rules ==> !Separates(p, q, r)
    ensures MoreFirst(Sorted(rules))
  {
    assert forall i :: 0 <= i < |rules| ==> rules[i] in rules;
    if p, r :| p in rules && r in rules && (0 < HeaderCount(p) < HeaderCount(r) || 0 < QueryCount(p) < QueryCount(r)) {
      forall i | 0 <= i < |rules|
        ensures OneCriterion(rules[i]) && !Holdup(rules[i])
        ensures 0 < HeaderCount(p) < HeaderCount(r) ==> QueryCount(rules[i]) == 0
        ensures 0 < QueryCount(p) < QueryCount(r) ==> HeaderCount(rules[i]) == 0
      {
        assert !Separates(p, rules[i], r);
      }
      OneKindMoreFirst(rules);
    } else {
      SortedMembers(rules);
      assert forall i :: 0 <= i < |Sorted(rules)| ==> Sorted(rules)[i] in rules;
    }
  }

  /** For all rules with one criterion: whatever the input order more comes before fewer, if and only if
    * there are no two rules of one kind with different counts next to a rule of the other kind, or with a
    * prefix or regular expression other than the catch-all. */
  lemma SingleCriterionExactly(rules: seq<Rule>)
    requires forall r :: r in rules ==> OneCriterion(r)
    ensures (forall perm :: Permutes(perm, rules) && IsSplit(perm) ==> MoreFirst(Sorted(perm)))
       <==> !(exists p, q, r :: p in rules && q in rules && r in rules && Separates(p, q, r))
  {
    assert forall i :: 0 <= i < |rules| ==> OneCriterion(rules[i]);
    if p, q, r :| p in rules && q in rules && r in rules && Separates(p, q, r) {
      var perm := OtherKindBreaks(rules, p, q, r);
    } else {
      forall perm | Permutes(perm, rules) && IsSplit(perm)
        ensures MoreFirst(Sorted(perm))
      {
        PermutesSplit(perm, rules);
        KindsApart(perm);
      }
    }
  }

  // ----- prefixes next to further criteria -----

  /** The shorter of two prefixes is less all the same: by more headers, or without a pair of header
    * matches by more parameters; or the longer one is the catch-all. */
  predicate Outweighs(p: Rule, q: Rule) {
    && PrefixRule(p) && PrefixRule(q) && |PrefixOf(p)| < |PrefixOf(q)|
    && (IsCatchall(q) || More(p, q))
  }

  lemma OutweighsIsLess(p: Rule, q: Rule)
    requires PrefixRule(p) && PrefixRule(q) && |PrefixOf(p)| < |PrefixOf(q)|
    ensures Less(q, p)
    ensures Less(p, q) <==> Outweighs(p, q)
  {}

  /** Each of the two is less than the other, so either order is turned round. */
  lemma OutweighedTurns(p: Rule, q: Rule)
    requires Outweighs(p, q)
    ensures Sorted([p, q]) == [q, p] && Sorted([q, p]) == [p, q]
  {
    OutweighsIsLess(p, q);
    SortedPair(p, q);
    SortedPair(q, p);
  }

  const PREFIX_A_TWO_HEADERS := Rule(
    [Match(Some(PathMatch(PathPrefix, "/a")), [ValueMatch("x", "1", false), ValueMatch("y", "2", false)], [], None)],
    [], [])

  const PREFIX_AB_ONE_HEADER := Rule(
    [Match(Some(PathMatch(PathPrefix, "/a/b")), [ValueMatch("x", "1", false)], [], None)],
    [], [])

  /** Prefix `/a` with two headers and prefix `/a/b` with one: which comes first depends on the input
    * order, and what comes in by longest prefix goes out the other way round. */
  lemma HeadersOutweighPrefix()
    ensures Sorted([PREFIX_AB_ONE_HEADER, PREFIX_A_TWO_HEADERS]) == [PREFIX_A_TWO_HEADERS, PREFIX_AB_ONE_HEADER]
    ensures Sorted([PREFIX_A_TWO_HEADERS, PREFIX_AB_ONE_HEADER]) == [PREFIX_AB_ONE_HEADER, PREFIX_A_TWO_HEADERS]
  {
    assert PrefixOf(PREFIX_A_TWO_HEADERS) == "/a" && PrefixOf(PREFIX_AB_ONE_HEADER) == "/a/b";
    OutweighedTurns(PREFIX_A_TWO_HEADERS, PREFIX_AB_ONE_HEADER);
  }

  lemma WeightsFollow(x: Rule, y: Rule)
    requires PrefixRule(x) && PrefixRule(y)
    ensures Follows(x, y, PrefixLength) <==> !Outweighs(x, y)
  {
    if |PrefixOf(x)| < |PrefixOf(y)| {
      OutweighsIsLess(x, y);
    } else if |PrefixOf(y)| < |PrefixOf(x)| {
      OutweighsIsLess(y, x);
    }
  }

  /** For rules that all have a path prefix, whatever else they match: every input order comes out with
    * the longest prefix first, if and only if no shorter prefix outweighs a longer one. */
  lemma PrefixesDescendExactly(rules: seq<Rule>)
    requires AllPrefixRules(rules)
    ensures (forall perm :: Permutes(perm, rules) && IsSplit(perm) ==> Descending(Sorted(perm), PrefixLength))
       <==> !(exists p, q :: p in rules && q in rules && Outweighs(p, q))
  {
    assert forall i :: 0 <= i < |rules| ==> rules[i] in rules && PrefixRule(rules[i]);
    RankExactly(rules, PrefixLength);
    forall x, y | x in rules && y in rules
      ensures Follows(x, y, PrefixLength) <==> !Outweighs(x, y)
    {
      WeightsFollow(x, y);
    }
  }

  /** There the rule selected has a longest prefix of all rules that accept the request. */
  lemma LongestPathFirst(rules: seq<Rule>, req: Request, other: Rule)
    requires AllPrefixRules(rules)
    requires forall p, q :: p in rules && q in rules ==> !Outweighs(p, q)
    requires other in rules && Accepts(other, req)
    ensures IsSplit(rules)
    ensures var sel := FirstMatch(Sorted(rules), req);
            sel.Some? && |PrefixOf(other)| <= |PrefixOf(sel.value)|
  {
    assert forall i :: 0 <= i < |rules| ==> PrefixRule(rules[i]);
    PrefixesDescendExactly(rules);
    assert Permutes(rules, rules);
    SortedMembers(rules);
    DescendingFirst(Sorted(rules), PrefixLength, req, other);
  }
}
