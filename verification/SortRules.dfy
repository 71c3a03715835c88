/** Ordering a route's rules for a first-match proxy (internal/envoy/resource.go).
  *
  * `sort.SliceStable` is modelled by the adjacent-swap insertion sort that Go runs on blocks of up
  * to 20 elements; it matters here because the comparison is not a strict weak order. */
module SortRules {
  import opened Wrappers
  import Strings
  import opened Routes
  import opened Combine

  function CriteriaCount(m: Match): nat {
    (if |m.headers| > 0 then 1 else 0)
    + (if |m.queryParams| > 0 then 1 else 0)
    + (if m.verb.Some? then 1 else 0)
    + (if m.path.Some? then 1 else 0)
  }

  predicate IsCatchall(rule: Rule) {
    |rule.matches| == 1
    && var m := rule.matches[0];
       CriteriaCount(m) == 1 && m.path == Some(PathMatch(PathPrefix, "/"))
  }

  predicate HasPath(m: Match, kind: PathType) {
    m.path.Some? && m.path.value.kind == kind
  }

  /** The comparison function, branch by branch. */
  predicate Less(iRule: Rule, jRule: Rule)
    requires |iRule.matches| == 1 && |jRule.matches| == 1
  {
    if IsCatchall(jRule) then true
    else
      var iMatch, jMatch := iRule.matches[0], jRule.matches[0];
      if HasPath(iMatch, Exact) && jMatch.path.None? then true
      else if HasPath(iMatch, PathPrefix) && HasPath(jMatch, PathPrefix)
              && |iMatch.path.value.value| > |jMatch.path.value.value| then true
      else if iMatch.verb.Some? && jMatch.path.None? && jMatch.verb.None? then true
      else if |iMatch.headers| > 0 && |jMatch.headers| > 0 then |iMatch.headers| > |jMatch.headers|
      else if |iMatch.queryParams| > 0 && |jMatch.queryParams| > 0 then
        |iMatch.queryParams| > |jMatch.queryParams|
      else false
  }

  /** How far left adjacent swaps carry `x` from the right end of `s`. */
  function InsertPos(s: seq<Rule>, x: Rule): (k: nat)
    requires IsSplit(s) && |x.matches| == 1
    ensures k <= |s|
    ensures forall n :: k <= n < |s| ==> Less(x, s[n])
    ensures k > 0 ==> !Less(x, s[k - 1])
  {
    if s == [] then 0
    else if Less(x, s[|s| - 1]) then InsertPos(s[..|s| - 1], x) else |s|
  }

  function Placed(s: seq<Rule>, x: Rule, k: nat): seq<Rule>
    requires k <= |s|
  {
    s[..k] + [x] + s[k..]
  }

  /** One adjacent swap moves `x` one place to the left. */
  lemma PlacedSwap(s: seq<Rule>, x: Rule, k: nat, tail: seq<Rule>)
    requires 0 < k <= |s|
    ensures (Placed(s, x, k) + tail)[k] == x && (Placed(s, x, k) + tail)[k - 1] == s[k - 1]
    ensures (Placed(s, x, k) + tail)[k := s[k - 1]][k - 1 := x] == Placed(s, x, k - 1) + tail
  {
    assert s[..k] == s[..k - 1] + [s[k - 1]] && s[k - 1..] == [s[k - 1]] + s[k..];
  }

  function Insert(s: seq<Rule>, x: Rule): (r: seq<Rule>)
    requires IsSplit(s) && |x.matches| == 1
    ensures IsSplit(r)
  {
    Placed(s, x, InsertPos(s, x))
  }

  function Sorted(rules: seq<Rule>): (r: seq<Rule>)
    requires IsSplit(rules)
    ensures IsSplit(r) && |r| == |rules|
  {
    if rules == [] then []
    else
      SplitPart(rules, |rules| - 1);
      Insert(Sorted(rules[..|rules| - 1]), rules[|rules| - 1])
  }

  lemma SplitPart(s: seq<Rule>, n: nat)
    requires IsSplit(s) && n <= |s|
    ensures IsSplit(s[..n])
  {}

  /** Sorting permutes the rules. */
  lemma {:induction false} SortedPermutes(rules: seq<Rule>)
    requires IsSplit(rules)
    ensures multiset(Sorted(rules)) == multiset(rules)
  {
    if rules != [] {
      var init, last := rules[..|rules| - 1], rules[|rules| - 1];
      assert rules == init + [last];
      SortedPermutes(init);
      PlacedPermutes(Sorted(init), last, InsertPos(Sorted(init), last));
    }
  }

  lemma PlacedPermutes(s: seq<Rule>, x: Rule, k: nat)
    requires k <= |s|
    ensures multiset(Placed(s, x, k)) == multiset(s) + multiset{x}
  {
    assert s == s[..k] + s[k..];
  }

  /** So it conserves every backend reference and the total weight. */
  lemma {:induction false} SortedConservesBackends(rules: seq<Rule>)
    requires IsSplit(rules)
    ensures multiset(AllBackends(Sorted(rules))) == multiset(AllBackends(rules))
    ensures TotalWeight(AllBackends(Sorted(rules))) == TotalWeight(AllBackends(rules))
  {
    if rules != [] {
      var init, last := rules[..|rules| - 1], rules[|rules| - 1];
      assert rules == init + [last];
      SplitPart(rules, |init|);
      SortedConservesBackends(init);
      AppendBackends(init, last);
      PlacedBackends(Sorted(init), last, InsertPos(Sorted(init), last));
    }
  }

  lemma PlacedBackends(s: seq<Rule>, x: Rule, k: nat)
    requires k <= |s|
    ensures multiset(AllBackends(Placed(s, x, k))) == multiset(AllBackends(s)) + multiset(x.backendRefs)
    ensures TotalWeight(AllBackends(Placed(s, x, k))) == TotalWeight(AllBackends(s)) + TotalWeight(x.backendRefs)
  {
    hide AllBackends, TotalWeight;
    var a, b := s[..k], s[k..];
    assert s == a + b;
    AllBackendsAround(a, x, b);
    AllBackendsConcat(a, b);
    TotalWeightConcat(AllBackends(a), x.backendRefs);
    TotalWeightConcat(AllBackends(a) + x.backendRefs, AllBackends(b));
    TotalWeightConcat(AllBackends(a), AllBackends(b));
  }

  lemma SortedSnoc(s: seq<Rule>, x: Rule)
    requires IsSplit(s) && |x.matches| == 1
    ensures IsSplit(s + [x]) && Sorted(s + [x]) == Insert(Sorted(s), x)
  {
    assert (s + [x])[..|s|] == s;
  }

  lemma SortedStep(rules: seq<Rule>, i: nat)
    requires IsSplit(rules) && i < |rules|
    ensures |rules[i].matches| == 1 && IsSplit(rules[..i]) && IsSplit(rules[..i + 1])
    ensures Sorted(rules[..i + 1]) == Insert(Sorted(rules[..i]), rules[i])
  {
    assert rules[i] in rules;
    assert rules[..i + 1] == rules[..i] + [rules[i]];
    SortedSnoc(rules[..i], rules[i]);
  }

  lemma PlacedStart(s: seq<Rule>, rules: seq<Rule>)
    requires |s| < |rules|
    ensures s + rules[|s|..] == Placed(s, rules[|s|], |s|) + rules[|s| + 1..]
  {}

  lemma InsertLast(s: seq<Rule>, x: Rule)
    requires IsSplit(s) && |x.matches| == 1 && s != [] && !Less(x, s[|s| - 1])
    ensures Insert(s, x) == s + [x]
  {}

  lemma SortedPair(p: Rule, q: Rule)
    requires |p.matches| == 1 && |q.matches| == 1
    ensures Sorted([p]) == [p]
    ensures Sorted([p, q]) == if Less(q, p) then [q, p] else [p, q]
  {
    assert [] + [p] == [p] && [p] + [q] == [p, q];
    SortedSnoc([], p);
    SortedSnoc([p], q);
    assert [p][..0] == [];
  }

  lemma SortedMembers(rules: seq<Rule>)
    requires IsSplit(rules)
    ensures forall r :: r in Sorted(rules) <==> r in rules
  {
    SortedPermutes(rules);
    assert forall r :: r in Sorted(rules) <==> r in multiset(rules);
  }

  /** Where a rule of the sorted list comes from. */
  lemma SortedOrigin(rules: seq<Rule>, n: nat) returns (i: nat)
    requires IsSplit(rules) && n < |Sorted(rules)|
    ensures i < |rules| && rules[i] == Sorted(rules)[n]
  {
    SortedMembers(rules);
    assert Sorted(rules)[n] in Sorted(rules);
    i :| 0 <= i < |rules| && rules[i] == Sorted(rules)[n];
  }

  method SwapLeft(a: array<Rule>, j: nat)
    requires 0 < j < a.Length
    modifies a
    ensures a[..] == old(a[..])[j := old(a[j - 1])][j - 1 := old(a[j])]
  {
    a[j], a[j - 1] := a[j - 1], a[j];
  }

  /** The inner loop: swaps the rule at `i` down to its place in the sorted part `s`. */
  method SwapDown(a: array<Rule>, i: nat, ghost s: seq<Rule>, ghost x: Rule, ghost tail: seq<Rule>)
    requires IsSplit(s) && |x.matches| == 1 && i == |s|
    requires a[..] == Placed(s, x, i) + tail
    modifies a
    ensures a[..] == Insert(s, x) + tail
  {
    var j := i;
    assert InsertPos(s, x) <= j;
    while true
      invariant 0 <= j <= i && InsertPos(s, x) <= j
      invariant a[..] == Placed(s, x, j) + tail
      decreases j
    {
      if j == 0 {
        break;
      }
      PlacedSwap(s, x, j, tail);
      assert a[j] == a[..][j] && a[j - 1] == a[..][j - 1];
      if !Less(a[j], a[j - 1]) {
        break;
      }
      SwapLeft(a, j);
      j := j - 1;
    }
  }

  /** The sort in place, by adjacent swaps. */
  method SortRouteRules(a: array<Rule>)
    requires IsSplit(a[..])
    modifies a
    ensures a[..] == Sorted(old(a[..]))
  {
    ghost var was := a[..];
    for i := 0 to a.Length
      invariant IsSplit(was[..i]) && a[..] == Sorted(was[..i]) + was[i..]
    {
      SortedStep(was, i);
      ghost var s := Sorted(was[..i]);
      PlacedStart(s, was);
      SwapDown(a, i, s, was[i], was[i + 1..]);
    }
    assert was[..a.Length] == was && Sorted(was) + [] == Sorted(was);
  }

  // ----- the catch-all rule goes last -----

  ghost predicate CatchallsLast(s: seq<Rule>) {
    forall i, j :: 0 <= i < j < |s| && IsCatchall(s[i]) ==> IsCatchall(s[j])
  }

  predicate EmptyPrefix(rule: Rule) {
    |rule.matches| == 1 && rule.matches[0].path == Some(PathMatch(PathPrefix, ""))
  }

  /** A catch-all moves up past nothing but catch-alls and empty prefixes. */
  lemma CatchallIsLess(c: Rule, r: Rule)
    requires IsCatchall(c) && |r.matches| == 1
    ensures Less(c, r) <==> IsCatchall(r) || EmptyPrefix(r)
  {
    if HasPath(r.matches[0], PathPrefix) && |r.matches[0].path.value.value| == 0 {
      assert r.matches[0].path.value.value == "";
    }
  }

  lemma InsertCatchallsLast(s: seq<Rule>, x: Rule)
    requires IsSplit(s) && |x.matches| == 1 && CatchallsLast(s)
    requires forall r :: r in s ==> !EmptyPrefix(r)
    ensures CatchallsLast(Insert(s, x))
  {
    if IsCatchall(x) {
      forall r | r in s
        ensures Less(x, r) <==> IsCatchall(r)
      {
        CatchallIsLess(x, r);
      }
    }
  }

  /** For every rule list with non-empty prefixes the catch-alls form the tail. */
  lemma {:induction false} SortedCatchallsLast(rules: seq<Rule>)
    requires IsSplit(rules)
    requires forall r :: r in rules ==> !EmptyPrefix(r)
    ensures CatchallsLast(Sorted(rules))
  {
    if rules != [] {
      var init := rules[..|rules| - 1];
      SortedCatchallsLast(init);
      SortedMembers(init);
      InsertCatchallsLast(Sorted(init), rules[|rules| - 1]);
    }
  }

  /** A request that some specific rule accepts is never answered by a catch-all. */
  lemma CatchallIsLastResort(rules: seq<Rule>, req: Request, specific: Rule)
    requires IsSplit(rules)
    requires forall r :: r in rules ==> !EmptyPrefix(r)
    requires specific in rules && !IsCatchall(specific) && Accepts(specific, req)
    ensures FirstMatch(Sorted(rules), req).Some?
    ensures !IsCatchall(FirstMatch(Sorted(rules), req).value)
  {
    SortedMembers(rules);
    SortedCatchallsLast(rules);
    SpecificFirst(Sorted(rules), req, specific);
  }

  lemma {:induction false} SpecificFirst(s: seq<Rule>, req: Request, specific: Rule)
    requires CatchallsLast(s) && specific in s && !IsCatchall(specific) && Accepts(specific, req)
    ensures FirstMatch(s, req).Some? && !IsCatchall(FirstMatch(s, req).value)
  {
    var i :| 0 <= i < |s| && s[i] == specific;
    if Accepts(s[0], req) {
      assert i > 0 ==> !IsCatchall(s[0]);
    } else {
      assert specific == s[1..][i - 1];
      SpecificFirst(s[1..], req, specific);
    }
  }

  // ----- exactly when, over every input order -----

  ghost predicate Permutes(p: seq<Rule>, rules: seq<Rule>) {
    multiset(p) == multiset(rules)
  }

  ghost predicate InOrder(s: seq<Rule>, p: Rule, q: Rule) {
    exists i, j :: 0 <= i < j < |s| && s[i] == p && s[j] == q
  }

  lemma InsertKeepsOrder(s: seq<Rule>, x: Rule, p: Rule, q: Rule)
    requires IsSplit(s) && |x.matches| == 1 && InOrder(s, p, q)
    ensures InOrder(Insert(s, x), p, q)
  {
    var i, j :| 0 <= i < j < |s| && s[i] == p && s[j] == q;
    var k, r := InsertPos(s, x), Insert(s, x);
    var i', j' := if i < k then i else i + 1, if j < k then j else j + 1;
    assert r[i'] == p && r[j'] == q;
  }

  /** Later rules never exchange two earlier ones. */
  lemma {:induction false} SortedKeepsOrder(front: seq<Rule>, rest: seq<Rule>, p: Rule, q: Rule)
    requires IsSplit(front + rest) && IsSplit(front) && InOrder(Sorted(front), p, q)
    ensures InOrder(Sorted(front + rest), p, q)
  {
    if rest == [] {
      assert front + rest == front;
    } else {
      var init, last := rest[..|rest| - 1], rest[|rest| - 1];
      assert front + rest == (front + init) + [last];
      assert (front + rest)[|front + init|] == last;
      SplitPart(front + rest, |front + init|);
      SortedKeepsOrder(front, init, p, q);
      SortedSnoc(front + init, last);
      InsertKeepsOrder(Sorted(front + init), last, p, q);
    }
  }

  lemma Extract(s: seq<Rule>, x: Rule) returns (rest: seq<Rule>)
    requires x in s
    ensures Permutes([x] + rest, s)
    ensures forall y :: y in s && y != x ==> y in rest
  {
    var i :| 0 <= i < |s| && s[i] == x;
    rest := s[..i] + s[i + 1..];
    assert s == s[..i] + [x] + s[i + 1..];
  }

  lemma ExtractTwo(s: seq<Rule>, x: Rule, y: Rule) returns (rest: seq<Rule>)
    requires x in s && y in s && x != y
    ensures Permutes([x, y] + rest, s)
    ensures forall z :: z in s && z != x && z != y ==> z in rest
  {
    var rest1 := Extract(s, x);
    rest := Extract(rest1, y);
    assert [x] + ([y] + rest) == [x, y] + rest;
  }

  lemma ExtractThree(s: seq<Rule>, x: Rule, y: Rule, z: Rule) returns (rest: seq<Rule>)
    requires x in s && y in s && z in s && x != y && y != z && x != z
    ensures Permutes([x, y, z] + rest, s)
  {
    var rest2 := ExtractTwo(s, x, y);
    rest := Extract(rest2, z);
    assert [x, y] + ([z] + rest) == [x, y, z] + rest;
  }

  lemma PermutesSplit(p: seq<Rule>, rules: seq<Rule>)
    requires Permutes(p, rules) && IsSplit(rules)
    ensures IsSplit(p)
    ensures forall r :: r in p <==> r in rules
  {
    assert forall r :: r in p <==> r in multiset(rules);
    assert forall i :: 0 <= i < |p| ==> p[i] in p;
  }

  /** An empty prefix value ahead of a catch-all ends up behind it. */
  lemma EmptyPrefixBreaks(rules: seq<Rule>, c: Rule, e: Rule) returns (p: seq<Rule>)
    requires IsSplit(rules) && c in rules && e in rules && IsCatchall(c) && EmptyPrefix(e)
    ensures Permutes(p, rules) && IsSplit(p) && !CatchallsLast(Sorted(p))
  {
    var rest := ExtractTwo(rules, e, c);
    p := [e, c] + rest;
    PermutesSplit(p, rules);
    EmptyPrefixYields(c, e);
    SortedKeepsOrder([e, c], rest, c, e);
    OutOfPlace(Sorted(p), c, e);
  }

  lemma EmptyPrefixYields(c: Rule, e: Rule)
    requires IsCatchall(c) && EmptyPrefix(e)
    ensures IsSplit([e, c]) && InOrder(Sorted([e, c]), c, e) && !IsCatchall(e)
  {
    SortedPair(e, c);
    assert Sorted([e, c])[0] == c && Sorted([e, c])[1] == e;
  }

  lemma OutOfPlace(s: seq<Rule>, c: Rule, e: Rule)
    requires InOrder(s, c, e) && IsCatchall(c) && !IsCatchall(e)
    ensures !CatchallsLast(s)
  {}

  /** Catch-alls end up last whatever the input order, if and only if no catch-all meets a rule
    * whose path prefix is the empty string. */
  lemma CatchallsLastExactly(rules: seq<Rule>)
    requires IsSplit(rules)
    ensures (forall p :: Permutes(p, rules) && IsSplit(p) ==> CatchallsLast(Sorted(p)))
       <==> !(exists c, e :: c in rules && e in rules && IsCatchall(c) && EmptyPrefix(e))
  {
    if c, e :| c in rules && e in rules && IsCatchall(c) && EmptyPrefix(e) {
      var p := EmptyPrefixBreaks(rules, c, e);
    } else {
      forall p | Permutes(p, rules) && IsSplit(p)
        ensures CatchallsLast(Sorted(p))
      {
        PermutesSplit(p, rules);
        if exists c :: c in rules && IsCatchall(c) {
          SortedCatchallsLast(p);
        } else {
          SortedMembers(p);
        }
      }
    }
  }

  // ----- where the comparison follows a rank -----

  ghost predicate Descending(s: seq<Rule>, rank: Rule -> int) {
    forall i, j :: 0 <= i < j < |s| ==> rank(s[i]) >= rank(s[j])
  }

  /** A greater rank is less, and what is less has no smaller rank; between equals the comparison may
    * say anything. */
  ghost predicate Follows(x: Rule, y: Rule, rank: Rule -> int)
    requires |x.matches| == 1 && |y.matches| == 1
  {
    (rank(x) > rank(y) ==> Less(x, y)) && (Less(x, y) ==> rank(x) >= rank(y))
  }

  ghost predicate Respects(rules: seq<Rule>, rank: Rule -> int) {
    && IsSplit(rules)
    && forall i, j :: 0 <= i < |rules| && 0 <= j < |rules| && i != j ==> Follows(rules[i], rules[j], rank)
  }

  lemma InsertDescends(s: seq<Rule>, x: Rule, rank: Rule -> int)
    requires IsSplit(s) && |x.matches| == 1 && Descending(s, rank)
    requires forall n :: 0 <= n < |s| ==> Follows(x, s[n], rank)
    ensures Descending(Insert(s, x), rank)
  {
    hide Less;
    var k := InsertPos(s, x);
    assert forall n :: k <= n < |s| ==> rank(x) >= rank(s[n]);
    assert k > 0 ==> rank(s[k - 1]) >= rank(x);
  }

  /** Wherever the comparison follows a rank the result descends by it. */
  lemma {:induction false} SortedDescends(rules: seq<Rule>, rank: Rule -> int)
    requires Respects(rules, rank)
    ensures Descending(Sorted(rules), rank)
  {
    if rules != [] {
      var init, last := rules[..|rules| - 1], rules[|rules| - 1];
      SplitPart(rules, |init|);
      SortedDescends(init, rank);
      forall n | 0 <= n < |Sorted(init)|
        ensures Follows(last, Sorted(init)[n], rank)
      {
        var i := SortedOrigin(init, n);
        assert Follows(rules[|init|], rules[i], rank);
      }
      InsertDescends(Sorted(init), last, rank);
    }
  }

  /** The rules that `pick` picks, in their order. */
  ghost function Chosen(s: seq<Rule>, pick: Rule -> bool): seq<Rule> {
    if s == [] then []
    else Chosen(s[..|s| - 1], pick) + (if pick(s[|s| - 1]) then [s[|s| - 1]] else [])
  }

  lemma {:induction false} ChosenConcat(a: seq<Rule>, b: seq<Rule>, pick: Rule -> bool)
    ensures Chosen(a + b, pick) == Chosen(a, pick) + Chosen(b, pick)
  {
    if b == [] {
      assert a + b == a;
    } else {
      assert (a + b)[..|a + b| - 1] == a + b[..|b| - 1];
      ChosenConcat(a, b[..|b| - 1], pick);
    }
  }

  lemma {:induction false} NoneChosen(s: seq<Rule>, pick: Rule -> bool)
    requires forall n :: 0 <= n < |s| ==> !pick(s[n])
    ensures Chosen(s, pick) == []
  {
    if s != [] {
      NoneChosen(s[..|s| - 1], pick);
    }
  }

  lemma ChosenBetween(a: seq<Rule>, x: Rule, b: seq<Rule>, pick: Rule -> bool)
    requires pick(x) ==> forall n :: 0 <= n < |b| ==> !pick(b[n])
    ensures Chosen(a + [x] + b, pick) == Chosen(a + b, pick) + Chosen([x], pick)
  {
    hide Chosen;
    ChosenConcat(a, b, pick);
    ChosenConcat(a + [x], b, pick);
    ChosenConcat(a, [x], pick);
    if pick(x) {
      NoneChosen(b, pick);
    } else {
      assert [x][0] == x;
      NoneChosen([x], pick);
    }
  }

  lemma InsertStable(s: seq<Rule>, x: Rule, pick: Rule -> bool)
    requires IsSplit(s) && |x.matches| == 1
    requires pick(x) ==> forall n :: 0 <= n < |s| && pick(s[n]) ==> !Less(x, s[n])
    ensures Chosen(Insert(s, x), pick) == Chosen(s, pick) + Chosen([x], pick)
  {
    hide Chosen, Less, Placed;
    PlacedStable(s, x, InsertPos(s, x), pick);
  }

  lemma PlacedStable(s: seq<Rule>, x: Rule, k: nat, pick: Rule -> bool)
    requires k <= |s|
    requires pick(x) ==> forall n :: k <= n < |s| ==> !pick(s[n])
    ensures Chosen(Placed(s, x, k), pick) == Chosen(s, pick) + Chosen([x], pick)
  {
    hide Chosen;
    assert s == s[..k] + s[k..];
    ChosenBetween(s[..k], x, s[k..], pick);
  }

  /** No two of the rules that `pick` picks are in the relation. */
  ghost predicate Tied(rules: seq<Rule>, pick: Rule -> bool) {
    && IsSplit(rules)
    && forall i, j :: 0 <= i < |rules| && 0 <= j < |rules| && i != j && pick(rules[i]) && pick(rules[j]) ==>
         !Less(rules[i], rules[j])
  }

  /** Rules that the comparison does not tell apart keep their order, whatever stands between them. */
  lemma {:induction false} SortedStable(rules: seq<Rule>, pick: Rule -> bool)
    requires Tied(rules, pick)
    ensures Chosen(Sorted(rules), pick) == Chosen(rules, pick)
  {
    if rules != [] {
      var init, last := rules[..|rules| - 1], rules[|rules| - 1];
      assert rules == init + [last];
      SplitPart(rules, |init|);
      SortedStable(init, pick);
      forall n | 0 <= n < |Sorted(init)| && pick(last) && pick(Sorted(init)[n])
        ensures !Less(last, Sorted(init)[n])
      {
        var i := SortedOrigin(init, n);
        assert !Less(rules[|init|], rules[i]);
      }
      InsertStable(Sorted(init), last, pick);
      ChosenConcat(init, [last], pick);
    }
  }

  // ----- longest prefix -----

  predicate PrefixRule(rule: Rule) {
    |rule.matches| == 1 && HasPath(rule.matches[0], PathPrefix)
  }

  /** A single match on a path prefix starting with a slash, and nothing else. */
  predicate PrefixOnly(rule: Rule) {
    PrefixRule(rule) && CriteriaCount(rule.matches[0]) == 1 && Strings.HasPrefix(PrefixOf(rule), "/")
  }

  function PrefixOf(rule: Rule): string {
    if PrefixRule(rule) then rule.matches[0].path.value.value else ""
  }

  function PrefixLength(rule: Rule): int {
    |PrefixOf(rule)|
  }

  ghost predicate AllPrefixOnly(rules: seq<Rule>) {
    forall r :: r in rules ==> PrefixOnly(r)
  }

  lemma AcceptedPrefix(rule: Rule, req: Request)
    requires PrefixOnly(rule)
    ensures Accepts(rule, req) <==> PrefixMatches(PrefixOf(rule), req.path)
  {
    assert rule.matches[0] in rule.matches;
    assert Matches(rule.matches[0], req) <==> PrefixMatches(PrefixOf(rule), req.path);
  }

  lemma PrefixDetermines(x: Rule, y: Rule)
    requires PrefixOnly(x) && PrefixOnly(y) && PrefixOf(x) == PrefixOf(y)
    ensures x.matches == y.matches
  {
    var a, b := x.matches[0], y.matches[0];
    assert x.matches == [a] && y.matches == [b];
    assert a.headers == b.headers == [] && a.queryParams == b.queryParams == [];
  }

  lemma PrefixRanks(rules: seq<Rule>)
    requires AllPrefixOnly(rules)
    ensures Respects(rules, PrefixLength)
  {
    assert forall i :: 0 <= i < |rules| ==> rules[i] in rules;
    forall i, j | 0 <= i < |rules| && 0 <= j < |rules|
      ensures Follows(rules[i], rules[j], PrefixLength)
    {
      assert PrefixOnly(rules[i]) && PrefixOnly(rules[j]);
    }
  }

  /** Two prefixes of one length that match one path are the same prefix. */
  lemma PrefixLengthDetermines(p: string, q: string, path: string)
    requires PrefixMatches(p, path) && PrefixMatches(q, path) && |p| == |q|
    ensures p == q
  {
    var p', q' := StripTrailingSlash(p), StripTrailingSlash(q);
    assert p == p' || p == p' + "/";
    assert q == q' || q == q' + "/";
    assert p' == path[..|p'|] && q' == path[..|q'|];
    assert |p'| < |path| ==> path[|p'|] == '/' by {
      if |p'| < |path| {
        assert path[..|p'| + 1][|p'|] == (p' + "/")[|p'|];
      }
    }
    assert |q'| < |path| ==> path[|q'|] == '/' by {
      if |q'| < |path| {
        assert path[..|q'| + 1][|q'|] == (q' + "/")[|q'|];
      }
    }
  }

  /** Longest-prefix routing: on prefix-only rules some rule is selected iff any accepts, and its
    * prefix is strictly longer than every other prefix that accepts the request. */
  lemma LongestPrefixWins(rules: seq<Rule>, req: Request, other: Rule)
    requires AllPrefixOnly(rules)
    requires other in rules && Accepts(other, req)
    ensures IsSplit(rules)
    ensures var sel := FirstMatch(Sorted(rules), req);
            && sel.Some? && sel.value in rules
            && (sel.value.matches == other.matches || |PrefixOf(other)| < |PrefixOf(sel.value)|)
  {
    PrefixRanks(rules);
    SortedDescends(rules, PrefixLength);
    SortedMembers(rules);
    var sel := FirstMatch(Sorted(rules), req);
    DescendingFirst(Sorted(rules), PrefixLength, req, other);
    AcceptedPrefix(sel.value, req);
    AcceptedPrefix(other, req);
    if |PrefixOf(other)| == |PrefixOf(sel.value)| {
      PrefixLengthDetermines(PrefixOf(other), PrefixOf(sel.value), req.path);
      PrefixDetermines(other, sel.value);
    }
  }

  lemma {:induction false} DescendingFirst(s: seq<Rule>, rank: Rule -> int, req: Request, other: Rule)
    requires Descending(s, rank) && other in s && Accepts(other, req)
    ensures FirstMatch(s, req).Some? && rank(FirstMatch(s, req).value) >= rank(other)
  {
    var i :| 0 <= i < |s| && s[i] == other;
    if !Accepts(s[0], req) {
      assert other == s[1..][i - 1];
      DescendingFirst(s[1..], rank, req, other);
    }
  }

  // ----- prefixes next to rules without a prefix -----

  /** A prefix-only rule other than the catch-all. */
  predicate SpecificPrefix(rule: Rule) {
    PrefixOnly(rule) && !IsCatchall(rule)
  }

  /** A rule without a path prefix: the comparison never moves it past a specific prefix, nor a
    * specific prefix past it. */
  predicate Barrier(rule: Rule) {
    |rule.matches| == 1 && !PrefixRule(rule)
  }

  /** `p` is the shorter prefix, and some request is accepted by both. */
  ghost predicate Nested(p: Rule, q: Rule) {
    SpecificPrefix(p) && SpecificPrefix(q) && |PrefixOf(p)| < |PrefixOf(q)|
    && exists req :: Accepts(p, req) && Accepts(q, req)
  }

  ghost predicate MisroutedTo(s: seq<Rule>, p: Rule, q: Rule, req: Request) {
    && SpecificPrefix(p) && SpecificPrefix(q) && |PrefixOf(p)| < |PrefixOf(q)|
    && q in s && Accepts(q, req) && FirstMatch(s, req) == Some(p)
  }

  /** Some request is answered by the shorter of two prefixes that accept it. */
  ghost predicate Misrouted(s: seq<Rule>) {
    exists p, q, req :: MisroutedTo(s, p, q, req)
  }

  /** Prefix `/a`, exact `/x`, prefix `/a/b` is an instance: the order stays as it is. */
  lemma BarrierHolds(p: Rule, y: Rule, q: Rule)
    requires SpecificPrefix(p) && SpecificPrefix(q) && Barrier(y)
    ensures Sorted([p, y, q]) == [p, y, q]
  {
    BarrierNotLess(p, y, q);
    SortedPair(p, y);
    assert [p, y] + [q] == [p, y, q];
    SortedSnoc([p, y], q);
    InsertLast([p, y], q);
  }

  lemma BarrierNotLess(p: Rule, y: Rule, q: Rule)
    requires SpecificPrefix(p) && SpecificPrefix(q) && Barrier(y)
    ensures !Less(y, p) && !Less(q, y)
  {}

  /** Only a path can make a match accept this request: it has no headers or parameters, and its
    * method is one that no rule names. */
  ghost predicate Bare(req: Request, rules: seq<Rule>) {
    && req.headers == map[] && req.queryParams == map[]
    && forall r, m :: r in rules && m in r.matches ==> m.verb != Some(req.verb)
  }

  lemma {:induction false} UnusedVerb(rules: seq<Rule>) returns (verb: string)
    requires IsSplit(rules)
    ensures forall r, m :: r in rules && m in r.matches && m.verb.Some? ==> |m.verb.value| < |verb|
  {
    if rules == [] {
      verb := "x";
    } else {
      var init, last := rules[..|rules| - 1], rules[|rules| - 1];
      SplitPart(rules, |init|);
      var before := UnusedVerb(init);
      var v := last.matches[0].verb;
      verb := before + (if v.Some? then v.value else "") + "x";
      forall r, m | r in rules && m in r.matches && m.verb.Some?
        ensures |m.verb.value| < |verb|
      {
        assert r in init || (r == last && m == last.matches[0]);
      }
    }
  }

  lemma NothingMatches(ms: seq<ValueMatch>, req: Request)
    ensures ms != [] ==> exists m :: m in ms && !ValueMatches(m, map[], req)
  {
    if ms != [] {
      assert ms[0] in ms && !ValueMatches(ms[0], map[], req);
    }
  }

  /** What accepts a bare request passes no barrier or passes no specific prefix. */
  lemma BareStays(x: Rule, y: Rule, q: Rule, req: Request, rules: seq<Rule>)
    requires x in rules && |x.matches| == 1 && Bare(req, rules) && Accepts(x, req)
    requires Barrier(y) && SpecificPrefix(q)
    ensures !Less(x, y) || !Less(x, q)
  {
    var m := x.matches[0];
    assert x.matches == [m] && m in x.matches && Matches(m, req);
    NothingMatches(m.headers, req);
    NothingMatches(m.queryParams, req);
    assert m.verb.None? && m.headers == [] && m.queryParams == [];
  }

  /** `p`, `y`, `q` stand in this order and nothing before `p` accepts the request. */
  ghost predicate Ahead(s: seq<Rule>, p: Rule, y: Rule, q: Rule, req: Request, i: int, j: int, k: int) {
    && 0 <= i < j < k < |s| && s[i] == p && s[j] == y && s[k] == q
    && forall n :: 0 <= n < i ==> !Accepts(s[n], req)
  }

  lemma InsertKeepsAhead(s: seq<Rule>, x: Rule, p: Rule, y: Rule, q: Rule, req: Request, i: nat, j: nat, k: nat)
    requires IsSplit(s) && |x.matches| == 1 && Ahead(s, p, y, q, req, i, j, k)
    requires Accepts(x, req) ==> !Less(x, y) || !Less(x, q)
    ensures exists i', j', k' :: Ahead(Insert(s, x), p, y, q, req, i', j', k')
  {
    hide Less, Accepts;
    var at, r := InsertPos(s, x), Insert(s, x);
    assert Accepts(x, req) ==> at > j;
    var i', j', k' := if i < at then i else i + 1, if j < at then j else j + 1, if k < at then k else k + 1;
    assert Ahead(r, p, y, q, req, i', j', k');
  }

  lemma {:induction false} SortedKeepsAhead(p: Rule, y: Rule, q: Rule, rest: seq<Rule>, req: Request, rules: seq<Rule>)
    requires IsSplit([p, y, q] + rest) && SpecificPrefix(p) && Barrier(y) && SpecificPrefix(q)
    requires Bare(req, rules) && forall r :: r in rest ==> r in rules
    ensures exists i, j, k :: Ahead(Sorted([p, y, q] + rest), p, y, q, req, i, j, k)
  {
    if rest == [] {
      assert [p, y, q] + rest == [p, y, q];
      BarrierHolds(p, y, q);
      assert Ahead([p, y, q], p, y, q, req, 0, 1, 2);
    } else {
      var init, last := rest[..|rest| - 1], rest[|rest| - 1];
      var front := [p, y, q] + init;
      assert [p, y, q] + rest == front + [last];
      assert ([p, y, q] + rest)[|front|] == last;
      SplitPart([p, y, q] + rest, |front|);
      SortedKeepsAhead(p, y, q, init, req, rules);
      var i, j, k :| Ahead(Sorted(front), p, y, q, req, i, j, k);
      SortedSnoc(front, last);
      if Accepts(last, req) {
        BareStays(last, y, q, req, rules);
      }
      InsertKeepsAhead(Sorted(front), last, p, y, q, req, i, j, k);
    }
  }

  lemma BareWitness(rules: seq<Rule>, p: Rule, q: Rule) returns (req: Request)
    requires IsSplit(rules) && Nested(p, q)
    ensures Bare(req, rules) && Accepts(p, req) && Accepts(q, req)
  {
    var both :| Accepts(p, both) && Accepts(q, both);
    var verb := UnusedVerb(rules);
    req := Request(both.path, verb, map[], map[], (pattern, text) => false);
    AcceptedPrefix(p, both);
    AcceptedPrefix(q, both);
    AcceptedPrefix(p, req);
    AcceptedPrefix(q, req);
  }

  lemma BarrierBreaks(rules: seq<Rule>, p: Rule, y: Rule, q: Rule) returns (perm: seq<Rule>)
    requires IsSplit(rules) && p in rules && y in rules && q in rules
    requires Nested(p, q) && Barrier(y)
    ensures Permutes(perm, rules) && IsSplit(perm) && Misrouted(Sorted(perm))
  {
    var rest := ExtractThree(rules, p, y, q);
    perm := [p, y, q] + rest;
    PermutesSplit(perm, rules);
    var req := BareWitness(rules, p, q);
    assert forall r :: r in rest ==> r in perm;
    hide Less, Accepts, Bare;
    SortedKeepsAhead(p, y, q, rest, req, rules);
    var i, j, k :| Ahead(Sorted(perm), p, y, q, req, i, j, k);
    FirstMatchAt(Sorted(perm), req, i);
    assert MisroutedTo(Sorted(perm), p, q, req);
  }

  ghost predicate AllPrefixRules(rules: seq<Rule>) {
    forall r :: r in rules ==> PrefixRule(r)
  }

  /** No longer prefix stands after a specific prefix. */
  ghost predicate LongerFirst(s: seq<Rule>) {
    forall i, j :: 0 <= i < j < |s| && SpecificPrefix(s[i]) && PrefixRule(s[j]) ==>
      |PrefixOf(s[j])| <= |PrefixOf(s[i])|
  }

  lemma LongerIsLess(x: Rule, y: Rule)
    requires PrefixRule(x) && PrefixRule(y)
    ensures |PrefixOf(x)| > |PrefixOf(y)| ==> Less(x, y)
    ensures SpecificPrefix(x) && Less(x, y) ==> |PrefixOf(x)| >= |PrefixOf(y)|
  {}

  lemma InsertLongerFirst(s: seq<Rule>, x: Rule)
    requires IsSplit(s) && PrefixRule(x) && AllPrefixRules(s) && LongerFirst(s)
    ensures LongerFirst(Insert(s, x))
  {
    forall n | 0 <= n < |s|
      ensures PrefixRule(s[n])
      ensures |PrefixOf(x)| > |PrefixOf(s[n])| ==> Less(x, s[n])
      ensures SpecificPrefix(x) && Less(x, s[n]) ==> |PrefixOf(x)| >= |PrefixOf(s[n])|
    {
      assert s[n] in s;
      LongerIsLess(x, s[n]);
    }
    hide Less, SpecificPrefix, PrefixRule, PrefixOf;
    var k := InsertPos(s, x);
    assert k > 0 ==> |PrefixOf(x)| <= |PrefixOf(s[k - 1])|;
  }

  lemma {:induction false} SortedLongerFirst(rules: seq<Rule>)
    requires AllPrefixRules(rules)
    ensures IsSplit(rules) && LongerFirst(Sorted(rules))
  {
    assert forall i :: 0 <= i < |rules| ==> PrefixRule(rules[i]);
    if rules != [] {
      var init := rules[..|rules| - 1];
      SortedLongerFirst(init);
      SortedMembers(init);
      InsertLongerFirst(Sorted(init), rules[|rules| - 1]);
    }
  }

  lemma {:induction false} LongerFirstRoutes(s: seq<Rule>, p: Rule, q: Rule, req: Request)
    requires LongerFirst(s) && SpecificPrefix(p) && SpecificPrefix(q) && q in s && Accepts(q, req)
    requires FirstMatch(s, req) == Some(p)
    ensures |PrefixOf(q)| <= |PrefixOf(p)|
  {
    var j :| 0 <= j < |s| && s[j] == q;
    if !Accepts(s[0], req) {
      assert q == s[1..][j - 1];
      LongerFirstRoutes(s[1..], p, q, req);
    }
  }

  /** For all single-match rules: no order of the input misroutes a request from a longer prefix to a
    * shorter one, if and only if no nested prefixes occur together with a rule that has no prefix. */
  lemma LongestPrefixExactly(rules: seq<Rule>)
    requires IsSplit(rules)
    ensures (forall perm :: Permutes(perm, rules) && IsSplit(perm) ==> !Misrouted(Sorted(perm)))
       <==> !(exists p, y, q :: p in rules && y in rules && q in rules && Nested(p, q) && Barrier(y))
  {
    if p, y, q :| p in rules && y in rules && q in rules && Nested(p, q) && Barrier(y) {
      var perm := BarrierBreaks(rules, p, y, q);
    } else {
      forall perm, p, q, req | Permutes(perm, rules) && IsSplit(perm)
        ensures !MisroutedTo(Sorted(perm), p, q, req)
      {
        NotMisrouted(perm, rules, p, q, req);
      }
    }
  }

  lemma NotMisrouted(perm: seq<Rule>, rules: seq<Rule>, p: Rule, q: Rule, req: Request)
    requires Permutes(perm, rules) && IsSplit(perm) && IsSplit(rules)
    requires p in rules && q in rules && Nested(p, q) ==> forall y :: y in rules ==> !Barrier(y)
    ensures !MisroutedTo(Sorted(perm), p, q, req)
  {
    PermutesSplit(perm, rules);
    SortedMembers(perm);
    if MisroutedTo(Sorted(perm), p, q, req) {
      assert Nested(p, q);
      assert forall i :: 0 <= i < |rules| ==> rules[i] in rules;
      SortedLongerFirst(perm);
      LongerFirstRoutes(Sorted(perm), p, q, req);
    }
  }

  /** Two catch-alls (their filters differ) come out in reverse order: the comparison says that
    * each is less than the other. */
  lemma CatchallTieReversed(c: Rule, d: Rule)
    requires IsCatchall(c) && IsCatchall(d)
    ensures Sorted([c, d]) == [d, c]
  {
    SortedPair(c, d);
  }
}
