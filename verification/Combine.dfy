/** Splitting multi-match rules and merging rules with equal keys (internal/envoy/resource.go). */
module Combine {
  import opened Wrappers
  import opened Routes

  // ----- splitMatches -----

  function SplitRule(rule: Rule): seq<Rule> {
    seq(|rule.matches|, i requires 0 <= i < |rule.matches| => rule.(matches := [rule.matches[i]]))
  }

  function Split(rules: seq<Rule>): seq<Rule> {
    if rules == [] then [] else Split(rules[..|rules| - 1]) + SplitRule(rules[|rules| - 1])
  }

  method SplitMatches(rules: seq<Rule>) returns (splits: seq<Rule>)
    ensures splits == Split(rules)
  {
    splits := [];
    for i := 0 to |rules|
      invariant splits == Split(rules[..i])
    {
      var rule := rules[i];
      for j := 0 to |rule.matches|
        invariant splits == Split(rules[..i]) + SplitRule(rule)[..j]
      {
        var split := rule.(matches := [rule.matches[j]]);
        splits := splits + [split];
      }
      assert rules[..i + 1][..i] == rules[..i];
    }
    assert rules[..|rules|] == rules;
  }

  ghost predicate IsSplit(rules: seq<Rule>) {
    forall i :: 0 <= i < |rules| ==> |rules[i].matches| == 1
  }

  /** A split rule is one (rule, match) pair of the input, with its filters and backends. */
  lemma {:induction false} SplitMembers(rules: seq<Rule>, s: Rule)
    ensures s in Split(rules)
       <==> exists r, m :: r in rules && m in r.matches && s == r.(matches := [m])
  {
    if rules != [] {
      var init, last := rules[..|rules| - 1], rules[|rules| - 1];
      SplitMembers(init, s);
      assert rules == init + [last];
      assert s in SplitRule(last) <==> exists m :: m in last.matches && s == last.(matches := [m]) by {
        if m :| m in last.matches && s == last.(matches := [m]) {
          var i :| 0 <= i < |last.matches| && last.matches[i] == m;
          assert SplitRule(last)[i] == s;
        }
      }
    }
  }

  /** Splitting keeps exactly the requests that some rule accepts. */
  lemma SplitRoutable(rules: seq<Rule>, req: Request)
    ensures Routable(Split(rules), req) <==> Routable(rules, req)
  {
    if r :| r in rules && Accepts(r, req) {
      var m :| m in r.matches && Matches(m, req);
      var s := r.(matches := [m]);
      SplitMembers(rules, s);
      assert m in s.matches;
      assert Accepts(s, req);
    }
    if s :| s in Split(rules) && Accepts(s, req) {
      SplitMembers(rules, s);
      var r, m :| r in rules && m in r.matches && s == r.(matches := [m]);
      assert Accepts(r, req);
    }
  }

  lemma SplitIsSplit(rules: seq<Rule>)
    ensures IsSplit(Split(rules))
  {
    forall i | 0 <= i < |Split(rules)|
      ensures |Split(rules)[i].matches| == 1
    {
      SplitMembers(rules, Split(rules)[i]);
    }
  }

  lemma {:induction false} SplitConcat(a: seq<Rule>, b: seq<Rule>)
    ensures Split(a + b) == Split(a) + Split(b)
  {
    if b == [] {
      assert a + b == a;
    } else {
      assert (a + b)[..|a + b| - 1] == a + b[..|b| - 1];
      SplitConcat(a, b[..|b| - 1]);
    }
  }

  /** How many (rule, match) pairs there are. */
  function MatchCount(rules: seq<Rule>): nat {
    if rules == [] then 0 else MatchCount(rules[..|rules| - 1]) + |rules[|rules| - 1].matches|
  }

  lemma {:induction false} MatchCountGrows(rules: seq<Rule>, i: nat)
    requires i < |rules|
    ensures MatchCount(rules[..i]) + |rules[i].matches| <= MatchCount(rules)
  {
    var init := rules[..|rules| - 1];
    if i < |init| {
      MatchCountGrows(init, i);
      assert init[..i] == rules[..i];
    } else {
      assert rules[..i] == init;
    }
  }

  /** Each pair exactly once and in order: match j of rule i stands after the matches of the rules before
    * it and after its own first j matches, alone in a rule with rule i's filters and backends. */
  lemma {:induction false} SplitAt(rules: seq<Rule>, i: nat, j: nat)
    requires i < |rules| && j < |rules[i].matches|
    ensures |Split(rules)| == MatchCount(rules) && MatchCount(rules[..i]) + j < MatchCount(rules)
    ensures Split(rules)[MatchCount(rules[..i]) + j]
         == Rule([rules[i].matches[j]], rules[i].filters, rules[i].backendRefs)
  {
    var init := rules[..|rules| - 1];
    SplitLength(rules);
    SplitLength(init);
    MatchCountGrows(rules, i);
    if i < |init| {
      SplitAt(init, i, j);
      assert init[..i] == rules[..i];
    } else {
      assert rules[..i] == init;
    }
  }

  lemma {:induction false} SplitLength(rules: seq<Rule>)
    ensures |Split(rules)| == MatchCount(rules)
  {
    if rules != [] {
      SplitLength(rules[..|rules| - 1]);
    }
  }

  /** How often a backend occurs when each rule contributes its backends once per match. */
  function BackendOccurrences(rules: seq<Rule>, b: BackendRef): nat {
    if rules == [] then 0
    else BackendOccurrences(rules[..|rules| - 1], b)
         + |rules[|rules| - 1].matches| * multiset(rules[|rules| - 1].backendRefs)[b]
  }

  /** The same for the weights. */
  function WeightPerMatch(rules: seq<Rule>): nat {
    if rules == [] then 0
    else WeightPerMatch(rules[..|rules| - 1])
         + |rules[|rules| - 1].matches| * TotalWeight(rules[|rules| - 1].backendRefs)
  }

  lemma {:induction false} SplitRuleBackends(rule: Rule, n: nat, b: BackendRef)
    requires n <= |rule.matches|
    ensures multiset(AllBackends(SplitRule(rule)[..n]))[b] == n * multiset(rule.backendRefs)[b]
    ensures TotalWeight(AllBackends(SplitRule(rule)[..n])) == n * TotalWeight(rule.backendRefs)
  {
    if n > 0 {
      SplitRuleBackends(rule, n - 1, b);
      SplitRuleStep(rule, n);
      Distribute(n - 1, multiset(rule.backendRefs)[b]);
      Distribute(n - 1, TotalWeight(rule.backendRefs));
      hide SplitRule, AllBackends, TotalWeight;
    }
  }

  lemma SplitRuleStep(rule: Rule, n: nat)
    requires 0 < n <= |rule.matches|
    ensures var now, before := AllBackends(SplitRule(rule)[..n]), AllBackends(SplitRule(rule)[..n - 1]);
            && multiset(now) == multiset(before) + multiset(rule.backendRefs)
            && TotalWeight(now) == TotalWeight(before) + TotalWeight(rule.backendRefs)
  {
    var whole := SplitRule(rule);
    assert whole[n - 1].backendRefs == rule.backendRefs;
    assert whole[..n] == whole[..n - 1] + [whole[n - 1]];
    hide SplitRule, AllBackends, TotalWeight;
    AppendBackends(whole[..n - 1], whole[n - 1]);
  }

  lemma Distribute(n: nat, x: nat)
    ensures (n + 1) * x == n * x + x
  {}

  /** Splitting repeats each rule's backends once per match, no more and no less. */
  lemma {:induction false} SplitBackends(rules: seq<Rule>, b: BackendRef)
    ensures multiset(AllBackends(Split(rules)))[b] == BackendOccurrences(rules, b)
    ensures TotalWeight(AllBackends(Split(rules))) == WeightPerMatch(rules)
  {
    if rules != [] {
      var init, last := rules[..|rules| - 1], rules[|rules| - 1];
      SplitBackends(init, b);
      SplitRuleBackends(last, |last.matches|, b);
      assert SplitRule(last)[..|last.matches|] == SplitRule(last);
      AllBackendsConcat(Split(init), SplitRule(last));
      TotalWeightConcat(AllBackends(Split(init)), AllBackends(SplitRule(last)));
    }
  }

  // ----- combineRouteRules: group by key -----

  function Keys(rules: seq<Rule>): seq<RuleKey> {
    seq(|rules|, i requires 0 <= i < |rules| => KeyOf(rules[i]))
  }

  /** The distinct elements of `s`, each where it first occurs. */
  function FirstOccurrences<T(==)>(s: seq<T>): seq<T> {
    if s == [] then []
    else
      var before := FirstOccurrences(s[..|s| - 1]);
      if s[|s| - 1] in before then before else before + [s[|s| - 1]]
  }

  /** The backends of every rule with key `k`, in input order. */
  function BackendsFor(rules: seq<Rule>, k: RuleKey): seq<BackendRef> {
    if rules == [] then []
    else BackendsFor(rules[..|rules| - 1], k)
         + (if KeyOf(rules[|rules| - 1]) == k then rules[|rules| - 1].backendRefs else [])
  }

  /** How many backends the rules with these matches and filters have. */
  function KeyBackendCount(rules: seq<Rule>, matches: seq<Match>, filters: seq<Filter>): nat {
    if rules == [] then 0
    else
      var last := rules[|rules| - 1];
      KeyBackendCount(rules[..|rules| - 1], matches, filters)
      + (if last.matches == matches && last.filters == filters then |last.backendRefs| else 0)
  }

  /** The backends of a group exactly: backend j of a rule with the group's matches and filters stands
    * after the backends of the earlier such rules, and there are no others. */
  lemma {:induction false} GroupBackendsAt(rules: seq<Rule>, matches: seq<Match>, filters: seq<Filter>, i: nat, j: nat)
    requires i < |rules| && rules[i].matches == matches && rules[i].filters == filters
    requires j < |rules[i].backendRefs|
    ensures var refs := BackendsFor(rules, RuleKey(matches, filters));
            var at := KeyBackendCount(rules[..i], matches, filters) + j;
            |refs| == KeyBackendCount(rules, matches, filters) && at < |refs| && refs[at] == rules[i].backendRefs[j]
  {
    var init := rules[..|rules| - 1];
    GroupBackendsLength(rules, matches, filters);
    GroupBackendsLength(init, matches, filters);
    if i < |init| {
      GroupBackendsAt(init, matches, filters, i, j);
      assert init[..i] == rules[..i];
    } else {
      assert rules[..i] == init;
    }
  }

  lemma {:induction false} GroupBackendsLength(rules: seq<Rule>, matches: seq<Match>, filters: seq<Filter>)
    ensures |BackendsFor(rules, RuleKey(matches, filters))| == KeyBackendCount(rules, matches, filters)
  {
    if rules != [] {
      GroupBackendsLength(rules[..|rules| - 1], matches, filters);
    }
  }

  function Group(rules: seq<Rule>, k: RuleKey): Rule {
    Rule(k.matches, k.filters, BackendsFor(rules, k))
  }

  /** Group by key: one rule per key, in order of first occurrence. */
  function Grouped(rules: seq<Rule>): seq<Rule> {
    var ks := FirstOccurrences(Keys(rules));
    seq(|ks|, i requires 0 <= i < |ks| => Group(rules, ks[i]))
  }

  ghost predicate Distinct<T>(s: seq<T>) {
    forall i, j :: 0 <= i < j < |s| ==> s[i] != s[j]
  }

  lemma {:induction false} FirstOccurrencesDistinct<T>(s: seq<T>)
    ensures Distinct(FirstOccurrences(s))
    ensures forall x :: x in FirstOccurrences(s) <==> x in s
  {
    if s != [] {
      FirstOccurrencesDistinct(s[..|s| - 1]);
      assert s == s[..|s| - 1] + [s[|s| - 1]];
    }
  }

  lemma KeysSnoc(init: seq<Rule>, r: Rule)
    ensures Keys(init + [r]) == Keys(init) + [KeyOf(r)]
  {}

  lemma FirstOccurrencesSnoc<T>(init: seq<T>, x: T)
    ensures FirstOccurrences(init + [x])
         == if x in init then FirstOccurrences(init) else FirstOccurrences(init) + [x]
  {
    assert (init + [x])[..|init|] == init;
    FirstOccurrencesDistinct(init);
  }

  lemma BackendsForSnoc(init: seq<Rule>, r: Rule, k: RuleKey)
    ensures BackendsFor(init + [r], k) == BackendsFor(init, k) + (if KeyOf(r) == k then r.backendRefs else [])
  {
    assert (init + [r])[..|init|] == init;
  }

  /** A rule whose key is known joins its group. */
  lemma GroupedMerge(init: seq<Rule>, r: Rule, i: nat)
    requires i < |Grouped(init)| && ShouldMerge(Grouped(init)[i], r)
    ensures var g := Grouped(init);
            Grouped(init + [r]) == g[i := g[i].(backendRefs := g[i].backendRefs + r.backendRefs)]
  {
    hide FirstOccurrences, BackendsFor;
    var g, ks := Grouped(init), FirstOccurrences(Keys(init));
    FirstOccurrencesDistinct(Keys(init));
    KeysSnoc(init, r);
    FirstOccurrencesSnoc(Keys(init), KeyOf(r));
    assert ks[i] == KeyOf(r);
    forall n | 0 <= n < |ks|
      ensures Group(init + [r], ks[n])
           == if n == i then g[i].(backendRefs := g[i].backendRefs + r.backendRefs) else g[n]
    {
      BackendsForSnoc(init, r, ks[n]);
    }
  }

  /** A rule with a new key opens the last group. */
  lemma GroupedAppend(init: seq<Rule>, r: Rule)
    requires forall i :: 0 <= i < |Grouped(init)| ==> !ShouldMerge(Grouped(init)[i], r)
    ensures Grouped(init + [r]) == Grouped(init) + [r]
  {
    hide FirstOccurrences, BackendsFor;
    var g, ks := Grouped(init), FirstOccurrences(Keys(init));
    FirstOccurrencesDistinct(Keys(init));
    KeysSnoc(init, r);
    FirstOccurrencesSnoc(Keys(init), KeyOf(r));
    assert forall n :: 0 <= n < |ks| ==> KeyOf(g[n]) == ks[n];
    NoBackends(init, KeyOf(r));
    forall n | 0 <= n < |ks|
      ensures Group(init + [r], ks[n]) == g[n]
    {
      BackendsForSnoc(init, r, ks[n]);
    }
    BackendsForSnoc(init, r, KeyOf(r));
    assert [] + r.backendRefs == r.backendRefs;
    assert Group(init + [r], KeyOf(r)) == r;
  }

  lemma {:induction false} NoBackends(rules: seq<Rule>, k: RuleKey)
    requires k !in Keys(rules)
    ensures BackendsFor(rules, k) == []
  {
    if rules != [] {
      var init := rules[..|rules| - 1];
      KeysSnoc(init, rules[|rules| - 1]);
      assert rules == init + [rules[|rules| - 1]];
      NoBackends(init, k);
    }
  }

  lemma FewRulesUnchanged(rules: seq<Rule>)
    requires |rules| < 2
    ensures Grouped(rules) == rules
  {
    if rules != [] {
      GroupedAppend([], rules[0]);
      assert [] + rules == rules;
    }
  }

  method CombineRouteRules(rules: seq<Rule>) returns (out: seq<Rule>)
    ensures out == Grouped(rules)
  {
    if |rules| < 2 {
      FewRulesUnchanged(rules);
      return rules;
    }
    out := [];
    for n := 0 to |rules|
      invariant out == Grouped(rules[..n])
    {
      var inputRule := rules[n];
      var addRule := true;
      var i := 0;
      while i < |out|
        invariant 0 <= i <= |out|
        invariant addRule ==> out == Grouped(rules[..n])
        invariant addRule ==> forall j :: 0 <= j < i ==> !ShouldMerge(out[j], inputRule)
        invariant !addRule ==> out == Grouped(rules[..n + 1])
      {
        var possibleMerge := out[i];
        if ShouldMerge(possibleMerge, inputRule) {
          GroupedMerge(rules[..n], inputRule, i);
          assert rules[..n + 1] == rules[..n] + [inputRule];
          out := out[i := out[i].(backendRefs := possibleMerge.backendRefs + inputRule.backendRefs)];
          addRule := false;
          break;
        }
        i := i + 1;
      }
      if addRule {
        GroupedAppend(rules[..n], inputRule);
        out := out + [inputRule];
      }
      assert rules[..n + 1] == rules[..n] + [inputRule];
    }
    assert rules[..|rules|] == rules;
  }

  // ----- what grouping keeps -----

  lemma KeysOfGrouped(rules: seq<Rule>)
    ensures Keys(Grouped(rules)) == FirstOccurrences(Keys(rules))
  {}

  /** No two output rules could still be merged, and no key is lost or invented. */
  lemma GroupedKeysDistinct(rules: seq<Rule>)
    ensures Distinct(Keys(Grouped(rules)))
    ensures forall k :: k in Keys(Grouped(rules)) <==> k in Keys(rules)
    ensures forall i, j :: 0 <= i < j < |Grouped(rules)| ==> !ShouldMerge(Grouped(rules)[i], Grouped(rules)[j])
  {
    KeysOfGrouped(rules);
    FirstOccurrencesDistinct(Keys(rules));
    forall i, j | 0 <= i < j < |Grouped(rules)|
      ensures !ShouldMerge(Grouped(rules)[i], Grouped(rules)[j])
    {
      assert Keys(Grouped(rules))[i] != Keys(Grouped(rules))[j];
    }
  }

  ghost predicate FirstAt<T>(s: seq<T>, x: T, p: nat) {
    p < |s| && s[p] == x && x !in s[..p]
  }

  lemma {:induction false} FirstOccurrencesInOrder<T>(s: seq<T>, i: nat, j: nat, p: nat, q: nat)
    requires i < j < |FirstOccurrences(s)|
    requires FirstAt(s, FirstOccurrences(s)[i], p) && FirstAt(s, FirstOccurrences(s)[j], q)
    ensures p < q
  {
    var init := s[..|s| - 1];
    var before := FirstOccurrences(init);
    FirstOccurrencesDistinct(init);
    var x := FirstOccurrences(s)[i];
    assert x in before;
    if j < |before| {
      assert FirstOccurrences(s)[j] in init && x in init;
      FirstInInit(s, x, p);
      FirstInInit(s, before[j], q);
      FirstOccurrencesInOrder(init, i, j, p, q);
    } else {
      FirstInInit(s, x, p);
      assert forall k :: 0 <= k < |init| ==> s[k] in init;
    }
  }

  /** The output rules come in the order in which their keys first occur in the input. */
  lemma GroupedInFirstOccurrenceOrder(rules: seq<Rule>, i: nat, j: nat, p: nat, q: nat)
    requires i < j < |Grouped(rules)|
    requires FirstAt(Keys(rules), KeyOf(Grouped(rules)[i]), p) && FirstAt(Keys(rules), KeyOf(Grouped(rules)[j]), q)
    ensures p < q
  {
    FirstOccurrencesInOrder(Keys(rules), i, j, p, q);
  }

  lemma FirstInInit<T>(s: seq<T>, x: T, p: nat)
    requires s != [] && x in s[..|s| - 1] && FirstAt(s, x, p)
    ensures FirstAt(s[..|s| - 1], x, p)
  {
    var i :| 0 <= i < |s| - 1 && s[i] == x;
    assert forall k :: 0 <= k < p ==> s[k] in s[..p];
    assert s[..|s| - 1][..if p < |s| - 1 then p else |s| - 1] == s[..if p < |s| - 1 then p else |s| - 1];
  }

  /** Merging conserves every backend reference, with multiplicity, and so the total weight. */
  lemma {:induction false} GroupedConservesBackends(rules: seq<Rule>)
    ensures multiset(AllBackends(Grouped(rules))) == multiset(AllBackends(rules))
    ensures TotalWeight(AllBackends(Grouped(rules))) == TotalWeight(AllBackends(rules))
  {
    if rules != [] {
      var init, r := rules[..|rules| - 1], rules[|rules| - 1];
      assert rules == init + [r];
      GroupedConservesBackends(init);
      AppendBackends(init, r);
      var g := Grouped(init);
      if i :| 0 <= i < |g| && ShouldMerge(g[i], r) {
        GroupedMerge(init, r, i);
        AddBackendsAt(g, i, r.backendRefs);
      } else {
        GroupedAppend(init, r);
        AppendBackends(g, r);
      }
    }
  }

  lemma AppendBackends(g: seq<Rule>, r: Rule)
    ensures multiset(AllBackends(g + [r])) == multiset(AllBackends(g)) + multiset(r.backendRefs)
    ensures TotalWeight(AllBackends(g + [r])) == TotalWeight(AllBackends(g)) + TotalWeight(r.backendRefs)
  {
    assert (g + [r])[..|g|] == g;
    TotalWeightConcat(AllBackends(g), r.backendRefs);
  }

  lemma AddBackendsAt(g: seq<Rule>, i: nat, more: seq<BackendRef>)
    requires i < |g|
    ensures var g' := g[i := g[i].(backendRefs := g[i].backendRefs + more)];
            && multiset(AllBackends(g')) == multiset(AllBackends(g)) + multiset(more)
            && TotalWeight(AllBackends(g')) == TotalWeight(AllBackends(g)) + TotalWeight(more)
  {
    var a, b, rest := g[..i], g[i].backendRefs, g[i + 1..];
    var g' := g[i := g[i].(backendRefs := b + more)];
    AllBackendsAround(a, g[i], rest);
    AllBackendsAround(a, g'[i], rest);
    assert g == a + [g[i]] + rest;
    assert g' == a + [g'[i]] + rest;
    TotalWeightConcat(AllBackends(a), b);
    TotalWeightConcat(AllBackends(a) + b, AllBackends(rest));
    TotalWeightConcat(b, more);
    TotalWeightConcat(AllBackends(a), b + more);
    TotalWeightConcat(AllBackends(a) + (b + more), AllBackends(rest));
  }

  lemma AllBackendsAround(a: seq<Rule>, r: Rule, b: seq<Rule>)
    ensures AllBackends(a + [r] + b) == AllBackends(a) + r.backendRefs + AllBackends(b)
  {
    AllBackendsConcat(a + [r], b);
    AllBackendsConcat(a, [r]);
    assert [r][..0] == [];
    assert AllBackends([r]) == r.backendRefs;
  }

  ghost function KeyOption(r: Option<Rule>): Option<RuleKey> {
    if r.Some? then Some(KeyOf(r.value)) else None
  }

  /** Merging does not change which key a first-match proxy selects, for any request. */
  lemma {:induction false} GroupedFirstMatch(rules: seq<Rule>, req: Request)
    ensures KeyOption(FirstMatch(Grouped(rules), req)) == KeyOption(FirstMatch(rules, req))
  {
    if rules != [] {
      var init, r := rules[..|rules| - 1], rules[|rules| - 1];
      assert rules == init + [r];
      GroupedFirstMatch(init, req);
      FirstMatchConcat(init, [r], req);
      var g := Grouped(init);
      if i :| 0 <= i < |g| && ShouldMerge(g[i], r) {
        GroupedMerge(init, r, i);
        FirstMatchSameKeys(g, Grouped(rules), req);
        if FirstMatch(init, req).None? {
          assert !Routable(g, req) && g[i] in g;
          assert Accepts(g[i], req) == Accepts(r, req);
        }
      } else {
        GroupedAppend(init, r);
        FirstMatchConcat(g, [r], req);
      }
    }
  }

  lemma {:induction false} FirstMatchSameKeys(a: seq<Rule>, b: seq<Rule>, req: Request)
    requires Keys(a) == Keys(b)
    ensures KeyOption(FirstMatch(a, req)) == KeyOption(FirstMatch(b, req))
  {
    if a != [] {
      assert Keys(a)[0] == KeyOf(a[0]) && Keys(b)[0] == KeyOf(b[0]);
      assert Keys(a[1..]) == Keys(a)[1..] && Keys(b[1..]) == Keys(b)[1..];
      FirstMatchSameKeys(a[1..], b[1..], req);
    }
  }

  lemma GroupedRoutable(rules: seq<Rule>, req: Request)
    ensures Routable(Grouped(rules), req) <==> Routable(rules, req)
  {
    GroupedFirstMatch(rules, req);
  }

  lemma {:induction false} DistinctFirstOccurrences<T>(s: seq<T>)
    requires Distinct(s)
    ensures FirstOccurrences(s) == s
  {
    if s != [] {
      DistinctFirstOccurrences(s[..|s| - 1]);
    }
  }

  lemma {:induction false} SoleBackends(rules: seq<Rule>, i: nat)
    requires Distinct(Keys(rules)) && i < |rules|
    ensures BackendsFor(rules, KeyOf(rules[i])) == rules[i].backendRefs
  {
    var init, r := rules[..|rules| - 1], rules[|rules| - 1];
    KeysSnoc(init, r);
    assert rules == init + [r];
    assert forall j :: 0 <= j < |rules| ==> Keys(rules)[j] == KeyOf(rules[j]);
    if i < |init| {
      assert Keys(rules)[i] != Keys(rules)[|init|];
      SoleBackends(init, i);
    } else {
      NoBackends(init, KeyOf(r));
    }
  }

  /** Combining twice is combining once. */
  lemma GroupedIdempotent(rules: seq<Rule>)
    ensures Grouped(Grouped(rules)) == Grouped(rules)
  {
    var g := Grouped(rules);
    GroupedKeysDistinct(rules);
    DistinctFirstOccurrences(Keys(g));
    forall i | 0 <= i < |g|
      ensures Grouped(g)[i] == g[i]
    {
      SoleBackends(g, i);
      assert Keys(g)[i] == KeyOf(g[i]);
    }
  }
}
