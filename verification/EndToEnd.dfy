/** What the HTTP route compiler (internal/envoy/resource.go) promises of its output, in terms of the
  * (rule, match) pairs of the input routes: which backends the output holds, in which order its rules
  * come out, and which of them answers a request. */
module EndToEnd {
  import opened Wrappers
  import opened Routes
  import opened Combine
  import opened SortRules
  import opened SortOrders
  import opened Preprocess

  /** `s` is one match of one of the rules, with that rule's filters and backends. */
  ghost predicate PairIn(rules: seq<Rule>, s: Rule) {
    exists r, m :: r in rules && m in r.matches && s == Rule([m], r.filters, r.backendRefs)
  }

  /** A pair of an input route that carries the host. */
  ghost predicate IsPair(listener: Option<string>, raw: seq<HTTPRoute>, valid: string -> bool, host: string, s: Rule) {
    exists n :: 0 <= n < |raw| && Carries(listener, raw[n], valid, host) && PairIn(raw[n].rules, s)
  }

  ghost predicate ArePairs(listener: Option<string>, raw: seq<HTTPRoute>, valid: string -> bool, host: string,
                           p: Rule, q: Rule) {
    IsPair(listener, raw, valid, host, p) && IsPair(listener, raw, valid, host, q)
  }

  lemma PairInSplit(rules: seq<Rule>, s: Rule)
    ensures PairIn(rules, s) <==> s in Split(rules)
  {
    SplitMembers(rules, s);
    if r, m :| r in rules && m in r.matches && s == r.(matches := [m]) {
      assert s == Rule([m], r.filters, r.backendRefs);
    }
    if r, m :| r in rules && m in r.matches && s == Rule([m], r.filters, r.backendRefs) {
      assert s == r.(matches := [m]);
    }
  }

  lemma PairsExactly(listener: Option<string>, raw: seq<HTTPRoute>, valid: string -> bool, host: string, s: Rule)
    ensures IsPair(listener, raw, valid, host, s) <==> s in RulesFor(listener, raw, valid, host)
  {
    hide PairIn, Carries, RulesFor, Split;
    RulesForMembers(listener, raw, valid, host, s);
    forall n | 0 <= n < |raw|
      ensures PairIn(raw[n].rules, s) <==> s in Split(raw[n].rules)
    {
      PairInSplit(raw[n].rules, s);
    }
  }

  // ----- from pairs to output rules and back -----

  /** An output rule has the match and the filters of some pair. */
  lemma OutputHasPair(listener: Option<string>, raw: seq<HTTPRoute>, valid: string -> bool,
                      out: seq<HTTPRoute>, i: nat, o: Rule) returns (s: Rule)
    requires Compiled(listener, raw, valid, out) && i < |out| && o in out[i].rules
    ensures IsPair(listener, raw, valid, out[i].hostnames[0], s)
    ensures o.matches == s.matches && o.filters == s.filters && |s.matches| == 1
  {
    var rules := RulesFor(listener, raw, valid, out[i].hostnames[0]);
    CompiledRulesMembers(rules);
    GroupedHaveOrigin(rules);
    s :| s in rules && KeyOf(s) == KeyOf(o);
    PairsExactly(listener, raw, valid, out[i].hostnames[0], s);
    assert IsSplit(rules);
  }

  lemma OutputHasPairs(listener: Option<string>, raw: seq<HTTPRoute>, valid: string -> bool,
                       out: seq<HTTPRoute>, i: nat, x: Rule, y: Rule) returns (p: Rule, q: Rule)
    requires Compiled(listener, raw, valid, out) && i < |out| && x in out[i].rules && y in out[i].rules
    ensures ArePairs(listener, raw, valid, out[i].hostnames[0], p, q)
    ensures x.matches == p.matches && y.matches == q.matches
    ensures IsPair(listener, raw, valid, out[i].hostnames[0], p)
  {
    hide Compiled, IsPair;
    p := OutputHasPair(listener, raw, valid, out, i, x);
    q := OutputHasPair(listener, raw, valid, out, i, y);
  }

  /** And each pair has an output rule with its match and filters. */
  lemma PairHasOutput(listener: Option<string>, raw: seq<HTTPRoute>, valid: string -> bool,
                      out: seq<HTTPRoute>, i: nat, s: Rule) returns (o: Rule)
    requires Compiled(listener, raw, valid, out) && i < |out|
    requires IsPair(listener, raw, valid, out[i].hostnames[0], s)
    ensures o in out[i].rules && o.matches == s.matches && o.filters == s.filters
  {
    var rules := RulesFor(listener, raw, valid, out[i].hostnames[0]);
    PairsExactly(listener, raw, valid, out[i].hostnames[0], s);
    CompiledRulesMembers(rules);
    GroupsComplete(rules);
    o :| o in Grouped(rules) && KeyOf(o) == KeyOf(s);
  }

  /** The output rules are the sort of a list with the same members. */
  lemma OutputSorted(listener: Option<string>, raw: seq<HTTPRoute>, valid: string -> bool, out: seq<HTTPRoute>, i: nat)
    returns (g: seq<Rule>)
    requires Compiled(listener, raw, valid, out) && i < |out|
    ensures IsSplit(g) && out[i].rules == Sorted(g) && forall r :: r in g <==> r in out[i].rules
    ensures g == Grouped(RulesFor(listener, raw, valid, out[i].hostnames[0]))
  {
    var rules := RulesFor(listener, raw, valid, out[i].hostnames[0]);
    GroupedIsSplit(rules);
    g := Grouped(rules);
    SortedMembers(g);
  }

  /** Whether a rule accepts, and how it compares, depends on its matches alone. */
  lemma SameMatches(a: Rule, b: Rule, req: Request)
    requires a.matches == b.matches
    ensures Accepts(a, req) == Accepts(b, req)
    ensures IsCatchall(a) == IsCatchall(b) && EmptyPrefix(a) == EmptyPrefix(b)
    ensures ExactRule(a) == ExactRule(b) && PrefixRule(a) == PrefixRule(b) && PrefixOf(a) == PrefixOf(b)
    ensures WithPath(a) == WithPath(b) && WithMethod(a) == WithMethod(b)
    ensures SpecificPrefix(a) == SpecificPrefix(b)
  {}

  lemma SameMore(a: Rule, b: Rule, x: Rule, y: Rule)
    requires a.matches == x.matches && b.matches == y.matches
    ensures More(a, b) == More(x, y) && Displaces(a, b) == Displaces(x, y) && Outweighs(a, b) == Outweighs(x, y)
  {}

  // ----- which rule answers -----

  /** Any rules: without empty prefixes, a request that some specific pair accepts is never answered by a
    * catch-all. */
  lemma CatchallAnswersLast(listener: Option<string>, raw: seq<HTTPRoute>, valid: string -> bool,
                            out: seq<HTTPRoute>, i: nat, req: Request, s: Rule)
    requires Compiled(listener, raw, valid, out) && i < |out|
    requires forall p :: IsPair(listener, raw, valid, out[i].hostnames[0], p) ==> !EmptyPrefix(p)
    requires IsPair(listener, raw, valid, out[i].hostnames[0], s) && !IsCatchall(s) && Accepts(s, req)
    ensures var sel := FirstMatch(out[i].rules, req); sel.Some? && !IsCatchall(sel.value)
  {
    hide IsPair, Compiled, RulesFor, Grouped, Sorted, FirstMatch, IsCatchall, EmptyPrefix, Accepts;
    var g := OutputSorted(listener, raw, valid, out, i);
    var o := PairHasOutput(listener, raw, valid, out, i, s);
    SameMatches(o, s, req);
    forall r | r in g
      ensures !EmptyPrefix(r)
    {
      var p := OutputHasPair(listener, raw, valid, out, i, r);
      SameMatches(r, p, req);
    }
    CatchallIsLastResort(g, req, o);
  }

  /** Any rules: if nothing displaces an exact path, a request that an exact pair accepts is answered by an
    * exact path. */
  lemma ExactAnswersFirst(listener: Option<string>, raw: seq<HTTPRoute>, valid: string -> bool,
                          out: seq<HTTPRoute>, i: nat, req: Request, s: Rule)
    requires Compiled(listener, raw, valid, out) && i < |out|
    requires forall p, q | ArePairs(listener, raw, valid, out[i].hostnames[0], p, q) :: !Displaces(p, q)
    requires IsPair(listener, raw, valid, out[i].hostnames[0], s) && ExactRule(s) && Accepts(s, req)
    ensures var sel := FirstMatch(out[i].rules, req); sel.Some? && ExactRule(sel.value)
  {
    hide IsPair, ArePairs, Compiled, RulesFor, Grouped, Sorted, FirstMatch, Displaces, ExactRule, Accepts;
    var g := OutputSorted(listener, raw, valid, out, i);
    var o := PairHasOutput(listener, raw, valid, out, i, s);
    SameMatches(o, s, req);
    forall x, y | x in g && y in g
      ensures !Displaces(x, y)
    {
      var p, q := OutputHasPairs(listener, raw, valid, out, i, x, y);
      SameMore(x, y, p, q);
    }
    ExactPathWins(g, req, o);
  }

  /** Rules that all have a path prefix: if none outweighs a longer one, the answer has a longest prefix of
    * all pairs that accept. */
  lemma LongestPrefixAnswers(listener: Option<string>, raw: seq<HTTPRoute>, valid: string -> bool,
                             out: seq<HTTPRoute>, i: nat, req: Request, s: Rule)
    requires Compiled(listener, raw, valid, out) && i < |out|
    requires forall p :: IsPair(listener, raw, valid, out[i].hostnames[0], p) ==> PrefixRule(p)
    requires forall p, q | ArePairs(listener, raw, valid, out[i].hostnames[0], p, q) :: !Outweighs(p, q)
    requires IsPair(listener, raw, valid, out[i].hostnames[0], s) && Accepts(s, req)
    ensures var sel := FirstMatch(out[i].rules, req); sel.Some? && |PrefixOf(s)| <= |PrefixOf(sel.value)|
  {
    hide IsPair, ArePairs, Compiled, RulesFor, Grouped, Sorted, FirstMatch, Outweighs, PrefixRule, PrefixOf, Accepts;
    var g := OutputSorted(listener, raw, valid, out, i);
    var o := PairHasOutput(listener, raw, valid, out, i, s);
    SameMatches(o, s, req);
    forall x, y | x in g && y in g
      ensures PrefixRule(x) && !Outweighs(x, y)
    {
      NotOutweighed(listener, raw, valid, out, i, x, y);
    }
    LongestPathFirst(g, req, o);
  }

  lemma NotOutweighed(listener: Option<string>, raw: seq<HTTPRoute>, valid: string -> bool,
                      out: seq<HTTPRoute>, i: nat, x: Rule, y: Rule)
    requires Compiled(listener, raw, valid, out) && i < |out| && x in out[i].rules && y in out[i].rules
    requires forall p :: IsPair(listener, raw, valid, out[i].hostnames[0], p) ==> PrefixRule(p)
    requires forall p, q | ArePairs(listener, raw, valid, out[i].hostnames[0], p, q) :: !Outweighs(p, q)
    ensures PrefixRule(x) && !Outweighs(x, y)
  {
    hide IsPair, ArePairs, Compiled, Outweighs;
    var p, q := OutputHasPairs(listener, raw, valid, out, i, x, y);
    assert PrefixRule(x) == PrefixRule(p);
    SameMore(x, y, p, q);
  }

  /** Rules that all have a path prefix, whatever else they match: no specific prefix answers a request that
    * a longer specific prefix accepts. */
  lemma SpecificPrefixAnswers(listener: Option<string>, raw: seq<HTTPRoute>, valid: string -> bool,
                              out: seq<HTTPRoute>, i: nat, req: Request, s: Rule)
    requires Compiled(listener, raw, valid, out) && i < |out|
    requires forall p :: IsPair(listener, raw, valid, out[i].hostnames[0], p) ==> PrefixRule(p)
    requires IsPair(listener, raw, valid, out[i].hostnames[0], s) && SpecificPrefix(s) && Accepts(s, req)
    ensures var sel := FirstMatch(out[i].rules, req);
            sel.Some? && (SpecificPrefix(sel.value) ==> |PrefixOf(s)| <= |PrefixOf(sel.value)|)
  {
    hide IsPair, Compiled, RulesFor, Grouped, Sorted, FirstMatch, PrefixRule, PrefixOf, SpecificPrefix, Accepts;
    var g := OutputSorted(listener, raw, valid, out, i);
    var o := PairHasOutput(listener, raw, valid, out, i, s);
    SameMatches(o, s, req);
    forall x | x in g
      ensures PrefixRule(x)
    {
      var p := OutputHasPair(listener, raw, valid, out, i, x);
      SameMatches(x, p, req);
    }
    SortedLongerFirst(g);
    var sel := FirstMatch(out[i].rules, req);
    assert Routable(out[i].rules, req);
    if SpecificPrefix(sel.value) {
      LongerFirstRoutes(out[i].rules, sel.value, o, req);
    }
  }

  /** Rules without a path: if no rule without a method has more than one with a method, a request that a
    * pair with a method accepts is answered by a method. */
  lemma MethodAnswersFirst(listener: Option<string>, raw: seq<HTTPRoute>, valid: string -> bool,
                           out: seq<HTTPRoute>, i: nat, req: Request, s: Rule)
    requires Compiled(listener, raw, valid, out) && i < |out|
    requires forall p :: IsPair(listener, raw, valid, out[i].hostnames[0], p) ==> !WithPath(p)
    requires forall p, q | ArePairs(listener, raw, valid, out[i].hostnames[0], p, q) ::
               !WithMethod(p) && WithMethod(q) ==> !More(p, q)
    requires IsPair(listener, raw, valid, out[i].hostnames[0], s) && WithMethod(s) && Accepts(s, req)
    ensures var sel := FirstMatch(out[i].rules, req); sel.Some? && WithMethod(sel.value)
  {
    hide IsPair, ArePairs, Compiled, RulesFor, Grouped, Sorted, FirstMatch, WithPath, WithMethod, More, Accepts;
    var g := OutputSorted(listener, raw, valid, out, i);
    var o := PairHasOutput(listener, raw, valid, out, i, s);
    SameMatches(o, s, req);
    forall x, y | x in g && y in g
      ensures !WithPath(x) && (!WithMethod(x) && WithMethod(y) ==> !More(x, y))
    {
      MethodNotBehind(listener, raw, valid, out, i, x, y);
    }
    PathlessMethodWins(g, req, o);
  }

  lemma MethodNotBehind(listener: Option<string>, raw: seq<HTTPRoute>, valid: string -> bool,
                        out: seq<HTTPRoute>, i: nat, x: Rule, y: Rule)
    requires Compiled(listener, raw, valid, out) && i < |out| && x in out[i].rules && y in out[i].rules
    requires forall p :: IsPair(listener, raw, valid, out[i].hostnames[0], p) ==> !WithPath(p)
    requires forall p, q | ArePairs(listener, raw, valid, out[i].hostnames[0], p, q) ::
               !WithMethod(p) && WithMethod(q) ==> !More(p, q)
    ensures !WithPath(x) && (!WithMethod(x) && WithMethod(y) ==> !More(x, y))
  {
    hide IsPair, ArePairs, Compiled, More;
    var p, q := OutputHasPairs(listener, raw, valid, out, i, x, y);
    assert WithPath(x) == WithPath(p) && WithMethod(x) == WithMethod(p) && WithMethod(y) == WithMethod(q);
    SameMore(x, y, p, q);
  }

  // ----- in which order the rules come out -----

  /** Any rules: whatever stands ahead in the output leads to what stands behind, among the output rules. */
  lemma OutputLeads(listener: Option<string>, raw: seq<HTTPRoute>, valid: string -> bool,
                    out: seq<HTTPRoute>, i: nat, a: nat, b: nat)
    requires Compiled(listener, raw, valid, out) && i < |out| && a < b < |out[i].rules|
    ensures LeadsTo(out[i].rules, out[i].rules[a], out[i].rules[b])
  {
    var g := OutputSorted(listener, raw, valid, out, i);
    SortedPermutes(g);
    hide LeadsTo;
    SortedLeads(g);
    LeadsInAnyOrder(g, out[i].rules, out[i].rules[a], out[i].rules[b]);
  }

  lemma {:induction false} ChosenFrom(s: seq<Rule>, pick: Rule -> bool, a: nat, b: nat) returns (i: nat, j: nat)
    requires a < b < |Chosen(s, pick)|
    ensures i < j < |s| && s[i] == Chosen(s, pick)[a] && s[j] == Chosen(s, pick)[b]
  {
    var init, last := s[..|s| - 1], s[|s| - 1];
    if b < |Chosen(init, pick)| {
      i, j := ChosenFrom(init, pick, a, b);
    } else {
      i := OneChosenFrom(init, pick, a);
      j := |init|;
    }
  }

  lemma {:induction false} OneChosenFrom(s: seq<Rule>, pick: Rule -> bool, a: nat) returns (i: nat)
    requires a < |Chosen(s, pick)|
    ensures i < |s| && s[i] == Chosen(s, pick)[a]
  {
    var init := s[..|s| - 1];
    if a < |Chosen(init, pick)| {
      i := OneChosenFrom(init, pick, a);
    } else {
      i := |init|;
    }
  }

  lemma {:induction false} ChosenInto(s: seq<Rule>, pick: Rule -> bool, i: nat, j: nat) returns (a: nat, b: nat)
    requires i < j < |s| && pick(s[i]) && pick(s[j])
    ensures a < b < |Chosen(s, pick)| && Chosen(s, pick)[a] == s[i] && Chosen(s, pick)[b] == s[j]
  {
    var init := s[..|s| - 1];
    if j < |init| {
      a, b := ChosenInto(init, pick, i, j);
    } else {
      a := OneChosenInto(init, pick, i);
      b := |Chosen(init, pick)|;
    }
  }

  lemma {:induction false} OneChosenInto(s: seq<Rule>, pick: Rule -> bool, i: nat) returns (a: nat)
    requires i < |s| && pick(s[i])
    ensures a < |Chosen(s, pick)| && Chosen(s, pick)[a] == s[i]
  {
    var init := s[..|s| - 1];
    if i < |init| {
      a := OneChosenInto(init, pick, i);
    } else {
      a := |Chosen(init, pick)|;
    }
  }

  /** Any rules: of output rules that the comparison does not tell apart, the one whose match and filters
    * occur first among the pairs comes first. */
  lemma OutputStable(listener: Option<string>, raw: seq<HTTPRoute>, valid: string -> bool, out: seq<HTTPRoute>,
                     i: nat, pick: Rule -> bool, a: nat, b: nat, p: nat, q: nat)
    requires Compiled(listener, raw, valid, out) && i < |out| && Tied(out[i].rules, pick)
    requires a < b < |out[i].rules| && pick(out[i].rules[a]) && pick(out[i].rules[b])
    requires var keys := Keys(RulesFor(listener, raw, valid, out[i].hostnames[0]));
             FirstAt(keys, KeyOf(out[i].rules[a]), p) && FirstAt(keys, KeyOf(out[i].rules[b]), q)
    ensures p < q
  {
    var rules := RulesFor(listener, raw, valid, out[i].hostnames[0]);
    var g := OutputSorted(listener, raw, valid, out, i);
    hide Compiled, RulesFor, Grouped, Sorted;
    TiedInAnyOrder(g, out[i].rules, pick);
    SortedStable(g, pick);
    var c, d := ChosenInto(out[i].rules, pick, a, b);
    var m, n := ChosenFrom(g, pick, c, d);
    GroupedInFirstOccurrenceOrder(rules, m, n, p, q);
  }

  lemma TiedInAnyOrder(g: seq<Rule>, sorted: seq<Rule>, pick: Rule -> bool)
    requires IsSplit(g) && sorted == Sorted(g) && Tied(sorted, pick)
    ensures Tied(g, pick)
  {
    SortedPermutes(g);
    forall i, j | 0 <= i < |g| && 0 <= j < |g| && i != j && pick(g[i]) && pick(g[j])
      ensures !Less(g[i], g[j])
    {
      var k, l := TwoPlaces(g, sorted, i, j);
      assert !Less(sorted[k], sorted[l]);
    }
  }

  /** Two places of a list have two places in any permutation of it. */
  lemma TwoPlaces(s: seq<Rule>, t: seq<Rule>, i: nat, j: nat) returns (k: nat, l: nat)
    requires multiset(s) == multiset(t) && i < |s| && j < |s| && i != j
    ensures k < |t| && l < |t| && k != l && t[k] == s[i] && t[l] == s[j]
  {
    assert s[i] in multiset(t) && s[j] in multiset(t);
    k :| 0 <= k < |t| && t[k] == s[i];
    if s[i] != s[j] {
      l :| 0 <= l < |t| && t[l] == s[j];
    } else {
      OccursTwice(s, i, j);
      assert t == t[..k] + [t[k]] + t[k + 1..];
      var rest := t[..k] + t[k + 1..];
      assert multiset(t) == multiset(rest) + multiset{t[k]};
      assert s[j] in multiset(rest);
      var n :| 0 <= n < |rest| && rest[n] == s[j];
      l := if n < k then n else n + 1;
    }
  }

  lemma OccursTwice(s: seq<Rule>, i: nat, j: nat)
    requires i < |s| && j < |s| && i != j && s[i] == s[j]
    ensures multiset(s)[s[i]] >= 2
  {
    var a, b := if i < j then i else j, if i < j then j else i;
    assert s == s[..b] + [s[b]] + s[b + 1..];
    assert s[..b][a] == s[a] && s[a] in multiset(s[..b]);
  }

  // ----- the pairs as a list -----

  /** How many pairs the routes that carry the host have. */
  ghost function PairCount(listener: Option<string>, raw: seq<HTTPRoute>, valid: string -> bool, host: string): nat {
    if raw == [] then 0
    else
      var route := raw[|raw| - 1];
      PairCount(listener, raw[..|raw| - 1], valid, host)
      + (if Carries(listener, route, valid, host) then MatchCount(route.rules) else 0)
  }

  lemma {:induction false} PairsLength(listener: Option<string>, raw: seq<HTTPRoute>, valid: string -> bool, host: string)
    ensures |RulesFor(listener, raw, valid, host)| == PairCount(listener, raw, valid, host)
  {
    if raw != [] {
      PairsLength(listener, raw[..|raw| - 1], valid, host);
      SplitLength(raw[|raw| - 1].rules);
    }
  }

  /** Each pair once and in input order: match j of rule k of route n stands after the pairs of the earlier
    * carrying routes, of the earlier rules and of the earlier matches. */
  lemma {:induction false} PairAt(listener: Option<string>, raw: seq<HTTPRoute>, valid: string -> bool, host: string,
                                  n: nat, k: nat, j: nat)
    requires n < |raw| && Carries(listener, raw[n], valid, host)
    requires k < |raw[n].rules| && j < |raw[n].rules[k].matches|
    ensures var rules := RulesFor(listener, raw, valid, host);
            var at := PairCount(listener, raw[..n], valid, host) + MatchCount(raw[n].rules[..k]) + j;
            var rule := raw[n].rules[k];
            && |rules| == PairCount(listener, raw, valid, host) && at < |rules|
            && rules[at] == Rule([rule.matches[j]], rule.filters, rule.backendRefs)
  {
    var init := raw[..|raw| - 1];
    PairsLength(listener, raw, valid, host);
    PairsLength(listener, init, valid, host);
    RulesForLast(listener, raw, valid, host);
    hide RulesFor, PairCount, Carries;
    if n < |init| {
      PairAt(listener, init, valid, host, n, k, j);
      assert init[..n] == raw[..n];
    } else {
      SplitAt(raw[n].rules, k, j);
      assert raw[..n] == init;
    }
  }

  lemma RulesForLast(listener: Option<string>, raw: seq<HTTPRoute>, valid: string -> bool, host: string)
    requires raw != []
    ensures RulesFor(listener, raw, valid, host)
         == RulesFor(listener, raw[..|raw| - 1], valid, host)
            + (if Carries(listener, raw[|raw| - 1], valid, host) then Split(raw[|raw| - 1].rules) else [])
  {}

  // ----- backends and weights, against the input routes -----

  /** How often a backend is due: once per match of each rule of each carrying route, with multiplicity. */
  ghost function DueOccurrences(listener: Option<string>, raw: seq<HTTPRoute>, valid: string -> bool, host: string,
                                b: BackendRef): nat {
    if raw == [] then 0
    else
      var route := raw[|raw| - 1];
      DueOccurrences(listener, raw[..|raw| - 1], valid, host, b)
      + (if Carries(listener, route, valid, host) then BackendOccurrences(route.rules, b) else 0)
  }

  ghost function DueWeight(listener: Option<string>, raw: seq<HTTPRoute>, valid: string -> bool, host: string): nat {
    if raw == [] then 0
    else
      var route := raw[|raw| - 1];
      DueWeight(listener, raw[..|raw| - 1], valid, host)
      + (if Carries(listener, route, valid, host) then WeightPerMatch(route.rules) else 0)
  }

  lemma {:induction false} PairsDue(listener: Option<string>, raw: seq<HTTPRoute>, valid: string -> bool, host: string,
                                    b: BackendRef)
    ensures var refs := AllBackends(RulesFor(listener, raw, valid, host));
            && multiset(refs)[b] == DueOccurrences(listener, raw, valid, host, b)
            && TotalWeight(refs) == DueWeight(listener, raw, valid, host)
  {
    if raw != [] {
      var init, route := raw[..|raw| - 1], raw[|raw| - 1];
      PairsDue(listener, init, valid, host, b);
      RulesForLast(listener, raw, valid, host);
      SplitBackends(route.rules, b);
      hide Carries, RulesFor, AllBackends, TotalWeight, Split, BackendOccurrences, WeightPerMatch;
      var front, last := RulesFor(listener, init, valid, host), Split(route.rules);
      if Carries(listener, route, valid, host) {
        AllBackendsConcat(front, last);
        TotalWeightConcat(AllBackends(front), AllBackends(last));
      } else {
        assert front + [] == front;
      }
    } else {
      assert RulesFor(listener, raw, valid, host) == [];
    }
  }

  /** The output holds every backend exactly as often as it is due, and the weight that is due. */
  lemma OutputBackendsDue(listener: Option<string>, raw: seq<HTTPRoute>, valid: string -> bool,
                          out: seq<HTTPRoute>, i: nat, b: BackendRef)
    requires Compiled(listener, raw, valid, out) && i < |out|
    ensures var host, refs := out[i].hostnames[0], AllBackends(out[i].rules);
            && multiset(refs)[b] == DueOccurrences(listener, raw, valid, host, b)
            && TotalWeight(refs) == DueWeight(listener, raw, valid, host)
  {
    CompilationKeepsBackends(listener, raw, valid, out, i);
    PairsDue(listener, raw, valid, out[i].hostnames[0], b);
  }

  const ROOT_PREFIX := Rule([Match(Some(PathMatch(PathPrefix, "/")), [], [], None)], [], [])
  const EXACT_X := Rule([Match(Some(PathMatch(Exact, "/x")), [], [], None)], [], [])

  lemma RootAndExactSplit()
    ensures Split([ROOT_PREFIX, EXACT_X]) == [ROOT_PREFIX, EXACT_X]
  {
    var pair := [ROOT_PREFIX, EXACT_X];
    assert pair[..1] == [ROOT_PREFIX] && pair[..1][..0] == [];
    assert SplitRule(ROOT_PREFIX) == [ROOT_PREFIX] && SplitRule(EXACT_X) == [EXACT_X];
    assert Split([ROOT_PREFIX]) == [ROOT_PREFIX];
  }

  lemma RootAndExactCompiled()
    ensures IsSplit([ROOT_PREFIX, EXACT_X])
    ensures CompiledRules([ROOT_PREFIX, EXACT_X]) == [EXACT_X, ROOT_PREFIX]
  {
    FewRulesUnchanged([ROOT_PREFIX]);
    assert EXACT_X.matches[0] != ROOT_PREFIX.matches[0];
    hide Grouped;
    GroupedAppend([ROOT_PREFIX], EXACT_X);
    assert [ROOT_PREFIX] + [EXACT_X] == [ROOT_PREFIX, EXACT_X];
    RootAndExactSorted();
    hide Sorted;
  }

  lemma RootAndExactSorted()
    ensures IsSplit([ROOT_PREFIX, EXACT_X]) && Sorted([ROOT_PREFIX, EXACT_X]) == [EXACT_X, ROOT_PREFIX]
  {
    SortedPair(ROOT_PREFIX, EXACT_X);
  }

  /** Prefix `/` ahead of exact `/x` in one route comes out behind it. */
  lemma RootAndExact(valid: string -> bool, out: seq<HTTPRoute>)
    requires Compiled(None, [HTTPRoute([], [ROOT_PREFIX, EXACT_X])], valid, out)
    ensures out == [HTTPRoute(["*"], [EXACT_X, ROOT_PREFIX])]
  {
    var raw := [HTTPRoute([], [ROOT_PREFIX, EXACT_X])];
    hide Split, CompiledRules;
    RootAndExactSplit();
    RootAndExactCompiled();
    assert raw[..0] == [];
    assert Carries(None, raw[0], valid, "*");
    assert RulesFor(None, raw[..0], valid, "*") == [];
    assert RulesFor(None, raw, valid, "*") == [ROOT_PREFIX, EXACT_X];
    assert Effective(None, raw, valid, "*") && Named(out, "*");
    forall i | 0 <= i < |out|
      ensures out[i] == HTTPRoute(["*"], [EXACT_X, ROOT_PREFIX])
    {
      assert IsOutput(None, raw, valid, out[i]);
      assert out[i].hostnames == [out[i].hostnames[0]];
      assert Named(out, out[i].hostnames[0]);
      assert Effective(None, raw, valid, out[i].hostnames[0]);
    }
    assert |out| > 1 ==> out[0].hostnames != out[1].hostnames;
  }
}
