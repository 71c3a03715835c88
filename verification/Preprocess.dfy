/** The HTTP route compiler: one output route per effective hostname, with the split, merged and
  * ordered rules of every input route that carries the hostname (internal/envoy/resource.go). */
module Preprocess {
  import opened Wrappers
  import opened Strings
  import opened Hosts
  import opened Routes
  import opened Combine
  import opened SortRules

  const ALL_HOSTS := "*"

  function DefaultHost(listener: Option<string>): string {
    if listener.Some? then listener.value else ALL_HOSTS
  }

  /** The hostnames a route ends up with under a listener. */
  ghost function HostSet(listener: Option<string>, route: HTTPRoute, valid: string -> bool): set<string> {
    if route.hostnames == [] then {DefaultHost(listener)}
    else Meets(ListenerPattern(listener), route.hostnames, valid)
  }

  ghost predicate Carries(listener: Option<string>, route: HTTPRoute, valid: string -> bool, host: string) {
    host in HostSet(listener, route, valid)
  }

  /** The split rules of the routes that carry `host`, in input order. */
  ghost function RulesFor(listener: Option<string>, raw: seq<HTTPRoute>, valid: string -> bool, host: string)
    : (rules: seq<Rule>)
    ensures IsSplit(rules)
  {
    if raw == [] then []
    else
      var route := raw[|raw| - 1];
      SplitIsSplit(route.rules);
      RulesFor(listener, raw[..|raw| - 1], valid, host)
      + (if Carries(listener, route, valid, host) then Split(route.rules) else [])
  }

  lemma {:induction false} GroupedIsSplit(rules: seq<Rule>)
    requires IsSplit(rules)
    ensures IsSplit(Grouped(rules))
  {
    forall i | 0 <= i < |Grouped(rules)|
      ensures |Grouped(rules)[i].matches| == 1
    {
      GroupedKeysDistinct(rules);
      assert Keys(Grouped(rules))[i] in Keys(rules);
    }
  }

  ghost function CompiledRules(rules: seq<Rule>): seq<Rule>
    requires IsSplit(rules)
  {
    GroupedIsSplit(rules);
    Sorted(Grouped(rules))
  }

  ghost predicate Effective(listener: Option<string>, raw: seq<HTTPRoute>, valid: string -> bool, host: string) {
    exists n :: 0 <= n < |raw| && Carries(listener, raw[n], valid, host)
  }

  ghost predicate Named(out: seq<HTTPRoute>, host: string) {
    exists i :: 0 <= i < |out| && out[i].hostnames == [host]
  }

  /** One hostname, with its compiled rules. */
  ghost predicate IsOutput(listener: Option<string>, raw: seq<HTTPRoute>, valid: string -> bool, o: HTTPRoute) {
    |o.hostnames| == 1 && o.rules == CompiledRules(RulesFor(listener, raw, valid, o.hostnames[0]))
  }

  /** What the compiler owes its caller: each effective hostname once, each with its rules. */
  ghost predicate Compiled(listener: Option<string>, raw: seq<HTTPRoute>, valid: string -> bool, out: seq<HTTPRoute>) {
    && (forall i :: 0 <= i < |out| ==> IsOutput(listener, raw, valid, out[i]))
    && (forall i, j :: 0 <= i < j < |out| ==> out[i].hostnames != out[j].hostnames)
    && (forall h :: Named(out, h) <==> Effective(listener, raw, valid, h))
  }

  ghost predicate AllValid(route: HTTPRoute, valid: string -> bool) {
    forall h :: h in route.hostnames ==> valid(h)
  }

  /** The first pass over one route. None stands for the empty route that the code leaves behind
    * when a hostname is invalid: it has no HTTP part, and the next pass dereferences it. */
  method ResolveHostnames(listener: Option<string>, route: HTTPRoute, valid: string -> bool)
    returns (r: Option<HTTPRoute>)
    ensures r.Some? <==> AllValid(route, valid)
    ensures r.Some? ==> IsResolved(listener, route, valid, r.value)
  {
    var matchingNames, errs := ComputeHosts(route.hostnames, listener, valid);
    InvalidEmpty(route.hostnames, valid);
    if errs != [] {
      return None;
    }
    var hostnames := matchingNames;
    if |route.hostnames| == 0 {
      hostnames := [DefaultHost(listener)];
    } else {
      forall i, j | 0 <= i < j < |hostnames|
        ensures hostnames[i] != hostnames[j]
      {
        BeforeIrreflexive(hostnames[i]);
      }
    }
    r := Some(route.(hostnames := hostnames));
  }

  /** The third pass for one hostname: merge, copy, sort in place. */
  method CookRules(rules: seq<Rule>) returns (cooked: seq<Rule>)
    requires IsSplit(rules)
    ensures cooked == CompiledRules(rules)
  {
    var combined := CombineRouteRules(rules);
    GroupedIsSplit(rules);
    var copy := new Rule[|combined|](i requires 0 <= i < |combined| => combined[i]);
    assert copy[..] == combined;
    SortRouteRules(copy);
    cooked := copy[..];
  }

  ghost predicate IsResolved(listener: Option<string>, route: HTTPRoute, valid: string -> bool, r: HTTPRoute) {
    r.rules == route.rules && Distinct(r.hostnames) && Elements(r.hostnames) == HostSet(listener, route, valid)
  }

  /** The buckets have a key for each effective hostname and hold the rules of the first `n` routes. */
  ghost predicate Filled(listener: Option<string>, raw: seq<HTTPRoute>, valid: string -> bool,
                         n: nat, buckets: map<string, seq<Rule>>)
    requires n <= |raw|
  {
    && (forall h :: h in buckets <==> Effective(listener, raw, valid, h))
    && (forall h :: h in buckets ==> buckets[h] == RulesFor(listener, raw[..n], valid, h))
  }

  /** First pass. */
  method ResolveAll(listener: Option<string>, raw: seq<HTTPRoute>, valid: string -> bool)
    returns (routes: seq<Option<HTTPRoute>>)
    ensures |routes| == |raw|
    ensures forall n :: 0 <= n < |raw| ==> (routes[n].Some? <==> AllValid(raw[n], valid))
    ensures forall n :: 0 <= n < |raw| && routes[n].Some? ==> IsResolved(listener, raw[n], valid, routes[n].value)
  {
    routes := [];
    for i := 0 to |raw|
      invariant |routes| == i
      invariant forall n :: 0 <= n < i ==> (routes[n].Some? <==> AllValid(raw[n], valid))
      invariant forall n :: 0 <= n < i && routes[n].Some? ==> IsResolved(listener, raw[n], valid, routes[n].value)
    {
      var route := ResolveHostnames(listener, raw[i], valid);
      routes := routes + [route];
    }
  }

  /** Second pass: an empty bucket for each hostname; None where it would dereference nil. */
  method MakeBuckets(routes: seq<Option<HTTPRoute>>) returns (r: Option<map<string, seq<Rule>>>)
    ensures r.Some? <==> forall n :: 0 <= n < |routes| ==> routes[n].Some?
    ensures r.Some? ==> forall h :: h in r.value <==> exists n :: 0 <= n < |routes| && h in routes[n].value.hostnames
    ensures r.Some? ==> forall h :: h in r.value ==> r.value[h] == []
  {
    var buckets: map<string, seq<Rule>> := map[];
    for i := 0 to |routes|
      invariant forall n :: 0 <= n < i ==> routes[n].Some?
      invariant forall h :: h in buckets <==> exists n :: 0 <= n < i && h in routes[n].value.hostnames
      invariant forall h :: h in buckets ==> buckets[h] == []
    {
      if routes[i].None? {
        return None;
      }
      buckets := AddEmpty(buckets, routes[i].value.hostnames);
    }
    r := Some(buckets);
  }

  /** Third pass: each route's split rules go to each of its hostnames. */
  method FillBuckets(empty: map<string, seq<Rule>>, routes: seq<HTTPRoute>,
                     ghost listener: Option<string>, ghost raw: seq<HTTPRoute>, ghost valid: string -> bool)
    returns (buckets: map<string, seq<Rule>>)
    requires |routes| == |raw|
    requires forall n :: 0 <= n < |raw| ==> IsResolved(listener, raw[n], valid, routes[n])
    requires Filled(listener, raw, valid, 0, empty)
    ensures Filled(listener, raw, valid, |raw|, buckets)
  {
    buckets := empty;
    for i := 0 to |routes|
      invariant Filled(listener, raw, valid, i, buckets)
    {
      assert IsResolved(listener, raw[i], valid, routes[i]);
      var split := SplitMatches(routes[i].rules);
      forall h | h in routes[i].hostnames
        ensures h in buckets
      {
        assert h in Elements(routes[i].hostnames) && Carries(listener, raw[i], valid, h);
      }
      ghost var before := buckets;
      buckets := AddRules(buckets, routes[i].hostnames, split);
      FilledStep(listener, raw, valid, i, before, routes[i], buckets);
    }
  }

  lemma RulesForStep(listener: Option<string>, raw: seq<HTTPRoute>, valid: string -> bool, i: nat, h: string)
    requires i < |raw|
    ensures RulesFor(listener, raw[..i + 1], valid, h)
         == RulesFor(listener, raw[..i], valid, h)
            + (if Carries(listener, raw[i], valid, h) then Split(raw[i].rules) else [])
  {
    assert raw[..i + 1][..i] == raw[..i];
  }

  lemma FilledStep(listener: Option<string>, raw: seq<HTTPRoute>, valid: string -> bool, i: nat,
                   before: map<string, seq<Rule>>, route: HTTPRoute, after: map<string, seq<Rule>>)
    requires i < |raw| && Filled(listener, raw, valid, i, before) && IsResolved(listener, raw[i], valid, route)
    requires after.Keys == before.Keys
    requires forall h :: h in after ==>
               after[h] == if h in route.hostnames then before[h] + Split(route.rules) else before[h]
    ensures Filled(listener, raw, valid, i + 1, after)
  {
    hide Split, RulesFor, HostSet;
    forall h | h in after
      ensures after[h] == RulesFor(listener, raw[..i + 1], valid, h)
    {
      RulesForStep(listener, raw, valid, i, h);
      assert h in route.hostnames <==> h in Elements(route.hostnames);
      assert h in before;
    }
  }

  /** The whole compiler. None: it panics, on the nil HTTP part of a route with an invalid hostname. */
  method PreprocessHTTPRoutes(listener: Option<string>, raw: seq<HTTPRoute>, valid: string -> bool)
    returns (r: Option<seq<HTTPRoute>>)
    ensures r.Some? <==> forall n :: 0 <= n < |raw| ==> AllValid(raw[n], valid)
    ensures r.Some? ==> Compiled(listener, raw, valid, r.value)
  {
    var resolved := ResolveAll(listener, raw, valid);
    var empty := MakeBuckets(resolved);
    if empty.None? {
      return None;
    }
    var routes := seq(|resolved|, i requires 0 <= i < |resolved| => resolved[i].value);
    forall h
      ensures h in empty.value <==> Effective(listener, raw, valid, h)
    {
      forall n | 0 <= n < |raw|
        ensures h in resolved[n].value.hostnames <==> Carries(listener, raw[n], valid, h)
      {
        assert h in resolved[n].value.hostnames <==> h in Elements(resolved[n].value.hostnames);
      }
    }
    var buckets := FillBuckets(empty.value, routes, listener, raw, valid);
    assert raw[..|raw|] == raw;
    var cooked := Flatten(buckets, listener, raw, valid);
    r := Some(cooked);
  }

  method AddEmpty(buckets: map<string, seq<Rule>>, hostnames: seq<string>) returns (r: map<string, seq<Rule>>)
    ensures forall h :: h in r <==> h in buckets || h in Elements(hostnames)
    ensures forall h :: h in r ==> r[h] == if h in Elements(hostnames) then [] else buckets[h]
  {
    r := buckets;
    for k := 0 to |hostnames|
      invariant forall h :: h in r <==> h in buckets || h in hostnames[..k]
      invariant forall h :: h in r ==> r[h] == if h in hostnames[..k] then [] else buckets[h]
    {
      assert hostnames[..k + 1] == hostnames[..k] + [hostnames[k]];
      r := r[hostnames[k] := []];
    }
    assert hostnames[..|hostnames|] == hostnames;
  }

  method AddRules(buckets: map<string, seq<Rule>>, hostnames: seq<string>, rules: seq<Rule>)
    returns (r: map<string, seq<Rule>>)
    requires Distinct(hostnames) && forall h :: h in hostnames ==> h in buckets
    ensures r.Keys == buckets.Keys
    ensures forall h :: h in r ==> r[h] == if h in hostnames then buckets[h] + rules else buckets[h]
  {
    r := buckets;
    for k := 0 to |hostnames|
      invariant r.Keys == buckets.Keys
      invariant forall h :: h in r ==> r[h] == if h in hostnames[..k] then buckets[h] + rules else buckets[h]
    {
      var h := hostnames[k];
      assert h !in hostnames[..k] && h in hostnames;
      assert hostnames[..k + 1] == hostnames[..k] + [h];
      r := r[h := r[h] + rules];
    }
    assert hostnames[..|hostnames|] == hostnames;
  }

  /** Flattens the map, visiting its entries in an arbitrary order. */
  method Flatten(buckets: map<string, seq<Rule>>,
                 ghost listener: Option<string>, ghost raw: seq<HTTPRoute>, ghost valid: string -> bool)
    returns (cooked: seq<HTTPRoute>)
    requires Filled(listener, raw, valid, |raw|, buckets)
    ensures Compiled(listener, raw, valid, cooked)
  {
    assert raw[..|raw|] == raw;
    cooked := [];
    var rest := buckets.Keys;
    while rest != {}
      invariant rest <= buckets.Keys
      invariant Visited(listener, raw, valid, buckets.Keys - rest, cooked)
    {
      var h :| h in rest;
      var rules := CookRules(buckets[h]);
      var route := HTTPRoute([h], rules);
      VisitedSnoc(listener, raw, valid, buckets.Keys - rest, cooked, h, route);
      cooked := cooked + [route];
      rest := rest - {h};
      assert buckets.Keys - rest == buckets.Keys - (rest + {h}) + {h};
    }
  }

  ghost predicate Visited(listener: Option<string>, raw: seq<HTTPRoute>, valid: string -> bool,
                          hosts: set<string>, out: seq<HTTPRoute>) {
    && (forall i :: 0 <= i < |out| ==> IsOutput(listener, raw, valid, out[i]))
    && (forall i, j :: 0 <= i < j < |out| ==> out[i].hostnames != out[j].hostnames)
    && (forall h :: Named(out, h) <==> h in hosts)
  }

  lemma VisitedSnoc(listener: Option<string>, raw: seq<HTTPRoute>, valid: string -> bool,
                    hosts: set<string>, out: seq<HTTPRoute>, h: string, r: HTTPRoute)
    requires Visited(listener, raw, valid, hosts, out) && h !in hosts
    requires r.hostnames == [h] && IsOutput(listener, raw, valid, r)
    ensures Visited(listener, raw, valid, hosts + {h}, out + [r])
  {
    assert !Named(out, h);
    NamedSnoc(out, r);
  }

  lemma NamedSnoc(out: seq<HTTPRoute>, r: HTTPRoute)
    ensures forall h :: Named(out + [r], h) <==> Named(out, h) || r.hostnames == [h]
  {
    forall h | Named(out, h) || r.hostnames == [h]
      ensures Named(out + [r], h)
    {
      var i := if r.hostnames == [h] then |out| else var i :| 0 <= i < |out| && out[i].hostnames == [h]; i;
      assert (out + [r])[i].hostnames == [h];
    }
  }

  // ----- what compilation means -----

  /** Every (rule, match) pair of a route that carries the host is among the host's split rules. */
  lemma {:induction false} RulesForMembers(listener: Option<string>, raw: seq<HTTPRoute>, valid: string -> bool,
                                           host: string, s: Rule)
    ensures s in RulesFor(listener, raw, valid, host)
       <==> exists n :: 0 <= n < |raw| && Carries(listener, raw[n], valid, host) && s in Split(raw[n].rules)
  {
    hide Split, HostSet, Carries;
    if raw != [] {
      var init, route := raw[..|raw| - 1], raw[|raw| - 1];
      RulesForMembers(listener, init, valid, host, s);
      if n :| 0 <= n < |raw| && Carries(listener, raw[n], valid, host) && s in Split(raw[n].rules) {
        if n < |init| {
          assert init[n] == raw[n];
        }
      }
      if s in RulesFor(listener, init, valid, host) {
        var n :| 0 <= n < |init| && Carries(listener, init[n], valid, host) && s in Split(init[n].rules);
        assert raw[n] == init[n];
      }
    }
  }

  lemma CompiledRulesMembers(rules: seq<Rule>)
    requires IsSplit(rules)
    ensures forall r :: r in CompiledRules(rules) <==> r in Grouped(rules)
  {
    GroupedIsSplit(rules);
    SortedMembers(Grouped(rules));
  }

  /** Meaning: under each output hostname a request matches some output rule iff it matches some
    * rule of some input route that carries the hostname. */
  lemma CompilationPreservesMeaning(listener: Option<string>, raw: seq<HTTPRoute>, valid: string -> bool,
                                    out: seq<HTTPRoute>, i: nat, req: Request)
    requires Compiled(listener, raw, valid, out) && i < |out|
    ensures Routable(out[i].rules, req)
       <==> exists n :: 0 <= n < |raw| && Carries(listener, raw[n], valid, out[i].hostnames[0])
                        && Routable(raw[n].rules, req)
  {
    var host := out[i].hostnames[0];
    var rules := RulesFor(listener, raw, valid, host);
    CompiledRulesMembers(rules);
    GroupedRoutable(rules, req);
    assert Routable(out[i].rules, req) <==> Routable(rules, req);
    if s :| s in rules && Accepts(s, req) {
      RulesForMembers(listener, raw, valid, host, s);
      var n :| 0 <= n < |raw| && Carries(listener, raw[n], valid, host) && s in Split(raw[n].rules);
      SplitRoutable(raw[n].rules, req);
    }
    if n :| 0 <= n < |raw| && Carries(listener, raw[n], valid, host) && Routable(raw[n].rules, req) {
      SplitRoutable(raw[n].rules, req);
      var s :| s in Split(raw[n].rules) && Accepts(s, req);
      RulesForMembers(listener, raw, valid, host, s);
    }
  }

  /** Backends: each output rule holds, in input order, exactly the backends of the split
    * occurrences with its match and filters; no match of a carrying route is missing; no two
    * output rules share a key; and the output conserves all backends and the total weight. */
  lemma CompilationKeepsBackends(listener: Option<string>, raw: seq<HTTPRoute>, valid: string -> bool,
                                 out: seq<HTTPRoute>, i: nat)
    requires Compiled(listener, raw, valid, out) && i < |out|
    ensures var rules := RulesFor(listener, raw, valid, out[i].hostnames[0]);
            && (forall r :: r in out[i].rules ==> r.backendRefs == BackendsFor(rules, KeyOf(r)))
            && (forall s :: s in rules ==> exists r :: r in out[i].rules && KeyOf(r) == KeyOf(s))
            && (forall r, s :: r in out[i].rules && s in out[i].rules && KeyOf(r) == KeyOf(s) ==> r == s)
            && |out[i].rules| == |Grouped(rules)|
            && multiset(AllBackends(out[i].rules)) == multiset(AllBackends(rules))
            && TotalWeight(AllBackends(out[i].rules)) == TotalWeight(AllBackends(rules))
  {
    var rules := RulesFor(listener, raw, valid, out[i].hostnames[0]);
    CompiledRulesMembers(rules);
    GroupedIsSplit(rules);
    GroupedConservesBackends(rules);
    SortedConservesBackends(Grouped(rules));
    GroupsComplete(rules);
  }

  /** One group per key, each with all the backends of its key. */
  lemma GroupsComplete(rules: seq<Rule>)
    ensures forall r :: r in Grouped(rules) ==> r.backendRefs == BackendsFor(rules, KeyOf(r))
    ensures forall s :: s in rules ==> exists r :: r in Grouped(rules) && KeyOf(r) == KeyOf(s)
    ensures forall r, s :: r in Grouped(rules) && s in Grouped(rules) && KeyOf(r) == KeyOf(s) ==> r == s
  {
    var g := Grouped(rules);
    GroupedKeysDistinct(rules);
    forall s | s in rules
      ensures exists r :: r in g && KeyOf(r) == KeyOf(s)
    {
      var n :| 0 <= n < |rules| && rules[n] == s;
      assert Keys(rules)[n] == KeyOf(s);
      assert KeyOf(s) in Keys(g);
      var k :| 0 <= k < |Keys(g)| && Keys(g)[k] == KeyOf(s);
      assert g[k] in g;
    }
    forall r, s | r in g && s in g && KeyOf(r) == KeyOf(s)
      ensures r == s
    {
      var a :| 0 <= a < |g| && g[a] == r;
      var b :| 0 <= b < |g| && g[b] == s;
      assert Keys(g)[a] == Keys(g)[b];
    }
  }

  /** The first-match answer of the compiled rules, end to end: when the carrying routes match on
    * path prefixes only, the selected rule has the longest prefix of all (rule, match) pairs that
    * accept the request, and every backend with that prefix and its filters. */
  lemma EndToEndLongestPrefix(listener: Option<string>, raw: seq<HTTPRoute>, valid: string -> bool,
                              out: seq<HTTPRoute>, i: nat, req: Request, s: Rule)
    requires Compiled(listener, raw, valid, out) && i < |out|
    requires var rules := RulesFor(listener, raw, valid, out[i].hostnames[0]);
             && AllPrefixOnly(rules)
             && s in rules && Accepts(s, req)
    ensures var rules := RulesFor(listener, raw, valid, out[i].hostnames[0]);
            var sel := FirstMatch(out[i].rules, req);
            && sel.Some?
            && (sel.value.matches == s.matches || |PrefixOf(s)| < |PrefixOf(sel.value)|)
            && sel.value.backendRefs == BackendsFor(rules, KeyOf(sel.value))
  {
    var rules := RulesFor(listener, raw, valid, out[i].hostnames[0]);
    var g := Grouped(rules);
    CompilationKeepsBackends(listener, raw, valid, out, i);
    CompiledRulesMembers(rules);
    GroupedPrefixOnly(rules);
    hide PrefixOnly, Grouped, BackendsFor, Less, RulesFor;
    var r :| r in g && KeyOf(r) == KeyOf(s);
    assert Accepts(r, req) == Accepts(s, req);
    GroupedIsSplit(rules);
    LongestPrefixWins(g, req, r);
  }

  lemma GroupedPrefixOnly(rules: seq<Rule>)
    requires AllPrefixOnly(rules)
    ensures AllPrefixOnly(Grouped(rules))
  {
    GroupedHaveOrigin(rules);
  }

  lemma GroupedHaveOrigin(rules: seq<Rule>)
    ensures forall r :: r in Grouped(rules) ==> exists s :: s in rules && KeyOf(s) == KeyOf(r)
  {
    GroupedKeysDistinct(rules);
    forall r | r in Grouped(rules)
      ensures exists s :: s in rules && KeyOf(s) == KeyOf(r)
    {
      var k :| 0 <= k < |Grouped(rules)| && Grouped(rules)[k] == r;
      assert Keys(Grouped(rules))[k] in Keys(rules);
      var n :| 0 <= n < |rules| && Keys(rules)[n] == KeyOf(r);
      assert rules[n] in rules;
    }
  }

  // ----- hosts and rules together -----

  /** The route asks for `x`: by its own hostnames within the listener's, or by naming none. */
  ghost predicate AsksFor(listener: Option<string>, route: HTTPRoute, valid: string -> bool, x: string) {
    if route.hostnames == [] then Denotes(ListenerPattern(listener), x)
    else InIntersection(ListenerPattern(listener), route.hostnames, valid, x)
  }

  /** A listener hostname that is set but empty counts as "*" when hostnames are intersected, yet is
    * copied as it is to a route without hostnames, which then denotes no host at all. */
  predicate LosesDefault(listener: Option<string>, route: HTTPRoute) {
    listener == Some("") && route.hostnames == []
  }

  lemma EmptyDefaultServesNobody(listener: Option<string>, route: HTTPRoute, valid: string -> bool, h: string, x: string)
    requires LosesDefault(listener, route) && Carries(listener, route, valid, h) && x != ""
    ensures AsksFor(listener, route, valid, x) && !Denotes(h, x)
  {
    assert HasSuffix(x, "") by {
      assert x[|x|..] == "";
    }
  }

  /** A host and a request are served by some output route iff an input route asks for the host and
    * accepts the request; the conditions are the host-losing family of `ComputedHostsComplete` and
    * the empty default of `EmptyDefaultServesNobody`. */
  lemma ServedExactly(listener: Option<string>, raw: seq<HTTPRoute>, valid: string -> bool,
                      out: seq<HTTPRoute>, x: string, req: Request)
    requires Compiled(listener, raw, valid, out)
    requires forall h :: valid(h) && IsWildcard(h) ==> HasPrefix(h, "*.")
    requires forall n :: 0 <= n < |raw| ==>
               !LosesDefault(listener, raw[n]) && !LosesHosts(ListenerPattern(listener), raw[n].hostnames, valid)
    ensures (exists i :: 0 <= i < |out| && Denotes(out[i].hostnames[0], x) && Routable(out[i].rules, req))
       <==> (exists n :: 0 <= n < |raw| && AsksFor(listener, raw[n], valid, x) && Routable(raw[n].rules, req))
  {
    if i :| 0 <= i < |out| && Denotes(out[i].hostnames[0], x) && Routable(out[i].rules, req) {
      CompilationPreservesMeaning(listener, raw, valid, out, i, req);
      var n :| 0 <= n < |raw| && Carries(listener, raw[n], valid, out[i].hostnames[0]) && Routable(raw[n].rules, req);
      if raw[n].hostnames != [] {
        ComputedHostSound(ListenerPattern(listener), raw[n].hostnames, valid, out[i].hostnames[0]);
      }
      assert AsksFor(listener, raw[n], valid, x);
    }
    if n :| 0 <= n < |raw| && AsksFor(listener, raw[n], valid, x) && Routable(raw[n].rules, req) {
      var h := HostFor(listener, raw[n], valid, x);
      assert Effective(listener, raw, valid, h);
      var i :| 0 <= i < |out| && out[i].hostnames == [h];
      CompilationPreservesMeaning(listener, raw, valid, out, i, req);
    }
  }

  lemma HostFor(listener: Option<string>, route: HTTPRoute, valid: string -> bool, x: string) returns (h: string)
    requires AsksFor(listener, route, valid, x) && !LosesDefault(listener, route)
    requires forall h :: valid(h) && IsWildcard(h) ==> HasPrefix(h, "*.")
    requires !LosesHosts(ListenerPattern(listener), route.hostnames, valid)
    ensures Carries(listener, route, valid, h) && Denotes(h, x)
  {
    if route.hostnames == [] {
      h := DefaultHost(listener);
    } else {
      ComputedHostsComplete(ListenerPattern(listener), route.hostnames, valid);
      assert Covered(ListenerPattern(listener), route.hostnames, valid, x);
      h :| h in Meets(ListenerPattern(listener), route.hostnames, valid) && Denotes(h, x);
    }
  }
}
