/** HTTP routes, their rules, and what they mean: which requests a rule accepts, and which rule of
  * an ordered list a first-match proxy picks (internal/envoy/resource.go). */
module Routes {
  import opened Wrappers
  import Strings

  datatype PathType = Exact | PathPrefix | RegularExpression

  datatype PathMatch = PathMatch(kind: PathType, value: string)

  /** A header match or a query parameter match. */
  datatype ValueMatch = ValueMatch(name: string, value: string, isRegex: bool)

  datatype Match = Match(
    path: Option<PathMatch>,
    headers: seq<ValueMatch>,
    queryParams: seq<ValueMatch>,
    verb: Option<string>)

  datatype Filter = Filter(kind: string, config: string)

  datatype BackendRef = BackendRef(name: string, weight: nat)

  datatype Rule = Rule(matches: seq<Match>, filters: seq<Filter>, backendRefs: seq<BackendRef>)

  /** What `shouldMerge` compares. */
  datatype RuleKey = RuleKey(matches: seq<Match>, filters: seq<Filter>)

  datatype HTTPRoute = HTTPRoute(hostnames: seq<string>, rules: seq<Rule>)

  function KeyOf(rule: Rule): RuleKey {
    RuleKey(rule.matches, rule.filters)
  }

  /** Go's `reflect.DeepEqual` on both parts, as two tests. */
  predicate ShouldMerge(rule1: Rule, rule2: Rule) {
    if rule1.matches != rule2.matches then false
    else if rule1.filters != rule2.filters then false
    else true
  }

  // ----- meaning -----

  /** A request, together with the proxy's judgement of regular expressions (pattern, text). */
  datatype Request = Request(
    path: string,
    verb: string,
    headers: map<string, string>,
    queryParams: map<string, string>,
    regex: (string, string) -> bool)

  /** The separated prefix that the proxy is given: one trailing slash is dropped. */
  function StripTrailingSlash(prefix: string): string {
    Strings.TrimSuffix(prefix, "/")
  }

  /** A path prefix matches whole path elements only. */
  predicate PrefixMatches(prefix: string, path: string) {
    var p := StripTrailingSlash(prefix);
    path == p || Strings.HasPrefix(path, p + "/")
  }

  predicate PathMatches(m: PathMatch, req: Request) {
    match m.kind
    case Exact => req.path == m.value
    case PathPrefix => PrefixMatches(m.value, req.path)
    case RegularExpression => req.regex(m.value, req.path)
  }

  predicate ValueMatches(m: ValueMatch, actual: map<string, string>, req: Request) {
    m.name in actual
    && if m.isRegex then req.regex(m.value, actual[m.name]) else actual[m.name] == m.value
  }

  predicate Matches(m: Match, req: Request) {
    && (m.path.Some? ==> PathMatches(m.path.value, req))
    && (m.verb.Some? ==> req.verb == m.verb.value)
    && (forall h :: h in m.headers ==> ValueMatches(h, req.headers, req))
    && (forall q :: q in m.queryParams ==> ValueMatches(q, req.queryParams, req))
  }

  /** The matches of one rule are alternatives. */
  ghost predicate Accepts(rule: Rule, req: Request) {
    exists m :: m in rule.matches && Matches(m, req)
  }

  ghost predicate Routable(rules: seq<Rule>, req: Request) {
    exists r :: r in rules && Accepts(r, req)
  }

  /** The rule a first-match proxy uses. */
  ghost function FirstMatch(rules: seq<Rule>, req: Request): (r: Option<Rule>)
    ensures r.Some? ==> r.value in rules && Accepts(r.value, req)
    ensures r.None? <==> !Routable(rules, req)
  {
    if rules == [] then None
    else
      assert rules == [rules[0]] + rules[1..];
      if Accepts(rules[0], req) then Some(rules[0]) else FirstMatch(rules[1..], req)
  }

  /** Everything before the selected rule rejects the request. */
  lemma {:induction false} FirstMatchAt(rules: seq<Rule>, req: Request, i: nat)
    requires i < |rules| && Accepts(rules[i], req)
    requires forall j :: 0 <= j < i ==> !Accepts(rules[j], req)
    ensures FirstMatch(rules, req) == Some(rules[i])
  {
    if i > 0 {
      FirstMatchAt(rules[1..], req, i - 1);
    }
  }

  lemma {:induction false} FirstMatchConcat(a: seq<Rule>, b: seq<Rule>, req: Request)
    ensures FirstMatch(a + b, req)
         == if FirstMatch(a, req).Some? then FirstMatch(a, req) else FirstMatch(b, req)
  {
    if a == [] {
      assert a + b == b;
    } else {
      assert (a + b)[1..] == a[1..] + b;
      FirstMatchConcat(a[1..], b, req);
    }
  }

  function TotalWeight(refs: seq<BackendRef>): nat {
    if refs == [] then 0 else TotalWeight(refs[..|refs| - 1]) + refs[|refs| - 1].weight
  }

  function AllBackends(rules: seq<Rule>): seq<BackendRef> {
    if rules == [] then [] else AllBackends(rules[..|rules| - 1]) + rules[|rules| - 1].backendRefs
  }

  lemma {:induction false} TotalWeightConcat(a: seq<BackendRef>, b: seq<BackendRef>)
    ensures TotalWeight(a + b) == TotalWeight(a) + TotalWeight(b)
  {
    if b == [] {
      assert a + b == a;
    } else {
      assert (a + b)[..|a + b| - 1] == a + b[..|b| - 1];
      TotalWeightConcat(a, b[..|b| - 1]);
    }
  }

  lemma {:induction false} AllBackendsConcat(a: seq<Rule>, b: seq<Rule>)
    ensures AllBackends(a + b) == AllBackends(a) + AllBackends(b)
  {
    if b == [] {
      assert a + b == a;
    } else {
      assert (a + b)[..|a + b| - 1] == a + b[..|b| - 1];
      AllBackendsConcat(a, b[..|b| - 1]);
    }
  }
}
