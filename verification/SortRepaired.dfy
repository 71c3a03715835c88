/** A repaired ordering of rules: the comparison is made a strict weak order, by precedence. It keeps
  * the criteria of the written comparison (internal/envoy/resource.go) and ranks them: catch-alls
  * last, exact paths first, then the longest prefix, a method, the most headers, the most
  * parameters. */
module SortRepaired {
  import opened Routes
  import Combine
  import opened SortRules
  import SortOrders

  function Flag(b: bool): nat {
    if b then 1 else 0
  }

  /** The criteria in order of weight. */
  function Precedence(rule: Rule): (p: seq<nat>)
    ensures |p| == 6
  {
    if |rule.matches| != 1 then [0, 0, 0, 0, 0, 0]
    else
      var m := rule.matches[0];
      [Flag(!IsCatchall(rule)),
       Flag(HasPath(m, Exact)),
       if HasPath(m, PathPrefix) then |m.path.value.value| else 0,
       Flag(m.verb.Some?),
       |m.headers|,
       |m.queryParams|]
  }

  /** Lexicographically greater. */
  predicate Higher(a: seq<nat>, b: seq<nat>)
    requires |a| == |b|
  {
    a != [] && (a[0] > b[0] || (a[0] == b[0] && Higher(a[1..], b[1..])))
  }

  /** Not lower: the order in which the sorted list descends. */
  predicate AtLeast(a: seq<nat>, b: seq<nat>)
    requires |a| == |b|
  {
    !Higher(b, a)
  }

  lemma {:induction false} AtLeastTransitive(a: seq<nat>, b: seq<nat>, c: seq<nat>)
    requires |a| == |b| == |c| && AtLeast(a, b) && AtLeast(b, c)
    ensures AtLeast(a, c)
  {
    if a != [] && a[0] == b[0] == c[0] {
      AtLeastTransitive(a[1..], b[1..], c[1..]);
    }
  }

  lemma {:induction false} HigherIsAtLeast(a: seq<nat>, b: seq<nat>)
    requires |a| == |b|
    ensures Higher(a, b) ==> AtLeast(a, b)
    ensures Higher(a, b) ==> a != b
    ensures AtLeast(a, b) && AtLeast(b, a) ==> a == b
  {
    if a != [] {
      HigherIsAtLeast(a[1..], b[1..]);
      assert a == [a[0]] + a[1..] && b == [b[0]] + b[1..];
    }
  }

  function InsertRepaired(s: seq<Rule>, x: Rule): seq<Rule> {
    if s == [] then [x]
    else if Higher(Precedence(x), Precedence(s[|s| - 1])) then InsertRepaired(s[..|s| - 1], x) + [s[|s| - 1]]
    else s + [x]
  }

  function SortedRepaired(rules: seq<Rule>): seq<Rule> {
    if rules == [] then [] else InsertRepaired(SortedRepaired(rules[..|rules| - 1]), rules[|rules| - 1])
  }

  ghost predicate ByPrecedence(s: seq<Rule>) {
    forall i, j :: 0 <= i < j < |s| ==> AtLeast(Precedence(s[i]), Precedence(s[j]))
  }

  /** The rules of one precedence, in their order. */
  ghost function Peers(s: seq<Rule>, p: seq<nat>): seq<Rule> {
    if s == [] then []
    else Peers(s[..|s| - 1], p) + (if Precedence(s[|s| - 1]) == p then [s[|s| - 1]] else [])
  }

  lemma {:induction false} InsertPermutes(s: seq<Rule>, x: Rule)
    ensures multiset(InsertRepaired(s, x)) == multiset(s) + multiset{x}
  {
    if s != [] {
      assert s == s[..|s| - 1] + [s[|s| - 1]];
      InsertPermutes(s[..|s| - 1], x);
    }
  }

  lemma {:induction false} InsertAmongPeers(s: seq<Rule>, x: Rule, p: seq<nat>)
    ensures Peers(InsertRepaired(s, x), p) == Peers(s, p) + (if Precedence(x) == p then [x] else [])
  {
    hide Precedence, Higher;
    if s == [] {
      assert [x][..0] == [];
    } else if Higher(Precedence(x), Precedence(s[|s| - 1])) {
      var t := InsertRepaired(s[..|s| - 1], x);
      HigherIsAtLeast(Precedence(x), Precedence(s[|s| - 1]));
      InsertAmongPeers(s[..|s| - 1], x, p);
      assert (t + [s[|s| - 1]])[..|t|] == t;
    } else {
      assert (s + [x])[..|s|] == s;
    }
  }

  lemma {:induction false} InsertKeepsPrecedence(s: seq<Rule>, x: Rule)
    requires ByPrecedence(s)
    ensures ByPrecedence(InsertRepaired(s, x))
  {
    hide Precedence, Higher;
    if s != [] {
      var init, last := s[..|s| - 1], s[|s| - 1];
      HigherIsAtLeast(Precedence(x), Precedence(last));
      if Higher(Precedence(x), Precedence(last)) {
        var t := InsertRepaired(init, x);
        InsertKeepsPrecedence(init, x);
        InsertPermutes(init, x);
        forall i | 0 <= i < |t|
          ensures AtLeast(Precedence(t[i]), Precedence(last))
        {
          assert t[i] in multiset(t);
          assert t[i] == x || t[i] in init;
        }
      } else {
        forall i | 0 <= i < |init|
          ensures AtLeast(Precedence(s[i]), Precedence(x))
        {
          AtLeastTransitive(Precedence(s[i]), Precedence(last), Precedence(x));
        }
      }
    }
  }

  /** For every rule list: a permutation, descending by precedence, stable among peers. */
  lemma {:induction false} RepairedSorts(rules: seq<Rule>, p: seq<nat>)
    ensures ByPrecedence(SortedRepaired(rules))
    ensures multiset(SortedRepaired(rules)) == multiset(rules)
    ensures Peers(SortedRepaired(rules), p) == Peers(rules, p)
  {
    if rules != [] {
      var init, last := rules[..|rules| - 1], rules[|rules| - 1];
      assert rules == init + [last];
      RepairedSorts(init, p);
      InsertKeepsPrecedence(SortedRepaired(init), last);
      InsertPermutes(SortedRepaired(init), last);
      InsertAmongPeers(SortedRepaired(init), last, p);
    }
  }

  lemma {:induction false} FirstIsHighest(s: seq<Rule>, req: Request, other: Rule)
    requires ByPrecedence(s) && other in s && Accepts(other, req)
    ensures FirstMatch(s, req).Some?
    ensures AtLeast(Precedence(FirstMatch(s, req).value), Precedence(other))
  {
    var i :| 0 <= i < |s| && s[i] == other;
    if Accepts(s[0], req) {
      HigherIsAtLeast(Precedence(s[0]), Precedence(s[0]));
    } else {
      assert other == s[1..][i - 1];
      FirstIsHighest(s[1..], req, other);
    }
  }

  /** Repaired, on every rule list and for every request: nothing that accepts the request has higher
    * precedence than the rule selected. */
  lemma RepairedSelectsHighest(rules: seq<Rule>, req: Request, other: Rule)
    requires other in rules && Accepts(other, req)
    ensures var sel := FirstMatch(SortedRepaired(rules), req);
            sel.Some? && sel.value in rules && AtLeast(Precedence(sel.value), Precedence(other))
  {
    RepairedSorts(rules, []);
    var s := SortedRepaired(rules);
    assert forall r :: r in s <==> r in multiset(rules);
    FirstIsHighest(s, req, other);
  }

  /** So a catch-all is the last resort, an exact path wins, and of two prefixes the longer wins, whatever
    * other rules are in the list and in whatever order. */
  lemma RepairedPromises(rules: seq<Rule>, req: Request, other: Rule)
    requires Combine.IsSplit(rules) && other in rules && Accepts(other, req)
    ensures var sel := FirstMatch(SortedRepaired(rules), req);
            && sel.Some?
            && (IsCatchall(sel.value) ==> IsCatchall(other))
            && (SortOrders.ExactRule(other) ==> SortOrders.ExactRule(sel.value))
            && (SpecificPrefix(sel.value) && SpecificPrefix(other) ==> |PrefixOf(other)| <= |PrefixOf(sel.value)|)
  {
    RepairedSelectsHighest(rules, req, other);
    var sel := FirstMatch(SortedRepaired(rules), req).value;
    var n :| 0 <= n < |rules| && rules[n] == other;
    var k :| 0 <= k < |rules| && rules[k] == sel;
    var a, b := Precedence(sel), Precedence(other);
    assert a[0] >= b[0];
    if SortOrders.ExactRule(other) {
      assert b[0] == 1 && a[0] == 1 && b[1] == 1;
      assert AtLeast(a[1..], b[1..]) && a[1..][0] == a[1] && b[1..][0] == b[1];
    }
    if SpecificPrefix(sel) && SpecificPrefix(other) {
      assert a[0] == b[0] && a[1] == b[1];
      assert AtLeast(a[1..], b[1..]) && AtLeast(a[1..][1..], b[1..][1..]);
      assert a[1..][1..][0] == a[2] && b[1..][1..][0] == b[2];
    }
  }
}
