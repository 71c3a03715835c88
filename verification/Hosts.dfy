/** Intersection of a listener's hostname with a route's hostnames
  * (internal/contour/dag/gatewayapi_processor.go). */
module Hosts {
  import opened Wrappers
  import opened Strings

  predicate IsWildcard(pattern: string) {
    HasPrefix(pattern, "*")
  }

  /** The hosts a hostname pattern stands for: a leading "*" is any non-empty string. */
  predicate Denotes(pattern: string, host: string) {
    if IsWildcard(pattern)
    then HasSuffix(host, pattern[1..]) && |host| > |pattern[1..]|
    else host == pattern
  }

  function ListenerPattern(raw: Option<string>): string {
    if raw.Some? && |raw.value| > 0 then raw.value else "*"
  }

  predicate HostnameMatchesWildcard(hostname: string, wildcard: string) {
    var suffix := TrimPrefix(wildcard, "*");
    HasSuffix(hostname, suffix) && |TrimSuffix(hostname, suffix)| > 0
  }

  /** The pattern that one route hostname contributes, if any: the code's switch. */
  function Meet(listener: string, route: string): Option<string> {
    if |listener| == 0 then Some(route)
    else if listener == route then Some(route)
    else if IsWildcard(listener) then
      if HostnameMatchesWildcard(route, listener) then Some(route) else None
    else if IsWildcard(route) then
      if HostnameMatchesWildcard(listener, route) then Some(listener) else None
    else None
  }

  ghost function Meets(listener: string, routes: seq<string>, valid: string -> bool): set<string> {
    set r | r in routes && valid(r) && Meet(listener, r).Some? :: Meet(listener, r).value
  }

  function Invalid(routes: seq<string>, valid: string -> bool): seq<string> {
    if routes == [] then []
    else Invalid(routes[..|routes| - 1], valid)
         + (if valid(routes[|routes| - 1]) then [] else [routes[|routes| - 1]])
  }

  /** `valid` is the DNS-1123 check; a rejected name is reported and skipped. */
  method ComputeHosts(routes: seq<string>, raw: Option<string>, valid: string -> bool)
    returns (hosts: seq<string>, errs: seq<string>)
    ensures errs == Invalid(routes, valid)
    ensures routes == [] ==> hosts == [ListenerPattern(raw)]
    ensures routes != [] ==> Lists(hosts, Meets(ListenerPattern(raw), routes, valid))
  {
    var listener := ListenerPattern(raw);
    if routes == [] {
      return [listener], [];
    }
    var found: set<string> := {};
    errs := [];
    for i := 0 to |routes|
      invariant found == Meets(listener, routes[..i], valid)
      invariant errs == Invalid(routes[..i], valid)
    {
      var route := routes[i];
      assert routes[..i + 1][..i] == routes[..i];
      assert forall r :: r in routes[..i + 1] <==> r in routes[..i] || r == route;
      if !valid(route) {
        errs := errs + [route];
      } else if |listener| == 0 {
        found := found + {route};
      } else if listener == route {
        found := found + {route};
      } else if HasPrefix(listener, "*") {
        if HostnameMatchesWildcard(route, listener) {
          found := found + {route};
        }
      } else if HasPrefix(route, "*") {
        if HostnameMatchesWildcard(listener, route) {
          found := found + {listener};
        }
      }
    }
    assert routes[..|routes|] == routes;
    hosts := SortedListing(found);
  }

  lemma {:induction false} InvalidEmpty(routes: seq<string>, valid: string -> bool)
    ensures Invalid(routes, valid) == [] <==> forall r :: r in routes ==> valid(r)
  {
    if routes != [] {
      InvalidEmpty(routes[..|routes| - 1], valid);
      assert routes == routes[..|routes| - 1] + [routes[|routes| - 1]];
    }
  }

  /** Each invalid name is reported as often as it occurs, and no other. */
  lemma {:induction false} InvalidExactly(routes: seq<string>, valid: string -> bool, name: string)
    ensures multiset(Invalid(routes, valid))[name] == if valid(name) then 0 else multiset(routes)[name]
  {
    if routes != [] {
      InvalidExactly(routes[..|routes| - 1], valid, name);
      assert routes == routes[..|routes| - 1] + [routes[|routes| - 1]];
    }
  }

  // ----- what the result means -----

  lemma SuffixTransitive(a: string, b: string, c: string)
    requires HasSuffix(a, b) && HasSuffix(b, c)
    ensures HasSuffix(a, c)
  {
    assert a[|a| - |c|..] == a[|a| - |b|..][|b| - |c|..];
  }

  /** A pattern that passes the wildcard test stands for fewer hosts than the wildcard. */
  lemma MatchNarrows(pattern: string, wildcard: string, host: string)
    requires IsWildcard(wildcard) && HostnameMatchesWildcard(pattern, wildcard)
    requires Denotes(pattern, host)
    ensures Denotes(wildcard, host)
  {
    var t := wildcard[1..];
    if IsWildcard(pattern) {
      assert pattern[1..][|pattern[1..]| - |t|..] == pattern[|pattern| - |t|..];
      SuffixTransitive(host, pattern[1..], t);
    }
  }

  /** Soundness: a computed hostname stays inside the listener and inside some route hostname. */
  lemma ComputedHostSound(listener: string, routes: seq<string>, valid: string -> bool, result: string)
    requires listener != [] && result in Meets(listener, routes, valid)
    ensures exists r :: r in routes && valid(r)
                        && forall host :: Denotes(result, host) ==> Denotes(listener, host) && Denotes(r, host)
  {
    var r :| r in routes && valid(r) && Meet(listener, r) == Some(result);
    forall host | Denotes(result, host)
      ensures Denotes(listener, host) && Denotes(r, host)
    {
      if listener != r {
        if IsWildcard(listener) {
          MatchNarrows(r, listener, host);
        } else {
          MatchNarrows(listener, r, host);
        }
      }
    }
  }

  ghost predicate InIntersection(listener: string, routes: seq<string>, valid: string -> bool, host: string) {
    Denotes(listener, host) && exists r :: r in routes && valid(r) && Denotes(r, host)
  }

  ghost predicate Covered(listener: string, routes: seq<string>, valid: string -> bool, host: string) {
    exists p :: p in Meets(listener, routes, valid) && Denotes(p, host)
  }

  /** Both are wildcards and the listener's is strictly inside the route's. */
  predicate StrictlyNarrower(listener: string, route: string) {
    IsWildcard(listener) && IsWildcard(route) && |route| < |listener| && HasSuffix(listener[1..], route[1..])
  }

  /** The input family on which hosts are lost: the guard never tries a wildcard route that is
    * wider than a wildcard listener, and no route names the listener's own pattern. */
  ghost predicate LosesHosts(listener: string, routes: seq<string>, valid: string -> bool) {
    && !(listener in routes && valid(listener))
    && exists r :: r in routes && valid(r) && StrictlyNarrower(listener, r)
  }

  lemma SuffixesCompare(host: string, a: string, b: string)
    requires HasSuffix(host, a) && HasSuffix(host, b)
    ensures |b| <= |a| ==> HasSuffix(a, b)
  {
    if |b| <= |a| {
      assert a[|a| - |b|..] == host[|host| - |a|..][|a| - |b|..];
    }
  }

  lemma MatchExactly(hostname: string, wildcard: string)
    requires IsWildcard(wildcard)
    ensures HostnameMatchesWildcard(hostname, wildcard)
       <==> HasSuffix(hostname, wildcard[1..]) && |hostname| >= |wildcard|
  {}

  /** Of two wildcards for one host, the longer matches the shorter. */
  lemma LongerMatches(r: string, listener: string, host: string)
    requires IsWildcard(listener) && IsWildcard(r) && |r| >= |listener|
    requires Denotes(listener, host) && Denotes(r, host)
    ensures HostnameMatchesWildcard(r, listener)
  {
    SuffixesCompare(host, r[1..], listener[1..]);
    assert r[1..][|r[1..]| - |listener[1..]|..] == r[|r| - |listener[1..]|..];
    MatchExactly(r, listener);
  }

  lemma MeetCovers(listener: string, r: string, host: string)
    requires Denotes(listener, host) && Denotes(r, host) && listener != [] && !StrictlyNarrower(listener, r)
    ensures Meet(listener, r).Some? && Denotes(Meet(listener, r).value, host)
  {
    if IsWildcard(listener) && IsWildcard(r) {
      if |r| < |listener| {
        SuffixesCompare(host, listener[1..], r[1..]);
      } else {
        LongerMatches(r, listener, host);
      }
    } else if IsWildcard(listener) {
      MatchExactly(r, listener);
    } else if IsWildcard(r) {
      MatchExactly(listener, r);
    }
    hide HostnameMatchesWildcard, HasSuffix;
  }

  function MaxLength(routes: seq<string>): (n: nat)
    ensures forall r :: r in routes ==> |r| <= n
  {
    if routes == [] then 0
    else
      var rest := MaxLength(routes[1..]);
      assert routes == [routes[0]] + routes[1..];
      if |routes[0]| > rest then |routes[0]| else rest
  }

  /** A host one label below the listener that no other route hostname can denote. */
  lemma LostHost(listener: string, routes: seq<string>, valid: string -> bool) returns (host: string)
    requires LosesHosts(listener, routes, valid)
    requires forall h :: valid(h) && IsWildcard(h) ==> HasPrefix(h, "*.")
    ensures InIntersection(listener, routes, valid, host)
    ensures !Covered(listener, routes, valid, host)
  {
    var stem := seq(MaxLength(routes) + 1, _ => 'a');
    var t := listener[1..];
    host := stem + t;
    var wide :| wide in routes && valid(wide) && StrictlyNarrower(listener, wide);
    SuffixTransitive(host, t, wide[1..]);
    assert Denotes(listener, host) && Denotes(wide, host);
    hide Denotes, Meet, StrictlyNarrower;
    forall r | r in routes && valid(r) && Meet(listener, r).Some?
      ensures !Denotes(Meet(listener, r).value, host)
    {
      NotDenoted(listener, r, stem);
    }
  }

  /** A hostname under the listener denotes no host that puts a longer dotless stem before it. */
  lemma NotDenoted(listener: string, r: string, stem: string)
    requires IsWildcard(listener) && listener != r && Meet(listener, r).Some?
    requires IsWildcard(r) ==> HasPrefix(r, "*.")
    requires |stem| > |r| && forall i :: 0 <= i < |stem| ==> stem[i] == 'a'
    ensures !Denotes(Meet(listener, r).value, stem + listener[1..])
  {
    var host := stem + listener[1..];
    if IsWildcard(r) && |r| - 1 < |host| {
      // The suffix of `r` starts with a dot, where the host still has its stem.
      assert r[1..][0] == '.' && host[|host| - (|r| - 1)..][0] == 'a';
    }
  }

  /** Completeness, exactly: every host of the intersection is kept unless a wildcard listener is
    * strictly inside a wildcard route hostname. */
  lemma ComputedHostsComplete(listener: string, routes: seq<string>, valid: string -> bool)
    requires listener != []
    requires forall h :: valid(h) && IsWildcard(h) ==> HasPrefix(h, "*.")
    ensures (forall host :: InIntersection(listener, routes, valid, host) ==> Covered(listener, routes, valid, host))
            <==> !LosesHosts(listener, routes, valid)
  {
    if LosesHosts(listener, routes, valid) {
      var host := LostHost(listener, routes, valid);
    } else {
      forall host | InIntersection(listener, routes, valid, host)
        ensures Covered(listener, routes, valid, host)
      {
        var r :| r in routes && valid(r) && Denotes(r, host);
        if StrictlyNarrower(listener, r) {
          assert Meet(listener, listener) == Some(listener);
          assert listener in Meets(listener, routes, valid);
        } else {
          MeetCovers(listener, r, host);
          assert Meet(listener, r).value in Meets(listener, routes, valid);
        }
      }
    }
  }

  // ----- repaired: a wildcard route may also be wider than a wildcard listener -----

  function MeetRepaired(listener: string, route: string): Option<string> {
    if StrictlyNarrower(listener, route) then Some(listener) else Meet(listener, route)
  }

  /** Repaired, the results denote exactly the intersection, whatever the hostnames. */
  lemma RepairedHostsExact(listener: string, routes: seq<string>, valid: string -> bool, host: string)
    requires listener != []
    ensures InIntersection(listener, routes, valid, host)
       <==> exists r :: r in routes && valid(r) && MeetRepaired(listener, r).Some?
                        && Denotes(MeetRepaired(listener, r).value, host)
  {
    if InIntersection(listener, routes, valid, host) {
      var r :| r in routes && valid(r) && Denotes(r, host);
      if !StrictlyNarrower(listener, r) {
        MeetCovers(listener, r, host);
      }
      assert MeetRepaired(listener, r).Some? && Denotes(MeetRepaired(listener, r).value, host);
    }
    if r :| r in routes && valid(r) && MeetRepaired(listener, r).Some? && Denotes(MeetRepaired(listener, r).value, host) {
      if StrictlyNarrower(listener, r) {
        SuffixTransitive(host, listener[1..], r[1..]);
      } else {
        assert Meet(listener, r).value in Meets(listener, [r], valid);
        ComputedHostSound(listener, [r], valid, Meet(listener, r).value);
      }
      assert Denotes(listener, host) && Denotes(r, host);
    }
  }
}
