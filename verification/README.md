# Verified model of the EPIC resource model

EPIC is a Kubernetes gateway controller: it compiles Gateway API routes for Envoy, hands out public
IP addresses, and numbers and maintains the tunnels between client nodes and proxy nodes. This
project models the parts of it that carry algorithms or state, in Dafny, and proves what they keep.

| module | models |
|---|---|
| `Hosts`, `Routes`, `Combine`, `SortRules`, `SortOrders`, `SortRepaired`, `Preprocess`, `EndToEnd` | the HTTP route compiler: hostname intersection, splitting, merging, ordering, and what the result means for a first-match proxy |
| `Listeners` | collapsing compatible listeners, for every map iteration order |
| `Bytes`, `IPRanges` | big-endian address arithmetic, ranges, their enumeration, size and CIDR form |
| `Pools`, `Allocation`, `Allocators` | the address pool and the allocator (classes), and the transition system over runs of them |
| `TunnelIds`, `TunnelStore` | optimistic allocation of tunnel IDs: all interleavings of any number of clients, and the two retry loops as code |
| `TunnelMaps` | rebuilding and pruning a proxy's tunnel map |
| `Labels` | printing and parsing of DNS endpoint labels |
| `Strings`, `Wrappers` | string order, the string tests of Go's library, `Option` and `Result` |

Each imperative method is proved equal to a function of its inputs or of the old state (or, where Go's
map order leaves a choice, to one of the results the specification allows); the main theorems are
lemmas about those specifications.

`dafny verify dfyconfig.toml` checks the whole project.

## How the pieces fit

* Route compiler. `Routes.Matches` says which requests a match accepts and `Routes.FirstMatch` which rule
  a proxy that tries rules in order selects. `Preprocess.PreprocessHTTPRoutes` is proved to produce
  `Compiled` output, and everything said about the output is a lemma about `Compiled`; `EndToEnd` puts
  it in terms of the (rule, match) pairs of the input routes.
* Allocator. `Pools.LocalPool` and `Allocators.Allocator` are proved against `PoolState` and
  `AllocatorState`; every allocator method is a step of `Allocation.Step`, and `RunsKeepInv` is about
  every run of such steps. The parameter `level` says how much is claimed (`Records`, `Sharing`,
  `Exact`) and `variant` whether the release is as written or repaired.
* Tunnel IDs. `TunnelIds.Apply` interleaves Get, Update, failures, lost replies and other writes;
  `TunnelStore` proves the retry loops against the same history of commits.

## Where the code does less than it means to

The code is modelled as it is written; each deviation has a lemma that says exactly when it shows.

* A wildcard listener strictly inside a wildcard route hostname loses hosts
  (`Hosts.ComputedHostsComplete`, `Hosts.LostHost`); repaired in `Hosts.RepairedHostsExact`.
* A listener hostname that is set but empty is copied to routes without hostnames, where it denotes
  no host (`Preprocess.EmptyDefaultServesNobody`).
* An invalid hostname makes the compiler dereference nil (`Preprocess.PreprocessHTTPRoutes` returns None
  exactly then), although the comment on `ComputeHosts` speaks of skipping the name.
* The comparison that orders rules is not a strict weak order, so that the result depends on the input
  order; `SortOrders.PrecedesExactly` says exactly how. The promises in its comments fail as follows:
  * an empty prefix can end up behind a catch-all (`SortRules.CatchallsLastExactly`);
  * an exact path does not pass a prefix or a regular expression, nor more headers or parameters
    (`SortOrders.ExactFirstExactly`, `SortOrders.PrefixBeforeExact`);
  * a rule without a prefix makes a short prefix answer for a longer one
    (`SortRules.LongestPrefixExactly`, `SortRules.BarrierHolds`);
  * a short prefix with more headers or parameters and a longer one are each less than the other
    (`SortOrders.PrefixesDescendExactly`, `SortOrders.HeadersOutweighPrefix`);
  * a prefix or a regular expression keeps a method behind headers and parameters
    (`SortOrders.MethodFirstExactly`, `SortOrders.SingleCriterionOrder`, `SortOrders.PrefixBeforeMethod`);
  * header rules and parameter rules are not compared, so that one of the other kind, or a prefix or a
    regular expression, keeps fewer ahead of more (`SortOrders.SingleCriterionExactly`,
    `SortOrders.ParameterBetweenHeaders`, `SortOrders.PrefixBetweenHeaders`);
  * tied catch-alls change places in a sort that is meant to be stable (`SortRules.CatchallTieReversed`).

  `SortRepaired` ranks the same criteria and keeps its promises for every input order.
* Three or more listeners can leave two entries for one class (`Listeners.OnePerClassExactly`); repaired
  in `Listeners.RepairedClosedForm`.
* `Release` drops the sharing key of an address that others still use, so that a service that shares
  with nobody gets in, and it deletes the ports of the others and keeps those of the service that leaves
  (`Pools.LocalPool.Release`). `Allocation.WrittenReleaseExactly` and `Allocation.WrittenReleaseKeepsExactly`
  say exactly when an unassignment does harm, `Allocation.WrittenAssignExactly` and
  `Allocation.WrittenAssignKeepsExactly` when the release inside an assignment does: a service assigned
  anew where it is restores the key but costs the others their ports (`Allocation.ReassignLosesPorts`).
  The kept ports are refused to newcomers even where nobody shared (`Allocation.StalePortRefused`).
  Repaired in `Pools.LocalPool.ReleaseRepaired`.
* Ports are compared as whole entries, so one port number under two names can be shared
  (`Allocation.SamePortTwoNames`).
* `AllocateTunnelID` returns the counter before the increment and `nextTunnelID` the counter after it, so
  the two collide (`TunnelIds.SuccessfulIds`).
* Two endpoints on one node, or two pods on one EPIC node, that meet a new pair each allocate an ID, and
  the first is lost, although a comment says that the tunnel is copied (`TunnelMaps.ConsumedExactly`).
* `IPRange.Size` is 0 for a whole aligned block of 2^64 addresses, the greatest uint64 for a small range
  across a multiple of 2^64 (`IPRanges.SizeExactlyV6`), and the low 64 bits of the count for a range from
  an IPv4 to an IPv6 address (`IPRanges.SizeExactlyV4`). On an inverted range it is rarely 0, and
  `Overlaps` answers true for one that has no address (`IPRanges.OverlapsExactly`).
* `parseCIDR` stops in front of the IPv4-mapped block, because Go compares such addresses with IPv4
  networks only: an IPv6 network that spans the block is cut short, a prefix of length 0 ends there
  too, and the range is then inverted if the start lies above (`IPRanges.CidrEndsAtNetworkLast`,
  `IPRanges.WholeSpaceInverted`). An inverted range hands out its start (`IPRanges.InvertedRangeVisits`).
* A label value that ends in a double quote loses it if its key is the greatest
  (`Labels.RoundTripExactly`).

## Model

| member | source | states |
|---|---|---|
| Hosts.ComputeHosts | internal/contour/dag/gatewayapi_processor.go:37-102 | The result lists, once each and in ascending order, exactly the hostnames that some valid route hostname contributes; the errors are exactly the invalid names, in order; without route hostnames the listener's pattern is used. |
| Hosts.InvalidEmpty | internal/contour/dag/gatewayapi_processor.go:63-66 | No error is reported iff every route hostname is valid. |
| Hosts.InvalidExactly | internal/contour/dag/gatewayapi_processor.go:63-66 | Each invalid name is reported as often as it occurs, and no valid one. |
| Hosts.MatchNarrows | internal/contour/dag/gatewayapi_processor.go:127-134 | A hostname that passes the wildcard test denotes only hosts that the wildcard denotes, also when it is a wildcard itself. |
| Hosts.ComputedHostSound | internal/contour/dag/gatewayapi_processor.go:69-89 | Every computed hostname denotes a subset of the listener's hosts and of the hosts of one valid route hostname. |
| Hosts.LostHost | internal/contour/dag/gatewayapi_processor.go:76-81 | Whenever a wildcard listener is strictly inside a valid wildcard route hostname and is not itself named, some host of the intersection is denoted by no result; the lemma constructs it. |
| Hosts.ComputedHostsComplete | internal/contour/dag/gatewayapi_processor.go:68-89 | The results cover the whole intersection if and only if no such wildcard pair occurs. |
| Hosts.RepairedHostsExact | internal/contour/dag/gatewayapi_processor.go:76-88 | With the missing branch added, the results denote exactly the intersection, for all hostnames. |
| Strings.ListingUnique | internal/contour/dag/gatewayapi_processor.go:96-99 | A set of strings has only one ascending listing, so sorted output does not depend on map order. |
| Strings.BeforeExactly | api/v1/dns_labels.go:97 | The string order is by the first place of difference, proper prefixes first. |
| Combine.SplitMatches | internal/envoy/resource.go:878-890 | The output is, rule by rule and match by match, the rule with that single match. |
| Combine.SplitMembers | internal/envoy/resource.go:878-890 | A rule is in the split list iff it is a (rule, match) pair of the input with that rule's filters and backends. |
| Combine.SplitRoutable | internal/envoy/resource.go:872-877 | Splitting neither adds nor removes a request that some rule accepts. |
| Combine.SplitAt | internal/envoy/resource.go:881-886 | Match j of rule i stands at the number of earlier matches, once, and there are as many output rules as matches. |
| Combine.SplitBackends | internal/envoy/resource.go:881-886 | Splitting repeats each rule's backends exactly once per match, counted with multiplicity and by weight. |
| Combine.CombineRouteRules | internal/envoy/resource.go:762-800 | The nested loops compute group-by-key: one rule per (matches, filters), with the backends of the key in input order. |
| Combine.GroupedKeysDistinct | internal/envoy/resource.go:808-821 | No two output rules could still be merged, and no key is lost or invented. |
| Combine.GroupedInFirstOccurrenceOrder | internal/envoy/resource.go:791-794 | Of two output rules, the one whose key occurs first in the input comes first. |
| Combine.GroupedConservesBackends | internal/envoy/resource.go:784 | Merging conserves the multiset of backend references and the total weight. |
| Combine.GroupBackendsAt | internal/envoy/resource.go:784 | A group's backends are exactly those of the rules with its matches and filters: backend j of such a rule stands after all backends of the earlier ones. |
| Combine.GroupedFirstMatch | internal/envoy/resource.go:762-800 | For every request the key of the first matching rule is the same before and after merging. |
| Combine.GroupedIdempotent | internal/envoy/resource.go:762-800 | Combining twice equals combining once. |
| SortRules.SortRouteRules | internal/envoy/resource.go:695-757 | The in-place adjacent-swap insertion sort leaves the array equal to the sorted specification of its old contents. |
| SortRules.SortedPermutes | internal/envoy/resource.go:698-754 | The sorted list is a permutation of the input although the comparison is not an order. |
| SortRules.SortedConservesBackends | internal/envoy/resource.go:698-754 | Sorting conserves the multiset of backend references and the total weight. |
| SortRules.CatchallIsLess | internal/envoy/resource.go:705-707 | The comparison puts a catch-all ahead of a rule iff that rule is a catch-all too or its prefix is the empty string. |
| SortRules.SortedCatchallsLast | internal/envoy/resource.go:691-694 | For all single-match rules without empty prefixes every catch-all follows every other rule. |
| SortRules.CatchallIsLastResort | internal/envoy/resource.go:691-694 | A request that some other rule accepts never selects a catch-all. |
| SortRules.CatchallsLastExactly | internal/envoy/resource.go:698-754 | Catch-alls end up last for every input order if and only if no catch-all occurs together with an empty prefix. |
| SortRules.SortedDescends | internal/envoy/resource.go:698-754 | Wherever a greater rank is less and what is less has no smaller rank, the result descends by rank, whatever the comparison says of equals. |
| SortRules.SortedStable | internal/envoy/resource.go:698-754 | Rules of which none is less than another keep their order, whatever stands between them. |
| SortOrders.PrecedesExactly | internal/envoy/resource.go:698-754 | For all single-match rules: some input order puts x ahead of y in the result if and only if x, or a rule that x is less than, heads a chain down to y of input rules each not less than the one before. |
| SortOrders.PromiseExactly | internal/envoy/resource.go:698-754 | So any promise that certain rules precede others holds for every input order if and only if no rule leads in this way to one that is to precede it. |
| SortOrders.PromiseAnswers | internal/envoy/resource.go:690-694 | Where a promise is kept, whoever accepts a request, no rule that it is to precede is selected instead. |
| SortOrders.RankExactly | internal/envoy/resource.go:698-754 | For all single-match rules and any rank: every input order comes out by descending rank if and only if the comparison follows the rank on all pairs. |
| SortOrders.ExactFirstExactly | internal/envoy/resource.go:711-718 | For all single-match rules: every input order puts exact paths first if and only if no other rule has more headers or parameters than an exact one, and none with a path (catch-alls aside) occurs that the exact one has not more than. |
| SortOrders.ExactPathWins | internal/envoy/resource.go:711-718 | There a request that an exact path accepts is answered by an exact path. |
| SortOrders.PrefixBeforeExact | internal/envoy/resource.go:711-718 | Prefix `/a` ahead of exact `/a/b` stays there, and is selected for path `/a/b` although the exact rule accepts. |
| SortOrders.LessExactly | internal/envoy/resource.go:698-754 | For any number of criteria a rule is less than another for one of five reasons and no other: the other is the catch-all, it is exact and the other has no path, its prefix is longer, it has a method and the other neither path nor method, or it has more headers (else parameters). |
| SortOrders.CatchallExactly | internal/envoy/resource.go:826-841 | The catch-all is a single match on prefix `/` with no header, parameter or method. |
| SortOrders.MethodFirstExactly | internal/envoy/resource.go:732-738 | For all single-match rules: every input order puts rules with a method ahead of rules with neither path nor method if and only if none of the latter leads to one of the former. |
| SortOrders.MethodWins | internal/envoy/resource.go:732-738 | There a request that a rule with a method accepts is never answered by a rule with neither. |
| SortOrders.PathlessMethodExactly | internal/envoy/resource.go:732-738 | For rules without a path and any other criteria: every input order puts methods first if and only if no rule without a method has more headers or parameters than one with a method. |
| SortOrders.PathlessMethodWins | internal/envoy/resource.go:732-738 | There a request that a method accepts is answered by a method. |
| SortOrders.PlainLastExactly | internal/envoy/resource.go:704-738 | For all single-match rules: every input order puts rules with neither path nor method, and catch-alls, after all others if and only if none overtakes another rule: by more headers or parameters, by a prefix or regular expression that has no more and no method, or, for the catch-all, by an empty prefix. |
| SortOrders.MoreHeadersExactly | internal/envoy/resource.go:740-744 | For all single-match rules: every input order puts more headers before fewer among two exact paths, or two rules without a path that agree on having a method, if and only if no such rule with fewer leads to one with more. |
| SortOrders.MoreHeadersWin | internal/envoy/resource.go:740-744 | There no such rule with fewer headers is selected instead of one that accepts. |
| SortOrders.HeadersDescendExactly | internal/envoy/resource.go:740-750 | In lists of such rules, any other criteria included, every input order comes out by the number of headers if and only if that never disagrees with the comparison. |
| SortOrders.PeersWithHeadersDescend | internal/envoy/resource.go:740-744 | So it does whenever all of them have headers. |
| SortOrders.MethodPassesHeader | internal/envoy/resource.go:732-738 | A header, then a method with the same header, come out the other way round. |
| SortRules.LongestPrefixWins | internal/envoy/resource.go:719-730 | On prefix-only rules some rule is selected iff any accepts, and its prefix is strictly longer than every other prefix that accepts, for every request path. |
| SortOrders.SingleCriterionOrder | internal/envoy/resource.go:711-750 | For all rules with one criterion: every input order puts exact paths before methods before the rest, and the catch-all last, if and only if no prefix or regular expression (other than the catch-all) occurs with an exact path or a method, and no empty prefix with the catch-all. |
| SortOrders.SingleCriterionStable | internal/envoy/resource.go:698-754 | For all rules with one criterion: those with the same criterion and counts (or prefix length) keep their order, catch-alls excepted. |
| SortOrders.OtherKindHolds | internal/envoy/resource.go:741-750 | A rule of the other kind, or with a prefix or regular expression, between two rules of one kind keeps fewer headers (or parameters) ahead of more. |
| SortOrders.ParameterBetweenHeaders | internal/envoy/resource.go:741-750 | One header, a parameter, two headers stay in that order. |
| SortOrders.PrefixBetweenHeaders | internal/envoy/resource.go:738-743 | One header, prefix `/a`, two headers stay in that order. |
| SortOrders.PrefixBeforeMethod | internal/envoy/resource.go:732-737 | One header, prefix `/a`, a method stay in that order, although the method is to go before the header and the header rule does not have more. |
| SortOrders.SingleCriterionExactly | internal/envoy/resource.go:738-750 | For all rules with one criterion: every input order puts more headers (or parameters) before fewer if and only if there are no two rules of one kind with different counts next to a rule of the other kind, or to a prefix or regular expression other than the catch-all. |
| SortOrders.HeadersOutweighPrefix | internal/envoy/resource.go:719-743 | Prefix `/a` with two headers and prefix `/a/b` with one: either input order comes out the other way round. |
| SortOrders.OutweighsIsLess | internal/envoy/resource.go:720-750 | The longer of two prefixes is less; the shorter is less as well iff it has more headers, or without a pair of header matches more parameters, or the longer is the catch-all. |
| SortOrders.PrefixesDescendExactly | internal/envoy/resource.go:698-754 | For rules that all have a path prefix and anything else, every input order comes out with longest prefixes first if and only if no shorter prefix outweighs a longer one so. |
| SortOrders.LongestPathFirst | internal/envoy/resource.go:719-730 | There no rule that accepts a request has a longer prefix than the rule selected for it. |
| SortRules.BarrierHolds | internal/envoy/resource.go:719-730 | A short prefix, any rule without a prefix, and a longer prefix stay in that order: prefix `/a`, exact `/x`, prefix `/a/b` is an instance. |
| SortRules.LongestPrefixExactly | internal/envoy/resource.go:698-754 | For all single-match rules: over every input order and request, the rule selected is never a specific prefix while a longer specific prefix accepts, if and only if no nested prefixes occur together with a rule that has no prefix. |
| SortRules.CatchallTieReversed | internal/envoy/resource.go:705-707 | Two catch-alls come out in reverse order. |
| SortRepaired.RepairedSorts | internal/envoy/resource.go:695-757 | Repaired comparison: on every rule list the result is a permutation that descends by precedence and is stable among peers. |
| SortRepaired.RepairedSelectsHighest | internal/envoy/resource.go:691-694 | Repaired: no rule that accepts a request has higher precedence than the rule selected for it. |
| SortRepaired.RepairedPromises | internal/envoy/resource.go:691-730 | Repaired: catch-alls are the last resort, an exact path is selected whenever one accepts, and the longest prefix wins, next to any other rules and for any input order. |
| Preprocess.PreprocessHTTPRoutes | internal/envoy/resource.go:614-689 | Fails (nil dereference) iff some route has an invalid hostname; otherwise the output has exactly one route per effective hostname, each with the compiled rules of the routes that carry it. |
| Preprocess.CookRules | internal/envoy/resource.go:669-685 | Merging, copying and sorting in place yields the compiled rules of one hostname. |
| Preprocess.CompilationPreservesMeaning | internal/envoy/resource.go:606-613 | Under each output hostname a request matches some output rule iff it matches some rule of some input route that carries the hostname. |
| Preprocess.CompilationKeepsBackends | internal/envoy/resource.go:655-685 | The backends of an output rule are the input-order concatenation over all split occurrences with its match and filters; no occurrence is missing, no key repeats, and the output rules conserve the multiset of backends and the total weight. |
| Preprocess.EndToEndLongestPrefix | internal/envoy/resource.go:614-689 | End to end, for prefix-only rules, the selected output rule has the longest accepting prefix of all input pairs and all backends with that prefix and its filters. |
| Preprocess.EmptyDefaultServesNobody | internal/envoy/resource.go:617-636 | With an empty listener hostname a route without hostnames asks for every host and is compiled under a name that denotes none of them. |
| Preprocess.ServedExactly | internal/envoy/resource.go:614-689 | Hosts and rules together: outside the two families that lose hosts, a host and a request are served by some output route iff some input route asks for the host and accepts the request. |
| EndToEnd.PairsExactly | internal/envoy/resource.go:657-663 | A split rule of a hostname is exactly one match of one rule of an input route that carries it. |
| EndToEnd.PairAt | internal/envoy/resource.go:657-663 | Each such pair occurs once and in input order: after the pairs of the earlier carrying routes, rules and matches. |
| EndToEnd.OutputBackendsDue | internal/envoy/resource.go:614-689 | The output of a hostname holds every backend exactly as often as the carrying routes have it, once per match, and the weight that is due. |
| EndToEnd.CatchallAnswersLast | internal/envoy/resource.go:614-694 | For any routes without empty prefixes: a request that some specific pair accepts is never answered by a catch-all. |
| EndToEnd.ExactAnswersFirst | internal/envoy/resource.go:614-718 | For any routes: if no pair displaces an exact one, a request that an exact pair accepts is answered by an exact path. |
| EndToEnd.LongestPrefixAnswers | internal/envoy/resource.go:614-730 | For routes whose matches all have a prefix: if none outweighs a longer one, the answer has a longest prefix of all pairs that accept. |
| EndToEnd.SpecificPrefixAnswers | internal/envoy/resource.go:614-730 | For routes whose matches all have a prefix, whatever else: no specific prefix answers a request that a longer specific prefix accepts. |
| EndToEnd.MethodAnswersFirst | internal/envoy/resource.go:614-738 | For routes without paths: if no pair without a method has more than one with a method, a request that a method accepts is answered by a method. |
| EndToEnd.OutputLeads | internal/envoy/resource.go:674-686 | For any routes: whatever stands ahead in the output leads to what stands behind, among the output rules. |
| EndToEnd.OutputStable | internal/envoy/resource.go:674-686 | For any routes: of output rules that the comparison does not tell apart, the one whose match and filters occur first among the pairs comes first. |
| EndToEnd.RootAndExact | internal/envoy/resource.go:614-689 | One route with prefix `/` ahead of exact `/x` is compiled to the exact path ahead of the prefix, under `*`. |
| Listeners.Collapse | internal/envoy/resource.go:478-507 | The result is that of the collapse specification for some visiting order of the map. |
| Listeners.CompatibleIsEquivalence | internal/envoy/resource.go:514-530 | Compatibility is reflexive, symmetric and transitive. |
| Listeners.CompatibleExactly | internal/envoy/resource.go:514-530 | Two listeners are compatible if and only if their ports are equal and their protocols are one on the wire, where HTTPS and TLS are one and every other protocol is its own. |
| Listeners.CollapseClosedForm | internal/envoy/resource.go:489-505 | For every order: a listener keeps an entry iff it is first or follows an incompatible one, and the entry holds the routes of the compatible listeners from there on. |
| Listeners.CollapseKeepsRoutes | internal/envoy/resource.go:474-507 | For every order each listener's routes are found, as a block, under a compatible entry, and every route of an entry comes from a compatible listener. |
| Listeners.CollapseKeepsPorts | internal/envoy/resource.go:474-530 | For every order each listener's routes are found under an entry of its own port and protocol (HTTPS and TLS counting as one), and every route of an entry comes from such a listener. |
| Listeners.TwoPortsStay | internal/envoy/resource.go:515-518 | HTTP on 80 and HTTP on 8080 stay two entries in either order. |
| Listeners.OnePerClassExactly | internal/envoy/resource.go:489-505 | Every order leaves one entry per class if and only if the listeners are all compatible or pairwise incompatible. |
| Listeners.TwoListenersCollapse | internal/envoy/resource.go:489-505 | At most two listeners are always collapsed to one entry per class. |
| Listeners.RepairedClosedForm | internal/envoy/resource.go:489-505 | Repaired: the entries are the first listener of each class, with the routes of the whole class. |
| Listeners.RepairedOnePerClass | internal/envoy/resource.go:489-505 | Repaired: exactly one entry per class for every order and any number of listeners. |
| Bytes.CompareIsNumeric | internal/allocator/iprange.go:63 | On equal lengths byte-lexicographic order is the order of the big-endian numbers, in all three outcomes. |
| Bytes.SuccessorValue | internal/allocator/iprange.go:156-164 | Carrying adds one to the big-endian number modulo 256^n. |
| Bytes.Inc | internal/allocator/iprange.go:156-164 | The in-place carry loop leaves the successor of the old bytes. |
| Bytes.ToInt | internal/allocator/iprange.go:147-154 | The loop in uint64 arithmetic yields the low 64 bits of the number. |
| IPRanges.OverlapsExactly | internal/allocator/iprange.go:47-57 | For all ranges: a true answer is wrong exactly when b is inverted; a common address is missed exactly when b sticks out of a non-empty a on both sides; ranges have a common address iff neither is inverted and one of the two calls is true. |
| IPRanges.VisitsInOrder | internal/allocator/iprange.go:72-85 | The n-th address visited is first + n, and exactly last - first + 1 are visited. |
| IPRanges.VisitedOnce | internal/allocator/iprange.go:72-85 | An address is visited iff it is contained in the range, and at most once. |
| IPRanges.InvertedRangeVisits | internal/allocator/iprange.go:72-85 | An inverted range visits its start and nothing else. |
| IPRanges.ReachesExactly | internal/allocator/iprange.go:72-85 | For every range, inverted or not, the addresses reached are those of the range, or the start of an inverted one. |
| IPRanges.Size | internal/allocator/iprange.go:90-110 | With its byte loop and wrap-around, always a uint64: the greatest if the upper halves of a range that starts in IPv6 differ, else the count modulo 2^64. |
| IPRanges.SizeExactlyV6 | internal/allocator/iprange.go:87-109 | For a range from IPv6: the documented size is returned iff the ends share their upper half and the count is below 2^64 (or, inverted, the ends are neighbours), or they do not and the count is at least 2^64 - 1. |
| IPRanges.SizeExactlyV4 | internal/allocator/iprange.go:87-109 | For a range from IPv4 to anywhere: the documented size is returned iff the count is below 2^64 or is 2^64 - 1 in its low 64 bits, or, inverted, what lies between the ends is a multiple of 2^64. |
| IPRanges.SizeWithinV4 | internal/allocator/iprange.go:87-109 | Within IPv4 the documented size is always returned and is at most 2^32. |
| IPRanges.SizeCountsVisits | internal/allocator/iprange.go:72-110 | Size equals the number of addresses the enumeration visits, for ends of one family that share their upper half and counts below 2^64. |
| IPRanges.NetworkIsBlock | internal/allocator/iprange.go:112-127 | The addresses with one network number are a block of consecutive addresses of the host part's size. |
| IPRanges.ParseCIDR | internal/allocator/iprange.go:112-127 | The loop terminates for every prefix length; the range starts at the given address and ends at `CidrLast`. |
| IPRanges.CidrEndsAtNetworkLast | internal/allocator/iprange.go:119-124 | The end is the last address of the network if and only if the walk does not meet the IPv4-mapped block. |
| IPRanges.CidrIsNetworkFromStart | internal/allocator/iprange.go:112-127 | Then the range is exactly the network's addresses at or above the (unmasked) start. |
| IPRanges.CidrLastV4 | internal/allocator/iprange.go:113-124 | An IPv4 prefix of length n ends at the last of the 2^(32-n) addresses that agree in the first n bits. |
| IPRanges.CidrLastV6 | internal/allocator/iprange.go:113-124 | An IPv6 prefix of length n, unless cut short, ends at the last of the 2^(128-n) addresses that agree in the first n bits. |
| IPRanges.TwentyFourBits | internal/allocator/iprange.go:113-124 | 192.168.1.0/24 ends at 192.168.1.255. |
| IPRanges.WholeSpaceInverted | internal/allocator/iprange.go:119-124 | An IPv6 prefix of length 0 from above the IPv4-mapped block gives an inverted range. |
| Pools.LocalPool.Available | internal/allocator/localpool.go:64-98 | Succeeds iff the address has no key, or (keys allow sharing or nobody else is there) and nobody else has a requested port; a refused port is a requested one that another service holds. |
| Pools.LocalPool.Assign | internal/allocator/localpool.go:113-133 | Succeeds iff available; then users, key and ports of that address change and nothing else; a refusal changes nothing. |
| Pools.LocalPool.AssignNext | internal/allocator/localpool.go:101-110 | Takes the first visited address that is usable, and fails, changing nothing, iff none is. |
| Pools.LocalPool.Release | internal/allocator/localpool.go:136-151 | As written: the whole new state of the three maps, with entries that become empty deleted. |
| Pools.LocalPool.ReleaseRepaired | internal/allocator/localpool.go:136-151 | Repaired: the key stays while others use the address, and exactly the service's own ports go. |
| Pools.LocalPool.InUse | internal/allocator/localpool.go:153-157 | The number of addresses with a user, whatever keys and ports are recorded. |
| Pools.FirstFitIsLowest | internal/allocator/localpool.go:101-110 | On a non-empty range the address taken is in the range and the lowest usable one. |
| Pools.NoFitExactly | internal/allocator/localpool.go:101-110 | On a non-empty range the search fails iff no address of the range is usable. |
| Allocation.AllocateIsRecord | internal/allocator/allocator.go:158-194 | For a service without an allocation, assigning in the pool and then recording (which assigns again) is one recording. |
| Allocation.RecordNeverRefused | internal/allocator/allocator.go:89-98 | The ignored answer of the pool is never an error: what was usable before the old allocation was dropped is usable after, in both variants and from any state. |
| Allocation.StepKeeps | internal/allocator/allocator.go:74-194 | Every operation keeps the invariant: agreement of the two records always; exclusive sharing with the repaired release, or as written when nobody leaves a shared address; exactness with the repaired release. |
| Allocation.RunsKeepInv | internal/allocator/allocator.go:74-194 | Over every run from empty disjoint pools with any ranges: a service is in a pool's record of an address iff its allocation names them, every allocated address is one that its pool reaches (in the range, unless that is inverted), and services on one address hold the same non-empty key and disjoint ports (with the conditions of `StepKeeps`). |
| Allocation.InvExclusive | internal/allocator/pool.go:45-56 | In every such state two services on one address hold the same non-empty sharing key and have no port in common. |
| Allocation.InUseCountsAddresses | internal/allocator/localpool.go:153-157 | `InUse` is the number of distinct addresses allocated from the pool. |
| Allocators.Allocator.InUseCounts | internal/allocator/localpool.go:153-157 | In the allocator a pool's answer is the number of distinct addresses allocated from it. |
| Allocation.OthersUntouched | internal/allocator/allocator.go:89-194 | No operation changes the allocation of another service. |
| Allocation.UnassignTouchesOne | internal/allocator/allocator.go:135-155 | From any state an unassignment takes out that one allocation and releases in its pool at its address alone. |
| Allocation.AllocateThenUnassign | internal/allocator/allocator.go:135-194 | Allocating and unassigning restores the allocation table and every `addressesInUse`, and with the repaired release every key and port as well. |
| Allocation.StepExclusive | internal/allocator/allocator.go:102-194 | From a state with exclusive sharing no single operation, in either variant, puts two services on an address that they may not share. |
| Allocation.WrittenReleaseExactly | internal/allocator/allocator.go:135-155 | As written, an unassignment leaves a state from which no single operation puts services on one address that may not share it, if and only if nobody else was on the address (the key is lost otherwise). |
| Allocation.WrittenReleaseKeepsExactly | internal/allocator/localpool.go:136-151 | As written, an unassignment keeps the sharing invariant if and only if nobody else was on the address, and leaves nothing behind if and only if the service also had no ports. |
| Allocation.WrittenAssignExactly | internal/allocator/allocator.go:89-98 | As written, assigning leaves a state from which no single operation breaks exclusivity if and only if it is harmless: a service without an allocation, or one that leaves nobody behind, or one assigned anew where it is while the others there have no ports. |
| Allocation.WrittenAssignKeepsExactly | internal/allocator/allocator.go:89-98 | As written, assigning keeps the sharing invariant if and only if it is harmless, and leaves nothing behind if and only if the service also takes all its old ports again, or had none where it leaves. |
| Allocation.ReassignLosesPorts | internal/allocator/localpool.go:136-151 | Assigned anew as it is, a service makes the pool forget the port of another, and a third is given that port. |
| Allocation.StalePortRefused | internal/allocator/localpool.go:143-147 | A port of a departed service is granted while the address is free, yet refused to a newcomer with the same key once another service is there that does not have it. |
| Allocation.UsableExactly | internal/allocator/localpool.go:64-98 | Where nothing is left behind, an address is usable if and only if the newcomer has the same non-empty key as, and no port in common with, everyone else who is there. |
| Allocation.RepairedRefusesExactly | internal/allocator/localpool.go:64-98 | Over every run of the repaired allocator a refusal names a real conflict, and every conflict is refused. |
| Allocation.SamePortTwoNames | internal/allocator/localpool.go:89-94 | Entries with the same protocol and port number but different names do not conflict. |
| Allocators.Allocator.Unassign | internal/allocator/allocator.go:135-155 | Always succeeds, and the state becomes that of the unassignment specification. |
| Allocators.Allocator.Record | internal/allocator/allocator.go:89-98 | Unassigns, records and assigns: the state becomes that of the recording specification. |
| Allocators.Allocator.PoolFor | internal/allocator/allocator.go:217-224 | Names a pool that contains the address, and no pool iff none does. |
| Allocators.Allocator.Assign | internal/allocator/allocator.go:102-132 | Is a step; success records the allocation in a pool that contains the address and can take it, before and after the old one is dropped; failure changes nothing and means that no pool contains it or one that does refuses. |
| Allocators.Allocator.AllocateFromPool | internal/allocator/allocator.go:158-194 | Is a step; a service with an allocation gets the same address and nothing changes; a new allocation is the first fit, recorded with the requested ports and key; failure changes nothing and means that the pool is unknown or has no usable address. |
| Allocators.Allocator.ValidateDelete | internal/allocator/allocator.go:206-215 | Accepts iff no allocation names the pool. |
| Allocators.Allocator.RemovePool | internal/allocator/allocator.go:74-85 | Removes exactly that pool iff no allocation names it, else changes nothing. |
| TunnelIds.SameIdExactly | api/v1/epic_types.go:181-188 | In any chain of commits, wherever the counter stands, two commits less than 2^32 - 2 apart yield the same ID iff the second is an `AllocateTunnelID` commit directly after a `nextTunnelID` commit that did not wrap to 0. |
| TunnelIds.OneKindCycle | controllers/remoteendpoint_controller.go:217-222 | Past the wrap, with one allocator only, IDs repeat exactly after full cycles: 2^32 commits of `nextTunnelID`, 2^32 - 1 of `AllocateTunnelID`. |
| TunnelIds.ZeroExactly | api/v1/epic_types.go:182-185 | `AllocateTunnelID` never yields 0, and `nextTunnelID` yields it exactly when the counter read was the greatest uint32. |
| TunnelIds.StepKeepsInv | api/v1/epic_types.go:171-192 | Every event keeps: commits form a chain, a client whose version is current holds the current counter, and successful calls own different commits of their kind. |
| TunnelIds.SuccessfulIds | api/v1/epic_types.go:167-193 | Over every interleaving of any number of clients, with stale reads, conflicts, failures, lost replies and other writes: two successful calls less than 2^32 - 2 commits apart return the same ID iff one is an `AllocateTunnelID` whose commit directly follows that of the other, a `nextTunnelID` that did not return 0. |
| TunnelIds.OneKindDistinct | api/v1/epic_types.go:167-193 | So successful calls of one kind less than 2^32 - 2 commits apart return distinct IDs, whatever the other kind does. |
| TunnelIds.OneKindForever | controllers/remoteendpoint_controller.go:200-223 | Over every interleaving, past the wrap, with one kind in use: equal IDs exactly after a multiple of a full cycle. |
| TunnelIds.RequestsBounded | controllers/remoteendpoint_controller.go:189-198 | Over every interleaving a client sends at most two requests for each try of its calls, less what it may still send. |
| TunnelIds.RetriesExactly | controllers/remoteendpoint_controller.go:189-198 | After an error a call reads again exactly if it has tries left and is `allocateTunnelID`, or met a conflict. |
| TunnelStore.EpicStore.Update | api/v1/epic_types.go:190-191 | The server commits only if the version read is the one at the call and nobody writes in between; a conflict means that the version has moved on and nothing was committed; a reported success ends the history with the caller's commit and its counter. |
| TunnelStore.EpicStore.Get | api/v1/epic_types.go:178-180 | Reads the current object or an older version out of a cache; never fails with a conflict and commits nothing. |
| TunnelStore.AllocateTunnelID | api/v1/epic_types.go:170-193 | Amid writes by others: a returned ID is non-zero and that of the caller's only commit during the call, and below the wrap it is at least the counter before and less than the counter after. Only conflicts are retried: a conflict is reported exactly after all attempts met one, any other error at once. |
| TunnelStore.NextTunnelID | controllers/remoteendpoint_controller.go:208-223 | A returned ID is that of the caller's only commit during the call; an error is the single one that its two requests met. |
| TunnelStore.AllocateTunnelIDInThreeTries | controllers/remoteendpoint_controller.go:189-198 | A returned ID is that of the caller's last commit, made during the call after fewer than three errors of any kind; failure means exactly three, and reports the last; each error may have used up one ID. |
| TunnelStore.FreshId | api/v1/epic_types.go:187-188 | Below the wrap, any later `AllocateTunnelID` commit has an ID from the earlier counter up to below the later one. |
| TunnelMaps.AddTunnel | controllers/gwproxy_controller.go:322-346 | One (client, pod) turn puts exactly one entry into the map and changes no other; an existing tunnel is copied and consumes no ID, a new one carries the ID of the one commit that the turn made. |
| TunnelMaps.FindTunnel | controllers/gwproxy_controller.go:330-345 | The tunnel of a pair is the old one, or the configured endpoint at the EPIC node with the ID of the caller's one commit. |
| TunnelMaps.RebuildTunnels | controllers/gwproxy_controller.go:319-382 | The nested loops, with the same promises once configuration and endpoints are known. |
| TunnelMaps.AllocateProxyTunnels | controllers/gwproxy_controller.go:295-383 | On success the map has exactly the pairs of client nodes and EPIC nodes with a pod, surviving pairs keep their tunnel, each new one has the ID of an own commit made during the call, a different one for each pair, and one ID is consumed per turn without an old tunnel; it fails only if the configuration or the endpoints cannot be read (then no ID is requested), an ID request failed or the patch is refused, and then the proxy is unchanged; below the wrap it is a turn of `RunsKeepTunnels`. |
| TunnelMaps.NewTunnelsDiffer | controllers/gwproxy_controller.go:338-345 | Wherever the counter stands, new tunnels of one rebuild, and of two, have different IDs while less than 2^32 - 2 commits lie between. |
| TunnelMaps.ConsumedExactly | controllers/gwproxy_controller.go:319-347 | The IDs consumed are never fewer than the new pairs, and as many if and only if no two turns (endpoints on one node, pods on one EPIC node) meet the same new pair. |
| TunnelMaps.RebuiltHosted | controllers/gwproxy_controller.go:319-347 | After a rebuild each EPIC node in the map hosts a registered pod. |
| TunnelMaps.RebuiltIdsDistinct | controllers/gwproxy_controller.go:338-345 | Distinct IDs below the counter stay distinct and below the new counter. |
| TunnelMaps.RebuiltHasAll | controllers/gwproxy_controller.go:319-347 | After a rebuild every pair is present, so by the contract of `AllocateProxyTunnels` the next rebuild consumes no ID. |
| TunnelMaps.RebuiltAgain | controllers/gwproxy_controller.go:330-334 | Rebuilding the result with the same inputs gives the same map. |
| TunnelMaps.RemoveProxyInfo | api/v1/gwproxy_types.go:278-319 | Both maps become those of the removal specification, whatever the iteration order, which is a turn of `RunsKeepTunnels`. |
| TunnelMaps.RemovalKeeps | api/v1/gwproxy_types.go:292-311 | After a removal the pairs left are exactly those whose EPIC node still hosts a pod, their tunnels are unchanged and IDs stay distinct. |
| TunnelMaps.TurnKeeps | controllers/gwproxy_controller.go:293-383 | Each rebuild, removal or registration keeps the tunnel invariant. |
| TunnelMaps.RunsKeepTunnels | api/v1/gwproxy_types.go:276-319 | Over every sequence of them from an empty map: each EPIC node in the map hosts a registered pod and all IDs are distinct. |
| Labels.NewLabelsFromString | api/v1/dns_labels.go:58-86 | Fails iff the heritage is foreign or missing; otherwise returns the labels of the tokens, the last token of a key deciding. |
| Labels.ParsesUnique | api/v1/dns_labels.go:58-86 | That contract determines the result. |
| Labels.ParsesFieldsExactly | api/v1/dns_labels.go:58-86 | Any text, given as its tokens' fields: parsing fails iff a pair names a foreign heritage or none names ours; otherwise the labels are those of the pairs whose key starts with external-dns, without it if a slash follows, the last of a name deciding; other tokens are skipped. |
| Labels.TrimExactly | api/v1/dns_labels.go:60 | Trimming removes all quotes at both ends and nothing else. |
| Labels.Serialize | api/v1/dns_labels.go:90-106 | The text is the rendering of the keys in ascending order, whatever order the map is visited in. |
| Labels.ParsedIsClean | api/v1/dns_labels.go:64-79 | Parsed keys and values contain no comma and no equals sign, whatever the text. |
| Labels.CleanRoundTrip | api/v1/dns_labels.go:58-106 | A map without commas and equals signs is read back from any text that unquotes to its joined tokens. |
| Labels.RoundTripExactly | api/v1/dns_labels.go:58-106 | For both values of the quoting flag, parsing the printed map gives the map back if and only if no key or value contains a comma or an equals sign and the value of the greatest key does not end in a double quote. |
| Labels.QuotesExactly | api/v1/dns_labels.go:102-105 | The flag adds a quote at each end and nothing else; without it the text begins with none, and ends with one only if the greatest key's value does. |
| Labels.OneLabelText | api/v1/dns_labels.go:90-106 | The text of one label, written out. |

## Left out

Assumptions that the results rest on:

- SortRules.Sorted: `sort.SliceStable` is the adjacent-swap insertion sort that Go runs on up to 20 elements; longer lists are also merged block-wise, which with this comparison may give another order.
- Hosts.ComputedHostsComplete: the DNS-1123 check is a parameter; all that is assumed of it is that a valid wildcard starts with "*." (the check itself, `IsValidHostname`, is not modelled).
- Hosts.LostHost: hosts are arbitrary strings, so the lost host is longer than a DNS name may be when the route hostnames are.
- Routes.Matches: the path type and value of a match are present, as API defaulting guarantees; what a regular expression accepts is part of the request; header names are compared as they are; path prefixes match whole elements, as the proxy's separated prefix does.
- Routes.ShouldMerge: `reflect.DeepEqual` is equality of values, so a nil and an empty list are not told apart; filters are opaque.
- Combine.CombineRouteRules: `append` to a shared slice is modelled as a new sequence; aliasing of backing arrays is not.
- Combine.SplitMatches: a rule without matches disappears, as in the code; API defaulting gives every rule a match.
- Listeners.Collapse: Go compares listeners with their pointers; here a listener is its name, hostname, port and protocol, and names are unique in a gateway.
- IPRanges.ParseCIDR: text parsing is left to Go's `net` package; an IPv4-mapped start is taken as IPv4 with a prefix length of at most 32, so the IPv6 spelling of such an address with an IPv6 prefix length is not part of this model.
- IPRanges.Visit: every address has 16 bytes, as Go's parser returns it.
- Allocation.RunsKeepInv: starts from empty pools that do not overlap; `AddPrefix`, which replaces a pool and forgets its records, and the warm-up after a restart are not steps.
- Allocators.Allocator.Assign: pool names are non-empty, since "" stands for "no pool".
- TunnelIds.SuccessfulIds: calls 2^32 - 2 or more commits apart are covered for one kind at a time (`TunnelIds.OneKindForever`), not for mixed runs.
- TunnelStore.AllocateTunnelID: Go leaves open whether `return tunnelID, retry…` reads the variable before or after the call; here it is read after it. The number of attempts is a positive parameter.
- TunnelMaps.AllocateProxyTunnels: whether the server takes the patch is a parameter; the patch replaces the whole map and carries no version check, so runs are sequences of operations, not interleavings; the registration of a pod is a step of runs only. The endpoints come in as the list of their node addresses.
- TunnelMaps.RemoveProxyInfo: the pass of the retry closure that succeeds; a missing proxy and conflicts change nothing.
- Labels.NewLabelsFromString: text is a sequence of characters, one per byte.

Not modelled:

- the Kubernetes client, controllers, webhooks, logging and metrics (input and output);
- network devices, packet filters and agents (foreign effects);
- Envoy configuration templates and DNS endpoint names (text templating);
- TLS and TCP routes, filtering of routes by listener, and cross-namespace references (easy members);
- `parseFromTo`, `Targets`, upstream bookkeeping, finalizers and generated copies (easy members).
