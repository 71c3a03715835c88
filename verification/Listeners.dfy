/** Collapsing compatible listeners into one (internal/envoy/resource.go).
  *
  * Go visits a map in an unspecified order, so the order is a parameter of the specification and
  * every statement is for all orders. */
module Listeners {
  import Wrappers
  import Combine

  datatype Protocol = HTTP | HTTPS | TLS | TCP | UDP | Other(name: string)

  datatype Listener = Listener(name: string, hostname: Wrappers.Option<string>, port: int, protocol: Protocol)

  predicate Compatible(l1: Listener, l2: Listener) {
    if l1.port != l2.port then false
    else if l1.protocol == l2.protocol then true
    else if (l1.protocol.HTTPS? || l1.protocol.TLS?) && (l2.protocol.HTTPS? || l2.protocol.TLS?) then true
    else false
  }

  /** What is spoken on the wire: HTTPS and TLS are one class, every other protocol is its own. */
  function Wire(p: Protocol): Protocol {
    match p
    case HTTPS => TLS
    case HTTP => HTTP
    case TLS => TLS
    case TCP => TCP
    case UDP => UDP
    case Other(name) => Other(name)
  }

  lemma CompatibleExactly(a: Listener, b: Listener)
    ensures Compatible(a, b) <==> a.port == b.port && Wire(a.protocol) == Wire(b.protocol)
  {}

  lemma CompatibleIsEquivalence(a: Listener, b: Listener, c: Listener)
    ensures Compatible(a, a)
    ensures Compatible(a, b) ==> Compatible(b, a)
    ensures Compatible(a, b) && Compatible(b, c) ==> Compatible(a, c)
  {}

  ghost predicate Visits(order: seq<Listener>, keys: set<Listener>) {
    Combine.Distinct(order) && forall l :: l in order <==> l in keys
  }

  /** One turn of the outer loop. */
  function Step<R>(c: map<Listener, seq<R>>, l1: Listener, r1: seq<R>): map<Listener, seq<R>> {
    if |c| == 0 then map[l1 := r1]
    else
      var merged := map l2 | l2 in c :: if Compatible(l1, l2) then c[l2] + r1 else c[l2];
      if exists l2 :: l2 in c && !Compatible(l1, l2) then merged[l1 := r1] else merged
  }

  function CollapseIn<R>(order: seq<Listener>, m: map<Listener, seq<R>>): map<Listener, seq<R>>
    requires forall l :: l in order ==> l in m
  {
    if order == [] then map[]
    else
      var l := order[|order| - 1];
      Step(CollapseIn(order[..|order| - 1], m), l, m[l])
  }

  method Collapse<R>(m: map<Listener, seq<R>>) returns (collapsed: map<Listener, seq<R>>)
    ensures exists order :: Visits(order, m.Keys) && collapsed == CollapseIn(order, m)
  {
    collapsed := map[];
    var rest := m.Keys;
    ghost var order: seq<Listener> := [];
    if |m| <= 1 {
      SmallMap(m);
      return m;
    }
    hide CollapseIn, Compatible;
    NoneCollapsed(m);
    while rest != {}
      invariant rest <= m.Keys && Visits(order, m.Keys - rest)
      invariant collapsed.Keys <= m.Keys - rest
      invariant collapsed == CollapseIn(order, m)
    {
      var l1 :| l1 in rest;
      assert l1 !in order;
      if |collapsed| == 0 {
        collapsed := collapsed[l1 := m[l1]];
      } else {
        collapsed := MergeInto(collapsed, l1, m[l1]);
      }
      CollapseSnoc(order, l1, m);
      order := order + [l1];
      rest := rest - {l1};
    }
  }

  lemma NoneCollapsed<R>(m: map<Listener, seq<R>>)
    ensures CollapseIn([], m) == map[]
  {}

  lemma CollapseSnoc<R>(order: seq<Listener>, l: Listener, m: map<Listener, seq<R>>)
    requires forall x :: x in order + [l] ==> x in m
    ensures forall x :: x in order ==> x in m
    ensures CollapseIn(order + [l], m) == Step(CollapseIn(order, m), l, m[l])
  {
    assert forall x :: x in order ==> x in order + [l];
    assert l in order + [l];
    assert (order + [l])[..|order|] == order;
  }

  /** The inner loop, over the entries of the output map in an arbitrary order. The entry it adds
    * for `l1` itself may or may not be visited; the guard skips it, so it is not in `rest`. */
  method MergeInto<R>(c: map<Listener, seq<R>>, l1: Listener, r1: seq<R>) returns (r: map<Listener, seq<R>>)
    requires |c| != 0 && l1 !in c
    ensures r == Step(c, l1, r1)
  {
    r := c;
    var rest := c.Keys;
    while rest != {}
      invariant rest <= c.Keys
      invariant forall l2 :: l2 in c ==>
                  l2 in r && r[l2] == if l2 !in rest && Compatible(l1, l2) then c[l2] + r1 else c[l2]
      invariant forall l :: l in r ==> l in c || l == l1
      invariant l1 in r <==> exists l2 :: l2 in c.Keys - rest && !Compatible(l1, l2)
      invariant l1 in r ==> r[l1] == r1
    {
      var l2 :| l2 in rest;
      if l1 != l2 {
        if Compatible(l1, l2) {
          r := r[l2 := r[l2] + r1];
        } else {
          r := r[l1 := r1];
        }
      }
      rest := rest - {l2};
    }
  }

  lemma SmallMap<R>(m: map<Listener, seq<R>>)
    requires |m| <= 1
    ensures exists order :: Visits(order, m.Keys) && m == CollapseIn(order, m)
  {
    if |m| == 0 {
      assert Visits([], m.Keys) && m == CollapseIn([], m);
    } else {
      var l :| l in m;
      assert |m.Keys - {l}| == 0;
      assert m.Keys == {l};
      assert [l][..0] == [] && CollapseIn([l], m) == map[l := m[l]];
      assert Visits([l], m.Keys) && m == CollapseIn([l], m);
    }
  }

  // ----- closed form -----

  /** A listener keeps its own entry iff it comes first or after an incompatible one. */
  ghost predicate StandsAlone(order: seq<Listener>, i: nat)
    requires i < |order|
  {
    i == 0 || exists j :: 0 <= j < i && !Compatible(order[i], order[j])
  }

  /** The routes of the listeners at or after place `i` that are compatible with the one there. */
  function Gathered<R>(order: seq<Listener>, m: map<Listener, seq<R>>, i: nat): seq<R>
    requires i < |order| && forall l :: l in order ==> l in m
    decreases |order|
  {
    var last := order[|order| - 1];
    if i == |order| - 1 then m[last]
    else Gathered(order[..|order| - 1], m, i) + (if Compatible(last, order[i]) then m[last] else [])
  }

  /** Snoc, for `Gathered`. */
  lemma GatheredSnoc<R>(init: seq<Listener>, last: Listener, m: map<Listener, seq<R>>, i: nat)
    requires i < |init| && forall l :: l in init + [last] ==> l in m
    ensures forall l :: l in init ==> l in m
    ensures Gathered(init + [last], m, i)
         == Gathered(init, m, i) + (if Compatible(last, init[i]) then m[last] else [])
  {
    assert forall l :: l in init ==> l in init + [last];
    assert (init + [last])[..|init|] == init;
  }

  ghost predicate ClosedAt<R>(order: seq<Listener>, m: map<Listener, seq<R>>, c: map<Listener, seq<R>>, i: nat)
    requires i < |order| && forall l :: l in order ==> l in m
  {
    && (order[i] in c <==> StandsAlone(order, i))
    && (order[i] in c ==> c[order[i]] == Gathered(order, m, i))
  }

  /** The closed form of the result: who has an entry, and what is in it. */
  ghost predicate Closed<R>(order: seq<Listener>, m: map<Listener, seq<R>>, c: map<Listener, seq<R>>)
    requires forall l :: l in order ==> l in m
  {
    && (forall l :: l in c ==> l in order)
    && (forall i :: 0 <= i < |order| ==> ClosedAt(order, m, c, i))
  }

  /** What the loops compute, for every order. */
  lemma {:induction false} CollapseClosedForm<R>(order: seq<Listener>, m: map<Listener, seq<R>>)
    requires Combine.Distinct(order) && forall l :: l in order ==> l in m
    ensures Closed(order, m, CollapseIn(order, m))
  {
    if order != [] {
      var init, last := order[..|order| - 1], order[|order| - 1];
      assert order == init + [last] && last !in init;
      CollapseClosedForm(init, m);
      ClosedSnoc(init, last, m, CollapseIn(init, m));
    }
  }

  lemma ClosedSnoc<R>(init: seq<Listener>, last: Listener, m: map<Listener, seq<R>>, c: map<Listener, seq<R>>)
    requires last !in init && (forall l :: l in init + [last] ==> l in m) && (forall l :: l in init ==> l in m)
    requires Closed(init, m, c)
    ensures Closed(init + [last], m, Step(c, last, m[last]))
  {
    var order, c' := init + [last], Step(c, last, m[last]);
    if init == [] {
      assert c == map[];
    } else {
      assert ClosedAt(init, m, c, 0) && StandsAlone(init, 0);
      IncompatibleEntry(init, m, c, last);
    }
    forall i | 0 <= i < |order|
      ensures ClosedAt(order, m, c', i)
    {
      if i < |init| {
        assert ClosedAt(init, m, c, i);
        ClosedStep(init, last, m, c, i);
      } else {
        ClosedNew(init, last, m, c);
      }
    }
  }

  lemma ClosedNew<R>(init: seq<Listener>, last: Listener, m: map<Listener, seq<R>>, c: map<Listener, seq<R>>)
    requires last !in init && last !in c && forall l :: l in init + [last] ==> l in m
    requires init == [] ==> c == map[]
    requires init != [] ==> |c| != 0
    requires init != [] ==> ((exists x :: x in c && !Compatible(last, x)) <==> (exists x :: x in init && !Compatible(last, x)))
    ensures ClosedAt(init + [last], m, Step(c, last, m[last]), |init|)
  {
    if init != [] {
      StandsAloneLast(init, last, c);
    }
  }

  lemma ClosedStep<R>(init: seq<Listener>, last: Listener, m: map<Listener, seq<R>>, c: map<Listener, seq<R>>, i: nat)
    requires i < |init| && last !in init && forall l :: l in init + [last] ==> l in m
    requires forall l :: l in init ==> l in m
    requires |c| != 0 && ClosedAt(init, m, c, i)
    ensures ClosedAt(init + [last], m, Step(c, last, m[last]), i)
  {
    StandsAloneInit(init + [last], i);
    assert (init + [last])[..|init|] == init;
    GatheredSnoc(init, last, m, i);
  }

  lemma StandsAloneInit(order: seq<Listener>, i: nat)
    requires i < |order| - 1
    ensures StandsAlone(order, i) <==> StandsAlone(order[..|order| - 1], i)
  {
    var init := order[..|order| - 1];
    if j :| 0 <= j < i && !Compatible(order[i], order[j]) {
      assert !Compatible(init[i], init[j]);
    }
  }

  lemma StandsAloneLast<R>(init: seq<Listener>, last: Listener, c: map<Listener, seq<R>>)
    requires init != []
    requires (exists x :: x in c && !Compatible(last, x)) <==> (exists x :: x in init && !Compatible(last, x))
    ensures StandsAlone(init + [last], |init|) <==> exists x :: x in c && !Compatible(last, x)
  {
    var order := init + [last];
    if x :| x in init && !Compatible(last, x) {
      var j :| 0 <= j < |init| && init[j] == x;
      assert !Compatible(order[|init|], order[j]);
    }
  }

  /** If an earlier listener is incompatible, then an earlier entry is. */
  lemma IncompatibleEntry<R>(order: seq<Listener>, m: map<Listener, seq<R>>, c: map<Listener, seq<R>>, l: Listener)
    requires forall x :: x in order ==> x in m
    requires forall x :: x in c ==> x in order
    requires order != [] && order[0] in c
    requires forall i :: 0 <= i < |order| ==> ClosedAt(order, m, c, i)
    ensures (exists x :: x in c && !Compatible(l, x)) <==> (exists x :: x in order && !Compatible(l, x))
    ensures |c| != 0
  {
    assert c.Keys != {};
    if x :| x in order && !Compatible(l, x) {
      if x !in c {
        var j :| 0 <= j < |order| && order[j] == x;
        assert ClosedAt(order, m, c, j) && !StandsAlone(order, j);
        assert Compatible(order[j], order[0]);
        CompatibleIsEquivalence(l, order[0], order[j]);
        CompatibleIsEquivalence(order[j], order[0], l);
      }
    }
  }

  // ----- what every order keeps -----

  /** `part` is a block of `whole`. */
  ghost predicate Block<R>(part: seq<R>, whole: seq<R>) {
    exists a, b :: 0 <= a <= b <= |whole| && whole[a..b] == part
  }

  lemma {:induction false} GatheredHolds<R>(order: seq<Listener>, m: map<Listener, seq<R>>, i: nat, k: nat)
    requires i <= k < |order| && forall l :: l in order ==> l in m
    requires Compatible(order[k], order[i])
    ensures Block(m[order[k]], Gathered(order, m, i))
    decreases |order|
  {
    var g := Gathered(order, m, i);
    if k == |order| - 1 {
      assert g[|g| - |m[order[k]]|..|g|] == m[order[k]];
    } else {
      var init := order[..|order| - 1];
      GatheredHolds(init, m, i, k);
      var h := Gathered(init, m, i);
      var a, b :| 0 <= a <= b <= |h| && h[a..b] == m[init[k]];
      assert g[a..b] == h[a..b];
    }
  }

  lemma {:induction false} GatheredOrigin<R>(order: seq<Listener>, m: map<Listener, seq<R>>, i: nat, r: R)
    requires i < |order| && forall l :: l in order ==> l in m
    requires r in Gathered(order, m, i)
    ensures exists l :: l in order && Compatible(l, order[i]) && r in m[l]
    decreases |order|
  {
    var init, last := order[..|order| - 1], order[|order| - 1];
    if i < |order| - 1 && r in Gathered(init, m, i) {
      GatheredOrigin(init, m, i, r);
    } else {
      assert last in order && r in m[last];
    }
  }

  /** No listener's routes are lost, and an entry holds only routes of listeners compatible with it. */
  lemma CollapseKeepsRoutes<R>(order: seq<Listener>, m: map<Listener, seq<R>>, l: Listener, e: Listener, r: R)
    requires Visits(order, m.Keys)
    ensures forall x :: x in order ==> x in m
    ensures l in m ==> exists x :: x in CollapseIn(order, m) && Compatible(l, x) && Block(m[l], CollapseIn(order, m)[x])
    ensures e in CollapseIn(order, m) && r in CollapseIn(order, m)[e] ==>
              exists x :: x in m && Compatible(x, e) && r in m[x]
  {
    CollapseClosedForm(order, m);
    if l in m {
      var k :| 0 <= k < |order| && order[k] == l;
      var i := if StandsAlone(order, k) then k else 0;
      GatheredHolds(order, m, i, k);
      assert ClosedAt(order, m, CollapseIn(order, m), i);
    }
    if e in CollapseIn(order, m) && r in CollapseIn(order, m)[e] {
      var i :| 0 <= i < |order| && order[i] == e;
      assert ClosedAt(order, m, CollapseIn(order, m), i);
      GatheredOrigin(order, m, i, r);
    }
  }

  /** The same without the test: one port, and one protocol or both of HTTPS and TLS. */
  predicate OnePortOneWire(a: Listener, b: Listener) {
    && a.port == b.port
    && (|| a.protocol == b.protocol
        || (a.protocol == HTTPS && b.protocol == TLS)
        || (a.protocol == TLS && b.protocol == HTTPS))
  }

  lemma OnePortOneWireExactly(a: Listener, b: Listener)
    ensures OnePortOneWire(a, b) <==> Compatible(a, b)
  {
    CompatibleExactly(a, b);
  }

  /** Routes never change port or wire protocol: each listener's routes are under an entry of its port and
    * protocol, and an entry's routes come from listeners of its port and protocol. */
  lemma CollapseKeepsPorts<R>(order: seq<Listener>, m: map<Listener, seq<R>>, l: Listener, e: Listener, r: R)
    requires Visits(order, m.Keys)
    ensures forall x :: x in order ==> x in m
    ensures l in m ==>
              exists x :: x in CollapseIn(order, m) && OnePortOneWire(l, x) && Block(m[l], CollapseIn(order, m)[x])
    ensures e in CollapseIn(order, m) && r in CollapseIn(order, m)[e] ==>
              exists x :: x in m && OnePortOneWire(x, e) && r in m[x]
  {
    CollapseKeepsRoutes(order, m, l, e, r);
    forall a, b
      ensures OnePortOneWire(a, b) <==> Compatible(a, b)
    {
      OnePortOneWireExactly(a, b);
    }
  }

  const HTTP_80 := Listener("a", Wrappers.None, 80, HTTP)
  const HTTP_8080 := Listener("b", Wrappers.None, 8080, HTTP)

  /** Two ports stay two listeners, in either order. */
  lemma TwoPortsStay<R>(m: map<Listener, seq<R>>)
    requires m.Keys == {HTTP_80, HTTP_8080}
    ensures CollapseIn([HTTP_80, HTTP_8080], m) == m && CollapseIn([HTTP_8080, HTTP_80], m) == m
  {
    TwoApart(HTTP_80, HTTP_8080, m);
    TwoApart(HTTP_8080, HTTP_80, m);
  }

  lemma TwoApart<R>(a: Listener, b: Listener, m: map<Listener, seq<R>>)
    requires a != b && !Compatible(b, a) && m.Keys == {a, b}
    ensures CollapseIn([a, b], m) == m
  {
    NoneCollapsed(m);
    assert [] + [a] == [a] && [a] + [b] == [a, b];
    CollapseSnoc([], a, m);
    CollapseSnoc([a], b, m);
    hide CollapseIn;
    assert a in map[a := m[a]];
  }

  // ----- one entry per class -----

  ghost predicate OnePerClass<R>(c: map<Listener, seq<R>>) {
    forall a, b :: a in c && b in c && a != b ==> !Compatible(a, b)
  }

  ghost predicate AllCompatible(keys: set<Listener>) {
    forall a, b :: a in keys && b in keys ==> Compatible(a, b)
  }

  ghost predicate PairwiseIncompatible(keys: set<Listener>) {
    forall a, b :: a in keys && b in keys && a != b ==> !Compatible(a, b)
  }

  lemma {:induction false} SomeOrder(keys: set<Listener>) returns (order: seq<Listener>)
    ensures Visits(order, keys)
    decreases keys
  {
    if keys == {} {
      order := [];
    } else {
      var l :| l in keys;
      var rest := SomeOrder(keys - {l});
      assert l !in rest;
      order := [l] + rest;
    }
  }

  /** Two compatible listeners around an incompatible one both keep an entry. */
  lemma DuplicateClass<R>(m: map<Listener, seq<R>>, a: Listener, b: Listener, a': Listener)
    returns (order: seq<Listener>)
    requires a in m && b in m && a' in m && a != a' && Compatible(a, a') && !Compatible(a, b)
    ensures Visits(order, m.Keys) && (forall l :: l in order ==> l in m)
    ensures !OnePerClass(CollapseIn(order, m))
  {
    var rest := SomeOrder(m.Keys - {a, b, a'});
    order := [a, b, a'] + rest;
    CollapseClosedForm(order, m);
    CompatibleIsEquivalence(a, a', b);
    assert !Compatible(order[2], order[1]) && StandsAlone(order, 2);
    assert ClosedAt(order, m, CollapseIn(order, m), 0) && ClosedAt(order, m, CollapseIn(order, m), 2);
  }

  /** As written, every order yields exactly one entry per class if and only if the listeners are
    * all compatible with each other or no two of them are. */
  lemma OnePerClassExactly<R>(m: map<Listener, seq<R>>)
    ensures (forall order :: Visits(order, m.Keys) && (forall l :: l in order ==> l in m) ==>
                               OnePerClass(CollapseIn(order, m)))
       <==> (AllCompatible(m.Keys) || PairwiseIncompatible(m.Keys))
  {
    if AllCompatible(m.Keys) || PairwiseIncompatible(m.Keys) {
      forall order | Visits(order, m.Keys) && forall l :: l in order ==> l in m
        ensures OnePerClass(CollapseIn(order, m))
      {
        CollapseClosedForm(order, m);
        if AllCompatible(m.Keys) {
          forall i | 0 < i < |order|
            ensures order[i] !in CollapseIn(order, m)
          {
            assert ClosedAt(order, m, CollapseIn(order, m), i);
            assert forall j :: 0 <= j < |order| ==> order[j] in m.Keys;
          }
        }
      }
    } else {
      var a, a' :| a in m.Keys && a' in m.Keys && a != a' && Compatible(a, a');
      var x, y :| x in m.Keys && y in m.Keys && !Compatible(x, y);
      var b := if Compatible(a, x) then y else x;
      var order := DuplicateClass(m, a, b, a');
    }
  }

  /** So two listeners are always collapsed correctly. */
  lemma TwoListenersCollapse<R>(m: map<Listener, seq<R>>, order: seq<Listener>)
    requires |m| <= 2 && Visits(order, m.Keys) && forall l :: l in order ==> l in m
    ensures OnePerClass(CollapseIn(order, m))
  {
    if a, b :| a in m.Keys && b in m.Keys && a != b {
      assert |m.Keys - {a} - {b}| == |m.Keys| - 2;
      assert m.Keys == {a, b};
      CompatibleIsEquivalence(a, b, a);
      CompatibleIsEquivalence(b, a, b);
    }
    assert AllCompatible(m.Keys) || PairwiseIncompatible(m.Keys);
    OnePerClassExactly(m);
  }

  // ----- repaired: merge into the compatible entry, or else open one -----

  function StepRepaired<R>(c: map<Listener, seq<R>>, l1: Listener, r1: seq<R>): map<Listener, seq<R>> {
    if exists l2 :: l2 in c && Compatible(l1, l2) then
      map l2 | l2 in c :: if Compatible(l1, l2) then c[l2] + r1 else c[l2]
    else c[l1 := r1]
  }

  function CollapseRepairedIn<R>(order: seq<Listener>, m: map<Listener, seq<R>>): map<Listener, seq<R>>
    requires forall l :: l in order ==> l in m
  {
    if order == [] then map[]
    else
      var l := order[|order| - 1];
      StepRepaired(CollapseRepairedIn(order[..|order| - 1], m), l, m[l])
  }

  ghost predicate FirstOfClass(order: seq<Listener>, i: nat)
    requires i < |order|
  {
    forall j :: 0 <= j < i ==> !Compatible(order[i], order[j])
  }

  ghost predicate RepairedAt<R>(order: seq<Listener>, m: map<Listener, seq<R>>, c: map<Listener, seq<R>>, i: nat)
    requires i < |order| && forall l :: l in order ==> l in m
  {
    && (order[i] in c <==> FirstOfClass(order, i))
    && (order[i] in c ==> c[order[i]] == Gathered(order, m, i))
  }

  ghost predicate RepairedClosed<R>(order: seq<Listener>, m: map<Listener, seq<R>>, c: map<Listener, seq<R>>)
    requires forall l :: l in order ==> l in m
  {
    && (forall l :: l in c ==> l in order)
    && (forall i :: 0 <= i < |order| ==> RepairedAt(order, m, c, i))
  }

  /** Repaired, for every order: the entries are the first listener of each class, each with the
    * routes of its whole class. */
  lemma {:induction false} RepairedClosedForm<R>(order: seq<Listener>, m: map<Listener, seq<R>>)
    requires Combine.Distinct(order) && forall l :: l in order ==> l in m
    ensures RepairedClosed(order, m, CollapseRepairedIn(order, m))
  {
    if order != [] {
      var init, last := order[..|order| - 1], order[|order| - 1];
      assert order == init + [last] && last !in init;
      RepairedClosedForm(init, m);
      hide RepairedClosed, Gathered;
      RepairedSnoc(init, last, m, CollapseRepairedIn(init, m));
    }
  }

  lemma RepairedSnoc<R>(init: seq<Listener>, last: Listener, m: map<Listener, seq<R>>, c: map<Listener, seq<R>>)
    requires last !in init && (forall l :: l in init + [last] ==> l in m) && (forall l :: l in init ==> l in m)
    requires RepairedClosed(init, m, c)
    ensures RepairedClosed(init + [last], m, StepRepaired(c, last, m[last]))
  {
    LastOfClass(init, last, m, c);
    RepairedNew(init, last, m, c);
    var c' := StepRepaired(c, last, m[last]);
    assert forall l :: l in c' ==> l in c || l == last;
    hide StepRepaired, Gathered, Compatible, FirstOfClass, RepairedAt;
    forall i | 0 <= i < |init|
      ensures RepairedAt(init + [last], m, c', i)
    {
      assert RepairedAt(init, m, c, i);
      RepairedStep(init, last, m, c, i);
    }
  }

  lemma RepairedNew<R>(init: seq<Listener>, last: Listener, m: map<Listener, seq<R>>, c: map<Listener, seq<R>>)
    requires last !in init && (forall l :: l in c ==> l in init) && forall l :: l in init + [last] ==> l in m
    requires FirstOfClass(init + [last], |init|) <==> !(exists e :: e in c && Compatible(last, e))
    ensures RepairedAt(init + [last], m, StepRepaired(c, last, m[last]), |init|)
  {}

  lemma RepairedStep<R>(init: seq<Listener>, last: Listener, m: map<Listener, seq<R>>, c: map<Listener, seq<R>>, i: nat)
    requires i < |init| && last !in init && forall l :: l in init + [last] ==> l in m
    requires forall l :: l in init ==> l in m
    requires RepairedAt(init, m, c, i)
    ensures RepairedAt(init + [last], m, StepRepaired(c, last, m[last]), i)
  {
    var order := init + [last];
    assert forall j :: 0 <= j <= i ==> order[j] == init[j];
    GatheredSnoc(init, last, m, i);
  }

  /** The first listener compatible with `l`. */
  lemma {:induction false} FirstCompatible(order: seq<Listener>, l: Listener, k: nat) returns (i: nat)
    requires k < |order| && Compatible(l, order[k])
    ensures i <= k && Compatible(l, order[i]) && FirstOfClass(order, i)
  {
    if j :| 0 <= j < k && Compatible(order[k], order[j]) {
      CompatibleIsEquivalence(l, order[k], order[j]);
      i := FirstCompatible(order, l, j);
    } else {
      i := k;
    }
  }

  lemma LastOfClass<R>(init: seq<Listener>, last: Listener, m: map<Listener, seq<R>>, c: map<Listener, seq<R>>)
    requires forall l :: l in init ==> l in m
    requires forall l :: l in c ==> l in init
    requires forall i :: 0 <= i < |init| ==> RepairedAt(init, m, c, i)
    ensures FirstOfClass(init + [last], |init|) <==> !(exists e :: e in c && Compatible(last, e))
  {
    var order := init + [last];
    if k :| 0 <= k < |init| && Compatible(order[|init|], order[k]) {
      var i := FirstCompatible(init, last, k);
      assert RepairedAt(init, m, c, i);
    }
    if e :| e in c && Compatible(last, e) {
      var j :| 0 <= j < |init| && init[j] == e;
      assert Compatible(order[|init|], order[j]);
    }
  }

  /** So each class has exactly one entry, whatever the order and the number of listeners. */
  lemma RepairedOnePerClass<R>(order: seq<Listener>, m: map<Listener, seq<R>>)
    requires Visits(order, m.Keys) && forall l :: l in order ==> l in m
    ensures OnePerClass(CollapseRepairedIn(order, m))
    ensures forall l :: l in m ==> exists e :: e in CollapseRepairedIn(order, m) && Compatible(l, e)
  {
    var c := CollapseRepairedIn(order, m);
    RepairedClosedForm(order, m);
    forall a, b | a in c && b in c && a != b
      ensures !Compatible(a, b)
    {
      var i :| 0 <= i < |order| && order[i] == a;
      var j :| 0 <= j < |order| && order[j] == b;
      assert RepairedAt(order, m, c, i) && RepairedAt(order, m, c, j);
      CompatibleIsEquivalence(a, b, a);
    }
    forall l | l in m
      ensures exists e :: e in c && Compatible(l, e)
    {
      var k :| 0 <= k < |order| && order[k] == l;
      var i := FirstCompatible(order, l, k);
      assert RepairedAt(order, m, c, i);
    }
  }
}
