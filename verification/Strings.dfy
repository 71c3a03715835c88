/** Byte-wise string order, as Go's `sort.Strings` and `sets.String.List` use it, and the string
  * tests of Go's `strings` package that the modelled code calls. */
module Strings {

  predicate HasPrefix(s: string, p: string) {
    |p| <= |s| && s[..|p|] == p
  }

  predicate HasSuffix(s: string, p: string) {
    |p| <= |s| && s[|s| - |p|..] == p
  }

  function TrimPrefix(s: string, p: string): string {
    if HasPrefix(s, p) then s[|p|..] else s
  }

  function TrimSuffix(s: string, p: string): string {
    if HasSuffix(s, p) then s[..|s| - |p|] else s
  }

  /** Strict lexicographic order. */
  predicate Before(a: string, b: string) {
    if b == [] then false
    else if a == [] then true
    else a[0] < b[0] || (a[0] == b[0] && Before(a[1..], b[1..]))
  }

  lemma {:induction false} BeforeIrreflexive(a: string)
    ensures !Before(a, a)
  {
    if a != [] {
      BeforeIrreflexive(a[1..]);
    }
  }

  lemma {:induction false} BeforeTransitive(a: string, b: string, c: string)
    requires Before(a, b) && Before(b, c)
    ensures Before(a, c)
  {
    if a != [] && a[0] == b[0] == c[0] {
      BeforeTransitive(a[1..], b[1..], c[1..]);
    }
  }

  lemma {:induction false} BeforeTotal(a: string, b: string)
    ensures a == b || Before(a, b) || Before(b, a)
  {
    if a != [] && b != [] && a[0] == b[0] {
      BeforeTotal(a[1..], b[1..]);
      if a[1..] == b[1..] {
        assert a == [a[0]] + a[1..] == b;
      }
    }
  }

  /** The first place where two strings differ decides; a proper prefix comes first. */
  lemma {:induction false} BeforeExactly(a: string, b: string)
    ensures Before(a, b)
       <==> || (|a| < |b| && b[..|a|] == a)
            || exists k :: 0 <= k < |a| && k < |b| && a[..k] == b[..k] && a[k] < b[k]
  {
    if a != [] && b != [] {
      var s, t := a[1..], b[1..];
      if a[0] < b[0] {
        assert a[..0] == b[..0];
      } else if a[0] == b[0] {
        BeforeExactly(s, t);
        assert |a| < |b| ==> (b[..|a|] == a <==> t[..|s|] == s) by {
          if |a| < |b| {
            assert b[..|a|] == [b[0]] + t[..|s|] && a == [a[0]] + s;
          }
        }
        if k :| 0 <= k < |s| && k < |t| && s[..k] == t[..k] && s[k] < t[k] {
          assert a[..k + 1] == [a[0]] + s[..k] && b[..k + 1] == [b[0]] + t[..k];
          assert a[..k + 1] == b[..k + 1] && a[k + 1] < b[k + 1];
        }
        if k :| 0 <= k < |a| && k < |b| && a[..k] == b[..k] && a[k] < b[k] {
          assert s[..k - 1] == a[..k][1..] && t[..k - 1] == b[..k][1..];
          assert s[..k - 1] == t[..k - 1] && s[k - 1] < t[k - 1];
        }
      } else {
        assert forall k :: 0 < k <= |a| && k <= |b| ==> a[..k][0] == a[0] && b[..k][0] == b[0];
      }
    }
  }

  ghost predicate Ascending(s: seq<string>) {
    forall i, j :: 0 <= i < j < |s| ==> Before(s[i], s[j])
  }

  function Elements<T>(s: seq<T>): set<T> {
    set x | x in s
  }

  lemma NoElements<T>(s: seq<T>)
    ensures s == [] <==> Elements(s) == {}
  {
    if s != [] {
      assert s[0] in Elements(s);
    }
  }

  /** The ascending listing of a set: what sorting its elements yields, whatever their first order. */
  ghost predicate Lists(s: seq<string>, xs: set<string>) {
    Ascending(s) && Elements(s) == xs
  }

  /** There is only one ascending listing of a set, so sorting hides the order of iteration. */
  lemma {:induction false} ListingUnique(s: seq<string>, t: seq<string>)
    requires Ascending(s) && Ascending(t) && Elements(s) == Elements(t)
    ensures s == t
  {
    NoElements(s);
    NoElements(t);
    if s != [] {
      assert s[0] in Elements(t);
      assert t[0] in Elements(s);
      var i :| 0 <= i < |s| && s[i] == t[0];
      var j :| 0 <= j < |t| && t[j] == s[0];
      if s[0] != t[0] {
        BeforeTransitive(s[0], t[0], s[0]);
        BeforeIrreflexive(s[0]);
      }
      AscendingTail(s);
      AscendingTail(t);
      ListingUnique(s[1..], t[1..]);
    }
  }

  lemma AscendingTail(s: seq<string>)
    requires Ascending(s) && s != []
    ensures Ascending(s[1..]) && Elements(s[1..]) == Elements(s) - {s[0]}
  {
    BeforeIrreflexive(s[0]);
    assert s[0] !in s[1..];
    assert s == [s[0]] + s[1..];
  }

  /** Inserts `x` into an ascending listing that does not hold it. */
  method InsertSorted(s: seq<string>, x: string) returns (r: seq<string>)
    requires Ascending(s) && x !in s
    ensures Ascending(r) && Elements(r) == Elements(s) + {x}
  {
    var i := 0;
    while i < |s| && Before(s[i], x)
      invariant 0 <= i <= |s|
      invariant forall k :: 0 <= k < i ==> Before(s[k], x)
    {
      i := i + 1;
    }
    r := s[..i] + [x] + s[i..];
    forall k | i <= k < |s|
      ensures Before(x, s[k])
    {
      BeforeTotal(x, s[i]);
      if k > i {
        BeforeTransitive(x, s[i], s[k]);
      }
    }
    Inserted(s, x, i);
  }

  lemma Inserted(s: seq<string>, x: string, i: nat)
    requires Ascending(s) && i <= |s|
    requires (forall k :: 0 <= k < i ==> Before(s[k], x)) && (forall k :: i <= k < |s| ==> Before(x, s[k]))
    ensures Ascending(s[..i] + [x] + s[i..]) && Elements(s[..i] + [x] + s[i..]) == Elements(s) + {x}
  {
    hide Before;
    assert s == s[..i] + s[i..];
  }

  /** Collects the keys in an arbitrary order (Go's map iteration) and sorts them. */
  method SortedListing(xs: set<string>) returns (s: seq<string>)
    ensures Lists(s, xs)
  {
    s := [];
    var rest := xs;
    while rest != {}
      invariant rest <= xs && Ascending(s) && Elements(s) == xs - rest
    {
      var x :| x in rest;
      assert x !in Elements(s);
      s := InsertSorted(s, x);
      rest := rest - {x};
    }
  }
}
