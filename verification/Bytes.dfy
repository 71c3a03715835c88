/** Big-endian byte strings and the numbers they stand for. */
module Bytes {

  type byte = x: int | 0 <= x < 256

  function Pow256(n: nat): (p: nat)
    ensures p > 0
  {
    if n == 0 then 1 else 256 * Pow256(n - 1)
  }

  /** The number whose big-endian digits are `s`. */
  function Value(s: seq<byte>): nat {
    if s == [] then 0 else Value(s[..|s| - 1]) * 256 + s[|s| - 1]
  }

  lemma {:induction false} ValueBound(s: seq<byte>)
    ensures Value(s) < Pow256(|s|)
  {
    if s != [] {
      ValueBound(s[..|s| - 1]);
    }
  }

  lemma {:induction false} ValueSplit(s: seq<byte>, k: nat)
    requires k <= |s|
    ensures Value(s) == Value(s[..k]) * Pow256(|s| - k) + Value(s[k..])
  {
    if k == |s| {
      assert s[..k] == s;
    } else {
      var init := s[..|s| - 1];
      ValueSplit(init, k);
      assert init[..k] == s[..k] && s[k..][..|s| - k - 1] == init[k..];
      var p := Pow256(|init| - k);
      assert Value(s[..k]) * p * 256 == Value(s[..k]) * (256 * p);
    }
  }

  lemma {:induction false} ValueInjective(a: seq<byte>, b: seq<byte>)
    requires |a| == |b| && Value(a) == Value(b)
    ensures a == b
  {
    if a != [] {
      ValueInjective(a[..|a| - 1], b[..|b| - 1]);
      assert a == a[..|a| - 1] + [a[|a| - 1]];
      assert b == b[..|b| - 1] + [b[|b| - 1]];
    }
  }

  /** Go's `bytes.Compare`. */
  function Compare(a: seq<byte>, b: seq<byte>): int {
    if a == [] then (if b == [] then 0 else -1)
    else if b == [] then 1
    else if a[0] < b[0] then -1
    else if a[0] > b[0] then 1
    else Compare(a[1..], b[1..])
  }

  /** On equal lengths byte order is numeric order. */
  lemma {:induction false} CompareIsNumeric(a: seq<byte>, b: seq<byte>)
    requires |a| == |b|
    ensures Compare(a, b) < 0 <==> Value(a) < Value(b)
    ensures Compare(a, b) == 0 <==> Value(a) == Value(b)
    ensures Compare(a, b) > 0 <==> Value(a) > Value(b)
  {
    if a != [] {
      CompareIsNumeric(a[1..], b[1..]);
      ValueSplit(a, 1);
      ValueSplit(b, 1);
      ValueBound(a[1..]);
      ValueBound(b[1..]);
      assert a[..1][..0] == [] && b[..1][..0] == [];
      assert Value(a[..1]) == a[0] && Value(b[..1]) == b[0];
      HeadDecides(a[0], b[0], Pow256(|a| - 1), Value(a[1..]), Value(b[1..]));
      HeadDecides(b[0], a[0], Pow256(|a| - 1), Value(b[1..]), Value(a[1..]));
    }
  }

  lemma HeadDecides(x: int, y: int, p: int, u: int, v: int)
    requires 0 <= u < p && 0 <= v < p
    ensures x < y ==> x * p + u < y * p + v
  {
    if x < y {
      MulGrows(y - x - 1, p);
      assert y * p == x * p + (y - x - 1) * p + p;
    }
  }

  lemma MulGrows(d: int, p: int)
    requires d >= 0 && p >= 0
    ensures d * p >= 0
  {}

  lemma MulMonotone(a: int, b: int, p: int)
    requires a <= b && p >= 0
    ensures a * p <= b * p
  {
    MulGrows(b - a, p);
    assert b * p == a * p + (b - a) * p;
  }

  /** Add one with carry. */
  function Successor(s: seq<byte>): (r: seq<byte>)
    ensures |r| == |s|
  {
    if s == [] then []
    else if s[|s| - 1] < 255 then s[|s| - 1 := s[|s| - 1] + 1]
    else Successor(s[..|s| - 1]) + [0]
  }

  /** It adds one modulo 256^n: all ones wrap to all zeros. */
  lemma {:induction false} SuccessorValue(s: seq<byte>)
    ensures Value(s) < Pow256(|s|)
    ensures Value(Successor(s)) == if Value(s) + 1 == Pow256(|s|) then 0 else Value(s) + 1
  {
    ValueBound(s);
    if s != [] {
      var init, last := s[..|s| - 1], s[|s| - 1];
      if last < 255 {
        assert s[|s| - 1 := last + 1][..|s| - 1] == init;
        ValueBound(Successor(s));
      } else {
        SuccessorValue(init);
        assert (Successor(init) + [0])[..|init|] == Successor(init);
      }
    }
  }

  /** `inc`: bumps bytes from the right until one does not wrap to zero. */
  method Inc(ip: array<byte>)
    modifies ip
    ensures ip[..] == Successor(old(ip[..]))
  {
    ghost var was := ip[..];
    var j := ip.Length;
    assert was[..j] == was;
    while j > 0
      invariant 0 <= j <= ip.Length
      invariant ip[..j] == was[..j]
      invariant Successor(was) == Successor(was[..j]) + ip[j..]
    {
      j := j - 1;
      assert was[..j + 1][..j] == was[..j];
      ghost var before := ip[..];
      var bumped: int := ip[j];
      ip[j] := (bumped + 1) % 256;
      if ip[j] > 0 {
        assert ip[..] == was[..j] + [was[j] + 1] + before[j + 1..];
        break;
      }
      assert ip[j..] == [0] + before[j + 1..];
    }
    if j == 0 {
      assert was[..0] == [];
    }
  }

  const TWO_TO_64: nat := 0x1_0000_0000_0000_0000

  lemma {:induction false} AddMultiple(q: nat, r: nat)
    ensures (q * TWO_TO_64 + r) % TWO_TO_64 == r % TWO_TO_64
  {
    if q > 0 {
      AddMultiple(q - 1, r);
      assert q * TWO_TO_64 + r == ((q - 1) * TWO_TO_64 + r) + TWO_TO_64;
    }
  }

  lemma TruncatedStep(v: nat, b: byte)
    ensures ((v % TWO_TO_64) * 256 % TWO_TO_64 + b) % TWO_TO_64 == (v * 256 + b) % TWO_TO_64
  {
    var q, r := v / TWO_TO_64, v % TWO_TO_64;
    var q', r' := r * 256 / TWO_TO_64, r * 256 % TWO_TO_64;
    assert v * 256 + b == (q * 256 + q') * TWO_TO_64 + (r' + b);
    AddMultiple(q * 256 + q', r' + b);
  }

  /** `toInt` in `uint64` arithmetic: the low 64 bits of the number. */
  method ToInt(ip: seq<byte>) returns (n: nat)
    ensures n == Value(ip) % TWO_TO_64
  {
    n := 0;
    for i := 0 to |ip|
      invariant n == Value(ip[..i]) % TWO_TO_64
    {
      assert ip[..i + 1][..i] == ip[..i];
      TruncatedStep(Value(ip[..i]), ip[i]);
      n := n * 256 % TWO_TO_64;
      n := (n + ip[i]) % TWO_TO_64;
    }
    assert ip[..|ip|] == ip;
  }
}
