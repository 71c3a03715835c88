/** Ranges of IP addresses (internal/allocator/iprange.go). Every address is 16 bytes, as Go's
  * parser returns it; an IPv4 address is the one in the block ::ffff:0:0/96. */
module IPRanges {
  import opened Wrappers
  import opened Bytes

  type Addr = a: seq<byte> | |a| == 16 witness seq(16, _ => 0)

  /** An inclusive range; nothing makes `first <= last`. */
  datatype IPRange = IPRange(first: Addr, last: Addr)

  const MAX_UINT64: nat := TWO_TO_64 - 1

  predicate Contains(r: IPRange, ip: Addr) {
    Compare(ip, r.first) >= 0 && Compare(ip, r.last) <= 0
  }

  predicate Overlaps(r: IPRange, other: IPRange) {
    (Compare(other.first, r.first) >= 0 && Compare(other.first, r.last) <= 0)
    || (Compare(other.last, r.first) >= 0 && Compare(other.last, r.last) <= 0)
  }

  function First(r: IPRange): Addr {
    r.first
  }

  function Next(r: IPRange, ip: Addr): Option<Addr> {
    if Compare(ip, r.last) >= 0 then None else Some(Successor(ip))
  }

  lemma ContainsIsNumeric(r: IPRange, ip: Addr)
    ensures Contains(r, ip) <==> Value(r.first) <= Value(ip) <= Value(r.last)
  {
    CompareIsNumeric(ip, r.first);
    CompareIsNumeric(ip, r.last);
  }

  // ----- overlap -----

  ghost predicate Common(a: IPRange, b: IPRange) {
    exists ip: Addr :: Contains(a, ip) && Contains(b, ip)
  }

  predicate NonEmpty(r: IPRange) {
    Value(r.first) <= Value(r.last)
  }

  /** For all ranges, inverted ones included: a true answer is wrong exactly when `b` is inverted; a common
    * address is missed exactly when `b` sticks out of a non-empty `a` on both sides; on non-empty ranges
    * the two calls together are exact. */
  lemma OverlapsExactly(a: IPRange, b: IPRange)
    ensures Overlaps(a, b) && !Common(a, b) <==> !NonEmpty(b) && (Contains(a, b.first) || Contains(a, b.last))
    ensures Common(a, b) && !Overlaps(a, b)
       <==> NonEmpty(a) && Value(b.first) < Value(a.first) && Value(a.last) < Value(b.last)
    ensures Common(a, b) <==> NonEmpty(a) && NonEmpty(b) && (Overlaps(a, b) || Overlaps(b, a))
  {
    ContainsIsNumeric(a, b.first);
    ContainsIsNumeric(a, b.last);
    ContainsIsNumeric(b, a.first);
    ContainsIsNumeric(b, a.last);
    ContainsIsNumeric(a, a.first);
    ContainsIsNumeric(b, b.first);
    ContainsIsNumeric(b, b.last);
    if ip: Addr :| Contains(a, ip) && Contains(b, ip) {
      ContainsIsNumeric(a, ip);
      ContainsIsNumeric(b, ip);
    }
    assert NonEmpty(b) && Overlaps(a, b) ==> Common(a, b);
    assert NonEmpty(a) && Overlaps(b, a) ==> Common(a, b);
  }

  // ----- enumeration -----

  /** The address that the loop "for pos := First(); pos != nil; pos = Next(pos)" visits n-th. */
  ghost function Visit(r: IPRange, n: nat): Option<Addr> {
    if n == 0 then Some(First(r))
    else
      var before := Visit(r, n - 1);
      if before.None? then None else Next(r, before.value)
  }

  ghost function Count(r: IPRange): int {
    Value(r.last) - Value(r.first) + 1
  }

  lemma NextIsNumeric(r: IPRange, ip: Addr)
    ensures Next(r, ip).None? <==> Value(ip) >= Value(r.last)
    ensures Next(r, ip).Some? ==> Value(Next(r, ip).value) == Value(ip) + 1
  {
    CompareIsNumeric(ip, r.last);
    SuccessorValue(ip);
    ValueBound(r.last);
  }

  /** On a non-empty range the loop visits first, first + 1, ..., last, and stops. */
  lemma {:induction false} VisitsInOrder(r: IPRange, n: nat)
    requires NonEmpty(r)
    ensures Visit(r, n).Some? <==> n < Count(r)
    ensures Visit(r, n).Some? ==> Value(Visit(r, n).value) == Value(r.first) + n
  {
    if n > 0 {
      VisitsInOrder(r, n - 1);
      if Visit(r, n - 1).Some? {
        NextIsNumeric(r, Visit(r, n - 1).value);
      }
    }
  }

  /** Each address of the range is visited exactly once. */
  lemma VisitedOnce(r: IPRange, ip: Addr)
    requires NonEmpty(r)
    ensures Contains(r, ip) <==> exists n :: Visit(r, n) == Some(ip)
    ensures forall n, k :: Visit(r, n) == Some(ip) && Visit(r, k) == Some(ip) ==> n == k
  {
    ContainsIsNumeric(r, ip);
    if Contains(r, ip) {
      var n := Value(ip) - Value(r.first);
      VisitsInOrder(r, n);
      ValueInjective(Visit(r, n).value, ip);
      assert Visit(r, n) == Some(ip);
    }
    forall n, k | Visit(r, n) == Some(ip) && Visit(r, k) == Some(ip)
      ensures n == k && Contains(r, ip)
    {
      VisitsInOrder(r, n);
      VisitsInOrder(r, k);
    }
  }

  /** A range whose ends are the wrong way round still hands out its start, and nothing else. */
  lemma InvertedRangeVisits(r: IPRange, n: nat)
    requires !NonEmpty(r)
    ensures Visit(r, n) == if n == 0 then Some(r.first) else None
  {
    if n > 0 {
      NextIsNumeric(r, r.first);
      InvertedRangeVisits(r, n - 1);
    }
  }

  ghost predicate Reaches(r: IPRange, ip: Addr) {
    Contains(r, ip) || ip == r.first
  }

  lemma VisitReaches(r: IPRange, n: nat, ip: Addr)
    requires Visit(r, n) == Some(ip)
    ensures Reaches(r, ip)
  {
    if NonEmpty(r) {
      VisitsInOrder(r, n);
      ContainsIsNumeric(r, ip);
    } else {
      InvertedRangeVisits(r, n);
    }
  }

  /** What the enumeration reaches: the addresses of the range, or the start of an inverted one. */
  lemma ReachesExactly(r: IPRange, ip: Addr)
    ensures Reaches(r, ip) <==> exists n :: Visit(r, n) == Some(ip)
    ensures NonEmpty(r) ==> (Reaches(r, ip) <==> Contains(r, ip))
    ensures !NonEmpty(r) ==> (Reaches(r, ip) <==> ip == r.first)
  {
    ContainsIsNumeric(r, ip);
    ContainsIsNumeric(r, r.first);
    if NonEmpty(r) {
      VisitedOnce(r, ip);
    } else {
      forall n | Visit(r, n) == Some(ip)
        ensures ip == r.first
      {
        InvertedRangeVisits(r, n);
      }
      assert Visit(r, 0) == Some(r.first);
    }
  }

  // ----- size -----

  /** Go's `To4() != nil`. */
  predicate IsV4(ip: Addr) {
    ip[..10] == seq(10, _ => 0) && ip[10] == 255 && ip[11] == 255
  }

  const V4_FIRST: nat := 0xffff_0000_0000
  const V4_LAST: nat := 0xffff_ffff_ffff

  method Size(r: IPRange) returns (size: nat)
    ensures size < TWO_TO_64
    ensures size == if !IsV4(r.first) && r.first[..8] != r.last[..8] then MAX_UINT64
                    else (1 + Value(r.last) - Value(r.first)) % TWO_TO_64
  {
    if !IsV4(r.first) {
      for i := 0 to 8
        invariant r.first[..i] == r.last[..i]
      {
        if r.last[i] != r.first[i] {
          assert r.first[..8][i] != r.last[..8][i];
          return MAX_UINT64;
        }
      }
    }
    var to := ToInt(r.last);
    var from := ToInt(r.first);
    DifferenceWraps(Value(r.last), Value(r.first));
    size := ((1 + to) % TWO_TO_64 + TWO_TO_64 - from) % TWO_TO_64;
  }

  /** Sums and differences of truncated numbers are right modulo 2^64. */
  lemma DifferenceWraps(to: nat, from: nat)
    ensures ((1 + to % TWO_TO_64) % TWO_TO_64 + TWO_TO_64 - from % TWO_TO_64) % TWO_TO_64
         == (1 + to - from) % TWO_TO_64
  {
    var t, f := to / TWO_TO_64, from / TWO_TO_64;
    assert to == t * TWO_TO_64 + to % TWO_TO_64 && from == f * TWO_TO_64 + from % TWO_TO_64;
    var low := 1 + to % TWO_TO_64 - from % TWO_TO_64;
    assert 1 + to - from == low + (t - f) * TWO_TO_64;
  }

  lemma TopHalf(a: Addr)
    ensures Value(a) == Value(a[..8]) * TWO_TO_64 + Value(a[8..])
    ensures Value(a[8..]) < TWO_TO_64
  {
    assert Pow256(4) == 0x1_0000_0000;
    assert Pow256(8) == TWO_TO_64;
    ValueSplit(a, 8);
    ValueBound(a[8..]);
  }

  lemma Quotient(q: nat, r: nat)
    requires r < TWO_TO_64
    ensures (q * TWO_TO_64 + r) / TWO_TO_64 == q
  {}

  lemma TopHalves(a: Addr, b: Addr)
    requires Value(a) <= Value(b)
    ensures a[..8] == b[..8] ==> Value(b) - Value(a) < TWO_TO_64
    ensures a[..8] == b[..8] <==> Value(a) / TWO_TO_64 == Value(b) / TWO_TO_64
  {
    TopHalf(a);
    TopHalf(b);
    Quotient(Value(a[..8]), Value(a[8..]));
    Quotient(Value(b[..8]), Value(b[8..]));
    if Value(a[..8]) == Value(b[..8]) {
      ValueInjective(a[..8], b[..8]);
    }
  }

  /** How many addresses the range contains: none if it is inverted. */
  ghost function Contained(r: IPRange): nat {
    if NonEmpty(r) then Count(r) else 0
  }

  /** The documented result is the count, or the greatest uint64 if the count does not fit. */
  ghost function PromisedSize(r: IPRange): nat {
    if Contained(r) <= MAX_UINT64 then Contained(r) else MAX_UINT64
  }

  ghost function SizeResult(r: IPRange): nat {
    if !IsV4(r.first) && r.first[..8] != r.last[..8] then MAX_UINT64
    else (1 + Value(r.last) - Value(r.first)) % TWO_TO_64
  }

  /** Ranges that start in IPv6: the promise is kept except on a whole aligned block of 2^64 addresses,
    * where the sum wraps to 0, and on a range of fewer than 2^64 - 1 addresses that crosses a multiple
    * of 2^64, which is reported as the greatest uint64. An inverted range is reported as empty only if
    * its ends are neighbours with one upper half. */
  lemma SizeExactlyV6(r: IPRange)
    requires !IsV4(r.first)
    ensures SizeResult(r) == PromisedSize(r)
       <==> if Value(r.first) / TWO_TO_64 == Value(r.last) / TWO_TO_64
            then (if NonEmpty(r) then Contained(r) < TWO_TO_64 else Value(r.first) == Value(r.last) + 1)
            else Contained(r) >= MAX_UINT64
  {
    if NonEmpty(r) {
      TopHalves(r.first, r.last);
    } else {
      TopHalves(r.last, r.first);
    }
  }

  lemma V4Value(ip: Addr)
    ensures IsV4(ip) <==> V4_FIRST <= Value(ip) <= V4_LAST
  {
    assert Pow256(4) == 0x1_0000_0000;
    ValueSplit(ip, 12);
    ValueBound(ip[12..]);
    var prefix: seq<byte> := seq(10, _ => 0) + [255, 255];
    assert Value(prefix) == 0xffff by {
      Zeros(10);
      assert prefix[..11] == seq(10, _ => 0) + [255];
      assert prefix[..11][..10] == seq(10, _ => 0);
    }
    if IsV4(ip) {
      assert ip[..12] == prefix;
    }
    if Value(ip[..12]) == 0xffff {
      ValueInjective(ip[..12], prefix);
      assert ip[..12][..10] == ip[..10] && prefix[..10] == seq(10, _ => 0);
      assert ip[10] == ip[..12][10] && ip[11] == ip[..12][11];
    }
  }

  lemma {:induction false} Zeros(n: nat)
    ensures Value(seq(n, _ => 0)) == 0
  {
    if n > 0 {
      Zeros(n - 1);
      var zeros: seq<byte> := seq(n, _ => 0);
      assert zeros[..n - 1] == seq(n - 1, _ => 0);
    }
  }

  /** Ranges that start in IPv4, wherever they end: the promise is kept if and only if the count is
    * below 2^64 or happens to be 2^64 - 1 in its low 64 bits, and on inverted ranges if and only if what
    * lies between the ends is a multiple of 2^64. */
  lemma SizeExactlyV4(r: IPRange)
    requires IsV4(r.first)
    ensures SizeResult(r) == PromisedSize(r)
       <==> if NonEmpty(r) then Contained(r) < TWO_TO_64 || Contained(r) % TWO_TO_64 == MAX_UINT64
            else (Value(r.first) - Value(r.last) - 1) % TWO_TO_64 == 0
  {
    if !NonEmpty(r) {
      var gap := Value(r.first) - Value(r.last) - 1;
      NegatedMultiple(gap);
      assert 1 + Value(r.last) - Value(r.first) == -gap;
    }
  }

  lemma NegatedMultiple(n: int)
    ensures (-n) % TWO_TO_64 == 0 <==> n % TWO_TO_64 == 0
  {
    var q, q' := n / TWO_TO_64, (-n) / TWO_TO_64;
    assert n == q * TWO_TO_64 + n % TWO_TO_64 && -n == q' * TWO_TO_64 + (-n) % TWO_TO_64;
    assert (q + q') * TWO_TO_64 + n % TWO_TO_64 + (-n) % TWO_TO_64 == 0;
  }

  /** So within IPv4 it is always kept. */
  lemma SizeWithinV4(r: IPRange)
    requires NonEmpty(r) && IsV4(r.first) && IsV4(r.last)
    ensures SizeResult(r) == PromisedSize(r) == Count(r) <= 0x1_0000_0000
  {
    V4Value(r.first);
    V4Value(r.last);
  }

  /** Where the size is right it is the number of addresses the enumeration visits. */
  lemma SizeCountsVisits(r: IPRange, n: nat)
    requires NonEmpty(r) && Count(r) < TWO_TO_64
    requires (IsV4(r.first) && IsV4(r.last)) || (!IsV4(r.first) && r.first[..8] == r.last[..8])
    ensures Visit(r, n).Some? <==> n < SizeResult(r)
  {
    VisitsInOrder(r, n);
    if IsV4(r.first) {
      SizeWithinV4(r);
    } else {
      SizeExactlyV6(r);
    }
  }

  // ----- CIDR -----

  function Pow2(n: nat): (p: nat)
    ensures p > 0
  {
    if n == 0 then 1 else 2 * Pow2(n - 1)
  }

  const TWO_TO_128: nat := 0x1_0000_0000_0000_0000_0000_0000_0000_0000

  /** The leading bits of an address, without its `host` low bits: what the addresses of one network
    * have in common (section 3.1 of RFC 4632, section 2.3 of RFC 4291). */
  function NetworkNumber(v: nat, host: nat): nat {
    if host == 0 then v else NetworkNumber(v / 2, host - 1)
  }

  /** Go's `IPNet.Contains`: an address in IPv4 form is compared with IPv4 networks only. */
  predicate InNetwork(start: Addr, host: nat, ip: Addr) {
    IsV4(ip) == IsV4(start) && NetworkNumber(Value(ip), host) == NetworkNumber(Value(start), host)
  }

  function NetworkFirst(start: Addr, host: nat): int {
    NetworkNumber(Value(start), host) * Pow2(host)
  }

  /** The last address of the network. */
  function NetworkLast(start: Addr, host: nat): int {
    NetworkFirst(start, host) + Pow2(host) - 1
  }

  lemma TwiceTimes(n: int, p: int)
    ensures n * (2 * p) == 2 * (n * p) && (2 * n) * p == 2 * (n * p)
  {}

  lemma {:induction false} NumberBounds(v: nat, host: nat)
    ensures NetworkNumber(v, host) * Pow2(host) <= v < NetworkNumber(v, host) * Pow2(host) + Pow2(host)
  {
    if host > 0 {
      NumberBounds(v / 2, host - 1);
      var n, p := NetworkNumber(v / 2, host - 1), Pow2(host - 1);
      assert NetworkNumber(v, host) == n && Pow2(host) == 2 * p;
      hide NetworkNumber, Pow2;
      TwiceTimes(n, p);
      var block := n * p;
      assert 2 * block <= v < 2 * block + 2 * p;
    }
  }

  /** A network is a block of consecutive addresses. */
  lemma NetworkIsBlock(v: nat, w: nat, host: nat)
    ensures var n, p := NetworkNumber(v, host), Pow2(host);
            NetworkNumber(w, host) == n <==> n * p <= w < n * p + p
  {
    var n, k, p := NetworkNumber(v, host), NetworkNumber(w, host), Pow2(host);
    NumberBounds(w, host);
    if n * p <= w < n * p + p {
      HeadDecides(n, k, p, w - n * p, w - k * p);
      HeadDecides(k, n, p, w - k * p, w - n * p);
    }
  }

  lemma {:induction false} Pow2Sum(a: nat, b: nat)
    ensures Pow2(a + b) == Pow2(a) * Pow2(b)
  {
    if a > 0 {
      Pow2Sum(a - 1, b);
      TwiceTimes(Pow2(a - 1), Pow2(b));
      assert Pow2(a) == 2 * Pow2(a - 1) && Pow2(a + b) == 2 * Pow2(a - 1 + b);
      hide Pow2;
    }
  }

  /** The block of `v` lies on one side of any multiple of its size. */
  lemma BlockSide(v: nat, host: nat, k: nat)
    ensures var n, p := NetworkNumber(v, host), Pow2(host);
            if v < k * p then n * p + p <= k * p else k * p <= n * p
  {
    var n, p := NetworkNumber(v, host), Pow2(host);
    NumberBounds(v, host);
    if n < k {
      MulMonotone(n + 1, k, p);
      assert (n + 1) * p == n * p + p;
    } else {
      MulMonotone(k, n, p);
    }
  }

  lemma Doubled(n: nat, p: nat)
    requires Pow2(n) == p
    ensures Pow2(2 * n) == p * p
  {
    Pow2Sum(n, n);
  }

  lemma Powers()
    ensures Pow2(32) == 0x1_0000_0000 && Pow2(128) == TWO_TO_128 && Pow256(16) == TWO_TO_128
  {
    Doubled(4, 16);
    Doubled(8, 256);
    Doubled(16, 0x1_0000);
    Doubled(32, 0x1_0000_0000);
    Doubled(64, TWO_TO_64);
    AddressSpace();
  }

  lemma AddressSpace()
    ensures Pow256(16) == TWO_TO_128
  {
    assert Pow256(4) == 0x1_0000_0000;
    assert Pow256(8) == TWO_TO_64;
    assert Pow256(12) == 0x1_0000_0000_0000_0000_0000_0000;
  }

  function HostBits(start: Addr): nat {
    if IsV4(start) then 32 else 128
  }

  /** The network ends inside the address space, and only the whole space spans 2^128 addresses. */
  lemma NetworkBounds(start: Addr, host: nat)
    requires host <= 128
    ensures 0 <= NetworkFirst(start, host) <= Value(start) <= NetworkLast(start, host) < TWO_TO_128
    ensures host < 128 ==> 2 * Pow2(host) <= TWO_TO_128
    ensures host == 128 ==> Pow2(host) == TWO_TO_128 && NetworkFirst(start, host) == 0
  {
    Powers();
    ValueBound(start);
    NumberBounds(Value(start), host);
    Pow2Sum(128 - host, host);
    BlockSide(Value(start), host, Pow2(128 - host));
    MulGrows(NetworkNumber(Value(start), host), Pow2(host));
    if host < 128 {
      Pow2Sum(127 - host, host + 1);
      MulMonotone(1, Pow2(127 - host), Pow2(host + 1));
    }
  }

  lemma MulAssociates(a: int, b: int, c: int)
    ensures a * (b * c) == (a * b) * c
  {}

  /** An IPv4 network stays inside the IPv4 block. */
  lemma V4NetworkBounds(start: Addr, host: nat)
    requires IsV4(start) && host <= 32
    ensures V4_FIRST <= NetworkFirst(start, host) && NetworkLast(start, host) <= V4_LAST
  {
    Powers();
    V4Value(start);
    var p, q := Pow2(host), Pow2(32 - host);
    Pow2Sum(32 - host, host);
    MulAssociates(0x1_0000, q, p);
    MulAssociates(0xffff, q, p);
    BlockSide(Value(start), host, 0x1_0000 * q);
    BlockSide(Value(start), host, 0xffff * q);
  }

  /** The IPv6 networks on which the walk is cut short: the IPv4 block lies ahead of the start, or
    * the network is the whole space, where the walk goes round to it. */
  predicate CutShort(start: Addr, host: nat) {
    !IsV4(start) && (host == 128 || Value(start) < V4_FIRST <= NetworkLast(start, host))
  }

  function CidrLast(start: Addr, host: nat): int {
    if CutShort(start, host) then V4_FIRST - 1 else NetworkLast(start, host)
  }

  ghost predicate OnPath(start: Addr, host: nat, ip: Addr) {
    InNetwork(start, host, ip)
    && ((!IsV4(start) && host == 128) || Value(start) <= Value(ip) <= CidrLast(start, host))
  }

  /** How many steps are left. */
  ghost function Distance(start: Addr, host: nat, ip: Addr): int {
    var d := CidrLast(start, host) - Value(ip);
    if d >= 0 then d else d + TWO_TO_128
  }

  lemma WalkStep(start: Addr, host: nat, ip: Addr)
    requires host <= HostBits(start) && OnPath(start, host, ip)
    ensures Distance(start, host, ip) >= 0
    ensures var next := Successor(ip);
            if InNetwork(start, host, next)
            then OnPath(start, host, next) && Distance(start, host, next) < Distance(start, host, ip)
            else Value(ip) == CidrLast(start, host)
  {
    var next := Successor(ip);
    NetworkBounds(start, host);
    if IsV4(start) {
      V4NetworkBounds(start, host);
    }
    Powers();
    SuccessorValue(ip);
    V4Value(start);
    V4Value(ip);
    V4Value(next);
    NetworkIsBlock(Value(start), Value(ip), host);
    NetworkIsBlock(Value(start), Value(next), host);
  }

  /** The loop of `parseCIDR`, from a parsed address and prefix length. */
  method ParseCIDR(start: Addr, prefix: nat) returns (r: IPRange)
    requires prefix <= HostBits(start)
    ensures r.first == start && Value(r.last) == CidrLast(start, HostBits(start) - prefix)
  {
    ghost var host := HostBits(start) - prefix;
    var to := new byte[16](i requires 0 <= i < 16 => start[i]);
    assert to[..] == start;
    var last: Addr := start;
    StartOnPath(start, host);
    while InNetwork(start, HostBits(start) - prefix, to[..])
      invariant InNetwork(start, host, to[..]) ==> OnPath(start, host, to[..])
      invariant !InNetwork(start, host, to[..]) ==> Value(last) == CidrLast(start, host)
      decreases InNetwork(start, host, to[..]), Distance(start, host, to[..])
    {
      WalkStep(start, host, to[..]);
      last := to[..];
      Inc(to);
    }
    r := IPRange(start, last);
  }

  lemma StartOnPath(start: Addr, host: nat)
    requires host <= HostBits(start)
    ensures OnPath(start, host, start)
  {
    NetworkBounds(start, host);
    V4Value(start);
  }

  /** The range ends at the network's last address exactly when the walk is not cut short. */
  lemma CidrEndsAtNetworkLast(start: Addr, host: nat)
    requires host <= HostBits(start)
    ensures CidrLast(start, host) == NetworkLast(start, host) <==> !CutShort(start, host)
  {
    NetworkBounds(start, host);
  }

  /** Then it is the network's addresses from the start on, and never inverted. */
  lemma CidrIsNetworkFromStart(start: Addr, host: nat, r: IPRange, ip: Addr)
    requires host <= HostBits(start) && !CutShort(start, host)
    requires r.first == start && Value(r.last) == CidrLast(start, host)
    ensures NonEmpty(r)
    ensures Contains(r, ip) <==> InNetwork(start, host, ip) && Value(ip) >= Value(start)
  {
    NetworkBounds(start, host);
    if IsV4(start) {
      V4NetworkBounds(start, host);
    }
    ContainsIsNumeric(r, ip);
    V4Value(start);
    V4Value(ip);
    NetworkIsBlock(Value(start), Value(ip), host);
  }

  /** A prefix of length 0 from above the IPv4 block gives an inverted range. */
  lemma WholeSpaceInverted(start: Addr, r: IPRange)
    requires !IsV4(start) && Value(start) > V4_LAST
    requires r.first == start && Value(r.last) == CidrLast(start, 128)
    ensures !NonEmpty(r)
  {}

  /** The network number is the address without its host bits. */
  lemma {:induction false} NumberIsQuotient(v: nat, host: nat)
    ensures NetworkNumber(v, host) == v / Pow2(host)
  {
    NumberBounds(v, host);
    var n, p := NetworkNumber(v, host), Pow2(host);
    QuotientUnique(v, n, p);
  }

  lemma QuotientUnique(v: nat, n: nat, p: nat)
    requires p > 0 && n * p <= v < n * p + p
    ensures v / p == n
  {
    var q := v / p;
    assert v == q * p + v % p;
    HeadDecides(n, q, p, v - n * p, v % p);
    HeadDecides(q, n, p, v % p, v - n * p);
  }

  /** An IPv4 prefix of length n: the range ends with the last of the 2^(32-n) addresses that share the
    * first n of the 32 bits. */
  lemma CidrLastV4(start: Addr, n: nat)
    requires IsV4(start) && n <= 32
    ensures CidrLast(start, HostBits(start) - n)
         == Value(start) / Pow2(32 - n) * Pow2(32 - n) + Pow2(32 - n) - 1
  {
    NumberIsQuotient(Value(start), 32 - n);
  }

  /** An IPv6 prefix of length n that the walk does not cut short: the last of 2^(128-n) addresses. */
  lemma CidrLastV6(start: Addr, n: nat)
    requires !IsV4(start) && n <= 128 && !CutShort(start, HostBits(start) - n)
    ensures CidrLast(start, HostBits(start) - n)
         == Value(start) / Pow2(128 - n) * Pow2(128 - n) + Pow2(128 - n) - 1
  {
    NumberIsQuotient(Value(start), 128 - n);
  }

  const V4_PREFIX: seq<byte> := [0, 0, 0, 0, 0, 0, 0, 0, 0, 0, 255, 255]

  /** 192.168.1.0/24 ends at 192.168.1.255. */
  lemma TwentyFourBits(start: Addr, end: Addr)
    requires start == V4_PREFIX + [192, 168, 1, 0] && end == V4_PREFIX + [192, 168, 1, 255]
    ensures IsV4(start) && CidrLast(start, HostBits(start) - 24) == Value(end)
  {
    assert start[..10] == V4_PREFIX[..10] == seq(10, _ => 0);
    CidrLastV4(start, 24);
    assert Pow2(8) == 256;
    assert start == start[..15] + [0] && end == start[..15] + [255];
    LastByte(start[..15], 0);
    LastByte(start[..15], 255);
    hide Value, Pow2, IsV4, CidrLast, HostBits;
    var w := Value(start[..15]);
    assert Value(start) == w * 256 && Value(end) == w * 256 + 255;
    assert w * 256 / 256 == w;
  }

  lemma LastByte(s: seq<byte>, b: byte)
    ensures Value(s + [b]) == Value(s) * 256 + b
  {
    assert (s + [b])[..|s|] == s;
  }
}
