/**
  IPv4 prefixes as section 3.1 of RFC 4632 describes them, with the few operations of the
  Python `ipaddress` module that the allocators and the transit plane are built on.

  A prefix is its network number and its length: `Prefix(n, len)` is the block of 2^(32-len)
  addresses that starts at n * 2^(32-len) (lemma `FirstIsAligned`), so alignment is built in.
  The definitions follow the binary tree of prefixes, which keeps every proof linear.
 */
module Ipv4 {

  function Pow2(n: nat): (r: nat)
    ensures r >= 1
  {
    if n == 0 then 1 else 2 * Pow2(n - 1)
  }

  lemma Pow2Of32()
    ensures Pow2(32) == 0x1_0000_0000
  {
    assert Pow2(8) == 0x100;
    assert Pow2(16) == 0x1_0000;
    assert Pow2(24) == 0x100_0000;
  }

  /** An address: 32 bits. */
  type Addr = a: nat | a < 0x1_0000_0000

  datatype RawPrefix = Prefix(number: nat, len: nat)

  type Prefix = p: RawPrefix | p.len <= 32 && p.number < Pow2(p.len)
    witness Prefix(0, 0)

  function Size(p: Prefix): (r: nat)
    ensures r >= 1
  {
    Pow2(32 - p.len)
  }

  /** `net.supernet()`: one bit shorter, and the whole space is its own supernet. */
  function Supernet(p: Prefix): (s: Prefix)
    ensures p.len > 0 ==> s.len == p.len - 1 && Size(s) == 2 * Size(p)
  {
    if p.len == 0 then p else Prefix(p.number / 2, p.len - 1)
  }

  /** Whether the block is the upper half of its supernet. */
  predicate IsUpper(p: Prefix) {
    p.number % 2 == 1
  }

  /** `network_address` */
  function First(p: Prefix): (r: nat)
    ensures r + Size(p) <= 0x1_0000_0000
    decreases p.len
  {
    Pow2Of32();
    if p.len == 0 then 0 else First(Supernet(p)) + if IsUpper(p) then Size(p) else 0
  }

  /** `broadcast_address` */
  function Last(p: Prefix): nat {
    First(p) + Size(p) - 1
  }

  predicate Contains(p: Prefix, a: int) {
    First(p) <= a <= Last(p)
  }

  /** `p.subnet_of(q)` */
  predicate SubnetOf(p: Prefix, q: Prefix) {
    First(q) <= First(p) && Last(p) <= Last(q)
  }

  /** `p.overlaps(q)`: one of the two holds an end of the other. */
  predicate Overlaps(p: Prefix, q: Prefix) {
    Contains(q, First(p)) || Contains(q, Last(p)) || Contains(p, First(q)) || Contains(p, Last(q))
  }

  /** n << k */
  function Shifted(n: nat, k: nat): nat {
    if k == 0 then n else 2 * Shifted(n, k - 1)
  }

  lemma {:induction false} ShiftedBit(h: nat, b: nat, k: nat)
    requires b < 2
    ensures Shifted(2 * h + b, k) == Shifted(h, k + 1) + if b == 1 then Pow2(k) else 0
  {
    if k > 0 {
      ShiftedBit(h, b, k - 1);
    }
  }

  /** The first address is the network number moved to the top of the 32 bits. */
  lemma {:induction false} FirstIsAligned(p: Prefix)
    ensures First(p) == Shifted(p.number, 32 - p.len)
    decreases p.len
  {
    if p.len == 0 {
      ShiftedZero(32);
    } else {
      FirstIsAligned(Supernet(p));
      ShiftedBit(p.number / 2, p.number % 2, 32 - p.len);
    }
  }

  lemma {:induction false} ShiftedZero(k: nat)
    ensures Shifted(0, k) == 0
  {
    if k > 0 {
      ShiftedZero(k - 1);
    }
  }

  // ---- The tree: two blocks are nested or they share nothing

  lemma {:induction false} SameLengthApart(p: Prefix, q: Prefix)
    requires p.len == q.len && p != q
    ensures Last(p) < First(q) || Last(q) < First(p)
    decreases p.len
  {
    if Supernet(p) != Supernet(q) {
      SameLengthApart(Supernet(p), Supernet(q));
    }
  }

  lemma {:induction false} NestedOrDisjoint(p: Prefix, q: Prefix)
    requires q.len <= p.len
    ensures SubnetOf(p, q) || Last(p) < First(q) || Last(q) < First(p)
    decreases p.len
  {
    if q.len < p.len {
      NestedOrDisjoint(Supernet(p), q);
    } else if p != q {
      SameLengthApart(p, q);
    }
  }

  /** Overlap, as computed from the four end points, is having an address in common; and
      that in turn means that one block lies inside the other. */
  lemma OverlapsIsSharing(p: Prefix, q: Prefix)
    ensures Overlaps(p, q) <==> exists a: Addr :: Contains(p, a) && Contains(q, a)
    ensures Overlaps(p, q) <==> SubnetOf(p, q) || SubnetOf(q, p)
  {
    if q.len <= p.len {
      NestedOrDisjoint(p, q);
    } else {
      NestedOrDisjoint(q, p);
    }
    if Overlaps(p, q) {
      var a: Addr := if First(p) < First(q) then First(q) else First(p);
      assert Contains(p, a) && Contains(q, a);
    }
  }

  lemma {:induction false} Pow2Grows(m: nat, n: nat)
    requires m < n
    ensures 2 * Pow2(m) <= Pow2(n)
  {
    if m + 1 < n {
      Pow2Grows(m, n - 1);
    }
  }

  lemma SubnetIsLonger(p: Prefix, q: Prefix)
    requires SubnetOf(p, q)
    ensures q.len <= p.len
    ensures q.len == p.len ==> p == q
  {
    if p.len < q.len {
      Pow2Grows(32 - q.len, 32 - p.len);
    } else if p.len == q.len && p != q {
      SameLengthApart(p, q);
    }
  }

  /** `net.subnets()`: the lower or the upper half. */
  function Half(p: Prefix, upper: bool): (h: Prefix)
    requires p.len < 32
    ensures Supernet(h) == p && IsUpper(h) == upper
  {
    Prefix(2 * p.number + if upper then 1 else 0, p.len + 1)
  }

  lemma OnlyTwoHalves(p: Prefix, q: Prefix)
    requires SubnetOf(p, q) && p != q
    ensures q.len < 32
    ensures SubnetOf(p, Half(q, false)) <==> !SubnetOf(p, Half(q, true))
  {
    SubnetIsLonger(p, q);
    NestedOrDisjoint(p, Half(q, false));
    NestedOrDisjoint(p, Half(q, true));
  }

  /** A block that strictly contains `p` contains its supernet. */
  lemma SupernetIsNext(p: Prefix, q: Prefix)
    requires SubnetOf(p, q) && p != q
    ensures p.len > 0 && SubnetOf(Supernet(p), q)
  {
    SubnetIsLonger(p, q);
    NestedOrDisjoint(Supernet(p), q);
  }

  // ---- Lists of prefixes

  ghost predicate Covers(ps: seq<Prefix>, a: int) {
    exists i | 0 <= i < |ps| :: Contains(ps[i], a)
  }

  ghost predicate Apart(ps: seq<Prefix>) {
    forall i, j | 0 <= i < j < |ps| :: !Overlaps(ps[i], ps[j])
  }

  lemma CoversConcat(ps: seq<Prefix>, qs: seq<Prefix>, a: int)
    ensures Covers(ps + qs, a) <==> Covers(ps, a) || Covers(qs, a)
  {
    if Covers(ps, a) {
      var i :| 0 <= i < |ps| && Contains(ps[i], a);
      assert (ps + qs)[i] == ps[i];
    } else if Covers(qs, a) {
      var i :| 0 <= i < |qs| && Contains(qs[i], a);
      assert (ps + qs)[|ps| + i] == qs[i];
    }
  }

  lemma CoversOne(p: Prefix, a: int)
    ensures Covers([p], a) <==> Contains(p, a)
  {
    assert [p][0] == p;
  }

  lemma CoversLast(ps: seq<Prefix>, a: int)
    requires ps != []
    ensures Covers(ps, a) <==> Covers(ps[..|ps| - 1], a) || Contains(ps[|ps| - 1], a)
  {
    assert ps == ps[..|ps| - 1] + [ps[|ps| - 1]];
    CoversConcat(ps[..|ps| - 1], [ps[|ps| - 1]], a);
    CoversOne(ps[|ps| - 1], a);
  }

  lemma ApartConcat(ps: seq<Prefix>, qs: seq<Prefix>)
    requires Apart(ps) && Apart(qs)
    requires forall i, j | 0 <= i < |ps| && 0 <= j < |qs| :: !Overlaps(ps[i], qs[j])
    ensures Apart(ps + qs)
  {
  }

  /** The blocks follow one another without a gap from `lo` to `hi`. */
  ghost predicate Tiles(ps: seq<Prefix>, lo: int, hi: int) {
    && |ps| > 0
    && First(ps[0]) == lo
    && Last(ps[|ps| - 1]) == hi
    && forall i | 1 <= i < |ps| :: First(ps[i]) == Last(ps[i - 1]) + 1
  }

  lemma TilesConcat(ps: seq<Prefix>, qs: seq<Prefix>, lo: int, mid: int, hi: int)
    requires Tiles(ps, lo, mid) && Tiles(qs, mid + 1, hi)
    ensures Tiles(ps + qs, lo, hi)
  {
  }

  /** Blocks that tile an interval hold every address of it and no other. */
  lemma {:induction false} TilesCover(ps: seq<Prefix>, lo: int, hi: int, a: int)
    requires Tiles(ps, lo, hi)
    ensures Covers(ps, a) <==> lo <= a <= hi
  {
    var front, p := ps[..|ps| - 1], ps[|ps| - 1];
    CoversLast(ps, a);
    if |ps| > 1 {
      assert First(p) == Last(front[|front| - 1]) + 1;
      TilesCover(front, lo, First(p) - 1, a);
      TilesOrdered(front, lo, First(p) - 1);
    }
  }

  lemma {:induction false} TilesOrdered(ps: seq<Prefix>, lo: int, hi: int)
    requires Tiles(ps, lo, hi)
    ensures lo <= hi
  {
    if |ps| > 1 {
      TilesOrdered(ps[..|ps| - 1], lo, Last(ps[|ps| - 2]));
    }
  }

  lemma {:induction false} TilesAscend(ps: seq<Prefix>, lo: int, hi: int, i: nat, j: nat)
    requires Tiles(ps, lo, hi) && i < j < |ps|
    ensures Last(ps[i]) < First(ps[j])
    decreases j
  {
    if i + 1 < j {
      TilesAscend(ps, lo, hi, i, j - 1);
    }
  }

  // ---- subnets(new_prefix=len)

  /** `net.subnets(new_prefix=len)`, lowest block first. */
  function Subnets(net: Prefix, len: nat): (r: seq<Prefix>)
    requires net.len <= len <= 32
    ensures |r| == Pow2(len - net.len)
    ensures forall p <- r :: p.len == len
    decreases len - net.len
  {
    if len == net.len then [net]
    else Subnets(Half(net, false), len) + Subnets(Half(net, true), len)
  }

  /** The candidate blocks tile the network exactly. */
  lemma {:induction false} SubnetsTile(net: Prefix, len: nat)
    requires net.len <= len <= 32
    ensures Tiles(Subnets(net, len), First(net), Last(net))
    decreases len - net.len
  {
    if len > net.len {
      var lower, upper := Half(net, false), Half(net, true);
      SubnetsTile(lower, len);
      SubnetsTile(upper, len);
      TilesConcat(Subnets(lower, len), Subnets(upper, len), First(net), Last(lower), Last(net));
    }
  }

  // ---- address_exclude

  /** `net.address_exclude(other)`: halve, yield the half without `other`, go on in the one with it. */
  function AddressExclude(net: Prefix, other: Prefix): seq<Prefix>
    requires SubnetOf(other, net)
    decreases 32 - net.len
  {
    if other == net then [] else
    OnlyTwoHalves(other, net);
    var lower, upper := Half(net, false), Half(net, true);
    if SubnetOf(other, lower) then [upper] + AddressExclude(lower, other)
    else [lower] + AddressExclude(upper, other)
  }

  /** What is left is exactly the rest of the block. */
  lemma {:induction false} AddressExcludeIsDifference(net: Prefix, other: Prefix, a: int)
    requires SubnetOf(other, net)
    ensures Covers(AddressExclude(net, other), a) <==> Contains(net, a) && !Contains(other, a)
    decreases 32 - net.len
  {
    if other != net {
      OnlyTwoHalves(other, net);
      var down := !SubnetOf(other, Half(net, false));
      AddressExcludeIsDifference(Half(net, down), other, a);
      CoversConcat([Half(net, !down)], AddressExclude(Half(net, down), other), a);
      CoversOne(Half(net, !down), a);
    }
  }

  /** It is left in blocks that are as large as they can be: the supernet of each one contains
      `other`. */
  lemma {:induction false} AddressExcludeIsMaximal(net: Prefix, other: Prefix)
    requires SubnetOf(other, net)
    ensures forall p <- AddressExclude(net, other) :: SubnetOf(p, net) && p.len > 0 && SubnetOf(other, Supernet(p))
    decreases 32 - net.len
  {
    if other != net {
      OnlyTwoHalves(other, net);
      AddressExcludeIsMaximal(Half(net, !SubnetOf(other, Half(net, false))), other);
    }
  }

  lemma {:induction false} AddressExcludeIsApart(net: Prefix, other: Prefix)
    requires SubnetOf(other, net)
    ensures Apart(AddressExclude(net, other))
    decreases 32 - net.len
  {
    if other != net {
      OnlyTwoHalves(other, net);
      var down := !SubnetOf(other, Half(net, false));
      AddressExcludeIsApart(Half(net, down), other);
      AddressExcludeIsMaximal(Half(net, down), other);
      ApartConcat([Half(net, !down)], AddressExclude(Half(net, down), other));
    }
  }

  // ---- summarize_address_range

  lemma HostPrefix(a: Addr)
    ensures Pow2(32) == 0x1_0000_0000
    ensures First(Prefix(a, 32)) == a && Last(Prefix(a, 32)) == a
  {
    Pow2Of32();
    FirstIsAligned(Prefix(a, 32));
  }

  /** `ip_network(f"{a}/32")` */
  function Host(a: Addr): (p: Prefix)
    ensures First(p) == a && Last(p) == a && p.len == 32
  {
    HostPrefix(a);
    Prefix(a, 32)
  }

  /** The largest aligned block that starts where `p` starts and does not pass `last`. */
  function Grow(p: Prefix, last: Addr): (r: Prefix)
    requires Last(p) <= last
    ensures First(r) == First(p) && Last(p) <= Last(r) <= last
    decreases p.len
  {
    if p.len > 0 && !IsUpper(p) && Last(Supernet(p)) <= last then Grow(Supernet(p), last) else p
  }

  /** `summarize_address_range(first, last)`; Python refuses first > last before it yields. */
  function Summarize(first: Addr, last: Addr): seq<Prefix>
    requires first <= last
    decreases last - first
  {
    var p := Grow(Host(first), last);
    [p] + if Last(p) == last then [] else Summarize(Last(p) + 1, last)
  }

  lemma {:induction false} SummarizeTiles(first: Addr, last: Addr)
    requires first <= last
    ensures Tiles(Summarize(first, last), first, last)
    decreases last - first
  {
    var p := Grow(Host(first), last);
    if Last(p) == last {
      assert Summarize(first, last) == [p];
    } else {
      var rest := Summarize(Last(p) + 1, last);
      SummarizeTiles(Last(p) + 1, last);
      assert Summarize(first, last) == [p] + rest;
      TilesConcat([p], rest, first, Last(p), last);
    }
  }
}
