/**
  `_allocatable_ranges` of tenant_transit.py: the part of a subnet that kube-ovn can hand
  addresses out of, as aligned blocks. Each loop of the source is a method here, proved against
  a function of the same name, and the lemmas say what that function means.
 */
module TransitRanges {
  import opened Ipv4
  import opened Sorting
  import opened Lists

  /** One `excludeIps` entry, by the branch of the parser it takes. */
  datatype Exclusion =
    | Single(addr: Addr)
    | Span(first: Addr, last: Addr)
    | Block(net: Prefix)
    | Unparseable

  /** What an entry reserves. A span whose ends are swapped is refused and reserves nothing. */
  predicate Excludes(e: Exclusion, a: int) {
    match e
    case Single(addr) => a == addr
    case Span(first, last) => first <= a <= last
    case Block(net) => Contains(net, a)
    case Unparseable => false
  }

  ghost predicate Excluded(entries: seq<Exclusion>, a: int) {
    exists i | 0 <= i < |entries| :: Excludes(entries[i], a)
  }

  function BlocksOf(e: Exclusion): seq<Prefix> {
    match e
    case Single(addr) => [Host(addr)]
    case Span(first, last) => if first <= last then Summarize(first, last) else []
    case Block(net) => [net]
    case Unparseable => []
  }

  function Reserved(entries: seq<Exclusion>): seq<Prefix> {
    if entries == [] then []
    else Reserved(entries[..|entries| - 1]) + BlocksOf(entries[|entries| - 1])
  }

  lemma {:induction false} ReservedIsExcluded(entries: seq<Exclusion>, a: int)
    ensures Covers(Reserved(entries), a) <==> Excluded(entries, a)
  {
    if entries != [] {
      var front, e := entries[..|entries| - 1], entries[|entries| - 1];
      ReservedIsExcluded(front, a);
      CoversConcat(Reserved(front), BlocksOf(e), a);
      BlocksOfIsExclusion(e, a);
      assert entries == front + [e];
      ExcludedConcat(front, e, a);
    }
  }

  lemma ExcludedConcat(front: seq<Exclusion>, e: Exclusion, a: int)
    ensures Excluded(front + [e], a) <==> Excluded(front, a) || Excludes(e, a)
  {
    if Excluded(front, a) {
      var i :| 0 <= i < |front| && Excludes(front[i], a);
      assert (front + [e])[i] == front[i];
    } else if Excludes(e, a) {
      assert (front + [e])[|front|] == e;
    }
  }

  lemma BlocksOfIsExclusion(e: Exclusion, a: int)
    ensures Covers(BlocksOf(e), a) <==> Excludes(e, a)
  {
    match e
    case Single(addr) => CoversOne(Host(addr), a);
    case Span(first, last) =>
      if first <= last {
        SummarizeTiles(first, last);
        TilesCover(Summarize(first, last), first, last, a);
      }
    case Block(net) => CoversOne(net, a);
    case Unparseable =>
  }

  // ---- Taking one block out of one network, and out of all of them

  function Without(net: Prefix, block: Prefix): seq<Prefix> {
    if SubnetOf(block, net) then AddressExclude(net, block)
    else if !Overlaps(net, block) then [net]
    else []
  }

  lemma WithoutIsDifference(net: Prefix, block: Prefix, a: int)
    ensures Covers(Without(net, block), a) <==> Contains(net, a) && !Contains(block, a)
  {
    OverlapsIsSharing(net, block);
    if SubnetOf(block, net) {
      AddressExcludeIsDifference(net, block, a);
    } else if !Overlaps(net, block) {
      CoversOne(net, a);
    }
  }

  lemma WithoutInside(net: Prefix, block: Prefix)
    ensures Apart(Without(net, block))
    ensures forall p <- Without(net, block) :: SubnetOf(p, net)
    ensures forall p <- Without(net, block) :: p == net || (p.len > 0 && SubnetOf(block, Supernet(p)))
  {
    if SubnetOf(block, net) {
      AddressExcludeIsApart(net, block);
      AddressExcludeIsMaximal(net, block);
    }
  }

  function WithoutAll(nets: seq<Prefix>, block: Prefix): seq<Prefix> {
    if nets == [] then []
    else WithoutAll(nets[..|nets| - 1], block) + Without(nets[|nets| - 1], block)
  }

  lemma {:induction false} WithoutAllIsDifference(nets: seq<Prefix>, block: Prefix, a: int)
    ensures Covers(WithoutAll(nets, block), a) <==> Covers(nets, a) && !Contains(block, a)
  {
    if nets != [] {
      var front, net := nets[..|nets| - 1], nets[|nets| - 1];
      WithoutAllIsDifference(front, block, a);
      WithoutIsDifference(net, block, a);
      CoversConcat(WithoutAll(front, block), Without(net, block), a);
      CoversLast(nets, a);
    }
  }

  /** Every piece lies inside one of the networks, and is that network or a maximal piece. */
  lemma {:induction false} WithoutAllInside(nets: seq<Prefix>, block: Prefix, p: Prefix) returns (net: Prefix)
    requires p in WithoutAll(nets, block)
    ensures net in nets && SubnetOf(p, net)
    ensures p == net || (p.len > 0 && SubnetOf(block, Supernet(p)))
  {
    var front, last := nets[..|nets| - 1], nets[|nets| - 1];
    if p in WithoutAll(front, block) {
      net := WithoutAllInside(front, block, p);
    } else {
      net := last;
      WithoutInside(last, block);
    }
  }

  lemma {:induction false} WithoutAllApart(nets: seq<Prefix>, block: Prefix)
    requires Apart(nets)
    ensures Apart(WithoutAll(nets, block))
  {
    if nets != [] {
      var front, net := nets[..|nets| - 1], nets[|nets| - 1];
      WithoutAllApart(front, block);
      WithoutInside(net, block);
      var ps, qs := WithoutAll(front, block), Without(net, block);
      forall i, j | 0 <= i < |ps| && 0 <= j < |qs|
        ensures !Overlaps(ps[i], qs[j])
      {
        var other := WithoutAllInside(front, block, ps[i]);
        assert qs[j] in qs && !Overlaps(other, net);
        SubnetsOfApart(other, net, ps[i], qs[j]);
      }
      ApartConcat(ps, qs);
    }
  }

  lemma SubnetsOfApart(a: Prefix, b: Prefix, p: Prefix, q: Prefix)
    requires !Overlaps(a, b) && SubnetOf(p, a) && SubnetOf(q, b)
    ensures !Overlaps(p, q)
  {
  }

  // ---- All reserved blocks

  function Remaining(network: Prefix, reserved: seq<Prefix>): seq<Prefix> {
    if reserved == [] then [network]
    else WithoutAll(Remaining(network, reserved[..|reserved| - 1]), reserved[|reserved| - 1])
  }

  lemma {:induction false} RemainingIsDifference(network: Prefix, reserved: seq<Prefix>, a: int)
    ensures Covers(Remaining(network, reserved), a) <==> Contains(network, a) && !Covers(reserved, a)
  {
    if reserved == [] {
      CoversOne(network, a);
    } else {
      var front, block := reserved[..|reserved| - 1], reserved[|reserved| - 1];
      RemainingIsDifference(network, front, a);
      WithoutAllIsDifference(Remaining(network, front), block, a);
      CoversLast(reserved, a);
    }
  }

  lemma {:induction false} RemainingApart(network: Prefix, reserved: seq<Prefix>)
    ensures Apart(Remaining(network, reserved))
  {
    if reserved != [] {
      RemainingApart(network, reserved[..|reserved| - 1]);
      WithoutAllApart(Remaining(network, reserved[..|reserved| - 1]), reserved[|reserved| - 1]);
    }
  }

  /** No piece could be larger: the next larger block holds a reserved address. */
  ghost predicate MaximalIn(p: Prefix, network: Prefix, reserved: seq<Prefix>) {
    && SubnetOf(p, network)
    && (p == network || (p.len > 0 && exists x: int :: Contains(Supernet(p), x) && Covers(reserved, x)))
  }

  lemma {:induction false} RemainingMaximal(network: Prefix, reserved: seq<Prefix>, p: Prefix)
    requires p in Remaining(network, reserved)
    ensures MaximalIn(p, network, reserved)
  {
    if reserved != [] {
      var front, block := reserved[..|reserved| - 1], reserved[|reserved| - 1];
      var net := WithoutAllInside(Remaining(network, front), block, p);
      RemainingMaximal(network, front, net);
      if p != network {
        var x: int;
        if p == net {
          x :| Contains(Supernet(net), x) && Covers(front, x);
        } else {
          x := First(block);
        }
        CoversLast(reserved, x);
        assert Contains(Supernet(p), x) && Covers(reserved, x);
      }
    }
  }

  // ---- The result

  /** Python's order on networks: by address, then by mask. */
  predicate PrefixLe(p: Prefix, q: Prefix) {
    First(p) < First(q) || (First(p) == First(q) && p.len <= q.len)
  }

  lemma PrefixLeIsPreorder()
    ensures Preorder(PrefixLe)
  {
  }

  predicate IsNetworkAddress(p: Prefix, network: Prefix) {
    p.len == 32 && First(p) == First(network)
  }

  function DropNetworkAddress(ps: seq<Prefix>, network: Prefix): seq<Prefix> {
    Filter(ps, (p: Prefix) => !IsNetworkAddress(p, network))
  }

  lemma DropElements(ps: seq<Prefix>, network: Prefix)
    ensures forall p :: p in DropNetworkAddress(ps, network) <==> p in ps && !IsNetworkAddress(p, network)
  {
    forall p: Prefix
      ensures p in DropNetworkAddress(ps, network) <==> p in ps && !IsNetworkAddress(p, network)
    {
      FilterElements(ps, (p: Prefix) => !IsNetworkAddress(p, network), p);
    }
  }

  /** Strictly ascending: every block ends before the next one starts. */
  ghost predicate Ascending(ps: seq<Prefix>) {
    forall i, j | 0 <= i < j < |ps| :: Last(ps[i]) < First(ps[j])
  }

  lemma {:induction false} DropAscending(ps: seq<Prefix>, network: Prefix)
    requires Ascending(ps)
    ensures Ascending(DropNetworkAddress(ps, network))
  {
    if ps != [] {
      DropAscending(ps[..|ps| - 1], network);
      DropElements(ps[..|ps| - 1], network);
      var front, p := DropNetworkAddress(ps[..|ps| - 1], network), ps[|ps| - 1];
      forall i | 0 <= i < |front|
        ensures Last(front[i]) < First(p)
      {
        assert front[i] in ps[..|ps| - 1];
      }
    }
  }

  function AllocatableRanges(network: Prefix, entries: seq<Exclusion>): seq<Prefix> {
    DropNetworkAddress(Sort(Remaining(network, Reserved(entries)), PrefixLe), network)
  }

  /** Every block starts after the one before it has ended. */
  lemma RangesAscend(network: Prefix, entries: seq<Exclusion>)
    ensures Ascending(AllocatableRanges(network, entries))
  {
    var rest := Remaining(network, Reserved(entries));
    PrefixLeIsPreorder();
    SortSorted(rest, PrefixLe);
    RemainingApart(network, Reserved(entries));
    ApartUnderSort(rest, Sort(rest, PrefixLe));
    DropAscending(Sort(rest, PrefixLe), network);
  }

  /** A sorted rearrangement of separate blocks ascends strictly. */
  lemma ApartUnderSort(ps: seq<Prefix>, qs: seq<Prefix>)
    requires Apart(ps) && multiset(ps) == multiset(qs) && Sorted(qs, PrefixLe)
    ensures Ascending(qs)
  {
    forall i, j | 0 <= i < j < |qs|
      ensures Last(qs[i]) < First(qs[j])
    {
      TwoElements(qs, ps, i, j);
      var a, b :| 0 <= a < |ps| && 0 <= b < |ps| && a != b && ps[a] == qs[i] && ps[b] == qs[j];
      assert !Overlaps(qs[i], qs[j]);
      assert PrefixLe(qs[i], qs[j]);
    }
  }

  /** Two positions of a list have two different counterparts in a rearrangement of it. */
  lemma TwoElements<T>(qs: seq<T>, ps: seq<T>, i: nat, j: nat)
    requires multiset(ps) == multiset(qs) && i < j < |qs|
    ensures exists a, b | 0 <= a < |ps| && 0 <= b < |ps| && a != b :: ps[a] == qs[i] && ps[b] == qs[j]
  {
    SameElements(ps, qs);
    assert qs[i] in qs;
    var a :| 0 <= a < |ps| && ps[a] == qs[i];
    InTheRest(qs, ps, i, j, a);
    var b := ElsewhereThan(ps, a, qs[j]);
  }

  lemma InTheRest<T>(qs: seq<T>, ps: seq<T>, i: nat, j: nat, a: nat)
    requires multiset(ps) == multiset(qs) && i < j < |qs| && a < |ps| && ps[a] == qs[i]
    ensures qs[j] in ps[..a] + ps[a + 1..]
  {
    var ps', qs' := ps[..a] + ps[a + 1..], qs[..i] + qs[i + 1..];
    RemoveAt(ps, a);
    RemoveAt(qs, i);
    SameElements(ps', qs');
    assert qs'[j - 1] == qs[j];
  }

  lemma ElsewhereThan<T>(ps: seq<T>, a: nat, x: T) returns (b: nat)
    requires a < |ps| && x in ps[..a] + ps[a + 1..]
    ensures b < |ps| && b != a && ps[b] == x
  {
    var rest := ps[..a] + ps[a + 1..];
    var k :| 0 <= k < |rest| && rest[k] == x;
    b := if k < a then k else k + 1;
  }

  /** The network address is left over as a block of its own exactly when it is not reserved but
      there is nothing next to it that is free. */
  ghost predicate LoneNetworkAddress(network: Prefix, entries: seq<Exclusion>) {
    !Excluded(entries, First(network)) && (network.len == 32 || Excluded(entries, First(network) + 1))
  }

  /** Addresses that kube-ovn may hand out, as far as this code can tell. */
  ghost predicate Allocatable(network: Prefix, entries: seq<Exclusion>, a: int) {
    && Contains(network, a)
    && !Excluded(entries, a)
    && !(a == First(network) && LoneNetworkAddress(network, entries))
  }

  /** The ranges hold exactly the allocatable addresses. */
  lemma RangesAreAllocatable(network: Prefix, entries: seq<Exclusion>, a: int)
    ensures Covers(AllocatableRanges(network, entries), a) <==> Allocatable(network, entries, a)
  {
    var reserved := Reserved(entries);
    var rest := Remaining(network, reserved);
    var sorted := Sort(rest, PrefixLe);
    SameElements(rest, sorted);
    DropElements(sorted, network);
    RemainingIsDifference(network, reserved, a);
    ReservedIsExcluded(entries, a);
    CoversAsMember(rest, a);
    CoversAsMember(AllocatableRanges(network, entries), a);
    if p: Prefix :| p in rest && Contains(p, a) {
      NetworkAddressBlock(network, entries, p);
      if a != First(network) || !LoneNetworkAddress(network, entries) {
        assert !IsNetworkAddress(p, network);
        assert p in AllocatableRanges(network, entries);
      }
    }
    if p: Prefix :| p in AllocatableRanges(network, entries) && Contains(p, a) {
      NetworkAddressBlock(network, entries, p);
    }
  }

  lemma CoversAsMember(ps: seq<Prefix>, a: int)
    ensures Covers(ps, a) <==> exists p <- ps :: Contains(p, a)
  {
    if p: Prefix :| p in ps && Contains(p, a) {
      var i :| 0 <= i < |ps| && ps[i] == p;
    }
  }

  /** A left-over block with the network address in it is a /32 exactly when the address is alone. */
  lemma NetworkAddressBlock(network: Prefix, entries: seq<Exclusion>, p: Prefix)
    requires p in Remaining(network, Reserved(entries))
    ensures Contains(p, First(network)) ==> (IsNetworkAddress(p, network) <==> LoneNetworkAddress(network, entries))
  {
    if Contains(p, First(network)) {
      RemainingMaximal(network, Reserved(entries), p);
      RemainingHas(network, entries, p, First(network));
      if p.len == 32 {
        HostIsAlone(network, entries, p);
      } else {
        assert Size(p) >= 2 by { Pow2Grows(0, 32 - p.len); }
        RemainingHas(network, entries, p, First(network) + 1);
        SubnetIsLonger(p, network);
      }
    }
  }

  lemma HostIsAlone(network: Prefix, entries: seq<Exclusion>, p: Prefix)
    requires p.len == 32 && Contains(p, First(network)) && MaximalIn(p, network, Reserved(entries))
    requires !Excluded(entries, First(network))
    ensures IsNetworkAddress(p, network) && LoneNetworkAddress(network, entries)
  {
    if p != network {
      var x: int :| Contains(Supernet(p), x) && Covers(Reserved(entries), x);
      ReservedIsExcluded(entries, x);
      SupernetIsNext(p, network);
      assert x == First(network) + 1;
    }
  }

  lemma RemainingHas(network: Prefix, entries: seq<Exclusion>, p: Prefix, a: int)
    requires p in Remaining(network, Reserved(entries)) && Contains(p, a)
    ensures Contains(network, a) && !Excluded(entries, a)
  {
    CoversAsMember(Remaining(network, Reserved(entries)), a);
    RemainingIsDifference(network, Reserved(entries), a);
    ReservedIsExcluded(entries, a);
  }

  // ---- The loops

  method CollectReserved(entries: seq<Exclusion>) returns (reserved: seq<Prefix>)
    ensures reserved == Reserved(entries)
  {
    reserved := [];
    for i := 0 to |entries|
      invariant reserved == Reserved(entries[..i])
    {
      assert entries[..i + 1][..i] == entries[..i];
      match entries[i]
      case Span(first, last) =>
        if first <= last {
          reserved := reserved + Summarize(first, last);
        }
      case Block(net) => reserved := reserved + [net];
      case Single(addr) => reserved := reserved + [Host(addr)];
      case Unparseable =>
    }
    assert entries[..|entries|] == entries;
  }

  method TakeOut(nets: seq<Prefix>, block: Prefix) returns (nxt: seq<Prefix>)
    ensures nxt == WithoutAll(nets, block)
  {
    nxt := [];
    for i := 0 to |nets|
      invariant nxt == WithoutAll(nets[..i], block)
    {
      assert nets[..i + 1][..i] == nets[..i];
      if SubnetOf(block, nets[i]) {
        nxt := nxt + AddressExclude(nets[i], block);
      } else if !Overlaps(nets[i], block) {
        nxt := nxt + [nets[i]];
      }
    }
    assert nets[..|nets|] == nets;
  }

  method TakeOutAll(network: Prefix, reserved: seq<Prefix>) returns (remaining: seq<Prefix>)
    ensures remaining == Remaining(network, reserved)
  {
    remaining := [network];
    for i := 0 to |reserved|
      invariant remaining == Remaining(network, reserved[..i])
    {
      assert reserved[..i + 1][..i] == reserved[..i];
      remaining := TakeOut(remaining, reserved[i]);
    }
    assert reserved[..|reserved|] == reserved;
  }

  method OmitNetworkAddress(sorted: seq<Prefix>, network: Prefix) returns (ranges: seq<Prefix>)
    ensures ranges == DropNetworkAddress(sorted, network)
  {
    ranges := [];
    for i := 0 to |sorted|
      invariant ranges == DropNetworkAddress(sorted[..i], network)
    {
      assert sorted[..i + 1][..i] == sorted[..i];
      if !(sorted[i].len == 32 && First(sorted[i]) == First(network)) {
        ranges := ranges + [sorted[i]];
      }
    }
    assert sorted[..|sorted|] == sorted;
  }

  /** `_allocatable_ranges`: ascending blocks that hold exactly the allocatable addresses. */
  method ComputeAllocatableRanges(network: Prefix, entries: seq<Exclusion>) returns (ranges: seq<Prefix>)
    ensures ranges == AllocatableRanges(network, entries)
    ensures Ascending(ranges)
    ensures forall a: int :: Covers(ranges, a) <==> Allocatable(network, entries, a)
  {
    var reserved := CollectReserved(entries);
    var remaining := TakeOutAll(network, reserved);
    ranges := OmitNetworkAddress(Sort(remaining, PrefixLe), network);
    RangesAscend(network, entries);
    AllRangesAreAllocatable(network, entries);
  }

  lemma AllRangesAreAllocatable(network: Prefix, entries: seq<Exclusion>)
    ensures forall a: int :: Covers(AllocatableRanges(network, entries), a) <==> Allocatable(network, entries, a)
  {
    forall a: int
      ensures Covers(AllocatableRanges(network, entries), a) <==> Allocatable(network, entries, a)
    {
      RangesAreAllocatable(network, entries, a);
    }
  }

  /** The source addresses of the baseline deny: the allocatable ranges, or the whole network
      when nothing is allocatable. */
  function DenyRanges(network: Prefix, entries: seq<Exclusion>): (r: seq<Prefix>)
    ensures r != []
  {
    var ranges := AllocatableRanges(network, entries);
    if ranges == [] then [network] else ranges
  }

  /** The deny covers every allocatable address, and nothing else of the network unless no
      address is allocatable, in which case it covers all of it. */
  lemma DenyScope(network: Prefix, entries: seq<Exclusion>, a: int)
    ensures Covers(DenyRanges(network, entries), a) <==>
              || Allocatable(network, entries, a)
              || (Contains(network, a) && forall b: int :: !Allocatable(network, entries, b))
  {
    RangesAreAllocatable(network, entries, a);
    CoversOne(network, a);
    var ranges := AllocatableRanges(network, entries);
    if ranges == [] {
      forall b: int
        ensures !Allocatable(network, entries, b)
      {
        RangesAreAllocatable(network, entries, b);
      }
    } else {
      RangesAreAllocatable(network, entries, First(ranges[0]));
      assert Covers(ranges, First(ranges[0])) by { assert Contains(ranges[0], First(ranges[0])); }
    }
  }

  // ---- _supernet_of of b3_announce.py

  /** The least prefix that covers every given one: any other that covers them contains it. */
  method SupernetOf(nets: seq<Prefix>) returns (candidate: Prefix)
    requires nets != []
    ensures forall n <- nets :: SubnetOf(n, candidate)
    ensures forall q: Prefix | forall n <- nets :: SubnetOf(n, q) :: SubnetOf(candidate, q)
  {
    candidate := nets[0];
    while !forall n <- nets :: SubnetOf(n, candidate)
      invariant forall q: Prefix | forall n <- nets :: SubnetOf(n, q) :: SubnetOf(candidate, q)
      decreases candidate.len
    {
      assert candidate.len > 0 by {
        if candidate.len == 0 { WholeSpace(candidate); }
      }
      forall q: Prefix | forall n <- nets :: SubnetOf(n, q)
        ensures SubnetOf(Supernet(candidate), q)
      {
        SupernetIsNext(candidate, q);
      }
      candidate := Supernet(candidate);
      if candidate.len == 0 {
        WholeSpace(candidate);
        break;
      }
    }
  }

  lemma WholeSpace(q: Prefix)
    requires q.len == 0
    ensures forall p: Prefix :: SubnetOf(p, q)
  {
    Pow2Of32();
  }
}
