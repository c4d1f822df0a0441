/** The /30 links of VPC peerings in allocators.py: where they lie, and that none is given out twice. */
module PeeringLinks {
  import opened Options
  import opened Ipv4
  import opened Counter

  const LINK_BASE: nat := 0xA9FE_6500   // 169.254.101.0
  const LINK_MAX := 62

  /** The block of link `index`: the /30 at LINK_BASE + 4 * index. */
  function Link(index: int): Prefix {
    Pow2Of30();
    Prefix((LINK_BASE / 4 + index) % 0x4000_0000, 30)
  }

  lemma Pow2Of30()
    ensures Pow2(30) == 0x4000_0000
  {
    Pow2Of32();
    assert Pow2(31) == 2 * Pow2(30);
    assert Pow2(32) == 2 * Pow2(31);
  }

  /** `peering_link_addresses`: the two hosts of the block, and the block. */
  function LinkAddresses(index: int): (Addr, Addr, Prefix) {
    (First(Link(index)) + 1, First(Link(index)) + 2, Link(index))
  }

  /** 169.254.0.0/16, the link-local space of section 2.1 of RFC 3927. */
  const LINK_LOCAL_FIRST := 0xA9FE_0000
  const LINK_LOCAL_LAST := 0xA9FE_FFFF

  /** A link is a block of four addresses in link-local space; its two ends are distinct host
      addresses, neither the network nor the broadcast address of the block. */
  lemma LinkIsUsable(index: int)
    requires 0 <= index < 62
    ensures var (local, remote, net) := LinkAddresses(index);
            && First(net) == 0xA9FE_6500 + 4 * index && Size(net) == 4
            && First(net) < local < remote < Last(net)
            && LINK_LOCAL_FIRST <= First(net) && Last(net) <= LINK_LOCAL_LAST
  {
    LinkStart(index);
  }

  lemma ShiftedTwice(n: nat)
    ensures Shifted(n, 2) == 4 * n && Pow2(2) == 4
  {
    assert Shifted(n, 1) == 2 * n;
    assert Pow2(1) == 2;
  }

  lemma LinkStart(index: int)
    requires 0 <= index < LINK_MAX
    ensures First(Link(index)) == LINK_BASE + 4 * index && Size(Link(index)) == 4
  {
    FirstIsAligned(Link(index));
    ShiftedTwice(Link(index).number);
    assert Link(index).number == LINK_BASE / 4 + index;
  }

  lemma LinksApart(i: int, j: int)
    requires 0 <= i < LINK_MAX && 0 <= j < LINK_MAX && i != j
    ensures !Overlaps(Link(i), Link(j))
  {
    LinkIsUsable(i);
    LinkIsUsable(j);
  }

  /** The lowest index from `value` on, below `max`, that is not taken. */
  function FirstFrom(value: int, max: int, taken: int -> bool): (r: Option<int>)
    ensures r.Some? ==> value <= r.value < max && !taken(r.value) && forall i | value <= i < r.value :: taken(i)
    ensures r.None? ==> forall i | value <= i < max :: taken(i)
    decreases max - value
  {
    if value >= max then None else if !taken(value) then Some(value) else FirstFrom(value + 1, max, taken)
  }

  function InUse(used: set<Prefix>): int -> bool {
    (i: int) => Link(i) in used
  }

  /** The lowest index from the counter on whose block is not in use. */
  function LinkPick(value: int, used: set<Prefix>): (r: Option<int>)
    ensures r.Some? ==> value <= r.value < 62 && Link(r.value) !in used
    ensures r.Some? ==> forall i | value <= i < r.value :: InUse(used)(i)
    ensures r.None? ==> forall i | value <= i < 62 :: InUse(used)(i)
  {
    FirstFrom(value, LINK_MAX, InUse(used))
  }

  /** The scan of `_allocate_peering_link_once`. */
  method ScanLinks(nextIndex: int, used: set<Prefix>) returns (index: Option<int>)
    ensures index == LinkPick(nextIndex, used)
  {
    var i := nextIndex;
    while i < LINK_MAX
      invariant FirstFrom(nextIndex, LINK_MAX, InUse(used)) == FirstFrom(i, LINK_MAX, InUse(used))
      decreases LINK_MAX - i
    {
      var (_, _, cidr) := LinkAddresses(i);
      if cidr !in used {
        return Some(i);
      }
      i := i + 1;
    }
    return None;
  }

  /** From a reservation on, the counter stays above the reserved index. */
  lemma {:induction false} CounterStaysAbove(initial: Option<int>, log: seq<Write<set<Prefix>>>, a: nat, b: nat)
    requires LogOk(LinkPick, initial, log) && Untampered(initial, log)
    requires a < b <= |log| && log[a].Reserved?
    ensures At(initial, log, b).Some? && log[a].index < At(initial, log, b).value
    decreases b
  {
    assert At(initial, log, b) == After(log[b - 1]);
    if a + 1 < b {
      CounterStaysAbove(initial, log, a, b - 1);
      assert WriteOk(LinkPick, initial, log, b - 1);
    }
  }

  lemma LaterIsHigher(initial: Option<int>, log: seq<Write<set<Prefix>>>, a: nat, b: nat)
    requires LogOk(LinkPick, initial, log) && Untampered(initial, log)
    requires a < b < |log| && log[a].Reserved? && log[b].Reserved?
    ensures log[a].index < log[b].index
  {
    CounterStaysAbove(initial, log, a, b);
    assert WriteOk(LinkPick, initial, log, b);
  }

  lemma {:induction false} CounterNotNegative(initial: Option<int>, log: seq<Write<set<Prefix>>>, b: nat)
    requires LogOk(LinkPick, initial, log) && Untampered(initial, log) && b <= |log|
    requires initial.Some? ==> initial.value >= 0
    ensures At(initial, log, b).Some? ==> At(initial, log, b).value >= 0
    decreases b
  {
    if b > 0 {
      CounterNotNegative(initial, log, b - 1);
      assert At(initial, log, b) == After(log[b - 1]);
      assert WriteOk(LinkPick, initial, log, b - 1);
    }
  }

  /** In every interleaving of callers, create races, failed or stale listings, lost replies and
      retries included, two successful calls get different links: disjoint blocks of link-local
      space. All it takes is that nobody deletes the counter or edits its value by hand. */
  lemma NoLinkTwice(callers: nat, counter: Option<int>, steps: seq<Step<set<Prefix>>>, c: nat, d: nat)
    requires c < callers && d < callers && c != d && (counter.Some? ==> counter.value >= 0)
    requires Untampered(counter, Run(LinkPick, callers, counter, steps).log)
    requires Run(LinkPick, callers, counter, steps).phases[c].Finished?
    requires Run(LinkPick, callers, counter, steps).phases[c].outcome.Allocated?
    requires Run(LinkPick, callers, counter, steps).phases[d].Finished?
    requires Run(LinkPick, callers, counter, steps).phases[d].outcome.Allocated?
    ensures var s := Run(LinkPick, callers, counter, steps);
            var i, j := s.phases[c].outcome.index, s.phases[d].outcome.index;
            i != j && 0 <= i < 62 && 0 <= j < 62 && !Overlaps(Link(i), Link(j))
  {
    RunKeepsInv(LinkPick, callers, counter, steps);
    LinksDiffer(Run(LinkPick, callers, counter, steps), c, d);
  }

  lemma LinksDiffer(s: State<set<Prefix>>, c: nat, d: nat)
    requires Inv(LinkPick, s) && Untampered(s.initial, s.log) && (s.initial.Some? ==> s.initial.value >= 0)
    requires c < |s.phases| && d < |s.phases| && c != d
    requires s.phases[c].Finished? && s.phases[c].outcome.Allocated?
    requires s.phases[d].Finished? && s.phases[d].outcome.Allocated?
    ensures var i, j := s.phases[c].outcome.index, s.phases[d].outcome.index;
            i != j && 0 <= i < 62 && 0 <= j < 62 && !Overlaps(Link(i), Link(j))
  {
    assert PhaseOk(s.initial, s.log, c, s.phases[c]) && PhaseOk(s.initial, s.log, d, s.phases[d]);
    var a, b := s.phases[c].until - 1, s.phases[d].until - 1;
    if a < b {
      LaterIsHigher(s.initial, s.log, a, b);
    } else {
      LaterIsHigher(s.initial, s.log, b, a);
    }
    assert WriteOk(LinkPick, s.initial, s.log, a) && WriteOk(LinkPick, s.initial, s.log, b);
    CounterNotNegative(s.initial, s.log, a);
    CounterNotNegative(s.initial, s.log, b);
    LinksApart(s.log[a].index, s.log[b].index);
  }
}
