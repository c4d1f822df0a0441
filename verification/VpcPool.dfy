/** Positions on a cycle. */
module Cyclic {

  /** Python's x % n for a positive n, without division (lemma `WrapIsMod`). */
  function Wrap(x: int, n: nat): (r: nat)
    requires n > 0
    ensures r < n
    decreases if x < 0 then n - x else x
  {
    if x < 0 then Wrap(x + n, n) else if x >= n then Wrap(x - n, n) else x
  }

  lemma {:induction false} WrapIsMod(x: int, n: nat)
    requires n > 0
    ensures Wrap(x, n) == x % n
    decreases if x < 0 then n - x else x
  {
    if x < 0 {
      WrapIsMod(x + n, n);
      ModRound(x, n);
    } else if x >= n {
      WrapIsMod(x - n, n);
      ModRound(x - n, n);
    }
  }

  lemma ModRound(x: int, n: nat)
    requires n > 0
    ensures (x + n) % n == x % n
  {
    ModUnique(x + n, x / n + 1, x % n, n);
  }

  lemma ModUnique(x: int, q: int, r: int, n: int)
    requires x == q * n + r && 0 <= r < n
    ensures x % n == r
  {
    MulSign(q - x / n, n);
    assert (q - x / n) * n == x % n - r;
  }

  lemma MulSign(d: int, n: int)
    requires n > 0
    ensures d > 0 ==> d * n >= n
    ensures d < 0 ==> d * n <= -n
  {
  }

  lemma WrapRound(x: int, n: nat)
    requires n > 0
    ensures Wrap(x + n, n) == Wrap(x, n)
  {
  }

  /** Wrapping early changes nothing. */
  lemma {:induction false} WrapInner(x: int, t: int, n: nat)
    requires n > 0
    ensures Wrap(Wrap(x, n) + t, n) == Wrap(x + t, n)
    decreases if x < 0 then n - x else x
  {
    if x < 0 {
      WrapInner(x + n, t, n);
      WrapRound(x + t, n);
    } else if x >= n {
      WrapInner(x - n, t, n);
      WrapRound(x - n + t, n);
    }
  }

  /** Every place of the cycle can be reached from anywhere. */
  lemma WrapReaches(start: int, i: nat, n: nat)
    requires i < n
    ensures Wrap(start + Wrap(i - start, n), n) == i
  {
    WrapInner(i - start, start, n);
  }

  /** The distance from a place to the place t steps further is t. */
  lemma WrapDistance(start: int, t: nat, n: nat)
    requires t < n
    ensures Wrap(Wrap(start + t, n) - start, n) == t
  {
    WrapInner(start + t, -start, n);
  }

  lemma WrapAdd(x: int, y: int, t: int, n: nat)
    requires n > 0 && Wrap(x, n) == Wrap(y, n)
    ensures Wrap(x + t, n) == Wrap(y + t, n)
  {
    WrapInner(x, t, n);
    WrapInner(y, t, n);
  }

  /** The same place again is at least one full cycle later. */
  lemma WrapFar(x: int, y: int, n: nat)
    requires n > 0 && x < y && Wrap(x, n) == Wrap(y, n)
    ensures x + n <= y
  {
    WrapAdd(x, y, -x, n);
    assert Wrap(0, n) == 0;
  }
}

/** The pool of tenant VPC ranges in allocators.py: which range a scan picks, and what it takes for
    the wrapping counter to hand the same range out again. */
module VpcPool {
  import opened Options
  import opened Ipv4
  import opened Counter
  import opened Cyclic

  // ---- Conflicts with listed subnets

  /** How `_parse` reads the text of a cidrBlock; an IPv6 network is known by its ends. */
  datatype Parsed = V4(net: Prefix) | V6(first: nat, beyond: nat) | Unparseable

  datatype Listed = Listed(name: string, text: string, cidr: Parsed)

  /** `overlaps`, for networks of the same version. */
  predicate Clashes(wanted: Parsed, other: Parsed) {
    match wanted
    case V4(net) => other.V4? && Overlaps(net, other.net)
    case V6(first, beyond) => other.V6? && first <= other.first + other.beyond && other.first <= first + beyond
    case Unparseable => false
  }

  function Conflicts(wanted: Parsed, existing: seq<Listed>): seq<string> {
    if existing == [] then []
    else
      var front, other := Conflicts(wanted, existing[..|existing| - 1]), existing[|existing| - 1];
      if Clashes(wanted, other.cidr) then front + [other.name + " (" + other.text + ")"] else front
  }

  predicate Holds(block: Parsed, a: int) {
    match block
    case V4(net) => Contains(net, a)
    case V6(first, beyond) => first <= a <= first + beyond
    case Unparseable => false
  }

  /** The two networks are of the same version and have an address in common. */
  ghost predicate Shares(wanted: Parsed, other: Parsed) {
    wanted.V4? == other.V4? && exists a: int :: Holds(wanted, a) && Holds(other, a)
  }

  ghost predicate SharesAny(wanted: Parsed, existing: seq<Listed>) {
    exists i | 0 <= i < |existing| :: Shares(wanted, existing[i].cidr)
  }

  /** The block has an address in common with a listed IPv4 subnet. */
  ghost predicate Taken(wanted: Prefix, existing: seq<Listed>) {
    SharesAny(V4(wanted), existing)
  }

  lemma ClashIsSharing(wanted: Parsed, other: Parsed)
    ensures Clashes(wanted, other) <==> Shares(wanted, other)
  {
    if wanted.V4? && other.V4? {
      OverlapsIsSharing(wanted.net, other.net);
      if a: Addr :| Contains(wanted.net, a) && Contains(other.net, a) {
        assert Holds(wanted, a) && Holds(other, a);
      }
    } else if Clashes(wanted, other) {
      var a := if wanted.first <= other.first then other.first else wanted.first;
      assert Holds(wanted, a) && Holds(other, a);
    }
  }

  lemma SharesLast(wanted: Parsed, front: seq<Listed>, other: Listed)
    ensures SharesAny(wanted, front + [other]) <==> SharesAny(wanted, front) || Shares(wanted, other.cidr)
  {
    var existing := front + [other];
    assert existing[|front|] == other && forall i | 0 <= i < |front| :: existing[i] == front[i];
  }

  /** The report is empty exactly when the network shares no address with any listed subnet. */
  lemma {:induction false} NoConflictsIsFree(wanted: Parsed, existing: seq<Listed>)
    ensures Conflicts(wanted, existing) == [] <==> !SharesAny(wanted, existing)
  {
    if existing != [] {
      var front, other := existing[..|existing| - 1], existing[|existing| - 1];
      assert existing == front + [other];
      NoConflictsIsFree(wanted, front);
      ClashIsSharing(wanted, other.cidr);
      SharesLast(wanted, front, other);
    }
  }

  /** Every line of the report names a listed subnet that shares an address, with its text; and every
      such subnet has its line. */
  lemma {:induction false} ReportIs(wanted: Parsed, existing: seq<Listed>, line: string)
    ensures line in Conflicts(wanted, existing) <==> exists i | 0 <= i < |existing| :: Reported(wanted, existing[i], line)
  {
    if existing != [] {
      var front, last := existing[..|existing| - 1], existing[|existing| - 1];
      ReportIs(wanted, front, line);
      ClashIsSharing(wanted, last.cidr);
      assert existing == front + [last];
      assert forall i | 0 <= i < |front| :: front[i] == existing[i];
    }
  }

  ghost predicate Reported(wanted: Parsed, other: Listed, line: string) {
    Shares(wanted, other.cidr) && line == other.name + " (" + other.text + ")"
  }

  /** The lines come in the order of the listing. */
  lemma {:induction false} ReportInOrder(wanted: Parsed, a: seq<Listed>, b: seq<Listed>)
    ensures Conflicts(wanted, a + b) == Conflicts(wanted, a) + Conflicts(wanted, b)
  {
    if b == [] {
      assert a + b == a;
    } else {
      assert (a + b)[..|a + b| - 1] == a + b[..|b| - 1];
      ReportInOrder(wanted, a, b[..|b| - 1]);
    }
  }

  /** `find_cidr_conflicts`; a wanted range that does not parse conflicts with nothing. */
  method FindCidrConflicts(wanted: Parsed, existing: seq<Listed>) returns (conflicts: seq<string>)
    ensures conflicts == Conflicts(wanted, existing)
    ensures conflicts == [] <==> !SharesAny(wanted, existing)
  {
    conflicts := [];
    NoConflictsIsFree(wanted, existing);
    if wanted.Unparseable? {
      NothingUnparseable(existing);
      return;
    }
    for i := 0 to |existing|
      invariant conflicts == Conflicts(wanted, existing[..i])
    {
      assert existing[..i + 1][..i] == existing[..i];
      if Clashes(wanted, existing[i].cidr) {
        conflicts := conflicts + [existing[i].name + " (" + existing[i].text + ")"];
      }
    }
    assert existing[..|existing|] == existing;
  }

  lemma {:induction false} NothingUnparseable(existing: seq<Listed>)
    ensures Conflicts(Unparseable, existing) == []
  {
    if existing != [] {
      NothingUnparseable(existing[..|existing| - 1]);
    }
  }

  // ---- The scan

  /** The first offset, from `offset` on, at which the wrapped scan from `start` finds a free
      candidate; the size of the pool if there is none. */
  function FirstFree(candidates: seq<Prefix>, start: int, offset: nat, existing: seq<Listed>): (r: nat)
    requires offset <= |candidates|
    ensures offset <= r <= |candidates|
    decreases |candidates| - offset
  {
    if offset == |candidates| || Conflicts(V4(candidates[Wrap(start + offset, |candidates|)]), existing) == [] then offset
    else FirstFree(candidates, start, offset + 1, existing)
  }

  /** The index that the scan settles on. */
  function Scan(candidates: seq<Prefix>, start: int, existing: seq<Listed>): Option<int> {
    var offset := FirstFree(candidates, start, 0, existing);
    if offset < |candidates| then Some(Wrap(start + offset, |candidates|)) else None
  }

  ghost predicate TakenAt(candidates: seq<Prefix>, start: int, t: int, existing: seq<Listed>)
    requires candidates != []
  {
    Taken(candidates[Wrap(start + t, |candidates|)], existing)
  }

  /** Everything before the stop is taken, and the stop is not. */
  lemma {:induction false} FirstFreeIsFirst(candidates: seq<Prefix>, start: int, offset: nat, existing: seq<Listed>)
    requires offset <= |candidates|
    ensures var r := FirstFree(candidates, start, offset, existing);
            && (forall t | offset <= t < r :: TakenAt(candidates, start, t, existing))
            && (r < |candidates| ==> !TakenAt(candidates, start, r, existing))
    decreases |candidates| - offset
  {
    if offset < |candidates| {
      NoConflictsIsFree(V4(candidates[Wrap(start + offset, |candidates|)]), existing);
      if TakenAt(candidates, start, offset, existing) {
        FirstFreeIsFirst(candidates, start, offset + 1, existing);
        forall t | offset <= t < FirstFree(candidates, start, offset, existing)
          ensures TakenAt(candidates, start, t, existing)
        {
          assert t == offset || offset + 1 <= t;
        }
      }
    }
  }

  /** The scan fails exactly when every candidate is taken. */
  lemma ExhaustedIffAllTaken(candidates: seq<Prefix>, start: int, existing: seq<Listed>)
    ensures Scan(candidates, start, existing).None? <==>
            forall i | 0 <= i < |candidates| :: Taken(candidates[i], existing)
  {
    FirstFreeIsFirst(candidates, start, 0, existing);
    if Scan(candidates, start, existing).None? {
      forall i | 0 <= i < |candidates|
        ensures Taken(candidates[i], existing)
      {
        WrapReaches(start, i, |candidates|);
        assert TakenAt(candidates, start, Wrap(i - start, |candidates|), existing);
      }
    }
  }

  /** On the way from the counter to the index, the cyclic scan comes past r. */
  predicate PassedOver(n: nat, value: int, index: int, r: int)
    requires n > 0
  {
    Wrap(r - value, n) < Wrap(index - value, n)
  }

  /** Range r is free, and everything from the counter up to it is taken. */
  ghost predicate NextFree(candidates: seq<Prefix>, value: int, existing: seq<Listed>, r: int) {
    && 0 <= r < |candidates| && !Taken(candidates[r], existing)
    && forall t | 0 <= t < |candidates| && PassedOver(|candidates|, value, r, t) :: Taken(candidates[t], existing)
  }

  lemma ScanIsNextFree(candidates: seq<Prefix>, value: int, existing: seq<Listed>, r: int)
    requires Scan(candidates, value, existing) == Some(r)
    ensures NextFree(candidates, value, existing, r)
  {
    var n, stop := |candidates|, FirstFree(candidates, value, 0, existing);
    FirstFreeIsFirst(candidates, value, 0, existing);
    WrapDistance(value, stop, n);
    forall t | 0 <= t < n && PassedOver(n, value, r, t)
      ensures Taken(candidates[t], existing)
    {
      WrapReaches(value, t, n);
      assert TakenAt(candidates, value, Wrap(t - value, n), existing);
    }
  }

  lemma OnlyOneNextFree(candidates: seq<Prefix>, value: int, existing: seq<Listed>, q: int, r: int)
    requires NextFree(candidates, value, existing, q) && NextFree(candidates, value, existing, r)
    ensures q == r
  {
    var n := |candidates|;
    WrapReaches(value, q, n);
    WrapReaches(value, r, n);
    assert !PassedOver(n, value, r, q) && !PassedOver(n, value, q, r);
  }

  /** What the scan settles on, from the counter and the listing alone: range r, if and only if r is free
      and everything from the counter up to it is taken. */
  lemma ScanIff(candidates: seq<Prefix>, value: int, existing: seq<Listed>, r: int)
    ensures Scan(candidates, value, existing) == Some(r) <==> NextFree(candidates, value, existing, r)
  {
    var found := Scan(candidates, value, existing);
    if found.Some? {
      ScanIsNextFree(candidates, value, existing, found.value);
      if NextFree(candidates, value, existing, r) {
        OnlyOneNextFree(candidates, value, existing, found.value, r);
      }
    } else {
      ExhaustedIffAllTaken(candidates, value, existing);
    }
  }

  /** `_allocate_vpc_cidr_once` from the listing to the choice. A VPC prefix that is wider than the
      supernet, like a pool without a free range, refuses the call. */
  function VpcPick(supernet: Prefix, len: nat): Pick<seq<Listed>>
    requires len <= 32
  {
    (value: int, existing: seq<Listed>) =>
      if len < supernet.len then None else Scan(Subnets(supernet, len), value, existing)
  }

  /** The loop over the candidates. */
  method ScanCandidates(candidates: seq<Prefix>, nextIndex: int, existing: seq<Listed>) returns (index: Option<int>)
    ensures index == Scan(candidates, nextIndex, existing)
    ensures index.Some? ==> 0 <= index.value < |candidates| && !Taken(candidates[index.value], existing)
    ensures index.None? ==> forall i | 0 <= i < |candidates| :: Taken(candidates[i], existing)
  {
    var offset := 0;
    while offset < |candidates|
      invariant offset <= |candidates|
      invariant FirstFree(candidates, nextIndex, 0, existing) == FirstFree(candidates, nextIndex, offset, existing)
    {
      var i := Wrap(nextIndex + offset, |candidates|);
      var conflicts := FindCidrConflicts(V4(candidates[i]), existing);
      if conflicts == [] {
        return Some(i);
      }
      offset := offset + 1;
    }
    ExhaustedIffAllTaken(candidates, nextIndex, existing);
    return None;
  }

  method PickVpcRange(supernet: Prefix, len: nat, nextIndex: int, existing: seq<Listed>)
    returns (index: Option<int>, cidr: Prefix, gateway: int)
    requires len <= 32
    ensures index == VpcPick(supernet, len)(nextIndex, existing)
    ensures index.Some? ==> supernet.len <= len && 0 <= index.value < |Subnets(supernet, len)|
    ensures index.Some? ==> cidr == Subnets(supernet, len)[index.value] && !Taken(cidr, existing)
    ensures index.Some? ==> SubnetOf(cidr, supernet) && cidr.len == len
    ensures index.Some? ==> gateway == First(cidr) + 1 && (len <= 31 ==> Contains(cidr, gateway))
    ensures index.None? && supernet.len <= len ==>
              forall i | 0 <= i < |Subnets(supernet, len)| :: Taken(Subnets(supernet, len)[i], existing)
  {
    index, cidr, gateway := None, supernet, 0;
    if len < supernet.len {
      return;
    }
    var candidates := Subnets(supernet, len);
    index := ScanCandidates(candidates, nextIndex, existing);
    if index.Some? {
      cidr := candidates[index.value];
      gateway := First(cidr) + 1;
      CandidateFits(supernet, len, cidr);
    }
  }

  // ---- The border filters

  /** BIRD's `net ~ [ supernet{len,len} ]`. */
  predicate BirdAccepts(supernet: Prefix, len: nat, net: Prefix) {
    SubnetOf(net, supernet) && len <= net.len <= len
  }

  /** FRR's `permit supernet ge len le len`. */
  predicate FrrAccepts(supernet: Prefix, len: nat, net: Prefix) {
    Contains(supernet, First(net)) && supernet.len <= net.len && net.len >= len && net.len <= len
  }

  lemma {:induction false} CandidateInside(supernet: Prefix, len: nat, net: Prefix)
    requires supernet.len <= len <= 32
    ensures net in Subnets(supernet, len) <==> net.len == len && SubnetOf(net, supernet)
    decreases len - supernet.len
  {
    if net.len == len && SubnetOf(net, supernet) && net != supernet {
      OnlyTwoHalves(net, supernet);
      SubnetIsLonger(net, supernet);
    }
    if len > supernet.len {
      CandidateInside(Half(supernet, false), len, net);
      CandidateInside(Half(supernet, true), len, net);
    } else if SubnetOf(net, supernet) {
      SubnetIsLonger(net, supernet);
    }
  }

  lemma CandidateFits(supernet: Prefix, len: nat, net: Prefix)
    requires supernet.len <= len <= 32 && net in Subnets(supernet, len)
    ensures SubnetOf(net, supernet) && net.len == len
    ensures len <= 31 ==> Size(net) >= 2
  {
    CandidateInside(supernet, len, net);
    if len <= 31 {
      Pow2Grows(0, 32 - len);
    }
  }

  /** Both border routers accept exactly the ranges that the allocator can hand out. */
  lemma BorderAcceptsThePool(supernet: Prefix, len: nat, net: Prefix)
    requires supernet.len <= len <= 32
    ensures BirdAccepts(supernet, len, net) <==> net in Subnets(supernet, len)
    ensures FrrAccepts(supernet, len, net) <==> net in Subnets(supernet, len)
  {
    CandidateInside(supernet, len, net);
    if supernet.len <= net.len {
      NestedOrDisjoint(net, supernet);
    }
  }

  // ---- When a range is handed out again

  /** How far the cyclic scans have come, counted without wrapping around. */
  function Position(n: nat, initial: Option<int>, log: seq<Write<seq<Listed>>>, k: nat): int
    requires n > 0 && k <= |log|
    decreases k
  {
    if k == 0 then (if initial.Some? then initial.value else 0) else
    var before, w := Position(n, initial, log, k - 1), log[k - 1];
    if w.Reserved? then before + Wrap(w.index - w.value, n) + 1 else before
  }

  lemma PositionStep(before: int, value: int, index: int, n: nat)
    requires n > 0 && Wrap(before, n) == Wrap(value, n)
    ensures Wrap(before + Wrap(index - value, n) + 1, n) == Wrap(index + 1, n)
  {
    WrapAdd(before, value, Wrap(index - value, n) + 1, n);
    WrapInner(index - value, value + 1, n);
  }

  /** The counter as the callers leave it: nobody deletes it or edits its value, and every
      reservation starts from the counter that it replaces. */
  ghost predicate CounterLog(initial: Option<int>, log: seq<Write<seq<Listed>>>) {
    forall k | 0 <= k < |log| :: FromCounter(At(initial, log, k), log[k])
  }

  predicate FromCounter(counter: Option<int>, w: Write<seq<Listed>>) {
    match w
    case Created(_) => counter.None?
    case Reserved(_, value, _, _) => counter == Some(value)
    case Foreign(after) => after == counter
  }

  /** Every reservation is the result of a scan. */
  ghost predicate Scanned(candidates: seq<Prefix>, log: seq<Write<seq<Listed>>>) {
    && candidates != []
    && forall k | 0 <= k < |log| && log[k].Reserved? ::
         Scan(candidates, log[k].value, log[k].listing) == Some(log[k].index)
  }

  lemma RunIsScanned(supernet: Prefix, len: nat, initial: Option<int>, log: seq<Write<seq<Listed>>>)
    requires supernet.len <= len <= 32
    requires LogOk(VpcPick(supernet, len), initial, log) && Untampered(initial, log)
    ensures CounterLog(initial, log) && Scanned(Subnets(supernet, len), log)
  {
    var pick := VpcPick(supernet, len);
    forall k | 0 <= k < |log|
      ensures FromCounter(At(initial, log, k), log[k])
      ensures log[k].Reserved? ==> pick(log[k].value, log[k].listing) == Some(log[k].index)
    {
      assert WriteOk(pick, initial, log, k);
    }
  }

  /** The position is the counter, modulo the pool. */
  lemma {:induction false} PositionIsCounter(n: nat, initial: Option<int>, log: seq<Write<seq<Listed>>>, b: nat)
    requires CounterLog(initial, log) && b <= |log| && n > 0
    ensures var counter, position := At(initial, log, b), Position(n, initial, log, b);
            if counter.Some? then Wrap(position, n) == Wrap(counter.value, n) else position == 0
    decreases b
  {
    if b > 0 {
      PositionIsCounter(n, initial, log, b - 1);
      assert FromCounter(At(initial, log, b - 1), log[b - 1]);
      if log[b - 1].Reserved? {
        PositionStep(Position(n, initial, log, b - 1), log[b - 1].value, log[b - 1].index, n);
      }
    }
  }

  /** The reservation took range r, or its scan came past r and found it taken. */
  ghost predicate Visits(candidates: seq<Prefix>, w: Write<seq<Listed>>, r: int)
    requires 0 <= r < |candidates|
  {
    && w.Reserved?
    && (w.index == r
        || (PassedOver(|candidates|, w.value, w.index, r) && Taken(candidates[r], w.listing)))
  }

  /** A scan stops at its index, and everything before that is taken. */
  lemma ScanStops(candidates: seq<Prefix>, w: Write<seq<Listed>>, stop: nat)
    requires candidates != [] && w.Reserved? && Scan(candidates, w.value, w.listing) == Some(w.index)
    requires stop == Wrap(w.index - w.value, |candidates|)
    ensures stop < |candidates| && w.index == Wrap(w.value + stop, |candidates|)
    ensures forall t | 0 <= t < stop :: TakenAt(candidates, w.value, t, w.listing)
  {
    var first := FirstFree(candidates, w.value, 0, w.listing);
    FirstFreeIsFirst(candidates, w.value, 0, w.listing);
    WrapDistance(w.value, first, |candidates|);
  }

  /** It visited every place up to there: the one t places further is r. */
  lemma ScanVisits(candidates: seq<Prefix>, w: Write<seq<Listed>>, stop: nat, t: nat, r: nat)
    requires candidates != [] && w.Reserved? && Scan(candidates, w.value, w.listing) == Some(w.index)
    requires stop == Wrap(w.index - w.value, |candidates|) && t <= stop && r == Wrap(w.value + t, |candidates|)
    ensures Visits(candidates, w, r)
  {
    ScanStops(candidates, w, stop);
    if t < stop {
      assert TakenAt(candidates, w.value, t, w.listing);
      OnTheWay(w.value, w.index, stop, t, r, |candidates|);
    }
  }

  lemma OnTheWay(value: int, index: int, stop: nat, t: nat, r: nat, n: nat)
    requires t < stop < n && stop == Wrap(index - value, n) && r == Wrap(value + t, n)
    ensures PassedOver(n, value, index, r)
  {
    WrapDistance(value, t, n);
  }

  /** A reservation visits the places between the position before it and the one after it. */
  lemma ReservationVisits(candidates: seq<Prefix>, w: Write<seq<Listed>>, before: int, q: int, r: nat)
    requires candidates != [] && w.Reserved? && Scan(candidates, w.value, w.listing) == Some(w.index)
    requires Wrap(before, |candidates|) == Wrap(w.value, |candidates|)
    requires before <= q <= before + Wrap(w.index - w.value, |candidates|) && r == Wrap(q, |candidates|)
    ensures Visits(candidates, w, r)
  {
    WrapAdd(before, w.value, q - before, |candidates|);
    ScanVisits(candidates, w, Wrap(w.index - w.value, |candidates|), q - before, r);
  }

  /** Between two positions every place of the cycle was visited: q is such a position, and r its place. */
  lemma {:induction false} Swept(candidates: seq<Prefix>, initial: Option<int>, log: seq<Write<seq<Listed>>>,
                                 i: nat, j: nat, q: int, r: nat) returns (k: nat)
    requires Scanned(candidates, log) && CounterLog(initial, log) && i <= j <= |log| && r == Wrap(q, |candidates|)
    requires Position(|candidates|, initial, log, i) <= q < Position(|candidates|, initial, log, j)
    ensures i <= k < j && Visits(candidates, log[k], r)
    decreases j
  {
    k := j - 1;
    if q < Position(|candidates|, initial, log, k) {
      k := Swept(candidates, initial, log, i, k, q, r);
    } else {
      PositionIsCounter(|candidates|, initial, log, k);
      ReservationVisits(candidates, log[k], Position(|candidates|, initial, log, k), q, r);
    }
  }

  /** Over a full cycle, that is every place there is. */
  lemma SweptAll(candidates: seq<Prefix>, initial: Option<int>, log: seq<Write<seq<Listed>>>,
                 i: nat, j: nat, r: nat) returns (k: nat)
    requires Scanned(candidates, log) && CounterLog(initial, log) && i <= j <= |log| && r < |candidates|
    requires Position(|candidates|, initial, log, i) + |candidates| <= Position(|candidates|, initial, log, j)
    ensures i <= k < j && Visits(candidates, log[k], r)
  {
    var q := NextAt(Position(|candidates|, initial, log, i), r, |candidates|);
    k := Swept(candidates, initial, log, i, j, q, r);
  }

  /** The next position from x on that is at place r. */
  lemma NextAt(x: int, r: nat, n: nat) returns (q: int)
    requires r < n
    ensures x <= q < x + n && r == Wrap(q, n)
  {
    q := x + Wrap(r - x, n);
    WrapReaches(x, r, n);
  }

  lemma {:induction false} PositionAdvances(n: nat, initial: Option<int>, log: seq<Write<seq<Listed>>>, i: nat, j: nat)
    requires n > 0 && i <= j <= |log|
    ensures Position(n, initial, log, i) <= Position(n, initial, log, j)
    decreases j
  {
    if i < j {
      PositionAdvances(n, initial, log, i, j - 1);
    }
  }

  lemma PositionAfterReserved(n: nat, initial: Option<int>, log: seq<Write<seq<Listed>>>, k: nat)
    requires CounterLog(initial, log) && k < |log| && log[k].Reserved? && n > 0
    ensures Wrap(Position(n, initial, log, k + 1), n) == Wrap(log[k].index + 1, n)
    ensures Position(n, initial, log, k) < Position(n, initial, log, k + 1)
  {
    PositionIsCounter(n, initial, log, k + 1);
  }

  /** The positions after two reservations of the same range are a full cycle apart. */
  lemma SameRangeIsFar(n: nat, initial: Option<int>, log: seq<Write<seq<Listed>>>, a: nat, b: nat)
    requires CounterLog(initial, log) && a < b < |log| && n > 0
    requires log[a].Reserved? && log[b].Reserved? && log[a].index == log[b].index
    ensures Position(n, initial, log, a + 1) + n <= Position(n, initial, log, b + 1)
  {
    PositionAfterReserved(n, initial, log, a);
    PositionAfterReserved(n, initial, log, b);
    PositionAdvances(n, initial, log, a + 1, b);
    WrapFar(Position(n, initial, log, a + 1), Position(n, initial, log, b + 1), n);
  }

  lemma SameWrap(x: int, y: int, n: nat)
    requires n > 0
    ensures Wrap(x, n) == Wrap(y, n) <==> Wrap(y - x, n) == 0
  {
    assert Wrap(0, n) == 0;
    if Wrap(x, n) == Wrap(y, n) {
      WrapAdd(x, y, -x, n);
    }
    if Wrap(y - x, n) == 0 {
      WrapAdd(y - x, 0, x, n);
    }
  }

  lemma SameIndex(i: int, j: int, n: nat)
    requires 0 <= i < n && 0 <= j < n
    ensures Wrap(i + 1, n) == Wrap(j + 1, n) <==> i == j
  {
    SameWrap(i + 1, j + 1, n);
    SameWrap(i, j, n);
  }

  /** A whole number of pool sizes; `Cyclic.WrapIsMod` says that this is a remainder of zero. */
  predicate WholeCycles(advance: int, n: nat)
    requires n > 0
  {
    Wrap(advance, n) == 0
  }

  /** Positions whose places follow those of the two indices. */
  lemma SamePlaceIff(x: int, y: int, i: int, j: int, n: nat)
    requires 0 <= i < n && 0 <= j < n && Wrap(x, n) == Wrap(i + 1, n) && Wrap(y, n) == Wrap(j + 1, n)
    ensures i == j <==> WholeCycles(y - x, n)
  {
    SameIndex(i, j, n);
    SameWrap(x, y, n);
  }

  /** From after i writes to after j, the scans advanced by a whole number of pool sizes. */
  predicate CyclesApart(n: nat, initial: Option<int>, log: seq<Write<seq<Listed>>>, i: nat, j: nat)
    requires n > 0 && i <= |log| && j <= |log|
  {
    WholeCycles(Position(n, initial, log, j) - Position(n, initial, log, i), n)
  }

  /** Two reservations are of the same range, if and only if the scans advanced by a whole number of
      pool sizes between them. */
  lemma SameRangeIff(candidates: seq<Prefix>, initial: Option<int>, log: seq<Write<seq<Listed>>>, i: nat, j: nat)
    requires Scanned(candidates, log) && CounterLog(initial, log)
    requires 0 < i < j <= |log| && log[i - 1].Reserved? && log[j - 1].Reserved?
    ensures log[i - 1].index == log[j - 1].index <==> CyclesApart(|candidates|, initial, log, i, j)
  {
    PlaceAfter(candidates, initial, log, i);
    PlaceAfter(candidates, initial, log, j);
    PlacesIff(|candidates|, initial, log, i, j, log[i - 1].index, log[j - 1].index);
  }

  /** After i writes the scans are at the place after the index. */
  predicate IsPlaceAfter(n: nat, initial: Option<int>, log: seq<Write<seq<Listed>>>, i: nat, index: int)
    requires n > 0 && i <= |log|
  {
    0 <= index < n && Wrap(Position(n, initial, log, i), n) == Wrap(index + 1, n)
  }

  lemma PlaceAfter(candidates: seq<Prefix>, initial: Option<int>, log: seq<Write<seq<Listed>>>, i: nat)
    requires Scanned(candidates, log) && CounterLog(initial, log) && 0 < i <= |log| && log[i - 1].Reserved?
    ensures IsPlaceAfter(|candidates|, initial, log, i, log[i - 1].index)
  {
    IndexInPool(candidates, log, i - 1);
    PositionAfterReserved(|candidates|, initial, log, i - 1);
  }

  lemma PlacesIff(n: nat, initial: Option<int>, log: seq<Write<seq<Listed>>>, i: nat, j: nat, a: int, b: int)
    requires n > 0 && i <= |log| && j <= |log| && IsPlaceAfter(n, initial, log, i, a) && IsPlaceAfter(n, initial, log, j, b)
    ensures a == b <==> CyclesApart(n, initial, log, i, j)
  {
    SamePlaceIff(Position(n, initial, log, i), Position(n, initial, log, j), a, b, n);
  }

  lemma IndexInPool(candidates: seq<Prefix>, log: seq<Write<seq<Listed>>>, k: nat)
    requires Scanned(candidates, log) && k < |log| && log[k].Reserved?
    ensures 0 <= log[k].index < |candidates|
  {
    assert Scan(candidates, log[k].value, log[k].listing) == Some(log[k].index);
  }

  /** The wrapping counter. If one range is handed out twice then, from the first time to the
      second, the scans handed out, or found taken, every range of the pool. */
  lemma ReuseTakesAFullCycle(candidates: seq<Prefix>, initial: Option<int>, log: seq<Write<seq<Listed>>>,
                             a: nat, b: nat, r: nat) returns (k: nat)
    requires Scanned(candidates, log) && CounterLog(initial, log) && a < b < |log| && r < |candidates|
    requires log[a].Reserved? && log[b].Reserved? && log[a].index == log[b].index
    ensures a < k <= b && Visits(candidates, log[k], r)
  {
    SameRangeIsFar(|candidates|, initial, log, a, b);
    k := SweptAll(candidates, initial, log, a + 1, b + 1, r);
  }

  /** In every interleaving: between two calls that got the same range, every range of the pool was
      handed out or found taken. */
  lemma EveryReuseIsAFullCycle(supernet: Prefix, len: nat, callers: nat, counter: Option<int>,
                               steps: seq<Step<seq<Listed>>>, c: nat, d: nat, r: nat) returns (k: nat)
    requires supernet.len <= len <= 32 && c < callers && d < callers && r < |Subnets(supernet, len)|
    requires Untampered(counter, Run(VpcPick(supernet, len), callers, counter, steps).log)
    requires var s := Run(VpcPick(supernet, len), callers, counter, steps);
             && s.phases[c].Finished? && s.phases[d].Finished?
             && s.phases[c].outcome.Allocated? && s.phases[c].outcome == s.phases[d].outcome
             && s.phases[c].until < s.phases[d].until
    ensures var s := Run(VpcPick(supernet, len), callers, counter, steps);
            && s.phases[c].until <= k < s.phases[d].until <= |s.log|
            && Visits(Subnets(supernet, len), s.log[k], r)
  {
    RunKeepsInv(VpcPick(supernet, len), callers, counter, steps);
    k := ReuseInState(supernet, len, Run(VpcPick(supernet, len), callers, counter, steps), c, d, r);
  }

  /** The call succeeded, and its reservation is in the log. */
  predicate Succeeded(s: State<seq<Listed>>, c: nat) {
    && c < |s.phases| && s.phases[c].Finished? && s.phases[c].outcome.Allocated?
    && var p := s.phases[c];
       0 < p.until <= |s.log| && s.log[p.until - 1].Reserved? && s.log[p.until - 1].index == p.outcome.index
  }

  lemma AllocatedIsReserved(pick: Pick<seq<Listed>>, s: State<seq<Listed>>, c: nat)
    requires Inv(pick, s) && c < |s.phases| && s.phases[c].Finished? && s.phases[c].outcome.Allocated?
    ensures Succeeded(s, c)
  {
    assert PhaseOk(s.initial, s.log, c, s.phases[c]);
  }

  lemma ReuseInState(supernet: Prefix, len: nat, s: State<seq<Listed>>, c: nat, d: nat, r: nat) returns (k: nat)
    requires supernet.len <= len <= 32 && c < |s.phases| && d < |s.phases| && r < |Subnets(supernet, len)|
    requires Inv(VpcPick(supernet, len), s) && Untampered(s.initial, s.log)
    requires s.phases[c].Finished? && s.phases[d].Finished?
    requires s.phases[c].outcome.Allocated? && s.phases[c].outcome == s.phases[d].outcome
    requires s.phases[c].until < s.phases[d].until
    ensures s.phases[c].until <= k < s.phases[d].until <= |s.log|
    ensures Visits(Subnets(supernet, len), s.log[k], r)
  {
    AllocatedIsReserved(VpcPick(supernet, len), s, c);
    AllocatedIsReserved(VpcPick(supernet, len), s, d);
    RunIsScanned(supernet, len, s.initial, s.log);
    k := ReuseOn(Subnets(supernet, len), s, c, d, r);
  }

  lemma ReuseOn(candidates: seq<Prefix>, s: State<seq<Listed>>, c: nat, d: nat, r: nat) returns (k: nat)
    requires Scanned(candidates, s.log) && CounterLog(s.initial, s.log) && Succeeded(s, c) && Succeeded(s, d)
    requires s.phases[c].until < s.phases[d].until && s.phases[c].outcome == s.phases[d].outcome && r < |candidates|
    ensures s.phases[c].until <= k < s.phases[d].until && Visits(candidates, s.log[k], r)
  {
    k := ReuseTakesAFullCycle(candidates, s.initial, s.log, s.phases[c].until - 1, s.phases[d].until - 1, r);
  }

  lemma ReuseIffOn(candidates: seq<Prefix>, s: State<seq<Listed>>, c: nat, d: nat)
    requires Scanned(candidates, s.log) && CounterLog(s.initial, s.log) && Succeeded(s, c) && Succeeded(s, d)
    requires s.phases[c].until < s.phases[d].until
    ensures s.phases[c].outcome == s.phases[d].outcome
            <==> CyclesApart(|candidates|, s.initial, s.log, s.phases[c].until, s.phases[d].until)
  {
    SameRangeIff(candidates, s.initial, s.log, s.phases[c].until, s.phases[d].until);
  }

  /** In every interleaving: two calls got the same range, if and only if the scans advanced by a whole
      number of pool sizes between the two. */
  lemma ReuseIsWholeCycles(supernet: Prefix, len: nat, callers: nat, counter: Option<int>, steps: seq<Step<seq<Listed>>>,
                 s: State<seq<Listed>>, c: nat, d: nat, candidates: seq<Prefix>)
    requires supernet.len <= len <= 32 && candidates == Subnets(supernet, len)
    requires s == Run(VpcPick(supernet, len), callers, counter, steps) && Untampered(counter, s.log)
    requires c < callers && s.phases[c].Finished? && s.phases[c].outcome.Allocated?
    requires d < callers && s.phases[d].Finished? && s.phases[d].outcome.Allocated? && s.phases[c].until < s.phases[d].until
    ensures s.phases[d].until <= |s.log| && candidates != []
    ensures s.phases[c].outcome == s.phases[d].outcome
            <==> CyclesApart(|candidates|, counter, s.log, s.phases[c].until, s.phases[d].until)
  {
    RunKeepsInv(VpcPick(supernet, len), callers, counter, steps);
    AllocatedIsReserved(VpcPick(supernet, len), s, c);
    AllocatedIsReserved(VpcPick(supernet, len), s, d);
    RunIsScanned(supernet, len, counter, s.log);
    ReuseIffOn(candidates, s, c, d);
  }

  /** The reservation of a call that succeeded. */
  function ReservationOf(s: State<seq<Listed>>, c: nat): Write<seq<Listed>>
    requires Succeeded(s, c)
  {
    s.log[s.phases[c].until - 1]
  }

  lemma LogIsScanned(supernet: Prefix, len: nat, initial: Option<int>, log: seq<Write<seq<Listed>>>)
    requires supernet.len <= len <= 32 && LogOk(VpcPick(supernet, len), initial, log)
    ensures Scanned(Subnets(supernet, len), log)
  {
    var pick := VpcPick(supernet, len);
    forall k | 0 <= k < |log| && log[k].Reserved?
      ensures pick(log[k].value, log[k].listing) == Some(log[k].index)
    {
      assert WriteOk(pick, initial, log, k);
    }
  }

  lemma RunSucceeded(supernet: Prefix, len: nat, callers: nat, counter: Option<int>, steps: seq<Step<seq<Listed>>>,
                     s: State<seq<Listed>>, c: nat)
    requires supernet.len <= len <= 32 && s == Run(VpcPick(supernet, len), callers, counter, steps)
    requires c < callers && s.phases[c].Finished? && s.phases[c].outcome.Allocated?
    ensures Succeeded(s, c) && Scanned(Subnets(supernet, len), s.log)
    ensures At(counter, s.log, s.phases[c].until - 1) == Some(ReservationOf(s, c).value)
  {
    var pick := VpcPick(supernet, len);
    RunKeepsInv(pick, callers, counter, steps);
    AllocatedIsReserved(pick, s, c);
    LogIsScanned(supernet, len, counter, s.log);
    CounterWasRead(pick, s, c);
  }

  lemma CounterWasRead(pick: Pick<seq<Listed>>, s: State<seq<Listed>>, c: nat)
    requires Inv(pick, s) && Succeeded(s, c)
    ensures At(s.initial, s.log, s.phases[c].until - 1) == Some(ReservationOf(s, c).value)
  {
    assert WriteOk(pick, s.initial, s.log, s.phases[c].until - 1);
  }

  /** In every interleaving, whoever edits the counter: call d gets the range of call c, if and only if in
      the listing of d that range is free and every range from the counter that d read up to it is
      taken. */
  lemma ReuseIff(supernet: Prefix, len: nat, callers: nat, counter: Option<int>, steps: seq<Step<seq<Listed>>>,
                 s: State<seq<Listed>>, c: nat, d: nat, candidates: seq<Prefix>)
    requires supernet.len <= len <= 32 && candidates == Subnets(supernet, len)
    requires s == Run(VpcPick(supernet, len), callers, counter, steps)
    requires c < callers && s.phases[c].Finished? && s.phases[c].outcome.Allocated?
    requires d < callers && s.phases[d].Finished? && s.phases[d].outcome.Allocated?
    ensures Succeeded(s, d) && At(counter, s.log, s.phases[d].until - 1) == Some(ReservationOf(s, d).value)
    ensures s.phases[d].outcome == s.phases[c].outcome
            <==> NextFree(candidates, ReservationOf(s, d).value, ReservationOf(s, d).listing, s.phases[c].outcome.index)
  {
    RunSucceeded(supernet, len, callers, counter, steps, s, d);
    GetsIff(candidates, s, d, s.phases[c].outcome);
  }

  lemma GetsIff(candidates: seq<Prefix>, s: State<seq<Listed>>, d: nat, outcome: Outcome)
    requires Scanned(candidates, s.log) && Succeeded(s, d) && outcome.Allocated?
    ensures s.phases[d].outcome == outcome
            <==> NextFree(candidates, ReservationOf(s, d).value, ReservationOf(s, d).listing, outcome.index)
  {
    ReservedIff(candidates, s.log, s.phases[d].until - 1, outcome.index);
  }

  lemma ReservedIff(candidates: seq<Prefix>, log: seq<Write<seq<Listed>>>, k: nat, r: int)
    requires Scanned(candidates, log) && k < |log| && log[k].Reserved?
    ensures log[k].index == r <==> NextFree(candidates, log[k].value, log[k].listing, r)
  {
    ScanIff(candidates, log[k].value, log[k].listing, r);
  }

  /** The listing that call d saw shows a subnet in the range of call c. */
  ghost predicate SeesRange(candidates: seq<Prefix>, s: State<seq<Listed>>, c: nat, d: nat)
    requires Succeeded(s, c) && Succeeded(s, d)
  {
    0 <= s.phases[c].outcome.index < |candidates|
    && Taken(candidates[s.phases[c].outcome.index], ReservationOf(s, d).listing)
  }

  /** In every interleaving: no range is handed out twice, and no two overlap, as long as the listing of the
      later call shows the range of the earlier one. */
  lemma NoRangeTwiceWhileListed(supernet: Prefix, len: nat, callers: nat, counter: Option<int>, steps: seq<Step<seq<Listed>>>,
                                s: State<seq<Listed>>, c: nat, d: nat, candidates: seq<Prefix>)
    requires supernet.len <= len <= 32 && candidates == Subnets(supernet, len)
    requires s == Run(VpcPick(supernet, len), callers, counter, steps)
    requires Succeeded(s, c) && c < callers && Succeeded(s, d) && d < callers && SeesRange(candidates, s, c, d)
    ensures var i, j := s.phases[c].outcome.index, s.phases[d].outcome.index;
            0 <= j < |candidates| && i != j && !Overlaps(candidates[i], candidates[j])
  {
    RunSucceeded(supernet, len, callers, counter, steps, s, d);
    GetsAnother(candidates, s, c, d);
    CandidatesApart(supernet, len, candidates, s.phases[c].outcome.index, s.phases[d].outcome.index);
  }

  lemma GetsAnother(candidates: seq<Prefix>, s: State<seq<Listed>>, c: nat, d: nat)
    requires Scanned(candidates, s.log) && Succeeded(s, c) && Succeeded(s, d) && SeesRange(candidates, s, c, d)
    ensures 0 <= s.phases[d].outcome.index < |candidates| && s.phases[d].outcome.index != s.phases[c].outcome.index
  {
    GetsIff(candidates, s, d, s.phases[d].outcome);
  }

  lemma CandidatesApart(supernet: Prefix, len: nat, candidates: seq<Prefix>, i: nat, j: nat)
    requires supernet.len <= len <= 32 && candidates == Subnets(supernet, len)
    requires i < |candidates| && j < |candidates| && i != j
    ensures !Overlaps(candidates[i], candidates[j])
  {
    SubnetsTile(supernet, len);
    if i < j {
      TilesAscend(candidates, First(supernet), Last(supernet), i, j);
    } else {
      TilesAscend(candidates, First(supernet), Last(supernet), j, i);
    }
  }

  /** Two successive reservations differ, unless the second one found all other ranges taken. */
  lemma SuccessiveRangesDiffer(candidates: seq<Prefix>, initial: Option<int>, log: seq<Write<seq<Listed>>>, a: nat, b: nat)
    requires Scanned(candidates, log) && CounterLog(initial, log) && a < b < |log|
    requires log[a].Reserved? && log[b].Reserved? && forall k | a < k < b :: !log[k].Reserved?
    ensures log[a].index == log[b].index ==>
              forall r | 0 <= r < |candidates| && r != log[b].index :: Taken(candidates[r], log[b].listing)
  {
    if log[a].index == log[b].index {
      forall r | 0 <= r < |candidates| && r != log[b].index
        ensures Taken(candidates[r], log[b].listing)
      {
        var k := ReuseTakesAFullCycle(candidates, initial, log, a, b, r);
      }
    }
  }

  // ---- A range that is handed out twice

  lemma OneRangePool(supernet: Prefix)
    ensures VpcPick(supernet, supernet.len)(0, []) == Some(0) == VpcPick(supernet, supernet.len)(1, [])
  {
    var candidates := Subnets(supernet, supernet.len);
    assert |candidates| == 1;
    assert Wrap(1, 1) == 0 && Wrap(0, 1) == 0;
    assert FirstFree(candidates, 0, 0, []) == 0 && FirstFree(candidates, 1, 0, []) == 0;
  }

  /** A pool of one range, and listings that do not show it yet: both calls get it. */
  lemma RangeHandedOutTwice(supernet: Prefix)
    ensures var s := Run(VpcPick(supernet, supernet.len), 2, None, OneAfterTheOther([]));
            && s.phases[0].Finished? && s.phases[0].outcome == Allocated(0)
            && s.phases[1].Finished? && s.phases[1].outcome == Allocated(0)
            && Untampered(None, s.log)
  {
    OneRangePool(supernet);
    TwoAllocations(VpcPick(supernet, supernet.len), [], 0, 0);
  }
}
