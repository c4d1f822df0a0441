/**
  What any run of `ensure_transit_acls` and `remove_tenant_transit` makes of an ACL list that was
  empty at the start. First, editing the text of the rules is the same as editing a list of typed
  rules; then the typed list is characterized exactly, and with it the packets that pass.
 */
module TransitRuns {
  import opened Options
  import opened Lists
  import opened Ipv4
  import opened Text
  import opened TransitRanges
  import opened TransitAcl

  // ---- The same edits on typed rules

  function TypedStale(call: Call, ms: seq<Match>): seq<Match> {
    if call.Remove? || call.live.None? then ms
    else Filter(ms, (m: Match) => m.SourceIn? || Dotted(m.src) in call.live.value + {Dotted(call.eip)})
  }

  function TypedDeny(deny: Match, ms: seq<Match>): seq<Match> {
    if exists m <- ms :: m.SourceIn? then ms else ms + [deny]
  }

  function TypedBase(subnet: Option<Subnet>, ms: seq<Match>): seq<Match> {
    if subnet.None? then ms else TypedDeny(DenyOf(subnet.value), ms)
  }

  function DenyOf(subnet: Subnet): (m: Match)
    ensures m.SourceIn? && m.ranges != []
  {
    Deny(subnet.network, subnet.excludeIps)
  }

  function TypedAdd(wanted: seq<Match>, ms: seq<Match>): seq<Match> {
    ms + Filter(wanted, (m: Match) => m !in ms)
  }

  function TypedAfter(subnet: Option<Subnet>, call: Call, ms: seq<Match>): seq<Match> {
    match call
    case Ensure(_, _, _, _, _) =>
      if !Effective(call) then ms
      else TypedAdd(Asked(call), TypedBase(subnet, TypedStale(call, ms)))
    case Remove(eip) => Filter(ms, (m: Match) => m.SourceIn? || m.src != eip)
  }

  function TypedRun(commits: seq<Commit>): seq<Match> {
    if commits == [] then []
    else
      var last := commits[|commits| - 1];
      TypedAfter(last.subnet, last.call, TypedRun(commits[..|commits| - 1]))
  }

  predicate AllWellFormed(ms: seq<Match>) {
    forall m <- ms :: WellFormed(m)
  }

  lemma {:induction false} FilterRules(ms: seq<Match>, keep: Match -> bool, keepRule: Acl -> bool)
    requires forall m <- ms :: keepRule(RuleOf(m)) == keep(m)
    ensures Filter(Rules(ms), keepRule) == Rules(Filter(ms, keep))
  {
    if ms == [] {
      assert Rules(ms) == [];
    } else {
      var front, m := ms[..|ms| - 1], ms[|ms| - 1];
      FilterRules(front, keep, keepRule);
      assert Rules(ms)[..|ms| - 1] == Rules(front);
      RulesConcat(Filter(front, keep), [m]);
    }
  }

  lemma RuleUnique(m: Match, m': Match)
    requires WellFormed(m) && WellFormed(m') && RuleOf(m) == RuleOf(m')
    ensures m == m'
  {
    PrintUnique(m, m');
  }

  lemma RuleInRules(m: Match, ms: seq<Match>)
    requires WellFormed(m) && AllWellFormed(ms)
    ensures RuleOf(m) in Rules(ms) <==> m in ms
  {
    RulesElements(ms, RuleOf(m));
    forall i | 0 <= i < |ms| && RuleOf(m) == RuleOf(ms[i])
      ensures m == ms[i]
    {
      assert ms[i] in ms;
      RuleUnique(m, ms[i]);
    }
  }

  lemma StaleRefines(call: Call, ms: seq<Match>)
    requires call.Ensure?
    ensures DropStale(call, Rules(ms)) == Rules(TypedStale(call, ms))
  {
    if call.live.Some? {
      var live := call.live.value + {Dotted(call.eip)};
      forall m <- ms
        ensures IsLive(RuleOf(m), live) == (m.SourceIn? || Dotted(m.src) in live)
      {
        if m.Flow? { FlowIsLive(m, live); }
      }
      FilterRules(ms, (m: Match) => m.SourceIn? || Dotted(m.src) in live, (a: Acl) => IsLive(a, live));
    }
  }

  lemma DenyRefines(deny: Match, ms: seq<Match>)
    requires deny.SourceIn?
    ensures AddDeny(RuleOf(deny), Rules(ms)) == Rules(TypedDeny(deny, ms))
  {
    if i :| 0 <= i < |ms| && ms[i].SourceIn? {
      assert IsDeny(Rules(ms)[i]) && Rules(ms)[i] in Rules(ms);
    } else {
      forall i | 0 <= i < |ms| ensures !IsDeny(Rules(ms)[i]) { assert ms[i] in ms; }
    }
    RulesConcat(ms, [deny]);
  }

  lemma AddRefines(wanted: seq<Match>, ms: seq<Match>)
    requires AllWellFormed(wanted) && AllWellFormed(ms)
    ensures AddWanted(Rules(wanted), Rules(ms)) == Rules(TypedAdd(wanted, ms))
  {
    forall m <- wanted {
      RuleInRules(m, ms);
    }
    FilterRules(wanted, (m: Match) => m !in ms, (a: Acl) => a !in Rules(ms));
    RulesConcat(ms, Filter(wanted, (m: Match) => m !in ms));
  }

  lemma RemoveRefines(eip: Addr, ms: seq<Match>)
    requires AllWellFormed(ms)
    ensures Filter(Rules(ms), (a: Acl) => !Occurs(Needle(eip), a.expr)) ==
            Rules(Filter(ms, (m: Match) => m.SourceIn? || m.src != eip))
  {
    forall m <- ms
      ensures !Occurs(Needle(eip), RuleOf(m).expr) == (m.SourceIn? || m.src != eip)
    {
      OccursIsSource(eip, m);
    }
    FilterRules(ms, (m: Match) => m.SourceIn? || m.src != eip, (a: Acl) => !Occurs(Needle(eip), a.expr));
  }

  lemma BaseRefines(subnet: Option<Subnet>, ms: seq<Match>)
    ensures AddBase(subnet, Rules(ms)) == Rules(TypedBase(subnet, ms))
    ensures AllWellFormed(ms) ==> AllWellFormed(TypedBase(subnet, ms))
  {
    if subnet.Some? {
      DenyRefines(DenyOf(subnet.value), ms);
    }
  }

  /** Editing the text is editing the rules. */
  lemma CallRefines(subnet: Option<Subnet>, call: Call, ms: seq<Match>)
    requires AllWellFormed(ms)
    ensures After(subnet, call, Rules(ms)) == Rules(TypedAfter(subnet, call, ms))
  {
    match call
    case Remove(eip) => RemoveRefines(eip, ms);
    case Ensure(_, _, _, _, _) =>
      StaleRefines(call, ms);
      StaleElements(call, ms);
      BaseRefines(subnet, TypedStale(call, ms));
      AddRefines(Asked(call), TypedBase(subnet, TypedStale(call, ms)));
  }

  lemma StaleElements(call: Call, ms: seq<Match>)
    ensures forall m <- TypedStale(call, ms) :: m in ms
  {
    if call.Ensure? && call.live.Some? {
      forall m: Match {
        FilterElements(ms, (m: Match) => m.SourceIn? || Dotted(m.src) in call.live.value + {Dotted(call.eip)}, m);
      }
    }
  }

  // ---- What is in the list after a run

  /** A call that takes the allows of an address away: it names the address, or it could read the
      EIPs and did not find it. */
  predicate Drops(call: Call, src: Addr) {
    match call
    case Remove(eip) => eip == src
    case Ensure(eip, _, _, _, live) =>
      Effective(call) && live.Some? && Dotted(src) !in live.value + {Dotted(eip)}
  }

  lemma FlowAfter(subnet: Option<Subnet>, call: Call, ms: seq<Match>, m: Match)
    requires m.Flow?
    ensures m in TypedAfter(subnet, call, ms) <==> m in Asked(call) || (m in ms && !Drops(call, m.src))
  {
    match call
    case Remove(eip) => FilterElements(ms, (m: Match) => m.SourceIn? || m.src != eip, m);
    case Ensure(_, _, _, _, _) =>
      if Effective(call) {
        var base := TypedBase(subnet, TypedStale(call, ms));
        FilterElements(Asked(call), (m: Match) => m !in base, m);
        if call.live.Some? {
          FilterElements(ms, (m: Match) => m.SourceIn? || Dotted(m.src) in call.live.value + {Dotted(call.eip)}, m);
        }
      }
  }

  /** Some call asked for the flow, and no later call dropped its source. */
  ghost predicate Granted(commits: seq<Commit>, m: Match)
    requires m.Flow?
  {
    exists i | 0 <= i < |commits| :: m in Asked(commits[i].call) && KeptSince(commits, i, m.src)
  }

  ghost predicate KeptSince(commits: seq<Commit>, i: nat, src: Addr) {
    forall j | i < j < |commits| :: !Drops(commits[j].call, src)
  }

  lemma GrantedStays(before: seq<Commit>, c: Commit, m: Match)
    requires m.Flow? && Granted(before, m) && !Drops(c.call, m.src)
    ensures Granted(before + [c], m)
  {
    var i :| 0 <= i < |before| && m in Asked(before[i].call) && KeptSince(before, i, m.src);
    var commits := before + [c];
    assert KeptSince(commits, i, m.src);
    assert commits[i] == before[i];
  }

  lemma GrantedNow(before: seq<Commit>, c: Commit, m: Match)
    requires m.Flow? && m in Asked(c.call)
    ensures Granted(before + [c], m)
  {
    var commits := before + [c];
    assert KeptSince(commits, |before|, m.src);
    assert commits[|before|] == c;
  }

  lemma GrantedSoFar(before: seq<Commit>, c: Commit, m: Match)
    requires m.Flow? && Granted(before + [c], m) && m !in Asked(c.call)
    ensures Granted(before, m) && !Drops(c.call, m.src)
  {
    var commits := before + [c];
    var i :| 0 <= i < |commits| && m in Asked(commits[i].call) && KeptSince(commits, i, m.src);
    assert commits[|before|] == c;
    assert i < |before| && before[i] == commits[i];
    assert forall j | i < j < |before| :: commits[j] == before[j];
    assert KeptSince(before, i, m.src);
  }

  lemma GrantedLast(before: seq<Commit>, c: Commit, m: Match)
    requires m.Flow?
    ensures Granted(before + [c], m) <==> m in Asked(c.call) || (Granted(before, m) && !Drops(c.call, m.src))
  {
    if m in Asked(c.call) {
      GrantedNow(before, c, m);
    } else if Granted(before, m) && !Drops(c.call, m.src) {
      GrantedStays(before, c, m);
    } else if Granted(before + [c], m) {
      GrantedSoFar(before, c, m);
    }
  }

  lemma TypedRunLast(before: seq<Commit>, c: Commit)
    ensures TypedRun(before + [c]) == TypedAfter(c.subnet, c.call, TypedRun(before))
  {
    assert (before + [c])[..|before|] == before;
  }

  lemma FlowsStep(before: seq<Commit>, c: Commit, m: Match)
    requires m.Flow? && (m in TypedRun(before) <==> Granted(before, m))
    ensures m in TypedRun(before + [c]) <==> Granted(before + [c], m)
  {
    TypedRunLast(before, c);
    FlowAfter(c.subnet, c.call, TypedRun(before), m);
    GrantedLast(before, c, m);
  }

  /** The flows in the list are exactly the granted ones. */
  lemma {:induction false} FlowsAreGranted(commits: seq<Commit>, m: Match)
    requires m.Flow?
    ensures m in TypedRun(commits) <==> Granted(commits, m)
  {
    if commits != [] {
      var before, last := commits[..|commits| - 1], commits[|commits| - 1];
      assert commits == before + [last];
      FlowsAreGranted(before, m);
      FlowsStep(before, last, m);
    }
  }

  // ---- The deny in force

  /** The commit asks for something and reads a subnet with a CIDR. */
  predicate Founds(c: Commit) {
    Effective(c.call) && c.subnet.Some?
  }

  /** The subnet as the first such commit read it. */
  function Founding(commits: seq<Commit>): Option<Subnet> {
    if commits == [] then None
    else
      var before, last := Founding(commits[..|commits| - 1]), commits[|commits| - 1];
      if before.Some? then before else if Founds(last) then last.subnet else None
  }

  lemma FoundingLast(before: seq<Commit>, c: Commit)
    ensures Founding(before + [c]) == if Founding(before).Some? then Founding(before) else if Founds(c) then c.subnet else None
  {
    assert (before + [c])[..|before|] == before;
  }

  ghost predicate IsFirst(commits: seq<Commit>, k: nat) {
    k < |commits| && Founds(commits[k]) && forall j | 0 <= j < k :: !Founds(commits[j])
  }

  ghost predicate NoneFounds(commits: seq<Commit>) {
    forall j | 0 <= j < |commits| :: !Founds(commits[j])
  }

  /** The founding subnet is what commit k read, and k is the first commit that asks for anything and
      reads a subnet with a CIDR; or there is no such commit. */
  ghost predicate FoundedBy(commits: seq<Commit>, founding: Option<Subnet>) {
    if founding.None? then NoneFounds(commits)
    else exists k: nat :: IsFirst(commits, k) && commits[k].subnet == founding
  }

  lemma FoundedLater(before: seq<Commit>, c: Commit, founding: Option<Subnet>)
    requires founding.Some? && FoundedBy(before, founding)
    ensures FoundedBy(before + [c], founding)
  {
    var k: nat :| IsFirst(before, k) && before[k].subnet == founding;
    var commits := before + [c];
    assert commits[k] == before[k] && forall j | 0 <= j < k :: commits[j] == before[j];
    assert IsFirst(commits, k);
  }

  lemma FoundedNow(before: seq<Commit>, c: Commit)
    requires NoneFounds(before)
    ensures FoundedBy(before + [c], if Founds(c) then c.subnet else None)
  {
    var commits := before + [c];
    assert commits[|before|] == c && forall j | 0 <= j < |before| :: commits[j] == before[j];
    if Founds(c) {
      assert IsFirst(commits, |before|);
    }
  }

  lemma {:induction false} FoundingIsFirst(commits: seq<Commit>)
    ensures FoundedBy(commits, Founding(commits))
  {
    if commits != [] {
      var before, last := commits[..|commits| - 1], commits[|commits| - 1];
      assert commits == before + [last];
      FoundingIsFirst(before);
      FoundingLast(before, last);
      if Founding(before).Some? {
        FoundedLater(before, last, Founding(before));
      } else {
        FoundedNow(before, last);
      }
    }
  }

  /** The denies of the list, of whatever range. */
  function Denies(ms: seq<Match>): seq<Match> {
    Filter(ms, (m: Match) => m.SourceIn?)
  }

  lemma StaleDenies(call: Call, ms: seq<Match>)
    ensures Denies(TypedStale(call, ms)) == Denies(ms)
  {
    if call.Ensure? && call.live.Some? {
      FilterKeeps(ms, (m: Match) => m.SourceIn? || Dotted(m.src) in call.live.value + {Dotted(call.eip)}, (m: Match) => m.SourceIn?);
    }
  }

  lemma DeniesAfter(c: Commit, ms: seq<Match>)
    ensures Denies(TypedAfter(c.subnet, c.call, ms)) == if Founds(c) && Denies(ms) == [] then [DenyOf(c.subnet.value)] else Denies(ms)
  {
    match c.call
    case Remove(eip) => FilterKeeps(ms, (m: Match) => m.SourceIn? || m.src != eip, (m: Match) => m.SourceIn?);
    case Ensure(_, _, _, _, _) =>
      if Effective(c.call) {
        StaleDenies(c.call, ms);
        if c.subnet.Some? {
          AddedDenies(TypedStale(c.call, ms), DenyOf(c.subnet.value));
        }
        AddedFlows(Asked(c.call), TypedBase(c.subnet, TypedStale(c.call, ms)));
      }
  }

  lemma AddedDenies(ms: seq<Match>, deny: Match)
    requires deny.SourceIn?
    ensures Denies(TypedDeny(deny, ms)) == if Denies(ms) == [] then [deny] else Denies(ms)
  {
    var isDeny := (m: Match) => m.SourceIn?;
    FilterConcat(ms, [deny], isDeny);
    assert Filter([deny], isDeny) == [deny];
    if m :| m in ms && m.SourceIn? {
      FilterElements(ms, isDeny, m);
    } else {
      FilterNone(ms, isDeny);
    }
  }

  lemma AddedFlows(wanted: seq<Match>, ms: seq<Match>)
    requires forall m <- wanted :: m.Flow?
    ensures Denies(TypedAdd(wanted, ms)) == Denies(ms)
  {
    var isDeny, added := (m: Match) => m.SourceIn?, Filter(wanted, (m: Match) => m !in ms);
    FilterConcat(ms, added, isDeny);
    forall m <- added ensures m.Flow? { FilterElements(wanted, (m: Match) => m !in ms, m); }
    FilterNone(added, isDeny);
  }

  /** All denies of the list: that of the founding commit. */
  ghost predicate DeniesAre(commits: seq<Commit>) {
    Denies(TypedRun(commits)) == TheDeny(Founding(commits))
  }

  function TheDeny(founding: Option<Subnet>): seq<Match> {
    if founding.Some? then [DenyOf(founding.value)] else []
  }

  lemma OneDenyStep(before: seq<Commit>, c: Commit)
    requires DeniesAre(before)
    ensures DeniesAre(before + [c])
  {
    TypedRunLast(before, c);
    DeniesAfter(c, TypedRun(before));
    FoundingLast(before, c);
  }

  /** The list has one deny, from the first commit on that asks for anything and reads a subnet with a
      CIDR: the deny of that subnet as that commit read it. No call removes, repeats or replaces it,
      whatever becomes of the subnet. */
  lemma {:induction false} OneDeny(commits: seq<Commit>)
    ensures DeniesAre(commits)
  {
    if commits == [] {
      NoDenies();
    } else {
      var before, last := commits[..|commits| - 1], commits[|commits| - 1];
      assert commits == before + [last];
      OneDeny(before);
      OneDenyStep(before, last);
    }
  }

  lemma NoDenies()
    ensures DeniesAre([])
  {
    assert Denies([]) == [];
  }

  lemma {:induction false} RunIsTyped(commits: seq<Commit>)
    ensures AfterRun(commits) == Rules(TypedRun(commits))
    ensures AllWellFormed(TypedRun(commits))
  {
    if commits != [] {
      var last := commits[|commits| - 1];
      RunIsTyped(commits[..|commits| - 1]);
      CallRefines(last.subnet, last.call, TypedRun(commits[..|commits| - 1]));
    }
    OneDeny(commits);
    DeniesElements(TypedRun(commits), Founding(commits));
  }

  // ---- What passes

  /** The rule is one for packets that enter, with a verdict that OVN knows, and matches the packet. */
  predicate Applies(a: Acl, p: Packet) {
    a.direction == "from-lport" && a.action in {"allow", "allow-related", "drop"} && Matches(a.expr, p)
  }

  /** The applicable rule with the highest priority decides; without one the packet passes. */
  ghost predicate Dropped(acls: seq<Acl>, p: Packet) {
    exists i | 0 <= i < |acls| ::
      && acls[i].action == "drop"
      && Applies(acls[i], p)
      && forall j | 0 <= j < |acls| && Applies(acls[j], p) :: acls[j].priority <= acls[i].priority
  }

  ghost predicate Passes(acls: seq<Acl>, p: Packet) {
    !Dropped(acls, p)
  }

  function FlowOf(p: Packet): Match {
    Flow(p.src, p.dst, p.proto, p.port)
  }

  lemma RuleMatches(ms: seq<Match>, p: Packet, i: nat)
    requires AllWellFormed(ms) && i < |ms|
    ensures Applies(Rules(ms)[i], p) <==> Eval(ms[i], p)
    ensures Rules(ms)[i].action == "drop" <==> ms[i].SourceIn?
    ensures Rules(ms)[i].priority == if ms[i].Flow? then ALLOW_PRIORITY else DENY_PRIORITY
  {
    assert ms[i] in ms;
    MatchesPrinted(ms[i], p);
  }

  /** On typed rules: a packet is dropped when a deny covers its source and no allow is for it. */
  lemma DroppedTyped(ms: seq<Match>, p: Packet)
    requires AllWellFormed(ms)
    ensures Dropped(Rules(ms), p) <==>
            FlowOf(p) !in ms && exists i | 0 <= i < |ms| :: ms[i].SourceIn? && Covers(ms[i].ranges, p.src)
  {
    var acls := Rules(ms);
    forall i | 0 <= i < |ms| {
      RuleMatches(ms, p, i);
    }
    if FlowOf(p) in ms {
      var k :| 0 <= k < |ms| && ms[k] == FlowOf(p);
      assert Applies(acls[k], p) && acls[k].priority == ALLOW_PRIORITY;
    } else if i :| 0 <= i < |ms| && ms[i].SourceIn? && Covers(ms[i].ranges, p.src) {
      assert acls[i].action == "drop" && Applies(acls[i], p);
      forall j | 0 <= j < |acls| && Applies(acls[j], p)
        ensures acls[j].priority <= acls[i].priority
      {
        assert ms[j] in ms;
      }
    }
  }

  /** In every state that calls reach from an empty list: a packet passes if and only if some call
      asked for exactly its source, VIP, protocol and port and no later call dropped that source, or
      there is no deny yet, or its source is out of the scope of the deny, which is that of the subnet
      as the founding commit read it. */
  lemma PassesIffGranted(commits: seq<Commit>, p: Packet)
    ensures Passes(AfterRun(commits), p) <==> Granted(commits, FlowOf(p)) || !InScope(Founding(commits), p.src)
  {
    var ms := TypedRun(commits);
    RunIsTyped(commits);
    DroppedTyped(ms, p);
    FlowsAreGranted(commits, FlowOf(p));
    OneDeny(commits);
    DeniesElements(ms, Founding(commits));
  }

  /** The address is in the scope of the deny. */
  ghost predicate InScope(founding: Option<Subnet>, a: Addr) {
    founding.Some? && Covers(DenyRanges(founding.value.network, founding.value.excludeIps), a)
  }

  /** The denies in a list whose denies are known. */
  lemma DeniesElements(ms: seq<Match>, founding: Option<Subnet>)
    requires Denies(ms) == TheDeny(founding)
    ensures forall i | 0 <= i < |ms| && ms[i].SourceIn? :: founding.Some? && ms[i] == DenyOf(founding.value)
    ensures founding.Some? ==> DenyOf(founding.value) in ms
  {
    forall i | 0 <= i < |ms| && ms[i].SourceIn?
      ensures founding.Some? && ms[i] == DenyOf(founding.value)
    {
      FilterElements(ms, (m: Match) => m.SourceIn?, ms[i]);
      assert ms[i] in Denies(ms);
    }
    if founding.Some? {
      FilterElements(ms, (m: Match) => m.SourceIn?, DenyOf(founding.value));
      assert DenyOf(founding.value) in Denies(ms);
    }
  }

  /** In the terms of the subnet as the founding commit read it: an address that kube-ovn may hand out
      gets through if and only if it has a grant, and an excluded one always, unless the exclusions
      leave nothing to hand out. */
  lemma TenantIsConfined(commits: seq<Commit>, p: Packet)
    requires Founding(commits).Some?
    ensures var subnet := Founding(commits).value;
            && (Allocatable(subnet.network, subnet.excludeIps, p.src) ==>
                  (Passes(AfterRun(commits), p) <==> Granted(commits, FlowOf(p))))
            && (!Allocatable(subnet.network, subnet.excludeIps, p.src)
                && (exists a: int :: Allocatable(subnet.network, subnet.excludeIps, a))
                ==> Passes(AfterRun(commits), p))
  {
    PassesIffGranted(commits, p);
    DenyScope(Founding(commits).value.network, Founding(commits).value.excludeIps, p.src);
  }
}
