/**
  Which VPC prefixes are announced and from which nodes, and the FRRConfiguration that says so
  (b3_announce.py). Listings come in any order, or fail; the configuration must not depend on that.
 */
module Announce {
  import opened Options
  import opened Ipv4
  import opened Lists
  import opened Sorting
  import opened Json
  import opened Frr

  datatype EipItem = EipItem(name: string, kind: Option<string>, externalSubnet: Option<string>, v4Ip: Option<string>)

  datatype SubnetItem = SubnetItem(name: string, vpc: Option<string>, cidrBlock: Option<string>)

  /** A static route; the next hop as `ip_address` parses it. */
  datatype Route = Route(cidr: Option<string>, nextHop: Option<Addr>)

  datatype VpcItem = VpcItem(name: string, routes: seq<Route>)

  datatype Node = Node(name: string, controlPlane: bool, conditions: seq<(string, string)>)

  /** What the API lists; None where a listing fails. */
  datatype Cluster = Cluster(eips: Option<seq<EipItem>>, subnets: Option<seq<SubnetItem>>,
                             vpcs: Option<seq<VpcItem>>, nodes: Option<seq<Node>>)

  /** The environment, and `ip_network(_, strict=False)`. */
  datatype Settings = Settings(external: string, explicitNodes: seq<string>, replicas: nat, session: Session,
                               parse: string -> Option<Prefix>)

  // ---- collect_announcements

  /** The CIDR of the last listed subnet with this name. */
  function ExternalCidr(subnets: seq<SubnetItem>, external: string): string {
    if subnets == [] then ""
    else if subnets[|subnets| - 1].name == external then OrEmpty(subnets[|subnets| - 1].cidrBlock)
    else ExternalCidr(subnets[..|subnets| - 1], external)
  }

  predicate DefaultInto(r: Route, net: Prefix) {
    r.cidr == Some("0.0.0.0/0") && r.nextHop.Some? && Contains(net, r.nextHop.value)
  }

  predicate RoutesInto(v: VpcItem, net: Prefix) {
    exists r <- v.routes :: DefaultInto(r, net)
  }

  function RoutedIn(vpcs: seq<VpcItem>, net: Prefix): set<string> {
    set v | v in vpcs && RoutesInto(v, net) :: v.name
  }

  /** `_vpcs_routed_via` */
  function Routed(vpcs: Option<seq<VpcItem>>, net: Option<Prefix>): set<string> {
    if net.None? || vpcs.None? then {} else RoutedIn(vpcs.value, net.value)
  }

  predicate EndsWith(s: string, suffix: string) {
    |suffix| <= |s| && s[|s| - |suffix|..] == suffix
  }

  /** The VPC of a leg, from the name of its EIP. */
  function LegVpc(name: string, external: string): string {
    if EndsWith(name, "-" + external) then name[..|name| - |"-" + external|] else ""
  }

  predicate IsLeg(e: EipItem, external: string, routed: set<string>) {
    && e.kind == Some("lrp") && e.externalSubnet == Some(external)
    && OrEmpty(e.v4Ip) != ""
    && LegVpc(e.name, external) != "" && LegVpc(e.name, external) in routed
  }

  function Legs(eips: seq<EipItem>, external: string, routed: set<string>): map<string, string> {
    if eips == [] then map[]
    else
      var legs, e := Legs(eips[..|eips| - 1], external, routed), eips[|eips| - 1];
      if IsLeg(e, external, routed) then legs[LegVpc(e.name, external) := OrEmpty(e.v4Ip)] else legs
  }

  function AnnouncementOf(legs: map<string, string>, s: SubnetItem): Option<Announcement> {
    if s.vpc.Some? && s.vpc.value in legs && OrEmpty(s.cidrBlock) != "" then
      Some(Announcement(s.vpc.value, s.cidrBlock.value, legs[s.vpc.value]))
    else None
  }

  function Collected(subnets: seq<SubnetItem>, legs: map<string, string>): seq<Announcement> {
    Gather(subnets, (s: SubnetItem) => AnnouncementOf(legs, s))
  }

  function LegsOf(c: Cluster, env: Settings): map<string, string>
    requires c.eips.Some? && c.subnets.Some?
  {
    Legs(c.eips.value, env.external, Routed(c.vpcs, env.parse(ExternalCidr(c.subnets.value, env.external))))
  }

  function Announcements(c: Cluster, env: Settings): seq<Announcement> {
    if c.eips.None? || c.subnets.None? || ExternalCidr(c.subnets.value, env.external) == "" then []
    else Collected(c.subnets.value, LegsOf(c, env))
  }

  // ---- Who is announced

  ghost predicate UniqueEips(s: seq<EipItem>) {
    forall x, y | x in s && y in s && x.name == y.name :: x == y
  }

  ghost predicate UniqueSubnets(s: seq<SubnetItem>) {
    forall x, y | x in s && y in s && x.name == y.name :: x == y
  }

  ghost predicate UniqueNames(c: Cluster) {
    && (c.eips.Some? ==> UniqueEips(c.eips.value))
    && (c.subnets.Some? ==> UniqueSubnets(c.subnets.value))
  }

  lemma SameLegSameName(a: string, b: string, external: string)
    requires LegVpc(a, external) == LegVpc(b, external) != ""
    ensures a == b
  {
    var suffix := "-" + external;
    assert a == a[..|a| - |suffix|] + suffix && b == b[..|b| - |suffix|] + suffix;
  }

  ghost predicate IsLegOf(e: EipItem, external: string, routed: set<string>, vpc: string, hop: string) {
    IsLeg(e, external, routed) && LegVpc(e.name, external) == vpc && OrEmpty(e.v4Ip) == hop
  }

  lemma {:induction false} LegsAre(eips: seq<EipItem>, external: string, routed: set<string>, vpc: string, hop: string)
    requires UniqueEips(eips)
    ensures vpc in Legs(eips, external, routed) && Legs(eips, external, routed)[vpc] == hop
            <==> exists e :: e in eips && IsLegOf(e, external, routed, vpc, hop)
  {
    if eips != [] {
      var front, last := eips[..|eips| - 1], eips[|eips| - 1];
      assert eips == front + [last];
      LegsAre(front, external, routed, vpc, hop);
      if IsLeg(last, external, routed) && LegVpc(last.name, external) == vpc {
        forall e | e in eips && IsLegOf(e, external, routed, vpc, hop)
          ensures e == last
        {
          SameLegSameName(e.name, last.name, external);
        }
        assert last in eips;
      } else {
        forall e | e in eips && IsLegOf(e, external, routed, vpc, hop)
          ensures e in front
        {
        }
        forall e | e in front
          ensures e in eips
        {
        }
      }
    }
  }

  /** The external subnet has this network. */
  ghost predicate ExternalIs(c: Cluster, env: Settings, net: Prefix) {
    c.subnets.Some? && exists x :: x in c.subnets.value && IsExternal(x, env, net)
  }

  ghost predicate IsExternal(x: SubnetItem, env: Settings, net: Prefix) {
    && x.name == env.external && x.cidrBlock.Some? && x.cidrBlock.value != ""
    && env.parse(x.cidrBlock.value) == Some(net)
  }

  /** A VPC has a default route whose next hop lies in the network. */
  ghost predicate LeavesBy(c: Cluster, vpc: string, net: Prefix) {
    c.vpcs.Some? && exists v, r :: v in c.vpcs.value && v.name == vpc && r in v.routes && IsDefaultVia(r, net)
  }

  ghost predicate IsDefaultVia(r: Route, net: Prefix) {
    r.cidr == Some("0.0.0.0/0") && r.nextHop.Some? && First(net) <= r.nextHop.value <= Last(net)
  }

  /** A VPC's default route leads into the external subnet. */
  ghost predicate LeavesByExternal(c: Cluster, env: Settings, vpc: string) {
    exists net :: ExternalIs(c, env, net) && LeavesBy(c, vpc, net)
  }

  /** A VPC has a leg with this address on the external subnet. */
  ghost predicate HasLeg(c: Cluster, env: Settings, vpc: string, hop: string) {
    c.eips.Some? && exists e :: e in c.eips.value && IsLegNamed(e, env.external, vpc, hop)
  }

  ghost predicate IsLegNamed(e: EipItem, external: string, vpc: string, hop: string) {
    && e.kind == Some("lrp") && e.externalSubnet == Some(external)
    && vpc != "" && e.name == vpc + "-" + external
    && hop != "" && e.v4Ip == Some(hop)
  }

  ghost predicate HasPrefix(c: Cluster, vpc: string, cidr: string) {
    c.subnets.Some? && cidr != "" && exists s :: s in c.subnets.value && s.vpc == Some(vpc) && s.cidrBlock == Some(cidr)
  }

  lemma LegVpcIs(name: string, external: string, vpc: string)
    requires vpc != ""
    ensures LegVpc(name, external) == vpc <==> name == vpc + "-" + external
  {
    var suffix := "-" + external;
    assert vpc + "-" + external == vpc + suffix;
    if name == vpc + suffix {
      assert name[|name| - |suffix|..] == suffix;
      assert name[..|name| - |suffix|] == vpc;
    } else if EndsWith(name, suffix) {
      assert name == name[..|name| - |suffix|] + suffix;
    }
  }

  lemma RoutedInAre(vpcs: seq<VpcItem>, net: Prefix, vpc: string)
    ensures vpc in RoutedIn(vpcs, net) <==> exists v, r :: v in vpcs && v.name == vpc && r in v.routes && IsDefaultVia(r, net)
  {
    if v, r :| v in vpcs && v.name == vpc && r in v.routes && IsDefaultVia(r, net) {
      assert DefaultInto(r, net);
      assert RoutesInto(v, net);
    }
    if vpc in RoutedIn(vpcs, net) {
      var v :| v in vpcs && RoutesInto(v, net) && v.name == vpc;
      var r :| r in v.routes && DefaultInto(r, net);
      assert IsDefaultVia(r, net);
    }
  }

  lemma ExternalNet(c: Cluster, env: Settings, net: Prefix)
    requires UniqueNames(c) && c.subnets.Some?
    ensures var cidr := ExternalCidr(c.subnets.value, env.external);
            ExternalIs(c, env, net) <==> cidr != "" && env.parse(cidr) == Some(net)
  {
    var subnets := c.subnets.value;
    if x :| x in subnets && x.name == env.external {
      ExternalCidrIs(subnets, env.external, x);
      assert ExternalIs(c, env, net) ==> exists y :: y in subnets && IsExternal(y, env, net);
    } else {
      NoExternalCidr(subnets, env.external);
    }
  }

  lemma RoutedAre(c: Cluster, env: Settings, vpc: string)
    requires UniqueNames(c) && c.subnets.Some? && ExternalCidr(c.subnets.value, env.external) != ""
    ensures vpc in Routed(c.vpcs, env.parse(ExternalCidr(c.subnets.value, env.external))) <==> LeavesByExternal(c, env, vpc)
  {
    var net := env.parse(ExternalCidr(c.subnets.value, env.external));
    forall other: Prefix
      ensures ExternalIs(c, env, other) <==> net == Some(other)
    {
      ExternalNet(c, env, other);
    }
    if net.Some? && c.vpcs.Some? {
      RoutedInAre(c.vpcs.value, net.value, vpc);
    }
  }

  lemma LegIffNamed(e: EipItem, external: string, routed: set<string>, vpc: string, hop: string)
    ensures IsLegOf(e, external, routed, vpc, hop) <==> IsLegNamed(e, external, vpc, hop) && vpc in routed
  {
    if vpc != "" {
      LegVpcIs(e.name, external, vpc);
    }
  }

  /** A prefix is announced with a next hop if and only if it is the prefix of a VPC that has both an
      external leg with that address and a default route into the external subnet. */
  lemma AnnouncedIff(c: Cluster, env: Settings, a: Announcement)
    requires UniqueNames(c)
    ensures a in Announcements(c, env) <==>
              && HasPrefix(c, a.vpc, a.cidr)
              && HasLeg(c, env, a.vpc, a.nextHop)
              && LeavesByExternal(c, env, a.vpc)
  {
    if c.subnets.Some? && ExternalCidr(c.subnets.value, env.external) == "" {
      forall net: Prefix ensures !ExternalIs(c, env, net) { ExternalNet(c, env, net); }
    }
    if c.eips.Some? && c.subnets.Some? && ExternalCidr(c.subnets.value, env.external) != "" {
      var routed := Routed(c.vpcs, env.parse(ExternalCidr(c.subnets.value, env.external)));
      var legs := LegsOf(c, env);
      RoutedAre(c, env, a.vpc);
      LegsAre(c.eips.value, env.external, routed, a.vpc, a.nextHop);
      forall e: EipItem
        ensures IsLegOf(e, env.external, routed, a.vpc, a.nextHop)
                <==> IsLegNamed(e, env.external, a.vpc, a.nextHop) && a.vpc in routed
      {
        LegIffNamed(e, env.external, routed, a.vpc, a.nextHop);
      }
      GatherElements(c.subnets.value, (s: SubnetItem) => AnnouncementOf(legs, s), a);
      CollectedIff(c.subnets.value, legs, a);
    }
  }

  lemma CollectedIff(subnets: seq<SubnetItem>, legs: map<string, string>, a: Announcement)
    ensures (exists s :: s in subnets && AnnouncementOf(legs, s) == Some(a)) <==>
              && a.vpc in legs && legs[a.vpc] == a.nextHop && a.cidr != ""
              && exists s :: s in subnets && s.vpc == Some(a.vpc) && s.cidrBlock == Some(a.cidr)
  {
    if s :| s in subnets && s.vpc == Some(a.vpc) && s.cidrBlock == Some(a.cidr) {
      assert a.vpc in legs && legs[a.vpc] == a.nextHop && a.cidr != "" ==> AnnouncementOf(legs, s) == Some(a);
    }
  }

  // ---- The order of the listings

  /** The same objects, listed in another order. */
  ghost predicate SameObjects(c: Cluster, d: Cluster) {
    && c.eips.Some? == d.eips.Some? && (c.eips.Some? ==> multiset(c.eips.value) == multiset(d.eips.value))
    && c.subnets.Some? == d.subnets.Some? && (c.subnets.Some? ==> multiset(c.subnets.value) == multiset(d.subnets.value))
    && c.vpcs.Some? == d.vpcs.Some? && (c.vpcs.Some? ==> multiset(c.vpcs.value) == multiset(d.vpcs.value))
    && c.nodes.Some? == d.nodes.Some? && (c.nodes.Some? ==> multiset(c.nodes.value) == multiset(d.nodes.value))
  }

  lemma {:induction false} ExternalCidrIs(subnets: seq<SubnetItem>, external: string, x: SubnetItem)
    requires UniqueSubnets(subnets) && x in subnets && x.name == external
    ensures ExternalCidr(subnets, external) == OrEmpty(x.cidrBlock)
  {
    var front, last := subnets[..|subnets| - 1], subnets[|subnets| - 1];
    assert subnets == front + [last];
    assert last in subnets;
    if last.name != external {
      assert forall y <- front :: y in subnets;
      ExternalCidrIs(front, external, x);
    }
  }

  lemma {:induction false} NoExternalCidr(subnets: seq<SubnetItem>, external: string)
    requires forall x <- subnets :: x.name != external
    ensures ExternalCidr(subnets, external) == ""
  {
    if subnets != [] {
      NoExternalCidr(subnets[..|subnets| - 1], external);
    }
  }

  lemma ExternalCidrForgetsOrder(s: seq<SubnetItem>, t: seq<SubnetItem>, external: string)
    requires multiset(s) == multiset(t) && UniqueSubnets(s)
    ensures ExternalCidr(s, external) == ExternalCidr(t, external)
  {
    SameElements(s, t);
    if x :| x in s && x.name == external {
      ExternalCidrIs(s, external, x);
      ExternalCidrIs(t, external, x);
    } else {
      NoExternalCidr(s, external);
      NoExternalCidr(t, external);
    }
  }

  lemma RoutedForgetsOrder(s: seq<VpcItem>, t: seq<VpcItem>, net: Prefix)
    requires multiset(s) == multiset(t)
    ensures RoutedIn(s, net) == RoutedIn(t, net)
  {
    SameElements(s, t);
  }

  lemma LegsForgetOrder(s: seq<EipItem>, t: seq<EipItem>, external: string, routed: set<string>)
    requires multiset(s) == multiset(t) && UniqueEips(s)
    ensures Legs(s, external, routed) == Legs(t, external, routed)
  {
    var a, b := Legs(s, external, routed), Legs(t, external, routed);
    SameElements(s, t);
    forall vpc | vpc in a
      ensures vpc in b && b[vpc] == a[vpc]
    {
      LegsAre(s, external, routed, vpc, a[vpc]);
      LegsAre(t, external, routed, vpc, a[vpc]);
    }
    forall vpc | vpc in b
      ensures vpc in a
    {
      LegsAre(s, external, routed, vpc, b[vpc]);
      LegsAre(t, external, routed, vpc, b[vpc]);
    }
  }

  lemma LegsOfForgetsOrder(c: Cluster, d: Cluster, env: Settings)
    requires SameObjects(c, d) && UniqueNames(c) && c.eips.Some? && c.subnets.Some?
    ensures ExternalCidr(c.subnets.value, env.external) == ExternalCidr(d.subnets.value, env.external)
    ensures LegsOf(c, env) == LegsOf(d, env)
  {
    ExternalCidrForgetsOrder(c.subnets.value, d.subnets.value, env.external);
    var net := env.parse(ExternalCidr(c.subnets.value, env.external));
    if c.vpcs.Some? && net.Some? {
      RoutedForgetsOrder(c.vpcs.value, d.vpcs.value, net.value);
    }
    LegsForgetOrder(c.eips.value, d.eips.value, env.external, Routed(c.vpcs, net));
  }

  lemma CollectedForgetsOrder(s: seq<SubnetItem>, t: seq<SubnetItem>, legs: map<string, string>)
    requires multiset(s) == multiset(t)
    ensures multiset(Collected(s, legs)) == multiset(Collected(t, legs))
  {
    GatherForgetsOrder(s, t, (s: SubnetItem) => AnnouncementOf(legs, s));
  }

  lemma AnnouncementsForgetOrder(c: Cluster, d: Cluster, env: Settings)
    requires SameObjects(c, d) && UniqueNames(c)
    ensures multiset(Announcements(c, env)) == multiset(Announcements(d, env))
  {
    if c.eips.Some? && c.subnets.Some? {
      LegsOfForgetsOrder(c, d, env);
      CollectedForgetsOrder(c.subnets.value, d.subnets.value, LegsOf(c, env));
    }
  }

  /** Announcements of one cluster that agree on the sort key are the same. */
  lemma KeyDetermines(c: Cluster, env: Settings)
    ensures Distinguishes(AnnouncementLe, Announcements(c, env))
  {
    var anns := Announcements(c, env);
    forall a, b | a in anns && b in anns && AnnouncementLe(a, b) && AnnouncementLe(b, a)
      ensures a == b
    {
      StringLeTotal(a.vpc, b.vpc);
      StringLeTotal(a.cidr, b.cidr);
      var legs := LegsOf(c, env);
      var f := (s: SubnetItem) => AnnouncementOf(legs, s);
      GatherElements(c.subnets.value, f, a);
      GatherElements(c.subnets.value, f, b);
    }
  }

  // ---- pick_announce_nodes

  predicate ReadyWorker(n: Node) {
    !n.controlPlane && ("Ready", "True") in n.conditions
  }

  function NameIfReady(n: Node): Option<string> {
    if ReadyWorker(n) then Some(n.name) else None
  }

  function AtMost(names: seq<string>, count: nat): seq<string> {
    if |names| <= count then names else names[..count]
  }

  function AnnounceNodes(c: Cluster, env: Settings): seq<string> {
    if env.explicitNodes != [] then AtMost(Sort(env.explicitNodes, StringLe), env.replicas)
    else if c.nodes.None? then []
    else AtMost(Sort(Gather(c.nodes.value, NameIfReady), StringLe), env.replicas)
  }

  /** One of the nodes to choose from: the explicit ones, or the ready workers. */
  ghost predicate Eligible(c: Cluster, env: Settings, name: string) {
    if env.explicitNodes != [] then name in env.explicitNodes
    else c.nodes.Some? && exists n :: n in c.nodes.value && n.name == name && !n.controlPlane && ("Ready", "True") in n.conditions
  }

  function Pool(c: Cluster, env: Settings): seq<string> {
    if env.explicitNodes != [] then env.explicitNodes
    else if c.nodes.None? then [] else Gather(c.nodes.value, NameIfReady)
  }

  lemma PoolIsEligible(c: Cluster, env: Settings, name: string)
    ensures name in Pool(c, env) <==> Eligible(c, env, name)
  {
    if env.explicitNodes == [] && c.nodes.Some? {
      GatherElements(c.nodes.value, NameIfReady, name);
      assert (exists n :: n in c.nodes.value && NameIfReady(n) == Some(name)) <==>
             (exists n :: n in c.nodes.value && n.name == name && !n.controlPlane && ("Ready", "True") in n.conditions) by {
        assert forall n :: NameIfReady(n) == Some(name) <==> n.name == name && !n.controlPlane && ("Ready", "True") in n.conditions;
      }
    }
  }

  /** The chosen nodes are eligible, in order, as many as asked for or as there are, and no node that
      was not chosen sorts before one that was. */
  lemma NodesAreTheFirst(c: Cluster, env: Settings)
    ensures var chosen, pool := AnnounceNodes(c, env), Pool(c, env);
            && |chosen| == (if |pool| <= env.replicas then |pool| else env.replicas)
            && Sorted(chosen, StringLe)
            && (forall x <- chosen :: Eligible(c, env, x))
            && forall x, y | x in chosen && Eligible(c, env, y) && y !in chosen :: StringLe(x, y)
  {
    var chosen, pool := AnnounceNodes(c, env), Pool(c, env);
    var sorted := Sort(pool, StringLe);
    StringLeIsPreorder();
    SortSorted(pool, StringLe);
    SameElements(pool, sorted);
    forall x: string ensures x in pool <==> Eligible(c, env, x) { PoolIsEligible(c, env, x); }
    assert chosen == AtMost(sorted, env.replicas);
    TheRestIsLater(sorted, env.replicas);
  }

  lemma TheRestIsLater(sorted: seq<string>, count: nat)
    requires Sorted(sorted, StringLe)
    ensures var chosen := AtMost(sorted, count);
            && Sorted(chosen, StringLe) && (forall x <- chosen :: x in sorted)
            && forall x, y | x in chosen && y in sorted && y !in chosen :: StringLe(x, y)
  {
    var chosen := AtMost(sorted, count);
    assert forall k | 0 <= k < |chosen| :: sorted[k] in chosen;
    forall x, y | x in chosen && y in sorted && y !in chosen
      ensures StringLe(x, y)
    {
      var i :| 0 <= i < |chosen| && chosen[i] == x;
      var j :| 0 <= j < |sorted| && sorted[j] == y;
    }
  }

  lemma NodesForgetOrder(c: Cluster, d: Cluster, env: Settings)
    requires SameObjects(c, d)
    ensures AnnounceNodes(c, env) == AnnounceNodes(d, env)
  {
    if c.nodes.Some? {
      var s, t := Gather(c.nodes.value, NameIfReady), Gather(d.nodes.value, NameIfReady);
      GatherForgetsOrder(c.nodes.value, d.nodes.value, NameIfReady);
      StringLeIsPreorder();
      forall x: string, y: string { StringLeTotal(x, y); }
      SortForgetsOrder(s, t, StringLe);
    }
  }

  // ---- ensure_announcements

  function Strings(names: seq<string>): seq<Json> {
    seq(|names|, i requires 0 <= i < |names| => Str(names[i]))
  }

  /** The spec of the FRRConfiguration. */
  function FrrSpec(nodes: seq<string>, text: string): Json {
    Obj(map["nodeSelector" := Obj(map["matchExpressions" := Arr([Obj(map[
              "key" := Str("kubernetes.io/hostname"), "operator" := Str("In"),
              "values" := Arr(Strings(Sort(nodes, StringLe)))])])]),
            "raw" := Obj(map["priority" := Num(10), "rawConfig" := Str(text)])])
  }

  function Desired(c: Cluster, env: Settings): Json {
    FrrSpec(AnnounceNodes(c, env), Rendered(Announcements(c, env), env.session))
  }

  /** One pass, given the spec of the stored object: whether it writes, and what is stored then. */
  function Pass(stored: Option<Json>, c: Cluster, env: Settings): (bool, Option<Json>) {
    if env.session.peer == "" || AnnounceNodes(c, env) == [] then (false, stored)
    else if stored.None? then (true, Some(Desired(c, env)))
    else if stored.value != Desired(c, env) then (true, Some(MergePatch(stored.value, Desired(c, env))))
    else (false, stored)
  }

  /** The configuration does not depend on the order of the listings. */
  lemma DesiredForgetsOrder(c: Cluster, d: Cluster, env: Settings)
    requires SameObjects(c, d) && UniqueNames(c)
    ensures Desired(c, env) == Desired(d, env)
  {
    AnnouncementsForgetOrder(c, d, env);
    NodesForgetOrder(c, d, env);
    AnnouncementOrder();
    KeyDetermines(c, env);
    SortForgetsOrder(Announcements(c, env), Announcements(d, env), AnnouncementLe);
  }

  lemma SpecIsNullFree(nodes: seq<string>, text: string)
    ensures NullFree(FrrSpec(nodes, text))
  {
    var selector, raw := FrrSpec(nodes, text).fields["nodeSelector"], FrrSpec(nodes, text).fields["raw"];
    assert NullFree(selector.fields["matchExpressions"]);
    assert NullFree(raw.fields["priority"]) && NullFree(raw.fields["rawConfig"]);
  }

  /** No churn: a second pass over the same objects writes nothing after this code has created the
      configuration; after it has patched one, it writes nothing if and only if the old spec had no
      field that the generated one lacks, since a merge patch never removes such a field. */
  lemma SecondPassWritesNothing(c: Cluster, d: Cluster, env: Settings, stored: Option<Json>)
    requires SameObjects(c, d) && UniqueNames(c)
    requires env.session.peer != "" && AnnounceNodes(c, env) != []
    ensures var after := Pass(stored, c, env).1;
            Pass(after, d, env) == (false, after) <==> stored.None? || NothingExtra(stored.value, Desired(c, env))
  {
    DesiredForgetsOrder(c, d, env);
    NodesForgetOrder(c, d, env);
    if stored.Some? {
      SpecIsNullFree(AnnounceNodes(c, env), Rendered(Announcements(c, env), env.session));
      NothingExtraInItself(Desired(c, env));
      MergeIsPatch(stored.value, Desired(c, env));
    }
  }

  // ---- What is stored after a pass

  /** The text that the routers load. */
  function RawConfig(doc: Json): Json {
    Field(Field(doc, "raw"), "rawConfig")
  }

  /** The one expression of the node selector. */
  function Selector(doc: Json): Json {
    Field(Field(doc, "nodeSelector"), "matchExpressions")
  }

  lemma SpecFields(doc: Json, nodes: seq<string>, text: string)
    requires doc == FrrSpec(nodes, text) || exists was :: doc == MergePatch(was, FrrSpec(nodes, text))
    ensures RawConfig(doc) == Str(text) && Field(Field(doc, "raw"), "priority") == Num(10)
    ensures Selector(doc) == Arr([Obj(map["key" := Str("kubernetes.io/hostname"), "operator" := Str("In"),
                                          "values" := Arr(Strings(Sort(nodes, StringLe)))])])
  {
    var spec := FrrSpec(nodes, text);
    if was :| doc == MergePatch(was, spec) {
      PatchedFields(was, spec, "raw", "rawConfig");
      PatchedFields(was, spec, "raw", "priority");
      PatchedFields(was, spec, "nodeSelector", "matchExpressions");
    }
  }

  /** A field of a field that the patch sets to a value that is no object. */
  lemma PatchedFields(was: Json, patch: Json, k: string, l: string)
    requires patch.Obj? && k in patch.fields && patch.fields[k].Obj? && l in patch.fields[k].fields
    requires !patch.fields[k].fields[l].Obj? && !patch.fields[k].fields[l].Null?
    ensures Field(Field(MergePatch(was, patch), k), l) == patch.fields[k].fields[l]
  {
    MergeByField(was, patch, k);
    MergeByField(Field(was, k), patch.fields[k], l);
    MergeByField(Field(Field(was, k), l), patch.fields[k].fields[l], l);
  }

  /** A pass with a peer and a node leaves an object, whatever was there: with the rendered announcements
      and with the chosen nodes. Without a peer or a node it leaves things as they are. */
  lemma PassStores(stored: Option<Json>, c: Cluster, env: Settings)
    ensures var after := Pass(stored, c, env).1;
            if env.session.peer == "" || AnnounceNodes(c, env) == [] then after == stored
            else
              && after.Some?
              && RawConfig(after.value) == Str(Rendered(Announcements(c, env), env.session))
              && Field(Field(after.value, "raw"), "priority") == Num(10)
              && Selector(after.value) == Arr([Obj(map["key" := Str("kubernetes.io/hostname"), "operator" := Str("In"),
                                                       "values" := Arr(Strings(AnnounceNodes(c, env)))])])
  {
    var nodes, text := AnnounceNodes(c, env), Rendered(Announcements(c, env), env.session);
    var after := Pass(stored, c, env).1;
    if env.session.peer != "" && nodes != [] {
      assert after.value == FrrSpec(nodes, text) || after.value == MergePatch(stored.value, FrrSpec(nodes, text));
      SpecFields(after.value, nodes, text);
      NodesAreTheFirst(c, env);
      SortedStays(nodes);
    }
  }

  lemma SortedStays(names: seq<string>)
    requires Sorted(names, StringLe)
    ensures Sort(names, StringLe) == names
  {
    StringLeIsPreorder();
    SortSorted(names, StringLe);
    forall x: string, y: string { StringLeTotal(x, y); }
    SortedUnique(Sort(names, StringLe), names, StringLe);
  }

  /** End to end: once a pass has run, the routers that load the stored text advertise a prefix with a
      next hop to the peer, if and only if some VPC has that prefix, a leg with that address and a
      default route into the external subnet; for prefixes that are distinct, of VPCs with distinct
      slugs. */
  lemma PassAnnounces(stored: Option<Json>, c: Cluster, env: Settings, cidr: string, hop: string)
    requires UniqueNames(c) && IsWord(env.session.peer) && AnnounceNodes(c, env) != []
    requires Printable(Announcements(c, env)) && CidrsDiffer(Announcements(c, env)) && SlugsDiffer(Announcements(c, env))
    ensures var after := Pass(stored, c, env).1;
            && after.Some? && RawConfig(after.value).Str?
            && (Advertises(Interpret(RawConfig(after.value).s), env.session, cidr, hop)
                <==> exists vpc :: HasPrefix(c, vpc, cidr) && HasLeg(c, env, vpc, hop) && LeavesByExternal(c, env, vpc))
  {
    var anns := Announcements(c, env);
    PassStores(stored, c, env);
    CompilationPreservesMeaning(anns, env.session);
    AnnouncedInCluster(c, env, cidr, hop);
  }

  lemma AnnouncedInCluster(c: Cluster, env: Settings, cidr: string, hop: string)
    requires UniqueNames(c)
    ensures Announced(Announcements(c, env), cidr, hop)
            <==> exists vpc :: HasPrefix(c, vpc, cidr) && HasLeg(c, env, vpc, hop) && LeavesByExternal(c, env, vpc)
  {
    var anns := Announcements(c, env);
    if Announced(anns, cidr, hop) {
      var a :| a in anns && a.cidr == cidr && a.nextHop == hop;
      AnnouncedIff(c, env, a);
    }
    if vpc :| HasPrefix(c, vpc, cidr) && HasLeg(c, env, vpc, hop) && LeavesByExternal(c, env, vpc) {
      AnnouncedIff(c, env, Announcement(vpc, cidr, hop));
      assert Announcement(vpc, cidr, hop) in anns;
    }
  }

  // ---- The loops

  /** `_vpcs_routed_via` */
  method VpcsRoutedVia(vpcs: Option<seq<VpcItem>>, net: Option<Prefix>) returns (routed: set<string>)
    ensures routed == Routed(vpcs, net)
  {
    routed := {};
    if net.None? || vpcs.None? {
      return;
    }
    for i := 0 to |vpcs.value|
      invariant routed == RoutedIn(vpcs.value[..i], net.value)
    {
      var v := vpcs.value[i];
      NextRouted(vpcs.value, i, net.value);
      var into := false;
      for j := 0 to |v.routes|
        invariant into <==> exists k | 0 <= k < j :: DefaultInto(v.routes[k], net.value)
      {
        if v.routes[j].cidr == Some("0.0.0.0/0") && v.routes[j].nextHop.Some? {
          if Contains(net.value, v.routes[j].nextHop.value) {
            into := true;
          }
        }
      }
      if into {
        routed := routed + {v.name};
      }
    }
    assert vpcs.value[..|vpcs.value|] == vpcs.value;
  }

  lemma NextRouted(vpcs: seq<VpcItem>, i: nat, net: Prefix)
    requires i < |vpcs|
    ensures RoutedIn(vpcs[..i + 1], net)
            == RoutedIn(vpcs[..i], net) + if RoutesInto(vpcs[i], net) then {vpcs[i].name} else {}
  {
    assert vpcs[..i + 1] == vpcs[..i] + [vpcs[i]];
  }

  method CollectLegs(eips: seq<EipItem>, external: string, routed: set<string>) returns (legs: map<string, string>)
    ensures legs == Legs(eips, external, routed)
  {
    legs := map[];
    for i := 0 to |eips|
      invariant legs == Legs(eips[..i], external, routed)
    {
      assert eips[..i + 1][..i] == eips[..i];
      var e := eips[i];
      if e.kind == Some("lrp") && e.externalSubnet == Some(external) {
        var vpc := LegVpc(e.name, external);
        if OrEmpty(e.v4Ip) != "" && vpc != "" && vpc in routed {
          legs := legs[vpc := e.v4Ip.value];
        }
      }
    }
    assert eips[..|eips|] == eips;
  }

  /** `collect_announcements` */
  method CollectAnnouncements(c: Cluster, env: Settings) returns (anns: seq<Announcement>)
    ensures anns == Announcements(c, env)
  {
    anns := [];
    if c.eips.None? || c.subnets.None? {
      return;
    }
    var subnets, cidr := c.subnets.value, "";
    for i := 0 to |subnets|
      invariant cidr == ExternalCidr(subnets[..i], env.external)
    {
      assert subnets[..i + 1][..i] == subnets[..i];
      if subnets[i].name == env.external {
        cidr := OrEmpty(subnets[i].cidrBlock);
      }
    }
    assert subnets[..|subnets|] == subnets;
    if cidr == "" {
      return;
    }
    var routed := VpcsRoutedVia(c.vpcs, env.parse(cidr));
    var legs := CollectLegs(c.eips.value, env.external, routed);
    for i := 0 to |subnets|
      invariant anns == Collected(subnets[..i], legs)
    {
      assert subnets[..i + 1][..i] == subnets[..i];
      var s := subnets[i];
      if s.vpc.Some? && s.vpc.value in legs && OrEmpty(s.cidrBlock) != "" {
        anns := anns + [Announcement(s.vpc.value, s.cidrBlock.value, legs[s.vpc.value])];
      }
    }
  }

  /** `pick_announce_nodes` */
  method PickAnnounceNodes(c: Cluster, env: Settings) returns (names: seq<string>)
    ensures names == AnnounceNodes(c, env)
  {
    if env.explicitNodes != [] {
      return AtMost(Sort(env.explicitNodes, StringLe), env.replicas);
    }
    names := [];
    if c.nodes.None? {
      return;
    }
    var nodes := c.nodes.value;
    for i := 0 to |nodes|
      invariant names == Gather(nodes[..i], NameIfReady)
    {
      assert nodes[..i + 1][..i] == nodes[..i];
      if !nodes[i].controlPlane && ("Ready", "True") in nodes[i].conditions {
        names := names + [nodes[i].name];
      }
    }
    assert nodes[..|nodes|] == nodes;
    names := AtMost(Sort(names, StringLe), env.replicas);
  }

  /** The stored FRRConfiguration, and how often it was written. */
  class FrrConfiguration {
    var spec: Option<Json>
    var writes: nat

    constructor (spec: Option<Json>)
      ensures this.spec == spec && writes == 0
    {
      this.spec := spec;
      writes := 0;
    }

    /** `ensure_announcements`; `readable` says whether the stored object can be read. */
    method EnsureAnnouncements(c: Cluster, env: Settings, readable: bool)
      modifies this
      ensures readable ==> (writes > old(writes), spec) == Pass(old(spec), c, env)
      ensures !readable ==> spec == old(spec) && writes == old(writes)
      ensures writes <= old(writes) + 1
    {
      if env.session.peer == "" {
        return;
      }
      var anns := CollectAnnouncements(c, env);
      var nodes := PickAnnounceNodes(c, env);
      if nodes == [] {
        return;
      }
      var text := RenderRawConfig(anns, env.session);
      var desired := FrrSpec(nodes, text);
      if !readable {
        return;
      }
      if spec.None? {
        spec, writes := Some(desired), writes + 1;
      } else if spec.value != desired {
        spec, writes := Some(MergePatch(spec.value, desired)), writes + 1;
      }
    }
  }
}
