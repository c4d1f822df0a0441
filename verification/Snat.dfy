/**
  Who holds the SNAT slot of a tenant subnet (tenant_transit.py). OVN keeps one SNAT per logical
  IP, so of several OvnSnatRules that claim a (VPC, subnet) one is kept and the others go.
  `Resolve` is the decision as a function of the cluster; class `Cluster` carries it out in place.
 */
module Snat {
  import opened Options
  import opened Lists
  import opened Sorting

  datatype SnatRule = SnatRule(vpc: Option<string>, vpcSubnet: Option<string>, ovnEip: Option<string>,
                               labels: map<string, string>, otherFields: map<string, string>)

  datatype OvnEip = OvnEip(externalSubnet: Option<string>, v4Ip: Option<string>)

  type Rules = map<string, SnatRule>
  type Eips = map<string, OvnEip>

  /** The slot in question, the rule to leave aside (the tenant's own), and the transit subnet. */
  datatype Query = Query(vpc: string, vpcSubnet: string, skip: string, transit: string)

  datatype Outcome = Address(address: string) | NoRule | SlotTaken(rule: string, address: string, subnet: string)

  /** Python's truth of an optional string. */
  predicate Truthy(o: Option<string>) {
    o.Some? && o.value != ""
  }

  /** The rule claims the slot and names an EIP. */
  predicate Claims(q: Query, name: string, rule: SnatRule) {
    name != q.skip && rule.vpc == Some(q.vpc) && rule.vpcSubnet == Some(q.vpcSubnet) && Truthy(rule.ovnEip)
  }

  function EipOf(rule: SnatRule): string {
    OrEmpty(rule.ovnEip)
  }

  /** The address that the EIP of the rule holds; empty when there is none. */
  function AddressOf(eips: Eips, rule: SnatRule): string {
    if EipOf(rule) in eips && eips[EipOf(rule)].v4Ip.Some? then eips[EipOf(rule)].v4Ip.value else ""
  }

  function NetworkOf(eips: Eips, rule: SnatRule): string {
    if EipOf(rule) in eips && Truthy(eips[EipOf(rule)].externalSubnet) then eips[EipOf(rule)].externalSubnet.value
    else "<unknown>"
  }

  function SubnetName(eip: OvnEip): string {
    if eip.externalSubnet.Some? && eip.externalSubnet.value != "" then eip.externalSubnet.value else "<unknown>"
  }

  predicate Claimant(q: Query, rules: Rules, name: string) {
    name in rules && Claims(q, name, rules[name])
  }

  /** A claimant whose EIP has an address. */
  predicate Resolvable(q: Query, rules: Rules, eips: Eips, name: string) {
    Claimant(q, rules, name) && AddressOf(eips, rules[name]) != ""
  }

  predicate OnTransit(q: Query, rules: Rules, eips: Eips, name: string) {
    Resolvable(q, rules, eips, name) && NetworkOf(eips, rules[name]) == q.transit
  }

  /** In the terms of the objects: the rule is not the one set aside, is for this VPC and subnet, and
      names an EIP that exists, on the transit subnet and with an address. */
  lemma OnTransitIff(q: Query, rules: Rules, eips: Eips, n: string)
    requires q.transit != "" && q.transit != "<unknown>"
    ensures OnTransit(q, rules, eips, n) <==>
              && n in rules && n != q.skip && rules[n].vpc == Some(q.vpc) && rules[n].vpcSubnet == Some(q.vpcSubnet)
              && rules[n].ovnEip.Some? && rules[n].ovnEip.value != "" && rules[n].ovnEip.value in eips
              && eips[rules[n].ovnEip.value].externalSubnet == Some(q.transit)
              && eips[rules[n].ovnEip.value].v4Ip.Some? && eips[rules[n].ovnEip.value].v4Ip.value != ""
  {
  }

  // ---- The decision

  /** `_rules_covering`, as names in the order of the names: the resolvable claimants, the others,
      and of the former those on the transit subnet. A listing that failed shows nothing. */
  function Found(q: Query, rules: Rules, eips: Eips, listing: Option<seq<string>>): seq<string> {
    if listing.None? then [] else FoundIn(q, rules, eips, Sort(listing.value, StringLe))
  }

  function FoundIn(q: Query, rules: Rules, eips: Eips, names: seq<string>): seq<string> {
    Filter(names, (n: string) => Resolvable(q, rules, eips, n))
  }

  function Dangling(q: Query, rules: Rules, eips: Eips, listing: Option<seq<string>>): seq<string> {
    if listing.None? then [] else DanglingIn(q, rules, eips, Sort(listing.value, StringLe))
  }

  function DanglingIn(q: Query, rules: Rules, eips: Eips, names: seq<string>): seq<string> {
    Filter(names, (n: string) => Claimant(q, rules, n) && !Resolvable(q, rules, eips, n))
  }

  function Transit(q: Query, rules: Rules, eips: Eips, listing: Option<seq<string>>): seq<string> {
    OnTransitIn(q, rules, eips, Found(q, rules, eips, listing))
  }

  function OnTransitIn(q: Query, rules: Rules, eips: Eips, names: seq<string>): seq<string> {
    Filter(names, (n: string) => OnTransit(q, rules, eips, n))
  }

  function ElsewhereIn(q: Query, rules: Rules, eips: Eips, names: seq<string>): seq<string> {
    Filter(names, (n: string) => !OnTransit(q, rules, eips, n))
  }

  /** Everybody but the winner, in the order in which they are dropped. */
  function Losers(q: Query, rules: Rules, eips: Eips, listing: Option<seq<string>>): seq<string>
    requires Transit(q, rules, eips, listing) != []
  {
    Transit(q, rules, eips, listing)[1..]
      + ElsewhereIn(q, rules, eips, Found(q, rules, eips, listing))
      + Dangling(q, rules, eips, listing)
  }

  function Named(names: seq<string>): set<string> {
    set n | n in names
  }

  /** The EIPs that go with the dropped rules, except the one the winner uses. */
  function Released(rules: Rules, names: seq<string>, keep: string): set<string> {
    (set n | n in names && n in rules :: EipOf(rules[n])) - {"", keep}
  }

  function Recreated(q: Query, rule: SnatRule): SnatRule {
    SnatRule(Some(q.vpc), Some(q.vpcSubnet), rule.ovnEip, rule.labels, map[])
  }

  function RuleNamed(rules: Rules, name: string): SnatRule {
    if name in rules then rules[name] else SnatRule(None, None, None, map[], map[])
  }

  /** `_existing_snat_address`: the outcome, and the rules and EIPs it leaves. */
  function Resolve(q: Query, rules: Rules, eips: Eips, listing: Option<seq<string>>): (Outcome, Rules, Eips) {
    var found, transit := Found(q, rules, eips, listing), Transit(q, rules, eips, listing);
    if transit == [] then
      if found == [] then (NoRule, rules, eips)
      else
        var first := RuleNamed(rules, found[0]);
        (SlotTaken(found[0], AddressOf(eips, first), NetworkOf(eips, first)), rules, eips)
    else
      var rule, losers := RuleNamed(rules, transit[0]), Losers(q, rules, eips, listing);
      (Address(AddressOf(eips, rule)),
       (rules - Named(losers))[transit[0] := Recreated(q, rule)],
       eips - Released(rules, losers, EipOf(rule)))
  }

  /** `effective_snat_address`: read only, and with no rule set aside. */
  function EffectiveAddress(q: Query, rules: Rules, eips: Eips, listing: Option<seq<string>>): Option<string> {
    var transit := Transit(q.(skip := ""), rules, eips, listing);
    if transit == [] then None else Some(AddressOf(eips, RuleNamed(rules, transit[0])))
  }

  lemma FoundAre(q: Query, rules: Rules, eips: Eips, listing: Option<seq<string>>)
    ensures forall n :: n in Found(q, rules, eips, listing) <==>
              listing.Some? && n in listing.value && Resolvable(q, rules, eips, n)
    ensures forall n :: n in Dangling(q, rules, eips, listing) <==>
              listing.Some? && n in listing.value && Claimant(q, rules, n) && !Resolvable(q, rules, eips, n)
    ensures forall n :: n in Transit(q, rules, eips, listing) <==>
              listing.Some? && n in listing.value && OnTransit(q, rules, eips, n)
  {
    if listing.Some? {
      SameElements(listing.value, Sort(listing.value, StringLe));
    }
    forall n: string
      ensures n in Found(q, rules, eips, listing) <==>
                listing.Some? && n in listing.value && Resolvable(q, rules, eips, n)
      ensures n in Dangling(q, rules, eips, listing) <==>
                listing.Some? && n in listing.value && Claimant(q, rules, n) && !Resolvable(q, rules, eips, n)
      ensures n in Transit(q, rules, eips, listing) <==>
                listing.Some? && n in listing.value && OnTransit(q, rules, eips, n)
    {
      if listing.Some? {
        FilterElements(Sort(listing.value, StringLe), (n: string) => Resolvable(q, rules, eips, n), n);
        FilterElements(Sort(listing.value, StringLe), (n: string) => Claimant(q, rules, n) && !Resolvable(q, rules, eips, n), n);
      }
      FilterElements(Found(q, rules, eips, listing), (n: string) => OnTransit(q, rules, eips, n), n);
    }
  }

  // ---- What the decision means

  /** The API lists every rule, once. */
  predicate Complete(listing: seq<string>, rules: Rules) {
    multiset(listing) == multiset(rules.Keys)
  }

  lemma ListsAll(listing: seq<string>, rules: Rules)
    requires Complete(listing, rules)
    ensures forall n :: n in listing <==> n in rules
  {
    forall n: string
      ensures n in listing <==> n in rules
    {
      assert n in listing <==> n in multiset(listing);
    }
  }

  /** The order in which the API lists the rules does not matter. */
  lemma ListingOrderIrrelevant(q: Query, rules: Rules, eips: Eips, a: seq<string>, b: seq<string>)
    requires multiset(a) == multiset(b)
    ensures Resolve(q, rules, eips, Some(a)) == Resolve(q, rules, eips, Some(b))
    ensures EffectiveAddress(q, rules, eips, Some(a)) == EffectiveAddress(q, rules, eips, Some(b))
  {
    StringLeIsPreorder();
    forall x: string, y: string { StringLeTotal(x, y); }
    SortForgetsOrder(a, b, StringLe);
  }

  lemma {:induction false} FilterSorted(s: seq<string>, keep: string -> bool)
    requires Sorted(s, StringLe)
    ensures Sorted(Filter(s, keep), StringLe)
  {
    if s != [] {
      var front := s[..|s| - 1];
      FilterSorted(front, keep);
      var kept := Filter(front, keep);
      forall i | 0 <= i < |kept|
        ensures StringLe(kept[i], s[|s| - 1])
      {
        FilterElements(front, keep, kept[i]);
        var k :| 0 <= k < |front| && front[k] == kept[i];
        assert s[k] == kept[i];
      }
    }
  }

  /** The winner is the first transit rule by name. */
  lemma WinnerIsLeast(q: Query, rules: Rules, eips: Eips, listing: seq<string>, n: string)
    requires Complete(listing, rules) && OnTransit(q, rules, eips, n)
    ensures var transit := Transit(q, rules, eips, Some(listing));
            transit != [] && OnTransit(q, rules, eips, transit[0]) && StringLe(transit[0], n)
  {
    ListsAll(listing, rules);
    FoundAre(q, rules, eips, Some(listing));
    StringLeIsPreorder();
    SortSorted(listing, StringLe);
    FilterSorted(Sort(listing, StringLe), (n: string) => Resolvable(q, rules, eips, n));
    FilterSorted(Found(q, rules, eips, Some(listing)), (n: string) => OnTransit(q, rules, eips, n));
    var transit := Transit(q, rules, eips, Some(listing));
    assert n in transit && transit[0] in transit;
    HeadIsLeast(transit, n, StringLe);
  }

  /** The losers are all claimants but the winner. */
  lemma LosersAre(q: Query, rules: Rules, eips: Eips, listing: seq<string>, n: string)
    requires Complete(listing, rules) && Transit(q, rules, eips, Some(listing)) != []
    ensures var winner := Transit(q, rules, eips, Some(listing))[0];
            n in Losers(q, rules, eips, Some(listing)) <==> Claimant(q, rules, n) && n != winner
  {
    var found, transit := Found(q, rules, eips, Some(listing)), Transit(q, rules, eips, Some(listing));
    var elsewhere, dangling := ElsewhereIn(q, rules, eips, found), Dangling(q, rules, eips, Some(listing));
    InOneOfThree(transit[1..], elsewhere, dangling, n);
    OtherTransit(q, rules, eips, listing, n);
    ElsewhereAre(q, rules, eips, listing, n);
    DanglingAre(q, rules, eips, listing, n);
    WinnerClaims(q, rules, eips, listing);
  }

  lemma InOneOfThree(a: seq<string>, b: seq<string>, c: seq<string>, n: string)
    ensures n in a + b + c <==> n in a || n in b || n in c
  {
  }

  lemma OtherTransit(q: Query, rules: Rules, eips: Eips, listing: seq<string>, n: string)
    requires Complete(listing, rules) && Transit(q, rules, eips, Some(listing)) != []
    ensures var transit := Transit(q, rules, eips, Some(listing));
            n in transit[1..] <==> OnTransit(q, rules, eips, n) && n != transit[0]
  {
    var transit := Transit(q, rules, eips, Some(listing));
    ListsAll(listing, rules);
    FoundAre(q, rules, eips, Some(listing));
    TransitDistinct(q, rules, eips, listing);
    assert transit == [transit[0]] + transit[1..];
  }

  lemma ElsewhereAre(q: Query, rules: Rules, eips: Eips, listing: seq<string>, n: string)
    requires Complete(listing, rules)
    ensures n in ElsewhereIn(q, rules, eips, Found(q, rules, eips, Some(listing)))
            <==> Resolvable(q, rules, eips, n) && !OnTransit(q, rules, eips, n)
  {
    ListsAll(listing, rules);
    FoundAre(q, rules, eips, Some(listing));
    FilterElements(Found(q, rules, eips, Some(listing)), (n: string) => !OnTransit(q, rules, eips, n), n);
  }

  lemma DanglingAre(q: Query, rules: Rules, eips: Eips, listing: seq<string>, n: string)
    requires Complete(listing, rules)
    ensures n in Dangling(q, rules, eips, Some(listing)) <==> Claimant(q, rules, n) && !Resolvable(q, rules, eips, n)
  {
    ListsAll(listing, rules);
    FoundAre(q, rules, eips, Some(listing));
  }

  lemma WinnerClaims(q: Query, rules: Rules, eips: Eips, listing: seq<string>)
    requires Complete(listing, rules) && Transit(q, rules, eips, Some(listing)) != []
    ensures OnTransit(q, rules, eips, Transit(q, rules, eips, Some(listing))[0])
  {
    var transit := Transit(q, rules, eips, Some(listing));
    FoundAre(q, rules, eips, Some(listing));
    assert transit[0] in transit;
  }

  lemma TransitDistinct(q: Query, rules: Rules, eips: Eips, listing: seq<string>)
    requires Complete(listing, rules) && Transit(q, rules, eips, Some(listing)) != []
    ensures Transit(q, rules, eips, Some(listing))[0] !in Transit(q, rules, eips, Some(listing))[1..]
  {
    var transit := Transit(q, rules, eips, Some(listing));
    var w := transit[0];
    FilterCount(Sort(listing, StringLe), (n: string) => Resolvable(q, rules, eips, n), w);
    FilterCount(Found(q, rules, eips, Some(listing)), (n: string) => OnTransit(q, rules, eips, n), w);
    assert multiset(transit)[w] <= 1;
    assert transit == [w] + transit[1..];
  }

  /** What a resolution that returns an address leaves behind. */
  ghost predicate Settled(q: Query, rules: Rules, eips: Eips, winner: string, address: string) {
    && winner in rules
    && (forall n :: Claimant(q, rules, n) <==> n == winner)
    && EipOf(rules[winner]) in eips
    && eips[EipOf(rules[winner])].v4Ip == Some(address)
    && NetworkOf(eips, rules[winner]) == q.transit
    && (q.transit != "<unknown>" ==> eips[EipOf(rules[winner])].externalSubnet == Some(q.transit))
  }

  /** Which rule wins, and what is written back for it. */
  ghost predicate Wins(q: Query, rules: Rules, eips: Eips, rules': Rules, winner: string) {
    && OnTransit(q, rules, eips, winner)
    && (forall n | OnTransit(q, rules, eips, n) :: StringLe(winner, n))
    && winner in rules' && rules'[winner] == rules[winner].(otherFields := map[])
  }

  lemma WinnerWins(q: Query, rules: Rules, eips: Eips, listing: seq<string>)
    requires Complete(listing, rules) && Transit(q, rules, eips, Some(listing)) != []
    ensures Wins(q, rules, eips, Resolve(q, rules, eips, Some(listing)).1, Transit(q, rules, eips, Some(listing))[0])
  {
    var transit := Transit(q, rules, eips, Some(listing));
    FoundAre(q, rules, eips, Some(listing));
    assert transit[0] in transit;
    forall n | OnTransit(q, rules, eips, n) ensures StringLe(transit[0], n) {
      WinnerIsLeast(q, rules, eips, listing, n);
    }
  }

  /** When an address is returned, exactly one rule other than the tenant's own claims the slot; it
      is the first transit rule by name, with its labels and its EIP, and that EIP still exists,
      lies on the transit subnet and holds the address. */
  lemma ResolutionSettlesTheSlot(q: Query, rules: Rules, eips: Eips, listing: seq<string>)
    requires Complete(listing, rules)
    requires Resolve(q, rules, eips, Some(listing)).0.Address?
    ensures var (outcome, rules', eips') := Resolve(q, rules, eips, Some(listing));
            exists w :: Wins(q, rules, eips, rules', w) && Settled(q, rules', eips', w, outcome.address)
  {
    WinnerSettles(q, rules, eips, listing);
  }

  lemma WinnerSettles(q: Query, rules: Rules, eips: Eips, listing: seq<string>)
    requires Complete(listing, rules)
    requires Resolve(q, rules, eips, Some(listing)).0.Address?
    ensures var (outcome, rules', eips') := Resolve(q, rules, eips, Some(listing));
            var w := Winner(q, rules, eips, listing);
            Wins(q, rules, eips, rules', w) && Settled(q, rules', eips', w, outcome.address)
  {
    var (outcome, rules', eips') := Resolve(q, rules, eips, Some(listing));
    var w := Transit(q, rules, eips, Some(listing))[0];
    WinnerWins(q, rules, eips, listing);
    forall n ensures Claimant(q, rules', n) <==> n == w { LosersAre(q, rules, eips, listing, n); }
    assert EipOf(rules[w]) !in Released(rules, Losers(q, rules, eips, Some(listing)), EipOf(rules[w]));
    assert Settled(q, rules', eips', w, outcome.address);
  }

  /** When it reports a foreign claimant, or none, nothing has changed; and it reports which case
      it is: a claimant with an address but none on the transit subnet, or no claimant with one. */
  lemma RefusalChangesNothing(q: Query, rules: Rules, eips: Eips, listing: seq<string>)
    requires Complete(listing, rules)
    ensures var (outcome, rules', eips') := Resolve(q, rules, eips, Some(listing));
            && (!outcome.Address? ==> rules' == rules && eips' == eips)
            && (outcome.Address? <==> exists n :: OnTransit(q, rules, eips, n))
            && (outcome.NoRule? <==> forall n :: !Resolvable(q, rules, eips, n))
            && (outcome.SlotTaken? ==> Resolvable(q, rules, eips, outcome.rule)
                                       && EipOf(rules[outcome.rule]) in eips
                                       && eips[EipOf(rules[outcome.rule])].v4Ip == Some(outcome.address)
                                       && outcome.subnet == SubnetName(eips[EipOf(rules[outcome.rule])]) != q.transit
                                       && forall n | Resolvable(q, rules, eips, n) :: StringLe(outcome.rule, n))
  {
    ListsAll(listing, rules);
    FoundAre(q, rules, eips, Some(listing));
    var found, transit := Found(q, rules, eips, Some(listing)), Transit(q, rules, eips, Some(listing));
    if transit != [] {
      assert transit[0] in transit;
      assert transit[0] in found;
    } else if found != [] {
      assert found[0] in found;
      FoundIsSorted(q, rules, eips, listing);
      forall n | Resolvable(q, rules, eips, n) ensures StringLe(found[0], n) { HeadIsLeast(found, n, StringLe); }
    }
  }

  lemma FoundIsSorted(q: Query, rules: Rules, eips: Eips, listing: seq<string>)
    ensures Sorted(Found(q, rules, eips, Some(listing)), StringLe) && Preorder(StringLe)
  {
    StringLeIsPreorder();
    SortSorted(listing, StringLe);
    FilterSorted(Sort(listing, StringLe), (n: string) => Resolvable(q, rules, eips, n));
  }

  /** Rules that do not claim the slot are never touched, whatever the outcome, nor is the tenant's
      own; no rule and no EIP appears, and no EIP changes. */
  lemma OtherRulesUntouched(q: Query, rules: Rules, eips: Eips, listing: seq<string>, n: string)
    requires Complete(listing, rules)
    ensures var (outcome, rules', eips') := Resolve(q, rules, eips, Some(listing));
            && rules'.Keys <= rules.Keys && eips'.Keys <= eips.Keys
            && (!Claimant(q, rules, n) ==> (n in rules' <==> n in rules) && (n in rules ==> rules'[n] == rules[n]))
            && (forall e | e in eips' :: eips'[e] == eips[e])
  {
    var transit := Transit(q, rules, eips, Some(listing));
    if transit != [] {
      FoundAre(q, rules, eips, Some(listing));
      assert transit[0] in transit;
      LosersAre(q, rules, eips, listing, n);
    }
  }

  /** An EIP goes only together with a dropped claimant that named it. */
  lemma EipsGoWithTheirRules(q: Query, rules: Rules, eips: Eips, listing: seq<string>, e: string) returns (r: string)
    requires Complete(listing, rules)
    requires e in eips && e !in Resolve(q, rules, eips, Some(listing)).2
    ensures Claimant(q, rules, r) && EipOf(rules[r]) == e && r !in Resolve(q, rules, eips, Some(listing)).1
  {
    var losers := Losers(q, rules, eips, Some(listing));
    r :| r in losers && r in rules && EipOf(rules[r]) == e;
    LosersAre(q, rules, eips, listing, r);
  }

  /** An EIP survives a resolution if and only if no dropped claimant names it, or the winner does. So
      a rule of another slot, or the tenant's own, is left without its EIP exactly when it shares it
      with a dropped claimant and not with the winner. */
  lemma EipSurvivesIff(q: Query, rules: Rules, eips: Eips, listing: seq<string>, e: string)
    requires Complete(listing, rules) && Transit(q, rules, eips, Some(listing)) != [] && e in eips && e != ""
    ensures var winner := Transit(q, rules, eips, Some(listing))[0];
            e in Resolve(q, rules, eips, Some(listing)).2
            <==> e == EipOf(RuleNamed(rules, winner))
                 || forall n | Claimant(q, rules, n) && n != winner :: EipOf(rules[n]) != e
  {
    var losers, winner := Losers(q, rules, eips, Some(listing)), Transit(q, rules, eips, Some(listing))[0];
    if e in Resolve(q, rules, eips, Some(listing)).2 {
      forall n | Claimant(q, rules, n) && n != winner && e != EipOf(RuleNamed(rules, winner))
        ensures EipOf(rules[n]) != e
      {
        LosersAre(q, rules, eips, listing, n);
      }
    } else {
      var n :| n in losers && n in rules && EipOf(rules[n]) == e;
      LosersAre(q, rules, eips, listing, n);
    }
  }

  /** Such a bystander: its slot is another one, but a dropped claimant named the same EIP. */
  lemma BystanderLosesItsEip(q: Query, rules: Rules, eips: Eips, listing: seq<string>, w: string, loser: string, n: string)
    requires Complete(listing, rules) && OnTransit(q, rules, eips, w) && Claimant(q, rules, loser)
    requires w != loser && StringLe(w, loser) && (forall m | OnTransit(q, rules, eips, m) :: m == w || m == loser)
    requires n in rules && !Claimant(q, rules, n) && EipOf(rules[n]) == EipOf(rules[loser]) != EipOf(rules[w])
    requires EipOf(rules[n]) in eips
    ensures var (outcome, rules', eips') := Resolve(q, rules, eips, Some(listing));
            n in rules' && rules'[n] == rules[n] && EipOf(rules[n]) !in eips'
  {
    WinnerIsLeast(q, rules, eips, listing, w);
    var winner := Transit(q, rules, eips, Some(listing))[0];
    if winner == loser {
      StringLeTotal(w, loser);
    }
    EipSurvivesIff(q, rules, eips, listing, EipOf(rules[n]));
    OtherRulesUntouched(q, rules, eips, listing, n);
  }

  /** The tenant's own rule is on the transit subnet: the read path, which sets no rule aside, sees it. */
  predicate OwnOnTransit(q: Query, rules: Rules, eips: Eips) {
    OnTransit(q.(skip := ""), rules, eips, q.skip)
  }

  /** It is not there, or sorts after the winner, or holds the same address. */
  predicate OwnAgrees(q: Query, rules: Rules, eips: Eips, w: string, address: string) {
    OwnOnTransit(q, rules, eips) ==> !StringLe(q.skip, w) || AddressOf(eips, rules[q.skip]) == address
  }

  /** The winner of a resolution. */
  function Winner(q: Query, rules: Rules, eips: Eips, listing: seq<string>): string {
    var transit := Transit(q, rules, eips, Some(listing));
    if transit == [] then "" else transit[0]
  }

  /** The read path agrees with the write path: the address that is shown before a successful
      resolution is the one the resolution returns, if and only if the tenant's own rule is not on the
      transit subnet, sorts after the winner, or holds that address; and so after it. Resolving again
      gives the same address and changes nothing more. */
  lemma ReadAgreesWithWrite(q: Query, rules: Rules, eips: Eips, listing: seq<string>, listing': seq<string>)
    requires Complete(listing, rules) && "" !in rules
    requires Resolve(q, rules, eips, Some(listing)).0.Address?
    requires Complete(listing', Resolve(q, rules, eips, Some(listing)).1)
    ensures var (outcome, rules', eips') := Resolve(q, rules, eips, Some(listing));
            var w := Winner(q, rules, eips, listing);
            && (EffectiveAddress(q, rules, eips, Some(listing)) == Some(outcome.address)
                <==> OwnAgrees(q, rules, eips, w, outcome.address))
            && (EffectiveAddress(q, rules', eips', Some(listing')) == Some(outcome.address)
                <==> OwnAgrees(q, rules', eips', w, outcome.address))
            && Resolve(q, rules', eips', Some(listing')) == (outcome, rules', eips')
  {
    var resolved := Resolve(q, rules, eips, Some(listing));
    var w := Winner(q, rules, eips, listing);
    ReadIsResolutionIff(q, rules, eips, listing);
    WinnerSettles(q, rules, eips, listing);
    OnlyClaimantsGo(q, rules, eips, listing);
    SettledIsStable(q, resolved.1, resolved.2, listing', w, resolved.0.address);
    SettledWinner(q, resolved.1, resolved.2, listing', w, resolved.0.address);
    ReadIsResolutionIff(q, resolved.1, resolved.2, listing');
  }

  lemma ReadIsResolutionIff(q: Query, rules: Rules, eips: Eips, listing: seq<string>)
    requires Complete(listing, rules) && "" !in rules && Resolve(q, rules, eips, Some(listing)).0.Address?
    ensures var address := Resolve(q, rules, eips, Some(listing)).0.address;
            EffectiveAddress(q, rules, eips, Some(listing)) == Some(address)
            <==> OwnAgrees(q, rules, eips, Winner(q, rules, eips, listing), address)
  {
    var all, w := q.(skip := ""), Winner(q, rules, eips, listing);
    WinnerClaims(q, rules, eips, listing);
    SeenByAll(q, rules, eips, w);
    WinnerIsLeast(all, rules, eips, listing, w);
    FirstOfAll(q, rules, eips, listing, w, Transit(all, rules, eips, Some(listing))[0]);
  }

  /** What is shown: the address of the first transit rule by name, and nothing without one. */
  lemma EffectiveAddressIs(q: Query, rules: Rules, eips: Eips, listing: seq<string>)
    requires Complete(listing, rules) && "" !in rules
    ensures var all, shown := q.(skip := ""), EffectiveAddress(q, rules, eips, Some(listing));
            && (shown.None? <==> forall n :: !OnTransit(all, rules, eips, n))
            && forall w | OnTransit(all, rules, eips, w) && (forall n | OnTransit(all, rules, eips, n) :: StringLe(w, n)) ::
                 eips[EipOf(rules[w])].v4Ip == shown
  {
    var all := q.(skip := "");
    var transit := Transit(all, rules, eips, Some(listing));
    ListsAll(listing, rules);
    FoundAre(all, rules, eips, Some(listing));
    assert transit != [] ==> transit[0] in transit;
    forall w | OnTransit(all, rules, eips, w) && (forall n | OnTransit(all, rules, eips, n) :: StringLe(w, n))
      ensures transit != [] && transit[0] == w
    {
      WinnerIsLeast(all, rules, eips, listing, w);
      StringLeTotal(w, transit[0]);
    }
  }

  /** Without a rule set aside, the same rules are on transit and the own one besides. */
  lemma SeenByAll(q: Query, rules: Rules, eips: Eips, n: string)
    requires "" !in rules
    ensures OnTransit(q.(skip := ""), rules, eips, n) <==> OnTransit(q, rules, eips, n) || (n == q.skip && OwnOnTransit(q, rules, eips))
  {
  }

  /** The first of all of them is the own rule if that sorts before the winner, else the winner. */
  lemma FirstOfAll(q: Query, rules: Rules, eips: Eips, listing: seq<string>, w: string, x: string)
    requires Complete(listing, rules) && "" !in rules && OnTransit(q, rules, eips, w)
    requires w == Winner(q, rules, eips, listing)
    requires var transit := Transit(q.(skip := ""), rules, eips, Some(listing)); transit != [] && x == transit[0]
    ensures x == if OwnOnTransit(q, rules, eips) && StringLe(q.skip, w) then q.skip else w
  {
    var all := q.(skip := "");
    WinnerClaims(all, rules, eips, listing);
    SeenByAll(q, rules, eips, x);
    SeenByAll(q, rules, eips, w);
    WinnerIsLeast(all, rules, eips, listing, w);
    StringLeTotal(x, w);
    StringLeTotal(q.skip, w);
    if OnTransit(q, rules, eips, x) {
      WinnerIsLeast(q, rules, eips, listing, x);
    }
    if OwnOnTransit(q, rules, eips) {
      SeenByAll(q, rules, eips, q.skip);
      WinnerIsLeast(all, rules, eips, listing, q.skip);
      StringLeTotal(x, q.skip);
    }
  }

  /** The failing family: the own rule is on the transit subnet, sorts before the only other one and
      holds another address. The resolution returns that of the other, and what is shown is its own. */
  lemma OwnRuleIsShown(q: Query, rules: Rules, eips: Eips, listing: seq<string>, w: string)
    requires Complete(listing, rules) && "" !in rules && OnTransit(q, rules, eips, w) && OwnOnTransit(q, rules, eips)
    requires (forall n | OnTransit(q, rules, eips, n) :: n == w) && StringLe(q.skip, w)
    requires AddressOf(eips, rules[q.skip]) != AddressOf(eips, rules[w])
    ensures Resolve(q, rules, eips, Some(listing)).0 == Address(AddressOf(eips, rules[w]))
    ensures EffectiveAddress(q, rules, eips, Some(listing)) == Some(AddressOf(eips, rules[q.skip]))
  {
    WinnerIsLeast(q, rules, eips, listing, w);
    SeenByAll(q, rules, eips, w);
    WinnerIsLeast(q.(skip := ""), rules, eips, listing, w);
    FirstOfAll(q, rules, eips, listing, w, Transit(q.(skip := ""), rules, eips, Some(listing))[0]);
  }

  lemma OnlyClaimantsGo(q: Query, rules: Rules, eips: Eips, listing: seq<string>)
    requires Complete(listing, rules)
    ensures Resolve(q, rules, eips, Some(listing)).1.Keys <= rules.Keys
    ensures Resolve(q, rules, eips, Some(listing)).0.Address? ==> Resolve(q, rules, eips, Some(listing)).0.address != ""
  {
    OtherRulesUntouched(q, rules, eips, listing, "");
    FoundAre(q, rules, eips, Some(listing));
    var transit := Transit(q, rules, eips, Some(listing));
    assert transit != [] ==> transit[0] in transit;
  }

  lemma SettledIsStable(q: Query, rules: Rules, eips: Eips, listing: seq<string>, w: string, address: string)
    requires Complete(listing, rules) && Settled(q, rules, eips, w, address) && address != ""
    requires rules[w].otherFields == map[]
    ensures Resolve(q, rules, eips, Some(listing)) == (Address(address), rules, eips)
  {
    SettledWinner(q, rules, eips, listing, w, address);
    var losers := Losers(q, rules, eips, Some(listing));
    NothingDropped(rules, eips, losers, w, EipOf(rules[w]));
    assert Claimant(q, rules, w);
    assert Recreated(q, rules[w]) == rules[w];
  }

  lemma SettledWinner(q: Query, rules: Rules, eips: Eips, listing: seq<string>, w: string, address: string)
    requires Complete(listing, rules) && Settled(q, rules, eips, w, address) && address != ""
    ensures Transit(q, rules, eips, Some(listing)) != [] && Transit(q, rules, eips, Some(listing))[0] == w
    ensures Losers(q, rules, eips, Some(listing)) == []
  {
    assert Claimant(q, rules, w);
    WinnerIsLeast(q, rules, eips, listing, w);
    var losers := Losers(q, rules, eips, Some(listing));
    if losers != [] {
      assert losers[0] in losers;
      LosersAre(q, rules, eips, listing, losers[0]);
    }
  }

  lemma NothingDropped(rules: Rules, eips: Eips, losers: seq<string>, w: string, keep: string)
    requires losers == [] && w in rules
    ensures (rules - Named(losers))[w := rules[w]] == rules
    ensures eips - Released(rules, losers, keep) == eips
  {
    assert rules[w := rules[w]] == rules;
  }

  // ---- The tenant's own rule

  /** The tenant's EIP and rule, as created when nobody holds the slot. */
  datatype Own = Own(eip: string, labels: map<string, string>)

  function OwnRule(q: Query, own: Own): SnatRule {
    SnatRule(Some(q.vpc), Some(q.vpcSubnet), Some(own.eip), own.labels, map[])
  }

  /** A create that ignores a conflict. */
  function Created<V>(objects: map<string, V>, name: string, value: V): map<string, V> {
    if name in objects then objects else objects[name := value]
  }

  /** `ensure_tenant_snat`: an error, or the address if it is known, and what is left behind. */
  function Ensure(q: Query, own: Own, rules: Rules, eips: Eips, listing: Option<seq<string>>)
    : (Outcome, Rules, Eips)
  {
    var (outcome, rules', eips') := Resolve(q, rules, eips, listing);
    if !outcome.NoRule? then (outcome, rules', eips')
    else
      var eips'' := Created(eips', own.eip, OvnEip(Some(q.transit), None));
      var address := eips''[own.eip].v4Ip;
      (if Truthy(address) then Address(address.value) else NoRule,
       Created(rules', q.skip, OwnRule(q, own)), eips'')
  }

  /** Repeating the call on what it left gives the same result and changes nothing. */
  lemma EnsureIsIdempotent(q: Query, own: Own, rules: Rules, eips: Eips, listing: seq<string>, listing': seq<string>)
    requires Complete(listing, rules)
    requires Complete(listing', Ensure(q, own, rules, eips, Some(listing)).1)
    ensures var (outcome, rules', eips') := Ensure(q, own, rules, eips, Some(listing));
            Ensure(q, own, rules', eips', Some(listing')) == (outcome, rules', eips')
  {
    var resolved := Resolve(q, rules, eips, Some(listing));
    if resolved.0.Address? {
      ResolutionSettlesTheSlot(q, rules, eips, listing);
      var w :| Wins(q, rules, eips, resolved.1, w) && Settled(q, resolved.1, resolved.2, w, resolved.0.address);
      OnlyClaimantsGo(q, rules, eips, listing);
      SettledIsStable(q, resolved.1, resolved.2, listing', w, resolved.0.address);
    } else {
      RefusalChangesNothing(q, rules, eips, listing);
      if resolved.0.NoRule? {
        var ensured := Ensure(q, own, rules, eips, Some(listing));
        StillNoRule(q, own, rules, eips, ensured.1, ensured.2);
        RefusalChangesNothing(q, ensured.1, ensured.2, listing');
      } else {
        ListingOrderIrrelevant(q, rules, eips, listing, listing');
      }
    }
  }

  lemma StillNoRule(q: Query, own: Own, rules: Rules, eips: Eips, rules': Rules, eips': Eips)
    requires forall n :: !Resolvable(q, rules, eips, n)
    requires rules' == Created(rules, q.skip, OwnRule(q, own))
    requires eips' == Created(eips, own.eip, OvnEip(Some(q.transit), None))
    ensures forall n :: !Resolvable(q, rules', eips', n)
  {
    forall n
      ensures !Resolvable(q, rules', eips', n)
    {
      assert !Resolvable(q, rules, eips, n);
    }
  }

  /** Nothing that was there is changed, and nothing but the tenant's own rule and EIP is added. */
  ghost predicate OnlyOwnAdded(q: Query, own: Own, rules: Rules, eips: Eips, rules': Rules, eips': Eips) {
    && rules' - {q.skip} == rules - {q.skip} && (q.skip in rules ==> q.skip in rules' && rules'[q.skip] == rules[q.skip])
    && eips' - {own.eip} == eips - {own.eip} && (own.eip in eips ==> own.eip in eips' && eips'[own.eip] == eips[own.eip])
  }

  /** When no claimant has an address, the tenant gets a rule and an EIP of its own: the rule is for its
      VPC and subnet and names that EIP, the EIP is on the transit subnet and has no address yet, and
      nothing else changes. Where one of them was there already, it is kept. */
  lemma EnsureGivesOwn(q: Query, own: Own, rules: Rules, eips: Eips, listing: seq<string>)
    requires Complete(listing, rules) && forall n :: !Resolvable(q, rules, eips, n)
    ensures var (outcome, rules', eips') := Ensure(q, own, rules, eips, Some(listing));
            && OnlyOwnAdded(q, own, rules, eips, rules', eips')
            && q.skip in rules' && own.eip in eips'
            && (q.skip !in rules ==>
                  && rules'[q.skip].vpc == Some(q.vpc) && rules'[q.skip].vpcSubnet == Some(q.vpcSubnet)
                  && rules'[q.skip].ovnEip == Some(own.eip) && rules'[q.skip].labels == own.labels)
            && (own.eip !in eips ==> eips'[own.eip].externalSubnet == Some(q.transit) && eips'[own.eip].v4Ip.None?)
            && (outcome.Address? <==> own.eip in eips && Truthy(eips[own.eip].v4Ip))
            && (outcome.Address? ==> eips[own.eip].v4Ip == Some(outcome.address)) && !outcome.SlotTaken?
  {
    RefusalChangesNothing(q, rules, eips, listing);
    CreatedAdds(rules, q.skip, OwnRule(q, own));
    CreatedAdds(eips, own.eip, OvnEip(Some(q.transit), None));
  }

  lemma CreatedAdds<V>(objects: map<string, V>, name: string, value: V)
    ensures var after := Created(objects, name, value);
            && after - {name} == objects - {name} && name in after
            && after[name] == if name in objects then objects[name] else value
  {
  }

  /** When a claimant has an address, the call is the resolution. */
  lemma EnsureResolves(q: Query, own: Own, rules: Rules, eips: Eips, listing: seq<string>, n: string)
    requires Complete(listing, rules) && Resolvable(q, rules, eips, n)
    ensures Ensure(q, own, rules, eips, Some(listing)) == Resolve(q, rules, eips, Some(listing))
  {
    RefusalChangesNothing(q, rules, eips, listing);
  }

  /** Once the new EIP has been given an address, the read path shows it, and the next call returns it. */
  lemma OwnAddressIsShown(q: Query, own: Own, rules: Rules, eips: Eips, listing: seq<string>, listing': seq<string>, address: string)
    requires Complete(listing, rules) && forall n :: !Resolvable(q, rules, eips, n)
    requires "" !in rules && q.skip != "" && own.eip != "" && q.transit != "" && address != ""
    requires q.skip !in rules && own.eip !in eips
    requires Complete(listing', Ensure(q, own, rules, eips, Some(listing)).1)
    ensures var rules' := Ensure(q, own, rules, eips, Some(listing)).1;
            var eips' := Ensure(q, own, rules, eips, Some(listing)).2[own.eip := OvnEip(Some(q.transit), Some(address))];
            && EffectiveAddress(q, rules', eips', Some(listing')) == Some(address)
            && Ensure(q, own, rules', eips', Some(listing')).0 == Address(address)
  {
    var (outcome, rules', eips0) := Ensure(q, own, rules, eips, Some(listing));
    var eips' := eips0[own.eip := OvnEip(Some(q.transit), Some(address))];
    EnsureGivesOwn(q, own, rules, eips, listing);
    forall n
      ensures OnTransit(q.(skip := ""), rules', eips', n) ==> AddressOf(eips', rules'[n]) == address
      ensures Resolvable(q, rules', eips', n) ==> AddressOf(eips', rules'[n]) == address && OnTransit(q, rules', eips', n)
    {
      OnlyOwnHasOne(q, own, rules, eips, rules', eips', n, address);
    }
    ShowsTheAddress(q, own, rules', eips', listing', address);
  }

  lemma OnlyOwnHasOne(q: Query, own: Own, rules: Rules, eips: Eips, rules': Rules, eips': Eips, n: string, address: string)
    requires forall m :: !Resolvable(q, rules, eips, m)
    requires q.skip !in rules && q.transit != "" && rules' - {q.skip} == rules - {q.skip} && eips' - {own.eip} == eips - {own.eip}
    requires own.eip in eips' && eips'[own.eip] == OvnEip(Some(q.transit), Some(address))
    requires q.skip in rules' && rules'[q.skip].ovnEip == Some(own.eip)
    ensures OnTransit(q.(skip := ""), rules', eips', n) ==> AddressOf(eips', rules'[n]) == address
    ensures Resolvable(q, rules', eips', n) ==> AddressOf(eips', rules'[n]) == address && OnTransit(q, rules', eips', n)
  {
    assert !Resolvable(q, rules, eips, n);
    if n in rules' && n != q.skip {
      assert n in rules' - {q.skip} && n in rules && rules[n] == rules'[n];
      var e := EipOf(rules'[n]);
      assert e != own.eip ==> (e in eips' <==> e in eips' - {own.eip}) && (e in eips <==> e in eips - {own.eip});
    }
  }

  lemma ShowsTheAddress(q: Query, own: Own, rules: Rules, eips: Eips, listing: seq<string>, address: string)
    requires Complete(listing, rules) && "" !in rules && q.skip in rules && q.skip != "" && address != "" && q.transit != ""
    requires rules[q.skip].vpc == Some(q.vpc) && rules[q.skip].vpcSubnet == Some(q.vpcSubnet) && rules[q.skip].ovnEip == Some(own.eip)
    requires own.eip != "" && own.eip in eips && eips[own.eip] == OvnEip(Some(q.transit), Some(address))
    requires forall n | OnTransit(q.(skip := ""), rules, eips, n) :: AddressOf(eips, rules[n]) == address
    requires forall n | Resolvable(q, rules, eips, n) :: AddressOf(eips, rules[n]) == address && OnTransit(q, rules, eips, n)
    ensures EffectiveAddress(q, rules, eips, Some(listing)) == Some(address)
    ensures Ensure(q, own, rules, eips, Some(listing)).0 == Address(address)
  {
    var all := q.(skip := "");
    assert OnTransit(all, rules, eips, q.skip);
    WinnerIsLeast(all, rules, eips, listing, q.skip);
    RefusalChangesNothing(q, rules, eips, listing);
    if Resolve(q, rules, eips, Some(listing)).0.Address? {
      WinnerClaims(q, rules, eips, listing);
    }
  }

  // ---- The cluster, edited in place

  /** One rule that claims the slot, as it was when it was listed. */
  datatype Candidate = Candidate(name: string, labels: map<string, string>, eip: string, address: string, subnet: string)

  function CandidateOf(rules: Rules, eips: Eips, name: string): Candidate {
    var rule := RuleNamed(rules, name);
    Candidate(name, rule.labels, EipOf(rule), AddressOf(eips, rule), NetworkOf(eips, rule))
  }

  function Candidates(rules: Rules, eips: Eips, names: seq<string>): seq<Candidate> {
    seq(|names|, i requires 0 <= i < |names| => CandidateOf(rules, eips, names[i]))
  }

  lemma CandidatesConcat(rules: Rules, eips: Eips, a: seq<string>, b: seq<string>)
    ensures Candidates(rules, eips, a + b) == Candidates(rules, eips, a) + Candidates(rules, eips, b)
  {
  }

  lemma NextCandidate(q: Query, rules: Rules, eips: Eips, names: seq<string>, i: nat)
    requires i < |names|
    ensures var next := [CandidateOf(rules, eips, names[i])];
            && Candidates(rules, eips, FoundIn(q, rules, eips, names[..i + 1]))
               == Candidates(rules, eips, FoundIn(q, rules, eips, names[..i]))
                  + (if Resolvable(q, rules, eips, names[i]) then next else [])
            && Candidates(rules, eips, DanglingIn(q, rules, eips, names[..i + 1]))
               == Candidates(rules, eips, DanglingIn(q, rules, eips, names[..i]))
                  + (if Claimant(q, rules, names[i]) && !Resolvable(q, rules, eips, names[i]) then next else [])
  {
    assert names[..i + 1][..i] == names[..i];
    CandidatesConcat(rules, eips, FoundIn(q, rules, eips, names[..i]), [names[i]]);
    CandidatesConcat(rules, eips, DanglingIn(q, rules, eips, names[..i]), [names[i]]);
  }

  lemma NextByNetwork(q: Query, rules: Rules, eips: Eips, names: seq<string>, i: nat)
    requires i < |names| && Resolvable(q, rules, eips, names[i])
    ensures var next := [CandidateOf(rules, eips, names[i])];
            && Candidates(rules, eips, OnTransitIn(q, rules, eips, names[..i + 1]))
               == Candidates(rules, eips, OnTransitIn(q, rules, eips, names[..i]))
                  + (if next[0].subnet == q.transit then next else [])
            && Candidates(rules, eips, ElsewhereIn(q, rules, eips, names[..i + 1]))
               == Candidates(rules, eips, ElsewhereIn(q, rules, eips, names[..i]))
                  + (if next[0].subnet == q.transit then [] else next)
  {
    assert names[..i + 1][..i] == names[..i];
    CandidatesConcat(rules, eips, OnTransitIn(q, rules, eips, names[..i]), [names[i]]);
    CandidatesConcat(rules, eips, ElsewhereIn(q, rules, eips, names[..i]), [names[i]]);
  }

  lemma NextLoser(rules: Rules, names: seq<string>, i: nat, keep: string)
    requires i < |names| && names[i] in rules
    ensures Named(names[..i + 1]) == Named(names[..i]) + {names[i]}
    ensures Released(rules, names[..i + 1], keep)
            == Released(rules, names[..i], keep) + ({EipOf(rules[names[i]])} - {"", keep})
  {
    assert names[..i + 1] == names[..i] + [names[i]];
  }

  lemma LosersExist(q: Query, rules: Rules, eips: Eips, listing: Option<seq<string>>)
    requires Transit(q, rules, eips, listing) != []
    ensures forall n <- Losers(q, rules, eips, listing) :: n in rules
    ensures Claimant(q, rules, Transit(q, rules, eips, listing)[0])
  {
    var found, transit := Found(q, rules, eips, listing), Transit(q, rules, eips, listing);
    FoundAre(q, rules, eips, listing);
    assert transit[0] in transit;
    forall n | n in Losers(q, rules, eips, listing)
      ensures n in rules
    {
      FilterElements(found, (n: string) => !OnTransit(q, rules, eips, n), n);
      assert n in transit[1..] ==> n in transit;
    }
  }

  function Rewritten(q: Query, winner: Candidate): SnatRule {
    SnatRule(Some(q.vpc), Some(q.vpcSubnet), Some(winner.eip), winner.labels, map[])
  }

  /** The resolution, in terms of the candidates. */
  lemma WinnerResolves(q: Query, rules: Rules, eips: Eips, listing: Option<seq<string>>)
    requires Transit(q, rules, eips, listing) != []
    ensures var winner, losers := CandidateOf(rules, eips, Transit(q, rules, eips, listing)[0]), Losers(q, rules, eips, listing);
            && Resolve(q, rules, eips, listing)
               == (Address(winner.address), (rules - Named(losers))[winner.name := Rewritten(q, winner)],
                   eips - Released(rules, losers, winner.eip))
            && (forall n <- losers :: n in rules)
            && Candidates(rules, eips, losers)
               == Candidates(rules, eips, Transit(q, rules, eips, listing))[1..]
                  + Candidates(rules, eips, ElsewhereIn(q, rules, eips, Found(q, rules, eips, listing)))
                  + Candidates(rules, eips, Dangling(q, rules, eips, listing))
  {
    LosersExist(q, rules, eips, listing);
    LosersInOrder(rules, eips, Transit(q, rules, eips, listing),
                  ElsewhereIn(q, rules, eips, Found(q, rules, eips, listing)), Dangling(q, rules, eips, listing));
  }

  lemma LosersInOrder(rules: Rules, eips: Eips, transit: seq<string>, elsewhere: seq<string>, dangling: seq<string>)
    requires transit != []
    ensures Candidates(rules, eips, transit[1..] + elsewhere + dangling)
            == Candidates(rules, eips, transit)[1..] + Candidates(rules, eips, elsewhere) + Candidates(rules, eips, dangling)
  {
    CandidatesConcat(rules, eips, transit[1..] + elsewhere, dangling);
    CandidatesConcat(rules, eips, transit[1..], elsewhere);
    assert Candidates(rules, eips, transit)[1..] == Candidates(rules, eips, transit[1..]);
  }

  class Cluster {
    var rules: Rules
    var eips: Eips

    constructor (rules: Rules, eips: Eips)
      ensures this.rules == rules && this.eips == eips
    {
      this.rules := rules;
      this.eips := eips;
    }

    /** `_rules_covering`. */
    method RulesCovering(q: Query, listing: Option<seq<string>>)
      returns (found: seq<Candidate>, dangling: seq<Candidate>)
      requires listing.Some? ==> Complete(listing.value, rules)
      ensures found == Candidates(rules, eips, Found(q, rules, eips, listing))
      ensures dangling == Candidates(rules, eips, Dangling(q, rules, eips, listing))
    {
      found, dangling := [], [];
      if listing.None? {
        return;
      }
      var names := Sort(listing.value, StringLe);
      SameElements(listing.value, names);
      ListsAll(listing.value, rules);
      for i := 0 to |names|
        invariant found == Candidates(rules, eips, FoundIn(q, rules, eips, names[..i]))
        invariant dangling == Candidates(rules, eips, DanglingIn(q, rules, eips, names[..i]))
      {
        NextCandidate(q, rules, eips, names, i);
        assert names[i] in names;
        var rule := rules[names[i]];
        if names[i] != q.skip && rule.vpc == Some(q.vpc) && rule.vpcSubnet == Some(q.vpcSubnet) && Truthy(rule.ovnEip) {
          var address := AddressOf(eips, rule);
          var candidate := Candidate(names[i], rule.labels, rule.ovnEip.value, address, NetworkOf(eips, rule));
          if address == "" {
            dangling := dangling + [candidate];
          } else {
            found := found + [candidate];
          }
        }
      }
      assert names[..|names|] == names;
    }

    /** `_drop_losing_rule`. */
    method DropLosingRule(loser: Candidate, keep: string)
      modifies this
      ensures rules == old(rules) - {loser.name}
      ensures eips == old(eips) - ({loser.eip} - {"", keep})
    {
      rules := rules - {loser.name};
      if loser.eip != "" && loser.eip != keep {
        eips := eips - {loser.eip};
      }
    }

    method DropLosers(losers: seq<Candidate>, ghost names: seq<string>, keep: string)
      requires losers == Candidates(rules, eips, names)
      requires forall n <- names :: n in rules
      modifies this
      ensures rules == old(rules) - Named(names)
      ensures eips == old(eips) - Released(old(rules), names, keep)
    {
      for i := 0 to |losers|
        invariant rules == old(rules) - Named(names[..i])
        invariant eips == old(eips) - Released(old(rules), names[..i], keep)
      {
        NextLoser(old(rules), names, i, keep);
        DropLosingRule(losers[i], keep);
      }
      assert names[..|losers|] == names;
    }

    method ByNetwork(q: Query, ghost listing: Option<seq<string>>, candidates: seq<Candidate>)
      returns (transit: seq<Candidate>, others: seq<Candidate>)
      requires candidates == Candidates(rules, eips, Found(q, rules, eips, listing))
      ensures transit == Candidates(rules, eips, Transit(q, rules, eips, listing))
      ensures others == Candidates(rules, eips, ElsewhereIn(q, rules, eips, Found(q, rules, eips, listing)))
    {
      ghost var found := Found(q, rules, eips, listing);
      FoundAre(q, rules, eips, listing);
      transit, others := [], [];
      for i := 0 to |candidates|
        invariant transit == Candidates(rules, eips, OnTransitIn(q, rules, eips, found[..i]))
        invariant others == Candidates(rules, eips, ElsewhereIn(q, rules, eips, found[..i]))
      {
        assert found[i] in found;
        NextByNetwork(q, rules, eips, found, i);
        if candidates[i].subnet == q.transit {
          transit := transit + [candidates[i]];
        } else {
          others := others + [candidates[i]];
        }
      }
      assert found[..|candidates|] == found;
    }

    method Settle(q: Query, winner: Candidate, losers: seq<Candidate>, ghost names: seq<string>)
      requires losers == Candidates(rules, eips, names) && forall n <- names :: n in rules
      modifies this
      ensures rules == (old(rules) - Named(names))[winner.name := Rewritten(q, winner)]
      ensures eips == old(eips) - Released(old(rules), names, winner.eip)
    {
      DropLosers(losers, names, winner.eip);
      rules := rules - {winner.name};
      rules := Created(rules, winner.name, Rewritten(q, winner));
    }

    /** `_existing_snat_address`. */
    method ExistingSnatAddress(q: Query, listing: Option<seq<string>>) returns (outcome: Outcome)
      requires listing.Some? ==> Complete(listing.value, rules)
      modifies this
      ensures (outcome, rules, eips) == Resolve(q, old(rules), old(eips), listing)
    {
      var candidates, dangling := RulesCovering(q, listing);
      var transit, others := ByNetwork(q, listing, candidates);
      if |transit| == 0 {
        if |candidates| > 0 {
          return SlotTaken(candidates[0].name, candidates[0].address, candidates[0].subnet);
        }
        return NoRule;
      }
      WinnerResolves(q, rules, eips, listing);
      Settle(q, transit[0], transit[1..] + others + dangling, Losers(q, rules, eips, listing));
      return Address(transit[0].address);
    }

    /** `effective_snat_address`. */
    method EffectiveSnatAddress(q: Query, listing: Option<seq<string>>) returns (address: Option<string>)
      requires listing.Some? ==> Complete(listing.value, rules)
      ensures address == EffectiveAddress(q, rules, eips, listing)
    {
      var all := q.(skip := "");
      var candidates, dangling := RulesCovering(all, listing);
      var transit, others := ByNetwork(all, listing, candidates);
      return if transit == [] then None else Some(transit[0].address);
    }

    /** `ensure_tenant_snat`. */
    method EnsureTenantSnat(q: Query, own: Own, listing: Option<seq<string>>) returns (outcome: Outcome)
      requires listing.Some? ==> Complete(listing.value, rules)
      modifies this
      ensures (outcome, rules, eips) == Ensure(q, own, old(rules), old(eips), listing)
    {
      outcome := ExistingSnatAddress(q, listing);
      if outcome.NoRule? {
        eips := Created(eips, own.eip, OvnEip(Some(q.transit), None));
        rules := Created(rules, q.skip, OwnRule(q, own));
        var address := eips[own.eip].v4Ip;
        if Truthy(address) {
          outcome := Address(address.value);
        }
      }
    }
  }
}
