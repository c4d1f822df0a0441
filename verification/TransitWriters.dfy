/**
  The writers of the transit ACL list as clients of the compare-and-set protocol. Each of them reads
  the CIDR and the exclusions from the very spec that it patches. In every interleaving the list is
  what the committed calls make of it one after the other, so what module TransitRuns proves of runs
  of calls holds of the live object.
 */
module TransitWriters {
  import opened Options
  import opened Json
  import opened Lists
  import opened Ipv4
  import opened TransitRanges
  import C = Cas
  import opened TransitAcl
  import opened TransitRuns

  const ACLS := "acls"
  const CIDR := "cidrBlock"
  const EXCLUDED := "excludeIps"

  // ---- The list in the spec

  function Encode(a: Acl): Json {
    Obj(map["action" := Str(a.action), "direction" := Str(a.direction), "priority" := Num(a.priority), "match" := Str(a.expr)])
  }

  function TextOf(j: Json): string {
    if j.Str? then j.s else ""
  }

  function Decode(j: Json): Acl {
    Acl(TextOf(Field(j, "action")), TextOf(Field(j, "direction")),
        if Field(j, "priority").Num? then Field(j, "priority").n else 0, TextOf(Field(j, "match")))
  }

  lemma RoundTrip(a: Acl)
    ensures Decode(Encode(a)) == a
  {
  }

  lemma DecodeEncode(acls: seq<Acl>)
    ensures Each(Each(acls, Encode), Decode) == acls
  {
    forall i | 0 <= i < |acls|
      ensures Decode(Encode(acls[i])) == acls[i]
    {
      RoundTrip(acls[i]);
    }
  }

  function AclsOf(obj: Option<Spec>): seq<Acl> {
    if obj.None? then [] else Each(ListField(obj.value, "acls"), Decode)
  }

  lemma ListReadBack(spec: Spec, acls: seq<Acl>)
    ensures AclsOf(Some(MergeSpec(spec, map[ACLS := Arr(Each(acls, Encode))]))) == acls
  {
    MergeOneList(spec, ACLS, Each(acls, Encode));
    DecodeEncode(acls);
  }

  // ---- The subnet in the spec

  /** `ip_network(_, strict=False)`, and how an `excludeIps` entry is read. */
  datatype Parser = Parser(net: string -> Option<Prefix>, entry: string -> Exclusion)

  function CidrOf(spec: Spec): string {
    if CIDR in spec then TextOf(spec[CIDR]) else ""
  }

  /** The subnet that the deny is built from; None without a CIDR, or one that does not parse. */
  function SubnetIn(parse: Parser, spec: Spec): Option<Subnet> {
    var cidr := CidrOf(spec);
    if cidr == "" || parse.net(cidr).None? then None
    else Some(Subnet(parse.net(cidr).value, Each(ListField(spec, EXCLUDED), (j: Json) => parse.entry(TextOf(j)))))
  }

  function SubnetNow(parse: Parser, obj: Option<Spec>): Option<Subnet> {
    if obj.None? then None else SubnetIn(parse, obj.value)
  }

  /** The subnet is read from `cidrBlock` and from every entry of `excludeIps`. */
  lemma SubnetInIs(parse: Parser, spec: Spec)
    ensures var subnet := SubnetIn(parse, spec);
            && (subnet.Some? <==> "cidrBlock" in spec && spec["cidrBlock"].Str? && spec["cidrBlock"].s != ""
                                  && parse.net(spec["cidrBlock"].s).Some?)
            && (subnet.Some? ==>
                  && parse.net(spec["cidrBlock"].s) == Some(subnet.value.network)
                  && |subnet.value.excludeIps| == |ListField(spec, "excludeIps")|
                  && forall i | 0 <= i < |subnet.value.excludeIps| ::
                       subnet.value.excludeIps[i] == parse.entry(TextOf(ListField(spec, "excludeIps")[i])))
  {
  }

  /** A CIDR that does not parse makes `build_transit_deny` raise, which is only called without a deny. */
  predicate Raises(parse: Parser, call: Call, spec: Spec) {
    && Effective(call) && call.Ensure? && CidrOf(spec) != "" && parse.net(CidrOf(spec)).None?
    && !exists a <- DropStale(call, AclsOf(Some(spec))) :: IsDeny(a)
  }

  /** The `mutate` of `ensure_transit_acls` and of `remove_tenant_transit`. A call that raises writes
      nothing. */
  function Mutate(parse: Parser, call: Call): C.Mutation {
    (spec: Spec) =>
      var before := AclsOf(Some(spec));
      var after := After(SubnetIn(parse, spec), call, before);
      if Raises(parse, call, spec) || after == before then None else Some(map[ACLS := Arr(Each(after, Encode))])
  }

  /** While there is no deny, a call that asks for anything on a subnet whose CIDR does not parse writes
      nothing: no allow is ever written before the deny because of it. */
  lemma RaisingWritesNothing(parse: Parser, call: Call, spec: Spec)
    requires Effective(call) && call.Ensure?
    requires "cidrBlock" in spec && spec["cidrBlock"].Str? && spec["cidrBlock"].s != "" && parse.net(spec["cidrBlock"].s).None?
    requires forall a <- AclsOf(Some(spec)) :: !(a.action == "drop" && a.priority == 3000)
    ensures Mutate(parse, call)(spec).None?
  {
    DenySurvives(call, AclsOf(Some(spec)));
  }

  function Requests(parse: Parser, calls: seq<Call>, retries: nat): (reqs: seq<C.Request>)
    ensures |reqs| == |calls| && forall c | 0 <= c < |calls| :: reqs[c] == C.Request(Mutate(parse, calls[c]), retries)
  {
    seq(|calls|, c requires 0 <= c < |calls| => C.Request(Mutate(parse, calls[c]), retries))
  }

  /** A call that writes turns the stored list into what `After` says, with the subnet of the very
      spec that it patches. */
  lemma CallWrites(parse: Parser, call: Call, retries: nat, spec: Spec)
    requires Mutate(parse, call)(spec).Some?
    ensures AclsOf(C.Atomically(C.Request(Mutate(parse, call), retries), Some(spec)))
            == After(SubnetIn(parse, spec), call, AclsOf(Some(spec)))
  {
    ListReadBack(spec, After(SubnetIn(parse, spec), call, AclsOf(Some(spec))));
  }

  // ---- Interleavings

  /** The call behind write k, if it is one of ours, and the subnet in the spec that it read. */
  function CommitAt(parse: Parser, calls: seq<Call>, initial: Option<Spec>, log: seq<C.Write>, k: nat): Option<Commit>
    requires k < |log|
  {
    var w := log[k].writer;
    if w.Some? && w.value < |calls| then Some(Commit(calls[w.value], SubnetNow(parse, C.At(initial, log, k)))) else None
  }

  function Writes(parse: Parser, calls: seq<Call>, initial: Option<Spec>, log: seq<C.Write>): (r: seq<Option<Commit>>)
    ensures |r| == |log| && forall k | 0 <= k < |log| :: r[k] == CommitAt(parse, calls, initial, log, k)
  {
    seq(|log|, k requires 0 <= k < |log| => CommitAt(parse, calls, initial, log, k))
  }

  function Somes(writes: seq<Option<Commit>>): seq<Commit> {
    if writes == [] then []
    else
      var before, last := Somes(writes[..|writes| - 1]), writes[|writes| - 1];
      if last.Some? then before + [last.value] else before
  }

  /** The commits of a run, in the order in which they landed. */
  function Committed(parse: Parser, calls: seq<Call>, initial: Option<Spec>, log: seq<C.Write>): seq<Commit> {
    Somes(Writes(parse, calls, initial, log))
  }

  /** Whoever else writes the subnet leaves its ACL list alone. */
  ghost predicate ListLeftAlone(initial: Option<Spec>, log: seq<C.Write>) {
    forall k | 0 <= k < |log| && log[k].writer.None? :: AclsOf(log[k].after) == AclsOf(C.At(initial, log, k))
  }

  function ListHistory(initial: Option<Spec>, log: seq<C.Write>): (h: seq<seq<Acl>>)
    ensures |h| == |log| + 1 && forall k | 0 <= k <= |log| :: h[k] == AclsOf(C.At(initial, log, k))
  {
    seq(|log| + 1, k requires 0 <= k <= |log| => AclsOf(C.At(initial, log, k)))
  }

  /** A write edits the list as its commit says, or not at all. */
  ghost predicate Edits(after: (Commit, seq<Acl>) -> seq<Acl>, w: Option<Commit>, before: seq<Acl>, next: seq<Acl>) {
    next == if w.Some? then after(w.value, before) else before
  }

  lemma WriteEdits(parse: Parser, calls: seq<Call>, retries: nat, initial: Option<Spec>, log: seq<C.Write>, k: nat)
    requires C.LogOk(Requests(parse, calls, retries), initial, log) && ListLeftAlone(initial, log) && k < |log|
    ensures Edits((c: Commit, acls) => After(c.subnet, c.call, acls), CommitAt(parse, calls, initial, log, k),
                  AclsOf(C.At(initial, log, k)), AclsOf(C.At(initial, log, k + 1)))
  {
    if log[k].writer.Some? {
      C.CommitIsAtomic(Requests(parse, calls, retries), initial, log, k);
      CallWrites(parse, calls[log[k].writer.value], retries, C.At(initial, log, k).value);
    }
  }

  /** A history in which every write does what its commit says is a run of the commits. */
  lemma {:induction false} HistoryIsRun(after: (Commit, seq<Acl>) -> seq<Acl>, run: seq<Commit> -> seq<Acl>,
                                        writes: seq<Option<Commit>>, history: seq<seq<Acl>>)
    requires |history| == |writes| + 1 && history[0] == run([])
    requires forall before: seq<Commit>, c: Commit :: run(before + [c]) == after(c, run(before))
    requires forall i | 0 <= i < |writes| :: Edits(after, writes[i], history[i], history[i + 1])
    ensures history[|writes|] == run(Somes(writes))
  {
    if writes != [] {
      var n := |writes| - 1;
      forall i | 0 <= i < n
        ensures Edits(after, writes[..n][i], history[..n + 1][i], history[..n + 1][i + 1])
      {
        assert Edits(after, writes[i], history[i], history[i + 1]);
      }
      HistoryIsRun(after, run, writes[..n], history[..n + 1]);
      assert Edits(after, writes[n], history[n], history[n + 1]);
    }
  }

  lemma RunSnoc(commits: seq<Commit>, c: Commit)
    ensures AfterRun(commits + [c]) == After(c.subnet, c.call, AfterRun(commits))
  {
    assert (commits + [c])[..|commits|] == commits;
  }

  lemma ListIsRun(parse: Parser, calls: seq<Call>, retries: nat, initial: Option<Spec>, log: seq<C.Write>)
    requires C.LogOk(Requests(parse, calls, retries), initial, log) && ListLeftAlone(initial, log) && AclsOf(initial) == []
    ensures AclsOf(C.Current(initial, log)) == AfterRun(Committed(parse, calls, initial, log))
  {
    var after, run := (c: Commit, acls) => After(c.subnet, c.call, acls), (done: seq<Commit>) => AfterRun(done);
    forall before: seq<Commit>, c: Commit
      ensures run(before + [c]) == after(c, run(before))
    {
      RunSnoc(before, c);
    }
    var history, writes := ListHistory(initial, log), Writes(parse, calls, initial, log);
    forall i | 0 <= i < |log|
      ensures Edits(after, writes[i], history[i], history[i + 1])
    {
      WriteEdits(parse, calls, retries, initial, log, i);
    }
    HistoryIsRun(after, run, writes, history);
  }

  /** In every interleaving of ensure and remove calls on a subnet whose list was empty, with retries,
      lost replies, CIDRs that are missing or do not parse, and foreign writes to any other field: a
      packet passes if and only if a committed call asked for its flow and no later one dropped its
      source, or there is no deny, or its source is out of the scope of the deny. That is the deny of the
      spec that the first commit read which asked for anything and found a CIDR. */
  lemma EveryInterleavingConfines(parse: Parser, calls: seq<Call>, retries: nat, obj: Option<Spec>,
                                  steps: seq<C.Step>, p: Packet)
    requires AclsOf(obj) == []
    requires ListLeftAlone(obj, C.Run(Requests(parse, calls, retries), obj, steps).log)
    ensures var log := C.Run(Requests(parse, calls, retries), obj, steps).log;
            var commits := Committed(parse, calls, obj, log);
            && FoundedBy(commits, Founding(commits))
            && (Passes(AclsOf(C.Current(obj, log)), p) <==> Granted(commits, FlowOf(p)) || !InScope(Founding(commits), p.src))
  {
    var log := C.Run(Requests(parse, calls, retries), obj, steps).log;
    C.RunKeepsInv(Requests(parse, calls, retries), obj, steps);
    ListIsRun(parse, calls, retries, obj, log);
    FoundingIsFirst(Committed(parse, calls, obj, log));
    PassesIffGranted(Committed(parse, calls, obj, log), p);
  }

  /** While CIDR and exclusions are as the founding commit read them, an address that kube-ovn may hand
      out now gets through if and only if it has a grant, and an excluded one always, unless the
      exclusions leave nothing to hand out. */
  lemma ConfinedWhileUnchanged(parse: Parser, calls: seq<Call>, retries: nat, obj: Option<Spec>,
                               steps: seq<C.Step>, subnet: Subnet, p: Packet)
    requires AclsOf(obj) == []
    requires ListLeftAlone(obj, C.Run(Requests(parse, calls, retries), obj, steps).log)
    requires var log := C.Run(Requests(parse, calls, retries), obj, steps).log;
             SubnetNow(parse, C.Current(obj, log)) == Some(subnet) == Founding(Committed(parse, calls, obj, log))
    ensures var log := C.Run(Requests(parse, calls, retries), obj, steps).log;
            var passes := Passes(AclsOf(C.Current(obj, log)), p);
            && (Allocatable(subnet.network, subnet.excludeIps, p.src) ==>
                  (passes <==> Granted(Committed(parse, calls, obj, log), FlowOf(p))))
            && (!Allocatable(subnet.network, subnet.excludeIps, p.src)
                && (exists a: int :: Allocatable(subnet.network, subnet.excludeIps, a))
                ==> passes)
  {
    EveryInterleavingConfines(parse, calls, retries, obj, steps, p);
    DenyScope(subnet.network, subnet.excludeIps, p.src);
  }

  // ---- A deny that is out of date

  /** A subnet with one exclusion and an empty list. */
  function Fresh(cidr: string, entry: string): Spec {
    map["cidrBlock" := Str(cidr), "excludeIps" := Arr([Str(entry)])]
  }

  lemma FreshSubnet(parse: Parser, cidr: string, entry: string, net: Prefix)
    requires cidr != "" && parse.net(cidr) == Some(net)
    ensures SubnetIn(parse, Fresh(cidr, entry)) == Some(Subnet(net, [parse.entry(entry)]))
    ensures AclsOf(Some(Fresh(cidr, entry))) == []
  {
    var spec := Fresh(cidr, entry);
    assert CidrOf(spec) == cidr && ListField(spec, EXCLUDED) == [Str(entry)];
    EachOne(Str(entry), (j: Json) => parse.entry(TextOf(j)));
    assert TextOf(Str(entry)) == entry;
  }

  function FirstCall(b: Addr, vip: Addr, port: nat): Call {
    Ensure(b, vip, [port], [], None)
  }

  lemma FirstCallAsks(b: Addr, vip: Addr, port: nat)
    requires port != 0
    ensures Asked(FirstCall(b, vip, port)) == [Flow(b, vip, Tcp, port)]
  {
    var ports := [port];
    assert ports[..0] == [];
    assert PortFlows(b, vip, Tcp, ports) == [Flow(b, vip, Tcp, port)];
  }

  lemma FirstCallWrites(parse: Parser, call: Call, spec: Spec)
    requires Effective(call) && call.Ensure? && AclsOf(Some(spec)) == [] && SubnetIn(parse, spec).Some?
    ensures Mutate(parse, call)(spec).Some?
  {
    DenyIsThere(SubnetIn(parse, spec), call, []);
  }

  /** The exclusions are lifted after the call. */
  function Lifted(spec: Spec): Spec {
    spec["excludeIps" := Arr([])]
  }

  lemma LiftedKeepsList(parse: Parser, cidr: string, entry: string, net: Prefix, items: seq<Json>)
    requires cidr != "" && parse.net(cidr) == Some(net)
    ensures var written := MergeSpec(Fresh(cidr, entry), map[ACLS := Arr(items)]);
            && AclsOf(Some(Lifted(written))) == AclsOf(Some(written))
            && SubnetIn(parse, Lifted(written)) == Some(Subnet(net, []))
  {
    MergeOneList(Fresh(cidr, entry), ACLS, items);
  }

  lemma {:induction false} OneCommit(parse: Parser, call: Call, spec: Spec, log: seq<C.Write>)
    requires |log| == 2 && log[0].writer == Some(0) && log[1].writer == None
    ensures Committed(parse, [call], Some(spec), log) == [Commit(call, SubnetIn(parse, spec))]
  {
    var writes := Writes(parse, [call], Some(spec), log);
    assert writes[0] == Some(Commit(call, SubnetIn(parse, spec))) && writes[1] == None;
    assert writes == [writes[0], writes[1]];
    assert writes[..1] == [writes[0]] && writes[..1][..0] == [];
    assert Somes(writes[..1]) == [writes[0].value];
  }

  lemma OutOfScope(net: Prefix, a: Addr, b: Addr)
    requires Contains(net, a) && Contains(net, b) && a != b && a != First(net) && b != First(net)
    ensures !InScope(Some(Subnet(net, [Single(a)])), a) && Allocatable(net, [], a)
  {
    var entries := [Single(a)];
    assert Excludes(entries[0], a);
    assert Allocatable(net, entries, b);
    DenyScope(net, entries, a);
  }

  lemma NotGranted(call: Call, subnet: Option<Subnet>, p: Packet)
    requires call.eip != p.src
    ensures !Granted([Commit(call, subnet)], FlowOf(p))
  {
  }

  lemma FoundingOfOne(c: Commit)
    requires Founds(c)
    ensures Founding([c]) == c.subnet
  {
    FoundingLast([], c);
    assert [] + [c] == [c];
  }

  /** The log of a call and of the write that lifts the exclusions. */
  ghost predicate IsLiftedLog(log: seq<C.Write>, written: Spec) {
    log == [C.Write(Some(0), Some(written)), C.Write(None, Some(Lifted(written)))]
  }

  lemma LiftedLog(req: C.Request, spec: Spec, items: seq<Json>) returns (steps: seq<C.Step>)
    requires req.retries > 0 && req.mutate(spec) == Some(map[ACLS := Arr(items)])
    ensures IsLiftedLog(C.Run([req], Some(spec), steps).log, MergeSpec(spec, map[ACLS := Arr(items)]))
  {
    var after := Some(Lifted(MergeSpec(spec, map[ACLS := Arr(items)])));
    steps := C.CallThenForeign(after);
    C.CallThenForeignLog(req, spec, after);
  }

  lemma PatchIsList(parse: Parser, call: Call, spec: Spec) returns (items: seq<Json>)
    requires Mutate(parse, call)(spec).Some?
    ensures Mutate(parse, call)(spec) == Some(map[ACLS := Arr(items)])
  {
    items := Each(After(SubnetIn(parse, spec), call, AclsOf(Some(spec))), Encode);
  }

  lemma FreshPatch(parse: Parser, cidr: string, entry: string, net: Prefix, call: Call) returns (items: seq<Json>)
    requires cidr != "" && parse.net(cidr) == Some(net) && Effective(call) && call.Ensure?
    ensures C.Request(Mutate(parse, call), 1).mutate(Fresh(cidr, entry)) == Some(map[ACLS := Arr(items)])
  {
    FreshSubnet(parse, cidr, entry, net);
    FirstCallWrites(parse, call, Fresh(cidr, entry));
    items := PatchIsList(parse, call, Fresh(cidr, entry));
  }

  lemma OneRequest(parse: Parser, call: Call)
    ensures Requests(parse, [call], 1) == [C.Request(Mutate(parse, call), 1)]
  {
  }

  lemma LiftedRun(parse: Parser, cidr: string, entry: string, net: Prefix, call: Call)
    returns (steps: seq<C.Step>, written: Spec, items: seq<Json>)
    requires cidr != "" && parse.net(cidr) == Some(net) && Effective(call) && call.Ensure?
    ensures IsLiftedLog(C.Run(Requests(parse, [call], 1), Some(Fresh(cidr, entry)), steps).log, written)
    ensures written == MergeSpec(Fresh(cidr, entry), map[ACLS := Arr(items)])
  {
    items := FreshPatch(parse, cidr, entry, net, call);
    written := MergeSpec(Fresh(cidr, entry), map[ACLS := Arr(items)]);
    OneRequest(parse, call);
    steps := LiftedLog(Requests(parse, [call], 1)[0], Fresh(cidr, entry), items);
  }

  lemma LiftedFacts(parse: Parser, cidr: string, entry: string, net: Prefix, call: Call, log: seq<C.Write>, written: Spec, items: seq<Json>)
    requires cidr != "" && parse.net(cidr) == Some(net) && IsLiftedLog(log, written)
    requires written == MergeSpec(Fresh(cidr, entry), map[ACLS := Arr(items)])
    ensures var obj := Some(Fresh(cidr, entry));
            && AclsOf(obj) == [] && ListLeftAlone(obj, log)
            && SubnetNow(parse, C.Current(obj, log)) == Some(Subnet(net, []))
            && Committed(parse, [call], obj, log) == [Commit(call, Some(Subnet(net, [parse.entry(entry)])))]
  {
    FreshSubnet(parse, cidr, entry, net);
    LiftedKeepsList(parse, cidr, entry, net, items);
    OneCommit(parse, call, Fresh(cidr, entry), log);
  }

  /** The address is allocatable now, and gets through without a grant. */
  ghost predicate GetsThrough(parse: Parser, calls: seq<Call>, obj: Option<Spec>, log: seq<C.Write>, p: Packet) {
    && AclsOf(obj) == [] && ListLeftAlone(obj, log)
    && var now := SubnetNow(parse, C.Current(obj, log));
    && now.Some? && Allocatable(now.value.network, now.value.excludeIps, p.src)
    && Passes(AclsOf(C.Current(obj, log)), p) && !Granted(Committed(parse, calls, obj, log), FlowOf(p))
  }

  /** After the founding commit the deny is not written again. Here address a is excluded when tenant b
      asks for its flow, and the exclusion is lifted later: from then on a may be handed out, and gets
      through without a grant. */
  lemma StaleDenyLetsThrough(parse: Parser, cidr: string, entry: string, net: Prefix, a: Addr, b: Addr, vip: Addr, port: nat)
    returns (steps: seq<C.Step>)
    requires cidr != "" && parse.net(cidr) == Some(net) && parse.entry(entry) == Single(a) && port != 0
    requires Contains(net, a) && Contains(net, b) && a != b && a != First(net) && b != First(net)
    ensures var calls, obj := [FirstCall(b, vip, port)], Some(Fresh(cidr, entry));
            GetsThrough(parse, calls, obj, C.Run(Requests(parse, calls, 1), obj, steps).log, Packet(a, vip, Tcp, port))
  {
    var call, obj, p := FirstCall(b, vip, port), Some(Fresh(cidr, entry)), Packet(a, vip, Tcp, port);
    FirstCallAsks(b, vip, port);
    var written, items;
    steps, written, items := LiftedRun(parse, cidr, entry, net, call);
    LiftedFacts(parse, cidr, entry, net, call, C.Run(Requests(parse, [call], 1), obj, steps).log, written, items);
    var c := Commit(call, Some(Subnet(net, [parse.entry(entry)])));
    FoundingOfOne(c);
    OutOfScope(net, a, b);
    NotGranted(call, c.subnet, p);
    EveryInterleavingConfines(parse, [call], 1, obj, steps, p);
  }
}
