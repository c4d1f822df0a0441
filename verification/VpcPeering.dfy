/** The writers of `spec.vpcPeerings` in vpc_peering.py, as clients of the compare-and-set protocol. */
module VpcPeering {
  import opened Options
  import opened Json
  import opened Lists
  import opened Cas

  const PEERINGS := "vpcPeerings"
  const REMOTE := "remoteVpc"
  const LOCAL_IP := "localConnectIP"

  datatype PeeringCall =
    | Ensure(remote: string, ip: string)
    | Remove(remote: string)

  /** The elements whose `key` is, or is not, `value`; in order. */
  function Select(items: seq<Json>, key: string, value: Json, same: bool): seq<Json> {
    if items == [] then []
    else
      var front, i := Select(items[..|items| - 1], key, value, same), items[|items| - 1];
      if (Field(i, key) == value) == same then front + [i] else front
  }

  /** `upsert` of cas.py: replace the element with the key of `entry`, else append. */
  function Upsert(items: seq<Json>, entry: Json, key: string): seq<Json> {
    Select(items, key, Field(entry, key), false) + [entry]
  }

  function Entry(remote: string, ip: string): Json {
    Obj(map[REMOTE := Str(remote), LOCAL_IP := Str(ip)])
  }

  predicate Declares(p: Json, remote: string, ip: string) {
    Field(p, "remoteVpc") == Str(remote) && Field(p, "localConnectIP") == Str(ip)
  }

  /** The `mutate` of `ensure_vpc_peering` and of `remove_vpc_peering`. */
  function Mutate(call: PeeringCall): Mutation {
    (spec: Spec) =>
      var peerings := ListField(spec, PEERINGS);
      match call
      case Ensure(remote, ip) =>
        if exists p <- peerings :: Declares(p, remote, ip) then None
        else Some(map[PEERINGS := Arr(Upsert(peerings, Entry(remote, ip), REMOTE))])
      case Remove(remote) =>
        var remaining := Select(peerings, REMOTE, Str(remote), false);
        if |remaining| == |peerings| then None else Some(map[PEERINGS := Arr(remaining)])
  }

  function Requests(calls: seq<PeeringCall>, retries: nat): (reqs: seq<Request>)
    ensures |reqs| == |calls| && forall c | 0 <= c < |calls| :: reqs[c] == Request(Mutate(calls[c]), retries)
  {
    seq(|calls|, c requires 0 <= c < |calls| => Request(Mutate(calls[c]), retries))
  }

  // ---- What one write does to the list

  /** The entries of the VPC for one remote VPC, in order. */
  function Entries(obj: Option<Spec>, remote: string): seq<Json> {
    if obj.None? then [] else Select(ListField(obj.value, "vpcPeerings"), "remoteVpc", Str(remote), true)
  }

  lemma {:induction false} SelectConcat(a: seq<Json>, b: seq<Json>, key: string, value: Json, same: bool)
    ensures Select(a + b, key, value, same) == Select(a, key, value, same) + Select(b, key, value, same)
  {
    if b == [] {
      assert a + b == a;
    } else {
      assert (a + b)[..|a + b| - 1] == a + b[..|b| - 1];
      SelectConcat(a, b[..|b| - 1], key, value, same);
    }
  }

  /** Dropping one key leaves the entries of every other key as they are, and none of its own. */
  lemma {:induction false} SelectOther(items: seq<Json>, key: string, value: Json, other: Json)
    ensures Select(Select(items, key, value, false), key, other, true) ==
            if other == value then [] else Select(items, key, other, true)
  {
    if items != [] {
      var front, i := items[..|items| - 1], items[|items| - 1];
      SelectOther(front, key, value, other);
      SelectConcat(Select(front, key, value, false), [i], key, other, true);
      assert Select([i], key, other, true) == if Field(i, key) == other then [i] else [];
    }
  }

  lemma {:induction false} SelectElements(items: seq<Json>, key: string, value: Json, p: Json)
    ensures p in Select(items, key, value, true) <==> p in items && Field(p, key) == value
  {
    if items != [] {
      SelectElements(items[..|items| - 1], key, value, p);
      assert items == items[..|items| - 1] + [items[|items| - 1]];
    }
  }

  lemma {:induction false} SelectSplits(items: seq<Json>, key: string, value: Json)
    ensures |Select(items, key, value, true)| + |Select(items, key, value, false)| == |items|
  {
    if items != [] {
      SelectSplits(items[..|items| - 1], key, value);
    }
  }

  lemma UpsertEntries(items: seq<Json>, entry: Json, key: string, other: Json)
    ensures Select(Upsert(items, entry, key), key, other, true) ==
            if other == Field(entry, key) then [entry] else Select(items, key, other, true)
  {
    SelectConcat(Select(items, key, Field(entry, key), false), [entry], key, other, true);
    SelectOther(items, key, Field(entry, key), other);
    assert Select([entry], key, other, true) == if Field(entry, key) == other then [entry] else [];
  }

  /** The entry comes last, after everything with another key in its old order. */
  lemma UpsertAppends(items: seq<Json>, entry: Json, key: string)
    ensures var after := Upsert(items, entry, key);
            && after != [] && after[|after| - 1] == entry
            && after[..|after| - 1] == Select(items, key, Field(entry, key), false)
            && forall i <- after[..|after| - 1] :: i in items && Field(i, key) != Field(entry, key)
  {
    forall i: Json
      ensures i in Select(items, key, Field(entry, key), false) ==> i in items && Field(i, key) != Field(entry, key)
    {
      OthersAre(items, key, Field(entry, key), i);
    }
  }

  lemma {:induction false} OthersAre(items: seq<Json>, key: string, value: Json, p: Json)
    ensures p in Select(items, key, value, false) <==> p in items && Field(p, key) != value
  {
    if items != [] {
      OthersAre(items[..|items| - 1], key, value, p);
      assert items == items[..|items| - 1] + [items[|items| - 1]];
    }
  }

  /** Entries of other VPCs stay, in order, and so does every other field of the spec. */
  ghost predicate OthersKept(call: PeeringCall, before: Spec, after: Spec) {
    && after - {PEERINGS} == before - {PEERINGS}
    && forall r: string | r != call.remote :: Entries(Some(after), r) == Entries(Some(before), r)
  }

  /** What the caller wants of the entries of its VPC. */
  ghost predicate Satisfied(call: PeeringCall, obj: Option<Spec>) {
    match call
    case Ensure(r, ip) => exists p <- Entries(obj, r) :: Declares(p, r, ip)
    case Remove(r) => Entries(obj, r) == []
  }

  /** Writing a list of peerings changes the entries to those of the list, and no other field. */
  lemma ListWritten(spec: Spec, items: seq<Json>, r: string)
    ensures var after := MergeSpec(spec, map[PEERINGS := Arr(items)]);
            && after - {PEERINGS} == spec - {PEERINGS}
            && Entries(Some(after), r) == Select(items, REMOTE, Str(r), true)
  {
    MergeOneList(spec, PEERINGS, items);
  }

  lemma UpsertWrites(call: PeeringCall, entry: Json, spec: Spec)
    requires Field(entry, REMOTE) == Str(call.remote)
    ensures var after := MergeSpec(spec, map[PEERINGS := Arr(Upsert(ListField(spec, PEERINGS), entry, REMOTE))]);
            && OthersKept(call, spec, after)
            && Entries(Some(after), call.remote) == [entry]
  {
    var peerings := ListField(spec, PEERINGS);
    var items := Upsert(peerings, entry, REMOTE);
    var after := MergeSpec(spec, map[PEERINGS := Arr(items)]);
    ListWritten(spec, items, call.remote);
    UpsertEntries(peerings, entry, REMOTE, Str(call.remote));
    forall r: string | r != call.remote
      ensures Entries(Some(after), r) == Entries(Some(spec), r)
    {
      ListWritten(spec, items, r);
      UpsertEntries(peerings, entry, REMOTE, Str(r));
    }
  }

  lemma EnsureWrites(remote: string, ip: string, spec: Spec)
    ensures var items := Upsert(ListField(spec, PEERINGS), Entry(remote, ip), REMOTE);
            var after := MergeSpec(spec, map[PEERINGS := Arr(items)]);
            && OthersKept(Ensure(remote, ip), spec, after)
            && Entries(Some(after), remote) == [Entry(remote, ip)]
  {
    UpsertWrites(Ensure(remote, ip), Entry(remote, ip), spec);
  }

  lemma RemoveWrites(remote: string, spec: Spec)
    ensures var items := Select(ListField(spec, PEERINGS), REMOTE, Str(remote), false);
            var after := MergeSpec(spec, map[PEERINGS := Arr(items)]);
            && OthersKept(Remove(remote), spec, after)
            && Entries(Some(after), remote) == []
  {
    var peerings := ListField(spec, PEERINGS);
    var items := Select(peerings, REMOTE, Str(remote), false);
    var after := MergeSpec(spec, map[PEERINGS := Arr(items)]);
    ListWritten(spec, items, remote);
    SelectOther(peerings, REMOTE, Str(remote), Str(remote));
    forall r: string | r != remote
      ensures Entries(Some(after), r) == Entries(Some(spec), r)
    {
      ListWritten(spec, items, r);
      SelectOther(peerings, REMOTE, Str(remote), Str(r));
    }
  }

  /** What a whole call, done alone, makes of the spec. */
  ghost predicate TouchesItsKey(call: PeeringCall, spec: Spec, patch: Option<Spec>, after: Option<Spec>) {
    && after.Some?
    && OthersKept(call, spec, after.value)
    && Satisfied(call, after)
    && (patch.Some? ==> Entries(after, call.remote) == if call.Ensure? then [Entry(call.remote, call.ip)] else [])
    && (patch.None? <==> Satisfied(call, Some(spec)))
  }

  /** A call changes nothing but the entries of the VPC it names, and then leaves exactly the
      wanted entry, or none; it makes no write only when the wanted state is already there. */
  lemma CallTouchesItsKey(call: PeeringCall, retries: nat, spec: Spec)
    ensures TouchesItsKey(call, spec, Mutate(call)(spec), Atomically(Request(Mutate(call), retries), Some(spec)))
  {
    match call
    case Ensure(r, ip) => EnsureTouches(r, ip, spec, Mutate(call)(spec));
    case Remove(r) => RemoveTouches(r, spec, Mutate(call)(spec));
  }

  function Patched(spec: Spec, patch: Option<Spec>): Option<Spec> {
    Some(if patch.None? then spec else MergeSpec(spec, patch.value))
  }

  lemma SameKept(call: PeeringCall, spec: Spec)
    ensures OthersKept(call, spec, spec)
  {
  }

  /** From what is known of the two cases of a call to the whole. */
  lemma Touches(call: PeeringCall, spec: Spec, patch: Option<Spec>, after: Spec)
    requires patch.None? <==> Satisfied(call, Some(spec))
    requires patch.None? ==> after == spec
    requires patch.Some? ==>
               && OthersKept(call, spec, after)
               && Entries(Some(after), call.remote) == if call.Ensure? then [Entry(call.remote, call.ip)] else []
    ensures TouchesItsKey(call, spec, patch, Some(after))
  {
    if patch.None? {
      SameKept(call, spec);
    } else if call.Ensure? {
      assert Declares(Entry(call.remote, call.ip), call.remote, call.ip);
    }
  }

  lemma EnsureTouches(r: string, ip: string, spec: Spec, patch: Option<Spec>)
    requires patch == Mutate(Ensure(r, ip))(spec)
    ensures TouchesItsKey(Ensure(r, ip), spec, patch, Patched(spec, patch))
  {
    EnsureSatisfied(r, ip, spec);
    EnsureWrites(r, ip, spec);
    Touches(Ensure(r, ip), spec, patch, Patched(spec, patch).value);
  }

  lemma RemoveTouches(r: string, spec: Spec, patch: Option<Spec>)
    requires patch == Mutate(Remove(r))(spec)
    ensures TouchesItsKey(Remove(r), spec, patch, Patched(spec, patch))
  {
    SelectSplits(ListField(spec, PEERINGS), REMOTE, Str(r));
    RemoveWrites(r, spec);
    Touches(Remove(r), spec, patch, Patched(spec, patch).value);
  }

  lemma EnsureSatisfied(remote: string, ip: string, spec: Spec)
    ensures Satisfied(Ensure(remote, ip), Some(spec)) <==> exists p <- ListField(spec, PEERINGS) :: Declares(p, remote, ip)
  {
    forall p: Json {
      SelectElements(ListField(spec, PEERINGS), REMOTE, Str(remote), p);
    }
  }

  // ---- No lost updates

  /** The writes i..j of a run were all made by calls for other VPCs than `remote`. */
  ghost predicate Untargeted(calls: seq<PeeringCall>, log: seq<Write>, remote: string, i: nat, j: nat)
    requires i <= j <= |log|
  {
    forall k | i <= k < j :: log[k].writer.Some? &&
      (log[k].writer.value < |calls| ==> calls[log[k].writer.value].remote != remote)
  }

  ghost predicate SameEntries(initial: Option<Spec>, log: seq<Write>, remote: string, k: nat)
    requires k < |log|
  {
    Entries(At(initial, log, k + 1), remote) == Entries(At(initial, log, k), remote)
  }

  lemma WriteKeepsEntries(calls: seq<PeeringCall>, retries: nat, initial: Option<Spec>, log: seq<Write>, remote: string, k: nat)
    requires LogOk(Requests(calls, retries), initial, log)
    requires k < |log| && Untargeted(calls, log, remote, k, k + 1)
    ensures SameEntries(initial, log, remote, k)
  {
    CommitIsAtomic(Requests(calls, retries), initial, log, k);
    OthersStay(calls[log[k].writer.value], retries, At(initial, log, k).value, remote);
  }

  lemma EntriesStay(calls: seq<PeeringCall>, retries: nat, initial: Option<Spec>, log: seq<Write>,
                    remote: string, i: nat, j: nat)
    requires LogOk(Requests(calls, retries), initial, log)
    requires i <= j <= |log| && Untargeted(calls, log, remote, i, j)
    ensures Entries(At(initial, log, j), remote) == Entries(At(initial, log, i), remote)
  {
    var history := seq(|log| + 1, k requires 0 <= k <= |log| => Entries(At(initial, log, k), remote));
    forall k | i <= k < j
      ensures history[k] == history[k + 1]
    {
      WriteKeepsEntries(calls, retries, initial, log, remote, k);
    }
    NeverChanges(history, i, j);
  }

  lemma OthersStay(call: PeeringCall, retries: nat, spec: Spec, remote: string)
    requires remote != call.remote
    ensures Entries(Atomically(Request(Mutate(call), retries), Some(spec)), remote) == Entries(Some(spec), remote)
  {
    CallTouchesItsKey(call, retries, spec);
  }

  /** No entry is lost or changed except by a call that names its VPC, in any interleaving. */
  lemma NoEntryLost(calls: seq<PeeringCall>, retries: nat, obj: Option<Spec>, steps: seq<Step>,
                    remote: string, i: nat, j: nat)
    requires i <= j <= |Run(Requests(calls, retries), obj, steps).log|
    requires Untargeted(calls, Run(Requests(calls, retries), obj, steps).log, remote, i, j)
    ensures var log := Run(Requests(calls, retries), obj, steps).log;
            Entries(At(obj, log, j), remote) == Entries(At(obj, log, i), remote)
  {
    RunKeepsInv(Requests(calls, retries), obj, steps);
    EntriesStay(calls, retries, obj, Run(Requests(calls, retries), obj, steps).log, remote, i, j);
  }

  /** A peering that a call reported as written is there at the end, alone under its key, unless a
      later write named the same VPC or came from outside. */
  lemma WrittenPeeringRemains(calls: seq<PeeringCall>, retries: nat, obj: Option<Spec>, steps: seq<Step>, c: nat)
    requires c < |calls| && calls[c].Ensure?
    requires Run(Requests(calls, retries), obj, steps).phases[c].Finished?
    requires Run(Requests(calls, retries), obj, steps).phases[c].outcome.Written?
    requires var s := Run(Requests(calls, retries), obj, steps);
             s.phases[c].until <= |s.log| && Untargeted(calls, s.log, calls[c].remote, s.phases[c].until, |s.log|)
    ensures Entries(Current(obj, Run(Requests(calls, retries), obj, steps).log), calls[c].remote) ==
            [Entry(calls[c].remote, calls[c].ip)]
  {
    RunKeepsInv(Requests(calls, retries), obj, steps);
    PeeringRemains(calls, retries, Run(Requests(calls, retries), obj, steps), c);
  }

  lemma PeeringRemains(calls: seq<PeeringCall>, retries: nat, s: State, c: nat)
    requires Inv(Requests(calls, retries), s)
    requires c < |calls| && calls[c].Ensure? && s.phases[c].Finished? && s.phases[c].outcome.Written?
    requires s.phases[c].until <= |s.log| && Untargeted(calls, s.log, calls[c].remote, s.phases[c].until, |s.log|)
    ensures Entries(Current(s.initial, s.log), calls[c].remote) == [Entry(calls[c].remote, calls[c].ip)]
  {
    var reqs, u := Requests(calls, retries), s.phases[c].until;
    assert PhaseOk(reqs[c], s.initial, s.log, c, s.phases[c]);
    assert CommitOk(reqs, s.initial, s.log, u - 1);
    CallTouchesItsKey(calls[c], retries, At(s.initial, s.log, u - 1).value);
    EntriesStay(calls, retries, s.initial, s.log, calls[c].remote, u, |s.log|);
  }

  // ---- What `ensure_vpc_peering` returns

  /** It returns True: a patch was written, or there was nothing to write and the VPC is there when it
      is read once more, at version r. */
  predicate ReturnsTrue(s: State, c: nat, r: nat) {
    && c < |s.phases| && s.phases[c].Finished?
    && (s.phases[c].outcome.Written?
        || (s.phases[c].outcome.NothingWritten? && s.phases[c].until <= r <= |s.log| && At(s.initial, s.log, r).Some?))
  }

  /** A call that returned True leaves its peering in place, whether it wrote it or found it, unless a
      later write named the same VPC or came from outside. */
  lemma EnsuredPeeringRemains(calls: seq<PeeringCall>, retries: nat, obj: Option<Spec>, steps: seq<Step>, c: nat, r: nat)
    requires c < |calls| && calls[c].Ensure? && retries > 0
    requires ReturnsTrue(Run(Requests(calls, retries), obj, steps), c, r)
    requires var s := Run(Requests(calls, retries), obj, steps);
             s.phases[c].until <= |s.log| && Untargeted(calls, s.log, calls[c].remote, s.phases[c].until, |s.log|)
    ensures Satisfied(calls[c], Current(obj, Run(Requests(calls, retries), obj, steps).log))
  {
    RunKeepsInv(Requests(calls, retries), obj, steps);
    EnsuredRemains(calls, retries, Run(Requests(calls, retries), obj, steps), c, r);
  }

  lemma EnsuredRemains(calls: seq<PeeringCall>, retries: nat, s: State, c: nat, r: nat)
    requires Inv(Requests(calls, retries), s) && c < |calls| && calls[c].Ensure? && retries > 0 && ReturnsTrue(s, c, r)
    requires s.phases[c].until <= |s.log| && Untargeted(calls, s.log, calls[c].remote, s.phases[c].until, |s.log|)
    ensures Satisfied(calls[c], Current(s.initial, s.log))
  {
    var call, u := calls[c], s.phases[c].until;
    if s.phases[c].outcome.Written? {
      PeeringRemains(calls, retries, s, c);
      assert Declares(Entry(call.remote, call.ip), call.remote, call.ip);
    } else {
      assert PhaseOk(Requests(calls, retries)[c], s.initial, s.log, c, s.phases[c]);
      if u < |s.log| {
        CommitIsAtomic(Requests(calls, retries), s.initial, s.log, u);
      }
      FoundIsSatisfied(call, retries, At(s.initial, s.log, u).value);
      EntriesStay(calls, retries, s.initial, s.log, call.remote, u, |s.log|);
    }
  }

  lemma FoundIsSatisfied(call: PeeringCall, retries: nat, spec: Spec)
    requires Mutate(call)(spec).None?
    ensures Satisfied(call, Some(spec))
  {
    CallTouchesItsKey(call, retries, spec);
  }

  /** For a call that wrote nothing, True means that the peering was there when the call looked, if and
      only if the VPC was. */
  lemma FoundPeeringIff(calls: seq<PeeringCall>, retries: nat, obj: Option<Spec>, steps: seq<Step>, c: nat)
    requires c < |calls| && calls[c].Ensure? && retries > 0
    requires var p := Run(Requests(calls, retries), obj, steps).phases[c]; p.Finished? && p.outcome.NothingWritten?
    ensures var s := Run(Requests(calls, retries), obj, steps);
            && s.phases[c].until <= |s.log|
            && (Satisfied(calls[c], At(obj, s.log, s.phases[c].until)) <==> At(obj, s.log, s.phases[c].until).Some?)
  {
    RunKeepsInv(Requests(calls, retries), obj, steps);
    FoundIff(calls, retries, Run(Requests(calls, retries), obj, steps), c);
  }

  lemma FoundIff(calls: seq<PeeringCall>, retries: nat, s: State, c: nat)
    requires Inv(Requests(calls, retries), s) && c < |calls| && calls[c].Ensure? && retries > 0
    requires s.phases[c].Finished? && s.phases[c].outcome.NothingWritten?
    ensures s.phases[c].until <= |s.log|
    ensures Satisfied(calls[c], At(s.initial, s.log, s.phases[c].until)) <==> At(s.initial, s.log, s.phases[c].until).Some?
  {
    assert PhaseOk(Requests(calls, retries)[c], s.initial, s.log, c, s.phases[c]);
    var found := At(s.initial, s.log, s.phases[c].until);
    if found.Some? {
      FoundIsSatisfied(calls[c], retries, found.value);
    }
  }

  /** The failing family: if the VPC is created after the call looked for it, and before it is
      read once more, the call returns True and there is no peering. */
  lemma TrueWithoutPeering(remote: string, ip: string)
    ensures var s := Run(Requests([Ensure(remote, ip)], 5), None, [Start(0), Get(0), Foreign(Some(map[]))]);
            ReturnsTrue(s, 0, 1) && Entries(Current(None, s.log), remote) == []
  {
    var reqs, none: Option<Spec> := Requests([Ensure(remote, ip)], 5), None;
    RunSnoc(reqs, none, [], Start(0));
    RunSnoc(reqs, none, [Start(0)], Get(0));
    RunSnoc(reqs, none, [Start(0), Get(0)], Foreign(Some(map[])));
    assert [] + [Start(0)] == [Start(0)] && [Start(0)] + [Get(0)] == [Start(0), Get(0)];
    assert [Start(0), Get(0)] + [Foreign(Some(map[]))] == [Start(0), Get(0), Foreign(Some(map[]))];
    assert Run(reqs, none, []) == State(none, [], [Idle]);
    assert Run(reqs, none, [Start(0)]) == State(none, [], [Reading(0, 0)]);
    assert Run(reqs, none, [Start(0), Get(0)]) == State(none, [], [Finished(NothingWritten, 0, 0)]);
  }
}
