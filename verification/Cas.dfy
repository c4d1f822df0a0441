/**
  The compare-and-set protocol of cas.py. Many callers read an object, compute a patch from what
  they read and send it under the `resourceVersion` they read; a patch computed from a stale read
  is refused with 409 and the caller starts over, up to its number of retries.

  The object is its history of writes. Its version is the number of writes so far: the server
  gives every write a new version, and the protocol only ever compares versions for equality.
  A run is any sequence of steps of any of the callers and of anybody else; a step that is not
  possible in a state leaves it as it is, so every interleaving is some `seq<Step>`.
 */
module Cas {
  import opened Options
  import opened Json

  /** From the current spec, the fragment to merge into it, or None when there is nothing to do. */
  type Mutation = Spec -> Option<Spec>

  datatype Request = Request(mutate: Mutation, retries: nat)

  /** One write that landed: who (None is somebody outside the protocol), and the object after it
      (None when the write was a deletion). */
  datatype Write = Write(writer: Option<nat>, after: Option<Spec>)

  /** Why a call fails: an API error other than 404 and 409, a reply that was lost after the patch had
      landed, or a patch for an object that was there when it was read, at some version, and is gone. */
  datatype Cause = ApiError | ReplyLost | ObjectGone(read: nat)

  datatype Outcome = Written | NothingWritten | Conflict | Failed(cause: Cause)

  /** Where a call is. `since` and `until` are the versions at its start and end. */
  datatype Phase =
    | Idle
    | Reading(attempt: nat, since: nat)
    | Writing(attempt: nat, since: nat, patch: Spec, version: nat)
    | Finished(outcome: Outcome, since: nat, until: nat)

  datatype State = State(initial: Option<Spec>, log: seq<Write>, phases: seq<Phase>)

  datatype Step =
    | Start(caller: nat)
    | Get(caller: nat)
    | Patch(caller: nat)
    | LoseReply(caller: nat)           // the patch lands, but the caller sees an error
    | Fail(caller: nat)                // an API error other than 404 and 409
    | Foreign(after: Option<Spec>)     // a write, create or delete from outside

  /** The object once the first k writes have landed. */
  function At(initial: Option<Spec>, log: seq<Write>, k: nat): Option<Spec>
    requires k <= |log|
  {
    if k == 0 then initial else log[k - 1].after
  }

  function Current(initial: Option<Spec>, log: seq<Write>): Option<Spec> {
    At(initial, log, |log|)
  }

  function Begin(retries: nat, version: nat): Phase {
    if retries == 0 then Finished(NothingWritten, version, version) else Reading(0, version)
  }

  /** `_get`, then `mutate` on what it returned. */
  function AfterGet(req: Request, p: Phase, obj: Option<Spec>, version: nat): Phase
    requires p.Reading?
  {
    if obj.None? then Finished(NothingWritten, p.since, version) else
    match req.mutate(obj.value)
    case None => Finished(NothingWritten, p.since, version)
    case Some(patch) => Writing(p.attempt, p.since, patch, version)
  }

  /** The patch is accepted: the object is there, at the version that was read. */
  predicate Accepted(p: Phase, obj: Option<Spec>, version: nat)
    requires p.Writing?
  {
    obj.Some? && p.version == version
  }

  /** The patch is refused: 404 when the object is gone, else 409. */
  function AfterRefusal(req: Request, p: Phase, obj: Option<Spec>, version: nat): Phase
    requires p.Writing?
  {
    if obj.None? then Finished(Failed(ObjectGone(p.version)), p.since, version)
    else if p.attempt + 1 < req.retries then Reading(p.attempt + 1, p.since)
    else Finished(Conflict, p.since, version)
  }

  /** The write that an accepted patch makes: the server merges the patch into the object. */
  function PatchWrite(c: nat, p: Phase, obj: Option<Spec>): Write
    requires p.Writing? && obj.Some?
  {
    Write(Some(c), Some(MergeSpec(obj.value, p.patch)))
  }

  function Next(reqs: seq<Request>, s: State, step: Step): State
    requires |s.phases| == |reqs|
  {
    var obj, version := Current(s.initial, s.log), |s.log|;
    if step.Foreign? then s.(log := s.log + [Write(None, step.after)]) else
    var c := step.caller;
    if c >= |reqs| then s else
    var req, p := reqs[c], s.phases[c];
    match step
    case Start(_) => if p.Idle? then s.(phases := s.phases[c := Begin(req.retries, version)]) else s
    case Get(_) => if p.Reading? then s.(phases := s.phases[c := AfterGet(req, p, obj, version)]) else s
    case Fail(_) =>
      if p.Reading? || p.Writing? then s.(phases := s.phases[c := Finished(Failed(ApiError), p.since, version)]) else s
    case Patch(_) =>
      if !p.Writing? then s
      else if !Accepted(p, obj, version) then
        s.(phases := s.phases[c := AfterRefusal(req, p, obj, version)])
      else
        s.(log := s.log + [PatchWrite(c, p, obj)],
           phases := s.phases[c := Finished(Written, p.since, version + 1)])
    case LoseReply(_) =>
      if !p.Writing? || !Accepted(p, obj, version) then s
      else
        s.(log := s.log + [PatchWrite(c, p, obj)],
           phases := s.phases[c := Finished(Failed(ReplyLost), p.since, version + 1)])
  }

  function Initially(reqs: seq<Request>, obj: Option<Spec>): State {
    State(obj, [], seq(|reqs|, _ => Idle))
  }

  /** The state after a run. */
  function Run(reqs: seq<Request>, obj: Option<Spec>, steps: seq<Step>): (s: State)
    ensures |s.phases| == |reqs|
  {
    if steps == [] then Initially(reqs, obj)
    else Next(reqs, Run(reqs, obj, steps[..|steps| - 1]), steps[|steps| - 1])
  }

  // ---- What every run keeps

  /** Write k of the log, if a caller made it, is that caller's mutation of exactly the object
      that write k replaced. */
  ghost predicate CommitOk(reqs: seq<Request>, initial: Option<Spec>, log: seq<Write>, k: nat)
    requires k < |log|
  {
    log[k].writer.Some? ==>
      var c, before := log[k].writer.value, At(initial, log, k);
      && c < |reqs|
      && before.Some?
      && reqs[c].mutate(before.value).Some?
      && log[k].after == Some(MergeSpec(before.value, reqs[c].mutate(before.value).value))
  }

  ghost predicate LogOk(reqs: seq<Request>, initial: Option<Spec>, log: seq<Write>) {
    forall k | 0 <= k < |log| :: CommitOk(reqs, initial, log, k)
  }

  /** Caller c made no write. */
  ghost predicate Silent(log: seq<Write>, c: nat) {
    forall k | 0 <= k < |log| :: log[k].writer != Some(c)
  }

  /** The only write of caller c is write k. */
  ghost predicate OnlyWrite(log: seq<Write>, c: nat, k: nat) {
    k < |log| && log[k].writer == Some(c) && forall j | 0 <= j < |log| && j != k :: log[j].writer != Some(c)
  }

  /** What the phase of caller c says about the log. */
  ghost predicate PhaseOk(req: Request, initial: Option<Spec>, log: seq<Write>, c: nat, p: Phase) {
    match p
    case Idle => Silent(log, c)
    case Reading(attempt, since) =>
      Silent(log, c) && since + attempt <= |log| && attempt < req.retries
    case Writing(attempt, since, patch, version) =>
      && Silent(log, c) && since + attempt <= version <= |log| && attempt < req.retries
      && At(initial, log, version).Some?
      && req.mutate(At(initial, log, version).value) == Some(patch)
    case Finished(Written, since, until) =>
      since < until <= |log| && OnlyWrite(log, c, until - 1)
    case Finished(NothingWritten, since, until) =>
      && Silent(log, c) && since <= until <= |log|
      && (req.retries > 0 ==>
            var obj := At(initial, log, until);
            obj.None? || req.mutate(obj.value).None?)
    case Finished(Conflict, since, until) =>
      Silent(log, c) && since + req.retries <= until <= |log| && req.retries > 0
    case Finished(Failed(ApiError), since, until) => Silent(log, c) && since <= until <= |log|
    case Finished(Failed(ReplyLost), since, until) => since < until <= |log| && OnlyWrite(log, c, until - 1)
    case Finished(Failed(ObjectGone(read)), since, until) =>
      && Silent(log, c) && since <= read < until <= |log|
      && At(initial, log, read).Some? && req.mutate(At(initial, log, read).value).Some?
      && At(initial, log, until).None?
  }

  ghost predicate Inv(reqs: seq<Request>, s: State) {
    && |s.phases| == |reqs|
    && LogOk(reqs, s.initial, s.log)
    && forall c | 0 <= c < |reqs| :: PhaseOk(reqs[c], s.initial, s.log, c, s.phases[c])
  }

  lemma AppendKeepsPhase(req: Request, initial: Option<Spec>, log: seq<Write>, c: nat, p: Phase, w: Write)
    requires PhaseOk(req, initial, log, c, p) && w.writer != Some(c)
    ensures PhaseOk(req, initial, log + [w], c, p)
  {
  }

  lemma AppendKeepsLog(reqs: seq<Request>, initial: Option<Spec>, log: seq<Write>, w: Write)
    requires LogOk(reqs, initial, log) && CommitOk(reqs, initial, log + [w], |log|)
    ensures LogOk(reqs, initial, log + [w])
  {
    forall k | 0 <= k < |log|
      ensures CommitOk(reqs, initial, log + [w], k)
    {
      assert CommitOk(reqs, initial, log, k);
    }
  }

  /** An accepted patch is computed from, and merged into, the object it replaces. */
  lemma CommitKeepsInv(reqs: seq<Request>, s: State, c: nat, p': Phase)
    requires Inv(reqs, s) && c < |reqs| && s.phases[c].Writing?
    requires Accepted(s.phases[c], Current(s.initial, s.log), |s.log|)
    requires p'.Finished? && p'.outcome in {Written, Failed(ReplyLost)}
    requires p'.since == s.phases[c].since && p'.until == |s.log| + 1
    ensures Inv(reqs, s.(log := s.log + [PatchWrite(c, s.phases[c], Current(s.initial, s.log))],
                         phases := s.phases[c := p']))
  {
    var w := PatchWrite(c, s.phases[c], Current(s.initial, s.log));
    assert PhaseOk(reqs[c], s.initial, s.log, c, s.phases[c]);
    AppendKeepsLog(reqs, s.initial, s.log, w);
    forall d | 0 <= d < |reqs| && d != c
      ensures PhaseOk(reqs[d], s.initial, s.log + [w], d, s.phases[d])
    {
      AppendKeepsPhase(reqs[d], s.initial, s.log, d, s.phases[d], w);
    }
    assert OnlyWrite(s.log + [w], c, |s.log|);
  }

  lemma ForeignKeepsInv(reqs: seq<Request>, s: State, after: Option<Spec>)
    requires Inv(reqs, s)
    ensures Inv(reqs, s.(log := s.log + [Write(None, after)]))
  {
    AppendKeepsLog(reqs, s.initial, s.log, Write(None, after));
    forall c | 0 <= c < |reqs|
      ensures PhaseOk(reqs[c], s.initial, s.log + [Write(None, after)], c, s.phases[c])
    {
      AppendKeepsPhase(reqs[c], s.initial, s.log, c, s.phases[c], Write(None, after));
    }
  }

  lemma NextKeepsInv(reqs: seq<Request>, s: State, step: Step)
    requires Inv(reqs, s)
    ensures Inv(reqs, Next(reqs, s, step))
  {
    if step.Foreign? {
      ForeignKeepsInv(reqs, s, step.after);
    } else if step.caller < |reqs| {
      var c := step.caller;
      var p := s.phases[c];
      assert PhaseOk(reqs[c], s.initial, s.log, c, p);
      if p.Writing? && Accepted(p, Current(s.initial, s.log), |s.log|) && (step.Patch? || step.LoseReply?) {
        CommitKeepsInv(reqs, s, c, Finished(if step.Patch? then Written else Failed(ReplyLost), p.since, |s.log| + 1));
      } else {
        assert PhaseOk(reqs[c], s.initial, s.log, c, Next(reqs, s, step).phases[c]);
      }
    }
  }

  lemma {:induction false} RunKeepsInv(reqs: seq<Request>, obj: Option<Spec>, steps: seq<Step>)
    ensures Inv(reqs, Run(reqs, obj, steps))
    ensures Run(reqs, obj, steps).initial == obj
  {
    if steps != [] {
      RunKeepsInv(reqs, obj, steps[..|steps| - 1]);
      NextKeepsInv(reqs, Run(reqs, obj, steps[..|steps| - 1]), steps[|steps| - 1]);
    }
  }

  // ---- The theorems

  /** One whole read-modify-write, done while nobody else is there. */
  function Atomically(req: Request, obj: Option<Spec>): Option<Spec> {
    if obj.None? || req.mutate(obj.value).None? then obj
    else Some(MergeSpec(obj.value, req.mutate(obj.value).value))
  }

  /** The object after the writers of `log` ran one after the other, each of them alone. */
  function Replay(reqs: seq<Request>, initial: Option<Spec>, log: seq<Write>): Option<Spec> {
    if log == [] then initial else
    var before, w := Replay(reqs, initial, log[..|log| - 1]), log[|log| - 1];
    if w.writer.None? then w.after
    else if w.writer.value < |reqs| then Atomically(reqs[w.writer.value], before)
    else before
  }

  lemma {:induction false} LogIsReplay(reqs: seq<Request>, initial: Option<Spec>, log: seq<Write>)
    requires LogOk(reqs, initial, log)
    ensures Current(initial, log) == Replay(reqs, initial, log)
  {
    if log != [] {
      var front := log[..|log| - 1];
      forall k | 0 <= k < |front|
        ensures CommitOk(reqs, initial, front, k)
      {
        assert CommitOk(reqs, initial, log, k);
      }
      LogIsReplay(reqs, initial, front);
      assert CommitOk(reqs, initial, log, |log| - 1);
    }
  }

  /** A committed call did a whole read-modify-write on the object it found. */
  lemma CommitIsAtomic(reqs: seq<Request>, initial: Option<Spec>, log: seq<Write>, k: nat)
    requires LogOk(reqs, initial, log) && k < |log| && log[k].writer.Some?
    ensures log[k].writer.value < |reqs| && At(initial, log, k).Some?
    ensures reqs[log[k].writer.value].mutate(At(initial, log, k).value).Some?
    ensures At(initial, log, k + 1) == Atomically(reqs[log[k].writer.value], At(initial, log, k))
  {
    assert CommitOk(reqs, initial, log, k);
  }

  /** Linearizability. In every run the object is what the committed calls give when they run one
      at a time, in the order of their commits; a call that reports success committed exactly
      once, between its start and its end; one that reports that there was nothing to do, or a
      conflict, committed nothing, and in the first case the object it read last called for nothing. */
  lemma EveryRunIsSequential(reqs: seq<Request>, obj: Option<Spec>, steps: seq<Step>)
    ensures var s := Run(reqs, obj, steps);
            && Current(obj, s.log) == Replay(reqs, obj, s.log)
            && LogOk(reqs, obj, s.log)
            && forall c | 0 <= c < |reqs| && s.phases[c].Finished? ::
                 TrueOutcome(reqs[c], obj, s.log, c, s.phases[c])
  {
    RunKeepsInv(reqs, obj, steps);
    LogIsReplay(reqs, obj, Run(reqs, obj, steps).log);
    OutcomesAreTrue(reqs, Run(reqs, obj, steps));
  }

  /** What each outcome says about the log. */
  ghost predicate TrueOutcome(req: Request, initial: Option<Spec>, log: seq<Write>, c: nat, p: Phase)
    requires p.Finished?
  {
    && p.since <= p.until <= |log|
    && (p.outcome.Written? ==> p.since < p.until && OnlyWrite(log, c, p.until - 1))
    && (p.outcome.NothingWritten? || p.outcome.Conflict? || p.outcome.Failed? ==>
          if p.outcome == Failed(ReplyLost) then p.since < p.until && OnlyWrite(log, c, p.until - 1) else Silent(log, c))
    && (p.outcome.NothingWritten? && req.retries > 0 ==>
          Atomically(req, At(initial, log, p.until)) == At(initial, log, p.until))
  }

  lemma OutcomesAreTrue(reqs: seq<Request>, s: State)
    requires Inv(reqs, s)
    ensures forall c | 0 <= c < |reqs| && s.phases[c].Finished? ::
              TrueOutcome(reqs[c], s.initial, s.log, c, s.phases[c])
  {
    forall c | 0 <= c < |reqs| && s.phases[c].Finished?
      ensures TrueOutcome(reqs[c], s.initial, s.log, c, s.phases[c])
    {
      assert PhaseOk(reqs[c], s.initial, s.log, c, s.phases[c]);
    }
  }

  /** A call ends in a conflict only if, while it ran, the others made at least as many writes as
      it has retries. */
  lemma ConflictNeedsInterference(reqs: seq<Request>, obj: Option<Spec>, steps: seq<Step>, c: nat)
    requires c < |reqs| && Run(reqs, obj, steps).phases[c].Finished?
    requires Run(reqs, obj, steps).phases[c].outcome.Conflict?
    ensures var s := Run(reqs, obj, steps);
            var p := s.phases[c];
            && p.since + reqs[c].retries <= p.until <= |s.log|
            && forall k | p.since <= k < p.until :: s.log[k].writer != Some(c)
  {
    RunKeepsInv(reqs, obj, steps);
    assert PhaseOk(reqs[c], obj, Run(reqs, obj, steps).log, c, Run(reqs, obj, steps).phases[c]);
  }

  /** A failure has its cause in the run: an API error was answered to the caller, a reply to it was
      lost, or the object that it had read and wanted to patch was gone. */
  lemma {:induction false} FailureHasItsCause(reqs: seq<Request>, obj: Option<Spec>, steps: seq<Step>, c: nat)
    requires c < |reqs| && Run(reqs, obj, steps).phases[c].Finished?
    ensures var outcome := Run(reqs, obj, steps).phases[c].outcome;
            && (outcome == Failed(ApiError) ==> Fail(c) in steps)
            && (outcome == Failed(ReplyLost) ==> LoseReply(c) in steps)
  {
    if steps != [] {
      var front, last := steps[..|steps| - 1], steps[|steps| - 1];
      assert steps == front + [last];
      if Run(reqs, obj, front).phases[c].Finished? {
        FailureHasItsCause(reqs, obj, front, c);
      }
    }
  }

  /** Nobody deletes the object from version `since` on. */
  ghost predicate StaysThere(initial: Option<Spec>, log: seq<Write>, since: nat) {
    forall k | since <= k <= |log| :: At(initial, log, k).Some?
  }

  /** Contention alone never makes a call fail: without API errors and lost replies, on an object that
      stays there, and with fewer than `retries` writes of others while it runs, a call that has ended
      has written, or found nothing to write. */
  lemma SucceedsDespiteContention(reqs: seq<Request>, obj: Option<Spec>, steps: seq<Step>, c: nat)
    requires c < |reqs| && Run(reqs, obj, steps).phases[c].Finished?
    requires Fail(c) !in steps && LoseReply(c) !in steps
    requires var s := Run(reqs, obj, steps); StaysThere(obj, s.log, s.phases[c].since)
    requires var p := Run(reqs, obj, steps).phases[c]; p.until - p.since < reqs[c].retries
    ensures Run(reqs, obj, steps).phases[c].outcome in {Written, NothingWritten}
  {
    var s := Run(reqs, obj, steps);
    RunKeepsInv(reqs, obj, steps);
    FailureHasItsCause(reqs, obj, steps, c);
    assert PhaseOk(reqs[c], obj, s.log, c, s.phases[c]);
  }

  /** A call that is left alone for a read and a patch ends, with its mutation done or not called for. */
  lemma AloneItFinishes(reqs: seq<Request>, s: State, c: nat)
    requires Inv(reqs, s) && c < |reqs| && s.phases[c].Reading?
    ensures var s' := Next(reqs, Next(reqs, s, Get(c)), Patch(c));
            && s'.phases[c].Finished? && s'.phases[c].outcome in {Written, NothingWritten}
            && Current(s.initial, s'.log) == Atomically(reqs[c], Current(s.initial, s.log))
  {
    NextKeepsInv(reqs, s, Get(c));
  }

  /** A start leads to a read, and a patch that lost a race leads to another read while there are
      retries left. */
  lemma ReadsAgain(reqs: seq<Request>, s: State, c: nat)
    requires |s.phases| == |reqs| && c < |reqs|
    ensures s.phases[c].Idle? && reqs[c].retries > 0 ==> Next(reqs, s, Start(c)).phases[c] == Reading(0, |s.log|)
    ensures s.phases[c].Writing? && Current(s.initial, s.log).Some? && s.phases[c].version != |s.log|
            && s.phases[c].attempt + 1 < reqs[c].retries ==>
              Next(reqs, s, Patch(c)) == s.(phases := s.phases[c := Reading(s.phases[c].attempt + 1, s.phases[c].since)])
  {
  }

  // ---- A run, step by step

  lemma RunSnoc(reqs: seq<Request>, obj: Option<Spec>, steps: seq<Step>, step: Step)
    ensures Run(reqs, obj, steps + [step]) == Next(reqs, Run(reqs, obj, steps), step)
  {
    assert (steps + [step])[..|steps|] == steps;
  }

  /** One call alone, and then a write from outside. */
  function CallThenForeign(after: Option<Spec>): seq<Step> {
    [Start(0), Get(0), Patch(0), Foreign(after)]
  }

  lemma CallThenForeignLog(req: Request, spec: Spec, after: Option<Spec>)
    requires req.retries > 0 && req.mutate(spec).Some?
    ensures Run([req], Some(spec), CallThenForeign(after)).log
            == [Write(Some(0), Atomically(req, Some(spec))), Write(None, after)]
  {
    var steps, reqs, obj := CallThenForeign(after), [req], Some(spec);
    var patch := req.mutate(spec).value;
    assert steps[..1] == [] + [steps[0]] && steps[..2] == steps[..1] + [steps[1]];
    assert steps[..3] == steps[..2] + [steps[2]] && steps == steps[..3] + [steps[3]];
    RunSnoc(reqs, obj, [], steps[0]);
    RunSnoc(reqs, obj, steps[..1], steps[1]);
    RunSnoc(reqs, obj, steps[..2], steps[2]);
    RunSnoc(reqs, obj, steps[..3], steps[3]);
    var s0 := State(obj, [], [Idle]);
    assert Run(reqs, obj, []) == s0;
    var s1 := Next(reqs, s0, steps[0]);
    assert s1 == State(obj, [], [Reading(0, 0)]);
    var s2 := Next(reqs, s1, steps[1]);
    assert s2 == State(obj, [], [Writing(0, 0, patch, 0)]);
    var s3 := Next(reqs, s2, steps[2]);
    assert s3.log == [Write(Some(0), Atomically(req, obj))];
  }

  // ---- The retry loop of one call, with others writing in between

  /** What the others do around one attempt, and how the API answers it. */
  datatype Round = Round(beforeGet: seq<Option<Spec>>, getFails: bool, beforePatch: seq<Option<Spec>>, patchFails: bool,
                         replyLost: bool)

  /** Since the first `since` writes the caller made one write, the last one: its whole
      read-modify-write of the object just before. All other writes are foreign. */
  ghost predicate CommittedLast(me: nat, req: Request, initial: Option<Spec>, log: seq<Write>, since: nat) {
    && |log| > since && log[|log| - 1].writer == Some(me)
    && var before := At(initial, log, |log| - 1);
    && before.Some? && req.mutate(before.value).Some?
    && log[|log| - 1].after == Atomically(req, before)
    && forall k | since <= k < |log| - 1 :: log[k].writer.None?
  }

  /** A custom resource on the API server. */
  class ApiObject {
    var spec: Option<Spec>
    var version: nat
    ghost const initial: Option<Spec>
    ghost var log: seq<Write>

    ghost predicate Valid()
      reads this
    {
      spec == Current(initial, log) && version == |log|
    }

    constructor (spec: Option<Spec>)
      ensures Valid() && initial == spec && log == []
    {
      this.spec, version := spec, 0;
      initial, log := spec, [];
    }

    method Store(writer: Option<nat>, after: Option<Spec>)
      requires Valid()
      modifies this
      ensures Valid() && log == old(log) + [Write(writer, after)]
    {
      spec, version := after, version + 1;
      log := log + [Write(writer, after)];
    }

    /** Others write, create and delete. */
    method Interfere(afters: seq<Option<Spec>>)
      requires Valid()
      modifies this
      ensures Valid() && |log| == |old(log)| + |afters| && log[..|old(log)|] == old(log)
      ensures forall k | |old(log)| <= k < |log| :: log[k].writer.None?
    {
      for i := 0 to |afters|
        invariant Valid() && |log| == |old(log)| + i && log[..|old(log)|] == old(log)
        invariant forall k | |old(log)| <= k < |log| :: log[k].writer.None?
      {
        Store(None, afters[i]);
      }
    }

    /** `patch_spec_with_retry`. */
    method PatchSpecWithRetry(me: nat, req: Request, rounds: seq<Round>) returns (outcome: Outcome)
      requires Valid() && |rounds| >= req.retries
      modifies this
      ensures Valid() && |old(log)| <= |log| && log[..|old(log)|] == old(log)
      ensures outcome.Written? ==> CommittedLast(me, req, initial, log, |old(log)|)
      ensures outcome == Failed(ReplyLost) ==>
                CommittedLast(me, req, initial, log, |old(log)|) && exists r <- rounds[..req.retries] :: r.replyLost
      ensures outcome == Failed(ApiError) ==> exists r <- rounds[..req.retries] :: r.getFails || r.patchFails
      ensures outcome.Failed? && outcome.cause.ObjectGone? ==>
                && spec.None? && |old(log)| <= outcome.cause.read < |log|
                && At(initial, log, outcome.cause.read).Some?
      ensures !outcome.Written? && outcome != Failed(ReplyLost) ==>
                forall k | |old(log)| <= k < |log| :: log[k].writer.None?
      ensures outcome.NothingWritten? && req.retries > 0 ==> Atomically(req, spec) == spec
      ensures outcome.Conflict? ==> |log| - |old(log)| >= req.retries > 0
    {
      ghost var start := |log|;
      for attempt := 0 to req.retries
        invariant Valid() && start <= |log| && log[..start] == old(log)
        invariant forall k | start <= k < |log| :: log[k].writer.None?
        invariant |log| - start >= attempt
        invariant attempt < req.retries || attempt == 0
      {
        assert rounds[attempt] in rounds[..req.retries];
        Interfere(rounds[attempt].beforeGet);
        if rounds[attempt].getFails {
          return Failed(ApiError);
        }
        if spec.None? {
          return NothingWritten;
        }
        var patch, seen := req.mutate(spec.value), version;
        if patch.None? {
          return NothingWritten;
        }
        ghost var read := log;
        Interfere(rounds[attempt].beforePatch);
        if rounds[attempt].patchFails {
          return Failed(ApiError);
        }
        if spec.None? {
          return Failed(ObjectGone(seen));
        }
        if version == seen {
          assert log == read;
          Store(Some(me), Some(MergeSpec(spec.value, patch.value)));
          return if rounds[attempt].replyLost then Failed(ReplyLost) else Written;
        }
        if attempt + 1 == req.retries {
          return Conflict;
        }
      }
      return NothingWritten;
    }
  }
}
