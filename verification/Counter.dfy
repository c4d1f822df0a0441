/**
  The reservation protocol of allocators.py: callers share a counter in a ConfigMap. A caller
  reads it (creating it with 0 when it is absent), lists what is in use, picks an index from the
  two, and replaces the counter by index + 1 under the `resourceVersion` it read. A 409 on the
  create or on the replace starts the attempt over, five attempts in all.

  As in module Cas, the ConfigMap is its history of writes, its version is their number, and a
  run is any sequence of steps of any caller and of anybody else.
 */
module Counter {
  import opened Options

  const MAX_RETRIES := 5

  /** What a caller picks from the counter and a listing; None refuses the call. */
  type Pick<!L> = (int, L) -> Option<int>

  datatype Write<L> =
    | Created(caller: nat)
    | Reserved(caller: nat, value: int, listing: L, index: int)
    | Foreign(after: Option<int>)

  /** Why a call fails: an API error other than 404 and 409, a reply that was lost after the replace had
      landed, or a counter that was there when it was read, at some version, and is gone. */
  datatype Cause = ApiError | ReplyLost | CounterGone(read: nat)

  datatype Outcome = Allocated(index: int) | Refused | Conflict | Failed(cause: Cause)

  datatype Phase =
    | Idle
    | Reading(attempt: nat, since: nat)
    | Creating(attempt: nat, since: nat, version: nat)
    | Holding(attempt: nat, since: nat, version: nat, value: int)
    | Finished(outcome: Outcome, since: nat, until: nat)

  datatype State<L> = State(initial: Option<int>, log: seq<Write<L>>, phases: seq<Phase>)

  /** The listing of a step is arbitrary: the cluster changes all the time, and a listing that
      failed is read as an empty one. */
  datatype Step<L> =
    | Start(caller: nat)
    | Read(caller: nat)
    | Create(caller: nat)
    | Replace(caller: nat, listing: L)
    | LoseReply(caller: nat, listing: L)   // the replace lands, but the caller sees an error
    | Fail(caller: nat)                    // an API error other than 404 and 409
    | Edit(after: Option<int>)             // the ConfigMap is touched, edited or deleted by hand

  function After<L>(w: Write<L>): Option<int> {
    match w
    case Created(_) => Some(0)
    case Reserved(_, _, _, index) => Some(index + 1)
    case Foreign(after) => after
  }

  /** The counter once the first k writes have landed. */
  function At<L>(initial: Option<int>, log: seq<Write<L>>, k: nat): Option<int>
    requires k <= |log|
  {
    if k == 0 then initial else After(log[k - 1])
  }

  function Current<L>(initial: Option<int>, log: seq<Write<L>>): Option<int> {
    At(initial, log, |log|)
  }

  function Retry(p: Phase, version: nat): Phase
    requires p.Creating? || p.Holding?
  {
    if p.attempt + 1 < MAX_RETRIES then Reading(p.attempt + 1, p.since)
    else Finished(Conflict, p.since, version)
  }

  /** The replace is accepted: the counter is there, at the version that was read. */
  predicate Accepted(p: Phase, counter: Option<int>, version: nat)
    requires p.Holding?
  {
    counter.Some? && p.version == version
  }

  function AfterRead<L>(s: State<L>, c: nat): (s': State<L>)
    requires c < |s.phases|
  {
    var counter, p := Current(s.initial, s.log), s.phases[c];
    if !p.Reading? then s
    else if counter.None? then s.(phases := s.phases[c := Creating(p.attempt, p.since, |s.log|)])
    else s.(phases := s.phases[c := Holding(p.attempt, p.since, |s.log|, counter.value)])
  }

  function AfterCreate<L>(s: State<L>, c: nat): (s': State<L>)
    requires c < |s.phases|
  {
    var p := s.phases[c];
    if !p.Creating? then s
    else if Current(s.initial, s.log).Some? then s.(phases := s.phases[c := Retry(p, |s.log|)])
    else s.(log := s.log + [Created(c)],
            phases := s.phases[c := Holding(p.attempt, p.since, |s.log| + 1, 0)])
  }

  function AfterReplace<L>(pick: Pick<L>, s: State<L>, c: nat, listing: L): (s': State<L>)
    requires c < |s.phases|
  {
    var counter, p := Current(s.initial, s.log), s.phases[c];
    if !p.Holding? then s else
    match pick(p.value, listing)
    case None => s.(phases := s.phases[c := Finished(Refused, p.since, |s.log|)])
    case Some(index) =>
      if counter.None? then s.(phases := s.phases[c := Finished(Failed(CounterGone(p.version)), p.since, |s.log|)])
      else if !Accepted(p, counter, |s.log|) then s.(phases := s.phases[c := Retry(p, |s.log|)])
      else s.(log := s.log + [Reserved(c, p.value, listing, index)],
              phases := s.phases[c := Finished(Allocated(index), p.since, |s.log| + 1)])
  }

  function Next<L>(pick: Pick<L>, s: State<L>, step: Step<L>): (s': State<L>)
    ensures |s'.phases| == |s.phases| && s'.initial == s.initial
  {
    if step.Edit? then s.(log := s.log + [Foreign(step.after)]) else
    var c := step.caller;
    if c >= |s.phases| then s else
    var p := s.phases[c];
    match step
    case Start(_) => if p.Idle? then s.(phases := s.phases[c := Reading(0, |s.log|)]) else s
    case Read(_) => AfterRead(s, c)
    case Create(_) => AfterCreate(s, c)
    case Replace(_, listing) => AfterReplace(pick, s, c, listing)
    case Fail(_) =>
      if p.Idle? || p.Finished? then s else s.(phases := s.phases[c := Finished(Failed(ApiError), p.since, |s.log|)])
    case LoseReply(_, listing) =>
      // the write lands as it would, and the caller is told otherwise
      var s' := AfterReplace(pick, s, c, listing);
      if |s'.log| == |s.log| then s
      else s'.(phases := s.phases[c := Finished(Failed(ReplyLost), p.since, |s.log| + 1)])
  }

  function Run<L>(pick: Pick<L>, callers: nat, counter: Option<int>, steps: seq<Step<L>>): (s: State<L>)
    ensures |s.phases| == callers && s.initial == counter
  {
    if steps == [] then State(counter, [], seq(callers, _ => Idle))
    else Next(pick, Run(pick, callers, counter, steps[..|steps| - 1]), steps[|steps| - 1])
  }

  // ---- What every run keeps

  /** A create found no counter; a reservation picked from the very counter it replaced. */
  ghost predicate WriteOk<L>(pick: Pick<L>, initial: Option<int>, log: seq<Write<L>>, k: nat)
    requires k < |log|
  {
    match log[k]
    case Created(_) => At(initial, log, k).None?
    case Reserved(_, value, listing, index) =>
      At(initial, log, k) == Some(value) && pick(value, listing) == Some(index)
    case Foreign(_) => true
  }

  ghost predicate LogOk<L(!new)>(pick: Pick<L>, initial: Option<int>, log: seq<Write<L>>) {
    forall k | 0 <= k < |log| :: WriteOk(pick, initial, log, k)
  }

  predicate Mine<L>(w: Write<L>, c: nat) {
    !w.Foreign? && w.caller == c
  }

  /** How many of the writes were made by anybody but caller c. */
  function Others<L>(log: seq<Write<L>>, c: nat): nat {
    if log == [] then 0
    else Others(log[..|log| - 1], c) + if Mine(log[|log| - 1], c) then 0 else 1
  }

  /** What the phase of caller c says about the log: what it read, and that each attempt it lost was
      lost to a write of somebody else. */
  ghost predicate PhaseOk<L(!new)>(initial: Option<int>, log: seq<Write<L>>, c: nat, p: Phase) {
    match p
    case Idle => true
    case Reading(attempt, since) =>
      since <= |log| && attempt <= Others(log[since..], c) && attempt < MAX_RETRIES
    case Creating(attempt, since, version) =>
      && since <= version <= |log| && attempt <= Others(log[since..version], c) && attempt < MAX_RETRIES
      && At(initial, log, version).None?
      && forall k | version <= k < |log| :: !Mine(log[k], c)
    case Holding(attempt, since, version, value) =>
      && since <= version <= |log| && attempt <= Others(log[since..version], c) && attempt < MAX_RETRIES
      && At(initial, log, version) == Some(value)
      && forall k | version <= k < |log| :: !Mine(log[k], c)
    case Finished(Allocated(index), since, until) =>
      && since < until <= |log|
      && log[until - 1].Reserved? && log[until - 1].caller == c && log[until - 1].index == index
    case Finished(Conflict, since, until) =>
      since <= until <= |log| && MAX_RETRIES <= Others(log[since..until], c)
    case Finished(Failed(ReplyLost), since, until) =>
      since < until <= |log| && log[until - 1].Reserved? && log[until - 1].caller == c
    case Finished(Failed(CounterGone(read)), since, until) =>
      since <= read < until <= |log| && At(initial, log, read).Some? && At(initial, log, until).None?
    case Finished(_, since, until) => since <= until <= |log|
  }

  ghost predicate Inv<L(!new)>(pick: Pick<L>, s: State<L>) {
    && LogOk(pick, s.initial, s.log)
    && forall c | 0 <= c < |s.phases| :: PhaseOk(s.initial, s.log, c, s.phases[c])
  }

  lemma {:induction false} OthersSplit<L>(log: seq<Write<L>>, i: nat, c: nat)
    requires i <= |log| && forall k | i <= k < |log| :: !Mine(log[k], c)
    ensures Others(log, c) == Others(log[..i], c) + |log| - i
    decreases |log|
  {
    if i < |log| {
      OthersSplit(log[..|log| - 1], i, c);
      assert log[..|log| - 1][..i] == log[..i];
    } else {
      assert log[..i] == log;
    }
  }

  /** A refused write is a write of somebody else that came in between. */
  lemma RetryOk<L(!new)>(initial: Option<int>, log: seq<Write<L>>, c: nat, p: Phase)
    requires (p.Creating? || p.Holding?) && PhaseOk(initial, log, c, p) && p.version < |log|
    ensures PhaseOk(initial, log, c, Retry(p, |log|))
  {
    var during := log[p.since..];
    assert during[..p.version - p.since] == log[p.since..p.version];
    OthersSplit(during, p.version - p.since, c);
    assert log[p.since..|log|] == during;
  }

  lemma AppendKeepsCount<L(!new)>(log: seq<Write<L>>, c: nat, w: Write<L>, since: nat, until: nat)
    requires since <= until <= |log|
    ensures (log + [w])[since..until] == log[since..until]
    ensures Others((log + [w])[since..], c) >= Others(log[since..], c)
  {
    var during := (log + [w])[since..];
    assert during[..|during| - 1] == log[since..];
  }

  lemma AppendKeepsAt<L(!new)>(initial: Option<int>, log: seq<Write<L>>, w: Write<L>, k: nat)
    requires k <= |log|
    ensures At(initial, log + [w], k) == At(initial, log, k)
  {
  }

  lemma AppendKeepsPhase<L(!new)>(initial: Option<int>, log: seq<Write<L>>, c: nat, p: Phase, w: Write<L>)
    requires PhaseOk(initial, log, c, p) && (Mine(w, c) ==> p.Idle? || p.Finished?)
    ensures PhaseOk(initial, log + [w], c, p)
  {
    match p
    case Idle =>
    case Reading(_, since) => AppendKeepsCount(log, c, w, since, |log|);
    case Creating(_, since, version) =>
      AppendKeepsCount(log, c, w, since, version);
      AppendKeepsAt(initial, log, w, version);
    case Holding(_, since, version, _) =>
      AppendKeepsCount(log, c, w, since, version);
      AppendKeepsAt(initial, log, w, version);
    case Finished(_, since, until) => AppendKeepsCount(log, c, w, since, until);
  }

  lemma AppendKeepsInv<L(!new)>(pick: Pick<L>, s: State<L>, w: Write<L>, phases: seq<Phase>)
    requires Inv(pick, s) && |phases| == |s.phases|
    requires WriteOk(pick, s.initial, s.log + [w], |s.log|)
    requires forall c | 0 <= c < |phases| ::
               || (phases[c] == s.phases[c] && !Mine(w, c))
               || PhaseOk(s.initial, s.log + [w], c, phases[c])
    ensures Inv(pick, s.(log := s.log + [w], phases := phases))
  {
    forall k | 0 <= k < |s.log|
      ensures WriteOk(pick, s.initial, s.log + [w], k)
    {
      assert WriteOk(pick, s.initial, s.log, k);
    }
    forall c | 0 <= c < |phases|
      ensures PhaseOk(s.initial, s.log + [w], c, phases[c])
    {
      if phases[c] == s.phases[c] && !Mine(w, c) {
        AppendKeepsPhase(s.initial, s.log, c, s.phases[c], w);
      }
    }
  }

  /** The writes of others up to the read were enough, and the create adds none of its own. */
  lemma CreateKeepsCount<L(!new)>(initial: Option<int>, log: seq<Write<L>>, c: nat, p: Phase)
    requires p.Creating? && PhaseOk(initial, log, c, p)
    ensures p.attempt <= Others((log + [Created(c)])[p.since..], c)
  {
    var during := (log + [Created(c)])[p.since..];
    assert during[..|during| - 1] == log[p.since..];
    assert log[p.since..][..p.version - p.since] == log[p.since..p.version];
    OthersSplit(log[p.since..], p.version - p.since, c);
  }

  lemma PhaseKeepsInv<L(!new)>(pick: Pick<L>, s: State<L>, c: nat, p': Phase)
    requires Inv(pick, s) && c < |s.phases| && PhaseOk(s.initial, s.log, c, p')
    ensures Inv(pick, s.(phases := s.phases[c := p']))
  {
  }

  lemma CreatedKeepsInv<L(!new)>(pick: Pick<L>, s: State<L>, c: nat, p': Phase)
    requires Inv(pick, s) && c < |s.phases| && s.phases[c].Creating? && Current(s.initial, s.log).None?
    requires p' == Holding(s.phases[c].attempt, s.phases[c].since, |s.log| + 1, 0)
    ensures Inv(pick, s.(log := s.log + [Created(c)], phases := s.phases[c := p']))
  {
    var p, log' := s.phases[c], s.log + [Created(c)];
    assert PhaseOk(s.initial, s.log, c, p);
    CreateKeepsCount(s.initial, s.log, c, p);
    assert log'[p.since..|log'|] == log'[p.since..];
    assert PhaseOk(s.initial, log', c, p');
    AppendKeepsInv(pick, s, Created(c), s.phases[c := p']);
  }

  lemma CreateKeepsInv<L(!new)>(pick: Pick<L>, s: State<L>, c: nat)
    requires Inv(pick, s) && c < |s.phases|
    ensures Inv(pick, AfterCreate(s, c))
  {
    var p := s.phases[c];
    if p.Creating? {
      assert PhaseOk(s.initial, s.log, c, p);
      if Current(s.initial, s.log).Some? {
        RetryOk(s.initial, s.log, c, p);
        PhaseKeepsInv(pick, s, c, Retry(p, |s.log|));
      } else {
        CreatedKeepsInv(pick, s, c, Holding(p.attempt, p.since, |s.log| + 1, 0));
      }
    }
  }

  lemma ReserveKeepsInv<L(!new)>(pick: Pick<L>, s: State<L>, c: nat, listing: L, index: int, p': Phase)
    requires Inv(pick, s) && c < |s.phases| && s.phases[c].Holding?
    requires Accepted(s.phases[c], Current(s.initial, s.log), |s.log|)
    requires pick(s.phases[c].value, listing) == Some(index)
    requires p' == Finished(Allocated(index), s.phases[c].since, |s.log| + 1)
          || p' == Finished(Failed(ReplyLost), s.phases[c].since, |s.log| + 1)
    ensures Inv(pick, s.(log := s.log + [Reserved(c, s.phases[c].value, listing, index)],
                         phases := s.phases[c := p']))
  {
    assert PhaseOk(s.initial, s.log, c, s.phases[c]);
    AppendKeepsInv(pick, s, Reserved(c, s.phases[c].value, listing, index), s.phases[c := p']);
  }

  lemma ReplaceKeepsInv<L(!new)>(pick: Pick<L>, s: State<L>, c: nat, listing: L)
    requires Inv(pick, s) && c < |s.phases|
    ensures Inv(pick, AfterReplace(pick, s, c, listing))
    ensures Inv(pick, Next(pick, s, LoseReply(c, listing)))
  {
    var p, counter := s.phases[c], Current(s.initial, s.log);
    assert PhaseOk(s.initial, s.log, c, p);
    if p.Holding? && pick(p.value, listing).Some? && counter.Some? {
      var index := pick(p.value, listing).value;
      if Accepted(p, counter, |s.log|) {
        ReserveKeepsInv(pick, s, c, listing, index, Finished(Allocated(index), p.since, |s.log| + 1));
        ReserveKeepsInv(pick, s, c, listing, index, Finished(Failed(ReplyLost), p.since, |s.log| + 1));
      } else {
        RetryOk(s.initial, s.log, c, p);
        PhaseKeepsInv(pick, s, c, Retry(p, |s.log|));
      }
    }
  }

  lemma ReadKeepsInv<L(!new)>(pick: Pick<L>, s: State<L>, c: nat)
    requires Inv(pick, s) && c < |s.phases|
    ensures Inv(pick, AfterRead(s, c))
  {
    var p := s.phases[c];
    assert PhaseOk(s.initial, s.log, c, p);
    if p.Reading? {
      assert s.log[p.since..|s.log|] == s.log[p.since..];
    }
  }

  lemma NextKeepsInv<L(!new)>(pick: Pick<L>, s: State<L>, step: Step<L>)
    requires Inv(pick, s)
    ensures Inv(pick, Next(pick, s, step))
  {
    if step.Edit? {
      AppendKeepsInv(pick, s, Foreign(step.after), s.phases);
    } else if step.caller < |s.phases| {
      assert PhaseOk(s.initial, s.log, step.caller, s.phases[step.caller]);
      match step
      case Read(c) => ReadKeepsInv(pick, s, c);
      case Create(c) => CreateKeepsInv(pick, s, c);
      case Replace(c, listing) => ReplaceKeepsInv(pick, s, c, listing);
      case LoseReply(c, listing) => ReplaceKeepsInv(pick, s, c, listing);
      case _ =>
    }
  }

  lemma {:induction false} RunKeepsInv<L(!new)>(pick: Pick<L>, callers: nat, counter: Option<int>, steps: seq<Step<L>>)
    ensures Inv(pick, Run(pick, callers, counter, steps))
  {
    if steps != [] {
      RunKeepsInv(pick, callers, counter, steps[..|steps| - 1]);
      NextKeepsInv(pick, Run(pick, callers, counter, steps[..|steps| - 1]), steps[|steps| - 1]);
    }
  }

  /** A call ends in a 409 API error only if the others made at least five writes while it ran. */
  lemma ConflictNeedsInterference<L(!new)>(pick: Pick<L>, callers: nat, counter: Option<int>, steps: seq<Step<L>>, c: nat)
    requires c < callers && Run(pick, callers, counter, steps).phases[c].Finished?
    requires Run(pick, callers, counter, steps).phases[c].outcome.Conflict?
    ensures var s := Run(pick, callers, counter, steps);
            var p := s.phases[c];
            p.since <= p.until <= |s.log| && 5 <= Others(s.log[p.since..p.until], c)
  {
    RunKeepsInv(pick, callers, counter, steps);
    assert PhaseOk(counter, Run(pick, callers, counter, steps).log, c, Run(pick, callers, counter, steps).phases[c]);
  }

  // ---- How a call ends

  /** Steps only add to the log, and leave what has ended as it is. */
  lemma NextExtends<L(!new)>(pick: Pick<L>, s: State<L>, step: Step<L>, c: nat)
    requires c < |s.phases|
    ensures s.log <= Next(pick, s, step).log
    ensures s.phases[c].Finished? ==> Next(pick, s, step).phases[c] == s.phases[c]
  {
  }

  lemma AtStays<L(!new)>(initial: Option<int>, log: seq<Write<L>>, longer: seq<Write<L>>, k: nat)
    requires k <= |log| && log <= longer
    ensures At(initial, longer, k) == At(initial, log, k)
  {
  }

  /** A call is refused only if, for the counter as it was at some version during the call, and for a
      listing that it made, there is nothing to pick. */
  lemma {:induction false} RefusedHasNothingToPick<L(!new)>(pick: Pick<L>, callers: nat, counter: Option<int>, steps: seq<Step<L>>, c: nat)
    returns (listing: L, k: nat)
    requires c < callers && Run(pick, callers, counter, steps).phases[c].Finished?
    requires Run(pick, callers, counter, steps).phases[c].outcome.Refused?
    ensures Replace(c, listing) in steps
    ensures var s := Run(pick, callers, counter, steps);
            && s.phases[c].since <= k <= s.phases[c].until <= |s.log|
            && At(counter, s.log, k).Some? && pick(At(counter, s.log, k).value, listing).None?
  {
    var front, last := steps[..|steps| - 1], steps[|steps| - 1];
    assert steps == front + [last];
    var s := Run(pick, callers, counter, front);
    RunKeepsInv(pick, callers, counter, front);
    assert PhaseOk(counter, s.log, c, s.phases[c]);
    NextExtends(pick, s, last, c);
    if s.phases[c].Finished? {
      listing, k := RefusedHasNothingToPick(pick, callers, counter, front, c);
      AtStays(counter, s.log, Next(pick, s, last).log, k);
    } else {
      listing, k := last.listing, s.phases[c].version;
    }
  }

  /** A failure has its cause in the run. */
  lemma {:induction false} FailureHasItsCause<L(!new)>(pick: Pick<L>, callers: nat, counter: Option<int>, steps: seq<Step<L>>, c: nat)
    requires c < callers && Run(pick, callers, counter, steps).phases[c].Finished?
    ensures var outcome := Run(pick, callers, counter, steps).phases[c].outcome;
            && (outcome == Failed(ApiError) ==> Fail(c) in steps)
            && (outcome == Failed(ReplyLost) ==> exists listing :: LoseReply(c, listing) in steps)
  {
    if steps != [] {
      var front, last := steps[..|steps| - 1], steps[|steps| - 1];
      assert steps == front + [last];
      var s := Run(pick, callers, counter, front);
      NextExtends(pick, s, last, c);
      if s.phases[c].Finished? {
        FailureHasItsCause(pick, callers, counter, front, c);
      } else if Run(pick, callers, counter, steps).phases[c].outcome == Failed(ReplyLost) {
        assert LoseReply(c, last.listing) in steps;
      }
    }
  }

  /** Contention alone never makes a call fail: without API errors and lost replies, while nobody
      deletes the counter, and with fewer than five writes of others, a call that has ended was served,
      or refused for want of anything to pick. */
  lemma SucceedsDespiteContention<L(!new)>(pick: Pick<L>, callers: nat, counter: Option<int>, steps: seq<Step<L>>, c: nat)
    requires c < callers && Run(pick, callers, counter, steps).phases[c].Finished?
    requires Fail(c) !in steps && forall listing :: LoseReply(c, listing) !in steps
    requires var s := Run(pick, callers, counter, steps);
             forall k | 0 < k <= |s.log| :: At(counter, s.log, k).Some?
    requires var s := Run(pick, callers, counter, steps); var p := s.phases[c];
             p.since <= p.until <= |s.log| && Others(s.log[p.since..p.until], c) < 5
    ensures var outcome := Run(pick, callers, counter, steps).phases[c].outcome; outcome.Allocated? || outcome.Refused?
  {
    var s := Run(pick, callers, counter, steps);
    RunKeepsInv(pick, callers, counter, steps);
    FailureHasItsCause(pick, callers, counter, steps, c);
    assert PhaseOk(counter, s.log, c, s.phases[c]);
  }

  /** A call that is left alone ends: served, or refused. */
  lemma AloneItFinishes<L(!new)>(pick: Pick<L>, s: State<L>, c: nat, listing: L)
    requires Inv(pick, s) && c < |s.phases| && s.phases[c].Reading?
    ensures var counter := Current(s.initial, s.log);
            var s' := Next(pick, Next(pick, Next(pick, s, Read(c)), Create(c)), Replace(c, listing));
            var choice := pick(if counter.Some? then counter.value else 0, listing);
            && s'.phases[c].Finished?
            && s'.phases[c].outcome == (if choice.Some? then Allocated(choice.value) else Refused)
            && (choice.Some? ==> Current(s.initial, s'.log) == Some(choice.value + 1))
  {
    ReadKeepsInv(pick, s, c);
    CreateKeepsInv(pick, Next(pick, s, Read(c)), c);
  }

  /** Nobody outside the protocol deletes the counter or gives it another value. */
  ghost predicate Untampered<L(!new)>(initial: Option<int>, log: seq<Write<L>>) {
    forall k | 0 <= k < |log| && log[k].Foreign? :: log[k].after == At(initial, log, k)
  }

  // ---- A run, step by step

  /** The first of two callers creates the counter and allocates, then the second one allocates. */
  function OneAfterTheOther<L>(listing: L): seq<Step<L>> {
    [Start(0), Read(0), Create(0), Replace(0, listing), Start(1), Read(1), Replace(1, listing)]
  }

  lemma RunSnoc<L(!new)>(pick: Pick<L>, callers: nat, counter: Option<int>, steps: seq<Step<L>>, step: Step<L>)
    ensures Run(pick, callers, counter, steps + [step]) == Next(pick, Run(pick, callers, counter, steps), step)
  {
    assert (steps + [step])[..|steps|] == steps;
  }

  lemma FirstAllocation<L(!new)>(pick: Pick<L>, listing: L, i: int)
    requires pick(0, listing) == Some(i)
    ensures Run(pick, 2, None, OneAfterTheOther(listing)[..4])
            == State(None, [Created(0), Reserved(0, 0, listing, i)], [Finished(Allocated(i), 0, 2), Idle])
  {
    var steps := OneAfterTheOther(listing);
    assert steps[..0] == [];
    var s0 := State(None, [], [Idle, Idle]);
    assert Run(pick, 2, None, []) == s0;
    assert steps[..1] == [] + [steps[0]] && steps[..2] == steps[..1] + [steps[1]];
    assert steps[..3] == steps[..2] + [steps[2]] && steps[..4] == steps[..3] + [steps[3]];
    RunSnoc(pick, 2, None, [], steps[0]);
    RunSnoc(pick, 2, None, steps[..1], steps[1]);
    RunSnoc(pick, 2, None, steps[..2], steps[2]);
    RunSnoc(pick, 2, None, steps[..3], steps[3]);
    var s1 := Next(pick, s0, steps[0]);
    assert s1 == State(None, [], [Reading(0, 0), Idle]);
    var s2 := Next(pick, s1, steps[1]);
    assert s2 == State(None, [], [Creating(0, 0, 0), Idle]);
    var s3 := Next(pick, s2, steps[2]);
    assert s3 == State(None, [Created(0)], [Holding(0, 0, 1, 0), Idle]);
  }

  lemma TwoAllocations<L(!new)>(pick: Pick<L>, listing: L, i: int, j: int)
    requires pick(0, listing) == Some(i) && pick(i + 1, listing) == Some(j)
    ensures Run(pick, 2, None, OneAfterTheOther(listing))
            == State(None, [Created(0), Reserved(0, 0, listing, i), Reserved(1, i + 1, listing, j)],
                     [Finished(Allocated(i), 0, 2), Finished(Allocated(j), 2, 3)])
  {
    var steps := OneAfterTheOther(listing);
    FirstAllocation(pick, listing, i);
    var s4 := Run(pick, 2, None, steps[..4]);
    assert steps[..5] == steps[..4] + [steps[4]] && steps[..6] == steps[..5] + [steps[5]];
    assert steps == steps[..6] + [steps[6]];
    RunSnoc(pick, 2, None, steps[..4], steps[4]);
    RunSnoc(pick, 2, None, steps[..5], steps[5]);
    RunSnoc(pick, 2, None, steps[..6], steps[6]);
    var s5 := Next(pick, s4, steps[4]);
    assert s5 == s4.(phases := [Finished(Allocated(i), 0, 2), Reading(0, 2)]);
    var s6 := Next(pick, s5, steps[5]);
    assert s6 == s4.(phases := [Finished(Allocated(i), 0, 2), Holding(0, 2, 2, i + 1)]);
  }

  // ---- The retry loop of one call, with others writing in between

  /** What the others do around one attempt, what it lists, and which of its requests fail. */
  datatype Round<L> = Round(beforeRead: seq<Option<int>>, readFails: bool,
                            beforeCreate: seq<Option<int>>, createFails: bool,
                            listing: L, beforeReplace: seq<Option<int>>, replaceFails: bool, replyLost: bool)

  ghost predicate NoneReserved<L(!new)>(log: seq<Write<L>>, since: nat) {
    forall k | since <= k < |log| :: !log[k].Reserved?
  }

  /** At some version since, there was nothing to pick for the counter and this listing. */
  ghost predicate NothingToPick<L(!new)>(pick: Pick<L>, initial: Option<int>, log: seq<Write<L>>, since: nat, listing: L) {
    exists k :: since <= k <= |log| && At(initial, log, k).Some? && pick(At(initial, log, k).value, listing).None?
  }

  /** Since the first `since` writes there was one reservation, the last write: the caller's, picked
      from the counter that it replaced. */
  ghost predicate ReservedLast<L(!new)>(me: nat, pick: Pick<L>, initial: Option<int>, log: seq<Write<L>>, since: nat) {
    && |log| > since && log[|log| - 1].Reserved? && log[|log| - 1].caller == me
    && WriteOk(pick, initial, log, |log| - 1)
    && forall k | since <= k < |log| - 1 :: !log[k].Reserved?
  }

  /** The counter on the API server. `foreign` counts the writes that others made. */
  class ConfigMap<L(!new)> {
    var nextIndex: Option<int>
    var version: nat
    ghost const initial: Option<int>
    ghost var log: seq<Write<L>>
    ghost var foreign: nat

    ghost predicate Valid()
      reads this
    {
      nextIndex == Current(initial, log) && version == |log|
    }

    constructor (counter: Option<int>)
      ensures Valid() && initial == counter && log == [] && foreign == 0
    {
      nextIndex, version := counter, 0;
      initial, log, foreign := counter, [], 0;
    }

    method Store(ghost w: Write<L>, after: Option<int>)
      requires Valid() && After(w) == after
      modifies this`nextIndex, this`version, this`log
      ensures Valid() && log == old(log) + [w]
    {
      nextIndex, version := after, version + 1;
      log := log + [w];
    }

    /** Others touch, edit, create and delete the ConfigMap. */
    method Interfere(afters: seq<Option<int>>)
      requires Valid()
      modifies this
      ensures Valid() && |log| == |old(log)| + |afters| && old(log) <= log
      ensures forall k | |old(log)| <= k < |log| :: log[k].Foreign?
      ensures foreign == old(foreign) + |afters|
    {
      for i := 0 to |afters|
        invariant Valid() && |log| == |old(log)| + i && old(log) <= log
        invariant forall k | |old(log)| <= k < |log| :: log[k].Foreign?
        invariant foreign == old(foreign) + i
      {
        Store(Foreign(afters[i]), afters[i]);
        foreign := foreign + 1;
      }
    }

    /** Read the counter, or create it with 0: the value, and the version it was seen at. */
    method ReadOrCreate(me: nat, r: Round<L>) returns (outcome: Option<Outcome>, value: int, seen: nat)
      requires Valid()
      modifies this
      ensures Valid() && old(log) <= log && foreign >= old(foreign)
      ensures forall k | |old(log)| <= k < |log| :: !log[k].Reserved?
      ensures outcome.None? ==> seen == version && nextIndex == Some(value)
      ensures outcome.Some? ==> outcome.value in {Failed(ApiError), Conflict}
      ensures outcome == Some(Failed(ApiError)) ==> r.readFails || r.createFails
      ensures outcome == Some(Conflict) ==> foreign > old(foreign)
    {
      outcome, value, seen := None, 0, 0;
      Interfere(r.beforeRead);
      if r.readFails {
        return Some(Failed(ApiError)), 0, 0;
      }
      if nextIndex.Some? {
        return None, nextIndex.value, version;
      }
      Interfere(r.beforeCreate);
      if r.createFails {
        return Some(Failed(ApiError)), 0, 0;
      }
      if nextIndex.Some? {
        return Some(Conflict), 0, 0;
      }
      Store(Created(me), Some(0));
      return None, 0, version;
    }

    /** One attempt: `_allocate_vpc_cidr_once` and `_allocate_peering_link_once`. The outcome is
        Conflict when the API answered 409. */
    method AllocateOnce(me: nat, pick: Pick<L>, r: Round<L>) returns (outcome: Outcome)
      requires Valid()
      modifies this
      ensures Valid() && old(log) <= log && foreign >= old(foreign)
      ensures outcome.Conflict? ==> foreign > old(foreign)
      ensures outcome.Allocated? ==> ReservedLast(me, pick, initial, log, |old(log)|) && log[|log| - 1].index == outcome.index
      ensures outcome == Failed(ReplyLost) ==> ReservedLast(me, pick, initial, log, |old(log)|) && r.replyLost
      ensures !outcome.Allocated? && outcome != Failed(ReplyLost) ==> NoneReserved(log, |old(log)|)
      ensures outcome == Failed(ApiError) ==> r.readFails || r.createFails || r.replaceFails
      ensures outcome.Failed? && outcome.cause.CounterGone? ==> nextIndex.None?
      ensures outcome.Refused? ==> NothingToPick(pick, initial, log, |old(log)|, r.listing)
    {
      var early, value, seen := ReadOrCreate(me, r);
      if early.Some? {
        return early.value;
      }
      ghost var read := |log|;
      Interfere(r.beforeReplace);
      var choice := pick(value, r.listing);
      if choice.None? {
        assert At(initial, log, read) == Some(value);
        return Refused;
      }
      if r.replaceFails {
        return Failed(ApiError);
      }
      if nextIndex.None? {
        return Failed(CounterGone(seen));
      }
      if version != seen {
        return Conflict;
      }
      Store(Reserved(me, value, r.listing, choice.value), Some(choice.value + 1));
      return if r.replyLost then Failed(ReplyLost) else Allocated(choice.value);
    }

    /** `allocate_vpc_cidr` and `allocate_peering_link`: a success is one reservation, picked from
        the counter that it replaced; a conflict takes at least as many writes of others as there
        were attempts, and like a refusal reserves nothing; a failure may hide a reservation. */
    method Allocate(me: nat, pick: Pick<L>, rounds: seq<Round<L>>) returns (outcome: Outcome)
      requires Valid() && |rounds| >= MAX_RETRIES
      modifies this
      ensures Valid() && old(log) <= log
      ensures outcome.Conflict? ==> foreign >= old(foreign) + 5
      ensures outcome.Allocated? ==> ReservedLast(me, pick, initial, log, |old(log)|) && log[|log| - 1].index == outcome.index
      ensures outcome == Failed(ReplyLost) ==>
                ReservedLast(me, pick, initial, log, |old(log)|) && exists r <- rounds[..MAX_RETRIES] :: r.replyLost
      ensures !outcome.Allocated? && outcome != Failed(ReplyLost) ==> NoneReserved(log, |old(log)|)
      ensures outcome == Failed(ApiError) ==> exists r <- rounds[..MAX_RETRIES] :: r.readFails || r.createFails || r.replaceFails
      ensures outcome.Failed? && outcome.cause.CounterGone? ==> nextIndex.None?
      ensures outcome.Refused? ==>
                exists r <- rounds[..MAX_RETRIES] :: NothingToPick(pick, initial, log, |old(log)|, r.listing)
    {
      for attempt := 0 to MAX_RETRIES
        invariant Valid() && old(log) <= log && foreign >= old(foreign) + attempt
        invariant forall k | |old(log)| <= k < |log| :: !log[k].Reserved?
        invariant attempt < MAX_RETRIES
      {
        assert rounds[attempt] in rounds[..MAX_RETRIES];
        outcome := AllocateOnce(me, pick, rounds[attempt]);
        if !outcome.Conflict? || attempt + 1 == MAX_RETRIES {
          return;
        }
      }
      assert false;
    }
  }
}
