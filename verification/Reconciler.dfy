/**
  The addon reconciler (tenant_reconciler.py): passes that create the missing required addons of a
  tenant, each depending on an addon that is already there. `Passed` is one pass as a function; class
  `Tenant` carries it out in place. A tenant starts with whatever releases other code gave it.
 */
module Reconciler {
  import opened Options
  import opened Lists
  import opened Sorting

  datatype Component = Component(id: string, category: string, required: bool)

  /** The HelmReleases of the tenant: the addons each one depends on. */
  type Releases = map<string, set<string>>

  predicate IsCni(c: Component) {
    c.required && c.category == "networking"
  }

  /** namespaces, then CNI, then everything else */
  function Rank(c: Component): nat {
    if c.id == "namespaces" then 0 else if IsCni(c) then 1 else 2
  }

  predicate RankLe(c: Component, d: Component) {
    Rank(c) <= Rank(d)
  }

  /** The id of the first required networking component. */
  function CniId(all: seq<Component>): Option<string> {
    if all == [] then None else if IsCni(all[0]) then Some(all[0].id) else CniId(all[1..])
  }

  predicate HasNamespaces(all: seq<Component>) {
    exists c <- all :: c.id == "namespaces"
  }

  /** What the component should wait for, if it is there. */
  function Wanted(c: Component, all: seq<Component>): set<string> {
    if c.id == "namespaces" then {}
    else if IsCni(c) then (if HasNamespaces(all) then {"namespaces"} else {})
    else if CniId(all) in {None, Some("")} then {}
    else {CniId(all).value}
  }

  /** The dependency part of `_create_required_addon`. */
  function DependsOn(c: Component, all: seq<Component>, existing: set<string>): set<string> {
    Wanted(c, all) * existing
  }

  /** How the API answers a create that it could carry out; one for a release that is there is a 409. */
  datatype Answer = Accept | Failure

  type Answers = Component -> Answer

  datatype Work = Work(releases: Releases, existing: set<string>)

  function Created(w: Work, c: Component, all: seq<Component>, answer: Answer): Work {
    if answer.Failure? then w
    else
      Work(if c.id in w.releases then w.releases else w.releases[c.id := DependsOn(c, all, w.existing)],
           w.existing + {c.id})
  }

  function CreatedAll(w: Work, todo: seq<Component>, all: seq<Component>, answers: Answers): Work {
    if todo == [] then w
    else
      var c := todo[|todo| - 1];
      Created(CreatedAll(w, todo[..|todo| - 1], all, answers), c, all, answers(c))
  }

  function Missing(all: seq<Component>, existing: set<string>): seq<Component> {
    Filter(all, (c: Component) => c.id !in existing)
  }

  function Todo(all: seq<Component>, existing: set<string>): seq<Component> {
    Sort(Missing(all, existing), RankLe)
  }

  /** `_reconcile_tenant`, for a tenant that is ready and whose addons are left to this process. The
      listing shows the releases that carry the labels, or none when it fails: any part of them. */
  function Passed(releases: Releases, all: seq<Component>, listed: set<string>, answers: Answers): Releases {
    var existing := listed * releases.Keys;
    CreatedAll(Work(releases, existing), Todo(all, existing), all, answers).releases
  }

  // ---- Runs

  /** What the endpoint that enables an addon makes it depend on: the CNI, whatever the addon is. */
  function EnabledDeps(all: seq<Component>, id: string): set<string> {
    if CniId(all) in {None, Some("")} then {} else {CniId(all).value} - {id}
  }

  /** A pass, somebody deleting a release, or somebody enabling an addon by the endpoint. */
  datatype Step = Pass(listed: set<string>, answers: Answers) | Deleted(id: string) | Enabled(id: string)

  function Next(releases: Releases, all: seq<Component>, step: Step): Releases {
    match step
    case Pass(listed, answers) => Passed(releases, all, listed, answers)
    case Deleted(id) => releases - {id}
    case Enabled(id) => if id in releases then releases else releases[id := EnabledDeps(all, id)]
  }

  function Run(releases: Releases, all: seq<Component>, steps: seq<Step>): Releases {
    if steps == [] then releases
    else Next(Run(releases, all, steps[..|steps| - 1]), all, steps[|steps| - 1])
  }

  ghost predicate UniqueIds(all: seq<Component>) {
    forall c, d | c in all && d in all && c.id == d.id :: c == d
  }

  lemma TodoAre(all: seq<Component>, existing: set<string>, c: Component)
    ensures c in Todo(all, existing) <==> c in all && c.id !in existing
  {
    SameElements(Missing(all, existing), Todo(all, existing));
    FilterElements(all, (c: Component) => c.id !in existing, c);
  }

  // ---- Cycles

  /** A chain of dependencies. */
  ghost predicate Path(releases: Releases, path: seq<string>) {
    |path| > 1 && forall i | 0 <= i < |path| - 1 :: path[i] in releases && path[i + 1] in releases[path[i]]
  }

  /** No addon depends on itself, however many dependencies one follows. */
  ghost predicate Acyclic(releases: Releases) {
    forall path | Path(releases, path) :: path[0] != path[|path| - 1]
  }

  /** Every dependency of one is a dependency of the other. */
  ghost predicate Within(releases: Releases, others: Releases) {
    forall id | id in releases :: id in others && releases[id] <= others[id]
  }

  lemma WithinAcyclic(releases: Releases, others: Releases)
    requires Within(releases, others) && Acyclic(others)
    ensures Acyclic(releases)
  {
    forall path | Path(releases, path)
      ensures path[0] != path[|path| - 1]
    {
      assert Path(others, path);
    }
  }

  function Ids(all: seq<Component>): set<string> {
    set c | c in all :: c.id
  }

  function WantedBy(all: seq<Component>, id: string): set<string> {
    set c, d | c in all && c.id == id && d in Wanted(c, all) :: d
  }

  /** The releases together with what the catalogue wants of the missing components. */
  function Full(releases: Releases, all: seq<Component>): Releases {
    map id | id in releases.Keys + Ids(all) :: if id in releases then releases[id] else WantedBy(all, id)
  }

  lemma CreatedWithin(w: Work, c: Component, all: seq<Component>, answer: Answer, whole: Releases)
    requires Within(w.releases, whole) && c in all
    requires c.id !in w.releases ==> c.id in whole && Wanted(c, all) <= whole[c.id]
    ensures Within(Created(w, c, all, answer).releases, whole)
  {
  }

  /** The whole holds what a pass can create: the releases with everything wanted of the others. */
  ghost predicate Covers(whole: Releases, releases: Releases, all: seq<Component>) {
    && Within(releases, whole)
    && forall c | c in all && c.id !in releases :: c.id in whole && Wanted(c, all) <= whole[c.id]
  }

  lemma {:induction false} CreatedAllWithin(w: Work, todo: seq<Component>, all: seq<Component>, answers: Answers, whole: Releases)
    requires Covers(whole, w.releases, all) && forall c <- todo :: c in all
    ensures Covers(whole, CreatedAll(w, todo, all, answers).releases, all)
  {
    if todo != [] {
      var front, c := todo[..|todo| - 1], todo[|todo| - 1];
      assert todo == front + [c] && c in todo;
      CreatedAllWithin(w, front, all, answers, whole);
      CreatedWithin(CreatedAll(w, front, all, answers), c, all, answers(c), whole);
    }
  }

  lemma FullCovers(releases: Releases, all: seq<Component>)
    ensures Covers(Full(releases, all), releases, all)
  {
    forall c | c in all && c.id !in releases
      ensures c.id in Full(releases, all) && Wanted(c, all) <= Full(releases, all)[c.id]
    {
      assert c.id in Ids(all);
    }
  }

  lemma CreatedKeeps(w: Work, c: Component, all: seq<Component>, answer: Answer, base: Releases)
    requires Held(base, w.releases)
    ensures Held(base, Created(w, c, all, answer).releases)
  {
  }

  /** The releases hold all of the base, unchanged. */
  ghost predicate Held(base: Releases, releases: Releases) {
    forall id | id in base :: id in releases && releases[id] == base[id]
  }

  lemma {:induction false} CreatedAllKeeps(w: Work, todo: seq<Component>, all: seq<Component>, answers: Answers, base: Releases)
    requires Held(base, w.releases)
    ensures Held(base, CreatedAll(w, todo, all, answers).releases)
  {
    if todo != [] {
      CreatedAllKeeps(w, todo[..|todo| - 1], all, answers, base);
      CreatedKeeps(CreatedAll(w, todo[..|todo| - 1], all, answers), todo[|todo| - 1], all, answers(todo[|todo| - 1]), base);
    }
  }

  /** What is left of the start after a run, with what was enabled and is still there: everything that
      no pass created. */
  function BaseOf(start: Releases, all: seq<Component>, steps: seq<Step>): Releases {
    if steps == [] then start
    else
      var front := steps[..|steps| - 1];
      NextBase(BaseOf(start, all, front), Run(start, all, front), all, steps[|steps| - 1])
  }

  function NextBase(base: Releases, releases: Releases, all: seq<Component>, step: Step): Releases {
    match step
    case Pass(_, _) => base
    case Deleted(id) => base - {id}
    case Enabled(id) => if id in releases then base else base[id := EnabledDeps(all, id)]
  }

  /** Everything else was created by a pass: the releases lie between the base and the full base. */
  ghost predicate Between(base: Releases, releases: Releases, all: seq<Component>) {
    Held(base, releases) && Covers(Full(base, all), releases, all)
  }

  lemma DeletionBetween(base: Releases, releases: Releases, all: seq<Component>, id: string)
    requires Between(base, releases, all)
    ensures Between(base - {id}, releases - {id}, all)
  {
    var whole, whole' := Full(base, all), Full(base - {id}, all);
    forall other | other in releases - {id}
      ensures other in whole' && releases[other] <= whole'[other]
    {
      assert other in whole && releases[other] <= whole[other];
    }
    forall c | c in all && c.id !in releases - {id}
      ensures c.id in whole' && Wanted(c, all) <= whole'[c.id]
    {
      WantedIsCovered(base - {id}, all, c);
    }
  }

  lemma WantedIsCovered(base: Releases, all: seq<Component>, c: Component)
    requires c in all && c.id !in base
    ensures c.id in Full(base, all) && Wanted(c, all) <= Full(base, all)[c.id]
  {
    assert c.id in Ids(all);
  }

  lemma EnableBetween(base: Releases, releases: Releases, all: seq<Component>, id: string, deps: set<string>)
    requires Between(base, releases, all) && id !in releases
    ensures Between(base[id := deps], releases[id := deps], all)
  {
    var whole, whole' := Full(base, all), Full(base[id := deps], all);
    forall other | other in releases
      ensures other in whole' && releases[other] <= whole'[other]
    {
      assert other in whole && releases[other] <= whole[other];
    }
    forall c | c in all && c.id !in releases[id := deps]
      ensures c.id in whole' && Wanted(c, all) <= whole'[c.id]
    {
      WantedIsCovered(base[id := deps], all, c);
    }
  }

  lemma PassBetween(base: Releases, releases: Releases, all: seq<Component>, listed: set<string>, answers: Answers)
    requires Between(base, releases, all)
    ensures Between(base, Passed(releases, all, listed, answers), all)
  {
    var existing := listed * releases.Keys;
    forall c | c in Todo(all, existing) ensures c in all { TodoAre(all, existing, c); }
    CreatedAllWithin(Work(releases, existing), Todo(all, existing), all, answers, Full(base, all));
    CreatedAllKeeps(Work(releases, existing), Todo(all, existing), all, answers, base);
  }

  lemma {:induction false} RunBetween(start: Releases, all: seq<Component>, steps: seq<Step>)
    ensures Between(BaseOf(start, all, steps), Run(start, all, steps), all)
  {
    if steps == [] {
      FullCovers(start, all);
    } else {
      var front := steps[..|steps| - 1];
      RunBetween(start, all, front);
      NextBetween(BaseOf(start, all, front), Run(start, all, front), all, steps[|steps| - 1]);
    }
  }

  lemma NextBetween(base: Releases, releases: Releases, all: seq<Component>, step: Step)
    requires Between(base, releases, all)
    ensures Between(NextBase(base, releases, all, step), Next(releases, all, step), all)
  {
    match step
    case Pass(listed, answers) => PassBetween(base, releases, all, listed, answers);
    case Deleted(id) => DeletionBetween(base, releases, all, id);
    case Enabled(id) =>
      if id !in releases {
        EnableBetween(base, releases, all, id, EnabledDeps(all, id));
      }
  }

  // ---- One good pass is enough

  ghost predicate Accepts(answers: Answers) {
    forall c :: answers(c).Accept?
  }

  lemma {:induction false} CreatedAllPresent(w: Work, todo: seq<Component>, all: seq<Component>, answers: Answers)
    requires Accepts(answers)
    ensures var w' := CreatedAll(w, todo, all, answers);
            && w.releases.Keys <= w'.releases.Keys
            && (forall id | id in w.releases :: w'.releases[id] == w.releases[id])
            && (forall c <- todo :: c.id in w'.releases && c.id in w'.existing)
            && w.existing <= w'.existing
  {
    if todo != [] {
      var front, c := todo[..|todo| - 1], todo[|todo| - 1];
      assert todo == front + [c];
      CreatedAllPresent(w, front, all, answers);
    }
  }

  lemma {:induction false} NotYetCreated(w: Work, todo: seq<Component>, all: seq<Component>, answers: Answers, id: string)
    requires id !in w.releases && forall c <- todo :: c.id != id
    ensures id !in CreatedAll(w, todo, all, answers).releases
  {
    if todo != [] {
      var front, last := todo[..|todo| - 1], todo[|todo| - 1];
      assert todo == front + [last];
      NotYetCreated(w, front, all, answers, id);
    }
  }

  lemma {:induction false} CniIs(all: seq<Component>)
    ensures CniId(all).Some? ==> exists c :: c in all && IsCni(c) && c.id == CniId(all).value
  {
    if all != [] {
      if IsCni(all[0]) {
        assert all[0] in all;
      } else if CniId(all).Some? {
        CniIs(all[1..]);
        var c :| c in all[1..] && IsCni(c) && c.id == CniId(all[1..]).value;
        assert c in all;
      }
    }
  }

  /** What a component waits for is in the catalogue, and ranks below it. */
  lemma WantedRanksBelow(all: seq<Component>, c: Component, id: string) returns (d: Component)
    requires c in all && id in Wanted(c, all)
    ensures d in all && d.id == id && Rank(d) < Rank(c)
  {
    if IsCni(c) {
      d :| d in all && d.id == "namespaces";
    } else {
      CniIs(all);
      d :| d in all && IsCni(d) && d.id == CniId(all).value;
    }
  }

  lemma RankOrder()
    ensures Preorder(RankLe)
  {
  }

  /** What each one waits for is there already, or comes earlier. */
  ghost predicate InOrder(existing: set<string>, todo: seq<Component>, all: seq<Component>) {
    forall i, id | 0 <= i < |todo| && id in Wanted(todo[i], all) :: Before(existing, todo, i, id)
  }

  ghost predicate Before(existing: set<string>, todo: seq<Component>, i: int, id: string) {
    id in existing || exists j :: 0 <= j < i && j < |todo| && todo[j].id == id
  }

  lemma TodoInOrder(all: seq<Component>, existing: set<string>)
    ensures InOrder(existing, Todo(all, existing), all)
  {
    var todo := Todo(all, existing);
    RankOrder();
    SortSorted(Missing(all, existing), RankLe);
    forall i, id | 0 <= i < |todo| && id in Wanted(todo[i], all)
      ensures Before(existing, todo, i, id)
    {
      TodoAre(all, existing, todo[i]);
      assert todo[i] in todo;
      var d := WantedRanksBelow(all, todo[i], id);
      TodoAre(all, existing, d);
      if id !in existing {
        var j :| 0 <= j < |todo| && todo[j] == d;
        assert i < j ==> RankLe(todo[i], todo[j]);
      }
    }
  }

  lemma FrontInOrder(existing: set<string>, todo: seq<Component>, all: seq<Component>)
    requires InOrder(existing, todo, all) && todo != []
    ensures InOrder(existing, todo[..|todo| - 1], all)
  {
    var front := todo[..|todo| - 1];
    forall i, id | 0 <= i < |front| && id in Wanted(front[i], all)
      ensures Before(existing, front, i, id)
    {
      assert Before(existing, todo, i, id);
    }
  }

  /** The last of the list is created with all that it wants. */
  lemma LastGetsAll(w: Work, todo: seq<Component>, all: seq<Component>, answers: Answers)
    requires todo != [] && Accepts(answers) && InOrder(w.existing, todo, all)
    ensures Wanted(todo[|todo| - 1], all) <= CreatedAll(w, todo[..|todo| - 1], all, answers).existing
  {
    var n := |todo| - 1;
    var front := todo[..n];
    CreatedAllPresent(w, front, all, answers);
    forall id | id in Wanted(todo[n], all)
      ensures id in CreatedAll(w, front, all, answers).existing
    {
      assert Before(w.existing, todo, n, id);
      if id !in w.existing {
        var j :| 0 <= j < n && todo[j].id == id;
        assert front[j] in front;
      }
    }
  }

  lemma {:induction false} CreatedInOrder(w: Work, todo: seq<Component>, all: seq<Component>, answers: Answers, c: Component)
    requires Accepts(answers) && UniqueIds(todo) && InOrder(w.existing, todo, all)
    requires c in todo && c.id !in w.releases
    ensures c.id in CreatedAll(w, todo, all, answers).releases
    ensures CreatedAll(w, todo, all, answers).releases[c.id] == Wanted(c, all)
  {
    var front, last := todo[..|todo| - 1], todo[|todo| - 1];
    assert todo == front + [last] && last in todo;
    if c in front {
      FrontInOrder(w.existing, todo, all);
      CreatedInOrder(w, front, all, answers, c);
    } else {
      NotYetCreated(w, front, all, answers, c.id);
      LastGetsAll(w, todo, all, answers);
    }
  }

  /** In a pass in which no create fails the order of creation is right: every addon it creates
      depends on what it should wait for, namespaces before the CNI and the CNI before the rest. */
  lemma GoodPassChains(releases: Releases, all: seq<Component>, listed: set<string>, answers: Answers, c: Component)
    requires Accepts(answers) && UniqueIds(all) && c in all && c.id !in releases
    ensures c.id in Passed(releases, all, listed, answers)
    ensures Passed(releases, all, listed, answers)[c.id] == Wanted(c, all)
  {
    var existing := listed * releases.Keys;
    var todo := Todo(all, existing);
    TodoAre(all, existing, c);
    forall d | d in todo ensures d in all { TodoAre(all, existing, d); }
    TodoInOrder(all, existing);
    CreatedInOrder(Work(releases, existing), todo, all, answers, c);
  }

  /** The component is the first required networking component of the catalogue. */
  ghost predicate IsFirstCni(all: seq<Component>, k: nat) {
    && k < |all| && all[k].required && all[k].category == "networking"
    && forall j | 0 <= j < k :: !(all[j].required && all[j].category == "networking")
  }

  lemma {:induction false} CniIdIsFirst(all: seq<Component>, k: nat)
    requires IsFirstCni(all, k)
    ensures CniId(all) == Some(all[k].id)
  {
    if k > 0 {
      assert !IsCni(all[0]);
      assert forall j | 0 <= j < k - 1 :: all[1..][j] == all[j + 1];
      CniIdIsFirst(all[1..], k - 1);
    }
  }

  lemma {:induction false} NoCniId(all: seq<Component>)
    requires forall c <- all :: !(c.required && c.category == "networking")
    ensures CniId(all).None?
  {
    if all != [] {
      NoCniId(all[1..]);
    }
  }

  /** In the terms of the catalogue: an addon that such a pass creates depends on nothing if it is
      namespaces, on namespaces, where there is one, if it is a required networking component, and else
      on the first required networking component, where there is one. */
  lemma GoodPassDependencies(releases: Releases, all: seq<Component>, listed: set<string>, answers: Answers, c: Component)
    requires Accepts(answers) && UniqueIds(all) && c in all && c.id !in releases && forall d <- all :: d.id != ""
    ensures var after, cni := Passed(releases, all, listed, answers), c.required && c.category == "networking";
            && c.id in after
            && (c.id == "namespaces" ==> after[c.id] == {})
            && (c.id != "namespaces" && cni ==>
                  after[c.id] == if exists d <- all :: d.id == "namespaces" then {"namespaces"} else {})
            && (c.id != "namespaces" && !cni ==> forall k: nat | IsFirstCni(all, k) :: after[c.id] == {all[k].id})
            && (c.id != "namespaces" && (forall d <- all :: !(d.required && d.category == "networking")) ==> after[c.id] == {})
  {
    GoodPassChains(releases, all, listed, answers, c);
    forall k: nat | IsFirstCni(all, k)
      ensures CniId(all) == Some(all[k].id) && all[k].id != ""
    {
      CniIdIsFirst(all, k);
      assert all[k] in all;
    }
    if forall d <- all :: !(d.required && d.category == "networking") {
      NoCniId(all);
    }
  }

  lemma GoodPassKeeps(releases: Releases, all: seq<Component>, listed: set<string>, answers: Answers)
    requires Accepts(answers)
    ensures var after := Passed(releases, all, listed, answers);
            && Ids(all) + releases.Keys <= after.Keys
            && forall id | id in releases :: after[id] == releases[id]
  {
    var existing := listed * releases.Keys;
    var todo := Todo(all, existing);
    CreatedAllPresent(Work(releases, existing), todo, all, answers);
    forall c | c in all ensures c.id in Passed(releases, all, listed, answers) { TodoAre(all, existing, c); }
  }

  /** After such a pass, whatever the listing showed, the releases are the full ones: every required
      addon is present, with all that it wants if it was missing. */
  lemma GoodPassIsFull(releases: Releases, all: seq<Component>, listed: set<string>, answers: Answers)
    requires Accepts(answers) && UniqueIds(all)
    ensures Passed(releases, all, listed, answers) == Full(releases, all)
  {
    var after := Passed(releases, all, listed, answers);
    GoodPassKeeps(releases, all, listed, answers);
    PassAddsOnly(releases, all, listed, answers);
    forall id | id in after
      ensures after[id] == Full(releases, all)[id]
    {
      if id !in releases {
        var c :| c in all && c.id == id;
        GoodPassChains(releases, all, listed, answers, c);
        WantedByOne(all, c);
      }
    }
  }

  lemma WantedByOne(all: seq<Component>, c: Component)
    requires UniqueIds(all) && c in all
    ensures WantedBy(all, c.id) == Wanted(c, all)
  {
  }

  lemma PassAddsOnly(releases: Releases, all: seq<Component>, listed: set<string>, answers: Answers)
    ensures Passed(releases, all, listed, answers).Keys <= releases.Keys + Ids(all)
  {
    FullCovers(releases, all);
    PassBetween(releases, releases, all, listed, answers);
  }

  /** And the next pass has nothing to create: its listing shows everything, or its creates conflict. */
  lemma GoodPassConverges(releases: Releases, all: seq<Component>, listed: set<string>, answers: Answers,
                          listed': set<string>, answers': Answers)
    requires Accepts(answers)
    ensures var after := Passed(releases, all, listed, answers);
            && (forall c <- all :: c.id in after)
            && Passed(after, all, listed', answers') == after
            && (after.Keys <= listed' ==> Todo(all, listed' * after.Keys) == [])
  {
    var after := Passed(releases, all, listed, answers);
    GoodPassKeeps(releases, all, listed, answers);
    forall c | c in all ensures c.id in after { assert c.id in Ids(all); }
    var existing := listed' * after.Keys;
    var todo := Todo(all, existing);
    forall c | c in todo ensures c.id in after { TodoAre(all, existing, c); }
    OnlyConflicts(Work(after, existing), todo, all, answers');
    if after.Keys <= listed' {
      FilterNone(all, (c: Component) => c.id !in existing);
    }
  }

  lemma {:induction false} OnlyConflicts(w: Work, todo: seq<Component>, all: seq<Component>, answers: Answers)
    requires forall c <- todo :: c.id in w.releases
    ensures CreatedAll(w, todo, all, answers).releases == w.releases
  {
    if todo != [] {
      OnlyConflicts(w, todo[..|todo| - 1], all, answers);
    }
  }

  // ---- When no run makes a cycle

  ghost predicate OnlyPasses(steps: seq<Step>) {
    forall s <- steps :: s.Pass?
  }

  ghost predicate NothingEnabled(steps: seq<Step>) {
    forall s <- steps :: !s.Enabled?
  }

  lemma RunAcyclic(start: Releases, all: seq<Component>, steps: seq<Step>)
    requires Acyclic(Full(BaseOf(start, all, steps), all))
    ensures Acyclic(Run(start, all, steps))
  {
    RunBetween(start, all, steps);
    WithinAcyclic(Run(start, all, steps), Full(BaseOf(start, all, steps), all));
  }

  lemma RunSnoc(start: Releases, all: seq<Component>, steps: seq<Step>, step: Step)
    ensures Run(start, all, steps + [step]) == Next(Run(start, all, steps), all, step)
  {
    assert (steps + [step])[..|steps|] == steps;
  }

  lemma {:induction false} DeleteAll(start: Releases, all: seq<Component>, gone: set<string>) returns (steps: seq<Step>)
    ensures Run(start, all, steps) == start - gone
    ensures NothingEnabled(steps) && (gone == {} ==> steps == [])
  {
    steps := [];
    if gone == {} {
      assert start - gone == start;
    } else {
      var id :| id in gone;
      var before := DeleteAll(start, all, gone - {id});
      RunSnoc(start, all, before, Deleted(id));
      assert start - (gone - {id}) - {id} == start - gone;
      steps := before + [Deleted(id)];
    }
  }

  /** A good pass at the end of a run completes the releases. */
  lemma GoodPassEnds(start: Releases, all: seq<Component>, before: seq<Step>) returns (steps: seq<Step>)
    requires UniqueIds(all)
    ensures Run(start, all, steps) == Full(Run(start, all, before), all)
    ensures OnlyPasses(before) ==> OnlyPasses(steps)
    ensures NothingEnabled(before) ==> NothingEnabled(steps)
    ensures NoDeletions(before) ==> NoDeletions(steps)
  {
    var accept := (c: Component) => Accept;
    steps := before + [Pass({}, accept)];
    RunSnoc(start, all, before, Pass({}, accept));
    GoodPassIsFull(Run(start, all, before), all, {}, accept);
  }

  ghost predicate NoDeletions(steps: seq<Step>) {
    forall s <- steps :: !s.Deleted?
  }

  // Passes alone

  ghost predicate NeverCyclicByPasses(start: Releases, all: seq<Component>) {
    forall steps | OnlyPasses(steps) :: Acyclic(Run(start, all, steps))
  }

  lemma {:induction false} BaseOfPasses(start: Releases, all: seq<Component>, steps: seq<Step>)
    requires OnlyPasses(steps)
    ensures BaseOf(start, all, steps) == start
  {
    if steps != [] {
      assert steps[|steps| - 1] in steps && forall s <- steps[..|steps| - 1] :: s in steps;
      BaseOfPasses(start, all, steps[..|steps| - 1]);
    }
  }

  /** From any releases, whatever fails or conflicts and whatever listings show: passes make no cycle, if
      and only if there is none in the releases together with what the catalogue wants of the missing
      components. */
  lemma NeverCyclicByPassesIff(start: Releases, all: seq<Component>)
    requires UniqueIds(all)
    ensures NeverCyclicByPasses(start, all) <==> Acyclic(Full(start, all))
  {
    if Acyclic(Full(start, all)) {
      forall steps | OnlyPasses(steps)
        ensures Acyclic(Run(start, all, steps))
      {
        BaseOfPasses(start, all, steps);
        RunAcyclic(start, all, steps);
      }
    } else {
      var steps := GoodPassEnds(start, all, []);
      assert !Acyclic(Run(start, all, steps));
    }
  }

  // Passes and deletions

  ghost predicate NeverCyclicUnlessEnabled(start: Releases, all: seq<Component>) {
    forall steps | NothingEnabled(steps) :: Acyclic(Run(start, all, steps))
  }

  lemma {:induction false} BaseOfDeletions(start: Releases, all: seq<Component>, steps: seq<Step>) returns (gone: set<string>)
    requires NothingEnabled(steps)
    ensures BaseOf(start, all, steps) == start - gone
  {
    gone := {};
    if steps == [] {
      assert start - gone == start;
    } else {
      var last := steps[|steps| - 1];
      assert last in steps && forall s <- steps[..|steps| - 1] :: s in steps;
      gone := BaseOfDeletions(start, all, steps[..|steps| - 1]);
      if last.Deleted? {
        assert start - gone - {last.id} == start - (gone + {last.id});
        gone := gone + {last.id};
      }
    }
  }

  /** With deletions: no cycle, if and only if there is none whichever of the releases are gone and
      created again. */
  lemma NeverCyclicUnlessEnabledIff(start: Releases, all: seq<Component>)
    requires UniqueIds(all)
    ensures NeverCyclicUnlessEnabled(start, all) <==> forall gone :: Acyclic(Full(start - gone, all))
  {
    if NeverCyclicUnlessEnabled(start, all) {
      forall gone
        ensures Acyclic(Full(start - gone, all))
      {
        var before := DeleteAll(start, all, gone);
        var steps := GoodPassEnds(start, all, before);
      }
    } else {
      var steps :| NothingEnabled(steps) && !Acyclic(Run(start, all, steps));
      var gone := BaseOfDeletions(start, all, steps);
      if Acyclic(Full(start - gone, all)) {
        RunAcyclic(start, all, steps);
      }
    }
  }

  // Passes, deletions and the endpoint

  ghost predicate NeverCyclic(start: Releases, all: seq<Component>) {
    forall steps :: Acyclic(Run(start, all, steps))
  }

  /** Some of the start, and some addons as the endpoint enables them. */
  ghost predicate Based(start: Releases, all: seq<Component>, base: Releases) {
    forall id | id in base :: (id in start && base[id] == start[id]) || base[id] == EnabledDeps(all, id)
  }

  lemma {:induction false} BaseOfIsBased(start: Releases, all: seq<Component>, steps: seq<Step>)
    ensures Based(start, all, BaseOf(start, all, steps))
  {
    if steps != [] {
      BaseOfIsBased(start, all, steps[..|steps| - 1]);
    }
  }

  lemma {:induction false} EnableAll(start: Releases, all: seq<Component>, before: seq<Step>, extra: Releases) returns (steps: seq<Step>)
    requires forall id | id in extra :: id !in Run(start, all, before) && extra[id] == EnabledDeps(all, id)
    ensures Run(start, all, steps) == Run(start, all, before) + extra
    decreases |extra|
  {
    if extra == map[] {
      steps := before;
      assert Run(start, all, before) + extra == Run(start, all, before);
    } else {
      var id :| id in extra;
      OneLess(Run(start, all, before), extra, id);
      var most := EnableAll(start, all, before, extra - {id});
      RunSnoc(start, all, most, Enabled(id));
      steps := most + [Enabled(id)];
    }
  }

  lemma OneLess(releases: Releases, extra: Releases, id: string)
    requires id in extra && id !in releases
    ensures |extra - {id}| < |extra|
    ensures id !in releases + (extra - {id})
    ensures (releases + (extra - {id}))[id := extra[id]] == releases + extra
  {
    Smaller(extra, id);
  }

  lemma Smaller(extra: Releases, id: string)
    requires id in extra
    ensures |extra - {id}| < |extra|
  {
    var rest := extra - {id};
    assert rest.Keys == extra.Keys - {id} && |rest| == |rest.Keys| && |extra| == |extra.Keys|;
  }

  /** Every such base is the end of a run: delete what it lacks or has otherwise, and enable the rest. */
  lemma BaseIsReached(start: Releases, all: seq<Component>, base: Releases) returns (steps: seq<Step>)
    requires Based(start, all, base)
    ensures Run(start, all, steps) == base
  {
    var gone := set id | id in start && !(id in base && base[id] == start[id]);
    var extra := map id | id in base && !(id in start && base[id] == start[id]) :: base[id];
    var before := DeleteAll(start, all, gone);
    steps := EnableAll(start, all, before, extra);
    assert start - gone + extra == base;
  }

  /** Over every run of passes, deletions and enabled addons: no cycle, if and only if there is none in
      any choice from the start and the enabled addons, together with what the catalogue wants of the
      components that are missing in it. */
  lemma NeverCyclicIff(start: Releases, all: seq<Component>)
    requires UniqueIds(all)
    ensures NeverCyclic(start, all) <==> forall base | Based(start, all, base) :: Acyclic(Full(base, all))
  {
    if NeverCyclic(start, all) {
      forall base | Based(start, all, base)
        ensures Acyclic(Full(base, all))
      {
        var before := BaseIsReached(start, all, base);
        var steps := GoodPassEnds(start, all, before);
      }
    } else {
      var steps :| !Acyclic(Run(start, all, steps));
      BaseOfIsBased(start, all, steps);
      if Acyclic(Full(BaseOf(start, all, steps), all)) {
        RunAcyclic(start, all, steps);
      }
    }
  }

  /** The rank of any addon: the optional ones come last. */
  function IdRank(all: seq<Component>, id: string): nat {
    if id == "namespaces" then 0 else if exists c <- all :: c.id == id && IsCni(c) then 1 else 2
  }

  /** Dependencies as `_create_addon_resources` writes them when a tenant is created: the CNI waits
      for namespaces, everything else for a CNI. */
  ghost predicate Ranked(releases: Releases, all: seq<Component>) {
    forall id, d | id in releases && d in releases[id] :: IdRank(all, d) < IdRank(all, id)
  }

  lemma FullIsRanked(releases: Releases, all: seq<Component>)
    requires UniqueIds(all) && Ranked(releases, all)
    ensures Ranked(Full(releases, all), all)
  {
    forall id, d | id in Full(releases, all) && d in Full(releases, all)[id]
      ensures IdRank(all, d) < IdRank(all, id)
    {
      if id !in releases {
        var c :| c in all && c.id == id && d in Wanted(c, all);
        var e := WantedRanksBelow(all, c, d);
        assert IdRank(all, id) == Rank(c) && IdRank(all, d) <= Rank(e);
      }
    }
  }

  lemma {:induction false} PathDescends(releases: Releases, all: seq<Component>, path: seq<string>)
    requires Ranked(releases, all) && Path(releases, path)
    ensures IdRank(all, path[|path| - 1]) < IdRank(all, path[0])
  {
    assert path[0] in releases && path[0 + 1] in releases[path[0]];
    if |path| > 2 {
      var rest := path[1..];
      forall i | 0 <= i < |rest| - 1 ensures rest[i] in releases && rest[i + 1] in releases[rest[i]] {
        assert path[i + 1] in releases && path[i + 1 + 1] in releases[path[i + 1]];
      }
      PathDescends(releases, all, rest);
    }
  }

  /** Only optional addons are enabled by the endpoint. */
  ghost predicate OptionalOnly(all: seq<Component>, steps: seq<Step>) {
    forall s <- steps :: s.Enabled? ==> IdRank(all, s.id) == 2
  }

  lemma EnabledIsRanked(all: seq<Component>, id: string, d: string)
    requires IdRank(all, id) == 2 && d in EnabledDeps(all, id)
    ensures IdRank(all, d) < 2
  {
    CniIs(all);
  }

  lemma {:induction false} BaseIsRanked(start: Releases, all: seq<Component>, steps: seq<Step>)
    requires Ranked(start, all) && OptionalOnly(all, steps)
    ensures Ranked(BaseOf(start, all, steps), all)
  {
    if steps != [] {
      var front, last := steps[..|steps| - 1], steps[|steps| - 1];
      assert last in steps && forall s <- front :: s in steps;
      BaseIsRanked(start, all, front);
      if last.Enabled? {
        forall d | d in EnabledDeps(all, last.id)
          ensures IdRank(all, d) < IdRank(all, last.id)
        {
          EnabledIsRanked(all, last.id, d);
        }
      }
    }
  }

  /** A tenant whose addons were created that way, or that has none, never gets a cycle, with deletions
      and with whatever optional addons are enabled. */
  lemma RankedStartNeverCyclic(start: Releases, all: seq<Component>, steps: seq<Step>)
    requires UniqueIds(all) && Ranked(start, all) && OptionalOnly(all, steps)
    ensures Acyclic(Run(start, all, steps))
  {
    var full := Full(BaseOf(start, all, steps), all);
    BaseIsRanked(start, all, steps);
    FullIsRanked(BaseOf(start, all, steps), all);
    forall path | Path(full, path)
      ensures path[0] != path[|path| - 1]
    {
      PathDescends(full, all, path);
    }
    RunAcyclic(start, all, steps);
  }

  lemma OneEdge(releases: Releases, a: string, b: string)
    requires a != b && releases == map[a := {b}]
    ensures Acyclic(releases)
  {
    forall path | Path(releases, path)
      ensures path[0] != path[|path| - 1]
    {
      assert path[0] in releases && path[0 + 1] in releases[path[0]];
      assert |path| == 2 || path[1] in releases;
    }
  }

  lemma TwoEdges(releases: Releases, a: string, b: string)
    requires a in releases && b in releases[a] && b in releases && a in releases[b]
    ensures !Acyclic(releases)
  {
    assert Path(releases, [a, b, a]);
  }

  /** The endpoint makes even namespaces depend on the CNI. On a tenant that has neither, enabling
      namespaces and a pass in which nothing fails close a cycle. */
  lemma EnabledNamespacesCloseACycle(ns: Component, cni: Component, listed: set<string>)
    requires ns.id == "namespaces" && cni.id != ns.id && cni.id != "" && IsCni(cni) && !IsCni(ns)
    ensures var all, accept := [ns, cni], (c: Component) => Accept;
            && UniqueIds(all) && Acyclic(Run(map[], all, [Enabled(ns.id)]))
            && !Acyclic(Run(map[], all, [Enabled(ns.id), Pass(listed, accept)]))
  {
    var all, accept, start := [ns, cni], (c: Component) => Accept, map[ns.id := {cni.id}];
    EnabledAlone(ns, cni);
    OneEdge(start, ns.id, cni.id);
    RunSnoc(map[], all, [Enabled(ns.id)], Pass(listed, accept));
    assert [Enabled(ns.id)] + [Pass(listed, accept)] == [Enabled(ns.id), Pass(listed, accept)];
    PassClosesTheCycle(ns, cni, listed);
  }

  lemma EnabledAlone(ns: Component, cni: Component)
    requires cni.id != ns.id && cni.id != "" && IsCni(cni) && !IsCni(ns)
    ensures Run(map[], [ns, cni], [Enabled(ns.id)]) == map[ns.id := {cni.id}]
    ensures UniqueIds([ns, cni])
  {
    var all := [ns, cni];
    assert all[1..] == [cni];
    assert CniId(all) == CniId(all[1..]) == Some(cni.id);
    assert EnabledDeps(all, ns.id) == {cni.id};
    var none: Releases := map[];
    assert Run(none, all, []) == none;
    RunSnoc(none, all, [], Enabled(ns.id));
    assert [] + [Enabled(ns.id)] == [Enabled(ns.id)];
  }

  lemma PassClosesTheCycle(ns: Component, cni: Component, listed: set<string>)
    requires ns.id == "namespaces" && cni.id != ns.id && IsCni(cni) && UniqueIds([ns, cni])
    ensures !Acyclic(Passed(map[ns.id := {cni.id}], [ns, cni], listed, (c: Component) => Accept))
  {
    var start: Releases, all, accept := map[ns.id := {cni.id}], [ns, cni], (c: Component) => Accept;
    assert all[0] == ns && all[1] == cni;
    GoodPassChains(start, all, listed, accept, cni);
    GoodPassKeeps(start, all, listed, accept);
    TwoEdges(Passed(start, all, listed, accept), cni.id, ns.id);
  }

  // ---- Nothing depends on what is not there

  ghost predicate Closed(releases: Releases) {
    forall id, d | id in releases && d in releases[id] :: d in releases
  }

  lemma DeletionClosedIff(releases: Releases, id: string)
    requires Closed(releases)
    ensures Closed(releases - {id}) <==> forall other | other in releases && other != id :: id !in releases[other]
  {
    if Closed(releases - {id}) {
      forall other | other in releases && other != id
        ensures id !in releases[other]
      {
        assert other in releases - {id} && (releases - {id})[other] == releases[other];
      }
    }
  }

  lemma {:induction false} CreatedAllCloses(w: Work, todo: seq<Component>, all: seq<Component>, answers: Answers)
    requires Closed(w.releases) && w.existing <= w.releases.Keys
    ensures var w' := CreatedAll(w, todo, all, answers); Closed(w'.releases) && w'.existing <= w'.releases.Keys
  {
    if todo != [] {
      CreatedAllCloses(w, todo[..|todo| - 1], all, answers);
    }
  }

  lemma EnablingClosedIff(releases: Releases, id: string, deps: set<string>)
    requires Closed(releases) && id !in releases && id !in deps
    ensures Closed(releases[id := deps]) <==> deps <= releases.Keys
  {
    var after := releases[id := deps];
    assert id in after && after[id] == deps;
    if Closed(after) {
      forall d | d in deps ensures d in releases { assert d in after; }
    } else {
      var other, d :| other in after && d in after[other] && d !in after;
      assert other != id ==> d in releases;
    }
  }

  /** Nobody deletes an addon that another one depends on, or enables one before the CNI is there. */
  ghost predicate Careful(start: Releases, all: seq<Component>, steps: seq<Step>) {
    forall i | 0 <= i < |steps| :: Harmless(Run(start, all, steps[..i]), all, steps[i])
  }

  ghost predicate Harmless(releases: Releases, all: seq<Component>, step: Step) {
    match step
    case Pass(_, _) => true
    case Deleted(id) => forall other | other in releases && other != id :: id !in releases[other]
    case Enabled(id) => id in releases || EnabledDeps(all, id) <= releases.Keys
  }

  /** From any releases whose dependencies exist, whatever fails or conflicts and whatever listings
      show: every addon depends on addons that exist. */
  lemma {:induction false} AlwaysClosed(start: Releases, all: seq<Component>, steps: seq<Step>)
    requires Closed(start) && Careful(start, all, steps)
    ensures Closed(Run(start, all, steps))
  {
    if steps != [] {
      var n := |steps| - 1;
      var front := steps[..n];
      forall i | 0 <= i < n ensures Harmless(Run(start, all, front[..i]), all, front[i]) {
        assert steps[..i] == front[..i] && steps[i] == front[i];
      }
      AlwaysClosed(start, all, front);
      assert Harmless(Run(start, all, front), all, steps[n]);
      HarmlessCloses(Run(start, all, front), all, steps[n]);
    }
  }

  lemma HarmlessCloses(releases: Releases, all: seq<Component>, step: Step)
    requires Closed(releases) && Harmless(releases, all, step)
    ensures Closed(Next(releases, all, step))
  {
    match step
    case Deleted(id) => DeletionClosedIff(releases, id);
    case Enabled(id) =>
      if id !in releases {
        EnablingClosedIff(releases, id, EnabledDeps(all, id));
      }
    case Pass(listed, answers) =>
      var existing := listed * releases.Keys;
      CreatedAllCloses(Work(releases, existing), Todo(all, existing), all, answers);
  }

  // ---- The tenant, edited in place

  datatype Outcome = Done | Conflict | Failed

  class Tenant {
    var releases: Releases

    constructor (releases: Releases)
      ensures this.releases == releases
    {
      this.releases := releases;
    }

    /** `_create_required_addon` at the API, which refuses a name that is taken with 409. */
    method CreateRequiredAddon(c: Component, all: seq<Component>, existing: set<string>, answer: Answer)
      returns (outcome: Outcome)
      modifies this
      ensures outcome == if answer.Failure? then Failed else if c.id in old(releases) then Conflict else Done
      ensures releases == if outcome.Done? then old(releases)[c.id := DependsOn(c, all, existing)] else old(releases)
      ensures outcome.Done? ==> releases[c.id] <= existing
    {
      if answer.Failure? {
        return Failed;
      }
      if c.id in releases {
        return Conflict;
      }
      releases := releases[c.id := DependsOn(c, all, existing)];
      return Done;
    }

    method CreateInOrder(todo: seq<Component>, all: seq<Component>, listed: set<string>, answers: Answers)
      modifies this
      ensures releases == CreatedAll(Work(old(releases), listed), todo, all, answers).releases
    {
      var existing := listed;
      for i := 0 to |todo|
        invariant Work(releases, existing) == CreatedAll(Work(old(releases), listed), todo[..i], all, answers)
      {
        assert todo[..i + 1][..i] == todo[..i];
        var outcome := CreateRequiredAddon(todo[i], all, existing, answers(todo[i]));
        if !outcome.Failed? {
          existing := existing + {todo[i].id};
        }
      }
      assert todo[..|todo|] == todo;
    }

    /** `_reconcile_tenant`; a tenant that is not ready is left alone, and so are the addons when the
        operator renders them. */
    method ReconcileTenant(all: seq<Component>, ready: bool, operatorOwned: bool, listed: set<string>, answers: Answers)
      modifies this
      ensures releases == if ready && !operatorOwned then Passed(old(releases), all, listed, answers) else old(releases)
    {
      if !ready {
        return;
      }
      var existing := listed * releases.Keys;
      var todo := Todo(all, existing);
      if !operatorOwned {
        CreateInOrder(todo, all, existing, answers);
      }
    }
  }
}
