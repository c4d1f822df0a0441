/**
  The watch-backed cache (watch_cache.py): an in-memory dictionary that follows the versioned state
  of the API server through LISTs, events, reconnects and expired versions. The server is a log of
  writes, one for each version; nothing else is assumed about when it ends a stream.
 */
module WatchCache {
  import opened Options
  import opened Text

  // ---- The server

  datatype Raw = Raw(namespace: Option<string>, name: Option<string>, version: Option<nat>, fields: map<string, string>)

  type Id = (string, string)

  function IdOf(raw: Raw): Id {
    (OrEmpty(raw.namespace), OrEmpty(raw.name))
  }

  /** Names of Kubernetes objects contain no slash. */
  predicate Plain(raw: Raw) {
    '/' !in OrEmpty(raw.namespace) && '/' !in OrEmpty(raw.name)
  }

  /** What the write that leads to one version did; versions are shared with other kinds of object. */
  datatype Change = Put(raw: Raw) | Delete(raw: Raw) | Elsewhere

  type Objects = map<Id, Raw>

  function StateAt(log: seq<Change>, v: nat): Objects
    requires v <= |log|
  {
    if v == 0 then map[]
    else
      var before := StateAt(log, v - 1);
      match log[v - 1]
      case Put(raw) => before[IdOf(raw) := raw]
      case Delete(raw) => before - {IdOf(raw)}
      case Elsewhere => before
  }

  /** Each object carries the version of its last write. */
  predicate Stamped(log: seq<Change>) {
    forall k | 0 <= k < |log| && !log[k].Elsewhere? :: log[k].raw.version == Some(k + 1) && Plain(log[k].raw)
  }

  datatype Event = Event(kind: string, raw: Raw)

  ghost predicate NothingBetween(log: seq<Change>, start: nat, end: nat)
    requires end <= |log|
  {
    forall k | start <= k < end :: log[k].Elsewhere?
  }

  /** The server, having sent everything up to version `at`, may send the event next. */
  ghost predicate MaySend(log: seq<Change>, at: nat, e: Event) {
    if e.kind == "BOOKMARK" then
      e.raw.version.Some? ==> at <= e.raw.version.value <= |log| && NothingBetween(log, at, e.raw.version.value)
    else
      && e.raw.version.Some?
      && at < e.raw.version.value <= |log|
      && NothingBetween(log, at, e.raw.version.value - 1)
      && log[e.raw.version.value - 1] == (if e.kind == "DELETED" then Delete(e.raw) else Put(e.raw))
      && e.kind in {"ADDED", "MODIFIED", "DELETED"}
  }

  function Reaches(at: nat, e: Event): nat {
    if e.raw.version.Some? then e.raw.version.value else at
  }

  /** The events of a watch opened at version `at`. An error event can come at any time, and ends it. */
  ghost predicate Streams(log: seq<Change>, at: nat, events: seq<Event>)
    decreases |events|
  {
    && at <= |log|
    && (events == [] || events[0].kind == "ERROR"
        || (MaySend(log, at, events[0]) && Streams(log, Reaches(at, events[0]), events[1..])))
  }

  function Reached(at: nat, events: seq<Event>): nat
    decreases |events|
  {
    if events == [] || events[0].kind == "ERROR" then at else Reached(Reaches(at, events[0]), events[1..])
  }

  /** The answer to a LIST, which shows the server at one version. */
  datatype Listing = Listing(at: nat, items: seq<Raw>, version: Option<nat>)

  ghost predicate MayList(log: seq<Change>, l: Listing) {
    && l.at <= |log|
    && (l.version.Some? ==> l.version.value == l.at)
    && (forall raw <- l.items :: IdOf(raw) in StateAt(log, l.at) && StateAt(log, l.at)[IdOf(raw)] == raw)
    && (forall id | id in StateAt(log, l.at) :: StateAt(log, l.at)[id] in l.items)
  }

  // ---- The cache

  /** `key_func`, and `project`, which may fail on an object. */
  datatype Config<T> = Config(key: Raw -> string, project: Raw -> Option<T>)

  datatype Cache<T> = Cache(entries: map<string, T>, version: Option<nat>, ready: bool)

  /** `_default_key` */
  function DefaultKey(raw: Raw): string {
    if OrEmpty(raw.namespace) != "" then OrEmpty(raw.namespace) + "/" + OrEmpty(raw.name) else OrEmpty(raw.name)
  }

  function Stored<T>(cfg: Config<T>, entries: map<string, T>, raw: Raw): map<string, T> {
    var value := cfg.project(raw);
    if value.Some? then entries[cfg.key(raw) := value.value] else entries
  }

  function Listed<T>(cfg: Config<T>, items: seq<Raw>): map<string, T> {
    if items == [] then map[] else Stored(cfg, Listed(cfg, items[..|items| - 1]), items[|items| - 1])
  }

  function AfterList<T>(cfg: Config<T>, l: Listing): Cache<T> {
    Cache(Listed(cfg, l.items), l.version, true)
  }

  function Applied<T>(cfg: Config<T>, entries: map<string, T>, e: Event): map<string, T> {
    if e.kind == "DELETED" then entries - {cfg.key(e.raw)}
    else if e.kind == "ADDED" || e.kind == "MODIFIED" then Stored(cfg, entries, e.raw)
    else entries
  }

  function AfterEvent<T>(cfg: Config<T>, c: Cache<T>, e: Event): Cache<T> {
    Cache(if e.kind == "BOOKMARK" then c.entries else Applied(cfg, c.entries, e),
          if e.raw.version.Some? then e.raw.version else c.version, c.ready)
  }

  function AfterEvents<T>(cfg: Config<T>, c: Cache<T>, events: seq<Event>): Cache<T>
    decreases |events|
  {
    if events == [] || events[0].kind == "ERROR" then c
    else AfterEvents(cfg, AfterEvent(cfg, c, events[0]), events[1..])
  }

  /** How a watch ends: by a timeout, by an error, by an expired version (with the answer of the
      LIST that follows, if that succeeds), or because the loop is cancelled. */
  datatype End = Closed | Failed | Gone(relist: Option<Listing>) | Cancelled

  /** One turn of `_watch_loop`: the events that arrive before the watch ends. Where the watch names
      no version, `start` is the one at which the server begins. */
  datatype Session = Session(start: nat, events: seq<Event>, end: End)

  function AfterSession<T>(cfg: Config<T>, c: Cache<T>, s: Session): Cache<T> {
    var c' := AfterEvents(cfg, c, s.events);
    if !s.end.Gone? then c'
    else if s.end.relist.Some? then AfterList(cfg, s.end.relist.value)
    else c'.(version := None)
  }

  function AfterSessions<T>(cfg: Config<T>, c: Cache<T>, sessions: seq<Session>): Cache<T>
    decreases |sessions|
  {
    if sessions == [] then c
    else if sessions[0].end.Cancelled? then AfterSession(cfg, c, sessions[0])
    else AfterSessions(cfg, AfterSession(cfg, c, sessions[0]), sessions[1..])
  }

  // ---- What the cache shows

  /** The keys tell objects apart, and only objects. */
  ghost predicate KeyFits<T(!new)>(cfg: Config<T>) {
    forall a, b :: Plain(a) && Plain(b) ==> (cfg.key(a) == cfg.key(b) <==> IdOf(a) == IdOf(b))
  }

  /** The entries are the projected objects, without those whose projection fails. */
  ghost predicate Shows<T(!new)>(cfg: Config<T>, entries: map<string, T>, objects: Objects) {
    && (forall id | id in objects :: ShowsOne(cfg, entries, objects[id]))
    && (forall key | key in entries :: exists id :: id in objects && cfg.key(objects[id]) == key)
  }

  ghost predicate ShowsOne<T(!new)>(cfg: Config<T>, entries: map<string, T>, raw: Raw) {
    var value := cfg.project(raw);
    if value.Some? then cfg.key(raw) in entries && entries[cfg.key(raw)] == value.value
    else cfg.key(raw) !in entries
  }

  /** No write turns an object that projects into one that does not. */
  ghost predicate KeepsProjecting<T(!new)>(cfg: Config<T>, log: seq<Change>) {
    forall k | 0 <= k < |log| && log[k].Put? && IdOf(log[k].raw) in StateAt(log, k) ::
      cfg.project(StateAt(log, k)[IdOf(log[k].raw)]).Some? ==> cfg.project(log[k].raw).Some?
  }

  lemma DefaultKeyFits<T(!new)>(project: Raw -> Option<T>)
    ensures KeyFits(Config(DefaultKey, project))
  {
    forall a, b | Plain(a) && Plain(b)
      ensures DefaultKey(a) == DefaultKey(b) <==> IdOf(a) == IdOf(b)
    {
      DefaultKeyTellsApart(a, b);
    }
  }

  /** Cut at the slash, the default key gives back the namespace and the name, or the name alone. */
  lemma DefaultKeySplits(raw: Raw)
    requires Plain(raw)
    ensures Split('/', DefaultKey(raw)) ==
            if OrEmpty(raw.namespace) == "" then [OrEmpty(raw.name)] else [OrEmpty(raw.namespace), OrEmpty(raw.name)]
  {
    SplitNothing('/', OrEmpty(raw.name));
    SplitFirst('/', OrEmpty(raw.namespace), OrEmpty(raw.name));
  }

  lemma DefaultKeyTellsApart(a: Raw, b: Raw)
    requires Plain(a) && Plain(b)
    ensures DefaultKey(a) == DefaultKey(b) <==> IdOf(a) == IdOf(b)
  {
    var m, n := OrEmpty(a.namespace), OrEmpty(b.namespace);
    if DefaultKey(a) == DefaultKey(b) {
      if m != "" {
        assert DefaultKey(a)[|m|] == '/';
        assert '/' in DefaultKey(b);
        CutUnique(m, OrEmpty(a.name), n, OrEmpty(b.name), '/');
      }
    }
  }

  ghost predicate WellKeyed(objects: Objects) {
    forall id | id in objects :: IdOf(objects[id]) == id && Plain(objects[id])
  }

  lemma {:induction false} StateIsWellKeyed(log: seq<Change>, v: nat)
    requires Stamped(log) && v <= |log|
    ensures WellKeyed(StateAt(log, v))
  {
    if v > 0 {
      StateIsWellKeyed(log, v - 1);
    }
  }

  /** A write is shown after its event if and only if the object projects or was not shown before:
      when the projection of a changed object fails, the old entry stays. */
  lemma WriteShownIff<T(!new)>(cfg: Config<T>, entries: map<string, T>, objects: Objects, raw: Raw)
    requires KeyFits(cfg) && WellKeyed(objects) && Plain(raw) && Shows(cfg, entries, objects)
    ensures Shows(cfg, Stored(cfg, entries, raw), objects[IdOf(raw) := raw])
            <==> cfg.project(raw).Some? || cfg.key(raw) !in entries
  {
    var entries', objects' := Stored(cfg, entries, raw), objects[IdOf(raw) := raw];
    assert objects'[IdOf(raw)] == raw;
    if cfg.project(raw).Some? || cfg.key(raw) !in entries {
      forall id | id in objects' ensures ShowsOne(cfg, entries', objects'[id]) {
        if id != IdOf(raw) {
          assert ShowsOne(cfg, entries, objects[id]);
          assert cfg.key(objects[id]) != cfg.key(raw);
        }
      }
      forall key | key in entries' ensures exists id :: id in objects' && cfg.key(objects'[id]) == key {
        if key == cfg.key(raw) {
          assert cfg.key(objects'[IdOf(raw)]) == key;
        } else {
          var id :| id in objects && cfg.key(objects[id]) == key;
          assert objects'[id] == objects[id];
        }
      }
    } else {
      assert !ShowsOne(cfg, entries', raw);
    }
  }

  lemma DeletionShown<T(!new)>(cfg: Config<T>, entries: map<string, T>, objects: Objects, raw: Raw)
    requires KeyFits(cfg) && WellKeyed(objects) && Plain(raw) && Shows(cfg, entries, objects)
    ensures Shows(cfg, entries - {cfg.key(raw)}, objects - {IdOf(raw)})
  {
    var entries', objects' := entries - {cfg.key(raw)}, objects - {IdOf(raw)};
    forall id | id in objects' ensures ShowsOne(cfg, entries', objects'[id]) {
      assert ShowsOne(cfg, entries, objects[id]);
      assert cfg.key(objects[id]) != cfg.key(raw);
    }
    forall key | key in entries' ensures exists id :: id in objects' && cfg.key(objects'[id]) == key {
      var id :| id in objects && cfg.key(objects[id]) == key;
      assert id in objects' && objects'[id] == objects[id];
    }
  }

  // ---- LIST

  lemma {:induction false} ListedAre<T(!new)>(cfg: Config<T>, items: seq<Raw>, objects: Objects)
    requires KeyFits(cfg) && WellKeyed(objects)
    requires forall raw <- items :: IdOf(raw) in objects && objects[IdOf(raw)] == raw
    ensures forall raw <- items :: ShowsOne(cfg, Listed(cfg, items), raw)
    ensures forall key | key in Listed(cfg, items) :: exists raw :: raw in items && cfg.key(raw) == key
  {
    if items != [] {
      var front, last := items[..|items| - 1], items[|items| - 1];
      assert items == front + [last];
      ListedAre(cfg, front, objects);
      if cfg.key(last) in Listed(cfg, front) {
        var raw :| raw in front && cfg.key(raw) == cfg.key(last);
        assert raw in items && last in items;
        assert Plain(objects[IdOf(raw)]) && Plain(objects[IdOf(last)]);
        assert raw == last;
      }
      forall raw | raw in items ensures ShowsOne(cfg, Listed(cfg, items), raw) {
        if raw != last {
          assert raw in front && IdOf(raw) != IdOf(last);
          assert ShowsOne(cfg, Listed(cfg, front), raw);
        }
      }
      forall key | key in Listed(cfg, items) ensures exists raw :: raw in items && cfg.key(raw) == key {
        if key in Listed(cfg, front) {
          var raw :| raw in front && cfg.key(raw) == key;
          assert raw in items;
        } else {
          assert last in items && cfg.key(last) == key;
        }
      }
    }
  }

  lemma ListShows<T(!new)>(cfg: Config<T>, log: seq<Change>, l: Listing)
    requires KeyFits(cfg) && Stamped(log) && MayList(log, l)
    ensures Shows(cfg, Listed(cfg, l.items), StateAt(log, l.at))
  {
    var objects := StateAt(log, l.at);
    StateIsWellKeyed(log, l.at);
    ListedAre(cfg, l.items, objects);
    forall key | key in Listed(cfg, l.items) ensures exists id :: id in objects && cfg.key(objects[id]) == key {
      var raw :| raw in l.items && cfg.key(raw) == key;
      assert objects[IdOf(raw)] == raw;
    }
  }

  // ---- A watch that names no version

  /** Some object of the server at version v is announced as added. */
  ghost predicate Tells(log: seq<Change>, v: nat, e: Event)
    requires v <= |log|
  {
    e.kind == "ADDED" && IdOf(e.raw) in StateAt(log, v) && StateAt(log, v)[IdOf(e.raw)] == e.raw
  }

  ghost predicate ToldAll(log: seq<Change>, v: nat, burst: seq<Event>)
    requires v <= |log|
  {
    && (forall e <- burst :: Tells(log, v, e))
    && (forall id | id in StateAt(log, v) :: Event("ADDED", StateAt(log, v)[id]) in burst)
  }

  predicate HasError(events: seq<Event>) {
    exists e <- events :: e.kind == "ERROR"
  }

  function Count(log: seq<Change>, v: nat): nat
    requires v <= |log|
  {
    |StateAt(log, v)|
  }

  /** The stream has come past the announcements of the objects at version v. */
  predicate Opened(log: seq<Change>, v: nat, events: seq<Event>)
    requires v <= |log|
  {
    Count(log, v) <= |events| && !HasError(events[..Count(log, v)])
  }

  /** The events of a watch that names no version: first every object of some version v is announced
      as added, then the stream goes on from v. It can end, or fail, at any point. */
  ghost predicate Opens(log: seq<Change>, v: nat, events: seq<Event>) {
    && v <= |log|
    && (Opened(log, v, events) ==>
          ToldAll(log, v, events[..Count(log, v)]) && Streams(log, v, events[Count(log, v)..]))
  }

  /** Every key that is shown belongs to an object that exists and projects. */
  ghost predicate AllLive<T(!new)>(cfg: Config<T>, entries: map<string, T>, objects: Objects) {
    forall key | key in entries :: exists id :: id in objects && cfg.key(objects[id]) == key && cfg.project(objects[id]).Some?
  }

  /** The key of an item that projects. */
  ghost predicate KeyOfItem<T(!new)>(cfg: Config<T>, items: seq<Event>, key: string) {
    exists e :: e in items && cfg.key(e.raw) == key && cfg.project(e.raw).Some?
  }

  lemma {:induction false} BurstAdds<T(!new)>(cfg: Config<T>, log: seq<Change>, c: Cache<T>, v: nat, burst: seq<Event>, key: string)
    requires v <= |log| && forall e <- burst :: Tells(log, v, e)
    ensures key in AfterEvents(cfg, c, burst).entries <==> key in c.entries || KeyOfItem(cfg, burst, key)
    decreases |burst|
  {
    if burst != [] {
      var e, rest := burst[0], burst[1..];
      assert burst == [e] + rest && e in burst;
      BurstAdds(cfg, log, AfterEvent(cfg, c, e), v, rest, key);
      if KeyOfItem(cfg, burst, key) && !KeyOfItem(cfg, rest, key) {
        assert cfg.key(e.raw) == key && cfg.project(e.raw).Some?;
      }
    }
  }

  lemma {:induction false} BurstValue<T(!new)>(cfg: Config<T>, log: seq<Change>, c: Cache<T>, v: nat, burst: seq<Event>, raw: Raw)
    requires KeyFits(cfg) && Stamped(log) && v <= |log| && forall e <- burst :: Tells(log, v, e)
    requires IdOf(raw) in StateAt(log, v) && StateAt(log, v)[IdOf(raw)] == raw && cfg.project(raw).Some?
    requires Event("ADDED", raw) in burst || ShowsOne(cfg, c.entries, raw)
    ensures ShowsOne(cfg, AfterEvents(cfg, c, burst).entries, raw)
    decreases |burst|
  {
    if burst != [] {
      var e, rest := burst[0], burst[1..];
      assert burst == [e] + rest && e in burst;
      StateIsWellKeyed(log, v);
      assert Plain(raw) && Plain(e.raw);
      BurstValue(cfg, log, AfterEvent(cfg, c, e), v, rest, raw);
    }
  }

  /** Once every object of version v was announced, the cache shows version v if and only if no key
      that was shown before belongs to an object that is gone by then, or no longer projects. */
  lemma ReopenedShowsIff<T(!new)>(cfg: Config<T>, log: seq<Change>, c: Cache<T>, v: nat, burst: seq<Event>)
    requires KeyFits(cfg) && Stamped(log) && v <= |log| && ToldAll(log, v, burst)
    ensures Shows(cfg, AfterEvents(cfg, c, burst).entries, StateAt(log, v)) <==> AllLive(cfg, c.entries, StateAt(log, v))
  {
    var objects, entries := StateAt(log, v), AfterEvents(cfg, c, burst).entries;
    if AllLive(cfg, c.entries, objects) {
      forall id | id in objects ensures ShowsOne(cfg, entries, objects[id]) { ShownAfter(cfg, log, c, v, burst, id); }
      forall key | key in entries
        ensures exists id :: id in objects && cfg.key(objects[id]) == key
      {
        BurstAdds(cfg, log, c, v, burst, key);
        if key !in c.entries {
          var e :| e in burst && cfg.key(e.raw) == key && cfg.project(e.raw).Some?;
          assert cfg.key(objects[IdOf(e.raw)]) == key;
        }
      }
    }
    if Shows(cfg, entries, objects) {
      forall key | key in c.entries
        ensures exists id :: id in objects && cfg.key(objects[id]) == key && cfg.project(objects[id]).Some?
      {
        BurstAdds(cfg, log, c, v, burst, key);
        var id :| id in objects && cfg.key(objects[id]) == key;
        assert ShowsOne(cfg, entries, objects[id]);
      }
    }
  }

  lemma ShownAfter<T(!new)>(cfg: Config<T>, log: seq<Change>, c: Cache<T>, v: nat, burst: seq<Event>, id: Id)
    requires KeyFits(cfg) && Stamped(log) && v <= |log| && ToldAll(log, v, burst)
    requires AllLive(cfg, c.entries, StateAt(log, v)) && id in StateAt(log, v)
    ensures ShowsOne(cfg, AfterEvents(cfg, c, burst).entries, StateAt(log, v)[id])
  {
    var objects := StateAt(log, v);
    StateIsWellKeyed(log, v);
    if cfg.project(objects[id]).Some? {
      BurstValue(cfg, log, c, v, burst, objects[id]);
    } else {
      var key := cfg.key(objects[id]);
      BurstAdds(cfg, log, c, v, burst, key);
    }
  }

  // ---- The stream

  lemma {:induction false} NothingHappens(log: seq<Change>, start: nat, end: nat)
    requires start <= end <= |log| && NothingBetween(log, start, end)
    ensures StateAt(log, end) == StateAt(log, start)
  {
    if start < end {
      NothingHappens(log, start, end - 1);
    }
  }

  lemma PutShown<T(!new)>(cfg: Config<T>, log: seq<Change>, entries: map<string, T>, k: nat)
    requires KeyFits(cfg) && Stamped(log) && KeepsProjecting(cfg, log)
    requires k < |log| && log[k].Put? && Shows(cfg, entries, StateAt(log, k))
    ensures Shows(cfg, Stored(cfg, entries, log[k].raw), StateAt(log, k + 1))
  {
    var objects, raw := StateAt(log, k), log[k].raw;
    StateIsWellKeyed(log, k);
    WriteShownIff(cfg, entries, objects, raw);
    if cfg.key(raw) in entries {
      var id :| id in objects && cfg.key(objects[id]) == cfg.key(raw);
      assert ShowsOne(cfg, entries, objects[id]);
      assert id == IdOf(raw);
    }
  }

  lemma ChangeShown<T(!new)>(cfg: Config<T>, log: seq<Change>, entries: map<string, T>, k: nat)
    requires KeyFits(cfg) && Stamped(log) && KeepsProjecting(cfg, log) && k < |log| && Shows(cfg, entries, StateAt(log, k))
    ensures log[k].Put? ==> Shows(cfg, Stored(cfg, entries, log[k].raw), StateAt(log, k + 1))
    ensures log[k].Delete? ==> Shows(cfg, entries - {cfg.key(log[k].raw)}, StateAt(log, k + 1))
  {
    if log[k].Put? {
      PutShown(cfg, log, entries, k);
    } else if log[k].Delete? {
      StateIsWellKeyed(log, k);
      DeletionShown(cfg, entries, StateAt(log, k), log[k].raw);
    }
  }

  lemma EventKeepsSync<T(!new)>(cfg: Config<T>, log: seq<Change>, c: Cache<T>, at: nat, e: Event)
    requires KeyFits(cfg) && Stamped(log) && KeepsProjecting(cfg, log) && at <= |log|
    requires Shows(cfg, c.entries, StateAt(log, at)) && MaySend(log, at, e) && e.kind != "ERROR"
    ensures at <= Reaches(at, e) <= |log|
    ensures Shows(cfg, AfterEvent(cfg, c, e).entries, StateAt(log, Reaches(at, e)))
  {
    if e.kind == "BOOKMARK" {
      if e.raw.version.Some? {
        NothingHappens(log, at, e.raw.version.value);
      }
    } else {
      NothingHappens(log, at, e.raw.version.value - 1);
      ChangeShown(cfg, log, c.entries, e.raw.version.value - 1);
    }
  }

  /** The stored version is the one that the stream has reached. */
  lemma {:induction false} VersionFollows<T(!new)>(cfg: Config<T>, c: Cache<T>, at: nat, events: seq<Event>)
    requires c.version == Some(at)
    ensures AfterEvents(cfg, c, events).version == Some(Reached(at, events))
    decreases |events|
  {
    if events != [] && events[0].kind != "ERROR" {
      VersionFollows(cfg, AfterEvent(cfg, c, events[0]), Reaches(at, events[0]), events[1..]);
    }
  }

  lemma {:induction false} EventsKeepSync<T(!new)>(cfg: Config<T>, log: seq<Change>, c: Cache<T>, at: nat, events: seq<Event>)
    requires KeyFits(cfg) && Stamped(log) && KeepsProjecting(cfg, log)
    requires Streams(log, at, events) && Shows(cfg, c.entries, StateAt(log, at))
    ensures at <= Reached(at, events) <= |log|
    ensures Shows(cfg, AfterEvents(cfg, c, events).entries, StateAt(log, Reached(at, events)))
    decreases |events|
  {
    if events != [] && events[0].kind != "ERROR" {
      EventKeepsSync(cfg, log, c, at, events[0]);
      EventsKeepSync(cfg, log, AfterEvent(cfg, c, events[0]), Reaches(at, events[0]), events[1..]);
    }
  }

  lemma {:induction false} EventsKeepReady<T(!new)>(cfg: Config<T>, c: Cache<T>, events: seq<Event>)
    ensures AfterEvents(cfg, c, events).ready == c.ready
    decreases |events|
  {
    if events != [] && events[0].kind != "ERROR" {
      EventsKeepReady(cfg, AfterEvent(cfg, c, events[0]), events[1..]);
    }
  }

  lemma {:induction false} EventsConcat<T(!new)>(cfg: Config<T>, c: Cache<T>, a: seq<Event>, b: seq<Event>)
    requires !HasError(a)
    ensures AfterEvents(cfg, c, a + b) == AfterEvents(cfg, AfterEvents(cfg, c, a), b)
    decreases |a|
  {
    if a == [] {
      assert a + b == b;
    } else {
      assert (a + b)[0] == a[0] && (a + b)[1..] == a[1..] + b;
      assert a[0] in a && forall e <- a[1..] :: e in a;
      EventsConcat(cfg, AfterEvent(cfg, c, a[0]), a[1..], b);
    }
  }

  /** A watch without a version on a cache whose keys are all live: from the announcements on, the
      cache shows the version that the stream has reached. */
  lemma ReopenedFollows<T(!new)>(cfg: Config<T>, log: seq<Change>, c: Cache<T>, v: nat, events: seq<Event>)
    requires KeyFits(cfg) && Stamped(log) && KeepsProjecting(cfg, log)
    requires Opens(log, v, events) && Opened(log, v, events) && AllLive(cfg, c.entries, StateAt(log, v))
    ensures v <= Reached(v, events[Count(log, v)..]) <= |log|
    ensures Shows(cfg, AfterEvents(cfg, c, events).entries, StateAt(log, Reached(v, events[Count(log, v)..])))
  {
    var burst, rest := events[..Count(log, v)], events[Count(log, v)..];
    assert events == burst + rest;
    ReopenedShowsIff(cfg, log, c, v, burst);
    EventsConcat(cfg, c, burst, rest);
    EventsKeepSync(cfg, log, AfterEvents(cfg, c, burst), v, rest);
  }

  // ---- A watch from an older version

  /** The object that write k is about is at version `at` as write k left it. */
  ghost predicate Agrees(log: seq<Change>, k: nat, at: nat)
    requires k < at <= |log| && !log[k].Elsewhere?
  {
    var id, now, left := IdOf(log[k].raw), StateAt(log, at), StateAt(log, k + 1);
    (id in now <==> id in left) && (id in now ==> now[id] == left[id])
  }

  /** All writes after version u up to version `at` can be repeated on the state at version `at`. */
  ghost predicate Settled(log: seq<Change>, u: nat, at: nat) {
    u <= at <= |log| && forall k | u <= k < at && !log[k].Elsewhere? :: Agrees(log, k, at)
  }

  lemma RepeatChangesNothing<T(!new)>(cfg: Config<T>, log: seq<Change>, c: Cache<T>, u: nat, at: nat, e: Event)
    requires KeyFits(cfg) && Stamped(log) && Settled(log, u, at) && Shows(cfg, c.entries, StateAt(log, at))
    requires MaySend(log, u, e) && e.kind != "ERROR" && Reaches(u, e) <= at
    ensures AfterEvent(cfg, c, e).entries == c.entries
  {
    if e.kind != "BOOKMARK" {
      var k, objects := e.raw.version.value - 1, StateAt(log, at);
      assert Agrees(log, k, at);
      if e.kind == "DELETED" {
        GoneIsNotShown(cfg, log, c.entries, at, e.raw);
      } else {
        assert objects[IdOf(e.raw)] == e.raw;
        assert ShowsOne(cfg, c.entries, e.raw);
      }
    }
  }

  lemma GoneIsNotShown<T(!new)>(cfg: Config<T>, log: seq<Change>, entries: map<string, T>, at: nat, raw: Raw)
    requires KeyFits(cfg) && Stamped(log) && at <= |log| && Shows(cfg, entries, StateAt(log, at))
    requires Plain(raw) && IdOf(raw) !in StateAt(log, at)
    ensures cfg.key(raw) !in entries
  {
    StateIsWellKeyed(log, at);
  }

  function Later(a: nat, b: nat): nat {
    if a <= b then b else a
  }

  /** A watch from version u on a cache that shows version `at`: up to `at` nothing changes, and from
      then on the cache follows the stream. */
  lemma {:induction false} ReplayFollows<T(!new)>(cfg: Config<T>, log: seq<Change>, c: Cache<T>, u: nat, at: nat, events: seq<Event>)
    requires KeyFits(cfg) && Stamped(log) && KeepsProjecting(cfg, log)
    requires Settled(log, u, at) && Shows(cfg, c.entries, StateAt(log, at)) && Streams(log, u, events)
    ensures var r := Reached(u, events);
            && u <= r <= |log|
            && (r <= at ==> Settled(log, r, at) && AfterEvents(cfg, c, events).entries == c.entries)
            && Shows(cfg, AfterEvents(cfg, c, events).entries, StateAt(log, Later(at, r)))
    decreases |events|
  {
    if events != [] && events[0].kind != "ERROR" {
      var next := Reaches(u, events[0]);
      if next <= at {
        RepeatChangesNothing(cfg, log, c, u, at, events[0]);
        ReplayFollows(cfg, log, AfterEvent(cfg, c, events[0]), next, at, events[1..]);
      } else {
        StreamsFromLater(log, u, at, events);
        EventsKeepSync(cfg, log, c, at, events);
      }
    }
  }

  /** A stream from version u whose first event goes past version `at` is one from version `at`. */
  lemma StreamsFromLater(log: seq<Change>, u: nat, at: nat, events: seq<Event>)
    requires Streams(log, u, events) && events != [] && events[0].kind != "ERROR" && u <= at < Reaches(u, events[0])
    ensures Streams(log, at, events) && Reached(at, events) == Reached(u, events)
  {
    assert MaySend(log, at, events[0]);
  }

  // ---- Whole runs

  /** What the cache shows: one version, with the next watch from that version or without one (Exact);
      one version, with the next watch from an older one whose writes can be repeated (Replaying); or
      nothing that can be said (Lost). */
  datatype Sync = Exact | Replaying | Lost

  /** `at` is the version shown. */
  datatype Track = Track(at: nat, sync: Sync)

  predicate Silent(events: seq<Event>) {
    events == [] || events[0].kind == "ERROR"
  }

  /** How a session moves the version that is shown. A LIST sets it; a watch from that version, or a
      harmless older one, moves it along; a watch without a version sets it if every key that is shown
      is live, and the next watch goes on from there if it can. */
  ghost function Follow<T(!new)>(cfg: Config<T>, log: seq<Change>, c: Cache<T>, t: Track, s: Session): Track {
    if s.end.Gone? && s.end.relist.Some? then Track(s.end.relist.value.at, Exact)
    else FollowEvents(cfg, log, c, t, s.start, s.events)
  }

  ghost function FollowEvents<T(!new)>(cfg: Config<T>, log: seq<Change>, c: Cache<T>, t: Track, start: nat, events: seq<Event>): Track {
    if Silent(events) then t
    else if c.version.Some? then
      var r := Reached(c.version.value, events);
      match t.sync
      case Exact => Track(r, Exact)
      case Replaying => if t.at <= r then Track(r, Exact) else t
      case Lost => t
    else if start <= |log| && Opened(log, start, events) && AllLive(cfg, c.entries, StateAt(log, start)) then
      var at := Reached(start, events[Count(log, start)..]);
      Track(at, SyncOf(log, AfterEvents(cfg, c, events).version, at))
    else Track(t.at, Lost)
  }

  /** How the next watch will go, given the version it names and the version that is shown. */
  ghost function SyncOf(log: seq<Change>, version: Option<nat>, at: nat): Sync {
    if version.None? || version.value == at then Exact
    else if Settled(log, version.value, at) then Replaying
    else Lost
  }

  /** The server streams from the version it was asked for, and neither a LIST nor a watch without a
      version is older than what the cache shows. Nothing is assumed of a watch once all is lost. */
  ghost predicate Legal<T(!new)>(cfg: Config<T>, log: seq<Change>, c: Cache<T>, t: Track, s: Session) {
    && (!t.sync.Lost? && c.version.Some? ==> Streams(log, c.version.value, s.events))
    && (c.version.None? ==> Opens(log, s.start, s.events) && t.at <= s.start)
    && (s.end.Gone? && s.end.relist.Some? ==>
          MayList(log, s.end.relist.value)
          && FollowEvents(cfg, log, c, t, s.start, s.events).at <= s.end.relist.value.at)
  }

  ghost predicate LegalRun<T(!new)>(cfg: Config<T>, log: seq<Change>, c: Cache<T>, t: Track, sessions: seq<Session>)
    decreases |sessions|
  {
    sessions == [] ||
    (Legal(cfg, log, c, t, sessions[0])
     && (sessions[0].end.Cancelled?
         || LegalRun(cfg, log, AfterSession(cfg, c, sessions[0]), Follow(cfg, log, c, t, sessions[0]), sessions[1..])))
  }

  ghost function FollowRun<T(!new)>(cfg: Config<T>, log: seq<Change>, c: Cache<T>, t: Track, sessions: seq<Session>): Track
    decreases |sessions|
  {
    if sessions == [] then t
    else if sessions[0].end.Cancelled? then Follow(cfg, log, c, t, sessions[0])
    else FollowRun(cfg, log, AfterSession(cfg, c, sessions[0]), Follow(cfg, log, c, t, sessions[0]), sessions[1..])
  }

  /** Unless all is lost, the entries are the projected state of the server at one version, and the
      version that the next watch will ask for is unset or that version, or at least harmless. */
  ghost predicate InSync<T(!new)>(cfg: Config<T>, log: seq<Change>, c: Cache<T>, t: Track) {
    && c.ready && t.at <= |log|
    && (!t.sync.Lost? ==> Shows(cfg, c.entries, StateAt(log, t.at)))
    && (t.sync.Exact? ==> c.version.None? || c.version == Some(t.at))
    && (t.sync.Replaying? ==> c.version.None? || Settled(log, c.version.value, t.at))
  }

  lemma EventsFollowed<T(!new)>(cfg: Config<T>, log: seq<Change>, c: Cache<T>, t: Track, start: nat, events: seq<Event>)
    requires KeyFits(cfg) && Stamped(log) && KeepsProjecting(cfg, log) && InSync(cfg, log, c, t)
    requires !t.sync.Lost? && c.version.Some? ==> Streams(log, c.version.value, events)
    requires c.version.None? ==> Opens(log, start, events) && t.at <= start
    ensures InSync(cfg, log, AfterEvents(cfg, c, events), FollowEvents(cfg, log, c, t, start, events))
    ensures FollowEvents(cfg, log, c, t, start, events).at >= t.at
  {
    EventsKeepReady(cfg, c, events);
    if !Silent(events) {
      if c.version.Some? && !t.sync.Lost? {
        VersionFollows(cfg, c, c.version.value, events);
        if t.sync.Exact? {
          EventsKeepSync(cfg, log, c, t.at, events);
        } else {
          ReplayFollows(cfg, log, c, c.version.value, t.at, events);
        }
      } else if c.version.None? && Opened(log, start, events) && AllLive(cfg, c.entries, StateAt(log, start)) {
        ReopenedFollows(cfg, log, c, start, events);
      }
    }
  }

  lemma SessionKeepsSync<T(!new)>(cfg: Config<T>, log: seq<Change>, c: Cache<T>, t: Track, s: Session)
    requires KeyFits(cfg) && Stamped(log) && KeepsProjecting(cfg, log)
    requires InSync(cfg, log, c, t) && Legal(cfg, log, c, t, s)
    ensures InSync(cfg, log, AfterSession(cfg, c, s), Follow(cfg, log, c, t, s))
    ensures Follow(cfg, log, c, t, s).at >= t.at
  {
    EventsFollowed(cfg, log, c, t, s.start, s.events);
    if s.end.Gone? && s.end.relist.Some? {
      ListShows(cfg, log, s.end.relist.value);
    }
  }

  lemma {:induction false} RunKeepsSync<T(!new)>(cfg: Config<T>, log: seq<Change>, c: Cache<T>, t: Track, sessions: seq<Session>)
    requires KeyFits(cfg) && Stamped(log) && KeepsProjecting(cfg, log)
    requires InSync(cfg, log, c, t) && LegalRun(cfg, log, c, t, sessions)
    ensures InSync(cfg, log, AfterSessions(cfg, c, sessions), FollowRun(cfg, log, c, t, sessions))
    ensures FollowRun(cfg, log, c, t, sessions).at >= t.at
    decreases |sessions|
  {
    if sessions != [] {
      SessionKeepsSync(cfg, log, c, t, sessions[0]);
      if !sessions[0].end.Cancelled? {
        RunKeepsSync(cfg, log, AfterSession(cfg, c, sessions[0]), Follow(cfg, log, c, t, sessions[0]), sessions[1..]);
      }
    }
  }

  ghost predicate EndsInSync<T(!new)>(cfg: Config<T>, log: seq<Change>, l: Listing, sessions: seq<Session>) {
    InSync(cfg, log, AfterSessions(cfg, AfterList(cfg, l), sessions),
           FollowRun(cfg, log, AfterList(cfg, l), Track(l.at, Exact), sessions))
  }

  ghost predicate LegalFrom<T(!new)>(cfg: Config<T>, log: seq<Change>, l: Listing, sessions: seq<Session>) {
    MayList(log, l) && LegalRun(cfg, log, AfterList(cfg, l), Track(l.at, Exact), sessions)
  }

  /** In every run from a LIST on, whatever mixture of events, bookmarks, timeouts, errors and expired
      versions it sees, the cache is in sync at the end. */
  lemma CacheShowsOneVersion<T(!new)>(cfg: Config<T>, log: seq<Change>, l: Listing, sessions: seq<Session>)
    requires KeyFits(cfg) && Stamped(log) && KeepsProjecting(cfg, log) && LegalFrom(cfg, log, l, sessions)
    ensures EndsInSync(cfg, log, l, sessions)
  {
    ListShows(cfg, log, l);
    RunKeepsSync(cfg, log, AfterList(cfg, l), Track(l.at, Exact), sessions);
  }

  // ---- Every moment of a run

  /** The run up to event j of session i. */
  function Cut(sessions: seq<Session>, i: nat, j: nat): seq<Session>
    requires i < |sessions| && j <= |sessions[i].events|
  {
    sessions[..i] + [Session(sessions[i].start, sessions[i].events[..j], Cancelled)]
  }

  lemma {:induction false} StreamsPrefix(log: seq<Change>, at: nat, events: seq<Event>, j: nat)
    requires Streams(log, at, events) && j <= |events|
    ensures Streams(log, at, events[..j])
    ensures at <= Reached(at, events[..j]) <= Reached(at, events)
    decreases |events|
  {
    if events != [] && events[0].kind != "ERROR" {
      var k := if j == 0 then 0 else j - 1;
      StreamsPrefix(log, Reaches(at, events[0]), events[1..], k);
      if j > 0 {
        assert events[..j][0] == events[0] && events[..j][1..] == events[1..][..k];
      }
    }
  }

  lemma OpensPrefix(log: seq<Change>, v: nat, events: seq<Event>, j: nat)
    requires Opens(log, v, events) && j <= |events|
    ensures Opens(log, v, events[..j])
    ensures Opened(log, v, events[..j]) ==>
              Opened(log, v, events) && Reached(v, events[..j][Count(log, v)..]) <= Reached(v, events[Count(log, v)..])
    ensures Opened(log, v, events) ==> v <= Reached(v, events[Count(log, v)..])
  {
    var n := Count(log, v);
    if Opened(log, v, events) {
      StreamsPrefix(log, v, events[n..], 0);
    }
    if n <= j {
      assert events[..j][..n] == events[..n];
      assert events[..j][n..] == events[n..][..j - n];
      if Opened(log, v, events) {
        StreamsPrefix(log, v, events[n..], j - n);
      }
    }
  }

  lemma FollowEventsPrefix<T(!new)>(cfg: Config<T>, log: seq<Change>, c: Cache<T>, t: Track, start: nat, events: seq<Event>, j: nat)
    requires InSync(cfg, log, c, t) && j <= |events|
    requires !t.sync.Lost? && c.version.Some? ==> Streams(log, c.version.value, events)
    requires c.version.None? ==> Opens(log, start, events) && t.at <= start
    ensures !t.sync.Lost? && c.version.Some? ==> Streams(log, c.version.value, events[..j])
    ensures c.version.None? ==> Opens(log, start, events[..j])
    ensures FollowEvents(cfg, log, c, t, start, events[..j]).at <= FollowEvents(cfg, log, c, t, start, events).at
  {
    if c.version.None? {
      OpensPrefix(log, start, events, j);
    } else if !t.sync.Lost? {
      StreamsPrefix(log, c.version.value, events, j);
    }
  }

  lemma CutLater(sessions: seq<Session>, i: nat, j: nat)
    requires 0 < i < |sessions| && j <= |sessions[i].events|
    ensures Cut(sessions, i, j) == [sessions[0]] + Cut(sessions[1..], i - 1, j)
  {
  }

  /** After its first session, a run cut later on is a run of the others. */
  lemma FollowLater<T(!new)>(cfg: Config<T>, log: seq<Change>, c: Cache<T>, t: Track, sessions: seq<Session>, i: nat, j: nat)
    requires 0 < i < |sessions| && j <= |sessions[i].events|
    ensures Cut(sessions, i, j)[0] == sessions[0] && Cut(sessions, i, j)[1..] == Cut(sessions[1..], i - 1, j)
    ensures FollowRun(cfg, log, c, t, Cut(sessions, i, j)) ==
            if sessions[0].end.Cancelled? then Follow(cfg, log, c, t, sessions[0])
            else FollowRun(cfg, log, AfterSession(cfg, c, sessions[0]), Follow(cfg, log, c, t, sessions[0]), Cut(sessions[1..], i - 1, j))
  {
    CutLater(sessions, i, j);
  }

  lemma {:induction false} LegalCut<T(!new)>(cfg: Config<T>, log: seq<Change>, c: Cache<T>, t: Track, sessions: seq<Session>, i: nat, j: nat)
    requires KeyFits(cfg) && Stamped(log) && KeepsProjecting(cfg, log)
    requires InSync(cfg, log, c, t) && LegalRun(cfg, log, c, t, sessions)
    requires i < |sessions| && j <= |sessions[i].events|
    ensures LegalRun(cfg, log, c, t, Cut(sessions, i, j))
    decreases |sessions|
  {
    var s := sessions[0];
    if i == 0 {
      FollowEventsPrefix(cfg, log, c, t, s.start, s.events, j);
    } else if !s.end.Cancelled? {
      SessionKeepsSync(cfg, log, c, t, s);
      CutLater(sessions, i, j);
      LegalCut(cfg, log, AfterSession(cfg, c, s), Follow(cfg, log, c, t, s), sessions[1..], i - 1, j);
    }
  }

  /** What is shown at any moment of the first session is not newer than what is shown later on. */
  lemma FirstSessionIsOldest<T(!new)>(cfg: Config<T>, log: seq<Change>, c: Cache<T>, t: Track, sessions: seq<Session>,
                                      j: nat, i': nat, j': nat)
    requires KeyFits(cfg) && Stamped(log) && KeepsProjecting(cfg, log)
    requires InSync(cfg, log, c, t) && LegalRun(cfg, log, c, t, sessions)
    requires i' < |sessions| && j <= |sessions[0].events| && j' <= |sessions[i'].events| && (i' == 0 ==> j <= j')
    ensures FollowEvents(cfg, log, c, t, sessions[0].start, sessions[0].events[..j]).at
            <= FollowRun(cfg, log, c, t, Cut(sessions, i', j')).at
  {
    var s := sessions[0];
    FollowEventsPrefix(cfg, log, c, t, s.start, s.events, j);
    if i' == 0 {
      FollowEventsPrefix(cfg, log, c, t, s.start, s.events, j');
      FollowEventsPrefix(cfg, log, c, t, s.start, s.events[..j'], j);
      assert s.events[..j'][..j] == s.events[..j];
    } else if !s.end.Cancelled? {
      SessionKeepsSync(cfg, log, c, t, s);
      LegalCut(cfg, log, AfterSession(cfg, c, s), Follow(cfg, log, c, t, s), sessions[1..], i' - 1, j');
      RunKeepsSync(cfg, log, AfterSession(cfg, c, s), Follow(cfg, log, c, t, s), Cut(sessions[1..], i' - 1, j'));
      FollowLater(cfg, log, c, t, sessions, i', j');
    } else {
      FollowLater(cfg, log, c, t, sessions, i', j');
    }
  }

  lemma {:induction false} MomentsInOrder<T(!new)>(cfg: Config<T>, log: seq<Change>, c: Cache<T>, t: Track, sessions: seq<Session>,
                                                   i: nat, j: nat, i': nat, j': nat)
    requires KeyFits(cfg) && Stamped(log) && KeepsProjecting(cfg, log)
    requires InSync(cfg, log, c, t) && LegalRun(cfg, log, c, t, sessions)
    requires i <= i' < |sessions| && j <= |sessions[i].events| && j' <= |sessions[i'].events| && (i == i' ==> j <= j')
    ensures FollowRun(cfg, log, c, t, Cut(sessions, i, j)).at <= FollowRun(cfg, log, c, t, Cut(sessions, i', j')).at
    decreases |sessions|
  {
    if i == 0 {
      FirstSessionIsOldest(cfg, log, c, t, sessions, j, i', j');
    } else {
      FollowLater(cfg, log, c, t, sessions, i, j);
      FollowLater(cfg, log, c, t, sessions, i', j');
      if !sessions[0].end.Cancelled? {
        var c', t' := AfterSession(cfg, c, sessions[0]), Follow(cfg, log, c, t, sessions[0]);
        SessionKeepsSync(cfg, log, c, t, sessions[0]);
        MomentsInOrder(cfg, log, c', t', sessions[1..], i - 1, j, i' - 1, j');
      }
    }
  }

  /** Between any two moments of a run the version that is shown does not go backwards, and at both the
      cache is in sync. */
  lemma VersionNeverGoesBack<T(!new)>(cfg: Config<T>, log: seq<Change>, l: Listing, sessions: seq<Session>,
                                      i: nat, j: nat, i': nat, j': nat)
    requires KeyFits(cfg) && Stamped(log) && KeepsProjecting(cfg, log) && LegalFrom(cfg, log, l, sessions)
    requires i <= i' < |sessions| && j <= |sessions[i].events| && j' <= |sessions[i'].events| && (i == i' ==> j <= j')
    ensures EndsInSync(cfg, log, l, Cut(sessions, i, j)) && EndsInSync(cfg, log, l, Cut(sessions, i', j'))
    ensures var c, t := AfterList(cfg, l), Track(l.at, Exact);
            l.at <= FollowRun(cfg, log, c, t, Cut(sessions, i, j)).at <= FollowRun(cfg, log, c, t, Cut(sessions, i', j')).at
  {
    var c, t := AfterList(cfg, l), Track(l.at, Exact);
    ListShows(cfg, log, l);
    LegalCut(cfg, log, c, t, sessions, i, j);
    LegalCut(cfg, log, c, t, sessions, i', j');
    RunKeepsSync(cfg, log, c, t, Cut(sessions, i, j));
    RunKeepsSync(cfg, log, c, t, Cut(sessions, i', j'));
    MomentsInOrder(cfg, log, c, t, sessions, i, j, i', j');
  }

  // ---- What the guarantee takes

  lemma {:induction false} Enumerated(objects: Objects) returns (items: seq<Raw>)
    requires WellKeyed(objects)
    ensures forall raw <- items :: IdOf(raw) in objects && objects[IdOf(raw)] == raw
    ensures forall id | id in objects :: objects[id] in items
    decreases |objects|
  {
    items := [];
    if objects != map[] {
      var id :| id in objects;
      var rest := objects - {id};
      assert rest.Keys == objects.Keys - {id};
      assert |rest| == |rest.Keys| && |objects| == |objects.Keys|;
      var before := Enumerated(rest);
      items := before + [objects[id]];
      forall other | other in objects ensures objects[other] in items {
        if other != id {
          assert objects[other] == rest[other];
        }
      }
    }
  }

  /** A run of one event. */
  lemma OneEvent<T(!new)>(cfg: Config<T>, log: seq<Change>, c: Cache<T>, k: nat, e: Event)
    requires k < |log| && c.version == Some(k) && MaySend(log, k, e) && e.kind != "ERROR" && e.raw.version == Some(k + 1)
    ensures var sessions := [Session(0, [e], Cancelled)];
            && LegalRun(cfg, log, c, Track(k, Exact), sessions)
            && AfterSessions(cfg, c, sessions) == AfterEvent(cfg, c, e)
            && FollowRun(cfg, log, c, Track(k, Exact), sessions) == Track(k + 1, Exact)
  {
    var events := [e];
    assert events[1..] == [];
    assert Streams(log, k + 1, []);
    assert AfterEvents(cfg, AfterEvent(cfg, c, e), []) == AfterEvent(cfg, c, e);
    assert Reached(k + 1, []) == k + 1;
  }

  /** The run that goes wrong at a write which stops an object from projecting. */
  lemma LosesProjection<T(!new)>(cfg: Config<T>, log: seq<Change>, k: nat) returns (l: Listing, sessions: seq<Session>)
    requires KeyFits(cfg) && Stamped(log) && k < |log| && log[k].Put?
    requires IdOf(log[k].raw) in StateAt(log, k) && cfg.project(StateAt(log, k)[IdOf(log[k].raw)]).Some?
    requires cfg.project(log[k].raw).None?
    ensures LegalFrom(cfg, log, l, sessions) && !EndsInSync(cfg, log, l, sessions)
  {
    StateIsWellKeyed(log, k);
    var items := Enumerated(StateAt(log, k));
    l := Listing(k, items, Some(k));
    sessions := [Session(0, [Event("MODIFIED", log[k].raw)], Cancelled)];
    OneEvent(cfg, log, AfterList(cfg, l), k, Event("MODIFIED", log[k].raw));
    ListShows(cfg, log, l);
    OldEntryStays(cfg, log, AfterList(cfg, l).entries, k);
  }

  lemma OldEntryStays<T(!new)>(cfg: Config<T>, log: seq<Change>, entries: map<string, T>, k: nat)
    requires KeyFits(cfg) && Stamped(log) && k < |log| && log[k].Put? && Shows(cfg, entries, StateAt(log, k))
    requires IdOf(log[k].raw) in StateAt(log, k) && cfg.project(StateAt(log, k)[IdOf(log[k].raw)]).Some?
    requires cfg.project(log[k].raw).None?
    ensures !Shows(cfg, Stored(cfg, entries, log[k].raw), StateAt(log, k + 1))
  {
    var objects, raw := StateAt(log, k), log[k].raw;
    StateIsWellKeyed(log, k);
    assert ShowsOne(cfg, entries, objects[IdOf(raw)]);
    assert Plain(objects[IdOf(raw)]);
    WriteShownIff(cfg, entries, objects, raw);
  }

  /** Every run is in sync, if and only if no write turns an object that projects into one that does
      not: that is when an old entry stays. */
  lemma InSyncIffKeepsProjecting<T(!new)>(cfg: Config<T>, log: seq<Change>)
    requires KeyFits(cfg) && Stamped(log)
    ensures (forall l, sessions | LegalFrom(cfg, log, l, sessions) :: EndsInSync(cfg, log, l, sessions))
            <==> KeepsProjecting(cfg, log)
  {
    if KeepsProjecting(cfg, log) {
      forall l, sessions | LegalFrom(cfg, log, l, sessions)
        ensures EndsInSync(cfg, log, l, sessions)
      {
        CacheShowsOneVersion(cfg, log, l, sessions);
      }
    } else {
      var k :| 0 <= k < |log| && log[k].Put? && IdOf(log[k].raw) in StateAt(log, k)
               && cfg.project(StateAt(log, k)[IdOf(log[k].raw)]).Some? && cfg.project(log[k].raw).None?;
      var l, sessions := LosesProjection(cfg, log, k);
    }
  }

  /** Every LIST came with its version, and no LIST after an expired version failed. */
  predicate ListsSucceed(sessions: seq<Session>) {
    forall s <- sessions :: s.end.Gone? ==> s.end.relist.Some? && s.end.relist.value.version.Some?
  }

  /** The guarantee is lost only by a LIST that fails: without one, every run stays synced. */
  lemma {:induction false} StaysSynced<T(!new)>(cfg: Config<T>, log: seq<Change>, c: Cache<T>, t: Track, sessions: seq<Session>)
    requires KeyFits(cfg) && Stamped(log) && KeepsProjecting(cfg, log)
    requires InSync(cfg, log, c, t) && LegalRun(cfg, log, c, t, sessions)
    requires t.sync.Exact? && c.version.Some? && ListsSucceed(sessions)
    ensures FollowRun(cfg, log, c, t, sessions).sync.Exact?
    ensures AfterSessions(cfg, c, sessions).version == Some(FollowRun(cfg, log, c, t, sessions).at)
    decreases |sessions|
  {
    if sessions != [] {
      var s := sessions[0];
      SessionKeepsSync(cfg, log, c, t, s);
      VersionFollows(cfg, c, t.at, s.events);
      assert s in sessions;
      if !s.end.Cancelled? {
        StaysSynced(cfg, log, AfterSession(cfg, c, s), Follow(cfg, log, c, t, s), sessions[1..]);
      }
    }
  }

  /** A successful LIST restores the guarantee, whatever the state of the cache. */
  lemma RelistRestores<T(!new)>(cfg: Config<T>, log: seq<Change>, c: Cache<T>, t: Track, s: Session)
    requires KeyFits(cfg) && Stamped(log) && s.end.Gone? && s.end.relist.Some? && Legal(cfg, log, c, t, s)
    ensures Follow(cfg, log, c, t, s).sync.Exact? && InSync(cfg, log, AfterSession(cfg, c, s), Follow(cfg, log, c, t, s))
  {
    ListShows(cfg, log, s.end.relist.value);
  }

  /** After a LIST that failed the next watch names no version. If it is told of all objects, the cache
      shows the version it was told of if and only if every key shown before belongs to an object that
      is still there and projects; and then it keeps following the stream. */
  lemma FailedRelistIff<T(!new)>(cfg: Config<T>, log: seq<Change>, c: Cache<T>, t: Track, s: Session)
    requires KeyFits(cfg) && Stamped(log) && KeepsProjecting(cfg, log)
    requires c.version.None? && Legal(cfg, log, c, t, s) && Opened(log, s.start, s.events)
    ensures var n := Count(log, s.start);
            Shows(cfg, AfterEvents(cfg, c, s.events[..n]).entries, StateAt(log, s.start))
            <==> AllLive(cfg, c.entries, StateAt(log, s.start))
    ensures AllLive(cfg, c.entries, StateAt(log, s.start)) ==>
              var at := Reached(s.start, s.events[Count(log, s.start)..]);
              at <= |log| && Shows(cfg, AfterEvents(cfg, c, s.events).entries, StateAt(log, at))
  {
    ReopenedShowsIff(cfg, log, c, s.start, s.events[..Count(log, s.start)]);
    if AllLive(cfg, c.entries, StateAt(log, s.start)) {
      ReopenedFollows(cfg, log, c, s.start, s.events);
    }
  }

  function DeletedLog(a: Raw, b: Raw): seq<Change> {
    [Put(a), Delete(a.(version := Some(2))), Put(b)]
  }

  lemma DeletedStates(a: Raw, b: Raw)
    ensures var log := DeletedLog(a, b);
            && StateAt(log, 0) == map[] && StateAt(log, 1) == map[IdOf(a) := a]
            && StateAt(log, 2) == map[] && StateAt(log, 3) == map[IdOf(b) := b]
  {
    var log := DeletedLog(a, b);
    assert StateAt(log, 0) == map[];
    assert StateAt(log, 1) == map[IdOf(a) := a];
    assert StateAt(log, 2) == map[];
  }

  const WHOLE: Config<Raw> := Config(DefaultKey, (r: Raw) => Some(r))

  function DeletedRun(b: Raw): seq<Session> {
    [Session(0, [], Gone(None)), Session(3, [Event("ADDED", b)], Cancelled)]
  }

  /** The entries are those of no version of the server. */
  ghost predicate ShowsNoVersion<T(!new)>(cfg: Config<T>, entries: map<string, T>, log: seq<Change>) {
    forall v | 0 <= v <= |log| :: !Shows(cfg, entries, StateAt(log, v))
  }

  /** Without a LIST the cache can go wrong: version 1 expires, the LIST fails, and object a, deleted at
      version 2, stays next to b, of which the watch without a version tells: no version of the server
      ever looked like that. */
  lemma FailedRelistKeepsADeletedObject(a: Raw, b: Raw)
    requires Plain(a) && Plain(b) && a.version == Some(1) && b.version == Some(3) && IdOf(a) != IdOf(b)
    ensures var log, l := DeletedLog(a, b), Listing(1, [a], Some(1));
            var entries := AfterSessions(WHOLE, AfterList(WHOLE, l), DeletedRun(b)).entries;
            && Stamped(log) && LegalFrom(WHOLE, log, l, DeletedRun(b))
            && entries == map[DefaultKey(a) := a, DefaultKey(b) := b]
            && ShowsNoVersion(WHOLE, entries, log)
  {
    var c, second := AfterList(WHOLE, Listing(1, [a], Some(1))), DeletedRun(b)[1];
    DeletedListing(a, b);
    ListedOne(a);
    LegalSecond(a, b, c.(version := None), Track(1, Exact));
    ExpiredThen(WHOLE, DeletedLog(a, b), c, 1, second);
    NoSuchState(a, b);
  }

  lemma DeletedListing(a: Raw, b: Raw)
    requires Plain(a) && Plain(b) && a.version == Some(1) && b.version == Some(3)
    ensures Stamped(DeletedLog(a, b)) && MayList(DeletedLog(a, b), Listing(1, [a], Some(1)))
  {
    DeletedStates(a, b);
  }

  /** A run in which the version expires at once and the LIST fails. */
  lemma ExpiredThen<T(!new)>(cfg: Config<T>, log: seq<Change>, c: Cache<T>, v: nat, second: Session)
    requires v <= |log| && c.version == Some(v) && second.end.Cancelled?
    requires Legal(cfg, log, c.(version := None), Track(v, Exact), second)
    ensures var sessions := [Session(0, [], Gone(None)), second];
            && LegalRun(cfg, log, c, Track(v, Exact), sessions)
            && AfterSessions(cfg, c, sessions) == AfterSession(cfg, c.(version := None), second)
  {
    var first := Session(0, [], Gone(None));
    var sessions := [first, second];
    assert sessions[1..] == [second];
    assert Streams(log, v, []);
    assert AfterSession(cfg, c, first) == c.(version := None);
    assert Follow(cfg, log, c, Track(v, Exact), first) == Track(v, Exact);
  }

  lemma ListedOne(a: Raw)
    ensures Listed(WHOLE, [a]) == map[DefaultKey(a) := a]
  {
    var items := [a];
    assert items[..|items| - 1] == [];
    assert Listed(WHOLE, items) == Stored(WHOLE, map[], a);
  }

  lemma LegalSecond(a: Raw, b: Raw, c: Cache<Raw>, t: Track)
    requires b.version == Some(3) && c.version.None? && t.at <= 3
    ensures Legal(WHOLE, DeletedLog(a, b), c, t, Session(3, [Event("ADDED", b)], Cancelled))
    ensures AfterSession(WHOLE, c, Session(3, [Event("ADDED", b)], Cancelled)).entries == c.entries[DefaultKey(b) := b]
  {
    var log, events := DeletedLog(a, b), [Event("ADDED", b)];
    DeletedStates(a, b);
    assert Count(log, 3) == 1;
    assert events[..1] == events && events[1..] == [];
    assert events[0] in events;
    assert Tells(log, 3, events[0]);
    assert Streams(log, 3, []);
    assert AfterEvents(WHOLE, AfterEvent(WHOLE, c, events[0]), []) == AfterEvent(WHOLE, c, events[0]);
  }

  lemma NoSuchState(a: Raw, b: Raw)
    requires Plain(a) && Plain(b) && IdOf(a) != IdOf(b)
    ensures ShowsNoVersion(WHOLE, map[DefaultKey(a) := a, DefaultKey(b) := b], DeletedLog(a, b))
  {
    DeletedStates(a, b);
    DefaultKeyTellsApart(a, b);
    var entries := map[DefaultKey(a) := a, DefaultKey(b) := b];
    forall v | 0 <= v <= 3
      ensures !Shows(WHOLE, entries, StateAt(DeletedLog(a, b), v))
    {
      assert v == 0 || v == 1 || v == 2 || v == 3;
      TooManyKeys(WHOLE, entries, StateAt(DeletedLog(a, b), v), DefaultKey(a), DefaultKey(b));
    }
  }

  lemma TooManyKeys<T(!new)>(cfg: Config<T>, entries: map<string, T>, objects: Objects, x: string, y: string)
    requires x in entries && y in entries && x != y && forall i, j | i in objects && j in objects :: i == j
    ensures !Shows(cfg, entries, objects)
  {
  }

  // ---- The watch after that

  lemma {:induction false} StreamsSnoc(log: seq<Change>, at: nat, events: seq<Event>, e: Event)
    requires Streams(log, at, events) && !HasError(events) && e.kind != "ERROR" && MaySend(log, Reached(at, events), e)
    requires Reaches(Reached(at, events), e) <= |log|
    ensures Streams(log, at, events + [e]) && Reached(at, events + [e]) == Reaches(Reached(at, events), e)
    decreases |events|
  {
    if events == [] {
      assert ([] + [e])[1..] == [];
      assert Streams(log, Reaches(at, e), []);
    } else {
      assert events[0] in events && forall x <- events[1..] :: x in events;
      assert (events + [e])[0] == events[0] && (events + [e])[1..] == events[1..] + [e];
      StreamsSnoc(log, Reaches(at, events[0]), events[1..], e);
    }
  }

  function EventOf(change: Change): Event
    requires !change.Elsewhere?
  {
    Event(if change.Put? then "MODIFIED" else "DELETED", change.raw)
  }

  /** A stream from version u with every write up to version v. */
  lemma {:induction false} StreamTo(log: seq<Change>, u: nat, v: nat) returns (events: seq<Event>)
    requires Stamped(log) && u <= v <= |log|
    ensures Streams(log, u, events) && !HasError(events)
    ensures u <= Reached(u, events) <= v && NothingBetween(log, Reached(u, events), v)
    decreases v
  {
    events := [];
    if u < v {
      events := StreamTo(log, u, v - 1);
      if !log[v - 1].Elsewhere? {
        var e := EventOf(log[v - 1]);
        StreamsSnoc(log, u, events, e);
        assert !HasError(events + [e]);
        events := events + [e];
      }
    }
  }

  /** A write that the state at version `at` does not agree with spoils what is shown. */
  lemma DisagreementSpoils(log: seq<Change>, c: Cache<Raw>, k: nat, at: nat)
    requires Stamped(log) && k < at <= |log| && !log[k].Elsewhere? && !Agrees(log, k, at)
    ensures !Shows(WHOLE, AfterEvent(WHOLE, c, EventOf(log[k])).entries, StateAt(log, at))
  {
    var objects, raw, entries := StateAt(log, at), log[k].raw, AfterEvent(WHOLE, c, EventOf(log[k])).entries;
    WholeKeyFits();
    StateIsWellKeyed(log, at);
    if IdOf(raw) in objects {
      assert WHOLE.key(objects[IdOf(raw)]) == WHOLE.key(raw);
      assert !ShowsOne(WHOLE, entries, objects[IdOf(raw)]);
    } else if Shows(WHOLE, entries, objects) {
      GoneIsNotShown(WHOLE, log, entries, at, raw);
    }
  }

  lemma WholeKeyFits()
    ensures KeyFits(WHOLE)
  {
    DefaultKeyFits((r: Raw) => Some(r));
    assert forall a: Raw, b: Raw :: Plain(a) && Plain(b) ==> (DefaultKey(a) == DefaultKey(b) <==> IdOf(a) == IdOf(b)) by {
      forall a: Raw, b: Raw | Plain(a) && Plain(b) { DefaultKeyTellsApart(a, b); }
    }
  }

  /** Every stream from version u shows version `at` as long as it has not come past it. */
  ghost predicate ReplayShows<T(!new)>(cfg: Config<T>, log: seq<Change>, c: Cache<T>, u: nat, at: nat)
    requires at <= |log|
  {
    forall events | Streams(log, u, events) && Reached(u, events) <= at ::
      Shows(cfg, AfterEvents(cfg, c, events).entries, StateAt(log, at))
  }

  lemma UnsettledSpoils(log: seq<Change>, c: Cache<Raw>, u: nat, at: nat, k: nat)
    requires Stamped(log) && u <= k < at <= |log| && !log[k].Elsewhere? && !Agrees(log, k, at)
    ensures !ReplayShows(WHOLE, log, c, u, at)
  {
    var before := StreamTo(log, u, k);
    var e := EventOf(log[k]);
    StreamsSnoc(log, u, before, e);
    EventsConcat(WHOLE, c, before, [e]);
    var c' := AfterEvents(WHOLE, c, before);
    assert [e][1..] == [];
    assert AfterEvents(WHOLE, AfterEvent(WHOLE, c', e), []) == AfterEvent(WHOLE, c', e);
    assert AfterEvents(WHOLE, c', [e]) == AfterEvent(WHOLE, c', e);
    DisagreementSpoils(log, c', k, at);
    assert Reached(u, before + [e]) == k + 1;
  }

  /** No object is written twice after version u, up to version `at`. */
  ghost predicate WrittenOnce(log: seq<Change>, u: nat, at: nat)
    requires at <= |log|
  {
    forall i, j | u <= i < j < at && !log[i].Elsewhere? && !log[j].Elsewhere? :: IdOf(log[i].raw) != IdOf(log[j].raw)
  }

  /** Only what is there gets deleted. */
  ghost predicate RealDeletes(log: seq<Change>) {
    forall k | 0 <= k < |log| && log[k].Delete? :: IdOf(log[k].raw) in StateAt(log, k)
  }

  lemma {:induction false} Untouched(log: seq<Change>, id: Id, i: nat, j: nat)
    requires i <= j <= |log| && forall k | i <= k < j && !log[k].Elsewhere? :: IdOf(log[k].raw) != id
    ensures id in StateAt(log, j) <==> id in StateAt(log, i)
    ensures id in StateAt(log, j) ==> StateAt(log, j)[id] == StateAt(log, i)[id]
    decreases j
  {
    if i < j {
      Untouched(log, id, i, j - 1);
    }
  }

  lemma {:induction false} PutBetween(log: seq<Change>, id: Id, i: nat, j: nat) returns (k: nat)
    requires i <= j <= |log| && id !in StateAt(log, i) && id in StateAt(log, j)
    ensures i <= k < j && log[k].Put? && IdOf(log[k].raw) == id
    decreases j
  {
    k := j - 1;
    if id in StateAt(log, j - 1) {
      k := PutBetween(log, id, i, j - 1);
    }
  }

  /** Of two writes of one object, one of the two, or a write between two deletions, is undone. */
  lemma TwiceDisagrees(log: seq<Change>, u: nat, at: nat, i: nat, j: nat) returns (k: nat)
    requires Stamped(log) && RealDeletes(log) && at <= |log|
    requires u <= i < j < at && !log[i].Elsewhere? && !log[j].Elsewhere? && IdOf(log[i].raw) == IdOf(log[j].raw)
    ensures u <= k < at && !log[k].Elsewhere? && !Agrees(log, k, at)
  {
    if !Agrees(log, i, at) {
      k := i;
    } else if !Agrees(log, j, at) {
      k := j;
    } else {
      k := PutBetween(log, IdOf(log[i].raw), i + 1, j);
    }
  }

  lemma SettledIffWrittenOnce(log: seq<Change>, u: nat, at: nat)
    requires Stamped(log) && RealDeletes(log) && u <= at <= |log|
    ensures Settled(log, u, at) <==> WrittenOnce(log, u, at)
  {
    if WrittenOnce(log, u, at) {
      forall k | u <= k < at && !log[k].Elsewhere?
        ensures Agrees(log, k, at)
      {
        Untouched(log, IdOf(log[k].raw), k + 1, at);
      }
    } else {
      var i, j :| u <= i < j < at && !log[i].Elsewhere? && !log[j].Elsewhere? && IdOf(log[i].raw) == IdOf(log[j].raw);
      var k := TwiceDisagrees(log, u, at, i, j);
    }
  }

  /** A cache of whole objects shows version `at`, and the next watch names the older version u. It goes
      on showing version `at` until the stream has come there, if and only if no object was written
      twice after u, up to `at`. */
  lemma ReplayShowsIff(log: seq<Change>, c: Cache<Raw>, u: nat, at: nat)
    requires Stamped(log) && RealDeletes(log) && u <= at <= |log| && Shows(WHOLE, c.entries, StateAt(log, at))
    ensures ReplayShows(WHOLE, log, c, u, at) <==> WrittenOnce(log, u, at)
  {
    SettledIffWrittenOnce(log, u, at);
    if Settled(log, u, at) {
      WholeKeyFits();
      forall events | Streams(log, u, events) && Reached(u, events) <= at
        ensures Shows(WHOLE, AfterEvents(WHOLE, c, events).entries, StateAt(log, at))
      {
        ReplayFollows(WHOLE, log, c, u, at, events);
      }
    } else {
      var k :| u <= k < at && !log[k].Elsewhere? && !Agrees(log, k, at);
      UnsettledSpoils(log, c, u, at, k);
    }
  }

  function ReplayedLog(a: Raw, b: Raw, c: Raw): seq<Change> {
    [Put(a), Put(c), Delete(c.(version := Some(3))), Put(b)]
  }

  /** Three objects, stamped with the versions of their writes in that log. */
  ghost predicate Apart3(a: Raw, b: Raw, c: Raw) {
    && Plain(a) && Plain(b) && Plain(c) && a.version == Some(1) && b.version == Some(4) && c.version == Some(2)
    && IdOf(a) != IdOf(b) && IdOf(a) != IdOf(c) && IdOf(b) != IdOf(c)
  }

  lemma ReplayedStates(a: Raw, b: Raw, c: Raw)
    requires Apart3(a, b, c)
    ensures var log := ReplayedLog(a, b, c);
            && StateAt(log, 0) == map[] && StateAt(log, 1) == map[IdOf(a) := a]
            && StateAt(log, 2) == map[IdOf(a) := a, IdOf(c) := c] && StateAt(log, 3) == map[IdOf(a) := a]
            && StateAt(log, 4) == map[IdOf(a) := a, IdOf(b) := b]
  {
    var log := ReplayedLog(a, b, c);
    assert StateAt(log, 0) == map[];
    assert StateAt(log, 1) == map[IdOf(a) := a];
    assert StateAt(log, 2) == map[IdOf(a) := a, IdOf(c) := c];
    assert StateAt(log, 3) == map[IdOf(a) := a];
  }

  lemma TwoObjects(objects: Objects, a: Id, b: Id)
    requires objects.Keys == {a, b} && a != b
    ensures |objects| == 2
  {
    assert |objects| == |objects.Keys|;
  }

  /** The watch without a version, which announces b before a, and the watch after it. */
  function Announcing(a: Raw, b: Raw): seq<Event> {
    [Event("ADDED", b), Event("ADDED", a)]
  }

  lemma AnnouncingOpens(a: Raw, b: Raw, c: Raw)
    requires Apart3(a, b, c)
    ensures var log := ReplayedLog(a, b, c); Opens(log, 4, Announcing(a, b)) && Opened(log, 4, Announcing(a, b))
  {
    var log, events := ReplayedLog(a, b, c), Announcing(a, b);
    ReplayedStates(a, b, c);
    TwoObjects(StateAt(log, 4), IdOf(a), IdOf(b));
    assert events[..2] == events && events[2..] == [];
    assert events[0] in events && events[1] in events;
    assert Tells(log, 4, events[0]) && Tells(log, 4, events[1]);
    assert Streams(log, 4, []);
  }

  lemma AnnouncingLeaves(a: Raw, b: Raw, cache: Cache<Raw>)
    requires a.version == Some(1) && b.version == Some(4)
    ensures AfterEvents(WHOLE, cache, Announcing(a, b))
            == Cache(cache.entries[DefaultKey(b) := b][DefaultKey(a) := a], Some(1), cache.ready)
  {
    var events := Announcing(a, b);
    assert events[1..] == [events[1]] && events[1..][1..] == [];
    var c1 := AfterEvent(WHOLE, cache, events[0]);
    var c2 := AfterEvent(WHOLE, c1, events[1]);
    assert AfterEvents(WHOLE, c2, []) == c2;
    assert AfterEvents(WHOLE, c1, events[1..]) == c2;
  }

  function ReplayedRun(a: Raw, b: Raw, c: Raw): seq<Session> {
    [Session(0, [], Gone(None)), Session(4, Announcing(a, b), Closed), Session(0, [Event("ADDED", c)], Cancelled)]
  }

  lemma BothEntries(x: string, a: Raw, y: string, b: Raw)
    requires x != y
    ensures map[x := a][y := b][x := a] == map[x := a, y := b]
  {
  }

  lemma ReplayedRunLeaves(a: Raw, b: Raw, c: Raw, first: Cache<Raw>)
    requires Apart3(a, b, c) && first == Cache(map[DefaultKey(a) := a], Some(1), true)
    ensures var run := ReplayedRun(a, b, c);
            && LegalRun(WHOLE, ReplayedLog(a, b, c), first, Track(1, Exact), run)
            && AfterSessions(WHOLE, first, run[..2]) == Cache(map[DefaultKey(a) := a, DefaultKey(b) := b], Some(1), true)
            && AfterSessions(WHOLE, first, run).entries == map[DefaultKey(a) := a, DefaultKey(b) := b, DefaultKey(c) := c]
  {
    var run := ReplayedRun(a, b, c);
    AnnouncingOpens(a, b, c);
    AnnouncingLeaves(a, b, first.(version := None));
    var second := AfterEvents(WHOLE, first.(version := None), Announcing(a, b));
    DefaultKeyTellsApart(a, b);
    BothEntries(DefaultKey(a), a, DefaultKey(b), b);
    ReplayedThird(a, b, c, second);
    ExpiredThenTwo(WHOLE, ReplayedLog(a, b, c), first, 1, run[1], run[2]);
    assert run == [Session(0, [], Gone(None)), run[1], run[2]];
  }

  /** The failing family of that: object c is written and deleted between the versions 1 and 4. The
      LIST fails, the watch without a version announces b and then a, and the cache shows version 4;
      but it has stored version 1, that of a, and the next watch legally begins with c. No version of
      the server ever looked like that. */
  lemma ReplayBringsBackADeletedObject(a: Raw, b: Raw, c: Raw)
    requires Apart3(a, b, c)
    ensures var log, l, run := ReplayedLog(a, b, c), Listing(1, [a], Some(1)), ReplayedRun(a, b, c);
            var second, third := AfterSessions(WHOLE, AfterList(WHOLE, l), run[..2]), AfterSessions(WHOLE, AfterList(WHOLE, l), run);
            && Stamped(log) && RealDeletes(log) && LegalFrom(WHOLE, log, l, run)
            && Shows(WHOLE, second.entries, StateAt(log, 4)) && second.version == Some(1)
            && Streams(log, 1, run[2].events) && ShowsNoVersion(WHOLE, third.entries, log)
  {
    var first := AfterList(WHOLE, Listing(1, [a], Some(1)));
    ReplayedListing(a, b, c);
    ListedOne(a);
    ReplayedRunLeaves(a, b, c, first);
    ReplayedThird(a, b, c, first);
    ShowsBoth(a, b, c);
    NoSuchReplay(a, b, c);
  }

  lemma ShowsBoth(a: Raw, b: Raw, c: Raw)
    requires Apart3(a, b, c)
    ensures Shows(WHOLE, map[DefaultKey(a) := a, DefaultKey(b) := b], StateAt(ReplayedLog(a, b, c), 4))
  {
    var objects := map[IdOf(a) := a, IdOf(b) := b];
    ReplayedStates(a, b, c);
    DefaultKeyTellsApart(a, b);
    assert objects[IdOf(a)] == a && objects[IdOf(b)] == b;
  }

  lemma ReplayedListing(a: Raw, b: Raw, c: Raw)
    requires Apart3(a, b, c)
    ensures var log := ReplayedLog(a, b, c); Stamped(log) && RealDeletes(log) && MayList(log, Listing(1, [a], Some(1)))
  {
    ReplayedStates(a, b, c);
  }

  lemma ReplayedThird(a: Raw, b: Raw, c: Raw, cache: Cache<Raw>)
    requires Apart3(a, b, c) && cache.version == Some(1)
    ensures Streams(ReplayedLog(a, b, c), 1, [Event("ADDED", c)])
    ensures AfterEvents(WHOLE, cache, [Event("ADDED", c)]).entries == cache.entries[DefaultKey(c) := c]
  {
    var events := [Event("ADDED", c)];
    assert events[1..] == [];
    assert Streams(ReplayedLog(a, b, c), 2, []);
    assert AfterEvents(WHOLE, AfterEvent(WHOLE, cache, events[0]), []) == AfterEvent(WHOLE, cache, events[0]);
  }

  /** A run in which the version expires at once and the LIST fails, with two watches after it. */
  lemma ExpiredThenTwo<T(!new)>(cfg: Config<T>, log: seq<Change>, c: Cache<T>, v: nat, second: Session, third: Session)
    requires v <= |log| && c.version == Some(v) && second.end.Closed? && third.end.Cancelled?
    requires Opens(log, second.start, second.events) && v <= second.start
    requires var c' := AfterEvents(cfg, c.(version := None), second.events);
             c'.version.Some? && Streams(log, c'.version.value, third.events)
    ensures var sessions := [Session(0, [], Gone(None)), second, third];
            var c' := AfterEvents(cfg, c.(version := None), second.events);
            && LegalRun(cfg, log, c, Track(v, Exact), sessions)
            && AfterSessions(cfg, c, sessions[..2]) == c'
            && AfterSessions(cfg, c, sessions) == AfterEvents(cfg, c', third.events)
  {
    var first := Session(0, [], Gone(None));
    var sessions, c1 := [first, second, third], c.(version := None);
    assert sessions[1..] == [second, third] && sessions[1..][1..] == [third];
    assert sessions[..2] == [first, second] && sessions[..2][1..] == [second] && sessions[..2][1..][1..] == [];
    assert Streams(log, v, []);
    assert AfterSession(cfg, c, first) == c1;
    assert Follow(cfg, log, c, Track(v, Exact), first) == Track(v, Exact);
    var c2, t2 := AfterSession(cfg, c1, second), Follow(cfg, log, c1, Track(v, Exact), second);
    assert LegalRun(cfg, log, c2, t2, [third]);
    assert LegalRun(cfg, log, c1, Track(v, Exact), [second, third]);
    assert AfterSessions(cfg, c2, []) == c2;
    assert AfterSessions(cfg, c1, [second]) == c2;
    assert AfterSessions(cfg, c2, [third]) == AfterSession(cfg, c2, third);
    assert AfterSessions(cfg, c1, [second, third]) == AfterSessions(cfg, c2, [third]);
  }

  lemma NoSuchReplay(a: Raw, b: Raw, c: Raw)
    requires Apart3(a, b, c)
    ensures ShowsNoVersion(WHOLE, map[DefaultKey(a) := a, DefaultKey(b) := b, DefaultKey(c) := c], ReplayedLog(a, b, c))
  {
    var entries, log := map[DefaultKey(a) := a, DefaultKey(b) := b, DefaultKey(c) := c], ReplayedLog(a, b, c);
    WholeKeyFits();
    ReplayedStates(a, b, c);
    forall v | 0 <= v <= |log|
      ensures !Shows(WHOLE, entries, StateAt(log, v))
    {
      assert v == 0 || v == 1 || v == 2 || v == 3 || v == 4;
      if Shows(WHOLE, entries, StateAt(log, v)) {
        GoneIsNotShown(WHOLE, log, entries, v, if v == 4 then c else b);
      }
    }
  }

  // ---- The cache, updated in place

  /** The values under these keys, in their order. */
  ghost predicate ValuesOf<T(!new)>(values: seq<T>, keys: seq<string>, entries: map<string, T>) {
    && |values| == |keys|
    && forall i | 0 <= i < |keys| :: keys[i] in entries && values[i] == entries[keys[i]]
  }

  /** The values of the entries, each key once, in some order. */
  ghost predicate Enumerates<T(!new)>(values: seq<T>, entries: map<string, T>) {
    exists keys :: ValuesOf(values, keys, entries) && |keys| == |entries| && forall key | key in entries :: key in keys
  }

  class K8sWatchCache<T(0,!new)> {
    const cfg: Config<T>
    var entries: map<string, T>
    var version: Option<nat>
    var ready: bool
    var stopped: bool

    function Contents(): Cache<T>
      reads this
    {
      Cache(entries, version, ready)
    }

    constructor (cfg: Config<T>)
      ensures this.cfg == cfg && !stopped && Contents() == Cache(map[], None, false)
    {
      this.cfg := cfg;
      entries, version, ready, stopped := map[], None, false, false;
    }

    /** `_initial_list`; a LIST that fails raises before anything changes. */
    method InitialList(listing: Option<Listing>) returns (ok: bool)
      modifies this`entries, this`version, this`ready
      ensures ok == listing.Some?
      ensures Contents() == if ok then AfterList(cfg, listing.value) else old(Contents())
    {
      if listing.None? {
        return false;
      }
      var items := listing.value.items;
      var updated := map[];
      for i := 0 to |items|
        invariant updated == Listed(cfg, items[..i])
        invariant Contents() == old(Contents())
      {
        assert items[..i + 1][..i] == items[..i];
        var value := cfg.project(items[i]);
        if value.Some? {
          updated := updated[cfg.key(items[i]) := value.value];
        }
      }
      assert items[..|items|] == items;
      entries, version, ready := updated, listing.value.version, true;
      return true;
    }

    /** `_apply_event` */
    method ApplyEvent(e: Event)
      modifies this`entries
      ensures entries == Applied(cfg, old(entries), e)
    {
      var key := cfg.key(e.raw);
      if e.kind == "DELETED" {
        entries := entries - {key};
      } else if e.kind == "ADDED" || e.kind == "MODIFIED" {
        var value := cfg.project(e.raw);
        if value.Some? {
          entries := entries[key := value.value];
        }
      }
    }

    /** The inner loop of `_watch_loop`. */
    method Receive(events: seq<Event>)
      modifies this`entries, this`version
      ensures Contents() == AfterEvents(cfg, old(Contents()), events)
    {
      var i := 0;
      while i < |events|
        invariant i <= |events|
        invariant AfterEvents(cfg, Contents(), events[i..]) == AfterEvents(cfg, old(Contents()), events)
      {
        var e := events[i];
        assert events[i..][0] == e && events[i..][1..] == events[i + 1..];
        if e.kind == "ERROR" {
          break;
        }
        if e.kind != "BOOKMARK" {
          ApplyEvent(e);
        }
        if e.raw.version.Some? {
          version := e.raw.version;
        }
        i := i + 1;
      }
    }

    /** `_watch_loop`, over what the API does in each of its turns. */
    method WatchLoop(sessions: seq<Session>)
      modifies this`entries, this`version, this`ready
      ensures Contents() == if stopped then old(Contents()) else AfterSessions(cfg, old(Contents()), sessions)
    {
      var i := 0;
      while i < |sessions| && !stopped
        invariant i <= |sessions|
        invariant stopped ==> Contents() == old(Contents())
        invariant !stopped ==>
            AfterSessions(cfg, Contents(), sessions[i..]) == AfterSessions(cfg, old(Contents()), sessions)
      {
        var s := sessions[i];
        assert sessions[i..][0] == s && sessions[i..][1..] == sessions[i + 1..];
        Receive(s.events);
        if s.end.Cancelled? {
          return;
        }
        if s.end.Gone? {
          version := None;
          var ok := InitialList(s.end.relist);
        }
        i := i + 1;
      }
    }

    /** `stop`, after which nothing is shown and no watch starts. */
    method Stop()
      modifies this`entries, this`ready, this`stopped
      ensures stopped && Contents() == Cache(map[], old(version), false)
    {
      entries, ready, stopped := map[], false, true;
    }

    /** `all`: one value for each key. */
    method All() returns (values: seq<T>)
      ensures |values| == |entries| && Enumerates(values, entries)
    {
      values := [];
      ghost var keys := [];
      var left := entries.Keys;
      while left != {}
        invariant left <= entries.Keys
        invariant |keys| == |entries| - |left| && ValuesOf(values, keys, entries)
        invariant forall key :: key in keys <==> key in entries && key !in left
        decreases |left|
      {
        var key :| key in left;
        values, keys, left := values + [entries[key]], keys + [key], left - {key};
      }
      assert ValuesOf(values, keys, entries);
    }
  }
}
