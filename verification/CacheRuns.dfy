/** The resolver cache under concurrent callers (resolver/cache.go). GetValue holds no
    lock across its steps, so every interleaving of the steps of any number of calls is
    a run: looking in the store, reading the clock, removing an expired entry, asking
    the source, reading the clock again and storing. The store may evict any entry at
    any moment, and the source may answer differently each time. */
module CacheRuns {
  import opened Wrappers
  import opened Text
  import opened Library
  import opened Records
  import opened Dispatch
  import opened Sources
  import Cache

  /** One answer of the source, and when it was given. */
  datatype Fetch = Fetch(call: nat, k: string, val: Bytes, eol: Option<int>, at: int)

  /** A store entry (value and cacheTill), with where it came from: the answer it holds
      and the clock reading its lifetime was counted from. */
  datatype Slot = Slot(val: Bytes, till: int, origin: Fetch, setAt: int)

  /** Where a call stands. */
  datatype Stage =
    | Looking(k: string)
    | Checking(k: string, slot: Slot)
    | Removing(k: string)
    | Asking(k: string)
    | Stamping(fetch: Fetch)
    | Storing(slot: Slot)
    | Finished(k: string, result: Result<Bytes, Error>)

  /** A value a call returned: from its own question to the source, or from the store. */
  datatype Served =
    | Direct(call: nat, k: string, val: Bytes, fetch: Fetch)
    | Hit(call: nat, k: string, val: Bytes, slot: Slot, at: int)

  /** The values served are listed in the order in which they were. */
  datatype State = State(
    clock: int, store: map<string, Slot>, calls: map<nat, Stage>, fetches: set<Fetch>, served: seq<Served>)

  /** A step of one call, of the store, or of time. */
  datatype Event =
    | Tick(amount: nat)
    | Evict(k: string)
    | Start(call: nat, k: string)
    | LookIn(call: nat)
    | CheckTime(call: nat)
    | RemoveEntry(call: nat)
    | Answer(call: nat, answer: Result<Found, Error>)
    | ReadClock(call: nat)
    | Store(call: nat)

  const INITIAL: State := State(0, map[], map[], {}, [])

  function At(s: State, call: nat, stage: Stage): State {
    s.(calls := s.calls[call := stage])
  }

  /** An event that is not possible in a state leaves it as it is. */
  function Step(s: State, ttl: int, e: Event): State {
    match e
    case Tick(amount) => s.(clock := s.clock + amount)
    case Evict(k) => s.(store := s.store - {k})
    case Start(call, k) => if call in s.calls then s else At(s, call, Looking(k))
    case LookIn(call) =>
      if call in s.calls && s.calls[call].Looking? then
        var k := s.calls[call].k;
        if k in s.store then At(s, call, Checking(k, s.store[k])) else At(s, call, Asking(k))
      else s
    case CheckTime(call) =>
      if call in s.calls && s.calls[call].Checking? then
        var k, slot := s.calls[call].k, s.calls[call].slot;
        if s.clock < slot.till then
          At(s, call, Finished(k, Ok(slot.val))).(served := s.served + [Hit(call, k, slot.val, slot, s.clock)])
        else At(s, call, Removing(k))
      else s
    case RemoveEntry(call) =>
      if call in s.calls && s.calls[call].Removing? then
        At(s, call, Asking(s.calls[call].k)).(store := s.store - {s.calls[call].k})
      else s
    case Answer(call, answer) =>
      if call in s.calls && s.calls[call].Asking? then
        (match answer
         case Err(e) => At(s, call, Finished(s.calls[call].k, Err(e)))
         case Ok(found) =>
           var fetch := Fetch(call, s.calls[call].k, found.val, found.eol, s.clock);
           At(s, call, Stamping(fetch)).(fetches := s.fetches + {fetch}))
      else s
    case ReadClock(call) =>
      if call in s.calls && s.calls[call].Stamping? then
        var fetch := s.calls[call].fetch;
        At(s, call, Storing(Slot(fetch.val, Cache.KeptTill(fetch.eol, s.clock, ttl), fetch, s.clock)))
      else s
    case Store(call) =>
      if call in s.calls && s.calls[call].Storing? then
        var slot := s.calls[call].slot;
        At(s, call, Finished(slot.origin.k, Ok(slot.val))).(
          store := s.store[slot.origin.k := slot],
          served := s.served + [Direct(call, slot.origin.k, slot.val, slot.origin)])
      else s
  }

  function Run(s: State, ttl: int, events: seq<Event>): State
    decreases |events|
  {
    if events == [] then s else Run(Step(s, ttl, events[0]), ttl, events[1..])
  }

  /** An answer the source gave for k, no later than now. */
  ghost predicate Given(s: State, fetch: Fetch, k: string) {
    fetch in s.fetches && fetch.k == k && fetch.at <= s.clock
  }

  ghost predicate Sound(s: State, ttl: int, slot: Slot, k: string) {
    && Given(s, slot.origin, k)
    && slot.val == slot.origin.val
    && slot.till == Cache.KeptTill(slot.origin.eol, slot.setAt, ttl)
    && slot.origin.at <= slot.setAt <= s.clock
  }

  ghost predicate StageSound(s: State, ttl: int, call: nat, stage: Stage) {
    match stage
    case Checking(k, slot) => Sound(s, ttl, slot, k)
    case Stamping(fetch) => Given(s, fetch, fetch.k) && fetch.call == call
    case Storing(slot) => Sound(s, ttl, slot, slot.origin.k) && slot.origin.call == call
    case _ => true
  }

  /** What a returned value is entitled by. */
  ghost predicate Fresh(s: State, ttl: int, r: Served) {
    match r
    case Direct(call, k, val, fetch) => Given(s, fetch, k) && fetch.call == call && val == fetch.val
    case Hit(call, k, val, slot, at) =>
      && Given(s, slot.origin, k) && val == slot.origin.val
      && slot.origin.at <= slot.setAt <= at <= s.clock
      && at < slot.setAt + ttl
      && (slot.origin.eol.Some? ==> at < slot.origin.eol.value)
  }

  ghost predicate Invariant(s: State, ttl: int) {
    && (forall k | k in s.store :: Sound(s, ttl, s.store[k], k))
    && (forall call | call in s.calls :: StageSound(s, ttl, call, s.calls[call]))
    && (forall r | r in s.served :: Fresh(s, ttl, r))
  }

  lemma {:induction false} StepKeepsOthers(s: State, ttl: int, e: Event)
    requires Invariant(s, ttl)
    ensures var next := Step(s, ttl, e);
      && s.clock <= next.clock && s.fetches <= next.fetches
      && (forall k | k in s.store :: Sound(next, ttl, s.store[k], k))
      && (forall call | call in s.calls :: StageSound(next, ttl, call, s.calls[call]))
      && (forall r | r in s.served :: Fresh(next, ttl, r))
  {
    var next := Step(s, ttl, e);
    assert s.clock <= next.clock && s.fetches <= next.fetches;
  }

  lemma {:induction false} StepKeepsInvariant(s: State, ttl: int, e: Event)
    requires Invariant(s, ttl)
    ensures Invariant(Step(s, ttl, e), ttl)
  {
    StepKeepsOthers(s, ttl, e);
    var next := Step(s, ttl, e);
    forall call | call in next.calls ensures StageSound(next, ttl, call, next.calls[call]) {
      if call in s.calls && next.calls[call] == s.calls[call] {
      }
    }
  }

  /** Freshness in every run: whatever the interleaving, the evictions and the answers of
      the source, every value returned for a key was given by the source for that key,
      either to the same call, or to a call that stored it with a lifetime that was not
      over, and before its expiry, when it was served. */
  lemma {:induction false} EveryRunIsFresh(s: State, ttl: int, events: seq<Event>)
    requires Invariant(s, ttl)
    ensures Invariant(Run(s, ttl, events), ttl)
    ensures forall r | r in Run(s, ttl, events).served :: Fresh(Run(s, ttl, events), ttl, r)
    decreases |events|
  {
    if events != [] {
      StepKeepsInvariant(s, ttl, events[0]);
      EveryRunIsFresh(Step(s, ttl, events[0]), ttl, events[1..]);
    }
  }

  /** Every answer in a run is what the lookup for that kind of key finds, in the world as it
      is for the call that asks; every call may find another world. */
  ghost predicate AnswersAreLookups(
    lib: Lib, kind: Kind, worlds: nat -> World, s: State, ttl: int, events: seq<Event>)
    decreases |events|
  {
    events != [] ==>
      && (events[0].Answer? && events[0].call in s.calls && s.calls[events[0].call].Asking? ==>
            events[0].answer == GetValue(lib, worlds(events[0].call), Key(kind, s.calls[events[0].call].k)))
      && AnswersAreLookups(lib, kind, worlds, Step(s, ttl, events[0]), ttl, events[1..])
  }

  ghost predicate AllLookedUp(lib: Lib, kind: Kind, worlds: nat -> World, s: State) {
    forall f | f in s.fetches :: GetValue(lib, worlds(f.call), Key(kind, f.k)) == Ok(Found(f.val, f.eol))
  }

  lemma {:induction false} FetchesAreLookups(
    lib: Lib, kind: Kind, worlds: nat -> World, s: State, ttl: int, events: seq<Event>)
    requires AllLookedUp(lib, kind, worlds, s) && AnswersAreLookups(lib, kind, worlds, s, ttl, events)
    ensures AllLookedUp(lib, kind, worlds, Run(s, ttl, events))
    decreases |events|
  {
    hide GetValue;
    if events != [] {
      FetchesAreLookups(lib, kind, worlds, Step(s, ttl, events[0]), ttl, events[1..]);
    }
  }

  /** The answer of the source that a served value came from. */
  function OriginOf(r: Served): Fetch {
    match r case Direct(_, _, _, fetch) => fetch case Hit(_, _, _, slot, _) => slot.origin
  }

  /** Every value served in a run in front of a lookup is what that lookup found for the key
      in the world of the call that asked, and so it is resolvable, for all three kinds. */
  lemma {:induction false} ServedAreResolvable(
    lib: Lib, kind: Kind, worlds: nat -> World, ttl: int, events: seq<Event>, r: Served)
    requires CidLaws(lib) && AnswersAreLookups(lib, kind, worlds, INITIAL, ttl, events)
    requires r in Run(INITIAL, ttl, events).served
    ensures GetValue(lib, worlds(OriginOf(r).call), Key(kind, r.k)) == Ok(Found(r.val, OriginOf(r).eol))
    ensures IsResolvable(lib, r.val)
  {
    hide Run, Step, GetValue, IsResolvable;
    EveryRunIsFresh(INITIAL, ttl, events);
    FetchesAreLookups(lib, kind, worlds, INITIAL, ttl, events);
    ValuesAreResolvable(lib, worlds(OriginOf(r).call), Key(kind, r.k));
  }

  /** Cache hits respect expiry in every run in front of the IPRS lookup, however the stores
      change in between, boundary instant included: the record that the cached value came
      from, in the world in which it was looked up, has this value and is not rejected by
      validation as expired at the time of the hit, for both validation types. */
  lemma {:induction false} HitsAreUnexpired(
    lib: Lib, worlds: nat -> World, ttl: int, events: seq<Event>, hit: Served)
    requires AnswersAreLookups(lib, Iprs, worlds, INITIAL, ttl, events)
    requires hit in Run(INITIAL, ttl, events).served && hit.Hit?
    ensures var w := worlds(hit.slot.origin.call);
      && StoredRecord(lib, w, hit.k).Ok?
      && var record := StoredRecord(lib, w, hit.k).value;
      && record.value == hit.val
      && ValidateRecord(lib, record, hit.at) != Some(ErrExpiredRecord)
  {
    hide Run, Step, IprsGetValue, StoredRecord, ValidateRecord, GetEol;
    EveryRunIsFresh(INITIAL, ttl, events);
    FetchesAreLookups(lib, Iprs, worlds, INITIAL, ttl, events);
    var origin := hit.slot.origin;
    var w := worlds(origin.call);
    assert GetValue(lib, w, Key(Iprs, hit.k)) == IprsGetValue(lib, w, hit.k);
    LookedUpExactly(lib, w, hit.k, Found(origin.val, origin.eol));
    EolIsLastUnexpired(lib, StoredRecord(lib, w, hit.k).value, hit.at);
  }

  /** The key a call is for. */
  function KeyOf(stage: Stage): string {
    match stage
    case Stamping(fetch) => fetch.k
    case Storing(slot) => slot.origin.k
    case Looking(k) => k
    case Checking(k, _) => k
    case Removing(k) => k
    case Asking(k) => k
    case Finished(k, _) => k
  }

  /** Every call that has returned a value was served it. */
  ghost predicate ResultsServed(s: State) {
    forall call | call in s.calls && s.calls[call].Finished? && s.calls[call].result.Ok? ::
      exists r :: r in s.served && r.k == s.calls[call].k && r.val == s.calls[call].result.value
  }

  /** Every call that has returned an error was given it by the lookup in its world. */
  ghost predicate ErrorsLookedUp(lib: Lib, kind: Kind, worlds: nat -> World, s: State) {
    forall call | call in s.calls && s.calls[call].Finished? && s.calls[call].result.Err? ::
      ValueOf(GetValue(lib, worlds(call), Key(kind, s.calls[call].k))) == s.calls[call].result
  }

  lemma {:induction false} StepKeepsErrors(lib: Lib, kind: Kind, worlds: nat -> World, s: State, ttl: int, e: Event)
    requires ErrorsLookedUp(lib, kind, worlds, s)
    requires e.Answer? && e.call in s.calls && s.calls[e.call].Asking? ==>
      e.answer == GetValue(lib, worlds(e.call), Key(kind, s.calls[e.call].k))
    ensures ErrorsLookedUp(lib, kind, worlds, Step(s, ttl, e))
  {
    hide GetValue;
  }

  /** Every answer was given to a call of the run, for that call's key. */
  ghost predicate AnswersHaveCalls(s: State) {
    forall f | f in s.fetches :: f.call in s.calls && KeyOf(s.calls[f.call]) == f.k
  }

  lemma {:induction false} StepKeepsAnswersCalled(s: State, ttl: int, e: Event)
    requires Invariant(s, ttl) && AnswersHaveCalls(s)
    ensures AnswersHaveCalls(Step(s, ttl, e))
  {
    StepExtends(s, ttl, e);
    var next := Step(s, ttl, e);
    forall f | f in next.fetches ensures f.call in next.calls && KeyOf(next.calls[f.call]) == f.k {
      if f in s.fetches {
        hide Step;
      }
    }
  }

  /** A step never takes back what was served or returned, and no call changes its key. */
  lemma {:induction false} StepExtends(s: State, ttl: int, e: Event)
    ensures s.served <= Step(s, ttl, e).served
    ensures forall call | call in s.calls ::
      && call in Step(s, ttl, e).calls && KeyOf(Step(s, ttl, e).calls[call]) == KeyOf(s.calls[call])
      && (s.calls[call].Finished? ==> Step(s, ttl, e).calls[call] == s.calls[call])
  {
  }

  lemma {:induction false} StepServesResults(s: State, ttl: int, e: Event)
    requires ResultsServed(s)
    ensures ResultsServed(Step(s, ttl, e))
  {
    var next := Step(s, ttl, e);
    forall call | call in next.calls && next.calls[call].Finished? && next.calls[call].result.Ok?
      ensures exists r :: r in next.served && r.k == next.calls[call].k && r.val == next.calls[call].result.value
    {
      if call in s.calls && s.calls[call] == next.calls[call] {
        var r :| r in s.served && r.k == s.calls[call].k && r.val == s.calls[call].result.value;
        ServedStays(s, ttl, e, r);
      } else {
        ReturnsAreServed(s, ttl, e, call);
        assert next.served[|s.served|] in next.served;
      }
    }
  }

  lemma ServedStays(s: State, ttl: int, e: Event, r: Served)
    requires r in s.served
    ensures r in Step(s, ttl, e).served
  {
  }

  lemma ReturnsAreServed(s: State, ttl: int, e: Event, call: nat)
    requires var next := Step(s, ttl, e);
      && call in next.calls && next.calls[call].Finished? && next.calls[call].result.Ok?
      && !(call in s.calls && s.calls[call] == next.calls[call])
    ensures var next := Step(s, ttl, e);
      && |next.served| == |s.served| + 1
      && next.served[|s.served|].k == next.calls[call].k && next.served[|s.served|].val == next.calls[call].result.value
  {
  }

  /** With a lifetime that is not positive nothing is ever served from the store. */
  lemma {:induction false} NoLifetimeNoHits(ttl: int, events: seq<Event>, r: Served)
    requires ttl <= 0 && r in Run(INITIAL, ttl, events).served
    ensures r.Direct?
  {
    EveryRunIsFresh(INITIAL, ttl, events);
  }

  // ---- What does not hold: freshness is not monotone -----------------------------------

  // Two calls ask the source in turn and store in the opposite order; a third call looks
  // in the store afterwards.
  const ASKED_FIRST: seq<Event> := [Start(1, "k"), LookIn(1), Answer(1, Ok(Found("old", None))), Tick(1)]
  const STORED_FIRST: seq<Event> :=
    [Start(2, "k"), LookIn(2), Answer(2, Ok(Found("new", None))), ReadClock(2), Store(2)]
  const STORED_LAST: seq<Event> := [ReadClock(1), Store(1)]
  const LOOKED_AFTER: seq<Event> := [Start(3, "k"), LookIn(3), CheckTime(3)]

  lemma {:induction false} RunConcat(s: State, ttl: int, a: seq<Event>, b: seq<Event>)
    ensures Run(s, ttl, a + b) == Run(Run(s, ttl, a), ttl, b)
    decreases |a|
  {
    if a == [] {
      assert a + b == b;
    } else {
      assert (a + b)[1..] == a[1..] + b;
      RunConcat(Step(s, ttl, a[0]), ttl, a[1..], b);
    }
  }

  lemma {:induction false} RunOne(s: State, ttl: int, events: seq<Event>)
    requires events != []
    ensures Run(s, ttl, events) == Run(Step(s, ttl, events[0]), ttl, events[1..])
  {
  }

  /** A value can be served from the store that is older than one already returned for
      the same key: an earlier answer stored later replaces a later one. */
  lemma {:induction false} OlderValueAfterNewer(ttl: int)
    requires ttl > 0
    ensures var s := Run(INITIAL, ttl, ASKED_FIRST + (STORED_FIRST + (STORED_LAST + LOOKED_AFTER)));
      exists newer, older | newer in s.served && older in s.served ::
        && newer.Direct? && older.Hit? && newer.k == older.k
        && older.slot.origin.at < newer.fetch.at <= older.slot.setAt <= older.at
        && newer.val != older.val
  {
    hide Run, Step, ASKED_FIRST, STORED_FIRST;
    var old1, new1 := Fetch(1, "k", "old", None, 0), Fetch(2, "k", "new", None, 1);
    var oldSlot := Slot("old", 1 + ttl, old1, 1);
    RunConcat(INITIAL, ttl, ASKED_FIRST, STORED_FIRST + (STORED_LAST + LOOKED_AFTER));
    FirstPart(ttl);
    var s1 := Run(INITIAL, ttl, ASKED_FIRST);
    RunConcat(s1, ttl, STORED_FIRST, STORED_LAST + LOOKED_AFTER);
    SecondPart(ttl, s1);
    var s2 := Run(s1, ttl, STORED_FIRST);
    RunConcat(s2, ttl, STORED_LAST, LOOKED_AFTER);
    AnswerIsStored(s2, ttl, 1, old1);
    var s3 := Run(s2, ttl, STORED_LAST);
    LiveEntryIsServed(s3, ttl, 3, "k", oldSlot);
    var s := Run(s3, ttl, LOOKED_AFTER);
    var newer, older := Direct(2, "k", "new", new1), Hit(3, "k", "old", oldSlot, 1);
    assert newer in s.served && older in s.served;
  }

  /** A call that has its answer, left alone, stores it in place of whatever entry the key
      has by then. */
  lemma {:induction false} AnswerIsStored(s: State, ttl: int, call: nat, fetch: Fetch)
    requires call in s.calls && s.calls[call] == Stamping(fetch)
    ensures var slot := Slot(fetch.val, Cache.KeptTill(fetch.eol, s.clock, ttl), fetch, s.clock);
      && Cache.Earlier(slot.till, s.clock, ttl, fetch.eol)
      && Run(s, ttl, [ReadClock(call), Store(call)]) ==
           s.(store := s.store[fetch.k := slot], calls := s.calls[call := Finished(fetch.k, Ok(fetch.val))],
              served := s.served + [Direct(call, fetch.k, fetch.val, fetch)])
  {
    var events := [ReadClock(call), Store(call)];
    var slot := Slot(fetch.val, Cache.KeptTill(fetch.eol, s.clock, ttl), fetch, s.clock);
    RunOne(s, ttl, events);
    var next := Step(s, ttl, events[0]);
    assert next == At(s, call, Storing(slot));
    RunOne(next, ttl, events[1..]);
    assert events[1..][1..] == [];
    assert next.calls[call := Finished(fetch.k, Ok(fetch.val))] == s.calls[call := Finished(fetch.k, Ok(fetch.val))];
  }

  /** A new call, left alone, is served the live entry its key has. */
  lemma {:induction false} LiveEntryIsServed(s: State, ttl: int, call: nat, k: string, slot: Slot)
    requires call !in s.calls && k in s.store && s.store[k] == slot && s.clock < slot.till
    ensures Run(s, ttl, [Start(call, k), LookIn(call), CheckTime(call)]) ==
      s.(calls := s.calls[call := Finished(k, Ok(slot.val))],
         served := s.served + [Hit(call, k, slot.val, slot, s.clock)])
  {
    var events := [Start(call, k), LookIn(call), CheckTime(call)];
    RunOne(s, ttl, events);
    var s1 := Step(s, ttl, events[0]);
    RunOne(s1, ttl, events[1..]);
    var s2 := Step(s1, ttl, events[1]);
    assert s2 == At(s1, call, Checking(k, slot));
    RunOne(s2, ttl, events[2..]);
    assert events[1..][1..] == events[2..] && events[2..][1..] == [];
    assert s2.calls[call := Finished(k, Ok(slot.val))] == s.calls[call := Finished(k, Ok(slot.val))];
  }

  /** In every run, a call that checks an entry it has looked at is served its value exactly
      when neither the lifetime, counted from the clock reading before the entry was stored,
      nor the expiry is over; otherwise it goes on to ask the source. */
  lemma {:induction false} EntryIsServedExactly(ttl: int, events: seq<Event>, call: nat)
    requires var s := Run(INITIAL, ttl, events); call in s.calls && s.calls[call].Checking?
    ensures var s := Run(INITIAL, ttl, events);
      var k, slot, next := s.calls[call].k, s.calls[call].slot, Step(s, ttl, CheckTime(call));
      if s.clock < slot.setAt + ttl && (slot.origin.eol.Some? ==> s.clock < slot.origin.eol.value)
      then next.served == s.served + [Hit(call, k, slot.origin.val, slot, s.clock)]
           && next.calls[call] == Finished(k, Ok(slot.origin.val))
      else
        var removed := Step(next, ttl, RemoveEntry(call));
        && removed.served == s.served && removed.store == s.store - {k}
        && removed.calls == s.calls[call := Asking(k)]
  {
    EveryRunIsFresh(INITIAL, ttl, events);
    var s := Run(INITIAL, ttl, events);
    assert StageSound(s, ttl, call, s.calls[call]);
    hide Run;
    var k := s.calls[call].k;
    assert s.calls[call := Removing(k)][call := Asking(k)] == s.calls[call := Asking(k)];
  }

  /** A new call for a key without an entry asks the source: an error is returned and nothing
      stored, an answer is stored and returned. */
  lemma {:induction false} MissAsks(s: State, ttl: int, call: nat, k: string, answer: Result<Found, Error>)
    requires call !in s.calls && k !in s.store
    ensures var t := Run(s, ttl, [Start(call, k), LookIn(call), Answer(call, answer)]);
      match answer
      case Err(e) => t == s.(calls := s.calls[call := Finished(k, Err(e))])
      case Ok(found) =>
        var fetch := Fetch(call, k, found.val, found.eol, s.clock);
        t == s.(calls := s.calls[call := Stamping(fetch)], fetches := s.fetches + {fetch})
  {
    var events := [Start(call, k), LookIn(call), Answer(call, answer)];
    RunOne(s, ttl, events);
    var s1 := Step(s, ttl, events[0]);
    RunOne(s1, ttl, events[1..]);
    var s2 := Step(s1, ttl, events[1]);
    assert s2.calls == s.calls[call := Asking(k)];
    RunOne(s2, ttl, events[2..]);
    assert events[1..][1..] == events[2..] && events[2..][1..] == [];
    var t := Step(s2, ttl, events[2]);
    assert t.calls == s.calls[call := t.calls[call]];
  }

  /** A call with an answer stores it, and while neither the lifetime, counted from its
      storing, nor the expiry is over, the next call for the key is served it, whatever the
      source has by then. */
  lemma {:induction false} StoredIsServed(s: State, ttl: int, call: nat, fetch: Fetch, wait: nat, next: nat)
    requires call in s.calls && s.calls[call] == Stamping(fetch) && next !in s.calls
    requires wait < ttl && (fetch.eol.Some? ==> s.clock + wait < fetch.eol.value)
    ensures var events :=
        [ReadClock(call), Store(call)] + ([Tick(wait)] + [Start(next, fetch.k), LookIn(next), CheckTime(next)]);
      var t := Run(s, ttl, events);
      && next in t.calls && t.calls[next] == Finished(fetch.k, Ok(fetch.val))
      && |t.served| == |s.served| + 2 && t.served[|s.served| + 1].Hit?
      && t.served[|s.served| + 1].k == fetch.k && t.served[|s.served| + 1].val == fetch.val
  {
    var first, last := [ReadClock(call), Store(call)], [Start(next, fetch.k), LookIn(next), CheckTime(next)];
    var slot := Slot(fetch.val, Cache.KeptTill(fetch.eol, s.clock, ttl), fetch, s.clock);
    RunConcat(s, ttl, first, [Tick(wait)] + last);
    AnswerIsStored(s, ttl, call, fetch);
    var stored := Run(s, ttl, first);
    assert ([Tick(wait)] + last)[1..] == last;
    RunOne(stored, ttl, [Tick(wait)] + last);
    var later := Step(stored, ttl, Tick(wait));
    hide Run;
    LiveEntryIsServed(later, ttl, next, fetch.k, slot);
  }

  lemma FirstPart(ttl: int)
    ensures var old1 := Fetch(1, "k", "old", None, 0);
      Run(INITIAL, ttl, ASKED_FIRST) == State(1, map[], map[1 := Stamping(old1)], {old1}, [])
  {
  }

  lemma SecondPart(ttl: int, s1: State)
    requires var old1 := Fetch(1, "k", "old", None, 0);
      s1 == State(1, map[], map[1 := Stamping(old1)], {old1}, [])
    ensures var old1, new1 := Fetch(1, "k", "old", None, 0), Fetch(2, "k", "new", None, 1);
      Run(s1, ttl, STORED_FIRST) == State(1, map["k" := Slot("new", 1 + ttl, new1, 1)],
        map[1 := Stamping(old1), 2 := Finished("k", Ok("new"))], {old1, new1}, [Direct(2, "k", "new", new1)])
  {
  }
}
