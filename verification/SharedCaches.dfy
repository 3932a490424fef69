/** Resolvers at work at once over three shared caches in front of stores that change
    (resolver/resolver.go over resolver/cache.go): every interleaving of the hops of any
    number of resolutions with the steps of the caches and of other callers. */
module SharedCaches {
  import opened Wrappers
  import opened Library
  import opened Targets
  import opened Dispatch
  import opened Sources
  import opened Resolution
  import CacheRuns

  /** The caches of the three sub-resolvers. */
  datatype Caches = Caches(dns: CacheRuns.State, iprs: CacheRuns.State, ipns: CacheRuns.State) {
    function Of(kind: Kind): CacheRuns.State {
      match kind case Dns => dns case Iprs => iprs case Ipns => ipns
    }

    function With(kind: Kind, cache: CacheRuns.State): Caches {
      match kind case Dns => this.(dns := cache) case Iprs => this.(iprs := cache) case Ipns => this.(ipns := cache)
    }
  }

  /** Where a resolution stands: at a name, waiting for a call to a cache, or done. */
  datatype Place =
    | At(name: string, left: nat, apnd: seq<string>)
    | Waiting(key: Key, call: nat, left: nat, apnd: seq<string>)
    | Done(answer: Answer)

  /** A resolution, with the keys it has looked up so far and what its lookups returned. */
  datatype Visit = Visit(start: string, depth: nat, keys: seq<Key>, found: seq<Result<string, Error>>, place: Place)

  datatype State = State(caches: Caches, visits: map<nat, Visit>)

  /** A step of a cache or of some other caller of it, or of a resolution. */
  datatype Event =
    | InCache(kind: Kind, step: CacheRuns.Event)
    | Begin(id: nat, p: string, depth: nat)
    | Hop(id: nat, call: nat)
    | Return(id: nat)

  type Lifetimes = Kind -> int

  /** The world in which a call to a cache asks its source. */
  type Worlds = Kind -> nat -> World

  const INITIAL: State := State(Caches(CacheRuns.INITIAL, CacheRuns.INITIAL, CacheRuns.INITIAL), map[])

  function Move(s: State, id: nat, visit: Visit): State {
    s.(visits := s.visits[id := visit])
  }

  function Step(s: State, lib: Lib, ttls: Lifetimes, e: Event): State {
    match e
    case InCache(kind, step) =>
      s.(caches := s.caches.With(kind, CacheRuns.Step(s.caches.Of(kind), ttls(kind), step)))
    case Begin(id, p, depth) =>
      if id in s.visits then s else Move(s, id, Visit(p, depth, [], [], At(p, depth, [])))
    case Hop(id, call) =>
      if id in s.visits && s.visits[id].place.At? then HopOn(s, lib, ttls, id, call) else s
    case Return(id) =>
      if id in s.visits && s.visits[id].place.Waiting? then Receive(s, id) else s
  }

  /** A name no sub-resolver takes, a used-up depth or a panic ends the resolution; any other
      name starts a call to the cache of its kind. */
  function HopOn(s: State, lib: Lib, ttls: Lifetimes, id: nat, call: nat): State
    requires id in s.visits && s.visits[id].place.At?
  {
    var visit := s.visits[id];
    var (name, left, apnd) := (visit.place.name, visit.place.left, visit.place.apnd);
    match NextHop(lib, name)
    case NoResolver =>
      (match ParseTargetToCid(lib, name)
       case Some(target) => Move(s, id, visit.(place := Done(Resolved(target.cid, AppendParts(target.rest, apnd)))))
       case None => Move(s, id, visit.(place := Done(Unrecognized(name)))))
    case Panic => Move(s, id, visit.(place := Done(if left == 0 then RecursionLimit else Crashed)))
    case Follow(key, rest) =>
      if left == 0 then Move(s, id, visit.(place := Done(RecursionLimit)))
      else if call in s.caches.Of(key.kind).calls then s
      else
        var cache := CacheRuns.Step(s.caches.Of(key.kind), ttls(key.kind), CacheRuns.Start(call, key.text));
        Move(s, id, visit.(place := Waiting(key, call, left - 1, AppendParts(rest, apnd)))).(
          caches := s.caches.With(key.kind, cache))
  }

  /** A call that has returned lets its resolution go on. */
  function Receive(s: State, id: nat): State
    requires id in s.visits && s.visits[id].place.Waiting?
  {
    var visit := s.visits[id];
    var (key, call) := (visit.place.key, visit.place.call);
    var calls := s.caches.Of(key.kind).calls;
    if call !in calls || !calls[call].Finished? then s
    else
      var result := calls[call].result;
      var place := match result
        case Ok(name) => At(name, visit.place.left, visit.place.apnd)
        case Err(e) => Done(LookupFailed(e));
      Move(s, id, visit.(keys := visit.keys + [key], found := visit.found + [result], place := place))
  }

  function Run(s: State, lib: Lib, ttls: Lifetimes, events: seq<Event>): State
    decreases |events|
  {
    if events == [] then s else Run(Step(s, lib, ttls, events[0]), lib, ttls, events[1..])
  }

  /** An answer of the source is what the lookup finds in the world of the call that asks. */
  ghost predicate Truthful(s: State, lib: Lib, worlds: Worlds, e: Event) {
    e.InCache? && e.step.Answer? ==>
      var calls := s.caches.Of(e.kind).calls;
      e.step.call in calls && calls[e.step.call].Asking? ==>
        e.step.answer == GetValue(lib, worlds(e.kind)(e.step.call), Key(e.kind, calls[e.step.call].k))
  }

  ghost predicate AllTruthful(s: State, lib: Lib, ttls: Lifetimes, worlds: Worlds, events: seq<Event>)
    decreases |events|
  {
    events != [] ==>
      Truthful(s, lib, worlds, events[0]) && AllTruthful(Step(s, lib, ttls, events[0]), lib, ttls, worlds, events[1..])
  }

  // ---- The caches ------------------------------------------------------------------------

  ghost predicate CacheSound(lib: Lib, kind: Kind, ttl: int, worlds: nat -> World, c: CacheRuns.State) {
    && CacheRuns.Invariant(c, ttl) && CacheRuns.AllLookedUp(lib, kind, worlds, c)
    && CacheRuns.ResultsServed(c) && CacheRuns.ErrorsLookedUp(lib, kind, worlds, c) && CacheRuns.AnswersHaveCalls(c)
  }

  ghost predicate CachesSound(s: State, lib: Lib, ttls: Lifetimes, worlds: Worlds) {
    forall kind: Kind :: CacheSound(lib, kind, ttls(kind), worlds(kind), s.caches.Of(kind))
  }

  lemma {:induction false} CacheStepSound(
    lib: Lib, kind: Kind, ttl: int, worlds: nat -> World, c: CacheRuns.State, step: CacheRuns.Event)
    requires CacheSound(lib, kind, ttl, worlds, c)
    requires step.Answer? && step.call in c.calls && c.calls[step.call].Asking? ==>
      step.answer == GetValue(lib, worlds(step.call), Key(kind, c.calls[step.call].k))
    ensures CacheSound(lib, kind, ttl, worlds, CacheRuns.Step(c, ttl, step))
  {
    hide GetValue;
    CacheRuns.StepKeepsInvariant(c, ttl, step);
    CacheRuns.StepServesResults(c, ttl, step);
    CacheRuns.StepKeepsErrors(lib, kind, worlds, c, ttl, step);
    CacheRuns.StepKeepsAnswersCalled(c, ttl, step);
  }

  // ---- The resolutions -----------------------------------------------------------------------

  /** Lookups that return, hop by hop, for the key of the hop what the resolution was given. */
  ghost predicate Agrees(gets: nat -> Lookup, keys: seq<Key>, found: seq<Result<string, Error>>) {
    |keys| == |found| && forall i | 0 <= i < |found| :: gets(i)(keys[i]) == found[i]
  }

  /** What remains to be answered from a place. */
  function Remaining(lib: Lib, gets: nat -> Lookup, hop: nat, place: Place): Answer {
    match place
    case At(name, left, apnd) => ResolveChanging(lib, gets, hop, name, left, apnd)
    case Waiting(key, _, left, apnd) =>
      (match gets(hop)(key)
       case Err(e) => LookupFailed(e)
       case Ok(name) => ResolveChanging(lib, gets, hop + 1, name, left, apnd))
    case Done(answer) => answer
  }

  /** The resolution is on the way that plain resolution takes over what it was given. */
  ghost predicate OnCourse(lib: Lib, visit: Visit) {
    forall gets: nat -> Lookup | Agrees(gets, visit.keys, visit.found) ::
      ResolveChanging(lib, gets, 0, visit.start, visit.depth, [])
      == Remaining(lib, gets, |visit.found|, visit.place)
  }

  /** A cache has served the value for the key. */
  ghost predicate Served(caches: Caches, key: Key, val: string) {
    exists r :: r in caches.Of(key.kind).served && r.k == key.text && r.val == val
  }

  /** A call to a cache for the key has returned the error. */
  ghost predicate Failed(caches: Caches, key: Key, e: Error) {
    exists call :: call in caches.Of(key.kind).calls
      && caches.Of(key.kind).calls[call] == CacheRuns.Finished(key.text, Err(e))
  }

  /** What a cache has given for the key. */
  ghost predicate Gave(caches: Caches, key: Key, result: Result<string, Error>) {
    match result case Ok(val) => Served(caches, key, val) case Err(e) => Failed(caches, key, e)
  }

  ghost predicate VisitSound(lib: Lib, caches: Caches, visit: Visit) {
    && |visit.keys| == |visit.found|
    && OnCourse(lib, visit)
    && (forall i | 0 <= i < |visit.found| :: Gave(caches, visit.keys[i], visit.found[i]))
    && (visit.place.Waiting? ==>
          var calls := caches.Of(visit.place.key.kind).calls;
          visit.place.call in calls && CacheRuns.KeyOf(calls[visit.place.call]) == visit.place.key.text)
  }

  ghost predicate Invariant(s: State, lib: Lib, ttls: Lifetimes, worlds: Worlds) {
    CachesSound(s, lib, ttls, worlds) && forall id | id in s.visits :: VisitSound(lib, s.caches, s.visits[id])
  }

  /** Caches that serve more and keep the keys and results of their calls. */
  ghost predicate Extended(caches: Caches, more: Caches) {
    forall kind: Kind ::
      && caches.Of(kind).served <= more.Of(kind).served
      && forall call | call in caches.Of(kind).calls ::
           && call in more.Of(kind).calls
           && CacheRuns.KeyOf(more.Of(kind).calls[call]) == CacheRuns.KeyOf(caches.Of(kind).calls[call])
           && (caches.Of(kind).calls[call].Finished? ==> more.Of(kind).calls[call] == caches.Of(kind).calls[call])
  }

  lemma {:induction false} StaysSound(lib: Lib, caches: Caches, more: Caches, visit: Visit)
    requires VisitSound(lib, caches, visit) && Extended(caches, more)
    ensures VisitSound(lib, more, visit)
  {
    hide OnCourse;
    forall i | 0 <= i < |visit.found| ensures Gave(more, visit.keys[i], visit.found[i]) {
      StillGiven(caches, more, visit.keys[i], visit.found[i]);
    }
  }

  lemma {:induction false} StillGiven(caches: Caches, more: Caches, key: Key, result: Result<string, Error>)
    requires Gave(caches, key, result) && Extended(caches, more)
    ensures Gave(more, key, result)
  {
    match result
    case Ok(val) =>
      var r :| r in caches.Of(key.kind).served && r.k == key.text && r.val == val;
      assert r in more.Of(key.kind).served;
    case Err(e) =>
      var call :| call in caches.Of(key.kind).calls
        && caches.Of(key.kind).calls[call] == CacheRuns.Finished(key.text, Err(e));
      assert call in more.Of(key.kind).calls;
  }

  lemma {:induction false} CachesStep(
    s: State, lib: Lib, ttls: Lifetimes, worlds: Worlds, kind: Kind, step: CacheRuns.Event)
    requires CachesSound(s, lib, ttls, worlds) && Truthful(s, lib, worlds, InCache(kind, step))
    ensures var next := s.caches.With(kind, CacheRuns.Step(s.caches.Of(kind), ttls(kind), step));
      && CachesSound(s.(caches := next), lib, ttls, worlds) && Extended(s.caches, next)
  {
    hide CacheRuns.Step, CacheRuns.Invariant, CacheRuns.AllLookedUp, CacheRuns.ResultsServed, CacheRuns.ErrorsLookedUp;
    hide CacheRuns.AnswersHaveCalls, GetValue, CacheRuns.KeyOf;
    CacheStepSound(lib, kind, ttls(kind), worlds(kind), s.caches.Of(kind), step);
    CacheRuns.StepExtends(s.caches.Of(kind), ttls(kind), step);
    hide CacheSound;
    OnlyOne(s.caches, kind, CacheRuns.Step(s.caches.Of(kind), ttls(kind), step));
  }

  lemma OnlyOne(caches: Caches, kind: Kind, cache: CacheRuns.State)
    ensures forall other: Kind ::
      caches.With(kind, cache).Of(other) == if other == kind then cache else caches.Of(other)
  {
  }

  lemma {:induction false} HopOnCourse(lib: Lib, visit: Visit, place: Place)
    requires OnCourse(lib, visit) && visit.place.At?
    requires forall gets: nat -> Lookup ::
      Remaining(lib, gets, |visit.found|, visit.place) == Remaining(lib, gets, |visit.found|, place)
    ensures OnCourse(lib, visit.(place := place))
  {
    hide Remaining, ResolveChanging;
  }

  lemma {:induction false} ReceiveOnCourse(lib: Lib, visit: Visit, result: Result<string, Error>)
    requires OnCourse(lib, visit) && visit.place.Waiting? && |visit.keys| == |visit.found|
    ensures var place := match result
        case Ok(name) => At(name, visit.place.left, visit.place.apnd)
        case Err(e) => Done(LookupFailed(e));
      OnCourse(lib, visit.(keys := visit.keys + [visit.place.key], found := visit.found + [result], place := place))
  {
    hide ResolveChanging;
    var keys, found := visit.keys + [visit.place.key], visit.found + [result];
    forall gets: nat -> Lookup | Agrees(gets, keys, found)
      ensures Agrees(gets, visit.keys, visit.found) && gets(|visit.found|)(visit.place.key) == result
    {
      assert forall i | 0 <= i < |visit.found| :: keys[i] == visit.keys[i] && found[i] == visit.found[i];
      assert keys[|visit.found|] == visit.place.key && found[|visit.found|] == result;
    }
  }

  lemma {:induction false} ReceiveSound(lib: Lib, caches: Caches, visit: Visit)
    requires VisitSound(lib, caches, visit) && visit.place.Waiting?
    requires CacheRuns.ResultsServed(caches.Of(visit.place.key.kind))
    requires caches.Of(visit.place.key.kind).calls[visit.place.call].Finished?
    ensures var result := caches.Of(visit.place.key.kind).calls[visit.place.call].result;
      var place := match result
        case Ok(name) => At(name, visit.place.left, visit.place.apnd)
        case Err(e) => Done(LookupFailed(e));
      VisitSound(lib, caches,
        visit.(keys := visit.keys + [visit.place.key], found := visit.found + [result], place := place))
  {
    hide OnCourse;
    var result := caches.Of(visit.place.key.kind).calls[visit.place.call].result;
    ReceiveOnCourse(lib, visit, result);
    assert Gave(caches, visit.place.key, result);
  }

  lemma {:induction false} StepKeeps(s: State, lib: Lib, ttls: Lifetimes, worlds: Worlds, e: Event)
    requires Invariant(s, lib, ttls, worlds) && Truthful(s, lib, worlds, e)
    ensures Invariant(Step(s, lib, ttls, e), lib, ttls, worlds)
  {
    match e
    case InCache(kind, step) => InCacheKeeps(s, lib, ttls, worlds, kind, step);
    case Begin(id, p, depth) => BeginKeeps(s, lib, ttls, worlds, id, p, depth);
    case Hop(id, call) => if id in s.visits && s.visits[id].place.At? { HopKeeps(s, lib, ttls, worlds, id, call); }
    case Return(id) => if id in s.visits && s.visits[id].place.Waiting? { ReturnKeeps(s, lib, ttls, worlds, id); }
  }

  lemma {:induction false} InCacheKeeps(
    s: State, lib: Lib, ttls: Lifetimes, worlds: Worlds, kind: Kind, step: CacheRuns.Event)
    requires Invariant(s, lib, ttls, worlds) && Truthful(s, lib, worlds, InCache(kind, step))
    ensures Invariant(Step(s, lib, ttls, InCache(kind, step)), lib, ttls, worlds)
  {
    hide VisitSound, CachesSound, Extended, CacheRuns.Step, Truthful;
    CachesStep(s, lib, ttls, worlds, kind, step);
    var next := Step(s, lib, ttls, InCache(kind, step));
    forall id | id in s.visits ensures VisitSound(lib, next.caches, s.visits[id]) {
      StaysSound(lib, s.caches, next.caches, s.visits[id]);
    }
  }

  lemma {:induction false} BeginKeeps(
    s: State, lib: Lib, ttls: Lifetimes, worlds: Worlds, id: nat, p: string, depth: nat)
    requires Invariant(s, lib, ttls, worlds)
    ensures Invariant(Step(s, lib, ttls, Begin(id, p, depth)), lib, ttls, worlds)
  {
    hide CacheSound, ResolveChanging;
    assert VisitSound(lib, s.caches, Visit(p, depth, [], [], At(p, depth, [])));
  }

  lemma {:induction false} HopKeeps(s: State, lib: Lib, ttls: Lifetimes, worlds: Worlds, id: nat, call: nat)
    requires Invariant(s, lib, ttls, worlds) && id in s.visits && s.visits[id].place.At?
    ensures Invariant(HopOn(s, lib, ttls, id, call), lib, ttls, worlds)
  {
    hide HopOn, CachesSound, VisitSound, OnCourse, Remaining;
    var next := HopOn(s, lib, ttls, id, call);
    HopCachesSound(s, lib, ttls, worlds, id, call);
    HopVisitSound(s, lib, ttls, id, call);
    OthersStaySound(s, lib, next.caches);
  }

  /** A hop starts at most a call to one cache, and waits for it if it does. */
  lemma {:induction false} HopCachesSound(s: State, lib: Lib, ttls: Lifetimes, worlds: Worlds, id: nat, call: nat)
    requires CachesSound(s, lib, ttls, worlds) && id in s.visits && s.visits[id].place.At?
    ensures var next := HopOn(s, lib, ttls, id, call);
      CachesSound(next, lib, ttls, worlds) && Extended(s.caches, next.caches)
  {
    hide CacheSound, ParseTargetToCid, AppendParts;
    match NextHop(lib, s.visits[id].place.name)
    case Follow(key, _) =>
      CachesStep(s, lib, ttls, worlds, key.kind, CacheRuns.Start(call, key.text));
      hide NextHop, CacheRuns.Step;
    case _ =>
  }

  lemma {:induction false} HopVisitSound(s: State, lib: Lib, ttls: Lifetimes, id: nat, call: nat)
    requires id in s.visits && s.visits[id].place.At? && VisitSound(lib, s.caches, s.visits[id])
    requires Extended(s.caches, HopOn(s, lib, ttls, id, call).caches)
    ensures var next := HopOn(s, lib, ttls, id, call);
      next.visits.Keys == s.visits.Keys && VisitSound(lib, next.caches, next.visits[id])
      && forall other | other in s.visits && other != id :: next.visits[other] == s.visits[other]
  {
    var next := HopOn(s, lib, ttls, id, call);
    HopRemains(s, lib, ttls, id, call);
    HopOnCourse(lib, s.visits[id], next.visits[id].place);
    StaysSound(lib, s.caches, next.caches, s.visits[id]);
    WaitsForOwn(s, lib, ttls, id, call);
    hide OnCourse, Remaining, HopOn;
  }

  lemma {:induction false} WaitsForOwn(s: State, lib: Lib, ttls: Lifetimes, id: nat, call: nat)
    requires id in s.visits && s.visits[id].place.At?
    ensures var next := HopOn(s, lib, ttls, id, call); var place := next.visits[id].place;
      && next.visits.Keys == s.visits.Keys
      && (place.Waiting? ==>
            var calls := next.caches.Of(place.key.kind).calls;
            place.call in calls && CacheRuns.KeyOf(calls[place.call]) == place.key.text)
      && forall other | other in s.visits && other != id :: next.visits[other] == s.visits[other]
  {
    hide NextHop, ParseTargetToCid, AppendParts;
  }

  lemma {:induction false} OthersStaySound(s: State, lib: Lib, more: Caches)
    requires Extended(s.caches, more) && forall id | id in s.visits :: VisitSound(lib, s.caches, s.visits[id])
    ensures forall id | id in s.visits :: VisitSound(lib, more, s.visits[id])
  {
    hide VisitSound, Extended;
    forall id | id in s.visits ensures VisitSound(lib, more, s.visits[id]) {
      StaysSound(lib, s.caches, more, s.visits[id]);
    }
  }

  /** A hop leaves the same to be answered. */
  lemma {:induction false} HopRemains(s: State, lib: Lib, ttls: Lifetimes, id: nat, call: nat)
    requires id in s.visits && s.visits[id].place.At?
    ensures var visit, next := s.visits[id], HopOn(s, lib, ttls, id, call);
      && id in next.visits && next.visits[id] == visit.(place := next.visits[id].place)
      && forall gets: nat -> Lookup ::
           Remaining(lib, gets, |visit.found|, visit.place)
           == Remaining(lib, gets, |visit.found|, next.visits[id].place)
  {
    hide NextHop, ParseTargetToCid, CacheRuns.Step, AppendParts;
  }

  lemma {:induction false} ReturnKeeps(s: State, lib: Lib, ttls: Lifetimes, worlds: Worlds, id: nat)
    requires Invariant(s, lib, ttls, worlds) && id in s.visits && s.visits[id].place.Waiting?
    ensures Invariant(Receive(s, id), lib, ttls, worlds)
  {
    var visit := s.visits[id];
    var cache := s.caches.Of(visit.place.key.kind);
    if visit.place.call in cache.calls && cache.calls[visit.place.call].Finished? {
      assert CacheSound(lib, visit.place.key.kind, ttls(visit.place.key.kind), worlds(visit.place.key.kind), cache);
      ReceiveSound(lib, s.caches, visit);
      hide VisitSound, CachesSound;
    }
  }

  lemma {:induction false} RunKeeps(
    s: State, lib: Lib, ttls: Lifetimes, worlds: Worlds, events: seq<Event>)
    requires Invariant(s, lib, ttls, worlds) && AllTruthful(s, lib, ttls, worlds, events)
    ensures Invariant(Run(s, lib, ttls, events), lib, ttls, worlds)
    decreases |events|
  {
    hide Invariant, Step, Truthful;
    if events != [] {
      StepKeeps(s, lib, ttls, worlds, events[0]);
      RunKeeps(Step(s, lib, ttls, events[0]), lib, ttls, worlds, events[1..]);
    }
  }

  // ---- What a resolution is told ------------------------------------------------------------

  /** The world in which the call that was made for a hop asked. */
  function WorldOf(worlds: Worlds, keys: seq<Key>, asked: seq<nat>, hop: nat): World {
    if hop < |keys| && hop < |asked| then worlds(keys[hop].kind)(asked[hop]) else worlds(Dns)(0)
  }

  /** Lookups hop by hop, each in the world of the hop's call. */
  function NamesAt(lib: Lib, worlds: Worlds, keys: seq<Key>, asked: seq<nat>): nat -> Lookup {
    (hop: nat) => Names(lib, WorldOf(worlds, keys, asked, hop))
  }

  /** Every resolution in every run, whatever the schedule, the evictions, the other callers
      and the changes to the stores in between: for each of its hops there is a call to the
      hop's cache, such that the resolution answers, errors included, what plain resolution
      answers that looks up each hop's key in the world in which that call asked. */
  lemma {:induction false} EveryResolution(
    lib: Lib, ttls: Lifetimes, worlds: Worlds, events: seq<Event>, id: nat)
    returns (asked: seq<nat>)
    requires AllTruthful(INITIAL, lib, ttls, worlds, events)
    requires var s := Run(INITIAL, lib, ttls, events); id in s.visits && s.visits[id].place.Done?
    ensures var s := Run(INITIAL, lib, ttls, events);
      var visit := s.visits[id];
      && |visit.keys| == |visit.found| == |asked|
      && (forall i | 0 <= i < |asked| ::
            && asked[i] in s.caches.Of(visit.keys[i].kind).calls
            && ValueOf(GetValue(lib, worlds(visit.keys[i].kind)(asked[i]), visit.keys[i])) == visit.found[i])
      && visit.place.answer
         == ResolveChanging(lib, NamesAt(lib, worlds, visit.keys, asked), 0, visit.start, visit.depth, [])
  {
    RunKeeps(INITIAL, lib, ttls, worlds, events);
    var s := Run(INITIAL, lib, ttls, events);
    var visit := s.visits[id];
    hide Run, AllTruthful, ResolveChanging, GetValue, CachesSound, Gave;
    assert VisitSound(lib, s.caches, visit);
    asked := AskedFor(lib, s, ttls, worlds, visit.keys, visit.found);
    assert Agrees(NamesAt(lib, worlds, visit.keys, asked), visit.keys, visit.found);
  }

  /** For every result there is a call in whose world the lookup for the key has it. */
  lemma {:induction false} AskedFor(
    lib: Lib, s: State, ttls: Lifetimes, worlds: Worlds, keys: seq<Key>, found: seq<Result<string, Error>>)
    returns (asked: seq<nat>)
    requires CachesSound(s, lib, ttls, worlds) && |keys| == |found|
    requires forall i | 0 <= i < |found| :: Gave(s.caches, keys[i], found[i])
    ensures |asked| == |found|
    ensures forall i | 0 <= i < |asked| ::
      && asked[i] in s.caches.Of(keys[i].kind).calls
      && ValueOf(GetValue(lib, worlds(keys[i].kind)(asked[i]), keys[i])) == found[i]
  {
    hide CachesSound, Gave, GetValue;
    asked := [];
    for n := 0 to |found|
      invariant |asked| == n
      invariant forall i | 0 <= i < n ::
        && asked[i] in s.caches.Of(keys[i].kind).calls
        && ValueOf(GetValue(lib, worlds(keys[i].kind)(asked[i]), keys[i])) == found[i]
    {
      var call := GivenWasFound(lib, s, ttls, worlds, keys[n], found[n]);
      asked := asked + [call];
    }
  }

  lemma {:induction false} GivenWasFound(
    lib: Lib, s: State, ttls: Lifetimes, worlds: Worlds, key: Key, result: Result<string, Error>)
    returns (call: nat)
    requires CachesSound(s, lib, ttls, worlds) && Gave(s.caches, key, result)
    ensures call in s.caches.Of(key.kind).calls
    ensures ValueOf(GetValue(lib, worlds(key.kind)(call), key)) == result
  {
    hide GetValue;
    var cache := s.caches.Of(key.kind);
    assert CacheSound(lib, key.kind, ttls(key.kind), worlds(key.kind), cache);
    match result
    case Ok(val) =>
      var r :| r in cache.served && r.k == key.text && r.val == val;
      assert CacheRuns.Fresh(cache, ttls(key.kind), r);
      call := CacheRuns.OriginOf(r).call;
    case Err(e) =>
      call :| call in cache.calls && cache.calls[call] == CacheRuns.Finished(key.text, Err(e));
  }

  /** No dead ends in any run: a resolution ends with an unrecognized format exactly when its
      starting name is not resolvable itself, cached values from earlier worlds included. */
  lemma {:induction false} NoDeadEndsInAnyRun(
    lib: Lib, ttls: Lifetimes, worlds: Worlds, events: seq<Event>, id: nat)
    requires CidLaws(lib) && AllTruthful(INITIAL, lib, ttls, worlds, events)
    requires var s := Run(INITIAL, lib, ttls, events); id in s.visits && s.visits[id].place.Done?
    ensures var visit := Run(INITIAL, lib, ttls, events).visits[id];
      visit.place.answer.Unrecognized? <==> !IsResolvable(lib, visit.start)
  {
    var asked := EveryResolution(lib, ttls, worlds, events, id);
    var visit := Run(INITIAL, lib, ttls, events).visits[id];
    hide Run, AllTruthful, GetValue, IsResolvable, CidLaws;
    var gets := NamesAt(lib, worlds, visit.keys, asked);
    forall i: nat, key: Key | gets(i)(key).Ok? ensures IsResolvable(lib, gets(i)(key).value) {
      ValuesAreResolvable(lib, WorldOf(worlds, visit.keys, asked, i), key);
    }
    NoDeadEnds(lib, gets, 0, visit.start, visit.depth, []);
  }

  // ---- Resolutions go on --------------------------------------------------------------------

  function InCacheAll(kind: Kind, steps: seq<CacheRuns.Event>): seq<Event> {
    seq(|steps|, i requires 0 <= i < |steps| => InCache(kind, steps[i]))
  }

  lemma {:induction false} RunInCache(
    s: State, lib: Lib, ttls: Lifetimes, kind: Kind, steps: seq<CacheRuns.Event>, last: Event)
    ensures var cache := CacheRuns.Run(s.caches.Of(kind), ttls(kind), steps);
      Run(s, lib, ttls, InCacheAll(kind, steps) + [last])
      == Step(s.(caches := s.caches.With(kind, cache)), lib, ttls, last)
    decreases |steps|
  {
    hide CacheRuns.Step, HopOn, Receive;
    var events := InCacheAll(kind, steps) + [last];
    if steps == [] {
      assert s.caches.With(kind, s.caches.Of(kind)) == s.caches;
      assert events[1..] == [];
    } else {
      var next := Step(s, lib, ttls, InCache(kind, steps[0]));
      assert events[1..] == InCacheAll(kind, steps[1..]) + [last];
      RunInCache(next, lib, ttls, kind, steps[1..], last);
    }
  }

  /** What a call without an entry goes through, with this answer of the source. */
  function MissSteps(call: nat, answer: Result<Found, Error>): seq<CacheRuns.Event> {
    [CacheRuns.LookIn(call), CacheRuns.Answer(call, answer)]
    + if answer.Ok? then [CacheRuns.ReadClock(call), CacheRuns.Store(call)] else []
  }

  /** A resolution at a name that is looked up, with depth left, can go on: its call asks the
      source when there is no entry, and it goes to the name found, or ends with the error. */
  lemma {:induction false} HopsOn(
    s: State, lib: Lib, ttls: Lifetimes, id: nat, call: nat, answer: Result<Found, Error>)
    requires id in s.visits && s.visits[id].place.At? && s.visits[id].place.left > 0
    requires NextHop(lib, s.visits[id].place.name).Follow?
    requires var key := NextHop(lib, s.visits[id].place.name).key;
      call !in s.caches.Of(key.kind).calls && key.text !in s.caches.Of(key.kind).store
    ensures var visit := s.visits[id];
      var hop := NextHop(lib, visit.place.name);
      var events := [Hop(id, call)] + (InCacheAll(hop.key.kind, MissSteps(call, answer)) + [Return(id)]);
      var t := Run(s, lib, ttls, events);
      && id in t.visits
      && t.visits[id].place ==
           match answer
           case Ok(found) => At(found.val, visit.place.left - 1, AppendParts(hop.rest, visit.place.apnd))
           case Err(e) => Done(LookupFailed(e))
  {
    var visit := s.visits[id];
    var hop := NextHop(lib, visit.place.name);
    var key := hop.key;
    var kind, ttl, cache, steps := key.kind, ttls(key.kind), s.caches.Of(key.kind), MissSteps(call, answer);
    var rest := InCacheAll(kind, steps) + [Return(id)];
    assert ([Hop(id, call)] + rest)[1..] == rest;
    var hopped := Step(s, lib, ttls, Hop(id, call));
    hide NextHop, ParseTargetToCid, CacheRuns.Run, CacheRuns.Step;
    RunInCache(hopped, lib, ttls, kind, steps, Return(id));
    MissReturns(cache, ttl, call, key.text, answer);
    var after := CacheRuns.Run(hopped.caches.Of(kind), ttl, steps);
    OnlyOne(s.caches, kind, hopped.caches.Of(kind));
    OnlyOne(hopped.caches, kind, after);
  }

  lemma {:induction false} MissReturns(
    c: CacheRuns.State, ttl: int, call: nat, k: string, answer: Result<Found, Error>)
    requires call !in c.calls && k !in c.store
    ensures var started := CacheRuns.Step(c, ttl, CacheRuns.Start(call, k));
      var t := CacheRuns.Run(started, ttl, MissSteps(call, answer));
      call in t.calls && t.calls[call] == CacheRuns.Finished(k, ValueOf(answer))
  {
    var started := CacheRuns.Step(c, ttl, CacheRuns.Start(call, k));
    var asks := [CacheRuns.LookIn(call), CacheRuns.Answer(call, answer)];
    CacheRuns.MissAsks(c, ttl, call, k, answer);
    CacheRuns.RunOne(c, ttl, [CacheRuns.Start(call, k), CacheRuns.LookIn(call), CacheRuns.Answer(call, answer)]);
    assert [CacheRuns.Start(call, k), CacheRuns.LookIn(call), CacheRuns.Answer(call, answer)][1..] == asks;
    var asked := CacheRuns.Run(started, ttl, asks);
    hide CacheRuns.Run, CacheRuns.Step;
    match answer
    case Err(e) =>
      assert MissSteps(call, answer) == asks;
    case Ok(found) =>
      var stores := [CacheRuns.ReadClock(call), CacheRuns.Store(call)];
      CacheRuns.RunConcat(started, ttl, asks, stores);
      CacheRuns.AnswerIsStored(asked, ttl, call, CacheRuns.Fetch(call, k, found.val, found.eol, c.clock));
  }

  /** A resolution at a name that is not looked up, or without depth left, ends. */
  lemma {:induction false} HopEnds(s: State, lib: Lib, ttls: Lifetimes, id: nat, call: nat)
    requires id in s.visits && s.visits[id].place.At?
    requires !NextHop(lib, s.visits[id].place.name).Follow? || s.visits[id].place.left == 0
    ensures var t := Step(s, lib, ttls, Hop(id, call)); id in t.visits && t.visits[id].place.Done?
  {
    hide NextHop, ParseTargetToCid, CacheRuns.Step;
  }
}
