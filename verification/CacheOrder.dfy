/** When a cache serves a key's values in the order in which the source gave them
    (resolver/cache.go): exactly when no call for the key starts while another is under
    way. */
module CacheOrder {
  import opened Wrappers
  import opened Library
  import opened Dispatch
  import opened Sources
  import opened CacheRuns

  /** No value served for the key is older than one served for it before. */
  ghost predicate InOrder(served: seq<Served>, k: string) {
    forall i, j | 0 <= i < j < |served| && served[i].k == k && served[j].k == k ::
      OriginOf(served[i]).at <= OriginOf(served[j]).at
  }

  /** The call is for this key and has not returned. */
  predicate UnderWay(s: State, call: nat, k: string) {
    call in s.calls && !s.calls[call].Finished? && KeyOf(s.calls[call]) == k
  }

  ghost predicate Idle(s: State, k: string) {
    forall call :: !UnderWay(s, call, k)
  }

  predicate Opens(s: State, e: Event, k: string) {
    e.Start? && e.k == k && e.call !in s.calls
  }

  /** Calls for the key start only when none is under way. */
  ghost predicate OneAtATime(s: State, ttl: int, k: string, events: seq<Event>)
    decreases |events|
  {
    events != [] ==>
      (Opens(s, events[0], k) ==> Idle(s, k)) && OneAtATime(Step(s, ttl, events[0]), ttl, k, events[1..])
  }

  // ---- One at a time keeps the order ---------------------------------------------------

  ghost predicate NoneNewer(s: State, k: string, at: int) {
    forall r | r in s.served && r.k == k :: OriginOf(r).at <= at
  }

  ghost predicate StageOrdered(s: State, k: string, stage: Stage) {
    match stage
    case Checking(_, slot) => NoneNewer(s, k, slot.origin.at) && (k in s.store ==> s.store[k] == slot)
    case Stamping(fetch) => NoneNewer(s, k, fetch.at)
    case Storing(slot) => NoneNewer(s, k, slot.origin.at)
    case _ => true
  }

  ghost predicate Ordered(s: State, k: string) {
    && InOrder(s.served, k) && NoneNewer(s, k, s.clock)
    && (forall a, b | UnderWay(s, a, k) && UnderWay(s, b, k) :: a == b)
    && (k in s.store ==> s.store[k].origin.k == k && NoneNewer(s, k, s.store[k].origin.at))
    && (forall call | UnderWay(s, call, k) :: StageOrdered(s, k, s.calls[call]))
  }

  lemma {:induction false} ServeInOrder(served: seq<Served>, k: string, r: Served)
    requires InOrder(served, k)
    requires r.k == k ==> forall q | q in served && q.k == k :: OriginOf(q).at <= OriginOf(r).at
    ensures InOrder(served + [r], k)
  {
    var longer := served + [r];
    forall i, j | 0 <= i < j < |longer| && longer[i].k == k && longer[j].k == k
      ensures OriginOf(longer[i]).at <= OriginOf(longer[j]).at
    {
      assert longer[i] in served;
    }
  }

  lemma {:induction false} StillUnderWay(s: State, ttl: int, k: string, e: Event, call: nat)
    requires UnderWay(Step(s, ttl, e), call, k) && Invariant(s, ttl)
    ensures UnderWay(s, call, k) || (Opens(s, e, k) && call == e.call)
  {
  }

  /** What a step serves for the key is not older than anything served for it before. */
  lemma {:induction false} StepServes(s: State, ttl: int, k: string, e: Event)
    requires Invariant(s, ttl) && Ordered(s, k)
    ensures var next := Step(s, ttl, e);
      && InOrder(next.served, k) && NoneNewer(next, k, next.clock)
      && (next.served == s.served
          || (exists r ::
                && next.served == s.served + [r] && next.clock == s.clock
                && (r.k == k ==> UnderWay(s, e.call, k) && NoneNewer(s, k, OriginOf(r).at))))
  {
    var next := Step(s, ttl, e);
    if |next.served| > |s.served| {
      var r := next.served[|s.served|];
      assert next.served == s.served + [r];
      assert r.k == k ==> UnderWay(s, e.call, k);
      ServeInOrder(s.served, k, r);
    }
  }

  lemma {:induction false} StepStores(s: State, ttl: int, k: string, e: Event)
    requires Invariant(s, ttl) && Ordered(s, k)
    ensures var next := Step(s, ttl, e);
      k in next.store ==> next.store[k].origin.k == k && NoneNewer(next, k, next.store[k].origin.at)
  {
    var next := Step(s, ttl, e);
    if k in next.store && |next.served| > |s.served| {
      var r := next.served[|s.served|];
      assert next.served == s.served + [r];
      assert r.k == k ==> UnderWay(s, e.call, k) && StageOrdered(s, k, s.calls[e.call]);
    }
  }

  /** Another call for the key, one at a time, has nothing to say. */
  lemma {:induction false} StepStages(s: State, ttl: int, k: string, e: Event, call: nat)
    requires Invariant(s, ttl) && Ordered(s, k)
    requires Opens(s, e, k) ==> Idle(s, k)
    requires UnderWay(Step(s, ttl, e), call, k)
    ensures StageOrdered(Step(s, ttl, e), k, Step(s, ttl, e).calls[call])
  {
    StillUnderWay(s, ttl, k, e, call);
    StepServes(s, ttl, k, e);
    if UnderWay(s, call, k) {
      StageKept(s, ttl, k, e, call);
    }
  }

  predicate IsStepOf(e: Event, call: nat) {
    !e.Tick? && !e.Evict? && e.call == call
  }

  lemma {:induction false} OwnStage(s: State, ttl: int, k: string, e: Event, call: nat)
    requires Invariant(s, ttl) && Ordered(s, k) && IsStepOf(e, call)
    requires UnderWay(s, call, k) && UnderWay(Step(s, ttl, e), call, k)
    ensures StageOrdered(Step(s, ttl, e), k, Step(s, ttl, e).calls[call])
  {
    hide InOrder;
    assert StageOrdered(s, k, s.calls[call]);
    assert Step(s, ttl, e).served == s.served;
  }

  /** A step that is not the call's own touches neither the call nor, in its place, the key. */
  lemma {:induction false} OthersStep(s: State, ttl: int, k: string, e: Event, call: nat)
    requires Invariant(s, ttl) && Ordered(s, k) && !IsStepOf(e, call) && UnderWay(s, call, k)
    ensures var next := Step(s, ttl, e);
      && call in next.calls && next.calls[call] == s.calls[call]
      && (k in next.store ==> k in s.store && next.store[k] == s.store[k])
  {
    assert forall other | UnderWay(s, other, k) :: other == call;
    OnlyStoreReplaces(s, ttl, k, e);
    hide InOrder, NoneNewer, StageOrdered, Invariant;
  }

  /** A key's entry is only replaced by a call for the key that stores its answer. */
  lemma OnlyStoreReplaces(s: State, ttl: int, k: string, e: Event)
    ensures var next := Step(s, ttl, e);
      k in next.store && !(k in s.store && next.store[k] == s.store[k]) ==> e.Store? && UnderWay(s, e.call, k)
  {
  }

  lemma {:induction false} StageKept(s: State, ttl: int, k: string, e: Event, call: nat)
    requires Invariant(s, ttl) && Ordered(s, k)
    requires UnderWay(s, call, k) && UnderWay(Step(s, ttl, e), call, k)
    ensures StageOrdered(Step(s, ttl, e), k, Step(s, ttl, e).calls[call])
  {
    if IsStepOf(e, call) {
      OwnStage(s, ttl, k, e, call);
    } else {
      OthersStep(s, ttl, k, e, call);
      StepServes(s, ttl, k, e);
      assert StageOrdered(s, k, s.calls[call]);
      hide Step, Invariant;
    }
  }

  lemma {:induction false} StepOrdered(s: State, ttl: int, k: string, e: Event)
    requires Invariant(s, ttl) && Ordered(s, k)
    requires Opens(s, e, k) ==> Idle(s, k)
    ensures Ordered(Step(s, ttl, e), k)
  {
    var next := Step(s, ttl, e);
    StepServes(s, ttl, k, e);
    StepStores(s, ttl, k, e);
    forall a, b | UnderWay(next, a, k) && UnderWay(next, b, k) ensures a == b {
      StillUnderWay(s, ttl, k, e, a);
      StillUnderWay(s, ttl, k, e, b);
    }
    forall call | UnderWay(next, call, k) ensures StageOrdered(next, k, next.calls[call]) {
      StepStages(s, ttl, k, e, call);
    }
    hide Step, Invariant, StageOrdered, InOrder, NoneNewer;
  }

  lemma {:induction false} OneAtATimeKeeps(s: State, ttl: int, k: string, events: seq<Event>)
    requires Invariant(s, ttl) && Ordered(s, k) && OneAtATime(s, ttl, k, events)
    ensures Invariant(Run(s, ttl, events), ttl) && Ordered(Run(s, ttl, events), k)
    decreases |events|
  {
    hide Step, Invariant, Ordered;
    if events != [] {
      StepOrdered(s, ttl, k, events[0]);
      StepKeepsInvariant(s, ttl, events[0]);
      OneAtATimeKeeps(Step(s, ttl, events[0]), ttl, k, events[1..]);
    }
  }

  // ---- Two at once can lose it -----------------------------------------------------------

  /** What the source has for each call that asks. */
  type Answers = nat -> Found

  /** Nothing starts, and the source answers only these calls, with what it has for them. */
  ghost predicate Scripted(events: seq<Event>, callers: set<nat>, answers: Answers) {
    forall i | 0 <= i < |events| ::
      && !events[i].Start?
      && (events[i].Answer? ==> events[i].call in callers && events[i].answer == Ok(answers(events[i].call)))
  }

  lemma {:induction false} ScriptedOneAtATime(
    s: State, ttl: int, k: string, events: seq<Event>, callers: set<nat>, answers: Answers)
    requires Scripted(events, callers, answers)
    ensures OneAtATime(s, ttl, k, events)
    decreases |events|
  {
    if events != [] {
      assert Scripted(events[1..], callers, answers);
      ScriptedOneAtATime(Step(s, ttl, events[0]), ttl, k, events[1..], callers, answers);
    }
  }

  function StagesLeft(stage: Stage): nat {
    match stage
    case Looking(_) => 6
    case Checking(_, _) => 5
    case Removing(_) => 4
    case Asking(_) => 3
    case Stamping(_) => 2
    case Storing(_) => 1
    case Finished(_, _) => 0
  }

  /** A step that a call can take towards asking the source and storing its answer, once the
      entry it looked at has expired. */
  function Onward(call: nat, stage: Stage, found: Found): Event {
    match stage
    case Looking(_) => LookIn(call)
    case Checking(_, _) => CheckTime(call)
    case Removing(_) => RemoveEntry(call)
    case Asking(_) => Answer(call, Ok(found))
    case Stamping(_) => ReadClock(call)
    case Storing(_) => Store(call)
    case Finished(_, _) => Tick(0)
  }

  /** Every call under way can be brought to the point of storing an answer, while nothing is
      served and the other calls stand still; the answer is a new one unless it had one. */
  lemma {:induction false} CanReachStoring(s: State, ttl: int, k: string, call: nat, answers: Answers)
    returns (events: seq<Event>, slot: Slot)
    requires Invariant(s, ttl) && UnderWay(s, call, k)
    ensures Scripted(events, {call}, answers)
    ensures var t := Run(s, ttl, events);
      && t.calls == s.calls[call := Storing(slot)] && t.served == s.served && s.clock <= t.clock
      && slot.origin.k == k && slot.origin.at <= t.clock && Invariant(t, ttl)
    ensures match s.calls[call]
      case Stamping(fetch) => slot.origin == fetch
      case Storing(ready) => slot == ready
      case _ => s.clock <= slot.origin.at
    decreases StagesLeft(s.calls[call])
  {
    var stage := s.calls[call];
    if stage.Storing? {
      events, slot := [], stage.slot;
      assert s.calls == s.calls[call := stage];
      return;
    }
    var wait := WaitFor(s, stage);
    var onward := Onward(call, stage, answers(call));
    GoesOnward(s, ttl, k, call, answers(call));
    var next := Step(Step(s, ttl, wait), ttl, onward);
    hide Step, Invariant, Run;
    var rest;
    rest, slot := CanReachStoring(next, ttl, k, call, answers);
    events := [wait, onward] + rest;
    RunTwo(s, ttl, wait, onward, rest);
    assert next.calls[call := Storing(slot)] == s.calls[call := Storing(slot)];
  }

  /** Long enough for the entry a call has looked at to expire. */
  function WaitFor(s: State, stage: Stage): Event {
    Tick(if stage.Checking? && s.clock < stage.slot.till then stage.slot.till - s.clock else 0)
  }

  lemma {:induction false} GoesOnward(s: State, ttl: int, k: string, call: nat, found: Found)
    requires Invariant(s, ttl) && UnderWay(s, call, k) && !s.calls[call].Storing?
    ensures var stage := s.calls[call];
      var next := Step(Step(s, ttl, WaitFor(s, stage)), ttl, Onward(call, stage, found));
      && Invariant(next, ttl) && UnderWay(next, call, k) && s.clock <= next.clock && next.served == s.served
      && next.calls == s.calls[call := next.calls[call]]
      && StagesLeft(next.calls[call]) < StagesLeft(stage)
      && match next.calls[call]
         case Stamping(fetch) => s.clock <= fetch.at
         case Storing(ready) => stage.Stamping? && ready.origin == stage.fetch
         case _ => true
  {
    var stage := s.calls[call];
    var waited := Step(s, ttl, WaitFor(s, stage));
    StepKeepsInvariant(s, ttl, WaitFor(s, stage));
    StepKeepsInvariant(waited, ttl, Onward(call, stage, found));
    hide Invariant;
    assert Invariant(s, ttl) && waited.calls == s.calls;
  }

  lemma RunTwo(s: State, ttl: int, a: Event, b: Event, rest: seq<Event>)
    ensures Run(s, ttl, [a, b] + rest) == Run(Step(Step(s, ttl, a), ttl, b), ttl, rest)
  {
    hide Step;
    assert ([a, b] + rest)[1..] == [b] + rest && ([b] + rest)[1..] == rest;
  }

  /** Two calls that each have an answer return them in the order in which they store. */
  lemma {:induction false} LastToStore(s: State, ttl: int, first: nat, last: nat, k: string)
    requires first in s.calls && last in s.calls && first != last
    requires s.calls[first].Storing? && s.calls[last].Storing?
    requires s.calls[first].slot.origin.k == k && s.calls[last].slot.origin.k == k
    requires s.calls[last].slot.origin.at < s.calls[first].slot.origin.at
    ensures !InOrder(Run(s, ttl, [Store(first), Store(last)]).served, k)
  {
    var a, b := s.calls[first].slot, s.calls[last].slot;
    RunTwo(s, ttl, Store(first), Store(last), []);
    assert [Store(first), Store(last)] + [] == [Store(first), Store(last)];
    var next := Step(s, ttl, Store(first));
    var end := Step(next, ttl, Store(last));
    var n := |s.served|;
    assert next.served == s.served + [Direct(first, k, a.val, a.origin)];
    assert end.served == next.served + [Direct(last, k, b.val, b.origin)];
    assert end.served[n] == Direct(first, k, a.val, a.origin) && end.served[n + 1] == Direct(last, k, b.val, b.origin);
  }

  /** A call under way can return an older answer after one that is only looking in the
      store has returned a newer one, whatever the source has for the two. */
  lemma {:induction false} CanBeOvertaken(
    s: State, ttl: int, k: string, slow: nat, fast: nat, answers: Answers)
    returns (events: seq<Event>)
    requires Invariant(s, ttl) && slow != fast
    requires UnderWay(s, slow, k) && fast in s.calls && s.calls[fast] == Looking(k)
    ensures Scripted(events, {slow, fast}, answers) && !InOrder(Run(s, ttl, events).served, k)
  {
    var a, older := CanReachStoring(s, ttl, k, slow, answers);
    var t := Run(s, ttl, a);
    var u := Step(t, ttl, Tick(1));
    StepKeepsInvariant(t, ttl, Tick(1));
    var b, newer := CanReachStoring(u, ttl, k, fast, answers);
    var v := Run(u, ttl, b);
    hide Run, Step, Invariant, Scripted;
    LastToStore(v, ttl, fast, slow, k);
    ScriptedParts(a, b, slow, fast, answers);
    var stores := [Store(fast), Store(slow)];
    events := a + ([Tick(1), Tick(0)] + (b + stores));
    RunConcat(s, ttl, a, [Tick(1), Tick(0)] + (b + stores));
    RunTwo(t, ttl, Tick(1), Tick(0), b + stores);
    TickZero(u, ttl);
    RunConcat(u, ttl, b, stores);
  }

  lemma ScriptedParts(a: seq<Event>, b: seq<Event>, slow: nat, fast: nat, answers: Answers)
    requires Scripted(a, {slow}, answers) && Scripted(b, {fast}, answers)
    ensures Scripted(a + ([Tick(1), Tick(0)] + (b + [Store(fast), Store(slow)])), {slow, fast}, answers)
  {
  }

  lemma TickZero(s: State, ttl: int)
    ensures Step(s, ttl, Tick(0)) == s
  {
  }

  // ---- Exactly ---------------------------------------------------------------------------

  /** Freshness is monotone in every run in which calls for the key start one at a time,
      whatever the evictions, the clock and the answers, cache hits included. */
  lemma {:induction false} OneAtATimeIsInOrder(ttl: int, k: string, events: seq<Event>)
    requires OneAtATime(INITIAL, ttl, k, events)
    ensures InOrder(Run(INITIAL, ttl, events).served, k)
  {
    OneAtATimeKeeps(INITIAL, ttl, k, events);
  }

  /** After a run with one call at a time, starting a call keeps the order in every such
      continuation if and only if no call for the key is under way. */
  lemma {:induction false} StartKeepsOrderExactly(ttl: int, k: string, before: seq<Event>, call: nat)
    requires OneAtATime(INITIAL, ttl, k, before)
    requires call !in Run(INITIAL, ttl, before).calls
    ensures var s := Run(INITIAL, ttl, before);
      var started := Step(s, ttl, Start(call, k));
      Idle(s, k) <==>
        forall after: seq<Event> | OneAtATime(started, ttl, k, after) :: InOrder(Run(started, ttl, after).served, k)
  {
    OneAtATimeKeeps(INITIAL, ttl, k, before);
    var s := Run(INITIAL, ttl, before);
    var started := Step(s, ttl, Start(call, k));
    StepKeepsInvariant(s, ttl, Start(call, k));
    if Idle(s, k) {
      IdleStart(s, ttl, k, call);
    } else {
      var slow :| UnderWay(s, slow, k);
      var answers := (_: nat) => Found("", None);
      var after := CanBeOvertaken(started, ttl, k, slow, call, answers);
      ScriptedOneAtATime(started, ttl, k, after, {slow, call}, answers);
    }
  }

  lemma {:induction false} IdleStart(s: State, ttl: int, k: string, call: nat)
    requires Invariant(s, ttl) && Ordered(s, k) && Idle(s, k)
    ensures var started := Step(s, ttl, Start(call, k));
      forall after: seq<Event> | OneAtATime(started, ttl, k, after) :: InOrder(Run(started, ttl, after).served, k)
  {
    var started := Step(s, ttl, Start(call, k));
    StepKeepsInvariant(s, ttl, Start(call, k));
    StepOrdered(s, ttl, k, Start(call, k));
    forall after: seq<Event> | OneAtATime(started, ttl, k, after)
      ensures InOrder(Run(started, ttl, after).served, k)
    {
      OneAtATimeKeeps(started, ttl, k, after);
    }
  }

  function AnswersOf(lib: Lib, kind: Kind, worlds: nat -> World, k: string): Answers {
    (call: nat) =>
      match GetValue(lib, worlds(call), Key(kind, k))
      case Ok(found) => found
      case Err(_) => Found("", None)
  }

  ghost predicate HasEntry(lib: Lib, kind: Kind, worlds: nat -> World, k: string) {
    forall call: nat :: GetValue(lib, worlds(call), Key(kind, k)).Ok?
  }

  /** Scripted answers are those of the lookup, when the callers are for the key. */
  lemma {:induction false} ScriptedAreLookups(
    lib: Lib, kind: Kind, worlds: nat -> World, s: State, ttl: int, k: string, events: seq<Event>, callers: set<nat>)
    requires HasEntry(lib, kind, worlds, k) && Scripted(events, callers, AnswersOf(lib, kind, worlds, k))
    requires forall call | call in callers :: call in s.calls && KeyOf(s.calls[call]) == k
    ensures AnswersAreLookups(lib, kind, worlds, s, ttl, events)
    decreases |events|
  {
    hide GetValue;
    if events != [] {
      assert Scripted(events[1..], callers, AnswersOf(lib, kind, worlds, k));
      StepExtends(s, ttl, events[0]);
      ScriptedAreLookups(lib, kind, worlds, Step(s, ttl, events[0]), ttl, k, events[1..], callers);
    }
  }

  /** The same in front of a lookup, for a key that has an entry in every world: starting a call
      keeps the order in every continuation with one call at a time in which all answers are
      the lookup's if and only if no call for the key is under way. */
  lemma {:induction false} StartInFrontOfLookupExactly(
    lib: Lib, kind: Kind, worlds: nat -> World, ttl: int, k: string, before: seq<Event>, call: nat)
    requires HasEntry(lib, kind, worlds, k)
    requires OneAtATime(INITIAL, ttl, k, before)
    requires call !in Run(INITIAL, ttl, before).calls
    ensures var s := Run(INITIAL, ttl, before);
      var started := Step(s, ttl, Start(call, k));
      Idle(s, k) <==>
        forall after: seq<Event> |
          OneAtATime(started, ttl, k, after) && AnswersAreLookups(lib, kind, worlds, started, ttl, after) ::
          InOrder(Run(started, ttl, after).served, k)
  {
    hide *;
    OneAtATimeKeeps(INITIAL, ttl, k, before) by { InitiallyOrdered(ttl, k); }
    var s := Run(INITIAL, ttl, before);
    if Idle(s, k) {
      IdleStart(s, ttl, k, call);
    } else {
      var slow := NotIdle(s, k);
      var after := BusyStart(lib, kind, worlds, s, ttl, k, slow, call);
    }
  }

  lemma InitiallyOrdered(ttl: int, k: string)
    ensures Invariant(INITIAL, ttl) && Ordered(INITIAL, k)
  {
  }

  lemma NotIdle(s: State, k: string) returns (call: nat)
    requires !Idle(s, k)
    ensures UnderWay(s, call, k)
  {
    call :| UnderWay(s, call, k);
  }

  lemma {:induction false} BusyStart(
    lib: Lib, kind: Kind, worlds: nat -> World, s: State, ttl: int, k: string, slow: nat, call: nat)
    returns (after: seq<Event>)
    requires HasEntry(lib, kind, worlds, k) && Invariant(s, ttl)
    requires UnderWay(s, slow, k) && call !in s.calls
    ensures var started := Step(s, ttl, Start(call, k));
      && OneAtATime(started, ttl, k, after) && AnswersAreLookups(lib, kind, worlds, started, ttl, after)
      && !InOrder(Run(started, ttl, after).served, k)
  {
    hide *;
    var started := Step(s, ttl, Start(call, k));
    var answers := AnswersOf(lib, kind, worlds, k);
    StartsBeside(s, ttl, k, slow, call);
    after := CanBeOvertaken(started, ttl, k, slow, call, answers);
    ScriptedOneAtATime(started, ttl, k, after, {slow, call}, answers);
    ScriptedAreLookups(lib, kind, worlds, started, ttl, k, after, {slow, call});
  }

  lemma StartsBeside(s: State, ttl: int, k: string, slow: nat, call: nat)
    requires Invariant(s, ttl) && UnderWay(s, slow, k) && call !in s.calls
    ensures var started := Step(s, ttl, Start(call, k));
      && slow != call && Invariant(started, ttl) && UnderWay(started, slow, k)
      && slow in started.calls && KeyOf(started.calls[slow]) == k
      && call in started.calls && started.calls[call] == Looking(k) && KeyOf(started.calls[call]) == k
  {
    StepKeepsInvariant(s, ttl, Start(call, k));
    hide Invariant;
  }
}
