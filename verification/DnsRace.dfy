/** The DNS lookup's two goroutines, one channel each, and the caller that waits for the
    subdomain's answer first (resolver/dns.go). */
module DnsRace {
  import opened Wrappers
  import opened Library
  import opened Sources

  type Outcome = Result<string, Error>

  datatype Worker = Looking | Sending(outcome: Outcome) | Sent

  datatype Caller = AwaitSub | AwaitRoot | Returned(result: Result<Found, Error>)

  datatype State = State(
    sub: Worker, root: Worker, subChannel: seq<Outcome>, rootChannel: seq<Outcome>, caller: Caller)

  /** A goroutine moves, the caller receives, or the caller sees its context done. */
  datatype Event = SubMoves | RootMoves | CallerMoves | Cancel

  const CAPACITY: nat := 1

  const START: State := State(Looking, Looking, [], [], AwaitSub)

  function Receive(outcome: Outcome, otherwise: Caller): Caller {
    match outcome case Ok(path) => Returned(Ok(Found(path, None))) case Err(_) => otherwise
  }

  /** One step, with what the two lookups come back with. */
  function Step(s: State, sub: Outcome, root: Outcome, e: Event): State {
    match e
    case SubMoves =>
      (match s.sub
       case Looking => s.(sub := Sending(sub))
       case Sending(outcome) =>
         if |s.subChannel| < CAPACITY then s.(sub := Sent, subChannel := s.subChannel + [outcome]) else s
       case Sent => s)
    case RootMoves =>
      (match s.root
       case Looking => s.(root := Sending(root))
       case Sending(outcome) =>
         if |s.rootChannel| < CAPACITY then s.(root := Sent, rootChannel := s.rootChannel + [outcome]) else s
       case Sent => s)
    case CallerMoves =>
      (match s.caller
       case Returned(_) => s
       case AwaitSub =>
         if s.subChannel == [] then s
         else s.(subChannel := s.subChannel[1..], caller := Receive(s.subChannel[0], AwaitRoot))
       case AwaitRoot =>
         if s.rootChannel == [] then s
         else s.(rootChannel := s.rootChannel[1..],
                 caller := Receive(s.rootChannel[0], Returned(Err(ResolveFailed)))))
    case Cancel =>
      if s.caller.Returned? then s else s.(caller := Returned(Err(Cancelled)))
  }

  function Run(s: State, sub: Outcome, root: Outcome, events: seq<Event>): State
    decreases |events|
  {
    if events == [] then s else Run(Step(s, sub, root, events[0]), sub, root, events[1..])
  }

  /** The subdomain's answer if it has one, else the domain's own, else a failure. */
  function Preferred(sub: Outcome, root: Outcome): Result<Found, Error> {
    match (sub, root)
    case (Ok(path), _) => Ok(Found(path, None))
    case (Err(_), Ok(path)) => Ok(Found(path, None))
    case (Err(_), Err(_)) => Err(ResolveFailed)
  }

  /** `pending` is whether the caller has yet to receive from this channel. */
  ghost predicate WorkerFits(worker: Worker, channel: seq<Outcome>, outcome: Outcome, pending: bool) {
    match worker
    case Looking => channel == []
    case Sending(o) => o == outcome && channel == []
    case Sent => channel == [outcome] || (channel == [] && !pending)
  }

  /** `cancelled` is whether the caller's context was done at some point. */
  ghost predicate Invariant(s: State, sub: Outcome, root: Outcome, cancelled: bool) {
    && WorkerFits(s.sub, s.subChannel, sub, s.caller.AwaitSub?)
    && WorkerFits(s.root, s.rootChannel, root, !s.caller.Returned?)
    && match s.caller
       case AwaitSub => true
       case AwaitRoot => sub.Err?
       case Returned(result) => result == Preferred(sub, root) || (cancelled && result == Err(Cancelled))
  }

  lemma {:induction false} RunKeeps(s: State, sub: Outcome, root: Outcome, cancelled: bool, events: seq<Event>)
    requires Invariant(s, sub, root, cancelled)
    ensures Invariant(Run(s, sub, root, events), sub, root, cancelled || Cancel in events)
    decreases |events|
  {
    if events != [] {
      var next := Step(s, sub, root, events[0]);
      assert Invariant(next, sub, root, cancelled || events[0] == Cancel);
      RunKeeps(next, sub, root, cancelled || events[0] == Cancel, events[1..]);
      assert events == [events[0]] + events[1..];
    }
  }

  function StagesLeft(worker: Worker): nat {
    match worker case Looking => 2 case Sending(_) => 1 case Sent => 0
  }

  function StepsLeft(s: State): nat {
    StagesLeft(s.sub) + StagesLeft(s.root)
    + match s.caller case AwaitSub => 2 case AwaitRoot => 1 case Returned(_) => 0
  }

  /** Nobody can move by themselves. */
  ghost predicate Quiet(s: State, sub: Outcome, root: Outcome) {
    forall e | e != Cancel :: Step(s, sub, root, e) == s
  }

  /** Under every schedule the lookup returns the preferred answer, or, only if its
      context was done, the cancellation; no goroutine ever waits to send; and when
      nobody can move any more the caller has returned and both goroutines are finished,
      which every move brings nearer. */
  lemma {:induction false} EverySchedule(sub: Outcome, root: Outcome, events: seq<Event>)
    ensures var s := Run(START, sub, root, events);
      && (s.caller.Returned? ==>
            s.caller.result == Preferred(sub, root) || (Cancel in events && s.caller.result == Err(Cancelled)))
      && (s.sub.Sending? ==> |s.subChannel| < CAPACITY)
      && (s.root.Sending? ==> |s.rootChannel| < CAPACITY)
      && (Quiet(s, sub, root) ==> s.caller.Returned? && s.sub.Sent? && s.root.Sent?)
      && (forall e :: Step(s, sub, root, e) == s || StepsLeft(Step(s, sub, root, e)) < StepsLeft(s))
  {
    RunKeeps(START, sub, root, false, events);
    var s := Run(START, sub, root, events);
    if Quiet(s, sub, root) {
      assert Step(s, sub, root, SubMoves) == s && Step(s, sub, root, RootMoves) == s;
      assert Step(s, sub, root, CallerMoves) == s;
    }
  }

  /** Without cancellation DNS GetValue returns, under every schedule, the first entry of
      the "_dnslink" subdomain that parses, else the first of the domain that does, else
      the resolve failure. */
  lemma {:induction false} DnsUnderEverySchedule(lib: Lib, w: World, domain: string, events: seq<Event>)
    requires Cancel !in events
    ensures var sub, root := LookupDomain(lib, w, "_dnslink." + domain), LookupDomain(lib, w, domain);
      var s := Run(START, sub, root, events);
      s.caller.Returned? ==> s.caller.result == DnsGetValue(lib, w, domain)
  {
    EverySchedule(LookupDomain(lib, w, "_dnslink." + domain), LookupDomain(lib, w, domain), events);
  }
}
