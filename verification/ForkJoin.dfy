/** Fetching two things at once: two goroutines each fetch, write their result to a
    captured variable and send on one channel; the caller receives twice and gives up at
    the first error (record/cert.go getCerts, resolver/ipns.go GetValue). */
module ForkJoin {
  import opened Wrappers
  import opened Library
  import Text
  import opened Sources

  /** Where a goroutine stands: before its fetch, before writing the fetched value, before
      sending (an error, or nil), or finished. */
  datatype Stage<+T> = Fetching | Writing(value: T) | Sending(message: Option<Error>) | Sent

  datatype Join<+A, +B> = Waiting(received: nat) | Returned(result: Result<(Option<A>, Option<B>), Error>)

  /** The two goroutines, the captured variables (None is nil), the channel and the
      caller. */
  datatype State<+A, +B> = State(
    left: Stage<A>, right: Stage<B>, leftVar: Option<A>, rightVar: Option<B>,
    channel: seq<Option<Error>>, main: Join<A, B>)

  /** Who takes the next step. */
  datatype Who = Left | Right | Main

  const CAPACITY: nat := 2

  function Start<A, B>(): State<A, B> {
    State(Fetching, Fetching, None, None, [], Waiting(0))
  }

  function Fetched<T>(outcome: Result<T, Error>): Stage<T> {
    match outcome case Ok(value) => Writing(value) case Err(e) => Sending(Some(e))
  }

  /** One step, with what the two fetches come back with. A sender on a full channel and
      a receiver on an empty one do not move. */
  function Step<A, B>(s: State<A, B>, a: Result<A, Error>, b: Result<B, Error>, who: Who): State<A, B> {
    match who
    case Left =>
      (match s.left
       case Fetching => s.(left := Fetched(a))
       case Writing(value) => s.(left := Sending(None), leftVar := Some(value))
       case Sending(message) =>
         if |s.channel| < CAPACITY then s.(left := Sent, channel := s.channel + [message]) else s
       case Sent => s)
    case Right =>
      (match s.right
       case Fetching => s.(right := Fetched(b))
       case Writing(value) => s.(right := Sending(None), rightVar := Some(value))
       case Sending(message) =>
         if |s.channel| < CAPACITY then s.(right := Sent, channel := s.channel + [message]) else s
       case Sent => s)
    case Main =>
      match s.main
      case Returned(_) => s
      case Waiting(received) =>
        if s.channel == [] then s
        else
          var rest := s.(channel := s.channel[1..]);
          match s.channel[0]
          case Some(e) => rest.(main := Returned(Err(e)))
          case None =>
            if received + 1 < 2 then rest.(main := Waiting(received + 1))
            else rest.(main := Returned(Ok((s.leftVar, s.rightVar))))
  }

  function Run<A, B>(s: State<A, B>, a: Result<A, Error>, b: Result<B, Error>, schedule: seq<Who>): State<A, B>
    decreases |schedule|
  {
    if schedule == [] then s else Run(Step(s, a, b, schedule[0]), a, b, schedule[1..])
  }

  function SentCount<A, B>(s: State<A, B>): nat {
    (if s.left.Sent? then 1 else 0) + (if s.right.Sent? then 1 else 0)
  }

  function FailureOf<T>(outcome: Result<T, Error>): Option<Error> {
    match outcome case Ok(_) => None case Err(e) => Some(e)
  }

  ghost predicate StageFits<T(!new)>(stage: Stage<T>, captured: Option<T>, outcome: Result<T, Error>) {
    match stage
    case Fetching => captured.None?
    case Writing(value) => captured.None? && outcome == Ok(value)
    case Sending(message) => message == FailureOf(outcome) && (outcome.Ok? ==> captured == Some(outcome.value))
    case Sent => outcome.Ok? ==> captured == Some(outcome.value)
  }

  /** Every message on the channel was sent by a goroutine that is finished, and what the
      caller has received and what is still on the channel add up to what was sent. */
  ghost predicate Invariant<A(!new), B(!new)>(s: State<A, B>, a: Result<A, Error>, b: Result<B, Error>) {
    && StageFits(s.left, s.leftVar, a) && StageFits(s.right, s.rightVar, b)
    && |s.channel| <= SentCount(s)
    && (forall i | 0 <= i < |s.channel| && s.channel[i].Some? ::
          (s.left.Sent? && s.channel[i] == FailureOf(a)) || (s.right.Sent? && s.channel[i] == FailureOf(b)))
    && match s.main
       case Waiting(received) =>
         && received < 2 && received + |s.channel| == SentCount(s)
         // a failure that was sent has not been received
         && (s.left.Sent? && a.Err? ==> FailureOf(a) in s.channel)
         && (s.right.Sent? && b.Err? ==> FailureOf(b) in s.channel)
       case Returned(Ok((x, y))) => a.Ok? && b.Ok? && x == Some(a.value) && y == Some(b.value)
       case Returned(Err(e)) => FailureOf(a) == Some(e) || FailureOf(b) == Some(e)
  }

  lemma {:induction false} StepKeeps<A(!new), B(!new)>(
    s: State<A, B>, a: Result<A, Error>, b: Result<B, Error>, who: Who)
    requires Invariant(s, a, b)
    ensures Invariant(Step(s, a, b, who), a, b)
  {
    match who
    case Left => LeftKeeps(s, a, b);
    case Right => RightKeeps(s, a, b);
    case Main => MainKeeps(s, a, b);
  }

  lemma LeftKeeps<A(!new), B(!new)>(s: State<A, B>, a: Result<A, Error>, b: Result<B, Error>)
    requires Invariant(s, a, b)
    ensures Invariant(Step(s, a, b, Left), a, b)
  {
  }

  lemma RightKeeps<A(!new), B(!new)>(s: State<A, B>, a: Result<A, Error>, b: Result<B, Error>)
    requires Invariant(s, a, b)
    ensures Invariant(Step(s, a, b, Right), a, b)
  {
  }

  lemma MainKeeps<A(!new), B(!new)>(s: State<A, B>, a: Result<A, Error>, b: Result<B, Error>)
    requires Invariant(s, a, b)
    ensures Invariant(Step(s, a, b, Main), a, b)
  {
  }

  lemma {:induction false} RunKeeps<A(!new), B(!new)>(
    s: State<A, B>, a: Result<A, Error>, b: Result<B, Error>, schedule: seq<Who>)
    requires Invariant(s, a, b)
    ensures Invariant(Run(s, a, b, schedule), a, b)
    decreases |schedule|
  {
    if schedule != [] {
      StepKeeps(s, a, b, schedule[0]);
      RunKeeps(Step(s, a, b, schedule[0]), a, b, schedule[1..]);
    }
  }

  function StagesLeft<T>(stage: Stage<T>): nat {
    match stage case Fetching => 3 case Writing(_) => 2 case Sending(_) => 1 case Sent => 0
  }

  /** The steps that are still to come, at most. */
  function StepsLeft<A, B>(s: State<A, B>): nat {
    StagesLeft(s.left) + StagesLeft(s.right)
    + match s.main case Waiting(received) => if received < 2 then 2 - received else 1 case Returned(_) => 0
  }

  lemma {:induction false} EveryMoveCounts<A(!new), B(!new)>(
    s: State<A, B>, a: Result<A, Error>, b: Result<B, Error>, who: Who)
    requires Invariant(s, a, b)
    ensures Step(s, a, b, who) == s || StepsLeft(Step(s, a, b, who)) < StepsLeft(s)
    ensures StepsLeft(s) <= 8
  {
  }

  ghost predicate Quiet<A(!new), B(!new)>(s: State<A, B>, a: Result<A, Error>, b: Result<B, Error>) {
    forall who :: Step(s, a, b, who) == s
  }

  /** Fork-join independence: under every schedule, a returned pair holds the two fetched
      values in their places, a returned error is one of the fetches' errors, and no
      goroutine ever waits to send. When nobody can move any more, the caller has
      returned, with the pair if and only if both fetches succeeded, and both goroutines
      have finished; and every move brings that nearer. */
  lemma {:induction false} EverySchedule<A(!new), B(!new)>(
    a: Result<A, Error>, b: Result<B, Error>, schedule: seq<Who>)
    ensures var s := Run(Start(), a, b, schedule);
      && (s.main.Returned? && s.main.result.Ok? ==>
            a.Ok? && b.Ok? && s.main.result.value == (Some(a.value), Some(b.value)))
      && (s.main.Returned? && s.main.result.Err? ==>
            FailureOf(a) == Some(s.main.result.error) || FailureOf(b) == Some(s.main.result.error))
      && (s.left.Sending? || s.right.Sending? ==> |s.channel| < CAPACITY)
      && (Quiet(s, a, b) ==>
            && s.main.Returned? && s.left.Sent? && s.right.Sent?
            && (s.main.result.Ok? <==> a.Ok? && b.Ok?))
      && (forall who :: Step(s, a, b, who) == s || StepsLeft(Step(s, a, b, who)) < StepsLeft(s))
  {
    RunKeeps(Start(), a, b, schedule);
    var s := Run(Start(), a, b, schedule);
    forall who ensures Step(s, a, b, who) == s || StepsLeft(Step(s, a, b, who)) < StepsLeft(s) {
      EveryMoveCounts(s, a, b, who);
    }
    if Quiet(s, a, b) {
      QuietIsDone(s, a, b);
    }
  }

  lemma {:induction false} QuietIsDone<A(!new), B(!new)>(
    s: State<A, B>, a: Result<A, Error>, b: Result<B, Error>)
    requires Invariant(s, a, b) && Quiet(s, a, b)
    ensures s.main.Returned? && s.left.Sent? && s.right.Sent?
    ensures s.main.result.Ok? <==> a.Ok? && b.Ok?
  {
    assert Step(s, a, b, Left) == s && Step(s, a, b, Right) == s && Step(s, a, b, Main) == s;
    assert s.left.Sent? && s.right.Sent?;
    assert s.main.Waiting? && s.channel != [] ==> |Step(s, a, b, Main).channel| < |s.channel|;
  }

  /** getCerts under every schedule, once it has returned: both certificates in the right
      places if both can be fetched, and an error otherwise. */
  lemma {:induction false} GetCertsUnderEverySchedule(
    lib: Lib, w: World, certCid: Cid, issuerCid: Cid, schedule: seq<Who>)
    requires Run(Start(), GetCertificate(lib, w, certCid), GetCertificate(lib, w, issuerCid), schedule).main.Returned?
    ensures var a, b := GetCertificate(lib, w, certCid), GetCertificate(lib, w, issuerCid);
      var result := Run(Start(), a, b, schedule).main.result;
      && (result.Ok? <==> GetCerts(lib, w, certCid, issuerCid).Ok?)
      && (result.Ok? ==> result.value == (Some(GetCerts(lib, w, certCid, issuerCid).value.0),
                                          Some(GetCerts(lib, w, certCid, issuerCid).value.1)))
  {
    EverySchedule(GetCertificate(lib, w, certCid), GetCertificate(lib, w, issuerCid), schedule);
  }

  /** The IPNS lookup under every schedule, once both fetches are joined: what is checked
      is the fetched entry with the fetched key. */
  lemma {:induction false} IpnsUnderEverySchedule(lib: Lib, w: World, c: Cid, k: string, schedule: seq<Who>)
    requires |Text.Split(k, '/')| >= 3 && lib.cidDecode(Text.Split(k, '/')[2]) == Some(c)
    requires Run(Start(), FetchEntry(lib, w, c), FetchPublicKey(lib, w, c), schedule).main.Returned?
    ensures match Run(Start(), FetchEntry(lib, w, c), FetchPublicKey(lib, w, c), schedule).main.result
      case Err(_) => IpnsGetValue(lib, w, k).Err?
      case Ok((entry, pk)) =>
        entry.Some? && pk.Some? && IpnsGetValue(lib, w, k) == CheckEntry(lib, entry.value, pk.value)
  {
    EverySchedule(FetchEntry(lib, w, c), FetchPublicKey(lib, w, c), schedule);
  }
}
