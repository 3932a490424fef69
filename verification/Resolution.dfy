/** The recursive walk of Resolver.Resolve (resolver/resolver.go) over a fixed
    environment: what each key resolves to does not change while it runs. */
module Resolution {
  import opened Wrappers
  import opened Text
  import opened Library
  import opened Targets
  import opened Dispatch

  /** What a sub-resolver's GetValue returns for a key. */
  type Lookup = Key -> Result<string, Error>

  datatype Answer =
    | Resolved(cid: Cid, path: seq<string>)
    | Unrecognized(name: string)
    | RecursionLimit
    | LookupFailed(error: Error)
    | Crashed

  function NonEmpty(parts: seq<string>): seq<string> {
    if parts == [] then []
    else (if |parts[0]| > 0 then [parts[0]] else []) + NonEmpty(parts[1..])
  }

  function AppendParts(a1: seq<string>, a2: seq<string>): seq<string> {
    NonEmpty(a1) + NonEmpty(a2)
  }

  function ResolveWithAppendage(lib: Lib, get: Lookup, p: string, depth: nat, apnd: seq<string>): Answer
    decreases depth
  {
    match NextHop(lib, p)
    case NoResolver =>
      (match ParseTargetToCid(lib, p)
       case Some(target) => Resolved(target.cid, AppendParts(target.rest, apnd))
       case None => Unrecognized(p))
    case Panic =>
      if depth == 0 then RecursionLimit else Crashed
    case Follow(key, rest) =>
      if depth == 0 then RecursionLimit
      else match get(key)
        case Err(e) => LookupFailed(e)
        case Ok(name) => ResolveWithAppendage(lib, get, name, depth - 1, AppendParts(rest, apnd))
  }

  function Resolve(lib: Lib, get: Lookup, p: string, depth: nat): Answer {
    ResolveWithAppendage(lib, get, p, depth, [])
  }

  lemma {:induction false} NonEmptyConcat(a: seq<string>, b: seq<string>)
    ensures NonEmpty(a + b) == NonEmpty(a) + NonEmpty(b)
  {
    if a == [] {
      assert a + b == b;
    } else {
      NonEmptyConcat(a[1..], b);
      assert (a + b)[0] == a[0] && (a + b)[1..] == a[1..] + b;
      var first := if |a[0]| > 0 then [a[0]] else [];
      assert first + (NonEmpty(a[1..]) + NonEmpty(b)) == (first + NonEmpty(a[1..])) + NonEmpty(b);
    }
  }

  lemma {:induction false} NonEmptyFixed(a: seq<string>)
    ensures "" !in NonEmpty(a)
    ensures "" !in a ==> NonEmpty(a) == a
  {
    if a != [] {
      NonEmptyFixed(a[1..]);
    }
  }

  /** `kept` is the list of all non-empty segments of `all`, in order: `places` says where each
      of them stands, and nothing else there is non-empty. */
  ghost predicate AllNonEmpty(kept: seq<string>, all: seq<string>, places: seq<nat>) {
    && |places| == |kept|
    && (forall j | 0 <= j < |kept| :: places[j] < |all| && all[places[j]] == kept[j] && kept[j] != "")
    && (forall i, j | 0 <= i < j < |kept| :: places[i] < places[j])
    && (forall i | 0 <= i < |all| && all[i] != "" :: i in places)
  }

  /** The non-empty segments of a list are one list only. */
  lemma {:induction false} AllNonEmptyOnce(
    kept: seq<string>, other: seq<string>, all: seq<string>, places: seq<nat>, others: seq<nat>)
    requires AllNonEmpty(kept, all, places) && AllNonEmpty(other, all, others)
    ensures kept == other
    decreases |all|
  {
    if all != [] {
      var n := |all| - 1;
      LastPlace(kept, all, places);
      LastPlace(other, all, others);
      hide AllNonEmpty;
      if all[n] != "" {
        var m, o := |kept| - 1, |other| - 1;
        AllNonEmptyOnce(kept[..m], other[..o], all[..n], places[..m], others[..o]);
        assert kept == kept[..|kept| - 1] + [all[n]] && other == other[..|other| - 1] + [all[n]];
      } else {
        AllNonEmptyOnce(kept, other, all[..n], places, others);
      }
    }
  }

  lemma {:induction false} LastPlace(kept: seq<string>, all: seq<string>, places: seq<nat>)
    requires AllNonEmpty(kept, all, places) && all != []
    ensures var n, m := |all| - 1, |kept| - 1;
      if all[n] == "" then AllNonEmpty(kept, all[..n], places)
      else m >= 0 && |places| == |kept| && kept[m] == all[n] && AllNonEmpty(kept[..m], all[..n], places[..m])
  {
    var n, m := |all| - 1, |kept| - 1;
    if all[n] != "" {
      assert n in places;
      assert forall i | 0 <= i < m :: places[i] < places[m];
      assert places[m] == n;
      forall i | 0 <= i < n && all[i] != "" ensures i in places[..m] {
        assert i in places;
      }
    }
  }

  lemma {:induction false} NonEmptyKeeps(all: seq<string>) returns (places: seq<nat>)
    ensures AllNonEmpty(NonEmpty(all), all, places)
  {
    if all == [] {
      places := [];
    } else {
      var n := |all| - 1;
      var front := all[..n];
      var before := NonEmptyKeeps(front);
      assert all == front + [all[n]];
      NonEmptyConcat(front, [all[n]]);
      assert NonEmpty([all[n]]) == if all[n] != "" then [all[n]] else [];
      hide NonEmpty;
      places := before + (if all[n] != "" then [n] else []);
      OneMore(NonEmpty(front), front, before, all[n]);
      assert NonEmpty(front) + [] == NonEmpty(front) && before + [] == before;
    }
  }

  lemma {:induction false} OneMore(kept: seq<string>, all: seq<string>, places: seq<nat>, last: string)
    requires AllNonEmpty(kept, all, places)
    ensures last != "" ==> AllNonEmpty(kept + [last], all + [last], places + [|all|])
    ensures last == "" ==> AllNonEmpty(kept, all + [last], places)
  {
    forall i | 0 <= i < |all| && (all + [last])[i] != "" ensures i in places {
      assert all[i] != "";
    }
  }

  /** NonEmpty leaves its own results alone. */
  lemma {:induction false} NonEmptyTwice(a: seq<string>)
    ensures NonEmpty(NonEmpty(a)) == NonEmpty(a)
  {
    NonEmptyFixed(a);
    NonEmptyFixed(NonEmpty(a));
  }

  // ---- The accumulator -------------------------------------------------------

  /** An answer with more segments behind its path. */
  function Behind(answer: Answer, suffix: seq<string>): Answer {
    match answer
    case Resolved(c, path) => Resolved(c, path + suffix)
    case other => other
  }

  /** Resolution without an accumulator: resolve the next name, then put this
      name's leftover segments behind the result. */
  function Plainly(lib: Lib, get: Lookup, p: string, depth: nat): Answer
    decreases depth
  {
    match NextHop(lib, p)
    case NoResolver =>
      (match ParseTargetToCid(lib, p)
       case Some(target) => Resolved(target.cid, NonEmpty(target.rest))
       case None => Unrecognized(p))
    case Panic =>
      if depth == 0 then RecursionLimit else Crashed
    case Follow(key, rest) =>
      if depth == 0 then RecursionLimit
      else match get(key)
        case Err(e) => LookupFailed(e)
        case Ok(name) => Behind(Plainly(lib, get, name, depth - 1), NonEmpty(rest))
  }

  lemma BehindTwice(answer: Answer, first: seq<string>, second: seq<string>)
    ensures Behind(Behind(answer, first), second) == Behind(answer, first + second)
    ensures Behind(answer, []) == answer
  {
  }

  /** The accumulator is the suffix: the walk with an accumulator answers what the
      plain recursion does, with the accumulated segments behind it. */
  lemma {:induction false} AccumulatorIsSuffix(lib: Lib, get: Lookup, p: string, depth: nat, apnd: seq<string>)
    ensures ResolveWithAppendage(lib, get, p, depth, apnd) == Behind(Plainly(lib, get, p, depth), NonEmpty(apnd))
    decreases depth
  {
    hide NextHop, ParseTargetToCid;
    match NextHop(lib, p)
    case NoResolver =>
    case Panic =>
    case Follow(key, rest) =>
      if depth > 0 && get(key).Ok? {
        var name := get(key).value;
        AccumulatorIsSuffix(lib, get, name, depth - 1, AppendParts(rest, apnd));
        assert NonEmpty(AppendParts(rest, apnd)) == NonEmpty(rest) + NonEmpty(apnd) by {
          NonEmptyConcat(NonEmpty(rest), NonEmpty(apnd));
          NonEmptyTwice(rest);
          NonEmptyTwice(apnd);
        }
        BehindTwice(Plainly(lib, get, name, depth - 1), NonEmpty(rest), NonEmpty(apnd));
      }
  }

  lemma {:induction false} ResolveIsPlain(lib: Lib, get: Lookup, p: string, depth: nat)
    ensures Resolve(lib, get, p, depth) == Plainly(lib, get, p, depth)
  {
    AccumulatorIsSuffix(lib, get, p, depth, []);
    BehindTwice(Plainly(lib, get, p, depth), [], []);
  }

  // ---- The walk, hop by hop ----------------------------------------------------

  /** The name reached, and the segments left over by the hops so far, the last
      hop's first. */
  datatype Place = Place(name: string, leftover: seq<string>)

  function Hopped(lib: Lib, get: Lookup, place: Place): Option<Place> {
    match NextHop(lib, place.name)
    case Follow(key, rest) =>
      (match get(key)
       case Ok(name) => Some(Place(name, NonEmpty(rest) + place.leftover))
       case Err(_) => None)
    case _ => None
  }

  /** Where n successful hops from p lead, if there are that many. */
  function Walk(lib: Lib, get: Lookup, p: string, n: nat): Option<Place> {
    if n == 0 then Some(Place(p, []))
    else match Walk(lib, get, p, n - 1)
      case Some(place) => Hopped(lib, get, place)
      case None => None
  }

  /** What the resolver answers to a name from which it does not hop on, with `left`
      hops still allowed. */
  function StuckAt(lib: Lib, get: Lookup, name: string, left: nat): Answer {
    match NextHop(lib, name)
    case NoResolver =>
      (match ParseTargetToCid(lib, name)
       case Some(target) => Resolved(target.cid, NonEmpty(target.rest))
       case None => Unrecognized(name))
    case Panic =>
      if left == 0 then RecursionLimit else Crashed
    case Follow(key, _) =>
      if left == 0 || get(key).Ok? then RecursionLimit else LookupFailed(get(key).error)
  }

  function AnswerAt(lib: Lib, get: Lookup, place: Place, left: nat): Answer {
    Behind(StuckAt(lib, get, place.name, left), place.leftover)
  }

  ghost predicate StopsAt(lib: Lib, get: Lookup, p: string, depth: nat, n: nat) {
    && n <= depth
    && Walk(lib, get, p, n).Some?
    && (n == depth || Hopped(lib, get, Walk(lib, get, p, n).value).None?)
  }

  lemma {:induction false} HoppedBehind(lib: Lib, get: Lookup, place: Place, tail: seq<string>)
    ensures var hopped := Hopped(lib, get, place);
      Hopped(lib, get, Place(place.name, place.leftover + tail)) ==
        if hopped.None? then None else Some(Place(hopped.value.name, hopped.value.leftover + tail))
  {
    hide NextHop;
    match NextHop(lib, place.name)
    case Follow(key, rest) =>
      assert NonEmpty(rest) + (place.leftover + tail) == NonEmpty(rest) + place.leftover + tail;
    case _ =>
  }

  /** The first hop of a walk, taken off the front. */
  lemma {:induction false} WalkFromFront(lib: Lib, get: Lookup, p: string, n: nat)
    requires NextHop(lib, p).Follow? && get(NextHop(lib, p).key).Ok?
    ensures var inner := Walk(lib, get, get(NextHop(lib, p).key).value, n);
      Walk(lib, get, p, n + 1) ==
        if inner.None? then None
        else Some(Place(inner.value.name, inner.value.leftover + NonEmpty(NextHop(lib, p).rest)))
  {
    hide NextHop;
    var name, tail := get(NextHop(lib, p).key).value, NonEmpty(NextHop(lib, p).rest);
    if n == 0 {
      assert Walk(lib, get, p, 1) == Hopped(lib, get, Place(p, []));
      assert tail + [] == [] + tail;
    } else {
      WalkFromFront(lib, get, p, n - 1);
      var inner := Walk(lib, get, name, n - 1);
      if inner.Some? {
        HoppedBehind(lib, get, inner.value, tail);
      }
    }
  }

  /** Resolution answers exactly what its walk says: it follows hops until the
      budget is used up or there is no further hop, and the path is the final
      target's rest followed by the hops' leftovers, last hop first. */
  lemma {:induction false} ResolveFollowsWalk(lib: Lib, get: Lookup, p: string, depth: nat) returns (n: nat)
    ensures StopsAt(lib, get, p, depth, n)
    ensures Resolve(lib, get, p, depth) == AnswerAt(lib, get, Walk(lib, get, p, n).value, depth - n)
  {
    n := PlainlyFollowsWalk(lib, get, p, depth);
    ResolveIsPlain(lib, get, p, depth);
  }

  lemma {:induction false} PlainlyFollowsWalk(lib: Lib, get: Lookup, p: string, depth: nat) returns (n: nat)
    ensures StopsAt(lib, get, p, depth, n)
    ensures Plainly(lib, get, p, depth) == AnswerAt(lib, get, Walk(lib, get, p, n).value, depth - n)
    decreases depth
  {
    hide NextHop, ParseTargetToCid, StuckAt;
    var hop := NextHop(lib, p);
    if hop.Follow? && depth > 0 && get(hop.key).Ok? {
      var name := get(hop.key).value;
      var m := PlainlyFollowsWalk(lib, get, name, depth - 1);
      n := m + 1;
      StopOneLater(lib, get, p, depth, m);
    } else {
      n := 0;
      StopNow(lib, get, p, depth);
    }
  }

  lemma StopNow(lib: Lib, get: Lookup, p: string, depth: nat)
    requires depth == 0 || Hopped(lib, get, Place(p, [])).None?
    ensures StopsAt(lib, get, p, depth, 0)
    ensures Plainly(lib, get, p, depth) == AnswerAt(lib, get, Walk(lib, get, p, 0).value, depth)
  {
  }

  lemma {:induction false} StopOneLater(lib: Lib, get: Lookup, p: string, depth: nat, m: nat)
    requires depth > 0 && NextHop(lib, p).Follow? && get(NextHop(lib, p).key).Ok?
    requires var name := get(NextHop(lib, p).key).value;
      && StopsAt(lib, get, name, depth - 1, m)
      && Plainly(lib, get, name, depth - 1) == AnswerAt(lib, get, Walk(lib, get, name, m).value, depth - 1 - m)
    ensures StopsAt(lib, get, p, depth, m + 1)
    ensures Plainly(lib, get, p, depth) == AnswerAt(lib, get, Walk(lib, get, p, m + 1).value, depth - (m + 1))
  {
    hide NextHop, ParseTargetToCid, StuckAt, Walk, NonEmpty;
    var hop := NextHop(lib, p);
    var name := get(hop.key).value;
    WalkFromFront(lib, get, p, m);
    var inner, outer := Walk(lib, get, name, m).value, Walk(lib, get, p, m + 1).value;
    assert outer == Place(inner.name, inner.leftover + NonEmpty(hop.rest));
    BehindTwice(StuckAt(lib, get, inner.name, depth - (m + 1)), inner.leftover, NonEmpty(hop.rest));
  }

  lemma {:induction false} WalkPrefix(lib: Lib, get: Lookup, p: string, m: nat, n: nat)
    requires m <= n && Walk(lib, get, p, n).Some?
    ensures Walk(lib, get, p, m).Some?
    ensures m < n ==> Hopped(lib, get, Walk(lib, get, p, m).value).Some?
    decreases n - m
  {
    hide NextHop, ParseTargetToCid;
    if m < n {
      WalkPrefix(lib, get, p, m + 1, n);
    }
  }

  lemma {:induction false} StopIsUnique(lib: Lib, get: Lookup, p: string, depth: nat, m: nat, n: nat)
    requires StopsAt(lib, get, p, depth, m) && StopsAt(lib, get, p, depth, n)
    ensures m == n
  {
    hide NextHop, ParseTargetToCid;
    if m < n {
      WalkPrefix(lib, get, p, m, n);
    } else if n < m {
      WalkPrefix(lib, get, p, n, m);
    }
  }

  /** Exact depth: the recursion limit is reported if and only if the first
      `depth` hops succeed and the name they reach is still accepted by a
      sub-resolver. */
  lemma {:induction false} LimitExactly(lib: Lib, get: Lookup, p: string, depth: nat)
    ensures Resolve(lib, get, p, depth) == RecursionLimit <==>
      Walk(lib, get, p, depth).Some? && GetResolver(lib, Walk(lib, get, p, depth).value.name).Some?
  {
    hide NextHop, ParseTargetToCid;
    var n := ResolveFollowsWalk(lib, get, p, depth);
    var place := Walk(lib, get, p, n).value;
    NoResolverExactly(lib, place.name);
    if Walk(lib, get, p, depth).Some? {
      StopIsUnique(lib, get, p, depth, n, depth);
    }
  }

  /** Accumulator correctness: a name resolves within the budget exactly to the
      CID at the end of some walk of at most `depth` hops, with the non-empty
      segments of that target's rest in front of the leftovers. */
  lemma {:induction false} ResolvedExactly(lib: Lib, get: Lookup, p: string, depth: nat, c: Cid, path: seq<string>)
    ensures Resolve(lib, get, p, depth) == Resolved(c, path) <==>
      exists n: nat | n <= depth && Walk(lib, get, p, n).Some? ::
        var place := Walk(lib, get, p, n).value;
        var target := ParseTargetToCid(lib, place.name);
        && GetResolver(lib, place.name).None? && target.Some?
        && c == target.value.cid && path == NonEmpty(target.value.rest) + place.leftover
  {
    hide NextHop, ParseTargetToCid;
    var m := ResolveFollowsWalk(lib, get, p, depth);
    NoResolverExactly(lib, Walk(lib, get, p, m).value.name);
    forall n: nat | n <= depth && Walk(lib, get, p, n).Some? && GetResolver(lib, Walk(lib, get, p, n).value.name).None?
      ensures n == m
    {
      NoResolverExactly(lib, Walk(lib, get, p, n).value.name);
      StopIsUnique(lib, get, p, depth, m, n);
    }
  }

  lemma {:induction false} LeftoversNonEmpty(lib: Lib, get: Lookup, p: string, n: nat)
    ensures Walk(lib, get, p, n).Some? ==> "" !in Walk(lib, get, p, n).value.leftover
  {
    hide NextHop, ParseTargetToCid;
    if n > 0 {
      LeftoversNonEmpty(lib, get, p, n - 1);
      if Walk(lib, get, p, n).Some? {
        NonEmptyFixed(NextHop(lib, Walk(lib, get, p, n - 1).value.name).rest);
      }
    }
  }

  /** No resolved path has an empty segment. */
  lemma {:induction false} PathHasNoEmptySegment(lib: Lib, get: Lookup, p: string, depth: nat)
    ensures Resolve(lib, get, p, depth).Resolved? ==> "" !in Resolve(lib, get, p, depth).path
  {
    hide NextHop, ParseTargetToCid;
    var n := ResolveFollowsWalk(lib, get, p, depth);
    LeftoversNonEmpty(lib, get, p, n);
    if Resolve(lib, get, p, depth).Resolved? {
      NonEmptyFixed(ParseTargetToCid(lib, Walk(lib, get, p, n).value.name).value.rest);
    }
  }

  /** All segments left over by the first n hops, the last hop's first, empty ones included. */
  function LeftOver(lib: Lib, get: Lookup, p: string, n: nat): seq<string>
    requires Walk(lib, get, p, n).Some?
  {
    if n == 0 then []
    else
      var hop := NextHop(lib, Walk(lib, get, p, n - 1).value.name);
      (if hop.Follow? then hop.rest else []) + LeftOver(lib, get, p, n - 1)
  }

  lemma {:induction false} LeftOverKept(lib: Lib, get: Lookup, p: string, n: nat)
    requires Walk(lib, get, p, n).Some?
    ensures Walk(lib, get, p, n).value.leftover == NonEmpty(LeftOver(lib, get, p, n))
  {
    hide NextHop, ParseTargetToCid;
    if n > 0 {
      LeftOverKept(lib, get, p, n - 1);
      NonEmptyConcat(NextHop(lib, Walk(lib, get, p, n - 1).value.name).rest, LeftOver(lib, get, p, n - 1));
    }
  }

  /** A resolved path is the list of exactly the non-empty segments, in order, of the final
      target's rest and of the hops' rests, the last hop's first. */
  lemma {:induction false} PathIsAllNonEmpty(lib: Lib, get: Lookup, p: string, depth: nat)
    returns (n: nat, places: seq<nat>)
    requires Resolve(lib, get, p, depth).Resolved?
    ensures n <= depth && Walk(lib, get, p, n).Some?
    ensures var target := ParseTargetToCid(lib, Walk(lib, get, p, n).value.name);
      target.Some? && AllNonEmpty(
        Resolve(lib, get, p, depth).path, target.value.rest + LeftOver(lib, get, p, n), places)
  {
    hide NextHop, ParseTargetToCid, LeftOver, AllNonEmpty;
    n := ResolveFollowsWalk(lib, get, p, depth);
    var rest := ParseTargetToCid(lib, Walk(lib, get, p, n).value.name).value.rest;
    LeftOverKept(lib, get, p, n);
    NonEmptyConcat(rest, LeftOver(lib, get, p, n));
    places := NonEmptyKeeps(rest + LeftOver(lib, get, p, n));
  }

  /** A lookup error is the answer exactly when some hop within the budget gets it. */
  lemma {:induction false} FailedExactly(lib: Lib, get: Lookup, p: string, depth: nat, e: Error)
    ensures Resolve(lib, get, p, depth) == LookupFailed(e) <==>
      exists n: nat | n < depth && Walk(lib, get, p, n).Some? ::
        var hop := NextHop(lib, Walk(lib, get, p, n).value.name);
        hop.Follow? && get(hop.key) == Err(e)
  {
    hide NextHop, ParseTargetToCid;
    var m := ResolveFollowsWalk(lib, get, p, depth);
    forall n: nat | n < depth && Walk(lib, get, p, n).Some? && Hopped(lib, get, Walk(lib, get, p, n).value).None?
      ensures n == m
    {
      StopIsUnique(lib, get, p, depth, m, n);
    }
  }

  /** Resolution panics exactly when some hop within the budget does. */
  lemma {:induction false} CrashedExactly(lib: Lib, get: Lookup, p: string, depth: nat)
    ensures Resolve(lib, get, p, depth) == Crashed <==>
      exists n: nat | n < depth && Walk(lib, get, p, n).Some? ::
        NextHop(lib, Walk(lib, get, p, n).value.name) == Panic
  {
    hide NextHop, ParseTargetToCid;
    var m := ResolveFollowsWalk(lib, get, p, depth);
    forall n: nat | n < depth && Walk(lib, get, p, n).Some? && Hopped(lib, get, Walk(lib, get, p, n).value).None?
      ensures n == m
    {
      StopIsUnique(lib, get, p, depth, m, n);
    }
  }

  /** More depth never changes an answer other than the recursion limit. */
  lemma {:induction false} MoreDepth(lib: Lib, get: Lookup, p: string, depth: nat, more: nat)
    requires depth <= more && Resolve(lib, get, p, depth) != RecursionLimit
    ensures Resolve(lib, get, p, more) == Resolve(lib, get, p, depth)
  {
    hide NextHop, ParseTargetToCid;
    var n := ResolveFollowsWalk(lib, get, p, depth);
    var m := ResolveFollowsWalk(lib, get, p, more);
    StopIsUnique(lib, get, p, more, m, n);
  }

  // ---- Enough depth --------------------------------------------------------------

  /** Keys of the same entry have the same answer. The entry of a key may be the key itself. */
  ghost predicate Respects(get: Lookup, entryOf: Key -> Key) {
    forall a: Key, b: Key | entryOf(a) == entryOf(b) :: get(a) == get(b)
  }

  ghost predicate Covers(get: Lookup, entryOf: Key -> Key, entries: set<Key>) {
    forall key: Key | get(key).Ok? :: entryOf(key) in entries
  }

  ghost predicate HopsAt(lib: Lib, get: Lookup, p: string, i: nat) {
    Walk(lib, get, p, i).Some? && Hopped(lib, get, Walk(lib, get, p, i).value).Some?
  }

  ghost function KeyAt(lib: Lib, get: Lookup, p: string, i: nat): Key
    requires HopsAt(lib, get, p, i)
  {
    NextHop(lib, Walk(lib, get, p, i).value.name).key
  }

  /** From the i-th name on, a walk goes the way a walk from that name goes. */
  lemma {:induction false} WalkRestarts(lib: Lib, get: Lookup, p: string, i: nat, m: nat)
    requires Walk(lib, get, p, i).Some?
    ensures var a, b := Walk(lib, get, p, i + m), Walk(lib, get, Walk(lib, get, p, i).value.name, m);
      (a.Some? <==> b.Some?) && (a.Some? ==> a.value.name == b.value.name)
  {
    hide NextHop, ParseTargetToCid;
    if m > 0 {
      WalkRestarts(lib, get, p, i, m - 1);
      assert i + m - 1 == i + (m - 1);
    }
  }

  /** Hops that look up the same entry lead to the same names from there on. */
  lemma {:induction false} SameEntrySameWay(
    lib: Lib, get: Lookup, entryOf: Key -> Key, p: string, i: nat, j: nat, left: nat)
    requires Respects(get, entryOf) && HopsAt(lib, get, p, i) && HopsAt(lib, get, p, j)
    requires entryOf(KeyAt(lib, get, p, i)) == entryOf(KeyAt(lib, get, p, j))
    ensures var a, b := Walk(lib, get, p, i + 1 + left), Walk(lib, get, p, j + 1 + left);
      (a.Some? <==> b.Some?) && (a.Some? ==> a.value.name == b.value.name)
  {
    hide NextHop, ParseTargetToCid;
    WalkRestarts(lib, get, p, i + 1, left);
    WalkRestarts(lib, get, p, j + 1, left);
    assert get(KeyAt(lib, get, p, i)) == get(KeyAt(lib, get, p, j));
  }

  /** A walk that has ended never looked up the same entry twice. */
  lemma {:induction false} EntriesDiffer(
    lib: Lib, get: Lookup, entryOf: Key -> Key, p: string, n: nat, i: nat, j: nat)
    requires Respects(get, entryOf)
    requires Walk(lib, get, p, n).Some? && !HopsAt(lib, get, p, n)
    requires i < j < n
    ensures HopsAt(lib, get, p, i) && HopsAt(lib, get, p, j)
    ensures entryOf(KeyAt(lib, get, p, i)) != entryOf(KeyAt(lib, get, p, j))
  {
    hide NextHop, ParseTargetToCid, Walk;
    WalkPrefix(lib, get, p, i, n);
    WalkPrefix(lib, get, p, j, n);
    if entryOf(KeyAt(lib, get, p, i)) == entryOf(KeyAt(lib, get, p, j)) {
      var left := n - j - 1;
      SameEntrySameWay(lib, get, entryOf, p, i, j, left);
      assert j + 1 + left == n;
      WalkPrefix(lib, get, p, i + 1 + left, n);
    }
  }

  lemma {:induction false} DistinctFit<T>(items: seq<T>, pool: set<T>)
    requires forall i, j | 0 <= i < j < |items| :: items[i] != items[j]
    requires forall i | 0 <= i < |items| :: items[i] in pool
    ensures |items| <= |pool|
  {
    if items != [] {
      DistinctFit(items[1..], pool - {items[0]});
    }
  }

  /** A walk that has ended has at most one hop for every entry. */
  lemma {:induction false} WalkFits(
    lib: Lib, get: Lookup, entryOf: Key -> Key, p: string, n: nat, entries: set<Key>)
    requires Respects(get, entryOf) && Covers(get, entryOf, entries)
    requires Walk(lib, get, p, n).Some? && !HopsAt(lib, get, p, n)
    ensures n <= |entries|
  {
    hide NextHop, ParseTargetToCid;
    forall i: nat | i < n ensures HopsAt(lib, get, p, i) {
      WalkPrefix(lib, get, p, i, n);
    }
    var looked := seq(n, (i: nat) requires i < n => entryOf(KeyAt(lib, get, p, i)));
    forall i, j | 0 <= i < j < n ensures looked[i] != looked[j] {
      EntriesDiffer(lib, get, entryOf, p, n, i, j);
    }
    forall i | 0 <= i < n ensures looked[i] in entries {
      assert HopsAt(lib, get, p, i);
      assert get(KeyAt(lib, get, p, i)).Ok?;
    }
    DistinctFit(looked, entries);
  }

  /** Enough depth: over at most N entries, a name that resolves at any depth resolves the
      same at depth N, and one hop more is enough for every answer there is. A name still at
      the limit then never leaves it. */
  lemma {:induction false} EnoughDepth(
    lib: Lib, get: Lookup, entryOf: Key -> Key, entries: set<Key>, enough: nat, p: string, depth: nat)
    requires Respects(get, entryOf) && Covers(get, entryOf, entries) && |entries| <= enough
    ensures Resolve(lib, get, p, depth).Resolved? ==> Resolve(lib, get, p, enough) == Resolve(lib, get, p, depth)
    ensures Resolve(lib, get, p, depth) != RecursionLimit ==>
      Resolve(lib, get, p, enough + 1) == Resolve(lib, get, p, depth)
  {
    hide NextHop, ParseTargetToCid;
    if Resolve(lib, get, p, depth) != RecursionLimit {
      var n := ResolveFollowsWalk(lib, get, p, depth);
      var place := Walk(lib, get, p, n).value;
      assert Hopped(lib, get, place).None?;
      WalkFits(lib, get, entryOf, p, n, entries);
      var m := ResolveFollowsWalk(lib, get, p, enough + 1);
      StopIsUnique(lib, get, p, enough + 1, m, n);
      if Resolve(lib, get, p, depth).Resolved? {
        var k := ResolveFollowsWalk(lib, get, p, enough);
        StopIsUnique(lib, get, p, enough, k, n);
      }
    }
  }

  // ---- Stores that change between hops -------------------------------------------------

  /** Resolution when every hop may find something else: hop i looks its key up in gets(i). */
  function ResolveChanging(
    lib: Lib, gets: nat -> Lookup, hop: nat, p: string, depth: nat, apnd: seq<string>): Answer
    decreases depth
  {
    match NextHop(lib, p)
    case NoResolver =>
      (match ParseTargetToCid(lib, p)
       case Some(target) => Resolved(target.cid, AppendParts(target.rest, apnd))
       case None => Unrecognized(p))
    case Panic =>
      if depth == 0 then RecursionLimit else Crashed
    case Follow(key, rest) =>
      if depth == 0 then RecursionLimit
      else match gets(hop)(key)
        case Err(e) => LookupFailed(e)
        case Ok(name) => ResolveChanging(lib, gets, hop + 1, name, depth - 1, AppendParts(rest, apnd))
  }

  /** When nothing changes it is plain resolution. */
  lemma {:induction false} UnchangingIsPlain(
    lib: Lib, gets: nat -> Lookup, get: Lookup, hop: nat, p: string, depth: nat, apnd: seq<string>)
    requires forall i: nat, key: Key :: gets(i)(key) == get(key)
    ensures ResolveChanging(lib, gets, hop, p, depth, apnd) == ResolveWithAppendage(lib, get, p, depth, apnd)
    decreases depth
  {
    hide ParseTargetToCid, AppendParts;
    match NextHop(lib, p)
    case Follow(key, rest) =>
      assert gets(hop)(key) == get(key);
      if depth > 0 && get(key).Ok? {
        UnchangingIsPlain(lib, gets, get, hop + 1, get(key).value, depth - 1, AppendParts(rest, apnd));
      }
    case _ =>
  }

  /** Resolution depends on a lookup only through its answers. */
  lemma {:induction false} SameAnswersSameResolution(
    lib: Lib, get: Lookup, other: Lookup, p: string, depth: nat, apnd: seq<string>)
    requires forall key: Key :: get(key) == other(key)
    ensures ResolveWithAppendage(lib, get, p, depth, apnd) == ResolveWithAppendage(lib, other, p, depth, apnd)
  {
    hide ResolveWithAppendage, ResolveChanging;
    var gets := (_: nat) => get;
    UnchangingIsPlain(lib, gets, get, 0, p, depth, apnd);
    UnchangingIsPlain(lib, gets, other, 0, p, depth, apnd);
  }

  ghost predicate TargetsResolvable(lib: Lib, gets: nat -> Lookup) {
    forall i: nat, key: Key :: gets(i)(key).Ok? ==> IsResolvable(lib, gets(i)(key).value)
  }

  /** No dead ends: when every looked-up value is resolvable, whatever changes between hops,
      resolution reports an unrecognized format exactly for a starting name that is not
      resolvable itself. */
  lemma {:induction false} NoDeadEnds(
    lib: Lib, gets: nat -> Lookup, hop: nat, p: string, depth: nat, apnd: seq<string>)
    requires TargetsResolvable(lib, gets)
    ensures ResolveChanging(lib, gets, hop, p, depth, apnd).Unrecognized? <==> !IsResolvable(lib, p)
    decreases depth
  {
    NoResolverExactly(lib, p);
    hide NextHop, ParseTargetToCid, AppendParts, GetResolver;
    match NextHop(lib, p)
    case Follow(key, rest) =>
      if depth > 0 && gets(hop)(key).Ok? {
        NoDeadEnds(lib, gets, hop + 1, gets(hop)(key).value, depth - 1, AppendParts(rest, apnd));
      }
    case _ =>
  }

  // ---- Suffix extension -----------------------------------------------------------------

  lemma {:induction false} NonEmptyPlain(suffix: seq<string>)
    requires AllPlain(suffix)
    ensures NonEmpty(suffix) == suffix
  {
    if suffix != [] {
      NonEmptyPlain(suffix[1..]);
    }
  }

  /** Plain segments added to a name that a sub-resolver takes come out at the end of
      the resolved path; every other answer stays as it is. */
  lemma {:induction false} SuffixCarries(lib: Lib, get: Lookup, p: string, suffix: seq<string>, depth: nat)
    requires NextHop(lib, p).Follow?
    requires AllPlain(suffix) && Free(suffix, '/')
    ensures Resolve(lib, get, Extend(p, suffix), depth) == Behind(Resolve(lib, get, p, depth), suffix)
  {
    hide NextHop, ParseTargetToCid;
    ExtendedHop(lib, p, suffix);
    ResolveIsPlain(lib, get, p, depth);
    ResolveIsPlain(lib, get, Extend(p, suffix), depth);
    var hop := NextHop(lib, p);
    if depth > 0 && get(hop.key).Ok? {
      NonEmptyConcat(hop.rest, suffix);
      NonEmptyPlain(suffix);
      BehindTwice(Plainly(lib, get, get(hop.key).value, depth - 1), NonEmpty(hop.rest), suffix);
    }
  }

  /** A slash at the end of a domain or an IPNS name changes no answer. */
  lemma {:induction false} TrailingSlashIsDropped(lib: Lib, get: Lookup, p: string, depth: nat)
    requires NextHop(lib, p).Follow? && NextHop(lib, p).key.kind != Iprs
    ensures Resolve(lib, get, p + "/", depth) == Resolve(lib, get, p, depth)
  {
    SlashedHop(lib, p);
    hide NextHop, ParseTargetToCid;
    ResolveIsPlain(lib, get, p, depth);
    ResolveIsPlain(lib, get, p + "/", depth);
    var hop := NextHop(lib, p);
    if depth > 0 && get(hop.key).Ok? {
      NonEmptyConcat(hop.rest, [""]);
      assert NonEmpty([""]) == [];
      assert NonEmpty(hop.rest) + [] == NonEmpty(hop.rest);
    }
  }

  /** A panicking name does not panic any more with a long enough plain suffix. */
  lemma {:induction false} PanicDoesNotCarry(lib: Lib, get: Lookup, p: string, suffix: seq<string>)
    requires NextHop(lib, p) == Panic
    requires AllPlain(suffix) && Free(suffix, '/') && |suffix| >= 3
    ensures Resolve(lib, get, p, 1) == Crashed
    ensures Resolve(lib, get, Extend(p, suffix), 1) != Crashed
  {
    ExtendedPanicHops(lib, p, suffix);
    hide NextHop, ParseTargetToCid, Extend;
    var hop := NextHop(lib, Extend(p, suffix));
    if get(hop.key).Ok? {
      assert ResolveWithAppendage(lib, get, get(hop.key).value, 0, AppendParts(hop.rest, [])) != Crashed;
    }
  }

  /** Suffix extension holds for an accepted name at every depth and for every plain
      suffix if and only if the sub-resolver does not panic on the name. */
  lemma {:induction false} SuffixExtension(lib: Lib, get: Lookup, p: string)
    requires GetResolver(lib, p).Some?
    ensures NextHop(lib, p) != Panic <==>
      forall suffix: seq<string>, depth: nat | AllPlain(suffix) && Free(suffix, '/') ::
        Resolve(lib, get, Extend(p, suffix), depth) == Behind(Resolve(lib, get, p, depth), suffix)
  {
    NoResolverExactly(lib, p);
    hide NextHop, ParseTargetToCid, Extend, GetResolver, ResolveWithAppendage;
    if NextHop(lib, p) == Panic {
      var suffix := ["a", "b", "c"];
      assert AllPlain(suffix) && Free(suffix, '/');
      PanicDoesNotCarry(lib, get, p, suffix);
      assert Resolve(lib, get, Extend(p, suffix), 1) != Behind(Resolve(lib, get, p, 1), suffix);
    } else {
      forall suffix: seq<string>, depth: nat | AllPlain(suffix) && Free(suffix, '/')
        ensures Resolve(lib, get, Extend(p, suffix), depth) == Behind(Resolve(lib, get, p, depth), suffix)
      {
        SuffixCarries(lib, get, p, suffix, depth);
      }
    }
  }
}
