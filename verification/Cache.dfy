/** The resolver cache: time-limited entries in a least-recently-used store in front
    of a value source (resolver/cache.go). */
module Cache {
  import opened Wrappers
  import opened Text
  import opened Library
  import opened Sources

  datatype Entry = Entry(val: Bytes, till: int)

  /** The LRU store: what it holds, and its keys in order of last use, latest first. */
  datatype Store = Store(order: seq<string>, items: map<string, Entry>)

  const EMPTY: Store := Store([], map[])

  ghost predicate Distinct(order: seq<string>) {
    forall i, j | 0 <= i < j < |order| :: order[i] != order[j]
  }

  ghost predicate Consistent(s: Store, size: nat) {
    && |s.order| <= size
    && Distinct(s.order)
    && (forall k :: k in s.items <==> k in s.order)
  }

  function Without(order: seq<string>, k: string): seq<string> {
    if order == [] then []
    else if order[0] == k then Without(order[1..], k)
    else [order[0]] + Without(order[1..], k)
  }

  lemma {:induction false} WithoutExactly(order: seq<string>, k: string)
    ensures forall x :: x in Without(order, k) <==> x in order && x != k
    ensures |Without(order, k)| <= |order|
    ensures k in order ==> |Without(order, k)| < |order|
    ensures k !in order ==> Without(order, k) == order
  {
    if order != [] {
      WithoutExactly(order[1..], k);
    }
  }

  /** Taking a key out keeps the order of the others. */
  lemma {:induction false} WithoutMiddle(front: seq<string>, k: string, back: seq<string>)
    requires k !in front && k !in back
    ensures Without(front + [k] + back, k) == front + back
  {
    var order := front + [k] + back;
    if front == [] {
      WithoutExactly(back, k);
      assert order[1..] == back && front + back == back;
    } else {
      WithoutMiddle(front[1..], k, back);
      assert order[1..] == front[1..] + [k] + back;
      assert front + back == [front[0]] + (front[1..] + back);
    }
  }

  lemma ConsDistinct(k: string, order: seq<string>)
    requires Distinct(order) && k !in order
    ensures Distinct([k] + order)
  {
  }

  lemma {:induction false} WithoutDistinct(order: seq<string>, k: string)
    requires Distinct(order)
    ensures Distinct(Without(order, k)) && Distinct([k] + Without(order, k))
  {
    WithoutExactly(order, k);
    if order != [] {
      WithoutDistinct(order[1..], k);
      WithoutExactly(order[1..], k);
      assert order[0] !in order[1..];
      if order[0] != k {
        ConsDistinct(order[0], Without(order[1..], k));
      }
    }
    ConsDistinct(k, Without(order, k));
  }

  // ---- The store's operations as functions ----------------------------------------------

  function Touch(s: Store, k: string): Store {
    if k in s.items then s.(order := [k] + Without(s.order, k)) else s
  }

  function Remove(s: Store, k: string): Store {
    Store(Without(s.order, k), s.items - {k})
  }

  /** Adding a key puts it first; when that is one too many, the key used longest ago
      goes. */
  function Add(s: Store, size: nat, k: string, e: Entry): Store {
    var order := [k] + Without(s.order, k);
    var items := s.items[k := e];
    if |order| > size && size > 0 then Store(order[..size], items - {order[size]}) else Store(order, items)
  }

  lemma {:induction false} TouchAndRemoveKeep(s: Store, size: nat, k: string)
    requires Consistent(s, size)
    ensures Consistent(Touch(s, k), size) && Consistent(Remove(s, k), size)
  {
    WithoutExactly(s.order, k);
    WithoutDistinct(s.order, k);
  }

  lemma {:induction false} AddKeeps(s: Store, size: nat, k: string, e: Entry)
    requires Consistent(s, size) && size > 0
    ensures Consistent(Add(s, size, k, e), size)
  {
    WithoutExactly(s.order, k);
    WithoutDistinct(s.order, k);
    var order := [k] + Without(s.order, k);
    assert |order| <= size + 1;
    assert forall x :: x in s.items[k := e] <==> x in order;
    TrimKeeps(order, s.items[k := e], size);
  }

  lemma TrimKeeps(order: seq<string>, items: map<string, Entry>, size: nat)
    requires Distinct(order) && |order| <= size + 1
    requires forall x :: x in items <==> x in order
    ensures Consistent(
      if |order| > size then Store(order[..size], items - {order[size]}) else Store(order, items), size)
  {
  }

  // ---- The cache's operations as functions -------------------------------------------------

  /** cacheGet at time `now`: the value if there is a live entry, and the store after. */
  function GetLive(s: Store, k: string, now: int): (Store, Option<Bytes>) {
    if k !in s.items then (s, None)
    else if now < s.items[k].till then (Touch(s, k), Some(s.items[k].val))
    else (Remove(Touch(s, k), k), None)
  }

  /** Until when a value fetched with expiry `eol` is kept, from time `now`. */
  function KeptTill(eol: Option<int>, now: int, ttl: int): int {
    if eol.Some? && eol.value < now + ttl then eol.value else now + ttl
  }

  type Fetched = Result<Found, Error>

  /** GetValue: a live entry at `now`, or else what the source returned, stored at
      `later`. `size` 0 is a cache that is switched off. */
  function GetThrough(s: Store, size: nat, ttl: int, k: string, now: int, fetched: Fetched, later: int)
    : (Store, Result<Bytes, Error>)
  {
    if size == 0 then
      match fetched case Ok(found) => (s, Ok(found.val)) case Err(e) => (s, Err(e))
    else
      var (after, live) := GetLive(s, k, now);
      match live
      case Some(val) => (after, Ok(val))
      case None =>
        match fetched
        case Err(e) => (after, Err(e))
        case Ok(found) =>
          (Add(after, size, k, Entry(found.val, KeptTill(found.eol, later, ttl))), Ok(found.val))
  }

  /** The earlier of the end of a lifetime counted from `at` and the expiry. */
  predicate Earlier(till: int, at: int, ttl: int, eol: Option<int>) {
    till <= at + ttl && (eol.Some? ==> till <= eol.value) && (till == at + ttl || eol == Some(till))
  }

  /** The entry for k holds the value, and is kept until its lifetime or its expiry is over. */
  ghost predicate KeptFor(s: Store, k: string, val: Bytes, at: int, ttl: int, eol: Option<int>) {
    k in s.items && s.items[k].val == val && Earlier(s.items[k].till, at, ttl, eol)
  }

  /** k is among the m keys used last. */
  ghost predicate Recent(s: Store, k: string, m: nat) {
    exists i :: 0 <= i < m && i < |s.order| && s.order[i] == k
  }

  // ---- The classes ---------------------------------------------------------------------

  /** The LRU store of the golang-lru package, as the cache uses it. */
  class Lru {
    const size: nat
    var order: seq<string>
    var items: map<string, Entry>

    ghost function Contents(): Store
      reads this
    {
      Store(order, items)
    }

    ghost predicate Valid()
      reads this
    {
      size > 0 && Consistent(Contents(), size)
    }

    constructor (size: nat)
      requires size > 0
      ensures Valid() && this.size == size && Contents() == EMPTY
    {
      this.size := size;
      order := [];
      items := map[];
    }

    method Get(k: string) returns (e: Option<Entry>)
      requires Valid()
      modifies this
      ensures Valid() && Contents() == Touch(old(Contents()), k)
      ensures e == if k in old(items) then Some(old(items)[k]) else None
    {
      TouchAndRemoveKeep(Contents(), size, k);
      if k !in items {
        return None;
      }
      order := [k] + Without(order, k);
      return Some(items[k]);
    }

    method Put(k: string, e: Entry)
      requires Valid()
      modifies this
      ensures Valid() && Contents() == Add(old(Contents()), size, k, e)
    {
      AddKeeps(Contents(), size, k, e);
      order := [k] + Without(order, k);
      items := items[k := e];
      if |order| > size {
        var oldest := order[size];
        order := order[..size];
        items := items - {oldest};
      }
    }

    method Delete(k: string)
      requires Valid()
      modifies this
      ensures Valid() && Contents() == Remove(old(Contents()), k)
    {
      TouchAndRemoveKeep(Contents(), size, k);
      order := Without(order, k);
      items := items - {k};
    }
  }

  lemma {:induction false} AddIsKept(s: Store, size: nat, k: string, val: Bytes, eol: Option<int>, at: int, ttl: int)
    requires Consistent(s, size) && size > 0
    ensures var after := Add(s, size, k, Entry(val, KeptTill(eol, at, ttl)));
      KeptFor(after, k, val, at, ttl, eol) && Recent(after, k, 1)
  {
    hide Without;
    WithoutExactly(s.order, k);
    var order := [k] + Without(s.order, k);
    assert |order| > size ==> order[size] == Without(s.order, k)[size - 1];
    assert Add(s, size, k, Entry(val, KeptTill(eol, at, ttl))).order[0] == k;
  }

  class ResolverCache {
    const lru: Lru?
    const ttl: int

    ghost predicate Valid()
      reads this, lru
    {
      lru != null ==> lru.Valid()
    }

    ghost function Size(): nat {
      if lru == null then 0 else lru.size
    }

    ghost function Contents(): Store
      reads this, lru
    {
      if lru == null then EMPTY else lru.Contents()
    }

    /** A size that is not positive switches the cache off. */
    constructor (size: int, ttl: int)
      ensures Valid() && Contents() == EMPTY && this.ttl == ttl
      ensures Size() == (if size > 0 then size else 0)
      ensures lru != null ==> fresh(lru)
    {
      var store: Lru? := null;
      if size > 0 {
        store := new Lru(size);
      }
      this.lru := store;
      this.ttl := ttl;
    }

    method CacheGet(k: string, now: int) returns (val: Option<Bytes>)
      requires Valid()
      modifies lru
      ensures Valid()
      ensures (Contents(), val) == if Size() == 0 then (old(Contents()), None) else GetLive(old(Contents()), k, now)
    {
      if lru == null {
        return None;
      }
      var entry := lru.Get(k);
      if entry.None? {
        return None;
      }
      if now < entry.value.till {
        return Some(entry.value.val);
      }
      lru.Delete(k);
      return None;
    }

    method CacheSet(k: string, val: Bytes, eol: Option<int>, now: int)
      requires Valid()
      modifies lru
      ensures Valid()
      ensures Contents() == if Size() == 0 then old(Contents())
        else Add(old(Contents()), Size(), k, Entry(val, KeptTill(eol, now, ttl)))
      ensures Size() > 0 ==> KeptFor(Contents(), k, val, now, ttl, eol)
    {
      if lru == null {
        return;
      }
      var cacheTill := now + ttl;
      if eol.Some? && eol.value < cacheTill {
        cacheTill := eol.value;
      }
      lru.Put(k, Entry(val, cacheTill));
      AddIsKept(old(Contents()), Size(), k, val, eol, now, ttl);
    }

    /** `fetched` is what the source returns if it is asked. */
    method GetValue(k: string, now: int, fetched: Fetched, later: int) returns (r: Result<Bytes, Error>)
      requires Valid()
      modifies lru
      ensures Valid()
      ensures (Contents(), r) == GetThrough(old(Contents()), Size(), ttl, k, now, fetched, later)
    {
      var val := CacheGet(k, now);
      if val.Some? {
        return Ok(val.value);
      }
      if fetched.Err? {
        return Err(fetched.error);
      }
      CacheSet(k, fetched.value.val, fetched.value.eol, later);
      return Ok(fetched.value.val);
    }
  }

  // ---- A fetched value is served again -----------------------------------------------------

  /** A live hit makes its key the latest and leaves the order of the others. */
  lemma {:induction false} HitMakesLatest(
    s: Store, size: nat, k: string, now: int, front: seq<string>, back: seq<string>)
    requires Consistent(s, size) && s.order == front + [k] + back && now < s.items[k].till
    ensures GetLive(s, k, now) == (Store([k] + front + back, s.items), Some(s.items[k].val))
  {
    StandsOnce(s, size, k, front, back);
    WithoutMiddle(front, k, back);
    assert [k] + (front + back) == [k] + front + back;
  }

  /** An expired entry is removed, and the order of the others is kept. */
  lemma {:induction false} ExpiredIsRemoved(
    s: Store, size: nat, k: string, now: int, front: seq<string>, back: seq<string>)
    requires Consistent(s, size) && s.order == front + [k] + back && now >= s.items[k].till
    ensures GetLive(s, k, now) == (Store(front + back, s.items - {k}), None)
  {
    StandsOnce(s, size, k, front, back);
    WithoutMiddle(front, k, back);
    TakenTwice(s, k);
  }

  lemma {:induction false} StandsOnce(s: Store, size: nat, k: string, front: seq<string>, back: seq<string>)
    requires Consistent(s, size) && s.order == front + [k] + back
    ensures k in s.items && k !in front && k !in back
  {
    var n := |front|;
    assert s.order[n] == k && k in s.order;
    assert forall i | 0 <= i < n :: s.order[i] == front[i] && s.order[i] != s.order[n];
    assert forall i | 0 <= i < |back| :: s.order[n + 1 + i] == back[i] && s.order[n] != s.order[n + 1 + i];
  }

  /** Adding puts a key first: one that is there moves, a new one takes a free place, or that of
      the key used longest ago. */
  lemma {:induction false} AddMakesLatest(
    s: Store, size: nat, k: string, e: Entry, front: seq<string>, back: seq<string>)
    requires Consistent(s, size) && size > 0
    requires k in s.items ==> s.order == front + [k] + back
    ensures Add(s, size, k, e) ==
      if k in s.items then Store([k] + front + back, s.items[k := e])
      else if |s.order| < size then Store([k] + s.order, s.items[k := e])
      else Store([k] + s.order[..size - 1], s.items[k := e] - {s.order[size - 1]})
  {
    WithoutExactly(s.order, k);
    hide Without;
    if k in s.items {
      StandsOnce(s, size, k, front, back);
      WithoutMiddle(front, k, back);
      assert [k] + (front + back) == [k] + front + back;
    } else if |s.order| == size {
      NewOneEvicts(s.order, k, size);
    }
  }

  lemma NewOneEvicts(order: seq<string>, k: string, size: nat)
    requires |order| == size && size > 0
    ensures ([k] + order)[..size] == [k] + order[..size - 1] && ([k] + order)[size] == order[size - 1]
  {
  }

  lemma {:induction false} WithoutRecent(order: seq<string>, other: string, i: nat) returns (j: nat)
    requires i < |order| && order[i] != other
    ensures j <= i && j < |Without(order, other)| && Without(order, other)[j] == order[i]
  {
    if i == 0 {
      j := 0;
    } else {
      var m := WithoutRecent(order[1..], other, i - 1);
      j := if order[0] == other then m else m + 1;
    }
  }

  /** A call for another key moves a key back by one place at most, and only an eviction takes
      its entry away. */
  lemma {:induction false} OtherCallKeeps(
    s: Store, size: nat, ttl: int, other: string, now: int, fetched: Fetched, later: int, k: string, m: nat)
    requires Consistent(s, size) && k != other && Recent(s, k, m) && m < size
    ensures var after := GetThrough(s, size, ttl, other, now, fetched, later).0;
      && Consistent(after, size) && Recent(after, k, m + 1)
      && k in s.items && k in after.items && after.items[k] == s.items[k]
  {
    TouchAndRemoveKeep(s, size, other);
    TouchAndRemoveKeep(Touch(s, other), size, other);
    MovesBack(s, size, other, k, m);
    var (got, live) := GetLive(s, other, now);
    if live.None? && fetched.Ok? {
      var e := Entry(fetched.value.val, KeptTill(fetched.value.eol, later, ttl));
      AddKeeps(got, size, other, e);
      if other in s.items {
        TakenTwice(s, other);
      }
      AddMovesBack(got, size, other, e, k, m);
    }
  }

  /** Removing a key that was just used leaves what removing it at once would. */
  lemma {:induction false} TakenTwice(s: Store, other: string)
    requires other in s.items
    ensures Remove(Touch(s, other), other).order == Without(s.order, other)
  {
    WithoutExactly(s.order, other);
    WithoutExactly(Without(s.order, other), other);
    assert ([other] + Without(s.order, other))[1..] == Without(s.order, other);
  }

  lemma {:induction false} MovesBack(s: Store, size: nat, other: string, k: string, m: nat)
    requires Consistent(s, size) && k != other && Recent(s, k, m)
    ensures Recent(Touch(s, other), k, m + 1)
    ensures other in s.items ==> Recent(Remove(Touch(s, other), other), k, m)
    ensures k in s.items
  {
    var i :| 0 <= i < m && i < |s.order| && s.order[i] == k;
    var j := WithoutRecent(s.order, other, i);
    assert ([other] + Without(s.order, other))[j + 1] == k;
    if other in s.items {
      TakenTwice(s, other);
      assert Remove(Touch(s, other), other).order[j] == k;
    }
  }

  lemma {:induction false} AddMovesBack(s: Store, size: nat, other: string, e: Entry, k: string, m: nat)
    requires Consistent(s, size) && k != other && Recent(s, k, m) && m < size
    ensures Recent(Add(s, size, other, e), k, m + 1)
    ensures k in s.items && k in Add(s, size, other, e).items && Add(s, size, other, e).items[k] == s.items[k]
  {
    var i :| 0 <= i < m && i < |s.order| && s.order[i] == k;
    var j := WithoutRecent(s.order, other, i);
    var order := [other] + Without(s.order, other);
    assert order[j + 1] == k;
    WithoutDistinct(s.order, other);
    hide Without;
    if |order| > size {
      assert order[..size][j + 1] == k && order[size] != order[j + 1];
    }
    assert Add(s, size, other, e).order[j + 1] == k;
  }

  /** A call of GetValue, with what the source returns if it is asked. */
  datatype Ask = Ask(k: string, now: int, fetched: Fetched, later: int)

  /** A value is fetched and stored at `at`; then, after fewer calls for other keys than the
      cache has places, its key is asked for at `t`. The fetched value is served, whatever the
      source has by then, exactly when neither its lifetime nor its expiry is over; otherwise
      the source's answer is. */
  method FetchThenAsk(
    cache: ResolverCache, k: string, now: int, found: Found, at: int, between: seq<Ask>,
    t: int, fetched: Fetched, later: int)
    returns (r: Result<Bytes, Error>)
    requires cache.Valid() && |between| < cache.Size()
    requires k in cache.Contents().items ==> cache.Contents().items[k].till <= now
    requires forall i | 0 <= i < |between| :: between[i].k != k
    modifies cache.lru
    ensures cache.Valid()
    ensures r == if t < at + cache.ttl && (found.eol.Some? ==> t < found.eol.value) then Ok(found.val)
      else match fetched case Ok(newer) => Ok(newer.val) case Err(e) => Err(e)
  {
    hide Without, Consistent, GetLive, Add;
    ghost var size := cache.Size();
    FetchIsKept(cache.Contents(), size, cache.ttl, k, now, found, at);
    var first := cache.GetValue(k, now, Ok(found), at);
    for i := 0 to |between|
      invariant cache.Valid() && cache.Size() == size && Consistent(cache.Contents(), size)
      invariant KeptFor(cache.Contents(), k, found.val, at, cache.ttl, found.eol)
      invariant Recent(cache.Contents(), k, i + 1)
    {
      var ask := between[i];
      OtherCallKeeps(cache.Contents(), size, cache.ttl, ask.k, ask.now, ask.fetched, ask.later, k, i + 1);
      var other := cache.GetValue(ask.k, ask.now, ask.fetched, ask.later);
    }
    KeptIsServed(cache.Contents(), size, cache.ttl, k, found.val, at, found.eol, t, fetched, later);
    r := cache.GetValue(k, t, fetched, later);
  }

  lemma {:induction false} FetchIsKept(s: Store, size: nat, ttl: int, k: string, now: int, found: Found, at: int)
    requires (size > 0 ==> Consistent(s, size)) && size > 0
    requires k in s.items ==> s.items[k].till <= now
    ensures var after := GetThrough(s, size, ttl, k, now, Ok(found), at).0;
      Consistent(after, size) && KeptFor(after, k, found.val, at, ttl, found.eol) && Recent(after, k, 1)
  {
    hide Without, Consistent, Add, KeptFor, Recent;
    TouchAndRemoveKeep(s, size, k);
    TouchAndRemoveKeep(Touch(s, k), size, k);
    var got := GetLive(s, k, now).0;
    AddKeeps(got, size, k, Entry(found.val, KeptTill(found.eol, at, ttl)));
    AddIsKept(got, size, k, found.val, found.eol, at, ttl);
  }

  lemma {:induction false} KeptIsServed(
    s: Store, size: nat, ttl: int, k: string, val: Bytes, at: int, eol: Option<int>,
    t: int, fetched: Fetched, later: int)
    requires size > 0 && KeptFor(s, k, val, at, ttl, eol)
    ensures GetThrough(s, size, ttl, k, t, fetched, later).1 ==
      if t < at + ttl && (eol.Some? ==> t < eol.value) then Ok(val) else ValueOf(fetched)
  {
    hide Without, Add;
  }

  // ---- Transparency ---------------------------------------------------------------------

  /** Every entry holds the value the source has for its key. */
  ghost predicate Faithful(s: Store, source: string -> Fetched) {
    forall k | k in s.items :: source(k).Ok? && s.items[k].val == source(k).value.val
  }

  lemma {:induction false} CallIsTransparent(
    s: Store, size: nat, ttl: int, k: string, now: int, source: string -> Fetched, later: int)
    requires Consistent(s, size) && Faithful(s, source)
    ensures var (after, r) := GetThrough(s, size, ttl, k, now, source(k), later);
      && r == ValueOf(source(k))
      && Consistent(after, size) && Faithful(after, source)
  {
    hide Without, Consistent, Distinct;
    if size > 0 {
      TouchAndRemoveKeep(s, size, k);
      TouchAndRemoveKeep(Touch(s, k), size, k);
      var (got, live) := GetLive(s, k, now);
      if live.None? && source(k).Ok? {
        AddKeeps(got, size, k, Entry(source(k).value.val, KeptTill(source(k).value.eol, later, ttl)));
      }
    }
  }

  /** One call of GetValue: the key, and the clock at its two readings. */
  datatype Call = Call(k: string, now: int, later: int)

  function RunCalls(s: Store, size: nat, ttl: int, source: string -> Fetched, calls: seq<Call>)
    : (Store, seq<Result<Bytes, Error>>)
    decreases |calls|
  {
    if calls == [] then (s, [])
    else
      var c := calls[0];
      var (next, r) := GetThrough(s, size, ttl, c.k, c.now, source(c.k), c.later);
      var (last, rest) := RunCalls(next, size, ttl, source, calls[1..]);
      (last, [r] + rest)
  }

  /** Cache transparency: in front of a source that does not change, every sequence of
      calls at any times returns what the source returns, errors included, for every
      size, lifetime and expiry; the store never grows past its size and never holds a
      key for which the source has an error. */
  lemma {:induction false} RunIsTransparent(
    s: Store, size: nat, ttl: int, source: string -> Fetched, calls: seq<Call>)
    requires Consistent(s, size) && Faithful(s, source)
    ensures var (last, results) := RunCalls(s, size, ttl, source, calls);
      && |results| == |calls|
      && (forall i | 0 <= i < |calls| :: results[i] == ValueOf(source(calls[i].k)))
      && |last.order| <= size
      && (forall k | source(k).Err? :: k !in last.items)
    decreases |calls|
  {
    if calls != [] {
      var c := calls[0];
      CallIsTransparent(s, size, ttl, c.k, c.now, source, c.later);
      var (next, r) := GetThrough(s, size, ttl, c.k, c.now, source(c.k), c.later);
      RunIsTransparent(next, size, ttl, source, calls[1..]);
      assert forall i | 0 < i < |calls| :: calls[i] == calls[1..][i - 1];
    }
  }

  /** The store drops only what was used longest ago: after a value for k was fetched and
      stored, k is the latest key, and of the others at most the last one is gone. */
  lemma {:induction false} EvictsOldestOnly(s: Store, size: nat, k: string, e: Entry, other: string)
    requires Consistent(s, size) && size > 0
    requires other in s.items && other != k
    ensures var after := Add(s, size, k, e);
      && |after.order| > 0 && after.order[0] == k && k in after.items && after.items[k] == e
      && (other !in after.items <==> |s.order| == size && k !in s.items && s.order[size - 1] == other)
      && (other in after.items ==> after.items[other] == s.items[other])
  {
    hide Without;
    WithoutExactly(s.order, k);
    var kept := Without(s.order, k);
    assert other in kept && other in s.items[k := e];
    if |kept| >= size {
      FullStore(s, size, k);
      assert ([k] + kept)[size] == kept[size - 1];
    }
  }

  lemma {:induction false} FullStore(s: Store, size: nat, k: string)
    requires Consistent(s, size) && size > 0 && |Without(s.order, k)| >= size
    ensures k !in s.items && |s.order| == size && ([k] + Without(s.order, k))[size] == s.order[size - 1]
  {
    WithoutExactly(s.order, k);
  }
}
