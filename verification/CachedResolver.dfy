/** The resolver with its three caches (resolver/resolver.go, resolver/cache.go): the
    walk mutates them at every hop and still answers what the walk without caches
    answers. */
module CachedResolver {
  import opened Wrappers
  import opened Text
  import opened Library
  import opened Targets
  import opened Dispatch
  import opened Resolution
  import opened Sources
  import opened Cache

  type Source = Key -> Fetched

  function NamesOf(source: Source): Lookup {
    (key: Key) => ValueOf(source(key))
  }

  function SourceOf(source: Source, kind: Kind): string -> Fetched {
    (k: string) => source(Key(kind, k))
  }

  class Resolver {
    const lib: Lib
    const source: Source
    const dns: ResolverCache
    const iprs: ResolverCache
    const ipns: ResolverCache
    /** The readings of the clock, and how many were taken so far. */
    const clock: nat -> int
    var readings: nat

    ghost predicate CacheValid(cache: ResolverCache, kind: Kind)
      reads cache, cache.lru
    {
      cache.Valid() && Consistent(cache.Contents(), cache.Size()) && Faithful(cache.Contents(), SourceOf(source, kind))
    }

    ghost predicate Valid()
      reads this, dns, dns.lru, iprs, iprs.lru, ipns, ipns.lru
    {
      && (dns.lru != null ==> dns.lru != iprs.lru && dns.lru != ipns.lru)
      && (iprs.lru != null ==> iprs.lru != ipns.lru)
      && CacheValid(dns, Dns) && CacheValid(iprs, Iprs) && CacheValid(ipns, Ipns)
    }

    /** Empty caches of any sizes and lifetimes. */
    constructor (lib: Lib, source: Source, clock: nat -> int,
      dnsSize: int, dnsTtl: int, iprsSize: int, iprsTtl: int, ipnsSize: int, ipnsTtl: int)
      ensures Valid() && this.lib == lib && this.source == source
    {
      this.lib := lib;
      this.source := source;
      this.clock := clock;
      this.dns := new ResolverCache(dnsSize, dnsTtl);
      this.iprs := new ResolverCache(iprsSize, iprsTtl);
      this.ipns := new ResolverCache(ipnsSize, ipnsTtl);
      this.readings := 0;
    }

    static method AppendParts(a1: seq<string>, a2: seq<string>) returns (ar: seq<string>)
      ensures ar == Resolution.AppendParts(a1, a2)
      ensures exists places :: AllNonEmpty(ar, a1 + a2, places)
    {
      ar := [];
      for i := 0 to |a1|
        invariant ar == NonEmpty(a1[..i])
      {
        NonEmptyConcat(a1[..i], [a1[i]]);
        assert a1[..i + 1] == a1[..i] + [a1[i]];
        if |a1[i]| > 0 {
          ar := ar + [a1[i]];
        }
      }
      assert a1[..|a1|] == a1;
      for i := 0 to |a2|
        invariant ar == NonEmpty(a1) + NonEmpty(a2[..i])
      {
        NonEmptyConcat(a2[..i], [a2[i]]);
        assert a2[..i + 1] == a2[..i] + [a2[i]];
        if |a2[i]| > 0 {
          ar := ar + [a2[i]];
        }
      }
      assert a2[..|a2|] == a2;
      NonEmptyConcat(a1, a2);
      ghost var places := NonEmptyKeeps(a1 + a2);
    }

    /** Asks one cache, which holds what the source has for its kind of key. */
    method Ask(cache: ResolverCache, key: Key) returns (r: Result<Bytes, Error>)
      requires CacheValid(cache, key.kind)
      modifies this`readings, cache.lru
      ensures CacheValid(cache, key.kind) && r == NamesOf(source)(key)
    {
      hide GetThrough, Faithful, Consistent;
      CallIsTransparent(cache.Contents(), cache.Size(), cache.ttl, key.text, clock(readings),
                        SourceOf(source, key.kind), clock(readings + 1));
      r := cache.GetValue(key.text, clock(readings), source(key), clock(readings + 1));
      readings := readings + 2;
    }

    method LookUp(key: Key) returns (r: Result<Bytes, Error>)
      requires Valid()
      modifies this`readings, dns.lru, iprs.lru, ipns.lru
      ensures Valid() && r == NamesOf(source)(key)
    {
      match key.kind {
        case Dns => r := Ask(dns, key);
        case Iprs => r := Ask(iprs, key);
        case Ipns => r := Ask(ipns, key);
      }
    }

    /** Resolution through the caches is resolution without them: same CID, same path,
        same error, at every depth, for all cache sizes, lifetimes and clocks. */
    method ResolveWithAppendage(p: string, depth: nat, apnd: seq<string>) returns (answer: Answer)
      requires Valid()
      modifies this`readings, dns.lru, iprs.lru, ipns.lru
      ensures Valid()
      ensures answer == Resolution.ResolveWithAppendage(lib, NamesOf(source), p, depth, apnd)
      decreases depth
    {
      var hop := NextHop(lib, p);
      if hop.NoResolver? {
        var target := ParseTargetToCid(lib, p);
        if target.Some? {
          var path := AppendParts(target.value.rest, apnd);
          return Resolved(target.value.cid, path);
        }
        return Unrecognized(p);
      }
      if depth == 0 {
        return RecursionLimit;
      }
      if hop.Panic? {
        return Crashed;
      }
      var res := LookUp(hop.key);
      if res.Err? {
        return LookupFailed(res.error);
      }
      var rest := AppendParts(hop.rest, apnd);
      answer := ResolveWithAppendage(res.value, depth - 1, rest);
    }

    method Resolve(p: string, depth: nat) returns (answer: Answer)
      requires Valid()
      modifies this`readings, dns.lru, iprs.lru, ipns.lru
      ensures Valid()
      ensures answer == Resolution.Resolve(lib, NamesOf(source), p, depth)
    {
      answer := ResolveWithAppendage(p, depth, []);
    }

    /** With the three sub-resolvers' GetValue over a world as the source: what the
        resolver answers is the uncached resolution in that world. */
    method ResolveIn(w: World, p: string, depth: nat) returns (answer: Answer)
      requires Valid() && forall key: Key :: source(key) == Sources.GetValue(lib, w, key)
      modifies this`readings, dns.lru, iprs.lru, ipns.lru
      ensures Valid()
      ensures answer == Resolution.Resolve(lib, Names(lib, w), p, depth)
    {
      SameAnswersSameResolution(lib, NamesOf(source), Names(lib, w), p, depth, []);
      answer := Resolve(p, depth);
    }
  }
}
