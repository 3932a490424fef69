/** Which sub-resolver takes a name, under which key it looks the name up, and
    what part of the name it leaves over (resolver/resolver.go, dns.go, iprs.go,
    ipns.go). */
module Dispatch {
  import opened Wrappers
  import opened Text
  import opened Library
  import opened IprsPaths
  import opened Targets

  datatype Kind = Dns | Iprs | Ipns

  /** The key a sub-resolver asks its cache for. */
  datatype Key = Key(kind: Kind, text: string)

  /** The order in which NewResolver lists the sub-resolvers. */
  const RESOLVERS: seq<Kind> := [Dns, Iprs, Ipns]

  predicate Accept(lib: Lib, kind: Kind, p: string) {
    match kind
    case Dns =>
      var parts := Split(p, '/');
      |parts| > 2 && lib.isDomain(parts[2])
    case Iprs =>
      IsValid(lib, p)
    case Ipns =>
      var parts := Split(p, '/');
      |parts| >= 3 && parts[1] == "ipns" && lib.cidDecode(parts[2]).Some?
  }

  function FirstAccepting(lib: Lib, p: string, resolvers: seq<Kind>): Option<Kind> {
    if resolvers == [] then None
    else if Accept(lib, resolvers[0], p) then Some(resolvers[0])
    else FirstAccepting(lib, p, resolvers[1..])
  }

  function GetResolver(lib: Lib, p: string): Option<Kind> {
    FirstAccepting(lib, p, RESOLVERS)
  }

  predicate IsResolvable(lib: Lib, s: string) {
    ParseTargetToCid(lib, s).Some? || GetResolver(lib, s).Some?
  }

  /** What resolving one name starts with: no sub-resolver takes it, the one that
      does panics on it, or it is looked up under a key with a rest left over. */
  datatype Hop = NoResolver | Panic | Follow(key: Key, rest: seq<string>)

  function NextHop(lib: Lib, p: string): Hop {
    match GetResolver(lib, p)
    case None => NoResolver
    case Some(Dns) =>
      var parts := Split(p, '/');
      if |parts| > 2 then Follow(Key(Dns, parts[2]), parts[3..]) else NoResolver
    case Some(Iprs) =>
      (match FromString(lib, p)
       case Err(_) => NoResolver
       case Ok(path) =>
         match BasePath(path)
         case None => Panic
         case Some(base) => Follow(Key(Iprs, base), RelativePath(path).value))
    case Some(Ipns) =>
      var parts := Split(p, '/');
      if |parts| > 2 then Follow(Key(Ipns, "/ipns/" + parts[2]), parts[3..]) else NoResolver
  }

  lemma {:induction false} GetResolverCases(lib: Lib, p: string)
    ensures GetResolver(lib, p) ==
      if Accept(lib, Dns, p) then Some(Dns)
      else if Accept(lib, Iprs, p) then Some(Iprs)
      else if Accept(lib, Ipns, p) then Some(Ipns)
      else None
  {
    assert RESOLVERS[1..] == [Iprs, Ipns];
    assert RESOLVERS[1..][1..] == [Ipns];
    assert FirstAccepting(lib, p, RESOLVERS[1..]) ==
      if Accept(lib, Iprs, p) then Some(Iprs) else FirstAccepting(lib, p, [Ipns]);
    assert FirstAccepting(lib, p, [Ipns]) ==
      if Accept(lib, Ipns, p) then Some(Ipns) else FirstAccepting(lib, p, []);
  }

  /** A name is a dead end exactly when none of the three sub-resolvers accepts it. */
  lemma {:induction false} NoResolverExactly(lib: Lib, p: string)
    ensures NextHop(lib, p) == NoResolver <==> forall kind :: !Accept(lib, kind, p)
    ensures NextHop(lib, p) == NoResolver <==> GetResolver(lib, p) == None
  {
    GetResolverCases(lib, p);
    if GetResolver(lib, p) == None {
      forall kind ensures !Accept(lib, kind, p) {
        match kind case Dns => case Iprs => case Ipns =>
      }
    }
  }

  /** Nothing of a name is lost on a hop: the key and the rest put together again are the
      name. For an IPRS path this is so when it has no "." or ".." segment. */
  lemma {:induction false} HopRejoins(lib: Lib, p: string)
    requires NextHop(lib, p).Follow?
    ensures var parts := Split(p, '/'); var hop := NextHop(lib, p);
      match hop.key.kind
      case Dns => Join([parts[0], parts[1], hop.key.text] + hop.rest, '/') == p
      case Ipns => Join([parts[0] + hop.key.text] + hop.rest, '/') == p
      case Iprs => AllPlain(parts[1..]) ==> Join([hop.key.text] + hop.rest, '/') == p
  {
    var parts := Split(p, '/');
    var hop := NextHop(lib, p);
    GetResolverCases(lib, p);
    hide Split, Join, CleanOnto, Segments, CleanRooted;
    JoinSplit(p, '/');
    match hop.key.kind
    case Dns =>
      assert [parts[0], parts[1], hop.key.text] + hop.rest == parts;
    case Ipns =>
      IpnsRejoins(parts);
      assert parts[0] + "/ipns/" + parts[2] == parts[0] + hop.key.text;
    case Iprs =>
      if AllPlain(parts[1..]) {
        RoundTrip(lib, FromString(lib, p).value);
      }
  }

  lemma {:induction false} IpnsRejoins(parts: seq<string>)
    requires |parts| > 2 && parts[1] == "ipns"
    ensures Join([parts[0] + "/ipns/" + parts[2]] + parts[3..], '/') == Join(parts, '/')
  {
    var front := [parts[0], "ipns", parts[2]];
    JoinAppend(front, parts[3..]);
    assert front + parts[3..] == parts;
    JoinCons(parts[0], ["ipns", parts[2]], '/');
    JoinCons("ipns", [parts[2]], '/');
    assert front == [parts[0]] + ["ipns", parts[2]] && ["ipns", parts[2]] == ["ipns"] + [parts[2]];
    assert parts[0] + ['/'] + ("ipns" + ['/'] + parts[2]) == parts[0] + "/ipns/" + parts[2];
  }

  /** p followed by "/s" for every s in suffix */
  function Extend(p: string, suffix: seq<string>): string {
    Join([p] + suffix, '/')
  }

  lemma {:induction false} SplitExtend(p: string, suffix: seq<string>)
    requires Free(suffix, '/')
    ensures Split(Extend(p, suffix), '/') == Split(p, '/') + suffix
  {
    if suffix == [] {
      assert [p] + suffix == [p];
    } else {
      JoinCons(p, suffix, '/');
      SplitConcat(p, Join(suffix, '/'), '/');
      SplitJoin(suffix, '/');
    }
  }

  /** Plain segments added to an accepted name change neither the sub-resolver nor
      the key; they end up at the end of the rest. */
  lemma {:induction false} ExtendedHop(lib: Lib, p: string, suffix: seq<string>)
    requires NextHop(lib, p).Follow?
    requires AllPlain(suffix) && Free(suffix, '/')
    ensures NextHop(lib, Extend(p, suffix)) == Follow(NextHop(lib, p).key, NextHop(lib, p).rest + suffix)
  {
    var q := Extend(p, suffix);
    var parts, more := Split(p, '/'), Split(q, '/');
    SplitExtend(p, suffix);
    GetResolverCases(lib, p);
    GetResolverCases(lib, q);
    assert more == parts + suffix;
    assert |parts| > 2 && more[0] == parts[0] && more[1] == parts[1] && more[2] == parts[2];
    assert more[3..] == parts[3..] + suffix;
    ExtendedFromString(lib, p, suffix);
    if GetResolver(lib, p) == Some(Iprs) {
      var path := FromString(lib, p).value;
      ExtendedSegments(lib, path, suffix);
    }
  }

  lemma {:induction false} ExtendedFromString(lib: Lib, p: string, suffix: seq<string>)
    requires AllPlain(suffix) && Free(suffix, '/')
    ensures FromString(lib, p).Ok? ==>
      FromString(lib, Extend(p, suffix)) == Ok(IprsPath(Extend(p, suffix), FromString(lib, p).value.c))
    ensures |Split(p, '/')| > 1 && Split(p, '/')[1] == "ipns" ==> FromString(lib, Extend(p, suffix)).Err?
  {
    SplitExtend(p, suffix);
    var parts := Split(p, '/');
    if FromString(lib, p).Ok? {
      var more := parts + suffix;
      forall i | 0 < i < |more| ensures more[i] != "" {
        if i >= |parts| {
          assert more[i] == suffix[i - |parts|];
        }
      }
    }
  }

  lemma {:induction false} ExtendedSegments(lib: Lib, path: IprsPath, suffix: seq<string>)
    requires Built(lib, path) && AllPlain(suffix) && Free(suffix, '/')
    ensures var longer := IprsPath(Extend(path.s, suffix), path.c);
      && (BasePath(path).Some? ==>
            && BasePath(longer) == BasePath(path)
            && RelativePath(longer) == Some(RelativePath(path).value + suffix))
      && (|suffix| >= 3 ==> BasePath(longer).Some?)
  {
    hide Segments, CleanOnto, Split, Extend, FromString;
    var longer := IprsPath(Extend(path.s, suffix), path.c);
    SplitExtend(path.s, suffix);
    SegmentsAreCleaned(path);
    SegmentsAreCleaned(longer);
    CleanOntoSuffix([], Split(path.s, '/'), suffix);
    if BasePath(path).Some? {
      var segs := Segments(path);
      assert Segments(longer) == segs + suffix;
      assert (segs + suffix)[3..] == segs[3..] + suffix;
    }
  }

  /** A slash at the end leaves an empty segment behind the rest of a domain or an IPNS name. */
  lemma {:induction false} SlashedHop(lib: Lib, p: string)
    requires NextHop(lib, p).Follow? && NextHop(lib, p).key.kind != Iprs
    ensures NextHop(lib, p + "/") == Follow(NextHop(lib, p).key, NextHop(lib, p).rest + [""])
  {
    var parts, more := Split(p, '/'), Split(p + "/", '/');
    SplitConcat(p, "", '/');
    assert p + ['/'] + "" == p + "/";
    GetResolverCases(lib, p);
    GetResolverCases(lib, p + "/");
    assert more == parts + [""];
    assert more[3..] == parts[3..] + [""];
  }

  /** A name on which the sub-resolver panics stops panicking when three plain
      segments are added. */
  lemma {:induction false} ExtendedPanicHops(lib: Lib, p: string, suffix: seq<string>)
    requires NextHop(lib, p) == Panic
    requires AllPlain(suffix) && Free(suffix, '/') && |suffix| >= 3
    ensures NextHop(lib, Extend(p, suffix)).Follow?
  {
    GetResolverCases(lib, p);
    GetResolverCases(lib, Extend(p, suffix));
    SplitExtend(p, suffix);
    ExtendedFromString(lib, p, suffix);
    ExtendedSegments(lib, FromString(lib, p).value, suffix);
  }
}
