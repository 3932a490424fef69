/** The laws assumed of the outside code do not contradict each other: here is a library
    that obeys all of them. */
module LawsHold {
  import opened Wrappers
  import opened Text
  import opened Library
  import opened Targets
  import opened Dispatch
  import opened Sources
  import opened EndToEnd
  import opened Resolution

  /** n times `c`, then a terminator */
  function Mark(n: nat, c: char): string {
    if n == 0 then ";" else [c] + Mark(n - 1, c)
  }

  lemma {:induction false} MarkReads(a: nat, x: string, b: nat, y: string, c: char)
    requires c != ';' && Mark(a, c) + x == Mark(b, c) + y
    ensures a == b && x == y
  {
    var s, t := Mark(a, c) + x, Mark(b, c) + y;
    assert s[0] == (if a == 0 then ';' else c) && t[0] == (if b == 0 then ';' else c);
    if a == 0 {
      assert s[1..] == x && t[1..] == y;
    } else {
      assert s[1..] == Mark(a - 1, c) + x && t[1..] == Mark(b - 1, c) + y;
      MarkReads(a - 1, x, b - 1, y, c);
    }
  }

  /** Text without "/" that stands for any text. */
  function Escape(s: string): string {
    if s == "" then ""
    else (if s[0] == '/' then "!s" else if s[0] == '!' then "!!" else [s[0]]) + Escape(s[1..])
  }

  lemma {:induction false} EscapeReads(s: string, t: string)
    ensures '/' !in Escape(s)
    ensures Escape(s) == Escape(t) ==> s == t
  {
    if s != "" {
      EscapeReads(s[1..], if t == "" then t else t[1..]);
      if t != "" && Escape(s) == Escape(t) {
        assert Escape(s)[0] == Escape(t)[0];
        if s[0] == '/' || s[0] == '!' {
          assert Escape(s)[1] == Escape(t)[1];
          assert Escape(s[1..]) == Escape(s)[2..] == Escape(t)[2..] == Escape(t[1..]);
        } else {
          assert Escape(s[1..]) == Escape(s)[1..] == Escape(t)[1..] == Escape(t[1..]);
        }
        assert s == [s[0]] + s[1..] && t == [t[0]] + t[1..];
      }
    }
  }

  function CidText(c: Cid): string {
    Mark(c.version, 'v') + (Mark(c.codec, 'c') + Escape(c.mh))
  }

  function CidBinary(c: Cid): Bytes {
    Mark(c.version, 'v') + (Mark(c.codec, 'c') + c.mh)
  }

  lemma {:induction false} CidReads(a: Cid, b: Cid)
    ensures CidText(a) == CidText(b) ==> a == b
    ensures CidBinary(a) == CidBinary(b) ==> a == b
  {
    EscapeReads(a.mh, b.mh);
    if CidText(a) == CidText(b) {
      MarkReads(a.version, Mark(a.codec, 'c') + Escape(a.mh), b.version, Mark(b.codec, 'c') + Escape(b.mh), 'v');
      MarkReads(a.codec, Escape(a.mh), b.codec, Escape(b.mh), 'c');
    }
    if CidBinary(a) == CidBinary(b) {
      MarkReads(a.version, Mark(a.codec, 'c') + a.mh, b.version, Mark(b.codec, 'c') + b.mh, 'v');
      MarkReads(a.codec, a.mh, b.codec, b.mh, 'c');
    }
  }

  lemma {:induction false} MarkShape(n: nat, c: char)
    requires c != '/' && c != '.' && c != 'Z'
    ensures Mark(n, c) != "" && '/' !in Mark(n, c) && '.' !in Mark(n, c) && 'Z' !in Mark(n, c)
    ensures |Mark(n, c)| == n + 1
  {
    if n > 0 {
      MarkShape(n - 1, c);
    }
  }

  function TimeText(t: int): string {
    (if t >= 0 then "+" + Mark(t, '1') else "-" + Mark(-t, '1')) + "Z"
  }

  lemma {:induction false} TimeReads(a: int, b: int)
    ensures Stamp(TimeText(a))
    ensures TimeText(a) == TimeText(b) ==> a == b
  {
    MarkShape(if a >= 0 then a else -a, '1');
    MarkShape(if b >= 0 then b else -b, '1');
    assert TimeText(a)[..|TimeText(a)| - 1] == (if a >= 0 then "+" + Mark(a, '1') else "-" + Mark(-a, '1'));
    if TimeText(a) == TimeText(b) {
      assert TimeText(a)[0] == TimeText(b)[0];
      assert |TimeText(a)| == |TimeText(b)|;
    }
  }

  ghost function Inverse<T(!new)>(f: T -> string, s: string): Option<T> {
    if exists x: T :: f(x) == s then
      var x: T :| f(x) == s;
      Some(x)
    else None
  }

  lemma {:induction false} InverseInverts<T(!new)>(f: T -> string, x: T)
    requires forall y: T :: f(y) == f(x) ==> y == x
    ensures Inverse(f, f(x)) == Some(x)
  {
  }

  ghost function Sample(): Lib {
    Lib(
      _ => true,
      _ => true,
      s => s == "example.com",
      CidText,
      s => Inverse(CidText, s),
      s => Inverse(CidText, s),
      CidBinary,
      s => Inverse(CidBinary, s),
      b => if b == "mh" then Some(b) else None,
      _ => "digest",
      TimeText,
      s => Inverse(TimeText, s),
      (sk: PrivKey) => PubKey(sk.material),
      (pk: PubKey) => pk.material,
      bytes => Some(PubKey(bytes)),
      (_, m) => m,
      (_, m, sig) => m == sig,
      (cert: Certificate) => PubKey(cert.raw),
      (cert: Certificate) => cert.raw,
      bytes => Some(Certificate(bytes)),
      (_, m) => m,
      (_, m, sig) => m == sig,
      (_, _) => true,
      b => Some(IpnsEntry(b, "", 1, b + "EOL")),
      _ => "EOL")
  }

  lemma StartOfCid(c: Cid)
    ensures CidText(c) != "" && (CidText(c)[0] == 'v' || CidText(c)[0] == ';')
    ensures CidBinary(c) != "" && (CidBinary(c)[0] == 'v' || CidBinary(c)[0] == ';')
  {
  }

  /** Text that starts with another character is no CID. */
  lemma NoCid(s: string)
    requires s != "" && s[0] != 'v' && s[0] != ';'
    ensures Sample().cidDecode(s) == None && Sample().cidParse(s) == None && Sample().cidCast(s) == None
  {
    forall c: Cid ensures CidText(c) != s && CidBinary(c) != s { StartOfCid(c); }
  }

  /** All laws hold together. */
  lemma {:induction false} SampleIsLawful()
    ensures Lawful(Sample())
  {
    var lib := Sample();
    NoCid("example.com");
    forall c: Cid
      ensures lib.cidDecode(lib.cidString(c)) == Some(c)
      ensures lib.cidParse(lib.cidString(c)) == Some(c)
      ensures lib.cidCast(lib.cidBytes(c)) == Some(c)
      ensures '/' !in lib.cidString(c) && Plain(lib.cidString(c))
    {
      forall d: Cid
        ensures CidText(d) == CidText(c) ==> d == c
        ensures CidBinary(d) == CidBinary(c) ==> d == c
      {
        CidReads(d, c);
      }
      InverseInverts(CidText, c);
      InverseInverts(CidBinary, c);
      MarkShape(c.version, 'v');
      MarkShape(c.codec, 'c');
      EscapeReads(c.mh, c.mh);
      assert CidText(c)[0] == Mark(c.version, 'v')[0] && Mark(c.version, 'v')[0] != '.';
    }
    forall t: int
      ensures lib.parseTime(lib.formatTime(t)) == Some(t) && Stamp(lib.formatTime(t))
    {
      forall u: int ensures TimeText(u) == TimeText(t) ==> u == t { TimeReads(u, t); }
      TimeReads(t, t);
      InverseInverts(TimeText, t);
    }
    forall a: Cid, b: Cid | a.version == b.version && a.codec == b.codec && |a.mh| == |b.mh|
      ensures |lib.cidBytes(a)| == |lib.cidBytes(b)|
    {
    }
  }

  /** The world of the sample: an IPNS entry for a CID, signed by a key, and a domain, both
      with a path to that CID. */
  function SampleWorld(c: Cid, sk: PrivKey): World {
    var link := "/ipfs/" + CidText(c);
    World(map["example.com" := ["dnslink=" + link]],
          map["/ipns/" + c.mh := link, "/pk/" + CidBinary(c) := sk.material],
          map[])
  }

  lemma {:induction false} LinkIsCanonical(c: Cid)
    ensures Canonical(Sample(), Target(c, [])) == "/ipfs/" + CidText(c)
    ensures ParseTargetToCid(Sample(), "/ipfs/" + CidText(c)) == Some(Target(c, []))
    ensures GetResolver(Sample(), "/ipfs/" + CidText(c)) == None
  {
    var lib := Sample();
    SampleIsLawful();
    var target := Target(c, []);
    JoinCons("", ["ipfs", CidText(c)], '/');
    JoinCons("ipfs", [CidText(c)], '/');
    assert ["", "ipfs", CidText(c)] + [] == [""] + ["ipfs", CidText(c)];
    assert ["ipfs", CidText(c)] == ["ipfs"] + [CidText(c)];
    assert Canonical(lib, target) == "" + ['/'] + ("ipfs" + ['/'] + CidText(c)) == "/ipfs/" + CidText(c);
    NoCid("/ipfs/" + CidText(c));
    TargetFormats(lib, c, [], "");
    CanonicalNotTaken(lib, target);
  }

  lemma {:induction false} EntryIsNoName(c: Cid)
    ensures Sample().cidDecode("dnslink=/ipfs/" + CidText(c)) == None
    ensures !IsResolvable(Sample(), "dnslink=/ipfs/" + CidText(c))
  {
    var lib := Sample();
    var s := "dnslink=/ipfs/" + CidText(c);
    CidTextReads(c);
    NoCid(s);
    NoCid("dnslink=");
    EntryParts(c);
    GetResolverCases(lib, s);
    hide CidText, Split, Inverse;
    assert !lib.isDomain(CidText(c));
  }

  lemma {:induction false} CidTextReads(c: Cid)
    ensures '/' !in CidText(c) && Sample().cidDecode(CidText(c)) == Some(c) && !Sample().isDomain(CidText(c))
  {
    SampleIsLawful();
    assert Sample().wellFormed(c) && Sample().cidString(c) == CidText(c);
    hide CidText;
  }

  lemma {:induction false} EntryParts(c: Cid)
    ensures Split("dnslink=/ipfs/" + CidText(c), '/') == ["dnslink=", "ipfs", CidText(c)]
  {
    var parts := ["dnslink=", "ipfs", CidText(c)];
    CidTextReads(c);
    hide CidText;
    SplitJoin(parts, '/');
    JoinCons("dnslink=", ["ipfs", CidText(c)], '/');
    JoinCons("ipfs", [CidText(c)], '/');
    assert parts == ["dnslink="] + ["ipfs", CidText(c)] && ["ipfs", CidText(c)] == ["ipfs"] + [CidText(c)];
    assert "dnslink=" + ['/'] + ("ipfs" + ['/'] + CidText(c)) == "dnslink=/ipfs/" + CidText(c);
  }

  /** The laws hold together with a domain and an IPNS name that resolve. */
  lemma {:induction false} SampleNamesResolve(c: Cid, sk: PrivKey, depth: nat)
    requires depth > 0
    ensures var lib := Sample(); var get := Names(lib, SampleWorld(c, sk));
      && Lawful(lib)
      && Resolve(lib, get, "/ipns/example.com", depth) == Resolved(c, [])
      && Resolve(lib, get, "/ipns/" + CidText(c), depth) == Resolved(c, [])
  {
    hide *;
    SampleIsLawful();
    DomainHolds(c, sk, depth);
    EntryHolds(c, sk, depth);
  }

  lemma {:induction false} DomainHolds(c: Cid, sk: PrivKey, depth: nat)
    requires depth > 0
    ensures Resolve(Sample(), Names(Sample(), SampleWorld(c, sk)), "/ipns/example.com", depth) == Resolved(c, [])
  {
    var lib, w, link := Sample(), SampleWorld(c, sk), "/ipfs/" + CidText(c);
    hide *;
    LinkIsCanonical(c);
    EntryIsNoName(c);
    DomainFacts(c, sk);
    assert "dnslink=" + link == "dnslink=/ipfs/" + CidText(c);
    assert "/" + "ipns" + "/" + "example.com" == "/ipns/example.com";
    ExtendNothing("/ipns/example.com");
    DomainResolves(lib, w, "ipns", "example.com", link, false, 0, [], depth);
  }

  lemma ExtendNothing(p: string)
    ensures Extend(p, []) == p && AllPlain([]) && Free([], '/') && NonEmpty([]) == []
  {
  }

  lemma {:induction false} DomainFacts(c: Cid, sk: PrivKey)
    ensures Sample().isDomain("example.com")
    ensures var w := SampleWorld(c, sk);
      && "example.com" in w.txt && w.txt["example.com"] == ["dnslink=" + ("/ipfs/" + CidText(c))]
      && LookupDomain(Sample(), w, "_dnslink." + "example.com").Err?
  {
    hide CidText;
    assert ("_dnslink." + "example.com")[0] == '_' && "example.com"[0] == 'e';
  }

  lemma {:induction false} EntryHolds(c: Cid, sk: PrivKey, depth: nat)
    requires depth > 0
    ensures Resolve(Sample(), Names(Sample(), SampleWorld(c, sk)), "/ipns/" + CidText(c), depth) == Resolved(c, [])
  {
    var lib, w, link := Sample(), SampleWorld(c, sk), "/ipfs/" + CidText(c);
    var entry := IpnsEntry(link, "", 1, link + "EOL");
    hide *;
    SampleIsLawful();
    LinkIsCanonical(c);
    EntryFacts(c, sk);
    ExtendNothing("/ipns/" + CidText(c));
    IpnsResolves(lib, w, c, entry, sk, [], depth);
  }

  lemma {:induction false} EntryFacts(c: Cid, sk: PrivKey)
    ensures var lib, link := Sample(), "/ipfs/" + CidText(c);
      var entry := IpnsEntry(link, "", 1, link + "EOL");
      && HoldsEntry(lib, SampleWorld(c, sk), c, entry, lib.publicKey(sk))
      && entry.signature == lib.sign(sk, EntryDataForSig(lib, entry))
      && lib.wellFormed(c) && lib.cidString(c) == CidText(c)
  {
    hide CidText, CidBinary;
    var link := "/ipfs/" + CidText(c);
    assert ("/ipns/" + c.mh)[1] == 'i' && ("/pk/" + CidBinary(c))[1] == 'p';
    assert link + "" + "EOL" == link + "EOL";
  }
}
