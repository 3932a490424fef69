/** The other two kinds of names end to end: what is stored for an IPNS name or a domain is
    what resolving the name gives (resolver/ipns.go, resolver/dns.go, resolver/resolver.go). */
module EndToEnd {
  import opened Wrappers
  import opened Text
  import opened Library
  import opened Targets
  import opened Dispatch
  import opened Sources
  import opened Resolution

  lemma {:induction false} PartsOfName(space: string, key: string)
    requires '/' !in space && '/' !in key
    ensures Split("/" + space + "/" + key, '/') == ["", space, key]
  {
    var parts := ["", space, key];
    SplitJoin(parts, '/');
    JoinCons("", [space, key], '/');
    JoinCons(space, [key], '/');
    assert parts == [""] + [space, key] && [space, key] == [space] + [key];
    assert "" + ['/'] + (space + ['/'] + key) == "/" + space + "/" + key;
  }

  /** A domain is looked up as a domain under any name space, "ipns" and "iprs" included. */
  lemma {:induction false} DomainHop(lib: Lib, space: string, domain: string)
    requires lib.isDomain(domain) && '/' !in space && '/' !in domain
    ensures NextHop(lib, "/" + space + "/" + domain) == Follow(Key(Dns, domain), [])
  {
    var p := "/" + space + "/" + domain;
    PartsOfName(space, domain);
    GetResolverCases(lib, p);
  }

  lemma {:induction false} IpnsHop(lib: Lib, c: Cid)
    requires CidLaws(lib) && lib.wellFormed(c)
    ensures var p := "/ipns/" + lib.cidString(c); NextHop(lib, p) == Follow(Key(Ipns, p), [])
  {
    var text := lib.cidString(c);
    PartsOfName("ipns", text);
    assert "/" + "ipns" + "/" + text == "/ipns/" + text;
    assert lib.cidDecode(text) == Some(c);
    GetResolverCases(lib, "/ipns/" + text);
  }

  /** CID text with a subpath is taken for a name by a sub-resolver, instead of being read as
      a target, exactly when its second subpath segment is a domain, or is a CID behind
      "ipns". */
  lemma {:induction false} CidTextTakenExactly(lib: Lib, c: Cid, rest: seq<string>)
    requires CidLaws(lib) && lib.wellFormed(c) && Free(rest, '/')
    ensures GetResolver(lib, Join([lib.cidString(c)] + rest, '/')).Some? <==>
      |rest| >= 2 && (lib.isDomain(rest[1]) || (rest[0] == "ipns" && lib.cidDecode(rest[1]).Some?))
  {
    var parts := [lib.cidString(c)] + rest;
    SplitJoin(parts, '/');
    GetResolverCases(lib, Join(parts, '/'));
    assert |rest| >= 2 ==> parts[1] == rest[0] && parts[2] == rest[1];
  }

  /** No sub-resolver takes a target in its canonical form. */
  lemma {:induction false} CanonicalNotTaken(lib: Lib, target: Target)
    requires CidLaws(lib) && lib.wellFormed(target.cid) && Free(target.rest, '/')
    ensures GetResolver(lib, Canonical(lib, target)) == None
  {
    var parts := ["", "ipfs", lib.cidString(target.cid)] + target.rest;
    SplitJoin(parts, '/');
    GetResolverCases(lib, Canonical(lib, target));
    assert parts[1] == "ipfs" && parts[2] == lib.cidString(target.cid);
    assert lib.cidDecode(parts[2]).Some?;
  }

  /** A name whose key gives a CID target resolves at every depth but zero to that CID,
      with the target's rest and any plain suffix behind it. */
  lemma {:induction false} OneHopResolves(
    lib: Lib, w: World, p: string, val: string, suffix: seq<string>, depth: nat)
    requires NextHop(lib, p).Follow? && NextHop(lib, p).rest == []
    requires ValueOf(GetValue(lib, w, NextHop(lib, p).key)) == Ok(val)
    requires GetResolver(lib, val).None? && ParseTargetToCid(lib, val).Some?
    requires AllPlain(suffix) && Free(suffix, '/') && depth > 0
    ensures var target := ParseTargetToCid(lib, val).value;
      Resolve(lib, Names(lib, w), Extend(p, suffix), depth)
      == Resolved(target.cid, NonEmpty(target.rest) + suffix)
  {
    hide GetValue, ParseTargetToCid, Extend;
    var get := Names(lib, w);
    NoResolverExactly(lib, val);
    hide NextHop, GetResolver;
    ResolveIsPlain(lib, get, p, depth);
    SuffixCarries(lib, get, p, suffix, depth);
    var target := ParseTargetToCid(lib, val).value;
    assert get(NextHop(lib, p).key) == Ok(val);
    assert Plainly(lib, get, val, depth - 1) == Resolved(target.cid, NonEmpty(target.rest));
    BehindTwice(Plainly(lib, get, val, depth - 1), [], []);
  }

  /** What the value store holds for an IPNS name: an entry for its hash, and the public key
      for its CID. */
  ghost predicate HoldsEntry(lib: Lib, w: World, c: Cid, entry: IpnsEntry, pk: PubKey) {
    var at, keyAt := "/ipns/" + c.mh, "/pk/" + lib.cidBytes(c);
    && at in w.values && lib.unmarshalEntry(w.values[at]) == Some(entry)
    && keyAt in w.values && w.values[keyAt] == lib.marshalKey(pk)
  }

  /** An IPNS name gives its entry's value exactly when the stored key signed the entry and
      the value is resolvable; it has an expiry only if the entry has a readable end of life. */
  lemma {:induction false} IpnsEntryExactly(lib: Lib, w: World, c: Cid, entry: IpnsEntry, pk: PubKey, eol: int)
    requires Lawful(lib) && lib.wellFormed(c) && HoldsEntry(lib, w, c, entry, pk)
    ensures var r := IpnsGetValue(lib, w, "/ipns/" + lib.cidString(c));
      && (r.Ok? <==>
            && lib.verify(pk, entry.value + entry.validity + lib.entryTypeName(entry.validityType), entry.signature)
            && IsResolvable(lib, entry.value))
      && (r.Ok? ==> r.value.val == entry.value && (entry.validityType != 0 ==> r.value.eol == None))
      && (r.Ok? && entry.validityType == 0 && lib.representable(eol) && entry.validity == lib.formatTime(eol) ==>
            r.value.eol == Some(eol))
  {
    hide IsResolvable;
    var text := lib.cidString(c);
    PartsOfName("ipns", text);
    assert "/" + "ipns" + "/" + text == "/ipns/" + text;
    assert lib.cidDecode(text) == Some(c);
    assert lib.unmarshalKey(lib.marshalKey(pk)) == Some(pk);
    assert lib.representable(eol) ==> lib.parseTime(lib.formatTime(eol)) == Some(eol);
  }

  /** An IPNS name whose entry its own key signed resolves to the entry's target. */
  lemma {:induction false} IpnsResolves(
    lib: Lib, w: World, c: Cid, entry: IpnsEntry, sk: PrivKey, suffix: seq<string>, depth: nat)
    requires Lawful(lib) && lib.wellFormed(c) && HoldsEntry(lib, w, c, entry, lib.publicKey(sk))
    requires entry.signature == lib.sign(sk, EntryDataForSig(lib, entry))
    requires GetResolver(lib, entry.value).None? && ParseTargetToCid(lib, entry.value).Some?
    requires AllPlain(suffix) && Free(suffix, '/') && depth > 0
    ensures var target := ParseTargetToCid(lib, entry.value).value;
      Resolve(lib, Names(lib, w), Extend("/ipns/" + lib.cidString(c), suffix), depth)
      == Resolved(target.cid, NonEmpty(target.rest) + suffix)
  {
    var p := "/ipns/" + lib.cidString(c);
    IpnsHop(lib, c);
    IpnsEntryExactly(lib, w, c, entry, lib.publicKey(sk), 0);
    hide NextHop, GetResolver, ParseTargetToCid, IpnsGetValue, Resolve, Extend;
    assert lib.verify(lib.publicKey(sk), EntryDataForSig(lib, entry), lib.sign(sk, EntryDataForSig(lib, entry)));
    assert GetValue(lib, w, Key(Ipns, p)) == IpnsGetValue(lib, w, p);
    OneHopResolves(lib, w, p, entry.value, suffix, depth);
  }

  /** An IPNS lookup finds nothing unless the value store holds a readable entry for the CID's
      hash and a readable public key for the CID. */
  lemma {:induction false} IpnsNeedsBoth(lib: Lib, w: World, c: Cid)
    requires CidLaws(lib) && lib.wellFormed(c)
    requires IpnsGetValue(lib, w, "/ipns/" + lib.cidString(c)).Ok?
    ensures var at, keyAt := "/ipns/" + c.mh, "/pk/" + lib.cidBytes(c);
      && at in w.values && lib.unmarshalEntry(w.values[at]).Some?
      && keyAt in w.values && lib.unmarshalKey(w.values[keyAt]).Some?
  {
    var text := lib.cidString(c);
    PartsOfName("ipns", text);
    assert "/" + "ipns" + "/" + text == "/ipns/" + text;
    assert lib.cidDecode(text) == Some(c);
  }

  /** An IPNS name with an old-style entry, the bytes of a multihash, resolves to the version 0
      CID of that multihash. */
  lemma {:induction false} IpnsMultihashResolves(
    lib: Lib, w: World, c: Cid, entry: IpnsEntry, sk: PrivKey, suffix: seq<string>, depth: nat)
    requires Lawful(lib) && lib.wellFormed(c) && HoldsEntry(lib, w, c, entry, lib.publicKey(sk))
    requires entry.signature == lib.sign(sk, EntryDataForSig(lib, entry))
    requires lib.mhCast(entry.value).Some? && GetResolver(lib, entry.value).None?
    requires lib.cidCast(entry.value).None? && lib.cidParse(Split(entry.value, '/')[0]).None?
    requires "/ipfs/" <= entry.value ==> lib.cidDecode(Split(entry.value[6..], '/')[0]).None?
    requires AllPlain(suffix) && Free(suffix, '/') && depth > 0
    ensures Resolve(lib, Names(lib, w), Extend("/ipns/" + lib.cidString(c), suffix), depth)
      == Resolved(Cid(0, 0x70, lib.mhCast(entry.value).value), suffix)
  {
    MultihashTarget(lib, entry.value);
    hide ParseTargetToCid, GetResolver, HoldsEntry, EntryDataForSig, Resolve, Extend, Lawful;
    IpnsResolves(lib, w, c, entry, sk, suffix, depth);
    assert NonEmpty([]) + suffix == suffix;
  }

  ghost predicate FirstOf(lib: Lib, entries: seq<string>, i: nat, entry: string) {
    i < |entries| && entries[i] == entry && forall j | 0 <= j < i :: ParseEntry(lib, entries[j]).None?
  }

  /** The i-th TXT entry is the first readable one, of the "_dnslink" subdomain, or of the
      domain itself when the subdomain has none. */
  ghost predicate FirstReadable(lib: Lib, w: World, domain: string, sub: bool, i: nat, entry: string) {
    var own := if sub then "_dnslink." + domain else domain;
    && own in w.txt && FirstOf(lib, w.txt[own], i, entry)
    && (!sub ==> LookupDomain(lib, w, "_dnslink." + domain).Err?)
  }

  /** What the first readable entry of a domain gives is what the domain resolves to, under any
      name space. */
  lemma {:induction false} EntryResolves(
    lib: Lib, w: World, space: string, domain: string, entry: string, val: string, sub: bool, i: nat,
    suffix: seq<string>, depth: nat)
    requires lib.isDomain(domain) && '/' !in space && '/' !in domain
    requires FirstReadable(lib, w, domain, sub, i, entry) && ParseEntry(lib, entry) == Some(val)
    requires GetResolver(lib, val).None? && ParseTargetToCid(lib, val).Some?
    requires AllPlain(suffix) && Free(suffix, '/') && depth > 0
    ensures var target := ParseTargetToCid(lib, val).value;
      Resolve(lib, Names(lib, w), Extend("/" + space + "/" + domain, suffix), depth)
      == Resolved(target.cid, NonEmpty(target.rest) + suffix)
  {
    var own := if sub then "_dnslink." + domain else domain;
    DomainHop(lib, space, domain);
    FirstIsParsed(lib, w.txt[own], i, entry);
    hide NextHop, ParseEntry, Resolve, Extend;
    assert LookupDomain(lib, w, own) == Ok(val);
    assert GetValue(lib, w, Key(Dns, domain)) == DnsGetValue(lib, w, domain);
    hide GetResolver, ParseTargetToCid, LookupDomain;
    OneHopResolves(lib, w, "/" + space + "/" + domain, val, suffix, depth);
  }

  /** The entry of the "_dnslink" subdomain wins over the domain's own, and a domain whose
      first readable TXT entry is a dnslink for a CID target resolves to that target, under any
      name space. */
  lemma {:induction false} DomainResolves(
    lib: Lib, w: World, space: string, domain: string, link: string, sub: bool, i: nat,
    suffix: seq<string>, depth: nat)
    requires lib.isDomain(domain) && '/' !in space && '/' !in domain
    requires FirstReadable(lib, w, domain, sub, i, "dnslink=" + link)
    requires lib.cidDecode("dnslink=" + link).None? && !IsResolvable(lib, "dnslink=" + link)
    requires GetResolver(lib, link).None? && ParseTargetToCid(lib, link).Some?
    requires AllPlain(suffix) && Free(suffix, '/') && depth > 0
    ensures var target := ParseTargetToCid(lib, link).value;
      Resolve(lib, Names(lib, w), Extend("/" + space + "/" + domain, suffix), depth)
      == Resolved(target.cid, NonEmpty(target.rest) + suffix)
  {
    DnsLinkEntry(lib, link);
    EntryResolves(lib, w, space, domain, "dnslink=" + link, link, sub, i, suffix, depth);
  }

  /** A domain whose first readable TXT entry is CID text resolves to that CID. */
  lemma {:induction false} CidDomainResolves(
    lib: Lib, w: World, space: string, domain: string, txt: string, c: Cid, sub: bool, i: nat,
    suffix: seq<string>, depth: nat)
    requires CidLaws(lib) && lib.isDomain(domain) && '/' !in space && '/' !in domain
    requires FirstReadable(lib, w, domain, sub, i, txt) && txt != "" && lib.cidDecode(txt) == Some(c)
    requires lib.cidCast("/ipfs/" + lib.cidString(c)).None?
    requires AllPlain(suffix) && Free(suffix, '/') && depth > 0
    ensures Resolve(lib, Names(lib, w), Extend("/" + space + "/" + domain, suffix), depth) == Resolved(c, suffix)
  {
    var val := "/ipfs/" + lib.cidString(c);
    CidEntry(lib, txt, c);
    PartsOfName("ipfs", lib.cidString(c));
    assert "/" + "ipfs" + "/" + lib.cidString(c) == val;
    JoinSplit(val, '/');
    assert Canonical(lib, Target(c, [])) == val by {
      assert ["", "ipfs", lib.cidString(c)] + [] == ["", "ipfs", lib.cidString(c)];
    }
    CanonicalNotTaken(lib, Target(c, []));
    TargetFormats(lib, c, [], "");
    hide ParseTargetToCid, GetResolver, ParseEntry, Resolve, Extend, FirstReadable, CidLaws;
    EntryResolves(lib, w, space, domain, txt, val, sub, i, suffix, depth);
    assert NonEmpty([]) + suffix == suffix;
  }

  /** A domain whose first readable TXT entry is a target in canonical form resolves to its CID
      and subpath. */
  lemma {:induction false} TargetDomainResolves(
    lib: Lib, w: World, space: string, domain: string, target: Target, sub: bool, i: nat,
    suffix: seq<string>, depth: nat)
    requires CidLaws(lib) && lib.isDomain(domain) && '/' !in space && '/' !in domain
    requires lib.wellFormed(target.cid) && Free(target.rest, '/')
    requires lib.cidCast(Canonical(lib, target)).None? && lib.cidDecode(Canonical(lib, target)).None?
    requires FirstReadable(lib, w, domain, sub, i, Canonical(lib, target))
    requires AllPlain(suffix) && Free(suffix, '/') && depth > 0
    ensures Resolve(lib, Names(lib, w), Extend("/" + space + "/" + domain, suffix), depth)
      == Resolved(target.cid, NonEmpty(target.rest) + suffix)
  {
    var val := Canonical(lib, target);
    CanonicalNotTaken(lib, target);
    TargetFormats(lib, target.cid, target.rest, "");
    hide ParseTargetToCid, GetResolver, Resolve, Extend, FirstReadable, CidLaws, Canonical;
    NameEntry(lib, val);
    EntryResolves(lib, w, space, domain, val, val, sub, i, suffix, depth);
  }

  lemma {:induction false} FirstIsParsed(lib: Lib, entries: seq<string>, i: nat, entry: string)
    requires FirstOf(lib, entries, i, entry) && ParseEntry(lib, entry).Some?
    ensures FirstParsed(lib, entries) == Ok(ParseEntry(lib, entry).value)
  {
    hide ParseEntry;
    if i > 0 {
      assert ParseEntry(lib, entries[0]).None?;
      FirstIsParsed(lib, entries[1..], i - 1, entry);
    }
  }
}
