/** Publish then resolve: what was published under a signer's path is what an uncached
    lookup finds there (record/record.go, publisher/publisher.go, resolver/iprs.go). */
module RoundTrip {
  import opened Wrappers
  import opened Text
  import opened Library
  import opened IprsPaths
  import opened Targets
  import opened Dispatch
  import opened Records
  import opened SigPrep
  import opened Signers
  import opened Sources
  import EndToEnd
  import Publisher
  import Resolution

  /** The node whose CID stands in the path: the signer's own key or certificate, or the
      certificate of the issuer of the signer's certificate. */
  ghost predicate Authority(lib: Lib, id: Identity, authority: Node) {
    match id
    case KeyIdentity(_) => authority == IdentityNode(lib, id)
    case CertIdentity(cert, sk) =>
      && lib.certKey(cert) == lib.publicKey(sk)
      && exists issuer: Certificate :: lib.issuedBy(cert, issuer) && authority == CertNode(lib, issuer)
  }

  function PathText(lib: Lib, authority: Node, name: string): string {
    "/iprs/" + lib.cidString(authority.cid) + "/" + name
  }

  function Expiry(vl: RecordValidation): Option<int> {
    match vl case EolValidation(eol) => Some(eol) case RangeValidation(_, end) => end
  }

  /** A single plain segment as the id gives an accepted path that is its own base path. */
  lemma {:induction false} SignerPath(lib: Lib, authority: Node, name: string)
    requires CidLaws(lib) && lib.wellFormed(authority.cid) && Plain(name) && '/' !in name
    ensures SignerBasePath(lib, authority, name) == Ok(IprsPath(PathText(lib, authority, name), authority.cid))
    ensures BasePath(IprsPath(PathText(lib, authority, name), authority.cid)) == Some(PathText(lib, authority, name))
  {
    var text := lib.cidString(authority.cid);
    PathOfTwo(lib, text, name);
    hide FromString, Split, BasePath;
    var p := IprsPath(PathText(lib, authority, name), authority.cid);
    assert lib.cidDecode(text) == Some(authority.cid);
    assert ["", "iprs", text, name][2..] == [text, name];
    StoredWhereLookedUp(lib, p);
  }

  /** The record has the validation data that the validation wrote, or what it is read back as. */
  ghost predicate Written(lib: Lib, vl: RecordValidation, record: Record) {
    && Constructed(lib, vl) && record.validity.validationType == ValidationType(vl)
    && (record.validity.validation == ValidationData(lib, vl)
        || record.validity.validation == ResolvedValue(Encoded(ValidationData(lib, vl))))
  }

  /** Parsing what a validation wrote, before and after it is stored, gives back exactly its
      end of life, or its start and its end; the expiry is the end. */
  lemma {:induction false} ValidationReads(lib: Lib, vl: RecordValidation, record: Record)
    requires TimeLaws(lib) && Written(lib, vl, record)
    ensures match vl
      case EolValidation(eol) => EolParseValidation(lib, record) == Ok(eol)
      case RangeValidation(start, end) => RangeParseValidation(lib, record) == Ok(Interval(start, end))
    ensures GetEol(lib, record) == Expiry(vl)
  {
    match vl
    case EolValidation(eol) =>
      assert lib.parseTime(lib.formatTime(eol)) == Some(eol);
    case RangeValidation(start, end) =>
      TupleSurvives(ValidationData(lib, vl));
      BoundReads(lib, start, START_OF_TIME);
      BoundReads(lib, end, END_OF_TIME);
  }

  /** Validating a written record: an end-of-life record is expired exactly after its end of
      life; a time range record is pending exactly before its start and expired exactly after
      its end; any other is valid. */
  lemma {:induction false} WrittenIsValidated(lib: Lib, vl: RecordValidation, record: Record, now: int)
    requires TimeLaws(lib) && Written(lib, vl, record)
    ensures ValidateRecord(lib, record, now) ==
      match vl
      case EolValidation(eol) => if now > eol then Some(ErrExpiredRecord) else None
      case RangeValidation(start, end) =>
        if start.Some? && now < start.value then Some(ErrPendingRecord)
        else if end.Some? && now > end.value then Some(ErrExpiredRecord)
        else None
  {
    ValidationReads(lib, vl, record);
    hide StringTuple, EolParseValidation, RangeParseValidation;
  }

  lemma BoundReads(lib: Lib, bound: Option<int>, unbounded: string)
    requires TimeLaws(lib) && !Stamp(unbounded) && (bound.Some? ==> lib.representable(bound.value))
    ensures ParseBound(lib, BoundText(lib, bound, unbounded), unbounded) == Ok(bound)
  {
  }

  /** The parts of a new record. */
  lemma {:induction false} NewRecordParts(lib: Lib, vl: RecordValidation, id: Identity, val: Bytes)
    ensures var record := NewRecord(lib, vl, id, val).value;
      && Publisher.NodesOf(record) == [IdentityNode(lib, id), record.node]
      && DecodeRecord(record.node) ==
           Ok(Record(VERSION, val, Reread(MakeValidity(lib, id, vl)), record.signature, record.node, []))
  {
    SignableIsDataForSig(lib, val, id, vl);
    var validity := MakeValidity(lib, id, vl);
    NodeRoundTrip(lib, val, validity, SignRecord(lib, id, DataForSig(lib, val, validity).value));
  }

  lemma {:induction false} StoredExpiry(lib: Lib, vl: RecordValidation, id: Identity, stored: Record)
    requires TimeLaws(lib) && Constructed(lib, vl) && stored.validity == Reread(MakeValidity(lib, id, vl))
    ensures GetEol(lib, stored) == Expiry(vl)
  {
    ValidationReads(lib, vl, stored);
  }

  /** The signature of a new record verifies on the record as it is read back. */
  lemma {:induction false} StoredSignatureVerifies(
    lib: Lib, w: World, vl: RecordValidation, id: Identity, val: Bytes, authority: Node, key: IprsPath)
    requires CryptoLaws(lib) && Authority(lib, id, authority) && key.c == authority.cid
    requires IdentityNode(lib, id).cid in w.dag && w.dag[IdentityNode(lib, id).cid] == IdentityNode(lib, id).data
    requires authority.cid in w.dag && w.dag[authority.cid] == authority.data
    ensures var record := NewRecord(lib, vl, id, val).value;
      && DecodeRecord(record.node).Ok?
      && Verify(lib, w, key, DecodeRecord(record.node).value) == Ok(())
  {
    NewRecordParts(lib, vl, id, val);
    SignableIsDataForSig(lib, val, id, vl);
    SignedBytesSurvive(lib, val, MakeValidity(lib, id, vl));
    var record := NewRecord(lib, vl, id, val).value;
    var stored := DecodeRecord(record.node).value;
    var sigd := Signable(lib, val, id, vl);
    assert DataForSig(lib, stored.value, stored.validity) == Ok(sigd);
    assert stored.signature == SignRecord(lib, id, sigd);
    match id
    case KeyIdentity(sk) =>
      KeySignatureVerifies(lib, w, sk, key, stored, sigd);
    case CertIdentity(cert, sk) =>
      CertSignatureVerifies(lib, w, cert, sk, authority, key, stored, sigd);
  }

  lemma KeySignatureVerifies(
    lib: Lib, w: World, sk: PrivKey, key: IprsPath, stored: Record, sigd: Bytes)
    requires CryptoLaws(lib)
    requires var n := IdentityNode(lib, KeyIdentity(sk));
      key.c == n.cid && n.cid in w.dag && w.dag[n.cid] == n.data
    requires stored.validity.verificationType == VERIFICATION_KEY
    requires DataForSig(lib, stored.value, stored.validity) == Ok(sigd) && stored.signature == lib.sign(sk, sigd)
    ensures Verify(lib, w, key, stored) == Ok(())
  {
  }

  lemma CertSignatureVerifies(
    lib: Lib, w: World, cert: Certificate, sk: PrivKey, authority: Node, key: IprsPath, stored: Record, sigd: Bytes)
    requires CryptoLaws(lib) && Authority(lib, CertIdentity(cert, sk), authority) && key.c == authority.cid
    requires authority.cid in w.dag && w.dag[authority.cid] == authority.data
    requires var n := CertNode(lib, cert); n.cid in w.dag && w.dag[n.cid] == n.data
    requires stored.validity.verificationType == VERIFICATION_CERT
    requires ToCid(stored.validity.verification) == Ok(CertNode(lib, cert).cid)
    requires DataForSig(lib, stored.value, stored.validity) == Ok(sigd) && stored.signature == lib.certSign(sk, sigd)
    ensures Verify(lib, w, key, stored) == Ok(())
  {
  }

  /** What a world holds after `record` was published at `path` and nothing was written
      there since: the reference, and the record's nodes and the authority's node. */
  ghost predicate HoldsPublished(lib: Lib, w: World, path: string, record: Record, authority: Node) {
    && path in w.values && w.values[path] == lib.cidBytes(record.node.cid)
    && (forall n | n in Publisher.NodesOf(record) + [authority] :: n.cid in w.dag && w.dag[n.cid] == n.data)
  }

  /** Publish then look up: the stored record gives exactly the published value and the
      expiry of its validation, for key signers, for self-signed certificates and for
      certificates published under their issuer's path. */
  lemma {:induction false} PublishedIsFound(
    lib: Lib, w: World, vl: RecordValidation, id: Identity, val: Bytes, authority: Node, name: string)
    requires Lawful(lib) && Constructed(lib, vl) && Authority(lib, id, authority)
    requires Plain(name) && '/' !in name
    requires HoldsPublished(lib, w, PathText(lib, authority, name), NewRecord(lib, vl, id, val).value, authority)
    requires IsResolvable(lib, val)
    ensures IprsGetValue(lib, w, PathText(lib, authority, name)) == Ok(Found(val, Expiry(vl)))
  {
    hide *;
    var path := PathText(lib, authority, name);
    var record := NewRecord(lib, vl, id, val).value;
    var key := IprsPath(path, authority.cid);
    LawsOf(lib, vl, id, val, authority);
    PathIsBuilt(lib, authority, name);
    NewRecordParts(lib, vl, id, val);
    var signer := IdentityNode(lib, id);
    Held(lib, w, path, record, authority);
    assert signer in Publisher.NodesOf(record) && record.node in Publisher.NodesOf(record);
    StoredSignatureVerifies(lib, w, vl, id, val, authority, key);
    var stored := DecodeRecord(record.node).value;
    StoredExpiry(lib, vl, id, stored);
    LookupFinds(lib, w, key, record.node, stored);
  }

  lemma {:induction false} PathIsBuilt(lib: Lib, authority: Node, name: string)
    requires Lawful(lib) && lib.wellFormed(authority.cid) && Plain(name) && '/' !in name
    ensures FromString(lib, PathText(lib, authority, name)) ==
      Ok(IprsPath(PathText(lib, authority, name), authority.cid))
  {
    SignerPath(lib, authority, name);
  }

  /** The CIDs of a record, its signer and its authority are well formed. */
  lemma LawsOf(lib: Lib, vl: RecordValidation, id: Identity, val: Bytes, authority: Node)
    requires Lawful(lib) && Authority(lib, id, authority)
    ensures CidLaws(lib) && TimeLaws(lib) && CryptoLaws(lib)
    ensures lib.wellFormed(authority.cid)
    ensures var c := NewRecord(lib, vl, id, val).value.node.cid;
      lib.wellFormed(c) && lib.cidCast(lib.cidBytes(c)) == Some(c)
  {
  }

  lemma Held(lib: Lib, w: World, path: string, record: Record, authority: Node)
    requires HoldsPublished(lib, w, path, record, authority)
    ensures path in w.values && w.values[path] == lib.cidBytes(record.node.cid)
    ensures forall n | n in Publisher.NodesOf(record) :: n.cid in w.dag && w.dag[n.cid] == n.data
    ensures authority.cid in w.dag && w.dag[authority.cid] == authority.data
  {
  }

  lemma LookupFinds(lib: Lib, w: World, key: IprsPath, node: Node, stored: Record)
    requires FromString(lib, key.s) == Ok(key)
    requires key.s in w.values && lib.cidCast(w.values[key.s]) == Some(node.cid)
    requires node.cid in w.dag && w.dag[node.cid] == node.data && DecodeRecord(node) == Ok(stored)
    requires Verify(lib, w, key, stored) == Ok(()) && IsResolvable(lib, stored.value)
    ensures IprsGetValue(lib, w, key.s) == Ok(Found(stored.value, GetEol(lib, stored)))
  {
  }

  /** A lookup does not check validity: the published value is still found when validation
      would reject the stored record as expired, exactly after the expiry of its
      validation. */
  lemma {:induction false} ExpiredIsStillFound(
    lib: Lib, w: World, vl: RecordValidation, id: Identity, val: Bytes, authority: Node, name: string, now: int)
    requires Lawful(lib) && Constructed(lib, vl) && Authority(lib, id, authority)
    requires Plain(name) && '/' !in name
    requires HoldsPublished(lib, w, PathText(lib, authority, name), NewRecord(lib, vl, id, val).value, authority)
    requires IsResolvable(lib, val)
    ensures var path := PathText(lib, authority, name);
      && IprsGetValue(lib, w, path).Ok? && StoredRecord(lib, w, path).Ok?
      && (ValidateRecord(lib, StoredRecord(lib, w, path).value, now) == Some(ErrExpiredRecord) <==>
            Expiry(vl).Some? && now > Expiry(vl).value)
  {
    PublishedIsFound(lib, w, vl, id, val, authority, name);
    var path := PathText(lib, authority, name);
    LookedUpExactly(lib, w, path, Found(val, Expiry(vl)));
    EolIsLastUnexpired(lib, StoredRecord(lib, w, path).value, now);
  }

  /** A later state of a world: the block store has only grown and the reference at
      `path` is the same. */
  ghost predicate Later(w: World, later: World, path: string) {
    && (forall c | c in w.dag :: c in later.dag && later.dag[c] == w.dag[c])
    && (path in w.values ==> path in later.values && later.values[path] == w.values[path])
  }

  function Published(lib: Lib, w: World, path: string, record: Record): World {
    w.(values := w.values[path := lib.cidBytes(record.node.cid)],
       dag := Publisher.AddBlocks(w.dag, Publisher.NodesOf(record)))
  }

  /** After a successful Publish, and as long as nothing else is written at the path, a
      lookup finds what was published, provided no block collides with the new ones. A
      certificate signer publishing under an issuer's path needs the issuer's
      certificate stored. */
  lemma {:induction false} PublishThenLookUp(
    lib: Lib, w: World, later: World, vl: RecordValidation, id: Identity, val: Bytes, authority: Node, name: string)
    requires Lawful(lib) && Constructed(lib, vl) && Authority(lib, id, authority)
    requires Plain(name) && '/' !in name && IsResolvable(lib, val)
    requires var record := NewRecord(lib, vl, id, val).value;
      && Publisher.NoCollision(w.dag, Publisher.NodesOf(record))
      && Later(Published(lib, w, PathText(lib, authority, name), record), later, PathText(lib, authority, name))
    requires authority == IdentityNode(lib, id)
      || (authority.cid in later.dag && later.dag[authority.cid] == authority.data)
    ensures IprsGetValue(lib, later, PathText(lib, authority, name)) == Ok(Found(val, Expiry(vl)))
  {
    hide NewRecord, Authority, IprsGetValue, IdentityNode, Constructed, IsResolvable, PathText, DecodeRecord, Lawful;
    NewRecordParts(lib, vl, id, val);
    HoldsAfterPublish(lib, w, later, PathText(lib, authority, name), NewRecord(lib, vl, id, val).value, authority);
    PublishedIsFound(lib, later, vl, id, val, authority, name);
  }

  lemma {:induction false} HoldsAfterPublish(
    lib: Lib, w: World, later: World, path: string, record: Record, authority: Node)
    requires Publisher.NoCollision(w.dag, Publisher.NodesOf(record))
    requires Later(Published(lib, w, path, record), later, path)
    requires authority in Publisher.NodesOf(record)
      || (authority.cid in later.dag && later.dag[authority.cid] == authority.data)
    ensures HoldsPublished(lib, later, path, record, authority)
  {
    var nodes := Publisher.NodesOf(record);
    Publisher.AddBlocksStores(w.dag, nodes);
    forall n | n in nodes ensures n.cid in later.dag && later.dag[n.cid] == n.data {
      var i :| 0 <= i < |nodes| && nodes[i] == n;
    }
  }

  /** Signing and publishing under the signer's own path with the objects that do it: the
      stores they leave behind give exactly the published value and expiry. */
  method PublishUnderOwnPath(
    p: Publisher.IprsPublisher, s: RecordSigner, vl: RecordValidation, val: Bytes, name: string,
    txt: map<string, seq<string>>)
    returns (path: IprsPath)
    requires s.Valid() && s.lib == p.lib && Lawful(p.lib) && Constructed(p.lib, vl)
    requires Authority(p.lib, s.id, IdentityNode(p.lib, s.id))
    requires Plain(name) && '/' !in name && IsResolvable(p.lib, val)
    requires Publisher.NoCollision(p.dag, Publisher.NodesOf(NewRecord(p.lib, vl, s.id, val).value))
    modifies p, s`node
    ensures path.s == PathText(p.lib, IdentityNode(p.lib, s.id), name)
    ensures IprsGetValue(p.lib, World(txt, p.vs, p.dag), path.s) == Ok(Found(val, Expiry(vl)))
  {
    hide NewRecord, IprsGetValue, IdentityNode, Authority, Constructed, IsResolvable, FromString;
    hide Publisher.NoCollision, Publisher.AddBlocks, Publisher.NodesOf, DecodeRecord, Lawful, BasePath, Reread;
    ghost var before := World(txt, p.vs, p.dag);
    ghost var authority := IdentityNode(p.lib, s.id);
    LawsOf(p.lib, vl, s.id, val, authority);
    SignerPath(p.lib, authority, name);
    var base := s.BasePath(name);
    path := base.value;
    NewRecordParts(p.lib, vl, s.id, val);
    var record := NewSignedRecord(vl, s, val);
    var ok := p.Publish(path, record.value, Publisher.NoFault);
    PublishThenLookUp(p.lib, before, World(txt, p.vs, p.dag), vl, s.id, val, authority, name);
  }

  /** End to end: resolving the published path with a plain suffix, at any depth but
      zero, gives the CID of the published target, its own rest and the suffix behind
      it, when no sub-resolver takes the target for a name of its own. */
  lemma {:induction false} PublishedResolves(
    lib: Lib, w: World, vl: RecordValidation, id: Identity, val: Bytes, authority: Node, name: string,
    suffix: seq<string>, depth: nat)
    requires Lawful(lib) && Constructed(lib, vl) && Authority(lib, id, authority)
    requires Plain(name) && '/' !in name
    requires HoldsPublished(lib, w, PathText(lib, authority, name), NewRecord(lib, vl, id, val).value, authority)
    requires GetResolver(lib, val).None? && ParseTargetToCid(lib, val).Some?
    requires AllPlain(suffix) && Free(suffix, '/') && depth > 0
    ensures var target := ParseTargetToCid(lib, val).value;
      Resolution.Resolve(lib, Names(lib, w), Extend(PathText(lib, authority, name), suffix), depth)
      == Resolution.Resolved(target.cid, Resolution.NonEmpty(target.rest) + suffix)
  {
    var path := PathText(lib, authority, name);
    PublishedIsFound(lib, w, vl, id, val, authority, name);
    LawsOf(lib, vl, id, val, authority);
    PublishedHop(lib, authority, name);
    hide NextHop, GetResolver, ParseTargetToCid, IprsGetValue, Resolution.Resolve, Extend, NewRecord, Authority;
    assert GetValue(lib, w, Key(Iprs, path)) == IprsGetValue(lib, w, path);
    EndToEnd.OneHopResolves(lib, w, path, val, suffix, depth);
  }

  /** A target published in its canonical form always resolves, with its subpath and any
      plain suffix behind it: no sub-resolver takes it for a name. */
  lemma {:induction false} PublishedTargetResolves(
    lib: Lib, w: World, vl: RecordValidation, id: Identity, target: Target, authority: Node, name: string,
    suffix: seq<string>, depth: nat)
    requires Lawful(lib) && Constructed(lib, vl) && Authority(lib, id, authority)
    requires Plain(name) && '/' !in name && lib.wellFormed(target.cid) && Free(target.rest, '/')
    requires lib.cidCast(Canonical(lib, target)).None?
    requires HoldsPublished(
      lib, w, PathText(lib, authority, name), NewRecord(lib, vl, id, Canonical(lib, target)).value, authority)
    requires AllPlain(suffix) && Free(suffix, '/') && depth > 0
    ensures Resolution.Resolve(lib, Names(lib, w), Extend(PathText(lib, authority, name), suffix), depth)
      == Resolution.Resolved(target.cid, Resolution.NonEmpty(target.rest) + suffix)
  {
    EndToEnd.CanonicalNotTaken(lib, target);
    TargetFormats(lib, target.cid, target.rest, "");
    hide *;
    PublishedResolves(lib, w, vl, id, Canonical(lib, target), authority, name, suffix, depth);
  }

  lemma {:induction false} PublishedHop(lib: Lib, authority: Node, name: string)
    requires CidLaws(lib) && lib.wellFormed(authority.cid) && Plain(name) && '/' !in name
    ensures NextHop(lib, PathText(lib, authority, name)) == Follow(Key(Iprs, PathText(lib, authority, name)), [])
  {
    var text := lib.cidString(authority.cid);
    var path := PathText(lib, authority, name);
    SignerPath(lib, authority, name);
    PathOfTwo(lib, text, name);
    GetResolverCases(lib, path);
    assert lib.cidDecode(text) == Some(authority.cid);
    BasePathReparses(lib, IprsPath(path, authority.cid));
  }
}
