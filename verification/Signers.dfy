/** Signers, validations, and building a signed record (record/record.go,
    record/key.go, record/cert.go, record/eol.go, record/range.go, ipld/iprs.go). */
module Signers {
  import opened Wrappers
  import opened Text
  import opened Library
  import opened IprsPaths
  import opened Records
  import opened SigPrep

  const CODEC_IPRS_CBOR: nat := 0xd0
  const CODEC_CERT_RAW: nat := 0xe0
  const CODEC_PUB_KEY_RAW: nat := 0xf0
  const VERSION: nat := 1

  /** Whose signature a record carries. */
  datatype Identity = KeyIdentity(sk: PrivKey) | CertIdentity(cert: Certificate, certSk: PrivKey)

  datatype RecordValidation = EolValidation(eol: int) | RangeValidation(start: Option<int>, end: Option<int>)

  /** A range whose bounds are not out of order can be built. */
  function NewRangeRecordValidation(start: Option<int>, end: Option<int>): (r: Result<RecordValidation, Error>)
    ensures r.Ok? <==> start.None? || end.None? || start.value <= end.value
    ensures r.Ok? ==> r.value == RangeValidation(start, end)
  {
    if start.Some? && end.Some? && start.value > end.value then Err(BadRange)
    else Ok(RangeValidation(start, end))
  }

  /** All bounds have a timestamp. */
  predicate Representable(lib: Lib, vl: RecordValidation) {
    match vl
    case EolValidation(eol) => lib.representable(eol)
    case RangeValidation(start, end) =>
      (start.Some? ==> lib.representable(start.value)) && (end.Some? ==> lib.representable(end.value))
  }

  /** A validation the two constructors can have built. */
  predicate Constructed(lib: Lib, vl: RecordValidation) {
    && Representable(lib, vl)
    && (vl.RangeValidation? ==> NewRangeRecordValidation(vl.start, vl.end) == Ok(vl))
  }

  function RawNode(lib: Lib, codec: nat, bytes: Bytes): Node {
    Node(Cid(1, codec, lib.digest(Raw(bytes))), Raw(bytes))
  }

  function CertNode(lib: Lib, cert: Certificate): Node {
    RawNode(lib, CODEC_CERT_RAW, lib.marshalCert(cert))
  }

  /** The public key or certificate node of a signer. */
  function IdentityNode(lib: Lib, id: Identity): Node {
    match id
    case KeyIdentity(sk) => RawNode(lib, CODEC_PUB_KEY_RAW, lib.marshalKey(lib.publicKey(sk)))
    case CertIdentity(cert, _) => CertNode(lib, cert)
  }

  function SignerBasePath(lib: Lib, authority: Node, id: string): Result<IprsPath, Error> {
    FromString(lib, "/iprs/" + lib.cidString(authority.cid) + "/" + id)
  }

  function VerificationType(id: Identity): nat {
    match id case KeyIdentity(_) => VERIFICATION_KEY case CertIdentity(_, _) => VERIFICATION_CERT
  }

  function Verification(lib: Lib, id: Identity): Data {
    match id case KeyIdentity(_) => Nil case CertIdentity(_, _) => CidRef(IdentityNode(lib, id).cid)
  }

  function SignRecord(lib: Lib, id: Identity, data: Bytes): Bytes {
    match id
    case KeyIdentity(sk) => lib.sign(sk, data)
    case CertIdentity(_, sk) => lib.certSign(sk, data)
  }

  function ValidationType(vl: RecordValidation): nat {
    match vl case EolValidation(_) => VALIDATION_EOL case RangeValidation(_, _) => VALIDATION_TIME_RANGE
  }

  function BoundText(lib: Lib, bound: Option<int>, unbounded: string): string {
    match bound case None => unbounded case Some(t) => lib.formatTime(t)
  }

  function ValidationData(lib: Lib, vl: RecordValidation): Data {
    match vl
    case EolValidation(eol) => Str(lib.formatTime(eol))
    case RangeValidation(start, end) =>
      Strings([BoundText(lib, start, START_OF_TIME), BoundText(lib, end, END_OF_TIME)])
  }

  function MakeValidity(lib: Lib, id: Identity, vl: RecordValidation): Validity {
    Validity(VerificationType(id), Verification(lib, id), ValidationType(vl), ValidationData(lib, vl))
  }

  // ---- Records as nodes ------------------------------------------------------------

  function ValidityFields(v: Validity): map<string, Data> {
    map[
      "verificationType" := Uint(v.verificationType),
      "verification" := Encoded(v.verification),
      "validationType" := Uint(v.validationType),
      "validation" := Encoded(v.validation)]
  }

  function RecordEntries(value: Bytes, v: Validity, signature: Bytes): map<string, Field> {
    map[
      "version" := Leaf(Uint(VERSION)),
      "value" := Leaf(Blob(value)),
      "validity" := Sub(ValidityFields(v)),
      "signature" := Leaf(Blob(signature))]
  }

  /** NewIprsNode: the block a record is stored as. */
  function IprsNode(lib: Lib, value: Bytes, v: Validity, signature: Bytes): Node {
    var data := Cbor(RecordEntries(value, v, signature));
    Node(Cid(1, CODEC_IPRS_CBOR, lib.digest(data)), data)
  }

  function TopValue(entries: map<string, Field>, name: string): Option<Data> {
    if name in entries && entries[name].Leaf? then Some(ResolvedValue(entries[name].data)) else None
  }

  function ValidityValue(entries: map<string, Field>, name: string): Option<Data> {
    if "validity" in entries && entries["validity"].Sub? && name in entries["validity"].fields then
      Some(ResolvedValue(entries["validity"].fields[name]))
    else None
  }

  /** DecodeIprsBlock followed by NewRecordFromNode. */
  function DecodeRecord(node: Node): Result<Record, Error> {
    match node.data
    case Raw(_) => Err(BadNode)
    case Cbor(entries) =>
      match (TopValue(entries, "version"), TopValue(entries, "value"),
             ValidityValue(entries, "verificationType"), ValidityValue(entries, "validationType"),
             ValidityValue(entries, "verification"), ValidityValue(entries, "validation"),
             TopValue(entries, "signature"))
      case (Some(Uint(version)), Some(Blob(value)), Some(Uint(vft)), Some(Uint(vlt)),
            Some(vfn), Some(vdn), Some(Blob(sig))) =>
        Ok(Record(version, value, Validity(vft, vfn, vlt, vdn), sig, node, []))
      case _ => Err(BadNode)
  }

  /** Building a record never fails. */
  function NewRecord(lib: Lib, vl: RecordValidation, id: Identity, val: Bytes): (r: Result<Record, Error>)
    ensures r.Ok?
  {
    var validity := MakeValidity(lib, id, vl);
    match DataForSig(lib, val, validity)
    case Err(e) => Err(e)
    case Ok(signable) =>
      var sig := SignRecord(lib, id, signable);
      Ok(Record(VERSION, val, validity, sig, IprsNode(lib, val, validity, sig), [IdentityNode(lib, id)]))
  }

  /** A signer object: the node is built on first use and kept. */
  class RecordSigner {
    const lib: Lib
    const id: Identity
    var node: Option<Node>

    ghost predicate Valid()
      reads this
    {
      node.Some? ==> node.value == IdentityNode(lib, id)
    }

    constructor (lib: Lib, id: Identity)
      ensures Valid() && this.lib == lib && this.id == id
    {
      this.lib := lib;
      this.id := id;
      node := None;
    }

    method GetNode() returns (n: Node)
      requires Valid()
      modifies this`node
      ensures Valid() && n == IdentityNode(lib, id) && node == Some(n)
    {
      if node.Some? {
        return node.value;
      }
      n := match id {
        case KeyIdentity(sk) => RawNode(lib, CODEC_PUB_KEY_RAW, lib.marshalKey(lib.publicKey(sk)))
        case CertIdentity(cert, _) => RawNode(lib, CODEC_CERT_RAW, lib.marshalCert(cert))
      };
      node := Some(n);
    }

    method BasePath(name: string) returns (path: Result<IprsPath, Error>)
      requires Valid()
      modifies this`node
      ensures Valid() && path == SignerBasePath(lib, IdentityNode(lib, id), name)
    {
      var n := GetNode();
      path := FromString(lib, "/iprs/" + lib.cidString(n.cid) + "/" + name);
    }

    method GetVerification() returns (o: Data)
      requires Valid()
      modifies this`node
      ensures Valid() && o == Verification(lib, id)
    {
      if id.KeyIdentity? {
        return Nil;
      }
      var n := GetNode();
      o := CidRef(n.cid);
    }
  }

  /** NewRecord with a signer object: memoising the node changes no record. */
  method NewSignedRecord(vl: RecordValidation, s: RecordSigner, val: Bytes) returns (r: Result<Record, Error>)
    requires s.Valid()
    modifies s`node
    ensures s.Valid() && r == NewRecord(s.lib, vl, s.id, val)
  {
    var vfn := s.GetVerification();
    var validity := Validity(VerificationType(s.id), vfn, ValidationType(vl), ValidationData(s.lib, vl));
    var signable := DataForSig(s.lib, val, validity);
    if signable.Err? {
      return Err(signable.error);
    }
    var sig := SignRecord(s.lib, s.id, signable.value);
    var n := IprsNode(s.lib, val, validity, sig);
    var signerNode := s.GetNode();
    return Ok(Record(VERSION, val, validity, sig, n, [signerNode]));
  }

  /** Reading a record's node back gives the same value, types and signature, and its
      validity in the stored representation. */
  lemma NodeRoundTrip(lib: Lib, value: Bytes, v: Validity, signature: Bytes)
    ensures var node := IprsNode(lib, value, v, signature);
      DecodeRecord(node) == Ok(Record(VERSION, value, Reread(v), signature, node, []))
  {
  }

  /** A node is read as a record exactly when it is a CBOR map with all the fields, each of its
      kind, and the record has what stands in them, CIDs as links. */
  lemma {:induction false} DecodedExactly(node: Node, record: Record)
    ensures DecodeRecord(node) == Ok(record) <==>
      && node.data.Cbor? && record.node == node && record.dependencies == []
      && var entries := node.data.entries;
      && {"version", "value", "validity", "signature"} <= entries.Keys
      && entries["version"] == Leaf(Uint(record.version))
      && entries["value"] == Leaf(Blob(record.value))
      && entries["signature"] == Leaf(Blob(record.signature))
      && entries["validity"].Sub?
      && var fields, v := entries["validity"].fields, record.validity;
      && {"verificationType", "verification", "validationType", "validation"} <= fields.Keys
      && fields["verificationType"] == Uint(v.verificationType)
      && fields["validationType"] == Uint(v.validationType)
      && ReadAs(fields["verification"], v.verification) && ReadAs(fields["validation"], v.validation)
  {
    if node.data.Cbor? && "validity" in node.data.entries && node.data.entries["validity"].Sub? {
      var fields := node.data.entries["validity"].fields;
      assert forall name | name in fields ::
          ValidityValue(node.data.entries, name) == Some(ResolvedValue(fields[name]));
    }
  }

  /** A stored CID is read as a link, everything else as it is. */
  predicate ReadAs(stored: Data, read: Data) {
    if stored.CidRef? then read == Link(stored.cid) else read == stored
  }

  /** What signers and validations write, and how it is read back. */
  lemma {:induction false} WrittenAndReread(lib: Lib, id: Identity, vl: RecordValidation)
    ensures var v := MakeValidity(lib, id, vl);
      && v.verificationType == (if id.KeyIdentity? then 0 else 1)
      && v.verification == (if id.KeyIdentity? then Nil else CidRef(IdentityNode(lib, id).cid))
      && Reread(v).verification == (if id.KeyIdentity? then Nil else Link(IdentityNode(lib, id).cid))
      && match vl
         case EolValidation(eol) =>
           v.validationType == 0 && v.validation == Str(lib.formatTime(eol)) == Reread(v).validation
         case RangeValidation(start, end) =>
           && v.validationType == 1
           && var first := if start.None? then "-\U{E2}\U{88}\U{9E}" else lib.formatTime(start.value);
           && var second := if end.None? then "\U{E2}\U{88}\U{9E}" else lib.formatTime(end.value);
           && v.validation == Strings([first, second]) && Reread(v).validation == List([Str(first), Str(second)])
  {
  }

  /** The CIDs of records, public keys and certificates: version 1, each with its codec and the
      digest of its content. A record is written as version 1. */
  lemma {:induction false} NodeCids(lib: Lib, id: Identity, val: Bytes, v: Validity, sig: Bytes)
    ensures IprsNode(lib, val, v, sig).cid == Cid(1, 0xd0, lib.digest(IprsNode(lib, val, v, sig).data))
    ensures DecodeRecord(IprsNode(lib, val, v, sig)).Ok? && DecodeRecord(IprsNode(lib, val, v, sig)).value.version == 1
    ensures IdentityNode(lib, id).cid ==
      Cid(1, if id.KeyIdentity? then 0xf0 else 0xe0, lib.digest(IdentityNode(lib, id).data))
    ensures IdentityNode(lib, id).data ==
      Raw(if id.KeyIdentity? then lib.marshalKey(lib.publicKey(id.sk)) else lib.marshalCert(id.cert))
  {
    NodeRoundTrip(lib, val, v, sig);
    hide DecodeRecord;
  }

  // ---- Signed bytes identify the record's content ------------------------------------

  lemma {:induction false} CutEqually<T>(a: seq<T>, b: seq<T>, c: seq<T>, d: seq<T>)
    requires a + b == c + d && |a| == |c|
    ensures a == c && b == d
  {
    assert a == (a + b)[..|a|] == (c + d)[..|c|] == c;
    assert b == (a + b)[|a|..] == (c + d)[|c|..] == d;
  }

  ghost predicate BoundTextOf(s: string, unbounded: string) {
    Stamp(s) || s == unbounded
  }

  /** Where a "Z" can stand in a start followed by an end: a timestamp start ends at the
      first one, and after no start at all there is none but at the very end. */
  lemma ZPositions(s: string, e: string)
    requires BoundTextOf(s, START_OF_TIME) && BoundTextOf(e, END_OF_TIME)
    ensures var text := s + e;
      && (Stamp(s) ==> 0 < |s| < |text| && text[|s| - 1] == 'Z' && forall k | 0 <= k < |s| - 1 :: text[k] != 'Z')
      && (s == START_OF_TIME ==> forall k | 0 <= k < |text| - 1 :: text[k] != 'Z')
  {
  }

  /** The two bounds of a range can be read back from their concatenation. */
  lemma {:induction false} BoundsSplit(s: string, e: string, s': string, e': string)
    requires BoundTextOf(s, START_OF_TIME) && BoundTextOf(s', START_OF_TIME)
    requires BoundTextOf(e, END_OF_TIME) && BoundTextOf(e', END_OF_TIME)
    requires s + e == s' + e'
    ensures s == s' && e == e'
  {
    ZPositions(s, e);
    ZPositions(s', e');
    assert |s| == |s'|;
    CutEqually(s, e, s', e');
  }

  lemma {:induction false} BoundTexts(lib: Lib, vl: RecordValidation)
    requires TimeLaws(lib) && Representable(lib, vl) && vl.RangeValidation?
    ensures BoundTextOf(BoundText(lib, vl.start, START_OF_TIME), START_OF_TIME)
    ensures BoundTextOf(BoundText(lib, vl.end, END_OF_TIME), END_OF_TIME)
  {
  }

  function ValidationBytes(lib: Lib, vl: RecordValidation): Bytes {
    match vl
    case EolValidation(eol) => lib.formatTime(eol)
    case RangeValidation(start, end) => BoundText(lib, start, START_OF_TIME) + BoundText(lib, end, END_OF_TIME)
  }

  /** The signed bytes of a value and validity a signer and a validation built. */
  function Signable(lib: Lib, val: Bytes, id: Identity, vl: RecordValidation): Bytes {
    var vfnb := if id.KeyIdentity? then "" else lib.cidBytes(IdentityNode(lib, id).cid);
    val + (Decimal(VerificationType(id)) + (vfnb + (Decimal(ValidationType(vl)) + ValidationBytes(lib, vl))))
  }

  lemma {:induction false} SignableIsDataForSig(lib: Lib, val: Bytes, id: Identity, vl: RecordValidation)
    ensures DataForSig(lib, val, MakeValidity(lib, id, vl)) == Ok(Signable(lib, val, id, vl))
  {
    var v := MakeValidity(lib, id, vl);
    var vfnb := if id.KeyIdentity? then "" else lib.cidBytes(IdentityNode(lib, id).cid);
    var vdnb := ValidationBytes(lib, vl);
    assert PrepareVerification(lib, v.verificationType, v.verification) == Ok(vfnb);
    assert PrepareValidation(v.validationType, v.validation) == Ok(vdnb);
    var a, b := Decimal(v.verificationType), Decimal(v.validationType);
    assert val + a + vfnb + b + vdnb == val + (a + (vfnb + (b + vdnb)));
  }

  /** Signed bytes identify the record: for values of the same length and validities the
      signers and validations build, equal signed bytes mean equal values, types,
      verification and validation data. */
  lemma {:induction false} SignedBytesIdentify(
    lib: Lib, val: Bytes, id: Identity, vl: RecordValidation, val': Bytes, id': Identity, vl': RecordValidation)
    requires CidLaws(lib) && LengthLaws(lib) && TimeLaws(lib) && Representable(lib, vl) && Representable(lib, vl')
    requires |val| == |val'|
    requires DataForSig(lib, val, MakeValidity(lib, id, vl)) == DataForSig(lib, val', MakeValidity(lib, id', vl'))
    ensures val == val' && MakeValidity(lib, id, vl) == MakeValidity(lib, id', vl')
  {
    SignableIsDataForSig(lib, val, id, vl);
    SignableIsDataForSig(lib, val', id', vl');
    VerificationCut(lib, val, id, vl, val', id', vl');
  }

  lemma {:induction false} VerificationCut(
    lib: Lib, val: Bytes, id: Identity, vl: RecordValidation, val': Bytes, id': Identity, vl': RecordValidation)
    requires CidLaws(lib) && LengthLaws(lib) && TimeLaws(lib) && Representable(lib, vl) && Representable(lib, vl')
    requires |val| == |val'| && Signable(lib, val, id, vl) == Signable(lib, val', id', vl')
    ensures val == val' && MakeValidity(lib, id, vl) == MakeValidity(lib, id', vl')
  {
    var vfnb := if id.KeyIdentity? then "" else lib.cidBytes(IdentityNode(lib, id).cid);
    var vfnb' := if id'.KeyIdentity? then "" else lib.cidBytes(IdentityNode(lib, id').cid);
    var vdnb, vdnb' := ValidationBytes(lib, vl), ValidationBytes(lib, vl');
    var tail, tail' := Decimal(ValidationType(vl)) + vdnb, Decimal(ValidationType(vl')) + vdnb';
    CutEqually(val, Decimal(VerificationType(id)) + (vfnb + tail),
               val', Decimal(VerificationType(id')) + (vfnb' + tail'));
    CutEqually(Decimal(VerificationType(id)), vfnb + tail, Decimal(VerificationType(id')), vfnb' + tail');
    assert id.KeyIdentity? <==> id'.KeyIdentity?;
    assert |vfnb| == |vfnb'|;
    CutEqually(vfnb, tail, vfnb', tail');
    if id.CertIdentity? {
      var c, c' := IdentityNode(lib, id).cid, IdentityNode(lib, id').cid;
      assert lib.cidCast(lib.cidBytes(c)) == Some(c) && lib.cidCast(lib.cidBytes(c')) == Some(c');
    }
    CutEqually(Decimal(ValidationType(vl)), vdnb, Decimal(ValidationType(vl')), vdnb');
    assert vl.EolValidation? <==> vl'.EolValidation?;
    if vl.RangeValidation? {
      BoundTexts(lib, vl);
      BoundTexts(lib, vl');
      BoundsSplit(BoundText(lib, vl.start, START_OF_TIME), BoundText(lib, vl.end, END_OF_TIME),
                  BoundText(lib, vl'.start, START_OF_TIME), BoundText(lib, vl'.end, END_OF_TIME));
    }
  }
}
