/** What a verified lookup says about its author (record/key.go, record/cert.go,
    record/sigprep.go, resolver/iprs.go): a value found at a signer's path is one the signer
    signed, if nobody else can make its signatures. */
module Integrity {
  import opened Wrappers
  import opened Text
  import opened Library
  import opened IprsPaths
  import opened Records
  import opened SigPrep
  import opened Signers
  import opened Sources
  import RoundTrip

  /** The values, with their validations, that a signer has made records of. */
  type Made = (Identity, Bytes, RecordValidation) -> bool

  predicate Verifies(lib: Lib, id: Identity, m: Bytes, sig: Bytes) {
    match id
    case KeyIdentity(sk) => lib.verify(lib.publicKey(sk), m, sig)
    case CertIdentity(cert, _) => lib.certVerify(cert, m, sig)
  }

  ghost predicate SignedBy(lib: Lib, id: Identity, m: Bytes, made: Made) {
    exists val: Bytes, vl: RecordValidation ::
      made(id, val, vl) && Constructed(lib, vl) && m == Signable(lib, val, id, vl)
  }

  /** Every signature in the block store that verifies under the signer's key is over the
      signed bytes of a record the signer made. */
  ghost predicate NoForgery(lib: Lib, w: World, id: Identity, made: Made) {
    forall c: Cid, m: Bytes | c in w.dag && DecodeRecord(Node(c, w.dag[c])).Ok?
      && Verifies(lib, id, m, DecodeRecord(Node(c, w.dag[c])).value.signature) ::
      SignedBy(lib, id, m, made)
  }

  /** What equal signed bytes leave of a stored record, whoever wrote it: for values of the
      same length, and certificate CIDs of the same length, the value, the verification data
      and the bytes of the validation data are the signer's. */
  lemma {:induction false} SameBytesSameContent(
    lib: Lib, stored: Record, val: Bytes, id: Identity, vl: RecordValidation)
    requires CidLaws(lib) && |stored.value| == |val|
    requires stored.validity.verificationType == VerificationType(id)
    requires DataForSig(lib, stored.value, stored.validity) == Ok(Signable(lib, val, id, vl))
    requires id.CertIdentity? ==>
      && ToCid(stored.validity.verification).Ok? && lib.wellFormed(ToCid(stored.validity.verification).value)
      && |lib.cidBytes(ToCid(stored.validity.verification).value)| == |lib.cidBytes(IdentityNode(lib, id).cid)|
    ensures stored.value == val
    ensures id.CertIdentity? ==> ToCid(stored.validity.verification) == Ok(IdentityNode(lib, id).cid)
    ensures stored.validity.validationType == ValidationType(vl)
    ensures PrepareValidation(stored.validity.validationType, stored.validity.validation) ==
      Ok(ValidationBytes(lib, vl))
  {
    var v := stored.validity;
    var vfnb := PrepareVerification(lib, v.verificationType, v.verification).value;
    var vdnb := PrepareValidation(v.validationType, v.validation).value;
    var vfnb' := if id.KeyIdentity? then "" else lib.cidBytes(IdentityNode(lib, id).cid);
    var kind, kind' := Decimal(v.validationType), Decimal(ValidationType(vl));
    var mark := Decimal(v.verificationType);
    var tail, tail' := kind + vdnb, kind' + ValidationBytes(lib, vl);
    assert stored.value + mark + vfnb + kind + vdnb == stored.value + (mark + (vfnb + tail));
    hide DataForSig, PrepareVerification, PrepareValidation, ValidationBytes;
    CutEqually(stored.value, mark + (vfnb + tail), val, mark + (vfnb' + tail'));
    CutEqually(mark, vfnb + tail, mark, vfnb' + tail');
    assert |vfnb| == |vfnb'| by { VerificationBytes(lib, v, id); }
    CutEqually(vfnb, tail, vfnb', tail');
    KnownType(v);
    CutEqually(kind, vdnb, kind', ValidationBytes(lib, vl));
    if id.CertIdentity? {
      VerificationBytes(lib, v, id);
      var c, c' := ToCid(v.verification).value, IdentityNode(lib, id).cid;
      assert lib.cidCast(lib.cidBytes(c)) == Some(c) && lib.cidCast(lib.cidBytes(c')) == Some(c');
    }
  }

  lemma VerificationBytes(lib: Lib, v: Validity, id: Identity)
    requires v.verificationType == VerificationType(id)
    requires id.CertIdentity? ==> ToCid(v.verification).Ok?
    ensures PrepareVerification(lib, v.verificationType, v.verification) ==
      Ok(if id.KeyIdentity? then "" else lib.cidBytes(ToCid(v.verification).value))
  {
  }

  lemma KnownType(v: Validity)
    requires PrepareValidation(v.validationType, v.validation).Ok?
    ensures v.validationType == VALIDATION_EOL || v.validationType == VALIDATION_TIME_RANGE
    ensures Decimal(v.validationType) == (if v.validationType == VALIDATION_EOL then "0" else "1")
  {
  }

  /** Both bounds of stored range data are timestamps in UTC, or stand for no bound. */
  ghost predicate PlainBounds(data: Data) {
    StringTuple(data).Ok? ==>
      BoundTextOf(StringTuple(data).value[0], START_OF_TIME) && BoundTextOf(StringTuple(data).value[1], END_OF_TIME)
  }

  /** The expiry of a stored record with the signer's validation bytes is the signer's. */
  lemma {:induction false} SameBytesSameExpiry(lib: Lib, stored: Record, vl: RecordValidation)
    requires TimeLaws(lib) && Constructed(lib, vl) && PlainBounds(stored.validity.validation)
    requires stored.validity.validationType == ValidationType(vl)
    requires PrepareValidation(stored.validity.validationType, stored.validity.validation) ==
      Ok(ValidationBytes(lib, vl))
    ensures GetEol(lib, stored) == RoundTrip.Expiry(vl)
  {
    match vl
    case EolValidation(eol) =>
      assert lib.parseTime(lib.formatTime(eol)) == Some(eol);
    case RangeValidation(start, end) =>
      var ss := StringTuple(stored.validity.validation).value;
      BoundTexts(lib, vl);
      BoundsSplit(ss[0], ss[1], BoundText(lib, start, START_OF_TIME), BoundText(lib, end, END_OF_TIME));
      RoundTrip.BoundReads(lib, start, START_OF_TIME);
      RoundTrip.BoundReads(lib, end, END_OF_TIME);
  }

  /** What a lookup found was signed: the stored record has the signed bytes of a record the
      signer made. Its value is the one made exactly when it is as long, and then the expiry is
      too, when the stored bounds are in UTC. */
  ghost predicate Authentic(lib: Lib, id: Identity, stored: Record, found: Found, made: Made) {
    exists val: Bytes, vl: RecordValidation ::
      && made(id, val, vl) && Constructed(lib, vl)
      && DataForSig(lib, stored.value, stored.validity) == Ok(Signable(lib, val, id, vl))
      && found.val == stored.value
      && (found.val == val <==> |found.val| == |val|)
      && (|found.val| == |val| && PlainBounds(stored.validity.validation) ==> found.eol == RoundTrip.Expiry(vl))
  }

  /** Integrity at a key's path: whoever wrote the value store and the block store, a value
      found under the path of a key is signed with the bytes of a record its holder made. */
  lemma {:induction false} KeyPathIsAuthentic(
    lib: Lib, w: World, sk: PrivKey, name: string, found: Found, made: Made)
    requires Lawful(lib) && Plain(name) && '/' !in name
    requires var n := IdentityNode(lib, KeyIdentity(sk)); n.cid in w.dag && w.dag[n.cid] == n.data
    requires NoForgery(lib, w, KeyIdentity(sk), made)
    requires IprsGetValue(lib, w, RoundTrip.PathText(lib, IdentityNode(lib, KeyIdentity(sk)), name)) == Ok(found)
    ensures var k := RoundTrip.PathText(lib, IdentityNode(lib, KeyIdentity(sk)), name);
      && StoredRecord(lib, w, k).Ok?
      && Authentic(lib, KeyIdentity(sk), StoredRecord(lib, w, k).value, found, made)
  {
    var id := KeyIdentity(sk);
    var n := IdentityNode(lib, id);
    var k := RoundTrip.PathText(lib, n, name);
    RoundTrip.SignerPath(lib, n, name);
    LookedUpExactly(lib, w, k, found);
    var stored := StoredRecord(lib, w, k).value;
    KeySigned(lib, w, sk, stored, n.cid, IprsPath(k, n.cid));
    StoredSignedBy(lib, w, id, k, made);
    MadeIsAuthentic(lib, id, stored, found, made);
  }

  lemma {:induction false} KeySigned(lib: Lib, w: World, sk: PrivKey, stored: Record, c: Cid, key: IprsPath)
    requires CryptoLaws(lib) && key.c == c && c == IdentityNode(lib, KeyIdentity(sk)).cid
    requires c in w.dag && w.dag[c] == IdentityNode(lib, KeyIdentity(sk)).data
    requires SignedFor(lib, w, key, stored)
    ensures stored.validity.verificationType == VERIFICATION_KEY
    ensures Verifies(lib, KeyIdentity(sk), DataForSig(lib, stored.value, stored.validity).value, stored.signature)
  {
    hide DataForSig;
    var pk := lib.publicKey(sk);
    assert lib.unmarshalKey(lib.marshalKey(pk)) == Some(pk);
    assert GetPublicKey(lib, w, c) == Ok(pk);
    assert GetCertificate(lib, w, c) == Err(WrongCodec);
  }

  lemma {:induction false} StoredSignedBy(lib: Lib, w: World, id: Identity, k: string, made: Made)
    requires NoForgery(lib, w, id, made) && StoredRecord(lib, w, k).Ok?
    requires var stored := StoredRecord(lib, w, k).value;
      && DataForSig(lib, stored.value, stored.validity).Ok?
      && Verifies(lib, id, DataForSig(lib, stored.value, stored.validity).value, stored.signature)
    ensures var stored := StoredRecord(lib, w, k).value;
      SignedBy(lib, id, DataForSig(lib, stored.value, stored.validity).value, made)
  {
    hide DataForSig, DecodeRecord, Verifies, SignedBy;
    var c := lib.cidCast(w.values[k]).value;
    assert DecodeRecord(Node(c, w.dag[c])).Ok?;
  }

  lemma {:induction false} MadeIsAuthentic(lib: Lib, id: Identity, stored: Record, found: Found, made: Made)
    requires Lawful(lib) && DataForSig(lib, stored.value, stored.validity).Ok?
    requires stored.validity.verificationType == VerificationType(id)
    requires SignedBy(lib, id, DataForSig(lib, stored.value, stored.validity).value, made)
    requires id.CertIdentity? ==>
      && ToCid(stored.validity.verification).Ok? && lib.wellFormed(ToCid(stored.validity.verification).value)
      && |lib.cidBytes(ToCid(stored.validity.verification).value)| == |lib.cidBytes(IdentityNode(lib, id).cid)|
    requires found == Found(stored.value, GetEol(lib, stored))
    ensures Authentic(lib, id, stored, found, made)
  {
    hide DataForSig, Signable, GetEol, PrepareValidation, ToCid;
    var val: Bytes, vl: RecordValidation :| made(id, val, vl) && Constructed(lib, vl)
      && DataForSig(lib, stored.value, stored.validity).value == Signable(lib, val, id, vl);
    assert DataForSig(lib, stored.value, stored.validity) == Ok(Signable(lib, val, id, vl));
    if |val| == |found.val| {
      SameBytesSameContent(lib, stored, val, id, vl);
      if PlainBounds(stored.validity.validation) {
        SameBytesSameExpiry(lib, stored, vl);
      }
    }
  }

  /** The block store names certificates by their own CIDs. */
  ghost predicate CertsUnderOwnCid(lib: Lib, w: World) {
    forall c: Cid, cert: Certificate | GetCertificate(lib, w, c) == Ok(cert) :: c == CertNode(lib, cert).cid
  }

  /** Integrity at a certificate's path: a value found there is signed with the bytes of a
      record that the holder of some certificate issued by it made. */
  lemma {:induction false} CertPathIsAuthentic(
    lib: Lib, w: World, issuer: Certificate, name: string, found: Found, holder: Certificate -> PrivKey, made: Made)
    returns (cert: Certificate)
    requires Lawful(lib) && Plain(name) && '/' !in name
    requires var n := CertNode(lib, issuer); n.cid in w.dag && w.dag[n.cid] == n.data
    requires CertsUnderOwnCid(lib, w)
    requires forall c: Certificate | lib.issuedBy(c, issuer) :: NoForgery(lib, w, CertIdentity(c, holder(c)), made)
    requires IprsGetValue(lib, w, RoundTrip.PathText(lib, CertNode(lib, issuer), name)) == Ok(found)
    ensures lib.issuedBy(cert, issuer)
    ensures var k := RoundTrip.PathText(lib, CertNode(lib, issuer), name);
      && StoredRecord(lib, w, k).Ok?
      && Authentic(lib, CertIdentity(cert, holder(cert)), StoredRecord(lib, w, k).value, found, made)
  {
    var n := CertNode(lib, issuer);
    var k := RoundTrip.PathText(lib, n, name);
    RoundTrip.SignerPath(lib, n, name);
    LookedUpExactly(lib, w, k, found);
    var stored := StoredRecord(lib, w, k).value;
    cert := CertSigned(lib, w, issuer, stored, IprsPath(k, n.cid));
    var id := CertIdentity(cert, holder(cert));
    StoredSignedBy(lib, w, id, k, made);
    assert lib.wellFormed(CertNode(lib, cert).cid);
    MadeIsAuthentic(lib, id, stored, found, made);
  }

  lemma {:induction false} CertSigned(lib: Lib, w: World, issuer: Certificate, stored: Record, key: IprsPath)
    returns (cert: Certificate)
    requires CryptoLaws(lib) && CertsUnderOwnCid(lib, w)
    requires var n := CertNode(lib, issuer); key.c == n.cid && n.cid in w.dag && w.dag[n.cid] == n.data
    requires SignedFor(lib, w, key, stored)
    ensures stored.validity.verificationType == VERIFICATION_CERT
    ensures lib.issuedBy(cert, issuer) && ToCid(stored.validity.verification) == Ok(CertNode(lib, cert).cid)
    ensures lib.certVerify(cert, DataForSig(lib, stored.value, stored.validity).value, stored.signature)
  {
    hide DataForSig, ToCid;
    assert lib.unmarshalCert(lib.marshalCert(issuer)) == Some(issuer);
    assert GetPublicKey(lib, w, key.c) == Err(WrongCodec);
    assert GetCertificate(lib, w, key.c) == Ok(issuer);
    var sigd := DataForSig(lib, stored.value, stored.validity).value;
    var signer: Cid, signerCert: Certificate, other: Certificate :|
      && ToCid(stored.validity.verification) == Ok(signer)
      && GetCertificate(lib, w, signer) == Ok(signerCert) && GetCertificate(lib, w, key.c) == Ok(other)
      && lib.issuedBy(signerCert, other) && lib.certVerify(signerCert, sigd, stored.signature);
    cert := signerCert;
  }
}
