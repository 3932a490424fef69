/** What a signature is good for (record/sigprep.go, record/key.go, record/cert.go): signed
    bytes carry no lengths, so a signature covers every record that can be read from the
    bytes it was made over. */
module Readings {
  import opened Wrappers
  import opened Text
  import opened Library
  import opened IprsPaths
  import opened Dispatch
  import opened Records
  import opened SigPrep
  import opened Signers
  import opened Sources
  import RoundTrip

  /** What stands in the signed bytes between a signer's value and the digit of the validation
      type: the digit of the verification type, and for a certificate its CID. */
  function Middle(lib: Lib, id: Identity): Bytes {
    match id
    case KeyIdentity(_) => "0"
    case CertIdentity(_, _) => "1" + lib.cidBytes(IdentityNode(lib, id).cid)
  }

  /** The value can be cut off the front of the signed bytes: the middle stands behind it, and
      then the digit of an end of life or of a time range. */
  predicate Cut(val: Bytes, middle: Bytes, m: Bytes) {
    val + middle + "0" <= m || val + middle + "1" <= m
  }

  /** A record with this value and validity names the signer and has these signed bytes. */
  ghost predicate Reading(lib: Lib, id: Identity, val: Bytes, v: Validity, m: Bytes) {
    && v.verificationType == VerificationType(id)
    && (id.CertIdentity? ==> ToCid(v.verification) == Ok(IdentityNode(lib, id).cid))
    && DataForSig(lib, val, v) == Ok(m)
  }

  /** Validation data of either type with these bytes: any text is end-of-life data, and any
      text with an empty one is range data. */
  function ValidationOf(validationType: nat, bytes: Bytes): Data {
    if validationType == VALIDATION_EOL then Str(bytes) else Strings([bytes, ""])
  }

  function ValidityOf(lib: Lib, id: Identity, validationType: nat, bytes: Bytes): Validity {
    Validity(VerificationType(id), Verification(lib, id), validationType, ValidationOf(validationType, bytes))
  }

  /** The signed bytes of such a record. */
  lemma {:induction false} ValidityOfReads(lib: Lib, id: Identity, val: Bytes, validationType: nat, bytes: Bytes)
    requires validationType == VALIDATION_EOL || validationType == VALIDATION_TIME_RANGE
    ensures Reading(lib, id, val, ValidityOf(lib, id, validationType, bytes),
      val + Middle(lib, id) + (if validationType == VALIDATION_EOL then "0" else "1") + bytes)
  {
    var v := ValidityOf(lib, id, validationType, bytes);
    var vfnb := PrepareVerification(lib, v.verificationType, v.verification).value;
    assert bytes + "" == bytes;
    assert val + Decimal(v.verificationType) + vfnb == val + Middle(lib, id);
  }

  lemma PrefixOf(front: Bytes, m: Bytes) returns (back: Bytes)
    requires front <= m
    ensures m == front + back
  {
    back := m[|front|..];
  }

  /** Exactly the values that can be cut off signed bytes are values of records that name the
      signer and have these signed bytes, for keys and for certificates. */
  lemma {:induction false} ReadingsExactly(lib: Lib, id: Identity, val: Bytes, m: Bytes)
    ensures (exists v: Validity :: Reading(lib, id, val, v, m)) <==> Cut(val, Middle(lib, id), m)
  {
    if v: Validity :| Reading(lib, id, val, v, m) {
      ReadingCuts(lib, id, val, v, m);
    }
    if Cut(val, Middle(lib, id), m) {
      var v := CutReads(lib, id, val, m);
    }
  }

  lemma {:induction false} ReadingCuts(lib: Lib, id: Identity, val: Bytes, v: Validity, m: Bytes)
    requires Reading(lib, id, val, v, m)
    ensures Cut(val, Middle(lib, id), m)
  {
    var vfnb := PrepareVerification(lib, v.verificationType, v.verification).value;
    var vdnb := PrepareValidation(v.validationType, v.validation).value;
    var digit := Decimal(v.validationType);
    assert digit == "0" || digit == "1";
    assert val + Decimal(v.verificationType) + vfnb == val + Middle(lib, id);
    assert m == val + Middle(lib, id) + digit + vdnb;
  }

  lemma {:induction false} CutReads(lib: Lib, id: Identity, val: Bytes, m: Bytes) returns (v: Validity)
    requires Cut(val, Middle(lib, id), m)
    ensures Reading(lib, id, val, v, m)
  {
    var front := val + Middle(lib, id);
    var t := if front + "0" <= m then VALIDATION_EOL else VALIDATION_TIME_RANGE;
    var bytes := PrefixOf(front + (if t == VALIDATION_EOL then "0" else "1"), m);
    ValidityOfReads(lib, id, val, t, bytes);
    v := ValidityOf(lib, id, t, bytes);
  }

  // ---- When signed bytes name one value --------------------------------------------------

  /** The middle and a validation digit stand at this place of the signed bytes. */
  predicate MiddleAt(m: Bytes, middle: Bytes, at: nat) {
    at <= |m| && (middle + "0" <= m[at..] || middle + "1" <= m[at..])
  }

  lemma {:induction false} CutIsAt(val: Bytes, middle: Bytes, m: Bytes)
    ensures Cut(val, middle, m) <==> val <= m && MiddleAt(m, middle, |val|)
  {
    AppendsAt(val, middle + "0", m);
    AppendsAt(val, middle + "1", m);
    assert val + middle + "0" == val + (middle + "0") && val + middle + "1" == val + (middle + "1");
  }

  lemma AppendsAt(val: Bytes, more: Bytes, m: Bytes)
    ensures val + more <= m <==> val <= m && more <= m[|val|..]
  {
    if val <= m && more <= m[|val|..] {
      assert m == val + m[|val|..];
      assert m[|val|..] == more + m[|val|..][|more|..];
    }
  }

  /** A signer's signature over a record is good for no other value if and only if the middle
      and a digit stand nowhere in the signed bytes but behind the value. For a key these are
      "00" and "01". */
  lemma {:induction false} OneValueExactly(lib: Lib, id: Identity, val: Bytes, vl: RecordValidation)
    ensures var m := Signable(lib, val, id, vl);
      (forall other: Bytes, v: Validity | Reading(lib, id, other, v, m) :: other == val)
      <==> (forall at: nat | MiddleAt(m, Middle(lib, id), at) :: at == |val|)
  {
    var m := Signable(lib, val, id, vl);
    assert val <= m;
    hide Signable, Reading, MiddleAt, Cut;
    if forall at: nat | MiddleAt(m, Middle(lib, id), at) :: at == |val| {
      forall other: Bytes, v: Validity | Reading(lib, id, other, v, m) ensures other == val {
        ReadingCuts(lib, id, other, v, m);
        CutIsAt(other, Middle(lib, id), m);
      }
    } else {
      var at: nat :| MiddleAt(m, Middle(lib, id), at) && at != |val|;
      assert at <= |m| by { InBounds(m, Middle(lib, id), at); }
      CutIsAt(m[..at], Middle(lib, id), m);
      var v := CutReads(lib, id, m[..at], m);
    }
  }

  lemma InBounds(m: Bytes, middle: Bytes, at: nat)
    requires MiddleAt(m, middle, at)
    ensures at <= |m|
  {
  }

  /** A record for which it fails: with "01" in the text of its end of life, as any in January
      has, the signed bytes are also those of a time range record with a longer value. */
  lemma {:induction false} DigitsInTime(lib: Lib, sk: PrivKey, val: Bytes, eol: int, a: Bytes, b: Bytes)
    requires lib.formatTime(eol) == a + "01" + b
    ensures var id, longer := KeyIdentity(sk), val + "00" + a;
      && longer != val
      && Reading(lib, id, longer, ValidityOf(lib, id, VALIDATION_TIME_RANGE, b),
                 Signable(lib, val, id, EolValidation(eol)))
  {
    var id, longer := KeyIdentity(sk), val + "00" + a;
    ValidityOfReads(lib, id, longer, VALIDATION_TIME_RANGE, b);
    assert Signable(lib, val, id, EolValidation(eol)) == val + ("0" + ("" + ("0" + (a + "01" + b))));
    assert longer + "0" + "1" + b == val + ("0" + ("" + ("0" + (a + "01" + b))));
  }

  // ---- What a lookup can find ------------------------------------------------------------

  /** The stores hold the nodes of the signer and of the path's authority, and at the path a
      record that names the signer and has its signature over these signed bytes. */
  ghost predicate HoldsSigned(lib: Lib, w: World, id: Identity, authority: Node, path: string, m: Bytes) {
    var signer := IdentityNode(lib, id);
    && signer.cid in w.dag && w.dag[signer.cid] == signer.data
    && authority.cid in w.dag && w.dag[authority.cid] == authority.data
    && StoredRecord(lib, w, path).Ok?
    && var stored := StoredRecord(lib, w, path).value;
    && stored.signature == SignRecord(lib, id, m) && DataForSig(lib, stored.value, stored.validity) == Ok(m)
    && (id.CertIdentity? ==> ToCid(stored.validity.verification) == Ok(signer.cid))
  }

  ghost predicate FoundWith(lib: Lib, w: World, id: Identity, authority: Node, path: string, m: Bytes, val: Bytes) {
    && HoldsSigned(lib, w, id, authority, path, m)
    && IprsGetValue(lib, w, path).Ok? && IprsGetValue(lib, w, path).value.val == val
  }

  /** Over all stores, the values that a lookup at a signer's path, or at its issuer's, finds
      with a given signature are exactly the resolvable ones that can be cut off the bytes it
      was made over. */
  lemma {:induction false} FindsExactly(lib: Lib, id: Identity, authority: Node, name: string, m: Bytes, val: Bytes)
    requires Lawful(lib) && Plain(name) && '/' !in name && RoundTrip.Authority(lib, id, authority)
    requires authority.cid == IdentityNode(lib, id).cid ==> authority == IdentityNode(lib, id)
    ensures (exists w: World :: FoundWith(lib, w, id, authority, RoundTrip.PathText(lib, authority, name), m, val))
      <==> Cut(val, Middle(lib, id), m) && IsResolvable(lib, val)
  {
    hide IsResolvable, FoundWith, Cut, RoundTrip.Authority;
    var path := RoundTrip.PathText(lib, authority, name);
    if w: World :| FoundWith(lib, w, id, authority, path, m, val) {
      FoundIsCut(lib, w, id, authority, name, m, val);
    }
    if Cut(val, Middle(lib, id), m) && IsResolvable(lib, val) {
      var w := CutIsFound(lib, id, authority, name, m, val);
    }
  }

  /** A record that is signed for a path has the verification type of the path's authority. */
  lemma {:induction false} TypeOfAuthority(
    lib: Lib, w: World, id: Identity, authority: Node, key: IprsPath, stored: Record)
    requires RoundTrip.Authority(lib, id, authority) && key.c == authority.cid
    requires SignedFor(lib, w, key, stored)
    ensures stored.validity.verificationType == VerificationType(id)
  {
    hide DataForSig;
    assert id.KeyIdentity? ==> GetCertificate(lib, w, key.c) == Err(WrongCodec);
    assert id.CertIdentity? ==> GetPublicKey(lib, w, key.c) == Err(WrongCodec);
  }

  lemma {:induction false} FoundIsCut(
    lib: Lib, w: World, id: Identity, authority: Node, name: string, m: Bytes, val: Bytes)
    requires Lawful(lib) && Plain(name) && '/' !in name && RoundTrip.Authority(lib, id, authority)
    requires FoundWith(lib, w, id, authority, RoundTrip.PathText(lib, authority, name), m, val)
    ensures Cut(val, Middle(lib, id), m) && IsResolvable(lib, val)
  {
    var path := RoundTrip.PathText(lib, authority, name);
    RoundTrip.LawsOf(lib, EolValidation(0), id, "", authority);
    RoundTrip.SignerPath(lib, authority, name);
    LookedUpExactly(lib, w, path, IprsGetValue(lib, w, path).value);
    var stored := StoredRecord(lib, w, path).value;
    hide IprsGetValue, StoredRecord, IsResolvable, FromString, DataForSig, Cut, SignedFor;
    TypeOfAuthority(lib, w, id, authority, IprsPath(path, authority.cid), stored);
    ReadingCuts(lib, id, val, stored.validity, m);
  }

  lemma {:induction false} CutIsFound(
    lib: Lib, id: Identity, authority: Node, name: string, m: Bytes, val: Bytes) returns (w: World)
    requires Lawful(lib) && Plain(name) && '/' !in name && RoundTrip.Authority(lib, id, authority)
    requires authority.cid == IdentityNode(lib, id).cid ==> authority == IdentityNode(lib, id)
    requires Cut(val, Middle(lib, id), m) && IsResolvable(lib, val)
    ensures FoundWith(lib, w, id, authority, RoundTrip.PathText(lib, authority, name), m, val)
  {
    hide IsResolvable, Cut, Reading, DecodeRecord, RoundTrip.PathText;
    var signer := IdentityNode(lib, id);
    var path := RoundTrip.PathText(lib, authority, name);
    var v := CutReads(lib, id, val, m);
    var node := IprsNode(lib, val, v, SignRecord(lib, id, m));
    w := World(map[], map[path := lib.cidBytes(node.cid)],
               map[signer.cid := signer.data, authority.cid := authority.data, node.cid := node.data]);
    assert signer.cid.codec != CODEC_IPRS_CBOR && authority.cid.codec != CODEC_IPRS_CBOR;
    assert node.cid.codec == CODEC_IPRS_CBOR && lib.wellFormed(node.cid);
    hide IprsNode, RoundTrip.Authority, Lawful, IdentityNode;
    RereadReads(lib, id, val, v, m);
    ReadIsFound(lib, w, id, authority, name, node, DecodeRecord(node).value, m);
  }

  /** For a record whose end of life has "01" in its text there are stores over which a lookup
      at the key's path finds, with the signature of that record, another value. */
  lemma {:induction false} AnotherValueIsFound(
    lib: Lib, sk: PrivKey, name: string, val: Bytes, eol: int, a: Bytes, b: Bytes) returns (w: World)
    requires Lawful(lib) && Plain(name) && '/' !in name
    requires lib.formatTime(eol) == a + "01" + b && IsResolvable(lib, val + "00" + a)
    ensures var id := KeyIdentity(sk);
      var signer := IdentityNode(lib, id);
      && FoundWith(lib, w, id, signer, RoundTrip.PathText(lib, signer, name),
                   Signable(lib, val, id, EolValidation(eol)), val + "00" + a)
      && val + "00" + a != val
  {
    var id, longer := KeyIdentity(sk), val + "00" + a;
    var m := Signable(lib, val, id, EolValidation(eol));
    DigitsInTime(lib, sk, val, eol, a, b);
    ReadingCuts(lib, id, longer, ValidityOf(lib, id, VALIDATION_TIME_RANGE, b), m);
    hide Cut, IsResolvable, Signable, FoundWith, Lawful;
    w := CutIsFound(lib, id, IdentityNode(lib, id), name, m, longer);
  }

  /** A record read back is a reading of the same bytes. */
  lemma {:induction false} RereadReads(lib: Lib, id: Identity, val: Bytes, v: Validity, m: Bytes)
    requires Reading(lib, id, val, v, m)
    ensures var node := IprsNode(lib, val, v, SignRecord(lib, id, m));
      && DecodeRecord(node).Ok?
      && var stored := DecodeRecord(node).value;
      && stored.value == val && stored.signature == SignRecord(lib, id, m)
      && Reading(lib, id, stored.value, stored.validity, m)
  {
    NodeRoundTrip(lib, val, v, SignRecord(lib, id, m));
    SignedBytesSurvive(lib, val, v);
    assert ToCid(Reread(v).verification) == ToCid(v.verification);
    hide IprsNode, DecodeRecord, DataForSig;
  }

  lemma {:induction false} ReadIsFound(
    lib: Lib, w: World, id: Identity, authority: Node, name: string, node: Node, stored: Record, m: Bytes)
    requires Lawful(lib) && Plain(name) && '/' !in name && RoundTrip.Authority(lib, id, authority)
    requires var signer := IdentityNode(lib, id); signer.cid in w.dag && w.dag[signer.cid] == signer.data
    requires authority.cid in w.dag && w.dag[authority.cid] == authority.data
    requires node.cid in w.dag && w.dag[node.cid] == node.data && lib.wellFormed(node.cid)
    requires var path := RoundTrip.PathText(lib, authority, name);
      path in w.values && w.values[path] == lib.cidBytes(node.cid)
    requires DecodeRecord(node) == Ok(stored) && stored.signature == SignRecord(lib, id, m)
    requires Reading(lib, id, stored.value, stored.validity, m) && IsResolvable(lib, stored.value)
    ensures FoundWith(lib, w, id, authority, RoundTrip.PathText(lib, authority, name), m, stored.value)
  {
    hide DecodeRecord, DataForSig, FromString, GetEol, IsResolvable, ToCid, RoundTrip.PathText, Verify;
    var path := RoundTrip.PathText(lib, authority, name);
    RoundTrip.LawsOf(lib, EolValidation(0), id, "", authority);
    RoundTrip.PathIsBuilt(lib, authority, name);
    assert lib.cidCast(lib.cidBytes(node.cid)) == Some(node.cid);
    match id {
      case KeyIdentity(sk) =>
        RoundTrip.KeySignatureVerifies(lib, w, sk, IprsPath(path, authority.cid), stored, m);
      case CertIdentity(cert, sk) =>
        RoundTrip.CertSignatureVerifies(lib, w, cert, sk, authority, IprsPath(path, authority.cid), stored, m);
    }
    RoundTrip.LookupFinds(lib, w, IprsPath(path, authority.cid), node, stored);
    assert Node(node.cid, w.dag[node.cid]) == node;
  }
}
