/** The bytes a record's signature covers (record/sigprep.go, with the preparers of
    record/key.go, record/cert.go, record/eol.go and record/range.go). */
module SigPrep {
  import opened Wrappers
  import opened Text
  import opened Library
  import opened Records

  function PrepareKeySig(o: Data): Result<Bytes, Error> {
    Ok("")
  }

  /** The verification data of a certificate record, as a CID or as the link it is
      decoded to. */
  function ToCid(o: Data): Result<Cid, Error> {
    match o
    case CidRef(c) => Ok(c)
    case Link(c) => Ok(c)
    case _ => Err(BadData)
  }

  lemma ToCidExactly(o: Data, c: Cid)
    ensures ToCid(o) == Ok(c) <==> o == CidRef(c) || o == Link(c)
  {
  }

  function PrepareCertSig(lib: Lib, o: Data): Result<Bytes, Error> {
    match ToCid(o)
    case Ok(c) => Ok(lib.cidBytes(c))
    case Err(e) => Err(e)
  }

  function PrepareEolSig(o: Data): Result<Bytes, Error> {
    match o
    case Str(s) => Ok(s)
    case _ => Err(BadData)
  }

  function PrepareRangeSig(o: Data): Result<Bytes, Error> {
    match StringTuple(o)
    case Ok(s) => Ok(s[0] + s[1])
    case Err(e) => Err(e)
  }

  function PrepareVerification(lib: Lib, t: nat, o: Data): Result<Bytes, Error> {
    if t == VERIFICATION_KEY then PrepareKeySig(o)
    else if t == VERIFICATION_CERT then PrepareCertSig(lib, o)
    else Err(UnknownType)
  }

  function PrepareValidation(t: nat, o: Data): Result<Bytes, Error> {
    if t == VALIDATION_EOL then PrepareEolSig(o)
    else if t == VALIDATION_TIME_RANGE then PrepareRangeSig(o)
    else Err(UnknownType)
  }

  function DataForSig(lib: Lib, val: Bytes, v: Validity): Result<Bytes, Error> {
    match PrepareVerification(lib, v.verificationType, v.verification)
    case Err(e) => Err(e)
    case Ok(vfnb) =>
      match PrepareValidation(v.validationType, v.validation)
      case Err(e) => Err(e)
      case Ok(vdnb) => Ok(val + Decimal(v.verificationType) + vfnb + Decimal(v.validationType) + vdnb)
  }

  /** A validity can be signed exactly when its types are known, a certificate is a CID or a
      link, an end of life is a text, and a range is a tuple of two texts. */
  lemma {:induction false} SignableExactly(lib: Lib, val: Bytes, v: Validity)
    ensures DataForSig(lib, val, v).Ok? <==>
      && (v.verificationType == 0 || (v.verificationType == 1 && (v.verification.CidRef? || v.verification.Link?)))
      && ((v.validationType == 0 && v.validation.Str?)
          || (v.validationType == 1
              && exists first: string, second: string ::
                   v.validation == Strings([first, second]) || v.validation == List([Str(first), Str(second)])))
  {
    var o := v.validation;
    if StringTuple(o).Ok? {
      var s := StringTuple(o).value;
      TupleExactly(o, s[0], s[1]);
      assert s == [s[0], s[1]];
    }
    if first: string, second: string :| o == Strings([first, second]) || o == List([Str(first), Str(second)]) {
      TupleExactly(o, first, second);
    }
  }

  // ---- The change of representation when a node is stored and read back -------------

  /** How the CBOR encoder stores a value: a []string becomes a list of any values. */
  function Encoded(d: Data): Data {
    match d
    case Strings(ss) => List(seq(|ss|, i requires 0 <= i < |ss| => Str(ss[i])))
    case List(items) => List(seq(|items|, i requires 0 <= i < |items| => Encoded(items[i])))
    case other => other
  }

  /** How Resolve on a decoded node returns a stored value: a CID comes back as a link. */
  function ResolvedValue(d: Data): Data {
    match d
    case CidRef(c) => Link(c)
    case other => other
  }

  function Reread(v: Validity): Validity {
    Validity(
      v.verificationType, ResolvedValue(Encoded(v.verification)),
      v.validationType, ResolvedValue(Encoded(v.validation)))
  }

  /** Storing and reading back changes neither the texts of a tuple nor whether it is one. */
  lemma {:induction false} TupleSurvives(d: Data)
    ensures StringTuple(ResolvedValue(Encoded(d))) == StringTuple(d)
  {
    match d
    case Strings(ss) =>
      var items := seq(|ss|, i requires 0 <= i < |ss| => Str(ss[i]));
      AllTextsExactly(items);
      assert AllTexts(items).value == ss;
    case List(items) =>
      var encoded := seq(|items|, i requires 0 <= i < |items| => Encoded(items[i]));
      AllTextsExactly(items);
      AllTextsExactly(encoded);
      if AllTexts(items).Some? {
        assert AllTexts(encoded).value == AllTexts(items).value;
      } else {
        var k :| 0 <= k < |items| && !items[k].Str?;
        assert !encoded[k].Str?;
      }
    case _ =>
  }

  /** The signed bytes are the same before a record is stored and after it is read back,
      for all verification and validation data, and so are the errors. */
  lemma {:induction false} SignedBytesSurvive(lib: Lib, val: Bytes, v: Validity)
    ensures DataForSig(lib, val, Reread(v)) == DataForSig(lib, val, v)
  {
    TupleSurvives(v.validation);
    assert ToCid(ResolvedValue(Encoded(v.verification))) == ToCid(v.verification);
    assert PrepareEolSig(ResolvedValue(Encoded(v.validation))) == PrepareEolSig(v.validation);
  }
}
