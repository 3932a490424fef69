/** The values the record system handles and the outside code it calls. Code
    that is not part of this repository (CIDs, multihashes, domain syntax,
    timestamps, keys, certificates) is a record of functions, and what the
    theorems need of it is written out as laws. */
module Library {
  import opened Wrappers
  import opened Text

  /** go-cid: `mh` is the multihash (Hash()), `codec` is Type(). */
  datatype Cid = Cid(version: nat, codec: nat, mh: Bytes)

  datatype PrivKey = PrivKey(material: Bytes)
  datatype PubKey = PubKey(material: Bytes)
  datatype Certificate = Certificate(raw: Bytes)

  /** A Go interface{} value as it occurs in verification and validation data. */
  datatype Data =
    | Nil
    | Str(text: string)
    | Blob(bytes: Bytes)
    | Uint(number: nat)
    | CidRef(cid: Cid)
    | Link(target: Cid)
    | Strings(texts: seq<string>)
    | List(items: seq<Data>)

  datatype Field = Leaf(data: Data) | Sub(fields: map<string, Data>)

  /** The content of a block: a CBOR map as a value tree, or plain bytes. */
  datatype BlockData = Cbor(entries: map<string, Field>) | Raw(bytes: Bytes)

  datatype Node = Node(cid: Cid, data: BlockData)

  datatype IpnsEntry = IpnsEntry(value: Bytes, validity: Bytes, validityType: nat, signature: Bytes)

  datatype Error =
    | BadPath
    | BadTarget
    | BadTime
    | BadData
    | BadRange
    | BadNode
    | BadCid
    | BadEntry
    | BadSignature
    | NotIssued
    | WrongCodec
    | UnknownType
    | NotFound
    | ResolveFailed
    | Cancelled
    | NoUsableRecords
    | ErrExpiredRecord
    | ErrPendingRecord

  /** `wellFormed` says which CID values there are, and `representable` which instants have
      a timestamp: years 0 to 9999, in whole nanoseconds. */
  datatype Lib = Lib(
    wellFormed: Cid -> bool,
    representable: int -> bool,
    isDomain: string -> bool,
    cidString: Cid -> string,
    cidDecode: string -> Option<Cid>,
    cidParse: string -> Option<Cid>,
    cidBytes: Cid -> Bytes,
    cidCast: Bytes -> Option<Cid>,
    mhCast: Bytes -> Option<Bytes>,
    digest: BlockData -> Bytes,
    formatTime: int -> string,
    parseTime: string -> Option<int>,
    publicKey: PrivKey -> PubKey,
    marshalKey: PubKey -> Bytes,
    unmarshalKey: Bytes -> Option<PubKey>,
    sign: (PrivKey, Bytes) -> Bytes,
    verify: (PubKey, Bytes, Bytes) -> bool,
    certKey: Certificate -> PubKey,
    marshalCert: Certificate -> Bytes,
    unmarshalCert: Bytes -> Option<Certificate>,
    certSign: (PrivKey, Bytes) -> Bytes,
    certVerify: (Certificate, Bytes, Bytes) -> bool,
    issuedBy: (Certificate, Certificate) -> bool,
    unmarshalEntry: Bytes -> Option<IpnsEntry>,
    entryTypeName: nat -> string
  )

  /** The text and the bytes of a well-formed CID decode to that CID, and nothing decodes to
      any other; CID text is one plain path segment, and no text that decodes is a domain. A
      block's CID, made of a digest, is well formed. */
  ghost predicate CidLaws(lib: Lib) {
    && (forall c: Cid | lib.wellFormed(c) ::
          && lib.cidDecode(lib.cidString(c)) == Some(c)
          && lib.cidParse(lib.cidString(c)) == Some(c)
          && lib.cidCast(lib.cidBytes(c)) == Some(c)
          && '/' !in lib.cidString(c) && Plain(lib.cidString(c)))
    && (forall s: string | lib.cidDecode(s).Some? :: lib.wellFormed(lib.cidDecode(s).value) && !lib.isDomain(s))
    && (forall s: string | lib.cidParse(s).Some? :: lib.wellFormed(lib.cidParse(s).value))
    && (forall b: Bytes | lib.cidCast(b).Some? :: lib.wellFormed(lib.cidCast(b).value))
    && (forall codec: nat, d: BlockData | codec < MULTICODECS :: lib.wellFormed(Cid(1, codec, lib.digest(d))))
  }

  /** All codecs of this system are below this. */
  const MULTICODECS: nat := 0x1_0000

  /** Digests have one length, and the length of a CID's bytes depends on its
      version, codec and multihash length only. */
  ghost predicate LengthLaws(lib: Lib) {
    && (forall d: BlockData, e: BlockData :: |lib.digest(d)| == |lib.digest(e)|)
    && (forall a: Cid, b: Cid :: a.version == b.version && a.codec == b.codec && |a.mh| == |b.mh| ==>
          |lib.cidBytes(a)| == |lib.cidBytes(b)|)
  }

  /** A timestamp in the UTC format of section 5.6 of RFC 3339 ends in "Z" and
      holds no other "Z". */
  ghost predicate Stamp(s: string) {
    |s| > 0 && s[|s| - 1] == 'Z' && 'Z' !in s[..|s| - 1]
  }

  ghost predicate TimeLaws(lib: Lib) {
    forall t: int | lib.representable(t) :: lib.parseTime(lib.formatTime(t)) == Some(t) && Stamp(lib.formatTime(t))
  }

  /** What is signed with a private key verifies under its public key and under
      a certificate for that key; keys and certificates survive marshalling. */
  ghost predicate CryptoLaws(lib: Lib) {
    && (forall sk: PrivKey, m: Bytes :: lib.verify(lib.publicKey(sk), m, lib.sign(sk, m)))
    && (forall cert: Certificate, sk: PrivKey, m: Bytes ::
          lib.certKey(cert) == lib.publicKey(sk) ==> lib.certVerify(cert, m, lib.certSign(sk, m)))
    && (forall pk: PubKey :: lib.unmarshalKey(lib.marshalKey(pk)) == Some(pk))
    && (forall cert: Certificate :: lib.unmarshalCert(lib.marshalCert(cert)) == Some(cert))
  }

  ghost predicate Lawful(lib: Lib) {
    CidLaws(lib) && LengthLaws(lib) && TimeLaws(lib) && CryptoLaws(lib)
  }
}
