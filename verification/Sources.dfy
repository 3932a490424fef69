/** What the three sub-resolvers' GetValue fetches from the network
    (resolver/dns.go, resolver/iprs.go, resolver/ipns.go), and the verification of IPRS
    records on the way (record/key.go, record/cert.go, record/pubk.go,
    certificate/manager.go). */
module Sources {
  import opened Wrappers
  import opened Text
  import opened Library
  import opened IprsPaths
  import opened Targets
  import opened Dispatch
  import opened Records
  import opened SigPrep
  import opened Signers
  import Resolution

  /** The TXT records, the value store and the block store. A missing key is a failed
      lookup. */
  datatype World = World(
    txt: map<string, seq<string>>, values: map<string, Bytes>, dag: map<Cid, BlockData>)

  /** A fetched value and until when it may be used; no end if None. */
  datatype Found = Found(val: Bytes, eol: Option<int>)

  // ---- DNS ---------------------------------------------------------------------------

  function TryParseDnsLink(lib: Lib, txt: string): Option<string> {
    var parts := SplitTwo(txt, '=');
    if |parts| == 2 && parts[0] == "dnslink" && IsResolvable(lib, parts[1]) then Some(parts[1]) else None
  }

  function ParseEntry(lib: Lib, txt: string): Option<string> {
    if txt != "" && lib.cidDecode(txt).Some? then Some("/ipfs/" + lib.cidString(lib.cidDecode(txt).value))
    else if IsResolvable(lib, txt) then Some(txt)
    else TryParseDnsLink(lib, txt)
  }

  function FirstParsed(lib: Lib, entries: seq<string>): Result<string, Error> {
    if entries == [] then Err(ResolveFailed)
    else match ParseEntry(lib, entries[0])
      case Some(path) => Ok(path)
      case None => FirstParsed(lib, entries[1..])
  }

  /** What one lookup goroutine sends. */
  function LookupDomain(lib: Lib, w: World, name: string): Result<string, Error> {
    if name !in w.txt then Err(NotFound) else FirstParsed(lib, w.txt[name])
  }

  method WorkDomain(lib: Lib, w: World, name: string) returns (res: Result<string, Error>)
    ensures res == LookupDomain(lib, w, name)
  {
    if name !in w.txt {
      return Err(NotFound);
    }
    var txt := w.txt[name];
    for i := 0 to |txt|
      invariant FirstParsed(lib, txt) == FirstParsed(lib, txt[i..])
    {
      var p := ParseEntry(lib, txt[i]);
      if p.Some? {
        return Ok(p.value);
      }
    }
    return Err(ResolveFailed);
  }

  /** The subdomain's entry is preferred to the domain's own. */
  function DnsGetValue(lib: Lib, w: World, domain: string): Result<Found, Error> {
    match LookupDomain(lib, w, "_dnslink." + domain)
    case Ok(path) => Ok(Found(path, None))
    case Err(_) =>
      match LookupDomain(lib, w, domain)
      case Ok(path) => Ok(Found(path, None))
      case Err(_) => Err(ResolveFailed)
  }

  /** A lookup finds the first TXT entry that parses, and every entry that parses gives
      a resolvable name. */
  lemma {:induction false} FirstParsedExactly(lib: Lib, entries: seq<string>)
    ensures FirstParsed(lib, entries).Err? <==> forall i | 0 <= i < |entries| :: ParseEntry(lib, entries[i]).None?
    ensures FirstParsed(lib, entries).Ok? ==>
      exists i | 0 <= i < |entries| ::
        && ParseEntry(lib, entries[i]) == Some(FirstParsed(lib, entries).value)
        && forall j | 0 <= j < i :: ParseEntry(lib, entries[j]).None?
  {
    if entries != [] && ParseEntry(lib, entries[0]).None? {
      var rest := entries[1..];
      FirstParsedExactly(lib, rest);
      assert forall i | 0 < i < |entries| :: entries[i] == rest[i - 1];
      if FirstParsed(lib, rest).Ok? {
        var i :| 0 <= i < |rest| && ParseEntry(lib, rest[i]) == Some(FirstParsed(lib, rest).value)
          && forall j | 0 <= j < i :: ParseEntry(lib, rest[j]).None?;
        assert ParseEntry(lib, entries[i + 1]) == Some(FirstParsed(lib, entries).value);
      }
    }
  }

  /** An entry that is CID text gives the "/ipfs" path of that CID, whatever else it could be
      read as. */
  lemma {:induction false} CidEntry(lib: Lib, txt: string, c: Cid)
    requires txt != "" && lib.cidDecode(txt) == Some(c)
    ensures ParseEntry(lib, txt) == Some("/ipfs/" + lib.cidString(c))
  {
  }

  /** An entry that is no CID text and is resolvable gives itself, also when it starts with
      "dnslink=". */
  lemma {:induction false} NameEntry(lib: Lib, txt: string)
    requires lib.cidDecode(txt).None? && IsResolvable(lib, txt)
    ensures ParseEntry(lib, txt) == Some(txt)
  {
  }

  /** What an entry gives: CID text the "/ipfs" path of its CID; another resolvable entry
      itself; and any other the text behind "dnslink=", when that is resolvable. */
  lemma {:induction false} EntryGivesExactly(lib: Lib, txt: string, val: string)
    requires txt != ""
    ensures ParseEntry(lib, txt) == Some(val) <==>
      if lib.cidDecode(txt).Some? then val == "/ipfs/" + lib.cidString(lib.cidDecode(txt).value)
      else if IsResolvable(lib, txt) then val == txt
      else txt == "dnslink=" + val && IsResolvable(lib, val)
  {
    SplitTwoCuts(txt);
    assert "dnslink" + "=" == "dnslink=";
    if txt == "dnslink=" + val {
      SplitTwoAtFirst("dnslink", val);
      assert "dnslink" + "=" + val == txt;
    }
    hide IsResolvable;
  }

  lemma {:induction false} SplitTwoCuts(s: string)
    ensures var parts := SplitTwo(s, '=');
      if |parts| == 1 then parts[0] == s && '=' !in s else s == parts[0] + "=" + parts[1] && '=' !in parts[0]
  {
    if s != "" && s[0] != '=' {
      SplitTwoCuts(s[1..]);
      assert s == [s[0]] + s[1..];
    } else if s != "" {
      assert s == "" + "=" + s[1..];
    }
  }

  /** A value from DNS has no expiry, and a failed lookup is the resolve failure. */
  lemma {:induction false} DnsAnswers(lib: Lib, w: World, domain: string)
    ensures match DnsGetValue(lib, w, domain)
      case Ok(found) => found.eol == None
      case Err(e) =>
        && e == ResolveFailed
        && LookupDomain(lib, w, "_dnslink." + domain).Err? && LookupDomain(lib, w, domain).Err?
  {
  }

  /** A dnslink entry gives the text behind its first "=", whatever that text holds, when it
      is resolvable and the whole entry is not a name itself. */
  lemma {:induction false} DnsLinkEntry(lib: Lib, p: string)
    requires lib.cidDecode("dnslink=" + p).None? && !IsResolvable(lib, "dnslink=" + p)
    ensures ParseEntry(lib, "dnslink=" + p) == if IsResolvable(lib, p) then Some(p) else None
  {
    SplitTwoAtFirst("dnslink", p);
    assert "dnslink" + "=" + p == "dnslink=" + p;
  }

  lemma {:induction false} SplitTwoAtFirst(a: string, b: string)
    requires '=' !in a
    ensures SplitTwo(a + "=" + b, '=') == [a, b]
  {
    var s := a + "=" + b;
    if a == "" {
      assert s[1..] == b;
    } else {
      SplitTwoAtFirst(a[1..], b);
      assert s[1..] == a[1..] + "=" + b;
      assert a == [a[0]] + a[1..];
    }
  }

  lemma {:induction false} ParsedIsResolvable(lib: Lib, txt: string)
    requires CidLaws(lib)
    ensures ParseEntry(lib, txt).Some? ==> IsResolvable(lib, ParseEntry(lib, txt).value)
  {
    if txt != "" && lib.cidDecode(txt).Some? {
      var c := lib.cidDecode(txt).value;
      var text := lib.cidString(c);
      var p := "/ipfs/" + text;
      var parts := ["", "ipfs", text];
      SplitJoin(parts, '/');
      JoinCons("", ["ipfs", text], '/');
      JoinCons("ipfs", [text], '/');
      assert parts == [""] + ["ipfs", text] && ["ipfs", text] == ["ipfs"] + [text];
      assert "" + ['/'] + ("ipfs" + ['/'] + text) == p;
      assert Split(p, '/') == parts;
      assert ParseTargetToCid(lib, p).Some?;
    }
  }

  lemma {:induction false} LookupIsResolvable(lib: Lib, w: World, name: string)
    requires CidLaws(lib)
    ensures LookupDomain(lib, w, name).Ok? ==> IsResolvable(lib, LookupDomain(lib, w, name).value)
  {
    if LookupDomain(lib, w, name).Ok? {
      var entries := w.txt[name];
      FirstParsedExactly(lib, entries);
      var i :| 0 <= i < |entries| && ParseEntry(lib, entries[i]) == Some(FirstParsed(lib, entries).value);
      ParsedIsResolvable(lib, entries[i]);
    }
  }

  // ---- IPRS ---------------------------------------------------------------------------

  function FetchRaw(w: World, c: Cid, codec: nat): Result<Bytes, Error> {
    if c.codec != codec then Err(WrongCodec)
    else if c !in w.dag then Err(NotFound)
    else match w.dag[c]
      case Raw(bytes) => Ok(bytes)
      case Cbor(_) => Err(BadData)
  }

  function GetPublicKey(lib: Lib, w: World, c: Cid): Result<PubKey, Error> {
    match FetchRaw(w, c, CODEC_PUB_KEY_RAW)
    case Err(e) => Err(e)
    case Ok(bytes) =>
      match lib.unmarshalKey(bytes) case Some(pk) => Ok(pk) case None => Err(BadData)
  }

  function GetCertificate(lib: Lib, w: World, c: Cid): Result<Certificate, Error> {
    match FetchRaw(w, c, CODEC_CERT_RAW)
    case Err(e) => Err(e)
    case Ok(bytes) =>
      match lib.unmarshalCert(bytes) case Some(cert) => Ok(cert) case None => Err(BadData)
  }

  /** A public key is fetched exactly from a raw block that is one, under a CID with codec
      0xf0; a certificate from one that is one, under a CID with codec 0xe0. */
  lemma {:induction false} FetchedExactly(lib: Lib, w: World, c: Cid, pk: PubKey, cert: Certificate)
    ensures GetPublicKey(lib, w, c) == Ok(pk) <==>
      c.codec == 0xf0 && c in w.dag && w.dag[c].Raw? && lib.unmarshalKey(w.dag[c].bytes) == Some(pk)
    ensures GetCertificate(lib, w, c) == Ok(cert) <==>
      c.codec == 0xe0 && c in w.dag && w.dag[c].Raw? && lib.unmarshalCert(w.dag[c].bytes) == Some(cert)
  {
  }

  function VerifyKeyRecord(lib: Lib, w: World, key: IprsPath, record: Record): Result<(), Error> {
    match GetPublicKey(lib, w, key.c)
    case Err(e) => Err(e)
    case Ok(pk) =>
      match DataForSig(lib, record.value, record.validity)
      case Err(e) => Err(e)
      case Ok(sigd) => if lib.verify(pk, sigd, record.signature) then Ok(()) else Err(BadSignature)
  }

  /** Both certificates, the signer's and the issuer's. Which of two errors getCerts
      returns depends on the schedule; here it is the signer's. */
  function GetCerts(lib: Lib, w: World, certCid: Cid, issuerCid: Cid): Result<(Certificate, Certificate), Error> {
    match (GetCertificate(lib, w, certCid), GetCertificate(lib, w, issuerCid))
    case (Ok(cert), Ok(issuer)) => Ok((cert, issuer))
    case (Err(e), _) => Err(e)
    case (_, Err(e)) => Err(e)
  }

  function VerifyCertRecord(lib: Lib, w: World, key: IprsPath, record: Record): Result<(), Error> {
    match ToCid(record.validity.verification)
    case Err(e) => Err(e)
    case Ok(certCid) =>
      match GetCerts(lib, w, certCid, key.c)
      case Err(e) => Err(e)
      case Ok((cert, issuer)) =>
        if !lib.issuedBy(cert, issuer) then Err(NotIssued)
        else match DataForSig(lib, record.value, record.validity)
          case Err(e) => Err(e)
          case Ok(sigd) => if lib.certVerify(cert, sigd, record.signature) then Ok(()) else Err(BadSignature)
  }

  function Verify(lib: Lib, w: World, key: IprsPath, record: Record): Result<(), Error> {
    if record.validity.verificationType == VERIFICATION_KEY then VerifyKeyRecord(lib, w, key, record)
    else if record.validity.verificationType == VERIFICATION_CERT then VerifyCertRecord(lib, w, key, record)
    else Err(UnknownType)
  }

  /** The record the value store refers to at k, if there is one to be read. */
  function StoredRecord(lib: Lib, w: World, k: string): Result<Record, Error> {
    if k !in w.values then Err(NotFound)
    else match lib.cidCast(w.values[k])
      case None => Err(BadCid)
      case Some(c) => if c !in w.dag then Err(NotFound) else DecodeRecord(Node(c, w.dag[c]))
  }

  function IprsGetValue(lib: Lib, w: World, k: string): Result<Found, Error> {
    match FromString(lib, k)
    case Err(e) => Err(e)
    case Ok(key) =>
      match StoredRecord(lib, w, k)
      case Err(e) => Err(e)
      case Ok(record) =>
        match Verify(lib, w, key, record)
        case Err(e) => Err(e)
        case Ok(_) =>
          if !IsResolvable(lib, record.value) then Err(BadTarget)
          else Ok(Found(record.value, GetEol(lib, record)))
  }

  // ---- IPNS ---------------------------------------------------------------------------

  const IPNS_EOL: nat := 0

  function EntryDataForSig(lib: Lib, e: IpnsEntry): Bytes {
    e.value + e.validity + lib.entryTypeName(e.validityType)
  }

  function EntryEol(lib: Lib, e: IpnsEntry): Option<int> {
    if e.validityType == IPNS_EOL then lib.parseTime(e.validity) else None
  }

  function FetchEntry(lib: Lib, w: World, c: Cid): Result<IpnsEntry, Error> {
    var name := "/ipns/" + c.mh;
    if name !in w.values then Err(NotFound)
    else match lib.unmarshalEntry(w.values[name])
      case Some(entry) => Ok(entry)
      case None => Err(BadEntry)
  }

  function FetchPublicKey(lib: Lib, w: World, c: Cid): Result<PubKey, Error> {
    var name := "/pk/" + lib.cidBytes(c);
    if name !in w.values then Err(NotFound)
    else match lib.unmarshalKey(w.values[name])
      case Some(pk) => Ok(pk)
      case None => Err(BadData)
  }

  function CheckEntry(lib: Lib, entry: IpnsEntry, pk: PubKey): Result<Found, Error> {
    if !lib.verify(pk, EntryDataForSig(lib, entry), entry.signature) then Err(BadSignature)
    else if !IsResolvable(lib, entry.value) then Err(BadTarget)
    else Ok(Found(entry.value, EntryEol(lib, entry)))
  }

  function IpnsGetValue(lib: Lib, w: World, k: string): Result<Found, Error> {
    var parts := Split(k, '/');
    if |parts| < 3 || lib.cidDecode(parts[2]).None? then Err(BadPath)
    else
      var c := lib.cidDecode(parts[2]).value;
      match (FetchEntry(lib, w, c), FetchPublicKey(lib, w, c))
      case (Ok(entry), Ok(pk)) => CheckEntry(lib, entry, pk)
      case (Err(e), _) => Err(e)
      case (_, Err(e)) => Err(e)
  }

  // ---- All three ------------------------------------------------------------------------

  function GetValue(lib: Lib, w: World, key: Key): Result<Found, Error> {
    match key.kind
    case Dns => DnsGetValue(lib, w, key.text)
    case Iprs => IprsGetValue(lib, w, key.text)
    case Ipns => IpnsGetValue(lib, w, key.text)
  }

  /** The names the keys resolve to when nothing is cached. */
  function Names(lib: Lib, w: World): Resolution.Lookup {
    (key: Key) => ValueOf(GetValue(lib, w, key))
  }

  function ValueOf(fetched: Result<Found, Error>): Result<Bytes, Error> {
    match fetched case Ok(found) => Ok(found.val) case Err(e) => Err(e)
  }

  /** Every value any of the three sub-resolvers returns is resolvable. */
  lemma {:induction false} ValuesAreResolvable(lib: Lib, w: World, key: Key)
    requires CidLaws(lib)
    ensures GetValue(lib, w, key).Ok? ==> IsResolvable(lib, GetValue(lib, w, key).value.val)
  {
    if key.kind.Dns? {
      LookupIsResolvable(lib, w, "_dnslink." + key.text);
      LookupIsResolvable(lib, w, key.text);
    }
  }

  /** No dead ends in the whole system: whatever DNS, the value store and the block store
      hold, and however they change between hops, resolution reports an unrecognized format
      only for a starting name that is unrecognized itself. */
  lemma {:induction false} ResolutionHasNoDeadEnds(lib: Lib, worlds: nat -> World, p: string, depth: nat)
    requires CidLaws(lib)
    ensures var gets := (i: nat) => Names(lib, worlds(i));
      Resolution.ResolveChanging(lib, gets, 0, p, depth, []).Unrecognized? <==> !IsResolvable(lib, p)
    ensures Resolution.Resolve(lib, Names(lib, worlds(0)), p, depth).Unrecognized? <==> !IsResolvable(lib, p)
  {
    var gets, still := (i: nat) => Names(lib, worlds(i)), (i: nat) => Names(lib, worlds(0));
    forall i: nat, key: Key
      ensures Names(lib, worlds(i))(key).Ok? ==> IsResolvable(lib, Names(lib, worlds(i))(key).value)
    {
      ValuesAreResolvable(lib, worlds(i), key);
    }
    Resolution.NoDeadEnds(lib, gets, 0, p, depth, []);
    Resolution.NoDeadEnds(lib, still, 0, p, depth, []);
    Resolution.UnchangingIsPlain(lib, still, Names(lib, worlds(0)), 0, p, depth, []);
  }

  /** The signature over the record's signed bytes is by the public key stored at the
      path's CID, or by the certificate the record names, issued by the certificate stored
      at the path's CID. */
  ghost predicate SignedFor(lib: Lib, w: World, key: IprsPath, record: Record) {
    && DataForSig(lib, record.value, record.validity).Ok?
    && var sigd := DataForSig(lib, record.value, record.validity).value;
    match record.validity.verificationType
    case 0 => exists pk: PubKey :: GetPublicKey(lib, w, key.c) == Ok(pk) && lib.verify(pk, sigd, record.signature)
    case 1 =>
      exists signer: Cid, cert: Certificate, issuer: Certificate ::
        && ToCid(record.validity.verification) == Ok(signer)
        && GetCertificate(lib, w, signer) == Ok(cert) && GetCertificate(lib, w, key.c) == Ok(issuer)
        && lib.issuedBy(cert, issuer) && lib.certVerify(cert, sigd, record.signature)
    case _ => false
  }

  /** An IPRS lookup finds a value exactly when the value store refers at an accepted path
      to a stored record that is signed for the path and has a resolvable value; what it
      finds is that record's value, with its expiry. */
  lemma {:induction false} LookedUpExactly(lib: Lib, w: World, k: string, found: Found)
    ensures IprsGetValue(lib, w, k) == Ok(found) <==>
      && FromString(lib, k).Ok? && StoredRecord(lib, w, k).Ok?
      && var record := StoredRecord(lib, w, k).value;
      && SignedFor(lib, w, FromString(lib, k).value, record)
      && IsResolvable(lib, record.value)
      && found == Found(record.value, GetEol(lib, record))
  {
    hide FromString, StoredRecord, IsResolvable, GetEol, DataForSig;
    if FromString(lib, k).Ok? && StoredRecord(lib, w, k).Ok? {
      VerifiedExactly(lib, w, FromString(lib, k).value, StoredRecord(lib, w, k).value);
    }
  }

  lemma VerifiedExactly(lib: Lib, w: World, key: IprsPath, record: Record)
    ensures Verify(lib, w, key, record).Ok? <==> SignedFor(lib, w, key, record)
  {
  }
}
