/** Record targets that are a CID, in one of four formats (path/target.go). */
module Targets {
  import opened Wrappers
  import opened Text
  import opened Library

  datatype Target = Target(cid: Cid, rest: seq<string>)

  const DAG_PROTOBUF: nat := 0x70

  function NewCidV0(mh: Bytes): Cid {
    Cid(0, DAG_PROTOBUF, mh)
  }

  function ParseTargetToCid(lib: Lib, val: Bytes): Option<Target> {
    match lib.cidCast(val)
    case Some(c) => Some(Target(c, []))
    case None =>
      var parts := Split(val, '/');
      if |parts| > 2 && parts[0] == "" && parts[1] == "ipfs" && lib.cidDecode(parts[2]).Some? then
        Some(Target(lib.cidDecode(parts[2]).value, parts[3..]))
      else match lib.cidParse(parts[0])
        case Some(c) => Some(Target(c, parts[1..]))
        case None =>
          match lib.mhCast(val)
          case Some(mh) => Some(Target(NewCidV0(mh), []))
          case None => None
  }

  /** A CID target in each of the formats gives back its CID and its subpath. The raw bytes
      of a CID come first: text that happens to be the bytes of a CID is read as those. */
  lemma {:induction false} TargetFormats(lib: Lib, c: Cid, rest: seq<string>, val: Bytes)
    requires CidLaws(lib) && lib.wellFormed(c) && Free(rest, '/')
    ensures ParseTargetToCid(lib, lib.cidBytes(c)) == Some(Target(c, []))
    ensures var ipfs := Join(["", "ipfs", lib.cidString(c)] + rest, '/');
      lib.cidCast(ipfs) == None ==> ParseTargetToCid(lib, ipfs) == Some(Target(c, rest))
    ensures var text := Join([lib.cidString(c)] + rest, '/');
      lib.cidCast(text) == None ==> ParseTargetToCid(lib, text) == Some(Target(c, rest))
    ensures lib.cidCast(val).Some? ==> ParseTargetToCid(lib, val) == Some(Target(lib.cidCast(val).value, []))
  {
    var first, second := ["", "ipfs", lib.cidString(c)] + rest, [lib.cidString(c)] + rest;
    SplitJoin(first, '/');
    SplitJoin(second, '/');
    assert first[3..] == rest && second[1..] == rest;
  }

  /** An old-style value: bytes that are no CID, no readable "/ipfs" path and no CID text in
      front of a slash are a target exactly when they are a multihash, and then it is the
      version 0 CID with codec 0x70 and that multihash, without a subpath. */
  lemma {:induction false} MultihashTarget(lib: Lib, val: Bytes)
    requires lib.cidCast(val).None? && lib.cidParse(Split(val, '/')[0]).None?
    requires "/ipfs/" <= val ==> lib.cidDecode(Split(val[6..], '/')[0]).None?
    ensures ParseTargetToCid(lib, val).Some? <==> lib.mhCast(val).Some?
    ensures lib.mhCast(val).Some? ==>
      ParseTargetToCid(lib, val) == Some(Target(Cid(0, 0x70, lib.mhCast(val).value), []))
  {
    var parts := Split(val, '/');
    if |parts| > 2 && parts[0] == "" && parts[1] == "ipfs" {
      IpfsParts(val);
    }
  }

  /** The parts of a text behind "/ipfs/". */
  lemma {:induction false} IpfsParts(val: Bytes)
    requires var parts := Split(val, '/'); |parts| > 2 && parts[0] == "" && parts[1] == "ipfs"
    ensures "/ipfs/" <= val && Split(val, '/')[2..] == Split(val[6..], '/')
  {
    var parts := Split(val, '/');
    var rest := parts[2..];
    JoinSplit(val, '/');
    JoinCons("", ["ipfs"] + rest, '/');
    JoinCons("ipfs", rest, '/');
    assert parts == [""] + (["ipfs"] + rest);
    assert val == "" + ['/'] + ("ipfs" + ['/'] + Join(rest, '/'));
    assert val == "/ipfs/" + Join(rest, '/');
    SplitFree(val, '/');
    SplitJoin(rest, '/');
  }

  /** The one form in which every target can be written. */
  function Canonical(lib: Lib, target: Target): string {
    Join(["", "ipfs", lib.cidString(target.cid)] + target.rest, '/')
  }

  /** Rewriting a target to its canonical form keeps its meaning: whatever format a value is
      in, its canonical form gives the same CID and subpath, and is its own canonical form. */
  lemma {:induction false} CanonicalKeepsMeaning(lib: Lib, val: Bytes)
    requires CidLaws(lib) && ParseTargetToCid(lib, val).Some?
    requires lib.wellFormed(ParseTargetToCid(lib, val).value.cid)
    requires lib.cidCast(Canonical(lib, ParseTargetToCid(lib, val).value)).None?
    ensures var target := ParseTargetToCid(lib, val).value;
      ParseTargetToCid(lib, Canonical(lib, target)) == Some(target)
  {
    var target := ParseTargetToCid(lib, val).value;
    SplitFree(val, '/');
    assert Free(target.rest, '/');
    TargetFormats(lib, target.cid, target.rest, val);
  }
}
