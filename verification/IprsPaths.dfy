/** IPRS paths: /iprs/<cid>/<id>/some/path (path/path.go). */
module IprsPaths {
  import opened Wrappers
  import opened Text
  import opened Library

  datatype IprsPath = IprsPath(s: string, c: Cid)

  function FromString(lib: Lib, txt: string): Result<IprsPath, Error> {
    var parts := Split(txt, '/');
    if |parts| < 4 then Err(BadPath)
    else if parts[0] != "" || parts[1] != "iprs" then Err(BadPath)
    else if exists i | 0 < i < |parts| :: parts[i] == "" then Err(BadPath)
    else match lib.cidDecode(parts[2])
      case None => Err(BadPath)
      case Some(c) => Ok(IprsPath(txt, c))
  }

  predicate IsValid(lib: Lib, txt: string) {
    FromString(lib, txt).Ok?
  }

  /** The paths FromString builds; the fields are private, so there are no others
      but the zero value. */
  ghost predicate Built(lib: Lib, p: IprsPath) {
    FromString(lib, p.s) == Ok(p)
  }

  function Segments(p: IprsPath): seq<string> {
    var segments := Split(CleanRooted(p.s), '/');
    if |segments[0]| == 0 then segments[1..] else segments
  }

  // The Go code indexes Segments() without a length check. None is the run-time
  // panic of an index out of range.

  function Id(p: IprsPath): Option<string> {
    var segs := Segments(p);
    if |segs| < 3 then None else Some(segs[2])
  }

  function BasePath(p: IprsPath): Option<string> {
    var segs := Segments(p);
    if |segs| < 3 then None else Some("/iprs/" + segs[1] + "/" + segs[2])
  }

  function RelativePath(p: IprsPath): Option<seq<string>> {
    var segs := Segments(p);
    if |segs| < 3 then None else Some(segs[3..])
  }

  /** How many segments cleaning leaves, counted without building them. */
  function NetDepth(depth: nat, segments: seq<string>): nat
    decreases |segments|
  {
    if segments == [] then depth
    else if Plain(segments[0]) then NetDepth(depth + 1, segments[1..])
    else if segments[0] == ".." && depth > 0 then NetDepth(depth - 1, segments[1..])
    else NetDepth(depth, segments[1..])
  }

  lemma {:induction false} NetDepthCounts(kept: seq<string>, segments: seq<string>)
    ensures |CleanOnto(kept, segments)| == NetDepth(|kept|, segments)
    decreases |segments|
  {
    if segments != [] {
      if Plain(segments[0]) {
        NetDepthCounts(kept + [segments[0]], segments[1..]);
      } else if segments[0] == ".." && kept != [] {
        NetDepthCounts(kept[..|kept| - 1], segments[1..]);
      } else {
        NetDepthCounts(kept, segments[1..]);
      }
    }
  }

  /** Segments() is the list of segments cleaning keeps, or one empty segment
      when nothing is left. */
  lemma {:induction false} SegmentsAreCleaned(p: IprsPath)
    ensures var kept := CleanOnto([], Split(p.s, '/'));
      && Segments(p) == (if kept == [] then [""] else kept)
      && AllPlain(kept) && Free(kept, '/')
  {
    var kept := CleanOnto([], Split(p.s, '/'));
    SplitFree(p.s, '/');
    CleanOntoPlain([], Split(p.s, '/'));
    if kept == [] {
      assert CleanRooted(p.s) == "/";
      assert Split("/", '/') == ["", ""] by { SplitConcat("", "", '/'); assert "" + ['/'] + "" == "/"; }
    } else {
      SplitJoin(kept, '/');
      SplitConcat("", Join(kept, '/'), '/');
      assert "" + ['/'] + Join(kept, '/') == CleanRooted(p.s);
      assert Split(CleanRooted(p.s), '/') == [""] + kept;
    }
  }

  /** The projections panic exactly on the paths whose segments net out to fewer
      than three, "." counting nothing and ".." taking one back. */
  lemma {:induction false} ProjectionsDefined(p: IprsPath)
    ensures BasePath(p).Some? <==> NetDepth(0, Split(p.s, '/')) >= 3
    ensures Id(p).Some? <==> NetDepth(0, Split(p.s, '/')) >= 3
    ensures RelativePath(p).Some? <==> NetDepth(0, Split(p.s, '/')) >= 3
  {
    SegmentsAreCleaned(p);
    NetDepthCounts([], Split(p.s, '/'));
  }

  /** An accepted path whose projections panic: /iprs/<cid>/.. */
  lemma {:induction false} AcceptedPathPanics(lib: Lib, c: Cid)
    requires CidLaws(lib) && lib.wellFormed(c)
    ensures var p := IprsPath("/iprs/" + lib.cidString(c) + "/..", c);
      Built(lib, p) && BasePath(p) == None
  {
    var parts := ["", "iprs", lib.cidString(c), ".."];
    var p := IprsPath("/iprs/" + lib.cidString(c) + "/..", c);
    TextOfFour(lib.cidString(c), "..");
    assert "/iprs/" + lib.cidString(c) + "/" + ".." == p.s;
    SplitJoin(parts, '/');
    assert Split(p.s, '/') == parts;
    ProjectionsDefined(p);
    assert NetDepth(0, parts) == NetDepth(0, parts[1..]);
    assert parts[1..] == ["iprs", lib.cidString(c), ".."];
    assert NetDepth(0, parts[1..]) == NetDepth(1, parts[1..][1..]);
    assert parts[1..][1..] == [lib.cidString(c), ".."];
    assert NetDepth(1, parts[1..][1..]) == NetDepth(2, [".."]);
    assert NetDepth(2, [".."]) == 1;
  }

  lemma {:induction false} TextOfFour(key: string, id: string)
    ensures Join(["", "iprs", key, id], '/') == "/iprs/" + key + "/" + id
  {
    JoinCons("", ["iprs", key, id], '/');
    JoinCons("iprs", [key, id], '/');
    JoinCons(key, [id], '/');
    assert Join([id], '/') == id;
    assert ["", "iprs", key, id] == [""] + ["iprs", key, id];
    assert ["iprs", key, id] == ["iprs"] + [key, id];
    assert [key, id] == [key] + [id];
    assert "" + ['/'] + ("iprs" + ['/'] + (key + ['/'] + id)) == "/iprs/" + key + "/" + id;
  }

  /** The path of a CID text and an id, neither empty nor with a "/". */
  lemma {:induction false} PathOfTwo(lib: Lib, key: string, id: string)
    requires key != "" && id != "" && '/' !in key && '/' !in id
    ensures var txt := "/iprs/" + key + "/" + id;
      && Split(txt, '/') == ["", "iprs", key, id]
      && FromString(lib, txt) ==
           match lib.cidDecode(key) case Some(c) => Ok(IprsPath(txt, c)) case None => Err(BadPath)
  {
    TextOfFour(key, id);
    SplitJoin(["", "iprs", key, id], '/');
  }

  /** A text of slash-free parts is accepted exactly when it starts with an empty part and
      "iprs", has two more, none empty, and the first of them is a CID. */
  lemma {:induction false} AcceptedExactly(lib: Lib, parts: seq<string>)
    requires parts != [] && Free(parts, '/')
    ensures FromString(lib, Join(parts, '/')).Ok? <==>
      |parts| >= 4 && parts[..2] == ["", "iprs"] && "" !in parts[1..] && lib.cidDecode(parts[2]).Some?
  {
    SplitJoin(parts, '/');
    assert |parts| >= 2 ==> parts[..2] == [parts[0], parts[1]];
    if exists i | 0 < i < |parts| :: parts[i] == "" {
      var i :| 0 < i < |parts| && parts[i] == "";
      assert parts[1..][i - 1] == "";
    }
  }

  /** No text that ends in a slash is accepted. */
  lemma {:induction false} TrailingSlashRejected(lib: Lib, txt: string)
    ensures FromString(lib, txt + "/") == Err(BadPath)
  {
    SplitConcat(txt, "", '/');
    assert txt + ['/'] + "" == txt + "/";
    var parts := Split(txt + "/", '/');
    assert parts[|parts| - 1] == "" && |parts| >= 2;
  }

  /** The parts of an accepted path that has no "." and no ".." segment. */
  lemma {:induction false} PlainParts(lib: Lib, p: IprsPath)
    requires Built(lib, p) && AllPlain(Split(p.s, '/')[1..])
    ensures Segments(p) == Split(p.s, '/')[1..]
    ensures CleanRooted(p.s) == p.s
  {
    var parts := Split(p.s, '/');
    SegmentsAreCleaned(p);
    assert CleanOnto([], parts) == CleanOnto([], parts[1..]);
    CleanOntoSuffix([], [], parts[1..]);
    assert [] + parts[1..] == parts[1..];
    JoinSplit(p.s, '/');
    JoinCons("", parts[1..], '/');
    assert [""] + parts[1..] == parts;
  }

  /** Round trip: for an accepted path with no "." or ".." segment, cleaning is
      the identity and the base path rejoined with the relative path is the text. */
  lemma {:induction false} RoundTrip(lib: Lib, p: IprsPath)
    requires Built(lib, p) && AllPlain(Split(p.s, '/')[1..])
    ensures CleanRooted(p.s) == p.s
    ensures BasePath(p).Some? && RelativePath(p).Some? && Id(p) == Some(Split(p.s, '/')[3])
    ensures Join([BasePath(p).value] + RelativePath(p).value, '/') == p.s
  {
    var parts := Split(p.s, '/');
    PlainParts(lib, p);
    JoinSplit(p.s, '/');
    TextOfFour(parts[2], parts[3]);
    JoinAppend(parts[..4], parts[4..]);
    assert parts[..4] == ["", "iprs", parts[2], parts[3]];
    assert parts[..4] + parts[4..] == parts;
    assert RelativePath(p).value == parts[4..];
  }

  lemma {:induction false} JoinAppend(front: seq<string>, back: seq<string>)
    requires front != []
    ensures Join(front + back, '/') == Join([Join(front, '/')] + back, '/')
  {
    if |front| == 1 {
      assert [Join(front, '/')] == front;
    } else {
      JoinAppend(front[1..], back);
      assert front + back == [front[0]] + (front[1..] + back);
      JoinCons(front[0], front[1..] + back, '/');
      JoinPrepend(front[0] + ['/'], [Join(front[1..], '/')] + back, '/');
      assert ([Join(front[1..], '/')] + back)[1..] == back;
    }
  }

  /** The base path of any accepted path, when it is a path at all, is its own
      base path; its CID segment and its id are those of the cleaned path. */
  lemma {:induction false} BasePathReparses(lib: Lib, p: IprsPath)
    requires Built(lib, p) && BasePath(p).Some?
    ensures var segs := Segments(p); var base := BasePath(p).value;
      && (FromString(lib, base).Ok? <==> lib.cidDecode(segs[1]).Some?)
      && (FromString(lib, base).Ok? ==>
            var q := FromString(lib, base).value;
            && lib.cidDecode(segs[1]) == Some(q.c)
            && BasePath(q) == Some(base) && Id(q) == Id(p) && RelativePath(q) == Some([]))
  {
    var segs := Segments(p);
    var base := BasePath(p).value;
    SegmentsAreCleaned(p);
    var parts := ["", "iprs", segs[1], segs[2]];
    PathOfTwo(lib, segs[1], segs[2]);
    if FromString(lib, base).Ok? {
      var q := FromString(lib, base).value;
      assert parts[1..] == ["iprs", segs[1], segs[2]];
      PlainParts(lib, q);
      assert Segments(q)[3..] == [];
    }
  }

  /** With no "." or ".." segment the base path keeps the CID and the id. */
  lemma {:induction false} BasePathKeepsCidAndId(lib: Lib, p: IprsPath)
    requires Built(lib, p) && AllPlain(Split(p.s, '/')[1..])
    ensures BasePath(p).Some?
    ensures FromString(lib, BasePath(p).value) == Ok(IprsPath(BasePath(p).value, p.c))
    ensures Id(IprsPath(BasePath(p).value, p.c)) == Id(p)
    ensures BasePath(IprsPath(BasePath(p).value, p.c)) == BasePath(p)
  {
    PlainParts(lib, p);
    assert Segments(p)[1] == Split(p.s, '/')[2];
    BasePathReparses(lib, p);
  }

  /** A record is stored under the text of its path and looked up under the base
      path. The two are the same text exactly for a path of four parts whose CID
      and id are not "." or "..". */
  lemma {:induction false} StoredWhereLookedUp(lib: Lib, p: IprsPath)
    requires Built(lib, p)
    ensures BasePath(p) == Some(p.s) <==> |Split(p.s, '/')| == 4 && AllPlain(Split(p.s, '/')[2..])
  {
    var parts := Split(p.s, '/');
    SplitFree(p.s, '/');
    if BasePath(p) == Some(p.s) {
      SegmentsAreCleaned(p);
      var segs := Segments(p);
      TextOfFour(segs[1], segs[2]);
      SplitJoin(["", "iprs", segs[1], segs[2]], '/');
      assert parts == ["", "iprs", segs[1], segs[2]];
    }
    if |parts| == 4 && AllPlain(parts[2..]) {
      assert parts[1..] == ["iprs"] + parts[2..];
      PlainParts(lib, p);
      TextOfFour(parts[2], parts[3]);
      JoinSplit(p.s, '/');
      assert parts == ["", "iprs", parts[2], parts[3]];
    }
  }

  /** A path on which the two differ: with one more segment, a record stored at the path is
      looked up without it. */
  lemma {:induction false} LongerPathIsLookedUpElsewhere(lib: Lib, c: Cid, id: string, more: string)
    requires CidLaws(lib) && lib.wellFormed(c)
    requires Plain(id) && '/' !in id && Plain(more) && '/' !in more
    ensures var base := "/iprs/" + lib.cidString(c) + "/" + id;
      var p := IprsPath(base + "/" + more, c);
      Built(lib, p) && BasePath(p) == Some(base) && base != p.s
  {
    var text := lib.cidString(c);
    var base := "/iprs/" + text + "/" + id;
    var p := IprsPath(base + "/" + more, c);
    PathOfTwo(lib, text, id);
    SplitConcat(base, more, '/');
    SplitOne(more, '/');
    assert base + ['/'] + more == p.s;
    var parts := ["", "iprs", text, id, more];
    assert Split(p.s, '/') == parts;
    assert lib.cidDecode(parts[2]) == Some(c);
    assert parts[1..] == ["iprs", text, id, more];
    PlainParts(lib, p);
  }
}
