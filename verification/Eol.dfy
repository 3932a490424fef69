/** Selecting among end-of-life records (record/eol.go). */
module Eol {
  import opened Wrappers
  import opened Text
  import opened Library
  import opened Records
  import opened Selection

  datatype EolKey = EolKey(eol: int, cid: Bytes)

  function SlotOf(lib: Lib, r: Option<Record>): Slot<EolKey> {
    match r
    case None => Absent
    case Some(record) =>
      match EolParseValidation(lib, record)
      case Err(_) => Unparsable
      case Ok(t) => Ranked(EolKey(t, lib.cidBytes(record.node.cid)))
  }

  function Slots(lib: Lib, recs: seq<Option<Record>>): seq<Slot<EolKey>> {
    Mapped(r => SlotOf(lib, r), recs)
  }

  /** Later end of life, then greater CID bytes. */
  predicate Better(a: EolKey, b: EolKey) {
    a.eol > b.eol || (a.eol == b.eol && BytesLess(b.cid, a.cid))
  }

  lemma {:induction false} BetterTotal(a: EolKey, b: EolKey)
    ensures !(Better(a, b) && Better(b, a))
    ensures a != b <==> Better(a, b) || Better(b, a)
  {
    BytesTotal(a.cid, b.cid);
  }

  lemma {:induction false} BetterOrders()
    ensures StrictWeakOrder(Better)
  {
    forall a: EolKey ensures !Better(a, a) { BetterTotal(a, a); }
    forall a: EolKey, b: EolKey, c: EolKey | Better(a, b) && Better(b, c) ensures Better(a, c) {
      BetterTransitive(a, b, c);
    }
    forall a: EolKey, b: EolKey, c: EolKey | Better(a, c) ensures Better(a, b) || Better(b, c) {
      BetterTotal(a, b);
      if Better(b, a) { BetterTransitive(b, a, c); }
    }
  }

  lemma {:induction false} BetterTransitive(a: EolKey, b: EolKey, c: EolKey)
    requires Better(a, b) && Better(b, c)
    ensures Better(a, c)
  {
    if a.eol == b.eol == c.eol { BytesTransitive(c.cid, b.cid, a.cid); }
  }

  /** A parseable record is unbeaten exactly when none has a later end of life, and none with
      the same one has greater CID bytes. */
  lemma {:induction false} UnbeatenExactly(slots: seq<Slot<EolKey>>, i: nat)
    requires i < |slots| && slots[i].Ranked?
    ensures var best := slots[i].key;
      Unbeaten(slots, Better, i) <==>
        forall j | 0 <= j < |slots| && slots[j].Ranked? :: var other := slots[j].key;
          && other.eol <= best.eol
          && (other.eol == best.eol ==> other.cid == best.cid || BytesLess(other.cid, best.cid))
  {
    forall j | 0 <= j < |slots| && slots[j].Ranked? {
      BytesTotal(slots[j].key.cid, slots[i].key.cid);
    }
  }

  function Select(lib: Lib, recs: seq<Option<Record>>): Result<nat, Error> {
    match Scan(Slots(lib, recs), Better)
    case None => Err(NoUsableRecords)
    case Some(i) => Ok(i)
  }

  /** The scan selects the maximum of (end of life, CID bytes) among the records that
      parse, or the first record when that one does not parse, and fails exactly when
      there is no record. */
  method SelectRecord(lib: Lib, recs: seq<Option<Record>>) returns (r: Result<nat, Error>)
    ensures r == Select(lib, recs)
    ensures r.Err? <==> forall i | 0 <= i < |recs| :: recs[i].None?
    ensures r.Ok? ==> r.value < |recs| && Selected(Slots(lib, recs), Better, r.value)
  {
    var best := -1;
    ghost var slots := Slots(lib, recs);
    hide Scan;
    for i := 0 to |recs|
      invariant -1 <= best < i && (best >= 0 ==> recs[best].Some?)
      invariant Scan(slots[..i], Better) == if best == -1 then None else Some(best)
    {
      ScanStep(slots, Better, i);
      if recs[i].None? {
        continue;
      }
      if best == -1 {
        best := i;
        continue;
      }
      var rt := EolParseValidation(lib, recs[i].value);
      if rt.Err? {
        continue;
      }
      var bestt := EolParseValidation(lib, recs[best].value);
      if bestt.Err? {
        continue;
      }
      if rt.value > bestt.value {
        best := i;
        continue;
      }
      if rt.value == bestt.value {
        var vi := lib.cidBytes(recs[i].value.node.cid);
        var vb := lib.cidBytes(recs[best].value.node.cid);
        if BytesLess(vb, vi) {
          best := i;
        }
      }
    }
    assert slots[..|recs|] == slots;
    assert forall i | 0 <= i < |recs| :: slots[i].Absent? <==> recs[i].None?;
    BetterOrders();
    ScanSelects(slots, Better);
    if best == -1 {
      return Err(NoUsableRecords);
    }
    return Ok(best);
  }

  /** When every record parses, the selection does not depend on the order of the
      list: two arrangements select records with the same end of life and CID. */
  lemma {:induction false} OrderIndependent(
    lib: Lib, recs: seq<Option<Record>>, other: seq<Option<Record>>, i: nat, j: nat)
    requires CidLaws(lib)
    requires multiset(recs) == multiset(other)
    requires forall k | 0 <= k < |recs| && recs[k].Some? ::
      EolParseValidation(lib, recs[k].value).Ok? && lib.wellFormed(recs[k].value.node.cid)
    requires Select(lib, recs) == Ok(i) && Select(lib, other) == Ok(j)
    ensures recs[i].Some? && other[j].Some? && recs[i].value.node.cid == other[j].value.node.cid
    ensures EolParseValidation(lib, recs[i].value) == EolParseValidation(lib, other[j].value)
  {
    BetterOrders();
    ScanSelects(Slots(lib, recs), Better);
    ScanSelects(Slots(lib, other), Better);
    assert other[j] in multiset(other);
    assert other[j] in recs;
    MappedArranges((r: Option<Record>) => SlotOf(lib, r), recs, other);
    ArrangementsAgree(Slots(lib, recs), Slots(lib, other), Better, i, j);
    BetterTotal(Slots(lib, recs)[i].key, Slots(lib, other)[j].key);
    assert lib.cidCast(lib.cidBytes(recs[i].value.node.cid)) == Some(recs[i].value.node.cid);
  }
}
