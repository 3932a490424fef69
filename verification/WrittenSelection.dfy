/** Selection among records as the validations write them (record/eol.go, record/range.go): the
    bounds compared are the ones that were written. */
module WrittenSelection {
  import opened Wrappers
  import opened Text
  import opened Library
  import opened Records
  import opened Selection
  import opened Signers
  import opened RoundTrip
  import Eol
  import Range

  /** Every record of the list is as its validation wrote it. */
  ghost predicate AllWritten(lib: Lib, recs: seq<Option<Record>>, vls: seq<RecordValidation>) {
    |recs| == |vls| && forall i | 0 <= i < |recs| :: recs[i].Some? && Written(lib, vls[i], recs[i].value)
  }

  function CidOf(lib: Lib, r: Record): Bytes {
    lib.cidBytes(r.node.cid)
  }

  /** Among written end-of-life records the one selected has the latest end of life, and among
      those with it the greatest CID bytes. */
  lemma {:induction false} LatestWrittenEol(
    lib: Lib, recs: seq<Option<Record>>, vls: seq<RecordValidation>, i: nat, j: nat)
    requires TimeLaws(lib) && AllWritten(lib, recs, vls)
    requires forall n | 0 <= n < |vls| :: vls[n].EolValidation?
    requires Eol.Select(lib, recs) == Ok(i) && j < |recs|
    ensures vls[j].eol <= vls[i].eol
    ensures vls[j].eol == vls[i].eol ==>
      || CidOf(lib, recs[j].value) == CidOf(lib, recs[i].value)
      || BytesLess(CidOf(lib, recs[j].value), CidOf(lib, recs[i].value))
  {
    forall n | n in {0 as int, i, j} ensures Eol.Slots(lib, recs)[n] == EolSlot(lib, vls[n], recs[n].value) {
      EolSlotOf(lib, vls[n], recs[n].value);
    }
    hide Eol.SlotOf, Written;
    Eol.BetterOrders();
    ScanSelects(Eol.Slots(lib, recs), Eol.Better);
    assert First(Eol.Slots(lib, recs), 0);
    Eol.UnbeatenExactly(Eol.Slots(lib, recs), i);
  }

  function EolSlot(lib: Lib, vl: RecordValidation, r: Record): Slot<Eol.EolKey>
    requires vl.EolValidation?
  {
    Ranked(Eol.EolKey(vl.eol, CidOf(lib, r)))
  }

  lemma {:induction false} EolSlotOf(lib: Lib, vl: RecordValidation, r: Record)
    requires TimeLaws(lib) && Written(lib, vl, r) && vl.EolValidation?
    ensures Eol.SlotOf(lib, Some(r)) == EolSlot(lib, vl, r)
  {
    ValidationReads(lib, vl, r);
  }

  /** Among written time range records the one selected has the latest end, none being the
      latest; among those without an end the earliest start, none being the earliest; and among
      those without either the greatest CID bytes. */
  lemma {:induction false} LatestWrittenRange(
    lib: Lib, recs: seq<Option<Record>>, vls: seq<RecordValidation>, i: nat, j: nat)
    requires TimeLaws(lib) && AllWritten(lib, recs, vls)
    requires forall n | 0 <= n < |vls| :: vls[n].RangeValidation?
    requires Range.Select(lib, recs) == Ok(i) && j < |recs|
    ensures vls[j].end.None? ==> vls[i].end.None?
    ensures vls[j].end.Some? && vls[i].end.Some? ==> vls[j].end.value <= vls[i].end.value
    ensures vls[j].end.None? ==>
      && (vls[j].start.None? ==> vls[i].start.None?)
      && (vls[j].start.Some? && vls[i].start.Some? ==> vls[i].start.value <= vls[j].start.value)
    ensures vls[j].end.None? && vls[j].start.None? ==>
      || CidOf(lib, recs[j].value) == CidOf(lib, recs[i].value)
      || BytesLess(CidOf(lib, recs[j].value), CidOf(lib, recs[i].value))
  {
    forall n | n in {0 as int, i, j} ensures Range.Slots(lib, recs)[n] == RangeSlot(lib, vls[n], recs[n].value) {
      RangeSlotOf(lib, vls[n], recs[n].value);
    }
    hide Range.SlotOf, Written;
    Range.BetterOrders();
    ScanSelects(Range.Slots(lib, recs), Range.Better);
    assert First(Range.Slots(lib, recs), 0);
    Range.UnbeatenExactly(Range.Slots(lib, recs), i);
  }

  function RangeSlot(lib: Lib, vl: RecordValidation, r: Record): Slot<Range.RangeKey>
    requires vl.RangeValidation?
  {
    Ranked(Range.RangeKey(vl.start, vl.end, CidOf(lib, r)))
  }

  lemma {:induction false} RangeSlotOf(lib: Lib, vl: RecordValidation, r: Record)
    requires TimeLaws(lib) && Written(lib, vl, r) && vl.RangeValidation?
    ensures Range.SlotOf(lib, Some(r)) == RangeSlot(lib, vl, r)
  {
    ValidationReads(lib, vl, r);
    hide RangeParseValidation;
  }
}
