/** The master record checker: selection among records of mixed validation types
    (record/validation.go). */
module Validation {
  import opened Wrappers
  import opened Library
  import opened Records
  import opened Selection
  import Eol
  import Range

  /** The checkers the master checker knows. */
  predicate Recognized(validationType: nat) {
    validationType == VALIDATION_EOL || validationType == VALIDATION_TIME_RANGE
  }

  datatype Choice = Chosen(index: nat) | NoUsable | Panicked

  function TypeOf(record: Record): nat {
    record.validity.validationType
  }

  /** The records of one validation type, in list order. */
  function OfType(recs: seq<Option<Record>>, validationType: nat): seq<Option<Record>> {
    if recs == [] then []
    else
      var last := recs[|recs| - 1];
      OfType(recs[..|recs| - 1], validationType)
      + (if last.Some? && TypeOf(last.value) == validationType then [last] else [])
  }

  predicate NoNil(recs: seq<Option<Record>>) {
    forall i | 0 <= i < |recs| :: recs[i].Some?
  }

  ghost predicate SelectedOfType(lib: Lib, recs: seq<Option<Record>>, validationType: nat, i: int) {
    if validationType == VALIDATION_EOL then Selected(Eol.Slots(lib, recs), Eol.Better, i)
    else Selected(Range.Slots(lib, recs), Range.Better, i)
  }

  function SelectOfType(lib: Lib, recs: seq<Option<Record>>, validationType: nat): Result<nat, Error> {
    if validationType == VALIDATION_EOL then Eol.Select(lib, recs) else Range.Select(lib, recs)
  }

  function Select(lib: Lib, recs: seq<Option<Record>>): Choice {
    if !NoNil(recs) then Panicked
    else if recs == [] || !Recognized(TypeOf(recs[0].value)) then NoUsable
    else match SelectOfType(lib, OfType(recs, TypeOf(recs[0].value)), TypeOf(recs[0].value))
      case Ok(i) => Chosen(i)
      case Err(_) => NoUsable
  }

  /** The master selector panics exactly on a list with a nil record, gives up exactly
      on an empty list or one whose first record has an unrecognized type, and otherwise
      runs that type's selection on the records of the type. The index it returns is an
      index into those records. */
  method SelectRecord(lib: Lib, recs: seq<Option<Record>>) returns (r: Choice)
    ensures r == Select(lib, recs)
    ensures r == Panicked <==> !NoNil(recs)
    ensures r == NoUsable <==> NoNil(recs) && (recs == [] || !Recognized(TypeOf(recs[0].value)))
    ensures r.Chosen? ==>
      && r.index < |OfType(recs, TypeOf(recs[0].value))|
      && SelectedOfType(lib, OfType(recs, TypeOf(recs[0].value)), TypeOf(recs[0].value), r.index)
  {
    var firstRec: Option<Record> := None;
    var usable: seq<Option<Record>> := [];
    for i := 0 to |recs|
      invariant forall j | 0 <= j < i :: recs[j].Some?
      invariant i == 0 ==> firstRec.None?
      invariant firstRec.None? ==> usable == [] && forall j | 0 <= j < i :: !Recognized(TypeOf(recs[j].value))
      invariant firstRec.Some? ==> Recognized(TypeOf(firstRec.value))
      invariant firstRec.Some? ==> usable == OfType(recs[..i], TypeOf(firstRec.value))
      invariant i > 0 && Recognized(TypeOf(recs[0].value)) ==>
        firstRec.Some? && TypeOf(firstRec.value) == TypeOf(recs[0].value)
    {
      if recs[i].None? {
        return Panicked;
      }
      assert recs[..i + 1][..i] == recs[..i];
      var rec := recs[i].value;
      if !Recognized(TypeOf(rec)) {
        continue;
      }
      if firstRec.None? {
        OfTypeNone(recs[..i], TypeOf(rec));
        firstRec := Some(rec);
        usable := usable + [recs[i]];
      } else if TypeOf(rec) == TypeOf(firstRec.value) {
        usable := usable + [recs[i]];
      }
    }
    assert recs[..|recs|] == recs;
    if |recs| == 0 {
      return NoUsable;
    }
    if !Recognized(TypeOf(recs[0].value)) {
      return NoUsable;
    }
    assert usable == OfType(recs, TypeOf(recs[0].value));
    OfTypeHas(recs, 0);
    OfTypeOnly(recs, TypeOf(recs[0].value));
    var chosen: Result<nat, Error>;
    if TypeOf(recs[0].value) == VALIDATION_EOL {
      chosen := Eol.SelectRecord(lib, usable);
    } else {
      chosen := Range.SelectRecord(lib, usable);
    }
    return Chosen(chosen.value);
  }

  lemma {:induction false} OfTypeNone(recs: seq<Option<Record>>, validationType: nat)
    requires forall i | 0 <= i < |recs| :: recs[i].Some? ==> TypeOf(recs[i].value) != validationType
    ensures OfType(recs, validationType) == []
  {
    if recs != [] {
      OfTypeNone(recs[..|recs| - 1], validationType);
    }
  }

  lemma {:induction false} OfTypeHas(recs: seq<Option<Record>>, i: nat)
    requires i < |recs| && recs[i].Some?
    ensures recs[i] in OfType(recs, TypeOf(recs[i].value))
  {
    if i < |recs| - 1 {
      OfTypeHas(recs[..|recs| - 1], i);
    }
  }

  /** The filter keeps only records of the type and only records of the list. */
  lemma {:induction false} OfTypeOnly(recs: seq<Option<Record>>, validationType: nat)
    ensures forall r | r in OfType(recs, validationType) :: r in recs && r.Some? && TypeOf(r.value) == validationType
  {
    if recs != [] {
      OfTypeOnly(recs[..|recs| - 1], validationType);
    }
  }

  lemma {:induction false} OfTypeConcat(a: seq<Option<Record>>, b: seq<Option<Record>>, validationType: nat)
    ensures OfType(a + b, validationType) == OfType(a, validationType) + OfType(b, validationType)
  {
    if b == [] {
      assert a + b == a;
    } else {
      var front := b[..|b| - 1];
      OfTypeConcat(a, front, validationType);
      assert (a + b)[..|a + b| - 1] == a + front;
      assert (a + b)[|a + b| - 1] == b[|b| - 1];
      var last := if b[|b| - 1].Some? && TypeOf(b[|b| - 1].value) == validationType then [b[|b| - 1]] else [];
      assert OfType(a, validationType) + OfType(front, validationType) + last
          == OfType(a, validationType) + (OfType(front, validationType) + last);
    }
  }

  /** The position in the list of the k-th record of a type. */
  ghost predicate StandsAt(recs: seq<Option<Record>>, validationType: nat, k: nat, position: nat) {
    && position < |recs| && recs[position].Some? && TypeOf(recs[position].value) == validationType
    && |OfType(recs[..position], validationType)| == k
  }

  lemma {:induction false} OfTypeCount(recs: seq<Option<Record>>, validationType: nat)
    requires NoNil(recs)
    ensures |OfType(recs, validationType)| <= |recs|
    ensures |OfType(recs, validationType)| == |recs| <==>
      forall i | 0 <= i < |recs| :: TypeOf(recs[i].value) == validationType
  {
    if recs != [] {
      var front := recs[..|recs| - 1];
      OfTypeCount(front, validationType);
      assert recs == front + [recs[|recs| - 1]];
    }
  }

  lemma {:induction false} StandsSomewhere(recs: seq<Option<Record>>, validationType: nat, k: nat)
    returns (position: nat)
    requires k < |OfType(recs, validationType)|
    ensures StandsAt(recs, validationType, k, position)
  {
    var front := recs[..|recs| - 1];
    if k < |OfType(front, validationType)| {
      position := StandsSomewhere(front, validationType, k);
      assert front[..position] == recs[..position];
    } else {
      position := |recs| - 1;
    }
  }

  /** The index the master selector returns points at the selected record of the given
      list if and only if that record and all before it have the selected type. */
  lemma {:induction false} IndexFitsExactly(recs: seq<Option<Record>>, validationType: nat, k: nat, position: nat)
    requires NoNil(recs) && StandsAt(recs, validationType, k, position)
    ensures k < |OfType(recs, validationType)|
    ensures OfType(recs, validationType)[..k + 1] == OfType(recs[..position], validationType) + [recs[position]]
    ensures position == k <==> forall i | 0 <= i <= position :: TypeOf(recs[i].value) == validationType
  {
    OfTypeCount(recs[..position], validationType);
    var upto := recs[..position + 1];
    assert upto[..position] == recs[..position];
    OfTypeConcat(upto, recs[position + 1..], validationType);
    assert upto + recs[position + 1..] == recs;
    assert OfType(upto, validationType) == OfType(recs[..position], validationType) + [recs[position]];
  }

  /** No record of the first one's type stands after a record of another type. */
  predicate Grouped(types: seq<nat>) {
    forall i, j | 0 <= i < j < |types| && types[i] != types[0] :: types[j] != types[0]
  }

  function TypesOf(recs: seq<Option<Record>>): seq<nat>
    requires NoNil(recs)
  {
    seq(|recs|, i requires 0 <= i < |recs| => TypeOf(recs[i].value))
  }

  /** The returned index, taken as an index into the given list, points at the record that
      was selected: the one that stands at that place among the records of the type. */
  ghost predicate PointsAtSelected(lib: Lib, recs: seq<Option<Record>>)
    requires NoNil(recs)
  {
    Select(lib, recs).Chosen? ==>
      StandsAt(recs, TypeOf(recs[0].value), Select(lib, recs).index, Select(lib, recs).index)
  }

  ghost predicate AlwaysPointsAtSelected(lib: Lib, types: seq<nat>) {
    forall recs: seq<Option<Record>> | NoNil(recs) && TypesOf(recs) == types :: PointsAtSelected(lib, recs)
  }

  /** The index the master selector returns is right for every list of records of given
      types, the first of them recognized, if and only if no record of the first type stands
      after a record of another type. */
  lemma {:induction false} IndexPointsExactly(lib: Lib, types: seq<nat>, early: int, late: int)
    requires TimeLaws(lib) && lib.representable(early) && lib.representable(late) && early < late
    requires types != [] && Recognized(types[0])
    ensures AlwaysPointsAtSelected(lib, types) <==> Grouped(types)
  {
    if Grouped(types) {
      forall recs: seq<Option<Record>> | NoNil(recs) && TypesOf(recs) == types
        ensures PointsAtSelected(lib, recs)
      {
        GroupedPoints(lib, recs);
      }
    } else {
      var i, j :| 0 <= i < j < |types| && types[i] != types[0] && types[j] == types[0];
      var recs := seq(|types|, m requires 0 <= m < |types| =>
        Some(Lasting(lib, types[m], if m == j then late else early)));
      assert TypesOf(recs) == types;
      LastingIsSelected(lib, recs, types[0], j, early, late);
      assert !PointsAtSelected(lib, recs);
    }
  }

  /** On a list of one type the selection is that type's, for end-of-life records (type 0) and
      time range records (type 1), and there is none for any other type. */
  lemma {:induction false} UniformSelection(lib: Lib, recs: seq<Option<Record>>, validationType: nat)
    requires recs != [] && NoNil(recs)
    requires forall i | 0 <= i < |recs| :: TypeOf(recs[i].value) == validationType
    ensures Select(lib, recs) ==
      match validationType
      case 0 => (match Eol.Select(lib, recs) case Ok(i) => Chosen(i) case Err(_) => NoUsable)
      case 1 => (match Range.Select(lib, recs) case Ok(i) => Chosen(i) case Err(_) => NoUsable)
      case _ => NoUsable
    ensures validationType <= 1 ==> Select(lib, recs).Chosen?
  {
    UniformListIsUsable(recs, validationType);
    Eol.BetterOrders();
    ScanSelects(Eol.Slots(lib, recs), Eol.Better);
    Range.BetterOrders();
    ScanSelects(Range.Slots(lib, recs), Range.Better);
    assert !Eol.Slots(lib, recs)[0].Absent? && !Range.Slots(lib, recs)[0].Absent?;
  }

  /** The index is one of the filtered list. */
  lemma {:induction false} ChosenFits(lib: Lib, recs: seq<Option<Record>>)
    ensures Select(lib, recs).Chosen? ==> Select(lib, recs).index < |OfType(recs, TypeOf(recs[0].value))|
  {
  }

  lemma {:induction false} GroupedPoints(lib: Lib, recs: seq<Option<Record>>)
    requires NoNil(recs) && Grouped(TypesOf(recs))
    ensures PointsAtSelected(lib, recs)
  {
    ChosenFits(lib, recs);
    if Select(lib, recs).Chosen? {
      var t, k := TypeOf(recs[0].value), Select(lib, recs).index;
      var position := StandsSomewhere(recs, t, k);
      var types := TypesOf(recs);
      assert types[position] == types[0];
      assert forall i | 0 <= i <= position :: types[i] == TypeOf(recs[i].value);
      IndexFitsExactly(recs, t, k, position);
    }
  }

  /** A record that lasts until the given instant, of either validation type. */
  function Lasting(lib: Lib, validationType: nat, until: int): Record {
    var data := if validationType == VALIDATION_EOL then Str(lib.formatTime(until))
                else Strings([START_OF_TIME, lib.formatTime(until)]);
    Record(1, "", Validity(VERIFICATION_KEY, Nil, validationType, data), "",
           Node(Cid(1, 0, ""), Raw("")), [])
  }

  lemma {:induction false} LastingIsSelected(
    lib: Lib, recs: seq<Option<Record>>, t: nat, j: nat, early: int, late: int)
    requires TimeLaws(lib) && lib.representable(early) && lib.representable(late) && early < late
    requires NoNil(recs) && j < |recs| && Recognized(t) && TypeOf(recs[0].value) == t
    requires forall m | 0 <= m < |recs| ::
      recs[m] == Some(Lasting(lib, TypeOf(recs[m].value), if m == j then late else early))
    requires TypeOf(recs[j].value) == t && exists i | 0 <= i < j :: TypeOf(recs[i].value) != t
    ensures !PointsAtSelected(lib, recs)
  {
    var k := |OfType(recs[..j], t)|;
    UsableLasting(lib, recs, t, j, early, late);
    Misplaced(recs, t, j);
    LatestIsSelected(lib, OfType(recs, t), t, k, early, late);
  }

  lemma {:induction false} UsableLasting(
    lib: Lib, recs: seq<Option<Record>>, t: nat, j: nat, early: int, late: int)
    requires j < |recs| && recs[j] == Some(Lasting(lib, t, late))
    requires forall m | 0 <= m < |recs| && m != j ::
      recs[m].Some? && recs[m] == Some(Lasting(lib, TypeOf(recs[m].value), early))
    ensures var usable, k := OfType(recs, t), |OfType(recs[..j], t)|;
      && k < |usable|
      && forall m | 0 <= m < |usable| :: usable[m] == Some(Lasting(lib, t, if m == k then late else early))
  {
    OneOfType(recs, t, j);
    AllLasting(lib, recs[..j], t, early);
    AllLasting(lib, recs[j + 1..], t, early);
  }

  lemma {:induction false} AllLasting(lib: Lib, recs: seq<Option<Record>>, t: nat, until: int)
    requires forall m | 0 <= m < |recs| :: recs[m].Some? && recs[m] == Some(Lasting(lib, TypeOf(recs[m].value), until))
    ensures forall m | 0 <= m < |OfType(recs, t)| :: OfType(recs, t)[m] == Some(Lasting(lib, t, until))
  {
    OfTypeOnly(recs, t);
    forall m | 0 <= m < |OfType(recs, t)| ensures OfType(recs, t)[m] == Some(Lasting(lib, t, until)) {
      assert OfType(recs, t)[m] in OfType(recs, t);
    }
  }

  /** The place of a record among those of its type is not its place in the list when a record
      of another type stands before it, and no other record of the type stands there. */
  lemma {:induction false} Misplaced(recs: seq<Option<Record>>, t: nat, j: nat)
    requires NoNil(recs) && j < |recs| && TypeOf(recs[j].value) == t
    requires exists i | 0 <= i < j :: TypeOf(recs[i].value) != t
    ensures var k := |OfType(recs[..j], t)|; !StandsAt(recs, t, k, k)
  {
    var k := |OfType(recs[..j], t)|;
    if StandsAt(recs, t, k, k) {
      IndexFitsExactly(recs, t, k, k);
      OfTypeCount(recs[..j], t);
      assert k < j;
      assert recs[..j][..k] == recs[..k] && recs[..j] == recs[..k] + recs[k..j];
      OfTypeConcat(recs[..k], recs[k..j], t);
      OfTypeHas(recs[k..j], 0);
      assert false;
    }
  }

  lemma {:induction false} OneOfType(recs: seq<Option<Record>>, t: nat, j: nat)
    requires j < |recs| && recs[j].Some? && TypeOf(recs[j].value) == t
    ensures OfType(recs, t) == OfType(recs[..j], t) + [recs[j]] + OfType(recs[j + 1..], t)
  {
    var upto := recs[..j + 1];
    assert upto[..j] == recs[..j];
    assert upto + recs[j + 1..] == recs;
    OfTypeConcat(upto, recs[j + 1..], t);
  }

  lemma {:induction false} LatestIsSelected(
    lib: Lib, usable: seq<Option<Record>>, t: nat, k: nat, early: int, late: int)
    requires TimeLaws(lib) && lib.representable(early) && lib.representable(late) && early < late
    requires k < |usable| && Recognized(t)
    requires forall m | 0 <= m < |usable| :: usable[m] == Some(Lasting(lib, t, if m == k then late else early))
    ensures SelectOfType(lib, usable, t) == Ok(k)
  {
    LastingReads(lib, t, early);
    LastingReads(lib, t, late);
    if t == VALIDATION_EOL {
      Eol.BetterOrders();
      SelectedIsScanned(Eol.Slots(lib, usable), Eol.Better, k);
    } else {
      Range.BetterOrders();
      SelectedIsScanned(Range.Slots(lib, usable), Range.Better, k);
    }
  }

  lemma {:induction false} LastingReads(lib: Lib, t: nat, until: int)
    requires TimeLaws(lib) && lib.representable(until)
    ensures t == VALIDATION_EOL ==> EolParseValidation(lib, Lasting(lib, t, until)) == Ok(until)
    ensures t == VALIDATION_TIME_RANGE ==>
      RangeParseValidation(lib, Lasting(lib, t, until)) == Ok(Interval(None, Some(until)))
  {
    assert lib.parseTime(lib.formatTime(until)) == Some(until);
    assert Stamp(lib.formatTime(until));
  }

  /** A list on which the index is wrong: of an early end-of-life record, a time range record
      and a late end-of-life record the last is selected, and the index returned is that of
      the time range record. */
  lemma {:induction false} MixedListMisleads(lib: Lib, early: int, late: int, other: Record)
    requires TimeLaws(lib) && lib.representable(early) && lib.representable(late) && early < late
    requires TypeOf(other) == VALIDATION_TIME_RANGE
    ensures var first, last := Lasting(lib, VALIDATION_EOL, early), Lasting(lib, VALIDATION_EOL, late);
      var recs := [Some(first), Some(other), Some(last)];
      && OfType(recs, VALIDATION_EOL) == [Some(first), Some(last)]
      && Select(lib, recs) == Chosen(1)
  {
    var first, last := Lasting(lib, VALIDATION_EOL, early), Lasting(lib, VALIDATION_EOL, late);
    var recs := [Some(first), Some(other), Some(last)];
    assert recs[..2] == [Some(first), Some(other)] && recs[..2][..1] == [Some(first)] && recs[..2][..1][..0] == [];
    assert OfType(recs[..2][..1], VALIDATION_EOL) == [Some(first)];
    LatestIsSelected(lib, [Some(first), Some(last)], VALIDATION_EOL, 1, early, late);
  }

  /** A list of one type is its own filtered list: the index is valid for it. */
  lemma {:induction false} UniformListIsUsable(recs: seq<Option<Record>>, validationType: nat)
    requires NoNil(recs) && forall i | 0 <= i < |recs| :: TypeOf(recs[i].value) == validationType
    ensures OfType(recs, validationType) == recs
  {
    if recs != [] {
      UniformListIsUsable(recs[..|recs| - 1], validationType);
      assert recs == recs[..|recs| - 1] + [recs[|recs| - 1]];
    }
  }

  predicate Unexpired(lib: Lib, record: Record, now: int) {
    ValidateRecord(lib, record, now) != Some(ErrExpiredRecord)
  }

  predicate Parses(lib: Lib, record: Record) {
    if TypeOf(record) == VALIDATION_EOL then EolParseValidation(lib, record).Ok?
    else RangeParseValidation(lib, record).Ok?
  }

  /** Selection respects expiry: when the first usable record parses and any parseable
      usable record is unexpired at `now`, the selected one parses and is unexpired. */
  lemma {:induction false} SelectedUnexpired(
    lib: Lib, usable: seq<Option<Record>>, validationType: nat, i: nat, j: nat, now: int)
    requires Recognized(validationType) && NoNil(usable) && i < |usable| && j < |usable|
    requires forall k | 0 <= k < |usable| :: TypeOf(usable[k].value) == validationType
    requires SelectedOfType(lib, usable, validationType, i)
    requires Parses(lib, usable[0].value)
    requires Parses(lib, usable[j].value) && Unexpired(lib, usable[j].value, now)
    ensures Parses(lib, usable[i].value) && Unexpired(lib, usable[i].value, now)
  {
    EolIsLastUnexpired(lib, usable[i].value, now);
    EolIsLastUnexpired(lib, usable[j].value, now);
    if validationType == VALIDATION_EOL {
      var slots := Eol.Slots(lib, usable);
      assert First(slots, 0) && slots[0].Ranked?;
      assert slots[i].Ranked?;
      assert !Eol.Better(slots[j].key, slots[i].key);
    } else {
      var slots := Range.Slots(lib, usable);
      assert First(slots, 0) && slots[0].Ranked?;
      assert slots[i].Ranked?;
      assert !Range.Better(slots[j].key, slots[i].key);
    }
  }
}
