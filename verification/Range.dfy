/** Selecting among time range records (record/range.go). */
module Range {
  import opened Wrappers
  import opened Text
  import opened Library
  import opened Records
  import opened Selection

  datatype RangeKey = RangeKey(start: Option<int>, end: Option<int>, cid: Bytes)

  function SlotOf(lib: Lib, r: Option<Record>): Slot<RangeKey> {
    match r
    case None => Absent
    case Some(record) =>
      match RangeParseValidation(lib, record)
      case Err(_) => Unparsable
      case Ok(t) => Ranked(RangeKey(t.start, t.end, lib.cidBytes(record.node.cid)))
  }

  function Slots(lib: Lib, recs: seq<Option<Record>>): seq<Slot<RangeKey>> {
    Mapped(r => SlotOf(lib, r), recs)
  }

  predicate LaterEnd(a: Option<int>, b: Option<int>) {
    (a.None? && b.Some?) || (a.Some? && b.Some? && a.value > b.value)
  }

  predicate EarlierStart(a: Option<int>, b: Option<int>) {
    (a.None? && b.Some?) || (a.Some? && b.Some? && a.value < b.value)
  }

  /** The Go code compares the *time.Time pointers of two separate parses: they are
      equal when both are nil and never otherwise. */
  predicate SamePointer(a: Option<int>, b: Option<int>) {
    a.None? && b.None?
  }

  /** The order the scan compares with. */
  predicate Better(a: RangeKey, b: RangeKey) {
    || LaterEnd(a.end, b.end)
    || (&& SamePointer(a.end, b.end)
        && (EarlierStart(a.start, b.start) || (SamePointer(a.start, b.start) && BytesLess(b.cid, a.cid))))
  }

  /** The order its comments describe, with ties decided by instant: latest end, then
      earliest start, then greatest CID bytes. */
  predicate Intended(a: RangeKey, b: RangeKey) {
    || LaterEnd(a.end, b.end)
    || (&& a.end == b.end
        && (EarlierStart(a.start, b.start) || (a.start == b.start && BytesLess(b.cid, a.cid))))
  }

  lemma {:induction false} IntendedTotal(a: RangeKey, b: RangeKey)
    ensures !(Intended(a, b) && Intended(b, a))
    ensures a != b <==> Intended(a, b) || Intended(b, a)
    ensures Better(a, b) ==> Intended(a, b)
  {
    BytesTotal(a.cid, b.cid);
  }

  lemma {:induction false} IntendedTransitive(a: RangeKey, b: RangeKey, c: RangeKey)
    requires Intended(a, b) && Intended(b, c)
    ensures Intended(a, c)
  {
    if BytesLess(b.cid, a.cid) && BytesLess(c.cid, b.cid) { BytesTransitive(c.cid, b.cid, a.cid); }
  }

  /** The described order is a strict weak order, and a total one. */
  lemma {:induction false} IntendedOrders()
    ensures StrictWeakOrder(Intended)
    ensures forall a: RangeKey, b: RangeKey :: a != b <==> Intended(a, b) || Intended(b, a)
  {
    forall a: RangeKey, b: RangeKey
      ensures a != b <==> Intended(a, b) || Intended(b, a)
      ensures !Intended(a, a)
    {
      IntendedTotal(a, b);
      IntendedTotal(a, a);
    }
    forall a: RangeKey, b: RangeKey, c: RangeKey | Intended(a, b) && Intended(b, c) ensures Intended(a, c) {
      IntendedTransitive(a, b, c);
    }
    forall a: RangeKey, b: RangeKey, c: RangeKey | Intended(a, c) ensures Intended(a, b) || Intended(b, c) {
      IntendedTotal(a, b);
      if Intended(b, a) { IntendedTransitive(b, a, c); }
    }
  }

  lemma {:induction false} BetterTransitive(a: RangeKey, b: RangeKey, c: RangeKey)
    requires Better(a, b) && Better(b, c)
    ensures Better(a, c)
  {
    if BytesLess(b.cid, a.cid) && BytesLess(c.cid, b.cid) { BytesTransitive(c.cid, b.cid, a.cid); }
  }

  lemma {:induction false} BetterSplits(a: RangeKey, b: RangeKey, c: RangeKey)
    requires Better(a, c)
    ensures Better(a, b) || Better(b, c)
  {
    BytesTotal(a.cid, b.cid);
    if BytesLess(a.cid, b.cid) && BytesLess(c.cid, a.cid) { BytesTransitive(c.cid, a.cid, b.cid); }
  }

  lemma {:induction false} BetterOrders()
    ensures StrictWeakOrder(Better)
  {
    forall a: RangeKey ensures !Better(a, a) { IntendedTotal(a, a); }
    forall a: RangeKey, b: RangeKey, c: RangeKey | Better(a, b) && Better(b, c) ensures Better(a, c) {
      BetterTransitive(a, b, c);
    }
    forall a: RangeKey, b: RangeKey, c: RangeKey | Better(a, c) ensures Better(a, b) || Better(b, c) {
      BetterSplits(a, b, c);
    }
  }

  /** What a scan with the order `better` selects. The code's order is Better. */
  function SelectWith(lib: Lib, recs: seq<Option<Record>>, better: (RangeKey, RangeKey) -> bool): Result<nat, Error> {
    match Scan(Slots(lib, recs), better)
    case None => Err(NoUsableRecords)
    case Some(i) => Ok(i)
  }

  function Select(lib: Lib, recs: seq<Option<Record>>): Result<nat, Error> {
    SelectWith(lib, recs, Better)
  }

  /** The scan selects the first record no parseable record is better than, or the
      first record when that one does not parse, and fails exactly when there is no
      record. */
  method SelectRecord(lib: Lib, recs: seq<Option<Record>>) returns (r: Result<nat, Error>)
    ensures r == Select(lib, recs)
    ensures r.Err? <==> forall i | 0 <= i < |recs| :: recs[i].None?
    ensures r.Ok? ==> r.value < |recs| && Selected(Slots(lib, recs), Better, r.value)
  {
    var best := -1;
    ghost var slots := Slots(lib, recs);
    hide Scan;
    for i := 0 to |recs|
      invariant -1 <= best < i && (best >= 0 ==> recs[best].Some?)
      invariant Scan(slots[..i], Better) == if best == -1 then None else Some(best)
    {
      ScanStep(slots, Better, i);
      if recs[i].None? {
        continue;
      }
      if best == -1 {
        best := i;
        continue;
      }
      var parsed := RangeParseValidation(lib, recs[i].value);
      if parsed.Err? {
        continue;
      }
      var bestParsed := RangeParseValidation(lib, recs[best].value);
      if bestParsed.Err? {
        continue;
      }
      var t, bestt := parsed.value, bestParsed.value;
      if (t.end.None? && bestt.end.Some?) || (t.end.Some? && bestt.end.Some? && t.end.value > bestt.end.value) {
        best := i;
        continue;
      }
      if SamePointer(t.end, bestt.end) {
        if (t.start.None? && bestt.start.Some?)
           || (t.start.Some? && bestt.start.Some? && t.start.value < bestt.start.value) {
          best := i;
          continue;
        }
        if SamePointer(t.start, bestt.start) {
          var vi := lib.cidBytes(recs[i].value.node.cid);
          var vb := lib.cidBytes(recs[best].value.node.cid);
          if BytesLess(vb, vi) {
            best := i;
          }
        }
      }
    }
    assert slots[..|recs|] == slots;
    assert forall i | 0 <= i < |recs| :: slots[i].Absent? <==> recs[i].None?;
    BetterOrders();
    ScanSelects(slots, Better);
    if best == -1 {
      return Err(NoUsableRecords);
    }
    return Ok(best);
  }

  // ---- With ties compared by instant -----------------------------------------------------

  /** The scan as described selects, when the first record parses, the full maximum: the
      latest end, then the earliest start, then the greatest CID bytes. */
  lemma {:induction false} IntendedIsMaximum(lib: Lib, recs: seq<Option<Record>>, i: nat, j: nat)
    requires SelectWith(lib, recs, Intended) == Ok(i)
    requires Slots(lib, recs)[i].Ranked?
    requires j < |recs| && Slots(lib, recs)[j].Ranked?
    ensures var best, other := Slots(lib, recs)[i].key, Slots(lib, recs)[j].key;
      || other == best
      || LaterEnd(best.end, other.end)
      || (best.end == other.end && EarlierStart(best.start, other.start))
      || (best.end == other.end && best.start == other.start && BytesLess(other.cid, best.cid))
  {
    IntendedOrders();
    ScanSelects(Slots(lib, recs), Intended);
  }

  /** Described selection does not depend on the order of the list: two arrangements that
      select records that parse select the same bounds and CID. */
  lemma {:induction false} IntendedOrderIndependent(
    lib: Lib, recs: seq<Option<Record>>, other: seq<Option<Record>>, i: nat, j: nat)
    requires multiset(recs) == multiset(other)
    requires SelectWith(lib, recs, Intended) == Ok(i) && SelectWith(lib, other, Intended) == Ok(j)
    requires Slots(lib, recs)[i].Ranked? && Slots(lib, other)[j].Ranked?
    ensures Slots(lib, recs)[i] == Slots(lib, other)[j]
  {
    IntendedOrders();
    ScanSelects(Slots(lib, recs), Intended);
    ScanSelects(Slots(lib, other), Intended);
    MappedArranges((r: Option<Record>) => SlotOf(lib, r), recs, other);
    ArrangementsAgree(Slots(lib, recs), Slots(lib, other), Intended, i, j);
  }

  // ---- As the code stands --------------------------------------------------------------

  /** What selection guarantees as the code stands: a parseable record is unbeaten
      exactly when it has the latest end, and, having no end, the earliest start, and,
      having no start either, the greatest CID bytes. */
  lemma {:induction false} UnbeatenExactly(slots: seq<Slot<RangeKey>>, i: nat)
    requires i < |slots| && slots[i].Ranked?
    ensures var best := slots[i].key;
      Unbeaten(slots, Better, i) <==>
        forall j | 0 <= j < |slots| && slots[j].Ranked? :: var other := slots[j].key;
          && (other.end.None? ==> best.end.None?)
          && (other.end.Some? && best.end.Some? ==> other.end.value <= best.end.value)
          && (other.end.None? && best.end.None? ==>
                && (other.start.None? ==> best.start.None?)
                && (other.start.Some? && best.start.Some? ==> best.start.value <= other.start.value)
                && (other.start.None? && best.start.None? ==> other.cid == best.cid || BytesLess(other.cid, best.cid)))
  {
    forall j | 0 <= j < |slots| && slots[j].Ranked? {
      BytesTotal(slots[j].key.cid, slots[i].key.cid);
    }
  }

  /** Two different keys between which the pointer comparison decides nothing: the
      same finite end, or no end and the same finite start. */
  predicate LosesTie(a: RangeKey, b: RangeKey) {
    a != b && a.end == b.end && (a.end.Some? || (a.start == b.start && a.start.Some?))
  }

  ghost predicate NoLostTie(slots: seq<Slot<RangeKey>>) {
    forall i, j | Unbeaten(slots, Better, i) && Unbeaten(slots, Better, j) ::
      !LosesTie(slots[i].key, slots[j].key)
  }

  ghost predicate AlwaysIntended(lib: Lib, recs: seq<Option<Record>>) {
    forall other: seq<Option<Record>>, i: nat |
      && multiset(other) == multiset(recs)
      && Select(lib, other) == Ok(i) && Slots(lib, other)[i].Ranked? ::
      Unbeaten(Slots(lib, other), Intended, i)
  }

  /** The selection is the maximum the comments describe, in whatever order the
      records are listed, if and only if no two records at the top of the list have
      the same finite end, or no end and the same finite start, and differ otherwise. */
  lemma {:induction false} IntendedExactly(lib: Lib, recs: seq<Option<Record>>)
    ensures AlwaysIntended(lib, recs) <==> NoLostTie(Slots(lib, recs))
  {
    if NoLostTie(Slots(lib, recs)) {
      BetterOrders();
      forall other: seq<Option<Record>>, i: nat |
        && multiset(other) == multiset(recs)
        && Select(lib, other) == Ok(i) && Slots(lib, other)[i].Ranked?
        ensures Unbeaten(Slots(lib, other), Intended, i)
      {
        ScanSelects(Slots(lib, other), Better);
        MappedArranges((r: Option<Record>) => SlotOf(lib, r), other, recs);
        UntiedIsIntended(Slots(lib, recs), Slots(lib, other), i);
      }
    } else {
      var slots := Slots(lib, recs);
      var i, j :| Unbeaten(slots, Better, i) && Unbeaten(slots, Better, j) && LosesTie(slots[i].key, slots[j].key);
      IntendedTotal(slots[i].key, slots[j].key);
      if Intended(slots[i].key, slots[j].key) {
        LostTieShows(lib, recs, i, j);
      } else {
        LostTieShows(lib, recs, j, i);
      }
    }
  }

  lemma {:induction false} UntiedIsIntended(slots: seq<Slot<RangeKey>>, other: seq<Slot<RangeKey>>, i: int)
    requires multiset(slots) == multiset(other) && NoLostTie(slots)
    requires Selected(other, Better, i) && other[i].Ranked?
    ensures Unbeaten(other, Intended, i)
  {
    forall k | 0 <= k < |other| && other[k].Ranked? ensures !Intended(other[k].key, other[i].key) {
      var a, b := other[k].key, other[i].key;
      if Intended(a, b) {
        IntendedTotal(a, b);
        IntendedTotal(b, a);
        assert !Better(a, b) && !Better(b, a);
        assert LosesTie(a, b);
        var x, y := TiedAtTheTop(slots, other, k, i);
      }
    }
  }

  /** Two entries of one arrangement, one unbeaten and neither better, are unbeaten
      entries of the other arrangement. */
  lemma {:induction false} TiedAtTheTop(slots: seq<Slot<RangeKey>>, other: seq<Slot<RangeKey>>, k: int, i: int)
    returns (x: int, y: int)
    requires multiset(slots) == multiset(other)
    requires Unbeaten(other, Better, i) && 0 <= k < |other| && other[k].Ranked?
    requires !Better(other[i].key, other[k].key)
    ensures Unbeaten(slots, Better, x) && Unbeaten(slots, Better, y)
    ensures slots[x] == other[k] && slots[y] == other[i]
  {
    assert other[k] in multiset(other) && other[i] in multiset(other);
    x :| 0 <= x < |slots| && slots[x] == other[k];
    y :| 0 <= y < |slots| && slots[y] == other[i];
    forall m | 0 <= m < |slots| && slots[m].Ranked?
      ensures !Better(slots[m].key, slots[y].key) && !Better(slots[m].key, slots[x].key)
    {
      assert slots[m] in multiset(slots);
      assert slots[m] in other;
      if Better(slots[m].key, slots[x].key) {
        BetterSplits(slots[m].key, slots[y].key, slots[x].key);
      }
    }
  }

  lemma {:induction false} SlotsPromoted(lib: Lib, recs: seq<Option<Record>>, j: nat)
    requires j < |recs|
    ensures Slots(lib, Promote(recs, j)) == Promote(Slots(lib, recs), j)
  {
  }

  lemma {:induction false} LostTieShows(lib: Lib, recs: seq<Option<Record>>, i: int, j: int)
    requires var slots := Slots(lib, recs);
      Unbeaten(slots, Better, i) && Unbeaten(slots, Better, j) && Intended(slots[i].key, slots[j].key)
    ensures !AlwaysIntended(lib, recs)
  {
    var other := PromotedIsScanned(lib, recs, j);
    var slots := Slots(lib, recs);
    MappedArranges((r: Option<Record>) => SlotOf(lib, r), other, recs);
    assert slots[i] in multiset(slots);
    assert slots[i] in Slots(lib, other);
    assert !Unbeaten(Slots(lib, other), Intended, 0);
  }

  /** Every two arrangements that select records that parse select the same bounds and
      CID bytes. */
  ghost predicate OrderIndependent(lib: Lib, recs: seq<Option<Record>>) {
    forall a: seq<Option<Record>>, b: seq<Option<Record>>, i: nat, j: nat |
      && multiset(a) == multiset(recs) && multiset(b) == multiset(recs)
      && Select(lib, a) == Ok(i) && Select(lib, b) == Ok(j)
      && Slots(lib, a)[i].Ranked? && Slots(lib, b)[j].Ranked? ::
      Slots(lib, a)[i] == Slots(lib, b)[j]
  }

  /** The selection as coded does not depend on the order of the list if and only if no
      tie at the top is lost. */
  lemma {:induction false} OrderIndependentExactly(lib: Lib, recs: seq<Option<Record>>)
    ensures OrderIndependent(lib, recs) <==> NoLostTie(Slots(lib, recs))
  {
    BetterOrders();
    var slots := Slots(lib, recs);
    if NoLostTie(slots) {
      forall a: seq<Option<Record>>, b: seq<Option<Record>>, i: nat, j: nat |
        && multiset(a) == multiset(recs) && multiset(b) == multiset(recs)
        && Select(lib, a) == Ok(i) && Select(lib, b) == Ok(j)
        && Slots(lib, a)[i].Ranked? && Slots(lib, b)[j].Ranked?
        ensures Slots(lib, a)[i] == Slots(lib, b)[j]
      {
        UntiedAgree(lib, recs, a, b, i, j);
      }
    } else {
      var i, j :| Unbeaten(slots, Better, i) && Unbeaten(slots, Better, j) && LosesTie(slots[i].key, slots[j].key);
      var a := PromotedIsScanned(lib, recs, i);
      var b := PromotedIsScanned(lib, recs, j);
      assert Slots(lib, a)[0] != Slots(lib, b)[0];
    }
  }

  lemma {:induction false} UntiedAgree(
    lib: Lib, recs: seq<Option<Record>>, a: seq<Option<Record>>, b: seq<Option<Record>>, i: nat, j: nat)
    requires NoLostTie(Slots(lib, recs)) && multiset(a) == multiset(recs) == multiset(b)
    requires Select(lib, a) == Ok(i) && Select(lib, b) == Ok(j)
    requires Slots(lib, a)[i].Ranked? && Slots(lib, b)[j].Ranked?
    ensures Slots(lib, a)[i] == Slots(lib, b)[j]
  {
    var f := (r: Option<Record>) => SlotOf(lib, r);
    BetterOrders();
    ScanSelects(Slots(lib, a), Better);
    ScanSelects(Slots(lib, b), Better);
    MappedArranges(f, a, recs);
    MappedArranges(f, b, recs);
    UntiedIsIntended(Slots(lib, recs), Slots(lib, a), i);
    UntiedIsIntended(Slots(lib, recs), Slots(lib, b), j);
    hide Intended, Better;
    assert Slots(lib, a)[i] in multiset(Slots(lib, a)) && Slots(lib, b)[j] in multiset(Slots(lib, b));
    assert Slots(lib, a)[i] in Slots(lib, b) && Slots(lib, b)[j] in Slots(lib, a);
    IntendedTotal(Slots(lib, a)[i].key, Slots(lib, b)[j].key);
  }

  /** The records with an unbeaten one moved to the front, which is selected there. */
  lemma {:induction false} PromotedIsScanned(lib: Lib, recs: seq<Option<Record>>, i: int)
    returns (other: seq<Option<Record>>)
    requires Unbeaten(Slots(lib, recs), Better, i)
    ensures multiset(other) == multiset(recs)
    ensures Select(lib, other) == Ok(0) && Slots(lib, other)[0] == Slots(lib, recs)[i]
  {
    other := Promote(recs, i);
    PromoteArranges(recs, i);
    PromotedIsSelected(Slots(lib, recs), Better, i);
    SlotsPromoted(lib, recs, i);
    BetterOrders();
    SelectedIsScanned(Slots(lib, other), Better, 0);
  }

  /** The case of the repository's own ordering test: of two records with the same end the
      one with the earlier start is meant to win, and the one listed first does, either way
      round. */
  lemma {:induction false} EqualEndsKeepFirst(
    lib: Lib, early: Record, late: Record, earlyStart: int, lateStart: int, end: int)
    requires RangeParseValidation(lib, early) == Ok(Interval(Some(earlyStart), Some(end)))
    requires RangeParseValidation(lib, late) == Ok(Interval(Some(lateStart), Some(end)))
    requires earlyStart < lateStart
    ensures Select(lib, [Some(late), Some(early)]) == Ok(0) && Select(lib, [Some(early), Some(late)]) == Ok(0)
    ensures SelectWith(lib, [Some(late), Some(early)], Intended) == Ok(1)
    ensures SelectWith(lib, [Some(early), Some(late)], Intended) == Ok(0)
  {
    var a, b := Slots(lib, [Some(late), Some(early)]), Slots(lib, [Some(early), Some(late)]);
    assert a[..1][..0] == [] && b[..1][..0] == [];
    assert Scan(a[..1], Better) == Some(0) && Scan(b[..1], Better) == Some(0);
    assert Scan(a[..1], Intended) == Some(0) && Scan(b[..1], Intended) == Some(0);
  }
}
