/** What the two record checkers' scans compute: the first best of the records
    they can parse, and the first record at all when that one does not parse. */
module Selection {
  import opened Wrappers

  /** A list entry as a scan sees it: nil, a record whose validation data does not
      parse, or a record with the key it is compared by. */
  datatype Slot<+K> = Absent | Unparsable | Ranked(key: K)

  /** `better` is a strict weak order: the scans compare with it and keep the earlier
      of two records of which neither is better. */
  ghost predicate StrictWeakOrder<K(!new)>(better: (K, K) -> bool) {
    && (forall a: K :: !better(a, a))
    && (forall a: K, b: K, c: K :: better(a, b) && better(b, c) ==> better(a, c))
    && (forall a: K, b: K, c: K :: better(a, c) ==> better(a, b) || better(b, c))
  }

  ghost predicate First<K>(slots: seq<Slot<K>>, f: int) {
    0 <= f < |slots| && !slots[f].Absent? && forall j | 0 <= j < f :: slots[j].Absent?
  }

  ghost predicate Unbeaten<K>(slots: seq<Slot<K>>, better: (K, K) -> bool, i: int) {
    && 0 <= i < |slots| && slots[i].Ranked?
    && forall j | 0 <= j < |slots| && slots[j].Ranked? :: !better(slots[j].key, slots[i].key)
  }

  /** i is the selected index. */
  ghost predicate Selected<K>(slots: seq<Slot<K>>, better: (K, K) -> bool, i: int) {
    || (First(slots, i) && slots[i].Unparsable?)
    || (&& Unbeaten(slots, better, i)
        && (forall f | First(slots, f) :: slots[f].Ranked?)
        && forall j | 0 <= j < i && slots[j].Ranked? :: better(slots[i].key, slots[j].key))
  }

  /** There is one selected index at most. */
  lemma SelectedOnce<K(!new)>(slots: seq<Slot<K>>, better: (K, K) -> bool, i: int, j: int)
    requires Selected(slots, better, i) && Selected(slots, better, j)
    ensures i == j
  {
  }

  /** One step of a scan: `best` was selected among the first i entries. */
  lemma {:induction false} SelectStep<K(!new)>(slots: seq<Slot<K>>, better: (K, K) -> bool, i: int, best: int)
    requires StrictWeakOrder(better)
    requires 0 <= i < |slots| && Selected(slots[..i], better, best)
    ensures var next :=
        if slots[i].Ranked? && slots[best].Ranked? && better(slots[i].key, slots[best].key) then i else best;
      Selected(slots[..i + 1], better, next)
  {
    hide StrictWeakOrder;
    var before, after := slots[..i], slots[..i + 1];
    assert forall j | 0 <= j < i :: before[j] == after[j];
    assert forall f | First(after, f) && f < i :: First(before, f);
    if slots[best].Unparsable? {
      assert First(after, best);
    } else {
      assert forall f | First(after, f) :: f <= best;
      if slots[i].Ranked? {
        var kb, ki := slots[best].key, slots[i].key;
        OrderAt(better, ki, ki, ki);
        forall j | 0 <= j < i && slots[j].Ranked?
          ensures better(ki, kb) ==> !better(slots[j].key, ki) && better(ki, slots[j].key)
        {
          assert !better(before[j].key, kb);
          OrderAt(better, slots[j].key, ki, kb);
          OrderAt(better, ki, slots[j].key, kb);
        }
      }
    }
  }

  lemma OrderAt<K(!new)>(better: (K, K) -> bool, a: K, b: K, c: K)
    requires StrictWeakOrder(better)
    ensures !better(a, a)
    ensures better(a, b) && better(b, c) ==> better(a, c)
    ensures better(a, c) ==> better(a, b) || better(b, c)
  {
  }

  lemma SelectStart<K(!new)>(slots: seq<Slot<K>>, better: (K, K) -> bool, i: int)
    requires StrictWeakOrder(better)
    requires 0 <= i < |slots| && !slots[i].Absent? && forall j | 0 <= j < i :: slots[j].Absent?
    ensures Selected(slots[..i + 1], better, i)
  {
  }

  /** A scan: the first entry there is, and from then on every entry that is better than
      the one kept, if both parse. */
  function Scan<K>(slots: seq<Slot<K>>, better: (K, K) -> bool): (kept: Option<nat>)
    ensures kept.Some? ==> kept.value < |slots|
    decreases |slots|
  {
    if slots == [] then None
    else
      var i := |slots| - 1;
      match Scan(slots[..i], better)
      case None => if slots[i].Absent? then None else Some(i)
      case Some(best) =>
        if slots[i].Ranked? && slots[best].Ranked? && better(slots[i].key, slots[best].key) then Some(i) else Some(best)
  }

  lemma ScanStep<K>(slots: seq<Slot<K>>, better: (K, K) -> bool, i: nat)
    requires i < |slots|
    ensures var kept := Scan(slots[..i], better);
      Scan(slots[..i + 1], better) ==
        if slots[i].Absent? then kept
        else if kept.None? then Some(i)
        else if slots[i].Ranked? && slots[kept.value].Ranked? && better(slots[i].key, slots[kept.value].key)
        then Some(i)
        else kept
  {
    assert slots[..i + 1][..i] == slots[..i];
  }

  /** A scan with a strict weak order finds nothing exactly in a list without entries, and
      otherwise the selected entry. */
  lemma {:induction false} ScanSelects<K(!new)>(slots: seq<Slot<K>>, better: (K, K) -> bool)
    requires StrictWeakOrder(better)
    ensures Scan(slots, better).None? <==> forall i | 0 <= i < |slots| :: slots[i].Absent?
    ensures Scan(slots, better).Some? ==> Selected(slots, better, Scan(slots, better).value)
    decreases |slots|
  {
    if slots != [] {
      var i := |slots| - 1;
      ScanSelects(slots[..i], better);
      assert slots[..i + 1] == slots;
      if Scan(slots[..i], better).Some? {
        SelectStep(slots, better, i, Scan(slots[..i], better).value);
      } else if !slots[i].Absent? {
        SelectStart(slots, better, i);
      }
    }
  }

  /** A first entry that does not parse is never displaced. */
  lemma {:induction false} FirstUnparsableKept<K(!new)>(slots: seq<Slot<K>>, better: (K, K) -> bool, i: nat)
    requires i < |slots| && slots[i].Unparsable? && forall j | 0 <= j < i :: slots[j].Absent?
    ensures Scan(slots, better) == Some(i)
    decreases |slots|
  {
    var n := |slots| - 1;
    if i < n {
      FirstUnparsableKept(slots[..n], better, i);
    } else {
      AbsentFindNothing(slots[..n], better);
    }
  }

  lemma {:induction false} AbsentFindNothing<K>(slots: seq<Slot<K>>, better: (K, K) -> bool)
    requires forall j | 0 <= j < |slots| :: slots[j].Absent?
    ensures Scan(slots, better) == None
    decreases |slots|
  {
    if slots != [] {
      AbsentFindNothing(slots[..|slots| - 1], better);
    }
  }

  /** What is selected is what the scan keeps. */
  lemma {:induction false} SelectedIsScanned<K(!new)>(slots: seq<Slot<K>>, better: (K, K) -> bool, i: int)
    requires StrictWeakOrder(better) && Selected(slots, better, i)
    ensures Scan(slots, better) == Some(i)
  {
    ScanSelects(slots, better);
    SelectedOnce(slots, better, i, Scan(slots, better).value);
  }

  function Mapped<T, K>(f: T -> K, items: seq<T>): seq<K> {
    seq(|items|, i requires 0 <= i < |items| => f(items[i]))
  }

  lemma {:induction false} MappedWithout<T, K>(f: T -> K, items: seq<T>, j: nat)
    requires j < |items|
    ensures multiset(Mapped(f, items)) == multiset(Mapped(f, items[..j] + items[j + 1..])) + multiset{f(items[j])}
  {
    var front, back := items[..j], items[j + 1..];
    assert Mapped(f, items) == Mapped(f, front) + [f(items[j])] + Mapped(f, back);
    assert Mapped(f, front + back) == Mapped(f, front) + Mapped(f, back);
  }

  /** Dropping a shared element from two arrangements leaves two arrangements. */
  lemma {:induction false} DropShared<T>(items: seq<T>, other: seq<T>, j: nat)
    requires multiset(items) == multiset(other) && items != []
    requires j < |other| && other[j] == items[0]
    ensures multiset(items[1..]) == multiset(other[..j] + other[j + 1..])
  {
    var rest := other[..j] + other[j + 1..];
    assert other == other[..j] + [other[j]] + other[j + 1..];
    assert multiset(other) == multiset(rest) + multiset{items[0]};
    assert items == [items[0]] + items[1..];
    assert multiset(rest) == multiset(other) - multiset{items[0]};
    assert multiset(items[1..]) == multiset(items) - multiset{items[0]};
  }

  /** Rearranging a list rearranges what a function maps it to. */
  lemma {:induction false} MappedArranges<T, K>(f: T -> K, items: seq<T>, other: seq<T>)
    requires multiset(items) == multiset(other)
    ensures multiset(Mapped(f, items)) == multiset(Mapped(f, other))
    decreases |items|
  {
    if items == [] {
      assert |multiset(other)| == 0;
    } else {
      assert items[0] in multiset(other);
      var j :| 0 <= j < |other| && other[j] == items[0];
      var rest := other[..j] + other[j + 1..];
      DropShared(items, other, j);
      MappedArranges(f, items[1..], rest);
      MappedWithout(f, items, 0);
      assert items[..0] + items[1..] == items[1..];
      MappedWithout(f, other, j);
    }
  }

  /** Two arrangements of the same entries select entries of which neither is better,
      when every entry that is there parses. */
  lemma {:induction false} ArrangementsAgree<K(!new)>(
    slots: seq<Slot<K>>, other: seq<Slot<K>>, better: (K, K) -> bool, i: int, j: int)
    requires multiset(slots) == multiset(other)
    requires Selected(slots, better, i) && slots[i].Ranked?
    requires Selected(other, better, j) && other[j].Ranked?
    ensures !better(slots[i].key, other[j].key) && !better(other[j].key, slots[i].key)
  {
    assert slots[i] in multiset(slots) && other[j] in multiset(other);
    assert slots[i] in other && other[j] in slots;
  }

  /** The same entries with the one at index j moved to the front. */
  function Promote<T>(items: seq<T>, j: nat): seq<T>
    requires j < |items|
  {
    [items[j]] + items[..j] + items[j + 1..]
  }

  lemma {:induction false} PromoteArranges<T>(items: seq<T>, j: nat)
    requires j < |items|
    ensures multiset(Promote(items, j)) == multiset(items)
    ensures |Promote(items, j)| == |items| && Promote(items, j)[0] == items[j]
  {
    assert items == items[..j] + [items[j]] + items[j + 1..];
  }

  /** An unbeaten entry that comes first is selected. */
  lemma PromotedIsSelected<K(!new)>(slots: seq<Slot<K>>, better: (K, K) -> bool, j: nat)
    requires Unbeaten(slots, better, j)
    ensures Selected(Promote(slots, j), better, 0)
  {
  }
}
