/** The extremes both console reports print: the first three rows of a
    stable ascending sort by compound (most negative) and of a stable
    descending sort (most positive), shown only when there are rows. */
module Extremes {
  import opened Wrappers
  import opened Records
  import opened StableSort

  /** How many extremes of each kind the reports print. */
  const Shown: nat := 3

  function CompoundKey(r: Row): real {
    r.scores.compound
  }

  /** The first `k` rows of the stable sort by compound score: ascending
      (desc = false) or descending (desc = true). */
  function Top(rows: seq<Row>, k: nat, desc: bool): (t: seq<Row>)
    ensures |t| == if |rows| < k then |rows| else k
    ensures SortedBy(t, CompoundKey, desc)
    ensures multiset(t) <= multiset(rows)
    ensures forall i, x :: 0 <= i < |t| && x in multiset(rows) - multiset(t) ==>
              Precedes(t[i].scores.compound, x.scores.compound, desc)
    ensures forall v :: WithKey(t, CompoundKey, v) <= WithKey(rows, CompoundKey, v)
  {
    var sorted := Sort(rows, CompoundKey, desc);
    SortIsStable(rows, CompoundKey, desc);
    SortPermutes(rows, CompoundKey, desc);
    PrefixOfSortLeads(rows, sorted, k, desc);
    PrefixOfSortKeepsArrivalOrder(rows, sorted, k, desc);
    Take(sorted, k)
  }

  lemma PrefixOfSortLeads(rows: seq<Row>, sorted: seq<Row>, k: nat, desc: bool)
    requires multiset(sorted) == multiset(rows)
    requires SortedBy(sorted, CompoundKey, desc)
    ensures var t := Take(sorted, k);
      && multiset(t) <= multiset(rows)
      && forall i, x :: 0 <= i < |t| && x in multiset(rows) - multiset(t) ==>
           Precedes(t[i].scores.compound, x.scores.compound, desc)
  {
    var t := Take(sorted, k);
    assert sorted == t + sorted[|t|..];
    assert multiset(sorted) == multiset(t) + multiset(sorted[|t|..]);
    assert t == sorted[..|t|];
    PrefixLeads(sorted, |t|, CompoundKey, desc);
  }

  lemma PrefixOfSortKeepsArrivalOrder(rows: seq<Row>, sorted: seq<Row>, k: nat, desc: bool)
    requires forall v :: WithKey(sorted, CompoundKey, v) == WithKey(rows, CompoundKey, v)
    ensures forall v :: WithKey(Take(sorted, k), CompoundKey, v) <= WithKey(rows, CompoundKey, v)
  {
    var t := Take(sorted, k);
    assert sorted == t + sorted[|t|..];
    forall v ensures WithKey(t, CompoundKey, v) <= WithKey(rows, CompoundKey, v) {
      WithKeyAppend(t, sorted[|t|..], CompoundKey, v);
    }
  }

  /** Top returns the first `k` of the one stable sort there is: any
      sequence sorted by compound that keeps each group of equal scores in
      arrival order starts with it. */
  lemma TopIsPrefixOfAnyStableSort(rows: seq<Row>, k: nat, desc: bool, other: seq<Row>)
    requires StableSortOf(other, rows, CompoundKey, desc)
    ensures Top(rows, k, desc) == Take(other, k)
  {
    var sorted := Sort(rows, CompoundKey, desc);
    SortIsStable(rows, CompoundKey, desc);
    SortPermutes(rows, CompoundKey, desc);
    StableSortUnique(sorted, other, CompoundKey, desc);
  }

  datatype Report = Report(mostNegative: seq<Row>, mostPositive: seq<Row>)

  /** The extremes section of a console report; absent when there are no rows. */
  function ExtremesSection(rows: seq<Row>): (e: Option<Report>)
    ensures e.None? <==> |rows| == 0
    ensures e.Some? ==> |e.value.mostNegative| == |e.value.mostPositive| == if |rows| < Shown then |rows| else Shown
    ensures e.Some? ==> e.value.mostNegative == Top(rows, Shown, false) && e.value.mostPositive == Top(rows, Shown, true)
  {
    if |rows| == 0 then None else Some(Report(Top(rows, Shown, false), Top(rows, Shown, true)))
  }

  /** Scores 0.9, -0.9, 0.0, 0.5, -0.2 in that order: the most negative are
      -0.9, -0.2, 0.0 and the most positive 0.9, 0.5, 0.0. */
  lemma ExtremesExample(r1: Row, r2: Row, r3: Row, r4: Row, r5: Row)
    requires r1.scores.compound == 0.9 && r2.scores.compound == -0.9 && r3.scores.compound == 0.0
    requires r4.scores.compound == 0.5 && r5.scores.compound == -0.2
    ensures ExtremesSection([r1, r2, r3, r4, r5]) == Some(Report([r2, r5, r3], [r1, r4, r3]))
  {
    AscendingExample(r1, r2, r3, r4, r5);
    DescendingExample(r1, r2, r3, r4, r5);
    assert [r2, r5, r3, r4, r1][..3] == [r2, r5, r3];
    assert [r1, r4, r3, r5, r2][..3] == [r1, r4, r3];
  }

  lemma AscendingExample(r1: Row, r2: Row, r3: Row, r4: Row, r5: Row)
    requires r1.scores.compound == 0.9 && r2.scores.compound == -0.9 && r3.scores.compound == 0.0
    requires r4.scores.compound == 0.5 && r5.scores.compound == -0.2
    ensures Sort([r1, r2, r3, r4, r5], CompoundKey, false) == [r2, r5, r3, r4, r1]
  {
    AscendingFirstFour(r1, r2, r3, r4);
    assert [r2, r3, r4, r1] == [r2] + [r3, r4, r1];
    SortStep([r1, r2, r3, r4], r5, [r2], [r3, r4, r1], false);
    assert [r1, r2, r3, r4] + [r5] == [r1, r2, r3, r4, r5];
    assert [r2] + [r5] + [r3, r4, r1] == [r2, r5, r3, r4, r1];
  }

  lemma AscendingFirstFour(r1: Row, r2: Row, r3: Row, r4: Row)
    requires r1.scores.compound == 0.9 && r2.scores.compound == -0.9 && r3.scores.compound == 0.0
    requires r4.scores.compound == 0.5
    ensures Sort([r1, r2, r3, r4], CompoundKey, false) == [r2, r3, r4, r1]
  {
    AscendingFirstThree(r1, r2, r3);
    assert [r2, r3, r1] == [r2, r3] + [r1];
    SortStep([r1, r2, r3], r4, [r2, r3], [r1], false);
    assert [r1, r2, r3] + [r4] == [r1, r2, r3, r4];
    assert [r2, r3] + [r4] + [r1] == [r2, r3, r4, r1];
  }

  lemma AscendingFirstThree(r1: Row, r2: Row, r3: Row)
    requires r1.scores.compound == 0.9 && r2.scores.compound == -0.9 && r3.scores.compound == 0.0
    ensures Sort([r1, r2, r3], CompoundKey, false) == [r2, r3, r1]
  {
    SortStep([], r1, [], [], false);
    assert [] + [r1] == [r1] && [] + [r1] + [] == [] + [r1];
    SortStep([r1], r2, [], [r1], false);
    assert [r1] + [r2] == [r1, r2] && [] + [r2] + [r1] == [r2] + [r1];
    SortStep([r1, r2], r3, [r2], [r1], false);
    assert [r1, r2] + [r3] == [r1, r2, r3] && [r2] + [r3] + [r1] == [r2, r3, r1];
  }

  lemma DescendingExample(r1: Row, r2: Row, r3: Row, r4: Row, r5: Row)
    requires r1.scores.compound == 0.9 && r2.scores.compound == -0.9 && r3.scores.compound == 0.0
    requires r4.scores.compound == 0.5 && r5.scores.compound == -0.2
    ensures Sort([r1, r2, r3, r4, r5], CompoundKey, true) == [r1, r4, r3, r5, r2]
  {
    DescendingFirstFour(r1, r2, r3, r4);
    assert [r1, r4, r3, r2] == [r1, r4, r3] + [r2];
    SortStep([r1, r2, r3, r4], r5, [r1, r4, r3], [r2], true);
    assert [r1, r2, r3, r4] + [r5] == [r1, r2, r3, r4, r5];
    assert [r1, r4, r3] + [r5] + [r2] == [r1, r4, r3, r5, r2];
  }

  lemma DescendingFirstFour(r1: Row, r2: Row, r3: Row, r4: Row)
    requires r1.scores.compound == 0.9 && r2.scores.compound == -0.9 && r3.scores.compound == 0.0
    requires r4.scores.compound == 0.5
    ensures Sort([r1, r2, r3, r4], CompoundKey, true) == [r1, r4, r3, r2]
  {
    DescendingFirstThree(r1, r2, r3);
    assert [r1, r3, r2] == [r1] + [r3, r2];
    SortStep([r1, r2, r3], r4, [r1], [r3, r2], true);
    assert [r1, r2, r3] + [r4] == [r1, r2, r3, r4];
    assert [r1] + [r4] + [r3, r2] == [r1, r4, r3, r2];
  }

  lemma DescendingFirstThree(r1: Row, r2: Row, r3: Row)
    requires r1.scores.compound == 0.9 && r2.scores.compound == -0.9 && r3.scores.compound == 0.0
    ensures Sort([r1, r2, r3], CompoundKey, true) == [r1, r3, r2]
  {
    SortStep([], r1, [], [], true);
    assert [] + [r1] == [r1] && [] + [r1] + [] == [r1] + [];
    SortStep([r1], r2, [r1], [], true);
    assert [r1] + [r2] == [r1, r2] && [r1] + [r2] + [] == [r1] + [r2];
    SortStep([r1, r2], r3, [r1], [r2], true);
    assert [r1, r2] + [r3] == [r1, r2, r3] && [r1] + [r3] + [r2] == [r1, r3, r2];
  }

  /** One step of the insertion sort on rows. */
  lemma SortStep(s: seq<Row>, x: Row, before: seq<Row>, after: seq<Row>, desc: bool)
    requires Sort(s, CompoundKey, desc) == before + after
    requires forall i :: 0 <= i < |before| ==> Precedes(before[i].scores.compound, x.scores.compound, desc)
    requires |after| > 0 ==> !Precedes(after[0].scores.compound, x.scores.compound, desc)
    ensures Sort(s + [x], CompoundKey, desc) == before + [x] + after
  {
    assert (s + [x])[..|s|] == s;
    InsertAt(x, before, after, CompoundKey, desc);
  }
}
