/** The fold the four analyze loops share: per-label counters, a running
    compound total, and the summary built from them. */
module Aggregation {
  import opened Sentiment
  import opened Records

  /** The loop's running state: the three counters and the compound total. */
  datatype Tally = Tally(positive: nat, neutral: nat, negative: nat, total: real)

  const NoRows := Tally(0, 0, 0, 0.0)

  /** What one row adds: one to the counter of its label ("positive",
      "negative", anything else counting as neutral) and its compound. */
  function Contribution(row: Row): Tally {
    var l := row.scores.category;
    Tally(if l == Positive then 1 else 0,
          if l != Positive && l != Negative then 1 else 0,
          if l == Negative then 1 else 0,
          row.scores.compound)
  }

  function Plus(a: Tally, b: Tally): Tally {
    Tally(a.positive + b.positive, a.neutral + b.neutral, a.negative + b.negative, a.total + b.total)
  }

  /** The fold over rows in arrival order. */
  function Aggregate(rows: seq<Row>): Tally {
    if |rows| == 0 then NoRows else Plus(Aggregate(rows[..|rows| - 1]), Contribution(rows[|rows| - 1]))
  }

  /** Reference count: the number of rows carrying label `l`. */
  function CountLabel(rows: seq<Row>, l: Label): nat {
    if |rows| == 0 then 0 else (if rows[0].scores.category == l then 1 else 0) + CountLabel(rows[1..], l)
  }

  /** Reference sum of the rows' compound scores. */
  function SumCompound(rows: seq<Row>): real {
    if |rows| == 0 then 0.0 else rows[0].scores.compound + SumCompound(rows[1..])
  }

  /** Adding one row at the end adds its contribution. */
  lemma {:induction false} ReferenceSnoc(rows: seq<Row>, x: Row)
    ensures CountLabel(rows + [x], Positive) == CountLabel(rows, Positive) + (if x.scores.category == Positive then 1 else 0)
    ensures CountLabel(rows + [x], Neutral) == CountLabel(rows, Neutral) + (if x.scores.category == Neutral then 1 else 0)
    ensures CountLabel(rows + [x], Negative) == CountLabel(rows, Negative) + (if x.scores.category == Negative then 1 else 0)
    ensures SumCompound(rows + [x]) == SumCompound(rows) + x.scores.compound
  {
    if |rows| > 0 {
      assert (rows + [x])[1..] == rows[1..] + [x];
      ReferenceSnoc(rows[1..], x);
    } else {
      assert rows + [x] == [x];
    }
  }

  /** The fold's counters are the label counts and its total is the sum of
      the compound scores. */
  lemma {:induction false} AggregateCounts(rows: seq<Row>)
    ensures Aggregate(rows).positive == CountLabel(rows, Positive)
    ensures Aggregate(rows).neutral == CountLabel(rows, Neutral)
    ensures Aggregate(rows).negative == CountLabel(rows, Negative)
    ensures Aggregate(rows).total == SumCompound(rows)
    ensures Aggregate(rows).positive + Aggregate(rows).neutral + Aggregate(rows).negative == |rows|
  {
    if |rows| > 0 {
      var init := rows[..|rows| - 1];
      AggregateCounts(init);
      ReferenceSnoc(init, rows[|rows| - 1]);
      assert init + [rows[|rows| - 1]] == rows;
    }
  }

  lemma PlusAssociative(p: Tally, q: Tally, r: Tally)
    ensures Plus(Plus(p, q), r) == Plus(p, Plus(q, r))
  {
  }

  lemma PlusSwap(p: Tally, q: Tally, r: Tally)
    ensures Plus(Plus(p, q), r) == Plus(Plus(p, r), q)
  {
  }

  /** Folding a concatenation combines the two folds. */
  lemma {:induction false} AggregateAppend(a: seq<Row>, b: seq<Row>)
    ensures Aggregate(a + b) == Plus(Aggregate(a), Aggregate(b))
    decreases |b|
  {
    if |b| == 0 {
      assert a + b == a;
      assert Aggregate(b) == NoRows;
    } else {
      var b' := b[..|b| - 1];
      var x := b[|b| - 1];
      assert (a + b)[..|a + b| - 1] == a + b';
      assert (a + b)[|a + b| - 1] == x;
      AggregateAppend(a, b');
      calc {
        Aggregate(a + b);
        Plus(Aggregate(a + b'), Contribution(x));
        Plus(Plus(Aggregate(a), Aggregate(b')), Contribution(x));
        { PlusAssociative(Aggregate(a), Aggregate(b'), Contribution(x)); }
        Plus(Aggregate(a), Plus(Aggregate(b'), Contribution(x)));
        Plus(Aggregate(a), Aggregate(b));
      }
    }
  }

  /** Folding a row in the middle is folding it last. */
  lemma AggregateMiddle(b1: seq<Row>, x: Row, b2: seq<Row>)
    ensures Aggregate(b1 + [x] + b2) == Plus(Aggregate(b1 + b2), Contribution(x))
  {
    var t1, t2, c := Aggregate(b1), Aggregate(b2), Contribution(x);
    calc {
      Aggregate(b1 + [x] + b2);
      { AggregateAppend(b1 + [x], b2); }
      Plus(Aggregate(b1 + [x]), t2);
      { AggregateSnoc(b1, x); }
      Plus(Plus(t1, c), t2);
      { PlusSwap(t1, c, t2); }
      Plus(Plus(t1, t2), c);
      { AggregateAppend(b1, b2); }
      Plus(Aggregate(b1 + b2), c);
    }
  }

  /** Taking the same row out of two permutations leaves permutations. */
  lemma RemoveOne(a: seq<Row>, x: Row, b1: seq<Row>, b2: seq<Row>)
    requires multiset(a + [x]) == multiset(b1 + [x] + b2)
    ensures multiset(a) == multiset(b1 + b2)
  {
    calc {
      multiset(a);
      multiset(a + [x]) - multiset{x};
      multiset(b1 + [x] + b2) - multiset{x};
      multiset(b1) + multiset{x} + multiset(b2) - multiset{x};
      multiset(b1) + multiset(b2);
      multiset(b1 + b2);
    }
  }

  /** The fold does not depend on the order of the rows. */
  lemma {:induction false} AggregatePermutation(a: seq<Row>, b: seq<Row>)
    requires multiset(a) == multiset(b)
    ensures Aggregate(a) == Aggregate(b)
    decreases |a|
  {
    if |a| == 0 {
      assert |b| == |multiset(b)| == 0;
    } else {
      var x := a[|a| - 1];
      var a' := a[..|a| - 1];
      assert a == a' + [x];
      assert x in multiset(b);
      var i :| 0 <= i < |b| && b[i] == x;
      var b1, b2 := b[..i], b[i + 1..];
      assert b == b1 + [x] + b2;
      RemoveOne(a', x, b1, b2);
      AggregatePermutation(a', b1 + b2);
      AggregateSnoc(a', x);
      AggregateMiddle(b1, x, b2);
    }
  }

  /** The summary dictionary. `avgCompound` is after rounding to four places. */
  datatype Summary = Summary(count: nat, avgCompound: real, positive: nat, neutral: nat, negative: nat)

  /** Rounding to four decimal places; left abstract. */
  type Rounding = real -> real

  /** The average's denominator: the number of rows, or 1 when there are none. */
  function Denominator(count: nat): (d: real)
    ensures count == 0 ==> d == 1.0
    ensures count > 0 ==> d == count as real
  {
    if count == 0 then 1.0 else count as real
  }

  /** The summary of a run: count, counters and the rounded average. */
  function Summarize(rows: seq<Row>, round4: Rounding): (s: Summary)
    ensures s.count == |rows|
    ensures s.positive == CountLabel(rows, Positive)
    ensures s.neutral == CountLabel(rows, Neutral)
    ensures s.negative == CountLabel(rows, Negative)
    ensures s.positive + s.neutral + s.negative == s.count
    ensures s.avgCompound == round4(SumCompound(rows) / Denominator(|rows|))
    ensures |rows| == 0 ==> s == Summary(0, round4(0.0), 0, 0, 0)
  {
    var t := Aggregate(rows);
    AggregateCounts(rows);
    Summary(|rows|, round4(t.total / Denominator(|rows|)), t.positive, t.neutral, t.negative)
  }

  /** Reordering the rows leaves the summary unchanged. */
  lemma SummarizePermutation(a: seq<Row>, b: seq<Row>, round4: Rounding)
    requires multiset(a) == multiset(b)
    ensures Summarize(a, round4) == Summarize(b, round4)
  {
    AggregatePermutation(a, b);
    assert |a| == |multiset(a)| == |multiset(b)| == |b|;
  }

  /** Appending a row adds its contribution to the fold. */
  lemma AggregateSnoc(rows: seq<Row>, row: Row)
    ensures Aggregate(rows + [row]) == Plus(Aggregate(rows), Contribution(row))
  {
    assert (rows + [row])[..|rows|] == rows;
  }

  /** The rows a front-end builds, one per item, in arrival order. */
  function BuildRows<T>(build: T -> Row, items: seq<T>): (rows: seq<Row>)
    ensures |rows| == |items|
  {
    if |items| == 0 then [] else BuildRows(build, items[..|items| - 1]) + [build(items[|items| - 1])]
  }

  /** Row `i` is built from item `i`. */
  lemma {:induction false} BuildRowsAt<T>(build: T -> Row, items: seq<T>, i: nat)
    requires i < |items|
    ensures BuildRows(build, items)[i] == build(items[i])
  {
    if i < |items| - 1 {
      BuildRowsAt(build, items[..|items| - 1], i);
    }
  }

  /** The loop of analyze_posts, analyze_comments, analyze_query and
      analyze_user: build each item's row, count its label ("positive",
      "negative", anything else neutral), add its compound, append it; then
      the summary with the average over the row count (1 for no rows). */
  method AnalyzeItems<T>(build: T -> Row, items: seq<T>, round4: Rounding) returns (rows: seq<Row>, summary: Summary)
    ensures rows == BuildRows(build, items)
    ensures summary == Summarize(rows, round4)
  {
    rows := [];
    var pos, neu, neg := 0, 0, 0;
    var total := 0.0;
    var i := 0;
    while i < |items|
      invariant i <= |items|
      invariant rows == BuildRows(build, items[..i])
      invariant pos == CountLabel(rows, Positive) && neu == CountLabel(rows, Neutral) && neg == CountLabel(rows, Negative)
      invariant total == SumCompound(rows)
    {
      var row := build(items[i]);
      ReferenceSnoc(rows, row);
      total := total + row.scores.compound;
      if row.scores.category == Positive {
        pos := pos + 1;
      } else if row.scores.category == Negative {
        neg := neg + 1;
      } else {
        neu := neu + 1;
      }
      assert items[..i + 1][..i] == items[..i];
      rows := rows + [row];
      i := i + 1;
    }
    assert items[..i] == items;
    summary := Summary(|rows|, round4(total / Denominator(|rows|)), pos, neu, neg);
  }
}
