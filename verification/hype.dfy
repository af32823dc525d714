/**
 The hype metrics the bot reports: over the newest 50 stored rows, the mean
 sentiment score (rounded to three decimals), the number of rows used, and
 how many of them carry each label.
 */
module Hype {
  import opened Sentiment
  import opened MessageStore

  /** The number of newest rows the metrics look at. */
  const WindowSize: nat := 50

  /** `sentiment_breakdown` maps a label to its count and has no key for a
      label that does not occur. */
  datatype HypeMetrics = HypeMetrics(
    hypeScore: real,
    messageCount: nat,
    sentimentBreakdown: map<Label, nat>)

  function Sum(rows: seq<Row>): real
    decreases |rows|
  {
    if |rows| == 0 then 0.0 else rows[0].sentimentScore + Sum(rows[1..])
  }

  /** The arithmetic mean of the rows' sentiment scores. */
  function Mean(rows: seq<Row>): (r: real)
    requires |rows| > 0
    ensures r * (|rows| as real) == Sum(rows)
  {
    Sum(rows) / (|rows| as real)
  }

  function CountLabel(rows: seq<Row>, l: Label): nat
    decreases |rows|
  {
    if |rows| == 0 then 0
    else (if rows[0].sentimentLabel == l then 1 else 0) + CountLabel(rows[1..], l)
  }

  /** The labels that occur among the rows. */
  function LabelsIn(rows: seq<Row>): set<Label> {
    set i | 0 <= i < |rows| :: rows[i].sentimentLabel
  }

  /** A label is counted at least once exactly when some row carries it. */
  lemma {:induction false} CountPositiveIffPresent(rows: seq<Row>, l: Label)
    ensures CountLabel(rows, l) > 0 <==> l in LabelsIn(rows)
    decreases |rows|
  {
    if |rows| > 0 {
      CountPositiveIffPresent(rows[1..], l);
      assert LabelsIn(rows) == {rows[0].sentimentLabel} + LabelsIn(rows[1..]) by {
        forall x | x in LabelsIn(rows)
          ensures x in {rows[0].sentimentLabel} + LabelsIn(rows[1..])
        {
          var i :| 0 <= i < |rows| && rows[i].sentimentLabel == x;
          if i > 0 {
            assert rows[1..][i - 1].sentimentLabel == x;
          }
        }
        forall x | x in LabelsIn(rows[1..])
          ensures x in LabelsIn(rows)
        {
          var i :| 0 <= i < |rows[1..]| && rows[1..][i].sentimentLabel == x;
          assert rows[i + 1].sentimentLabel == x;
        }
      }
    } else {
      assert LabelsIn(rows) == {};
    }
  }

  /** Every row carries exactly one label, so the three counts add up to
      the number of rows. */
  lemma {:induction false} CountsCoverRows(rows: seq<Row>)
    ensures CountLabel(rows, Positive) + CountLabel(rows, Negative) + CountLabel(rows, Neutral) == |rows|
    decreases |rows|
  {
    if |rows| > 0 {
      CountsCoverRows(rows[1..]);
    }
  }

  /** pandas `value_counts().to_dict()` on the label column. */
  function Breakdown(rows: seq<Row>): (m: map<Label, nat>)
    ensures m.Keys == LabelsIn(rows)
    ensures forall l :: l in m ==> m[l] == CountLabel(rows, l)
  {
    CountPositiveIffPresent(rows, Positive);
    CountPositiveIffPresent(rows, Negative);
    CountPositiveIffPresent(rows, Neutral);
    var m := map l | l in {Positive, Negative, Neutral} && CountLabel(rows, l) > 0 :: CountLabel(rows, l);
    forall l | l in LabelsIn(rows)
      ensures l in m
    {
      assert l.Positive? || l.Negative? || l.Neutral?;
    }
    m
  }

  /** The count a breakdown gives a label; a missing key reads as zero. */
  function CountIn(m: map<Label, nat>, l: Label): nat {
    if l in m then m[l] else 0
  }

  function Total(m: map<Label, nat>): nat {
    CountIn(m, Positive) + CountIn(m, Negative) + CountIn(m, Neutral)
  }

  /** Python's `round(x, 3)` on the exact value: to the nearest multiple of
      0.001, with a tie going to the even multiple. */
  function Round3(x: real): (r: real)
    ensures -0.0005 <= r - x <= 0.0005
    ensures ((r * 1000.0).Floor as real) == r * 1000.0
    ensures (r - x == 0.0005 || x - r == 0.0005) ==> (r * 1000.0).Floor % 2 == 0
  {
    var y := x * 1000.0;
    var f := y.Floor;
    var d := y - f as real;
    var n := if d < 0.5 then f else if d > 0.5 then f + 1 else if f % 2 == 0 then f else f + 1;
    assert (n as real / 1000.0) * 1000.0 == n as real;
    n as real / 1000.0
  }

  /** A value already at three decimals is left alone by the rounding. */
  lemma Round3Exact(k: int)
    ensures Round3(k as real / 1000.0) == k as real / 1000.0
  {
    var x := k as real / 1000.0;
    assert x * 1000.0 == k as real;
    assert (x * 1000.0).Floor == k;
  }

  /** `get_hype_metrics` on the store. */
  function GetHypeMetrics(store: seq<Row>): (r: HypeMetrics)
    ensures |store| == 0 ==> r == HypeMetrics(0.0, 0, map[])
    ensures r.messageCount == Min(|store|, WindowSize)
    ensures r.sentimentBreakdown.Keys == LabelsIn(store[|store| - r.messageCount..])
    ensures forall l :: l in r.sentimentBreakdown ==>
      r.sentimentBreakdown[l] == CountLabel(store[|store| - r.messageCount..], l)
    ensures forall l :: l in r.sentimentBreakdown ==> r.sentimentBreakdown[l] > 0
    ensures Total(r.sentimentBreakdown) == r.messageCount
    ensures |store| > 0 ==>
      -0.0005 <= r.hypeScore - Mean(store[|store| - r.messageCount..]) <= 0.0005
  {
    if |store| == 0 then HypeMetrics(0.0, 0, map[])
    else
      var recent := Last(store, WindowSize);
      var breakdown := Breakdown(recent);
      CountsCoverRows(recent);
      CountPositiveIffPresent(recent, Positive);
      CountPositiveIffPresent(recent, Negative);
      CountPositiveIffPresent(recent, Neutral);
      HypeMetrics(Round3(Mean(recent)), |recent|, breakdown)
  }

  /** The sum of scores lies between `n` times a lower bound and `n` times an
      upper bound. */
  lemma {:induction false} SumBounds(rows: seq<Row>, lo: real, hi: real)
    requires forall i :: 0 <= i < |rows| ==> lo <= rows[i].sentimentScore <= hi
    ensures (|rows| as real) * lo <= Sum(rows) <= (|rows| as real) * hi
    decreases |rows|
  {
    if |rows| > 0 {
      assert lo <= rows[0].sentimentScore <= hi;
      SumBounds(rows[1..], lo, hi);
    }
  }

  /** The mean lies between any lower and upper bound of the scores, so
      between their minimum and maximum. */
  lemma MeanWithinScores(rows: seq<Row>, lo: real, hi: real)
    requires |rows| > 0
    requires forall i :: 0 <= i < |rows| ==> lo <= rows[i].sentimentScore <= hi
    ensures lo <= Mean(rows) <= hi
  {
    SumBounds(rows, lo, hi);
    var n := |rows| as real;
    assert (n * lo) / n == lo;
    assert (n * hi) / n == hi;
    assert Sum(rows) / n >= (n * lo) / n;
    assert Sum(rows) / n <= (n * hi) / n;
  }

  /** The metrics are a function of the newest 50 rows alone. */
  lemma MetricsDependOnWindowOnly(a: seq<Row>, b: seq<Row>)
    requires Last(a, WindowSize) == Last(b, WindowSize)
    ensures GetHypeMetrics(a) == GetHypeMetrics(b)
  {
    assert |a| == 0 <==> |b| == 0;
  }

  /** Rows older than the newest 50 have no effect on the metrics. */
  lemma OlderRowsIgnored(older: seq<Row>, recent: seq<Row>)
    requires |recent| >= WindowSize
    ensures GetHypeMetrics(older + recent) == GetHypeMetrics(recent)
  {
    LastOfSuffix(older, recent, WindowSize);
    MetricsDependOnWindowOnly(older + recent, recent);
  }

  /** Three messages scored 0.8, -0.2 and 0.0: hype 0.2 and one of each label. */
  lemma ThreeMessageExample(t: Instant, user: string, channel: string)
    ensures var store := [
        Row(t, user, "a", 0.8, LabelOf(0.8), channel),
        Row(t, user, "b", -0.2, LabelOf(-0.2), channel),
        Row(t, user, "c", 0.0, LabelOf(0.0), channel)];
      GetHypeMetrics(store) == HypeMetrics(0.2, 3, map[Positive := 1, Negative := 1, Neutral := 1])
  {
    var store := [
        Row(t, user, "a", 0.8, LabelOf(0.8), channel),
        Row(t, user, "b", -0.2, LabelOf(-0.2), channel),
        Row(t, user, "c", 0.0, LabelOf(0.0), channel)];
    assert Last(store, WindowSize) == store;
    var s1 := store[1..];
    var s2 := s1[1..];
    assert s2[1..] == [];
    assert Sum(s2) == 0.0;
    assert Sum(s1) == -0.2;
    assert Sum(store) == 0.6;
    assert Mean(store) == 0.2;
    Round3Exact(200);
    assert 200 as real / 1000.0 == 0.2;
    var m := Breakdown(store);
    assert CountLabel(s2, Neutral) == 1 && CountLabel(s2, Positive) == 0 && CountLabel(s2, Negative) == 0;
    assert CountLabel(s1, Neutral) == 1 && CountLabel(s1, Positive) == 0 && CountLabel(s1, Negative) == 1;
    assert CountLabel(store, Neutral) == 1 && CountLabel(store, Positive) == 1 && CountLabel(store, Negative) == 1;
    assert LabelsIn(store) == {Positive, Negative, Neutral} by {
      assert store[0].sentimentLabel == Positive;
      assert store[1].sentimentLabel == Negative;
      assert store[2].sentimentLabel == Neutral;
    }
    assert m == map[Positive := 1, Negative := 1, Neutral := 1];
  }
}
