/**
 * One analysed date: both points' files run through the per-point analysis
 * with the same climate columns and the particulate columns of the P1 file,
 * and their status tables joined and bucketed per minute.
 */
module Daily {
  import opened Tables
  import opened Status
  import opened Point
  import opened Aggregation

  /** What the page shows for one date: each point's analysis and the per-minute table. */
  datatype DateReport = DateReport(p1: PointResult, p2: PointResult, minutes: seq<MinuteRow>)

  /**
   * The particulate columns are those of the P1 file; both files must have
   * the climate columns and those particulate columns (a missing one is a
   * KeyError in the source).
   */
  predicate Analysable(t1: Table, t2: Table)
  {
    && HasColumns(t1, ClimateColumns)
    && HasColumns(t2, ClimateColumns + ParticulateColumns(t1.columns))
  }

  /** The P1 file always has its own particulate columns. */
  lemma OwnColumns(t1: Table, t2: Table)
    requires Analysable(t1, t2)
    ensures HasColumns(t1, ClimateColumns + ParticulateColumns(t1.columns))
  {
  }

  /** The analysis of one date whose two files are both there. */
  function AnalyseDate(t1: Table, t2: Table, limit: real): DateReport
    requires Analysable(t1, t2)
  {
    var particulate := ParticulateColumns(t1.columns);
    OwnColumns(t1, t2);
    var r1 := AnalysePoint(t1, particulate, limit);
    var r2 := AnalysePoint(t2, particulate, limit);
    StatusTableStamps(t1, particulate, limit);
    StatusTableStamps(t2, particulate, limit);
    DateReport(r1, r2, Aggregate(r1.status, r2.status))
  }

  /** Unfolds the analysis of a date once, so that callers reason about the two status tables alone. */
  lemma DateIsAggregate(t1: Table, t2: Table, limit: real)
    requires Analysable(t1, t2)
    ensures var particulate := ParticulateColumns(t1.columns);
            var s1, s2 := StatusTable(t1, particulate, limit), StatusTable(t2, particulate, limit);
            var d := AnalyseDate(t1, t2, limit);
            && StrictlyIncreasing(s1) && StrictlyIncreasing(s2)
            && d.p1.status == s1 && d.p2.status == s2 && d.minutes == Aggregate(s1, s2)
  {
    var particulate := ParticulateColumns(t1.columns);
    StatusTableStamps(t1, particulate, limit);
    StatusTableStamps(t2, particulate, limit);
  }

  /** Every status row of a point's table counts one second. */
  lemma OneSecondEach(t: Table, particulate: seq<string>, limit: real)
    requires Rectangular(t)
    ensures var s := StatusTable(t, particulate, limit);
            forall i :: 0 <= i < |s| ==> s[i].status.hasDt == 1
  {
    forall i | 0 <= i < |StatusTable(t, particulate, limit)|
      ensures StatusTable(t, particulate, limit)[i].status.hasDt == 1
    {
      StatusTableRecord(t, particulate, limit, i);
    }
  }

  /**
   * Over the whole date, each point's per-minute `has_dt` adds up to its
   * number of distinct parsed timestamps (one status row each), and its
   * missing seconds to 60 per minute less that number.
   */
  lemma DateSecondsAccountedFor(t1: Table, t2: Table, limit: real)
    requires Analysable(t1, t2)
    ensures var d := AnalyseDate(t1, t2, limit);
            && BucketTotal(d.minutes, P1, HasDt) == |d.p1.status|
            && BucketTotal(d.minutes, P2, HasDt) == |d.p2.status|
            && MissingTotal(d.minutes, P1) == SecondsPerMinute * |d.minutes| - |d.p1.status|
            && MissingTotal(d.minutes, P2) == SecondsPerMinute * |d.minutes| - |d.p2.status|
  {
    var particulate := ParticulateColumns(t1.columns);
    var s1, s2 := StatusTable(t1, particulate, limit), StatusTable(t2, particulate, limit);
    DateIsAggregate(t1, t2, limit);
    OneSecondEach(t1, particulate, limit);
    OneSecondEach(t2, particulate, limit);
    SecondsAccountedFor(s1, s2);
  }

  /**
   * The minutes of a date run without a hole from the minute of the
   * earliest parsed timestamp of either file to that of the latest, and
   * there are none when neither file has a parsed timestamp.
   */
  lemma DateMinutesSpan(t1: Table, t2: Table, limit: real)
    requires Analysable(t1, t2)
    ensures var r := AnalyseDate(t1, t2, limit).minutes;
            && (|r| == 0 <==> forall x :: !ParsedAt(t1, x) && !ParsedAt(t2, x))
            && (forall k :: 0 <= k < |r| ==> r[k].minute == r[0].minute + k)
            && (forall x :: ParsedAt(t1, x) || ParsedAt(t2, x) ==>
                  |r| > 0 && r[0].minute <= MinuteOf(x) <= r[|r| - 1].minute)
  {
    var particulate := ParticulateColumns(t1.columns);
    var s1, s2 := StatusTable(t1, particulate, limit), StatusTable(t2, particulate, limit);
    DateIsAggregate(t1, t2, limit);
    StampsParsed(t1, particulate, limit);
    StampsParsed(t2, particulate, limit);
    AggregateSpan(s1, s2);
  }

  /** A point's status table has a row for a timestamp exactly when it parsed; it is empty only when none did. */
  lemma StampsParsed(t: Table, particulate: seq<string>, limit: real)
    requires Rectangular(t)
    ensures var s := StatusTable(t, particulate, limit);
            && (forall x :: HasStamp(s, x) <==> ParsedAt(t, x))
            && (|s| == 0 <==> forall x :: !ParsedAt(t, x))
  {
    var s := StatusTable(t, particulate, limit);
    StatusTableStamps(t, particulate, limit);
    if |s| > 0 {
      assert HasStamp(s, s[0].stamp) by { assert Keys(s)[0] == s[0].stamp; }
    }
  }

  /**
   * Minute `k` of a date: each point's `has_dt` is the number of its
   * distinct parsed timestamps in that minute, at most 60, and its missing
   * seconds are the rest of the minute.
   */
  lemma DateMinute(t1: Table, t2: Table, limit: real, k: nat)
    requires Analysable(t1, t2)
    requires k < |AnalyseDate(t1, t2, limit).minutes|
    ensures var d := AnalyseDate(t1, t2, limit);
            var r := d.minutes[k];
            && r.p1.hasDt == |StampedIn(d.p1.status, r.minute)| <= SecondsPerMinute
            && r.p2.hasDt == |StampedIn(d.p2.status, r.minute)| <= SecondsPerMinute
            && MissingOf(r, P1) == SecondsPerMinute - r.p1.hasDt
            && MissingOf(r, P2) == SecondsPerMinute - r.p2.hasDt
  {
    var particulate := ParticulateColumns(t1.columns);
    var s1, s2 := StatusTable(t1, particulate, limit), StatusTable(t2, particulate, limit);
    DateIsAggregate(t1, t2, limit);
    OneSecondEach(t1, particulate, limit);
    OneSecondEach(t2, particulate, limit);
    AggregateBuckets(s1, s2, k);
  }
}
