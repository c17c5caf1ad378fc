/**
 * The per-point analysis (`get_analysis_data`): drop rows whose timestamp
 * did not parse, sort by timestamp, report the largest gap, flag PM2.5
 * spikes on the de-nulled view of the monitored column, join the flags back
 * by timestamp, build one status row per row and collapse them by exact
 * timestamp.
 */
module Point {
  import opened Wrappers
  import opened Filters
  import opened Tables
  import opened Gaps
  import opened Spikes
  import opened Status

  /** What the analysis of one point returns: its status table, gap report, error count and error report. */
  datatype PointResult = PointResult(status: seq<Stamped>, gap: GapReport, totalErrors: nat, errorInfo: ErrorReport)

  /** The records with a non-null value in column `c`, in order (`df[['datetime', c]].dropna()`). */
  function PmSeries(rows: seq<Record>, c: string): (pm: seq<PmPoint>)
    requires forall k :: 0 <= k < |rows| ==> c in rows[k].cells
    ensures |pm| <= |rows|
  {
    if |rows| == 0 then []
    else
      var rest := PmSeries(rows[1..], c);
      match rows[0].cells[c]
      case None => rest
      case Some(x) => [PmPoint(rows[0].stamp, x)] + rest
  }

  /** Each reading of the series is the non-null value of some record, with that record's timestamp. */
  lemma {:induction false} PmSeriesOrigin(rows: seq<Record>, c: string, k: nat)
    requires forall k :: 0 <= k < |rows| ==> c in rows[k].cells
    requires k < |PmSeries(rows, c)|
    ensures exists i :: 0 <= i < |rows| && rows[i].stamp == PmSeries(rows, c)[k].stamp &&
                        rows[i].cells[c] == Some(PmSeries(rows, c)[k].value)
  {
    var pm := PmSeries(rows, c);
    var rest := PmSeries(rows[1..], c);
    if rows[0].cells[c].Some? && k == 0 {
      assert rows[0].stamp == pm[0].stamp && rows[0].cells[c] == Some(pm[0].value);
    } else {
      var k' := if rows[0].cells[c].Some? then k - 1 else k;
      assert pm[k] == rest[k'];
      PmSeriesOrigin(rows[1..], c, k');
      var i :| 0 <= i < |rows[1..]| && rows[1..][i].stamp == rest[k'].stamp && rows[1..][i].cells[c] == Some(rest[k'].value);
      assert rows[i + 1] == rows[1..][i];
    }
  }

  /** Every non-null value of the column is a reading of the series. */
  lemma {:induction false} PmSeriesComplete(rows: seq<Record>, c: string, i: nat)
    requires forall k :: 0 <= k < |rows| ==> c in rows[k].cells
    requires i < |rows| && rows[i].cells[c].Some?
    ensures PmPoint(rows[i].stamp, rows[i].cells[c].value) in PmSeries(rows, c)
  {
    if i > 0 {
      assert rows[1..][i - 1] == rows[i];
      PmSeriesComplete(rows[1..], c, i - 1);
    }
  }

  /** Which records have a non-null value in column `c`. */
  function ReadingMask(rows: seq<Record>, c: string): (m: seq<bool>)
    requires forall k :: 0 <= k < |rows| ==> c in rows[k].cells
    ensures |m| == |rows| && forall i :: 0 <= i < |rows| ==> (m[i] <==> rows[i].cells[c].Some?)
  {
    seq(|rows|, i requires 0 <= i < |rows| => rows[i].cells[c].Some?)
  }

  /** The series of a non-empty sequence of records: the first one's reading, if any, then the rest. */
  lemma PmSeriesCons(rows: seq<Record>, c: string)
    requires forall k :: 0 <= k < |rows| ==> c in rows[k].cells
    requires |rows| > 0
    ensures PmSeries(rows, c) == (if rows[0].cells[c].Some? then [PmPoint(rows[0].stamp, rows[0].cells[c].value)] else [])
                                 + PmSeries(rows[1..], c)
  {
  }

  /** The readings of the records at positions `p`, in the order of `p`; a position without a reading adds nothing. */
  function ReadingsAt(rows: seq<Record>, c: string, p: seq<nat>): seq<PmPoint>
  {
    if |p| == 0 then []
    else
      var rest := ReadingsAt(rows, c, p[1..]);
      if p[0] < |rows| && c in rows[p[0]].cells && rows[p[0]].cells[c].Some? then
        [PmPoint(rows[p[0]].stamp, rows[p[0]].cells[c].value)] + rest
      else rest
  }

  /** Element `k` of `ReadingsAt` is the reading of the record at the `k`-th position. */
  lemma {:induction false} ReadingsAtIndex(rows: seq<Record>, c: string, p: seq<nat>)
    requires forall k :: 0 <= k < |p| ==> p[k] < |rows| && c in rows[p[k]].cells && rows[p[k]].cells[c].Some?
    ensures |ReadingsAt(rows, c, p)| == |p|
    ensures forall k :: 0 <= k < |p| ==> ReadingsAt(rows, c, p)[k] == PmPoint(rows[p[k]].stamp, rows[p[k]].cells[c].value)
  {
    if |p| > 0 {
      ReadingsAtIndex(rows, c, p[1..]);
    }
  }

  /** The series from position `from` on is the readings at the non-null positions from `from` on. */
  lemma {:induction false} PmSeriesFrom(rows: seq<Record>, c: string, from: nat)
    requires forall k :: 0 <= k < |rows| ==> c in rows[k].cells
    requires from <= |rows|
    decreases |rows| - from
    ensures PmSeries(rows[from..], c) == ReadingsAt(rows, c, Positions(ReadingMask(rows, c), from))
  {
    if from < |rows| {
      var mask := ReadingMask(rows, c);
      var p, p' := Positions(mask, from), Positions(mask, from + 1);
      var q := rows[from..];
      assert q[0] == rows[from] && q[1..] == rows[from + 1..];
      PmSeriesFrom(rows, c, from + 1);
      PmSeriesCons(q, c);
      if mask[from] {
        assert p == [from] + p' && p[1..] == p';
      } else {
        assert p == p';
      }
    }
  }

  /**
   * `df[['datetime', c]].dropna()`: the series is the non-null readings of
   * the column, each once, in record order, with their records' timestamps.
   */
  lemma PmSeriesIsFilter(rows: seq<Record>, c: string)
    requires forall k :: 0 <= k < |rows| ==> c in rows[k].cells
    ensures var p := Positions(ReadingMask(rows, c), 0);
            var pm := PmSeries(rows, c);
            && |pm| == |p|
            && forall k :: 0 <= k < |p| ==> pm[k] == PmPoint(rows[p[k]].stamp, rows[p[k]].cells[c].value)
  {
    PmSeriesFrom(rows, c, 0);
    assert rows[0..] == rows;
    ReadingsAtIndex(rows, c, Positions(ReadingMask(rows, c), 0));
  }

  /** The de-nulled view of the monitored column of a table, empty when there is no such column. */
  function PmSeriesOf(t: Table): seq<PmPoint>
    requires Rectangular(t)
  {
    match PmColumn(t.columns)
    case None => []
    case Some(c) =>
      PreparedCells(t);
      PmSeries(Prepared(t), c)
  }

  /** The flag joined to a row stamped `t`: some reading stamped `t` is an error. */
  predicate FlaggedAt(pm: seq<PmPoint>, flags: seq<bool>, t: int)
    requires |flags| == |pm|
  {
    exists j | 0 <= j < |pm| :: pm[j].stamp == t && flags[j]
  }

  /** One status row per record. */
  function StatusRows(rows: seq<Record>, particulate: seq<string>, pm: seq<PmPoint>, flags: seq<bool>): (s: seq<Stamped>)
    requires |flags| == |pm|
    ensures |s| == |rows|
    ensures forall k :: 0 <= k < |rows| ==> s[k].stamp == rows[k].stamp
    ensures forall k :: 0 <= k < |rows| ==>
              s[k].status == RowStatus(AnyReading(rows[k].cells, ClimateColumns),
                                       AnyReading(rows[k].cells, particulate),
                                       FlaggedAt(pm, flags, rows[k].stamp))
    ensures SortedByStamp(rows) ==> NonDecreasing(s)
  {
    seq(|rows|, k requires 0 <= k < |rows| =>
      Stamped(rows[k].stamp, RowStatus(AnyReading(rows[k].cells, ClimateColumns),
                                       AnyReading(rows[k].cells, particulate),
                                       FlaggedAt(pm, flags, rows[k].stamp))))
  }

  /** The spike flags of the monitored column's non-null readings. */
  function FlagsOf(t: Table, limit: real): (f: seq<bool>)
    requires Rectangular(t)
    ensures |f| == |PmSeriesOf(t)|
  {
    Flags(Values(PmSeriesOf(t)), limit)
  }

  /** The status rows of the table before the collapse: one per parsed row, in timestamp order. */
  function RowsOf(t: Table, particulate: seq<string>, limit: real): (s: seq<Stamped>)
    requires Rectangular(t)
    ensures NonDecreasing(s)
  {
    StatusRows(Prepared(t), particulate, PmSeriesOf(t), FlagsOf(t, limit))
  }

  /** The status table: the row-wise status rows collapsed by exact timestamp. */
  function StatusTable(t: Table, particulate: seq<string>, limit: real): seq<Stamped>
    requires Rectangular(t)
  {
    GroupByStamp(RowsOf(t, particulate, limit))
  }

  /** The largest gap between consecutive parsed timestamps, in timestamp order. */
  function GapOf(t: Table): GapReport
  {
    LargestGap(Stamps(Prepared(t)))
  }

  /** The number of flagged readings. */
  function ErrorCount(t: Table, limit: real): nat
    requires Rectangular(t)
  {
    CountTrue(FlagsOf(t, limit))
  }

  /** The error report on the flagged readings. */
  function ErrorInfo(t: Table, limit: real): ErrorReport
    requires Rectangular(t)
  {
    Report(PmSeriesOf(t), FlagsOf(t, limit))
  }

  /**
   * `get_analysis_data`.  The particulate columns come from the caller; the
   * table must have them and the climate columns (selecting a missing column
   * is a KeyError in the source).  Without a monitored column the series is
   * empty, so there are no flags, the count is 0 and the report says there is
   * no anomaly, as the source's early branch sets them (NoPmColumnNoErrors).
   */
  function AnalysePoint(t: Table, particulate: seq<string>, limit: real): (r: PointResult)
    requires HasColumns(t, ClimateColumns + particulate)
  {
    PointResult(StatusTable(t, particulate, limit), GapOf(t), ErrorCount(t, limit), ErrorInfo(t, limit))
  }

  // ---------------------------------------------------------------------
  // What the analysis promises
  // ---------------------------------------------------------------------

  /** Some row of the table carries the parsed timestamp `x`. */
  predicate ParsedAt(t: Table, x: int)
  {
    exists i :: 0 <= i < |t.rows| && t.rows[i].stamp == Some(x)
  }

  /**
   * The sensor behind field `f` reported on a row: `has_dt` for every row,
   * `has_dht` for a temperature or humidity reading, `has_piera` for a
   * particulate reading, `both_up` for both on the same row.  `pm_error` is
   * not a property of one row's cells.
   */
  predicate Reports(particulate: seq<string>, cells: Cells, f: Field)
  {
    match f
    case HasDt => true
    case HasDht => AnyReading(cells, ClimateColumns)
    case HasPiera => AnyReading(cells, particulate)
    case BothUp => AnyReading(cells, ClimateColumns) && AnyReading(cells, particulate)
    case PmError => false
  }

  /** Some row of the table with parsed timestamp `x` has the reading behind field `f`. */
  predicate ReportedAt(t: Table, particulate: seq<string>, x: int, f: Field)
  {
    exists i :: 0 <= i < |t.rows| && t.rows[i].stamp == Some(x) && Reports(particulate, t.rows[i].cells, f)
  }

  /** Some non-null reading of the monitored column stamped `x` is flagged as an error. */
  predicate ErrorAt(t: Table, limit: real, x: int)
    requires Rectangular(t)
  {
    FlaggedAt(PmSeriesOf(t), FlagsOf(t, limit), x)
  }

  /** Parsing and sorting neither add nor lose a row with a given timestamp and reading. */
  lemma PreparedReportedAt(t: Table, particulate: seq<string>, x: int, f: Field)
    ensures (exists k :: 0 <= k < |Prepared(t)| && Prepared(t)[k].stamp == x &&
                         Reports(particulate, Prepared(t)[k].cells, f))
            <==> ReportedAt(t, particulate, x, f)
  {
    var rows := Prepared(t);
    PreparedRows(t);
    if exists k :: 0 <= k < |rows| && rows[k].stamp == x && Reports(particulate, rows[k].cells, f) {
      var k :| 0 <= k < |rows| && rows[k].stamp == x && Reports(particulate, rows[k].cells, f);
      assert RawRow(Some(rows[k].stamp), rows[k].cells) in t.rows;
    }
    if ReportedAt(t, particulate, x, f) {
      var i :| 0 <= i < |t.rows| && t.rows[i].stamp == Some(x) && Reports(particulate, t.rows[i].cells, f);
      assert Record(x, t.rows[i].cells) in rows;
    }
  }

  /** What each status row says about the record it came from, before the collapse. */
  lemma RowsOfFacts(t: Table, particulate: seq<string>, limit: real)
    requires Rectangular(t)
    ensures |RowsOf(t, particulate, limit)| == |Prepared(t)|
    ensures forall i :: 0 <= i < |Prepared(t)| ==>
              var e := RowsOf(t, particulate, limit)[i];
              && e.stamp == Prepared(t)[i].stamp
              && IsFlagRecord(e.status) && e.status.hasDt == 1
              && (e.status.pmError == 1 <==> ErrorAt(t, limit, e.stamp))
    ensures forall i, f :: 0 <= i < |Prepared(t)| && f != PmError ==>
              (Get(RowsOf(t, particulate, limit)[i].status, f) == 1 <==> Reports(particulate, Prepared(t)[i].cells, f))
  {
  }

  /**
   * After the collapse there is exactly one status row per distinct parsed
   * timestamp, in ascending order; rows whose timestamp did not parse leave
   * no trace.
   */
  lemma StatusTableStamps(t: Table, particulate: seq<string>, limit: real)
    requires Rectangular(t)
    ensures StrictlyIncreasing(StatusTable(t, particulate, limit))
    ensures forall x :: x in Keys(StatusTable(t, particulate, limit)) <==> ParsedAt(t, x)
  {
    var s := RowsOf(t, particulate, limit);
    RowsOfFacts(t, particulate, limit);
    forall x ensures x in Keys(s) <==> ParsedAt(t, x) {
      PreparedReportedAt(t, particulate, x, HasDt);
      assert x in Keys(s) <==> exists k :: 0 <= k < |s| && s[k].stamp == x;
    }
  }

  /** Every collapsed status row is a 0/1 record whose `has_dt` is 1. */
  lemma StatusTableRecord(t: Table, particulate: seq<string>, limit: real, k: nat)
    requires Rectangular(t)
    requires k < |StatusTable(t, particulate, limit)|
    ensures IsFlagRecord(StatusTable(t, particulate, limit)[k].status)
    ensures StatusTable(t, particulate, limit)[k].status.hasDt == 1
  {
    RowsOfFacts(t, particulate, limit);
    GroupedFlagRecord(RowsOf(t, particulate, limit), k, HasDt);
  }

  /**
   * `has_dht`, `has_piera` and `both_up` of a collapsed row are 1 iff some
   * row with its timestamp has the reading behind the field; for `both_up`
   * that is a single row with both readings (the maximum of per-row
   * conjunctions, not the conjunction of the two maxima).
   */
  lemma StatusTableSensors(t: Table, particulate: seq<string>, limit: real, k: nat, f: Field)
    requires Rectangular(t)
    requires k < |StatusTable(t, particulate, limit)|
    requires f != PmError
    ensures Get(StatusTable(t, particulate, limit)[k].status, f) == 1 <==>
            ReportedAt(t, particulate, StatusTable(t, particulate, limit)[k].stamp, f)
  {
    var s := RowsOf(t, particulate, limit);
    var rows := Prepared(t);
    var x := GroupByStamp(s)[k].stamp;
    RowsOfFacts(t, particulate, limit);
    GroupedExists(s, k, f);
    PreparedReportedAt(t, particulate, x, f);
    if exists i :: 0 <= i < |s| && s[i].stamp == x && Get(s[i].status, f) == 1 {
      var i :| 0 <= i < |s| && s[i].stamp == x && Get(s[i].status, f) == 1;
      assert rows[i].stamp == x && Reports(particulate, rows[i].cells, f);
    }
    if exists i :: 0 <= i < |rows| && rows[i].stamp == x && Reports(particulate, rows[i].cells, f) {
      var i :| 0 <= i < |rows| && rows[i].stamp == x && Reports(particulate, rows[i].cells, f);
      assert s[i].stamp == x && Get(s[i].status, f) == 1;
    }
  }

  /**
   * `pm_error` of a collapsed row is 1 iff some non-null PM2.5 reading with
   * its timestamp was flagged: the join by timestamp followed by the maximum
   * makes the flag of one reading mark every row that shares its timestamp.
   */
  lemma StatusTableError(t: Table, particulate: seq<string>, limit: real, k: nat)
    requires Rectangular(t)
    requires k < |StatusTable(t, particulate, limit)|
    ensures StatusTable(t, particulate, limit)[k].status.pmError == 1 <==>
            ErrorAt(t, limit, StatusTable(t, particulate, limit)[k].stamp)
  {
    var s := RowsOf(t, particulate, limit);
    var x := GroupByStamp(s)[k].stamp;
    RowsOfFacts(t, particulate, limit);
    GroupedExists(s, k, PmError);
    if exists i :: 0 <= i < |s| && s[i].stamp == x && Get(s[i].status, PmError) == 1 {
      var i :| 0 <= i < |s| && s[i].stamp == x && Get(s[i].status, PmError) == 1;
      assert ErrorAt(t, limit, s[i].stamp);
    }
    if ErrorAt(t, limit, x) {
      assert x in Keys(s);
      var i :| 0 <= i < |s| && Keys(s)[i] == x;
      assert s[i].stamp == x && Get(s[i].status, PmError) == 1;
    }
  }

  /** The monitored column's reading `j` of a table, and the record it comes from. */
  lemma ReadingOrigin(t: Table, j: nat)
    requires Rectangular(t)
    requires j < |PmSeriesOf(t)|
    ensures PmColumn(t.columns).Some?
    ensures exists m :: 0 <= m < |Prepared(t)| && Prepared(t)[m].stamp == PmSeriesOf(t)[j].stamp &&
                        PmColumn(t.columns).value in Prepared(t)[m].cells &&
                        Prepared(t)[m].cells[PmColumn(t.columns).value] == Some(PmSeriesOf(t)[j].value)
  {
    assert PmColumn(t.columns).Some?;
    var c := PmColumn(t.columns).value;
    var rows := Prepared(t);
    PreparedCells(t);
    var pm := PmSeries(rows, c);
    assert PmSeriesOf(t) == pm;
    PmSeriesOrigin(rows, c, j);
    var m :| 0 <= m < |rows| && rows[m].stamp == pm[j].stamp && rows[m].cells[c] == Some(pm[j].value);
    assert c in rows[m].cells;
  }

  /**
   * Only real readings are ever flagged: an error at `x` needs a monitored
   * column and a row stamped `x` with a non-null value in it.
   */
  lemma FlaggedNeedsReading(t: Table, limit: real, x: int)
    requires Rectangular(t)
    requires ErrorAt(t, limit, x)
    ensures PmColumn(t.columns).Some?
    ensures exists i :: 0 <= i < |t.rows| && t.rows[i].stamp == Some(x) &&
                        PmColumn(t.columns).value in t.rows[i].cells &&
                        t.rows[i].cells[PmColumn(t.columns).value].Some?
  {
    var pm := PmSeriesOf(t);
    var j :| 0 <= j < |pm| && pm[j].stamp == x && FlagsOf(t, limit)[j];
    ReadingOrigin(t, j);
    var c := PmColumn(t.columns).value;
    var rows := Prepared(t);
    var m :| 0 <= m < |rows| && rows[m].stamp == x && c in rows[m].cells && rows[m].cells[c] == Some(pm[j].value);
    PreparedOrigin(t, m);
    var i :| 0 <= i < |t.rows| && t.rows[i] == RawRow(Some(x), rows[m].cells);
    assert t.rows[i].stamp == Some(x) && t.rows[i].cells[c].Some?;
  }

  /** A flagged reading's timestamp is a row of the status table, and that row has `pm_error` 1. */
  lemma FlaggedReadingInTable(t: Table, particulate: seq<string>, limit: real, j: nat)
    requires Rectangular(t)
    requires j < |PmSeriesOf(t)| && FlagsOf(t, limit)[j]
    ensures exists k :: 0 <= k < |StatusTable(t, particulate, limit)| &&
              StatusTable(t, particulate, limit)[k].stamp == PmSeriesOf(t)[j].stamp &&
              StatusTable(t, particulate, limit)[k].status.pmError == 1
  {
    var x := PmSeriesOf(t)[j].stamp;
    ReadingOrigin(t, j);
    PreparedReportedAt(t, particulate, x, HasDt);
    StatusTableStamps(t, particulate, limit);
    var status := StatusTable(t, particulate, limit);
    assert x in Keys(status);
    var k :| 0 <= k < |status| && Keys(status)[k] == x;
    StatusTableError(t, particulate, limit, k);
  }

  /**
   * The error count and the error report agree: the count is at most the
   * number of non-null readings; it is zero exactly when the report says
   * there is no anomaly; otherwise the report carries the same count.
   */
  lemma ErrorReportAgrees(t: Table, limit: real)
    requires Rectangular(t)
    ensures ErrorCount(t, limit) <= |PmSeriesOf(t)|
    ensures ErrorCount(t, limit) == 0 <==> ErrorInfo(t, limit).NoAnomaly?
    ensures ErrorInfo(t, limit).Found? ==> ErrorInfo(t, limit).count == ErrorCount(t, limit)
  {
    var flags := FlagsOf(t, limit);
    assert ErrorCount(t, limit) == CountTrue(flags);
    assert ErrorInfo(t, limit) == Report(PmSeriesOf(t), flags);
  }

  /** With no flagged reading, no status row has `pm_error` set. */
  lemma NoErrorNoFlag(t: Table, particulate: seq<string>, limit: real, k: nat)
    requires Rectangular(t)
    requires ErrorCount(t, limit) == 0
    requires k < |StatusTable(t, particulate, limit)|
    ensures StatusTable(t, particulate, limit)[k].status.pmError == 0
  {
    var pm, flags := PmSeriesOf(t), FlagsOf(t, limit);
    assert CountTrue(flags) == 0;
    var e := StatusTable(t, particulate, limit)[k];
    assert !FlaggedAt(pm, flags, e.stamp);
    StatusTableRecord(t, particulate, limit, k);
    StatusTableError(t, particulate, limit, k);
    assert Get(e.status, PmError) == e.status.pmError;
  }

  /** The error count is zero exactly when no status row has `pm_error` set. */
  lemma ErrorColumnAgrees(t: Table, particulate: seq<string>, limit: real)
    requires Rectangular(t)
    ensures ErrorCount(t, limit) == 0 <==>
            forall k :: 0 <= k < |StatusTable(t, particulate, limit)| ==>
              StatusTable(t, particulate, limit)[k].status.pmError == 0
  {
    var flags := FlagsOf(t, limit);
    if ErrorCount(t, limit) != 0 {
      var j :| 0 <= j < |flags| && flags[j];
      FlaggedReadingInTable(t, particulate, limit, j);
    } else {
      forall k | 0 <= k < |StatusTable(t, particulate, limit)|
        ensures StatusTable(t, particulate, limit)[k].status.pmError == 0
      {
        NoErrorNoFlag(t, particulate, limit, k);
      }
    }
  }

  /** Without a monitored column nothing is an error and the report says there is no anomaly. */
  lemma NoPmColumnNoErrors(t: Table, particulate: seq<string>, limit: real)
    requires HasColumns(t, ClimateColumns + particulate)
    requires PmColumn(t.columns).None?
    ensures var r := AnalysePoint(t, particulate, limit);
            && r.totalErrors == 0 && r.errorInfo == NoAnomaly
            && forall k :: 0 <= k < |r.status| ==> r.status[k].status.pmError == 0
  {
    ErrorReportAgrees(t, limit);
    ErrorColumnAgrees(t, particulate, limit);
  }

  /** A table none of whose timestamps parse gives an empty status table, no gap and no errors. */
  lemma NothingParsed(t: Table, particulate: seq<string>, limit: real)
    requires HasColumns(t, ClimateColumns + particulate)
    requires forall i :: 0 <= i < |t.rows| ==> t.rows[i].stamp.None?
    ensures AnalysePoint(t, particulate, limit) == PointResult([], NoGap, 0, NoAnomaly)
  {
    if |Prepared(t)| > 0 {
      PreparedOrigin(t, 0);
    }
    assert FlagsOf(t, limit) == [];
  }

  /** In records sorted by timestamp, no timestamp lies strictly between two neighbours. */
  lemma NoneBetweenNeighbours(rows: seq<Record>, k: nat, m: nat)
    requires SortedByStamp(rows)
    requires 1 <= k < |rows| && m < |rows|
    ensures rows[m].stamp <= rows[k - 1].stamp || rows[k].stamp <= rows[m].stamp
  {
    if m < k {
      assert m == k - 1 || rows[m].stamp <= rows[k - 1].stamp;
    } else {
      assert m == k || rows[k].stamp <= rows[m].stamp;
    }
  }

  /**
   * The reported gap lies between two parsed timestamps with no parsed
   * timestamp strictly between them.
   */
  lemma GapBetweenNeighbours(t: Table)
    ensures GapOf(t).Gap? ==>
              && ParsedAt(t, GapOf(t).start) && ParsedAt(t, GapOf(t).end)
              && GapOf(t).end - GapOf(t).start == GapOf(t).duration + 1
              && forall y :: ParsedAt(t, y) ==> y <= GapOf(t).start || GapOf(t).end <= y
  {
    var rows := Prepared(t);
    var ts := Stamps(rows);
    var g := LargestGap(ts);
    if g.Gap? {
      var k :| 1 <= k < |ts| && ts[k - 1] == g.start && ts[k] == g.end && StepsBelow(ts, k, g.duration + 1);
      PreparedReportedAt(t, [], g.start, HasDt);
      PreparedReportedAt(t, [], g.end, HasDt);
      forall y | ParsedAt(t, y) ensures y <= g.start || g.end <= y {
        ParsedBesideStep(t, k, y);
      }
    }
  }

  /** A parsed timestamp lies at or before the earlier of two neighbouring records, or at or after the later one. */
  lemma ParsedBesideStep(t: Table, k: nat, y: int)
    requires 1 <= k < |Prepared(t)| && ParsedAt(t, y)
    ensures y <= Prepared(t)[k - 1].stamp || Prepared(t)[k].stamp <= y
  {
    var rows := Prepared(t);
    PreparedReportedAt(t, [], y, HasDt);
    var m :| 0 <= m < |rows| && rows[m].stamp == y && Reports([], rows[m].cells, HasDt);
    NoneBetweenNeighbours(rows, k, m);
  }
}
