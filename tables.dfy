/**
 * One uploaded sensor export as the analysis sees it: its column names and
 * its rows, each row holding an already-parsed timestamp (None when the
 * `DD-MM-YYYY-HH-MM-SS` text failed to parse) and a nullable value per
 * column.  Also the column classification applied before the analysis: the
 * PM2.5 column to monitor, the particulate (PC/PM) columns and the climate
 * (humidity/temperature) columns.
 */
module Tables {
  import opened Wrappers
  import opened Texts
  import opened Filters

  /** The nullable cells of one row, by column name. */
  type Cells = map<string, Option<real>>

  datatype RawRow = RawRow(stamp: Option<int>, cells: Cells)

  datatype Table = Table(columns: seq<string>, rows: seq<RawRow>)

  /** Every row has a cell for every column. */
  predicate Rectangular(t: Table)
  {
    forall i | 0 <= i < |t.rows| :: forall c | c in t.columns :: c in t.rows[i].cells
  }

  /** The table has every column of `names` (selecting one it lacks is a KeyError). */
  predicate HasColumns(t: Table, names: seq<string>)
  {
    Rectangular(t) && forall n | n in names :: n in t.columns
  }

  const Humidity: string := "humidity"
  const Temperature: string := "temperature"
  const ClimateColumns: seq<string> := [Humidity, Temperature]

  // ---------------------------------------------------------------------
  // Column classification
  // ---------------------------------------------------------------------

  /** The name of the PM2.5 channel: it contains both "PM2" and "5". */
  predicate IsPm25Name(c: string)
  {
    Contains(c, "PM2") && Contains(c, "5")
  }

  /** The first index at or after `i` whose column is a PM2.5 channel. */
  function PmIndexFrom(cols: seq<string>, i: nat): (r: Option<nat>)
    requires i <= |cols|
    decreases |cols| - i
    ensures r.Some? ==> i <= r.value < |cols| && IsPm25Name(cols[r.value])
    ensures r.Some? ==> forall j :: i <= j < r.value ==> !IsPm25Name(cols[j])
    ensures r.None? ==> forall j :: i <= j < |cols| ==> !IsPm25Name(cols[j])
  {
    if i == |cols| then None
    else if IsPm25Name(cols[i]) then Some(i)
    else PmIndexFrom(cols, i + 1)
  }

  /** The monitored column: the first column whose name is a PM2.5 channel. */
  function PmColumn(cols: seq<string>): (r: Option<string>)
    ensures r.None? <==> forall c | c in cols :: !IsPm25Name(c)
    ensures r.Some? ==> r.value in cols && IsPm25Name(r.value)
  {
    match PmIndexFrom(cols, 0)
    case None => None
    case Some(k) => Some(cols[k])
  }

  /** The monitored column is the leftmost PM2.5 channel: no column before it is one. */
  lemma PmColumnIsFirst(cols: seq<string>)
    ensures PmColumn(cols).Some? ==> exists k :: 0 <= k < |cols| && cols[k] == PmColumn(cols).value
                                              && forall j :: 0 <= j < k ==> !IsPm25Name(cols[j])
  {
    match PmIndexFrom(cols, 0)
    case None =>
    case Some(k) =>
      assert cols[k] == PmColumn(cols).value;
  }

  /** A particulate channel: the name starts with "PC" or "PM". */
  predicate IsParticulateName(c: string)
  {
    StartsWith(c, "PC") || StartsWith(c, "PM")
  }

  /** The particulate columns, in table order. */
  function ParticulateColumns(cols: seq<string>): (r: seq<string>)
    ensures |r| <= |cols|
    ensures forall c :: c in r <==> c in cols && IsParticulateName(c)
  {
    if |cols| == 0 then []
    else
      var rest := ParticulateColumns(cols[1..]);
      assert cols == [cols[0]] + cols[1..];
      if IsParticulateName(cols[0]) then [cols[0]] + rest else rest
  }

  /** `df[names].notnull().any(axis=1)` for one row. */
  predicate AnyReading(cells: Cells, names: seq<string>)
  {
    exists n | n in names :: n in cells && cells[n].Some?
  }

  // ---------------------------------------------------------------------
  // Dropping unparsed timestamps and sorting by timestamp
  // ---------------------------------------------------------------------

  /** A row whose timestamp parsed, in seconds. */
  datatype Record = Record(stamp: int, cells: Cells)

  /** The rows whose timestamp parsed, in their original order. */
  function Parsed(rows: seq<RawRow>): (r: seq<Record>)
    ensures |r| <= |rows|
  {
    if |rows| == 0 then []
    else
      var rest := Parsed(rows[1..]);
      match rows[0].stamp
      case None => rest
      case Some(t) => [Record(t, rows[0].cells)] + rest
  }

  /** Every parsed record comes from a row of the table, and every row whose timestamp parsed gives one. */
  lemma {:induction false} ParsedRows(rows: seq<RawRow>)
    ensures var r := Parsed(rows);
            && (forall k | 0 <= k < |r| :: RawRow(Some(r[k].stamp), r[k].cells) in rows)
            && (forall i | 0 <= i < |rows| && rows[i].stamp.Some? :: Record(rows[i].stamp.value, rows[i].cells) in r)
  {
    if |rows| > 0 {
      ParsedRows(rows[1..]);
      ParsedCons(rows);
      assert rows == [rows[0]] + rows[1..];
      assert forall i | 1 <= i < |rows| :: rows[i] == rows[1..][i - 1];
    }
  }

  /** Which rows have a timestamp that parsed. */
  function ParsedMask(rows: seq<RawRow>): (m: seq<bool>)
    ensures |m| == |rows| && forall i :: 0 <= i < |rows| ==> (m[i] <==> rows[i].stamp.Some?)
  {
    seq(|rows|, i requires 0 <= i < |rows| => rows[i].stamp.Some?)
  }

  /** The parsed rows from position `from` on are the rows at the parsed positions from `from` on. */
  lemma {:induction false} ParsedFrom(rows: seq<RawRow>, from: nat)
    requires from <= |rows|
    decreases |rows| - from
    ensures var p := Positions(ParsedMask(rows), from);
            var r := Parsed(rows[from..]);
            && |r| == |p|
            && forall k :: 0 <= k < |p| ==> r[k] == Record(rows[p[k]].stamp.value, rows[p[k]].cells)
  {
    if from < |rows| {
      var mask := ParsedMask(rows);
      var p, p' := Positions(mask, from), Positions(mask, from + 1);
      var q := rows[from..];
      assert q[0] == rows[from] && q[1..] == rows[from + 1..];
      var r, r' := Parsed(q), Parsed(rows[from + 1..]);
      ParsedFrom(rows, from + 1);
      ParsedCons(q);
      if rows[from].stamp.Some? {
        assert p == [from] + p' && r == [Record(rows[from].stamp.value, rows[from].cells)] + r';
        forall k | 0 <= k < |p| ensures r[k] == Record(rows[p[k]].stamp.value, rows[p[k]].cells) {
          if k > 0 {
            assert r[k] == r'[k - 1] && p[k] == p'[k - 1];
          }
        }
      } else {
        assert p == p' && r == r';
      }
    }
  }

  /** Parsing a non-empty sequence of rows: the first row's record, if it parsed, then the rest. */
  lemma ParsedCons(rows: seq<RawRow>)
    requires |rows| > 0
    ensures Parsed(rows) == (if rows[0].stamp.Some? then [Record(rows[0].stamp.value, rows[0].cells)] else [])
                            + Parsed(rows[1..])
  {
  }

  /**
   * `dropna()` on the timestamp: the result is the parsed rows, each once,
   * in their original order.
   */
  lemma ParsedIsFilter(rows: seq<RawRow>)
    ensures var p := Positions(ParsedMask(rows), 0);
            var r := Parsed(rows);
            && |r| == |p|
            && forall k :: 0 <= k < |p| ==> r[k] == Record(rows[p[k]].stamp.value, rows[p[k]].cells)
  {
    ParsedFrom(rows, 0);
    assert rows[0..] == rows;
  }

  /** A parsed record occurs in the result exactly as often as its row occurs in the table. */
  lemma {:induction false} ParsedCounts(rows: seq<RawRow>, x: Record)
    ensures multiset(Parsed(rows))[x] == multiset(rows)[RawRow(Some(x.stamp), x.cells)]
  {
    if |rows| > 0 {
      ParsedCounts(rows[1..], x);
      ParsedCons(rows);
      assert rows == [rows[0]] + rows[1..];
      if rows[0].stamp.Some? {
        assert multiset(Parsed(rows)) == multiset{Record(rows[0].stamp.value, rows[0].cells)} + multiset(Parsed(rows[1..]));
      } else {
        assert Parsed(rows) == Parsed(rows[1..]);
      }
    }
  }

  predicate SortedByStamp(s: seq<Record>)
  {
    forall i, j :: 0 <= i < j < |s| ==> s[i].stamp <= s[j].stamp
  }

  /** Puts `x` before the first record that is not earlier than it. */
  function InsertByStamp(x: Record, s: seq<Record>): seq<Record>
  {
    if |s| == 0 then [x]
    else if x.stamp <= s[0].stamp then [x] + s
    else [s[0]] + InsertByStamp(x, s[1..])
  }

  /** Inserting adds `x` and keeps every other record. */
  lemma {:induction false} InsertKeeps(x: Record, s: seq<Record>)
    ensures multiset(InsertByStamp(x, s)) == multiset(s) + multiset{x}
  {
    if |s| > 0 && x.stamp > s[0].stamp {
      InsertKeeps(x, s[1..]);
      assert s == [s[0]] + s[1..];
    }
  }

  /** Inserting into records sorted by timestamp keeps them sorted. */
  lemma {:induction false} InsertSorted(x: Record, s: seq<Record>)
    requires SortedByStamp(s)
    ensures SortedByStamp(InsertByStamp(x, s))
  {
    if |s| == 0 {
    } else if x.stamp <= s[0].stamp {
      SortedCons(x, s);
    } else {
      var tail := InsertByStamp(x, s[1..]);
      InsertSorted(x, s[1..]);
      InsertKeeps(x, s[1..]);
      forall k | 0 <= k < |tail| ensures s[0].stamp <= tail[k].stamp {
        assert tail[k] in multiset(tail);
        assert tail[k] == x || tail[k] in multiset(s[1..]);
      }
      SortedCons(s[0], tail);
    }
  }

  lemma SortedCons(y: Record, s: seq<Record>)
    requires SortedByStamp(s)
    requires forall k :: 0 <= k < |s| ==> y.stamp <= s[k].stamp
    ensures SortedByStamp([y] + s)
  {
    var r := [y] + s;
    forall i, j | 0 <= i < j < |r| ensures r[i].stamp <= r[j].stamp {
      assert r[j] == s[j - 1];
    }
  }

  /** `sort_values('datetime')`: the records in ascending timestamp order. */
  function SortByStamp(s: seq<Record>): (r: seq<Record>)
    ensures SortedByStamp(r)
    ensures multiset(r) == multiset(s)
    ensures forall x :: x in r <==> x in s
    ensures |r| == |s|
  {
    if |s| == 0 then []
    else
      var rest := SortByStamp(s[1..]);
      assert s == [s[0]] + s[1..];
      var r := InsertByStamp(s[0], rest);
      InsertSorted(s[0], rest);
      InsertKeeps(s[0], rest);
      SameElements(r, s);
      r
  }

  /** Two sequences with the same multiset have the same length and the same members. */
  lemma SameElements(a: seq<Record>, b: seq<Record>)
    requires multiset(a) == multiset(b)
    ensures |a| == |b|
    ensures forall x :: x in a <==> x in b
  {
    assert |multiset(a)| == |a| && |multiset(b)| == |b|;
    forall x ensures x in a <==> x in b {
      assert x in a <==> x in multiset(a);
      assert x in b <==> x in multiset(b);
    }
  }

  /** The records the analysis works on: parsed, then sorted. */
  function Prepared(t: Table): (r: seq<Record>)
    ensures SortedByStamp(r)
  {
    SortByStamp(Parsed(t.rows))
  }

  /** The prepared records of a rectangular table have a cell for every column. */
  lemma PreparedCells(t: Table)
    requires Rectangular(t)
    ensures forall k, c | 0 <= k < |Prepared(t)| && c in t.columns :: c in Prepared(t)[k].cells
  {
    PreparedRows(t);
    forall k | 0 <= k < |Prepared(t)| ensures forall c | c in t.columns :: c in Prepared(t)[k].cells {
      var r := Prepared(t)[k];
      var i :| 0 <= i < |t.rows| && t.rows[i] == RawRow(Some(r.stamp), r.cells);
    }
  }

  /** Prepared record `m` is a row of the table whose timestamp parsed. */
  lemma PreparedOrigin(t: Table, m: nat)
    requires m < |Prepared(t)|
    ensures exists i :: 0 <= i < |t.rows| && t.rows[i] == RawRow(Some(Prepared(t)[m].stamp), Prepared(t)[m].cells)
  {
    PreparedRows(t);
    assert RawRow(Some(Prepared(t)[m].stamp), Prepared(t)[m].cells) in t.rows;
  }

  /** Every prepared record comes from a row that parsed, and every row that parsed is there. */
  lemma PreparedRows(t: Table)
    ensures var r := Prepared(t);
            && (forall k | 0 <= k < |r| :: RawRow(Some(r[k].stamp), r[k].cells) in t.rows)
            && (forall i | 0 <= i < |t.rows| && t.rows[i].stamp.Some? ::
                  Record(t.rows[i].stamp.value, t.rows[i].cells) in r)
  {
    var p := Parsed(t.rows);
    var r := Prepared(t);
    ParsedRows(t.rows);
    assert forall k | 0 <= k < |r| :: r[k] in p;
  }

  /** Sorting neither adds nor drops a record: the prepared records are a permutation of the parsed ones. */
  lemma PreparedIsPermutation(t: Table)
    ensures multiset(Prepared(t)) == multiset(Parsed(t.rows))
  {
    assert Prepared(t) == SortByStamp(Parsed(t.rows));
  }

  /** Every parsed row is in the prepared records exactly as often as it is in the table. */
  lemma PreparedCounts(t: Table, x: Record)
    ensures multiset(Prepared(t))[x] == multiset(t.rows)[RawRow(Some(x.stamp), x.cells)]
  {
    PreparedIsPermutation(t);
    ParsedCounts(t.rows, x);
  }

  /** The timestamps of a sequence of records. */
  function Stamps(s: seq<Record>): (r: seq<int>)
    ensures |r| == |s| && forall k :: 0 <= k < |s| ==> r[k] == s[k].stamp
  {
    seq(|s|, k requires 0 <= k < |s| => s[k].stamp)
  }
}
