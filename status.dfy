/**
 * The per-row status record (`has_dt`, `has_dht`, `has_piera`, `both_up`,
 * `pm_error`) and the collapse of status rows by exact timestamp with a
 * field-wise maximum (`groupby('datetime').max()`).  The same five-field
 * record also carries the per-minute sums of the aggregation.
 */
module Status {

  datatype Status = Status(hasDt: int, hasDht: int, hasPiera: int, bothUp: int, pmError: int)

  /** The names of the five fields. */
  datatype Field = HasDt | HasDht | HasPiera | BothUp | PmError

  function Get(s: Status, f: Field): int
  {
    match f
    case HasDt => s.hasDt
    case HasDht => s.hasDht
    case HasPiera => s.hasPiera
    case BothUp => s.bothUp
    case PmError => s.pmError
  }

  /** All fields zero: what `fillna(0)` gives a point without a row at some instant. */
  const Zero: Status := Status(0, 0, 0, 0, 0)

  function Bit(b: bool): int
  {
    if b then 1 else 0
  }

  function Max(a: int, b: int): int
  {
    if a >= b then a else b
  }

  function MaxStatus(a: Status, b: Status): (r: Status)
    ensures forall f :: Get(r, f) == Max(Get(a, f), Get(b, f))
  {
    Status(Max(a.hasDt, b.hasDt), Max(a.hasDht, b.hasDht), Max(a.hasPiera, b.hasPiera),
           Max(a.bothUp, b.bothUp), Max(a.pmError, b.pmError))
  }

  function AddStatus(a: Status, b: Status): (r: Status)
    ensures forall f :: Get(r, f) == Get(a, f) + Get(b, f)
  {
    Status(a.hasDt + b.hasDt, a.hasDht + b.hasDht, a.hasPiera + b.hasPiera,
           a.bothUp + b.bothUp, a.pmError + b.pmError)
  }

  /** Adding all zeros changes nothing (stated once, so that proofs need not rebuild the record). */
  lemma AddZero(s: Status)
    ensures AddStatus(Zero, s) == s
  {
  }

  /** Every field is 0 or 1, as `astype(int)` of a boolean column gives. */
  predicate IsFlagRecord(s: Status)
  {
    forall f :: Get(s, f) == 0 || Get(s, f) == 1
  }

  /**
   * The status of one row: a timestamp is present; the climate sensor, the
   * particulate sensor, both of them; and the spike flag joined to the row.
   */
  function RowStatus(climate: bool, particulate: bool, error: bool): (s: Status)
    ensures IsFlagRecord(s) && s.hasDt == 1
    ensures (s.hasDht == 1 <==> climate) && (s.hasPiera == 1 <==> particulate)
    ensures (s.bothUp == 1 <==> climate && particulate) && (s.pmError == 1 <==> error)
  {
    Status(1, Bit(climate), Bit(particulate), Bit(climate && particulate), Bit(error))
  }

  // ---------------------------------------------------------------------
  // Rows keyed by timestamp, and the collapse by exact timestamp
  // ---------------------------------------------------------------------

  datatype Stamped = Stamped(stamp: int, status: Status)

  predicate NonDecreasing(rows: seq<Stamped>)
  {
    forall i, j :: 0 <= i < j < |rows| ==> rows[i].stamp <= rows[j].stamp
  }

  predicate StrictlyIncreasing(rows: seq<Stamped>)
  {
    forall i, j :: 0 <= i < j < |rows| ==> rows[i].stamp < rows[j].stamp
  }

  /** The timestamps of the rows, in row order. */
  function Keys(rows: seq<Stamped>): (r: seq<int>)
    ensures |r| == |rows| && forall i :: 0 <= i < |rows| ==> r[i] == rows[i].stamp
  {
    if |rows| == 0 then [] else [rows[0].stamp] + Keys(rows[1..])
  }

  predicate HasStamp(rows: seq<Stamped>, t: int)
  {
    t in Keys(rows)
  }

  /** Both sequences hold the same timestamps. */
  ghost predicate SameStamps(a: seq<Stamped>, b: seq<Stamped>)
  {
    forall t :: t in Keys(a) <==> t in Keys(b)
  }

  /** The field-wise maximum over all rows stamped `t`: the reference meaning of the collapse. */
  function MaxAt(rows: seq<Stamped>, t: int): Status
    requires HasStamp(rows, t)
  {
    assert forall i :: 1 <= i < |rows| ==> rows[i] == rows[1..][i - 1];
    if rows[0].stamp != t then MaxAt(rows[1..], t)
    else if HasStamp(rows[1..], t) then MaxStatus(rows[0].status, MaxAt(rows[1..], t))
    else rows[0].status
  }

  /**
   * `groupby('datetime').max()` over rows sorted by timestamp: one row per
   * distinct timestamp, in ascending order (the field values are described
   * by GroupByStampIsMax).
   */
  function GroupByStamp(rows: seq<Stamped>): (g: seq<Stamped>)
    requires NonDecreasing(rows)
    ensures StrictlyIncreasing(g)
    ensures SameStamps(g, rows)
    ensures |rows| > 0 ==> |g| > 0 && g[0].stamp == rows[0].stamp
  {
    if |rows| == 0 then []
    else
      var rest := GroupByStamp(rows[1..]);
      if |rest| > 0 && rest[0].stamp == rows[0].stamp then
        MergeFront(rows, rest);
        [Stamped(rows[0].stamp, MaxStatus(rows[0].status, rest[0].status))] + rest[1..]
      else
        ConsFront(rows, rest);
        [rows[0]] + rest
  }

  lemma IncreasingCons(x: Stamped, rest: seq<Stamped>)
    requires StrictlyIncreasing(rest) && (|rest| > 0 ==> x.stamp < rest[0].stamp)
    ensures StrictlyIncreasing([x] + rest)
  {
    var s := [x] + rest;
    forall i, j | 0 <= i < j < |s| ensures s[i].stamp < s[j].stamp {
      if i > 0 {
        assert s[i] == rest[i - 1] && s[j] == rest[j - 1];
      } else {
        assert s[j] == rest[j - 1];
        assert rest[0].stamp <= rest[j - 1].stamp;
      }
    }
  }

  lemma KeysCons(x: Stamped, rest: seq<Stamped>)
    ensures Keys([x] + rest) == [x.stamp] + Keys(rest)
  {
    assert ([x] + rest)[1..] == rest;
  }

  /** The first row shares its timestamp with the first collapsed row of the rest: they merge. */
  lemma MergeFront(rows: seq<Stamped>, rest: seq<Stamped>)
    requires |rows| > 0 && NonDecreasing(rows)
    requires StrictlyIncreasing(rest) && SameStamps(rest, rows[1..])
    requires |rest| > 0 && rest[0].stamp == rows[0].stamp
    ensures var g := [Stamped(rows[0].stamp, MaxStatus(rows[0].status, rest[0].status))] + rest[1..];
            StrictlyIncreasing(g) && SameStamps(g, rows)
  {
    var y := Stamped(rows[0].stamp, MaxStatus(rows[0].status, rest[0].status));
    assert rows == [rows[0]] + rows[1..];
    KeysCons(rows[0], rows[1..]);
    assert rest == [rest[0]] + rest[1..];
    KeysCons(rest[0], rest[1..]);
    KeysCons(y, rest[1..]);
    IncreasingCons(y, rest[1..]);
  }

  /** Otherwise no later row has the first row's timestamp, and it stays on its own. */
  lemma ConsFront(rows: seq<Stamped>, rest: seq<Stamped>)
    requires |rows| > 0 && NonDecreasing(rows)
    requires StrictlyIncreasing(rest) && SameStamps(rest, rows[1..])
    requires !(|rest| > 0 && rest[0].stamp == rows[0].stamp)
    ensures StrictlyIncreasing([rows[0]] + rest) && SameStamps([rows[0]] + rest, rows)
    ensures !HasStamp(rows[1..], rows[0].stamp)
  {
    var t0 := rows[0].stamp;
    assert rows == [rows[0]] + rows[1..];
    KeysCons(rows[0], rows[1..]);
    assert |rest| > 0 ==> t0 < rest[0].stamp by {
      if |rest| > 0 {
        assert rest[0].stamp in Keys(rest);
        var i :| 0 <= i < |rows[1..]| && Keys(rows[1..])[i] == rest[0].stamp;
        assert rows[1..][i] == rows[i + 1];
      }
    }
    assert t0 !in Keys(rest);
    KeysCons(rows[0], rest);
    IncreasingCons(rows[0], rest);
  }

  /** Each collapsed row holds the field-wise maximum of all rows with its timestamp. */
  lemma {:induction false} GroupByStampIsMax(rows: seq<Stamped>)
    requires NonDecreasing(rows)
    ensures forall k :: 0 <= k < |GroupByStamp(rows)| ==>
              HasStamp(rows, GroupByStamp(rows)[k].stamp) &&
              GroupByStamp(rows)[k].status == MaxAt(rows, GroupByStamp(rows)[k].stamp)
  {
    if |rows| > 0 {
      var rest := GroupByStamp(rows[1..]);
      var g := GroupByStamp(rows);
      GroupByStampIsMax(rows[1..]);
      assert forall i :: 1 <= i < |rows| ==> rows[i] == rows[1..][i - 1];
      forall k | 0 <= k < |g|
        ensures HasStamp(rows, g[k].stamp) && g[k].status == MaxAt(rows, g[k].stamp)
      {
        assert g[k].stamp in Keys(g);
        if k > 0 {
          assert g[k].stamp != rows[0].stamp;
        }
      }
    }
  }

  /**
   * Collapsing 0/1 rows gives 0/1 rows, and a field is 1 at timestamp `t`
   * exactly when some row stamped `t` has it set ("max wins").
   */
  lemma {:induction false} MaxAtIsAny(rows: seq<Stamped>, t: int, f: Field)
    requires HasStamp(rows, t)
    requires forall i :: 0 <= i < |rows| ==> IsFlagRecord(rows[i].status)
    ensures Get(MaxAt(rows, t), f) == 0 || Get(MaxAt(rows, t), f) == 1
    ensures Get(MaxAt(rows, t), f) == 1 <==>
            exists i :: 0 <= i < |rows| && rows[i].stamp == t && Get(rows[i].status, f) == 1
  {
    assert forall i :: 1 <= i < |rows| ==> rows[i] == rows[1..][i - 1];
    if rows[0].stamp != t {
      MaxAtIsAny(rows[1..], t, f);
    } else if HasStamp(rows[1..], t) {
      MaxAtIsAny(rows[1..], t, f);
    } else {
      assert forall i :: 0 < i < |rows| ==> rows[i].stamp != t;
    }
  }

  /** The collapse of 0/1 records is a 0/1 record. */
  lemma MaxAtIsFlagRecord(rows: seq<Stamped>, t: int)
    requires HasStamp(rows, t)
    requires forall i :: 0 <= i < |rows| ==> IsFlagRecord(rows[i].status)
    ensures IsFlagRecord(MaxAt(rows, t))
  {
    forall f ensures Get(MaxAt(rows, t), f) == 0 || Get(MaxAt(rows, t), f) == 1 {
      MaxAtIsAny(rows, t, f);
    }
  }

  /**
   * A field of a collapsed 0/1 row is set iff it is set in some row with the
   * same timestamp, and it is 0 or 1.
   */
  lemma GroupedExists(rows: seq<Stamped>, k: nat, f: Field)
    requires NonDecreasing(rows)
    requires forall i :: 0 <= i < |rows| ==> IsFlagRecord(rows[i].status)
    requires k < |GroupByStamp(rows)|
    ensures Get(GroupByStamp(rows)[k].status, f) == 0 || Get(GroupByStamp(rows)[k].status, f) == 1
    ensures Get(GroupByStamp(rows)[k].status, f) == 1 <==>
            exists i :: 0 <= i < |rows| && rows[i].stamp == GroupByStamp(rows)[k].stamp && Get(rows[i].status, f) == 1
  {
    GroupByStampIsMax(rows);
    MaxAtIsAny(rows, GroupByStamp(rows)[k].stamp, f);
  }

  /** The collapse of 0/1 records is a 0/1 record, and a field set in every row stays set. */
  lemma GroupedFlagRecord(rows: seq<Stamped>, k: nat, f: Field)
    requires NonDecreasing(rows)
    requires forall i :: 0 <= i < |rows| ==> IsFlagRecord(rows[i].status) && Get(rows[i].status, f) == 1
    requires k < |GroupByStamp(rows)|
    ensures IsFlagRecord(GroupByStamp(rows)[k].status) && Get(GroupByStamp(rows)[k].status, f) == 1
  {
    GroupByStampIsMax(rows);
    var t := GroupByStamp(rows)[k].stamp;
    MaxAtIsFlagRecord(rows, t);
    MaxAtIsAny(rows, t, f);
    var i :| 0 <= i < |rows| && Keys(rows)[i] == t;
    assert rows[i].stamp == t;
  }
}
