/**
 * The two-point aggregation: the outer join of the two collapsed status
 * tables on their timestamps with absent values read as 0
 * (`pd.concat(..., axis=1).fillna(0)`), the contiguous one-minute buckets
 * that sum every field (`resample('1min').sum()`), and the missing-seconds
 * column `max(0, 60 - has_dt)`.
 */
module Aggregation {
  import opened Status
  import opened Filters

  /** The two sensor points of a date. */
  datatype PointId = P1 | P2

  /** One row of the joined table: a timestamp and the status of each point there (all 0 where it has none). */
  datatype Joined = Joined(stamp: int, p1: Status, p2: Status)

  function Side(r: Joined, p: PointId): Status
  {
    match p
    case P1 => r.p1
    case P2 => r.p2
  }

  predicate JoinedIncreasing(j: seq<Joined>)
  {
    forall i, k :: 0 <= i < k < |j| ==> j[i].stamp < j[k].stamp
  }

  /** Some joined row has timestamp `x`. */
  predicate JoinedHas(j: seq<Joined>, x: int)
  {
    exists i :: 0 <= i < |j| && j[i].stamp == x
  }

  /** The status a table holds at timestamp `x`, or all zeros when it has no row there (`fillna(0)`). */
  function LookupOr0(a: seq<Stamped>, x: int): (r: Status)
    ensures !HasStamp(a, x) ==> r == Zero
    ensures StrictlyIncreasing(a) ==> forall i :: 0 <= i < |a| && a[i].stamp == x ==> r == a[i].status
  {
    if |a| == 0 then Zero
    else
      assert forall i :: 1 <= i < |a| ==> a[i] == a[1..][i - 1];
      assert Keys(a) == [a[0].stamp] + Keys(a[1..]);
      if a[0].stamp == x then a[0].status else LookupOr0(a[1..], x)
  }

  /** Every timestamp of a strictly increasing table is at least its first one. */
  lemma KeysAtLeastFirst(a: seq<Stamped>, x: int)
    requires StrictlyIncreasing(a) && HasStamp(a, x)
    ensures a[0].stamp <= x
  {
    var i :| 0 <= i < |a| && Keys(a)[i] == x;
  }

  /**
   * `a'` is what is left of `a` once a row stamped `x` is taken off its
   * front: `a` itself when it starts above `x`.
   */
  predicate DropsFront(a: seq<Stamped>, x: int, a': seq<Stamped>)
  {
    || (|a| > 0 && a[0].stamp == x && a' == a[1..])
    || (a' == a && (|a| == 0 || x < a[0].stamp))
  }

  /** Taking the front stamped `x` off a strictly increasing table: what remains lies above `x` and looks the same. */
  lemma DropFront(a: seq<Stamped>, x: int, a': seq<Stamped>)
    requires StrictlyIncreasing(a) && DropsFront(a, x, a')
    ensures StrictlyIncreasing(a')
    ensures forall y :: HasStamp(a', y) ==> x < y
    ensures forall y :: y != x ==> (HasStamp(a, y) <==> HasStamp(a', y))
    ensures HasStamp(a, x) <==> |a| > 0 && a[0].stamp == x
  {
    if |a| > 0 {
      assert Keys(a) == [a[0].stamp] + Keys(a[1..]);
      assert forall i :: 1 <= i < |a| ==> a[i] == a[1..][i - 1];
      forall y | HasStamp(a[1..], y) ensures a[0].stamp < y {
        var i :| 0 <= i < |a[1..]| && Keys(a[1..])[i] == y;
        assert a[i + 1].stamp == y;
      }
      forall y | HasStamp(a', y) ensures x < y {
        if a' == a {
          KeysAtLeastFirst(a, y);
        }
      }
    }
  }

  /** Taking the front stamped `x` off a table changes no lookup but that of `x`. */
  lemma DropFrontLookup(a: seq<Stamped>, x: int, a': seq<Stamped>)
    requires StrictlyIncreasing(a) && DropsFront(a, x, a')
    ensures forall y :: y != x ==> LookupOr0(a, y) == LookupOr0(a', y)
    ensures LookupOr0(a, x) == if |a| > 0 && a[0].stamp == x then a[0].status else Zero
  {
    if |a| > 0 {
      DropFront(a, x, a');
    }
  }

  /** Joining `x` in front of a join whose stamps all exceed it keeps the order. */
  lemma JoinedCons(x: Joined, rest: seq<Joined>)
    requires JoinedIncreasing(rest)
    requires forall i :: 0 <= i < |rest| ==> x.stamp < rest[i].stamp
    ensures JoinedIncreasing([x] + rest)
  {
    var j := [x] + rest;
    forall i, k | 0 <= i < k < |j| ensures j[i].stamp < j[k].stamp {
      if i > 0 {
        assert j[i] == rest[i - 1] && j[k] == rest[k - 1];
      } else {
        assert j[k] == rest[k - 1];
      }
    }
  }

  /**
   * The outer join of two tables with one row per timestamp, in ascending
   * timestamp order; a point without a row at some timestamp contributes
   * all zeros there.  `JoinFacts` states what it computes.
   */
  function OuterJoin(a: seq<Stamped>, b: seq<Stamped>): seq<Joined>
    decreases |a| + |b|
  {
    if |a| == 0 && |b| == 0 then []
    else if |b| == 0 || (|a| > 0 && a[0].stamp < b[0].stamp) then
      [Joined(a[0].stamp, a[0].status, Zero)] + OuterJoin(a[1..], b)
    else if |a| == 0 || b[0].stamp < a[0].stamp then
      [Joined(b[0].stamp, Zero, b[0].status)] + OuterJoin(a, b[1..])
    else
      [Joined(a[0].stamp, a[0].status, b[0].status)] + OuterJoin(a[1..], b[1..])
  }

  /**
   * The join of two tables with one row per timestamp has one row per
   * timestamp of either table and none other, in ascending order, and each
   * row carries each point's status at that timestamp, zeros where it has none.
   */
  lemma {:induction false} JoinFacts(a: seq<Stamped>, b: seq<Stamped>)
    requires StrictlyIncreasing(a) && StrictlyIncreasing(b)
    ensures var j := OuterJoin(a, b);
            && JoinedIncreasing(j)
            && (forall i :: 0 <= i < |j| ==> HasStamp(a, j[i].stamp) || HasStamp(b, j[i].stamp))
            && (forall x :: HasStamp(a, x) || HasStamp(b, x) ==> JoinedHas(j, x))
            && (forall i :: 0 <= i < |j| ==> j[i].p1 == LookupOr0(a, j[i].stamp) && j[i].p2 == LookupOr0(b, j[i].stamp))
    decreases |a| + |b|
  {
    if |a| == 0 && |b| == 0 {
    } else if |b| == 0 || (|a| > 0 && a[0].stamp < b[0].stamp) {
      DropFront(a, a[0].stamp, a[1..]);
      JoinFacts(a[1..], b);
      JoinStep(a, b, a[0].stamp, OuterJoin(a[1..], b), a[1..], b);
    } else if |a| == 0 || b[0].stamp < a[0].stamp {
      DropFront(b, b[0].stamp, b[1..]);
      JoinFacts(a, b[1..]);
      JoinStep(a, b, b[0].stamp, OuterJoin(a, b[1..]), a, b[1..]);
    } else {
      DropFront(a, a[0].stamp, a[1..]);
      DropFront(b, b[0].stamp, b[1..]);
      JoinFacts(a[1..], b[1..]);
      JoinStep(a, b, a[0].stamp, OuterJoin(a[1..], b[1..]), a[1..], b[1..]);
    }
  }

  /**
   * One step of the join: `x` is the smallest timestamp of either table,
   * `a'` and `b'` are what remains once the rows stamped `x` are taken off,
   * and `rest` is already known to be their join.
   */
  ghost predicate FrontStep(a: seq<Stamped>, b: seq<Stamped>, x: int, rest: seq<Joined>, a': seq<Stamped>, b': seq<Stamped>)
  {
    && StrictlyIncreasing(a) && StrictlyIncreasing(b)
    && DropsFront(a, x, a') && DropsFront(b, x, b')
    && ((|a| > 0 && a[0].stamp == x) || (|b| > 0 && b[0].stamp == x))
    && JoinedIncreasing(rest)
    && (forall i :: 0 <= i < |rest| ==> HasStamp(a', rest[i].stamp) || HasStamp(b', rest[i].stamp))
    && (forall y :: HasStamp(a', y) || HasStamp(b', y) ==> JoinedHas(rest, y))
    && (forall i :: 0 <= i < |rest| ==>
          rest[i].p1 == LookupOr0(a', rest[i].stamp) && rest[i].p2 == LookupOr0(b', rest[i].stamp))
  }

  /** The row the step puts in front. */
  function FrontRow(a: seq<Stamped>, b: seq<Stamped>, x: int): Joined
  {
    Joined(x, LookupOr0(a, x), LookupOr0(b, x))
  }

  /** The step keeps the join in ascending order and its timestamps drawn from the two tables. */
  lemma FrontOrder(a: seq<Stamped>, b: seq<Stamped>, x: int, rest: seq<Joined>, a': seq<Stamped>, b': seq<Stamped>)
    requires StrictlyIncreasing(a) && StrictlyIncreasing(b)
    requires DropsFront(a, x, a') && DropsFront(b, x, b')
    requires (|a| > 0 && a[0].stamp == x) || (|b| > 0 && b[0].stamp == x)
    requires JoinedIncreasing(rest)
    requires forall i :: 0 <= i < |rest| ==> HasStamp(a', rest[i].stamp) || HasStamp(b', rest[i].stamp)
    ensures JoinedIncreasing([FrontRow(a, b, x)] + rest)
    ensures var j := [FrontRow(a, b, x)] + rest;
            forall i :: 0 <= i < |j| ==> HasStamp(a, j[i].stamp) || HasStamp(b, j[i].stamp)
  {
    DropFront(a, x, a');
    DropFront(b, x, b');
    var j := [FrontRow(a, b, x)] + rest;
    JoinedCons(FrontRow(a, b, x), rest);
    forall i | 0 <= i < |j| ensures HasStamp(a, j[i].stamp) || HasStamp(b, j[i].stamp) {
      if i > 0 {
        assert j[i] == rest[i - 1];
      }
    }
  }

  /** The step keeps every timestamp of either table in the join. */
  lemma FrontCover(a: seq<Stamped>, b: seq<Stamped>, x: int, rest: seq<Joined>, a': seq<Stamped>, b': seq<Stamped>)
    requires StrictlyIncreasing(a) && StrictlyIncreasing(b)
    requires DropsFront(a, x, a') && DropsFront(b, x, b')
    requires forall y :: HasStamp(a', y) || HasStamp(b', y) ==> JoinedHas(rest, y)
    ensures forall y :: HasStamp(a, y) || HasStamp(b, y) ==> JoinedHas([FrontRow(a, b, x)] + rest, y)
  {
    DropFront(a, x, a');
    DropFront(b, x, b');
    var j := [FrontRow(a, b, x)] + rest;
    forall y | HasStamp(a, y) || HasStamp(b, y) ensures JoinedHas(j, y) {
      if y == x {
        assert j[0].stamp == y;
      } else {
        var i :| 0 <= i < |rest| && rest[i].stamp == y;
        assert j[i + 1].stamp == y;
      }
    }
  }

  /** The step keeps each row's statuses those of the two tables at its timestamp. */
  lemma FrontLookup(a: seq<Stamped>, b: seq<Stamped>, x: int, rest: seq<Joined>, a': seq<Stamped>, b': seq<Stamped>)
    requires StrictlyIncreasing(a) && StrictlyIncreasing(b)
    requires DropsFront(a, x, a') && DropsFront(b, x, b')
    requires forall i :: 0 <= i < |rest| ==> HasStamp(a', rest[i].stamp) || HasStamp(b', rest[i].stamp)
    requires forall i :: 0 <= i < |rest| ==>
               rest[i].p1 == LookupOr0(a', rest[i].stamp) && rest[i].p2 == LookupOr0(b', rest[i].stamp)
    ensures LookupOr0(a, x) == if |a| > 0 && a[0].stamp == x then a[0].status else Zero
    ensures LookupOr0(b, x) == if |b| > 0 && b[0].stamp == x then b[0].status else Zero
    ensures var j := [FrontRow(a, b, x)] + rest;
            forall i :: 0 <= i < |j| ==> j[i].p1 == LookupOr0(a, j[i].stamp) && j[i].p2 == LookupOr0(b, j[i].stamp)
  {
    DropFront(a, x, a');
    DropFront(b, x, b');
    DropFrontLookup(a, x, a');
    DropFrontLookup(b, x, b');
    var j := [FrontRow(a, b, x)] + rest;
    forall i | 0 <= i < |j| ensures j[i].p1 == LookupOr0(a, j[i].stamp) && j[i].p2 == LookupOr0(b, j[i].stamp) {
      if i > 0 {
        assert j[i] == rest[i - 1];
        assert j[i].stamp != x by {
          assert HasStamp(a', rest[i - 1].stamp) || HasStamp(b', rest[i - 1].stamp);
        }
      }
    }
  }

  // ---------------------------------------------------------------------
  // One-minute buckets
  // ---------------------------------------------------------------------

  const SecondsPerMinute: int := 60

  /** The minute a timestamp falls in (`floor(t / 60)`; Dafny's division by a positive number floors). */
  function MinuteOf(t: int): (m: int)
    ensures SecondsPerMinute * m <= t < SecondsPerMinute * m + SecondsPerMinute
  {
    t / SecondsPerMinute
  }

  /** The joined rows that fall in minute `m`, in order. */
  function RowsIn(j: seq<Joined>, m: int): seq<Joined>
  {
    if |j| == 0 then []
    else if MinuteOf(j[0].stamp) == m then [j[0]] + RowsIn(j[1..], m)
    else RowsIn(j[1..], m)
  }

  /** The field-wise sum of one point's statuses over joined rows. */
  function Sum(j: seq<Joined>, p: PointId): Status
  {
    if |j| == 0 then Zero else AddStatus(Side(j[0], p), Sum(j[1..], p))
  }

  /** One row of the per-minute table: the minute and each point's sums over its rows. */
  datatype MinuteRow = MinuteRow(minute: int, p1: Status, p2: Status)

  function MinuteSide(r: MinuteRow, p: PointId): Status
  {
    match p
    case P1 => r.p1
    case P2 => r.p2
  }

  /** The bucket of minute `m`: the sums over the joined rows in that minute (all zeros for an empty minute). */
  function Bucket(j: seq<Joined>, m: int): MinuteRow
  {
    var rows := RowsIn(j, m);
    MinuteRow(m, Sum(rows, P1), Sum(rows, P2))
  }

  /**
   * `resample('1min').sum()` over the joined table: one bucket for every
   * minute from the minute of the first timestamp to the minute of the last,
   * empty minutes included; nothing at all for an empty table.
   */
  function Resample(j: seq<Joined>): (r: seq<MinuteRow>)
    requires JoinedIncreasing(j)
    ensures |j| == 0 ==> r == []
    ensures |j| > 0 ==> |r| == MinuteOf(j[|j| - 1].stamp) - MinuteOf(j[0].stamp) + 1
    ensures forall k :: 0 <= k < |r| ==> r[k] == Bucket(j, MinuteOf(j[0].stamp) + k)
  {
    if |j| == 0 then []
    else
      var first := MinuteOf(j[0].stamp);
      var last := MinuteOf(j[|j| - 1].stamp);
      MinuteMonotone(j[0].stamp, j[|j| - 1].stamp);
      seq(last - first + 1, k requires 0 <= k <= last - first => Bucket(j, first + k))
  }

  lemma MinuteMonotone(s: int, t: int)
    requires s <= t
    ensures MinuteOf(s) <= MinuteOf(t)
  {
  }

  /** Every joined row's minute has its bucket. */
  lemma ResampleCovers(j: seq<Joined>)
    requires JoinedIncreasing(j)
    ensures forall i :: 0 <= i < |j| ==> exists k :: 0 <= k < |Resample(j)| && Resample(j)[k].minute == MinuteOf(j[i].stamp)
  {
    var r := Resample(j);
    if |j| > 0 {
      MinutesInRange(j);
      forall i | 0 <= i < |j| ensures exists k :: 0 <= k < |r| && r[k].minute == MinuteOf(j[i].stamp) {
        var k := MinuteOf(j[i].stamp) - MinuteOf(j[0].stamp);
        assert r[k] == Bucket(j, MinuteOf(j[i].stamp));
      }
    }
  }

  /** The seconds of a minute with no timestamp row, from the minute's `hasDt` count, clipped at zero. */
  function Missing(s: Status): int
  {
    if SecondsPerMinute - s.hasDt < 0 then 0 else SecondsPerMinute - s.hasDt
  }

  // ---------------------------------------------------------------------
  // What the buckets add up to
  // ---------------------------------------------------------------------

  /** The field-wise sum of one table's statuses. */
  function TableSum(a: seq<Stamped>): Status
  {
    if |a| == 0 then Zero else AddStatus(a[0].status, TableSum(a[1..]))
  }

  /** The rows of one table that fall in minute `m`, in order. */
  function StampedIn(a: seq<Stamped>, m: int): (r: seq<Stamped>)
    ensures forall i :: 0 <= i < |r| ==> MinuteOf(r[i].stamp) == m && r[i] in a
    ensures forall i :: 0 <= i < |a| && MinuteOf(a[i].stamp) == m ==> a[i] in r
  {
    if |a| == 0 then []
    else
      assert forall i :: 1 <= i < |a| ==> a[i] == a[1..][i - 1];
      if MinuteOf(a[0].stamp) == m then [a[0]] + StampedIn(a[1..], m) else StampedIn(a[1..], m)
  }

  /** Which rows of a table fall in minute `m`. */
  function MinuteMask(a: seq<Stamped>, m: int): (mask: seq<bool>)
    ensures |mask| == |a| && forall i :: 0 <= i < |a| ==> (mask[i] <==> MinuteOf(a[i].stamp) == m)
  {
    seq(|a|, i requires 0 <= i < |a| => MinuteOf(a[i].stamp) == m)
  }

  /** The rows of a non-empty table in minute `m`: the first row, if it falls there, then the rest. */
  lemma StampedInCons(a: seq<Stamped>, m: int)
    requires |a| > 0
    ensures StampedIn(a, m) == (if MinuteOf(a[0].stamp) == m then [a[0]] else []) + StampedIn(a[1..], m)
  {
  }

  /** The rows in minute `m` from position `from` on are the rows at the positions in that minute from `from` on. */
  lemma {:induction false} StampedInFrom(a: seq<Stamped>, m: int, from: nat)
    requires from <= |a|
    decreases |a| - from
    ensures StampedIn(a[from..], m) == Pick(a, Positions(MinuteMask(a, m), from))
  {
    if from < |a| {
      var mask := MinuteMask(a, m);
      var p, p' := Positions(mask, from), Positions(mask, from + 1);
      var q := a[from..];
      assert q[0] == a[from] && q[1..] == a[from + 1..];
      StampedInFrom(a, m, from + 1);
      StampedInCons(q, m);
      if mask[from] {
        assert p == [from] + p' && p[1..] == p';
      } else {
        assert p == p';
      }
    }
  }

  /** The rows of a minute are exactly the table's rows stamped in it, each once, in table order. */
  lemma StampedInIsFilter(a: seq<Stamped>, m: int)
    ensures var p := Positions(MinuteMask(a, m), 0);
            var r := StampedIn(a, m);
            |r| == |p| && forall k :: 0 <= k < |p| ==> r[k] == a[p[k]]
  {
    StampedInFrom(a, m, 0);
    assert a[0..] == a;
    PickIndex(a, Positions(MinuteMask(a, m), 0));
  }

  /** The join loses nothing and invents nothing: each point's column of the join sums to that point's table. */
  lemma {:induction false} JoinKeepsTotals(a: seq<Stamped>, b: seq<Stamped>)
    ensures Sum(OuterJoin(a, b), P1) == TableSum(a)
    ensures Sum(OuterJoin(a, b), P2) == TableSum(b)
    decreases |a| + |b|
  {
    if |a| == 0 && |b| == 0 {
    } else if |b| == 0 || (|a| > 0 && a[0].stamp < b[0].stamp) {
      JoinKeepsTotals(a[1..], b);
      SumCons(Joined(a[0].stamp, a[0].status, Zero), OuterJoin(a[1..], b));
      AddZero(TableSum(b));
    } else if |a| == 0 || b[0].stamp < a[0].stamp {
      JoinKeepsTotals(a, b[1..]);
      SumCons(Joined(b[0].stamp, Zero, b[0].status), OuterJoin(a, b[1..]));
      AddZero(TableSum(a));
    } else {
      JoinKeepsTotals(a[1..], b[1..]);
      SumCons(Joined(a[0].stamp, a[0].status, b[0].status), OuterJoin(a[1..], b[1..]));
    }
  }

  lemma SumCons(h: Joined, rest: seq<Joined>)
    ensures Sum([h] + rest, P1) == AddStatus(h.p1, Sum(rest, P1))
    ensures Sum([h] + rest, P2) == AddStatus(h.p2, Sum(rest, P2))
  {
    assert ([h] + rest)[1..] == rest;
  }

  /** Filtering the front row of a join by minute. */
  lemma RowsInFront(j: seq<Joined>, m: int, p: PointId)
    requires |j| > 0
    ensures Sum(RowsIn(j, m), p) ==
            if MinuteOf(j[0].stamp) == m then AddStatus(Side(j[0], p), Sum(RowsIn(j[1..], m), p))
            else Sum(RowsIn(j[1..], m), p)
  {
    if MinuteOf(j[0].stamp) == m {
      var r := RowsIn(j, m);
      assert r[1..] == RowsIn(j[1..], m);
    }
  }

  /**
   * Minute by minute the same holds: each point's half of the bucket of
   * minute `m` is the sum of that point's own rows in minute `m`.
   */
  lemma BucketIsOwnRows(a: seq<Stamped>, b: seq<Stamped>, m: int)
    ensures Bucket(OuterJoin(a, b), m).p1 == TableSum(StampedIn(a, m))
    ensures Bucket(OuterJoin(a, b), m).p2 == TableSum(StampedIn(b, m))
  {
    MinuteKeepsTotals(a, b, m);
  }

  lemma {:induction false} MinuteKeepsTotals(a: seq<Stamped>, b: seq<Stamped>, m: int)
    ensures MinuteTotals(a, b, m)
    decreases |a| + |b|
  {
    if |a| == 0 && |b| == 0 {
    } else if |b| == 0 || (|a| > 0 && a[0].stamp < b[0].stamp) {
      MinuteKeepsTotals(a[1..], b, m);
      MinuteFront(a, b, m, a[1..], b);
    } else if |a| == 0 || b[0].stamp < a[0].stamp {
      MinuteKeepsTotals(a, b[1..], m);
      MinuteFront(a, b, m, a, b[1..]);
    } else {
      MinuteKeepsTotals(a[1..], b[1..], m);
      MinuteFront(a, b, m, a[1..], b[1..]);
    }
  }

  /** Each point's half of the minute-`m` rows of the join sums to that point's own rows in minute `m`. */
  predicate MinuteTotals(a: seq<Stamped>, b: seq<Stamped>, m: int)
  {
    && Sum(RowsIn(OuterJoin(a, b), m), P1) == TableSum(StampedIn(a, m))
    && Sum(RowsIn(OuterJoin(a, b), m), P2) == TableSum(StampedIn(b, m))
  }

  /** One step of `MinuteKeepsTotals`: the join's front row is built from the fronts `a'` and `b'` drop. */
  lemma MinuteFront(a: seq<Stamped>, b: seq<Stamped>, m: int, a': seq<Stamped>, b': seq<Stamped>)
    requires |a| + |b| > 0
    requires OuterJoin(a, b)[1..] == OuterJoin(a', b') && MinuteTotals(a', b', m)
    requires a' == a || (|a| > 0 && a' == a[1..] && a[0].stamp == OuterJoin(a, b)[0].stamp)
    requires b' == b || (|b| > 0 && b' == b[1..] && b[0].stamp == OuterJoin(a, b)[0].stamp)
    requires OuterJoin(a, b)[0].p1 == if a' == a then Zero else a[0].status
    requires OuterJoin(a, b)[0].p2 == if b' == b then Zero else b[0].status
    ensures MinuteTotals(a, b, m)
  {
    var j := OuterJoin(a, b);
    RowsInFront(j, m, P1);
    RowsInFront(j, m, P2);
    if a' != a {
      StampedInFront(a, m);
    }
    if b' != b {
      StampedInFront(b, m);
    }
    AddZero(TableSum(StampedIn(a, m)));
    AddZero(TableSum(StampedIn(b, m)));
  }

  /** Filtering the front row of a table by minute. */
  lemma StampedInFront(a: seq<Stamped>, m: int)
    requires |a| > 0
    ensures TableSum(StampedIn(a, m)) ==
            if MinuteOf(a[0].stamp) == m then AddStatus(a[0].status, TableSum(StampedIn(a[1..], m)))
            else TableSum(StampedIn(a[1..], m))
  {
    if MinuteOf(a[0].stamp) == m {
      var r := StampedIn(a, m);
      assert r[1..] == StampedIn(a[1..], m);
    }
  }

  /** Where every row says `has_dt = 1`, the summed `has_dt` counts the rows. */
  lemma {:induction false} SecondsCountRows(a: seq<Stamped>)
    requires forall i :: 0 <= i < |a| ==> a[i].status.hasDt == 1
    ensures TableSum(a).hasDt == |a|
  {
    if |a| > 0 {
      assert forall i :: 1 <= i < |a| ==> a[i] == a[1..][i - 1];
      SecondsCountRows(a[1..]);
    }
  }

  /**
   * A strictly increasing table has at most 60 rows in one minute: the rows
   * of minute `m` that start at or after `lo` number at most
   * `60 * m + 60 - max(lo, 60 * m)`.
   */
  lemma {:induction false} AtMostSixtyFrom(a: seq<Stamped>, m: int, lo: int)
    requires StrictlyIncreasing(a)
    requires lo <= SecondsPerMinute * m + SecondsPerMinute
    requires |a| > 0 ==> lo <= a[0].stamp
    ensures |StampedIn(a, m)| <= SecondsPerMinute * m + SecondsPerMinute - Max(lo, SecondsPerMinute * m)
  {
    if |a| > 0 {
      DropFront(a, a[0].stamp, a[1..]);
      if |a| > 1 {
        assert a[1..][0].stamp > a[0].stamp by {
          assert HasStamp(a[1..], a[1..][0].stamp) by { assert Keys(a[1..])[0] == a[1..][0].stamp; }
        }
      }
      if MinuteOf(a[0].stamp) == m {
        AtMostSixtyFrom(a[1..], m, a[0].stamp + 1);
      } else {
        AtMostSixtyFrom(a[1..], m, lo);
      }
    }
  }

  /** The number of rows of a strictly increasing table in one minute is in [0, 60]. */
  lemma AtMostSixty(a: seq<Stamped>, m: int)
    requires StrictlyIncreasing(a)
    ensures |StampedIn(a, m)| <= SecondsPerMinute
  {
    var lo := if |a| > 0 && a[0].stamp < SecondsPerMinute * m then a[0].stamp else SecondsPerMinute * m;
    AtMostSixtyFrom(a, m, lo);
  }

  /**
   * The `has_dt` sum of a point's half of a bucket is the number of that
   * point's timestamps in the minute, at most 60; its missing seconds are
   * the rest of the minute, and a minute without any of its rows misses all 60.
   */
  lemma BucketSeconds(a: seq<Stamped>, b: seq<Stamped>, m: int)
    requires StrictlyIncreasing(a) && StrictlyIncreasing(b)
    requires forall i :: 0 <= i < |a| ==> a[i].status.hasDt == 1
    requires forall i :: 0 <= i < |b| ==> b[i].status.hasDt == 1
    ensures var r := Bucket(OuterJoin(a, b), m);
            && r.p1.hasDt == |StampedIn(a, m)| <= SecondsPerMinute
            && r.p2.hasDt == |StampedIn(b, m)| <= SecondsPerMinute
            && Missing(r.p1) == SecondsPerMinute - |StampedIn(a, m)|
            && Missing(r.p2) == SecondsPerMinute - |StampedIn(b, m)|
            && (Missing(r.p1) == SecondsPerMinute <==> forall i :: 0 <= i < |a| ==> MinuteOf(a[i].stamp) != m)
            && (Missing(r.p2) == SecondsPerMinute <==> forall i :: 0 <= i < |b| ==> MinuteOf(b[i].stamp) != m)
  {
    BucketIsOwnRows(a, b, m);
    OwnSeconds(a, m);
    OwnSeconds(b, m);
  }

  /** One table's own seconds in minute `m`: as many as its rows there, at most 60, and none exactly when no row falls there. */
  lemma OwnSeconds(a: seq<Stamped>, m: int)
    requires StrictlyIncreasing(a)
    requires forall i :: 0 <= i < |a| ==> a[i].status.hasDt == 1
    ensures TableSum(StampedIn(a, m)).hasDt == |StampedIn(a, m)| <= SecondsPerMinute
    ensures |StampedIn(a, m)| == 0 <==> forall i :: 0 <= i < |a| ==> MinuteOf(a[i].stamp) != m
  {
    AtMostSixty(a, m);
    var sa := StampedIn(a, m);
    forall i | 0 <= i < |sa| ensures sa[i].status.hasDt == 1 {
      var k :| 0 <= k < |a| && a[k] == sa[i];
    }
    SecondsCountRows(sa);
  }

  /** Missing seconds are never negative and never more than a minute. */
  lemma MissingBounds(s: Status)
    requires 0 <= s.hasDt
    ensures 0 <= Missing(s) <= SecondsPerMinute
    ensures s.hasDt <= SecondsPerMinute ==> Missing(s) == SecondsPerMinute - s.hasDt
    ensures s.hasDt >= SecondsPerMinute ==> Missing(s) == 0
  {
  }

  // ---------------------------------------------------------------------
  // Totals over all buckets
  // ---------------------------------------------------------------------

  /** The sum of field `f` of point `p`'s half over a run of buckets. */
  function BucketTotal(r: seq<MinuteRow>, p: PointId, f: Field): int
  {
    if |r| == 0 then 0 else Get(MinuteSide(r[0], p), f) + BucketTotal(r[1..], p, f)
  }

  /** The same sum taken straight from the joined rows, minute `lo` to minute `lo + n - 1`. */
  function RangeTotal(j: seq<Joined>, lo: int, n: nat, p: PointId, f: Field): int
    decreases n
  {
    if n == 0 then 0 else Get(Sum(RowsIn(j, lo), p), f) + RangeTotal(j, lo + 1, n - 1, p, f)
  }

  lemma {:induction false} BucketsAreRange(j: seq<Joined>, r: seq<MinuteRow>, lo: int, p: PointId, f: Field)
    requires forall k :: 0 <= k < |r| ==> r[k] == Bucket(j, lo + k)
    ensures BucketTotal(r, p, f) == RangeTotal(j, lo, |r|, p, f)
  {
    if |r| > 0 {
      assert forall k :: 0 <= k < |r[1..]| ==> r[1..][k] == r[k + 1];
      BucketsAreRange(j, r[1..], lo + 1, p, f);
    }
  }

  lemma {:induction false} RangeOfNothing(lo: int, n: nat, p: PointId, f: Field)
    ensures RangeTotal([], lo, n, p, f) == 0
    decreases n
  {
    if n > 0 {
      RangeOfNothing(lo + 1, n - 1, p, f);
    }
  }

  /** A row outside the minutes of the range adds nothing to it. */
  lemma {:induction false} RangeWithout(j: seq<Joined>, lo: int, n: nat, p: PointId, f: Field)
    requires |j| > 0
    requires MinuteOf(j[0].stamp) < lo || lo + n <= MinuteOf(j[0].stamp)
    ensures RangeTotal(j, lo, n, p, f) == RangeTotal(j[1..], lo, n, p, f)
    decreases n
  {
    if n > 0 {
      RowsInFront(j, lo, p);
      RangeWithout(j, lo + 1, n - 1, p, f);
    }
  }

  /** A row inside the minutes of the range is counted in it exactly once. */
  lemma {:induction false} RangeWith(j: seq<Joined>, lo: int, n: nat, p: PointId, f: Field)
    requires |j| > 0
    requires lo <= MinuteOf(j[0].stamp) < lo + n
    ensures RangeTotal(j, lo, n, p, f) == Get(Side(j[0], p), f) + RangeTotal(j[1..], lo, n, p, f)
    decreases n
  {
    RowsInFront(j, lo, p);
    if MinuteOf(j[0].stamp) == lo {
      RangeWithout(j, lo + 1, n - 1, p, f);
    } else {
      RangeWith(j, lo + 1, n - 1, p, f);
    }
  }

  /** A range of minutes that covers every row sums to the whole column. */
  lemma {:induction false} RangeCoversAll(j: seq<Joined>, lo: int, n: nat, p: PointId, f: Field)
    requires forall i :: 0 <= i < |j| ==> lo <= MinuteOf(j[i].stamp) < lo + n
    ensures RangeTotal(j, lo, n, p, f) == Get(Sum(j, p), f)
  {
    if |j| == 0 {
      RangeOfNothing(lo, n, p, f);
    } else {
      RangeWith(j, lo, n, p, f);
      assert forall i :: 0 <= i < |j[1..]| ==> j[1..][i] == j[i + 1];
      RangeCoversAll(j[1..], lo, n, p, f);
    }
  }

  /** Every row's minute lies between the first row's and the last row's. */
  lemma MinutesInRange(j: seq<Joined>)
    requires JoinedIncreasing(j) && |j| > 0
    ensures forall i :: 0 <= i < |j| ==>
              MinuteOf(j[0].stamp) <= MinuteOf(j[i].stamp) <= MinuteOf(j[|j| - 1].stamp)
  {
    forall i | 0 <= i < |j|
      ensures MinuteOf(j[0].stamp) <= MinuteOf(j[i].stamp) <= MinuteOf(j[|j| - 1].stamp)
    {
      if i > 0 {
        MinuteMonotone(j[0].stamp, j[i].stamp);
      }
      if i < |j| - 1 {
        MinuteMonotone(j[i].stamp, j[|j| - 1].stamp);
      }
    }
  }

  /** Resampling loses nothing and invents nothing: the buckets of a field sum to the column. */
  lemma ResampleKeepsTotals(j: seq<Joined>, p: PointId, f: Field)
    requires JoinedIncreasing(j)
    ensures BucketTotal(Resample(j), p, f) == Get(Sum(j, p), f)
  {
    if |j| > 0 {
      var r := Resample(j);
      MinutesInRange(j);
      BucketsAreRange(j, r, MinuteOf(j[0].stamp), p, f);
      RangeCoversAll(j, MinuteOf(j[0].stamp), |r|, p, f);
    }
  }

  /** One step of `JoinFacts`. */
  lemma JoinStep(a: seq<Stamped>, b: seq<Stamped>, x: int, rest: seq<Joined>, a': seq<Stamped>, b': seq<Stamped>)
    requires FrontStep(a, b, x, rest, a', b')
    ensures var j := [FrontRow(a, b, x)] + rest;
            && JoinedIncreasing(j)
            && (forall i :: 0 <= i < |j| ==> HasStamp(a, j[i].stamp) || HasStamp(b, j[i].stamp))
            && (forall y :: HasStamp(a, y) || HasStamp(b, y) ==> JoinedHas(j, y))
            && (forall i :: 0 <= i < |j| ==> j[i].p1 == LookupOr0(a, j[i].stamp) && j[i].p2 == LookupOr0(b, j[i].stamp))
    ensures FrontRow(a, b, x) == Joined(x, if |a| > 0 && a[0].stamp == x then a[0].status else Zero,
                                           if |b| > 0 && b[0].stamp == x then b[0].status else Zero)
  {
    FrontOrder(a, b, x, rest, a', b');
    FrontCover(a, b, x, rest, a', b');
    FrontLookup(a, b, x, rest, a', b');
  }

  /** The join is in strictly ascending timestamp order. */
  lemma JoinSorted(a: seq<Stamped>, b: seq<Stamped>)
    requires StrictlyIncreasing(a) && StrictlyIncreasing(b)
    ensures JoinedIncreasing(OuterJoin(a, b))
  {
    JoinFacts(a, b);
  }

  /**
   * The aggregation of one date: the two collapsed status tables joined,
   * absent values read as 0, and resampled into one-minute sums.
   */
  function Aggregate(a: seq<Stamped>, b: seq<Stamped>): (r: seq<MinuteRow>)
    requires StrictlyIncreasing(a) && StrictlyIncreasing(b)
  {
    JoinSorted(a, b);
    Resample(OuterJoin(a, b))
  }

  /** The missing seconds of point `p` in one bucket (`missing_P1`, `missing_P2`). */
  function MissingOf(r: MinuteRow, p: PointId): int
  {
    Missing(MinuteSide(r, p))
  }

  /** The sum of a point's missing seconds over a run of buckets. */
  function MissingTotal(r: seq<MinuteRow>, p: PointId): int
  {
    if |r| == 0 then 0 else MissingOf(r[0], p) + MissingTotal(r[1..], p)
  }

  /**
   * Every bucket of the aggregation is one minute, consecutive from the
   * first minute of either table to the last; each point's `has_dt` there
   * counts its own timestamps in that minute, at most 60, and its missing
   * seconds are the rest of the minute.
   */
  lemma AggregateBuckets(a: seq<Stamped>, b: seq<Stamped>, k: nat)
    requires StrictlyIncreasing(a) && StrictlyIncreasing(b)
    requires forall i :: 0 <= i < |a| ==> a[i].status.hasDt == 1
    requires forall i :: 0 <= i < |b| ==> b[i].status.hasDt == 1
    requires k < |Aggregate(a, b)|
    ensures var j := OuterJoin(a, b);
            var r := Aggregate(a, b)[k];
            && r.minute == MinuteOf(j[0].stamp) + k
            && r.p1.hasDt == |StampedIn(a, r.minute)| <= SecondsPerMinute
            && r.p2.hasDt == |StampedIn(b, r.minute)| <= SecondsPerMinute
            && MissingOf(r, P1) == SecondsPerMinute - r.p1.hasDt
            && MissingOf(r, P2) == SecondsPerMinute - r.p2.hasDt
  {
    BucketAt(a, b, k);
    var r := Aggregate(a, b)[k];
    BucketIsOwnRows(a, b, r.minute);
    OwnSeconds(a, r.minute);
    OwnSeconds(b, r.minute);
    MissingBounds(r.p1);
    MissingBounds(r.p2);
  }

  /**
   * The buckets run without a hole, one per minute, from the minute of the
   * earliest timestamp of either table to the minute of the latest; there
   * are none exactly when both tables are empty.
   */
  lemma AggregateSpan(a: seq<Stamped>, b: seq<Stamped>)
    requires StrictlyIncreasing(a) && StrictlyIncreasing(b)
    ensures var r := Aggregate(a, b);
            && (|r| == 0 <==> |a| == 0 && |b| == 0)
            && (forall k :: 0 <= k < |r| ==> r[k].minute == r[0].minute + k)
            && (forall x :: HasStamp(a, x) || HasStamp(b, x) ==>
                  |r| > 0 && r[0].minute <= MinuteOf(x) <= r[|r| - 1].minute)
            && (|r| > 0 ==> exists x :: (HasStamp(a, x) || HasStamp(b, x)) && MinuteOf(x) == r[0].minute)
            && (|r| > 0 ==> exists x :: (HasStamp(a, x) || HasStamp(b, x)) && MinuteOf(x) == r[|r| - 1].minute)
  {
    var j := OuterJoin(a, b);
    JoinFacts(a, b);
    AggregateIsResample(a, b);
    ResampleSpan(j);
    if |a| > 0 {
      assert HasStamp(a, a[0].stamp) by { assert Keys(a)[0] == a[0].stamp; }
    }
    if |b| > 0 {
      assert HasStamp(b, b[0].stamp) by { assert Keys(b)[0] == b[0].stamp; }
    }
    if |j| > 0 {
      assert HasStamp(a, j[0].stamp) || HasStamp(b, j[0].stamp);
      assert HasStamp(a, j[|j| - 1].stamp) || HasStamp(b, j[|j| - 1].stamp);
      forall x | HasStamp(a, x) || HasStamp(b, x)
        ensures MinuteOf(j[0].stamp) <= MinuteOf(x) <= MinuteOf(j[|j| - 1].stamp)
      {
        var i :| 0 <= i < |j| && j[i].stamp == x;
      }
    }
  }

  /**
   * The buckets of a resample are one per minute without a hole, from the
   * minute of the first joined row to that of the last, so every row's
   * minute has its own bucket; there are none for an empty join.
   */
  lemma ResampleSpan(j: seq<Joined>)
    requires JoinedIncreasing(j)
    ensures var r := Resample(j);
            && (|r| == 0 <==> |j| == 0)
            && (forall k :: 0 <= k < |r| ==> r[k].minute == r[0].minute + k)
            && (|j| > 0 ==> r[0].minute == MinuteOf(j[0].stamp) && r[|r| - 1].minute == MinuteOf(j[|j| - 1].stamp))
            && (forall i :: 0 <= i < |j| ==> |r| > 0 && r[0].minute <= MinuteOf(j[i].stamp) <= r[|r| - 1].minute)
  {
    var r := Resample(j);
    if |j| > 0 {
      MinutesInRange(j);
      forall k | 0 <= k < |r| ensures r[k].minute == r[0].minute + k {
        ResampleAt(j, k);
        ResampleAt(j, 0);
      }
      ResampleAt(j, 0);
      ResampleAt(j, |r| - 1);
    }
  }

  /** Bucket `k` of the aggregation is the bucket of the `k`-th minute after the first. */
  lemma BucketAt(a: seq<Stamped>, b: seq<Stamped>, k: nat)
    requires StrictlyIncreasing(a) && StrictlyIncreasing(b)
    requires k < |Aggregate(a, b)|
    ensures |OuterJoin(a, b)| > 0
    ensures Aggregate(a, b)[k] == Bucket(OuterJoin(a, b), MinuteOf(OuterJoin(a, b)[0].stamp) + k)
  {
    var j := OuterJoin(a, b);
    JoinSorted(a, b);
    AggregateIsResample(a, b);
    ResampleAt(j, k);
  }

  /** Unfolds the aggregation once, so that callers reason about the resample alone. */
  lemma AggregateIsResample(a: seq<Stamped>, b: seq<Stamped>)
    requires StrictlyIncreasing(a) && StrictlyIncreasing(b)
    ensures JoinedIncreasing(OuterJoin(a, b)) && Aggregate(a, b) == Resample(OuterJoin(a, b))
  {
    JoinSorted(a, b);
  }

  /** Bucket `k` of a resample is the bucket of the `k`-th minute after the first. */
  lemma ResampleAt(j: seq<Joined>, k: nat)
    requires JoinedIncreasing(j)
    requires k < |Resample(j)|
    ensures |j| > 0 && Resample(j)[k] == Bucket(j, MinuteOf(j[0].stamp) + k)
  {
  }

  /**
   * Over the whole aggregation each point's `has_dt` sums to the number of
   * its distinct timestamps, and its missing seconds to 60 per bucket less
   * that number.
   */
  lemma SecondsAccountedFor(a: seq<Stamped>, b: seq<Stamped>)
    requires StrictlyIncreasing(a) && StrictlyIncreasing(b)
    requires forall i :: 0 <= i < |a| ==> a[i].status.hasDt == 1
    requires forall i :: 0 <= i < |b| ==> b[i].status.hasDt == 1
    ensures BucketTotal(Aggregate(a, b), P1, HasDt) == |a|
    ensures BucketTotal(Aggregate(a, b), P2, HasDt) == |b|
    ensures MissingTotal(Aggregate(a, b), P1) == SecondsPerMinute * |Aggregate(a, b)| - |a|
    ensures MissingTotal(Aggregate(a, b), P2) == SecondsPerMinute * |Aggregate(a, b)| - |b|
  {
    JoinSorted(a, b);
    var r := Aggregate(a, b);
    var j := OuterJoin(a, b);
    JoinKeepsTotals(a, b);
    SecondsCountRows(a);
    SecondsCountRows(b);
    ResampleKeepsTotals(j, P1, HasDt);
    ResampleKeepsTotals(j, P2, HasDt);
    forall k | 0 <= k < |r|
      ensures 0 <= r[k].p1.hasDt <= SecondsPerMinute && 0 <= r[k].p2.hasDt <= SecondsPerMinute
    {
      AggregateBuckets(a, b, k);
    }
    MissingIsRest(r, P1);
    MissingIsRest(r, P2);
  }

  /** Where no bucket counts more than 60 seconds, the missing seconds are 60 per bucket less the counted ones. */
  lemma {:induction false} MissingIsRest(r: seq<MinuteRow>, p: PointId)
    requires forall k :: 0 <= k < |r| ==> 0 <= MinuteSide(r[k], p).hasDt <= SecondsPerMinute
    ensures MissingTotal(r, p) == SecondsPerMinute * |r| - BucketTotal(r, p, HasDt)
  {
    if |r| > 0 {
      assert forall k :: 0 <= k < |r[1..]| ==> r[1..][k] == r[k + 1];
      MissingIsRest(r[1..], p);
    }
  }
}
