/**
 * Spike (outlier) detection on the PM2.5 readings of one point: a centred
 * rolling median of up to eleven readings as the baseline, the two-rule flag
 * (absolute ceiling, or more than `limit` above the baseline), the error
 * count, and the sample of at most three distinct clock times of flagged
 * readings.
 */
module Spikes {
  import opened Sorting
  import opened Filters

  /** Readings above this value are errors whatever the baseline. */
  const Ceiling: real := 6600.0
  /** The window reaches this many readings back and forward (`window=11, center=True`). */
  const HalfWindow: nat := 5
  /** At most this many clock times are listed in the report. */
  const SampleSize: nat := 3

  // ---------------------------------------------------------------------
  // Smallest and largest reading, median
  // ---------------------------------------------------------------------

  function SeqMin(w: seq<real>): (m: real)
    requires |w| > 0
    ensures m in w && forall k :: 0 <= k < |w| ==> m <= w[k]
  {
    if |w| == 1 then w[0]
    else
      var rest := SeqMin(w[1..]);
      assert forall k :: 1 <= k < |w| ==> w[k] == w[1..][k - 1];
      if w[0] <= rest then w[0] else rest
  }

  function SeqMax(w: seq<real>): (m: real)
    requires |w| > 0
    ensures m in w && forall k :: 0 <= k < |w| ==> w[k] <= m
  {
    if |w| == 1 then w[0]
    else
      var rest := SeqMax(w[1..]);
      assert forall k :: 1 <= k < |w| ==> w[k] == w[1..][k - 1];
      if w[0] >= rest then w[0] else rest
  }

  /**
   * The median: the middle reading in ascending order, or the average of the
   * two middle readings when there is an even number of them.  It never
   * leaves the range of the readings.
   */
  function Median(w: seq<real>): (m: real)
    requires |w| > 0
    ensures SeqMin(w) <= m <= SeqMax(w)
  {
    var s := Sort(w);
    var n := |s|;
    assert forall k :: 0 <= k < n ==> SeqMin(w) <= s[k] <= SeqMax(w) by {
      forall k | 0 <= k < n ensures SeqMin(w) <= s[k] <= SeqMax(w) {
        assert s[k] in multiset(s);
        assert s[k] in w;
      }
    }
    Middle(s)
  }

  /** The middle element of a sequence, or the average of the two middle elements when its length is even. */
  function Middle(s: seq<real>): real
    requires |s| > 0
  {
    var n := |s|;
    if n % 2 == 1 then s[n / 2] else (s[n / 2 - 1] + s[n / 2]) / 2.0
  }

  /**
   * The median does not depend on how the readings were sorted: for any
   * ascending arrangement of them it is the middle reading, or the average
   * of the two middle readings.
   */
  lemma MedianIsMiddle(w: seq<real>, s: seq<real>)
    requires |s| == |w| > 0 && Sorted(s) && multiset(s) == multiset(w)
    ensures Median(w) == Middle(s)
  {
    SortedUnique(Sort(w), s);
  }

  // ---------------------------------------------------------------------
  // The centred window and the baseline
  // ---------------------------------------------------------------------

  /** The first position of the window of `i`: five back, or the start of the series. */
  function WindowStart(i: nat): nat
  {
    if i >= HalfWindow then i - HalfWindow else 0
  }

  /** Just past the last position of the window of `i` in a series of `n`: five on, or the end of the series. */
  function WindowEnd(n: nat, i: nat): nat
  {
    if i + HalfWindow + 1 <= n then i + HalfWindow + 1 else n
  }

  /**
   * The readings at positions i-5 .. i+5 that exist: the window shrinks at
   * both ends of the series and always holds the reading itself.
   */
  function Window(v: seq<real>, i: nat): (w: seq<real>)
    requires i < |v|
    ensures 1 <= |w| <= 2 * HalfWindow + 1
    ensures |w| == WindowEnd(|v|, i) - WindowStart(i)
    ensures forall k :: 0 <= k < |w| ==> w[k] == v[WindowStart(i) + k]
    ensures v[i] in w
    ensures forall j :: 0 <= j < |v| && i - HalfWindow <= j <= i + HalfWindow ==> v[j] in w
    ensures forall x :: x in w ==> exists j :: 0 <= j < |v| && i - HalfWindow <= j <= i + HalfWindow && v[j] == x
  {
    var w := v[WindowStart(i)..WindowEnd(|v|, i)];
    assert forall j :: WindowStart(i) <= j < WindowEnd(|v|, i) ==> v[j] == w[j - WindowStart(i)];
    w
  }

  /** In the readings 0, 0, 10 the middle one's window is all three, so its baseline is 0, not the 5 that a shorter window would give. */
  lemma ThreeReadingBaseline()
    ensures Baseline([0.0, 0.0, 10.0], 1) == 0.0
  {
    var v := [0.0, 0.0, 10.0];
    assert Window(v, 1) == v;
    MedianIsMiddle(v, v);
  }

  /** The rolling-median baseline of the reading at position `i`. */
  function Baseline(v: seq<real>, i: nat): real
    requires i < |v|
  {
    Median(Window(v, i))
  }

  /** The flag rule: above the ceiling, or more than `limit` above the baseline. */
  predicate IsSpike(x: real, baseline: real, limit: real)
  {
    x > Ceiling || x - baseline > limit
  }

  /** Whether the reading at position `i` is an error. */
  predicate FlagAt(v: seq<real>, limit: real, i: nat)
    requires i < |v|
  {
    IsSpike(v[i], Baseline(v, i), limit)
  }

  /** One flag per reading. */
  function Flags(v: seq<real>, limit: real): (f: seq<bool>)
    ensures |f| == |v|
  {
    seq(|v|, i requires 0 <= i < |v| => FlagAt(v, limit, i))
  }

  /** A reading above 6600 is an error for every limit. */
  lemma AboveCeilingIsFlagged(v: seq<real>, limit: real, i: nat)
    requires i < |v| && v[i] > Ceiling
    ensures Flags(v, limit)[i]
  {
  }

  /** A reading at most 6600 and at most `limit` above its baseline is never an error. */
  lemma WithinLimitIsNotFlagged(v: seq<real>, limit: real, i: nat)
    requires i < |v| && v[i] <= Ceiling && v[i] - Baseline(v, i) <= limit
    ensures !Flags(v, limit)[i]
  {
  }

  /**
   * The rule is one-directional: with a non-negative limit, a reading of at
   * most 6600 that is no higher than any reading of its window (a drop) is
   * never an error.
   */
  lemma LocalMinimumIsNotFlagged(v: seq<real>, limit: real, i: nat)
    requires i < |v| && 0.0 <= limit && v[i] <= Ceiling
    requires forall j :: 0 <= j < |v| && i - HalfWindow <= j <= i + HalfWindow ==> v[i] <= v[j]
    ensures !Flags(v, limit)[i]
  {
    var w := Window(v, i);
    var lowest := SeqMin(w);
    var j :| 0 <= j < |v| && i - HalfWindow <= j <= i + HalfWindow && v[j] == lowest;
    assert v[i] <= lowest <= Baseline(v, i);
  }

  /** When every reading of the window lies in [lo, hi], so does the baseline. */
  lemma {:induction false} BaselineWithinWindow(v: seq<real>, i: nat, lo: real, hi: real)
    requires i < |v|
    requires forall j :: 0 <= j < |v| && i - HalfWindow <= j <= i + HalfWindow ==> lo <= v[j] <= hi
    ensures lo <= Baseline(v, i) <= hi
  {
    var w := Window(v, i);
    var a :| 0 <= a < |v| && i - HalfWindow <= a <= i + HalfWindow && v[a] == SeqMin(w);
    var b :| 0 <= b < |v| && i - HalfWindow <= b <= i + HalfWindow && v[b] == SeqMax(w);
  }

  // ---------------------------------------------------------------------
  // Counting errors
  // ---------------------------------------------------------------------

  function CountTrue(f: seq<bool>): (n: nat)
    ensures n <= |f|
    ensures n == 0 <==> forall i :: 0 <= i < |f| ==> !f[i]
  {
    if |f| == 0 then 0
    else
      assert forall i :: 1 <= i < |f| ==> f[i] == f[1..][i - 1];
      (if f[0] then 1 else 0) + CountTrue(f[1..])
  }

  lemma {:induction false} CountTrueAppend(a: seq<bool>, b: seq<bool>)
    ensures CountTrue(a + b) == CountTrue(a) + CountTrue(b)
  {
    if |a| > 0 {
      assert (a + b)[1..] == a[1..] + b;
      CountTrueAppend(a[1..], b);
    } else {
      assert a + b == b;
    }
  }

  /** A single true flag among false ones counts once. */
  lemma CountSingle(f: seq<bool>, i: nat)
    requires i < |f| && f[i]
    requires forall j :: 0 <= j < |f| && j != i ==> !f[j]
    ensures CountTrue(f) == 1
  {
    var before, after := f[..i], f[i + 1..];
    assert f == before + [true] + after;
    assert CountTrue(before) == 0 && CountTrue(after) == 0;
    CountTrueAppend(before + [true], after);
    CountTrueAppend(before, [true]);
  }

  /** One of the ten readings of 10 next to a single 9999 is never an error under limit 100. */
  lemma ElevenRowQuiet(v: seq<real>, i: nat)
    requires |v| == 11 && v[6] == 9999.0
    requires forall j :: 0 <= j < 11 && j != 6 ==> v[j] == 10.0
    requires i < 11 && i != 6
    ensures !FlagAt(v, 100.0, i)
  {
    BaselineWithinWindow(v, i, 10.0, 9999.0);
  }

  /**
   * Eleven readings a minute apart, all 10 but one 9999 in the middle, with
   * the default limit of 100: exactly that one reading is an error.
   */
  lemma ElevenRowScenario(v: seq<real>)
    requires |v| == 11 && v[6] == 9999.0
    requires forall j :: 0 <= j < 11 && j != 6 ==> v[j] == 10.0
    ensures forall i :: 0 <= i < 11 ==> (Flags(v, 100.0)[i] <==> i == 6)
    ensures CountTrue(Flags(v, 100.0)) == 1
  {
    var f := Flags(v, 100.0);
    forall i | 0 <= i < |v| && i != 6 ensures !f[i] {
      ElevenRowQuiet(v, i);
    }
    assert f[6];
    CountSingle(f, 6);
  }

  // ---------------------------------------------------------------------
  // The error report
  // ---------------------------------------------------------------------

  /** A non-null PM2.5 reading with its timestamp in seconds (one row of the de-nulled view). */
  datatype PmPoint = PmPoint(stamp: int, value: real)

  function Values(pm: seq<PmPoint>): (v: seq<real>)
    ensures |v| == |pm| && forall k :: 0 <= k < |pm| ==> v[k] == pm[k].value
  {
    seq(|pm|, k requires 0 <= k < |pm| => pm[k].value)
  }

  const SecondsPerDay: int := 86400

  /** The `HH:MM:SS` rendering of a timestamp, as its three numbers. */
  datatype Clock = Clock(hour: int, minute: int, second: int)

  /** The clock time of a timestamp: its position within its day. */
  function ClockOf(t: int): (c: Clock)
    ensures 0 <= c.hour < 24 && 0 <= c.minute < 60 && 0 <= c.second < 60
    ensures c.hour * 3600 + c.minute * 60 + c.second == t % SecondsPerDay
  {
    var d := t % SecondsPerDay;
    var inHour := d % 3600;
    Clock(d / 3600, inHour / 60, inHour % 60)
  }

  /** The clock times of the flagged readings, in series order. */
  function FlaggedClocks(pm: seq<PmPoint>, flags: seq<bool>): (c: seq<Clock>)
    requires |flags| == |pm|
    ensures |c| == CountTrue(flags)
    ensures forall x :: x in c <==> exists i :: 0 <= i < |pm| && flags[i] && ClockOf(pm[i].stamp) == x
  {
    if |pm| == 0 then []
    else
      var rest := FlaggedClocks(pm[1..], flags[1..]);
      assert forall i :: 1 <= i < |pm| ==> pm[i] == pm[1..][i - 1] && flags[i] == flags[1..][i - 1];
      if flags[0] then [ClockOf(pm[0].stamp)] + rest else rest
  }

  /** The clock times of a non-empty series: the first reading's, if it is flagged, then the rest. */
  lemma FlaggedClocksCons(pm: seq<PmPoint>, flags: seq<bool>)
    requires |flags| == |pm| > 0
    ensures FlaggedClocks(pm, flags) == (if flags[0] then [ClockOf(pm[0].stamp)] else []) + FlaggedClocks(pm[1..], flags[1..])
  {
  }

  /** The clock times from position `from` on are those of the flagged readings from `from` on. */
  lemma {:induction false} FlaggedClocksFrom(pm: seq<PmPoint>, flags: seq<bool>, from: nat)
    requires |flags| == |pm| && from <= |pm|
    decreases |pm| - from
    ensures var p := Positions(flags, from);
            var c := FlaggedClocks(pm[from..], flags[from..]);
            && |c| == |p|
            && forall k :: 0 <= k < |p| ==> c[k] == ClockOf(pm[p[k]].stamp)
  {
    if from < |pm| {
      var p, p' := Positions(flags, from), Positions(flags, from + 1);
      var q, g := pm[from..], flags[from..];
      assert q[0] == pm[from] && q[1..] == pm[from + 1..];
      assert g[0] == flags[from] && g[1..] == flags[from + 1..];
      var c, c' := FlaggedClocks(q, g), FlaggedClocks(pm[from + 1..], flags[from + 1..]);
      FlaggedClocksFrom(pm, flags, from + 1);
      FlaggedClocksCons(q, g);
      if flags[from] {
        assert p == [from] + p' && c == [ClockOf(pm[from].stamp)] + c';
        forall k | 0 <= k < |p| ensures c[k] == ClockOf(pm[p[k]].stamp) {
          if k > 0 {
            assert c[k] == c'[k - 1] && p[k] == p'[k - 1];
          }
        }
      } else {
        assert p == p' && c == c';
      }
    }
  }

  /** Entry `k` of the clock times is the time of the `k`-th flagged reading of the series. */
  lemma FlaggedClocksInOrder(pm: seq<PmPoint>, flags: seq<bool>)
    requires |flags| == |pm|
    ensures var p := Positions(flags, 0);
            var c := FlaggedClocks(pm, flags);
            && |c| == |p|
            && forall k :: 0 <= k < |p| ==> c[k] == ClockOf(pm[p[k]].stamp)
  {
    FlaggedClocksFrom(pm, flags, 0);
    assert pm[0..] == pm && flags[0..] == flags;
  }

  /** The first clock time listed is that of the first flagged reading. */
  lemma {:induction false} FirstFlaggedClock(pm: seq<PmPoint>, flags: seq<bool>, i: nat)
    requires |flags| == |pm| && i < |pm| && flags[i]
    requires forall j :: 0 <= j < i ==> !flags[j]
    ensures |FlaggedClocks(pm, flags)| > 0 && FlaggedClocks(pm, flags)[0] == ClockOf(pm[i].stamp)
  {
    if i > 0 {
      assert flags[1..][i - 1] && pm[1..][i - 1] == pm[i];
      FirstFlaggedClock(pm[1..], flags[1..], i - 1);
    }
  }

  predicate Distinct(s: seq<Clock>)
  {
    forall i, j :: 0 <= i < j < |s| ==> s[i] != s[j]
  }

  /** The position of the first occurrence of `x`. */
  function FirstIndex(s: seq<Clock>, x: Clock): (k: nat)
    requires x in s
    ensures k < |s| && s[k] == x && x !in s[..k]
  {
    if s[0] == x then 0
    else
      var k := FirstIndex(s[1..], x);
      assert s[..k + 1] == [s[0]] + s[1..][..k];
      k + 1
  }

  lemma {:induction false} FirstIndexOfPrefix(s: seq<Clock>, t: seq<Clock>, x: Clock)
    requires x in s
    ensures FirstIndex(s + t, x) == FirstIndex(s, x)
  {
    if s[0] != x {
      assert (s + t)[1..] == s[1..] + t;
      FirstIndexOfPrefix(s[1..], t, x);
    }
  }

  /** `unique()`: the distinct elements, in order of first occurrence. */
  function Dedup(s: seq<Clock>): (d: seq<Clock>)
    ensures forall x :: x in d <==> x in s
    ensures Distinct(d)
    ensures |s| > 0 ==> |d| > 0 && d[0] == s[0]
    ensures forall i, j :: 0 <= i < j < |d| ==> FirstIndex(s, d[i]) < FirstIndex(s, d[j])
  {
    if |s| == 0 then []
    else
      var init, x := s[..|s| - 1], s[|s| - 1];
      var d := Dedup(init);
      assert s == init + [x];
      forall y | y in init ensures FirstIndex(s, y) == FirstIndex(init, y) {
        FirstIndexOfPrefix(init, [x], y);
      }
      if x in d then d
      else
        d + [x]
  }

  /** The outcome shown for one point. */
  datatype ErrorReport = NoAnomaly | Found(count: nat, sample: seq<Clock>)

  /**
   * No error: "no anomalies found".  Otherwise the error count and the
   * first (at most) three distinct clock times of flagged readings.
   */
  function Report(pm: seq<PmPoint>, flags: seq<bool>): (r: ErrorReport)
    requires |flags| == |pm|
    ensures r.NoAnomaly? <==> forall i :: 0 <= i < |flags| ==> !flags[i]
    ensures r.Found? ==> r.count == CountTrue(flags) >= 1
    ensures r.Found? ==> 1 <= |r.sample| <= SampleSize && Distinct(r.sample)
  {
    var count := CountTrue(flags);
    if count == 0 then NoAnomaly
    else Found(count, FirstFew(Dedup(FlaggedClocks(pm, flags))))
  }

  /** `[:3]`: the first (at most) three elements. */
  function FirstFew(times: seq<Clock>): (r: seq<Clock>)
    ensures |r| == if |times| <= SampleSize then |times| else SampleSize
    ensures forall k :: 0 <= k < |r| ==> r[k] == times[k]
  {
    if |times| <= SampleSize then times else times[..SampleSize]
  }

  /**
   * The sample of a report: clock times of flagged readings, three of them
   * unless every flagged time is in it, starting with the first flagged
   * reading's, in order of first occurrence.
   */
  lemma ReportSample(pm: seq<PmPoint>, flags: seq<bool>)
    requires |flags| == |pm|
    ensures var r := Report(pm, flags);
            && (r.Found? ==> forall c :: c in r.sample ==>
                  exists i :: 0 <= i < |pm| && flags[i] && ClockOf(pm[i].stamp) == c)
            && (r.Found? ==> forall i :: 0 <= i < |pm| && flags[i] && ClockOf(pm[i].stamp) !in r.sample ==>
                  |r.sample| == SampleSize)
            && (r.Found? ==> forall i :: 0 <= i < |pm| && flags[i] && (forall j :: 0 <= j < i ==> !flags[j]) ==>
                  r.sample[0] == ClockOf(pm[i].stamp))
            && (r.Found? ==> forall a, b :: 0 <= a < b < |r.sample| ==>
                  r.sample[a] in FlaggedClocks(pm, flags) && r.sample[b] in FlaggedClocks(pm, flags) &&
                  FirstIndex(FlaggedClocks(pm, flags), r.sample[a]) < FirstIndex(FlaggedClocks(pm, flags), r.sample[b]))
  {
    if CountTrue(flags) > 0 {
      var clocks := FlaggedClocks(pm, flags);
      var times := Dedup(clocks);
      var sample := FirstFew(times);
      assert forall c :: c in sample ==> c in times;
      forall i | 0 <= i < |pm| && flags[i] && (forall j :: 0 <= j < i ==> !flags[j])
        ensures sample[0] == ClockOf(pm[i].stamp)
      {
        FirstFlaggedClock(pm, flags, i);
      }
    }
  }

  /**
   * The sample skips nothing: a flagged time left out of it first occurs
   * after every time in it, so the sample is the earliest distinct times.
   */
  lemma SampleSkipsNothing(pm: seq<PmPoint>, flags: seq<bool>)
    requires |flags| == |pm|
    ensures var r := Report(pm, flags);
            var clocks := FlaggedClocks(pm, flags);
            r.Found? ==> forall c, x :: c in clocks && c !in r.sample && x in r.sample ==>
                           FirstIndex(clocks, x) < FirstIndex(clocks, c)
  {
    if CountTrue(flags) > 0 {
      var clocks := FlaggedClocks(pm, flags);
      var times := Dedup(clocks);
      var sample := FirstFew(times);
      assert Report(pm, flags).sample == sample;
      forall c, x | c in clocks && c !in sample && x in sample
        ensures FirstIndex(clocks, x) < FirstIndex(clocks, c)
      {
        var jc :| 0 <= jc < |times| && times[jc] == c;
        var jx :| 0 <= jx < |sample| && sample[jx] == x;
        assert times[jx] == x;
      }
    }
  }
}
