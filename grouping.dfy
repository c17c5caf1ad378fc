/**
 * The grouping of uploaded files by date and point: every file whose name
 * holds a `DD-MM-YYYY` token is filed under that date, as point P1 when
 * its name contains `Point01` and as P2 otherwise, a later file replacing
 * an earlier one in the same place; the dates are then taken in string
 * order, and a date is analysed only when both of its points are there.
 * A file is identified by its position in the upload list.
 */
module Grouping {
  import opened Wrappers
  import opened Texts
  import opened Aggregation

  const PointOneMarker: string := "Point01"

  /** The point a file belongs to: P1 exactly when its name contains `Point01`. */
  function PointOf(name: string): PointId
  {
    if Contains(name, PointOneMarker) then P1 else P2
  }

  /** The file at position `i` is filed under date `d` as point `p`. */
  predicate FiledAs(names: seq<string>, i: nat, d: string, p: PointId)
    requires i < |names|
  {
    DateKey(names[i]) == Some(d) && PointOf(names[i]) == p
  }

  /** Some file among the first `n` has date `d`. */
  predicate DateSeen(names: seq<string>, n: nat, d: string)
    requires n <= |names|
  {
    exists i :: 0 <= i < n && DateKey(names[i]) == Some(d)
  }

  /** The last of the first `n` files filed under date `d` as point `p`, if any. */
  function LastFiled(names: seq<string>, n: nat, d: string, p: PointId): Option<nat>
    requires n <= |names|
  {
    if n == 0 then None
    else if FiledAs(names, n - 1, d, p) then Some(n - 1)
    else LastFiled(names, n - 1, d, p)
  }

  /** `LastFiled` finds a file filed there with none such after it, or tells that there is none. */
  lemma {:induction false} LastFiledIsLast(names: seq<string>, n: nat, d: string, p: PointId)
    requires n <= |names|
    ensures var r := LastFiled(names, n, d, p);
            && (r.Some? ==> r.value < n && FiledAs(names, r.value, d, p))
            && (r.Some? ==> forall k :: r.value < k < n ==> !FiledAs(names, k, d, p))
            && (r.None? ==> forall k :: 0 <= k < n ==> !FiledAs(names, k, d, p))
  {
    if n > 0 && !FiledAs(names, n - 1, d, p) {
      LastFiledIsLast(names, n - 1, d, p);
    }
  }

  /** Date key to point to file, as the upload loop builds it. */
  type Groups = map<string, map<PointId, nat>>

  /** What the upload loop has built after the first `n` files. */
  ghost predicate GroupedUpTo(names: seq<string>, n: nat, groups: Groups)
    requires n <= |names|
  {
    DatesSeen(names, n, groups) && PointsFiled(names, n, groups)
  }

  /** A date is a key exactly when one of the first `n` files carries it. */
  ghost predicate DatesSeen(names: seq<string>, n: nat, groups: Groups)
    requires n <= |names|
  {
    forall d :: d in groups <==> DateSeen(names, n, d)
  }

  /** Under each date, a point is present exactly when one of the first `n` files is filed there, holding the last such file. */
  ghost predicate PointsFiled(names: seq<string>, n: nat, groups: Groups)
    requires n <= |names|
  {
    && (forall d, p | d in groups :: p in groups[d] <==> LastFiled(names, n, d, p).Some?)
    && (forall d, p | d in groups && p in groups[d] :: groups[d][p] == LastFiled(names, n, d, p).value)
  }

  /**
   * The upload loop: a date is a key exactly when some file carries it,
   * a point is present under it exactly when some file of that date is
   * that point, and the file kept is the last such one.
   */
  method GroupUploads(names: seq<string>) returns (groups: Groups)
    ensures GroupedUpTo(names, |names|, groups)
  {
    groups := map[];
    var n: nat := 0;
    NothingGrouped(names);
    while n < |names|
      invariant n <= |names|
      invariant GroupedUpTo(names, n, groups)
    {
      var key := DateKey(names[n]);
      if key.Some? {
        var d := key.value;
        ghost var before := groups;
        var group: map<PointId, nat> := if d in groups then groups[d] else map[];
        groups := groups[d := group[PointOf(names[n]) := n]];
        FileDated(names, n, before, groups, d);
      } else {
        SkipUnDated(names, n, groups);
      }
      n := n + 1;
    }
  }

  /** Looking one file further: that file is the last one of its place, every other place keeps its last file. */
  lemma LastFiledStep(names: seq<string>, n: nat, e: string, q: PointId)
    requires n < |names|
    ensures LastFiled(names, n + 1, e, q) == if FiledAs(names, n, e, q) then Some(n) else LastFiled(names, n, e, q)
  {
  }

  /** Looking one file further: a date is seen once that file or an earlier one carries it. */
  lemma DateSeenStep(names: seq<string>, n: nat, e: string)
    requires n < |names|
    ensures DateSeen(names, n + 1, e) <==> DateSeen(names, n, e) || DateKey(names[n]) == Some(e)
  {
    if DateSeen(names, n + 1, e) && DateKey(names[n]) != Some(e) {
      var i :| 0 <= i < n + 1 && DateKey(names[i]) == Some(e);
      assert i < n;
    }
  }

  lemma NothingGrouped(names: seq<string>)
    ensures GroupedUpTo(names, 0, map[])
  {
  }

  /** A file without a date token changes nothing. */
  lemma SkipUnDated(names: seq<string>, n: nat, groups: Groups)
    requires n < |names| && DateKey(names[n]).None?
    requires GroupedUpTo(names, n, groups)
    ensures GroupedUpTo(names, n + 1, groups)
  {
    forall e ensures e in groups <==> DateSeen(names, n + 1, e) {
      DateSeenStep(names, n, e);
    }
    forall e, q ensures LastFiled(names, n + 1, e, q) == LastFiled(names, n, e, q) {
      LastFiledStep(names, n, e, q);
    }
  }

  /** A file dated `d` becomes the file of its point under `d`, whatever was there before. */
  lemma FileDated(names: seq<string>, n: nat, groups: Groups, g': Groups, d: string)
    requires n < |names| && DateKey(names[n]) == Some(d)
    requires GroupedUpTo(names, n, groups)
    requires var group: map<PointId, nat> := if d in groups then groups[d] else map[];
             g' == groups[d := group[PointOf(names[n]) := n]]
    ensures GroupedUpTo(names, n + 1, g')
  {
    var p := PointOf(names[n]);
    var group: map<PointId, nat> := if d in groups then groups[d] else map[];
    forall e ensures e in g' <==> DateSeen(names, n + 1, e) {
      DateSeenStep(names, n, e);
    }
    forall e, q | e in g'
      ensures (q in g'[e] <==> LastFiled(names, n + 1, e, q).Some?)
      ensures q in g'[e] ==> g'[e][q] == LastFiled(names, n + 1, e, q).value
    {
      LastFiledStep(names, n, e, q);
      if e == d && q != p && d !in groups {
        LastFiledIsLast(names, n, e, q);
        if LastFiled(names, n, e, q).Some? {
          assert DateSeen(names, n, d);
        }
      }
    }
  }

  /** Strictly ascending in string order, so also free of repeats. */
  predicate StrictlySorted(s: seq<string>)
  {
    forall i, j :: 0 <= i < j < |s| ==> LexLess(s[i], s[j])
  }

  /** `d` put into its place in a strictly sorted sequence that does not hold it. */
  function InsertDate(d: string, s: seq<string>): (r: seq<string>)
    requires StrictlySorted(s) && d !in s
    ensures StrictlySorted(r)
    ensures forall e :: e in r <==> e == d || e in s
    ensures |r| == |s| + 1
  {
    if |s| == 0 then [d]
    else if LexLess(d, s[0]) then
      InsertFront(d, s);
      [d] + s
    else
      assert StrictlySorted(s[1..]);
      var rest := InsertDate(d, s[1..]);
      LexLessTotal(d, s[0]);
      InsertBehind(s, d, rest);
      [s[0]] + rest
  }

  lemma InsertFront(d: string, s: seq<string>)
    requires StrictlySorted(s) && |s| > 0 && LexLess(d, s[0])
    ensures StrictlySorted([d] + s)
  {
    var r := [d] + s;
    forall i, j | 0 <= i < j < |r| ensures LexLess(r[i], r[j]) {
      if i == 0 && j > 1 {
        LexLessTransitive(d, s[0], s[j - 1]);
      }
    }
  }

  lemma InsertBehind(s: seq<string>, d: string, rest: seq<string>)
    requires StrictlySorted(s) && |s| > 0 && LexLess(s[0], d)
    requires StrictlySorted(rest)
    requires forall e :: e in rest <==> e == d || e in s[1..]
    ensures StrictlySorted([s[0]] + rest)
  {
    var r := [s[0]] + rest;
    forall i, j | 0 <= i < j < |r| ensures LexLess(r[i], r[j]) {
      if i == 0 {
        assert r[j] in rest;
        if r[j] != d {
          var k :| 0 <= k < |s[1..]| && s[1..][k] == r[j];
          assert s[k + 1] == r[j];
        }
      } else {
        assert r[i] == rest[i - 1] && r[j] == rest[j - 1];
      }
    }
  }

  /** The dates of the groups in `sorted(data_groups.keys())` order: string order, each once. */
  method SortedDates(groups: Groups) returns (dates: seq<string>)
    ensures StrictlySorted(dates)
    ensures forall d :: d in dates <==> d in groups
    ensures |dates| == |groups|
  {
    dates := [];
    var rest := groups.Keys;
    while rest != {}
      invariant StrictlySorted(dates)
      invariant forall d :: d in dates || d in rest <==> d in groups
      invariant forall d :: d in dates ==> d !in rest
      invariant |dates| + |rest| == |groups|
      decreases |rest|
    {
      var d :| d in rest;
      dates := InsertDate(d, dates);
      rest := rest - {d};
    }
  }

  /**
   * String order is day-first, not calendar order: 1 February 2024 comes
   * before 2 January 2024, and 1 January 2025 before 31 December 2024.
   */
  lemma StringOrderIsDayFirst()
    ensures LexLess("01-02-2024", "02-01-2024")
    ensures LexLess("01-01-2025", "31-12-2024")
  {
  }

  /** What the page does with one date: skip it, or analyse the two files kept for it. */
  datatype DatePlan = Skipped | Analysed(p1: nat, p2: nat)

  function PlanFor(group: map<PointId, nat>): DatePlan
  {
    if P1 in group && P2 in group then Analysed(group[P1], group[P2]) else Skipped
  }

  /**
   * The whole selection: the dates in string order, each once, every date
   * seen in a file name among them, and for each the plan the page follows.
   */
  method PlanUploads(names: seq<string>) returns (dates: seq<string>, plans: seq<DatePlan>)
    ensures StrictlySorted(dates)
    ensures forall d :: d in dates <==> DateSeen(names, |names|, d)
    ensures |plans| == |dates|
    ensures forall k :: 0 <= k < |dates| ==> PlanFits(names, dates[k], plans[k])
  {
    var groups := GroupUploads(names);
    dates := SortedDates(groups);
    plans := [];
    var k := 0;
    while k < |dates|
      invariant k <= |dates|
      invariant |plans| == k
      invariant forall i :: 0 <= i < k ==> PlanFits(names, dates[i], plans[i])
    {
      var d := dates[k];
      PlanForFits(names, groups, d);
      plans := plans + [PlanFor(groups[d])];
      k := k + 1;
    }
  }

  /** The plan for a date of the finished grouping fits the uploads. */
  lemma PlanForFits(names: seq<string>, groups: Groups, d: string)
    requires GroupedUpTo(names, |names|, groups) && d in groups
    ensures PlanFits(names, d, PlanFor(groups[d]))
  {
  }

  /**
   * A date is analysed exactly when some file of that date is P1 and some
   * is P2, and then with the last file of each.
   */
  ghost predicate PlanFits(names: seq<string>, d: string, plan: DatePlan)
  {
    && (plan.Analysed? <==> LastFiled(names, |names|, d, P1).Some? && LastFiled(names, |names|, d, P2).Some?)
    && (plan.Analysed? ==> Some(plan.p1) == LastFiled(names, |names|, d, P1) &&
                           Some(plan.p2) == LastFiled(names, |names|, d, P2))
  }
}
