/** The threshold sweep: for each interval of the standard list, the number
    of problematic cases whose gap lies within it, as a share of all
    problematic cases and as a share of the rows, for the whole table and
    for the `connect` and `mobile` check-in partitions. */
module Sweep {
  import opened Wrappers
  import opened Counting
  import opened Rentals
  import opened Statistics

  /** The thresholds, in minutes, that the dashboard sweeps. 720 minutes is
      the largest gap recorded in the data. */
  const TimeIntervals: seq<int> := [30, 60, 120, 240, 600, 720]

  predicate Ascending(xs: seq<int>) {
    forall i, j :: 0 <= i < j < |xs| ==> xs[i] <= xs[j]
  }

  predicate NonDecreasing(xs: seq<real>) {
    forall i, j :: 0 <= i < j < |xs| ==> xs[i] <= xs[j]
  }

  /** Every row is labelled `mobile` or `connect`. */
  predicate OnlyMobileOrConnect(df: seq<Rental>) {
    forall i :: 0 <= i < |df| ==> df[i].checkinType == Mobile || df[i].checkinType == Connect
  }

  /** `df[df['checkin_type'] == kind]`. */
  function Partition(df: seq<Rental>, kind: string): (part: seq<Rental>)
    ensures |part| == Count(df, CheckinMask(kind)) <= |df|
    ensures forall i :: 0 <= i < |part| ==> part[i].checkinType == kind
  {
    Where(df, CheckinMask(kind))
  }

  /** A partition holds exactly the rows of the table with that check-in
      type: none is dropped and none is added. */
  lemma PartitionMembers(df: seq<Rental>, kind: string)
    ensures forall r :: r in Partition(df, kind) <==> r in df && r.checkinType == kind
  {
    WhereMembers(df, CheckinMask(kind));
  }

  /** A partition never has more problematic cases, nor more cases within an
      interval, than the whole table. */
  lemma PartitionBounded(df: seq<Rental>, kind: string, interval: int)
    ensures ProbCases(Partition(df, kind)) <= ProbCases(df)
    ensures NumCasesWithin(Partition(df, kind), interval) <= NumCasesWithin(df, interval)
  {
    CountWhere(df, CheckinMask(kind), Problematic, CheckinProblematicMask(kind));
    CountMonotone(df, CheckinProblematicMask(kind), Problematic);
    CountWhere(df, CheckinMask(kind), WithinMask(interval), CheckinWithinMask(kind, interval));
    CountMonotone(df, CheckinWithinMask(kind, interval), WithinMask(interval));
  }

  /** When every row is `mobile` or `connect`, the two partitions split the
      rows, the problematic cases and the cases within any interval. */
  lemma PartitionAdditivity(df: seq<Rental>, interval: int)
    requires OnlyMobileOrConnect(df)
    ensures |Partition(df, Connect)| + |Partition(df, Mobile)| == |df|
    ensures ProbCases(Partition(df, Connect)) + ProbCases(Partition(df, Mobile)) == ProbCases(df)
    ensures NumCasesWithin(Partition(df, Connect), interval)
              + NumCasesWithin(Partition(df, Mobile), interval)
              == NumCasesWithin(df, interval)
  {
    CountComplement(df, CheckinMask(Connect), CheckinMask(Mobile));
    CountWhere(df, CheckinMask(Connect), Problematic, CheckinProblematicMask(Connect));
    CountWhere(df, CheckinMask(Mobile), Problematic, CheckinProblematicMask(Mobile));
    CountSplit(df, CheckinProblematicMask(Connect), CheckinProblematicMask(Mobile), Problematic);
    CountWhere(df, CheckinMask(Connect), WithinMask(interval), CheckinWithinMask(Connect, interval));
    CountWhere(df, CheckinMask(Mobile), WithinMask(interval), CheckinWithinMask(Mobile, interval));
    CountSplit(df, CheckinWithinMask(Connect, interval), CheckinWithinMask(Mobile, interval),
               WithinMask(interval));
  }

  /** The share series of one table over one denominator, interval by
      interval. */
  predicate IsShareSeries(df: seq<Rental>, total: nat, timeIntervals: seq<int>, series: seq<real>)
    requires total > 0
  {
    && |series| == |timeIntervals|
    && forall k :: 0 <= k < |timeIntervals| ==>
         series[k] == Percent(NumCasesWithin(df, timeIntervals[k]), total)
  }

  /** Over ascending intervals, a share series never decreases. */
  lemma SeriesMonotone(df: seq<Rental>, total: nat, timeIntervals: seq<int>, series: seq<real>)
    requires total > 0
    requires Ascending(timeIntervals) && IsShareSeries(df, total, timeIntervals, series)
    ensures NonDecreasing(series)
  {
    forall i, j | 0 <= i < j < |series|
      ensures series[i] <= series[j]
    {
      var a, b := timeIntervals[i], timeIntervals[j];
      NumCasesWithinMonotone(df, a, b);
      PercentMonotone(NumCasesWithin(df, a), NumCasesWithin(df, b), total);
    }
  }

  /** The series over the rows is the series over `other`, rescaled. */
  lemma SeriesRescale(df: seq<Rental>, other: nat, timeIntervals: seq<int>,
                      overOther: seq<real>, overRows: seq<real>)
    requires other > 0 && |df| > 0
    requires IsShareSeries(df, other, timeIntervals, overOther)
    requires IsShareSeries(df, |df|, timeIntervals, overRows)
    ensures forall k :: 0 <= k < |timeIntervals| ==>
              overRows[k] * |df| as real == overOther[k] * other as real
  {
    forall k | 0 <= k < |timeIntervals|
      ensures overRows[k] * |df| as real == overOther[k] * other as real
    {
      PercentRescale(NumCasesWithin(df, timeIntervals[k]), other, |df|);
    }
  }

  /** A table's cases within any interval, as a share of a count at least
      its problematic cases, never exceed 100. */
  lemma SeriesBounded(df: seq<Rental>, total: nat, timeIntervals: seq<int>, series: seq<real>)
    requires total > 0 && ProbCases(df) <= total
    requires IsShareSeries(df, total, timeIntervals, series)
    ensures forall k :: 0 <= k < |timeIntervals| ==> 0.0 <= series[k] <= 100.0
  {
    forall k | 0 <= k < |timeIntervals|
      ensures 0.0 <= series[k] <= 100.0
    {
      var n := NumCasesWithin(df, timeIntervals[k]);
      assert n <= total;
      assert series[k] == Percent(n, total);
    }
  }

  /** `calculate_percentages`: for each interval, the cases of `df` within
      it as a share of `probCases` and as a share of the rows of `df`. */
  method CalculatePercentages(df: seq<Rental>, probCases: nat, timeIntervals: seq<int>)
    returns (withinIntervals: seq<real>, withinIntervalsOverTotal: seq<real>)
    requires probCases > 0 && |df| > 0
    ensures |withinIntervals| == |timeIntervals| && |withinIntervalsOverTotal| == |timeIntervals|
    ensures forall k :: 0 <= k < |timeIntervals| ==>
              withinIntervals[k] == Percent(NumCasesWithin(df, timeIntervals[k]), probCases)
    ensures forall k :: 0 <= k < |timeIntervals| ==>
              withinIntervalsOverTotal[k] == Percent(NumCasesWithin(df, timeIntervals[k]), |df|)
    ensures Ascending(timeIntervals) ==>
              NonDecreasing(withinIntervals) && NonDecreasing(withinIntervalsOverTotal)
    ensures ProbCases(df) <= probCases ==>
              forall k :: 0 <= k < |timeIntervals| ==> 0.0 <= withinIntervals[k] <= 100.0
  {
    withinIntervals := [];
    withinIntervalsOverTotal := [];
    var n := 0;
    while n < |timeIntervals|
      invariant 0 <= n <= |timeIntervals|
      invariant |withinIntervals| == n && |withinIntervalsOverTotal| == n
      invariant forall k :: 0 <= k < n ==>
                  withinIntervals[k] == Percent(NumCasesWithin(df, timeIntervals[k]), probCases)
      invariant forall k :: 0 <= k < n ==>
                  withinIntervalsOverTotal[k] == Percent(NumCasesWithin(df, timeIntervals[k]), |df|)
    {
      var numCasesWithinInterval := NumCasesWithin(df, timeIntervals[n]);
      withinIntervals := withinIntervals + [Percent(numCasesWithinInterval, probCases)];
      withinIntervalsOverTotal := withinIntervalsOverTotal + [Percent(numCasesWithinInterval, |df|)];
      n := n + 1;
    }
    if Ascending(timeIntervals) {
      SeriesMonotone(df, probCases, timeIntervals, withinIntervals);
      SeriesMonotone(df, |df|, timeIntervals, withinIntervalsOverTotal);
    }
    if ProbCases(df) <= probCases {
      SeriesBounded(df, probCases, timeIntervals, withinIntervals);
    }
  }

  /** The whole-table sweep: the count of cases within each interval, its
      share of all problematic cases and its share of all rows. */
  method AllCarsSweep(df: seq<Rental>, timeIntervals: seq<int>)
    returns (numCasesWithinIntervals: seq<nat>, percentagesWithinIntervals: seq<real>,
             percentagesOverTotal: seq<real>)
    requires ProbCases(df) > 0
    ensures |numCasesWithinIntervals| == |timeIntervals|
    ensures |percentagesWithinIntervals| == |timeIntervals| && |percentagesOverTotal| == |timeIntervals|
    ensures forall k :: 0 <= k < |timeIntervals| ==>
              && numCasesWithinIntervals[k] == NumCasesWithin(df, timeIntervals[k])
              && percentagesWithinIntervals[k] == Percent(numCasesWithinIntervals[k], ProbCases(df))
              && percentagesOverTotal[k] == Percent(numCasesWithinIntervals[k], |df|)
    ensures forall k :: 0 <= k < |timeIntervals| ==>
              numCasesWithinIntervals[k] <= ProbCases(df) && 0.0 <= percentagesWithinIntervals[k] <= 100.0
    ensures forall k :: 0 <= k < |timeIntervals| && GapsAtMost(df, timeIntervals[k]) ==>
              numCasesWithinIntervals[k] == ProbCases(df) && percentagesWithinIntervals[k] == 100.0
    ensures Ascending(timeIntervals) ==>
              && (forall i, j :: 0 <= i < j < |timeIntervals| ==>
                    numCasesWithinIntervals[i] <= numCasesWithinIntervals[j])
              && NonDecreasing(percentagesWithinIntervals)
              && NonDecreasing(percentagesOverTotal)
  {
    var probCases := ProbCases(df);
    numCasesWithinIntervals := [];
    percentagesWithinIntervals := [];
    percentagesOverTotal := [];
    var n := 0;
    while n < |timeIntervals|
      invariant 0 <= n <= |timeIntervals|
      invariant |numCasesWithinIntervals| == n
      invariant |percentagesWithinIntervals| == n && |percentagesOverTotal| == n
      invariant forall k :: 0 <= k < n ==>
                  && numCasesWithinIntervals[k] == NumCasesWithin(df, timeIntervals[k])
                  && percentagesWithinIntervals[k] == Percent(numCasesWithinIntervals[k], probCases)
                  && percentagesOverTotal[k] == Percent(numCasesWithinIntervals[k], |df|)
    {
      var numCases := NumCasesWithin(df, timeIntervals[n]);
      numCasesWithinIntervals := numCasesWithinIntervals + [numCases];
      percentagesWithinIntervals := percentagesWithinIntervals + [Percent(numCases, probCases)];
      percentagesOverTotal := percentagesOverTotal + [Percent(numCases, |df|)];
      n := n + 1;
    }
    forall k | 0 <= k < |timeIntervals| && GapsAtMost(df, timeIntervals[k])
      ensures numCasesWithinIntervals[k] == probCases
      ensures percentagesWithinIntervals[k] == 100.0
    {
      Saturation(df, timeIntervals[k]);
      PercentExtremes(probCases, probCases);
    }
    if Ascending(timeIntervals) {
      forall i, j | 0 <= i < j < |timeIntervals|
        ensures numCasesWithinIntervals[i] <= numCasesWithinIntervals[j]
        ensures percentagesWithinIntervals[i] <= percentagesWithinIntervals[j]
        ensures percentagesOverTotal[i] <= percentagesOverTotal[j]
      {
        var a, b := timeIntervals[i], timeIntervals[j];
        NumCasesWithinMonotone(df, a, b);
        PercentMonotone(NumCasesWithin(df, a), NumCasesWithin(df, b), probCases);
        PercentMonotone(NumCasesWithin(df, a), NumCasesWithin(df, b), |df|);
      }
    }
  }

  /** The check-in breakdown: `calculate_percentages` on the `connect` and
      on the `mobile` partition, both over the whole table's problematic
      cases. When every row is `mobile` or `connect`, the two shares of
      problematic cases add up to the whole-table share at every interval. */
  method CheckinSweep(df: seq<Rental>, timeIntervals: seq<int>)
    returns (percentagesConnect: seq<real>, percentagesConnectOverTotal: seq<real>,
             percentagesMobile: seq<real>, percentagesMobileOverTotal: seq<real>)
    requires ProbCases(df) > 0
    requires |Partition(df, Connect)| > 0 && |Partition(df, Mobile)| > 0
    ensures IsShareSeries(Partition(df, Connect), ProbCases(df), timeIntervals, percentagesConnect)
    ensures IsShareSeries(Partition(df, Mobile), ProbCases(df), timeIntervals, percentagesMobile)
    ensures IsShareSeries(Partition(df, Connect), |Partition(df, Connect)|, timeIntervals,
                          percentagesConnectOverTotal)
    ensures IsShareSeries(Partition(df, Mobile), |Partition(df, Mobile)|, timeIntervals,
                          percentagesMobileOverTotal)
    ensures forall k :: 0 <= k < |timeIntervals| ==>
              && 0.0 <= percentagesConnect[k] <= 100.0
              && 0.0 <= percentagesMobile[k] <= 100.0
    ensures OnlyMobileOrConnect(df) ==>
              forall k :: 0 <= k < |timeIntervals| ==>
                percentagesConnect[k] + percentagesMobile[k]
                  == Percent(NumCasesWithin(df, timeIntervals[k]), ProbCases(df))
  {
    var probCases := ProbCases(df);
    var dfMobile := Partition(df, Mobile);
    var dfConnect := Partition(df, Connect);
    PartitionBounded(df, Connect, 0);
    PartitionBounded(df, Mobile, 0);
    percentagesConnect, percentagesConnectOverTotal := CalculatePercentages(dfConnect, probCases, timeIntervals);
    percentagesMobile, percentagesMobileOverTotal := CalculatePercentages(dfMobile, probCases, timeIntervals);
    if OnlyMobileOrConnect(df) {
      CheckinSeriesAdd(df, timeIntervals, percentagesConnect, percentagesMobile);
    }
  }

  /** `PartitionShares` at every interval of the two partitions' series. */
  lemma CheckinSeriesAdd(df: seq<Rental>, timeIntervals: seq<int>,
                         connect: seq<real>, mobile: seq<real>)
    requires ProbCases(df) > 0 && OnlyMobileOrConnect(df)
    requires IsShareSeries(Partition(df, Connect), ProbCases(df), timeIntervals, connect)
    requires IsShareSeries(Partition(df, Mobile), ProbCases(df), timeIntervals, mobile)
    ensures forall k :: 0 <= k < |timeIntervals| ==>
              connect[k] + mobile[k] == Percent(NumCasesWithin(df, timeIntervals[k]), ProbCases(df))
  {
    forall k | 0 <= k < |timeIntervals|
      ensures connect[k] + mobile[k] == Percent(NumCasesWithin(df, timeIntervals[k]), ProbCases(df))
    {
      PartitionShares(df, timeIntervals[k]);
    }
  }

  /** At one interval, when every row is `mobile` or `connect`, the two
      partitions' shares of the whole table's problematic cases add up to
      the whole-table share. */
  lemma PartitionShares(df: seq<Rental>, interval: int)
    requires ProbCases(df) > 0 && OnlyMobileOrConnect(df)
    ensures Percent(NumCasesWithin(Partition(df, Connect), interval), ProbCases(df))
              + Percent(NumCasesWithin(Partition(df, Mobile), interval), ProbCases(df))
              == Percent(NumCasesWithin(df, interval), ProbCases(df))
  {
    PartitionAdditivity(df, interval);
    PercentAdd(NumCasesWithin(Partition(df, Connect), interval),
               NumCasesWithin(Partition(df, Mobile), interval),
               NumCasesWithin(df, interval), ProbCases(df));
  }

  /** At one interval, when every row is `mobile` or `connect`: with `c`
      and `m` the cases within it in the `connect` and `mobile` partitions,
      of sizes `nc` and `nm`, and `n` those in the whole table, the
      partitions' shares of their own rows, weighted by their sizes, add up
      to the whole-table share of rows weighted by the row count. The counts
      and sizes are named by parameters that the requires tie to the
      partitions. */
  lemma PartitionRowShares(df: seq<Rental>, interval: int, c: nat, nc: nat, m: nat, nm: nat, n: nat)
    requires OnlyMobileOrConnect(df)
    requires nc == |Partition(df, Connect)| && nm == |Partition(df, Mobile)|
    requires nc > 0 && nm > 0
    requires c == NumCasesWithin(Partition(df, Connect), interval)
    requires m == NumCasesWithin(Partition(df, Mobile), interval)
    requires n == NumCasesWithin(df, interval)
    ensures Percent(c, nc) * nc as real + Percent(m, nm) * nm as real == Percent(n, |df|) * |df| as real
  {
    PartitionAdditivity(df, interval);
    WeightedPercentAdd(c, nc, m, nm, n, |df|);
  }

  /** The standard thresholds are strictly increasing, so every series of
      the sweep is non-decreasing. */
  lemma TimeIntervalsIncreasing()
    ensures forall i, j :: 0 <= i < j < |TimeIntervals| ==> TimeIntervals[i] < TimeIntervals[j]
    ensures Ascending(TimeIntervals)
  {
  }

  /** A four-row table: one problematic case (late, gap 5), one early
      chained rental, one late rental with no gap, and one chained rental
      exactly on time. */
  lemma FourRowScenario()
    ensures
      var df := [Rental(Some(10), Some(5), Some(1), Mobile),
                 Rental(Some(-5), Some(40), Some(2), Connect),
                 Rental(Some(20), None, None, Mobile),
                 Rental(Some(0), Some(700), Some(3), Connect)];
      && DriversOnTime(df) == 50.0
      && ProbCases(df) == 1
      && NumCasesWithin(df, 30) == 1
      && NumCasesWithin(df, 720) == 1
  {
    var r1, r2 := Rental(Some(10), Some(5), Some(1), Mobile), Rental(Some(-5), Some(40), Some(2), Connect);
    var r3, r4 := Rental(Some(20), None, None, Mobile), Rental(Some(0), Some(700), Some(3), Connect);
    var df := [r1, r2, r3, r4];
    assert df[1..] == [r2, r3, r4] && [r2, r3, r4][1..] == [r3, r4];
    assert [r3, r4][1..] == [r4] && [r4][1..] == [];
    assert Count([r4], OnTime) == 1 && Count([r3, r4], OnTime) == 1;
    assert Count([r2, r3, r4], OnTime) == 2 && Count(df, OnTime) == 2;
    assert Count([r4], Problematic) == 0 && Count([r3, r4], Problematic) == 0;
    assert Count([r2, r3, r4], Problematic) == 0 && Count(df, Problematic) == 1;
    assert Count([r4], WithinMask(30)) == 0 && Count([r3, r4], WithinMask(30)) == 0;
    assert Count([r2, r3, r4], WithinMask(30)) == 0 && Count(df, WithinMask(30)) == 1;
    assert Count([r4], WithinMask(720)) == 0 && Count([r3, r4], WithinMask(720)) == 0;
    assert Count([r2, r3, r4], WithinMask(720)) == 0 && Count(df, WithinMask(720)) == 1;
    assert DriversOnTime(df) == Percent(2, 4);
  }
}
