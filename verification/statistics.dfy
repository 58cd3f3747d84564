/** The whole-table statistics of the dashboard: on-time and late checkout
    shares, the share of rentals a minimum-delay feature would concern, and
    the problematic-case count with its share.

    Percentages are exact `real` quotients `100 * count / total`. The
    dashboard divides without a guard; a zero denominator is a precondition
    here. */
module Statistics {
  import opened Counting
  import opened Rentals

  /** `100 * count / total`. */
  function Percent(count: nat, total: nat): (p: real)
    requires total > 0
    ensures 0.0 <= p
    ensures count <= total ==> p <= 100.0
  {
    100.0 * count as real / total as real
  }

  /** A share is 100 exactly for the whole denominator and 0 exactly for an
      empty count. */
  lemma PercentExtremes(count: nat, total: nat)
    requires total > 0
    ensures Percent(count, total) == 100.0 <==> count == total
    ensures Percent(count, total) == 0.0 <==> count == 0
  {
    var p, t := Percent(count, total), total as real;
    PercentTimesTotal(count, total);
    assert p * t == 100.0 * count as real;
    if count == total {
      assert (p - 100.0) * t == 0.0;
    }
    if count == 0 {
      assert p * t == 0.0;
    }
  }

  /** Percentages over one denominator add like their counts. */
  lemma PercentAdd(a: nat, b: nat, sum: nat, total: nat)
    requires total > 0 && a + b == sum
    ensures Percent(a, total) + Percent(b, total) == Percent(sum, total)
  {
  }

  /** Three counts that together make the denominator have shares adding
      up to 100. */
  lemma PercentsOfPartition(a: nat, b: nat, c: nat, total: nat)
    requires total > 0 && a + b + c == total
    ensures Percent(a, total) + Percent(b, total) + Percent(c, total) == 100.0
  {
    PercentAdd(a, b, a + b, total);
    PercentAdd(a + b, c, total, total);
    PercentExtremes(total, total);
  }

  /** A larger count gives a larger percentage over the same denominator. */
  lemma PercentMonotone(a: nat, b: nat, total: nat)
    requires total > 0 && a <= b
    ensures Percent(a, total) <= Percent(b, total)
  {
    var t := total as real;
    assert 100.0 * a as real <= 100.0 * b as real;
    assert 100.0 * a as real / t <= 100.0 * b as real / t;
  }

  /** Scaling a share back by its denominator recovers 100 times the count. */
  lemma PercentTimesTotal(count: nat, total: nat)
    requires total > 0
    ensures Percent(count, total) * total as real == 100.0 * count as real
  {
    var c := 100.0 * count as real;
    assert c / total as real * total as real == c;
  }

  /** Shares over different denominators, each weighted by its own
      denominator, add like their counts. */
  lemma WeightedPercentAdd(a: nat, ta: nat, b: nat, tb: nat, sum: nat, total: nat)
    requires ta > 0 && tb > 0 && total > 0 && a + b == sum
    ensures Percent(a, ta) * ta as real + Percent(b, tb) * tb as real
              == Percent(sum, total) * total as real
  {
    PercentTimesTotal(a, ta);
    PercentTimesTotal(b, tb);
    PercentTimesTotal(sum, total);
  }

  /** The share of one count over the rows is its share over another
      denominator, rescaled by that denominator over the rows. */
  lemma PercentRescale(count: nat, other: nat, total: nat)
    requires other > 0 && total > 0
    ensures Percent(count, total) * total as real == Percent(count, other) * other as real
  {
    var c := 100.0 * count as real;
    assert c / total as real * total as real == c;
    assert c / other as real * other as real == c;
  }

  // ---------------------------------------------------------------------
  // On-time and late checkouts

  function DriversOnTimeCount(df: seq<Rental>): nat {
    Count(df, OnTime)
  }

  function DriversLate(df: seq<Rental>): nat {
    Count(df, Late)
  }

  /** Percentage of drivers who returned the car on time or early. */
  function DriversOnTime(df: seq<Rental>): (p: real)
    requires |df| > 0
    ensures 0.0 <= p <= 100.0
    ensures p == 100.0 <==> forall i :: 0 <= i < |df| ==> OnTime(df[i])
  {
    CountExtremes(df, OnTime);
    PercentExtremes(DriversOnTimeCount(df), |df|);
    Percent(DriversOnTimeCount(df), |df|)
  }

  /** Percentage of drivers late for checkout. */
  function PercentageDriversLate(df: seq<Rental>): (p: real)
    requires |df| > 0
    ensures 0.0 <= p <= 100.0
    ensures p == 0.0 <==> forall i :: 0 <= i < |df| ==> !Late(df[i])
  {
    CountExtremes(df, Late);
    PercentExtremes(DriversLate(df), |df|);
    Percent(DriversLate(df), |df|)
  }

  /** On-time and late never overlap, so their counts add up to at most the
      row count, and to exactly the row count iff no delay is missing. */
  lemma OnTimeLateCounts(df: seq<Rental>)
    ensures DriversOnTimeCount(df) + DriversLate(df) <= |df|
    ensures (DriversOnTimeCount(df) + DriversLate(df) == |df|)
              <==> forall i :: 0 <= i < |df| ==> !DelayMissing(df[i])
  {
    CountDisjoint(df, OnTime, Late);
  }

  /** The rows with a missing delay make up exactly the gap between the
      on-time and late counts and the row count. */
  lemma MissingDelayCount(df: seq<Rental>)
    ensures DriversOnTimeCount(df) + DriversLate(df) + Count(df, DelayMissing) == |df|
  {
    var known := (r: Rental) => !DelayMissing(r);
    CountSplit(df, OnTime, Late, known);
    CountComplement(df, known, DelayMissing);
  }

  /** The two shares add to at most 100, and to exactly 100 iff no delay is
      missing. */
  lemma OnTimeLateShares(df: seq<Rental>)
    requires |df| > 0
    ensures DriversOnTime(df) + PercentageDriversLate(df) <= 100.0
    ensures (DriversOnTime(df) + PercentageDriversLate(df) == 100.0)
              <==> forall i :: 0 <= i < |df| ==> !DelayMissing(df[i])
  {
    var onTime, late := DriversOnTimeCount(df), DriversLate(df);
    assert DriversOnTime(df) == Percent(onTime, |df|);
    assert PercentageDriversLate(df) == Percent(late, |df|);
    OnTimeLateCounts(df);
    PercentAdd(onTime, late, onTime + late, |df|);
    PercentExtremes(onTime + late, |df|);
  }

  /** What the on-time and late shares leave of 100 is the share of rows
      whose delay is missing. */
  lemma MissingDelayShare(df: seq<Rental>)
    requires |df| > 0
    ensures DriversOnTime(df) + PercentageDriversLate(df)
              + Percent(Count(df, DelayMissing), |df|) == 100.0
  {
    var onTime, late, missing := DriversOnTimeCount(df), DriversLate(df), Count(df, DelayMissing);
    assert DriversOnTime(df) == Percent(onTime, |df|);
    assert PercentageDriversLate(df) == Percent(late, |df|);
    MissingDelayCount(df);
    PercentsOfPartition(onTime, late, missing, |df|);
  }

  /** The summary states 32.5% on time and 44% late; on any table showing
      those two shares, 23.5% of the rows have no recorded delay. */
  lemma StatedSharesImplyMissingDelays(df: seq<Rental>)
    requires |df| > 0
    requires DriversOnTime(df) == 32.5 && PercentageDriversLate(df) == 44.0
    ensures Percent(Count(df, DelayMissing), |df|) == 23.5
    ensures exists i :: 0 <= i < |df| && DelayMissing(df[i])
  {
    MissingDelayShare(df);
    PercentExtremes(Count(df, DelayMissing), |df|);
    CountExtremes(df, DelayMissing);
  }

  // ---------------------------------------------------------------------
  // Rentals concerned by a minimum delay between rentals

  function NumRentalsConcerned(df: seq<Rental>): nat {
    Count(df, Concerned)
  }

  /** Share of rentals that follow a previous rental of the same car. */
  function PercentageRentalsAffected(df: seq<Rental>): (p: real)
    requires |df| > 0
    ensures 0.0 <= p <= 100.0
    ensures p == 0.0 <==> forall i :: 0 <= i < |df| ==> df[i].previousEndedRentalId.None?
  {
    CountExtremes(df, Concerned);
    PercentExtremes(NumRentalsConcerned(df), |df|);
    Percent(NumRentalsConcerned(df), |df|)
  }

  /** If every row with a positive gap names its previous rental, then every
      problematic case is among the concerned rentals. */
  lemma ProblematicAreConcerned(df: seq<Rental>)
    requires forall i :: 0 <= i < |df| ==> PositiveGap(df[i]) ==> Concerned(df[i])
    ensures ProbCases(df) <= NumRentalsConcerned(df)
  {
    CountMonotone(df, Problematic, Concerned);
  }

  // ---------------------------------------------------------------------
  // Problematic cases

  /** Rows with a positive gap and a late checkout. */
  function ProbCases(df: seq<Rental>): nat {
    Count(df, Problematic)
  }

  function PercentageProbCases(df: seq<Rental>): (p: real)
    requires |df| > 0
    ensures 0.0 <= p <= 100.0
  {
    Percent(ProbCases(df), |df|)
  }

  /** `df.shape[0] - prob_cases`: never negative, and exactly the number of
      rows that are not problematic. */
  function NonProbCases(df: seq<Rental>): (n: int)
    ensures 0 <= n <= |df|
    ensures n == Count(df, NotProblematic)
  {
    CountComplement(df, Problematic, NotProblematic);
    |df| - ProbCases(df)
  }

  /** `100 - percentage_prob_cases`, which is the share of the
      non-problematic rows. */
  function PercentageNonProbCases(df: seq<Rental>): (p: real)
    requires |df| > 0
    ensures 0.0 <= p <= 100.0
    ensures p == Percent(NonProbCases(df), |df|)
    ensures p + PercentageProbCases(df) == 100.0
  {
    PercentAdd(ProbCases(df), NonProbCases(df), |df|, |df|);
    100.0 - PercentageProbCases(df)
  }

  // ---------------------------------------------------------------------
  // Cases within one interval

  /** Problematic rows whose gap is at most `interval`. */
  function NumCasesWithin(df: seq<Rental>, interval: int): (n: nat)
    ensures n <= ProbCases(df)
  {
    CountMonotone(df, WithinMask(interval), Problematic);
    Count(df, WithinMask(interval))
  }

  /** Every gap that is positive is at most `interval`. */
  predicate GapsAtMost(df: seq<Rental>, interval: int) {
    forall i :: 0 <= i < |df| && PositiveGap(df[i]) ==> df[i].timeDeltaWithPrevious.value <= interval
  }

  /** A larger interval counts at least as many cases. */
  lemma NumCasesWithinMonotone(df: seq<Rental>, a: int, b: int)
    requires a <= b
    ensures NumCasesWithin(df, a) <= NumCasesWithin(df, b)
  {
    CountMonotone(df, WithinMask(a), WithinMask(b));
  }

  /** Once the interval covers every positive gap, every problematic case is
      counted; conversely, counting all of them means every problematic
      case's gap lies within the interval. */
  lemma Saturation(df: seq<Rental>, interval: int)
    ensures GapsAtMost(df, interval) ==> NumCasesWithin(df, interval) == ProbCases(df)
    ensures NumCasesWithin(df, interval) == ProbCases(df) ==>
              forall i :: 0 <= i < |df| && Problematic(df[i]) ==>
                df[i].timeDeltaWithPrevious.value <= interval
  {
    if GapsAtMost(df, interval) {
      CountAgree(df, WithinMask(interval), Problematic);
    }
    if NumCasesWithin(df, interval) == ProbCases(df) {
      var outside := (r: Rental) => Problematic(r) && !WithinInterval(r, interval);
      CountSplit(df, WithinMask(interval), outside, Problematic);
      CountExtremes(df, outside);
    }
  }

  /** Rows that can never be problematic leave every count unchanged when
      appended to a table. */
  lemma UnqualifiedRowsChangeNothing(df: seq<Rental>, extra: seq<Rental>, interval: int)
    requires forall i :: 0 <= i < |extra| ==> NotProblematic(extra[i])
    ensures ProbCases(df + extra) == ProbCases(df)
    ensures NumCasesWithin(df + extra, interval) == NumCasesWithin(df, interval)
  {
    CountAppend(df, extra, Problematic);
    CountAppend(df, extra, WithinMask(interval));
    CountMonotone(extra, WithinMask(interval), Problematic);
    CountExtremes(extra, Problematic);
  }
}
