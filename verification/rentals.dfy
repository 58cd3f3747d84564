/** One row of the rental-delay spreadsheet and the boolean masks the
    dashboard builds over its columns.

    A numeric cell is an `Option<int>`: `None` is a missing (NaN) cell, and
    every comparison with a missing cell is false, as in pandas. A record
    with a missing delay is therefore neither on time nor late, and one with
    a missing gap is never problematic. */
module Rentals {
  import opened Wrappers

  /** Check-in labels the dashboard partitions on. */
  const Mobile: string := "mobile"
  const Connect: string := "connect"

  datatype Rental = Rental(
    /** `delay_at_checkout_in_minutes`: actual minus planned checkout. */
    delayAtCheckout: Option<int>,
    /** `time_delta_with_previous_rental_in_minutes`: planned gap to the
        previous rental of the same car. */
    timeDeltaWithPrevious: Option<int>,
    /** `previous_ended_rental_id`. */
    previousEndedRentalId: Option<int>,
    /** `checkin_type`, compared by string equality. */
    checkinType: string)

  /** `delay_at_checkout_in_minutes <= 0`: returned on time or early. */
  predicate OnTime(r: Rental) {
    r.delayAtCheckout.Some? && r.delayAtCheckout.value <= 0
  }

  /** `delay_at_checkout_in_minutes > 0`: late for checkout. */
  predicate Late(r: Rental) {
    r.delayAtCheckout.Some? && r.delayAtCheckout.value > 0
  }

  /** The delay cell is missing, so neither mask above holds. */
  predicate DelayMissing(r: Rental) {
    r.delayAtCheckout.None?
  }

  /** `previous_ended_rental_id.notnull()`: the rental follows another one
      on the same car, so a minimum-delay feature would concern it. */
  predicate Concerned(r: Rental) {
    r.previousEndedRentalId.Some?
  }

  /** `time_delta_with_previous_rental_in_minutes > 0`. */
  predicate PositiveGap(r: Rental) {
    r.timeDeltaWithPrevious.Some? && r.timeDeltaWithPrevious.value > 0
  }

  /** A problematic case: positive gap to the previous rental and a late
      checkout. */
  predicate Problematic(r: Rental) {
    PositiveGap(r) && Late(r)
  }

  predicate NotProblematic(r: Rental) {
    !Problematic(r)
  }

  /** The per-interval mask of the threshold sweep:
      `0 < time_delta <= interval` and `delay > 0`. */
  predicate WithinInterval(r: Rental, interval: int) {
    && r.timeDeltaWithPrevious.Some?
    && 0 < r.timeDeltaWithPrevious.value <= interval
    && Late(r)
  }

  /** `WithinInterval` at a fixed interval, as a mask over rows. */
  function WithinMask(interval: int): Rental -> bool {
    r => WithinInterval(r, interval)
  }

  /** `checkin_type == kind`, as a mask over rows. */
  function CheckinMask(kind: string): Rental -> bool {
    (r: Rental) => r.checkinType == kind
  }

  /** The rows of one check-in partition that fall within an interval. */
  function CheckinWithinMask(kind: string, interval: int): Rental -> bool {
    (r: Rental) => r.checkinType == kind && WithinInterval(r, interval)
  }

  /** The problematic rows of one check-in partition. */
  function CheckinProblematicMask(kind: string): Rental -> bool {
    (r: Rental) => r.checkinType == kind && Problematic(r)
  }

  /** A row is counted within an interval only if it is problematic, and a
      problematic row is counted within every interval at least as large as
      its gap. */
  lemma WithinIntervalMeansProblematic(r: Rental, interval: int)
    ensures WithinInterval(r, interval) <==>
              Problematic(r) && r.timeDeltaWithPrevious.value <= interval
  {
  }

  /** A row whose gap is missing or not positive, or whose delay is missing
      or not positive, is never problematic nor counted within any interval. */
  lemma UnqualifiedNeverCounted(r: Rental, interval: int)
    requires r.timeDeltaWithPrevious.None? || r.timeDeltaWithPrevious.value <= 0
          || r.delayAtCheckout.None? || r.delayAtCheckout.value <= 0
    ensures !Problematic(r) && !WithinInterval(r, interval)
  {
  }

  /** The three delay masks partition the rows: exactly one of them holds. */
  lemma DelayMasksPartition(r: Rental)
    ensures !(OnTime(r) && Late(r))
    ensures OnTime(r) || Late(r) || DelayMissing(r)
    ensures DelayMissing(r) ==> !OnTime(r) && !Late(r)
  {
  }
}
