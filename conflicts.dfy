/** The conflict detector: the half-open overlap rule and `hasTimeConflict` over the stored rows. */
module Conflicts {
  import opened Wrappers
  import opened Clock
  import opened Records

  /** `[s1, e1)` and `[s2, e2)` share a minute: `s1 < e2 && e1 > s2`. */
  predicate Overlaps(s1: int, e1: int, s2: int, e2: int) {
    s1 < e2 && e1 > s2
  }

  /** The overlap rule does not depend on which range is the existing one. */
  lemma OverlapsSymmetric(s1: int, e1: int, s2: int, e2: int)
    ensures Overlaps(s1, e1, s2, e2) <==> Overlaps(s2, e2, s1, e1)
  {
  }

  /** Ranges that only touch at a boundary do not overlap. */
  lemma TouchingRangesDoNotOverlap(s1: int, e1: int, e2: int)
    ensures !Overlaps(s1, e1, e1, e2) && !Overlaps(e1, e2, s1, e1)
  {
  }

  /** Only pending and confirmed appointments hold their range. */
  predicate Blocks(a: Appointment) {
    a.status == Pending || a.status == Confirmed
  }

  /** One row matched by the `where` clause of `hasTimeConflict`. */
  predicate ConflictsWith(a: Appointment, business: nat, date: string, s: int, e: int, exclude: Option<nat>) {
    && a.businessId == business
    && a.date == date
    && Blocks(a)
    && (exclude.None? || a.id != exclude.value)
    && Overlaps(StartMinutes(a), EndMinutes(a), s, e)
  }

  /** `Appointment.count({ where })` for the conflict query. */
  function CountConflicts(appts: seq<Appointment>, business: nat, date: string, s: int, e: int, exclude: Option<nat>): (n: nat)
    ensures n <= |appts|
    ensures n > 0 <==> exists k :: 0 <= k < |appts| && ConflictsWith(appts[k], business, date, s, e, exclude)
  {
    if appts == [] then 0
    else
      (if ConflictsWith(appts[0], business, date, s, e, exclude) then 1 else 0)
      + CountConflicts(appts[1..], business, date, s, e, exclude)
  }

  /**
    `hasTimeConflict`: some other pending or confirmed appointment of the business on that date,
    other than the excluded one, overlaps the range read from the two texts.
  */
  function HasTimeConflict(appts: seq<Appointment>, business: nat, date: string,
                           startTime: string, endTime: string, exclude: Option<nat>): (r: bool)
    ensures r <==> exists k ::
      && 0 <= k < |appts|
      && appts[k].businessId == business
      && appts[k].date == date
      && (appts[k].status == Pending || appts[k].status == Confirmed)
      && (exclude.None? || appts[k].id != exclude.value)
      && TimeToMinutes(appts[k].time) < TimeToMinutes(endTime)
      && TimeToMinutes(appts[k].endTime) > TimeToMinutes(startTime)
  {
    CountConflicts(appts, business, date, TimeToMinutes(startTime), TimeToMinutes(endTime), exclude) > 0
  }

  /**
    Taking rows out of the blocking set never creates a conflict: if every row of `after` that
    conflicts already conflicted in `before`, a conflict found in `after` was found in `before`.
  */
  lemma {:induction false} ReleasingAddsNoConflict(before: seq<Appointment>, after: seq<Appointment>,
                                                   business: nat, date: string, s: int, e: int, exclude: Option<nat>)
    requires |before| == |after|
    requires forall k :: 0 <= k < |after| && ConflictsWith(after[k], business, date, s, e, exclude) ==>
      ConflictsWith(before[k], business, date, s, e, exclude)
    ensures CountConflicts(after, business, date, s, e, exclude) <= CountConflicts(before, business, date, s, e, exclude)
  {
    if after != [] {
      ReleasingAddsNoConflict(before[1..], after[1..], business, date, s, e, exclude);
    }
  }
}
