/**
  The weekly business-hours record: a map from weekday (0 = Sunday .. 6 = Saturday) to the
  day's schedule, and the containment test of the appointment controller.
*/
module BusinessHours {
  import opened Wrappers
  import opened Clock

  /** One opening interval, as the "HH:MM" texts stored in the record. */
  datatype Interval = Interval(start: string, end: string)

  /**
    One weekday's entry. `intervals` is `None` when the stored entry has no interval list
    (the field is missing or is not an array).
  */
  datatype DaySchedule = DaySchedule(isOpen: bool, intervals: Option<seq<Interval>>)

  /** The week as stored: weekday keys may be missing. */
  type Week = map<int, DaySchedule>

  /** The half-open minute range `[s, e)` lies inside the interval. */
  predicate Contains(iv: Interval, s: int, e: int) {
    TimeToMinutes(iv.start) <= s && e <= TimeToMinutes(iv.end)
  }

  /** `intervals.some(...)`: one single interval holds the whole range. */
  function SomeIntervalContains(ivs: seq<Interval>, s: int, e: int): (r: bool)
    ensures r <==> exists k :: 0 <= k < |ivs| && Contains(ivs[k], s, e)
  {
    if ivs == [] then false
    else Contains(ivs[0], s, e) || SomeIntervalContains(ivs[1..], s, e)
  }

  /**
    `isWithinBusinessHours`: the day must be present, open and carry an interval list, and one
    of its intervals must contain the whole range read from the two texts.
  */
  function IsWithinBusinessHours(week: Week, dayOfWeek: int, startTime: string, endTime: string): (r: bool)
    ensures dayOfWeek !in week ==> !r
    ensures dayOfWeek in week && !week[dayOfWeek].isOpen ==> !r
    ensures dayOfWeek in week && week[dayOfWeek].intervals.None? ==> !r
    ensures r <==>
      dayOfWeek in week && week[dayOfWeek].isOpen && week[dayOfWeek].intervals.Some? &&
      exists k :: 0 <= k < |week[dayOfWeek].intervals.value| &&
        TimeToMinutes(week[dayOfWeek].intervals.value[k].start) <= TimeToMinutes(startTime) &&
        TimeToMinutes(endTime) <= TimeToMinutes(week[dayOfWeek].intervals.value[k].end)
  {
    if dayOfWeek !in week || !week[dayOfWeek].isOpen then false
    else if week[dayOfWeek].intervals.None? then false
    else SomeIntervalContains(week[dayOfWeek].intervals.value, TimeToMinutes(startTime), TimeToMinutes(endTime))
  }

  /**
    Two back-to-back intervals do not add up: a range that starts in the first and ends in the
    second is outside business hours, though every minute of it is open.
  */
  lemma ContiguousIntervalsDoNotJoin(week: Week, d: int, a: string, b: string, c: string, s: string, e: string)
    requires d in week && week[d] == DaySchedule(true, Some([Interval(a, b), Interval(b, c)]))
    requires TimeToMinutes(a) <= TimeToMinutes(s) < TimeToMinutes(b) < TimeToMinutes(e) <= TimeToMinutes(c)
    ensures !IsWithinBusinessHours(week, d, s, e)
  {
    var ivs := week[d].intervals.value;
    assert !Contains(ivs[0], TimeToMinutes(s), TimeToMinutes(e));
    assert !Contains(ivs[1], TimeToMinutes(s), TimeToMinutes(e));
  }
}
