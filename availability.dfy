/**
  The availability generator of `getAvailableSlots`, as functions of its inputs: the booked
  ranges it derives from the stored rows, the 15-minute walk over each opening interval, and
  what is proved about the slots it emits.
*/
module Availability {
  import opened Wrappers
  import opened Clock
  import opened BusinessHours
  import opened Records
  import opened Conflicts

  /** The fixed distance between two candidate start times. */
  const Step: nat := 15

  /** A booked minute range `[start, end)`. */
  datatype Range = Range(start: int, end: int)

  /** The generator treats every row of the business and date that is not rejected as booked. */
  predicate IsBooked(a: Appointment, business: nat, date: string) {
    a.businessId == business && a.date == date && a.status != Rejected
  }

  /**
    `app.service?.duracao_minutos || service.duracao_minutos`: the duration of the row's own
    service when it is joined and non-zero, otherwise the duration of the requested service.
  */
  function BookedDuration(a: Appointment, services: seq<Service>, fallback: nat): nat {
    match ServiceById(services, a.serviceId)
    case Some(s) => if s.duration != 0 then s.duration else fallback
    case None => fallback
  }

  /** The range a booked row occupies for the generator; its stored end text is not used. */
  function BookedRange(a: Appointment, services: seq<Service>, fallback: nat): Range {
    Range(StartMinutes(a), StartMinutes(a) + BookedDuration(a, services, fallback))
  }

  /** `existingAppointments.map(...)` over the rows selected by the generator's query. */
  function BookedRanges(appts: seq<Appointment>, services: seq<Service>, business: nat, date: string, fallback: nat): (r: seq<Range>)
    ensures forall x :: x in r <==>
      exists k :: 0 <= k < |appts| && IsBooked(appts[k], business, date) && x == BookedRange(appts[k], services, fallback)
  {
    if appts == [] then []
    else
      var rest := BookedRanges(appts[1..], services, business, date, fallback);
      assert forall k :: 1 <= k < |appts| ==> appts[k] == appts[1..][k - 1];
      (if IsBooked(appts[0], business, date) then [BookedRange(appts[0], services, fallback)] else []) + rest
  }

  /** `bookedSlots.some(...)`: the candidate `[s, e)` overlaps some booked range. */
  function AnyBookedOverlap(booked: seq<Range>, s: int, e: int): (r: bool)
    ensures r <==> exists k :: 0 <= k < |booked| && Overlaps(s, e, booked[k].start, booked[k].end)
  {
    if booked == [] then false
    else Overlaps(s, e, booked[0].start, booked[0].end) || AnyBookedOverlap(booked[1..], s, e)
  }

  /** On the current date, a start time before now is in the past. */
  predicate IsPast(t: int, isToday: bool, nowMinutes: int) {
    isToday && t < nowMinutes
  }

  /** A candidate start time that is neither past nor overlapping a booked range. */
  predicate Free(t: nat, d: nat, booked: seq<Range>, isToday: bool, nowMinutes: int) {
    !IsPast(t, isToday, nowMinutes) && !AnyBookedOverlap(booked, t, t + d)
  }

  /** The start times emitted for one interval, walking from `t` while `t + d <= end`. */
  function IntervalSlots(t: nat, end: int, d: nat, booked: seq<Range>, isToday: bool, nowMinutes: int): seq<nat>
    decreases end - t
  {
    if t + d > end then []
    else
      (if Free(t, d, booked, isToday, nowMinutes) then [t] else [])
      + IntervalSlots(t + Step, end, d, booked, isToday, nowMinutes)
  }

  /**
    One step of the walk, for output accumulated so far: a free start time is appended, any
    other is passed over.
  */
  lemma WalkStep(emitted: seq<nat>, target: seq<nat>, t: nat, end: int, d: nat, booked: seq<Range>, isToday: bool, nowMinutes: int)
    requires t + d <= end
    requires emitted + IntervalSlots(t, end, d, booked, isToday, nowMinutes) == target
    ensures Free(t, d, booked, isToday, nowMinutes) ==>
      (emitted + [t]) + IntervalSlots(t + Step, end, d, booked, isToday, nowMinutes) == target
    ensures !Free(t, d, booked, isToday, nowMinutes) ==>
      emitted + IntervalSlots(t + Step, end, d, booked, isToday, nowMinutes) == target
  {
    var rest := IntervalSlots(t + Step, end, d, booked, isToday, nowMinutes);
    if Free(t, d, booked, isToday, nowMinutes) {
      calc {
        (emitted + [t]) + rest;
        emitted + ([t] + rest);
        emitted + IntervalSlots(t, end, d, booked, isToday, nowMinutes);
      }
    } else {
      calc {
        emitted + rest;
        emitted + ([] + rest);
        emitted + IntervalSlots(t, end, d, booked, isToday, nowMinutes);
      }
    }
  }

  /** The day's output grows interval by interval. */
  lemma DaySlotsPrefix(ivs: seq<Interval>, i: nat, d: nat, booked: seq<Range>, isToday: bool, nowMinutes: int)
    requires i < |ivs|
    ensures DaySlots(ivs[..i + 1], d, booked, isToday, nowMinutes)
         == DaySlots(ivs[..i], d, booked, isToday, nowMinutes)
            + IntervalSlots(TimeToMinutes(ivs[i].start), TimeToMinutes(ivs[i].end), d, booked, isToday, nowMinutes)
  {
    assert ivs[..i + 1][..i] == ivs[..i] && ivs[..i + 1][i] == ivs[i];
  }

  /** Appending one start time appends its text. */
  lemma TimesSnoc(ms: seq<nat>, t: nat)
    ensures Times(ms + [t]) == Times(ms) + [MinutesToTime(t)]
  {
    TimesAppend(ms, [t]);
    assert Times([t]) == [MinutesToTime(t)] + Times([]);
  }

  /** The start times emitted for a list of intervals, interval by interval in list order. */
  function DaySlots(ivs: seq<Interval>, d: nat, booked: seq<Range>, isToday: bool, nowMinutes: int): seq<nat> {
    if ivs == [] then []
    else
      var last := ivs[|ivs| - 1];
      DaySlots(ivs[..|ivs| - 1], d, booked, isToday, nowMinutes)
      + IntervalSlots(TimeToMinutes(last.start), TimeToMinutes(last.end), d, booked, isToday, nowMinutes)
  }

  /**
    The start times emitted for a weekday: none when the entry is missing, closed or has no
    interval list.
  */
  function WeekdaySlots(week: Week, weekday: int, d: nat, booked: seq<Range>, isToday: bool, nowMinutes: int): (r: seq<nat>)
    ensures weekday !in week || !week[weekday].isOpen || week[weekday].intervals.None? ==> r == []
  {
    if weekday !in week || !week[weekday].isOpen then []
    else if week[weekday].intervals.None? then []
    else DaySlots(week[weekday].intervals.value, d, booked, isToday, nowMinutes)
  }

  /** `minutesToTime` over a list of start times. */
  function Times(ms: seq<nat>): (r: seq<string>)
    ensures |r| == |ms|
  {
    if ms == [] then [] else [MinutesToTime(ms[0])] + Times(ms[1..])
  }

  lemma {:induction false} TimesAt(ms: seq<nat>, k: nat)
    requires k < |ms|
    ensures Times(ms)[k] == MinutesToTime(ms[k])
  {
    if k > 0 {
      TimesAt(ms[1..], k - 1);
    }
  }

  lemma {:induction false} TimesAppend(a: seq<nat>, b: seq<nat>)
    ensures Times(a + b) == Times(a) + Times(b)
  {
    if a == [] {
      assert a + b == b;
    } else {
      assert (a + b)[0] == a[0] && (a + b)[1..] == a[1..] + b;
      TimesAppend(a[1..], b);
      calc {
        Times(a + b);
        [MinutesToTime(a[0])] + Times(a[1..] + b);
        [MinutesToTime(a[0])] + (Times(a[1..]) + Times(b));
        ([MinutesToTime(a[0])] + Times(a[1..])) + Times(b);
      }
    }
  }

  /**
    The slot loop of `getAvailableSlots`: for each interval in list order, walks start times in
    15-minute steps while the service still fits, skips past ones, and emits the "HH:MM" text of
    each one that overlaps no booked range.
  */
  method GenerateSlots(ivs: seq<Interval>, d: nat, booked: seq<Range>, isToday: bool, nowMinutes: int)
    returns (slots: seq<string>)
    ensures slots == Times(DaySlots(ivs, d, booked, isToday, nowMinutes))
  {
    slots := [];
    ghost var emitted: seq<nat> := [];
    for i := 0 to |ivs|
      invariant emitted == DaySlots(ivs[..i], d, booked, isToday, nowMinutes)
      invariant slots == Times(emitted)
    {
      var t := TimeToMinutes(ivs[i].start);
      var end := TimeToMinutes(ivs[i].end);
      ghost var target := DaySlots(ivs[..i + 1], d, booked, isToday, nowMinutes);
      DaySlotsPrefix(ivs, i, d, booked, isToday, nowMinutes);
      while t + d <= end
        invariant emitted + IntervalSlots(t, end, d, booked, isToday, nowMinutes) == target
        invariant slots == Times(emitted)
        decreases end - t
      {
        WalkStep(emitted, target, t, end, d, booked, isToday, nowMinutes);
        if isToday && t < nowMinutes {
          t := t + Step;
          continue;
        }
        var hasConflict := AnyBookedOverlap(booked, t, t + d);
        if !hasConflict {
          TimesSnoc(emitted, t);
          slots := slots + [MinutesToTime(t)];
          emitted := emitted + [t];
        }
        t := t + Step;
      }
    }
    assert ivs[..|ivs|] == ivs;
  }

  /** A start time `x` qualifies in the interval `[s, e)`. */
  predicate SlotIn(x: nat, s: int, e: int, d: nat, booked: seq<Range>, isToday: bool, nowMinutes: int) {
    s <= x && x + d <= e && (x - s) % Step == 0 && Free(x, d, booked, isToday, nowMinutes)
  }

  /**
    The walk over one interval emits exactly the qualifying start times: on the 15-minute grid
    from the interval start, ending within the interval, not past, overlapping nothing booked.
  */
  lemma {:induction false} IntervalSlotsExactly(t: nat, end: int, d: nat, booked: seq<Range>, isToday: bool, nowMinutes: int, x: nat)
    ensures x in IntervalSlots(t, end, d, booked, isToday, nowMinutes) <==> SlotIn(x, t, end, d, booked, isToday, nowMinutes)
    decreases end - t
  {
    if t + d <= end {
      IntervalSlotsExactly(t + Step, end, d, booked, isToday, nowMinutes, x);
      assert t <= x && (x - t) % Step == 0 && x != t ==> t + Step <= x;
      assert (x - (t + Step)) % Step == (x - t) % Step;
    }
  }

  predicate Ascending(ms: seq<nat>) {
    forall i, j :: 0 <= i < j < |ms| ==> ms[i] < ms[j]
  }

  lemma AscendingConcat(a: seq<nat>, b: seq<nat>)
    requires Ascending(a) && Ascending(b)
    requires forall x, y :: x in a && y in b ==> x < y
    ensures Ascending(a + b)
  {
    forall i, j | 0 <= i < j < |a + b| ensures (a + b)[i] < (a + b)[j] {
      if j < |a| {
      } else if i >= |a| {
        assert (a + b)[i] == b[i - |a|] && (a + b)[j] == b[j - |a|];
      } else {
        assert (a + b)[i] in a && (a + b)[j] in b;
      }
    }
  }

  /** Within one interval the emitted start times strictly increase. */
  lemma {:induction false} IntervalSlotsAscending(t: nat, end: int, d: nat, booked: seq<Range>, isToday: bool, nowMinutes: int)
    ensures Ascending(IntervalSlots(t, end, d, booked, isToday, nowMinutes))
    decreases end - t
  {
    if t + d <= end {
      var rest := IntervalSlots(t + Step, end, d, booked, isToday, nowMinutes);
      IntervalSlotsAscending(t + Step, end, d, booked, isToday, nowMinutes);
      forall y | y in rest ensures t < y {
        IntervalSlotsExactly(t + Step, end, d, booked, isToday, nowMinutes, y);
      }
      AscendingConcat(if Free(t, d, booked, isToday, nowMinutes) then [t] else [], rest);
    }
  }

  /**
    The generator's output for a day: `x` is emitted iff some interval of the list has `x` on
    its 15-minute grid with `[x, x + d)` inside it, `x` is not past, and `[x, x + d)` overlaps
    no booked range.
  */
  lemma {:induction false} DaySlotsExactly(ivs: seq<Interval>, d: nat, booked: seq<Range>, isToday: bool, nowMinutes: int, x: nat)
    ensures x in DaySlots(ivs, d, booked, isToday, nowMinutes) <==>
      exists k :: 0 <= k < |ivs| &&
        SlotIn(x, TimeToMinutes(ivs[k].start), TimeToMinutes(ivs[k].end), d, booked, isToday, nowMinutes)
  {
    if ivs != [] {
      var init, last := ivs[..|ivs| - 1], ivs[|ivs| - 1];
      DaySlotsExactly(init, d, booked, isToday, nowMinutes, x);
      IntervalSlotsExactly(TimeToMinutes(last.start), TimeToMinutes(last.end), d, booked, isToday, nowMinutes, x);
      assert forall k :: 0 <= k < |init| ==> init[k] == ivs[k];
    }
  }

  /** Each interval ends no later than every later interval starts. */
  predicate SortedIntervals(ivs: seq<Interval>) {
    forall i, j :: 0 <= i < j < |ivs| ==> TimeToMinutes(ivs[i].end) <= TimeToMinutes(ivs[j].start)
  }

  /**
    Slots come out in interval-list order, so they are ascending when the intervals are sorted
    and apart and the service lasts at least a minute.
  */
  lemma {:induction false} DaySlotsAscending(ivs: seq<Interval>, d: nat, booked: seq<Range>, isToday: bool, nowMinutes: int)
    requires SortedIntervals(ivs) && d >= 1
    ensures Ascending(DaySlots(ivs, d, booked, isToday, nowMinutes))
  {
    if ivs != [] {
      var init, last := ivs[..|ivs| - 1], ivs[|ivs| - 1];
      var before := DaySlots(init, d, booked, isToday, nowMinutes);
      var after := IntervalSlots(TimeToMinutes(last.start), TimeToMinutes(last.end), d, booked, isToday, nowMinutes);
      DaySlotsAscending(init, d, booked, isToday, nowMinutes);
      IntervalSlotsAscending(TimeToMinutes(last.start), TimeToMinutes(last.end), d, booked, isToday, nowMinutes);
      forall x, y | x in before && y in after ensures x < y {
        DaySlotsExactly(init, d, booked, isToday, nowMinutes, x);
        IntervalSlotsExactly(TimeToMinutes(last.start), TimeToMinutes(last.end), d, booked, isToday, nowMinutes, y);
        var k :| 0 <= k < |init| && SlotIn(x, TimeToMinutes(init[k].start), TimeToMinutes(init[k].end), d, booked, isToday, nowMinutes);
        assert init[k] == ivs[k];
      }
      AscendingConcat(before, after);
    }
  }

  /**
    With nothing booked and no time-of-day filter, an interval yields every 15 minutes from its
    start: slot `k` is `start + 15 * k`, for as long as the service still fits.
  */
  lemma {:induction false} UnbookedIntervalSlots(t: nat, end: int, d: nat, nowMinutes: int)
    ensures var r := IntervalSlots(t, end, d, [], false, nowMinutes);
      && |r| == (if t + d <= end then (end - t - d) / Step + 1 else 0)
      && forall k :: 0 <= k < |r| ==> r[k] == t + Step * k
    decreases end - t
  {
    if t + d <= end {
      UnbookedIntervalSlots(t + Step, end, d, nowMinutes);
      var rest := IntervalSlots(t + Step, end, d, [], false, nowMinutes);
      assert IntervalSlots(t, end, d, [], false, nowMinutes) == [t] + rest;
    }
  }

  /**
    Every emitted start time keeps its service clear of every row the generator counts as
    booked: pending, confirmed and rescheduled rows of that business and date alike.
  */
  lemma EmittedSlotsAvoidBooked(ivs: seq<Interval>, d: nat, appts: seq<Appointment>, services: seq<Service>,
                                business: nat, date: string, isToday: bool, nowMinutes: int, x: nat, k: nat)
    requires x in DaySlots(ivs, d, BookedRanges(appts, services, business, date, d), isToday, nowMinutes)
    requires k < |appts| && IsBooked(appts[k], business, date)
    ensures !Overlaps(x, x + d, StartMinutes(appts[k]), StartMinutes(appts[k]) + BookedDuration(appts[k], services, d))
  {
    var booked := BookedRanges(appts, services, business, date, d);
    DaySlotsExactly(ivs, d, booked, isToday, nowMinutes, x);
    var b := BookedRange(appts[k], services, d);
    assert b in booked;
    var j :| 0 <= j < |booked| && booked[j] == b;
  }

  /**
    When every interval ends at a clock text, every emitted start time is below 100 hours, so
    its "HH:MM" text reads back as the same minute.
  */
  lemma EmittedTextsReadBack(ivs: seq<Interval>, d: nat, booked: seq<Range>, isToday: bool, nowMinutes: int)
    requires forall k :: 0 <= k < |ivs| ==> IsClockText(ivs[k].end)
    ensures var ms := DaySlots(ivs, d, booked, isToday, nowMinutes);
      forall k :: 0 <= k < |ms| ==> IsHHMM(Times(ms)[k]) && TimeToMinutes(Times(ms)[k]) == ms[k]
  {
    var ms := DaySlots(ivs, d, booked, isToday, nowMinutes);
    forall k | 0 <= k < |ms| ensures IsHHMM(Times(ms)[k]) && TimeToMinutes(Times(ms)[k]) == ms[k] {
      assert ms[k] in ms;
      DaySlotsExactly(ivs, d, booked, isToday, nowMinutes, ms[k]);
      var j :| 0 <= j < |ivs| && SlotIn(ms[k], TimeToMinutes(ivs[j].start), TimeToMinutes(ivs[j].end), d, booked, isToday, nowMinutes);
      TextRoundTrip(ivs[j].end);
      MinutesRoundTrip(ms[k]);
      TimesAt(ms, k);
    }
  }
}
