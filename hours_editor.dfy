/**
  The onboarding editor of the weekly business hours: four updaters that each build a new week
  map from the previous one, changing a single weekday, and the validator run before saving.
*/
module HoursEditor {
  import opened Wrappers
  import opened Decimal
  import opened Clock
  import opened BusinessHours

  /** The interval a new row starts with. */
  const DefaultInterval := Interval("09:00", "18:00")

  /** The interval field an input edits. */
  datatype Field = Start | End

  /** `prev[dayIndex]`; a missing entry spreads no fields, so it reads closed and without intervals. */
  function DayOf(week: Week, d: int): DaySchedule {
    if d in week then week[d] else DaySchedule(false, None)
  }

  /** `day.intervals || []` */
  function IntervalsOf(day: DaySchedule): seq<Interval> {
    if day.intervals.Some? then day.intervals.value else []
  }

  /**
    `toggleDay`: flips the day's open flag; a day being closed loses its intervals, a day being
    opened keeps the ones it had.
  */
  function ToggleDay(week: Week, d: int): (r: Week)
    ensures r.Keys == week.Keys + {d}
    ensures forall o :: o in week && o != d ==> r[o] == week[o]
    ensures r[d].isOpen == !DayOf(week, d).isOpen
    ensures !r[d].isOpen ==> r[d].intervals == Some([])
    ensures r[d].isOpen ==> r[d].intervals == Some(IntervalsOf(DayOf(week, d)))
  {
    var day := DayOf(week, d);
    week[d := DaySchedule(!day.isOpen, Some(if day.isOpen then [] else IntervalsOf(day)))]
  }

  /** `addInterval`: appends the default interval to the day's list. */
  function AddInterval(week: Week, d: int): (r: Week)
    ensures r.Keys == week.Keys + {d}
    ensures forall o :: o in week && o != d ==> r[o] == week[o]
    ensures r[d].isOpen == DayOf(week, d).isOpen
    ensures r[d].intervals.Some?
    ensures var before, after := IntervalsOf(DayOf(week, d)), IntervalsOf(r[d]);
      |after| == |before| + 1 && after[..|before|] == before && after[|before|] == DefaultInterval
  {
    var day := DayOf(week, d);
    week[d := day.(intervals := Some(IntervalsOf(day) + [DefaultInterval]))]
  }

  /** `intervals.filter((_, index) => index !== i)` */
  function WithoutIndex(ivs: seq<Interval>, i: int): (r: seq<Interval>)
    ensures 0 <= i < |ivs| ==> r == ivs[..i] + ivs[i + 1..]
    ensures !(0 <= i < |ivs|) ==> r == ivs
  {
    if ivs == [] then []
    else
      var init, last := ivs[..|ivs| - 1], ivs[|ivs| - 1];
      assert ivs == init + [last];
      WithoutIndex(init, i) + (if i == |ivs| - 1 then [] else [last])
  }

  /** `removeInterval`: drops the interval at position `i`; out of range, the list stays as it was. */
  function RemoveInterval(week: Week, d: int, i: int): (r: Week)
    ensures r.Keys == week.Keys + {d}
    ensures forall o :: o in week && o != d ==> r[o] == week[o]
    ensures r[d].isOpen == DayOf(week, d).isOpen
    ensures var before := IntervalsOf(DayOf(week, d));
      r[d].intervals == Some(if 0 <= i < |before| then before[..i] + before[i + 1..] else before)
  {
    var day := DayOf(week, d);
    week[d := day.(intervals := Some(WithoutIndex(IntervalsOf(day), i)))]
  }

  /** `{ ...interval, [field]: value }` */
  function SetField(iv: Interval, f: Field, v: string): Interval {
    match f
    case Start => iv.(start := v)
    case End => iv.(end := v)
  }

  /** `intervals.map((interval, index) => index === i ? { ...interval, [field]: value } : interval)` */
  function UpdateAt(ivs: seq<Interval>, i: int, f: Field, v: string): (r: seq<Interval>)
    ensures |r| == |ivs|
    ensures forall k :: 0 <= k < |ivs| && k != i ==> r[k] == ivs[k]
    ensures 0 <= i < |ivs| ==> r[i] == SetField(ivs[i], f, v)
  {
    if ivs == [] then []
    else
      var init, last := ivs[..|ivs| - 1], ivs[|ivs| - 1];
      UpdateAt(init, i, f, v) + [if i == |ivs| - 1 then SetField(last, f, v) else last]
  }

  /**
    `updateInterval`: sets one field of the interval at position `i`; the length, the other
    intervals and the other field stay as they were.
  */
  function UpdateInterval(week: Week, d: int, i: int, f: Field, v: string): (r: Week)
    ensures r.Keys == week.Keys + {d}
    ensures forall o :: o in week && o != d ==> r[o] == week[o]
    ensures r[d].isOpen == DayOf(week, d).isOpen
    ensures r[d].intervals.Some?
    ensures var before, after := IntervalsOf(DayOf(week, d)), IntervalsOf(r[d]);
      && |after| == |before|
      && (forall k :: 0 <= k < |before| && k != i ==> after[k] == before[k])
      && (0 <= i < |before| && f == Start ==> after[i].start == v && after[i].end == before[i].end)
      && (0 <= i < |before| && f == End ==> after[i].end == v && after[i].start == before[i].start)
  {
    var day := DayOf(week, d);
    week[d := day.(intervals := Some(UpdateAt(IntervalsOf(day), i, f, v)))]
  }

  /** JavaScript's `<` on two strings: lexicographic by character code, a proper prefix first. */
  predicate LexLess(a: string, b: string) {
    if a == [] then b != []
    else if b == [] then false
    else if a[0] != b[0] then a[0] < b[0]
    else LexLess(a[1..], b[1..])
  }

  /** An interval the validator lets through: both ends filled in and `start < end` as strings. */
  predicate IntervalValid(iv: Interval) {
    iv.start != [] && iv.end != [] && LexLess(iv.start, iv.end)
  }

  /** Only open days are checked. */
  predicate DayValid(day: DaySchedule) {
    day.isOpen ==> forall k :: 0 <= k < |IntervalsOf(day)| ==> IntervalValid(IntervalsOf(day)[k])
  }

  predicate HoursValid(week: Week) {
    forall d :: d in week ==> DayValid(week[d])
  }

  /** Some weekday of a non-empty set, the next one the validator's loop visits. */
  method AnyDay(days: set<int>) returns (d: int)
    requires days != {}
    ensures d in days
  {
    // Names the empty case so the solver finds the element that `days != {}` promises.
    if forall x :: x !in days {
      assert false;
    }
    d :| d in days;
  }

  /**
    `validateHours`: false as soon as an open day has an interval with an empty start or end, or
    whose start is not before its end; true otherwise.
  */
  method ValidateHours(week: Week) returns (ok: bool)
    ensures !ok <==> exists d, k ::
      && d in week && week[d].isOpen && 0 <= k < |IntervalsOf(week[d])|
      && (|| IntervalsOf(week[d])[k].start == []
          || IntervalsOf(week[d])[k].end == []
          || !LexLess(IntervalsOf(week[d])[k].start, IntervalsOf(week[d])[k].end))
    ensures ok == HoursValid(week)
  {
    var days := week.Keys;
    while days != {}
      invariant days <= week.Keys
      invariant forall d :: d in week.Keys - days ==> DayValid(week[d])
      decreases |days|
    {
      var wd := AnyDay(days);
      var day := week[wd];
      if day.isOpen {
        var ivs := IntervalsOf(day);
        for k := 0 to |ivs|
          invariant forall j :: 0 <= j < k ==> IntervalValid(ivs[j])
        {
          if ivs[k].start == [] || ivs[k].end == [] {
            return false;
          }
          if !LexLess(ivs[k].start, ivs[k].end) {
            return false;
          }
        }
      }
      days := days - {wd};
    }
    return true;
  }

  /** On two clock texts, string order is time order. */
  lemma LexLessClockTexts(a: string, b: string)
    requires IsClockText(a) && IsClockText(b)
    ensures LexLess(a, b) <==> TimeToMinutes(a) < TimeToMinutes(b)
  {
    assert DigitValue(a[3]) <= 5 && DigitValue(b[3]) <= 5;
    var a1, b1 := a[1..], b[1..];
    var a3, b3 := a[3..], b[3..];
    assert a1[0] == a[1] && b1[0] == b[1];
    assert a3[0] == a[3] && b3[0] == b[3];
    if a[0] != b[0] {
      assert LexLess(a, b) == (a[0] < b[0]);
    } else if a[1] != b[1] {
      assert LexLess(a, b) == LexLess(a1, b1) == (a[1] < b[1]);
    } else {
      var a2, b2 := a1[1..], b1[1..];
      assert a2[0] == ':' == b2[0];
      assert a2[1..] == a3 && b2[1..] == b3;
      assert LexLess(a2, b2) == LexLess(a3, b3);
      assert LexLess(a1, b1) == LexLess(a2, b2);
      assert LexLess(a, b) == LexLess(a1, b1);
      assert a3[1..] == [a[4]] && b3[1..] == [b[4]];
      if a[3] != b[3] {
        assert LexLess(a3, b3) == (a[3] < b[3]);
      } else {
        assert LexLess(a3, b3) == LexLess([a[4]], [b[4]]);
        if a[4] != b[4] {
          assert LexLess([a[4]], [b[4]]) == (a[4] < b[4]);
        } else {
          assert [a[4]][1..] == [] && [b[4]][1..] == [];
          assert !LexLess([a[4]], [b[4]]);
        }
      }
    }
  }

  /**
    Hours that pass the validator and are written as clock texts give every open interval a
    start minute strictly before its end minute, as the backend reads them.
  */
  lemma ValidHoursAreOrdered(week: Week, d: int, k: nat)
    requires HoursValid(week)
    requires d in week && week[d].isOpen && k < |IntervalsOf(week[d])|
    requires IsClockText(IntervalsOf(week[d])[k].start) && IsClockText(IntervalsOf(week[d])[k].end)
    ensures TimeToMinutes(IntervalsOf(week[d])[k].start) < TimeToMinutes(IntervalsOf(week[d])[k].end)
  {
    var iv := IntervalsOf(week[d])[k];
    assert DayValid(week[d]);
    LexLessClockTexts(iv.start, iv.end);
  }

  /** Adding the default interval keeps valid hours valid. */
  lemma AddIntervalKeepsValid(week: Week, d: int)
    requires HoursValid(week)
    ensures HoursValid(AddInterval(week, d))
  {
    var r := AddInterval(week, d);
    var before, after := IntervalsOf(DayOf(week, d)), IntervalsOf(r[d]);
    assert LexLess(DefaultInterval.start, DefaultInterval.end);
    forall k | 0 <= k < |after| && r[d].isOpen ensures IntervalValid(after[k]) {
      if k < |before| {
        assert after[k] == after[..|before|][k];
        assert d in week;
      }
    }
  }

  /** Removing an interval keeps valid hours valid. */
  lemma RemoveIntervalKeepsValid(week: Week, d: int, i: int)
    requires HoursValid(week)
    ensures HoursValid(RemoveInterval(week, d, i))
  {
    var r := RemoveInterval(week, d, i);
    var before, after := IntervalsOf(DayOf(week, d)), IntervalsOf(r[d]);
    forall k | 0 <= k < |after| && r[d].isOpen ensures IntervalValid(after[k]) {
      assert d in week;
      if 0 <= i < |before| {
        if k < i {
          assert after[k] == before[k];
        } else {
          assert after[k] == before[k + 1];
        }
      }
    }
  }

  /**
    Toggling keeps valid hours valid exactly when the day is being closed or the intervals it
    keeps on opening are all valid.
  */
  lemma ToggleDayValidity(week: Week, d: int)
    requires HoursValid(week)
    ensures HoursValid(ToggleDay(week, d)) <==>
      DayOf(week, d).isOpen ||
      forall k :: 0 <= k < |IntervalsOf(DayOf(week, d))| ==> IntervalValid(IntervalsOf(DayOf(week, d))[k])
  {
    var r := ToggleDay(week, d);
    assert HoursValid(r) ==> DayValid(r[d]);
    assert !DayOf(week, d).isOpen ==> IntervalsOf(r[d]) == IntervalsOf(DayOf(week, d));
    if DayOf(week, d).isOpen ||
      forall k :: 0 <= k < |IntervalsOf(DayOf(week, d))| ==> IntervalValid(IntervalsOf(DayOf(week, d))[k])
    {
      assert DayValid(r[d]);
      forall o | o in r ensures DayValid(r[o]) {
        if o != d {
          assert r[o] == week[o];
        }
      }
    }
  }

  /** Every closed day has an empty interval list. */
  predicate ClosedDaysEmpty(week: Week) {
    forall d :: d in week && !week[d].isOpen ==> IntervalsOf(week[d]) == []
  }

  /**
    Toggling, removing and updating keep closed days empty; adding does too when the day is open,
    the only case in which the editor shows the add button.
  */
  lemma EditsKeepClosedDaysEmpty(week: Week, d: int, i: int, f: Field, v: string)
    requires ClosedDaysEmpty(week)
    ensures ClosedDaysEmpty(ToggleDay(week, d))
    ensures ClosedDaysEmpty(RemoveInterval(week, d, i))
    ensures ClosedDaysEmpty(UpdateInterval(week, d, i, f, v))
    ensures DayOf(week, d).isOpen ==> ClosedDaysEmpty(AddInterval(week, d))
  {
    if !DayOf(week, d).isOpen {
      assert IntervalsOf(DayOf(week, d)) == [];
    }
  }
}
