/**
  The backend time model of the appointment controller: wall-clock "HH:MM" text and minute
  counts since midnight.
*/
module Clock {
  import opened Decimal

  /** The text accepted by the pattern `^\d{2}:\d{2}$`: two digits, a colon, two digits. */
  predicate IsHHMM(s: string) {
    |s| == 5 && IsDigit(s[0]) && IsDigit(s[1]) && s[2] == ':' && IsDigit(s[3]) && IsDigit(s[4])
  }

  /** An "HH:MM" text whose minute part is below 60, as a time picker produces it. */
  predicate IsClockText(s: string) {
    IsHHMM(s) && s[3] <= '5'
  }

  /**
    `timeToMinutes`: text that does not match the pattern (the empty text included) reads
    as 0, i.e. midnight; otherwise hours times 60 plus minutes.
  */
  function TimeToMinutes(s: string): (m: nat)
    ensures !IsHHMM(s) ==> m == 0
    ensures IsHHMM(s) ==>
      m == DigitValue(s[0]) * 600 + DigitValue(s[1]) * 60 + DigitValue(s[3]) * 10 + DigitValue(s[4])
    ensures m <= 99 * 60 + 99
  {
    if s == [] || !IsHHMM(s) then 0
    else
      TwoDigitValue(s[..2]);
      TwoDigitValue(s[3..]);
      DecimalValue(s[..2]) * 60 + DecimalValue(s[3..])
  }

  /** The template `${pad(hours)}:${pad(mins)}` shared by the two minute formatters. */
  function ClockText(hours: nat, mins: nat): string {
    PadStart2(NatToDecimal(hours)) + ":" + PadStart2(NatToDecimal(mins))
  }

  /**
    `minutesToTime`: whole hours and remaining minutes, each padded to two digits. Hours are
    not truncated, so from 100 hours on the text no longer has the "HH:MM" shape.
  */
  function MinutesToTime(m: nat): (s: string)
    ensures IsHHMM(s) <==> m < 6000
  {
    PaddedDecimal(m / 60);
    PaddedDecimal(m % 60);
    ClockText(m / 60, m % 60)
  }

  /** Below 100 hours, formatting a minute count and reading it back gives the same count. */
  lemma MinutesRoundTrip(m: nat)
    requires m < 6000
    ensures TimeToMinutes(MinutesToTime(m)) == m
  {
    var h, r := PadStart2(NatToDecimal(m / 60)), PadStart2(NatToDecimal(m % 60));
    PaddedDecimal(m / 60);
    PaddedDecimal(m % 60);
    var s := MinutesToTime(m);
    assert s == h + ":" + r;
    assert s[..2] == h && s[3..] == r;
  }

  /** From 100 hours on, the formatted text fails the pattern and reads back as midnight. */
  lemma FarMinutesReadAsMidnight(m: nat)
    requires m >= 6000
    ensures TimeToMinutes(MinutesToTime(m)) == 0
  {
  }

  /** Whole hours and the minutes left over of `hh` hours and `mm` minutes, `mm` below an hour. */
  lemma HoursAndMinutes(hh: nat, mm: nat)
    requires mm < 60
    ensures (hh * 60 + mm) / 60 == hh && (hh * 60 + mm) % 60 == mm
  {
  }

  /** The template applied to the digit values of a clock text writes that text again. */
  lemma ClockTextOfDigits(s: string)
    requires IsHHMM(s)
    ensures ClockText(DigitValue(s[0]) * 10 + DigitValue(s[1]), DigitValue(s[3]) * 10 + DigitValue(s[4])) == s
  {
    PaddedTwoDigits(s[0], s[1]);
    PaddedTwoDigits(s[3], s[4]);
    assert s == [s[0], s[1]] + ":" + [s[3], s[4]];
  }

  /** A clock text read as minutes and formatted again gives back the same text. */
  lemma TextRoundTrip(s: string)
    requires IsClockText(s)
    ensures TimeToMinutes(s) < 6000
    ensures MinutesToTime(TimeToMinutes(s)) == s
  {
    var hh := DigitValue(s[0]) * 10 + DigitValue(s[1]);
    var mm := DigitValue(s[3]) * 10 + DigitValue(s[4]);
    assert DigitValue(s[3]) <= 5;
    HoursAndMinutes(hh, mm);
    ClockTextOfDigits(s);
  }
}
