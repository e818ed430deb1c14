/**
  The services step of onboarding: the duration typed as "HH:MM" in the form is read as a
  minute count, the count of a stored service is shown again as "HH:MM", and the form refuses
  a service without a name or with a duration that is not positive.
*/
module ServiceForm {
  import opened Wrappers
  import opened Decimal
  import opened Clock

  /** A JavaScript number as the form's arithmetic produces it: an integer or NaN. */
  datatype Num = Finite(value: int) | NaN

  /**
    `Number(text)` on the texts the form handles: the empty text is 0, a digit string its
    decimal value, and anything else NaN.
  */
  function NumberOf(s: string): (n: Num)
    ensures n.Finite? <==> AllDigits(s)
    ensures s == [] ==> n == Finite(0)
    ensures n.Finite? ==> n.value >= 0
  {
    if AllDigits(s) then Finite(DecimalValue(s)) else NaN
  }

  /** The position of the first ':' of `s`, or `|s|` when there is none. */
  function ColonIndex(s: string): (k: nat)
    ensures k <= |s|
    ensures forall j :: 0 <= j < k ==> s[j] != ':'
    ensures k < |s| ==> s[k] == ':'
    ensures ':' in s <==> k < |s|
  {
    if s == [] then 0
    else if s[0] == ':' then 0
    else 1 + ColonIndex(s[1..])
  }

  /** `timeStr.split(':')[0]`: the text before the first colon. */
  function HoursPart(s: string): string {
    s[..ColonIndex(s)]
  }

  /** `timeStr.split(':')[1]` of a text holding a colon: the text between the first colon and the next one. */
  function MinutesPart(s: string): string
    requires ':' in s
  {
    var rest := s[ColonIndex(s) + 1..];
    rest[..ColonIndex(rest)]
  }

  /**
    The form's `timeToMinutes`: a text without a colon is 0; otherwise hours times 60 plus
    minutes, where a minute part that is not a number counts as 0 and an hour part that is not
    a number makes the whole result NaN.
  */
  function DurationToMinutes(s: string): (r: Num)
    ensures ':' !in s ==> r == Finite(0)
    ensures ':' in s ==> (r.NaN? <==> !AllDigits(HoursPart(s)))
    ensures r.Finite? ==> r.value >= 0
  {
    if s == [] || ':' !in s then Finite(0)
    else
      match NumberOf(HoursPart(s))
      case NaN => NaN
      case Finite(hours) =>
        var minutes := NumberOf(MinutesPart(s));
        Finite(hours * 60 + (if minutes.Finite? then minutes.value else 0))
  }

  /**
    `formatarMinutosParaDuracao`: a count below one minute shows as "00:00"; from one minute
    on the text is the one the backend's formatter writes for the same count.
  */
  function FormatDuration(minutos: int): (r: string)
    ensures minutos < 1 ==> r == "00:00"
    ensures minutos >= 1 ==> r == MinutesToTime(minutos)
    ensures |r| >= 5 && ':' in r
  {
    if minutos < 1 then "00:00"
    else
      PaddedDecimal(minutos / 60);
      PaddedDecimal(minutos % 60);
      assert ClockText(minutos / 60, minutos % 60)[|PadStart2(NatToDecimal(minutos / 60))|] == ':';
      ClockText(minutos / 60, minutos % 60)
  }

  /** In a digit string followed by a colon, that colon is the first one. */
  lemma ColonAfterDigits(h: string, t: string)
    requires AllDigits(h)
    ensures ColonIndex(h + ":" + t) == |h|
    ensures (h + ":" + t)[|h| + 1..] == t
  {
    var s := h + ":" + t;
    assert s[|h|] == ':';
    assert forall j :: 0 <= j < |h| ==> s[j] == h[j];
  }

  /** A digit string holds no colon. */
  lemma {:induction false} NoColonInDigits(m: string)
    requires AllDigits(m)
    ensures ColonIndex(m) == |m|
  {
    if m != [] {
      assert IsDigit(m[0]);
      NoColonInDigits(m[1..]);
    }
  }

  /** The two padded parts of a clock template split back at its first colon. */
  lemma ClockTextParts(hours: nat, mins: nat)
    ensures ':' in ClockText(hours, mins)
    ensures HoursPart(ClockText(hours, mins)) == PadStart2(NatToDecimal(hours))
    ensures MinutesPart(ClockText(hours, mins)) == PadStart2(NatToDecimal(mins))
  {
    var h, m := PadStart2(NatToDecimal(hours)), PadStart2(NatToDecimal(mins));
    PaddedDecimal(hours);
    PaddedDecimal(mins);
    ColonAfterDigits(h, m);
    NoColonInDigits(m);
    assert ClockText(hours, mins) == h + ":" + m;
  }

  /** Any positive minute count shown by the form reads back as the same count. */
  lemma DurationRoundTrip(minutos: int)
    requires minutos >= 1
    ensures DurationToMinutes(FormatDuration(minutos)) == Finite(minutos)
  {
    var hours, mins := minutos / 60, minutos % 60;
    var s := ClockText(hours, mins);
    assert FormatDuration(minutos) == s;
    ClockTextParts(hours, mins);
    PaddedDecimal(hours);
    PaddedDecimal(mins);
    assert NumberOf(HoursPart(s)) == Finite(hours);
    assert NumberOf(MinutesPart(s)) == Finite(mins);
    assert hours * 60 + mins == minutos;
  }

  /** On an "HH:MM" text the form's reading and the backend's `timeToMinutes` agree. */
  lemma ParsersAgreeOnClockTexts(s: string)
    requires IsHHMM(s)
    ensures DurationToMinutes(s) == Finite(TimeToMinutes(s))
  {
    assert s[2] == ':';
    assert ColonIndex(s) == 2;
    assert HoursPart(s) == s[..2];
    var rest := s[3..];
    assert ColonIndex(rest) == 2;
    assert MinutesPart(s) == rest;
    TwoDigitValue(s[..2]);
    TwoDigitValue(rest);
  }

  /** A duration with an hour number and nothing after the colon counts whole hours. */
  lemma MissingMinutesCountZero(h: string)
    requires AllDigits(h)
    ensures DurationToMinutes(h + ":") == Finite(DecimalValue(h) * 60)
  {
    ColonAfterDigits(h, "");
    assert h + ":" + "" == h + ":";
  }

  /** What the form sends to create a service; the price is not part of this model. */
  datatype ServiceDraft = ServiceDraft(name: string, description: string, duration: Num)

  /** The form's one refusal: "name and duration are required". */
  datatype FormError = NameAndDurationRequired

  /**
    `handleCreateService` up to the request: refused when the name is empty or the duration is
    a number not above zero; a NaN duration compares false and goes through.
  */
  function CheckServiceForm(name: string, description: string, durationText: string): (r: Result<ServiceDraft, FormError>)
    ensures r.Failure? <==>
      name == [] || (DurationToMinutes(durationText).Finite? && DurationToMinutes(durationText).value <= 0)
    ensures r.Success? ==> r.value == ServiceDraft(name, description, DurationToMinutes(durationText))
  {
    var duration := DurationToMinutes(durationText);
    if name == [] || (duration.Finite? && duration.value <= 0) then Failure(NameAndDurationRequired)
    else Success(ServiceDraft(name, description, duration))
  }

  /**
    For a text from the time input (empty, or "HH:MM"), the form accepts exactly a named
    service whose duration is a positive number of minutes as the backend reads it.
  */
  lemma TimeInputAccepted(name: string, description: string, durationText: string)
    requires durationText == [] || IsHHMM(durationText)
    ensures CheckServiceForm(name, description, durationText).Success? <==>
      name != [] && TimeToMinutes(durationText) > 0
    ensures CheckServiceForm(name, description, durationText).Success? ==>
      CheckServiceForm(name, description, durationText).value.duration == Finite(TimeToMinutes(durationText))
  {
    if durationText != [] {
      ParsersAgreeOnClockTexts(durationText);
    }
  }

  /**
    Any duration holding a colon whose hour part is not a number reaches the request as NaN:
    NaN is not `<= 0`, so the check lets it through.
  */
  lemma NonNumericHoursPass(name: string, description: string, t: string)
    requires name != [] && ':' in t && !AllDigits(HoursPart(t))
    ensures CheckServiceForm(name, description, t) == Success(ServiceDraft(name, description, NaN))
  {
  }

  /** One such text: "h:30". */
  lemma LetterHourPasses(name: string, description: string)
    requires name != []
    ensures CheckServiceForm(name, description, "h:30") == Success(ServiceDraft(name, description, NaN))
  {
    assert ColonIndex("h:30") == 1;
    assert HoursPart("h:30") == "h";
    NonNumericHoursPass(name, description, "h:30");
  }
}
