# Appointment engine: verified model

This project models the core of an appointment-booking service for small businesses. A business publishes its weekly opening hours and its services. Clients request appointments, and the business confirms, rejects or reschedules them. The core modelled here is:

- The backend appointment controller:
  - the "HH:MM" ↔ minutes conversions;
  - the business-hours containment check;
  - the overlap rule behind `hasTimeConflict`;
  - the 15-minute slot generator of `getAvailableSlots`;
  - the appointment lifecycle (`pending` → `confirmed` / `rejected` / `rescheduled`).
- The onboarding editor of business hours: four weekday-map updaters and `validateHours`.
- The onboarding services form: the duration formatter, its local `timeToMinutes` and the name/duration check.

The persisted rows are the fields of one `Store` object: businesses, services, business-hours records and a sequence of appointments. Each controller handler is a method that returns a `Result` carrying either the record or an error kind, in place of an HTTP response. The weekday of a date, whether the date is today and the current time in whole minutes are inputs.

Modules, one per file:

- `Wrappers` holds `Option` and `Result`.
- `Decimal` holds digit strings and `padStart(2, '0')`.
- `Clock` holds the backend's `timeToMinutes` and `minutesToTime`.
- `BusinessHours` holds the stored week and `isWithinBusinessHours`.
- `Records` holds appointments, services and the lookups.
- `Conflicts` holds `hasTimeConflict`.
- `Availability` holds the slot generator: specification functions, the loop method and lemmas.
- `Appointments` holds the `Store` class.
- `HoursEditor` and `ServiceForm` hold the two frontend components.

The store keeps one invariant across every handler: appointment ids and service ids are unique, and no two pending or confirmed appointments of one business and date overlap.

## Model

| member | source | states |
|---|---|---|
| Clock.TimeToMinutes | src/controllers/appointmentController.js:8-12 | Text that is not exactly two digits, a colon and two digits reads as 0 (midnight), the empty text included; otherwise the result is hours·60 + minutes taken from the digits. |
| Clock.MinutesToTime | src/controllers/appointmentController.js:15-19 | The formatted text has the "HH:MM" shape exactly when the count is below 100 hours. |
| Clock.MinutesRoundTrip | src/controllers/appointmentController.js:8-19 | Below 6000 minutes, formatting a count and reading it back gives the same count. |
| Clock.FarMinutesReadAsMidnight | src/controllers/appointmentController.js:8-19 | From 100 hours on, the formatted text fails the pattern and reads back as 0. |
| Clock.TextRoundTrip | src/controllers/appointmentController.js:8-19 | A clock text (minutes below 60) read as minutes and formatted again gives back the same text. |
| Decimal.NatToDecimal | src/controllers/appointmentController.js:18 | `toString()` of a count is a non-empty digit string, with one digit below 10 and at most two below 100. |
| Decimal.DecimalOfNat | src/controllers/appointmentController.js:10-18 | Reading the decimal text of a count gives the count back. |
| Decimal.PaddedDecimal | src/controllers/appointmentController.js:18 | `padStart(2, '0')` keeps the value; the padded text is exactly two digits iff the value is below 100. |
| Decimal.PaddedTwoDigits | src/controllers/appointmentController.js:18 | The padded text of the value of two digits is those two digits. |
| BusinessHours.SomeIntervalContains | src/controllers/appointmentController.js:37-41 | True iff one single interval holds the whole range, `intervalStart <= start` and `end <= intervalEnd`. |
| BusinessHours.IsWithinBusinessHours | src/controllers/appointmentController.js:22-41 | False for a missing weekday, a closed day or a day without an interval list; otherwise true iff one interval contains `[start, end)` as minute values. |
| BusinessHours.ContiguousIntervalsDoNotJoin | src/controllers/appointmentController.js:37-41 | A range that starts in one interval and ends in the next one, which is contiguous, is rejected. |
| Records.FindService | src/controllers/appointmentController.js:87 | Finds a service with that id owned by that business; None iff there is none. |
| Records.ServiceById | src/controllers/appointmentController.js:226-234 | The service joined to an appointment by its id, or None when the row is gone. |
| Records.OwnServiceIsJoinedService | src/controllers/appointmentController.js:226-234 | With service ids unique, as a primary key makes them, the join by id finds the same row as the owner-scoped lookup. |
| Records.FindAppointment | src/controllers/appointmentController.js:186-191 | The position of an appointment with that id and owner; None iff there is none. |
| Conflicts.OverlapsSymmetric | src/controllers/appointmentController.js:50-55 | The half-open overlap rule does not depend on which range is the existing one. |
| Conflicts.TouchingRangesDoNotOverlap | src/controllers/appointmentController.js:50-55 | Ranges that only touch at a boundary do not conflict. |
| Conflicts.CountConflicts | src/controllers/appointmentController.js:46-63 | The count is at most the number of rows, and it is positive iff some row matches the query. |
| Conflicts.HasTimeConflict | src/controllers/appointmentController.js:45-64 | True iff some row satisfies all of: same business and date; pending or confirmed; not the excluded id; `start < endTime` and `end > startTime`. |
| Conflicts.ReleasingAddsNoConflict | src/controllers/appointmentController.js:49 | When no row conflicts after a change unless it conflicted before, the conflict count does not grow. Taking a row out of pending therefore never creates a conflict. |
| Availability.BookedRanges | src/controllers/appointmentController.js:290-303 | A range is booked iff some row of the business and date that is not rejected has it. The range runs from the row's start for its own service's duration, or for the requested duration when that is missing or 0. |
| Availability.AnyBookedOverlap | src/controllers/appointmentController.js:323-325 | True iff the candidate range overlaps some booked range. |
| Availability.WeekdaySlots | src/controllers/appointmentController.js:280-288 | A missing weekday, a closed day or a day without an interval list yields no slots. |
| Availability.Times | src/controllers/appointmentController.js:328 | Formatting keeps one text per start time. |
| Availability.TimesAt | src/controllers/appointmentController.js:328 | Text `k` is the formatted start time `k`. |
| Availability.TimesAppend | src/controllers/appointmentController.js:328 | Formatting distributes over concatenation. |
| Availability.GenerateSlots | src/controllers/appointmentController.js:305-333 | The nested loop pushes exactly the formatted start times of the day's specification, interval by interval. The output is therefore in interval-list order, and not sorted when the intervals are not. |
| Availability.IntervalSlotsExactly | src/controllers/appointmentController.js:311-332 | One interval emits `x` iff `start <= x`, `x + duration <= end`, `x ≡ start (mod 15)`, `x` is not past on today's date and `[x, x + duration)` overlaps nothing booked. |
| Availability.IntervalSlotsAscending | src/controllers/appointmentController.js:314-332 | Within one interval the emitted start times strictly increase. |
| Availability.DaySlotsExactly | src/controllers/appointmentController.js:310-333 | The day emits `x` iff `x` qualifies in some interval of the list. |
| Availability.DaySlotsAscending | src/controllers/appointmentController.js:310 | The day's slots ascend when the intervals are sorted and the duration is positive. |
| Availability.UnbookedIntervalSlots | src/controllers/appointmentController.js:314-331 | With nothing booked and no time filter, slot `k` is `start + 15k`, and there are `(end − start − duration) / 15 + 1` of them when the service fits. |
| Availability.EmittedSlotsAvoidBooked | src/controllers/appointmentController.js:294-327 | No emitted slot overlaps any row that is not rejected, rescheduled rows included. |
| Availability.EmittedTextsReadBack | src/controllers/appointmentController.js:317-328 | When the intervals end at clock texts, every emitted text is "HH:MM" and reads back as its start minute. |
| Appointments.ReplaceKeepsInvariant | src/controllers/appointmentController.js:182-255 | An in-place update that keeps the id and range, and blocks no more than before, keeps the store invariant. |
| Appointments.AppendKeepsInvariant | src/controllers/appointmentController.js:108-124 | Appending a row with a fresh id that the conflict query does not flag keeps the store invariant. |
| Appointments.Store.CreateAppointment | src/controllers/appointmentController.js:69-124 | Checks in order: business (NotFound), own service (NotFound), hours configured (NotConfigured), range within hours (OutOfHours), no conflict (Conflict). Only then it appends a pending row with `endTime = start + duration` and a fresh id. Any failure changes nothing. |
| Appointments.Store.ConfirmAppointment | src/controllers/appointmentController.js:182-200 | NotFound or NotPending change nothing; a pending row becomes confirmed, nothing else changes. |
| Appointments.Store.RejectAppointment | src/controllers/appointmentController.js:203-218 | NotFound or NotPending change nothing; a pending row becomes rejected with the reason, nothing else changes. |
| Appointments.Store.RescheduleAppointment | src/controllers/appointmentController.js:221-255 | After the pending guard it checks the suggested range against hours, then against conflicts excluding itself. Only then does it set `rescheduled` and the suggestion. A missing service or hours record is a server error. Any failure changes nothing. |
| Appointments.Store.AvailableSlots | src/controllers/appointmentController.js:259-341 | Missing date or service gives a validation error, then business and service NotFound, then missing hours NotConfigured (not an empty list). Otherwise it returns the generator's slots for the weekday, booked ranges included. |
| Appointments.RejectedSlotIsReleased | src/controllers/appointmentController.js:203-218 | Because the conflict query (line 49) ignores rejected rows, a booking that succeeded and was then rejected can be made again. |
| HoursEditor.ToggleDay | frontend/src/components/onboarding/OnboardingBusinessHours.jsx:13-15 | Negates the day's flag. Closing empties the intervals; opening keeps them, or gives `[]` when missing. Other weekdays are unchanged. |
| HoursEditor.AddInterval | frontend/src/components/onboarding/OnboardingBusinessHours.jsx:17-19 | Appends 09:00–18:00. The length grows by one, earlier intervals are unchanged, and other weekdays are unchanged. |
| HoursEditor.WithoutIndex | frontend/src/components/onboarding/OnboardingBusinessHours.jsx:22 | Drops exactly position `i` and keeps the order; out of range, the list is unchanged. |
| HoursEditor.RemoveInterval | frontend/src/components/onboarding/OnboardingBusinessHours.jsx:21-23 | The day's list loses exactly the indexed interval. Other weekdays are unchanged. |
| HoursEditor.UpdateAt | frontend/src/components/onboarding/OnboardingBusinessHours.jsx:26 | Same length; only position `i` changes, to the interval with the field set. |
| HoursEditor.UpdateInterval | frontend/src/components/onboarding/OnboardingBusinessHours.jsx:25-27 | Only the named field of the indexed interval changes. The length, the other intervals, the other field and the other weekdays are unchanged. |
| HoursEditor.ValidateHours | frontend/src/components/onboarding/OnboardingBusinessHours.jsx:31-42 | False iff some open day has an interval with an empty start or end, or with `start >= end` as strings. Closed days are ignored. |
| HoursEditor.LexLessClockTexts | frontend/src/components/onboarding/OnboardingBusinessHours.jsx:37 | On two clock texts, string order is time order. |
| HoursEditor.ValidHoursAreOrdered | frontend/src/components/onboarding/OnboardingBusinessHours.jsx:31-42 | Validated clock-text intervals start strictly before they end, in the backend's minutes. |
| HoursEditor.AddIntervalKeepsValid | frontend/src/components/onboarding/OnboardingBusinessHours.jsx:17-42 | Adding the default interval keeps valid hours valid. |
| HoursEditor.RemoveIntervalKeepsValid | frontend/src/components/onboarding/OnboardingBusinessHours.jsx:21-42 | Removing an interval keeps valid hours valid. |
| HoursEditor.ToggleDayValidity | frontend/src/components/onboarding/OnboardingBusinessHours.jsx:13-42 | After a toggle, valid hours stay valid iff the day is being closed or the intervals it keeps are all valid. |
| HoursEditor.EditsKeepClosedDaysEmpty | frontend/src/components/onboarding/OnboardingBusinessHours.jsx:13-27 | Toggling, removing and updating keep every closed day without intervals. Adding, offered only on open days, does too. |
| ServiceForm.NumberOf | frontend/src/components/onboarding/OnboardingServices.jsx:19 | `Number` gives a finite value iff the text is all digits (the empty text is 0); the value is never negative. |
| ServiceForm.ColonIndex | frontend/src/components/onboarding/OnboardingServices.jsx:18-19 | The position of the first colon, or the length when there is none. |
| ServiceForm.DurationToMinutes | frontend/src/components/onboarding/OnboardingServices.jsx:17-21 | No colon gives 0. With a colon, the result is NaN iff the hour part is not a number; a finite result is never negative. |
| ServiceForm.FormatDuration | frontend/src/components/onboarding/OnboardingServices.jsx:10-15 | Below one minute it gives "00:00"; from one minute on, the same text as the backend's `minutesToTime`. |
| ServiceForm.ClockTextParts | frontend/src/components/onboarding/OnboardingServices.jsx:10-21 | Splitting a formatted duration at its first colon gives back the two padded parts. |
| ServiceForm.DurationRoundTrip | frontend/src/components/onboarding/OnboardingServices.jsx:10-21 | For every count of at least one minute, formatting and reading back gives the count. |
| ServiceForm.ParsersAgreeOnClockTexts | frontend/src/components/onboarding/OnboardingServices.jsx:17-21 | On "HH:MM" texts the form's reading equals the backend's `timeToMinutes`. |
| ServiceForm.MissingMinutesCountZero | frontend/src/components/onboarding/OnboardingServices.jsx:20 | Nothing after the colon counts as 0 minutes. |
| ServiceForm.CheckServiceForm | frontend/src/components/onboarding/OnboardingServices.jsx:46-66 | Refused iff the name is empty or the duration is a number not above 0; otherwise it sends the name, description and parsed duration. |
| ServiceForm.TimeInputAccepted | frontend/src/components/onboarding/OnboardingServices.jsx:55-66 | For time-input text, accepted iff the name is non-empty and the backend reads a positive number of minutes. |
| ServiceForm.NonNumericHoursPass | frontend/src/components/onboarding/OnboardingServices.jsx:55-62 | Every duration text holding a colon whose hour part is not a number becomes NaN; NaN is not `<= 0`, so with a name it passes the check. |
| ServiceForm.LetterHourPasses | frontend/src/components/onboarding/OnboardingServices.jsx:55-62 | The text "h:30" with a name is sent with a NaN duration. |

## Left out

- HTTP handling, status codes and JSON bodies. The handlers return `Result` values with one error kind per status code.
- Sequelize queries, `include` joins, and `getAppointments` with its pagination. `getAppointments` is a filtered, paginated read, and it is not part of this model.
- JavaScript `Date`: the weekday of a date, the UTC "is today" test and the current time are parameters. `nowMinutes` is the current time rounded up to a whole minute. A slot is past iff it is today and its start is below `nowMinutes`, which equals `slotDateTime < now` for slots on whole minutes. The time-zone mismatch between these is not modelled.
- The check-then-insert race between `hasTimeConflict` and `Appointment.create`. The model is sequential, and there the double-booking invariant holds.
- The `preco` price: `parseFloat` is floating point.
- src/middleware/auth.js, src/config/database.js, frontend/src/utils/dateUtils.js and the frontend pages are not part of this model. The caller's business id is an input.
- Clock.MinutesToTime: takes a non-negative count. The model assumes this: `Service.duration` is a `nat`, and every caller adds it to a `timeToMinutes` result, which is never negative. The backend's service handler is not part of this model, so stored negative or NaN durations are not covered.
- Conflicts.HasTimeConflict: the SQL comparison of the stored `TIME` columns with the text parameters is modelled as comparison of the minute values that `timeToMinutes` gives. An end text of 100 hours or more therefore reads as midnight here.
- Appointments.Store.RejectAppointment: the reason is taken as text. An absent `rejectionReason` in the request body is not modelled.
- Appointments.Store.RescheduleAppointment: the handler's two null dereferences become a `ServerError` outcome with no change. These are a deleted service and a missing hours record.
- ServiceForm.NumberOf: `Number` is modelled on the empty text and on digit strings. Signs, whitespace, decimals, exponents and hexadecimal read as NaN here.
- The frontend state setters, rendering and API calls. Each updater is the pure function passed to `setBusinessHours`.
- The slot generator and the conflict detector disagree, and the model keeps both as written:
  - The generator blocks rescheduled rows, while `hasTimeConflict` ignores them.
  - The generator ends a booked range with the service duration, not with the stored `endTime`.
