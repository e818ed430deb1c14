/**
  The appointment controller over an in-memory store: the persisted rows are fields of one
  `Store` object, and each handler is a method that reads them and, on success, updates one row
  or appends one. The weekday of a date, whether it is today and the current time are inputs.
*/
module Appointments {
  import opened Wrappers
  import opened Clock
  import opened BusinessHours
  import opened Records
  import opened Conflicts
  import opened Availability

  /** The error outcomes the handlers return instead of HTTP status codes. */
  datatype Error =
    | NotFound         // business, service or appointment absent (404)
    | NotConfigured    // no business-hours record (400)
    | OutOfHours       // range not inside one open interval (400)
    | Conflict         // overlapping pending or confirmed appointment (400)
    | NotPending       // transition on an appointment that is not pending (400)
    | ValidationError  // date or service missing from a slot query (400)
    | ServerError      // a null dereference caught by the handler (500)

  /** `endTime` of a range that starts at `time` and lasts `duration` minutes. */
  function EndTimeFor(time: string, duration: nat): string {
    MinutesToTime(TimeToMinutes(time) + duration)
  }

  predicate UniqueIds(appts: seq<Appointment>) {
    forall i, j :: 0 <= i < j < |appts| ==> appts[i].id != appts[j].id
  }

  /** No two pending or confirmed appointments of one business and date overlap. */
  predicate NoDoubleBooking(appts: seq<Appointment>) {
    forall i, j ::
      0 <= i < |appts| && 0 <= j < |appts| && i != j &&
      Blocks(appts[i]) && Blocks(appts[j]) &&
      appts[i].businessId == appts[j].businessId && appts[i].date == appts[j].date
      ==> !Overlaps(StartMinutes(appts[i]), EndMinutes(appts[i]), StartMinutes(appts[j]), EndMinutes(appts[j]))
  }

  /** Replacing a row by one with the same id and range that blocks no more than it did keeps the store valid. */
  lemma ReplaceKeepsInvariant(appts: seq<Appointment>, k: nat, rec: Appointment)
    requires k < |appts| && UniqueIds(appts) && NoDoubleBooking(appts)
    requires rec.id == appts[k].id && rec.businessId == appts[k].businessId && rec.date == appts[k].date
    requires rec.time == appts[k].time && rec.endTime == appts[k].endTime
    requires Blocks(rec) ==> Blocks(appts[k])
    ensures UniqueIds(appts[k := rec]) && NoDoubleBooking(appts[k := rec])
  {
    var after := appts[k := rec];
    forall i, j |
      0 <= i < |after| && 0 <= j < |after| && i != j &&
      Blocks(after[i]) && Blocks(after[j]) &&
      after[i].businessId == after[j].businessId && after[i].date == after[j].date
      ensures !Overlaps(StartMinutes(after[i]), EndMinutes(after[i]), StartMinutes(after[j]), EndMinutes(after[j]))
    {
      assert Blocks(appts[i]) && Blocks(appts[j]);
    }
  }

  /** Appending a row whose range conflicts with no blocking row keeps the store valid. */
  lemma AppendKeepsInvariant(appts: seq<Appointment>, rec: Appointment)
    requires UniqueIds(appts) && NoDoubleBooking(appts)
    requires forall k :: 0 <= k < |appts| ==> appts[k].id != rec.id
    requires !HasTimeConflict(appts, rec.businessId, rec.date, rec.time, rec.endTime, None)
    ensures UniqueIds(appts + [rec]) && NoDoubleBooking(appts + [rec])
  {
    var after := appts + [rec];
    forall i, j |
      0 <= i < |after| && 0 <= j < |after| && i != j &&
      Blocks(after[i]) && Blocks(after[j]) &&
      after[i].businessId == after[j].businessId && after[i].date == after[j].date
      ensures !Overlaps(StartMinutes(after[i]), EndMinutes(after[i]), StartMinutes(after[j]), EndMinutes(after[j]))
    {
      if i == |appts| {
        assert after[j] == appts[j];
      } else if j == |appts| {
        assert after[i] == appts[i];
      }
    }
  }

  class Store {
    /** Business accounts (`User` rows) by id. */
    var businesses: set<nat>
    var services: seq<Service>
    /** The business-hours record of each business that has one. */
    var hours: map<nat, Week>
    var appointments: seq<Appointment>
    /** The id the next created appointment receives. */
    var nextId: nat

    ghost predicate Valid()
      reads this
    {
      && UniqueIds(appointments)
      && UniqueServiceIds(services)
      && (forall k :: 0 <= k < |appointments| ==> appointments[k].id < nextId)
      && NoDoubleBooking(appointments)
    }

    constructor (businesses: set<nat>, services: seq<Service>, hours: map<nat, Week>)
      requires UniqueServiceIds(services)
      ensures Valid()
      ensures this.businesses == businesses && this.services == services && this.hours == hours
      ensures appointments == [] && nextId == 1
    {
      this.businesses := businesses;
      this.services := services;
      this.hours := hours;
      appointments := [];
      nextId := 1;
    }

    /**
      `createAppointment`: checks, in this order, that the business exists, that the service is
      one of its own, that business hours are configured, that `[time, time + duration)` fits in
      one open interval of the weekday and that it conflicts with no pending or confirmed
      appointment; only then stores a pending row with the computed end time.
    */
    method CreateAppointment(businessId: nat, serviceId: nat, client: Client, date: string, time: string,
                             observations: string, weekday: int)
      returns (r: Result<Appointment, Error>)
      requires Valid()
      modifies this
      ensures Valid()
      ensures businesses == old(businesses) && services == old(services) && hours == old(hours)
      ensures r.Failure? ==> appointments == old(appointments) && nextId == old(nextId)
      ensures businessId !in businesses ==> r == Failure(NotFound)
      ensures businessId in businesses && FindService(services, serviceId, businessId).None? ==> r == Failure(NotFound)
      ensures businessId in businesses && FindService(services, serviceId, businessId).Some? ==>
        var endTime := EndTimeFor(time, FindService(services, serviceId, businessId).value.duration);
        && (businessId !in hours ==> r == Failure(NotConfigured))
        && (businessId in hours && !IsWithinBusinessHours(hours[businessId], weekday, time, endTime) ==>
              r == Failure(OutOfHours))
        && (businessId in hours && IsWithinBusinessHours(hours[businessId], weekday, time, endTime) &&
            HasTimeConflict(old(appointments), businessId, date, time, endTime, None) ==>
              r == Failure(Conflict))
        && (businessId in hours && IsWithinBusinessHours(hours[businessId], weekday, time, endTime) &&
            !HasTimeConflict(old(appointments), businessId, date, time, endTime, None) ==>
              && r == Success(Appointment(old(nextId), businessId, serviceId, client, date, time, endTime,
                                          observations, Pending, None, None))
              && appointments == old(appointments) + [r.value]
              && nextId == old(nextId) + 1)
    {
      if businessId !in businesses {
        return Failure(NotFound);
      }
      var service := FindService(services, serviceId, businessId);
      if service.None? {
        return Failure(NotFound);
      }
      var endTime := EndTimeFor(time, service.value.duration);
      if businessId !in hours {
        return Failure(NotConfigured);
      }
      if !IsWithinBusinessHours(hours[businessId], weekday, time, endTime) {
        return Failure(OutOfHours);
      }
      if HasTimeConflict(appointments, businessId, date, time, endTime, None) {
        return Failure(Conflict);
      }
      var rec := Appointment(nextId, businessId, serviceId, client, date, time, endTime, observations, Pending, None, None);
      AppendKeepsInvariant(appointments, rec);
      appointments := appointments + [rec];
      nextId := nextId + 1;
      r := Success(rec);
    }

    /** `confirmAppointment`: a pending appointment of the caller becomes confirmed, with no re-validation. */
    method ConfirmAppointment(owner: nat, id: nat) returns (r: Result<Appointment, Error>)
      requires Valid()
      modifies this
      ensures Valid()
      ensures businesses == old(businesses) && services == old(services) && hours == old(hours) && nextId == old(nextId)
      ensures r.Failure? ==> appointments == old(appointments)
      ensures var k := FindAppointment(old(appointments), id, owner);
        && (k.None? ==> r == Failure(NotFound))
        && (k.Some? && old(appointments)[k.value].status != Pending ==> r == Failure(NotPending))
        && (k.Some? && old(appointments)[k.value].status == Pending ==>
              && r == Success(old(appointments)[k.value].(status := Confirmed))
              && appointments == old(appointments)[k.value := r.value])
    {
      var k := FindAppointment(appointments, id, owner);
      if k.None? {
        return Failure(NotFound);
      }
      if appointments[k.value].status != Pending {
        return Failure(NotPending);
      }
      var rec := appointments[k.value].(status := Confirmed);
      ReplaceKeepsInvariant(appointments, k.value, rec);
      appointments := appointments[k.value := rec];
      r := Success(rec);
    }

    /** `rejectAppointment`: a pending appointment of the caller becomes rejected, with the reason. */
    method RejectAppointment(owner: nat, id: nat, reason: string) returns (r: Result<Appointment, Error>)
      requires Valid()
      modifies this
      ensures Valid()
      ensures businesses == old(businesses) && services == old(services) && hours == old(hours) && nextId == old(nextId)
      ensures r.Failure? ==> appointments == old(appointments)
      ensures var k := FindAppointment(old(appointments), id, owner);
        && (k.None? ==> r == Failure(NotFound))
        && (k.Some? && old(appointments)[k.value].status != Pending ==> r == Failure(NotPending))
        && (k.Some? && old(appointments)[k.value].status == Pending ==>
              && r == Success(old(appointments)[k.value].(status := Rejected, rejectionReason := Some(reason)))
              && appointments == old(appointments)[k.value := r.value])
    {
      var k := FindAppointment(appointments, id, owner);
      if k.None? {
        return Failure(NotFound);
      }
      if appointments[k.value].status != Pending {
        return Failure(NotPending);
      }
      var rec := appointments[k.value].(status := Rejected, rejectionReason := Some(reason));
      ReplaceKeepsInvariant(appointments, k.value, rec);
      appointments := appointments[k.value := rec];
      r := Success(rec);
    }

    /**
      `rescheduleAppointment`: for a pending appointment of the caller, computes the suggested
      end from the appointment's service, checks the suggested range against business hours and
      against every other appointment, and only then marks the row rescheduled with the
      suggestion. A missing joined service or hours record is the handler's null dereference.
    */
    method RescheduleAppointment(owner: nat, id: nat, suggestedDate: string, suggestedTime: string, weekday: int)
      returns (r: Result<Appointment, Error>)
      requires Valid()
      modifies this
      ensures Valid()
      ensures businesses == old(businesses) && services == old(services) && hours == old(hours) && nextId == old(nextId)
      ensures r.Failure? ==> appointments == old(appointments)
      ensures var k := FindAppointment(old(appointments), id, owner);
        && (k.None? ==> r == Failure(NotFound))
        && (k.Some? && old(appointments)[k.value].status != Pending ==> r == Failure(NotPending))
        && (k.Some? && old(appointments)[k.value].status == Pending ==>
              var a := old(appointments)[k.value];
              var service := ServiceById(services, a.serviceId);
              && (service.None? ==> r == Failure(ServerError))
              && (service.Some? ==>
                    var endTime := EndTimeFor(suggestedTime, service.value.duration);
                    && (owner !in hours ==> r == Failure(ServerError))
                    && (owner in hours && !IsWithinBusinessHours(hours[owner], weekday, suggestedTime, endTime) ==>
                          r == Failure(OutOfHours))
                    && (owner in hours && IsWithinBusinessHours(hours[owner], weekday, suggestedTime, endTime) &&
                        HasTimeConflict(old(appointments), owner, suggestedDate, suggestedTime, endTime, Some(id)) ==>
                          r == Failure(Conflict))
                    && (owner in hours && IsWithinBusinessHours(hours[owner], weekday, suggestedTime, endTime) &&
                        !HasTimeConflict(old(appointments), owner, suggestedDate, suggestedTime, endTime, Some(id)) ==>
                          && r == Success(a.(status := Rescheduled,
                                             suggestion := Some(Suggestion(suggestedDate, suggestedTime, endTime))))
                          && appointments == old(appointments)[k.value := r.value])))
    {
      var k := FindAppointment(appointments, id, owner);
      if k.None? {
        return Failure(NotFound);
      }
      var a := appointments[k.value];
      if a.status != Pending {
        return Failure(NotPending);
      }
      var service := ServiceById(services, a.serviceId);
      if service.None? {
        return Failure(ServerError);
      }
      var endTime := EndTimeFor(suggestedTime, service.value.duration);
      if owner !in hours {
        return Failure(ServerError);
      }
      if !IsWithinBusinessHours(hours[owner], weekday, suggestedTime, endTime) {
        return Failure(OutOfHours);
      }
      if HasTimeConflict(appointments, owner, suggestedDate, suggestedTime, endTime, Some(id)) {
        return Failure(Conflict);
      }
      var rec := a.(status := Rescheduled, suggestion := Some(Suggestion(suggestedDate, suggestedTime, endTime)));
      ReplaceKeepsInvariant(appointments, k.value, rec);
      appointments := appointments[k.value := rec];
      r := Success(rec);
    }

    /**
      `getAvailableSlots`: after the request, business, service and hours checks, walks every
      interval of the weekday in 15-minute steps and emits the start times that are not past and
      whose service range overlaps no booked row. It changes nothing.
    */
    method AvailableSlots(businessId: nat, date: string, serviceId: Option<nat>, weekday: int,
                          isToday: bool, nowMinutes: int)
      returns (r: Result<seq<string>, Error>)
      ensures date == [] || serviceId.None? ==> r == Failure(ValidationError)
      ensures date != [] && serviceId.Some? ==>
        var service := FindService(services, serviceId.value, businessId);
        && (businessId !in businesses ==> r == Failure(NotFound))
        && (businessId in businesses && service.None? ==> r == Failure(NotFound))
        && (businessId in businesses && service.Some? && businessId !in hours ==> r == Failure(NotConfigured))
        && (businessId in businesses && service.Some? && businessId in hours ==>
              var d := service.value.duration;
              r == Success(Times(WeekdaySlots(hours[businessId], weekday, d,
                                              BookedRanges(appointments, services, businessId, date, d),
                                              isToday, nowMinutes))))
    {
      if date == [] || serviceId.None? {
        return Failure(ValidationError);
      }
      var service := FindService(services, serviceId.value, businessId);
      if businessId !in businesses {
        return Failure(NotFound);
      }
      if service.None? {
        return Failure(NotFound);
      }
      if businessId !in hours {
        return Failure(NotConfigured);
      }
      var week := hours[businessId];
      if weekday !in week || !week[weekday].isOpen {
        return Success([]);
      }
      if week[weekday].intervals.None? {
        return Success([]);
      }
      var ivs := week[weekday].intervals.value;
      var d := service.value.duration;
      var booked := BookedRanges(appointments, services, businessId, date, d);
      var slots := GenerateSlots(ivs, d, booked, isToday, nowMinutes);
      r := Success(slots);
    }
  }

  /**
    A rejected appointment releases its slot: when a booking succeeds and is then rejected, the
    same request made again succeeds.
  */
  method RejectedSlotIsReleased(store: Store, businessId: nat, serviceId: nat, client: Client, date: string,
                                time: string, observations: string, weekday: int, reason: string)
    returns (first: Result<Appointment, Error>, second: Result<Appointment, Error>)
    requires store.Valid()
    modifies store
    ensures first.Success? ==> second.Success? && second.value.status == Pending
  {
    first := store.CreateAppointment(businessId, serviceId, client, date, time, observations, weekday);
    second := first;
    if first.Success? {
      var released := store.RejectAppointment(businessId, first.value.id, reason);
      assert released.Success?;
      second := store.CreateAppointment(businessId, serviceId, client, date, time, observations, weekday);
    }
  }
}
