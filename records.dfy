/** The persisted records the appointment controller reads and writes. */
module Records {
  import opened Wrappers
  import opened Clock

  /** The appointment status, stored by the source as one of four strings. */
  datatype Status = Pending | Confirmed | Rejected | Rescheduled

  datatype Client = Client(name: string, email: string, phone: string)

  /** The suggested date, start and end written by a reschedule. */
  datatype Suggestion = Suggestion(date: string, time: string, endTime: string)

  /**
    An appointment row. `time` is the requested start text, stored as given; `endTime` is the
    text computed at creation from the service duration and never recomputed.
  */
  datatype Appointment = Appointment(
    id: nat,
    businessId: nat,
    serviceId: nat,
    client: Client,
    date: string,
    time: string,
    endTime: string,
    observations: string,
    status: Status,
    rejectionReason: Option<string>,
    suggestion: Option<Suggestion>)

  /** A service row: its owner and its duration in minutes. */
  datatype Service = Service(id: nat, businessId: nat, name: string, duration: nat)

  function StartMinutes(a: Appointment): nat {
    TimeToMinutes(a.time)
  }

  function EndMinutes(a: Appointment): nat {
    TimeToMinutes(a.endTime)
  }

  /** `Service.findOne({ where: { id, userId } })`: the service with that id owned by that business. */
  function FindService(services: seq<Service>, id: nat, owner: nat): (r: Option<Service>)
    ensures r.Some? ==> r.value in services && r.value.id == id && r.value.businessId == owner
    ensures r.None? ==> forall k :: 0 <= k < |services| ==> !(services[k].id == id && services[k].businessId == owner)
  {
    if services == [] then None
    else if services[0].id == id && services[0].businessId == owner then Some(services[0])
    else FindService(services[1..], id, owner)
  }

  /** Service ids are a primary key: no two rows share one. */
  predicate UniqueServiceIds(services: seq<Service>) {
    forall i, j :: 0 <= i < j < |services| ==> services[i].id != services[j].id
  }

  /** The service joined to an appointment through its `serviceId`, whoever owns it. */
  function ServiceById(services: seq<Service>, id: nat): (r: Option<Service>)
    ensures r.Some? ==> r.value in services && r.value.id == id
    ensures r.None? ==> forall k :: 0 <= k < |services| ==> services[k].id != id
  {
    if services == [] then None
    else if services[0].id == id then Some(services[0])
    else ServiceById(services[1..], id)
  }

  /**
    With unique service ids, the join by id finds the same row as the owner-scoped lookup, so the
    handlers that use one or the other agree on a service's duration.
  */
  lemma {:induction false} OwnServiceIsJoinedService(services: seq<Service>, id: nat, owner: nat)
    requires UniqueServiceIds(services)
    requires FindService(services, id, owner).Some?
    ensures ServiceById(services, id) == FindService(services, id, owner)
  {
    if services[0].id != id {
      assert UniqueServiceIds(services[1..]) by {
        forall i, j | 0 <= i < j < |services[1..]| ensures services[1..][i].id != services[1..][j].id {
          assert services[1..][i] == services[i + 1] && services[1..][j] == services[j + 1];
        }
      }
      OwnServiceIsJoinedService(services[1..], id, owner);
    }
  }

  /** `Appointment.findOne({ where: { id, userId } })`: the position of that appointment of that business. */
  function FindAppointment(appts: seq<Appointment>, id: nat, owner: nat): (r: Option<nat>)
    ensures r.Some? ==> r.value < |appts| && appts[r.value].id == id && appts[r.value].businessId == owner
    ensures r.None? ==> forall k :: 0 <= k < |appts| ==> !(appts[k].id == id && appts[k].businessId == owner)
  {
    if appts == [] then None
    else
      match FindAppointment(appts[..|appts| - 1], id, owner)
      case Some(k) => Some(k)
      case None =>
        if appts[|appts| - 1].id == id && appts[|appts| - 1].businessId == owner
        then Some(|appts| - 1) else None
  }
}
