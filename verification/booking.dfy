/** The records the checker reads from and builds for the booking service,
    after JSON decoding. Identifiers are the service's non-negative integers. */
module Booking {

  /** The status code the checker treats as success. */
  const StatusOk: int := 200

  /** One day of an availabilities answer: the date as the service writes it
      ("YYYY-MM-DD") and that day's open slots. */
  datatype Availability = Availability(date: string, slots: seq<string>)

  /** An answer of the availabilities endpoint: status code and, on success,
      the decoded `availabilities` list. */
  datatype Response = Response(status: int, availabilities: seq<Availability>)

  /** One entry of an alert: the day, how many slots it has, and the name of
      the visit motive it was found for (the source's `type` key). */
  datatype SlotEntry = SlotEntry(date: string, count: nat, kind: string)

  /** A visit motive of the booking snapshot. */
  datatype VisitMotive = VisitMotive(id: nat, name: string)

  /** An agenda of the booking snapshot: the motives it serves and the
      practice it belongs to. */
  datatype Agenda = Agenda(id: nat, visitMotiveIds: seq<nat>, practiceId: nat)

  /** A place of the booking snapshot and the practices it groups. */
  datatype Place = Place(id: nat, name: string, practiceIds: seq<nat>)

  /** The `data` part of a booking answer. */
  datatype Snapshot = Snapshot(places: seq<Place>, visitMotives: seq<VisitMotive>, agendas: seq<Agenda>)

  /** An answer of the booking endpoint: status code and, on success, the snapshot. */
  datatype BookingResponse = BookingResponse(status: int, snapshot: Snapshot)

  /** A visit motive resolved for one place: the agenda ids and practice ids
      are kept in their dash-joined wire form, ready for the query URL. */
  datatype MotiveQuery = MotiveQuery(id: nat, name: string, agendaIds: string, practiceIds: string)
}
