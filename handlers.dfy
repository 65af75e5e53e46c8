/** The HTTP handlers of the booking routes: open a connection, check the
    `Authorization` header against the patient the request names, call the
    database, and turn the outcome into a status code and a JSON string. */
module Handlers {
  import opened Wrappers
  import opened Tables
  import opened Appointments
  import opened Allocator
  import opened Auth
  import opened Store

  datatype Response = Response(status: int, body: string)

  const StatusOk := 200
  const BadRequest := 400
  const Unauthorized := 401
  const InternalServerError := 500

  /** The response of `newappointment`, `newtoken` and `newemergency`:
      `initOk` is whether a connection could be opened, `authOk` whether the
      header authenticates the patient, `inserted` what the database call
      returned. */
  function InsertResponse(initOk: bool, authOk: bool, inserted: bool): (r: Response)
    ensures r.status == StatusOk <==> initOk && authOk && inserted
    ensures r.status == BadRequest <==> initOk && authOk && !inserted
    ensures r.status == Unauthorized <==> initOk && !authOk
    ensures r.status == InternalServerError <==> !initOk
    ensures r.body == if r.status == StatusOk then "Inserted" else "Error while inserting"
  {
    if !initOk then Response(InternalServerError, "Error while inserting")
    else if !authOk then Response(Unauthorized, "Error while inserting")
    else if inserted then Response(StatusOk, "Inserted")
    else Response(BadRequest, "Error while inserting")
  }

  /** The response of `cancelappointment`: a failed authentication is
      answered with 400, like a failed UPDATE. */
  function CancelResponse(initOk: bool, authOk: bool, cancelled: bool): (r: Response)
    ensures r.status == StatusOk <==> initOk && authOk && cancelled
    ensures r.status == BadRequest <==> initOk && !(authOk && cancelled)
    ensures r.status == InternalServerError <==> !initOk
    ensures r.body == if r.status == StatusOk then "Cancelled" else "Error while cancelling"
  {
    if !initOk then Response(InternalServerError, "Error while cancelling")
    else if !authOk then Response(BadRequest, "Error while cancelling")
    else if cancelled then Response(StatusOk, "Cancelled")
    else Response(BadRequest, "Error while cancelling")
  }

  /** A client of the insert routes can tell a rejected token from a
      rejected booking; a client of the cancel route cannot tell a rejected
      token from a failed UPDATE. */
  lemma AuthFailureVisibility(inserted: bool, cancelled: bool)
    ensures InsertResponse(true, false, inserted) != InsertResponse(true, true, false)
    ensures CancelResponse(true, false, cancelled) == CancelResponse(true, true, false)
  {
  }

  /** `newappointment`. Only a patient token for `payload.patient` reaches
      the database; otherwise nothing changes. */
  method NewAppointment(db: Database, initOk: bool, header: Option<seq<byte>>, decode: string -> Option<Claims>,
                        payload: AppointmentRequest, readOk: bool, insertOk: bool) returns (r: Response)
    modifies db
    ensures var authOk := Authenticate(header, payload.patient, false, decode);
      && r == InsertResponse(initOk, authOk, Booked(old(db.appointments), payload, readOk, insertOk))
      && db.appointments == (if initOk && authOk then AfterBooking(old(db.appointments), payload, readOk, insertOk)
                             else old(db.appointments))
    ensures db.tokens == old(db.tokens) && db.emergencies == old(db.emergencies)
  {
    if !initOk {
      return Response(InternalServerError, "Error while inserting");
    }
    if !Authenticate(header, payload.patient, false, decode) {
      return Response(Unauthorized, "Error while inserting");
    }
    var ok := db.AddAppointment(payload, readOk, insertOk);
    if ok {
      return Response(StatusOk, "Inserted");
    }
    return Response(BadRequest, "Error while inserting");
  }

  /** `newtoken`. */
  method NewToken(db: Database, initOk: bool, header: Option<seq<byte>>, decode: string -> Option<Claims>,
                  payload: QueueRequest, checkOk: bool, countOk: bool, insertOk: bool) returns (r: Response)
    modifies db
    ensures var authOk := Authenticate(header, payload.patient, false, decode);
      var e := Allocate(Entries(old(db.tokens)), payload, checkOk, countOk);
      var issued := initOk && authOk && e.Some? && insertOk;
      && r == InsertResponse(initOk, authOk, e.Some? && insertOk)
      && db.tokens == (if issued then old(db.tokens) + [TokenRow(e.value, Scheduled)] else old(db.tokens))
    ensures db.appointments == old(db.appointments) && db.emergencies == old(db.emergencies)
  {
    if !initOk {
      return Response(InternalServerError, "Error while inserting");
    }
    if !Authenticate(header, payload.patient, false, decode) {
      return Response(Unauthorized, "Error while inserting");
    }
    var ok := db.AddToken(payload, checkOk, countOk, insertOk);
    if ok {
      return Response(StatusOk, "Inserted");
    }
    return Response(BadRequest, "Error while inserting");
  }

  /** `newemergency`. */
  method NewEmergency(db: Database, initOk: bool, header: Option<seq<byte>>, decode: string -> Option<Claims>,
                      payload: QueueRequest, checkOk: bool, countOk: bool, insertOk: bool) returns (r: Response)
    modifies db
    ensures var authOk := Authenticate(header, payload.patient, false, decode);
      var inserted := Allocate(old(db.emergencies), payload, checkOk, countOk).Some? && insertOk;
      && r == InsertResponse(initOk, authOk, inserted)
      && db.emergencies == (if initOk && authOk && inserted then AfterAllocate(old(db.emergencies), payload, checkOk, countOk)
                            else old(db.emergencies))
    ensures db.appointments == old(db.appointments) && db.tokens == old(db.tokens)
  {
    if !initOk {
      return Response(InternalServerError, "Error while inserting");
    }
    if !Authenticate(header, payload.patient, false, decode) {
      return Response(Unauthorized, "Error while inserting");
    }
    var ok := db.AddEmergency(payload, checkOk, countOk, insertOk);
    if ok {
      return Response(StatusOk, "Inserted");
    }
    return Response(BadRequest, "Error while inserting");
  }

  /** `cancelappointment`. The UPDATE runs only for an authenticated
      patient, and then answers 200 whether or not a row matched. */
  method CancelAppointmentRequest(db: Database, initOk: bool, header: Option<seq<byte>>, decode: string -> Option<Claims>,
                                  payload: CancelRequest, updateOk: bool) returns (r: Response)
    modifies db
    ensures var authOk := Authenticate(header, payload.patient, false, decode);
      && r == CancelResponse(initOk, authOk, updateOk)
      && db.appointments == (if initOk && authOk && updateOk then CancelRows(old(db.appointments), payload)
                             else old(db.appointments))
    ensures db.tokens == old(db.tokens) && db.emergencies == old(db.emergencies)
  {
    if !initOk {
      return Response(InternalServerError, "Error while cancelling");
    }
    if !Authenticate(header, payload.patient, false, decode) {
      return Response(BadRequest, "Error while cancelling");
    }
    var ok := db.CancelAppointment(payload, updateOk);
    if ok {
      return Response(StatusOk, "Cancelled");
    }
    return Response(BadRequest, "Error while cancelling");
  }
}
