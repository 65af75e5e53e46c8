/** The `Database` of the service, reduced to the three booking tables it
    writes and the slot table it reads. Each method is one of the writing
    operations; whether each SQL statement it issues succeeds is a
    parameter. */
module Store {
  import opened Wrappers
  import opened Dates
  import opened Tables
  import opened Appointments
  import opened Allocator

  /** The loop of `add_new_appointment` over the doctor's listing: the first
      row whose date does not parse or that holds the slot on that day. */
  method FirstClash(listed: seq<Listed>, slot: int, d: Date) returns (r: Option<nat>)
    ensures r.Some? ==> r.value < |listed| && Blocks(listed[r.value], slot, d)
    ensures r.Some? ==> forall k :: 0 <= k < r.value ==> !Blocks(listed[k], slot, d)
    ensures r.None? ==> forall k :: 0 <= k < |listed| ==> !Blocks(listed[k], slot, d)
  {
    for i := 0 to |listed|
      invariant forall k :: 0 <= k < i ==> !Blocks(listed[k], slot, d)
    {
      if Blocks(listed[i], slot, d) {
        return Some(i);
      }
    }
    return None;
  }

  class Database {
    var appointments: seq<AppointmentRow>
    var tokens: seq<TokenRow>
    var emergencies: seq<QueueRow>
    const slots: seq<SlotRow>

    constructor (slots: seq<SlotRow>, appointments: seq<AppointmentRow>, tokens: seq<TokenRow>, emergencies: seq<QueueRow>)
      ensures this.slots == slots && this.appointments == appointments
      ensures this.tokens == tokens && this.emergencies == emergencies
    {
      this.slots := slots;
      this.appointments := appointments;
      this.tokens := tokens;
      this.emergencies := emergencies;
    }

    /** `add_new_appointment`: parse the date, walk the doctor's
        appointments and give up at the first unparsable date or uncancelled
        booking of the same slot and day, else insert a `scheduled` row.
        `readOk` is whether listing the doctor's appointments succeeds,
        `insertOk` whether the INSERT does. */
    method AddAppointment(req: AppointmentRequest, readOk: bool, insertOk: bool) returns (ok: bool)
      modifies this
      ensures ok == Booked(old(appointments), req, readOk, insertOk)
      ensures appointments == AfterBooking(old(appointments), req, readOk, insertOk)
      ensures tokens == old(tokens) && emergencies == old(emergencies)
      ensures readOk && old(Exclusive(appointments)) ==> Exclusive(appointments)
    {
      var date := Parse(req.date);
      if date.None? {
        return false;
      }
      var d := date.value;
      var listed := DoctorAppointments(appointments, req.doctor, readOk);
      var clash := FirstClash(listed, req.slot, d);
      if clash.Some? {
        CheckBookingBlocked(appointments, req, readOk, d, listed, clash.value);
        return false;
      }
      CheckBookingFree(appointments, req, readOk, d, listed);
      if !insertOk {
        return false;
      }
      ghost var before := appointments;
      appointments := appointments + [NewRow(req, d)];
      if readOk && Exclusive(before) {
        BookingKeepsExclusive(before, req, insertOk);
      }
      return true;
    }

    /** `cancel_appointment`: an UPDATE setting `status` to `cancelled` on
        every row of the doctor, patient and date, whatever the slot. It
        reports only whether the statement ran (`updateOk`), not whether any
        row matched; a failed statement changes nothing. */
    method CancelAppointment(c: CancelRequest, updateOk: bool) returns (ok: bool)
      modifies this
      ensures ok == updateOk
      ensures appointments == if updateOk then CancelRows(old(appointments), c) else old(appointments)
      ensures tokens == old(tokens) && emergencies == old(emergencies)
      ensures old(Exclusive(appointments)) ==> Exclusive(appointments)
    {
      if Exclusive(appointments) {
        CancelKeepsExclusive(appointments, c);
      }
      if !updateOk {
        return false;
      }
      var rows := appointments;
      var i := 0;
      while i < |rows|
        invariant i <= |rows| == |appointments|
        invariant forall k :: 0 <= k < i ==> rows[k] == CancelRow(appointments[k], c)
        invariant forall k :: i <= k < |rows| ==> rows[k] == appointments[k]
      {
        if CancelMatches(rows[i], c) {
          rows := rows[i := rows[i].(status := Cancelled)];
        }
        i := i + 1;
      }
      appointments := rows;
      return true;
    }

    /** `add_new_token`: refuse an unparsable date or a duplicate (doctor,
        patient, date, type), else insert a `scheduled` token numbered by
        `view_new_token`. `checkOk`, `countOk` and `insertOk` are whether
        the duplicate check, the count and the INSERT succeed. */
    method AddToken(req: QueueRequest, checkOk: bool, countOk: bool, insertOk: bool) returns (ok: bool)
      modifies this
      ensures ok == (Allocate(Entries(old(tokens)), req, checkOk, countOk).Some? && insertOk)
      ensures tokens == if ok then old(tokens) + [TokenRow(Allocate(Entries(old(tokens)), req, checkOk, countOk).value, Scheduled)]
                        else old(tokens)
      ensures appointments == old(appointments) && emergencies == old(emergencies)
      ensures IsCanonical(req.date) && countOk && old(Sequential(Entries(tokens))) ==> Sequential(Entries(tokens))
      ensures IsCanonical(req.date) && checkOk && old(UniqueKeys(Entries(tokens))) ==> UniqueKeys(Entries(tokens))
    {
      var entries := Entries(tokens);
      var e := Allocate(entries, req, checkOk, countOk);
      if e.None? || !insertOk {
        return false;
      }
      EntriesSnoc(tokens, TokenRow(e.value, Scheduled));
      if IsCanonical(req.date) && countOk && Sequential(entries) {
        AllocateKeepsSequential(entries, req, checkOk);
      }
      if IsCanonical(req.date) && checkOk && UniqueKeys(entries) {
        AllocateKeepsUniqueKeys(entries, req, countOk);
      }
      tokens := tokens + [TokenRow(e.value, Scheduled)];
      return true;
    }

    /** `add_new_emergency_app`: the same rule as `AddToken` over the
        emergency table alone, numbered by `view_new_emergency_no`. */
    method AddEmergency(req: QueueRequest, checkOk: bool, countOk: bool, insertOk: bool) returns (ok: bool)
      modifies this
      ensures ok == (Allocate(old(emergencies), req, checkOk, countOk).Some? && insertOk)
      ensures emergencies == if ok then AfterAllocate(old(emergencies), req, checkOk, countOk) else old(emergencies)
      ensures appointments == old(appointments) && tokens == old(tokens)
      ensures IsCanonical(req.date) && countOk && old(Sequential(emergencies)) ==> Sequential(emergencies)
      ensures IsCanonical(req.date) && checkOk && old(UniqueKeys(emergencies)) ==> UniqueKeys(emergencies)
    {
      var e := Allocate(emergencies, req, checkOk, countOk);
      if e.None? || !insertOk {
        return false;
      }
      if IsCanonical(req.date) && countOk && Sequential(emergencies) {
        AllocateKeepsSequential(emergencies, req, checkOk);
      }
      if IsCanonical(req.date) && checkOk && UniqueKeys(emergencies) {
        AllocateKeepsUniqueKeys(emergencies, req, countOk);
      }
      emergencies := emergencies + [e.value];
      return true;
    }
  }
}
