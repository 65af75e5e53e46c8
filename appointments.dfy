/** Timed appointments: the slot check of `add_new_appointment`, the status
    update of `cancel_appointment`, and the availability that
    `view_doctor_timeslots` reports. Every function here is over the
    contents of the `appointments` table. */
module Appointments {
  import opened Wrappers
  import opened Dates
  import opened Tables

  /** A row as `view_doctor_appointments` returns it, the date rendered by
      `TO_CHAR`. */
  datatype Listed = Listed(
    patient: int, apptype: int, date: string, mode: string, status: string,
    slot: int, symptom: string)

  function AsListed(a: AppointmentRow): Listed {
    Listed(a.patient, a.apptype, Format(a.date), a.mode, a.status, a.slot, a.symptom)
  }

  /** `view_doctor_appointments(doctor)` as `get_query_result` delivers it:
      the doctor's rows, or an empty list when the query fails. */
  function DoctorAppointments(apps: seq<AppointmentRow>, doctor: int, readOk: bool): (r: seq<Listed>)
    ensures !readOk ==> r == []
    ensures forall l :: l in r ==> exists a :: a in apps && a.doctor == doctor && l == AsListed(a)
    ensures readOk ==> forall a :: a in apps && a.doctor == doctor ==> AsListed(a) in r
  {
    if !readOk || apps == [] then []
    else
      var rest := DoctorAppointments(apps[1..], doctor, readOk);
      assert forall a :: a in apps[1..] ==> a in apps;
      assert forall a :: a in apps ==> a == apps[0] || a in apps[1..];
      if apps[0].doctor == doctor then [AsListed(apps[0])] + rest else rest
  }

  /** What ends the booking loop with `false` at a listed row: a date that
      does not parse, or an uncancelled booking of the same slot on the same
      day. */
  predicate Blocks(l: Listed, slot: int, d: Date) {
    match Parse(l.date)
    case None => true
    case Some(ld) => l.slot == slot && ld == d && l.status != Cancelled
  }

  /** Whether a row still takes part in slot exclusivity. */
  predicate Active(a: AppointmentRow) {
    a.status != Cancelled
  }

  predicate SameSlot(a: AppointmentRow, b: AppointmentRow) {
    a.doctor == b.doctor && a.slot == b.slot && a.date == b.date
  }

  /** At most one uncancelled appointment per (doctor, slot, date). */
  ghost predicate Exclusive(apps: seq<AppointmentRow>) {
    forall i, j :: 0 <= i < j < |apps| && Active(apps[i]) && Active(apps[j]) ==> !SameSlot(apps[i], apps[j])
  }

  datatype Check = InvalidDate | Blocked | Free(date: Date)

  /** The checks `add_new_appointment` makes before its insert. */
  function CheckBooking(apps: seq<AppointmentRow>, req: AppointmentRequest, readOk: bool): (c: Check)
    ensures c == InvalidDate <==> Parse(req.date).None?
    ensures c.Free? ==> Parse(req.date) == Some(c.date)
  {
    match Parse(req.date)
    case None => InvalidDate
    case Some(d) =>
      var listed := DoctorAppointments(apps, req.doctor, readOk);
      if exists k :: 0 <= k < |listed| && Blocks(listed[k], req.slot, d) then Blocked else Free(d)
  }

  /** The scan of the listing finds no blocking row. */
  lemma CheckBookingFree(apps: seq<AppointmentRow>, req: AppointmentRequest, readOk: bool, d: Date, listed: seq<Listed>)
    requires Parse(req.date) == Some(d) && listed == DoctorAppointments(apps, req.doctor, readOk)
    requires forall k :: 0 <= k < |listed| ==> !Blocks(listed[k], req.slot, d)
    ensures CheckBooking(apps, req, readOk) == Free(d)
  {
  }

  /** The scan of the listing stops at a blocking row. */
  lemma CheckBookingBlocked(apps: seq<AppointmentRow>, req: AppointmentRequest, readOk: bool, d: Date, listed: seq<Listed>, k: nat)
    requires Parse(req.date) == Some(d) && listed == DoctorAppointments(apps, req.doctor, readOk)
    requires k < |listed| && Blocks(listed[k], req.slot, d)
    ensures CheckBooking(apps, req, readOk) == Blocked
  {
  }

  /** The row `add_new_appointment` inserts. */
  function NewRow(req: AppointmentRequest, d: Date): AppointmentRow {
    AppointmentRow(req.doctor, req.patient, req.apptype, d, req.slot, req.mode, Scheduled, req.symptom)
  }

  predicate Booked(apps: seq<AppointmentRow>, req: AppointmentRequest, readOk: bool, insertOk: bool) {
    CheckBooking(apps, req, readOk).Free? && insertOk
  }

  /** The table after `add_new_appointment`: one `scheduled` row appended
      when the checks pass and the insert succeeds, the table unchanged
      otherwise. */
  function AfterBooking(apps: seq<AppointmentRow>, req: AppointmentRequest, readOk: bool, insertOk: bool): (r: seq<AppointmentRow>)
    ensures Booked(apps, req, readOk, insertOk) ==> r == apps + [NewRow(req, CheckBooking(apps, req, readOk).date)]
    ensures !Booked(apps, req, readOk, insertOk) ==> r == apps
  {
    if Booked(apps, req, readOk, insertOk) then apps + [NewRow(req, CheckBooking(apps, req, readOk).date)] else apps
  }

  /** The uncancelled rows of the requested doctor, slot and day. */
  predicate Holds(a: AppointmentRow, doctor: int, slot: int, d: Date) {
    a.doctor == doctor && a.slot == slot && a.date == d && Active(a)
  }

  /** A listed row blocks exactly when its year has more than four digits
      or it holds the slot. */
  lemma ListedBlocks(a: AppointmentRow, slot: int, d: Date)
    ensures Blocks(AsListed(a), slot, d) <==> a.date.year > 9999 || Holds(a, a.doctor, slot, d)
  {
    ParseFormat(a.date);
  }

  /** With a readable table, a parsable request is accepted exactly when no
      row of the doctor has a date chrono cannot read back (a year past
      9999) and no uncancelled row holds the slot that day; cancelled rows
      never block. When the table cannot be read, every parsable request is
      accepted. */
  lemma CheckBookingIff(apps: seq<AppointmentRow>, req: AppointmentRequest, d: Date)
    requires Parse(req.date) == Some(d)
    ensures CheckBooking(apps, req, true) == Free(d) <==>
      forall a :: a in apps && a.doctor == req.doctor ==> a.date.year <= 9999 && !Holds(a, req.doctor, req.slot, d)
    ensures CheckBooking(apps, req, false) == Free(d)
  {
    var listed := DoctorAppointments(apps, req.doctor, true);
    forall a | a in apps && a.doctor == req.doctor
      ensures Blocks(AsListed(a), req.slot, d) <==> a.date.year > 9999 || Holds(a, req.doctor, req.slot, d)
    {
      ListedBlocks(a, req.slot, d);
    }
    if CheckBooking(apps, req, true) == Free(d) {
      forall a | a in apps && a.doctor == req.doctor
        ensures a.date.year <= 9999 && !Holds(a, req.doctor, req.slot, d)
      {
        var k :| 0 <= k < |listed| && listed[k] == AsListed(a);
      }
    } else {
      var k :| 0 <= k < |listed| && Blocks(listed[k], req.slot, d);
      assert listed[k] in listed;
    }
  }

  /** A booking made while the doctor's appointments can be read keeps the
      table exclusive. */
  lemma BookingKeepsExclusive(apps: seq<AppointmentRow>, req: AppointmentRequest, insertOk: bool)
    requires Exclusive(apps)
    ensures Exclusive(AfterBooking(apps, req, true, insertOk))
  {
    if Booked(apps, req, true, insertOk) {
      var d := CheckBooking(apps, req, true).date;
      CheckBookingIff(apps, req, d);
      var r := apps + [NewRow(req, d)];
      forall i, j | 0 <= i < j < |r| && Active(r[i]) && Active(r[j])
        ensures !SameSlot(r[i], r[j])
      {
        if j == |apps| {
          assert r[i] in apps;
        }
      }
    }
  }

  /** The exclusivity check fails open: when the doctor's appointments
      cannot be read, a second uncancelled booking of a held slot is
      inserted. */
  lemma FailedReadAdmitsDoubleBooking(apps: seq<AppointmentRow>, req: AppointmentRequest, d: Date, k: nat)
    requires Parse(req.date) == Some(d)
    requires k < |apps| && Holds(apps[k], req.doctor, req.slot, d)
    ensures AfterBooking(apps, req, false, true) == apps + [NewRow(req, d)]
    ensures !Exclusive(AfterBooking(apps, req, false, true))
  {
    CheckBookingIff(apps, req, d);
    var r := apps + [NewRow(req, d)];
    assert Active(r[k]) && Active(r[|apps|]) && SameSlot(r[k], r[|apps|]);
  }

  /** Repeating a booking that was just accepted is refused. */
  lemma RepeatBookingRejected(apps: seq<AppointmentRow>, req: AppointmentRequest, insertOk: bool)
    requires Booked(apps, req, true, insertOk)
    ensures CheckBooking(AfterBooking(apps, req, true, insertOk), req, true) == Blocked
  {
    var d := CheckBooking(apps, req, true).date;
    var r := apps + [NewRow(req, d)];
    CheckBookingIff(r, req, d);
    assert r[|apps|] in r;
  }

  /** The filter of `cancel_appointment`'s UPDATE. */
  predicate CancelMatches(a: AppointmentRow, c: CancelRequest) {
    a.doctor == c.doctor && a.patient == c.patient && Format(a.date) == c.date
  }

  function CancelRow(a: AppointmentRow, c: CancelRequest): AppointmentRow {
    if CancelMatches(a, c) then a.(status := Cancelled) else a
  }

  /** The table after `cancel_appointment`: no row removed or added, no
      column but `status` touched, and exactly the matching rows (of any
      slot) cancelled. */
  function CancelRows(apps: seq<AppointmentRow>, c: CancelRequest): (r: seq<AppointmentRow>)
    ensures |r| == |apps|
    ensures forall i :: 0 <= i < |r| ==> r[i] == apps[i].(status := r[i].status)
    ensures forall i :: 0 <= i < |r| ==> (r[i].status == Cancelled <==> apps[i].status == Cancelled || CancelMatches(apps[i], c))
    ensures forall i :: 0 <= i < |r| && !CancelMatches(apps[i], c) ==> r[i] == apps[i]
  {
    seq(|apps|, i requires 0 <= i < |apps| => CancelRow(apps[i], c))
  }

  lemma CancelKeepsExclusive(apps: seq<AppointmentRow>, c: CancelRequest)
    requires Exclusive(apps)
    ensures Exclusive(CancelRows(apps, c))
  {
    var r := CancelRows(apps, c);
    forall i, j | 0 <= i < j < |r| && Active(r[i]) && Active(r[j])
      ensures !SameSlot(r[i], r[j])
    {
      assert Active(apps[i]) && Active(apps[j]);
    }
  }

  /** Cancelling twice is cancelling once. */
  lemma CancelIdempotent(apps: seq<AppointmentRow>, c: CancelRequest)
    ensures CancelRows(CancelRows(apps, c), c) == CancelRows(apps, c)
  {
    var r := CancelRows(apps, c);
    var rr := CancelRows(r, c);
    forall i | 0 <= i < |r|
      ensures rr[i] == r[i]
    {
      assert CancelMatches(r[i], c) == CancelMatches(apps[i], c);
    }
  }

  /** Cancellation frees the slot: once the patient's bookings of that day
      are cancelled, the same slot can be booked again, provided the patient
      was its only holder and the cancel date is written canonically. */
  lemma CancelFreesSlot(apps: seq<AppointmentRow>, c: CancelRequest, req: AppointmentRequest, d: Date)
    requires IsCanonical(c.date) && Parse(c.date) == Some(d) && Parse(req.date) == Some(d)
    requires req.doctor == c.doctor
    requires forall a :: a in apps && a.doctor == req.doctor ==> a.date.year <= 9999
    requires forall a :: a in apps && Holds(a, req.doctor, req.slot, d) ==> a.patient == c.patient
    ensures CheckBooking(CancelRows(apps, c), req, true) == Free(d)
  {
    var r := CancelRows(apps, c);
    forall a | a in r && a.doctor == req.doctor
      ensures a.date.year <= 9999 && !Holds(a, req.doctor, req.slot, d)
    {
      var i :| 0 <= i < |r| && r[i] == a;
      assert apps[i] in apps;
      CanonicalMatch(c.date, apps[i].date);
    }
    CheckBookingIff(r, req, d);
  }

  /** A cancel request whose date is a valid but unpadded spelling of the
      day matches no row: the UPDATE compares text, not dates. */
  lemma CancelNeedsCanonicalDate(apps: seq<AppointmentRow>, doctor: int, patient: int, d: Date)
    requires d.month < 10 && d.year <= 9999
    ensures Parse(ShortMonth(d)) == Some(d)
    ensures CancelRows(apps, CancelRequest(doctor, patient, ShortMonth(d))) == apps
  {
    ShortMonthNotCanonical(d);
  }

  /** A write to the `appointments` table: a booking or a cancellation. */
  datatype Write = Book(req: AppointmentRequest) | Cancel(c: CancelRequest)

  /** The table after a run of writes whose queries all succeed. */
  function Run(apps: seq<AppointmentRow>, writes: seq<Write>): seq<AppointmentRow>
    decreases |writes|
  {
    if writes == [] then apps
    else
      var next := match writes[0]
        case Book(req) => AfterBooking(apps, req, true, true)
        case Cancel(c) => CancelRows(apps, c);
      Run(next, writes[1..])
  }

  /** Bookings and cancellations, starting from an exclusive table (an empty
      one in particular), never give a (doctor, slot, date) two uncancelled
      appointments. */
  lemma {:induction false} RunKeepsExclusive(apps: seq<AppointmentRow>, writes: seq<Write>)
    requires Exclusive(apps)
    ensures Exclusive(Run(apps, writes))
    decreases |writes|
  {
    if writes != [] {
      match writes[0]
      case Book(req) =>
        BookingKeepsExclusive(apps, req, true);
        RunKeepsExclusive(AfterBooking(apps, req, true, true), writes[1..]);
      case Cancel(c) =>
        CancelKeepsExclusive(apps, c);
        RunKeepsExclusive(CancelRows(apps, c), writes[1..]);
    }
  }

  /** The EXISTS test of `view_doctor_timeslots`: any row of that doctor,
      slot and day, whatever its status. */
  predicate Taken(apps: seq<AppointmentRow>, doctor: int, slot: int, date: string) {
    exists i :: 0 <= i < |apps| && apps[i].doctor == doctor && apps[i].slot == slot && Format(apps[i].date) == date
  }

  /** A line of `view_doctor_timeslots`' answer. */
  datatype Timeslot = Timeslot(timeStart: string, available: bool, slotId: int)

  /** `view_doctor_timeslots(doctor, date)`: every slot of the doctor, marked
      available exactly when no appointment row of any status takes it that
      day; an empty list when the query fails. */
  function Timeslots(slots: seq<SlotRow>, apps: seq<AppointmentRow>, doctor: int, date: string, readOk: bool): (r: seq<Timeslot>)
    ensures !readOk ==> r == []
    ensures forall t :: t in r ==> t.available == !Taken(apps, doctor, t.slotId, date)
    ensures forall t :: t in r ==> exists s :: s in slots && s.doctor == doctor && s.id == t.slotId && s.timeStart == t.timeStart
    ensures readOk ==> forall s :: s in slots && s.doctor == doctor ==> Timeslot(s.timeStart, !Taken(apps, doctor, s.id, date), s.id) in r
  {
    if !readOk || slots == [] then []
    else
      var rest := Timeslots(slots[1..], apps, doctor, date, readOk);
      assert forall s :: s in slots[1..] ==> s in slots;
      assert forall s :: s in slots ==> s == slots[0] || s in slots[1..];
      if slots[0].doctor == doctor
      then [Timeslot(slots[0].timeStart, !Taken(apps, doctor, slots[0].id, date), slots[0].id)] + rest
      else rest
  }

  /** A slot reported available for a canonical date can be booked, unless
      some row of the doctor has a date the booking loop cannot parse. */
  lemma AvailableIsBookable(slots: seq<SlotRow>, apps: seq<AppointmentRow>, t: Timeslot, req: AppointmentRequest)
    requires IsCanonical(req.date)
    requires t in Timeslots(slots, apps, req.doctor, req.date, true) && t.available && t.slotId == req.slot
    requires forall a :: a in apps && a.doctor == req.doctor ==> a.date.year <= 9999
    ensures CheckBooking(apps, req, true).Free?
  {
    var d := Parse(req.date).value;
    forall a | a in apps && a.doctor == req.doctor
      ensures !Holds(a, req.doctor, req.slot, d)
    {
      CanonicalMatch(req.date, a.date);
      var i :| 0 <= i < |apps| && apps[i] == a;
    }
    CheckBookingIff(apps, req, d);
  }

  /** Cancelling never makes a slot show as available again, although it can
      make the slot bookable (`CancelFreesSlot`): availability ignores status. */
  lemma CancelledSlotStaysTaken(apps: seq<AppointmentRow>, c: CancelRequest, doctor: int, slot: int, date: string)
    ensures Taken(CancelRows(apps, c), doctor, slot, date) == Taken(apps, doctor, slot, date)
  {
    var r := CancelRows(apps, c);
    if Taken(apps, doctor, slot, date) {
      var i :| 0 <= i < |apps| && apps[i].doctor == doctor && apps[i].slot == slot && Format(apps[i].date) == date;
      assert r[i].doctor == doctor && r[i].slot == slot && r[i].date == apps[i].date;
    }
    if Taken(r, doctor, slot, date) {
      var i :| 0 <= i < |r| && r[i].doctor == doctor && r[i].slot == slot && Format(r[i].date) == date;
      assert apps[i].doctor == doctor && apps[i].slot == slot && apps[i].date == r[i].date;
    }
  }
}
