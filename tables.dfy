/** Rows of the booking tables and the request payloads the handlers
    receive. Table columns that none of the modelled statements read
    (row ids, prescription references) are omitted. */
module Tables {
  import opened Dates

  const Scheduled: string := "scheduled"
  const Ongoing: string := "ongoing"
  const Cancelled: string := "cancelled"

  /** A row of `appointments`. */
  datatype AppointmentRow = AppointmentRow(
    doctor: int, patient: int, apptype: int, date: Date, slot: int,
    mode: string, status: string, symptom: string)

  /** The columns `tokens` and `emergency_appointments` share: a numbered
      place in a doctor's queue for a day. */
  datatype QueueRow = QueueRow(
    doctor: int, patient: int, apptype: int, date: Date, number: int, symptom: string)

  /** A row of `tokens`: a queue place plus its status (`emergency_appointments`
      has no status column). */
  datatype TokenRow = TokenRow(entry: QueueRow, status: string)

  /** A row of `doctor_slots`, with its start time already rendered as
      `HH24:MI:SS`. */
  datatype SlotRow = SlotRow(id: int, doctor: int, timeStart: string)

  /** The `Appointment` payload of `/newappointment`. */
  datatype AppointmentRequest = AppointmentRequest(
    doctor: int, patient: int, apptype: int, slot: int, date: string,
    mode: string, symptom: string)

  /** The `Token` payload of `/newtoken` and `/newemergency`. */
  datatype QueueRequest = QueueRequest(
    doctor: int, patient: int, apptype: int, date: string, symptom: string)

  /** The `CancelAppointment` payload of `/cancelappointment`. */
  datatype CancelRequest = CancelRequest(doctor: int, patient: int, date: string)
}
