# Clinic booking core in Dafny

This project models the booking rules of a clinic backend written in Rust
(axum handlers over a Postgres database) and proves properties of them. It
covers three tables: `appointments` (timed visits in a doctor's slot),
`tokens` (numbered walk-in queue places) and `emergency_appointments`
(numbered emergency places). It also covers the authorisation gate that
every booking route passes through.

- `wrappers.dfy`: `Option`.
- `digits.dfy` (module `Digits`): decimal digit strings, read back
  (`Value`) and written zero-padded (`Decimal`).
- `dates.dfy` (module `Dates`): calendar dates. `Parse` is chrono's
  `NaiveDate::parse_from_str(s, "%Y-%m-%d")`. `Format` is Postgres's
  `TO_CHAR(date, 'YYYY-MM-DD')`.
- `tables.dfy` (module `Tables`): the rows of the tables, the slot table
  and the request payloads.
- `appointments.dfy` (module `Appointments`):
  - the listing `view_doctor_appointments` returns;
  - the slot check and insert of `add_new_appointment`;
  - the UPDATE of `cancel_appointment`;
  - the availability `view_doctor_timeslots` reports.
- `allocator.dfy` (module `Allocator`): the duplicate check and
  count-plus-one numbering of `add_new_token` / `view_new_token` and
  `add_new_emergency_app` / `view_new_emergency_no`, and the lookups
  `view_current_token` and `get_patient_token`.
- `database.dfy` (module `Store`): class `Database` holds the tables as
  `seq` fields. Its methods are the four writing operations. Each is proved
  equal to the specification functions above, and to preserve the table
  invariants under the conditions stated in its row of the table below.
- `auth.dfy` (module `Auth`):
  - `verify_jwt`'s extraction of the token from the `Authorization` value:
    split on `Bearer`, take the second piece, `trim`;
  - reading the id claim back with `str::parse::<i64>`;
  - `authenticate`'s comparison.
- `handlers.dfy` (module `Handlers`): `newappointment`, `newtoken`,
  `newemergency` and `cancelappointment`, meaning the gate, the database
  call and the status code.

How the outside world is represented:

- Every SQL statement that can fail has a boolean parameter saying whether
  it succeeded: `readOk`, `checkOk`, `countOk`, `insertOk`, `updateOk`.
  `initOk` says whether `database::init` opened a connection.
- JWT decoding, signature check included, is a function parameter
  `decode: string -> Option<Claims>`.

Several behaviours of the code, as written, are stated as lemmas:

- The slot check fails open. `get_query_result` turns a failed read into an
  empty list, so a failed listing admits a double booking
  (`FailedReadAdmitsDoubleBooking`).
- The token duplicate check treats a query error as "no duplicate"
  (`FailedCheckAdmitsDuplicate`).
- A failed count numbers the new row 1 (`FailedCountRestartsNumbering`).
- The SQL filters compare `TO_CHAR` text with the raw request string, while
  the booking loop compares parsed dates. chrono accepts `2024-3-05`, but
  no stored row prints that way. Such a request therefore cancels nothing
  (`CancelNeedsCanonicalDate`), restarts token numbering at 1
  (`UnpaddedDateRestartsNumbering`), and gets past the token and emergency
  duplicate check even when the same booking exists
  (`UnpaddedDateBypassesDuplicateCheck`). For canonical dates the two
  comparisons agree (`CanonicalMatch`).
- A cancelled appointment no longer blocks a booking (`CancelFreesSlot`).
  It still makes its slot show as unavailable (`CancelledSlotStaysTaken`).
- `cancelappointment` answers 400 both to a rejected token and to a failed
  UPDATE (`AuthFailureVisibility`).

An appointment blocks a booking unless its status is exactly `cancelled`,
so `completed` and any other status block too (`Blocks`, `Active`).

## Model

| member | source | states |
|---|---|---|
| Dates.Parse | src/database.rs:466 | an accepted date has a year of at most 9999, since chrono reads at most four year digits here; its partner `ParseFormat` ties it to `Format` |
| Dates.ParsedLength | src/database.rs:466 | every text chrono accepts as a date is 5 to 10 characters long |
| Dates.Format | src/database.rs:374 | ten characters for years up to 9999, more beyond |
| Dates.FormatLayout | src/database.rs:374 | the printed date is the year's digits, `-`, two digits of month, `-`, two digits of day |
| Dates.ParseFormat | src/database.rs:466-476 | chrono's `%Y-%m-%d` reads back every date `TO_CHAR` prints with a year up to 9999, and rejects the longer years it prints |
| Dates.CanonicalMatch | src/database.rs:503 | for a request date in canonical form, `TO_CHAR(row date) = input` holds exactly when the row's date is the parsed date |
| Dates.FormatCanonical | src/database.rs:374 | what `TO_CHAR` prints for a four-digit year is canonical and parses to the same date |
| Dates.ShortMonthNotCanonical | src/database.rs:466-469 | a date with a one-digit month parses, yet equals no `TO_CHAR` output |
| Appointments.DoctorAppointments | src/database.rs:370-380 | the listing holds every row of the doctor rendered with `TO_CHAR`, and nothing else; it is empty when the query fails |
| Appointments.CheckBooking | src/database.rs:466-481 | the booking checks end in "invalid date" exactly when the request date does not parse; a pass carries the parsed date |
| Appointments.CheckBookingIff | src/database.rs:471-481 | with a readable listing the booking passes iff every row of the doctor has a parsable date and no uncancelled row has the same slot and day; with a failed read it always passes |
| Appointments.AfterBooking | src/database.rs:482-488 | a passing booking whose insert succeeds appends exactly one `scheduled` row with the request's fields; otherwise the table is unchanged |
| Appointments.BookingKeepsExclusive | src/database.rs:471-488 | with a readable listing, booking keeps at most one uncancelled appointment per (doctor, slot, date) |
| Appointments.FailedReadAdmitsDoubleBooking | src/database.rs:57-61 | when the listing cannot be read, a held slot is booked a second time and exclusivity breaks |
| Appointments.RepeatBookingRejected | src/database.rs:477-480 | the same booking repeated right after it succeeded is refused |
| Appointments.CancelRows | src/database.rs:573-581 | cancel keeps every row and every column except `status`, and cancels exactly the rows of that doctor, patient and date text, of any slot |
| Appointments.CancelKeepsExclusive | src/database.rs:575 | cancelling keeps exclusivity |
| Appointments.CancelIdempotent | src/database.rs:575 | cancelling twice is cancelling once |
| Appointments.CancelFreesSlot | src/database.rs:573-581 | after the only holder cancels with a canonical date, the slot can be booked again, provided every appointment of the doctor has a year of at most 9999 (otherwise the loop's parse refuses the booking) |
| Appointments.CancelNeedsCanonicalDate | src/database.rs:575-576 | a cancel request with an unpadded month matches no row |
| Appointments.RunKeepsExclusive | src/database.rs:456-581 | any run of bookings and cancellations whose queries all succeed, from an empty or exclusive table, keeps at most one uncancelled appointment per (doctor, slot, date) |
| Appointments.Timeslots | src/database.rs:169-179 | every slot of the doctor appears and nothing else does, each marked available exactly when no appointment row of any status has that slot and date text; empty on a failed query |
| Appointments.AvailableIsBookable | src/database.rs:169-179 | a slot shown available for a canonical date passes the booking check, provided every appointment of the doctor has a year of at most 9999 |
| Appointments.CancelledSlotStaysTaken | src/database.rs:172 | cancelling never changes whether a slot shows as taken |
| Allocator.CountOnDay | src/database.rs:325 | the count is zero exactly when no row has that doctor and date text |
| Allocator.NextNumber | src/database.rs:324-339 | the next number lies between 1 and the row count + 1, and is 1 exactly when the count fails or no row has that doctor and date text |
| Allocator.Allocate | src/database.rs:491-516 | a request is refused exactly when its date does not parse or the duplicate check finds a row; otherwise the row carries the request's fields, the parsed date and a number of at least 1 |
| Allocator.DuplicateFound | src/database.rs:503-511 | a failed query counts as no duplicate; a duplicate is found only when the query runs and some row has the request's doctor, patient, date text and type |
| Allocator.AfterAllocate | src/database.rs:513-520 | the table keeps its rows and gains at most one, exactly when the date parses and no duplicate is found; the new row has the request's fields, the parsed date and the next number for its date text |
| Allocator.DuplicateFoundIff | src/database.rs:502-508 | for a canonical date the duplicate check finds a row iff one has the same doctor, patient, day and type |
| Allocator.AllocateKeepsUniqueKeys | src/database.rs:502-520 | a request with a canonical date whose check runs keeps (doctor, patient, day, type) unique |
| Allocator.RepeatRequestRejected | src/database.rs:503-508 | the same request after it was inserted is refused |
| Allocator.AllocateKeepsSequential | src/database.rs:513-520 | with a working count and a canonical date, each row's number stays one more than the earlier rows of its doctor and day |
| Allocator.SequentialIsDense | src/database.rs:513-516 | in a sequential table the numbers of each doctor and day are exactly 1..N in insertion order |
| Allocator.ReplayKeepsInvariants | src/database.rs:491-521 | any run of requests with canonical dates, working duplicate checks and working counts, starting from a sequential table without duplicate keys (an empty one in particular), keeps numbering sequential and keys unique |
| Allocator.CountOnDayCanonical | src/database.rs:325 | for a canonical date, the SQL count equals the number of rows on that day |
| Allocator.UnpaddedDateBypassesDuplicateCheck | src/database.rs:503 | a request with an unpadded date passes a duplicate check that runs, although a row with its doctor, patient, day and type exists, and the table then holds that key twice |
| Allocator.UnpaddedDateRestartsNumbering | src/database.rs:496-513 | a valid but unpadded date is accepted, counts no rows and is numbered 1 again |
| Allocator.FailedCountRestartsNumbering | src/database.rs:333-337 | a failed count numbers the new row 1 |
| Allocator.FailedCheckAdmitsDuplicate | src/database.rs:509-511 | a failed duplicate check inserts a second row with the same key |
| Allocator.CurrentToken | src/database.rs:341-353 | 0 on a failed query or when no token of the doctor and date text is `ongoing`; otherwise the number of the first `ongoing` one |
| Allocator.CurrentTokenOfSoleServing | src/database.rs:341-353 | with a single `ongoing` token, that token's number is reported |
| Allocator.PatientToken | src/database.rs:355-367 | 0 on a failed query or when the patient has no token with the doctor for that date text; otherwise the number of the first such token |
| Allocator.PatientFindsNewToken | src/database.rs:355-367 | a patient whose token was just issued, with no earlier token that day, finds its number |
| Auth.Trim | src/database.rs:143 | the result has no whitespace at either end, and is the slice between the leading and trailing whitespace runs |
| Auth.TrimPadded | src/database.rs:143 | trimming a trimmed text padded with whitespace gives the text back |
| Auth.TrimIdempotent | src/database.rs:143 | trimming twice is trimming once |
| Auth.Find | src/database.rs:134 | the first occurrence of the pattern at or after a position, or none |
| Auth.ExtractToken | src/database.rs:133-143 | the token is trimmed and holds no `Bearer`; a value without `Bearer` is simply trimmed |
| Auth.ExtractBetween | src/database.rs:133-143 | when the value holds `Bearer`, the token is the trimmed text after its first occurrence, up to the second occurrence or the end |
| Auth.ExtractSchemeForm | src/database.rs:133-143 | `Bearer <token>` yields the token |
| Auth.ExtractBareToken | src/database.rs:139 | a bare token yields itself |
| Auth.ExtractStopsAtSecondBearer | src/database.rs:134-136 | only the text up to a second `Bearer` is taken |
| Auth.ParseI64 | src/database.rs:151 | a parsed id lies in the i64 range |
| Auth.ParseIdText | src/database.rs:109 | every id `login` writes with `to_string` is read back by `verify_jwt` |
| Auth.VerifyJwt | src/database.rs:132-166 | an identity comes out exactly when the extracted token decodes to claims whose id text parses as an i64, and it carries that role and that id |
| Auth.HeaderText | src/main.rs:32-35 | a header value is readable exactly when every byte is a tab or visible ASCII, and then reads as those characters |
| Auth.Authenticate | src/main.rs:22-52 | true exactly when a header is present, readable, verifies, and its (id, role) equals the requested one |
| Auth.LoginTokenAuthenticates | src/main.rs:36-46 | a `Bearer` header carrying a token issued for (id, role) authenticates exactly that id in that role |
| Store.FirstClash | src/database.rs:471-481 | the loop stops at the first listed row with an unparsable date or an uncancelled booking of the slot that day, or finds none |
| Store.Database.AddAppointment | src/database.rs:456-489 | result and new table are `Booked` / `AfterBooking`; other tables unchanged; exclusivity kept when the listing is readable |
| Store.Database.CancelAppointment | src/database.rs:573-581 | returns whether the UPDATE ran; the table becomes `CancelRows` or stays unchanged; exclusivity kept |
| Store.Database.AddToken | src/database.rs:491-521 | appends the allocated `scheduled` token iff allocation and insert succeed; for a canonical date, sequential numbering kept with a working count and unique keys kept with a working check |
| Store.Database.AddEmergency | src/database.rs:541-571 | the same rule and the same conditions over the emergency table alone, numbered independently of tokens |
| Handlers.InsertResponse | src/main.rs:569-604 | 500 when no connection, 401 on failed authentication, 200 "Inserted" on success, 400 otherwise |
| Handlers.CancelResponse | src/main.rs:606-637 | 500 when no connection, 200 "Cancelled" on success, 400 both on failed authentication and on a failed UPDATE |
| Handlers.AuthFailureVisibility | src/main.rs:621-627 | insert routes tell a rejected token from a failed insert; the cancel route does not |
| Handlers.NewAppointment | src/main.rs:569-604 | the appointments table changes only when the connection opens and the header authenticates the patient as a patient; the response follows |
| Handlers.NewToken | src/main.rs:534-567 | the tokens table changes only for an authenticated patient; the response follows |
| Handlers.NewEmergency | src/main.rs:499-532 | the emergency table changes only for an authenticated patient; the response follows |
| Handlers.CancelAppointmentRequest | src/main.rs:606-637 | the UPDATE runs only for an authenticated patient; the response follows |

## Left out

- Dates.Parse: chrono's skipping of whitespace before a numeric field is not modelled. Neither are signed years (`+12345-01-01`). Years are natural numbers, so dates before the common era are absent. Year 0 is a `Date`: chrono accepts `0000-01-01` and the model books it. Postgres rejects year 0 at the INSERT; the model leaves that rejection to `insertOk`.
- Dates.Format: `TO_CHAR` of years before 1 is not modelled.
- JWT signing, decoding and expiry are the `decode` parameter. The code disables expiry validation, so no clock is involved.
- Integer widths are not modelled: i64 ids, the i32 `slot_id` cast to i64, and the i64 `count(*) + 1`. Ids and numbers are unbounded integers.
- Column decoding is not modelled; whether a read succeeds is left to `readOk`. `view_current_token` decodes `token_number` as i64 and `get_patient_token` decodes the same column as i32. Under sqlx's strict integer decoding, one of the two always takes its error path and returns 0, whatever the schema. Likewise, the listing of `view_doctor_appointments` decodes `patient_id`, `apptype` and `slot_id` as i32, so whether it can ever be read depends on the column types.
- The serial `id` column of each table is not modelled.
- Row order: `ORDER BY date` in the listing does not affect the booking check and is not modelled. For `view_current_token` and `get_patient_token`, `fetch_one` takes the first row in table order. Postgres gives no order without `ORDER BY`.
- Slot start times are opaque strings; their `HH24:MI:SS` formatting is not modelled.
- The SQL statements are built by string interpolation. A request value containing a quote would change the statement. The model treats every value as a literal.
- Concurrency: the check-then-insert steps are not atomic in the code. Two requests racing between them can both pass. The model is sequential.
- A failed statement changes nothing (Postgres statements are atomic). A cancel UPDATE that fails leaves every row as it was.
- Connection setup, environment variables, routing, CORS, tracing and JSON body extraction errors are not modelled (axum rejects a malformed body before the handler runs).
- Reporting queries, registration, login password checks, patient and doctor records, prescriptions, and the routes that only read are not modelled. They hold no booking rule.
- Auth.Find: `split("Bearer")` is modelled only through the first two pieces it yields, which is all `verify_jwt` reads.
