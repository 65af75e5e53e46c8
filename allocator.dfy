/** Queue numbering for `tokens` and `emergency_appointments`: the
    duplicate check and count-plus-one rule of `add_new_token` /
    `add_new_emergency_app`, and the token lookups `view_current_token` and
    `get_patient_token`. The same functions serve both tables, each applied
    to its own rows only. */
module Allocator {
  import opened Wrappers
  import opened Dates
  import opened Tables

  /** The SQL filter `doctor_id = doctor and TO_CHAR(appointment_date,
      'YYYY-MM-DD') = date`. */
  predicate OnDay(e: QueueRow, doctor: int, date: string) {
    e.doctor == doctor && Format(e.date) == date
  }

  /** `select count(*) ...` under that filter. */
  function CountOnDay(rows: seq<QueueRow>, doctor: int, date: string): (n: nat)
    ensures n <= |rows|
    ensures n == 0 <==> forall i :: 0 <= i < |rows| ==> !OnDay(rows[i], doctor, date)
  {
    if rows == [] then 0
    else CountOnDay(rows[..|rows| - 1], doctor, date) + (if OnDay(rows[|rows| - 1], doctor, date) then 1 else 0)
  }

  /** `view_new_token` / `view_new_emergency_no`: one more than the rows
      already there for the doctor and day, whatever their status, and 1
      when the count query fails. */
  function NextNumber(rows: seq<QueueRow>, doctor: int, date: string, countOk: bool): (n: int)
    ensures 1 <= n <= |rows| + 1
    ensures n == 1 <==> !countOk || forall i :: 0 <= i < |rows| ==> !OnDay(rows[i], doctor, date)
  {
    if countOk then CountOnDay(rows, doctor, date) + 1 else 1
  }

  /** The filter of the duplicate-check query. */
  predicate SameKey(e: QueueRow, req: QueueRequest) {
    e.doctor == req.doctor && e.patient == req.patient && Format(e.date) == req.date && e.apptype == req.apptype
  }

  /** The duplicate check: `fetch_one` found a row. Any error, the query
      failing as much as no row matching, counts as no duplicate. */
  predicate DuplicateFound(rows: seq<QueueRow>, req: QueueRequest, checkOk: bool)
    ensures !checkOk ==> !DuplicateFound(rows, req, checkOk)
    ensures DuplicateFound(rows, req, checkOk) <==> checkOk && exists e :: e in rows && SameKey(e, req)
  {
    checkOk && exists i :: 0 <= i < |rows| && SameKey(rows[i], req)
  }

  /** The row `add_new_token` / `add_new_emergency_app` goes on to insert,
      or `None` when it returns `false` first (a date chrono rejects, or a
      duplicate found). */
  function Allocate(rows: seq<QueueRow>, req: QueueRequest, checkOk: bool, countOk: bool): (r: Option<QueueRow>)
    ensures r.None? <==> Parse(req.date).None? || DuplicateFound(rows, req, checkOk)
    ensures r.Some? ==> Parse(req.date) == Some(r.value.date) && r.value.number >= 1
    ensures r.Some? ==>
      && r.value.doctor == req.doctor && r.value.patient == req.patient
      && r.value.apptype == req.apptype && r.value.symptom == req.symptom
  {
    match Parse(req.date)
    case None => None
    case Some(d) =>
      if DuplicateFound(rows, req, checkOk) then None
      else Some(QueueRow(req.doctor, req.patient, req.apptype, d, NextNumber(rows, req.doctor, req.date, countOk), req.symptom))
  }

  /** The table after a request, when the insert succeeds: the rows already
      there, followed by at most one new row, which carries the request's
      fields and the next number for its date text. */
  function AfterAllocate(rows: seq<QueueRow>, req: QueueRequest, checkOk: bool, countOk: bool): (r: seq<QueueRow>)
    ensures |rows| <= |r| <= |rows| + 1 && r[..|rows|] == rows
    ensures |r| == |rows| + 1 <==> Parse(req.date).Some? && !DuplicateFound(rows, req, checkOk)
    ensures |r| == |rows| + 1 ==>
      var e := r[|rows|];
      && Parse(req.date) == Some(e.date) && e.number == NextNumber(rows, req.doctor, req.date, countOk)
      && e.doctor == req.doctor && e.patient == req.patient && e.apptype == req.apptype && e.symptom == req.symptom
  {
    match Allocate(rows, req, checkOk, countOk)
    case None => rows
    case Some(e) => rows + [e]
  }

  /** Rows of a doctor and day, compared as dates. */
  function CountOn(rows: seq<QueueRow>, doctor: int, d: Date): nat {
    if rows == [] then 0
    else CountOn(rows[..|rows| - 1], doctor, d) + (if rows[|rows| - 1].doctor == doctor && rows[|rows| - 1].date == d then 1 else 0)
  }

  /** The numbers of a doctor's rows for a day, in table order. */
  function NumbersOn(rows: seq<QueueRow>, doctor: int, d: Date): seq<int> {
    if rows == [] then []
    else
      var last := rows[|rows| - 1];
      NumbersOn(rows[..|rows| - 1], doctor, d) + (if last.doctor == doctor && last.date == d then [last.number] else [])
  }

  /** Every row carries one more than the number of earlier rows of its
      doctor and day. */
  ghost predicate Sequential(rows: seq<QueueRow>) {
    forall i :: 0 <= i < |rows| ==> rows[i].number == CountOn(rows[..i], rows[i].doctor, rows[i].date) + 1
  }

  /** No two rows share the duplicate-check key (doctor, patient, date, type). */
  ghost predicate UniqueKeys(rows: seq<QueueRow>) {
    forall i, j :: 0 <= i < j < |rows| ==>
      !(rows[i].doctor == rows[j].doctor && rows[i].patient == rows[j].patient
        && rows[i].date == rows[j].date && rows[i].apptype == rows[j].apptype)
  }

  /** In a sequential table the numbers of any doctor and day are exactly
      1, 2, ..., N in insertion order: no gaps and no repeats. */
  lemma {:induction false} SequentialIsDense(rows: seq<QueueRow>, doctor: int, d: Date)
    requires Sequential(rows)
    ensures |NumbersOn(rows, doctor, d)| == CountOn(rows, doctor, d)
    ensures forall k :: 0 <= k < |NumbersOn(rows, doctor, d)| ==> NumbersOn(rows, doctor, d)[k] == k + 1
    ensures forall n :: n in NumbersOn(rows, doctor, d) <==> 1 <= n <= CountOn(rows, doctor, d)
  {
    if rows != [] {
      var p := rows[..|rows| - 1];
      forall i | 0 <= i < |p|
        ensures p[i].number == CountOn(p[..i], p[i].doctor, p[i].date) + 1
      {
        assert p[..i] == rows[..i];
      }
      SequentialIsDense(p, doctor, d);
      assert rows[..|rows| - 1] == p;
      var ns := NumbersOn(rows, doctor, d);
      forall n | 1 <= n <= CountOn(rows, doctor, d)
        ensures n in ns
      {
        assert ns[n - 1] == n;
      }
    }
  }

  /** Over canonical date text the SQL count is the count of that day. */
  lemma {:induction false} CountOnDayCanonical(rows: seq<QueueRow>, doctor: int, s: string)
    requires IsCanonical(s)
    ensures CountOnDay(rows, doctor, s) == CountOn(rows, doctor, Parse(s).value)
  {
    if rows != [] {
      CountOnDayCanonical(rows[..|rows| - 1], doctor, s);
      CanonicalMatch(s, rows[|rows| - 1].date);
    }
  }

  lemma AppendSequential(rows: seq<QueueRow>, e: QueueRow)
    requires Sequential(rows) && e.number == CountOn(rows, e.doctor, e.date) + 1
    ensures Sequential(rows + [e])
  {
    var r := rows + [e];
    forall i | 0 <= i < |r|
      ensures r[i].number == CountOn(r[..i], r[i].doctor, r[i].date) + 1
    {
      if i < |rows| {
        assert r[..i] == rows[..i];
      } else {
        assert r[..i] == rows;
      }
    }
  }

  /** A request with a canonical date whose count query succeeds keeps the
      numbering sequential. */
  lemma AllocateKeepsSequential(rows: seq<QueueRow>, req: QueueRequest, checkOk: bool)
    requires Sequential(rows) && IsCanonical(req.date)
    ensures Sequential(AfterAllocate(rows, req, checkOk, true))
  {
    if Allocate(rows, req, checkOk, true).Some? {
      var e := Allocate(rows, req, checkOk, true).value;
      CountOnDayCanonical(rows, req.doctor, req.date);
      AppendSequential(rows, e);
    }
  }

  /** For a canonical date, the duplicate check finds exactly the rows with
      the same doctor, patient, day and type. */
  lemma DuplicateFoundIff(rows: seq<QueueRow>, req: QueueRequest)
    requires IsCanonical(req.date)
    ensures DuplicateFound(rows, req, true) <==>
      exists i :: 0 <= i < |rows| && rows[i].doctor == req.doctor && rows[i].patient == req.patient
                  && rows[i].date == Parse(req.date).value && rows[i].apptype == req.apptype
  {
    forall i | 0 <= i < |rows|
      ensures SameKey(rows[i], req) <==>
        (rows[i].doctor == req.doctor && rows[i].patient == req.patient
         && rows[i].date == Parse(req.date).value && rows[i].apptype == req.apptype)
    {
      CanonicalMatch(req.date, rows[i].date);
    }
  }

  /** A request with a canonical date whose duplicate check runs keeps the
      keys unique. */
  lemma AllocateKeepsUniqueKeys(rows: seq<QueueRow>, req: QueueRequest, countOk: bool)
    requires UniqueKeys(rows) && IsCanonical(req.date)
    ensures UniqueKeys(AfterAllocate(rows, req, true, countOk))
  {
    if Allocate(rows, req, true, countOk).Some? {
      var e := Allocate(rows, req, true, countOk).value;
      DuplicateFoundIff(rows, req);
      var r := rows + [e];
      forall i, j | 0 <= i < j < |r|
        ensures !(r[i].doctor == r[j].doctor && r[i].patient == r[j].patient
                  && r[i].date == r[j].date && r[i].apptype == r[j].apptype)
      {
        if j == |rows| {
          assert r[i] == rows[i];
        }
      }
    }
  }

  /** The same request again, after it was inserted, is refused as a
      duplicate and leaves the table as it is. */
  lemma RepeatRequestRejected(rows: seq<QueueRow>, req: QueueRequest, checkOk: bool, countOk: bool, countOk': bool)
    requires IsCanonical(req.date) && Allocate(rows, req, checkOk, countOk).Some?
    ensures Allocate(AfterAllocate(rows, req, checkOk, countOk), req, true, countOk').None?
  {
    var r := AfterAllocate(rows, req, checkOk, countOk);
    CanonicalMatch(req.date, r[|rows|].date);
    assert SameKey(r[|rows|], req);
  }

  /** A date with an unpadded month is accepted by chrono but matches no row
      in the SQL filters, so the duplicate check and the count both miss the
      day's rows and the new row is numbered 1 again. */
  lemma UnpaddedDateRestartsNumbering(rows: seq<QueueRow>, req: QueueRequest, d: Date, k: nat)
    requires Sequential(rows)
    requires d.month < 10 && d.year <= 9999 && req.date == ShortMonth(d)
    requires k < |rows| && rows[k].doctor == req.doctor && rows[k].date == d
    ensures Allocate(rows, req, true, true).Some?
    ensures Allocate(rows, req, true, true).value.number == 1
    ensures !Sequential(AfterAllocate(rows, req, true, true))
  {
    ShortMonthNotCanonical(d);
    var e := Allocate(rows, req, true, true).value;
    CountPositive(rows, k);
    assert (rows + [e])[..|rows|] == rows;
  }

  /** An unpadded date also slips past the duplicate check: its text equals
      no `TO_CHAR` output, so a second row with the same doctor, patient,
      day and type goes in even though the check query runs. */
  lemma UnpaddedDateBypassesDuplicateCheck(rows: seq<QueueRow>, req: QueueRequest, d: Date, k: nat, countOk: bool)
    requires d.month < 10 && d.year <= 9999 && req.date == ShortMonth(d)
    requires k < |rows| && rows[k].doctor == req.doctor && rows[k].patient == req.patient
    requires rows[k].date == d && rows[k].apptype == req.apptype
    ensures !DuplicateFound(rows, req, true)
    ensures Allocate(rows, req, true, countOk).Some?
    ensures !UniqueKeys(AfterAllocate(rows, req, true, countOk))
  {
    ShortMonthNotCanonical(d);
    var r := AfterAllocate(rows, req, true, countOk);
    assert r[k] == rows[k] && r[|rows|].date == d;
  }

  lemma {:induction false} CountPositive(rows: seq<QueueRow>, k: nat)
    requires k < |rows|
    ensures CountOn(rows, rows[k].doctor, rows[k].date) >= 1
  {
    if k < |rows| - 1 {
      CountPositive(rows[..|rows| - 1], k);
    }
  }

  /** When the count query fails the new row is numbered 1, repeating the
      number of the day's first row. */
  lemma FailedCountRestartsNumbering(rows: seq<QueueRow>, req: QueueRequest, checkOk: bool, k: nat)
    requires Sequential(rows) && IsCanonical(req.date)
    requires k < |rows| && rows[k].doctor == req.doctor && rows[k].date == Parse(req.date).value
    requires Allocate(rows, req, checkOk, false).Some?
    ensures Allocate(rows, req, checkOk, false).value.number == 1
    ensures !Sequential(AfterAllocate(rows, req, checkOk, false))
  {
    var e := Allocate(rows, req, checkOk, false).value;
    CountPositive(rows, k);
    assert (rows + [e])[..|rows|] == rows;
  }

  /** When the duplicate-check query fails, a second row with the same key
      is inserted. */
  lemma FailedCheckAdmitsDuplicate(rows: seq<QueueRow>, req: QueueRequest, countOk: bool, k: nat)
    requires Parse(req.date).Some?
    requires k < |rows| && rows[k].doctor == req.doctor && rows[k].patient == req.patient
             && rows[k].date == Parse(req.date).value && rows[k].apptype == req.apptype
    ensures Allocate(rows, req, false, countOk).Some?
    ensures !UniqueKeys(AfterAllocate(rows, req, false, countOk))
  {
    var e := Allocate(rows, req, false, countOk).value;
    var r := AfterAllocate(rows, req, false, countOk);
    assert r == rows + [e];
    assert r[k] == rows[k] && r[|rows|] == e;
  }

  /** A run of token requests, each inserted when accepted, with no other
      writes to the table in between. */
  function Replay(rows: seq<QueueRow>, reqs: seq<QueueRequest>): seq<QueueRow>
    decreases |reqs|
  {
    if reqs == [] then rows
    else Replay(AfterAllocate(rows, reqs[0], true, true), reqs[1..])
  }

  /** Starting from a sequential table without duplicate keys, a run of
      requests with canonical dates and working queries keeps both, so every
      doctor and day ends up numbered 1..N (`SequentialIsDense`). */
  lemma {:induction false} ReplayKeepsInvariants(rows: seq<QueueRow>, reqs: seq<QueueRequest>)
    requires Sequential(rows) && UniqueKeys(rows)
    requires forall i :: 0 <= i < |reqs| ==> IsCanonical(reqs[i].date)
    ensures Sequential(Replay(rows, reqs)) && UniqueKeys(Replay(rows, reqs))
    decreases |reqs|
  {
    if reqs != [] {
      AllocateKeepsSequential(rows, reqs[0], true);
      AllocateKeepsUniqueKeys(rows, reqs[0], true);
      ReplayKeepsInvariants(AfterAllocate(rows, reqs[0], true, true), reqs[1..]);
    }
  }

  /** The queue places of the `tokens` table. */
  function Entries(tokens: seq<TokenRow>): (r: seq<QueueRow>)
    ensures |r| == |tokens| && forall i :: 0 <= i < |tokens| ==> r[i] == tokens[i].entry
  {
    seq(|tokens|, i requires 0 <= i < |tokens| => tokens[i].entry)
  }

  lemma EntriesSnoc(tokens: seq<TokenRow>, t: TokenRow)
    ensures Entries(tokens + [t]) == Entries(tokens) + [t.entry]
  {
    assert forall i :: 0 <= i < |tokens| ==> (tokens + [t])[i] == tokens[i];
  }

  /** The first index whose element satisfies `p`. */
  function FirstWhere<T>(s: seq<T>, p: T -> bool): (r: Option<nat>)
    ensures r.Some? ==> r.value < |s| && p(s[r.value]) && forall k :: 0 <= k < r.value ==> !p(s[k])
    ensures r.None? ==> forall k :: 0 <= k < |s| ==> !p(s[k])
  {
    if s == [] then None
    else if p(s[0]) then Some(0)
    else match FirstWhere(s[1..], p)
      case None => None
      case Some(k) => Some(k + 1)
  }

  /** A token being served: `status = 'ongoing'` for the doctor and day. */
  predicate Serving(t: TokenRow, doctor: int, date: string) {
    OnDay(t.entry, doctor, date) && t.status == Ongoing
  }

  /** `view_current_token`: the number of the first `ongoing` token of the
      doctor and day as `fetch_one` returns it, and 0 when there is none or
      the query fails. */
  function CurrentToken(tokens: seq<TokenRow>, doctor: int, date: string, readOk: bool): (n: int)
    ensures !readOk ==> n == 0
    ensures (forall i :: 0 <= i < |tokens| ==> !Serving(tokens[i], doctor, date)) ==> n == 0
    ensures readOk && (exists i :: 0 <= i < |tokens| && Serving(tokens[i], doctor, date)) ==>
      exists i :: 0 <= i < |tokens| && Serving(tokens[i], doctor, date) && n == tokens[i].entry.number
        && forall k :: 0 <= k < i ==> !Serving(tokens[k], doctor, date)
  {
    if !readOk then 0
    else match FirstWhere(tokens, (t: TokenRow) => Serving(t, doctor, date))
      case None => 0
      case Some(i) => tokens[i].entry.number
  }

  /** With at most one `ongoing` token for the doctor and day, the current
      token is that one's number. */
  lemma CurrentTokenOfSoleServing(tokens: seq<TokenRow>, doctor: int, date: string, k: nat)
    requires k < |tokens| && Serving(tokens[k], doctor, date)
    requires forall i, j :: 0 <= i < j < |tokens| && Serving(tokens[i], doctor, date) ==> !Serving(tokens[j], doctor, date)
    ensures CurrentToken(tokens, doctor, date, true) == tokens[k].entry.number
  {
  }

  /** A token of the patient with the doctor that day. */
  predicate PatientRow(t: TokenRow, doctor: int, patient: int, date: string) {
    OnDay(t.entry, doctor, date) && t.entry.patient == patient
  }

  /** `get_patient_token`: the number of the patient's first token with the
      doctor that day, of any type and status, and 0 when there is none or
      the query fails. */
  function PatientToken(tokens: seq<TokenRow>, doctor: int, patient: int, date: string, readOk: bool): (n: int)
    ensures !readOk ==> n == 0
    ensures (forall i :: 0 <= i < |tokens| ==> !PatientRow(tokens[i], doctor, patient, date)) ==> n == 0
    ensures readOk && (exists i :: 0 <= i < |tokens| && PatientRow(tokens[i], doctor, patient, date)) ==>
      exists i :: 0 <= i < |tokens| && PatientRow(tokens[i], doctor, patient, date) && n == tokens[i].entry.number
        && forall k :: 0 <= k < i ==> !PatientRow(tokens[k], doctor, patient, date)
  {
    if !readOk then 0
    else match FirstWhere(tokens, (t: TokenRow) => PatientRow(t, doctor, patient, date))
      case None => 0
      case Some(i) => tokens[i].entry.number
  }

  /** The patient's first token that day is the one reported. */
  lemma PatientTokenOfFirst(tokens: seq<TokenRow>, doctor: int, patient: int, date: string, k: nat)
    requires k < |tokens| && PatientRow(tokens[k], doctor, patient, date)
    requires forall i :: 0 <= i < k ==> !PatientRow(tokens[i], doctor, patient, date)
    ensures PatientToken(tokens, doctor, patient, date, true) == tokens[k].entry.number
  {
  }

  /** A patient whose token was just issued with a canonical date finds its
      number, provided the patient held no earlier token that day. */
  lemma PatientFindsNewToken(rows: seq<TokenRow>, req: QueueRequest, checkOk: bool, countOk: bool, status: string)
    requires IsCanonical(req.date) && Allocate(Entries(rows), req, checkOk, countOk).Some?
    requires forall i :: 0 <= i < |rows| ==> !PatientRow(rows[i], req.doctor, req.patient, req.date)
    ensures PatientToken(rows + [TokenRow(Allocate(Entries(rows), req, checkOk, countOk).value, status)], req.doctor, req.patient, req.date, true)
            == Allocate(Entries(rows), req, checkOk, countOk).value.number
  {
    var e := Allocate(Entries(rows), req, checkOk, countOk).value;
    CanonicalMatch(req.date, e.date);
    var r := rows + [TokenRow(e, status)];
    assert PatientRow(r[|rows|], req.doctor, req.patient, req.date);
    assert forall i :: 0 <= i < |rows| ==> r[i] == rows[i];
    PatientTokenOfFirst(r, req.doctor, req.patient, req.date, |rows|);
  }
}
