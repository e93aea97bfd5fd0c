/**
 * The scheduling endpoints as transitions of the whole store: each takes
 * the tables before the request and returns the outcome together with the
 * tables after it. `book`, `reschedule`, `cancel`, `book_test` and
 * `register` commit at most one change; every failure leaves the store as
 * it was. The clock reading and the fuzzy scorer are parameters.
 */
module Steps {
  import opened Wrappers
  import opened Text
  import opened Calendar
  import opened TimeParse
  import opened Names
  import opened Schedule

  datatype Patient = Patient(
    id: int, name: string, phone: string, email: Option<string>, gender: int, createdBy: int, createdAt: Now)

  /** A row of `Diagnostic_Tests` (price, schedule and referral columns are only displayed, never checked). */
  datatype Test = Test(id: int, name: string, department: string, available: bool)

  datatype TestStatus = Confirmed

  datatype TestAppointment = TestAppointment(id: int, patient: int, test: int, at: Instant, status: TestStatus)

  datatype Store = Store(
    patients: seq<Patient>,
    doctors: seq<Doctor>,
    tests: seq<Test>,
    appointments: seq<Appointment>,
    testAppointments: seq<TestAppointment>,
    nextPatientId: int,
    nextAppointmentId: int,
    nextTestAppointmentId: int)

  /** Why a request was turned down; each is one of the endpoint's error messages. */
  datatype Failure =
    | MissingPatientId | MissingDate | MissingTime | MissingDateOrTime | BadDateTime | ClosedOnSunday
    | DoctorNotFound | PatientNotFound | SlotTaken | NoUpcoming | NoActive
    | TestNotFound | TestUnavailable | ServerError

  datatype Outcome =
    | Failed(reason: Failure)
    | Appointed(appointmentId: int, at: Instant)
    | Moved(at: Instant)
    | Dropped(appointmentId: int, at: Instant)
    | TestBooked(bookingId: int, at: Instant)
    | PatientExists(patientId: int)
    | PatientCreated(patientId: int)

  // ---------------------------------------------------------------------
  // Store invariant

  /** Auto-increment keys: positive, increasing in table order, below the next key. */
  predicate KeysIncreasing(ids: seq<int>, next: int)
  {
    (forall i :: 0 <= i < |ids| ==> 0 < ids[i] < next) &&
    (forall i, j :: 0 <= i < j < |ids| ==> ids[i] < ids[j])
  }

  // One key projection per table: the three row types share no field
  // access, and a projection passed as a function value would put function
  // values inside `Valid`, which every state lemma unfolds.

  function AppointmentIds(appts: seq<Appointment>): (ids: seq<int>)
    ensures |ids| == |appts| && forall i :: 0 <= i < |appts| ==> ids[i] == appts[i].id
  {
    seq(|appts|, i requires 0 <= i < |appts| => appts[i].id)
  }

  function PatientIds(ps: seq<Patient>): (ids: seq<int>)
    ensures |ids| == |ps| && forall i :: 0 <= i < |ps| ==> ids[i] == ps[i].id
  {
    seq(|ps|, i requires 0 <= i < |ps| => ps[i].id)
  }

  function TestAppointmentIds(ts: seq<TestAppointment>): (ids: seq<int>)
    ensures |ids| == |ts| && forall i :: 0 <= i < |ts| ==> ids[i] == ts[i].id
  {
    seq(|ts|, i requires 0 <= i < |ts| => ts[i].id)
  }

  /** `Phone_Number` is declared unique. */
  predicate PhonesUnique(ps: seq<Patient>)
  {
    forall i, j :: 0 <= i < j < |ps| ==> ps[i].phone != ps[j].phone
  }

  predicate Valid(s: Store)
  {
    KeysIncreasing(AppointmentIds(s.appointments), s.nextAppointmentId) &&
    KeysIncreasing(PatientIds(s.patients), s.nextPatientId) &&
    KeysIncreasing(TestAppointmentIds(s.testAppointments), s.nextTestAppointmentId) &&
    PhonesUnique(s.patients) &&
    (forall i :: 0 <= i < |s.appointments| ==> ValidInstant(s.appointments[i].at)) &&
    NoDoubleBooking(s.appointments)
  }

  lemma {:induction false} AppendKeepsKeys(ids: seq<int>, next: int)
    requires KeysIncreasing(ids, next) && next > 0
    ensures KeysIncreasing(ids + [next], next + 1)
  {
  }

  /** Appending an active row with the next key, on a free slot, keeps the store valid. */
  lemma {:induction false} AddAppointmentKeepsValid(s: Store, a: Appointment)
    requires Valid(s) && s.nextAppointmentId > 0 && a.id == s.nextAppointmentId
    requires Active(a) && ValidInstant(a.at) && !HasConflict(s.appointments, a.doctor, a.at)
    ensures Valid(s.(appointments := s.appointments + [a], nextAppointmentId := a.id + 1))
  {
    var t := s.appointments + [a];
    AppendKeepsNoDoubleBooking(s.appointments, a);
    AppendKeepsKeys(AppointmentIds(s.appointments), s.nextAppointmentId);
    assert AppointmentIds(t) == AppointmentIds(s.appointments) + [a.id];
    assert forall i :: 0 <= i < |t| ==> ValidInstant(t[i].at) by {
      assert forall i :: 0 <= i < |s.appointments| ==> t[i] == s.appointments[i];
    }
  }

  /** Replacing a row by one with the same key keeps the store valid if no slot is double-booked. */
  lemma {:induction false} ReplaceAppointmentKeepsValid(s: Store, k: int, a: Appointment)
    requires Valid(s) && 0 <= k < |s.appointments| && a.id == s.appointments[k].id && ValidInstant(a.at)
    requires NoDoubleBooking(s.appointments[k := a])
    ensures Valid(s.(appointments := s.appointments[k := a]))
  {
    assert AppointmentIds(s.appointments[k := a]) == AppointmentIds(s.appointments);
  }

  /** Appending a test booking with the next key keeps the store valid. */
  lemma {:induction false} AddTestAppointmentKeepsValid(s: Store, b: TestAppointment)
    requires Valid(s) && s.nextTestAppointmentId > 0 && b.id == s.nextTestAppointmentId
    ensures Valid(s.(testAppointments := s.testAppointments + [b], nextTestAppointmentId := b.id + 1))
  {
    AppendKeepsKeys(TestAppointmentIds(s.testAppointments), s.nextTestAppointmentId);
    assert TestAppointmentIds(s.testAppointments + [b]) == TestAppointmentIds(s.testAppointments) + [b.id];
  }

  /** Appending a patient with the next key and a phone number not yet on file keeps the store valid. */
  lemma {:induction false} AddPatientKeepsValid(s: Store, p: Patient)
    requires Valid(s) && s.nextPatientId > 0 && p.id == s.nextPatientId
    requires forall i :: 0 <= i < |s.patients| ==> s.patients[i].phone != p.phone
    ensures Valid(s.(patients := s.patients + [p], nextPatientId := p.id + 1))
  {
    var t := s.patients + [p];
    AppendKeepsKeys(PatientIds(s.patients), s.nextPatientId);
    assert PatientIds(t) == PatientIds(s.patients) + [p.id];
    assert forall i :: 0 <= i < |s.patients| ==> t[i] == s.patients[i];
  }

  // ---------------------------------------------------------------------
  // Lookups

  /** `db.query(Patient).filter(Patient_Id == id).first()` */
  function FindPatient(ps: seq<Patient>, id: int): (r: Option<nat>)
    ensures r.Some? ==> r.value < |ps| && ps[r.value].id == id
    ensures r.None? <==> forall j :: 0 <= j < |ps| ==> ps[j].id != id
  {
    if ps == [] then None
    else if ps[0].id == id then Some(0)
    else
      match FindPatient(ps[1..], id)
      case None => None
      case Some(i) => Some(i + 1)
  }

  /** `db.query(Patient).filter(Phone_Number == phone).first()` */
  function FindPhone(ps: seq<Patient>, phone: string): (r: Option<nat>)
    ensures r.Some? ==> r.value < |ps| && ps[r.value].phone == phone
    ensures r.Some? ==> forall j :: 0 <= j < r.value ==> ps[j].phone != phone
    ensures r.None? <==> forall j :: 0 <= j < |ps| ==> ps[j].phone != phone
  {
    if ps == [] then None
    else if ps[0].phone == phone then Some(0)
    else
      match FindPhone(ps[1..], phone)
      case None => None
      case Some(i) => Some(i + 1)
  }

  /** `db.query(DiagnosticTest).filter(Test_Name.ilike(pattern)).first()` */
  function FindTest(ts: seq<Test>, pattern: string): (r: Option<nat>)
    ensures r.Some? ==> r.value < |ts| && ILike(ts[r.value].name, pattern)
    ensures r.Some? ==> forall j :: 0 <= j < r.value ==> !ILike(ts[j].name, pattern)
    ensures r.None? <==> forall j :: 0 <= j < |ts| ==> !ILike(ts[j].name, pattern)
  {
    if ts == [] then None
    else if ILike(ts[0].name, pattern) then Some(0)
    else
      match FindTest(ts[1..], pattern)
      case None => None
      case Some(i) => Some(i + 1)
  }

  /** `not x or not str(x).strip()` for a text field. */
  predicate Blank(x: string)
  {
    Strip(x) == []
  }

  // ---------------------------------------------------------------------
  // The endpoints

  /** `book_appointment` */
  function Book(s: Store, pid: int, doctorName: string, date: string, time: string, now: Now,
                score: (string, string) -> int): (Outcome, Store)
  {
    if Blank(date) then (Failed(MissingDate), s)
    else if Blank(time) then (Failed(MissingTime), s)
    else
      match ParseDateTime(date, Strip(time))
      case None => (Failed(BadDateTime), s)
      case Some(at) =>
        if IsSunday(at) then (Failed(ClosedOnSunday), s)
        else BookDoctor(s, pid, ResolveDoctor(s.doctors, CleanDoctorName(doctorName), None, score), at, now)
  }

  /** The rest of `book_appointment` once the instant is parsed and the doctor looked up. */
  function BookDoctor(s: Store, pid: int, doctor: Option<Doctor>, at: Instant, now: Now): (Outcome, Store)
  {
    match doctor
    case None => (Failed(DoctorNotFound), s)
    case Some(d) =>
      if FindPatient(s.patients, pid).None? then (Failed(PatientNotFound), s)
      else if HasConflict(s.appointments, d.id, at) then (Failed(SlotTaken), s)
      else
        var a := Appointment(s.nextAppointmentId, pid, d.id, at, Scheduled, 1, now, None, None);
        (Appointed(a.id, at), s.(appointments := s.appointments + [a], nextAppointmentId := s.nextAppointmentId + 1))
  }

  /** `if not req.patient_id`: a missing id and zero are both refused. */
  predicate MissingId(pid: Option<int>)
  {
    pid.None? || pid.value == 0
  }

  /** `reschedule_appointment` */
  function Reschedule(s: Store, pid: Option<int>, newDate: string, newTime: string, now: Now): (Outcome, Store)
  {
    if MissingId(pid) then (Failed(MissingPatientId), s)
    else if Blank(newDate) then (Failed(MissingDate), s)
    else if Blank(newTime) then (Failed(MissingTime), s)
    else
      match ParseDateTime(newDate, Strip(newTime))
      case None => (Failed(BadDateTime), s)
      case Some(at) =>
        if IsSunday(at) then (Failed(ClosedOnSunday), s)
        else
          match Upcoming(s.appointments, pid.value, now)
          case None => (Failed(NoUpcoming), s)
          case Some(k) =>
            if HasConflict(s.appointments, s.appointments[k].doctor, at) then (Failed(SlotTaken), s)
            else
              var a := s.appointments[k].(at := at, status := Rescheduled, modifiedAt := Some(now));
              (Moved(at), s.(appointments := s.appointments[k := a]))
  }

  /** `cancel_appointment` */
  function Cancel(s: Store, pid: Option<int>, now: Now): (Outcome, Store)
  {
    if MissingId(pid) then (Failed(MissingPatientId), s)
    else
      match Latest(s.appointments, pid.value)
      case None => (Failed(NoActive), s)
      case Some(k) =>
        var a := s.appointments[k].(status := Cancelled, modifiedBy := Some(1), modifiedAt := Some(now));
        (Dropped(a.id, s.appointments[k].at), s.(appointments := s.appointments[k := a]))
  }

  /** `book_test_appointment`: the test name goes into the pattern as typed, and a parse failure is reported as a server error. */
  function BookTest(s: Store, pid: int, testName: string, date: string, time: string): (Outcome, Store)
  {
    if date == [] || time == [] then (Failed(MissingDateOrTime), s)
    else
      match FindTest(s.tests, "%" + testName + "%")
      case None => (Failed(TestNotFound), s)
      case Some(t) =>
        if !s.tests[t].available then (Failed(TestUnavailable), s)
        else if FindPatient(s.patients, pid).None? then (Failed(PatientNotFound), s)
        else
          match ParseDateTime(date, time)
          case None => (Failed(ServerError), s)
          case Some(at) =>
            (TestBooked(s.nextTestAppointmentId, at), AddTestAppointment(s, pid, s.tests[t], at))
  }

  /** The store after a committed test booking: one CONFIRMED row with the next key. */
  function AddTestAppointment(s: Store, pid: int, test: Test, at: Instant): Store
  {
    s.(testAppointments := s.testAppointments + [TestAppointment(s.nextTestAppointmentId, pid, test.id, at, Confirmed)],
       nextTestAppointmentId := s.nextTestAppointmentId + 1)
  }

  /** `register_patient`: a known phone number returns the existing patient instead of creating one. */
  function Register(s: Store, name: string, phone: string, email: Option<string>, gender: int, now: Now): (Outcome, Store)
  {
    match FindPhone(s.patients, phone)
    case Some(i) => (PatientExists(s.patients[i].id), s)
    case None =>
      var p := Patient(s.nextPatientId, name, phone, email, gender, 1, now);
      (PatientCreated(p.id), s.(patients := s.patients + [p], nextPatientId := s.nextPatientId + 1))
  }

  datatype Availability =
    | NeedDoctorName
    | NeedDate
    | NoSuchDoctor
    | BadDateFormat
    | ClosedSunday(doctor: string)
    | DayOutOfRange
    | NoBranch
    | Open(doctor: string, slots: seq<string>)

  /** `check_availability`: the doctor lookup is scoped to the branch when one is given. */
  function CheckAvailability(s: Store, doctorName: string, date: string, branch: Option<int>,
                             score: (string, string) -> int): Availability
  {
    if doctorName == [] then NeedDoctorName
    else if date == [] then NeedDate
    else
      match ResolveDoctor(s.doctors, CleanDoctorName(doctorName), branch, score)
      case None => NoSuchDoctor
      case Some(d) => DayAvailability(s, d, ParseDate(date))
  }

  /**
   * The rest of `check_availability` once the doctor is found and the date
   * parsed (or not). The booked-rows query bounds the day by the next
   * midnight; on the last day `datetime` can represent that addition
   * raises `OverflowError`, which the endpoint does not catch
   * (`DayOutOfRange`, a server error). The response then reads the
   * doctor's branch name; for a doctor without a branch that raises
   * `AttributeError`, also uncaught (`NoBranch`).
   */
  function DayAvailability(s: Store, d: Doctor, day: Option<Instant>): Availability
    requires day.Some? ==> ValidInstant(day.value)
  {
    match day
    case None => BadDateFormat
    case Some(day) =>
      if IsSunday(day) then ClosedSunday(d.name)
      else if IsLastDay(day) then DayOutOfRange
      else if d.branch.None? then NoBranch
      else Open(d.name, AvailableSlots(s.appointments, d.id, day))
  }

  // ---------------------------------------------------------------------
  // What book promises

  /** What a committed booking has passed through, and the row it appended. */
  lemma {:induction false} BookCommitted(s: Store, pid: int, doctorName: string, date: string, time: string, now: Now,
                                         score: (string, string) -> int)
    requires Book(s, pid, doctorName, date, time, now, score).0.Appointed?
    ensures var o := Book(s, pid, doctorName, date, time, now, score).0;
            !Blank(date) && !Blank(time) && ParseDateTime(date, Strip(time)) == Some(o.at) && !IsSunday(o.at) &&
            ResolveDoctor(s.doctors, CleanDoctorName(doctorName), None, score).Some? &&
            FindPatient(s.patients, pid).Some?
    ensures var (o, t) := Book(s, pid, doctorName, date, time, now, score);
            var d := ResolveDoctor(s.doctors, CleanDoctorName(doctorName), None, score).value;
            d in s.doctors && !HasConflict(s.appointments, d.id, o.at) &&
            t == s.(appointments := s.appointments + [Appointment(s.nextAppointmentId, pid, d.id, o.at, Scheduled, 1, now, None, None)],
                    nextAppointmentId := s.nextAppointmentId + 1)
  {
    BookEffect(s, pid, doctorName, date, time, now, score);
  }

  /**
   * A booking either fails and changes nothing, or inserts exactly one
   * SCHEDULED row for that patient at the parsed instant, with the next
   * key, and changes nothing else.
   */
  lemma {:induction false} BookEffect(s: Store, pid: int, doctorName: string, date: string, time: string, now: Now,
                                      score: (string, string) -> int)
    ensures var (o, t) := Book(s, pid, doctorName, date, time, now, score);
            (o.Failed? && t == s) ||
            (o.Appointed? && o.appointmentId == s.nextAppointmentId &&
             ParseDateTime(date, Strip(time)) == Some(o.at) &&
             exists d :: d in s.doctors &&
               t == s.(appointments := s.appointments + [Appointment(o.appointmentId, pid, d.id, o.at, Scheduled, 1, now, None, None)],
                       nextAppointmentId := s.nextAppointmentId + 1))
  {
    if !Blank(date) && !Blank(time) && ParseDateTime(date, Strip(time)).Some? {
      var at := ParseDateTime(date, Strip(time)).value;
      if !IsSunday(at) {
        var rd := ResolveDoctor(s.doctors, CleanDoctorName(doctorName), None, score);
        assert Book(s, pid, doctorName, date, time, now, score) == BookDoctor(s, pid, rd, at, now);
        BookDoctorEffect(s, pid, rd, at, now);
      }
    }
  }

  /** The doctor stage of a booking: a failure that changes nothing, or the one new row for the doctor found. */
  lemma {:induction false} BookDoctorEffect(s: Store, pid: int, doctor: Option<Doctor>, at: Instant, now: Now)
    requires doctor.Some? ==> doctor.value in s.doctors
    ensures BookDoctor(s, pid, doctor, at, now).0.Failed? ==> BookDoctor(s, pid, doctor, at, now).1 == s
    ensures BookDoctor(s, pid, doctor, at, now).0.Failed? || BookDoctor(s, pid, doctor, at, now).0 == Appointed(s.nextAppointmentId, at)
    ensures BookDoctor(s, pid, doctor, at, now).0.Appointed? ==>
              doctor.Some? && doctor.value in s.doctors &&
              BookDoctor(s, pid, doctor, at, now).1 ==
                s.(appointments := s.appointments + [Appointment(s.nextAppointmentId, pid, doctor.value.id, at, Scheduled, 1, now, None, None)],
                   nextAppointmentId := s.nextAppointmentId + 1)
  {
  }

  /** The Sunday rule comes before any doctor or patient lookup: a Sunday instant is refused whatever the tables hold. */
  lemma {:induction false} BookRefusesSunday(s: Store, pid: int, doctorName: string, date: string, time: string, now: Now,
                                             score: (string, string) -> int, at: Instant)
    requires !Blank(date) && !Blank(time) && ParseDateTime(date, Strip(time)) == Some(at) && IsSunday(at)
    ensures Book(s, pid, doctorName, date, time, now, score) == (Failed(ClosedOnSunday), s)
  {
  }

  /** Once doctor and patient are found, the booking is refused exactly when an active row holds that doctor at that instant. */
  lemma {:induction false} BookConflictIsExact(s: Store, pid: int, doctorName: string, date: string, time: string, now: Now,
                                               score: (string, string) -> int, at: Instant, d: Doctor)
    requires !Blank(date) && !Blank(time) && ParseDateTime(date, Strip(time)) == Some(at) && !IsSunday(at)
    requires ResolveDoctor(s.doctors, CleanDoctorName(doctorName), None, score) == Some(d)
    requires FindPatient(s.patients, pid).Some?
    ensures Book(s, pid, doctorName, date, time, now, score).0 ==
            if HasConflict(s.appointments, d.id, at) then Failed(SlotTaken) else Appointed(s.nextAppointmentId, at)
  {
  }

  /** Booking keeps the store valid: keys stay increasing and no slot is ever double-booked. */
  lemma {:induction false} BookKeepsValid(s: Store, pid: int, doctorName: string, date: string, time: string, now: Now,
                                          score: (string, string) -> int)
    requires Valid(s) && s.nextAppointmentId > 0
    ensures Valid(Book(s, pid, doctorName, date, time, now, score).1)
  {
    BookEffect(s, pid, doctorName, date, time, now, score);
    var (o, t) := Book(s, pid, doctorName, date, time, now, score);
    if o.Appointed? {
      BookCommitted(s, pid, doctorName, date, time, now, score);
      var d := ResolveDoctor(s.doctors, CleanDoctorName(doctorName), None, score).value;
      AddAppointmentKeepsValid(s, Appointment(s.nextAppointmentId, pid, d.id, o.at, Scheduled, 1, now, None, None));
    }
  }


  /** The new booking leaves its own slot and no other unavailable; off the half-hour grid it hides no slot at all. */
  lemma {:induction false} BookEffectOnAvailability(s: Store, pid: int, doctorName: string, date: string, time: string, now: Now,
                                                    score: (string, string) -> int, doctor: int, day: Instant)
    requires Book(s, pid, doctorName, date, time, now, score).0.Appointed?
    ensures var (o, t) := Book(s, pid, doctorName, date, time, now, score);
            var onGrid := 9 <= o.at.hour < 17 && (o.at.minute == 0 || o.at.minute == 30);
            (forall slot :: slot in AvailableSlots(t.appointments, doctor, day) ==> slot in AvailableSlots(s.appointments, doctor, day)) &&
            (!onGrid ==> AvailableSlots(t.appointments, doctor, day) == AvailableSlots(s.appointments, doctor, day))
  {
    BookCommitted(s, pid, doctorName, date, time, now, score);
    var (o, t) := Book(s, pid, doctorName, date, time, now, score);
    var d := ResolveDoctor(s.doctors, CleanDoctorName(doctorName), None, score).value;
    var a := Appointment(s.nextAppointmentId, pid, d.id, o.at, Scheduled, 1, now, None, None);
    assert t.appointments == s.appointments + [a];
    if d.id == doctor && SameDay(o.at, day) {
      BookingEffectOnSlots(s.appointments, a, day);
      var onGrid := 9 <= o.at.hour < 17 && (o.at.minute == 0 || o.at.minute == 30);
      if !onGrid {
        InTemplateIffOnGrid(o.at.hour, o.at.minute);
        NewRowTakesItsSlot(s.appointments, a, day);
        SameBookedOnTemplate(s.appointments, a, day);
      }
    } else {
      OtherRowKeepsSlots(s.appointments, a, doctor, day);
    }
  }

  /** A row whose slot string is not on the template changes no slot of the template. */
  lemma {:induction false} SameBookedOnTemplate(appts: seq<Appointment>, a: Appointment, day: Instant)
    requires Active(a) && SameDay(a.at, day) && ValidInstant(a.at) && FormatTime(a.at) !in SlotTemplate()
    requires forall s :: Booked(appts + [a], a.doctor, day, s) <==> Booked(appts, a.doctor, day, s) || s == FormatTime(a.at)
    ensures AvailableSlots(appts + [a], a.doctor, day) == AvailableSlots(appts, a.doctor, day)
  {
    SameBookedOnSlots(SlotTemplate(), appts, a, day);
  }

  lemma {:induction false} SameBookedOnSlots(slots: seq<string>, appts: seq<Appointment>, a: Appointment, day: Instant)
    requires FormatTime.requires(a.at) && FormatTime(a.at) !in slots
    requires forall s :: Booked(appts + [a], a.doctor, day, s) <==> Booked(appts, a.doctor, day, s) || s == FormatTime(a.at)
    ensures FreeSlots(slots, appts + [a], a.doctor, day) == FreeSlots(slots, appts, a.doctor, day)
    decreases |slots|
  {
    if slots != [] {
      SameBookedOnSlots(slots[1..], appts, a, day);
    }
  }

  // ---------------------------------------------------------------------
  // What reschedule promises

  /**
   * A reschedule either fails and changes nothing, or moves the patient's
   * earliest upcoming active appointment: only its instant, its status
   * (now RESCHEDULED) and its modification time change; doctor, patient
   * and every other row stay.
   */
  lemma {:induction false} RescheduleEffect(s: Store, pid: Option<int>, newDate: string, newTime: string, now: Now)
    ensures var (o, t) := Reschedule(s, pid, newDate, newTime, now);
            (o.Failed? && t == s) ||
            (o.Moved? && !MissingId(pid) && ParseDateTime(newDate, Strip(newTime)) == Some(o.at) &&
             Upcoming(s.appointments, pid.value, now).Some? &&
             var k := Upcoming(s.appointments, pid.value, now).value;
             t == s.(appointments := s.appointments[k := s.appointments[k].(at := o.at, status := Rescheduled, modifiedAt := Some(now))]) &&
             t.appointments[k].doctor == s.appointments[k].doctor && t.appointments[k].patient == pid.value)
  {
    if !MissingId(pid) && !Blank(newDate) && !Blank(newTime) && ParseDateTime(newDate, Strip(newTime)).Some? {
      var at := ParseDateTime(newDate, Strip(newTime)).value;
      if !IsSunday(at) {
        var u := Upcoming(s.appointments, pid.value, now);
        if u.Some? && !HasConflict(s.appointments, s.appointments[u.value].doctor, at) {
          assert Reschedule(s, pid, newDate, newTime, now).0 == Moved(at);
        }
      }
    }
  }

  /** A committed move found no active row of the doctor at the new instant. */
  lemma {:induction false} RescheduleCommitted(s: Store, pid: Option<int>, newDate: string, newTime: string, now: Now)
    requires Reschedule(s, pid, newDate, newTime, now).0.Moved?
    ensures !MissingId(pid) && Upcoming(s.appointments, pid.value, now).Some?
    ensures ParseDateTime(newDate, Strip(newTime)) == Some(Reschedule(s, pid, newDate, newTime, now).0.at)
    ensures var k := Upcoming(s.appointments, pid.value, now).value;
            !HasConflict(s.appointments, s.appointments[k].doctor, Reschedule(s, pid, newDate, newTime, now).0.at)
  {
    RescheduleEffect(s, pid, newDate, newTime, now);
  }


  /** The conflict check does not exclude the appointment being moved, so moving it to its own instant is refused. */
  lemma {:induction false} RescheduleToSameInstantRefused(s: Store, pid: int, newDate: string, newTime: string, now: Now)
    requires pid != 0 && !Blank(newDate) && !Blank(newTime)
    requires Upcoming(s.appointments, pid, now).Some?
    requires ParseDateTime(newDate, Strip(newTime)) == Some(s.appointments[Upcoming(s.appointments, pid, now).value].at)
    requires !IsSunday(s.appointments[Upcoming(s.appointments, pid, now).value].at)
    ensures Reschedule(s, Some(pid), newDate, newTime, now) == (Failed(SlotTaken), s)
  {
    var k := Upcoming(s.appointments, pid, now).value;
    assert Active(s.appointments[k]);
  }

  lemma {:induction false} RescheduleKeepsValid(s: Store, pid: Option<int>, newDate: string, newTime: string, now: Now)
    requires Valid(s)
    ensures Valid(Reschedule(s, pid, newDate, newTime, now).1)
  {
    RescheduleEffect(s, pid, newDate, newTime, now);
    var (o, t) := Reschedule(s, pid, newDate, newTime, now);
    if o.Moved? {
      RescheduleCommitted(s, pid, newDate, newTime, now);
      var k := Upcoming(s.appointments, pid.value, now).value;
      var a := s.appointments[k].(at := o.at, status := Rescheduled, modifiedAt := Some(now));
      MoveKeepsNoDoubleBooking(s.appointments, k, a);
      ReplaceAppointmentKeepsValid(s, k, a);
    }
  }


  // ---------------------------------------------------------------------
  // What cancel promises

  /**
   * A cancellation either fails and changes nothing, or marks the
   * patient's latest active appointment (past or future) CANCELLED with
   * ModifiedBy 1 and ModifiedAt `now`, leaving every other row as it was.
   */
  lemma {:induction false} CancelEffect(s: Store, pid: Option<int>, now: Now)
    ensures var (o, t) := Cancel(s, pid, now);
            (o.Failed? && t == s && (o.reason == MissingPatientId <==> MissingId(pid))) ||
            (o.Dropped? && !MissingId(pid) && Latest(s.appointments, pid.value).Some? &&
             var k := Latest(s.appointments, pid.value).value;
             o.appointmentId == s.appointments[k].id && o.at == s.appointments[k].at &&
             t == s.(appointments := s.appointments[k := s.appointments[k].(status := Cancelled, modifiedBy := Some(1), modifiedAt := Some(now))]))
  {
  }

  /** Each successful cancellation lowers the patient's active count by one; it fails exactly when that count is zero. */
  lemma {:induction false} CancelCounts(s: Store, pid: int, now: Now)
    requires pid != 0
    ensures Cancel(s, Some(pid), now).0 == Failed(NoActive) <==> ActiveCount(s.appointments, pid) == 0
    ensures Cancel(s, Some(pid), now).0.Dropped? <==> ActiveCount(s.appointments, pid) > 0
    ensures Cancel(s, Some(pid), now).0.Dropped? ==>
              ActiveCount(Cancel(s, Some(pid), now).1.appointments, pid) == ActiveCount(s.appointments, pid) - 1
  {
    var (o, t) := Cancel(s, Some(pid), now);
    if o.Dropped? {
      var k := Latest(s.appointments, pid).value;
      DeactivateCount(s.appointments, k, s.appointments[k].(status := Cancelled, modifiedBy := Some(1), modifiedAt := Some(now)), pid);
    }
  }

  /** `n` cancellations in a row. */
  function CancelTimes(s: Store, pid: int, now: Now, n: nat): Store
    decreases n
  {
    if n == 0 then s else CancelTimes(Cancel(s, Some(pid), now).1, pid, now, n - 1)
  }

  /** Repeated cancellations run out: after as many as the patient has active appointments, the next one reports none. */
  lemma {:induction false} CancelsRunOut(s: Store, pid: int, now: Now)
    requires pid != 0
    ensures Cancel(CancelTimes(s, pid, now, ActiveCount(s.appointments, pid)), Some(pid), now).0 == Failed(NoActive)
  {
    CancelTimesCount(s, pid, now, ActiveCount(s.appointments, pid));
    CancelCounts(CancelTimes(s, pid, now, ActiveCount(s.appointments, pid)), pid, now);
  }

  lemma {:induction false} CancelTimesCount(s: Store, pid: int, now: Now, n: nat)
    requires pid != 0 && n <= ActiveCount(s.appointments, pid)
    ensures ActiveCount(CancelTimes(s, pid, now, n).appointments, pid) == ActiveCount(s.appointments, pid) - n
    decreases n, 1
  {
    if n == 0 {
      assert CancelTimes(s, pid, now, n) == s;
    } else {
      CancelOnceThenTimes(s, pid, now, n);
    }
  }

  /** The inductive step of `CancelTimesCount`: one cancellation, then `n - 1` more. */
  lemma {:induction false} CancelOnceThenTimes(s: Store, pid: int, now: Now, n: nat)
    requires pid != 0 && 0 < n <= ActiveCount(s.appointments, pid)
    ensures ActiveCount(CancelTimes(s, pid, now, n).appointments, pid) == ActiveCount(s.appointments, pid) - n
    decreases n, 0
  {
    var s1 := Cancel(s, Some(pid), now).1;
    CancelCounts(s, pid, now);
    CancelTimesCount(s1, pid, now, n - 1);
    assert CancelTimes(s, pid, now, n) == CancelTimes(s1, pid, now, n - 1);
  }

  lemma {:induction false} CancelKeepsValid(s: Store, pid: Option<int>, now: Now)
    requires Valid(s)
    ensures Valid(Cancel(s, pid, now).1)
  {
    CancelEffect(s, pid, now);
    var (o, t) := Cancel(s, pid, now);
    if o.Dropped? {
      var k := Latest(s.appointments, pid.value).value;
      var a := s.appointments[k].(status := Cancelled, modifiedBy := Some(1), modifiedAt := Some(now));
      CancelKeepsNoDoubleBooking(s.appointments, k, a);
      ReplaceAppointmentKeepsValid(s, k, a);
    }
  }


  // ---------------------------------------------------------------------
  // No operation reactivates a cancelled appointment

  predicate StaysCancelled(before: seq<Appointment>, after: seq<Appointment>)
  {
    |before| <= |after| &&
    forall i :: 0 <= i < |before| && before[i].status == Cancelled ==> after[i] == before[i]
  }

  /** Booking never touches an existing row, cancelled or not. */
  lemma {:induction false} BookKeepsCancelled(s: Store, pid: int, doctorName: string, date: string, time: string, now: Now,
                                              score: (string, string) -> int)
    ensures StaysCancelled(s.appointments, Book(s, pid, doctorName, date, time, now, score).1.appointments)
  {
    BookEffect(s, pid, doctorName, date, time, now, score);
    var t := Book(s, pid, doctorName, date, time, now, score).1;
    assert forall i :: 0 <= i < |s.appointments| ==> t.appointments[i] == s.appointments[i];
  }

  /** Rescheduling only ever moves an active row, so a cancelled one stays as it is. */
  lemma {:induction false} RescheduleKeepsCancelled(s: Store, pid: Option<int>, newDate: string, newTime: string, now: Now)
    ensures StaysCancelled(s.appointments, Reschedule(s, pid, newDate, newTime, now).1.appointments)
  {
    RescheduleEffect(s, pid, newDate, newTime, now);
  }

  /** Cancelling only ever marks an active row, so a cancelled one stays as it is. */
  lemma {:induction false} CancelKeepsCancelled(s: Store, pid: Option<int>, now: Now)
    ensures StaysCancelled(s.appointments, Cancel(s, pid, now).1.appointments)
  {
    CancelEffect(s, pid, now);
  }

  // ---------------------------------------------------------------------
  // What book_test promises

  /**
   * A test booking either fails and changes nothing, or appends exactly one
   * CONFIRMED test appointment; the appointment table is never touched.
   * Missing test, unavailable test and missing patient are checked in that order.
   */
  lemma {:induction false} BookTestEffect(s: Store, pid: int, testName: string, date: string, time: string)
    ensures var (o, t) := BookTest(s, pid, testName, date, time);
            (o.Failed? && t == s) ||
            (o.TestBooked? && o.bookingId == s.nextTestAppointmentId &&
             exists test :: test in s.tests && test.available && t == AddTestAppointment(s, pid, test, o.at))
    ensures var o := BookTest(s, pid, testName, date, time).0;
            date != [] && time != [] && FindTest(s.tests, "%" + testName + "%").None? ==> o == Failed(TestNotFound)
    ensures var o := BookTest(s, pid, testName, date, time).0;
            o == Failed(PatientNotFound) ==> exists test :: test in s.tests && test.available
  {
    if date != [] && time != [] {
      var found := FindTest(s.tests, "%" + testName + "%");
      if found.Some? && s.tests[found.value].available {
        var k := found.value;
        assert s.tests[k] in s.tests;
        var parsed := ParseDateTime(date, time);
        if FindPatient(s.patients, pid).Some? && parsed.Some? {
          BookTestCommitted(s, pid, testName, date, time, k, parsed.value);
        }
      }
    }
  }

  /**
   * A test booking validates, in order: both fields present, then the
   * first test matching the name, then that test being offered, then the
   * patient. Each failure names the first check that did not pass.
   */
  lemma {:induction false} BookTestCheckOrder(s: Store, pid: int, testName: string, date: string, time: string)
    ensures var o := BookTest(s, pid, testName, date, time).0;
            var found := FindTest(s.tests, "%" + testName + "%");
            (o == Failed(MissingDateOrTime) <==> date == [] || time == []) &&
            (o == Failed(TestNotFound) <==> date != [] && time != [] && found.None?) &&
            (o == Failed(TestUnavailable) <==> date != [] && time != [] && found.Some? && !s.tests[found.value].available) &&
            (o == Failed(PatientNotFound) <==>
               date != [] && time != [] && found.Some? && s.tests[found.value].available &&
               FindPatient(s.patients, pid).None?)
  {
  }

  /** The row a test booking commits once every check has passed. */
  lemma {:induction false} BookTestCommitted(s: Store, pid: int, testName: string, date: string, time: string, k: nat, at: Instant)
    requires date != [] && time != []
    requires FindTest(s.tests, "%" + testName + "%") == Some(k) && s.tests[k].available
    requires FindPatient(s.patients, pid).Some? && ParseDateTime(date, time) == Some(at)
    ensures BookTest(s, pid, testName, date, time).0 == TestBooked(s.nextTestAppointmentId, at)
    ensures BookTest(s, pid, testName, date, time).1 == AddTestAppointment(s, pid, s.tests[k], at)
  {
  }



  /** Test booking has no Sunday rule and no slot check: any parsable instant for an offered test and a known patient is booked. */
  lemma {:induction false} BookTestAcceptsAnyInstant(s: Store, pid: int, testName: string, date: string, time: string, at: Instant)
    requires date != [] && time != [] && ParseDateTime(date, time) == Some(at)
    requires FindTest(s.tests, "%" + testName + "%").Some? && s.tests[FindTest(s.tests, "%" + testName + "%").value].available
    requires FindPatient(s.patients, pid).Some?
    ensures BookTest(s, pid, testName, date, time).0 == TestBooked(s.nextTestAppointmentId, at)
  {
  }

  // ---------------------------------------------------------------------
  // What register promises

  /** Registering a known phone number returns its patient and creates nobody; a new number creates one patient with the next key. */
  lemma {:induction false} RegisterEffect(s: Store, name: string, phone: string, email: Option<string>, gender: int, now: Now)
    ensures var (o, t) := Register(s, name, phone, email, gender, now);
            ((exists i :: 0 <= i < |s.patients| && s.patients[i].phone == phone) ==>
               t == s && o.PatientExists? && exists i :: 0 <= i < |s.patients| && s.patients[i].phone == phone && s.patients[i].id == o.patientId) &&
            ((forall i :: 0 <= i < |s.patients| ==> s.patients[i].phone != phone) ==>
               o == PatientCreated(s.nextPatientId) &&
               t == s.(patients := s.patients + [Patient(s.nextPatientId, name, phone, email, gender, 1, now)],
                       nextPatientId := s.nextPatientId + 1))
  {
  }

  /** Registering the same phone twice yields the same patient id, and the second call changes nothing. */
  lemma {:induction false} RegisterTwice(s: Store, name: string, phone: string, email: Option<string>, gender: int, now: Now,
                                         name2: string, email2: Option<string>, gender2: int, now2: Now)
    ensures var (o1, t1) := Register(s, name, phone, email, gender, now);
            var (o2, t2) := Register(t1, name2, phone, email2, gender2, now2);
            t2 == t1 && o2 == PatientExists(o1.patientId)
  {
    var (o1, t1) := Register(s, name, phone, email, gender, now);
    if o1.PatientCreated? {
      var n := |s.patients|;
      assert t1.patients[n].phone == phone;
      var f := FindPhone(t1.patients, phone);
      assert f.Some? && f.value == n by {
        assert forall j :: 0 <= j < n ==> t1.patients[j] == s.patients[j];
      }
    } else {
      var f := FindPhone(s.patients, phone);
      assert FindPhone(t1.patients, phone) == f;
    }
  }

  lemma {:induction false} RegisterKeepsValid(s: Store, name: string, phone: string, email: Option<string>, gender: int, now: Now)
    requires Valid(s) && s.nextPatientId > 0
    ensures Valid(Register(s, name, phone, email, gender, now).1)
  {
    RegisterEffect(s, name, phone, email, gender, now);
    var (o, t) := Register(s, name, phone, email, gender, now);
    if o.PatientCreated? {
      AddPatientKeepsValid(s, Patient(s.nextPatientId, name, phone, email, gender, 1, now));
    }
  }


  lemma {:induction false} BookTestKeepsValid(s: Store, pid: int, testName: string, date: string, time: string)
    requires Valid(s) && s.nextTestAppointmentId > 0
    ensures Valid(BookTest(s, pid, testName, date, time).1)
  {
    BookTestEffect(s, pid, testName, date, time);
    var (o, t) := BookTest(s, pid, testName, date, time);
    if o.TestBooked? {
      var test :| test in s.tests && test.available && t == AddTestAppointment(s, pid, test, o.at);
      AddTestAppointmentKeepsValid(s, TestAppointment(o.bookingId, pid, test.id, o.at, Confirmed));
    }
  }


  // ---------------------------------------------------------------------
  // What check_availability promises

  /**
   * On a Sunday no slot is offered; on any other day the offered slots are
   * the template, in order, minus those an active appointment of the
   * doctor that day renders as. The doctor is one of the branch's when a
   * branch is given. The two uncaught errors are stated exactly: the
   * overflow on 9999-12-31, and a found doctor without a branch on any
   * other non-Sunday.
   */
  lemma {:induction false} AvailabilitySpec(s: Store, doctorName: string, date: string, branch: Option<int>,
                                            score: (string, string) -> int)
    ensures var r := CheckAvailability(s, doctorName, date, branch, score);
            r.DayOutOfRange? <==>
              doctorName != [] && date != [] && ResolveDoctor(s.doctors, CleanDoctorName(doctorName), branch, score).Some? &&
              ParseDate(date).Some? && !IsSunday(ParseDate(date).value) && IsLastDay(ParseDate(date).value)
    ensures var r := CheckAvailability(s, doctorName, date, branch, score);
            r.NoBranch? <==>
              doctorName != [] && date != [] && ResolveDoctor(s.doctors, CleanDoctorName(doctorName), branch, score).Some? &&
              ResolveDoctor(s.doctors, CleanDoctorName(doctorName), branch, score).value.branch.None? &&
              ParseDate(date).Some? && !IsSunday(ParseDate(date).value) && !IsLastDay(ParseDate(date).value)
    ensures var r := CheckAvailability(s, doctorName, date, branch, score);
            (r.ClosedSunday? || r.Open?) ==>
              ParseDate(date).Some? && ResolveDoctor(s.doctors, CleanDoctorName(doctorName), branch, score).Some? &&
              var d := ResolveDoctor(s.doctors, CleanDoctorName(doctorName), branch, score).value;
              var day := ParseDate(date).value;
              d in s.doctors && InScope(d, branch) && r.doctor == d.name &&
              (r.ClosedSunday? <==> IsSunday(day)) && (r.Open? ==> d.branch.Some?) &&
              (r.Open? ==> Subsequence(r.slots, SlotTemplate()) &&
                           forall slot :: slot in r.slots <==> slot in SlotTemplate() && !Booked(s.appointments, d.id, day, slot))
  {
    if doctorName != [] && date != [] {
      var rd := ResolveDoctor(s.doctors, CleanDoctorName(doctorName), branch, score);
      if rd.Some? {
        assert CheckAvailability(s, doctorName, date, branch, score) == DayAvailability(s, rd.value, ParseDate(date));
        DayAvailabilitySpec(s, rd.value, ParseDate(date));
      }
    }
  }

  /** Asking for any doctor's slots on 9999-12-31 ends in the server error. */
  lemma {:induction false} LastDayOverflows(s: Store, d: Doctor, hour: int, minute: int)
    requires 0 <= hour < 24 && 0 <= minute < 60
    ensures DayAvailability(s, d, Some(Instant(9999, 12, 31, hour, minute))) == DayOutOfRange
  {
    LastDayIsFriday();
  }

  lemma {:induction false} DayAvailabilitySpec(s: Store, d: Doctor, day: Option<Instant>)
    requires day.Some? ==> ValidInstant(day.value)
    ensures var r := DayAvailability(s, d, day);
            (r.BadDateFormat? <==> day.None?) &&
            (r.DayOutOfRange? <==> day.Some? && !IsSunday(day.value) && IsLastDay(day.value))
    ensures var r := DayAvailability(s, d, day);
            (r.NoBranch? <==> day.Some? && !IsSunday(day.value) && !IsLastDay(day.value) && d.branch.None?) &&
            (r.Open? <==> day.Some? && !IsSunday(day.value) && !IsLastDay(day.value) && d.branch.Some?)
    ensures var r := DayAvailability(s, d, day);
            (r.ClosedSunday? || r.Open?) ==>
              day.Some? && r.doctor == d.name && (r.ClosedSunday? <==> IsSunday(day.value)) &&
              (r.Open? ==> Subsequence(r.slots, SlotTemplate()) &&
                           forall slot :: slot in r.slots <==> slot in SlotTemplate() && !Booked(s.appointments, d.id, day.value, slot))
  {
    if day.Some? && !IsSunday(day.value) {
      AvailableSlotsSpec(s.appointments, d.id, day.value);
    }
  }
}
