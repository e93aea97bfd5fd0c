/**
 * The database session the endpoints work on, as an object whose tables
 * the endpoint methods update in place. Each method takes the same
 * decisions, in the same order, as its endpoint and commits at most one
 * change; its contract ties the outcome and the new tables to the step
 * function of the same name, whose properties are proved in `Steps`.
 */
module Endpoints {
  import opened Wrappers
  import opened Text
  import opened Calendar
  import opened TimeParse
  import opened Names
  import opened Schedule
  import Steps

  class Clinic {
    var patients: seq<Steps.Patient>
    var doctors: seq<Doctor>
    var tests: seq<Steps.Test>
    var appointments: seq<Appointment>
    var testAppointments: seq<Steps.TestAppointment>
    var nextPatientId: int
    var nextAppointmentId: int
    var nextTestAppointmentId: int

    /** The tables as one value. */
    function Snapshot(): Steps.Store
      reads this
    {
      Steps.Store(patients, doctors, tests, appointments, testAppointments,
                  nextPatientId, nextAppointmentId, nextTestAppointmentId)
    }

    predicate Valid()
      reads this
    {
      Steps.Valid(Snapshot()) && nextPatientId > 0 && nextAppointmentId > 0 && nextTestAppointmentId > 0
    }

    /** An empty clinic offering the given doctors and tests; every key starts at 1. */
    constructor (doctors: seq<Doctor>, tests: seq<Steps.Test>)
      ensures Valid()
      ensures Snapshot() == Steps.Store([], doctors, tests, [], [], 1, 1, 1)
    {
      this.patients := [];
      this.doctors := doctors;
      this.tests := tests;
      this.appointments := [];
      this.testAppointments := [];
      this.nextPatientId := 1;
      this.nextAppointmentId := 1;
      this.nextTestAppointmentId := 1;
    }

    /** `book_appointment` */
    method Book(pid: int, doctorName: string, date: string, time: string, now: Now, score: (string, string) -> int)
      returns (o: Steps.Outcome)
      requires Valid()
      modifies this
      ensures o == Steps.Book(old(Snapshot()), pid, doctorName, date, time, now, score).0
      ensures Snapshot() == Steps.Book(old(Snapshot()), pid, doctorName, date, time, now, score).1
      ensures Valid()
    {
      ghost var before := Snapshot();
      if Steps.Blank(date) {
        return Steps.Failed(Steps.MissingDate);
      }
      if Steps.Blank(time) {
        return Steps.Failed(Steps.MissingTime);
      }
      var parsed := ParseDateTime(date, Strip(time));
      if parsed.None? {
        return Steps.Failed(Steps.BadDateTime);
      }
      var at := parsed.value;
      if IsSunday(at) {
        return Steps.Failed(Steps.ClosedOnSunday);
      }
      var doctor := ResolveDoctor(doctors, CleanDoctorName(doctorName), None, score);
      o := BookDoctor(pid, doctor, at, now);
    }

    /** The rest of `book_appointment`: patient check, conflict check, insert. */
    method BookDoctor(pid: int, doctor: Option<Doctor>, at: Instant, now: Now) returns (o: Steps.Outcome)
      requires Valid() && ValidInstant(at)
      modifies this
      ensures o == Steps.BookDoctor(old(Snapshot()), pid, doctor, at, now).0
      ensures Snapshot() == Steps.BookDoctor(old(Snapshot()), pid, doctor, at, now).1
      ensures Valid()
    {
      if doctor.None? {
        return Steps.Failed(Steps.DoctorNotFound);
      }
      if Steps.FindPatient(patients, pid).None? {
        return Steps.Failed(Steps.PatientNotFound);
      }
      if HasConflict(appointments, doctor.value.id, at) {
        return Steps.Failed(Steps.SlotTaken);
      }
      var id := nextAppointmentId;
      var a := Appointment(id, pid, doctor.value.id, at, Scheduled, 1, now, None, None);
      Steps.AddAppointmentKeepsValid(Snapshot(), a);
      appointments := appointments + [a];
      nextAppointmentId := id + 1;
      o := Steps.Appointed(id, at);
    }

    /** `reschedule_appointment` */
    method Reschedule(pid: Option<int>, newDate: string, newTime: string, now: Now) returns (o: Steps.Outcome)
      requires Valid()
      modifies this
      ensures o == Steps.Reschedule(old(Snapshot()), pid, newDate, newTime, now).0
      ensures Snapshot() == Steps.Reschedule(old(Snapshot()), pid, newDate, newTime, now).1
      ensures Valid()
    {
      ghost var before := Snapshot();
      if Steps.MissingId(pid) {
        return Steps.Failed(Steps.MissingPatientId);
      }
      if Steps.Blank(newDate) {
        return Steps.Failed(Steps.MissingDate);
      }
      if Steps.Blank(newTime) {
        return Steps.Failed(Steps.MissingTime);
      }
      var parsed := ParseDateTime(newDate, Strip(newTime));
      if parsed.None? {
        return Steps.Failed(Steps.BadDateTime);
      }
      var at := parsed.value;
      if IsSunday(at) {
        return Steps.Failed(Steps.ClosedOnSunday);
      }
      var target := Upcoming(appointments, pid.value, now);
      if target.None? {
        return Steps.Failed(Steps.NoUpcoming);
      }
      var k := target.value;
      if HasConflict(appointments, appointments[k].doctor, at) {
        return Steps.Failed(Steps.SlotTaken);
      }
      Steps.RescheduleKeepsValid(before, pid, newDate, newTime, now);
      appointments := appointments[k := appointments[k].(at := at, status := Rescheduled, modifiedAt := Some(now))];
      o := Steps.Moved(at);
    }

    /** `cancel_appointment` */
    method Cancel(pid: Option<int>, now: Now) returns (o: Steps.Outcome)
      requires Valid()
      modifies this
      ensures o == Steps.Cancel(old(Snapshot()), pid, now).0
      ensures Snapshot() == Steps.Cancel(old(Snapshot()), pid, now).1
      ensures Valid()
    {
      ghost var before := Snapshot();
      if Steps.MissingId(pid) {
        return Steps.Failed(Steps.MissingPatientId);
      }
      var target := Latest(appointments, pid.value);
      if target.None? {
        return Steps.Failed(Steps.NoActive);
      }
      var k := target.value;
      var at := appointments[k].at;
      var id := appointments[k].id;
      Steps.CancelKeepsValid(before, pid, now);
      appointments := appointments[k := appointments[k].(status := Cancelled, modifiedBy := Some(1), modifiedAt := Some(now))];
      o := Steps.Dropped(id, at);
    }

    /** `book_test_appointment` */
    method BookTest(pid: int, testName: string, date: string, time: string) returns (o: Steps.Outcome)
      requires Valid()
      modifies this
      ensures o == Steps.BookTest(old(Snapshot()), pid, testName, date, time).0
      ensures Snapshot() == Steps.BookTest(old(Snapshot()), pid, testName, date, time).1
      ensures Valid()
    {
      ghost var before := Snapshot();
      if date == [] || time == [] {
        return Steps.Failed(Steps.MissingDateOrTime);
      }
      var found := Steps.FindTest(tests, "%" + testName + "%");
      if found.None? {
        return Steps.Failed(Steps.TestNotFound);
      }
      var test := tests[found.value];
      if !test.available {
        return Steps.Failed(Steps.TestUnavailable);
      }
      if Steps.FindPatient(patients, pid).None? {
        return Steps.Failed(Steps.PatientNotFound);
      }
      var parsed := ParseDateTime(date, time);
      if parsed.None? {
        return Steps.Failed(Steps.ServerError);
      }
      var id := nextTestAppointmentId;
      var b := Steps.TestAppointment(id, pid, test.id, parsed.value, Steps.Confirmed);
      Steps.BookTestCommitted(before, pid, testName, date, time, found.value, parsed.value);
      Steps.BookTestKeepsValid(before, pid, testName, date, time);
      testAppointments := testAppointments + [b];
      nextTestAppointmentId := id + 1;
      o := Steps.TestBooked(id, parsed.value);
    }

    /** `register_patient` */
    method Register(name: string, phone: string, email: Option<string>, gender: int, now: Now) returns (o: Steps.Outcome)
      requires Valid()
      modifies this
      ensures o == Steps.Register(old(Snapshot()), name, phone, email, gender, now).0
      ensures Snapshot() == Steps.Register(old(Snapshot()), name, phone, email, gender, now).1
      ensures Valid()
    {
      ghost var before := Snapshot();
      var existing := Steps.FindPhone(patients, phone);
      if existing.Some? {
        return Steps.PatientExists(patients[existing.value].id);
      }
      var id := nextPatientId;
      Steps.RegisterKeepsValid(before, name, phone, email, gender, now);
      patients := patients + [Steps.Patient(id, name, phone, email, gender, 1, now)];
      nextPatientId := id + 1;
      o := Steps.PatientCreated(id);
    }

    /**
     * `check_availability`: `booked_times` is collected by one pass over
     * the appointments, then the day's template is filtered against it.
     */
    method CheckAvailability(doctorName: string, date: string, branch: Option<int>, score: (string, string) -> int)
      returns (r: Steps.Availability)
      ensures r == Steps.CheckAvailability(Snapshot(), doctorName, date, branch, score)
    {
      if doctorName == [] {
        return Steps.NeedDoctorName;
      }
      if date == [] {
        return Steps.NeedDate;
      }
      var doctor := ResolveDoctor(doctors, CleanDoctorName(doctorName), branch, score);
      if doctor.None? {
        return Steps.NoSuchDoctor;
      }
      var d := doctor.value;
      var day := ParseDate(date);
      if day.None? {
        return Steps.BadDateFormat;
      }
      if IsSunday(day.value) {
        return Steps.ClosedSunday(d.name);
      }
      if IsLastDay(day.value) {
        return Steps.DayOutOfRange;
      }
      if d.branch.None? {
        return Steps.NoBranch;
      }
      var slots := OpenSlots(d.id, day.value);
      r := Steps.Open(d.name, slots);
    }

    /** The slots of a non-Sunday day: `generate_slots` minus `booked_times`, in template order. */
    method OpenSlots(doctor: int, day: Instant) returns (available: seq<string>)
      requires ValidInstant(day)
      ensures available == AvailableSlots(appointments, doctor, day)
    {
      var booked := BookedTimes(doctor, day);
      var all := GenerateSlots(day);
      available := FilterFree(all, booked, doctor, day);
    }

    /** The comprehension `[slot for slot in all if slot not in booked]`. */
    method FilterFree(all: seq<string>, booked: set<string>, doctor: int, day: Instant) returns (available: seq<string>)
      requires forall slot :: slot in booked <==> Booked(appointments, doctor, day, slot)
      ensures available == FreeSlots(all, appointments, doctor, day)
    {
      available := [];
      var i := 0;
      while i < |all|
        invariant 0 <= i <= |all|
        invariant available == FreeSlots(all[..i], appointments, doctor, day)
      {
        FreeSlotsSnoc(all[..i], all[i], appointments, doctor, day);
        assert all[..i + 1] == all[..i] + [all[i]];
        if all[i] !in booked {
          available := available + [all[i]];
        }
        i := i + 1;
      }
      assert all[..i] == all;
    }

    /** `{appt.Appointment_Date.strftime("%H:%M") for appt in booked}` over the doctor's active rows that day. */
    method BookedTimes(doctor: int, day: Instant) returns (booked: set<string>)
      ensures forall slot :: slot in booked <==> Booked(appointments, doctor, day, slot)
    {
      booked := {};
      var i := 0;
      while i < |appointments|
        invariant 0 <= i <= |appointments|
        invariant forall slot :: slot in booked <==> Booked(appointments[..i], doctor, day, slot)
      {
        var a := appointments[i];
        BookedSnoc(appointments[..i], a, doctor, day);
        assert appointments[..i + 1] == appointments[..i] + [a];
        if Active(a) && a.doctor == doctor && SameDay(a.at, day) && ValidInstant(a.at) {
          booked := booked + {FormatTime(a.at)};
        }
        i := i + 1;
      }
      assert appointments[..i] == appointments;
    }
  }

  /** One more row adds at most the slot it renders as. */
  lemma {:induction false} BookedSnoc(appts: seq<Appointment>, a: Appointment, doctor: int, day: Instant)
    ensures forall slot :: Booked(appts + [a], doctor, day, slot) <==>
              Booked(appts, doctor, day, slot) ||
              (Active(a) && a.doctor == doctor && SameDay(a.at, day) && ValidInstant(a.at) && FormatTime(a.at) == slot)
  {
    var t := appts + [a];
    assert t[|appts|] == a;
    forall slot | Booked(t, doctor, day, slot)
      ensures Booked(appts, doctor, day, slot) ||
              (Active(a) && a.doctor == doctor && SameDay(a.at, day) && ValidInstant(a.at) && FormatTime(a.at) == slot)
    {
      var i :| 0 <= i < |t| && Active(t[i]) && t[i].doctor == doctor && SameDay(t[i].at, day) &&
               ValidInstant(t[i].at) && FormatTime(t[i].at) == slot;
      if i < |appts| {
        assert t[i] == appts[i];
      }
    }
    forall slot | Booked(appts, doctor, day, slot) ensures Booked(t, doctor, day, slot) {
      var i :| 0 <= i < |appts| && Active(appts[i]) && appts[i].doctor == doctor && SameDay(appts[i].at, day) &&
               ValidInstant(appts[i].at) && FormatTime(appts[i].at) == slot;
      assert t[i] == appts[i];
    }
  }

  /** Filtering one more slot appends it exactly when it is not booked. */
  lemma {:induction false} FreeSlotsSnoc(slots: seq<string>, x: string, appts: seq<Appointment>, doctor: int, day: Instant)
    ensures FreeSlots(slots + [x], appts, doctor, day) ==
            FreeSlots(slots, appts, doctor, day) + (if Booked(appts, doctor, day, x) then [] else [x])
    decreases |slots|
  {
    if slots == [] {
      assert [x][1..] == [];
    } else {
      assert (slots + [x])[1..] == slots[1..] + [x];
      FreeSlotsSnoc(slots[1..], x, appts, doctor, day);
    }
  }
}
