/**
 * The appointment table and the read-only queries the scheduling endpoints
 * run on it: the exact-instant conflict test, the row reschedule acts on
 * (earliest upcoming), the row cancel acts on (latest of all), and the
 * free slots of a doctor's day.
 *
 * Tables are sequences in insertion order; a query's `.first()` without an
 * ordering, or among rows tied on the ordering column, returns the earliest
 * row in that order.
 */
module Schedule {
  import opened Wrappers
  import opened Text
  import opened Calendar

  datatype Status = Scheduled | Rescheduled | Cancelled

  /** A row of `Appointment`: who, with whom, when, in which state, and the audit columns. */
  datatype Appointment = Appointment(
    id: int, patient: int, doctor: int, at: Instant, status: Status,
    createdBy: int, createdAt: Now, modifiedBy: Option<int>, modifiedAt: Option<Now>)

  /** `Appointment_Status.in_(["SCHEDULED", "RESCHEDULED"])` */
  predicate Active(a: Appointment)
  {
    a.status != Cancelled
  }

  /** No two active appointments hold the same doctor at the same instant. */
  predicate NoDoubleBooking(appts: seq<Appointment>)
  {
    forall i, j :: 0 <= i < j < |appts| && Active(appts[i]) && Active(appts[j]) && appts[i].doctor == appts[j].doctor ==>
      appts[i].at != appts[j].at
  }

  // ---------------------------------------------------------------------
  // Conflicts

  /** The conflict query of `book` and `reschedule`: an active row of that doctor at exactly that instant. */
  predicate HasConflict(appts: seq<Appointment>, doctor: int, at: Instant)
  {
    exists i :: 0 <= i < |appts| && Active(appts[i]) && appts[i].doctor == doctor && appts[i].at == at
  }

  /** Adding an active row keeps the table free of double bookings exactly when its slot was free. */
  lemma {:induction false} AppendKeepsNoDoubleBooking(appts: seq<Appointment>, a: Appointment)
    requires NoDoubleBooking(appts) && Active(a)
    ensures NoDoubleBooking(appts + [a]) <==> !HasConflict(appts, a.doctor, a.at)
  {
    var t := appts + [a];
    if HasConflict(appts, a.doctor, a.at) {
      var i :| 0 <= i < |appts| && Active(appts[i]) && appts[i].doctor == a.doctor && appts[i].at == a.at;
      assert t[i] == appts[i] && t[|appts|] == a;
    } else {
      forall i, j | 0 <= i < j < |t| && Active(t[i]) && Active(t[j]) && t[i].doctor == t[j].doctor
        ensures t[i].at != t[j].at
      {
        if j < |appts| {
          assert t[i] == appts[i] && t[j] == appts[j];
        } else {
          assert t[i] == appts[i];
        }
      }
    }
  }

  /** Replacing a row by an active one of the same doctor, at an instant where that doctor has no active row, keeps the table free of double bookings. */
  lemma {:induction false} MoveKeepsNoDoubleBooking(appts: seq<Appointment>, k: int, a: Appointment)
    requires NoDoubleBooking(appts) && 0 <= k < |appts| && Active(a) && a.doctor == appts[k].doctor
    requires !HasConflict(appts, a.doctor, a.at)
    ensures NoDoubleBooking(appts[k := a])
  {
    var t := appts[k := a];
    forall i, j | 0 <= i < j < |t| && Active(t[i]) && Active(t[j]) && t[i].doctor == t[j].doctor
      ensures t[i].at != t[j].at
    {
      if i == k {
        assert !(Active(appts[j]) && appts[j].doctor == a.doctor && appts[j].at == a.at);
      } else if j == k {
        assert !(Active(appts[i]) && appts[i].doctor == a.doctor && appts[i].at == a.at);
      }
    }
  }

  /** Deactivating a row never creates a double booking. */
  lemma {:induction false} CancelKeepsNoDoubleBooking(appts: seq<Appointment>, k: int, a: Appointment)
    requires NoDoubleBooking(appts) && 0 <= k < |appts| && !Active(a)
    ensures NoDoubleBooking(appts[k := a])
  {
    var t := appts[k := a];
    forall i, j | 0 <= i < j < |t| && Active(t[i]) && Active(t[j]) && t[i].doctor == t[j].doctor
      ensures t[i].at != t[j].at
    {
      assert i != k && j != k;
      assert t[i] == appts[i] && t[j] == appts[j];
    }
  }

  // ---------------------------------------------------------------------
  // Targets of reschedule and cancel

  /** Rows reschedule may act on: the patient's, active, and not earlier than `now`. */
  predicate UpcomingOf(a: Appointment, patient: int, now: Now)
  {
    Active(a) && a.patient == patient && NotBefore(a.at, now)
  }

  /**
   * `.filter(Patient_Id == p, active, Appointment_Date >= now)
   *  .order_by(Appointment_Date.asc()).first()`:
   * the earliest such row, the first in table order among equals.
   */
  function Upcoming(appts: seq<Appointment>, patient: int, now: Now): (r: Option<nat>)
    ensures r.Some? ==> r.value < |appts| && UpcomingOf(appts[r.value], patient, now)
    ensures r.Some? ==> forall j :: 0 <= j < |appts| && UpcomingOf(appts[j], patient, now) ==>
                          !Before(appts[j].at, appts[r.value].at)
    ensures r.Some? ==> forall j :: 0 <= j < r.value && UpcomingOf(appts[j], patient, now) ==>
                          appts[j].at != appts[r.value].at
    ensures r.None? <==> forall j :: 0 <= j < |appts| ==> !UpcomingOf(appts[j], patient, now)
    decreases |appts|
  {
    if appts == [] then None
    else
      var n := |appts| - 1;
      var front := appts[..n];
      assert forall j :: 0 <= j < n ==> front[j] == appts[j];
      var best := Upcoming(front, patient, now);
      if !UpcomingOf(appts[n], patient, now) then best
      else if best.None? then Some(n)
      else if Before(appts[n].at, appts[best.value].at) then
        BeforeIsStrictTotal(appts[n].at, appts[best.value].at);
        assert forall j :: 0 <= j < n && UpcomingOf(appts[j], patient, now) ==> !Before(appts[j].at, appts[n].at) by {
          forall j | 0 <= j < n && UpcomingOf(appts[j], patient, now)
            ensures !Before(appts[j].at, appts[n].at)
          {
            if Before(appts[j].at, appts[n].at) {
              BeforeTransitive(appts[j].at, appts[n].at, appts[best.value].at);
            }
          }
        }
        Some(n)
      else best
  }

  /** Rows cancel may act on: the patient's active ones, past or future. */
  predicate ActiveOf(a: Appointment, patient: int)
  {
    Active(a) && a.patient == patient
  }

  /**
   * `.filter(Patient_Id == p, active).order_by(Appointment_Date.desc()).first()`:
   * the latest such row, the first in table order among equals.
   */
  function Latest(appts: seq<Appointment>, patient: int): (r: Option<nat>)
    ensures r.Some? ==> r.value < |appts| && ActiveOf(appts[r.value], patient)
    ensures r.Some? ==> forall j :: 0 <= j < |appts| && ActiveOf(appts[j], patient) ==>
                          !Before(appts[r.value].at, appts[j].at)
    ensures r.Some? ==> forall j :: 0 <= j < r.value && ActiveOf(appts[j], patient) ==>
                          appts[j].at != appts[r.value].at
    ensures r.None? <==> forall j :: 0 <= j < |appts| ==> !ActiveOf(appts[j], patient)
    decreases |appts|
  {
    if appts == [] then None
    else
      var n := |appts| - 1;
      var front := appts[..n];
      assert forall j :: 0 <= j < n ==> front[j] == appts[j];
      var best := Latest(front, patient);
      if !ActiveOf(appts[n], patient) then best
      else if best.None? then Some(n)
      else if Before(appts[best.value].at, appts[n].at) then
        BeforeIsStrictTotal(appts[best.value].at, appts[n].at);
        assert forall j :: 0 <= j < n && ActiveOf(appts[j], patient) ==> !Before(appts[n].at, appts[j].at) by {
          forall j | 0 <= j < n && ActiveOf(appts[j], patient)
            ensures !Before(appts[n].at, appts[j].at)
          {
            if Before(appts[n].at, appts[j].at) {
              BeforeTransitive(appts[best.value].at, appts[n].at, appts[j].at);
            }
          }
        }
        Some(n)
      else best
  }

  /** Number of a patient's active appointments. */
  function ActiveCount(appts: seq<Appointment>, patient: int): (n: nat)
    ensures n <= |appts|
    ensures n == 0 <==> forall j :: 0 <= j < |appts| ==> !ActiveOf(appts[j], patient)
    decreases |appts|
  {
    if appts == [] then 0
    else
      var n := |appts| - 1;
      assert forall j :: 0 <= j < n ==> appts[..n][j] == appts[j];
      ActiveCount(appts[..n], patient) + (if ActiveOf(appts[n], patient) then 1 else 0)
  }

  /** Deactivating one of a patient's active rows lowers their active count by one. */
  lemma {:induction false} DeactivateCount(appts: seq<Appointment>, k: int, a: Appointment, patient: int)
    requires 0 <= k < |appts| && ActiveOf(appts[k], patient) && !Active(a)
    ensures ActiveCount(appts[k := a], patient) == ActiveCount(appts, patient) - 1
    decreases |appts|
  {
    var n := |appts| - 1;
    var t := appts[k := a];
    assert ActiveCount(t, patient) == ActiveCount(t[..n], patient) + (if ActiveOf(t[n], patient) then 1 else 0);
    assert ActiveCount(appts, patient) == ActiveCount(appts[..n], patient) + (if ActiveOf(appts[n], patient) then 1 else 0);
    if k == n {
      assert t[..n] == appts[..n];
    } else {
      assert t[..n] == appts[..n][k := a] && t[n] == appts[n];
      DeactivateCount(appts[..n], k, a, patient);
    }
  }

  // ---------------------------------------------------------------------
  // Free slots

  /** `booked_times`: an active row of that doctor on that day renders as `slot`. */
  predicate Booked(appts: seq<Appointment>, doctor: int, date: Instant, slot: string)
  {
    exists i :: 0 <= i < |appts| && Active(appts[i]) && appts[i].doctor == doctor &&
                SameDay(appts[i].at, date) && ValidInstant(appts[i].at) && FormatTime(appts[i].at) == slot
  }

  /** `[slot for slot in slots if slot not in booked_times]` */
  function FreeSlots(slots: seq<string>, appts: seq<Appointment>, doctor: int, date: Instant): (r: seq<string>)
    ensures forall s :: s in r <==> s in slots && !Booked(appts, doctor, date, s)
    ensures |r| <= |slots|
  {
    if slots == [] then []
    else
      (if Booked(appts, doctor, date, slots[0]) then [] else [slots[0]]) + FreeSlots(slots[1..], appts, doctor, date)
  }

  /** `a` is a subsequence of `b`: same elements, same relative order. */
  predicate Subsequence(a: seq<string>, b: seq<string>)
    decreases |b|
  {
    if a == [] then true
    else if b == [] then false
    else if a[0] == b[0] then Subsequence(a[1..], b[1..])
    else Subsequence(a, b[1..])
  }

  /** The free slots keep the order of the template. */
  lemma {:induction false} FreeSlotsInOrder(slots: seq<string>, appts: seq<Appointment>, doctor: int, date: Instant)
    ensures Subsequence(FreeSlots(slots, appts, doctor, date), slots)
    decreases |slots|
  {
    if slots != [] {
      FreeSlotsInOrder(slots[1..], appts, doctor, date);
      var r := FreeSlots(slots, appts, doctor, date);
      var rest := FreeSlots(slots[1..], appts, doctor, date);
      if Booked(appts, doctor, date, slots[0]) {
        assert r == rest;
        SubsequenceSkip(rest, slots);
      } else {
        assert r == [slots[0]] + rest && r[1..] == rest;
      }
    }
  }

  /** Prepending an element to the larger sequence keeps a subsequence. */
  lemma {:induction false} SubsequenceSkip(a: seq<string>, b: seq<string>)
    requires b != [] && Subsequence(a, b[1..])
    ensures Subsequence(a, b)
    decreases |a| + |b|
  {
    if a != [] && a[0] == b[0] {
      SubsequenceDrop(a, b[1..]);
    }
  }

  /** Dropping the head of a subsequence keeps it a subsequence. */
  lemma {:induction false} SubsequenceDrop(a: seq<string>, b: seq<string>)
    requires a != [] && Subsequence(a, b)
    ensures Subsequence(a[1..], b)
    decreases |a| + |b|
  {
    if a[0] == b[0] {
      if a[1..] != [] {
        SubsequenceSkip(a[1..], b);
      }
    } else {
      SubsequenceDrop(a, b[1..]);
      if a[1..] != [] {
        SubsequenceSkip(a[1..], b);
      }
    }
  }

  /** The `available_slots` of a non-Sunday day. */
  function AvailableSlots(appts: seq<Appointment>, doctor: int, date: Instant): seq<string>
  {
    FreeSlots(SlotTemplate(), appts, doctor, date)
  }

  /** A slot is offered exactly when it is on the template and no active row of the doctor that day renders as it. */
  lemma {:induction false} AvailableSlotsSpec(appts: seq<Appointment>, doctor: int, date: Instant)
    ensures forall s :: s in AvailableSlots(appts, doctor, date) <==> s in SlotTemplate() && !Booked(appts, doctor, date, s)
    ensures Subsequence(AvailableSlots(appts, doctor, date), SlotTemplate())
    ensures |AvailableSlots(appts, doctor, date)| <= 16
  {
    FreeSlotsInOrder(SlotTemplate(), appts, doctor, date);
  }

  /** A cancelled row never takes a slot away. */
  lemma {:induction false} CancelledRowFreesSlot(appts: seq<Appointment>, a: Appointment, doctor: int, date: Instant)
    requires !Active(a)
    ensures forall s :: Booked(appts + [a], doctor, date, s) <==> Booked(appts, doctor, date, s)
  {
    var t := appts + [a];
    forall s | Booked(t, doctor, date, s) ensures Booked(appts, doctor, date, s) {
      var i :| 0 <= i < |t| && Active(t[i]) && t[i].doctor == doctor && SameDay(t[i].at, date) &&
               ValidInstant(t[i].at) && FormatTime(t[i].at) == s;
      assert i < |appts| && t[i] == appts[i];
    }
    forall s | Booked(appts, doctor, date, s) ensures Booked(t, doctor, date, s) {
      var i :| 0 <= i < |appts| && Active(appts[i]) && appts[i].doctor == doctor && SameDay(appts[i].at, date) &&
               ValidInstant(appts[i].at) && FormatTime(appts[i].at) == s;
      assert t[i] == appts[i];
    }
  }

  /** Adding an active row of the doctor that day takes away exactly the slot it renders as. */
  lemma {:induction false} NewRowTakesItsSlot(appts: seq<Appointment>, a: Appointment, date: Instant)
    requires Active(a) && SameDay(a.at, date) && ValidInstant(a.at)
    ensures forall s :: Booked(appts + [a], a.doctor, date, s) <==> Booked(appts, a.doctor, date, s) || s == FormatTime(a.at)
  {
    var t := appts + [a];
    assert t[|appts|] == a;
    forall s | Booked(t, a.doctor, date, s) && s != FormatTime(a.at) ensures Booked(appts, a.doctor, date, s) {
      var i :| 0 <= i < |t| && Active(t[i]) && t[i].doctor == a.doctor && SameDay(t[i].at, date) &&
               ValidInstant(t[i].at) && FormatTime(t[i].at) == s;
      assert i < |appts| && t[i] == appts[i];
    }
    forall s | Booked(appts, a.doctor, date, s) ensures Booked(t, a.doctor, date, s) {
      var i :| 0 <= i < |appts| && Active(appts[i]) && appts[i].doctor == a.doctor && SameDay(appts[i].at, date) &&
               ValidInstant(appts[i].at) && FormatTime(appts[i].at) == s;
      assert t[i] == appts[i];
    }
  }

  /**
   * A booking on the half-hour grid removes exactly its own slot from the
   * doctor's day; one off the grid (09:15, say) removes none.
   */
  lemma {:induction false} BookingEffectOnSlots(appts: seq<Appointment>, a: Appointment, date: Instant)
    requires Active(a) && SameDay(a.at, date) && ValidInstant(a.at)
    ensures var onGrid := 9 <= a.at.hour < 17 && (a.at.minute == 0 || a.at.minute == 30);
            forall s :: s in AvailableSlots(appts + [a], a.doctor, date) <==>
                        s in AvailableSlots(appts, a.doctor, date) && (!onGrid || s != FormatTime(a.at))
  {
    NewRowTakesItsSlot(appts, a, date);
    AvailableSlotsSpec(appts, a.doctor, date);
    AvailableSlotsSpec(appts + [a], a.doctor, date);
    InTemplateIffOnGrid(a.at.hour, a.at.minute);
  }

  /** Rows of other doctors or other days never affect a doctor's slots. */
  lemma {:induction false} OtherRowKeepsSlots(appts: seq<Appointment>, a: Appointment, doctor: int, date: Instant)
    requires a.doctor != doctor || !SameDay(a.at, date)
    ensures AvailableSlots(appts + [a], doctor, date) == AvailableSlots(appts, doctor, date)
  {
    var t := appts + [a];
    forall s ensures Booked(t, doctor, date, s) <==> Booked(appts, doctor, date, s) {
      if Booked(t, doctor, date, s) {
        var i :| 0 <= i < |t| && Active(t[i]) && t[i].doctor == doctor && SameDay(t[i].at, date) &&
                 ValidInstant(t[i].at) && FormatTime(t[i].at) == s;
        assert i < |appts| && t[i] == appts[i];
      }
      if Booked(appts, doctor, date, s) {
        var i :| 0 <= i < |appts| && Active(appts[i]) && appts[i].doctor == doctor && SameDay(appts[i].at, date) &&
                 ValidInstant(appts[i].at) && FormatTime(appts[i].at) == s;
        assert t[i] == appts[i];
      }
    }
    SameBookedSameSlots(SlotTemplate(), t, appts, doctor, date);
  }

  lemma {:induction false} SameBookedSameSlots(slots: seq<string>, t: seq<Appointment>, u: seq<Appointment>, doctor: int, date: Instant)
    requires forall s :: Booked(t, doctor, date, s) <==> Booked(u, doctor, date, s)
    ensures FreeSlots(slots, t, doctor, date) == FreeSlots(slots, u, doctor, date)
    decreases |slots|
  {
    if slots != [] {
      SameBookedSameSlots(slots[1..], t, u, doctor, date);
    }
  }
}
