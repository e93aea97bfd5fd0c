/**
 * Minute-precision instants in the proleptic Gregorian calendar, Python's
 * `weekday()`, the `"%H:%M"` rendering used for slots, and the clinic's
 * half-hour day template built by `generate_slots`.
 */
module Calendar {
  import opened Text

  /** A naive `datetime` with seconds and microseconds equal to zero. */
  datatype Instant = Instant(year: int, month: int, day: int, hour: int, minute: int)

  /**
   * `datetime.now()`: the minute it falls in plus the microseconds elapsed
   * inside that minute (seconds included).
   */
  datatype Now = Now(at: Instant, micros: nat)

  predicate IsLeap(y: int)
  {
    y % 4 == 0 && (y % 100 != 0 || y % 400 == 0)
  }

  function DaysInMonth(y: int, m: int): (n: int)
    requires 1 <= m <= 12
    ensures 28 <= n <= 31
  {
    if m == 2 then (if IsLeap(y) then 29 else 28)
    else if m == 4 || m == 6 || m == 9 || m == 11 then 30
    else 31
  }

  /** The range `datetime.date` accepts. */
  predicate ValidDate(y: int, m: int, d: int)
  {
    1 <= y <= 9999 && 1 <= m <= 12 && 1 <= d <= DaysInMonth(y, m)
  }

  predicate ValidInstant(t: Instant)
  {
    ValidDate(t.year, t.month, t.day) && 0 <= t.hour < 24 && 0 <= t.minute < 60
  }

  function DaysBeforeYear(y: int): int
    requires y >= 1
  {
    var p := y - 1;
    365 * p + p / 4 - p / 100 + p / 400
  }

  function DaysBeforeMonth(y: int, m: int): int
    requires 1 <= m <= 12
  {
    var cumulative := [0, 31, 59, 90, 120, 151, 181, 212, 243, 273, 304, 334];
    cumulative[m - 1] + (if m > 2 && IsLeap(y) then 1 else 0)
  }

  /** `date(y, m, d).toordinal()`: 0001-01-01 is day 1. */
  function Ordinal(y: int, m: int, d: int): int
    requires y >= 1 && 1 <= m <= 12
  {
    DaysBeforeYear(y) + DaysBeforeMonth(y, m) + d
  }

  /** `date(y, m, d).weekday()`: Monday is 0 and Sunday is 6. */
  function Weekday(y: int, m: int, d: int): (w: int)
    requires y >= 1 && 1 <= m <= 12
    ensures 0 <= w < 7
  {
    (Ordinal(y, m, d) + 6) % 7
  }

  /** The clinic's closed day: `weekday() == 6`. */
  predicate IsSunday(t: Instant)
    requires ValidInstant(t)
  {
    Weekday(t.year, t.month, t.day) == 6
  }

  /** 9999-12-31, the last day `datetime` can represent: it has no next day. */
  predicate IsLastDay(t: Instant)
  {
    t.year == 9999 && t.month == 12 && t.day == 31
  }

  /** The calendar day after `(y, m, d)`. */
  function NextDay(y: int, m: int, d: int): (r: (int, int, int))
    requires ValidDate(y, m, d) && (y, m, d) != (9999, 12, 31)
    ensures ValidDate(r.0, r.1, r.2)
  {
    if d < DaysInMonth(y, m) then (y, m, d + 1)
    else if m < 12 then (y, m + 1, 1)
    else (y + 1, 1, 1)
  }

  /** Every fourth-centennial year is a centennial year, and every centennial year a fourth year. */
  lemma LeapDivisors(y: int)
    ensures y % 400 == 0 ==> y % 100 == 0
    ensures y % 100 == 0 ==> y % 4 == 0
  {
    if y % 400 == 0 {
      var q := y / 400;
      assert y == 100 * (4 * q) + 0;
      assert y / 100 == 4 * q;
    }
    if y % 100 == 0 {
      var q := y / 100;
      assert y == 4 * (25 * q) + 0;
      assert y / 4 == 25 * q;
    }
  }

  lemma YearLength(y: int)
    requires y >= 1
    ensures DaysBeforeYear(y + 1) == DaysBeforeYear(y) + (if IsLeap(y) then 366 else 365)
  {
    var p := y - 1;
    assert y / 4 == p / 4 + (if y % 4 == 0 then 1 else 0);
    assert y / 100 == p / 100 + (if y % 100 == 0 then 1 else 0);
    assert y / 400 == p / 400 + (if y % 400 == 0 then 1 else 0);
    LeapDivisors(y);
  }

  /** Consecutive days have consecutive ordinals, so weekdays advance by one. */
  lemma NextDayWeekday(y: int, m: int, d: int)
    requires ValidDate(y, m, d) && (y, m, d) != (9999, 12, 31)
    ensures var n := NextDay(y, m, d);
      Ordinal(n.0, n.1, n.2) == Ordinal(y, m, d) + 1 &&
      Weekday(n.0, n.1, n.2) == (Weekday(y, m, d) + 1) % 7
  {
    OrdinalOfNextDay(y, m, d);
    ModSucc(Ordinal(y, m, d) + 6);
  }

  lemma ModSucc(x: int)
    ensures (x + 1) % 7 == (x % 7 + 1) % 7
  {
  }

  lemma OrdinalOfNextDay(y: int, m: int, d: int)
    requires ValidDate(y, m, d) && (y, m, d) != (9999, 12, 31)
    ensures var n := NextDay(y, m, d); Ordinal(n.0, n.1, n.2) == Ordinal(y, m, d) + 1
  {
    if d == DaysInMonth(y, m) {
      if m == 12 {
        YearLength(y);
      } else {
        assert DaysBeforeMonth(y, m + 1) == DaysBeforeMonth(y, m) + DaysInMonth(y, m);
      }
    }
  }

  /** Day one of the proleptic calendar was a Monday, as in Python. */
  lemma FirstDayIsMonday()
    ensures Weekday(1, 1, 1) == 0
  {
  }

  /** Example dates used by the clinic's scenarios. */
  lemma ExampleWeekdays()
    ensures Weekday(2025, 6, 2) == 0 && Weekday(2025, 6, 8) == 6
  {
  }

  /** The last representable day is a Friday, so it is not refused as a Sunday. */
  lemma LastDayIsFriday()
    ensures Weekday(9999, 12, 31) == 4
  {
  }

  /** Chronological order of instants (lexicographic on the fields). */
  predicate Before(a: Instant, b: Instant)
  {
    a.year < b.year || (a.year == b.year &&
    (a.month < b.month || (a.month == b.month &&
    (a.day < b.day || (a.day == b.day &&
    (a.hour < b.hour || (a.hour == b.hour && a.minute < b.minute)))))))
  }

  /** `appointment_date >= datetime.now()` */
  predicate NotBefore(t: Instant, now: Now)
  {
    Before(now.at, t) || (t == now.at && now.micros == 0)
  }

  lemma BeforeIsStrictTotal(a: Instant, b: Instant)
    ensures !(Before(a, b) && Before(b, a))
    ensures a != b ==> Before(a, b) || Before(b, a)
  {
  }

  lemma BeforeTransitive(a: Instant, b: Instant, c: Instant)
    requires Before(a, b) && Before(b, c)
    ensures Before(a, c)
  {
  }

  /** `t` falls on the calendar day of `date` (the window `[date, date + 1 day)`). */
  predicate SameDay(t: Instant, date: Instant)
  {
    t.year == date.year && t.month == date.month && t.day == date.day
  }

  /** Two decimal digits, as `%H`, `%M`, `%m` and `%d` render. */
  function Pad2(n: int): (s: string)
    requires 0 <= n < 100
    ensures |s| == 2 && AllDigits(s)
    ensures DigitsValue(s) == n
  {
    var s := [DigitChar(n / 10), DigitChar(n % 10)];
    assert s[..1] == [DigitChar(n / 10)] && s[..1][..0] == [];
    assert DigitsValue(s[..1]) == n / 10;
    s
  }

  /** Four decimal digits, as `%Y` renders. */
  function Pad4(n: int): (s: string)
    requires 0 <= n < 10000
    ensures |s| == 4 && AllDigits(s)
    ensures DigitsValue(s) == n
  {
    var hi, lo := Pad2(n / 100), Pad2(n % 100);
    var s := hi + lo;
    assert s[..3][..2] == hi && s[..3][2] == lo[0] && s[3] == lo[1];
    assert lo[0] == DigitChar((n % 100) / 10) && lo[1] == DigitChar((n % 100) % 10);
    assert DigitsValue(s[..3]) == 10 * (n / 100) + (n % 100) / 10;
    assert DigitsValue(s) == 10 * DigitsValue(s[..3]) + (n % 100) % 10;
    s
  }

  lemma Pad2Injective(a: int, b: int)
    requires 0 <= a < 100 && 0 <= b < 100
    requires Pad2(a) == Pad2(b)
    ensures a == b
  {
  }

  /** `"%H:%M"` of an hour and minute. */
  function TimeText(h: int, m: int): (s: string)
    requires 0 <= h < 100 && 0 <= m < 100
    ensures |s| == 5 && s[2] == ':'
  {
    Pad2(h) + ":" + Pad2(m)
  }

  /** `t.strftime("%H:%M")` */
  function FormatTime(t: Instant): string
    requires ValidInstant(t)
  {
    TimeText(t.hour, t.minute)
  }

  /** `"%Y-%m-%d"` of a year, month and day. */
  function DateText(y: int, m: int, d: int): (s: string)
    requires 0 <= y < 10000 && 0 <= m < 100 && 0 <= d < 100
    ensures |s| == 10
  {
    Pad4(y) + "-" + Pad2(m) + "-" + Pad2(d)
  }

  /** `t.strftime("%Y-%m-%d")` */
  function FormatDate(t: Instant): (s: string)
    requires ValidInstant(t)
    ensures |s| == 10
  {
    DateText(t.year, t.month, t.day)
  }

  /** Distinct hours and minutes render to distinct slot strings. */
  lemma TimeTextInjective(h1: int, m1: int, h2: int, m2: int)
    requires 0 <= h1 < 100 && 0 <= m1 < 100 && 0 <= h2 < 100 && 0 <= m2 < 100
    requires TimeText(h1, m1) == TimeText(h2, m2)
    ensures h1 == h2 && m1 == m2
  {
    assert TimeText(h1, m1)[..2] == Pad2(h1) && TimeText(h2, m2)[..2] == Pad2(h2);
    assert TimeText(h1, m1)[3..] == Pad2(m1) && TimeText(h2, m2)[3..] == Pad2(m2);
    Pad2Injective(h1, h2);
    Pad2Injective(m1, m2);
  }

  /** Slot `k` of the day template starts `30 * k` minutes after 09:00. */
  function SlotHour(k: int): int { 9 + k / 2 }
  function SlotMinute(k: int): int { 30 * (k % 2) }

  /** The list `generate_slots` returns for every valid date. */
  function SlotTemplate(): (slots: seq<string>)
    ensures |slots| == 16
    ensures forall k :: 0 <= k < 16 ==> slots[k] == TimeText(SlotHour(k), SlotMinute(k))
  {
    seq(16, k requires 0 <= k < 16 => TimeText(SlotHour(k), SlotMinute(k)))
  }

  /** Sixteen half-hour slots from 09:00 to 16:30, strictly ascending and distinct. */
  lemma SlotTemplateShape()
    ensures |SlotTemplate()| == 16
    ensures SlotTemplate()[0] == "09:00" && SlotTemplate()[15] == "16:30"
    ensures forall k :: 0 <= k < 15 ==>
      SlotHour(k + 1) * 60 + SlotMinute(k + 1) == SlotHour(k) * 60 + SlotMinute(k) + 30
    ensures forall j, k :: 0 <= j < k < 16 ==> SlotTemplate()[j] != SlotTemplate()[k]
  {
    var t := SlotTemplate();
    assert t[0] == TimeText(9, 0);
    assert t[15] == TimeText(16, 30);
    forall j, k | 0 <= j < k < 16 ensures t[j] != t[k] {
      if t[j] == t[k] {
        TimeTextInjective(SlotHour(j), SlotMinute(j), SlotHour(k), SlotMinute(k));
      }
    }
  }

  lemma SlotOnGrid(k: int)
    requires 0 <= k < 16
    ensures 9 <= SlotHour(k) < 17 && (SlotMinute(k) == 0 || SlotMinute(k) == 30)
  {
  }

  /** A time of day is in the template exactly when it lies on the 09:00-17:00 half-hour grid. */
  lemma InTemplateIffOnGrid(h: int, m: int)
    requires 0 <= h < 24 && 0 <= m < 60
    ensures TimeText(h, m) in SlotTemplate() <==> 9 <= h < 17 && (m == 0 || m == 30)
  {
    var t := SlotTemplate();
    if TimeText(h, m) in t {
      var k :| 0 <= k < 16 && t[k] == TimeText(h, m);
      SlotOnGrid(k);
      TimeTextInjective(h, m, SlotHour(k), SlotMinute(k));
    }
    if 9 <= h < 17 && (m == 0 || m == 30) {
      var k := 2 * (h - 9) + (if m == 0 then 0 else 1);
      assert SlotHour(k) == h && SlotMinute(k) == m;
      assert t[k] == TimeText(h, m);
    }
  }

  /** Minutes since 0001-01-01 00:00. */
  function AbsMinutes(t: Instant): int
    requires ValidInstant(t)
  {
    Ordinal(t.year, t.month, t.day) * 1440 + t.hour * 60 + t.minute
  }

  /** `t + timedelta(minutes=30)`: the valid instant exactly thirty minutes later. */
  function PlusHalfHour(t: Instant): (r: Instant)
    requires ValidInstant(t) && !(t.year == 9999 && t.month == 12 && t.day == 31 && t.hour == 23 && t.minute >= 30)
    ensures ValidInstant(r)
    ensures AbsMinutes(r) == AbsMinutes(t) + 30
  {
    if t.minute < 30 then t.(minute := t.minute + 30)
    else if t.hour < 23 then t.(hour := t.hour + 1, minute := t.minute - 30)
    else
      var n := NextDay(t.year, t.month, t.day);
      OrdinalOfNextDay(t.year, t.month, t.day);
      Instant(n.0, n.1, n.2, 0, t.minute - 30)
  }

  /**
   * `generate_slots(date_str)`: starting at 09:00 of the given day, append
   * `"%H:%M"` and step half an hour while before 17:00.
   */
  method GenerateSlots(date: Instant) returns (slots: seq<string>)
    requires ValidInstant(date)
    ensures slots == SlotTemplate()
  {
    slots := [];
    var current := date.(hour := 9, minute := 0);
    var endTime := date.(hour := 17, minute := 0);
    while Before(current, endTime)
      invariant |slots| <= 16
      invariant current == date.(hour := SlotHour(|slots|), minute := SlotMinute(|slots|))
      invariant slots == SlotTemplate()[..|slots|]
      decreases 16 - |slots|
    {
      SlotStep(date, |slots|);
      slots := slots + [FormatTime(current)];
      current := PlusHalfHour(current);
    }
    SlotStep(date, |slots|);
  }

  /** The loop of `generate_slots` at its `k`-th slot: still before 17:00 exactly when `k < 16`, and half an hour on is slot `k + 1`. */
  lemma {:induction false} SlotStep(date: Instant, k: int)
    requires ValidInstant(date) && 0 <= k <= 16
    ensures var cur := date.(hour := SlotHour(k), minute := SlotMinute(k));
            ValidInstant(cur) && (Before(cur, date.(hour := 17, minute := 0)) <==> k < 16) &&
            (k < 16 ==> FormatTime(cur) == SlotTemplate()[k] &&
                        PlusHalfHour(cur) == date.(hour := SlotHour(k + 1), minute := SlotMinute(k + 1)))
  {
    if k % 2 == 0 {
      assert SlotMinute(k) == 0 && SlotHour(k + 1) == SlotHour(k) && SlotMinute(k + 1) == 30;
    } else {
      assert SlotMinute(k) == 30 && SlotHour(k + 1) == SlotHour(k) + 1 && SlotMinute(k + 1) == 0;
    }
  }
}
