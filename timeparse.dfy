/**
 * `parse_datetime` and the date-only `strptime(date, "%Y-%m-%d")`.
 *
 * CPython's `_strptime` turns `"%Y-%m-%d %H:%M"` into the anchored regex
 * `(\d\d\d\d)-(1[0-2]|0[1-9]|[1-9])-(3[01]|[12]\d|0[1-9]|[1-9]| [1-9])\s+(2[0-3]|[0-1]\d|\d):([0-5]\d|\d)`
 * (case-insensitive), takes the first match and rejects the input when the
 * match stops short of its end ("unconverted data remains") or the date does
 * not exist. Every numeric field except the year is followed by a
 * non-digit separator or by the end of the input, so a field matches exactly
 * when it is the whole run of digits at that point, one or two digits long,
 * with a value in the field's range; `Field` states that rule once.
 */
module TimeParse {
  import opened Wrappers
  import opened Text
  import opened Calendar

  /** Length of the run of ASCII digits starting at `p`. */
  function DigitRun(s: string, p: nat): (k: nat)
    requires p <= |s|
    ensures p + k <= |s|
    ensures AllDigits(s[p..p + k])
    ensures p + k < |s| ==> !IsDigit(s[p + k])
    decreases |s| - p
  {
    if p < |s| && IsDigit(s[p]) then
      var k := 1 + DigitRun(s, p + 1);
      assert s[p..p + k] == [s[p]] + s[p + 1..p + k];
      k
    else 0
  }

  /** A numeric field of one or two digits with value in `lo..hi`: its value and the position after it. */
  function Field(s: string, p: nat, lo: int, hi: int): (r: Option<(int, nat)>)
    requires p <= |s|
    ensures r.Some? ==> lo <= r.value.0 <= hi && p < r.value.1 <= p + 2 && r.value.1 <= |s|
    ensures r.Some? ==> r.value.1 == |s| || !IsDigit(s[r.value.1])
    ensures r.Some? ==> AllDigits(s[p..r.value.1]) && r.value.0 == DigitsValue(s[p..r.value.1])
  {
    var k := DigitRun(s, p);
    if 1 <= k <= 2 && lo <= DigitsValue(s[p..p + k]) <= hi then Some((DigitsValue(s[p..p + k]), p + k))
    else None
  }

  /** `%d`, which also accepts a space followed by one non-zero digit. */
  function DayField(s: string, p: nat): (r: Option<(int, nat)>)
    requires p <= |s|
    ensures r.Some? ==> 1 <= r.value.0 <= 31 && p < r.value.1 <= |s|
  {
    if p < |s| && s[p] == ' ' then
      if p + 1 < |s| && '1' <= s[p + 1] <= '9' then Some((DigitValue(s[p + 1]), p + 2)) else None
    else Field(s, p, 1, 31)
  }

  /** First position at or after `p` that is not whitespace (the end of a greedy `\s+`). */
  function SkipSpace(s: string, p: nat): (q: nat)
    requires p <= |s|
    ensures p <= q <= |s|
    ensures q < |s| ==> !IsSpace(s[q])
    ensures forall i :: p <= i < q ==> IsSpace(s[i])
    decreases |s| - p
  {
    if p < |s| && IsSpace(s[p]) then SkipSpace(s, p + 1) else p
  }

  /** `%Y-%m-%d` at the start of `s`: year, month, day and the position after the day. */
  function DatePrefix(s: string): (r: Option<(int, int, int, nat)>)
    ensures r.Some? ==> 0 <= r.value.0 && 1 <= r.value.1 <= 12 && 1 <= r.value.2 <= 31
    ensures r.Some? ==> r.value.3 <= |s|
  {
    if |s| < 5 || !AllDigits(s[..4]) || s[4] != '-' then None
    else
      match Field(s, 5, 1, 12)
      case None => None
      case Some((m, p)) =>
        if p >= |s| || s[p] != '-' then None
        else
          match DayField(s, p + 1)
          case None => None
          case Some((d, q)) => Some((DigitsValue(s[..4]), m, d, q))
  }

  /** `datetime.strptime(s, "%Y-%m-%d %H:%M")` */
  function Parse24(s: string): (r: Option<Instant>)
    ensures r.Some? ==> ValidInstant(r.value)
  {
    match DatePrefix(s)
    case None => None
    case Some((y, m, d, q)) =>
      if q >= |s| || !IsSpace(s[q]) then None
      else Clock24(s, SkipSpace(s, q), y, m, d)
  }

  /** `%H:%M` from position `hp` to the end, on the date already read. */
  function Clock24(s: string, hp: nat, y: int, m: int, d: int): (r: Option<Instant>)
    requires hp <= |s|
    ensures r.Some? ==> ValidInstant(r.value)
  {
    match Field(s, hp, 0, 23)
    case None => None
    case Some((h, c)) =>
      if c >= |s| || s[c] != ':' then None
      else
        match Field(s, c + 1, 0, 59)
        case None => None
        case Some((mi, e)) =>
          if e == |s| && ValidDate(y, m, d) then Some(Instant(y, m, d, h, mi)) else None
  }

  /** The 24-hour clock hour that `%I` with `%p` denotes. */
  function Hour24(i: int, pm: bool): (h: int)
    requires 1 <= i <= 12
    ensures 0 <= h < 24
  {
    if !pm then (if i == 12 then 0 else i) else (if i == 12 then 12 else i + 12)
  }

  /** `datetime.strptime(s, "%Y-%m-%d %I:%M %p")` */
  function Parse12(s: string): (r: Option<Instant>)
    ensures r.Some? ==> ValidInstant(r.value)
  {
    match DatePrefix(s)
    case None => None
    case Some((y, m, d, q)) =>
      if q >= |s| || !IsSpace(s[q]) then None
      else Clock12(s, SkipSpace(s, q), y, m, d)
  }

  /** `%I:%M %p` from position `hp` to the end, on the date already read. */
  function Clock12(s: string, hp: nat, y: int, m: int, d: int): (r: Option<Instant>)
    requires hp <= |s|
    ensures r.Some? ==> ValidInstant(r.value)
  {
    match Field(s, hp, 1, 12)
    case None => None
    case Some((i, c)) =>
      if c >= |s| || s[c] != ':' then None
      else Minutes12(s, c + 1, y, m, d, i)
  }

  /** The `%M %p` part of `Clock12`, from position `mp`, once the `%I` hour `i` has been read. */
  function Minutes12(s: string, mp: nat, y: int, m: int, d: int, i: int): (r: Option<Instant>)
    requires mp <= |s| && 1 <= i <= 12
    ensures r.Some? ==> ValidInstant(r.value)
  {
    match Field(s, mp, 0, 59)
    case None => None
    case Some((mi, e)) =>
      if e >= |s| || !IsSpace(s[e]) then None
      else WithMeridiem(s[SkipSpace(s, e)..], y, m, d, i, mi)
  }

  /** The instant a `%p` word turns the date, `%I` and `%M` into, if the word is AM or PM and the date exists. */
  function WithMeridiem(x: string, y: int, m: int, d: int, i: int, mi: int): (r: Option<Instant>)
    requires 1 <= i <= 12 && 0 <= mi <= 59
    ensures r.Some? ==> ValidInstant(r.value)
  {
    match Meridiem(x)
    case None => None
    case Some(pm) =>
      if ValidDate(y, m, d) then Some(Instant(y, m, d, Hour24(i, pm), mi)) else None
  }

  /** `%p` on the rest of the input, case-insensitively: whether it says PM, or `None` when it is neither AM nor PM. */
  function Meridiem(x: string): (r: Option<bool>)
  {
    if |x| == 2 && LowerChar(x[1]) == 'm' && (LowerChar(x[0]) == 'a' || LowerChar(x[0]) == 'p') then
      Some(LowerChar(x[0]) == 'p')
    else None
  }

  /** `Meridiem` accepts exactly the two words, in any case. */
  lemma {:induction false} MeridiemSpec(x: string)
    ensures Meridiem(x).Some? <==> Lower(x) == "am" || Lower(x) == "pm"
    ensures Meridiem(x) == Some(true) <==> Lower(x) == "pm"
  {
    var ap := Lower(x);
    if |x| == 2 {
      assert ap[0] == LowerChar(x[0]) && ap[1] == LowerChar(x[1]);
      assert ap == [ap[0], ap[1]];
    }
  }

  /**
   * `parse_datetime(date_str, time_str)`: strip `"{date} {time}"`, try the
   * 24-hour format, then the 12-hour one; `None` is the `HTTPException(400)`.
   */
  function ParseDateTime(date: string, time: string): (r: Option<Instant>)
    ensures r.Some? ==> ValidInstant(r.value)
  {
    var s := Strip(date + " " + time);
    match Parse24(s)
    case Some(t) => Some(t)
    case None => Parse12(s)
  }

  /** `datetime.strptime(date, "%Y-%m-%d")`: midnight of that day. */
  function ParseDate(s: string): (r: Option<Instant>)
    ensures r.Some? ==> ValidInstant(r.value) && r.value.hour == 0 && r.value.minute == 0
  {
    match DatePrefix(s)
    case None => None
    case Some((y, m, d, q)) =>
      if q == |s| && ValidDate(y, m, d) then Some(Instant(y, m, d, 0, 0)) else None
  }

  // ---------------------------------------------------------------------
  // Round trips

  lemma {:induction false} DigitRunIs(s: string, p: nat, k: nat)
    requires p + k <= |s| && AllDigits(s[p..p + k])
    requires p + k == |s| || !IsDigit(s[p + k])
    ensures DigitRun(s, p) == k
    decreases k
  {
    if k > 0 {
      assert IsDigit(s[p..p + k][0]);
      assert s[p + 1..p + k] == s[p..p + k][1..];
      DigitRunIs(s, p + 1, k - 1);
    }
  }

  /** A two-digit rendering embedded in `s` reads back as its value. */
  lemma {:induction false} FieldOfPad2(s: string, p: nat, n: int, lo: int, hi: int)
    requires 0 <= n < 100 && lo <= n <= hi
    requires p + 2 <= |s| && s[p..p + 2] == Pad2(n)
    requires p + 2 == |s| || !IsDigit(s[p + 2])
    ensures Field(s, p, lo, hi) == Some((n, p + 2))
  {
    DigitRunIs(s, p, 2);
  }

  lemma DigitIsNotSpace(c: char)
    requires IsDigit(c)
    ensures !IsSpace(c)
  {
  }

  /** The date part of a rendered date reads back, whether or not the date exists. */
  lemma {:induction false} DatePrefixOfText(y: int, m: int, d: int, rest: string)
    requires 0 <= y < 10000 && 1 <= m <= 12 && 1 <= d <= 31
    requires rest == [] || !IsDigit(rest[0])
    ensures DatePrefix(DateText(y, m, d) + rest) == Some((y, m, d, 10))
  {
    var s := DateText(y, m, d) + rest;
    var ys, ms, ds := Pad4(y), Pad2(m), Pad2(d);
    assert s == ys + "-" + ms + "-" + ds + rest;
    assert s[..4] == ys;
    assert s[5..7] == ms;
    assert s[8..10] == ds;
    FieldOfPad2(s, 5, m, 1, 12);
    assert s[7] == '-';
    assert s[8] != ' ';
    FieldOfPad2(s, 8, d, 1, 31);
  }

  /** `parse_datetime` reads back what `"%Y-%m-%d"` and `"%H:%M"` render. */
  lemma {:induction false} ParseFormat24(t: Instant)
    requires ValidInstant(t)
    ensures ParseDateTime(FormatDate(t), FormatTime(t)) == Some(t)
  {
    ParseText24(t.year, t.month, t.day, t.hour, t.minute);
  }

  /** A rendered date and 24-hour time read back as that instant. */
  lemma {:induction false} ParseText24(y: int, m: int, d: int, h: int, mi: int)
    requires ValidDate(y, m, d) && 0 <= h < 24 && 0 <= mi < 60
    ensures ParseDateTime(DateText(y, m, d), TimeText(h, mi)) == Some(Instant(y, m, d, h, mi))
  {
    var s := DateText(y, m, d) + " " + TimeText(h, mi);
    Text24(y, m, d, h, mi);
    Parse24OfLayout(s, y, m, d, h, mi);
  }

  /** `"%Y-%m-%d %H:%M"` on `"<date> HH:MM"`, knowing only where each part sits. */
  lemma {:induction false} Parse24OfLayout(s: string, y: int, m: int, d: int, h: int, mi: int)
    requires 0 <= h < 24 && 0 <= mi < 60 && ValidDate(y, m, d)
    requires |s| == 16 && s[10] == ' ' && s[11..13] == Pad2(h) && s[13] == ':' && s[14..16] == Pad2(mi)
    requires DatePrefix(s) == Some((y, m, d, 10))
    ensures Parse24(s) == Some(Instant(y, m, d, h, mi))
  {
    assert SkipSpace(s, 10) == 11 by {
      DigitIsNotSpace(s[11]);
      assert SkipSpace(s, 11) == 11;
    }
    assert Field(s, 11, 0, 23) == Some((h, 13)) by { FieldOfPad2(s, 11, h, 0, 23); }
    assert Field(s, 14, 0, 59) == Some((mi, 16)) by { FieldOfPad2(s, 14, mi, 0, 59); }
    Parse24Of(s, y, m, d, 10, h, 13, mi);
  }

  /** The `%I` rendering of a 24-hour clock hour. */
  function Hour12(h: int): (i: int)
    requires 0 <= h < 24
    ensures 1 <= i <= 12 && Hour24(i, h >= 12) == h
  {
    if h == 0 then 12 else if h <= 12 then h else h - 12
  }

  /** `t.strftime("%I:%M %p")` in the C locale. */
  function FormatTime12(t: Instant): string
    requires ValidInstant(t)
  {
    Pad2(Hour12(t.hour)) + ":" + Pad2(t.minute) + " " + (if t.hour < 12 then "AM" else "PM")
  }

  /** `parse_datetime` reads back what `"%Y-%m-%d"` and `"%I:%M %p"` render. */
  lemma {:induction false} ParseFormat12(t: Instant)
    requires ValidInstant(t)
    ensures ParseDateTime(FormatDate(t), FormatTime12(t)) == Some(t)
  {
    Parse12OfText(t, Hour12(t.hour), t.minute, t.hour >= 12);
  }

  /** A 12-hour time after a rendered date reads back as the matching 24-hour instant. */
  lemma {:induction false} Parse12OfText(t: Instant, i: int, mi: int, pm: bool)
    requires ValidInstant(t) && 1 <= i <= 12 && 0 <= mi < 60
    ensures ParseDateTime(FormatDate(t), Pad2(i) + ":" + Pad2(mi) + " " + (if pm then "PM" else "AM"))
         == Some(t.(hour := Hour24(i, pm), minute := mi))
  {
    var ii, mm := Pad2(i), Pad2(mi);
    var ap := if pm then "PM" else "AM";
    var rest := " " + ii + ":" + mm + " " + ap;
    var s := FormatDate(t) + rest;
    assert FormatDate(t) + " " + (ii + ":" + mm + " " + ap) == s;
    Layout12(s, FormatDate(t), ii, mm, ap);
    assert Strip(s) == s by {
      assert s[0] == Pad4(t.year)[0];
      StripUnchanged(s);
    }
    assert DatePrefix(s) == Some((t.year, t.month, t.day, 10)) by {
      DatePrefixOfText(t.year, t.month, t.day, rest);
    }
    Parse12OfLayout(s, t.year, t.month, t.day, i, mi, pm);
  }

  /** Both formats on `"<date> II:MM AM"`, knowing only where each part sits. */
  lemma {:induction false} Parse12OfLayout(s: string, y: int, m: int, d: int, i: int, mi: int, pm: bool)
    requires 1 <= i <= 12 && 0 <= mi < 60 && ValidDate(y, m, d)
    requires |s| == 19 && s[10] == ' ' && s[11..13] == Pad2(i) && s[13] == ':' && s[14..16] == Pad2(mi)
    requires s[16] == ' ' && s[17..] == (if pm then "PM" else "AM")
    requires DatePrefix(s) == Some((y, m, d, 10))
    ensures Parse24(s) == None
    ensures Parse12(s) == Some(Instant(y, m, d, Hour24(i, pm), mi))
  {
    assert SkipSpace(s, 10) == 11 by {
      DigitIsNotSpace(s[11]);
      assert SkipSpace(s, 11) == 11;
    }
    DateThenClock(s, y, m, d, 10);
    Clock24On12(s, y, m, d, i, mi);
    Clock12On12(s, y, m, d, i, mi, pm);
  }

  /** The 24-hour clock part fails on `"HH:MM AM"`: text remains after the minutes. */
  lemma {:induction false} Clock24On12(s: string, y: int, m: int, d: int, i: int, mi: int)
    requires 1 <= i <= 12 && 0 <= mi < 60
    requires |s| == 19 && s[11..13] == Pad2(i) && s[13] == ':' && s[14..16] == Pad2(mi) && s[16] == ' '
    ensures Clock24(s, 11, y, m, d) == None
  {
    FieldOfPad2(s, 11, i, 0, 23);
    FieldOfPad2(s, 14, mi, 0, 59);
    Clock24Rejects(s, 11, y, m, d, 13, mi, 16);
  }

  /** The 12-hour clock part reads `"II:MM AM"` back. */
  lemma {:induction false} Clock12On12(s: string, y: int, m: int, d: int, i: int, mi: int, pm: bool)
    requires 1 <= i <= 12 && 0 <= mi < 60 && ValidDate(y, m, d)
    requires |s| == 19 && s[11..13] == Pad2(i) && s[13] == ':' && s[14..16] == Pad2(mi)
    requires s[16] == ' ' && s[17..] == (if pm then "PM" else "AM")
    ensures Clock12(s, 11, y, m, d) == Some(Instant(y, m, d, Hour24(i, pm), mi))
  {
    assert SkipSpace(s, 16) == 17 by {
      assert !IsSpace(s[17]);
      assert SkipSpace(s, 17) == 17;
    }
    FieldOfPad2(s, 11, i, 1, 12);
    FieldOfPad2(s, 14, mi, 0, 59);
    MeridiemOfText(s[17..], pm);
    Clock12Of(s, 11, y, m, d, i, 13, mi, 16, pm);
  }

  lemma {:induction false} MeridiemOfText(x: string, pm: bool)
    requires x == (if pm then "PM" else "AM")
    ensures Meridiem(x) == Some(pm)
  {
    assert |x| == 2 && x[0] == (if pm then 'P' else 'A') && x[1] == 'M';
  }

  lemma {:induction false} Layout12(s: string, date: string, ii: string, mm: string, ap: string)
    requires s == date + " " + ii + ":" + mm + " " + ap
    requires |date| == 10 && |ii| == 2 && |mm| == 2 && |ap| == 2
    ensures |s| == 19 && s[10] == ' ' && s[11..13] == ii && s[13] == ':' && s[14..16] == mm
    ensures s[16] == ' ' && s[17..] == ap
  {
  }

  /** Unfolding `Parse24` on an input whose fields are known. */
  lemma {:induction false} Parse24Of(s: string, y: int, m: int, d: int, q: nat, h: int, c: nat, mi: int)
    requires DatePrefix(s) == Some((y, m, d, q)) && q < |s| && IsSpace(s[q])
    requires Field(s, SkipSpace(s, q), 0, 23) == Some((h, c)) && c < |s| && s[c] == ':'
    requires Field(s, c + 1, 0, 59) == Some((mi, |s|)) && ValidDate(y, m, d)
    ensures Parse24(s) == Some(Instant(y, m, d, h, mi))
  {
    DateThenClock(s, y, m, d, q);
    Clock24Of(s, SkipSpace(s, q), y, m, d, h, c, mi);
  }

  lemma {:induction false} Clock24Of(s: string, hp: nat, y: int, m: int, d: int, h: int, c: nat, mi: int)
    requires hp <= |s| && Field(s, hp, 0, 23) == Some((h, c)) && c < |s| && s[c] == ':'
    requires Field(s, c + 1, 0, 59) == Some((mi, |s|)) && ValidDate(y, m, d)
    ensures Clock24(s, hp, y, m, d) == Some(Instant(y, m, d, h, mi))
  {
  }

  /** Once the date and the space after it are read, both formats go on to their clock part. */
  lemma {:induction false} DateThenClock(s: string, y: int, m: int, d: int, q: nat)
    requires DatePrefix(s) == Some((y, m, d, q)) && q < |s| && IsSpace(s[q])
    ensures Parse24(s) == Clock24(s, SkipSpace(s, q), y, m, d)
    ensures Parse12(s) == Clock12(s, SkipSpace(s, q), y, m, d)
  {
  }

  lemma {:induction false} Clock24Rejects(s: string, hp: nat, y: int, m: int, d: int, c: nat, mi: int, e: nat)
    requires hp <= |s| && c < |s| && s[c] == ':' && Field(s, c + 1, 0, 59) == Some((mi, e)) && e < |s|
    requires Field(s, hp, 0, 23).Some? ==> Field(s, hp, 0, 23).value.1 == c
    ensures Clock24(s, hp, y, m, d) == None
  {
  }

  lemma {:induction false} Clock12Of(s: string, hp: nat, y: int, m: int, d: int, i: int, c: nat, mi: int, e: nat, pm: bool)
    requires hp <= |s| && Field(s, hp, 1, 12) == Some((i, c)) && c < |s| && s[c] == ':'
    requires Field(s, c + 1, 0, 59) == Some((mi, e)) && e < |s| && IsSpace(s[e])
    requires Meridiem(s[SkipSpace(s, e)..]) == Some(pm) && ValidDate(y, m, d)
    ensures Clock12(s, hp, y, m, d) == Some(Instant(y, m, d, Hour24(i, pm), mi))
  {
    assert Clock12(s, hp, y, m, d) == Minutes12(s, c + 1, y, m, d, i);
    assert Minutes12(s, c + 1, y, m, d, i) == WithMeridiem(s[SkipSpace(s, e)..], y, m, d, i, mi);
  }

  /** `strptime(date, "%Y-%m-%d")` reads back a rendered date as its midnight. */
  lemma {:induction false} ParseDateOfFormat(t: Instant)
    requires ValidInstant(t)
    ensures ParseDate(FormatDate(t)) == Some(t.(hour := 0, minute := 0))
  {
    assert FormatDate(t) + [] == FormatDate(t);
    DatePrefixOfText(t.year, t.month, t.day, []);
  }

  lemma {:induction false} FieldOfDigit(s: string, p: nat, n: int, lo: int, hi: int)
    requires 0 <= n < 10 && lo <= n <= hi
    requires p + 1 <= |s| && s[p] == DigitChar(n)
    requires p + 1 == |s| || !IsDigit(s[p + 1])
    ensures Field(s, p, lo, hi) == Some((n, p + 1))
  {
    DigitRunIs(s, p, 1);
    var w := s[p..p + 1];
    assert w == [DigitChar(n)] && w[..|w| - 1] == [];
    assert DigitsValue(w) == 10 * DigitsValue([]) + DigitValue(DigitChar(n));
  }

  /** Single-digit month, day, hour and minute are accepted, as `strptime` allows. */
  lemma {:induction false} SingleDigitFieldsAccepted(y: int, m: int, d: int, h: int, mi: int)
    requires ValidDate(y, m, d) && m <= 9 && d <= 9 && 0 <= h <= 9 && 0 <= mi <= 9
    ensures ParseDateTime(Pad4(y) + "-" + [DigitChar(m)] + "-" + [DigitChar(d)], [DigitChar(h)] + ":" + [DigitChar(mi)])
         == Some(Instant(y, m, d, h, mi))
  {
    var s := Pad4(y) + "-" + [DigitChar(m)] + "-" + [DigitChar(d)] + " " + [DigitChar(h)] + ":" + [DigitChar(mi)];
    var date, time := Pad4(y) + "-" + [DigitChar(m)] + "-" + [DigitChar(d)], [DigitChar(h)] + ":" + [DigitChar(mi)];
    assert date + " " + time == s;
    assert |s| == 12 && s[..4] == Pad4(y) && s[4] == '-' && s[5] == DigitChar(m) && s[6] == '-';
    assert s[7] == DigitChar(d) && s[8] == ' ' && s[9] == DigitChar(h) && s[10] == ':' && s[11] == DigitChar(mi);
    assert Strip(s) == s by {
      assert s[0] == Pad4(y)[0];
      StripUnchanged(s);
    }
    ShortLayout(s, y, m, d, h, mi);
  }

  lemma {:induction false} ShortLayout(s: string, y: int, m: int, d: int, h: int, mi: int)
    requires ValidDate(y, m, d) && m <= 9 && d <= 9 && 0 <= h <= 9 && 0 <= mi <= 9
    requires |s| == 12 && s[..4] == Pad4(y) && s[4] == '-' && s[5] == DigitChar(m) && s[6] == '-'
    requires s[7] == DigitChar(d) && s[8] == ' ' && s[9] == DigitChar(h) && s[10] == ':' && s[11] == DigitChar(mi)
    ensures Parse24(s) == Some(Instant(y, m, d, h, mi))
  {
    assert Field(s, 5, 1, 12) == Some((m, 6)) by { FieldOfDigit(s, 5, m, 1, 12); }
    assert DayField(s, 7) == Some((d, 8)) by {
      assert s[7] != ' ';
      FieldOfDigit(s, 7, d, 1, 31);
    }
    assert DatePrefix(s) == Some((y, m, d, 8)) by {
      assert AllDigits(s[..4]) && DigitsValue(s[..4]) == y;
    }
    assert SkipSpace(s, 8) == 9 by {
      DigitIsNotSpace(s[9]);
      assert SkipSpace(s, 9) == 9;
    }
    assert Field(s, 9, 0, 23) == Some((h, 10)) by { FieldOfDigit(s, 9, h, 0, 23); }
    assert Field(s, 11, 0, 59) == Some((mi, 12)) by { FieldOfDigit(s, 11, mi, 0, 59); }
    Parse24Of(s, y, m, d, 8, h, 10, mi);
  }

  /** An hour of 24 or more is rejected by both formats. */
  lemma {:induction false} HourPastDayRejected(t: Instant, h: int)
    requires ValidInstant(t) && 24 <= h < 100
    ensures ParseDateTime(FormatDate(t), TimeText(h, t.minute)) == None
  {
    var s := DateText(t.year, t.month, t.day) + " " + TimeText(h, t.minute);
    Text24(t.year, t.month, t.day, h, t.minute);
    HourPastDayLayout(s, t.year, t.month, t.day, h);
  }

  /** Where each part of `"YYYY-MM-DD HH:MM"` sits, for any two-digit hour and minute. */
  lemma {:induction false} Text24(y: int, m: int, d: int, h: int, mi: int)
    requires 0 <= y < 10000 && 1 <= m <= 12 && 1 <= d <= 31 && 0 <= h < 100 && 0 <= mi < 100
    ensures var s := DateText(y, m, d) + " " + TimeText(h, mi);
            |s| == 16 && s[10] == ' ' && s[11..13] == Pad2(h) && s[13] == ':' && s[14..16] == Pad2(mi) &&
            Strip(s) == s && DatePrefix(s) == Some((y, m, d, 10))
  {
    var rest := " " + TimeText(h, mi);
    var s := DateText(y, m, d) + rest;
    Layout24(DateText(y, m, d), Pad2(h), Pad2(mi));
    assert Strip(s) == s by {
      assert s[0] == Pad4(y)[0];
      StripUnchanged(s);
    }
    DatePrefixOfText(y, m, d, rest);
  }

  lemma {:induction false} Layout24(date: string, hh: string, mm: string)
    requires |date| == 10 && |hh| == 2 && |mm| == 2
    ensures var s := date + " " + (hh + ":" + mm);
            s == date + (" " + (hh + ":" + mm)) &&
            |s| == 16 && s[10] == ' ' && s[11..13] == hh && s[13] == ':' && s[14..16] == mm && s[15] == mm[1]
  {
  }

  /** Both formats fail when the two digits after the date and a space render an hour past 23. */
  lemma {:induction false} HourPastDayLayout(s: string, y: int, m: int, d: int, h: int)
    requires DatePrefix(s) == Some((y, m, d, 10)) && 24 <= h < 100
    requires |s| == 16 && s[10] == ' ' && s[11..13] == Pad2(h) && s[13] == ':'
    ensures Parse24(s) == None && Parse12(s) == None
  {
    assert SkipSpace(s, 10) == 11 by {
      DigitIsNotSpace(s[11]);
      assert SkipSpace(s, 11) == 11;
    }
    FieldAbove(s, 11, h, 0, 23);
    FieldAbove(s, 11, h, 1, 12);
  }

  /** A two-digit rendering of a value above the field's range is not a field. */
  lemma {:induction false} FieldAbove(s: string, p: nat, n: int, lo: int, hi: int)
    requires 0 <= n < 100 && hi < n
    requires p + 2 <= |s| && s[p..p + 2] == Pad2(n)
    requires p + 2 == |s| || !IsDigit(s[p + 2])
    ensures Field(s, p, lo, hi) == None
  {
    DigitRunIs(s, p, 2);
  }

  /** A day past the end of its month (29 February of a common year, say) is rejected. */
  lemma {:induction false} NonexistentDateRejected(y: int, m: int, d: int, h: int, mi: int)
    requires 1 <= y <= 9999 && 1 <= m <= 12 && 1 <= d <= 31 && !ValidDate(y, m, d)
    requires 0 <= h < 24 && 0 <= mi < 60
    ensures ParseDateTime(DateText(y, m, d), TimeText(h, mi)) == None
  {
    var rest := " " + TimeText(h, mi);
    var s := DateText(y, m, d) + rest;
    assert DateText(y, m, d) + " " + TimeText(h, mi) == s;
    assert DatePrefix(Strip(s)) == Some((y, m, d, 10)) by {
      assert s[0] == Pad4(y)[0];
      StripUnchanged(s);
      DatePrefixOfText(y, m, d, rest);
    }
  }
}
