/**
 * Explicit-zone timestamps: what `timestamp` accepts, the instant it denotes and the text it stores.
 * Instants are milliseconds since 0000-01-01T00:00:00Z (the Unix epoch is a constant away).
 */
module Timestamps {
  import opened Collections
  import opened Text

  const DAY := 86_400_000

  datatype Date = Date(year: nat, month: nat, day: nat)

  predicate LeapYear(year: nat) {
    year % 4 == 0 && (year % 100 != 0 || year % 400 == 0)
  }

  /** Zero stands for the source's `undefined`: there is no such month. */
  function DaysInMonth(year: nat, month: nat): nat {
    if month == 2 then (if LeapYear(year) then 29 else 28)
    else if month in {4, 6, 9, 11} then 30
    else if 1 <= month <= 12 then 31
    else 0
  }

  predicate IsDate(d: Date) {
    1 <= d.day <= DaysInMonth(d.year, d.month)
  }

  // ---- The calendar, day by day -------------------------------------------------------------

  /** The day after `d`. */
  function NextDay(d: Date): Date {
    if d.day < DaysInMonth(d.year, d.month) then d.(day := d.day + 1)
    else if d.month < 12 then Date(d.year, d.month + 1, 1)
    else Date(d.year + 1, 1, 1)
  }

  /** The date `n` days after the first day of year 0. */
  function DateOf(n: nat): (d: Date)
    ensures IsDate(d)
  {
    if n == 0 then Date(0, 1, 1) else NextDay(DateOf(n - 1))
  }

  // ---- The day number a timestamp parser computes --------------------------------------------

  function YearLength(year: nat): nat { if LeapYear(year) then 366 else 365 }

  function YearStart(year: nat): nat {
    if year == 0 then 0 else YearStart(year - 1) + YearLength(year - 1)
  }

  function MonthStart(year: nat, month: nat): nat {
    if month <= 1 then 0 else MonthStart(year, month - 1) + DaysInMonth(year, month - 1)
  }

  function DayNumber(d: Date): nat
    requires IsDate(d)
  {
    YearStart(d.year) + MonthStart(d.year, d.month) + d.day - 1
  }

  lemma MonthsFillTheYear(year: nat)
    ensures MonthStart(year, 13) == YearLength(year)
  {
    var m := MonthStart(year, 5);
    assert MonthStart(year, 2) == 31 && MonthStart(year, 3) == 31 + DaysInMonth(year, 2);
    assert m == MonthStart(year, 4) + 30 == MonthStart(year, 3) + 61 == YearLength(year) - 245;
    var n := MonthStart(year, 9);
    assert MonthStart(year, 7) == MonthStart(year, 6) + 30 == m + 61;
    assert n == MonthStart(year, 8) + 31 == m + 123;
    assert MonthStart(year, 11) == MonthStart(year, 10) + 31 == n + 61;
    assert MonthStart(year, 13) == MonthStart(year, 12) + 31 == n + 122;
  }

  lemma {:induction false} MonthsAscend(year: nat, m: nat, n: nat)
    requires 1 <= m <= n
    ensures MonthStart(year, m) <= MonthStart(year, n)
  {
    if m < n {
      MonthsAscend(year, m, n - 1);
    }
  }

  lemma {:induction false} YearsAscend(y: nat, z: nat)
    requires y <= z
    ensures YearStart(y) <= YearStart(z)
  {
    if y < z {
      YearsAscend(y, z - 1);
    }
  }

  predicate Earlier(a: Date, b: Date) {
    a.year < b.year || (a.year == b.year && (a.month < b.month || (a.month == b.month && a.day < b.day)))
  }

  lemma DayNumberOrder(a: Date, b: Date)
    requires IsDate(a) && IsDate(b) && Earlier(a, b)
    ensures DayNumber(a) < DayNumber(b)
  {
    if a.year < b.year {
      MonthsAscend(a.year, a.month + 1, 13);
      MonthsFillTheYear(a.year);
      YearsAscend(a.year + 1, b.year);
      assert YearStart(a.year + 1) == YearStart(a.year) + YearLength(a.year);
    } else if a.month < b.month {
      MonthsAscend(a.year, a.month + 1, b.month);
    }
  }

  lemma DayNumberNext(d: Date)
    requires IsDate(d)
    ensures IsDate(NextDay(d)) && DayNumber(NextDay(d)) == DayNumber(d) + 1
  {
    if d.day == DaysInMonth(d.year, d.month) && d.month == 12 {
      MonthsFillTheYear(d.year);
      assert MonthStart(d.year, 13) == MonthStart(d.year, 12) + 31;
    }
  }

  /** The parser's day number counts the days of the calendar. */
  lemma {:induction false} DayNumberCounts(n: nat)
    ensures DayNumber(DateOf(n)) == n
  {
    if n > 0 {
      DayNumberCounts(n - 1);
      DayNumberNext(DateOf(n - 1));
    }
  }

  /** A valid date is exactly a date that the day-by-day calendar reaches. */
  lemma RealDates(d: Date)
    ensures IsDate(d) <==> exists n: nat :: DateOf(n) == d
    ensures IsDate(d) ==> DateOf(DayNumber(d)) == d
  {
    if IsDate(d) {
      var e := DateOf(DayNumber(d));
      DayNumberCounts(DayNumber(d));
      if e != d {
        if Earlier(e, d) {
          DayNumberOrder(e, d);
        } else {
          DayNumberOrder(d, e);
        }
      }
    }
  }

  // ---- Parsing ------------------------------------------------------------------------------

  datatype Stamp = Stamp(
    date: Date, hour: nat, minute: nat, second: nat, fraction: string,
    offsetSign: int, offsetHour: nat, offsetMinute: nat)

  datatype Seconds = Seconds(second: nat, fraction: string, zone: string)

  /** The optional `:SS` and `.fff`, and what is left for the zone. */
  function ParseSeconds(s: string): (r: Option<Seconds>)
    ensures r.Some? ==> AllDigits(r.value.fraction)
  {
    if s == "" || s[0] != ':' then Some(Seconds(0, "", s))
    else if |s| < 3 || !AllDigits(s[1..3]) then None
    else if |s| > 3 && s[3] == '.' then
      var n := DigitRun(s[4..]);
      if n == 0 then None else Some(Seconds(Number(s[1..3]), s[4..][..n], s[4..][n..]))
    else Some(Seconds(Number(s[1..3]), "", s[3..]))
  }

  /** `Z`, `z`, `+hh:mm` or `+hhmm`: sign, hours, minutes. */
  function ParseZone(s: string): Option<(int, nat, nat)> {
    if s == "Z" || s == "z" then Some((1, 0, 0))
    else if |s| >= 5 && s[0] in "+-" && AllDigits(s[1..3]) then
      var minutes := if s[3] == ':' then s[4..] else s[3..];
      if |minutes| == 2 && AllDigits(minutes)
      then Some((if s[0] == '-' then -1 else 1, Number(s[1..3]), Number(minutes)))
      else None
    else None
  }

  function ParseStamp(s: string): (r: Option<Stamp>)
    ensures r.Some? ==> AllDigits(r.value.fraction) && r.value.offsetSign in {1, -1}
  {
    if |s| < 16 || !AllDigits(s[0..4]) || s[4] != '-' || !AllDigits(s[5..7]) || s[7] != '-' ||
       !AllDigits(s[8..10]) || s[10] != 'T' || !AllDigits(s[11..13]) || s[13] != ':' ||
       !AllDigits(s[14..16])
    then None
    else
      match ParseSeconds(s[16..])
      case None => None
      case Some(seconds) =>
        match ParseZone(seconds.zone)
        case None => None
        case Some(zone) =>
          Some(Stamp(Date(Number(s[0..4]), Number(s[5..7]), Number(s[8..10])),
                     Number(s[11..13]), Number(s[14..16]), seconds.second, seconds.fraction,
                     zone.0, zone.1, zone.2))
  }

  predicate EndOfDay(t: Stamp) {
    t.hour == 24 && t.minute == 0 && t.second == 0 &&
    forall i :: 0 <= i < |t.fraction| ==> !('1' <= t.fraction[i] <= '9')
  }

  predicate ValidStamp(t: Stamp) {
    && IsDate(t.date)
    && t.minute <= 59 && t.second <= 59 && t.offsetHour <= 23 && t.offsetMinute <= 59
    && (t.hour <= 23 || EndOfDay(t))
  }

  /** Milliseconds of a fraction: the first three digits, missing ones read as zero. */
  function Milliseconds(fraction: string): nat
    requires AllDigits(fraction)
  {
    if |fraction| >= 3 then Number(fraction[..3])
    else if |fraction| == 2 then Number(fraction) * 10
    else Number(fraction) * 100
  }

  function Compose(day: nat, hour: nat, minute: nat, second: nat, ms: nat): nat {
    day * DAY + hour * 3_600_000 + minute * 60_000 + second * 1000 + ms
  }

  /** The instant of an accepted timestamp, or None where the source throws. */
  function TimestampInstant(s: string): (r: Option<int>)
    ensures r.Some? ==> r.value >= -DAY
  {
    match ParseStamp(s)
    case None => None
    case Some(t) =>
      if !ValidStamp(t) then None
      else
        var offset := t.offsetSign * (t.offsetHour * 60 + t.offsetMinute);
        assert t.offsetSign == 1 || t.offsetSign == -1;
        assert offset <= 1439;
        Some(Compose(DayNumber(t.date), t.hour, t.minute, t.second, Milliseconds(t.fraction))
             - offset * 60_000)
  }

  // ---- Normalized text ------------------------------------------------------------------------

  /** The instants whose normalized text has a plain four-digit year. */
  predicate InRange(instant: int) {
    instant >= 0 && DateOf(instant / DAY).year <= 9999
  }

  function Calendar(year: string, date: Date): string {
    year + "-" + Pad(2, date.month) + "-" + Pad(2, date.day)
  }

  function Clock(hour: nat, minute: nat, second: nat, ms: nat): string {
    "T" + Pad(2, hour) + ":" + Pad(2, minute) + ":" + Pad(2, second) + "." + Pad(3, ms) + "Z"
  }

  function ClockText(time: nat): string {
    Clock(time / 3_600_000, time / 60_000 % 60, time / 1000 % 60, time % 1000)
  }

  /**
   * `new Date(instant).toISOString()`. A zone offset reaches back less than a day, so the only
   * negative date is the last day of year -1.
   */
  function IsoText(instant: int): string
    requires instant >= -DAY
  {
    if instant < 0 then "-000001-12-31" + ClockText(instant + DAY)
    else
      var date := DateOf(instant / DAY);
      var year := if date.year <= 9999 then Pad(4, date.year) else "+" + Pad(6, date.year);
      Calendar(year, date) + ClockText(instant % DAY)
  }

  /** `timestamp`: the normalized text, or None where the source throws. */
  function Timestamp(s: string): Option<string> {
    match TimestampInstant(s)
    case None => None
    case Some(instant) => Some(IsoText(instant))
  }

  // ---- Accepted timestamps are real ------------------------------------------------------------

  /**
   * An accepted timestamp names a day the calendar reaches and a time of that day (or its end), and
   * denotes exactly that day's start plus that time minus the zone offset.
   */
  lemma AcceptedIsReal(s: string)
    requires TimestampInstant(s).Some?
    ensures ParseStamp(s).Some?
    ensures var t := ParseStamp(s).value;
            exists n: nat ::
              && DateOf(n) == t.date
              && t.minute <= 59 && t.second <= 59 && (t.hour <= 23 || EndOfDay(t))
              && t.offsetHour <= 23 && t.offsetMinute <= 59
              && TimestampInstant(s).value == Compose(n, t.hour, t.minute, t.second, Milliseconds(t.fraction))
                                              - t.offsetSign * (t.offsetHour * 60 + t.offsetMinute) * 60_000
              && Compose(0, t.hour, t.minute, t.second, Milliseconds(t.fraction)) <= DAY
  {
    var t := ParseStamp(s).value;
    var n := DayNumber(t.date);
    RealDates(t.date);
    MillisecondsBound(t.fraction);
    assert DateOf(n) == t.date;
  }

  lemma MillisecondsBound(fraction: string)
    requires AllDigits(fraction)
    ensures Milliseconds(fraction) < 1000
    ensures (forall i :: 0 <= i < |fraction| ==> !('1' <= fraction[i] <= '9')) ==> Milliseconds(fraction) == 0
  {
    var f := if |fraction| >= 3 then fraction[..3] else fraction;
    if |f| >= 1 {
      assert Number(f) == Number(f[..|f| - 1]) * 10 + DigitValue(f[|f| - 1]);
      if |f| >= 2 {
        var g := f[..|f| - 1];
        assert Number(g) == Number(g[..|g| - 1]) * 10 + DigitValue(g[|g| - 1]);
        if |f| == 3 {
          var h := g[..|g| - 1];
          assert Number(h) == Number(h[..0]) * 10 + DigitValue(h[0]);
          assert f[0] == h[0] && f[1] == g[1];
        } else {
          assert Number(g[..0]) == 0;
        }
      }
    }
  }

  // ---- The normalized text reads back ------------------------------------------------------------

  lemma ClockFields(time: nat)
    requires time < DAY
    ensures time / 3_600_000 < 24
    ensures time == Compose(0, time / 3_600_000, time / 60_000 % 60, time / 1000 % 60, time % 1000)
  {
    var second := time / 1000;
    var minute := second / 60;
    var hour := minute / 60;
    assert time / 60_000 == minute && time / 3_600_000 == hour;
    assert time == second * 1000 + time % 1000 && second == minute * 60 + second % 60;
    assert minute == hour * 60 + minute % 60;
  }

  lemma TwoDigitText(n: nat)
    requires n < 100
    ensures |Pad(2, n)| == 2 && AllDigits(Pad(2, n)) && Number(Pad(2, n)) == n
  {
    assert Pow10(2) == 10 * Pow10(1) == 100;
    NumberPad(2, n);
  }

  lemma SecondsParse(s: string, f: string)
    requires |s| == 2 && AllDigits(s) && |f| == 3 && AllDigits(f)
    ensures ParseSeconds([':'] + s + ['.'] + f + ['Z']) == Some(Seconds(Number(s), f, "Z"))
  {
    var tail := [':'] + s + ['.'] + f + ['Z'];
    hide Number; hide DigitRun; hide AllDigits;
    DigitRunStops(f, ['Z']);
    assert tail[1..3] == s && tail[4..] == f + ['Z'];
    assert (f + ['Z'])[..3] == f && (f + ['Z'])[3..] == "Z";
  }

  lemma ClockSlices(h: string, m: string, s: string, f: string)
    requires |h| == |m| == |s| == 2 && |f| == 3
    ensures var clock := "T" + h + ":" + m + ":" + s + "." + f + "Z";
            && |clock| == 14 && clock[0] == 'T' && clock[3] == ':'
            && clock[1..3] == h && clock[4..6] == m && clock[6..] == [':'] + s + ['.'] + f + ['Z']
  {
  }

  lemma ClockParses(hour: nat, minute: nat, second: nat, ms: nat)
    requires hour < 100 && minute < 100 && second < 100 && ms < 1000
    ensures var clock := Clock(hour, minute, second, ms);
            && |clock| == 14 && clock[0] == 'T' && clock[3] == ':'
            && Number(clock[1..3]) == hour && Number(clock[4..6]) == minute
            && AllDigits(clock[1..3]) && AllDigits(clock[4..6])
            && ParseSeconds(clock[6..]) == Some(Seconds(second, Pad(3, ms), "Z"))
  {
    hide Pad; hide Number; hide ParseSeconds; hide AllDigits;
    var h, m, s, f := Pad(2, hour), Pad(2, minute), Pad(2, second), Pad(3, ms);
    TwoDigitText(hour);
    TwoDigitText(minute);
    TwoDigitText(second);
    ClockSlices(h, m, s, f);
    SecondsParse(s, f);
  }

  lemma CalendarSlices(year: string, month: string, day: string)
    requires |year| == 4 && |month| == |day| == 2
    ensures var s := year + "-" + month + "-" + day;
            |s| == 10 && s[4] == '-' && s[7] == '-' && s[0..4] == year && s[5..7] == month && s[8..10] == day
  {
  }

  lemma FourDigitText(n: nat)
    requires n <= 9999
    ensures |Pad(4, n)| == 4 && AllDigits(Pad(4, n)) && Number(Pad(4, n)) == n
  {
    assert Pow10(4) == 10 * Pow10(3) == 100 * Pow10(2) == 1000 * Pow10(1) == 10_000;
    NumberPad(4, n);
  }

  lemma CalendarParses(date: Date)
    requires IsDate(date) && date.year <= 9999
    ensures var s := Calendar(Pad(4, date.year), date);
            && |s| == 10 && s[4] == '-' && s[7] == '-'
            && AllDigits(s[0..4]) && AllDigits(s[5..7]) && AllDigits(s[8..10])
            && Date(Number(s[0..4]), Number(s[5..7]), Number(s[8..10])) == date
  {
    hide Pad; hide Number; hide AllDigits;
    FourDigitText(date.year);
    TwoDigitText(date.month);
    TwoDigitText(date.day);
    CalendarSlices(Pad(4, date.year), Pad(2, date.month), Pad(2, date.day));
  }

  /** A stamp is read off its ten date characters and its fourteen clock characters. */
  lemma HalvesParse(a: string, b: string, seconds: Seconds)
    requires |a| == 10 && a[4] == '-' && a[7] == '-' && |b| == 14 && b[0] == 'T' && b[3] == ':'
    requires AllDigits(a[0..4]) && AllDigits(a[5..7]) && AllDigits(a[8..10]) && AllDigits(b[1..3]) && AllDigits(b[4..6])
    requires ParseSeconds(b[6..]) == Some(seconds) && seconds.zone == "Z"
    ensures ParseStamp(a + b) == Some(Stamp(Date(Number(a[0..4]), Number(a[5..7]), Number(a[8..10])),
                                            Number(b[1..3]), Number(b[4..6]), seconds.second, seconds.fraction,
                                            1, 0, 0))
  {
    hide Number; hide AllDigits; hide ParseSeconds;
    var s := a + b;
    assert s[0..4] == a[0..4] && s[5..7] == a[5..7] && s[8..10] == a[8..10];
    assert s[11..13] == b[1..3] && s[14..16] == b[4..6] && s[16..] == b[6..];
    assert s[4] == a[4] && s[7] == a[7] && s[10] == b[0] && s[13] == b[3];
  }

  lemma StampParses(date: Date, hour: nat, minute: nat, second: nat, ms: nat)
    requires IsDate(date) && date.year <= 9999
    requires hour < 100 && minute < 100 && second < 100 && ms < 1000
    ensures ParseStamp(Calendar(Pad(4, date.year), date) + Clock(hour, minute, second, ms))
            == Some(Stamp(date, hour, minute, second, Pad(3, ms), 1, 0, 0))
  {
    hide *;
    CalendarParses(date);
    ClockParses(hour, minute, second, ms);
    HalvesParse(Calendar(Pad(4, date.year), date), Clock(hour, minute, second, ms), Seconds(second, Pad(3, ms), "Z"));
  }

  lemma MillisecondsOfPad(ms: nat)
    requires ms < 1000
    ensures Milliseconds(Pad(3, ms)) == ms
  {
    assert Pow10(3) == 10 * Pow10(2) == 100 * Pow10(1) == 1000;
    NumberPad(3, ms);
    assert Pad(3, ms)[..3] == Pad(3, ms);
  }

  lemma FieldsReadBack(date: Date, hour: nat, minute: nat, second: nat, ms: nat)
    requires IsDate(date) && date.year <= 9999
    requires hour < 24 && minute < 60 && second < 60 && ms < 1000
    ensures TimestampInstant(Calendar(Pad(4, date.year), date) + Clock(hour, minute, second, ms))
            == Some(Compose(DayNumber(date), hour, minute, second, ms))
  {
    hide Pad; hide Number; hide Clock; hide Calendar; hide ParseStamp; hide DayNumber;
    StampParses(date, hour, minute, second, ms);
    MillisecondsOfPad(ms);
  }

  lemma Recompose(instant: nat)
    ensures var time := instant % DAY;
            && time / 3_600_000 < 24
            && Compose(instant / DAY, time / 3_600_000, time / 60_000 % 60, time / 1000 % 60, time % 1000) == instant
  {
    ClockFields(instant % DAY);
  }

  /** Inside years 0000-9999 the stored text denotes the instant it was written from. */
  lemma InRangeReadsBack(instant: int)
    requires InRange(instant)
    ensures TimestampInstant(IsoText(instant)) == Some(instant)
  {
    hide Pad; hide Clock; hide TimestampInstant; hide DayNumber;
    var time := instant % DAY;
    Recompose(instant);
    FieldsReadBack(DateOf(instant / DAY), time / 3_600_000, time / 60_000 % 60, time / 1000 % 60, time % 1000);
    DayNumberCounts(instant / DAY);
  }

  /** Outside them the expanded year is refused by the source's own pattern. */
  lemma OutOfRangeIsRefused(instant: int)
    requires instant >= -DAY && !InRange(instant)
    ensures TimestampInstant(IsoText(instant)) == None
  {
    var s := IsoText(instant);
    assert |s| >= 16 ==> s[0..4][0] == s[0] && !IsDigit(s[0]);
  }

  /**
   * `timestamp` is a fixpoint on its own output exactly when the instant lies in years 0000-9999;
   * otherwise its output is not accepted again.
   */
  lemma NormalFormIsFixpoint(s: string)
    requires TimestampInstant(s).Some?
    ensures InRange(TimestampInstant(s).value) <==> Timestamp(Timestamp(s).value) == Timestamp(s)
    ensures !InRange(TimestampInstant(s).value) ==> Timestamp(Timestamp(s).value) == None
  {
    var instant := TimestampInstant(s).value;
    if InRange(instant) {
      InRangeReadsBack(instant);
    } else {
      OutOfRangeIsRefused(instant);
    }
  }

  lemma TwoDigits(s: string)
    requires |s| == 2 && AllDigits(s)
    ensures Number(s) == DigitValue(s[0]) * 10 + DigitValue(s[1])
  {
    var t := s[..1];
    assert Number(t) == Number(t[..0]) * 10 + DigitValue(t[0]);
  }

  lemma FourDigits(s: string)
    requires |s| == 4 && AllDigits(s)
    ensures Number(s) == DigitValue(s[0]) * 1000 + DigitValue(s[1]) * 100 + DigitValue(s[2]) * 10 + DigitValue(s[3])
  {
    var t := s[..3];
    TwoDigits(t[..2]);
    assert Number(t) == Number(t[..2]) * 10 + DigitValue(t[2]);
  }

  /** An accepted input whose normalized text is refused: the end of 9999, west of Greenwich. */
  const LATE_DECEMBER := "9999-12-31T23:59-01:00"

  lemma HourWest(zone: string)
    requires zone == "-01:00"
    ensures ParseSeconds(zone) == Some(Seconds(0, "", zone)) && ParseZone(zone) == Some((-1, 1, 0))
  {
    TwoDigits(zone[1..3]);
    TwoDigits(zone[4..]);
  }

  lemma TwoAt(s: string, i: nat, a: char, b: char)
    requires i + 2 <= |s| && s[i] == a && s[i + 1] == b && IsDigit(a) && IsDigit(b)
    ensures AllDigits(s[i..i + 2]) && Number(s[i..i + 2]) == DigitValue(a) * 10 + DigitValue(b)
  {
    TwoDigits(s[i..i + 2]);
  }

  lemma FourAt(s: string, a: char, b: char, c: char, d: char)
    requires 4 <= |s| && s[0] == a && s[1] == b && s[2] == c && s[3] == d
    requires IsDigit(a) && IsDigit(b) && IsDigit(c) && IsDigit(d)
    ensures AllDigits(s[0..4])
    ensures Number(s[0..4]) == DigitValue(a) * 1000 + DigitValue(b) * 100 + DigitValue(c) * 10 + DigitValue(d)
  {
    FourDigits(s[0..4]);
  }

  lemma LateDecemberDate(s: string)
    requires s == LATE_DECEMBER
    ensures |s| == 22 && s[4] == '-' && s[7] == '-'
    ensures AllDigits(s[0..4]) && AllDigits(s[5..7]) && AllDigits(s[8..10])
    ensures Number(s[0..4]) == 9999 && Number(s[5..7]) == 12 && Number(s[8..10]) == 31
  {
    hide Number; hide AllDigits;
    FourAt(s, '9', '9', '9', '9');
    TwoAt(s, 5, '1', '2');
    TwoAt(s, 8, '3', '1');
  }

  lemma LateDecemberTime(s: string)
    requires s == LATE_DECEMBER
    ensures |s| == 22 && s[10] == 'T' && s[13] == ':' && s[16..] == "-01:00"
    ensures AllDigits(s[11..13]) && AllDigits(s[14..16])
    ensures Number(s[11..13]) == 23 && Number(s[14..16]) == 59
  {
    hide Number; hide AllDigits;
    TwoAt(s, 11, '2', '3');
    TwoAt(s, 14, '5', '9');
  }

  lemma LateDecemberParses(s: string)
    requires s == LATE_DECEMBER
    ensures ParseStamp(s) == Some(Stamp(Date(9999, 12, 31), 23, 59, 0, "", -1, 1, 0))
  {
    LateDecemberDate(s);
    LateDecemberTime(s);
    HourWest(s[16..]);
    hide Number; hide AllDigits; hide ParseSeconds; hide ParseZone;
  }

  lemma LastHourInstant(n: nat, minute: nat, second: nat, ms: nat, west: nat)
    requires minute <= 59 && second <= 59 && ms < 1000 && 60 <= west <= 1439
    ensures (Compose(n, 23, minute, second, ms) + west * 60_000) / DAY == n + 1
  {
    var extra := 23 * 3_600_000 + minute * 60_000 + second * 1000 + ms + west * 60_000 - DAY;
    assert 0 <= extra < DAY;
    assert Compose(n, 23, minute, second, ms) + west * 60_000 == (n + 1) * DAY + extra;
  }

  /** Any accepted timestamp in the last hour of a year, written west of Greenwich, falls in the next year. */
  lemma LastHourRollsOver(s: string)
    requires ParseStamp(s).Some?
    requires var t := ParseStamp(s).value;
             && t.date.month == 12 && t.date.day == 31 && t.hour == 23 && t.minute <= 59 && t.second <= 59
             && t.offsetSign == -1 && 1 <= t.offsetHour <= 23 && t.offsetMinute <= 59
    ensures TimestampInstant(s).Some? && TimestampInstant(s).value >= 0
    ensures DateOf(TimestampInstant(s).value / DAY).year == ParseStamp(s).value.date.year + 1
  {
    hide ParseStamp; hide DayNumber; hide Milliseconds;
    var t := ParseStamp(s).value;
    var n := DayNumber(t.date);
    MillisecondsBound(t.fraction);
    var ms, west := Milliseconds(t.fraction), t.offsetHour * 60 + t.offsetMinute;
    assert t.offsetSign * west == -west;
    assert TimestampInstant(s) == Some(Compose(n, 23, t.minute, t.second, ms) + west * 60_000);
    LastHourInstant(n, t.minute, t.second, ms, west);
    RealDates(t.date);
    assert DateOf(n + 1) == NextDay(t.date);
  }

  lemma LateDecemberIsNotAFixpoint(s: string)
    requires s == LATE_DECEMBER
    ensures TimestampInstant(s).Some? && TimestampInstant(s).value >= 0 && !InRange(TimestampInstant(s).value)
  {
    LateDecemberParses(s);
    LastHourRollsOver(s);
  }

  // ---- The normalized texts sort by time -----------------------------------------------------------

  /** Two instants in year, month, day and time-of-day order. */
  predicate FieldsBefore(i: nat, j: nat) {
    Earlier(DateOf(i / DAY), DateOf(j / DAY)) || (DateOf(i / DAY) == DateOf(j / DAY) && i % DAY < j % DAY)
  }

  lemma FieldOrder(i: nat, j: nat)
    ensures FieldsBefore(i, j) <==> i < j
  {
    var a, b := i / DAY, j / DAY;
    DayNumberCounts(a);
    DayNumberCounts(b);
    if Earlier(DateOf(a), DateOf(b)) {
      DayNumberOrder(DateOf(a), DateOf(b));
    } else if Earlier(DateOf(b), DateOf(a)) {
      DayNumberOrder(DateOf(b), DateOf(a));
    }
  }

  /** One field, its separator, then the rest. */
  lemma FieldThen(a: string, b: string, separator: char, c: string, d: string)
    requires |a| == |b|
    ensures Less(a + ([separator] + c), b + ([separator] + d)) <==> Less(a, b) || (a == b && Less(c, d))
  {
    LessConcat(a, b, [separator] + c, [separator] + d);
    LessIrreflexive([separator]);
    LessConcat([separator], [separator], c, d);
  }

  predicate ClockBefore(h: nat, m: nat, s: nat, f: nat, h': nat, m': nat, s': nat, f': nat) {
    h < h' || (h == h' && (m < m' || (m == m' && (s < s' || (s == s' && f < f')))))
  }

  /** Five fields with equal widths and equal separators: the first difference decides. */
  lemma FieldTextsOrder(a: seq<string>, b: seq<string>, rest: string)
    requires |a| == |b| == 4 && forall i :: 0 <= i < 4 ==> |a[i]| == |b[i]|
    ensures Less("T" + (a[0] + (":" + (a[1] + (":" + (a[2] + ("." + (a[3] + rest))))))),
                 "T" + (b[0] + (":" + (b[1] + (":" + (b[2] + ("." + (b[3] + rest))))))))
            <==> Less(a[0], b[0]) || (a[0] == b[0] && (Less(a[1], b[1]) || (a[1] == b[1] &&
                 (Less(a[2], b[2]) || (a[2] == b[2] && Less(a[3], b[3]))))))
  {
    LessIrreflexive(rest);
    LessConcat(a[3], b[3], rest, rest);
    var w, x := a[3] + rest, b[3] + rest;
    FieldThen(a[2], b[2], '.', w, x);
    var u, v := a[2] + ("." + w), b[2] + ("." + x);
    FieldThen(a[1], b[1], ':', u, v);
    var s, t := a[1] + (":" + u), b[1] + (":" + v);
    FieldThen(a[0], b[0], ':', s, t);
    var p, q := a[0] + (":" + s), b[0] + (":" + t);
    LessIrreflexive("T");
    LessConcat("T", "T", p, q);
  }

  lemma ClockShape(h: string, m: string, s: string, f: string)
    ensures "T" + h + ":" + m + ":" + s + "." + f + "Z"
            == "T" + (h + (":" + (m + (":" + (s + ("." + (f + "Z")))))))
  {
  }

  lemma ClockFieldOrder(h: nat, m: nat, s: nat, f: nat, h': nat, m': nat, s': nat, f': nat)
    requires h < 100 && m < 100 && s < 100 && f < 1000
    requires h' < 100 && m' < 100 && s' < 100 && f' < 1000
    ensures Less(Clock(h, m, s, f), Clock(h', m', s', f')) <==> ClockBefore(h, m, s, f, h', m', s', f')
  {
    hide Pad; hide Less;
    assert Pow10(2) == 10 * Pow10(1) == 100 && Pow10(3) == 10 * Pow10(2);
    PadOrder(3, f, f');
    PadOrder(2, s, s');
    PadOrder(2, m, m');
    PadOrder(2, h, h');
    ClockShape(Pad(2, h), Pad(2, m), Pad(2, s), Pad(3, f));
    ClockShape(Pad(2, h'), Pad(2, m'), Pad(2, s'), Pad(3, f'));
    FieldTextsOrder([Pad(2, h), Pad(2, m), Pad(2, s), Pad(3, f)],
                    [Pad(2, h'), Pad(2, m'), Pad(2, s'), Pad(3, f')], "Z");
  }

  lemma ClockFieldsOrder(x: nat, y: nat)
    requires x < DAY && y < DAY
    ensures x < y <==> ClockBefore(x / 3_600_000, x / 60_000 % 60, x / 1000 % 60, x % 1000,
                                   y / 3_600_000, y / 60_000 % 60, y / 1000 % 60, y % 1000)
  {
    ClockFields(x);
    ClockFields(y);
  }

  lemma CalendarOrder(a: Date, b: Date, u: string, v: string)
    requires IsDate(a) && IsDate(b) && a.year <= 9999 && b.year <= 9999
    ensures Less(Calendar(Pad(4, a.year), a) + u, Calendar(Pad(4, b.year), b) + v)
            <==> Earlier(a, b) || (a == b && Less(u, v))
  {
    hide Pad; hide Less;
    assert Pow10(2) == 10 * Pow10(1) == 100 && Pow10(4) == 10 * Pow10(3) == 100 * Pow10(2) == 10_000;
    PadOrder(4, a.year, b.year);
    PadOrder(2, a.month, b.month);
    PadOrder(2, a.day, b.day);
    LessConcat(Pad(2, a.day), Pad(2, b.day), u, v);
    var d, e := Pad(2, a.day) + u, Pad(2, b.day) + v;
    FieldThen(Pad(2, a.month), Pad(2, b.month), '-', d, e);
    var m, n := Pad(2, a.month) + (['-'] + d), Pad(2, b.month) + (['-'] + e);
    FieldThen(Pad(4, a.year), Pad(4, b.year), '-', m, n);
    assert Calendar(Pad(4, a.year), a) + u == Pad(4, a.year) + (['-'] + m);
    assert Calendar(Pad(4, b.year), b) + v == Pad(4, b.year) + (['-'] + n);
  }

  lemma ClockTextOrder(x: nat, y: nat)
    requires x < DAY && y < DAY
    ensures Less(ClockText(x), ClockText(y)) <==> x < y
  {
    ClockFields(x);
    ClockFields(y);
    ClockFieldOrder(x / 3_600_000, x / 60_000 % 60, x / 1000 % 60, x % 1000,
                    y / 3_600_000, y / 60_000 % 60, y / 1000 % 60, y % 1000);
    ClockFieldsOrder(x, y);
  }

  /** For instants in years 0000-9999, comparing the stored texts is comparing the times. */
  lemma TextOrderIsTimeOrder(i: int, j: int)
    requires InRange(i) && InRange(j)
    ensures Less(IsoText(i), IsoText(j)) <==> i < j
    ensures IsoText(i) == IsoText(j) <==> i == j
  {
    CalendarOrder(DateOf(i / DAY), DateOf(j / DAY), ClockText(i % DAY), ClockText(j % DAY));
    ClockTextOrder(i % DAY, j % DAY);
    FieldOrder(i, j);
    InRangeReadsBack(i);
    InRangeReadsBack(j);
  }
}
