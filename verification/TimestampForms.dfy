/** The written forms that `timestamp` accepts, and the calendar facts behind its checks, said on their own. */
module TimestampForms {
  import opened Collections
  import opened Text
  import opened Timestamps

  /** `Z` or `z`, or a sign, two digits, an optional colon and two digits. */
  datatype Zone = Utc(letter: char) | Offset(sign: char, hours: string, colon: bool, minutes: string)

  /** The parts of a written timestamp; a fraction comes only with seconds. */
  datatype Parts = Parts(
    year: string, month: string, day: string, hour: string, minute: string,
    second: Option<string>, fraction: Option<string>, zone: Zone)

  ghost predicate Digits(s: string, n: nat) { |s| == n && AllDigits(s) }

  ghost predicate WellSpelled(p: Parts) {
    && Digits(p.year, 4) && Digits(p.month, 2) && Digits(p.day, 2) && Digits(p.hour, 2) && Digits(p.minute, 2)
    && (p.second.Some? ==> Digits(p.second.value, 2))
    && (p.fraction.Some? ==> p.second.Some? && p.fraction.value != "" && AllDigits(p.fraction.value))
    && match p.zone
       case Utc(letter) => letter == 'Z' || letter == 'z'
       case Offset(sign, hours, _, minutes) => (sign == '+' || sign == '-') && Digits(hours, 2) && Digits(minutes, 2)
  }

  ghost function SpellZone(z: Zone): string {
    match z
    case Utc(letter) => [letter]
    case Offset(sign, hours, colon, minutes) => [sign] + hours + (if colon then ":" else "") + minutes
  }

  ghost function SpellSeconds(p: Parts): string {
    (if p.second.Some? then ":" + p.second.value else "") + (if p.fraction.Some? then "." + p.fraction.value else "")
  }

  ghost function Spell(p: Parts): string {
    p.year + "-" + p.month + "-" + p.day + "T" + p.hour + ":" + p.minute + (SpellSeconds(p) + SpellZone(p.zone))
  }

  /** What the parts stand for. */
  ghost function Meaning(p: Parts): Stamp
    requires WellSpelled(p)
  {
    var second := if p.second.Some? then Number(p.second.value) else 0;
    var fraction := if p.fraction.Some? then p.fraction.value else "";
    match p.zone
    case Utc(_) =>
      Stamp(Date(Number(p.year), Number(p.month), Number(p.day)), Number(p.hour), Number(p.minute), second, fraction,
            1, 0, 0)
    case Offset(sign, hours, _, minutes) =>
      Stamp(Date(Number(p.year), Number(p.month), Number(p.day)), Number(p.hour), Number(p.minute), second, fraction,
            if sign == '-' then -1 else 1, Number(hours), Number(minutes))
  }

  lemma ZoneParses(z: Zone, p: Parts)
    requires WellSpelled(p) && z == p.zone
    ensures ParseZone(SpellZone(z)) ==
            Some(match z case Utc(_) => (1, 0, 0)
                         case Offset(sign, hours, _, minutes) =>
                           (if sign == '-' then -1 else 1, Number(hours), Number(minutes)))
    ensures SpellZone(z) != "" && SpellZone(z)[0] in "Zz+-"
  {
    hide Number; hide AllDigits;
    match z
    case Utc(letter) =>
      assert SpellZone(z) == [letter];
    case Offset(sign, hours, colon, minutes) =>
      var s := SpellZone(z);
      assert s[0] == sign && s[1..3] == hours;
      FirstIsDigit(minutes);
      if colon {
        assert s[3] == ':' && s[4..] == minutes;
      } else {
        assert s[3] == minutes[0] && s[3..] == minutes;
      }
  }

  lemma FirstIsDigit(s: string)
    requires s != "" && AllDigits(s)
    ensures '0' <= s[0] <= '9'
  {
  }

  lemma FractionParses(second: string, fraction: string, zone: string)
    requires Digits(second, 2) && fraction != "" && AllDigits(fraction) && zone != "" && zone[0] in "Zz+-"
    ensures ParseSeconds(":" + second + "." + (fraction + zone)) == Some(Seconds(Number(second), fraction, zone))
  {
    hide Number; hide DigitRun; hide AllDigits;
    var s := ":" + second + "." + (fraction + zone);
    assert s[1..3] == second && s[4..] == fraction + zone;
    NoDigit(zone);
    DigitRunStops(fraction, zone);
    assert (fraction + zone)[..|fraction|] == fraction && (fraction + zone)[|fraction|..] == zone;
  }

  lemma SecondsParse(second: string, zone: string)
    requires Digits(second, 2) && zone != "" && zone[0] in "Zz+-"
    ensures ParseSeconds(":" + second + zone) == Some(Seconds(Number(second), "", zone))
  {
    hide Number; hide DigitRun; hide AllDigits;
    var s := ":" + second + zone;
    assert s[1..3] == second && s[3..] == zone && s[3] == zone[0];
  }

  lemma NoSecondsParse(zone: string)
    requires zone != "" && zone[0] in "Zz+-"
    ensures ParseSeconds(zone) == Some(Seconds(0, "", zone))
  {
    hide Number; hide DigitRun;
  }

  lemma SecondsThen(p: Parts, zone: string)
    requires p.second.Some? ==> Digits(p.second.value, 2)
    requires p.fraction.Some? ==> p.second.Some? && p.fraction.value != "" && AllDigits(p.fraction.value)
    requires zone != "" && zone[0] in "Zz+-"
    ensures ParseSeconds(SpellSeconds(p) + zone) ==
            Some(Seconds(if p.second.Some? then Number(p.second.value) else 0,
                         if p.fraction.Some? then p.fraction.value else "", zone))
  {
    hide Number; hide AllDigits; hide ParseSeconds;
    var s := SpellSeconds(p) + zone;
    if p.second.None? {
      assert s == zone;
      NoSecondsParse(zone);
    } else if p.fraction.None? {
      assert s == ":" + p.second.value + zone;
      SecondsParse(p.second.value, zone);
    } else {
      assert s == ":" + p.second.value + "." + (p.fraction.value + zone);
      FractionParses(p.second.value, p.fraction.value, zone);
    }
  }

  lemma NoDigit(zone: string)
    requires zone != "" && zone[0] in "Zz+-"
    ensures !IsDigit(zone[0])
  {
  }

  lemma FrontSlices(p: Parts, rest: string)
    requires WellSpelled(p)
    ensures var s := p.year + "-" + p.month + "-" + p.day + "T" + p.hour + ":" + p.minute + rest;
            && |s| >= 16 && s[0..4] == p.year && s[4] == '-' && s[5..7] == p.month && s[7] == '-'
            && s[8..10] == p.day && s[10] == 'T' && s[11..13] == p.hour && s[13] == ':' && s[14..16] == p.minute
            && s[16..] == rest
  {
    hide AllDigits;
  }

  /** Every well spelled timestamp parses to what it stands for. */
  lemma SpelledParses(p: Parts)
    requires WellSpelled(p)
    ensures ParseStamp(Spell(p)) == Some(Meaning(p))
  {
    hide Number; hide AllDigits; hide ParseSeconds; hide ParseZone; hide SpellSeconds; hide SpellZone;
    FrontSlices(p, SpellSeconds(p) + SpellZone(p.zone));
    ZoneParses(p.zone, p);
    SecondsThen(p, SpellZone(p.zone));
  }

  lemma ZoneWasSpelled(s: string) returns (z: Zone)
    requires ParseZone(s).Some?
    ensures s == SpellZone(z)
    ensures match z
            case Utc(letter) => letter == 'Z' || letter == 'z'
            case Offset(sign, hours, _, minutes) =>
              (sign == '+' || sign == '-') && Digits(hours, 2) && Digits(minutes, 2)
  {
    hide Number;
    if s == "Z" || s == "z" {
      z := Utc(s[0]);
    } else {
      var colon := s[3] == ':';
      z := Offset(s[0], s[1..3], colon, if colon then s[4..] else s[3..]);
    }
  }

  lemma SecondsWereSpelled(s: string) returns (second: Option<string>, fraction: Option<string>)
    requires ParseSeconds(s).Some?
    ensures second.Some? ==> Digits(second.value, 2)
    ensures fraction.Some? ==> second.Some? && fraction.value != "" && AllDigits(fraction.value)
    ensures s == (if second.Some? then ":" + second.value else "")
                 + (if fraction.Some? then "." + fraction.value else "") + ParseSeconds(s).value.zone
  {
    hide Number;
    if s == "" || s[0] != ':' {
      second, fraction := None, None;
    } else {
      second := Some(s[1..3]);
      assert s == ":" + s[1..3] + s[3..];
      if |s| > 3 && s[3] == '.' {
        var n := DigitRun(s[4..]);
        fraction := Some(s[4..][..n]);
        assert s[3..] == "." + s[4..][..n] + s[4..][n..];
      } else {
        fraction := None;
      }
    }
  }

  /** And nothing else parses. */
  lemma ParsedWasSpelled(s: string) returns (p: Parts)
    requires ParseStamp(s).Some?
    ensures WellSpelled(p) && s == Spell(p)
  {
    hide Number; hide AllDigits; hide ParseSeconds; hide ParseZone; hide SpellZone; hide DigitRun;
    var rest := s[16..];
    var second, fraction := SecondsWereSpelled(rest);
    var zone := ZoneWasSpelled(ParseSeconds(rest).value.zone);
    p := Parts(s[0..4], s[5..7], s[8..10], s[11..13], s[14..16], second, fraction, zone);
    assert rest == SpellSeconds(p) + SpellZone(zone);
    hide SpellSeconds;
    Reassembled(s);
  }

  /** A text is read as a stamp exactly when some well spelled parts make up the text and mean the stamp. */
  lemma ParseMeans(s: string, t: Stamp)
    ensures ParseStamp(s) == Some(t) <==> exists p :: WellSpelled(p) && s == Spell(p) && t == Meaning(p)
  {
    hide ParseStamp; hide Spell; hide Meaning; hide WellSpelled;
    if ParseStamp(s).Some? {
      var p := ParsedWasSpelled(s);
      SpelledParses(p);
    }
    forall p | WellSpelled(p) && s == Spell(p) ensures ParseStamp(s) == Some(Meaning(p)) {
      SpelledParses(p);
    }
  }

  lemma Reassembled(s: string)
    requires |s| >= 16 && s[4] == '-' && s[7] == '-' && s[10] == 'T' && s[13] == ':'
    ensures s == s[0..4] + "-" + s[5..7] + "-" + s[8..10] + "T" + s[11..13] + ":" + s[14..16] + s[16..]
  {
  }

  // ---- Calendar and clock ----------------------------------------------------------------------------------

  /** The Gregorian month lengths. */
  lemma MonthLengths(year: nat, month: nat)
    ensures LeapYear(year) <==> year % 400 == 0 || (year % 4 == 0 && year % 100 != 0)
    ensures DaysInMonth(year, month) ==
            if 1 <= month <= 12 then
              [31, if LeapYear(year) then 29 else 28, 31, 30, 31, 30, 31, 31, 30, 31, 30, 31][month - 1]
            else 0
  {
    LeapRule(year);
    hide LeapYear;
  }

  lemma LeapRule(year: nat)
    ensures LeapYear(year) <==> year % 400 == 0 || (year % 4 == 0 && year % 100 != 0)
  {
    Multiples(year);
  }

  lemma Multiples(n: nat)
    ensures n % 400 == 0 ==> n % 100 == 0
    ensures n % 100 == 0 ==> n % 4 == 0
  {
    if n % 400 == 0 {
      assert n == 100 * (4 * (n / 400));
    }
    if n % 100 == 0 {
      assert n == 4 * (25 * (n / 100));
    }
  }

  lemma LeapDays(year: nat)
    ensures YearLength(year) ==
            365 + (if year % 4 == 0 then 1 else 0) - (if year % 100 == 0 then 1 else 0)
                + (if year % 400 == 0 then 1 else 0)
  {
    Multiples(year);
  }

  lemma FourthYears(year: nat)
    ensures (year + 4) / 4 == (year + 3) / 4 + if year % 4 == 0 then 1 else 0
  {
  }

  lemma HundredthYears(year: nat)
    ensures (year + 100) / 100 == (year + 99) / 100 + if year % 100 == 0 then 1 else 0
  {
  }

  lemma FourHundredthYears(year: nat)
    ensures (year + 400) / 400 == (year + 399) / 400 + if year % 400 == 0 then 1 else 0
  {
  }

  /** The days before a year, by the usual count of its leap days. */
  ghost function DaysBefore(year: nat): int { 365 * year + (year + 3) / 4 - (year + 99) / 100 + (year + 399) / 400 }

  lemma OneYearMore(year: nat)
    ensures DaysBefore(year + 1) == DaysBefore(year) + YearLength(year)
  {
    hide YearLength;
    LeapDays(year);
    FourthYears(year);
    HundredthYears(year);
    FourHundredthYears(year);
  }

  lemma {:induction false} YearsCount(year: nat)
    ensures YearStart(year) == DaysBefore(year)
  {
    if year > 0 {
      hide YearLength; hide DaysBefore;
      YearsCount(year - 1);
      OneYearMore(year - 1);
    }
  }

  /** Milliseconds are the first three digits of the fraction, filled up with zeros. */
  lemma MillisecondsFilledUp(fraction: string)
    requires AllDigits(fraction)
    ensures AllDigits((fraction + "000")[..3]) && Milliseconds(fraction) == Number((fraction + "000")[..3])
  {
    hide AllDigits;
    if |fraction| >= 3 {
      assert (fraction + "000")[..3] == fraction[..3];
      PrefixDigits(fraction, 3);
    } else if |fraction| == 2 {
      assert (fraction + "000")[..3] == fraction + "0";
      ZeroAfter(fraction);
    } else {
      assert (fraction + "000")[..3] == if fraction == "" then "0" + "0" + "0" else fraction + "0" + "0";
      if fraction == "" {
        ZeroAfter("");
        ZeroAfter("0");
        ZeroAfter("0" + "0");
      } else {
        ZeroAfter(fraction);
        ZeroAfter(fraction + "0");
      }
    }
  }

  lemma PrefixDigits(s: string, n: nat)
    requires AllDigits(s) && n <= |s|
    ensures AllDigits(s[..n])
  {
  }

  lemma ZeroAfter(s: string)
    requires AllDigits(s)
    ensures AllDigits(s + "0") && Number(s + "0") == 10 * Number(s)
  {
    assert (s + "0")[..|s|] == s;
  }
}
