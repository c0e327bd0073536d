/** daysFromCivil, the RFC 3339 parser built on it, and toSignedTimestamp. */
module Calendar {
  import opened Common
  import opened Numerals
  import opened Decimal

  // ----- days since 1970-01-01

  /** Integer division of C++: truncates toward zero. */
  function Quotient(a: int, b: int): int
    requires b > 0
  {
    if a >= 0 then a / b else -((-a) / b)
  }

  /** The three unsigned intermediates stay in range for every month and day that the parser lets through. */
  function DaysFromCivil(year: int, m: nat, d: nat): int
    requires 1 <= m <= 12 && 1 <= d <= 31
  {
    var y := if m <= 2 then year - 1 else year;
    var era := Quotient(if y >= 0 then y else y - 399, 400);
    var yoe: uint32 := y - era * 400;
    var doy: uint32 := (153 * (if m > 2 then m - 3 else m + 9) + 2) / 5 + d - 1;
    var doe: uint32 := yoe * 365 + yoe / 4 - yoe / 100 + doy;
    era * 146097 + doe - 719468
  }

  // ----- the proleptic Gregorian calendar

  predicate IsLeap(y: int) {
    y % 4 == 0 && (y % 100 != 0 || y % 400 == 0)
  }

  function YearLength(y: int): nat {
    if IsLeap(y) then 366 else 365
  }

  function MonthLength(y: int, m: nat): nat {
    if m == 2 then (if IsLeap(y) then 29 else 28)
    else if m == 4 || m == 6 || m == 9 || m == 11 then 30
    else 31
  }

  datatype Date = Date(y: int, m: nat, d: nat)

  predicate ValidDate(t: Date) {
    1 <= t.m <= 12 && 1 <= t.d <= MonthLength(t.y, t.m)
  }

  function NextDay(t: Date): (n: Date)
    requires ValidDate(t)
    ensures ValidDate(n)
  {
    if t.d < MonthLength(t.y, t.m) then Date(t.y, t.m, t.d + 1)
    else if t.m < 12 then Date(t.y, t.m + 1, 1)
    else Date(t.y + 1, 1, 1)
  }

  /** The days from 1970-01-01 to the first day of a year, one year at a time in either direction. */
  function DaysBeforeYear(y: int): int
    decreases if y >= 1970 then y - 1970 else 1970 - y
  {
    if y == 1970 then 0
    else if y > 1970 then DaysBeforeYear(y - 1) + YearLength(y - 1)
    else DaysBeforeYear(y + 1) - YearLength(y)
  }

  /** The days of a year before a month. */
  function DaysBeforeMonth(y: int, m: nat): nat {
    if m <= 1 then 0 else DaysBeforeMonth(y, m - 1) + MonthLength(y, m - 1)
  }

  /** The number of leap days up to a year, by the Gregorian rule. */
  function LeapDays(y: int): int {
    y / 4 - y / 100 + y / 400
  }

  lemma EraIsFloor(y: int)
    ensures Quotient(if y >= 0 then y else y - 399, 400) == y / 400
  {
  }

  /** The leap days of the years of an era. */
  lemma EraLeapDays(era: int, yoe: nat)
    requires yoe < 400
    ensures LeapDays(era * 400 + yoe) == era * 97 + yoe / 4 - yoe / 100
  {
    var y := era * 400 + yoe;
    assert y / 400 == era;
    assert y / 100 == era * 4 + yoe / 100;
    assert y / 4 == era * 100 + yoe / 4;
  }

  /** The days before the March in which a shifted year starts, and the day of that year. */
  lemma CivilForm(year: int, m: nat, d: nat)
    requires 1 <= m <= 12 && 1 <= d <= 31
    ensures var y := if m <= 2 then year - 1 else year;
            DaysFromCivil(year, m, d)
            == 365 * y + LeapDays(y) + (153 * (if m > 2 then m - 3 else m + 9) + 2) / 5 + d - 1 - 719468
  {
    var y := if m <= 2 then year - 1 else year;
    EraIsFloor(y);
    EraLeapDays(y / 400, y % 400);
    assert y == y / 400 * 400 + y % 400;
    hide LeapDays, Quotient;
  }

  lemma LeapStep(y: int)
    ensures LeapDays(y) - LeapDays(y - 1) == if IsLeap(y) then 1 else 0
  {
    Steps4(y);
    Steps100(y);
    Steps400(y);
    if y % 400 == 0 {
      Multiple400(y);
    }
    if y % 100 == 0 {
      Multiple100(y);
    }
  }

  lemma Floor4(q: int, r: nat)
    requires r < 4
    ensures (4 * q + r) / 4 == q
  {
  }

  lemma Steps4(y: int)
    ensures y / 4 - (y - 1) / 4 == if y % 4 == 0 then 1 else 0
  {
    var q, r := y / 4, y % 4;
    if r == 0 {
      Floor4(q - 1, 3);
    } else {
      Floor4(q, r - 1);
    }
  }

  lemma Floor100(q: int, r: nat)
    requires r < 100
    ensures (100 * q + r) / 100 == q
  {
  }

  lemma Steps100(y: int)
    ensures y / 100 - (y - 1) / 100 == if y % 100 == 0 then 1 else 0
  {
    var q, r := y / 100, y % 100;
    if r == 0 {
      Floor100(q - 1, 99);
    } else {
      Floor100(q, r - 1);
    }
  }

  lemma Floor400(q: int, r: nat)
    requires r < 400
    ensures (400 * q + r) / 400 == q
  {
  }

  lemma Steps400(y: int)
    ensures y / 400 - (y - 1) / 400 == if y % 400 == 0 then 1 else 0
  {
    var q, r := y / 400, y % 400;
    if r == 0 {
      Floor400(q - 1, 399);
    } else {
      Floor400(q, r - 1);
    }
  }

  lemma Multiple400(y: int)
    requires y % 400 == 0
    ensures y % 100 == 0
  {
    Floor100(4 * (y / 400), 0);
  }

  lemma Multiple100(y: int)
    requires y % 100 == 0
    ensures y % 4 == 0
  {
    Floor4(25 * (y / 100), 0);
  }

  lemma {:induction false} YearsSum(y: int)
    ensures DaysBeforeYear(y) == 365 * (y - 1970) + LeapDays(y - 1) - 477
    decreases if y >= 1970 then y - 1970 else 1970 - y
  {
    hide IsLeap;
    if y > 1970 {
      YearsSum(y - 1);
      LeapStep(y - 1);
      hide LeapDays;
    } else if y < 1970 {
      YearsSum(y + 1);
      LeapStep(y);
      hide LeapDays;
    }
  }

  /** The months of a year that starts in March, and the two months before. */
  lemma MonthsSum(y: int, m: nat)
    requires 1 <= m <= 12
    ensures DaysBeforeMonth(y, m)
         == if m <= 2 then 31 * (m - 1) else (153 * (m - 3) + 2) / 5 + YearLength(y) - 306
  {
    hide IsLeap;
    var f := MonthLength(y, 2);
    assert DaysBeforeMonth(y, 1) == 0 && DaysBeforeMonth(y, 2) == 31 && DaysBeforeMonth(y, 3) == 31 + f;
    assert DaysBeforeMonth(y, 4) == 62 + f && DaysBeforeMonth(y, 5) == 92 + f && DaysBeforeMonth(y, 6) == 123 + f;
    assert DaysBeforeMonth(y, 7) == 153 + f && DaysBeforeMonth(y, 8) == 184 + f && DaysBeforeMonth(y, 9) == 215 + f;
    assert DaysBeforeMonth(y, 10) == 245 + f && DaysBeforeMonth(y, 11) == 276 + f && DaysBeforeMonth(y, 12) == 306 + f;
  }

  /** The formula counts exactly: whole years from 1970 in either direction, whole months of the year, and days. A day
      past the end of its month runs on into the next. */
  lemma CivilIsCount(y: int, m: nat, d: nat)
    requires 1 <= m <= 12 && 1 <= d <= 31
    ensures DaysFromCivil(y, m, d) == DaysBeforeYear(y) + DaysBeforeMonth(y, m) + d - 1
  {
    CivilForm(y, m, d);
    YearsSum(y);
    MonthsSum(y, m);
    LeapStep(y);
    hide DaysFromCivil, DaysBeforeYear, DaysBeforeMonth, LeapDays, IsLeap;
  }

  function DayNumber(t: Date): int
    requires ValidDate(t)
  {
    DaysFromCivil(t.y, t.m, t.d)
  }

  /** The epoch is day 0, and every date is followed by the next day's number: across months, leap days, centuries and
      eras, before year 1 too. */
  lemma NextDayCounts(t: Date)
    requires ValidDate(t)
    ensures DayNumber(NextDay(t)) == DayNumber(t) + 1
    ensures DayNumber(Date(1970, 1, 1)) == 0
  {
    hide DaysFromCivil, NextDay, IsLeap, DaysBeforeYear, DaysBeforeMonth;
    Epoch();
    var n := NextDay(t);
    CivilIsCount(t.y, t.m, t.d);
    CivilIsCount(n.y, n.m, n.d);
    NextDayInCount(t);
  }

  lemma NextDayInCount(t: Date)
    requires ValidDate(t)
    ensures var n := NextDay(t);
            DaysBeforeYear(n.y) + DaysBeforeMonth(n.y, n.m) + n.d
            == DaysBeforeYear(t.y) + DaysBeforeMonth(t.y, t.m) + t.d + 1
  {
    hide DaysBeforeYear, DaysBeforeMonth, YearLength, MonthLength;
    MonthAfter(t.y, t.m);
    YearAfter(t.y);
    MonthAfter(t.y + 1, 1);
  }

  lemma Epoch()
    ensures DaysFromCivil(1970, 1, 1) == 0
  {
  }

  lemma MonthAfter(y: int, m: nat)
    requires 1 <= m <= 12
    ensures m < 12 ==> DaysBeforeMonth(y, m + 1) == DaysBeforeMonth(y, m) + MonthLength(y, m)
    ensures m == 12 ==> DaysBeforeMonth(y, m) + MonthLength(y, m) == YearLength(y)
    ensures DaysBeforeMonth(y, 1) == 0
  {
    hide IsLeap;
    MonthsSum(y, 12);
  }

  lemma YearAfter(y: int)
    ensures DaysBeforeYear(y + 1) == DaysBeforeYear(y) + YearLength(y)
  {
    hide IsLeap;
  }

  predicate Earlier(s: Date, t: Date) {
    s.y < t.y || (s.y == t.y && (s.m < t.m || (s.m == t.m && s.d < t.d)))
  }

  lemma {:induction false} YearsOrdered(x: int, y: int)
    requires x <= y
    ensures DaysBeforeYear(x) + 365 * (y - x) <= DaysBeforeYear(y)
    decreases y - x
  {
    if x < y {
      YearsOrdered(x, y - 1);
      YearAfter(y - 1);
      hide DaysBeforeYear;
    }
  }

  lemma {:induction false} MonthsOrdered(y: int, m: nat, n: nat)
    requires 1 <= m < n
    ensures DaysBeforeMonth(y, m) + MonthLength(y, m) <= DaysBeforeMonth(y, n)
    decreases n
  {
    hide MonthLength;
    if m < n - 1 {
      MonthsOrdered(y, m, n - 1);
    }
  }

  /** A valid date lies inside its year. */
  lemma WithinYear(t: Date)
    requires ValidDate(t)
    ensures DaysBeforeMonth(t.y, t.m) + t.d <= YearLength(t.y)
  {
    hide IsLeap;
    MonthsSum(t.y, 12);
    if t.m < 12 {
      MonthsOrdered(t.y, t.m, 12);
    }
    hide DaysBeforeMonth;
  }

  /** Day numbers grow with the date, so two valid dates with the same number are the same date. */
  lemma DaysOrdered(s: Date, t: Date)
    requires ValidDate(s) && ValidDate(t)
    ensures DayNumber(s) < DayNumber(t) <==> Earlier(s, t)
    ensures DayNumber(s) == DayNumber(t) <==> s == t
  {
    hide DayNumber, MonthLength;
    if Earlier(s, t) {
      EarlierIsLess(s, t);
    } else if Earlier(t, s) {
      EarlierIsLess(t, s);
    }
  }

  lemma EarlierIsLess(s: Date, t: Date)
    requires ValidDate(s) && ValidDate(t) && Earlier(s, t)
    ensures DayNumber(s) < DayNumber(t)
  {
    CivilIsCount(s.y, s.m, s.d);
    CivilIsCount(t.y, t.m, t.d);
    hide DaysFromCivil, MonthLength, DaysBeforeYear, DaysBeforeMonth, YearLength;
    if s.y < t.y {
      WithinYear(s);
      YearAfter(s.y);
      YearsOrdered(s.y + 1, t.y);
    } else if s.m < t.m {
      MonthsOrdered(s.y, s.m, t.m);
    }
  }

  // ----- RFC 3339 timestamps (section 5.6 of RFC 3339)

  /** The parts of a timestamp: a fraction without its dot, "" for none, and an offset in minutes, None for Z. */
  datatype Zone = Utc | Offset(negative: bool, hours: nat, minutes: nat)
  datatype Stamp = Stamp(
    year: nat, month: nat, day: nat, hour: nat, minute: nat, second: nat, fraction: string, zone: Zone)

  /** What the pattern and the range checks let through: day 31 of any month, second 60, and any two-digit offset. */
  predicate Admissible(t: Stamp) {
    && t.year < 10000 && 1 <= t.month <= 12 && 1 <= t.day <= 31 && t.hour <= 23 && t.minute <= 59 && t.second <= 60
    && AllDigits(t.fraction)
    && (t.zone.Offset? ==> t.zone.hours < 100 && t.zone.minutes < 100)
  }

  function DigitsAt(s: string, i: nat, n: nat): (r: Option<nat>)
    requires i + n <= |s|
  {
    if AllDigits(s[i..i + n]) then Some(Number(s[i..i + n])) else None
  }

  /** A zone up to the end of the text: Z, or a sign, two digits, a colon and two digits. */
  function ParseZone(s: string): Option<Zone> {
    if s == "Z" then Some(Utc)
    else if |s| == 6 && (s[0] == '+' || s[0] == '-') && s[3] == ':'
            && DigitsAt(s, 1, 2).Some? && DigitsAt(s, 4, 2).Some? then
      Some(Offset(s[0] == '-', DigitsAt(s, 1, 2).value, DigitsAt(s, 4, 2).value))
    else None
  }

  /** The optional fraction and the zone. */
  function ParseTail(s: string): Option<(string, Zone)> {
    if s != "" && s[0] == '.' then
      var d := LeadingDigits(s[1..]);
      if d == "" then None
      else
        LeadingIsPrefix(s[1..]);
        match ParseZone(s[1 + |d|..])
        case None => None
        case Some(z) => Some((d, z))
    else
      match ParseZone(s)
      case None => None
      case Some(z) => Some(("", z))
  }

  lemma {:induction false} LeadingIsPrefix(s: string)
    ensures |LeadingDigits(s)| <= |s| && s[..|LeadingDigits(s)|] == LeadingDigits(s)
  {
    if s != "" && IsDigit(s[0]) {
      LeadingIsPrefix(s[1..]);
    }
  }

  /** The pattern, then the range checks. */
  function ParseStamp(s: string): Option<Stamp> {
    if |s| < 20 || s[4] != '-' || s[7] != '-' || s[10] != 'T' || s[13] != ':' || s[16] != ':' then None
    else
      match (DigitsAt(s, 0, 4), DigitsAt(s, 5, 2), DigitsAt(s, 8, 2), DigitsAt(s, 11, 2), DigitsAt(s, 14, 2),
             DigitsAt(s, 17, 2))
      case (Some(y), Some(mo), Some(d), Some(h), Some(mi), Some(sec)) =>
        if ParseTail(s[19..]).None? then None
        else if mo < 1 || mo > 12 || d < 1 || d > 31 || h > 23 || mi > 59 || sec > 60 then None
        else Some(Stamp(y, mo, d, h, mi, sec, ParseTail(s[19..]).value.0, ParseTail(s[19..]).value.1))
      case _ => None
  }

  /** The first three digits of the fraction, padded with zeros. */
  function FractionMillis(fraction: string): nat
    requires AllDigits(fraction)
  {
    if fraction == "" then 0
    else
      var f := if |fraction| > 3 then fraction[..3] else fraction;
      Number(f + seq(3 - |f|, _ => '0'))
  }

  function OffsetMinutes(z: Zone): int {
    match z
    case Utc => 0
    case Offset(negative, h, m) => var n: int := h * 60 + m; if negative then -n else n
  }

  /** Milliseconds since the epoch. */
  function StampMillis(t: Stamp): int
    requires Admissible(t)
  {
    var days := DaysFromCivil(t.year, t.month, t.day);
    var seconds := days * 86400 + t.hour * 3600 + t.minute * 60 + t.second - OffsetMinutes(t.zone) * 60;
    seconds * 1000 + FractionMillis(t.fraction)
  }

  /** parseRfc3339Millis */
  function ParseRfc3339Millis(s: string): Option<int> {
    match ParseStamp(s)
    case None => None
    case Some(t) =>
      ParsedIsAdmissible(s);
      Some(StampMillis(t))
  }

  lemma NumberBound(s: string, n: nat)
    requires AllDigits(s) && |s| == n
    ensures n == 2 ==> Number(s) < 100
    ensures n == 4 ==> Number(s) < 10000
    ensures n == 3 ==> Number(s) < 1000
  {
    ValueBound(DigitValues(s), 10);
    assert Pow(10, 2) == 100 && Pow(10, 3) == 1000 && Pow(10, 4) == 10000;
  }

  lemma DigitsAtBound(s: string, i: nat, n: nat)
    requires i + n <= |s| && DigitsAt(s, i, n).Some?
    ensures n == 2 ==> DigitsAt(s, i, n).value < 100
    ensures n == 4 ==> DigitsAt(s, i, n).value < 10000
  {
    NumberBound(s[i..i + n], n);
  }

  lemma ZoneInRange(s: string)
    requires ParseZone(s).Some? && ParseZone(s).value.Offset?
    ensures ParseZone(s).value.hours < 100 && ParseZone(s).value.minutes < 100
  {
    DigitsAtBound(s, 1, 2);
    DigitsAtBound(s, 4, 2);
  }

  lemma TailInRange(s: string)
    requires ParseTail(s).Some?
    ensures AllDigits(ParseTail(s).value.0)
    ensures ParseTail(s).value.1.Offset? ==> ParseTail(s).value.1.hours < 100 && ParseTail(s).value.1.minutes < 100
  {
    hide ParseZone;
    if s != "" && s[0] == '.' {
      LeadingIsPrefix(s[1..]);
      var rest := s[1 + |LeadingDigits(s[1..])|..];
      if ParseZone(rest).Some? && ParseZone(rest).value.Offset? {
        ZoneInRange(rest);
      }
    } else if ParseZone(s).Some? && ParseZone(s).value.Offset? {
      ZoneInRange(s);
    }
  }

  lemma ParsedIsAdmissible(s: string)
    requires ParseStamp(s).Some?
    ensures Admissible(ParseStamp(s).value)
  {
    hide DigitsAt, ParseTail;
    DigitsAtBound(s, 0, 4);
    TailInRange(s[19..]);
  }

  // ----- what the parser accepts

  /** A number in n digits. */
  function Padded(v: nat, n: nat): (s: string)
    ensures |s| == n && AllDigits(s)
  {
    FixedBelow(v, n);
    DigitText(Fixed(v, n, 10))
  }

  lemma {:induction false} FixedBelow(v: nat, n: nat)
    ensures Below(Fixed(v, n, 10), 10)
  {
    if n > 0 {
      FixedBelow(v / 10, n - 1);
    }
  }

  lemma PaddedMeaning(v: nat, n: nat)
    requires v < Pow(10, n)
    ensures Number(Padded(v, n)) == v
  {
    FixedMeaning(v, n, 10);
    assert DigitValues(Padded(v, n)) == Fixed(v, n, 10);
  }

  lemma PaddedUnique(s: string)
    requires AllDigits(s)
    ensures s == Padded(Number(s), |s|)
  {
    ValueBound(DigitValues(s), 10);
    FixedMeaning(Number(s), |s|, 10);
    FixedUnique(DigitValues(s), Fixed(Number(s), |s|, 10), 10);
    forall i | 0 <= i < |s|
      ensures s[i] == Padded(Number(s), |s|)[i]
    {
      assert DigitValues(s)[i] == Fixed(Number(s), |s|, 10)[i];
    }
  }

  function PrintZone(z: Zone): string {
    match z
    case Utc => "Z"
    case Offset(negative, h, m) => (if negative then "-" else "+") + Padded(h, 2) + ":" + Padded(m, 2)
  }

  function PrintTail(fraction: string, z: Zone): string {
    (if fraction == "" then "" else "." + fraction) + PrintZone(z)
  }

  function PrintHead(t: Stamp): (s: string)
    ensures |s| == 19
  {
    Padded(t.year, 4) + "-" + Padded(t.month, 2) + "-" + Padded(t.day, 2)
    + "T" + Padded(t.hour, 2) + ":" + Padded(t.minute, 2) + ":" + Padded(t.second, 2)
  }

  function PrintStamp(t: Stamp): string {
    PrintHead(t) + PrintTail(t.fraction, t.zone)
  }

  lemma SmallPowers()
    ensures Pow(10, 2) == 100 && Pow(10, 3) == 1000 && Pow(10, 4) == 10000
  {
  }

  /** The digits at a place say v exactly when v is printed there. */
  lemma DigitsAtExact(s: string, i: nat, n: nat, v: nat)
    requires i + n <= |s| && (n == 2 || n == 4)
    ensures DigitsAt(s, i, n) == Some(v) <==> v < Pow(10, n) && s[i..i + n] == Padded(v, n)
  {
    var d := s[i..i + n];
    if AllDigits(d) {
      ValueBound(DigitValues(d), 10);
      PaddedUnique(d);
    }
    hide Number, Padded, Pow;
    if v < Pow(10, n) {
      PaddedMeaning(v, n);
    }
  }

  lemma ZoneExact(s: string, z: Zone)
    ensures ParseZone(s) == Some(z) <==> s == PrintZone(z) && (z.Offset? ==> z.hours < 100 && z.minutes < 100)
  {
    hide DigitsAt, Padded;
    SmallPowers();
    if z.Offset? {
      if |s| == 6 {
        hide Pow;
        DigitsAtExact(s, 1, 2, z.hours);
        DigitsAtExact(s, 4, 2, z.minutes);
        assert s == [s[0]] + s[1..3] + [s[3]] + s[4..6];
        if s == PrintZone(z) {
          assert s[1..3] == Padded(z.hours, 2) && s[4..6] == Padded(z.minutes, 2) && s[3] == ':';
        }
      }
    }
  }

  lemma {:induction false} LeadingOfJoin(d: string, rest: string)
    requires AllDigits(d) && (rest == "" || !IsDigit(rest[0]))
    ensures LeadingDigits(d + rest) == d
  {
    if d == "" {
      assert d + rest == rest;
    } else {
      assert (d + rest)[1..] == d[1..] + rest;
      LeadingOfJoin(d[1..], rest);
    }
  }

  lemma ZoneStart(z: Zone)
    ensures PrintZone(z) != "" && !IsDigit(PrintZone(z)[0]) && PrintZone(z)[0] != '.'
  {
  }

  predicate TailOk(fraction: string, z: Zone) {
    AllDigits(fraction) && (z.Offset? ==> z.hours < 100 && z.minutes < 100)
  }

  lemma TailExact(s: string, fraction: string, z: Zone)
    ensures ParseTail(s) == Some((fraction, z)) <==> s == PrintTail(fraction, z) && TailOk(fraction, z)
  {
    ZoneStart(z);
    hide ParseZone, PrintZone;
    if s != "" && s[0] == '.' {
      LeadingIsPrefix(s[1..]);
      var d := LeadingDigits(s[1..]);
      ZoneExact(s[1 + |d|..], z);
      assert s == "." + d + s[1 + |d|..];
      if s == PrintTail(fraction, z) && TailOk(fraction, z) {
        assert s[1..] == fraction + PrintZone(z);
        LeadingOfJoin(fraction, PrintZone(z));
        assert s[1 + |d|..] == PrintZone(z);
      }
    } else {
      ZoneExact(s, z);
      if fraction == "" {
        assert PrintTail(fraction, z) == PrintZone(z);
      }
    }
  }

  lemma HeadParts(t: Stamp, tail: string)
    ensures var s := PrintHead(t) + tail;
            && s[0..4] == Padded(t.year, 4) && s[4] == '-' && s[5..7] == Padded(t.month, 2) && s[7] == '-'
            && s[8..10] == Padded(t.day, 2) && s[10] == 'T' && s[11..13] == Padded(t.hour, 2) && s[13] == ':'
            && s[14..16] == Padded(t.minute, 2) && s[16] == ':' && s[17..19] == Padded(t.second, 2) && s[19..] == tail
  {
    hide Padded;
  }

  lemma HeadFromParts(s: string, t: Stamp)
    requires |s| >= 19
    requires s[0..4] == Padded(t.year, 4) && s[4] == '-' && s[5..7] == Padded(t.month, 2) && s[7] == '-'
    requires s[8..10] == Padded(t.day, 2) && s[10] == 'T' && s[11..13] == Padded(t.hour, 2) && s[13] == ':'
    requires s[14..16] == Padded(t.minute, 2) && s[16] == ':' && s[17..19] == Padded(t.second, 2)
    ensures s == PrintHead(t) + s[19..]
  {
    hide Padded;
    assert s == s[0..4] + [s[4]] + s[5..7] + [s[7]] + s[8..10] + [s[10]] + s[11..13] + [s[13]] + s[14..16] + [s[16]]
        + s[17..19] + s[19..];
  }

  /** The six numbers of the head, each printed at its place. */
  lemma HeadExact(s: string, t: Stamp)
    requires |s| >= 19
    ensures DigitsAt(s, 0, 4) == Some(t.year) <==> t.year < 10000 && s[0..4] == Padded(t.year, 4)
    ensures DigitsAt(s, 5, 2) == Some(t.month) <==> t.month < 100 && s[5..7] == Padded(t.month, 2)
    ensures DigitsAt(s, 8, 2) == Some(t.day) <==> t.day < 100 && s[8..10] == Padded(t.day, 2)
    ensures DigitsAt(s, 11, 2) == Some(t.hour) <==> t.hour < 100 && s[11..13] == Padded(t.hour, 2)
    ensures DigitsAt(s, 14, 2) == Some(t.minute) <==> t.minute < 100 && s[14..16] == Padded(t.minute, 2)
    ensures DigitsAt(s, 17, 2) == Some(t.second) <==> t.second < 100 && s[17..19] == Padded(t.second, 2)
  {
    SmallPowers();
    hide DigitsAt, Padded, Pow;
    DigitsAtExact(s, 0, 4, t.year);
    DigitsAtExact(s, 5, 2, t.month);
    DigitsAtExact(s, 8, 2, t.day);
    DigitsAtExact(s, 11, 2, t.hour);
    DigitsAtExact(s, 14, 2, t.minute);
    DigitsAtExact(s, 17, 2, t.second);
  }

  /** The parser reads a text as a stamp exactly when the text is that stamp printed and the stamp is admissible:
      nothing else is accepted, nothing is confused, and leading zeros and field widths are fixed. */
  lemma StampExact(s: string, t: Stamp)
    ensures ParseStamp(s) == Some(t) <==> s == PrintStamp(t) && Admissible(t)
  {
    if |s| >= 19 {
      HeadExact(s, t);
      TailExact(s[19..], t.fraction, t.zone);
    }
    hide DigitsAt, Padded, ParseTail, PrintTail, PrintHead;
    if s == PrintStamp(t) && Admissible(t) {
      HeadParts(t, PrintTail(t.fraction, t.zone));
      TailNotEmpty(t.fraction, t.zone);
    }
    if ParseStamp(s) == Some(t) {
      ParsedIsAdmissible(s);
      HeadFromParts(s, t);
    }
  }

  lemma TailNotEmpty(fraction: string, z: Zone)
    ensures PrintTail(fraction, z) != ""
  {
  }

  // ----- instants

  /** Local time to the minute. */
  datatype Clock = Clock(date: Date, hour: nat, minute: nat)

  predicate ValidClock(c: Clock) {
    ValidDate(c.date) && c.hour < 24 && c.minute < 60
  }

  function NextMinute(c: Clock): (n: Clock)
    requires ValidClock(c)
    ensures ValidClock(n)
  {
    if c.minute < 59 then c.(minute := c.minute + 1)
    else if c.hour < 23 then Clock(c.date, c.hour + 1, 0)
    else Clock(NextDay(c.date), 0, 0)
  }

  function MinutesLater(c: Clock, k: nat): (n: Clock)
    requires ValidClock(c)
    ensures ValidClock(n)
  {
    if k == 0 then c else NextMinute(MinutesLater(c, k - 1))
  }

  function MinuteNumber(c: Clock): int
    requires ValidClock(c)
  {
    DayNumber(c.date) * 1440 + c.hour * 60 + c.minute
  }

  lemma {:induction false} LaterCounts(c: Clock, k: nat)
    requires ValidClock(c)
    ensures MinuteNumber(MinutesLater(c, k)) == MinuteNumber(c) + k
  {
    hide MinuteNumber, NextMinute, ValidClock;
    if k > 0 {
      LaterCounts(c, k - 1);
      NextMinuteCounts(MinutesLater(c, k - 1));
    }
  }

  lemma NextMinuteCounts(c: Clock)
    requires ValidClock(c)
    ensures MinuteNumber(NextMinute(c)) == MinuteNumber(c) + 1
  {
    hide DayNumber, NextDay, MonthLength;
    NextDayCounts(c.date);
  }

  lemma ClockFromNumber(c: Clock, d: Clock)
    requires ValidClock(c) && ValidClock(d) && MinuteNumber(c) == MinuteNumber(d)
    ensures c == d
  {
    DaysOrdered(c.date, d.date);
    hide DayNumber, ValidDate;
  }

  function LocalClock(t: Stamp): Clock {
    Clock(Date(t.year, t.month, t.day), t.hour, t.minute)
  }

  /** A stamp of a real date and time of day, leap seconds aside. */
  predicate Proper(t: Stamp) {
    Admissible(t) && ValidClock(LocalClock(t)) && t.second < 60
  }

  lemma FractionBound(fraction: string)
    requires AllDigits(fraction)
    ensures FractionMillis(fraction) < 1000
  {
    hide Number;
    if fraction != "" {
      var f := if |fraction| > 3 then fraction[..3] else fraction;
      NumberBound(f + seq(3 - |f|, _ => '0'), 3);
    }
  }

  lemma MillisOfMinute(t: Stamp)
    requires Admissible(t) && ValidClock(LocalClock(t))
    ensures StampMillis(t)
         == (MinuteNumber(LocalClock(t)) - OffsetMinutes(t.zone)) * 60000 + t.second * 1000 + FractionMillis(t.fraction)
  {
    hide DaysFromCivil, FractionMillis, OffsetMinutes, ValidDate;
  }

  /** Two timestamps with real dates normalize to the same milliseconds exactly when they denote the same instant: the
      local time of the one further east is the other's, moved on minute by minute through the calendar by the
      difference of the offsets, and seconds and milliseconds agree. */
  lemma SameMillisIsSameInstant(t: Stamp, u: Stamp)
    requires Proper(t) && Proper(u) && OffsetMinutes(t.zone) <= OffsetMinutes(u.zone)
    ensures StampMillis(t) == StampMillis(u)
       <==> LocalClock(u) == MinutesLater(LocalClock(t), OffsetMinutes(u.zone) - OffsetMinutes(t.zone))
            && t.second == u.second && FractionMillis(t.fraction) == FractionMillis(u.fraction)
  {
    hide *;
    ProperParts(t);
    ProperParts(u);
    var k := OffsetMinutes(u.zone) - OffsetMinutes(t.zone);
    MillisOfMinute(t);
    MillisOfMinute(u);
    LaterCounts(LocalClock(t), k);
    MixedUnits(MinuteNumber(LocalClock(t)) - OffsetMinutes(t.zone), t.second, FractionMillis(t.fraction),
               MinuteNumber(LocalClock(u)) - OffsetMinutes(u.zone), u.second, FractionMillis(u.fraction));
    if MinuteNumber(LocalClock(u)) == MinuteNumber(LocalClock(t)) + k {
      ClockFromNumber(LocalClock(u), MinutesLater(LocalClock(t), k));
    }
  }

  lemma ProperParts(t: Stamp)
    requires Proper(t)
    ensures Admissible(t) && ValidClock(LocalClock(t)) && AllDigits(t.fraction) && t.second < 60
    ensures FractionMillis(t.fraction) < 1000
  {
    FractionBound(t.fraction);
  }

  /** Minutes, seconds and milliseconds can be told apart in their total. */
  lemma MixedUnits(m: int, s: nat, f: nat, n: int, r: nat, g: nat)
    requires s < 60 && r < 60 && f < 1000 && g < 1000
    ensures m * 60000 + s * 1000 + f == n * 60000 + r * 1000 + g <==> m == n && s == r && f == g
  {
  }

  /** A leap second is read as the first second of the next minute: this is why the seconds must be below 60 above. */
  lemma LeapSecondIsNextMinute(t: Stamp, u: Stamp)
    requires Admissible(t) && ValidClock(LocalClock(t)) && t.second == 60
    requires Proper(u) && LocalClock(u) == NextMinute(LocalClock(t)) && u.second == 0
    requires u.fraction == t.fraction && u.zone == t.zone
    ensures StampMillis(t) == StampMillis(u)
  {
    assert MinutesLater(LocalClock(t), 0) == LocalClock(t);
    LaterCounts(LocalClock(t), 1);
    MillisOfMinute(t);
    MillisOfMinute(u);
    hide StampMillis, FractionMillis, OffsetMinutes, MinuteNumber, ValidDate;
  }

  /** The fraction is cut, not rounded, to milliseconds. */
  lemma FractionIsFloor(fraction: string)
    requires AllDigits(fraction)
    ensures FractionMillis(fraction) * Pow(10, |fraction|) <= Number(fraction) * 1000
         < (FractionMillis(fraction) + 1) * Pow(10, |fraction|)
  {
    if fraction == "" {
    } else if |fraction| <= 3 {
      ShortFraction(fraction);
    } else {
      LongFraction(fraction);
    }
  }

  lemma ShortFraction(fraction: string)
    requires AllDigits(fraction) && 1 <= |fraction| <= 3
    ensures FractionMillis(fraction) * Pow(10, |fraction|) == Number(fraction) * 1000
    ensures Number(fraction) * 1000 < (FractionMillis(fraction) + 1) * Pow(10, |fraction|)
  {
    hide Pow, Value, DigitValues, AllDigits;
    var k := 3 - |fraction|;
    ZerosAppended(fraction, k);
    ValueConcat(DigitValues(fraction), Zeros(k), 10);
    ZerosValue(k, 10);
    PowAdd(10, k, |fraction|);
    SmallPowers();
    PowPositive(10, |fraction|);
    ExactScale(Number(fraction), Pow(10, k), Pow(10, |fraction|));
  }

  lemma ZerosAppended(s: string, k: nat)
    requires AllDigits(s)
    ensures AllDigits(s + seq(k, _ => '0')) && DigitValues(s + seq(k, _ => '0')) == DigitValues(s) + Zeros(k)
  {
  }

  lemma ExactScale(v: nat, p: nat, q: nat)
    requires p * q == 1000 && q > 0
    ensures v * p * q == v * 1000 && v * 1000 < (v * p + 1) * q
  {
    MulAssoc(v, p, q);
    Distribute(v * p, 1, q);
  }

  lemma LongFraction(fraction: string)
    requires AllDigits(fraction) && |fraction| > 3
    ensures FractionMillis(fraction) * Pow(10, |fraction|) <= Number(fraction) * 1000
         < (FractionMillis(fraction) + 1) * Pow(10, |fraction|)
  {
    hide Pow, Value, DigitValues, AllDigits;
    var head, tail := DigitValues(fraction)[..3], DigitValues(fraction)[3..];
    FirstDigits(fraction);
    assert DigitValues(fraction) == head + tail;
    ValueConcat(head, tail, 10);
    ValueBound(tail, 10);
    PowAdd(10, |tail|, 3);
    SmallPowers();
    FloorStep(Value(head, 10), Value(tail, 10), Pow(10, |tail|));
  }

  lemma FirstDigits(fraction: string)
    requires AllDigits(fraction) && |fraction| > 3
    ensures AllDigits(fraction[..3]) && DigitValues(fraction[..3]) == DigitValues(fraction)[..3]
    ensures FractionMillis(fraction) == Number(fraction[..3])
  {
    hide Number;
    assert fraction[..3] + seq(0, _ => '0') == fraction[..3];
  }

  lemma FloorStep(v: nat, w: nat, p: nat)
    requires w < p
    ensures v * (p * 1000) <= (v * p + w) * 1000 < (v + 1) * (p * 1000)
  {
    MulAssoc(v, p, 1000);
    Distribute(v, 1, p * 1000);
  }

  // ----- toSignedTimestamp

  /** The text form: nothing for "", digits and unreadable texts unchanged, RFC 3339 as milliseconds. */
  function ToSignedTimestamp(createdAt: string): Option<string> {
    if createdAt == "" then None
    else if AllDigits(createdAt) then Some(createdAt)
    else
      match ParseRfc3339Millis(createdAt)
      case Some(millis) => Some(ToString(millis))
      case None => Some(createdAt)
  }

  /** Normalizing twice changes nothing, and only an empty text has no result. */
  lemma SignedTimestampIdempotent(createdAt: string)
    requires createdAt != ""
    ensures ToSignedTimestamp(createdAt).Some?
    ensures ToSignedTimestamp(ToSignedTimestamp(createdAt).value) == ToSignedTimestamp(createdAt)
  {
    hide ParseRfc3339Millis;
    if !AllDigits(createdAt) && ParseRfc3339Millis(createdAt).Some? {
      NumberIsNoStamp(ParseRfc3339Millis(createdAt).value);
    }
  }

  /** A printed integer is not a timestamp. */
  lemma NumberIsNoStamp(n: int)
    ensures ToString(n) != "" && (AllDigits(ToString(n)) || ParseRfc3339Millis(ToString(n)) == None)
  {
    hide NatText;
    var s := ToString(n);
    if n < 0 && |s| >= 20 {
      assert s[0..4][0] == '-';
      hide Number, ParseTail;
    }
  }

  /** An admissible timestamp is replaced by its milliseconds; two texts of the same instant become the same text. */
  lemma TimestampNormalized(t: Stamp)
    requires Admissible(t)
    ensures ToSignedTimestamp(PrintStamp(t)) == Some(ToString(StampMillis(t)))
  {
    StampExact(PrintStamp(t), t);
    hide StampMillis, ParseStamp, Padded;
    assert PrintStamp(t)[4] == '-';
  }

  /** Two timestamps become the same text exactly when they have the same milliseconds. */
  lemma SameTextSameMillis(t: Stamp, u: Stamp)
    requires Admissible(t) && Admissible(u)
    ensures ToSignedTimestamp(PrintStamp(t)) == ToSignedTimestamp(PrintStamp(u)) <==> StampMillis(t) == StampMillis(u)
  {
    TimestampNormalized(t);
    TimestampNormalized(u);
    hide ToSignedTimestamp, StampMillis, PrintStamp;
    if ToString(StampMillis(t)) == ToString(StampMillis(u)) {
      ToStringInjective(StampMillis(t), StampMillis(u));
    }
  }

  // ----- a literal timestamp, and what is and is not one

  /** A literal timestamp: field order, separators, offset sign, epoch and unit. */
  lemma StampVector()
    ensures ParseRfc3339Millis("2024-02-29T12:34:56.789+01:30") == Some(1709204696789)
  {
    var t := Stamp(2024, 2, 29, 12, 34, 56, "789", Offset(false, 1, 30));
    hide ParseStamp, PrintStamp, FractionMillis, DaysFromCivil;
    StampText();
    FractionVector();
    assert Admissible(t);
    StampExact("2024-02-29T12:34:56.789+01:30", t);
    DayVector();
  }

  lemma DayVector()
    ensures DaysFromCivil(2024, 2, 29) == 19782
  {
  }

  lemma FractionVector()
    ensures AllDigits("789") && FractionMillis("789") == 789
  {
    assert "789" + seq(0, _ => '0') == "789";
    assert DigitValues("789") == [7, 8, 9] && [7, 8, 9][..2] == [7, 8] && [7, 8][..1] == [7] && [7][..0] == [];
  }

  lemma TwoDigits(v: nat)
    requires v < 100
    ensures Padded(v, 2) == [(48 + v / 10) as char, (48 + v % 10) as char]
  {
    assert Fixed(v, 2, 10) == [v / 10 % 10, v % 10] by {
      assert Fixed(v / 10, 1, 10) == [v / 10 % 10];
    }
    assert v / 10 % 10 == v / 10;
  }

  lemma StampText()
    ensures PrintStamp(Stamp(2024, 2, 29, 12, 34, 56, "789", Offset(false, 1, 30))) == "2024-02-29T12:34:56.789+01:30"
  {
    HeadText(Stamp(2024, 2, 29, 12, 34, 56, "789", Offset(false, 1, 30)));
    TailText();
    hide PrintHead, PrintTail;
    assert "2024-02-29T12:34:56" + ".789+01:30" == "2024-02-29T12:34:56.789+01:30";
  }

  lemma PartTexts()
    ensures Padded(2, 2) == "02" && Padded(29, 2) == "29" && Padded(12, 2) == "12" && Padded(34, 2) == "34"
    ensures Padded(56, 2) == "56" && Padded(1, 2) == "01" && Padded(30, 2) == "30" && Padded(2024, 4) == "2024"
  {
    TwoDigits(2);
    TwoDigits(29);
    TwoDigits(12);
    TwoDigits(34);
    TwoDigits(56);
    TwoDigits(1);
    TwoDigits(30);
    YearText();
    hide Padded;
  }

  lemma HeadText(t: Stamp)
    requires t.year == 2024 && t.month == 2 && t.day == 29 && t.hour == 12 && t.minute == 34 && t.second == 56
    ensures PrintHead(t) == "2024-02-29T12:34:56"
  {
    PartTexts();
    hide Padded;
    assert PrintHead(t) == "2024" + "-" + "02" + "-" + "29" + "T" + "12" + ":" + "34" + ":" + "56";
  }

  lemma TailText()
    ensures PrintTail("789", Offset(false, 1, 30)) == ".789+01:30"
  {
    PartTexts();
    hide Padded;
    assert PrintTail("789", Offset(false, 1, 30)) == "." + "789" + ("+" + "01" + ":" + "30");
  }

  lemma YearText()
    ensures Padded(2024, 4) == "2024"
  {
    assert Fixed(2, 1, 10) == [2] && Fixed(20, 2, 10) == [2, 0] && Fixed(202, 3, 10) == [2, 0, 2];
    assert Fixed(2024, 4, 10) == [2, 0, 2, 4];
  }

  /** What may be printed and read back: any time of day with second 60, on any day up to the 31st. */
  lemma TimesAreAdmissible(t: Stamp)
    requires t.year < 10000 && AllDigits(t.fraction)
    requires t.zone.Offset? ==> t.zone.hours < 100 && t.zone.minutes < 100
    ensures Admissible(t) <==>
      1 <= t.month <= 12 && 1 <= t.day <= 31 && t.hour < 24 && t.minute < 60 && t.second <= 60
    ensures Admissible(t) ==> (Proper(t) <==> t.day <= MonthLength(t.year, t.month) && t.second < 60)
  {
  }

  /** Every text is kept unless it is an admissible timestamp. */
  lemma OnlyStampsChange(s: string)
    requires s != ""
    ensures ToSignedTimestamp(s) == Some(s) || exists t :: Admissible(t) && PrintStamp(t) == s
  {
    if !AllDigits(s) && ParseRfc3339Millis(s).Some? {
      var t := ParseStamp(s).value;
      StampExact(s, t);
      assert Admissible(t) && PrintStamp(t) == s;
    }
  }
}
