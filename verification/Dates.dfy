/** Instants as RFC 3339 writes them in UTC to the second, and the civil calendar
    behind them. */
module Dates {
  import opened Bits
  import opened Hashing
  import opened Seqs
  import opened Wrappers

  datatype Date = Date(year: nat, month: nat, day: nat)

  // -------------------------------------------------------------- the calendar

  predicate IsLeap(year: nat) {
    year % 4 == 0 && (year % 100 != 0 || year % 400 == 0)
  }

  function MonthLength(year: nat, month: nat): nat {
    if month == 2 then (if IsLeap(year) then 29 else 28)
    else if month in {4, 6, 9, 11} then 30
    else 31
  }

  /** A day the calendar has. */
  predicate Real(d: Date) {
    1 <= d.month <= 12 && 1 <= d.day <= MonthLength(d.year, d.month)
  }

  function NextDay(d: Date): Date {
    if d.day < MonthLength(d.year, d.month) then d.(day := d.day + 1)
    else if d.month < 12 then Date(d.year, d.month + 1, 1)
    else Date(d.year + 1, 1, 1)
  }

  // -------------------------------------------------------------- the algorithms

  /** Days before a month in a year that begins with March. */
  function DaysBefore(mp: nat): nat {
    (153 * mp + 2) / 5
  }

  /** A date as its year from March, its month of that year and its day of it. */
  function MarchYear(d: Date): int {
    if d.month <= 2 then d.year - 1 else d.year
  }

  function MarchMonth(d: Date): nat
    requires 1 <= d.month
  {
    if d.month > 2 then d.month - 3 else d.month + 9
  }

  function DayOfYear(d: Date): nat
    requires 1 <= d.month && 1 <= d.day
  {
    DaysBefore(MarchMonth(d)) + d.day - 1
  }

  /** Where in its era of 400 years a year that begins with March starts. */
  function YearStart(yoe: nat): nat {
    yoe * 365 + yoe / 4 - yoe / 100
  }

  /** Days from 1970-01-01, or nothing before it. */
  function DaysFromCivil(d: Date): Option<nat>
    requires 1 <= d.month <= 12 && 1 <= d.day
  {
    if MarchYear(d) < 0 then None
    else
      var era := MarchYear(d) / 400;
      var yoe := MarchYear(d) - era * 400;
      var days := era * 146097 + (YearStart(yoe) + DayOfYear(d));
      if days < 719468 then None else Some(days - 719468)
  }

  /** The year of its era a day falls in. */
  function YearOfEra(doe: nat): nat
    requires doe < 146097
  {
    (doe - doe / 1460 + doe / 36524 - doe / 146096) / 365
  }

  /** A year made of centuries, of olympiads and of years. */
  lemma {:induction false} YearParts(c: nat, q: nat, r: nat, doy: nat)
    requires c <= 3 && q <= 24 && r <= 3 && doy <= 365
    requires doy == 365 ==> r == 3 && (q < 24 || c == 3)
    ensures var doe := 36524 * c + 1461 * q + 365 * r + doy;
      doe < 146097 && YearOfEra(doe) == 100 * c + 4 * q + r
  {
    var doe := 36524 * c + 1461 * q + 365 * r + doy;
    var s := 1461 * q + 365 * r + doy;
    var e := 24 * c + q + 365 * r + doy;
    Century(c, s, doe);
    QuotientIs(doe, 1460, 25 * c + q + e / 1460, e % 1460);
    assert e / 1460 == (if e < 1460 then 0 else 1);
    QuotientIs(doe - doe / 1460 + c, 365, 100 * c + 4 * q + r, doy - e / 1460);
  }

  lemma {:induction false} Century(c: nat, s: nat, doe: nat)
    requires c <= 3 && s <= 36524 && (s == 36524 ==> c == 3) && doe == 36524 * c + s
    ensures doe < 146097 && doe / 36524 - doe / 146096 == c
  {
    if s < 36524 {
      QuotientIs(doe, 36524, c, s);
      QuotientIs(doe, 146096, 0, doe);
    } else {
      assert doe == 146096;
    }
  }

  /** A day of a month of a year that begins with March. */
  function FromMarch(year: nat, mp: nat, day: nat): Date
    requires mp <= 11
  {
    var month := if mp < 10 then mp + 3 else mp - 9;
    Date(year + (if month <= 2 then 1 else 0), month, day)
  }

  /** The calendar date of a day counted from 1970-01-01. */
  function CivilFromDays(days: nat): Date {
    var z := days + 719468;
    var era := z / 146097;
    var doe := z - era * 146097;
    var yoe := YearOfEra(doe);
    StartWithin(doe);
    var doy := doe - YearStart(yoe);
    var mp := (5 * doy + 2) / 153;
    MonthOf(doy);
    FromMarch(yoe + era * 400, mp, doy - DaysBefore(mp) + 1)
  }

  /** Its last day is a 29th of February. */
  predicate EndsLeap(yoe: nat) {
    IsLeap(yoe + 1)
  }

  /** A day of a year of its era is found in that year. */
  lemma {:induction false} YearFound(yoe: nat, doy: nat)
    requires yoe < 400 && doy <= 365 && (doy == 365 ==> EndsLeap(yoe))
    ensures YearStart(yoe) + doy < 146097 && YearOfEra(YearStart(yoe) + doy) == yoe
  {
    var c, y := yoe / 100, yoe % 100;
    var q, r := y / 4, y % 4;
    QuotientIs(yoe, 4, 25 * c + q, r);
    YearParts(c, q, r, doy);
  }

  /** A day of the era by centuries, olympiads and years. */
  lemma {:induction false} DayParts(doe: nat) returns (c: nat, q: nat, r: nat, doy: nat)
    requires doe < 146097
    ensures c <= 3 && q <= 24 && r <= 3 && doy <= 365 && (doy == 365 ==> r == 3 && (q < 24 || c == 3))
    ensures doe == 36524 * c + 1461 * q + 365 * r + doy
  {
    c := if doe == 146096 then 3 else doe / 36524;
    var s := doe - 36524 * c;
    q := s / 1461;
    var t := s - 1461 * q;
    r := if t == 1460 then 3 else t / 365;
    doy := t - 365 * r;
    assert c <= 3 && s <= 36524 && (s == 36524 ==> c == 3);
    assert q <= 24 && t <= 1460;
  }

  lemma {:induction false} StartOf(c: nat, q: nat, r: nat)
    requires c <= 3 && q <= 24 && r <= 3
    ensures YearStart(100 * c + 4 * q + r) == 36524 * c + 1461 * q + 365 * r
    ensures r == 3 && (q < 24 || c == 3) ==> EndsLeap(100 * c + 4 * q + r)
  {
    var yoe := 100 * c + 4 * q + r;
    QuotientIs(yoe, 100, c, 4 * q + r);
    QuotientIs(yoe, 4, 25 * c + q, r);
    if r == 3 {
      QuotientIs(yoe + 1, 4, 25 * c + q + 1, 0);
      if q < 24 {
        QuotientIs(yoe + 1, 100, c, 4 * q + 4);
      }
    }
  }

  /** Every day of the era is a day of the year found. */
  lemma {:induction false} StartWithin(doe: nat)
    requires doe < 146097
    ensures var yoe := YearOfEra(doe);
      yoe < 400 && YearStart(yoe) <= doe <= YearStart(yoe) + 365 && (doe == YearStart(yoe) + 365 ==> EndsLeap(yoe))
  {
    var c, q, r, doy := DayParts(doe);
    YearParts(c, q, r, doy);
    StartOf(c, q, r);
  }

  /** The month a day of the year falls in. */
  lemma {:induction false} MonthOf(doy: nat)
    requires doy <= 365
    ensures var mp := (5 * doy + 2) / 153; mp <= 11 && DaysBefore(mp) <= doy && (mp < 11 ==> doy < DaysBefore(mp + 1))
  {
  }

  lemma {:induction false} MonthFound(mp: nat, doy: nat)
    requires mp <= 11 && DaysBefore(mp) <= doy && (if mp < 11 then doy < DaysBefore(mp + 1) else doy <= 365)
    ensures (5 * doy + 2) / 153 == mp
  {
  }

  /** The month before which so many days lie, and how long it is. */
  lemma {:induction false} MonthSpan(mp: nat, year: nat)
    requires mp <= 11
    ensures var month := if mp < 10 then mp + 3 else mp - 9;
      && 1 <= month <= 12 && mp == (if month > 2 then month - 3 else month + 9)
      && (mp < 11 ==> DaysBefore(mp + 1) == DaysBefore(mp) + MonthLength(year, month))
      && (mp == 11 ==> DaysBefore(mp) + MonthLength(year, month) == if IsLeap(year) then 366 else 365)
  {
  }

  // ---------------------------------------------------------------- the two agree

  lemma {:induction false} LeapPeriod(y: nat, era: nat, yoe: nat)
    requires y == era * 400 + yoe
    ensures IsLeap(y) <==> IsLeap(yoe)
  {
    QuotientIs(y, 4, 100 * era + yoe / 4, yoe % 4);
    QuotientIs(y, 100, 4 * era + yoe / 100, yoe % 100);
    QuotientIs(y, 400, era + yoe / 400, yoe % 400);
  }

  /** A real day lies within its month's span and its year's. */
  lemma {:induction false} RealWithin(d: Date)
    requires Real(d)
    ensures var mp, doy := MarchMonth(d), DayOfYear(d);
      && mp <= 11 && DaysBefore(mp) <= doy && (if mp < 11 then doy < DaysBefore(mp + 1) else doy <= 365)
      && (doy == 365 ==> IsLeap(MarchYear(d) + 1))
  {
    MonthSpan(MarchMonth(d), d.year);
  }

  /** A day of a year of an era has the date of its month. */
  lemma {:induction false} DateOf(era: nat, yoe: nat, doy: nat, mp: nat, z: nat)
    requires yoe < 400 && doy <= 365 && (doy == 365 ==> EndsLeap(yoe))
    requires z == era * 146097 + (YearStart(yoe) + doy) && z >= 719468
    requires mp == (5 * doy + 2) / 153
    ensures mp <= 11 && DaysBefore(mp) <= doy
    ensures CivilFromDays(z - 719468) == FromMarch(yoe + era * 400, mp, doy - DaysBefore(mp) + 1)
  {
    YearFound(yoe, doy);
    QuotientIs(z, 146097, era, YearStart(yoe) + doy);
    MonthOf(doy);
  }

  lemma {:induction false} MarchBack(year: nat, mp: nat, day: nat)
    requires mp <= 11
    ensures var d := FromMarch(year, mp, day); MarchYear(d) == year && MarchMonth(d) == mp && d.day == day
  {
  }

  lemma {:induction false} MarchForth(d: Date, year: nat, mp: nat, day: nat)
    requires Real(d) && year == MarchYear(d) && mp == MarchMonth(d) && day == d.day
    ensures mp <= 11 && FromMarch(year, mp, day) == d
  {
  }

  /** The count of a date, by its era. */
  lemma {:induction false} DaysOf(d: Date, era: nat, yoe: nat, z: nat)
    requires 1 <= d.month <= 12 && 1 <= d.day && yoe < 400 && MarchYear(d) == yoe + era * 400
    requires z == era * 146097 + (YearStart(yoe) + DayOfYear(d))
    ensures DaysFromCivil(d) == if z < 719468 then None else Some(z - 719468)
  {
    QuotientIs(yoe + era * 400, 400, era, yoe);
  }

  /** Counting a date and dating the count is the identity. */
  lemma {:induction false} DateCounted(d: Date)
    requires Real(d) && DaysFromCivil(d).Some?
    ensures CivilFromDays(DaysFromCivil(d).value) == d
  {
    var y: nat := MarchYear(d);
    var era, yoe := y / 400, y % 400;
    var z := era * 146097 + (YearStart(yoe) + DayOfYear(d));
    DaysOf(d, era, yoe, z);
    DateCountedIn(d, era, yoe, z);
  }

  lemma {:induction false} DateCountedIn(d: Date, era: nat, yoe: nat, z: nat)
    requires Real(d) && yoe < 400 && MarchYear(d) == yoe + era * 400
    requires z == era * 146097 + (YearStart(yoe) + DayOfYear(d)) && z >= 719468
    ensures CivilFromDays(z - 719468) == d
  {
    var mp, doy := MarchMonth(d), DayOfYear(d);
    RealWithin(d);
    MarchForth(d, yoe + era * 400, mp, doy - DaysBefore(mp) + 1);
    if doy == 365 {
      LeapPeriod(MarchYear(d) + 1, era, yoe + 1);
    }
    MonthFound(mp, doy);
    DateOf(era, yoe, doy, mp, z);
  }

  /** Dating a count and counting the date is the identity; and the date is one the
      calendar has, from 1970 on. */
  lemma {:induction false} CountDated(days: nat)
    ensures Real(CivilFromDays(days)) && CivilFromDays(days).year >= 1970
    ensures DaysFromCivil(CivilFromDays(days)) == Some(days)
  {
    var z := days + 719468;
    var era, doe := z / 146097, z - z / 146097 * 146097;
    var yoe := YearOfEra(doe);
    StartWithin(doe);
    CountDatedIn(days, era, yoe, doe - YearStart(yoe));
  }

  lemma {:induction false} CountDatedIn(days: nat, era: nat, yoe: nat, doy: nat)
    requires yoe < 400 && doy <= 365 && (doy == 365 ==> EndsLeap(yoe))
    requires days + 719468 == era * 146097 + (YearStart(yoe) + doy)
    ensures Real(CivilFromDays(days)) && CivilFromDays(days).year >= 1970
    ensures DaysFromCivil(CivilFromDays(days)) == Some(days)
  {
    var z, mp := days + 719468, (5 * doy + 2) / 153;
    MonthOf(doy);
    DateOf(era, yoe, doy, mp, z);
    var day := doy - DaysBefore(mp) + 1;
    MarchBack(yoe + era * 400, mp, day);
    MarchReal(era, yoe, doy, mp);
    From1970(era, yoe, doy, mp, z);
    DaysOf(FromMarch(yoe + era * 400, mp, day), era, yoe, z);
  }

  lemma {:induction false} MarchReal(era: nat, yoe: nat, doy: nat, mp: nat)
    requires yoe < 400 && doy <= 365 && (doy == 365 ==> EndsLeap(yoe))
    requires mp <= 11 && DaysBefore(mp) <= doy && (mp < 11 ==> doy < DaysBefore(mp + 1))
    ensures Real(FromMarch(yoe + era * 400, mp, doy - DaysBefore(mp) + 1))
  {
    var d := FromMarch(yoe + era * 400, mp, doy - DaysBefore(mp) + 1);
    MonthSpan(mp, d.year);
    if mp == 11 {
      LeapPeriod(d.year, era, yoe + 1);
    }
  }

  lemma {:induction false} From1970(era: nat, yoe: nat, doy: nat, mp: nat, z: nat)
    requires yoe < 400 && doy <= 365 && z == era * 146097 + (YearStart(yoe) + doy) && z >= 719468
    requires mp <= 11 && DaysBefore(mp) <= doy && (mp < 11 ==> doy < DaysBefore(mp + 1))
    ensures FromMarch(yoe + era * 400, mp, doy - DaysBefore(mp) + 1).year >= 1970
  {
  }

  /** The calendar the count follows: 1970-01-01 is day nought, and each next day
      one more. */
  lemma {:induction false} Counts(d: Date)
    requires Real(d) && DaysFromCivil(d).Some?
    ensures DaysFromCivil(Date(1970, 1, 1)) == Some(0)
    ensures Real(NextDay(d)) && DaysFromCivil(NextDay(d)) == Some(DaysFromCivil(d).value + 1)
  {
    DaysOf(Date(1970, 1, 1), 4, 369, 719468);
    var y: nat := MarchYear(d);
    if d.day == MonthLength(d.year, d.month) && d.month == 2 {
      LastDay(d, y);
    } else {
      SameYear(d);
    }
  }

  lemma {:induction false} LastDay(d: Date, y: nat)
    requires Real(d) && d.day == MonthLength(d.year, d.month) && d.month == 2 && DaysFromCivil(d).Some?
    requires y == MarchYear(d)
    ensures Real(NextDay(d)) && DaysFromCivil(NextDay(d)) == Some(DaysFromCivil(d).value + 1)
  {
    MonthSpan(11, d.year);
    YearTurns(y);
  }

  lemma {:induction false} SameYear(d: Date)
    requires Real(d) && !(d.day == MonthLength(d.year, d.month) && d.month == 2)
    ensures Real(NextDay(d)) && MarchYear(NextDay(d)) == MarchYear(d) && DayOfYear(NextDay(d)) == DayOfYear(d) + 1
  {
    MonthSpan(MarchMonth(d), d.year);
  }

  /** Each year from March is as long as its February says. */
  lemma {:induction false} YearTurns(y: nat)
    ensures (y + 1) / 400 * 146097 + YearStart((y + 1) - (y + 1) / 400 * 400)
            == y / 400 * 146097 + YearStart(y - y / 400 * 400) + if IsLeap(y + 1) then 366 else 365
  {
    var era, yoe := y / 400, y - y / 400 * 400;
    LeapPeriod(y + 1, era, yoe + 1);
    YearGrows(yoe);
    if yoe == 399 {
      QuotientIs(y + 1, 400, era + 1, 0);
    } else {
      QuotientIs(y + 1, 400, era, yoe + 1);
    }
  }

  lemma {:induction false} YearGrows(yoe: nat)
    requires yoe < 400
    ensures YearStart(yoe + 1) == YearStart(yoe) + (if EndsLeap(yoe) && yoe < 399 then 366 else 365)
    ensures YearStart(399) + 366 == 146097 && EndsLeap(399) && YearStart(0) == 0
  {
    NextQuotient(yoe, 4);
    NextQuotient(yoe, 100);
    NextQuotient(yoe, 400);
  }

  // ----------------------------------------------------------------------- numbers

  const PLUS: Byte := 0x2b
  const MINUS: Byte := 0x2d
  const COLON: Byte := 0x3a
  const TEE: Byte := 0x54
  const ZED: Byte := 0x5a

  predicate IsDigit(b: Byte) {
    0x30 <= b <= 0x39
  }

  /** `n` in decimal, with zeros in front up to `w` characters. */
  function Padded(n: nat, w: nat): Bytes
    decreases n, w
  {
    if n < 10 && w <= 1 then [0x30 + n] else Padded(n / 10, if w > 0 then w - 1 else 0) + [0x30 + n % 10]
  }

  /** What a run of digits stands for. */
  function Digits(s: Bytes): Option<nat>
    decreases |s|
  {
    if s == [] then Some(0)
    else if !IsDigit(Last(s)) then None
    else
      match Digits(Init(s))
      case None => None
      case Some(n) => Some(10 * n + (Last(s) - 0x30))
  }

  /** `s.parse::<u64>().ok()` of a few characters: a plus sign may come first. */
  function Number(s: Bytes): Option<nat> {
    var digits := if s != [] && s[0] == PLUS then s[1..] else s;
    if digits == [] then None else Digits(digits)
  }

  function Power10(w: nat): nat {
    if w == 0 then 1 else 10 * Power10(w - 1)
  }

  lemma {:induction false} PaddedReads(n: nat, w: nat)
    requires w > 0 && n < Power10(w)
    ensures |Padded(n, w)| == w && IsDigit(Padded(n, w)[0]) && Digits(Padded(n, w)) == Some(n)
    decreases w
  {
    if w == 1 {
      assert Init(Padded(n, 1)) == [];
    } else {
      PaddedReads(n / 10, w - 1);
      Snoc(Padded(n / 10, w - 1), 0x30 + n % 10);
    }
  }

  /** A number written in its width reads back. */
  lemma {:induction false} NumberPadded(n: nat, w: nat)
    requires w > 0 && n < Power10(w)
    ensures |Padded(n, w)| == w && Number(Padded(n, w)) == Some(n)
  {
    PaddedReads(n, w);
  }

  /** Digits are how their number is written in as many characters. */
  lemma {:induction false} PaddedDigits(s: Bytes)
    requires s != [] && Digits(s).Some?
    ensures Padded(Digits(s).value, |s|) == s && Digits(s).value < Power10(|s|)
    decreases |s|
  {
    Unsnoc(s);
    if |s| > 1 {
      PaddedDigits(Init(s));
    } else {
      assert Power10(1) == 10 * Power10(0);
    }
  }

  /** One too large for its width takes more characters. */
  lemma {:induction false} PaddedLong(n: nat, w: nat)
    requires n >= Power10(w)
    ensures |Padded(n, w)| > w
    decreases n, w
  {
    if w > 0 {
      PaddedLong(n / 10, w - 1);
    }
  }

  // ---------------------------------------------------------------------- instants

  /** An instant as it is written. */
  function Stamp(d: Date, hour: nat, minute: nat, second: nat): Bytes {
    Padded(d.year, 4) + ([MINUS] + (Padded(d.month, 2) + ([MINUS] + (Padded(d.day, 2) + ([TEE] +
      (Padded(hour, 2) + ([COLON] + (Padded(minute, 2) + ([COLON] + (Padded(second, 2) + [ZED]))))))))))
  }

  /** A second of a day, as an instant. */
  function PrintOn(d: Date, rem: nat): Bytes {
    Stamp(d, rem / 3600, rem % 3600 / 60, rem % 60)
  }

  /** `now` at this many seconds from the epoch. */
  function Print(secs: nat): Bytes {
    PrintOn(CivilFromDays(secs / 86400), secs % 86400)
  }

  /** Seconds from the epoch of an instant to the second; nothing for any other
      form.  What stands between hours, minutes and seconds is not looked at. */
  function EpochOf(b: Bytes): Option<nat> {
    if |b| != 20 || b[4] != MINUS || b[7] != MINUS || b[10] != TEE || b[19] != ZED then None
    else
      match (Number(b[0..4]), Number(b[5..7]), Number(b[8..10]),
             Number(b[11..13]), Number(b[14..16]), Number(b[17..19]))
      case (Some(y), Some(m), Some(d), Some(hh), Some(mm), Some(ss)) => EpochAt(y, m, d, hh, mm, ss)
      case _ => None
  }

  function EpochAt(y: nat, m: nat, d: nat, hh: nat, mm: nat, ss: nat): Option<nat> {
    if !(1 <= m <= 12) || !(1 <= d <= 31) || hh > 23 || mm > 59 || ss > 60 then None
    else
      match DaysFromCivil(Date(y, m, d))
      case None => None
      case Some(days) => Some(days * 86400 + hh * 3600 + mm * 60 + ss)
  }

  lemma {:induction false} Field(a: Bytes, sep: Byte, rest: Bytes)
    ensures var s := a + ([sep] + rest); s[..|a|] == a && s[|a|] == sep && s[|a| + 1..] == rest
  {
  }

  lemma {:induction false} StampParts(a: Bytes, b: Bytes, c: Bytes, d: Bytes, e: Bytes, f: Bytes, s: Bytes)
    requires |a| == 4 && |b| == 2 && |c| == 2 && |d| == 2 && |e| == 2 && |f| == 2
    requires s == a + ([MINUS] + (b + ([MINUS] + (c + ([TEE] + (d + ([COLON] + (e + ([COLON] + (f + [ZED]))))))))))
    ensures |s| == 20 && s[4] == MINUS && s[7] == MINUS && s[10] == TEE && s[13] == COLON && s[16] == COLON
    ensures s[19] == ZED
    ensures s[0..4] == a && s[5..7] == b && s[8..10] == c
    ensures s[11..13] == d && s[14..16] == e && s[17..19] == f
  {
    var s5 := e + ([COLON] + (f + [ZED]));
    var s4 := d + ([COLON] + s5);
    var s3 := c + ([TEE] + s4);
    var s2 := b + ([MINUS] + s3);
    Field(a, MINUS, s2);
    Field(b, MINUS, s3);
    Field(c, TEE, s4);
    Field(d, COLON, s5);
    Field(e, COLON, f + [ZED]);
    assert s[5..7] == s2[..2] && s[8..10] == s3[..2] && s[11..13] == s4[..2] && s[14..16] == s5[..2];
    assert s[17..] == f + [ZED];
  }

  /** What is written is read. */
  lemma {:induction false} EpochStamp(d: Date, hour: nat, minute: nat, second: nat)
    requires d.year <= 9999 && d.month < 100 && d.day < 100 && hour < 100 && minute < 100 && second < 100
    ensures EpochOf(Stamp(d, hour, minute, second)) == EpochAt(d.year, d.month, d.day, hour, minute, second)
  {
    assert Power10(2) == 100 && Power10(4) == 10000;
    NumberPadded(d.year, 4);
    NumberPadded(d.month, 2);
    NumberPadded(d.day, 2);
    NumberPadded(hour, 2);
    NumberPadded(minute, 2);
    NumberPadded(second, 2);
    StampParts(Padded(d.year, 4), Padded(d.month, 2), Padded(d.day, 2), Padded(hour, 2), Padded(minute, 2),
               Padded(second, 2), Stamp(d, hour, minute, second));
  }

  lemma {:induction false} EpochAtReal(d: Date, days: nat, hour: nat, minute: nat, second: nat)
    requires Real(d) && DaysFromCivil(d) == Some(days) && hour < 24 && minute < 60 && second < 60
    ensures EpochAt(d.year, d.month, d.day, hour, minute, second)
           == Some(days * 86400 + hour * 3600 + minute * 60 + second)
  {
    assert Date(d.year, d.month, d.day) == d;
  }

  lemma {:induction false} EpochOfStamp(d: Date, days: nat, hour: nat, minute: nat, second: nat)
    requires Real(d) && d.year <= 9999 && DaysFromCivil(d) == Some(days) && hour < 24 && minute < 60 && second < 60
    ensures EpochOf(Stamp(d, hour, minute, second)) == Some(days * 86400 + hour * 3600 + minute * 60 + second)
  {
    EpochStamp(d, hour, minute, second);
    EpochAtReal(d, days, hour, minute, second);
  }

  lemma {:induction false} ClockParts(rem: nat)
    requires rem < 86400
    ensures rem / 3600 <= 23 && rem % 3600 / 60 <= 59 && rem % 60 <= 59
    ensures rem / 3600 * 3600 + rem % 3600 / 60 * 60 + rem % 60 == rem
  {
  }

  lemma {:induction false} PrintOnStamp(d: Date, hour: nat, minute: nat, second: nat)
    requires hour < 24 && minute < 60 && second < 60
    ensures PrintOn(d, hour * 3600 + minute * 60 + second) == Stamp(d, hour, minute, second)
  {
    var rem := hour * 3600 + minute * 60 + second;
    QuotientIs(rem, 3600, hour, minute * 60 + second);
    QuotientIs(minute * 60 + second, 60, minute, second);
    QuotientIs(rem, 60, hour * 60 + minute, second);
  }

  lemma {:induction false} PrintAt(d: Date, days: nat, rem: nat, secs: nat)
    requires CivilFromDays(days) == d && rem < 86400 && secs == days * 86400 + rem
    ensures Print(secs) == PrintOn(d, rem)
  {
    QuotientIs(secs, 86400, days, rem);
  }

  /** Every instant of a real day from 1970 on prints back as it was. */
  lemma {:induction false} ReadPrints(d: Date, hour: nat, minute: nat, second: nat) returns (secs: nat)
    requires Real(d) && 1970 <= d.year <= 9999 && hour < 24 && minute < 60 && second < 60
    ensures EpochOf(Stamp(d, hour, minute, second)) == Some(secs)
    ensures Print(secs) == Stamp(d, hour, minute, second)
    ensures DaysFromCivil(d).Some? && secs == DaysFromCivil(d).value * 86400 + hour * 3600 + minute * 60 + second
  {
    Since1970(d);
    DateCounted(d);
    var days := DaysFromCivil(d).value;
    secs := days * 86400 + hour * 3600 + minute * 60 + second;
    EpochOfStamp(d, days, hour, minute, second);
    PrintsAs(d, days, hour, minute, second, secs);
  }

  lemma {:induction false} PrintsAs(d: Date, days: nat, hour: nat, minute: nat, second: nat, secs: nat)
    requires CivilFromDays(days) == d && hour < 24 && minute < 60 && second < 60
    requires secs == days * 86400 + hour * 3600 + minute * 60 + second
    ensures Print(secs) == Stamp(d, hour, minute, second)
  {
    PrintOnStamp(d, hour, minute, second);
    PrintAt(d, days, hour * 3600 + minute * 60 + second, secs);
  }

  /** 9999-12-31 is day 2932896. */
  lemma {:induction false} UpTo9999(days: nat)
    requires days < 2932897
    ensures CivilFromDays(days).year <= 9999
  {
    var d := CivilFromDays(days);
    CountDated(days);
    var y: nat := MarchYear(d);
    var era, yoe := y / 400, y % 400;
    DaysOf(d, era, yoe, era * 146097 + (YearStart(yoe) + DayOfYear(d)));
    FarYears(era, yoe, MarchMonth(d));
  }

  lemma {:induction false} FarYears(era: nat, yoe: nat, mp: nat)
    requires yoe < 400 && mp <= 11
    ensures era * 400 + yoe + (if mp >= 10 then 1 else 0) > 9999 ==>
      era * 146097 + YearStart(yoe) + DaysBefore(mp) >= 3652365
  {
  }

  /** Every second up to the end of 9999 reads back from how it prints. */
  lemma {:induction false} PrintedReads(secs: nat)
    requires secs < 253402300800
    ensures EpochOf(Print(secs)) == Some(secs)
  {
    var days, rem := secs / 86400, secs % 86400;
    UpTo9999(days);
    ClockParts(rem);
    CountDated(days);
    var back := ReadPrints(CivilFromDays(days), rem / 3600, rem % 3600 / 60, rem % 60);
    assert back == secs;
  }

  lemma {:induction false} Since1970(d: Date)
    requires Real(d) && d.year >= 1970
    ensures DaysFromCivil(d).Some?
  {
    var y: nat := MarchYear(d);
    var era, yoe := y / 400, y % 400;
    DaysOf(d, era, yoe, era * 146097 + (YearStart(yoe) + DayOfYear(d)));
  }

  /** A real day from 1970 on and a second of it, in digits between their own
      separators. */
  predicate Canonical(b: Bytes) {
    && |b| == 20 && b[4] == MINUS && b[7] == MINUS && b[10] == TEE && b[13] == COLON && b[16] == COLON && b[19] == ZED
    && match (Digits(b[0..4]), Digits(b[5..7]), Digits(b[8..10]),
              Digits(b[11..13]), Digits(b[14..16]), Digits(b[17..19]))
       case (Some(y), Some(m), Some(d), Some(hh), Some(mm), Some(ss)) =>
         Real(Date(y, m, d)) && 1970 <= y && hh < 24 && mm < 60 && ss < 60
       case _ => false
  }

  /** Such a text is an instant written out. */
  lemma {:induction false} CanonicalIsStamp(text: Bytes) returns (d: Date, hour: nat, minute: nat, second: nat)
    requires Canonical(text)
    ensures Real(d) && 1970 <= d.year <= 9999 && hour < 24 && minute < 60 && second < 60
    ensures text == Stamp(d, hour, minute, second)
  {
    var y, m, day, hh, mm, ss := text[0..4], text[5..7], text[8..10], text[11..13], text[14..16], text[17..19];
    PaddedDigits(y);
    PaddedDigits(m);
    PaddedDigits(day);
    PaddedDigits(hh);
    PaddedDigits(mm);
    PaddedDigits(ss);
    d := Date(Digits(y).value, Digits(m).value, Digits(day).value);
    hour, minute, second := Digits(hh).value, Digits(mm).value, Digits(ss).value;
    assert Power10(4) == 10000;
    JoinParts(text, y, m, day, hh, mm, ss);
  }

  lemma {:induction false} JoinParts(s: Bytes, a: Bytes, b: Bytes, c: Bytes, d: Bytes, e: Bytes, f: Bytes)
    requires |s| == 20 && s[4] == MINUS && s[7] == MINUS && s[10] == TEE && s[13] == COLON && s[16] == COLON
    requires s[19] == ZED
    requires s[0..4] == a && s[5..7] == b && s[8..10] == c && s[11..13] == d && s[14..16] == e && s[17..19] == f
    ensures s == a + ([MINUS] + (b + ([MINUS] + (c + ([TEE] + (d + ([COLON] + (e + ([COLON] + (f + [ZED]))))))))))
  {
    assert s[17..] == f + [ZED];
    assert s[14..] == e + ([COLON] + s[17..]);
    assert s[11..] == d + ([COLON] + s[14..]);
    assert s[8..] == c + ([TEE] + s[11..]);
    assert s[5..] == b + ([MINUS] + s[8..]);
    assert s == a + ([MINUS] + s[5..]);
  }

  lemma {:induction false} StampIsCanonical(d: Date, hour: nat, minute: nat, second: nat)
    requires Real(d) && 1970 <= d.year <= 9999 && hour < 24 && minute < 60 && second < 60
    ensures Canonical(Stamp(d, hour, minute, second))
  {
    assert Power10(2) == 100 && Power10(4) == 10000;
    PaddedReads(d.year, 4);
    PaddedReads(d.month, 2);
    PaddedReads(d.day, 2);
    PaddedReads(hour, 2);
    PaddedReads(minute, 2);
    PaddedReads(second, 2);
    StampParts(Padded(d.year, 4), Padded(d.month, 2), Padded(d.day, 2), Padded(hour, 2), Padded(minute, 2),
               Padded(second, 2), Stamp(d, hour, minute, second));
    assert Date(d.year, d.month, d.day) == d;
  }

  /** Of the texts that read as an instant, exactly those print back. */
  lemma {:induction false} PrintsBackExactly(text: Bytes)
    requires EpochOf(text).Some?
    ensures Print(EpochOf(text).value) == text <==> Canonical(text)
  {
    if Canonical(text) {
      var d, hour, minute, second := CanonicalIsStamp(text);
      var back := ReadPrints(d, hour, minute, second);
    }
    var secs := EpochOf(text).value;
    if Print(secs) == text {
      var days, rem := secs / 86400, secs % 86400;
      ClockParts(rem);
      CountDated(days);
      if CivilFromDays(days).year > 9999 {
        StampLong(CivilFromDays(days), rem / 3600, rem % 3600 / 60, rem % 60);
      }
      StampIsCanonical(CivilFromDays(days), rem / 3600, rem % 3600 / 60, rem % 60);
    }
  }

  /** What stands where the colons do makes no difference. */
  lemma {:induction false} SeparatorsIgnored(text: Bytes, a: Byte, b: Byte)
    requires |text| >= 20
    ensures EpochOf(text[13 := a][16 := b]) == EpochOf(text)
  {
    var other := text[13 := a][16 := b];
    assert other[0..4] == text[0..4] && other[5..7] == text[5..7] && other[8..10] == text[8..10];
    assert other[11..13] == text[11..13] && other[14..16] == text[14..16] && other[17..19] == text[17..19];
  }

  lemma {:induction false} PlusRead(m: nat)
    requires 1 <= m < 10
    ensures Padded(m, 2)[0] == 0x30 && |Padded(m, 2)| == 2
    ensures Number(Padded(m, 2)[0 := PLUS]) == Some(m) == Number(Padded(m, 2))
  {
    assert Power10(2) == 100;
    NumberPadded(m, 2);
    var s := Padded(m, 2);
    assert s == Padded(0, 1) + [0x30 + m];
    var plus := s[0 := PLUS];
    var digits := plus[1..];
    assert digits == [0x30 + m] && Init(digits) == [] && Last(digits) == 0x30 + m;
    assert Digits([]) == Some(0);
    assert Digits(digits) == Some(m);
    assert Number(plus) == Digits(digits);
  }

  /** An instant of a month before October still reads the same with a plus for
      its zero, and with anything for its colons; but no longer prints back. */
  lemma {:induction false} LooseForms(
      d: Date, hour: nat, minute: nat, second: nat, a: Byte, b: Byte)
    returns (text: Bytes)
    requires Real(d) && 1970 <= d.year <= 9999 && d.month < 10 && hour < 24 && minute < 60 && second < 60
    ensures var s := Stamp(d, hour, minute, second); |s| == 20 && text == s[5 := PLUS][13 := a][16 := b]
    ensures EpochOf(text) == EpochOf(Stamp(d, hour, minute, second)) && EpochOf(text).Some?
    ensures !Canonical(text)
  {
    var s := Stamp(d, hour, minute, second);
    var back := ReadPrints(d, hour, minute, second);
    StampIsCanonical(d, hour, minute, second);
    PlusRead(d.month);
    MonthStands(d, hour, minute, second);
    text := Loosened(s, Padded(d.month, 2), a, b);
  }

  lemma {:induction false} MonthStands(d: Date, hour: nat, minute: nat, second: nat)
    requires d.year <= 9999 && d.month < 100 && d.day < 100 && hour < 100 && minute < 100 && second < 100
    ensures var s := Stamp(d, hour, minute, second); |s| == 20 && s[5..7] == Padded(d.month, 2)
  {
    assert Power10(2) == 100 && Power10(4) == 10000;
    NumberPadded(d.year, 4);
    NumberPadded(d.month, 2);
    NumberPadded(d.day, 2);
    NumberPadded(hour, 2);
    NumberPadded(minute, 2);
    NumberPadded(second, 2);
    StampParts(Padded(d.year, 4), Padded(d.month, 2), Padded(d.day, 2), Padded(hour, 2), Padded(minute, 2),
               Padded(second, 2), Stamp(d, hour, minute, second));
  }

  lemma {:induction false} Loosened(s: Bytes, m: Bytes, a: Byte, b: Byte) returns (text: Bytes)
    requires |s| == 20 && |m| == 2 && s[5..7] == m && Number(m[0 := PLUS]) == Number(m)
    ensures text == s[5 := PLUS][13 := a][16 := b] && EpochOf(text) == EpochOf(s) && !Canonical(text)
  {
    PlusForZero(s, m);
    SeparatorsIgnored(s[5 := PLUS], a, b);
    text := s[5 := PLUS][13 := a][16 := b];
    assert text[5..7][0] == PLUS;
    NoPlusInDigits(text[5..7]);
  }

  lemma {:induction false} PlusForZero(s: Bytes, m: Bytes)
    requires |s| == 20 && |m| == 2 && s[5..7] == m && Number(m[0 := PLUS]) == Number(m)
    ensures EpochOf(s[5 := PLUS]) == EpochOf(s)
  {
    var t := s[5 := PLUS];
    assert t[5..7] == m[0 := PLUS];
    assert t[0..4] == s[0..4] && t[8..10] == s[8..10];
    assert t[11..13] == s[11..13] && t[14..16] == s[14..16] && t[17..19] == s[17..19];
  }

  lemma {:induction false} NoPlusInDigits(s: Bytes)
    requires |s| == 2 && s[0] == PLUS
    ensures Digits(s).None?
  {
    assert Last(Init(s)) == PLUS;
  }

  /** A sixtieth second is read as the first of the next minute. */
  lemma {:induction false} LeapSecond(d: Date, hour: nat, minute: nat)
    requires d.year <= 9999 && d.month < 100 && d.day < 100 && hour < 100 && minute < 59
    ensures EpochOf(Stamp(d, hour, minute, 60)) == EpochOf(Stamp(d, hour, minute + 1, 0))
  {
    EpochStamp(d, hour, minute, 60);
    EpochStamp(d, hour, minute + 1, 0);
    MinuteCarries(d.year, d.month, d.day, hour, minute);
  }

  lemma {:induction false} MinuteCarries(y: nat, m: nat, d: nat, hour: nat, minute: nat)
    requires minute < 59
    ensures EpochAt(y, m, d, hour, minute, 60) == EpochAt(y, m, d, hour, minute + 1, 0)
  {
  }

  lemma {:induction false} StampLong(d: Date, hour: nat, minute: nat, second: nat)
    requires d.year > 9999 && d.month < 100 && d.day < 100 && hour < 100 && minute < 100 && second < 100
    ensures |Stamp(d, hour, minute, second)| > 20
  {
    assert Power10(2) == 100 && Power10(4) == 10000;
    PaddedLong(d.year, 4);
    NumberPadded(d.month, 2);
    NumberPadded(d.day, 2);
    NumberPadded(hour, 2);
    NumberPadded(minute, 2);
    NumberPadded(second, 2);
  }

  /** The 31st of February reads as an instant, and is the 3rd of March. */
  lemma {:induction false} NotEveryDayIsReal()
    ensures !Real(Date(2026, 2, 31)) && EpochOf(Stamp(Date(2026, 2, 31), 0, 0, 0)).Some?
    ensures EpochOf(Stamp(Date(2026, 2, 31), 0, 0, 0)) == EpochOf(Stamp(Date(2026, 3, 3), 0, 0, 0))
  {
    EpochStamp(Date(2026, 2, 31), 0, 0, 0);
    EpochStamp(Date(2026, 3, 3), 0, 0, 0);
    SameCount();
  }

  lemma {:induction false} SameCount()
    ensures EpochAt(2026, 2, 31, 0, 0, 0) == EpochAt(2026, 3, 3, 0, 0, 0) && EpochAt(2026, 3, 3, 0, 0, 0).Some?
  {
    DaysOf(Date(2026, 2, 31), 5, 25, 739983);
    DaysOf(Date(2026, 3, 3), 5, 26, 739983);
  }
}
