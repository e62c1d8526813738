/** Instants character by character: how each is written, and which texts are read. */
module DatesForms {
  import opened Hashing
  import opened Seqs
  import opened Wrappers
  import opened Dates

  // --------------------------------------------------------------------- written

  function Char(d: nat): Byte
    requires d < 10
  {
    '0' as int + d
  }

  lemma {:induction false} TwoDigits(n: nat)
    requires n < 100
    ensures Padded(n, 2) == [Char(n / 10), Char(n % 10)]
  {
  }

  lemma {:induction false} FourDigits(n: nat)
    requires n < 10000
    ensures Padded(n, 4) == [Char(n / 1000), Char(n / 100 % 10), Char(n / 10 % 10), Char(n % 10)]
  {
    var a := n / 10;
    var b := a / 10;
    var c := b / 10;
    assert b == n / 100 && c == n / 1000 && c < 10;
    assert Padded(c, 1) == [Char(c)];
    assert Padded(b, 2) == Padded(c, 1) + [Char(b % 10)];
    assert Padded(a, 3) == Padded(b, 2) + [Char(a % 10)];
  }

  /** Year, month, day, hour, minute and second, in digits, and what stands between. */
  lemma {:induction false} StampIs(d: Date, hour: nat, minute: nat, second: nat)
    requires d.year <= 9999 && d.month < 100 && d.day < 100 && hour < 100 && minute < 100 && second < 100
    ensures Stamp(d, hour, minute, second) ==
      [Char(d.year / 1000), Char(d.year / 100 % 10), Char(d.year / 10 % 10), Char(d.year % 10), '-' as int,
       Char(d.month / 10), Char(d.month % 10), '-' as int, Char(d.day / 10), Char(d.day % 10), 'T' as int,
       Char(hour / 10), Char(hour % 10), ':' as int, Char(minute / 10), Char(minute % 10), ':' as int,
       Char(second / 10), Char(second % 10), 'Z' as int]
  {
    FourDigits(d.year);
    TwoDigits(d.month);
    TwoDigits(d.day);
    TwoDigits(hour);
    TwoDigits(minute);
    TwoDigits(second);
  }

  /** A count of seconds is written as the day it falls on and the clock of that day. */
  lemma {:induction false} PrintIs(secs: nat, d: Date, hour: nat, minute: nat, second: nat)
    requires Real(d) && DaysFromCivil(d).Some? && hour < 24 && minute < 60 && second < 60
    requires secs == DaysFromCivil(d).value * 86400 + hour * 3600 + minute * 60 + second
    ensures Print(secs) == Stamp(d, hour, minute, second)
  {
    DateCounted(d);
    PrintsAs(d, DaysFromCivil(d).value, hour, minute, second, secs);
  }

  // ------------------------------------------------------------------------ read

  /** A field is digits, or a plus sign and digits; what digits stand for. */
  lemma {:induction false} FieldIs(s: Bytes, b: Byte)
    ensures Number([]).None? && Number([PLUS]).None? && PLUS == '+' as int
    ensures s != [] && s[0] != PLUS ==> Number(s) == Digits(s) && Number([PLUS] + s) == Digits(s)
    ensures Digits([]) == Some(0)
    ensures Digits(s + [b]) ==
      if Digits(s).Some? && '0' as int <= b <= '9' as int then Some(10 * Digits(s).value + (b - '0' as int)) else None
  {
    Snoc(s, b);
    assert ([PLUS] + s)[1..] == s;
  }

  /** All that a text must be to be read, and what it is read as. */
  lemma {:induction false} ReadIs(b: Bytes, y: nat, m: nat, d: nat, hh: nat, mm: nat, ss: nat)
    requires |b| == 20 && Number(b[0..4]) == Some(y) && Number(b[5..7]) == Some(m) && Number(b[8..10]) == Some(d)
    requires Number(b[11..13]) == Some(hh) && Number(b[14..16]) == Some(mm) && Number(b[17..19]) == Some(ss)
    ensures EpochOf(b) ==
      if b[4] == '-' as int && b[7] == '-' as int && b[10] == 'T' as int && b[19] == 'Z' as int
         && 1 <= m <= 12 && 1 <= d <= 31 && hh <= 23 && mm <= 59 && ss <= 60 && 1970 <= y
      then Some(DaysFromCivil(Date(y, m, d)).value * 86400 + hh * 3600 + mm * 60 + ss) else None
  {
    if 1 <= m <= 12 && 1 <= d <= 31 {
      From1970(Date(y, m, d));
    }
  }

  lemma {:induction false} NotRead(b: Bytes)
    ensures |b| != 20 ==> EpochOf(b).None?
    ensures |b| == 20 && (Number(b[0..4]).None? || Number(b[5..7]).None? || Number(b[8..10]).None?
                          || Number(b[11..13]).None? || Number(b[14..16]).None? || Number(b[17..19]).None?) ==>
            EpochOf(b).None?
  {
  }

  // ------------------------------------------------------------------------ counted

  /** Days are counted from 1970 on, and not before. */
  lemma {:induction false} From1970(d: Date)
    requires 1 <= d.month <= 12 && 1 <= d.day <= 31
    ensures DaysFromCivil(d).Some? <==> 1970 <= d.year
  {
    if MarchYear(d) >= 0 {
      var y: nat := MarchYear(d);
      var era, yoe := y / 400, y % 400;
      DaysOf(d, era, yoe, era * 146097 + (YearStart(yoe) + DayOfYear(d)));
      EpochDay(era, yoe, MarchMonth(d), d.day);
    }
  }

  lemma {:induction false} EpochDay(era: nat, yoe: nat, mp: nat, day: nat)
    requires yoe < 400 && mp <= 11 && 1 <= day <= 31
    ensures era * 146097 + (YearStart(yoe) + (DaysBefore(mp) + day - 1)) >= 719468 <==>
            era * 400 + yoe + (if mp >= 10 then 1 else 0) >= 1970
  {
  }

  /** Within a month every day is one more than the last, even past its end. */
  lemma {:induction false} DaysOn(d: Date)
    requires 1970 <= d.year && 1 <= d.month <= 12 && 1 <= d.day <= 31
    ensures DaysFromCivil(d.(day := 1)).Some?
    ensures DaysFromCivil(d) == Some(DaysFromCivil(d.(day := 1)).value + (d.day - 1))
  {
    From1970(d);
    From1970(d.(day := 1));
  }
}
