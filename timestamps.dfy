/** Naive UTC date-times as Python's `datetime` holds them, the one-hour step
    `datetime + timedelta(hours=1)`, the text form '%Y-%m-%d %H:%M:%S' that
    `strftime` writes, and the `strptime` that reads it back. */
module Timestamps {
  import opened Wrappers

  const MinYear := 1
  const MaxYear := 9999
  const MicrosPerSecond := 1_000_000
  const MicrosPerHour := 3600 * 1_000_000

  datatype DateTime = DateTime(year: int, month: int, day: int,
                               hour: int, minute: int, second: int, microsecond: int)
  {
    /** The ranges `datetime` enforces, with the Gregorian calendar. */
    predicate Valid()
    {
      && MinYear <= year <= MaxYear
      && 1 <= month <= 12
      && 1 <= day <= DaysInMonth(year, month)
      && 0 <= hour < 24 && 0 <= minute < 60 && 0 <= second < 60
      && 0 <= microsecond < MicrosPerSecond
    }
  }

  predicate IsLeap(y: int)
  {
    y % 4 == 0 && (y % 100 != 0 || y % 400 == 0)
  }

  function DaysInMonth(y: int, m: int): int
  {
    if m == 2 then (if IsLeap(y) then 29 else 28)
    else if m == 4 || m == 6 || m == 9 || m == 11 then 30
    else 31
  }

  function DaysInYear(y: int): int
  {
    if IsLeap(y) then 366 else 365
  }

  /** Days in the months of year `y` before month `m`. */
  function DaysBeforeMonth(y: int, m: int): int
    requires 1 <= m <= 12
    decreases m
  {
    if m == 1 then 0 else DaysBeforeMonth(y, m - 1) + DaysInMonth(y, m - 1)
  }

  /** Days in the years before year `y`, counted from 0001-01-01. */
  function DaysBeforeYear(y: int): int
  {
    var p := y - 1;
    p * 365 + p / 4 - p / 100 + p / 400
  }

  /** The proleptic Gregorian ordinal of the date: 0001-01-01 is day 1. */
  function Ordinal(t: DateTime): int
    requires 1 <= t.month <= 12
  {
    DaysBeforeYear(t.year) + DaysBeforeMonth(t.year, t.month) + t.day
  }

  /** The instant as a count of microseconds; the meaning the field form
      stands for. */
  function Micros(t: DateTime): int
    requires 1 <= t.month <= 12
  {
    ((((Ordinal(t) * 24 + t.hour) * 60 + t.minute) * 60 + t.second) * MicrosPerSecond) + t.microsecond
  }

  /** `a < b` on `datetime`: the fields compared in order. */
  predicate Before(a: DateTime, b: DateTime)
  {
    if a.year != b.year then a.year < b.year
    else if a.month != b.month then a.month < b.month
    else if a.day != b.day then a.day < b.day
    else if a.hour != b.hour then a.hour < b.hour
    else if a.minute != b.minute then a.minute < b.minute
    else if a.second != b.second then a.second < b.second
    else a.microsecond < b.microsecond
  }

  /** `t + timedelta(hours=1)`; None where Python raises OverflowError because
      the result would pass 9999-12-31 23:59:59.999999. A result is later and
      keeps the minute, the second and the fraction. */
  function AddHour(t: DateTime): (r: Option<DateTime>)
    ensures r.Some? ==> Before(t, r.value)
    ensures r.Some? ==> r.value.minute == t.minute && r.value.second == t.second
                        && r.value.microsecond == t.microsecond
  {
    if t.hour < 23 then Some(t.(hour := t.hour + 1))
    else if t.day < DaysInMonth(t.year, t.month) then Some(t.(day := t.day + 1, hour := 0))
    else if t.month < 12 then Some(t.(month := t.month + 1, day := 1, hour := 0))
    else if t.year < MaxYear then Some(t.(year := t.year + 1, month := 1, day := 1, hour := 0))
    else None
  }

  /** `t + timedelta(hours=n)`, one hour at a time; None on overflow. Whole
      hours keep the minute, the second and the fraction. */
  function AddHours(t: DateTime, n: nat): (r: Option<DateTime>)
    ensures r.Some? ==> r.value.minute == t.minute && r.value.second == t.second
                        && r.value.microsecond == t.microsecond
    decreases n
  {
    if n == 0 then Some(t)
    else match AddHour(t)
      case None => None
      case Some(u) => AddHours(u, n - 1)
  }

  /** The same instant without its fraction of a second. */
  function Truncate(t: DateTime): DateTime
  {
    t.(microsecond := 0)
  }

  // ---- calendar facts ----

  lemma {:induction false} DaysBeforeMonthStep(y: int, m: int)
    requires 1 <= m < 12
    ensures DaysBeforeMonth(y, m + 1) == DaysBeforeMonth(y, m) + DaysInMonth(y, m)
  {
  }

  lemma {:induction false} DaysBeforeDecember(y: int)
    ensures DaysBeforeMonth(y, 12) + 31 == DaysInYear(y)
  {
    assert DaysBeforeMonth(y, 3) == 31 + DaysInMonth(y, 2);
    assert DaysBeforeMonth(y, 12) == DaysBeforeMonth(y, 3) + 275;
  }

  lemma {:induction false} DaysBeforeYearStep(y: int)
    requires y >= 1
    ensures DaysBeforeYear(y + 1) == DaysBeforeYear(y) + DaysInYear(y)
  {
    var p := y - 1;
    DivStep(y, 4);
    DivStep(y, 100);
    DivStep(y, 400);
    DivisibilityChain(y);
    assert DaysBeforeYear(y + 1) == y * 365 + y / 4 - y / 100 + y / 400;
    assert DaysBeforeYear(y) == p * 365 + p / 4 - p / 100 + p / 400;
  }

  /** A multiple of 400 is one of 100, and a multiple of 100 one of 4. */
  lemma {:induction false} DivisibilityChain(y: int)
    ensures y % 400 == 0 ==> y % 100 == 0
    ensures y % 100 == 0 ==> y % 4 == 0
  {
    if y % 400 == 0 {
      DivUnique(y, 100, (y / 400) * 4, 0);
    }
    if y % 100 == 0 {
      DivUnique(y, 4, (y / 100) * 25, 0);
    }
  }

  /** Counting multiples of d up to y adds one exactly at a multiple. */
  lemma {:induction false} DivStep(y: int, d: int)
    requires d > 0
    ensures y / d == (y - 1) / d + (if y % d == 0 then 1 else 0)
  {
    var q, r := (y - 1) / d, (y - 1) % d;
    assert y == d * q + r + 1;
    if r + 1 == d {
      DivUnique(y, d, q + 1, 0);
    } else {
      DivUnique(y, d, q, r + 1);
    }
  }

  lemma {:induction false} DivUnique(y: int, d: int, q: int, r: int)
    requires d > 0 && 0 <= r < d && y == d * q + r
    ensures y / d == q && y % d == r
  {
    var q', r' := y / d, y % d;
    assert d * (q' - q) == r - r';
    SmallMultiple(d, q' - q);
  }

  lemma {:induction false} SmallMultiple(d: int, k: int)
    requires d > 0 && -d < d * k < d
    ensures k == 0
  {
  }

  /** The day after a valid date has the next ordinal. */
  lemma {:induction false} NextDayOrdinal(t: DateTime, u: DateTime)
    requires t.Valid() && 1 <= u.month <= 12
    requires || (t.day < DaysInMonth(t.year, t.month) && u.year == t.year && u.month == t.month && u.day == t.day + 1)
             || (t.day == DaysInMonth(t.year, t.month) && t.month < 12 && u.year == t.year && u.month == t.month + 1 && u.day == 1)
             || (t.day == 31 && t.month == 12 && u.year == t.year + 1 && u.month == 1 && u.day == 1)
    ensures Ordinal(u) == Ordinal(t) + 1
  {
    if u.year == t.year && u.month == t.month + 1 {
      DaysBeforeMonthStep(t.year, t.month);
    } else if u.year == t.year + 1 {
      DaysBeforeDecember(t.year);
      DaysBeforeYearStep(t.year);
    }
  }

  /** AddHour moves the instant forward by exactly one hour and stays valid;
      it fails only in the last hour that `datetime` can represent. */
  lemma {:induction false} AddHourMicros(t: DateTime)
    requires t.Valid()
    ensures AddHour(t).None? <==> (t.year == MaxYear && t.month == 12 && t.day == 31 && t.hour == 23)
    ensures AddHour(t).Some? ==>
              AddHour(t).value.Valid() && Micros(AddHour(t).value) == Micros(t) + MicrosPerHour
  {
    if t.hour == 23 && AddHour(t).Some? {
      var u := AddHour(t).value;
      NextDayOrdinal(t, u);
    }
  }

  lemma {:induction false} MonthsBefore(y: int, m1: int, m2: int)
    requires 1 <= m1 < m2 <= 12
    ensures DaysBeforeMonth(y, m1) + DaysInMonth(y, m1) <= DaysBeforeMonth(y, m2)
    decreases m2
  {
    if m1 < m2 - 1 {
      MonthsBefore(y, m1, m2 - 1);
    }
  }

  lemma {:induction false} YearsBefore(y1: int, y2: int)
    requires 1 <= y1 < y2
    ensures DaysBeforeYear(y1) + DaysInYear(y1) <= DaysBeforeYear(y2)
    decreases y2
  {
    DaysBeforeYearStep(y1);
    if y1 < y2 - 1 {
      YearsBefore(y1, y2 - 1);
      DaysBeforeYearStep(y2 - 1);
    }
  }

  /** A valid date's ordinal lies inside its year. */
  lemma {:induction false} OrdinalInYear(t: DateTime)
    requires t.Valid()
    ensures DaysBeforeYear(t.year) < Ordinal(t) <= DaysBeforeYear(t.year) + DaysInYear(t.year)
  {
    DaysBeforeDecember(t.year);
    if t.month < 12 {
      MonthsBefore(t.year, t.month, 12);
    }
  }

  /** Earlier calendar date, smaller ordinal. */
  lemma {:induction false} OrdinalMonotone(a: DateTime, b: DateTime)
    requires a.Valid() && b.Valid()
    requires a.year < b.year
          || (a.year == b.year && a.month < b.month)
          || (a.year == b.year && a.month == b.month && a.day < b.day)
    ensures Ordinal(a) < Ordinal(b)
  {
    if a.year < b.year {
      OrdinalInYear(a);
      OrdinalInYear(b);
      YearsBefore(a.year, b.year);
    } else if a.month < b.month {
      MonthsBefore(a.year, a.month, b.month);
    }
  }

  /** Comparing the fields compares the instants: `Before` is `<` on time. */
  lemma {:induction false} BeforeIsEarlier(a: DateTime, b: DateTime)
    requires a.Valid() && b.Valid()
    ensures Before(a, b) <==> Micros(a) < Micros(b)
  {
    if a.year != b.year || a.month != b.month || a.day != b.day {
      if Before(a, b) {
        OrdinalMonotone(a, b);
      } else {
        OrdinalMonotone(b, a);
      }
    }
  }

  // ---- the text form '%Y-%m-%d %H:%M:%S' ----

  predicate IsAsciiDigit(c: char) { '0' <= c <= '9' }

  function Digit(d: int): (c: char)
    requires 0 <= d < 10
    ensures IsAsciiDigit(c)
  {
    ('0' as int + d) as char
  }

  function DigitValue(c: char): int
    requires IsAsciiDigit(c)
  {
    c as int - '0' as int
  }

  function Pad2(n: int): string
    requires 0 <= n < 100
  {
    [Digit(n / 10), Digit(n % 10)]
  }

  function Pad4(n: int): string
    requires 0 <= n < 10000
  {
    [Digit(n / 1000), Digit((n / 100) % 10), Digit((n / 10) % 10), Digit(n % 10)]
  }

  /** `strftime('%Y-%m-%d %H:%M:%S')`: nineteen characters, the fraction of a
      second dropped. */
  function Format(t: DateTime): (s: string)
    requires t.Valid()
    ensures |s| == 19
    ensures s[4] == '-' && s[7] == '-' && s[10] == ' ' && s[13] == ':' && s[16] == ':'
    ensures forall i :: 0 <= i < |s| && i !in {4, 7, 10, 13, 16} ==> IsAsciiDigit(s[i])
  {
    Pad4(t.year) + "-" + Pad2(t.month) + "-" + Pad2(t.day) + " "
      + Pad2(t.hour) + ":" + Pad2(t.minute) + ":" + Pad2(t.second)
  }

  /** The number written by the digits s[i..i+n]. */
  function Number(s: string, i: nat, n: nat): int
    requires i + n <= |s|
    requires forall k :: i <= k < i + n ==> IsAsciiDigit(s[k])
    decreases n
  {
    if n == 0 then 0 else Number(s, i, n - 1) * 10 + DigitValue(s[i + n - 1])
  }

  predicate DigitsAt(s: string, i: nat, n: nat)
    requires i + n <= |s|
  {
    forall k :: i <= k < i + n ==> IsAsciiDigit(s[k])
  }

  /** `datetime.strptime(s, '%Y-%m-%d %H:%M:%S')` on the canonical form:
      fixed-width ASCII fields and separators, and a date and time that
      `datetime` accepts. None where Python raises ValueError. */
  function Parse(s: string): (r: Option<DateTime>)
    ensures r.Some? ==> r.value.Valid() && r.value.microsecond == 0
  {
    if |s| != 19 || s[4] != '-' || s[7] != '-' || s[10] != ' ' || s[13] != ':' || s[16] != ':'
       || !DigitsAt(s, 0, 4) || !DigitsAt(s, 5, 2) || !DigitsAt(s, 8, 2)
       || !DigitsAt(s, 11, 2) || !DigitsAt(s, 14, 2) || !DigitsAt(s, 17, 2)
    then None
    else
      var t := DateTime(Number(s, 0, 4), Number(s, 5, 2), Number(s, 8, 2),
                        Number(s, 11, 2), Number(s, 14, 2), Number(s, 17, 2), 0);
      if t.Valid() then Some(t) else None
  }

  lemma {:induction false} Pad2Number(s: string, i: nat, n: int)
    requires 0 <= n < 100 && i + 2 <= |s| && s[i..i + 2] == Pad2(n)
    ensures DigitsAt(s, i, 2) && Number(s, i, 2) == n
  {
    assert s[i] == s[i..i + 2][0] && s[i + 1] == s[i..i + 2][1];
  }

  lemma {:induction false} Pad4Number(s: string, i: nat, n: int)
    requires 0 <= n < 10000 && i + 4 <= |s| && s[i..i + 4] == Pad4(n)
    ensures DigitsAt(s, i, 4) && Number(s, i, 4) == n
  {
    var w := s[i..i + 4];
    assert s[i] == w[0] && s[i + 1] == w[1] && s[i + 2] == w[2] && s[i + 3] == w[3];
    assert Number(s, i, 2) == n / 100;
    assert Number(s, i, 3) == n / 10;
  }

  /** Reading back what was written gives the instant to the whole second. */
  lemma {:induction false} ParseFormat(t: DateTime)
    requires t.Valid()
    ensures Parse(Format(t)) == Some(Truncate(t))
  {
    var s := Format(t);
    assert |s| == 19;
    assert s[0..4] == Pad4(t.year);
    assert s[5..7] == Pad2(t.month);
    assert s[8..10] == Pad2(t.day);
    assert s[11..13] == Pad2(t.hour);
    assert s[14..16] == Pad2(t.minute);
    assert s[17..19] == Pad2(t.second);
    Pad4Number(s, 0, t.year);
    Pad2Number(s, 5, t.month);
    Pad2Number(s, 8, t.day);
    Pad2Number(s, 11, t.hour);
    Pad2Number(s, 14, t.minute);
    Pad2Number(s, 17, t.second);
  }

  lemma {:induction false} NumberPad2(s: string, i: nat)
    requires i + 2 <= |s| && DigitsAt(s, i, 2)
    ensures 0 <= Number(s, i, 2) < 100 && Pad2(Number(s, i, 2)) == s[i..i + 2]
  {
    var d0, d1 := DigitValue(s[i]), DigitValue(s[i + 1]);
    assert Number(s, i, 2) == d0 * 10 + d1;
  }

  lemma {:induction false} NumberPad4(s: string, i: nat)
    requires i + 4 <= |s| && DigitsAt(s, i, 4)
    ensures 0 <= Number(s, i, 4) < 10000 && Pad4(Number(s, i, 4)) == s[i..i + 4]
  {
    var d0, d1 := DigitValue(s[i]), DigitValue(s[i + 1]);
    var d2, d3 := DigitValue(s[i + 2]), DigitValue(s[i + 3]);
    var n := Number(s, i, 4);
    assert n == ((d0 * 10 + d1) * 10 + d2) * 10 + d3;
    assert n / 10 == (d0 * 10 + d1) * 10 + d2 && n % 10 == d3;
    assert n / 100 == d0 * 10 + d1 && (n / 100) % 10 == d1;
    assert n / 1000 == d0;
    assert (n / 10) % 10 == d2;
  }

  /** Parse accepts only what Format writes: the text form is canonical. */
  lemma {:induction false} FormatParse(s: string)
    requires Parse(s).Some?
    ensures Format(Parse(s).value) == s
  {
    var t := Parse(s).value;
    NumberPad4(s, 0);
    NumberPad2(s, 5);
    NumberPad2(s, 8);
    NumberPad2(s, 11);
    NumberPad2(s, 14);
    NumberPad2(s, 17);
    var f := Format(t);
    assert |f| == 19;
    forall k | 0 <= k < 19
      ensures f[k] == s[k]
    {
      if k < 4 { assert f[k] == Pad4(t.year)[k] && s[k] == s[0..4][k]; }
      else if 5 <= k < 7 { assert f[k] == Pad2(t.month)[k - 5] && s[k] == s[5..7][k - 5]; }
      else if 8 <= k < 10 { assert f[k] == Pad2(t.day)[k - 8] && s[k] == s[8..10][k - 8]; }
      else if 11 <= k < 13 { assert f[k] == Pad2(t.hour)[k - 11] && s[k] == s[11..13][k - 11]; }
      else if 14 <= k < 16 { assert f[k] == Pad2(t.minute)[k - 14] && s[k] == s[14..16][k - 14]; }
      else if 17 <= k < 19 { assert f[k] == Pad2(t.second)[k - 17] && s[k] == s[17..19][k - 17]; }
    }
  }

  /** Adding n hours moves the instant forward by exactly n hours. */
  lemma {:induction false} AddHoursMicros(t: DateTime, n: nat)
    requires t.Valid() && AddHours(t, n).Some?
    ensures AddHours(t, n).value.Valid()
    ensures Micros(AddHours(t, n).value) == Micros(t) + n * MicrosPerHour
    decreases n
  {
    if n > 0 {
      var u := AddHour(t).value;
      AddHourMicros(t);
      assert AddHours(t, n) == AddHours(u, n - 1);
      AddHoursMicros(u, n - 1);
      assert n * MicrosPerHour == (n - 1) * MicrosPerHour + MicrosPerHour;
    }
  }

  /** Dropping the fraction of a second moves the instant back by it. */
  lemma {:induction false} TruncateMicros(t: DateTime)
    requires t.Valid()
    ensures Truncate(t).Valid() && Micros(Truncate(t)) == Micros(t) - t.microsecond
  {
  }
}
