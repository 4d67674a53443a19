/**
  Naive Python `datetime` values with second precision, and their encoding
  as whole seconds since 0001-01-01 00:00:00 in the proleptic Gregorian
  calendar. The encoding preserves Python's datetime ordering, so the
  store may compare integers where the program compares datetimes.
 */
module Calendar {
  import opened Prelude
  import opened Text

  datatype DateTime = DateTime(year: int, month: int, day: int, hour: int, minute: int, second: int)

  predicate IsLeap(y: int) {
    y % 4 == 0 && (y % 100 != 0 || y % 400 == 0)
  }

  function DaysInYear(y: int): int {
    if IsLeap(y) then 366 else 365
  }

  function DaysInMonth(y: int, m: int): (n: int)
    requires 1 <= m <= 12
    ensures 28 <= n <= 31
  {
    if m == 2 then (if IsLeap(y) then 29 else 28)
    else if m == 4 || m == 6 || m == 9 || m == 11 then 30
    else 31
  }

  /** Days of year `y` that precede month `m`; month 13 stands for the end of the year. */
  function DaysBeforeMonth(y: int, m: int): int
    requires 1 <= m <= 13
  {
    var common := [0, 31, 59, 90, 120, 151, 181, 212, 243, 273, 304, 334, 365][m - 1];
    if m > 2 && IsLeap(y) then common + 1 else common
  }

  /** Days of the years 1 .. y-1. */
  function DaysBeforeYear(y: int): int
    requires y >= 1
  {
    var k := y - 1;
    365 * k + k / 4 - k / 100 + k / 400
  }

  /** Days of the years 1 .. 9999, the range of Python's `datetime`. */
  const DayCount: int := 3652059
  const SecondsPerDay: int := 86400
  const SecondsLimit: int := 315537897600

  /** A point in time Python's `datetime` can hold, as seconds since 0001-01-01 00:00:00. */
  type Timestamp = t: int | 0 <= t < SecondsLimit

  /** The field ranges Python's `datetime(...)` constructor accepts. */
  predicate ValidDateTime(dt: DateTime) {
    && 1 <= dt.year <= 9999
    && 1 <= dt.month <= 12
    && 1 <= dt.day <= DaysInMonth(dt.year, dt.month)
    && 0 <= dt.hour < 24
    && 0 <= dt.minute < 60
    && 0 <= dt.second < 60
  }

  /** Python's ordering of datetimes: field by field, most significant first. */
  predicate Before(a: DateTime, b: DateTime) {
    || a.year < b.year
    || (a.year == b.year && a.month < b.month)
    || (a.year == b.year && a.month == b.month && a.day < b.day)
    || (a.year == b.year && a.month == b.month && a.day == b.day && a.hour < b.hour)
    || (a.year == b.year && a.month == b.month && a.day == b.day && a.hour == b.hour && a.minute < b.minute)
    || (a.year == b.year && a.month == b.month && a.day == b.day && a.hour == b.hour && a.minute == b.minute
        && a.second < b.second)
  }

  lemma MonthStep(y: int, m: int)
    requires 1 <= m <= 12
    ensures DaysBeforeMonth(y, m + 1) == DaysBeforeMonth(y, m) + DaysInMonth(y, m)
  {
  }

  lemma {:induction false} MonthsMonotone(y: int, m1: int, m2: int)
    requires 1 <= m1 <= m2 <= 13
    ensures DaysBeforeMonth(y, m1) <= DaysBeforeMonth(y, m2)
    decreases m2 - m1
  {
    if m1 < m2 {
      MonthStep(y, m1);
      MonthsMonotone(y, m1 + 1, m2);
    }
  }

  /** Each year contributes its own length: 366 days for a leap year, 365 otherwise. */
  lemma YearStep(y: int)
    requires y >= 1
    ensures DaysBeforeYear(y + 1) == DaysBeforeYear(y) + DaysInYear(y)
  {
    assert y / 4 == (y - 1) / 4 + (if y % 4 == 0 then 1 else 0);
    assert y / 100 == (y - 1) / 100 + (if y % 100 == 0 then 1 else 0);
    assert y / 400 == (y - 1) / 400 + (if y % 400 == 0 then 1 else 0);
  }

  lemma {:induction false} YearsMonotone(a: int, b: int)
    requires 1 <= a <= b
    ensures DaysBeforeYear(a) <= DaysBeforeYear(b)
    decreases b - a
  {
    if a < b {
      YearStep(a);
      YearsMonotone(a + 1, b);
    }
  }

  /** Days since 0001-01-01, Python's `dt.toordinal() - 1`. */
  function DayNumber(dt: DateTime): (n: int)
    requires ValidDateTime(dt)
    ensures DaysBeforeYear(dt.year) <= n < DaysBeforeYear(dt.year + 1) <= DayCount
  {
    MonthStep(dt.year, dt.month);
    MonthsMonotone(dt.year, dt.month + 1, 13);
    YearStep(dt.year);
    YearsMonotone(dt.year + 1, 10000);
    DaysBeforeYear(dt.year) + DaysBeforeMonth(dt.year, dt.month) + dt.day - 1
  }

  function SecondOfDay(dt: DateTime): (n: int)
    requires ValidDateTime(dt)
    ensures 0 <= n < SecondsPerDay
  {
    dt.hour * 3600 + dt.minute * 60 + dt.second
  }

  /** The encoding of a datetime as a timestamp. */
  function ToSeconds(dt: DateTime): Timestamp
    requires ValidDateTime(dt)
  {
    YearsMonotone(1, dt.year);
    DayNumber(dt) * SecondsPerDay + SecondOfDay(dt)
  }

  /** The year whose days contain day number `d`, searched upwards from year `y`. */
  function YearOf(d: int, y: int): (r: int)
    requires 1 <= y <= 9999 && DaysBeforeYear(y) <= d < DayCount
    ensures y <= r <= 9999 && DaysBeforeYear(r) <= d < DaysBeforeYear(r + 1)
    decreases 9999 - y
  {
    if d < DaysBeforeYear(y + 1) then y else YearOf(d, y + 1)
  }

  /** The month of year `y` whose days contain day `doy` of that year, searched upwards from month `m`. */
  function MonthOf(y: int, doy: int, m: int): (r: int)
    requires 1 <= m <= 12 && DaysBeforeMonth(y, m) <= doy < DaysInYear(y)
    ensures m <= r <= 12 && DaysBeforeMonth(y, r) <= doy < DaysBeforeMonth(y, r + 1)
    decreases 12 - m
  {
    if doy < DaysBeforeMonth(y, m + 1) then m else MonthOf(y, doy, m + 1)
  }

  /** The datetime a timestamp stands for; every timestamp stands for exactly one. */
  function FromSeconds(t: Timestamp): (dt: DateTime)
    ensures ValidDateTime(dt) && ToSeconds(dt) == t
  {
    var d, sod := t / SecondsPerDay, t % SecondsPerDay;
    var y := YearOf(d, 1);
    YearStep(y);
    var doy := d - DaysBeforeYear(y);
    var m := MonthOf(y, doy, 1);
    MonthStep(y, m);
    DateTime(y, m, doy - DaysBeforeMonth(y, m) + 1, sod / 3600, sod % 3600 / 60, sod % 60)
  }

  lemma DayNumberOrder(a: DateTime, b: DateTime)
    requires ValidDateTime(a) && ValidDateTime(b) && Before(a, b)
    ensures DayNumber(a) < DayNumber(b) || (DayNumber(a) == DayNumber(b) && SecondOfDay(a) < SecondOfDay(b))
  {
    if a.year < b.year {
      YearsMonotone(a.year + 1, b.year);
    } else if a.month < b.month {
      MonthStep(a.year, a.month);
      MonthsMonotone(a.year, a.month + 1, b.month);
    }
  }

  /** The encoding is faithful to Python's ordering of datetimes, in both directions. */
  lemma ToSecondsOrder(a: DateTime, b: DateTime)
    requires ValidDateTime(a) && ValidDateTime(b)
    ensures Before(a, b) <==> ToSeconds(a) < ToSeconds(b)
  {
    if Before(a, b) {
      DayNumberOrder(a, b);
    } else if Before(b, a) {
      DayNumberOrder(b, a);
    } else {
      assert a == b;
    }
  }

  /** Distinct datetimes get distinct timestamps, so decoding inverts encoding. */
  lemma FromToSeconds(dt: DateTime)
    requires ValidDateTime(dt)
    ensures FromSeconds(ToSeconds(dt)) == dt
  {
    var e := FromSeconds(ToSeconds(dt));
    ToSecondsOrder(e, dt);
    ToSecondsOrder(dt, e);
  }

  /** A zero-padded two-digit field, as `%02d` renders it. */
  function Pad2(n: int): (s: string)
    requires 0 <= n < 100
    ensures |s| == 2 && AllDigits(s) && DigitsValue(s) == n
  {
    var s := [DigitChar(n / 10), DigitChar(n % 10)];
    DigitRoundTrip(n / 10);
    DigitRoundTrip(n % 10);
    DigitsValue2(s[0], s[1]);
    s
  }

  /** A zero-padded four-digit field, as `%04d` renders the year. */
  function Pad4(n: int): (s: string)
    requires 0 <= n < 10000
    ensures |s| == 4 && AllDigits(s) && DigitsValue(s) == n
  {
    var s := [DigitChar(n / 1000), DigitChar(n / 100 % 10), DigitChar(n / 10 % 10), DigitChar(n % 10)];
    DigitRoundTrip(n / 1000);
    DigitRoundTrip(n / 100 % 10);
    DigitRoundTrip(n / 10 % 10);
    DigitRoundTrip(n % 10);
    DigitsValue4(s[0], s[1], s[2], s[3]);
    PositionalValue(n);
    s
  }

  lemma PositionalValue(n: int)
    requires 0 <= n < 10000
    ensures n / 1000 < 10
    ensures n == 1000 * (n / 1000) + 100 * (n / 100 % 10) + 10 * (n / 10 % 10) + n % 10
  {
    var h := n / 100;
    assert n == 100 * h + n % 100;
    assert n % 100 == 10 * (n / 10 % 10) + n % 10;
    assert h == 10 * (n / 1000) + h % 10;
    assert h % 10 == n / 100 % 10;
  }

  /** `str(dt)` for a datetime without microseconds: `YYYY-MM-DD HH:MM:SS`. */
  function Render(dt: DateTime): (s: string)
    requires ValidDateTime(dt)
  {
    Pad4(dt.year) + "-" + Pad2(dt.month) + "-" + Pad2(dt.day) + " "
    + Pad2(dt.hour) + ":" + Pad2(dt.minute) + ":" + Pad2(dt.second)
  }

  /** Positions of the separators in `YYYY-MM-DD HH:MM:SS`. */
  predicate IsSeparatorPos(i: int) {
    i == 4 || i == 7 || i == 10 || i == 13 || i == 16
  }

  /** The text `\d{4}-\d{2}-\d{2} \d{2}:\d{2}:\d{2}` matches exactly. */
  predicate IsDateTimeShape(s: string) {
    && |s| == 19
    && s[4] == '-' && s[7] == '-' && s[10] == ' ' && s[13] == ':' && s[16] == ':'
    && forall i :: 0 <= i < 19 && !IsSeparatorPos(i) ==> IsDigit(s[i])
  }

  function Field(s: string, from: nat, to: nat): (n: nat)
    requires IsDateTimeShape(s) && from <= to <= 19
    requires forall i :: from <= i < to ==> !IsSeparatorPos(i)
  {
    var f := s[from..to];
    assert forall j :: 0 <= j < |f| ==> f[j] == s[from + j];
    DigitsValue(f)
  }

  /**
    `datetime.strptime(s, "%Y-%m-%d %H:%M:%S")` on text of the shape above:
    `None` where Python raises `ValueError` because a field is out of range.
   */
  function ParseDateTime(s: string): (r: Option<DateTime>)
    ensures r.Some? ==> IsDateTimeShape(s) && ValidDateTime(r.value)
  {
    if !IsDateTimeShape(s) then None
    else
      var dt := DateTime(Field(s, 0, 4), Field(s, 5, 7), Field(s, 8, 10),
                         Field(s, 11, 13), Field(s, 14, 16), Field(s, 17, 19));
      if ValidDateTime(dt) then Some(dt) else None
  }

  lemma RenderShape(dt: DateTime)
    requires ValidDateTime(dt)
    ensures IsDateTimeShape(Render(dt))
    ensures Render(dt)[0..4] == Pad4(dt.year) && Render(dt)[5..7] == Pad2(dt.month)
    ensures Render(dt)[8..10] == Pad2(dt.day) && Render(dt)[11..13] == Pad2(dt.hour)
    ensures Render(dt)[14..16] == Pad2(dt.minute) && Render(dt)[17..19] == Pad2(dt.second)
  {
    var s := Render(dt);
    var y, mo, d, h, mi, se := Pad4(dt.year), Pad2(dt.month), Pad2(dt.day), Pad2(dt.hour), Pad2(dt.minute), Pad2(dt.second);
    assert s == y + "-" + mo + "-" + d + " " + h + ":" + mi + ":" + se;
    assert forall i :: 0 <= i < 4 ==> s[i] == y[i];
    assert forall i :: 0 <= i < 2 ==> s[5 + i] == mo[i] && s[8 + i] == d[i] && s[11 + i] == h[i];
    assert forall i :: 0 <= i < 2 ==> s[14 + i] == mi[i] && s[17 + i] == se[i];
    assert s[0..4] == y;
  }

  /** `strptime` reads back what `str()` writes. */
  lemma ParseRender(dt: DateTime)
    requires ValidDateTime(dt)
    ensures ParseDateTime(Render(dt)) == Some(dt)
  {
    RenderShape(dt);
  }

  lemma Pad2OfDigits(s: string)
    requires |s| == 2 && AllDigits(s)
    ensures DigitsValue(s) < 100 && Pad2(DigitsValue(s)) == s
  {
    DigitsValue2(s[0], s[1]);
    assert s == [s[0], s[1]];
  }

  lemma Pad4OfDigits(s: string)
    requires |s| == 4 && AllDigits(s)
    ensures DigitsValue(s) < 10000 && Pad4(DigitsValue(s)) == s
  {
    DigitsValue4(s[0], s[1], s[2], s[3]);
    assert s == [s[0], s[1], s[2], s[3]];
    FourDigits(DigitValue(s[0]), DigitValue(s[1]), DigitValue(s[2]), DigitValue(s[3]));
  }

  lemma FourDigits(a: nat, b: nat, c: nat, d: nat)
    requires a < 10 && b < 10 && c < 10 && d < 10
    ensures var n := 1000 * a + 100 * b + 10 * c + d;
      n / 1000 == a && n / 100 % 10 == b && n / 10 % 10 == c && n % 10 == d
  {
    var n := 1000 * a + 100 * b + 10 * c + d;
    assert n / 1000 == a;
    assert n / 100 == 10 * a + b;
    assert (10 * a + b) % 10 == b;
    assert n / 10 == 100 * a + 10 * b + c;
    assert (100 * a + 10 * b + c) % 10 == c;
  }

  /** Whatever `strptime` accepts, `str()` writes back character for character. */
  lemma RenderParse(s: string, dt: DateTime)
    requires ParseDateTime(s) == Some(dt)
    ensures Render(dt) == s
  {
    var f := Field(s, 0, 4);
    Pad4OfDigits(s[0..4]);
    Pad2OfDigits(s[5..7]);
    Pad2OfDigits(s[8..10]);
    Pad2OfDigits(s[11..13]);
    Pad2OfDigits(s[14..16]);
    Pad2OfDigits(s[17..19]);
    RenderShape(dt);
    var r := Render(dt);
    assert forall i :: 0 <= i < 19 ==> r[i] == s[i] by {
      forall i | 0 <= i < 19 ensures r[i] == s[i] {
        if i < 4 { assert r[0..4][i] == s[0..4][i]; }
        else if 5 <= i < 7 { assert r[5..7][i - 5] == s[5..7][i - 5]; }
        else if 8 <= i < 10 { assert r[8..10][i - 8] == s[8..10][i - 8]; }
        else if 11 <= i < 13 { assert r[11..13][i - 11] == s[11..13][i - 11]; }
        else if 14 <= i < 16 { assert r[14..16][i - 14] == s[14..16][i - 14]; }
        else if 17 <= i < 19 { assert r[17..19][i - 17] == s[17..19][i - 17]; }
      }
    }
  }
}
