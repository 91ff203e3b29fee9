/** Dates as Python's `datetime.date` has them: the proleptic Gregorian calendar,
    day ordinals counted from 0001-01-01, weekdays counted from Monday. */
module Calendar {
  import opened Text

  datatype Date = Date(year: int, month: int, day: int)

  predicate IsLeapYear(y: int) {
    y % 4 == 0 && (y % 100 != 0 || y % 400 == 0)
  }

  function DaysInMonth(y: int, m: int): (n: int)
    requires 1 <= m <= 12
    ensures 28 <= n <= 31
  {
    if m == 2 then (if IsLeapYear(y) then 29 else 28)
    else if m == 4 || m == 6 || m == 9 || m == 11 then 30
    else 31
  }

  predicate ValidDate(d: Date) {
    1 <= d.month <= 12 && 1 <= d.day <= DaysInMonth(d.year, d.month)
  }

  /** The days of the years before `y`, counted from year 1. */
  function DaysBeforeYear(y: int): int {
    var y1 := y - 1;
    y1 * 365 + y1 / 4 - y1 / 100 + y1 / 400
  }

  /** The days of the months of year `y` before month `m`. */
  function DaysBeforeMonth(y: int, m: int): int
    requires 1 <= m <= 12
  {
    var before :=
      if m <= 6 then
        if m == 1 then 0 else if m == 2 then 31 else if m == 3 then 59
        else if m == 4 then 90 else if m == 5 then 120 else 151
      else
        if m == 7 then 181 else if m == 8 then 212 else if m == 9 then 243
        else if m == 10 then 273 else if m == 11 then 304 else 334;
    before + (if m > 2 && IsLeapYear(y) then 1 else 0)
  }

  /** `date.toordinal()`: 0001-01-01 is day 1. */
  function Ordinal(d: Date): int
    requires ValidDate(d)
  {
    DaysBeforeYear(d.year) + DaysBeforeMonth(d.year, d.month) + d.day
  }

  /** `date.weekday()`: Monday is 0 and Sunday is 6. */
  function Weekday(d: Date): (w: int)
    requires ValidDate(d)
    ensures 0 <= w < 7
  {
    (Ordinal(d) + 6) % 7
  }

  lemma YearLength(y: int)
    ensures DaysBeforeYear(y + 1) == DaysBeforeYear(y) + (if IsLeapYear(y) then 366 else 365)
  {
    DivStep4(y);
    DivStep100(y);
    DivStep400(y);
    Multiples(y);
    var a, b, c := y / 4 - (y - 1) / 4, y / 100 - (y - 1) / 100, y / 400 - (y - 1) / 400;
    assert a - b + c == (if IsLeapYear(y) then 1 else 0);
  }

  /** A multiple of 400 is one of 100, and a multiple of 100 one of 4. */
  lemma Multiples(y: int)
    ensures y % 400 == 0 ==> y % 100 == 0
    ensures y % 100 == 0 ==> y % 4 == 0
  {
    if y % 400 == 0 {
      var k := 4 * (y / 400);
      assert y == 100 * k;
    }
    if y % 100 == 0 {
      var k := 25 * (y / 100);
      assert y == 4 * k;
    }
  }

  /** Counting multiples of 4, 100 and 400 up to `y` rather than `y - 1` adds one when
      they divide `y`. */
  lemma DivStep4(y: int)
    ensures y / 4 == (y - 1) / 4 + (if y % 4 == 0 then 1 else 0)
  {
  }

  lemma DivStep100(y: int)
    ensures y / 100 == (y - 1) / 100 + (if y % 100 == 0 then 1 else 0)
  {
  }

  lemma DivStep400(y: int)
    ensures y / 400 == (y - 1) / 400 + (if y % 400 == 0 then 1 else 0)
  {
  }

  lemma ModShift(a: int, n: int)
    ensures (a % 7 + n) % 7 == (a + n) % 7
  {
    var q := a / 7;
    assert a == 7 * q + a % 7;
    assert a + n == 7 * q + (a % 7 + n);
  }

  /** Days `k` apart are `k` apart in the week too. */
  lemma WeekdayShift(d: Date, r: Date, k: int)
    requires ValidDate(d) && ValidDate(r) && Ordinal(r) == Ordinal(d) + k
    ensures Weekday(r) == WeekdayAfter(Weekday(d), k)
  {
    ModShift(Ordinal(d) + 6, k);
  }

  lemma WeekdayShiftBack(d: Date, r: Date, k: int)
    requires ValidDate(d) && ValidDate(r) && Ordinal(r) == Ordinal(d) - k
    ensures Weekday(r) == WeekdayBefore(Weekday(d), k)
  {
    ModShift(Ordinal(d) + 6, -k);
  }

  /** The day after `d`. */
  function NextDay(d: Date): (r: Date)
    requires ValidDate(d)
    ensures ValidDate(r) && Ordinal(r) == Ordinal(d) + 1 && r.year >= d.year
  {
    if d.day < DaysInMonth(d.year, d.month) then Date(d.year, d.month, d.day + 1)
    else if d.month < 12 then Date(d.year, d.month + 1, 1)
    else
      YearLength(d.year);
      Date(d.year + 1, 1, 1)
  }

  /** The day before `d`. */
  function PrevDay(d: Date): (r: Date)
    requires ValidDate(d)
    ensures ValidDate(r) && Ordinal(r) == Ordinal(d) - 1
  {
    if d.day > 1 then Date(d.year, d.month, d.day - 1)
    else if d.month > 1 then Date(d.year, d.month - 1, DaysInMonth(d.year, d.month - 1))
    else
      YearLength(d.year - 1);
      Date(d.year - 1, 12, 31)
  }

  /** `d + timedelta(days=n)`. */
  function AddDays(d: Date, n: nat): (r: Date)
    requires ValidDate(d)
    ensures ValidDate(r) && Ordinal(r) == Ordinal(d) + n
    ensures Weekday(r) == WeekdayAfter(Weekday(d), n)
    ensures r.year >= d.year
    decreases n
  {
    if n == 0 then d
    else
      var r := AddDays(NextDay(d), n - 1);
      WeekdayShift(d, r, n);
      r
  }

  /** No day strictly between `d` and `n` days later falls on weekday `t` when the
      weekday arithmetic says so. */
  lemma WeekdayAvoided(d: Date, n: int, t: int)
    requires ValidDate(d)
    requires forall k :: 0 < k < n ==> WeekdayAfter(Weekday(d), k) != t
    ensures forall k: nat :: 0 < k < n ==> Weekday(AddDays(d, k)) != t
  {
    forall k: nat | 0 < k < n ensures Weekday(AddDays(d, k)) != t {
      assert WeekdayAfter(Weekday(d), k) != t;
    }
  }

  /** The weekday `k` days after weekday `w`. */
  function WeekdayAfter(w: int, k: int): int {
    (w + k) % 7
  }

  /** The weekday `k` days before weekday `w`. */
  function WeekdayBefore(w: int, k: int): int {
    (w - k) % 7
  }

  /** `d - timedelta(days=n)`. */
  function SubDays(d: Date, n: nat): (r: Date)
    requires ValidDate(d)
    ensures ValidDate(r) && Ordinal(r) == Ordinal(d) - n
    ensures Weekday(r) == WeekdayBefore(Weekday(d), n)
    decreases n
  {
    if n == 0 then d
    else
      var r := SubDays(PrevDay(d), n - 1);
      WeekdayShiftBack(d, r, n);
      r
  }

  // ---------------------------------------------------------------- ISO text

  /** `str(d)`: `YYYY-MM-DD`. */
  function IsoText(d: Date): (s: string)
    requires 0 <= d.year && 0 <= d.month && 0 <= d.day
    ensures |s| == 10
  {
    Padded(d.year, 4) + "-" + Padded(d.month, 2) + "-" + Padded(d.day, 2)
  }

  /** Text of the shape `%Y-%m-%d` with four, two and two digits. */
  predicate IsIsoText(s: string) {
    |s| == 10 && AllDigits(s[..4]) && s[4] == '-' && AllDigits(s[5..7]) && s[7] == '-' && AllDigits(s[8..])
  }

  /** `datetime.strptime(s, "%Y-%m-%d").date()` on well-formed text. */
  function ParseIso(s: string): Date
    requires IsIsoText(s)
  {
    Date(DigitsValue(s[..4]), DigitsValue(s[5..7]), DigitsValue(s[8..]))
  }

  lemma Digits2(s: string)
    requires |s| == 2 && AllDigits(s)
    ensures DigitsValue(s) == DigitValue(s[0]) * 10 + DigitValue(s[1])
  {
    assert s[..1][..0] == [];
    assert DigitsValue(s[..1]) == DigitValue(s[0]);
  }

  lemma Digits4(s: string)
    requires |s| == 4 && AllDigits(s)
    ensures DigitsValue(s) == DigitValue(s[0]) * 1000 + DigitValue(s[1]) * 100 + DigitValue(s[2]) * 10 + DigitValue(s[3])
  {
    Digits2(s[..2]);
    assert s[..3][..2] == s[..2];
    assert DigitsValue(s[..3]) == DigitsValue(s[..2]) * 10 + DigitValue(s[2]);
  }

  /** The parsed date, digit by digit. */
  lemma ParseIsoDigits(s: string)
    requires IsIsoText(s)
    ensures ParseIso(s) == Date(DigitValue(s[0]) * 1000 + DigitValue(s[1]) * 100 + DigitValue(s[2]) * 10 + DigitValue(s[3]),
                               DigitValue(s[5]) * 10 + DigitValue(s[6]), DigitValue(s[8]) * 10 + DigitValue(s[9]))
  {
    Digits4(s[..4]);
    Digits2(s[5..7]);
    Digits2(s[8..]);
  }

  /** The pieces of the four-two-two layout. */
  lemma IsoPieces(s: string, a: string, b: string, c: string)
    requires |a| == 4 && |b| == 2 && |c| == 2 && s == a + "-" + b + "-" + c
    ensures s[..4] == a && s[4] == '-' && s[5..7] == b && s[7] == '-' && s[8..] == c
  {
  }

  /** Formatting a parsed date gives the text back. */
  lemma IsoTextOfParse(s: string)
    requires IsIsoText(s)
    ensures IsoText(ParseIso(s)) == s
  {
    PaddedOfDigits(s[..4]);
    PaddedOfDigits(s[5..7]);
    PaddedOfDigits(s[8..]);
    var d := ParseIso(s);
    assert IsoText(d) == s[..4] + "-" + s[5..7] + "-" + s[8..];
    assert s == s[..4] + "-" + s[5..7] + "-" + s[8..] by {
      assert s == s[..4] + [s[4]] + s[5..7] + [s[7]] + s[8..];
    }
  }

  /** Parsing a formatted date gives the date back. */
  lemma ParseOfIsoText(d: Date)
    requires ValidDate(d) && 0 <= d.year <= 9999
    ensures IsIsoText(IsoText(d)) && ParseIso(IsoText(d)) == d
  {
    var s := IsoText(d);
    IsoPieces(s, Padded(d.year, 4), Padded(d.month, 2), Padded(d.day, 2));
    assert Pow10(4) == 10000 && Pow10(2) == 100;
    PaddedValue(d.year, 4);
    PaddedValue(d.month, 2);
    PaddedValue(d.day, 2);
  }

  // ---------------------------------------------------------------- time of day

  /** `datetime.time`: hour, minute, second, microsecond. */
  datatype TimeOfDay = TimeOfDay(hour: int, minute: int, second: int, microsecond: int)

  predicate ValidTime(t: TimeOfDay) {
    0 <= t.hour < 24 && 0 <= t.minute < 60 && 0 <= t.second < 60 && 0 <= t.microsecond < 1000000
  }

  /** `a <= b` on `datetime.time`: the fields compared in order. */
  predicate TimeLe(a: TimeOfDay, b: TimeOfDay) {
    a.hour < b.hour
    || (a.hour == b.hour && (a.minute < b.minute
    || (a.minute == b.minute && (a.second < b.second
    || (a.second == b.second && a.microsecond <= b.microsecond)))))
  }

  /** Microseconds since midnight. */
  function Micros(t: TimeOfDay): int {
    ((t.hour * 60 + t.minute) * 60 + t.second) * 1000000 + t.microsecond
  }

  /** Comparing times field by field is comparing them on the microsecond clock. */
  lemma MicrosOrder(a: TimeOfDay, b: TimeOfDay)
    requires ValidTime(a) && ValidTime(b)
    ensures TimeLe(a, b) <==> Micros(a) <= Micros(b)
  {
    var sa, sb := (a.hour * 60 + a.minute) * 60 + a.second, (b.hour * 60 + b.minute) * 60 + b.second;
    assert TimeLe(a, b) <==> sa < sb || (sa == sb && a.microsecond <= b.microsecond);
  }

  /** A local date and time of day (the scripts work in Asia/Kolkata time throughout). */
  datatype Instant = Instant(date: Date, time: TimeOfDay)

  /** An instant that `datetime` can represent. */
  predicate ValidInstant(t: Instant) {
    ValidDate(t.date) && 1 <= t.date.year <= 9999 && ValidTime(t.time)
  }

  // ---------------------------------------------------------------- names

  /** `d.strftime('%A')`. */
  function WeekdayName(w: int): string
    requires 0 <= w < 7
  {
    ["Monday", "Tuesday", "Wednesday", "Thursday", "Friday", "Saturday", "Sunday"][w]
  }

  /** `d.strftime('%b').upper()`. */
  function MonthAbbreviation(m: int): string
    requires 1 <= m <= 12
  {
    ["JAN", "FEB", "MAR", "APR", "MAY", "JUN", "JUL", "AUG", "SEP", "OCT", "NOV", "DEC"][m - 1]
  }
}
