/** The weekly expiry the options script asks for: the next Tuesday, written `DD-MON-YYYY`. */
module Expiry {
  import opened Wrappers
  import opened Text
  import opened Calendar
  import opened MarketClock

  /** The last date `datetime.date` can hold. */
  const MaxDate: Date := Date(9999, 12, 31)

  /** Days from a date of weekday `weekday` to the expiry Tuesday, asked at hour `hour`:
      from 16:00 on a Tuesday the expiry is the following week's. */
  function DaysAhead(weekday: int, hour: int): int
    requires 0 <= weekday < 7
  {
    var ahead := 1 - weekday;
    if ahead < 0 || (ahead == 0 && hour >= 16) then ahead + 7 else ahead
  }

  /** The expiry date chosen at `now` (the `today + timedelta(days=days_ahead)` step). */
  function NextTuesday(now: Instant): (r: Date)
    requires ValidInstant(now)
    ensures ValidDate(r) && r.year >= now.date.year
  {
    var n := DaysAhead(Weekday(now.date), now.time.hour);
    AddDays(now.date, n)
  }

  /** The expiry is the first Tuesday from today, 0 to 7 days ahead: today only when
      today is a Tuesday before 16:00, and a week ahead when it is a Tuesday from 16:00. */
  lemma NextTuesdayRule(now: Instant)
    requires ValidInstant(now)
    ensures Weekday(NextTuesday(now)) == 1
    ensures 0 <= Ordinal(NextTuesday(now)) - Ordinal(now.date) <= 7
    ensures Ordinal(NextTuesday(now)) == Ordinal(now.date) <==>
      Weekday(now.date) == 1 && now.time.hour < 16
    ensures Ordinal(NextTuesday(now)) == Ordinal(now.date) + 7 <==>
      Weekday(now.date) == 1 && now.time.hour >= 16
    ensures forall k: nat :: 0 < k < Ordinal(NextTuesday(now)) - Ordinal(now.date) ==>
      Weekday(AddDays(now.date, k)) != 1
  {
    TuesdayAhead(now.date, now.time.hour);
  }

  /** The step of `NextTuesday` on a bare date and hour. */
  lemma TuesdayAhead(d: Date, hour: int)
    requires ValidDate(d)
    ensures var n := DaysAhead(Weekday(d), hour);
      && Weekday(AddDays(d, n)) == 1
      && 0 <= n <= 7 && Ordinal(AddDays(d, n)) - Ordinal(d) == n
      && (n == 0 <==> Weekday(d) == 1 && hour < 16)
      && (n == 7 <==> Weekday(d) == 1 && hour >= 16)
      && forall k: nat :: 0 < k < n ==> Weekday(AddDays(d, k)) != 1
  {
    var w := Weekday(d);
    var n := DaysAhead(w, hour);
    DaysAheadRule(w, hour);
    var r := AddDays(d, n);
    assert Weekday(r) == (w + n) % 7 == 1;
    forall k: int | 0 < k < n ensures WeekdayAfter(w, k) != 1 {
      DaysAheadSkips(w, hour, k);
    }
    WeekdayAvoided(d, n, 1);
  }

  lemma DaysAheadRule(w: int, hour: int)
    requires 0 <= w < 7
    ensures 0 <= DaysAhead(w, hour) <= 7 && (w + DaysAhead(w, hour)) % 7 == 1
    ensures DaysAhead(w, hour) == 0 <==> w == 1 && hour < 16
    ensures DaysAhead(w, hour) == 7 <==> w == 1 && hour >= 16
  {
  }

  lemma DaysAheadSkips(w: int, hour: int, k: int)
    requires 0 <= w < 7 && 0 < k < DaysAhead(w, hour)
    ensures (w + k) % 7 != 1
  {
  }

  /** `d.strftime('%d-%b-%Y').upper()`. */
  function ExpiryText(d: Date): (s: string)
    requires ValidDate(d) && 0 <= d.year
    ensures |s| == 11
  {
    Padded(d.day, 2) + "-" + MonthAbbreviation(d.month) + "-" + Padded(d.year, 4)
  }

  /** `get_next_tuesday`: the expiry text, or the `OverflowError` that adding days past
      the year 9999 raises. */
  function GetNextTuesday(now: Instant): (r: Result<string>)
    requires ValidInstant(now)
    ensures r.Ok? ==> |r.value| == 11
    ensures r.Raised? ==> r.error == OverflowError
  {
    var d := NextTuesday(now);
    if d.year > 9999 then Raised(OverflowError) else Ok(ExpiryText(d))
  }

  /** The month whose upper-case abbreviation is `abbr`, or 0 (`%b` matches no month). */
  function MonthNumber(abbr: string): (m: int)
    ensures 0 <= m <= 12
  {
    if abbr == "JAN" then 1 else if abbr == "FEB" then 2 else if abbr == "MAR" then 3
    else if abbr == "APR" then 4 else if abbr == "MAY" then 5 else if abbr == "JUN" then 6
    else if abbr == "JUL" then 7 else if abbr == "AUG" then 8 else if abbr == "SEP" then 9
    else if abbr == "OCT" then 10 else if abbr == "NOV" then 11 else if abbr == "DEC" then 12
    else 0
  }

  lemma MonthNumberInverse(m: int)
    requires 1 <= m <= 12
    ensures MonthNumber(MonthAbbreviation(m)) == m
  {
  }

  lemma MonthAbbreviationInverse(abbr: string)
    requires MonthNumber(abbr) != 0
    ensures MonthAbbreviation(MonthNumber(abbr)) == abbr
  {
  }

  /** `datetime.strptime(s, '%d-%b-%Y')` for the text this script itself produces:
      two-digit day, upper-case month abbreviation, four-digit year; `None` stands
      for the `ValueError` raised on anything else or on a date that does not exist. */
  function ParseExpiryText(s: string): (r: Option<Date>)
    ensures r.Some? ==> |s| == 11 && s[2] == '-' && s[6] == '-'
    ensures r.Some? ==> ValidDate(r.value) && 1 <= r.value.year <= 9999
  {
    if |s| == 11 && AllDigits(s[..2]) && s[2] == '-' && MonthNumber(s[3..6]) != 0
       && s[6] == '-' && AllDigits(s[7..])
    then
      DigitsBelow(s[7..]);
      assert Pow10(4) == 10000;
      var d := Date(DigitsValue(s[7..]), MonthNumber(s[3..6]), DigitsValue(s[..2]));
      if ValidDate(d) && 1 <= d.year then Some(d) else None
    else None
  }

  /** Parsing the expiry text gives the date back. */
  lemma ParseOfExpiryText(d: Date)
    requires ValidDate(d) && 1 <= d.year <= 9999
    ensures ParseExpiryText(ExpiryText(d)) == Some(d)
  {
    var s := ExpiryText(d);
    assert s[..2] == Padded(d.day, 2);
    assert s[3..6] == MonthAbbreviation(d.month);
    assert s[7..] == Padded(d.year, 4);
    MonthNumberInverse(d.month);
    assert Pow10(4) == 10000 && Pow10(2) == 100;
    PaddedValue(d.year, 4);
    PaddedValue(d.day, 2);
  }

  /** Text that parses is the expiry text of its date. */
  lemma ExpiryTextOfParse(s: string)
    requires ParseExpiryText(s).Some?
    ensures ExpiryText(ParseExpiryText(s).value) == s
  {
    MonthAbbreviationInverse(s[3..6]);
    PaddedOfDigits(s[..2]);
    PaddedOfDigits(s[7..]);
    assert s == s[..2] + "-" + s[3..6] + "-" + s[7..];
  }

  /** The instant the IV solver is given as expiry: 15:30 on the expiry date. */
  function ExpiryInstant(d: Date): Instant {
    Instant(d, TimeOfDay(15, 30, 0, 0))
  }

  /** The text `get_next_tuesday` produces parses back to the chosen Tuesday. */
  lemma NextTuesdayTextRoundTrip(now: Instant)
    requires ValidInstant(now) && GetNextTuesday(now).Ok?
    ensures ParseExpiryText(GetNextTuesday(now).value) == Some(NextTuesday(now))
  {
    var d := NextTuesday(now);
    assert GetNextTuesday(now).value == ExpiryText(d);
    ParseOfExpiryText(d);
  }

  // ---------------------------------------------------------------- holidays are not skipped

  lemma MarchSecondIsMonday()
    ensures Weekday(Date(2026, 3, 2)) == 0
  {
  }

  lemma ExpiryFromMarchSecond()
    ensures NextTuesday(Instant(Date(2026, 3, 2), TimeOfDay(10, 0, 0, 0))) == Date(2026, 3, 3)
  {
    MarchSecondIsMonday();
    assert NextTuesday(Instant(Date(2026, 3, 2), TimeOfDay(10, 0, 0, 0))) == NextDay(Date(2026, 3, 2));
  }

  lemma MarchThirdListed()
    ensures IsoText(Date(2026, 3, 3)) == "2026-03-03" && "2026-03-03" in Holidays
  {
    assert Holidays[15] == "2026-03-03";
  }

  /** Although the script describes its expiry as skipping holidays, the rule does not look
      at the holiday list: on Monday 2026-03-02 it picks Tuesday 2026-03-03, a listed holiday. */
  lemma HolidayTuesdayIsChosen()
    ensures var now := Instant(Date(2026, 3, 2), TimeOfDay(10, 0, 0, 0));
      NextTuesday(now) == Date(2026, 3, 3) && !IsMarketDay(NextTuesday(now))
  {
    ExpiryFromMarchSecond();
    MarchThirdListed();
    HolidayByText(Date(2026, 3, 3));
  }
}
