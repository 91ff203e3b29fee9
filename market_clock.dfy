/** The trading-session clock of the NIFTY options script: which days the exchange
    trades, the hours in which the script runs, and the reason it gives when it
    does not. "Now" is a parameter, given as a local (Asia/Kolkata) instant. */
module MarketClock {
  import opened Wrappers
  import opened Text
  import opened Calendar

  /** The exchange holidays, as the script lists them, in four runs of dates. */
  const HolidaysEarly2025: seq<string> := [
    "2025-02-26", "2025-03-14", "2025-03-31", "2025-04-10",
    "2025-04-14", "2025-04-18", "2025-05-01"
  ]
  const HolidaysLate2025: seq<string> := [
    "2025-08-15", "2025-08-27", "2025-10-02", "2025-10-21",
    "2025-10-22", "2025-11-05", "2025-12-25"
  ]
  const HolidaysEarly2026: seq<string> := [
    "2026-01-26", "2026-03-03", "2026-03-26", "2026-03-31",
    "2026-04-03", "2026-04-14", "2026-05-01", "2026-05-28"
  ]
  const HolidaysLate2026: seq<string> := [
    "2026-06-26", "2026-09-14", "2026-10-02", "2026-10-20",
    "2026-11-10", "2026-11-24", "2026-12-25"
  ]

  /** `HOLIDAYS`. */
  const Holidays: seq<string> := HolidaysEarly2025 + HolidaysLate2025 + HolidaysEarly2026 + HolidaysLate2026

  /** Text that `strptime(h, "%Y-%m-%d")` accepts: the `YYYY-MM-DD` shape, naming a date
      that exists, in years 1 to 9999. */
  predicate IsDateText(h: string) {
    IsIsoText(h) && ValidDate(ParseIso(h)) && 1 <= ParseIso(h).year <= 9999
  }

  /** A sufficient test on the characters alone: the year does not start with 0, the month
      is 01 to 12, and the day is 01 to 28, or 29 to 31 in March. */
  predicate PlainDate(h: string)
    requires |h| == 10
  {
    && '1' <= h[0] <= '9'
    && ((h[5] == '0' && '1' <= h[6] <= '9') || (h[5] == '1' && '0' <= h[6] <= '2'))
    && ((h[8] == '0' && '1' <= h[9] <= '9') || (h[8] == '1' && '0' <= h[9] <= '9')
        || (h[8] == '2' && '0' <= h[9] <= '8')
        || (h[5] == '0' && h[6] == '3'
            && ((h[8] == '2' && h[9] == '9') || (h[8] == '3' && '0' <= h[9] <= '1'))))
  }

  lemma PlainDateValid(h: string)
    requires IsIsoText(h) && PlainDate(h)
    ensures IsDateText(h)
  {
    ParseIsoDigits(h);
  }

  lemma WellFormedEarly2025()
    ensures forall h :: h in HolidaysEarly2025 ==> IsDateText(h)
  {
    forall h | h in HolidaysEarly2025 ensures IsDateText(h) {
      assert IsIsoText(h) && PlainDate(h);
      PlainDateValid(h);
    }
  }

  lemma WellFormedLate2025()
    ensures forall h :: h in HolidaysLate2025 ==> IsDateText(h)
  {
    forall h | h in HolidaysLate2025 ensures IsDateText(h) {
      assert IsIsoText(h) && PlainDate(h);
      PlainDateValid(h);
    }
  }

  lemma WellFormedEarly2026()
    ensures forall h :: h in HolidaysEarly2026 ==> IsDateText(h)
  {
    forall h | h in HolidaysEarly2026 ensures IsDateText(h) {
      assert IsIsoText(h) && PlainDate(h);
      PlainDateValid(h);
    }
  }

  lemma WellFormedLate2026()
    ensures forall h :: h in HolidaysLate2026 ==> IsDateText(h)
  {
    forall h | h in HolidaysLate2026 ensures IsDateText(h) {
      assert IsIsoText(h) && PlainDate(h);
      PlainDateValid(h);
    }
  }

  /** Every listed holiday is a `%Y-%m-%d` text naming an existing date, so parsing the
      list cannot fail. */
  lemma HolidaysWellFormed()
    ensures forall h :: h in Holidays ==> IsDateText(h)
  {
    WellFormedEarly2025();
    WellFormedLate2025();
    WellFormedEarly2026();
    WellFormedLate2026();
  }

  /** The shape alone, by position. */
  lemma HolidaysShaped()
    ensures forall i :: 0 <= i < |Holidays| ==> IsIsoText(Holidays[i])
  {
    HolidaysWellFormed();
    assert forall i :: 0 <= i < |Holidays| ==> Holidays[i] in Holidays;
  }

  /** Every string parsed with `%Y-%m-%d`. */
  function ParseAll(hs: seq<string>): (ds: seq<Date>)
    requires forall h :: h in hs ==> IsIsoText(h)
    ensures |ds| == |hs| && forall i :: 0 <= i < |hs| ==> ds[i] == ParseIso(hs[i])
  {
    if hs == [] then [] else [ParseIso(hs[0])] + ParseAll(hs[1..])
  }

  /** `HOLIDAY_DATES`: the holidays as dates. */
  function HolidayDates(): seq<Date> {
    HolidaysWellFormed();
    ParseAll(Holidays)
  }

  /** One date per listed holiday, each a real date of years 1 to 9999: the conversion
      of `HOLIDAY_DATES` succeeds. */
  lemma HolidayDatesValid()
    ensures |HolidayDates()| == |Holidays|
    ensures forall d :: d in HolidayDates() ==> ValidDate(d) && 1 <= d.year <= 9999
  {
    HolidaysWellFormed();
    var ds := HolidayDates();
    assert forall i :: 0 <= i < |ds| ==> Holidays[i] in Holidays && ds[i] == ParseIso(Holidays[i]);
  }

  /** The session window the script accepts: 09:15 to 15:40. */
  const MarketOpen: TimeOfDay := TimeOfDay(9, 15, 0, 0)
  const MarketClose: TimeOfDay := TimeOfDay(15, 40, 0, 0)

  predicate TimeLt(a: TimeOfDay, b: TimeOfDay) {
    !TimeLe(b, a)
  }

  /** `is_market_day`: not a Saturday or Sunday and not a listed holiday. */
  predicate IsMarketDay(d: Date)
    requires ValidDate(d)
  {
    if Weekday(d) >= 5 then false
    else if d in HolidayDates() then false
    else true
  }

  /** `is_market_hours`. */
  predicate IsMarketHours(now: Instant)
    requires ValidInstant(now)
  {
    if !IsMarketDay(now.date) then false
    else TimeLe(MarketOpen, now.time) && TimeLe(now.time, MarketClose)
  }

  /** A date is a holiday exactly when its ISO text is one of the listed strings. */
  lemma HolidayByText(d: Date)
    requires ValidDate(d) && 1 <= d.year <= 9999
    ensures d in HolidayDates() <==> IsoText(d) in Holidays
  {
    HolidaysShaped();
    if d in HolidayDates() {
      var i :| 0 <= i < |HolidayDates()| && HolidayDates()[i] == d;
      IsoTextOfParse(Holidays[i]);
    }
    if IsoText(d) in Holidays {
      var i :| 0 <= i < |Holidays| && Holidays[i] == IsoText(d);
      ParseOfIsoText(d);
      assert HolidayDates()[i] == d;
    }
  }

  /** A market day is a weekday whose ISO text is not on the holiday list. */
  lemma MarketDayIff(d: Date)
    requires ValidDate(d) && 1 <= d.year <= 9999
    ensures IsMarketDay(d) <==> Weekday(d) < 5 && IsoText(d) !in Holidays
  {
    HolidayByText(d);
  }

  /** The session is inclusive at both ends: from 09:15:00.000000 to 15:40:00.000000. */
  lemma MarketHoursIff(now: Instant)
    requires ValidInstant(now)
    ensures IsMarketHours(now) <==>
      IsMarketDay(now.date) && 33300000000 <= Micros(now.time) <= 56400000000
  {
    MicrosOrder(MarketOpen, now.time);
    MicrosOrder(now.time, MarketClose);
  }

  // ---------------------------------------------------------------- status message

  /** Why the script runs or does not, in order of priority. */
  datatype MarketStatus =
    | Weekend(weekday: string)
    | Holiday(weekday: string, suffix: string)
    | OpensIn(hours: int, minutes: int)
    | ClosedForDay
    | Open(weekday: string)

  /** The first listed holiday that begins with `p`. */
  function FirstWithPrefix(hs: seq<string>, p: string): (r: Option<string>)
    ensures r.Some? ==> r.value in hs && IsPrefix(p, r.value)
    ensures r.Some? ==> exists i :: 0 <= i < |hs| && hs[i] == r.value
                                  && forall j :: 0 <= j < i ==> !IsPrefix(p, hs[j])
    ensures r.None? ==> forall h :: h in hs ==> !IsPrefix(p, h)
  {
    if hs == [] then None
    else if IsPrefix(p, hs[0]) then Some(hs[0])
    else FirstWithPrefix(hs[1..], p)
  }

  /** One step of the search: the first match in `hs[i..]` is `hs[i]` or lies further on. */
  lemma FirstWithPrefixStep(hs: seq<string>, i: nat, p: string)
    requires i < |hs|
    ensures FirstWithPrefix(hs[i..], p)
            == if IsPrefix(p, hs[i]) then Some(hs[i]) else FirstWithPrefix(hs[i + 1..], p)
  {
    assert hs[i..][1..] == hs[i + 1..];
  }

  /** The holiday text shown after the weekday for the date written `dateText`:
      the first listed holiday that begins with it, in brackets, or nothing. */
  function HolidaySuffix(dateText: string): string {
    match FirstWithPrefix(Holidays, dateText)
    case Some(h) => " (" + h + ")"
    case None => ""
  }

  /** The search loop of `get_market_status_message`. */
  method FindHolidaySuffix(dateText: string) returns (holidayStr: string)
    ensures holidayStr == HolidaySuffix(dateText)
  {
    holidayStr := "";
    var i := 0;
    while i < |Holidays|
      invariant 0 <= i <= |Holidays|
      invariant FirstWithPrefix(Holidays, dateText) == FirstWithPrefix(Holidays[i..], dateText)
      invariant holidayStr == ""
    {
      FirstWithPrefixStep(Holidays, i, dateText);
      if IsPrefix(dateText, Holidays[i]) {
        holidayStr := " (" + Holidays[i] + ")";
        break;
      }
      i := i + 1;
    }
  }

  /** What `get_market_status_message` decides for the instant `now`. */
  function Status(now: Instant): (r: MarketStatus)
    requires ValidInstant(now)
    ensures r.OpensIn? ==> r.hours >= 0 && 0 <= r.minutes < 60
  {
    var name := WeekdayName(Weekday(now.date));
    if Weekday(now.date) >= 5 then Weekend(name)
    else if now.date in HolidayDates() then Holiday(name, HolidaySuffix(IsoText(now.date)))
    else if TimeLt(now.time, MarketOpen) then
      var seconds := (Micros(MarketOpen) - Micros(now.time)) / 1000000;
      OpensIn(seconds / 3600, seconds % 3600 / 60)
    else if TimeLt(MarketClose, now.time) then ClosedForDay
    else Open(name)
  }

  /** The message text (the after-close text says 3:30 PM, as the script has it). */
  function StatusText(s: MarketStatus): string
    requires s.OpensIn? ==> s.hours >= 0 && s.minutes >= 0
  {
    match s
    case Weekend(w) => "Market closed - " + w + " (Weekend)"
    case Holiday(w, suffix) => "Market closed - " + w + suffix + " (Holiday)"
    case OpensIn(h, m) => "Market opens in " + NatText(h) + "h " + NatText(m) + "m at 9:15 AM"
    case ClosedForDay => "Market closed at 3:30 PM today"
    case Open(w) => "Market open - " + w
  }

  /** The reasons come in the order weekend, holiday, before opening, after closing,
      and the script runs exactly when the instant is within market hours. */
  lemma StatusPriority(now: Instant)
    requires ValidInstant(now)
    ensures Status(now).Weekend? <==> Weekday(now.date) >= 5
    ensures Status(now).Holiday? <==> Weekday(now.date) < 5 && now.date in HolidayDates()
    ensures Status(now).OpensIn? <==> IsMarketDay(now.date) && Micros(now.time) < 33300000000
    ensures Status(now).ClosedForDay? <==> IsMarketDay(now.date) && Micros(now.time) > 56400000000
    ensures Status(now).Open? <==> IsMarketHours(now)
  {
    MicrosOrder(MarketOpen, now.time);
    MicrosOrder(now.time, MarketClose);
  }

  lemma MinuteSplit(seconds: int)
    requires seconds >= 0
    ensures seconds / 3600 * 60 + seconds % 3600 / 60 == seconds / 60
  {
    var h, r := seconds / 3600, seconds % 3600;
    assert seconds == h * 3600 + r;
    assert seconds == (h * 60 + r / 60) * 60 + r % 60;
  }

  /** Before opening, the hours and minutes shown add up to the whole minutes left until 09:15. */
  lemma OpensInMinutes(now: Instant)
    requires ValidInstant(now)
    ensures Status(now).OpensIn? ==>
      0 <= Status(now).minutes < 60 && 0 <= Status(now).hours
      && Status(now).hours * 60 + Status(now).minutes == (33300000000 - Micros(now.time)) / 60000000
  {
    var remaining := Micros(MarketOpen) - Micros(now.time);
    if remaining > 0 {
      MinuteSplit(remaining / 1000000);
      assert remaining / 1000000 / 60 == remaining / 60000000;
    }
  }

  /** On a holiday the text in brackets is the date's own ISO text. */
  lemma HolidaySuffixIsDate(d: Date)
    requires ValidDate(d) && 1 <= d.year <= 9999 && d in HolidayDates()
    ensures HolidaySuffix(IsoText(d)) == " (" + IsoText(d) + ")"
  {
    var t := IsoText(d);
    assert t in Holidays by {
      HolidayByText(d);
    }
    assert IsPrefix(t, t);
    var r := FirstWithPrefix(Holidays, t);
    assert r.Some?;
    assert |r.value| == 10 by {
      HolidaysWellFormed();
    }
    assert r.value == r.value[..|t|] == t;
  }

  /** `get_market_status_message`: the message and whether the script should run. */
  method GetMarketStatusMessage(now: Instant) returns (message: string, isOpen: bool)
    requires ValidInstant(now)
    ensures message == StatusText(Status(now))
    ensures isOpen == IsMarketHours(now)
  {
    StatusPriority(now);
    OpensInMinutes(now);
    var currentDate := now.date;
    var weekday := WeekdayName(Weekday(currentDate));
    if Weekday(currentDate) >= 5 {
      return "Market closed - " + weekday + " (Weekend)", false;
    }
    if currentDate in HolidayDates() {
      var holidayStr := FindHolidaySuffix(IsoText(currentDate));
      return "Market closed - " + weekday + holidayStr + " (Holiday)", false;
    }
    var currentTime := now.time;
    if TimeLt(currentTime, MarketOpen) {
      var seconds := (Micros(MarketOpen) - Micros(currentTime)) / 1000000;
      var hours, remainder := seconds / 3600, seconds % 3600;
      var minutes := remainder / 60;
      return "Market opens in " + NatText(hours) + "h " + NatText(minutes) + "m at 9:15 AM", false;
    }
    if TimeLt(MarketClose, currentTime) {
      return "Market closed at 3:30 PM today", false;
    }
    return "Market open - " + weekday, true;
  }
}
