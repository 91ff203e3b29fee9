# Index-NAVs data scripts, modelled in Dafny

The repository has four scripts. Each one fetches market data and writes a CSV table:

- `Scripts/nifty_options.py` builds the NIFTY option chain for the weekly expiry, with an implied-volatility column.
  - It first decides whether the market is open. It uses weekends, a fixed list of NSE holidays, and the window from 9:15 to 15:40 IST.
  - It picks the expiry: the next Tuesday, or a week later from 16:00 on a Tuesday.
  - It rounds the underlying's value to the nearest hundred (ties go to the even hundred) and keeps up to ten strikes on either side of it.
  - It inserts a marker row where the underlying's value falls among the strikes.
  - It finds the at-the-money (ATM) strike: the one nearest the future price.
  - It asks an IV solver for each row's call-side or put-side volatility.
  - It appends an "Update Time" row.
- `Scripts/nav_fetch.py` reports the NAV of twenty named mutual funds.
  - The NAVs come from the previous weekday: Friday when run on a Saturday, Sunday or Monday. Holidays are not skipped.
  - Each fund is listed under a display name: the text before the first '-', with its whitespace collapsed.
  - A fund with no NAV shows '-'.
  - The table ends with a "Last Updated" row.
- `Scripts/eco.py` builds an economic-calendar table from two pages of events.
  - Times are converted to IST `HH:MM`, '%' signs are stripped from values, and country codes are mapped to names.
  - When a page raises an exception, the rest of that page is skipped.
  - If nothing was fetched, the table gets a "No Data" row. It always ends with an "Updated" row.
- `Scripts/cash.py` writes the daily FII/DII cash flows CSV.
  - It writes a header, then one row per date that has both flows, in sorted date order.
  - A missing `buy_sell_difference` stops the script with `KeyError`, leaving the rows written so far.

## How the model is organised

Each script's work is modelled as functions on values, in these modules:

| Module | What it models |
|---|---|
| `MarketClock` | holidays, market day, market hours, the status message |
| `Expiry` | the expiry date and its text |
| `StrikeWindow` | rounding and the strike window |
| `OptionData` | rows and the strike map |
| `AtmIv` | the ATM strike and the IV column |
| `ChainAssembly` | the whole table |
| `NavTable` | the NAV script |
| `EcoCalendar` | the economic-calendar script |
| `CashTable` | the cash-flow script |

Shared modules:

| Module | What it holds |
|---|---|
| `Wrappers` | `Option`, and `Result` carrying the Python exception kind |
| `Cells` | JSON and table cells |
| `Text` | Python's `str` operations |
| `Calendar` | proleptic Gregorian dates with Python's ordinal and weekday numbering |
| `Order` | sorting and first minimum |

Where the source loops and updates variables, a method with a loop models it. That method is proved equal to the specification function, and the properties are proved about that function:

- the holiday search;
- the ATM search;
- the IV loop;
- the row-assembly loop;
- the NAV loops;
- the record loop;
- the eco page loop;
- the CSV loop.

The CSV writer is a class whose `rows` field `writerow` extends.

Where the code and its comments or documentation disagree, the model follows the code:

- **Expiry and holidays.** `get_next_tuesday`'s docstring says it skips holidays; the code does not. `Expiry.HolidayTuesdayIsChosen` shows a listed holiday chosen as the expiry.
- **Closing-time message.** The message after closing says "3:30 PM", while the close used is 15:40. The model keeps both as written.
- **Centring the window.** The window is centred on the rounded `underlyingValue`, not on the future price.
- **Premium floor.** The premiums given to the solver are floored at `max(price, intrinsic + 0.01, 0.01)`.
- **Expiry time.** The expiry instant is 15:30 on the expiry date.
- **Unreachable branches.**
  - The `atm_row is None` branch of `find_atm_strike_and_prices` cannot be taken (`AtmIv.AtmRowFound`).
  - The `continue` for a strike missing from `strike_map` never fires (`ChainAssembly.WindowStrikesMapped`).

## Model

| member | source | states |
|---|---|---|
| MarketClock.HolidaysWellFormed | Scripts/nifty_options.py:12-24 | every listed holiday is the `YYYY-MM-DD` text of a date that exists, in years 1 to 9999, so the parse of line 24 cannot raise |
| MarketClock.HolidaysShaped | Scripts/nifty_options.py:12-21 | every entry of the list, by position, has the `YYYY-MM-DD` shape |
| MarketClock.HolidayDatesValid | Scripts/nifty_options.py:24 | `HOLIDAY_DATES` has one date per listed text, and each is a real date in years 1 to 9999 |
| MarketClock.ParseAll | Scripts/nifty_options.py:24 | the parsed holiday dates are the list's texts parsed one by one, in order |
| MarketClock.HolidayByText | Scripts/nifty_options.py:24 | a date is among the parsed holiday dates exactly when its ISO text is among the listed strings |
| MarketClock.IsMarketDay | Scripts/nifty_options.py:26-40 | the definition: no Saturday or Sunday and no parsed holiday; MarketDayIff states it |
| MarketClock.IsMarketHours | Scripts/nifty_options.py:42-59 | the definition: a market day at a time from 9:15 to 15:40 inclusive; MarketHoursIff states it |
| MarketClock.MarketDayIff | Scripts/nifty_options.py:26-40 | a day is a market day if and only if it is Monday to Friday and not a listed holiday |
| MarketClock.MarketHoursIff | Scripts/nifty_options.py:42-59 | market hours hold if and only if it is a market day and the time is from 9:15:00 to 15:40:00 inclusive |
| MarketClock.FirstWithPrefix | Scripts/nifty_options.py:76-80 | the found holiday is in the list and starts with the date text, and no earlier entry does; none found means no listed holiday starts with it |
| MarketClock.FindHolidaySuffix | Scripts/nifty_options.py:76-80 | the search loop with `break` yields the first matching holiday in parentheses, or nothing |
| MarketClock.FirstWithPrefixStep | Scripts/nifty_options.py:77-80 | one step of the search: the first match from position i is entry i when it matches, and otherwise the first match after it |
| MarketClock.HolidaySuffixIsDate | Scripts/nifty_options.py:74-81 | on a holiday the suffix shown is the date itself in parentheses |
| MarketClock.Status | Scripts/nifty_options.py:61-92 | before opening, the whole hours and the minutes (below 60) left are not negative; StatusPriority states the order of the cases |
| MarketClock.StatusText | Scripts/nifty_options.py:70-97 | the definition: the five messages in the scripts' words, with the hours and minutes as decimal numerals |
| MarketClock.StatusPriority | Scripts/nifty_options.py:61-97 | the five outcomes are exclusive and checked in order: weekend, holiday, before opening, after closing, open; open exactly in market hours |
| MarketClock.MinuteSplit | Scripts/nifty_options.py:90-91 | the divmod by 3600 followed by // 60 gives whole hours and minutes that recombine to the whole minutes |
| MarketClock.OpensInMinutes | Scripts/nifty_options.py:88-92 | before opening, the hours and minutes (minutes below 60) shown add up to the whole minutes left until 9:15 |
| MarketClock.GetMarketStatusMessage | Scripts/nifty_options.py:61-97 | the message is that of the status at `now`, and the flag is true exactly in market hours |
| Expiry.NextTuesdayRule | Scripts/nifty_options.py:158-169 | the expiry is a Tuesday 0 to 7 days ahead; no Tuesday lies strictly between; it is today only on a Tuesday before 16:00 and a week ahead on a Tuesday from 16:00 |
| Expiry.TuesdayAhead | Scripts/nifty_options.py:165-169 | the same rule stated for any date and hour: `days_ahead` lands on the first Tuesday with the 16:00 cut-off |
| Expiry.DaysAheadRule | Scripts/nifty_options.py:165-167 | `days_ahead` lies in 0..7 and reaches weekday 1; it is 0 or 7 only for a Tuesday, split at 16:00 |
| Expiry.DaysAheadSkips | Scripts/nifty_options.py:165-167 | no day strictly before `days_ahead` is a Tuesday |
| Expiry.NextTuesday | Scripts/nifty_options.py:169 | the date chosen is a valid date no earlier in years than today |
| Expiry.GetNextTuesday | Scripts/nifty_options.py:158-172 | the text returned is eleven characters long, and the only exception is `OverflowError` past the year 9999 |
| Expiry.ExpiryText | Scripts/nifty_options.py:172 | the `%d-%b-%Y` upper-cased text is eleven characters long |
| Expiry.MonthNumberInverse | Scripts/nifty_options.py:172 | the upper-case month abbreviation reads back as its month number |
| Expiry.MonthAbbreviationInverse | Scripts/nifty_options.py:362 | any text read as a month is that month's abbreviation |
| Expiry.ParseExpiryText | Scripts/nifty_options.py:362 | a text that parses is eleven characters long with `-` at positions 2 and 6, and gives a real date in years 1 to 9999 |
| Expiry.ParseOfExpiryText | Scripts/nifty_options.py:172 | parsing the expiry text as `%d-%b-%Y` gives back the date |
| Expiry.ExpiryTextOfParse | Scripts/nifty_options.py:362 | any text that parses as an expiry is exactly the expiry text of the date parsed |
| Expiry.NextTuesdayTextRoundTrip | Scripts/nifty_options.py:172 | the text sent for the expiry parses back, at line 362, to the Tuesday chosen |
| Expiry.HolidayTuesdayIsChosen | Scripts/nifty_options.py:158-172 | from Monday 2026-03-02 the expiry chosen is 2026-03-03, which is a listed holiday and not a market day |
| Expiry.MarchThirdListed | Scripts/nifty_options.py:16 | 2026-03-03 is on the holiday list |
| Expiry.ExpiryFromMarchSecond | Scripts/nifty_options.py:165-169 | on 2026-03-02 at 10:00 the expiry chosen is the next day |
| Expiry.MarchSecondIsMonday | Scripts/nifty_options.py:165 | 2026-03-02 has Python weekday 0, Monday |
| StrikeWindow.RoundToNearest100 | Scripts/nifty_options.py:174-175 | the rounded strike is a multiple of 100 |
| StrikeWindow.RoundHalfEvenIsNearest | Scripts/nifty_options.py:175 | Python's `round` gives the nearest integer, the even one at a tie |
| StrikeWindow.NearestEvenUnique | Scripts/nifty_options.py:175 | only one integer is nearest with ties to even |
| StrikeWindow.RoundToNearest100Spec | Scripts/nifty_options.py:174-175 | the rounded strike is a multiple of 100 within 50 of the price, the even hundred at a tie |
| StrikeWindow.StrikesOf | Scripts/nifty_options.py:181 | the kept strikes are exactly the item strikes that are multiples of 100, each kept as often as items carry it |
| StrikeWindow.AllStrikes | Scripts/nifty_options.py:181 | `all_strikes` is ascending and a permutation of the kept strikes |
| StrikeWindow.IndexOf | Scripts/nifty_options.py:183 | `index` gives the first position holding the strike |
| StrikeWindow.Distances | Scripts/nifty_options.py:184 | each distance is the absolute difference of that strike from the rounded strike |
| StrikeWindow.TargetIsFirstNearest | Scripts/nifty_options.py:183-184 | the target is the first strike at least distance, and the rounded strike itself whenever it is listed |
| StrikeWindow.WindowFailsIff | Scripts/nifty_options.py:177-189 | the window raises (`min` of an empty range) exactly when no item's strike is a multiple of 100 |
| StrikeWindow.WindowShape | Scripts/nifty_options.py:177-189 | the window is the contiguous run of `all_strikes` around the target, cut to `strike_range` each side by the ends of the list; the offset points at the target |
| StrikeWindow.WindowAtShape | Scripts/nifty_options.py:186-189 | the slice between the clamped start and end holds the target at the returned offset, with min(t, r) strikes before and min(r, n-1-t) after |
| StrikeWindow.GetFilteredStrikePrices | Scripts/nifty_options.py:177-189 | the definition of the window; WindowFailsIff and WindowShape state when it raises and what it holds |
| OptionData.MarkerRow | Scripts/nifty_options.py:323-328 | the marker row's strike is the underlying's value as text, never a number |
| OptionData.StrikeRow | Scripts/nifty_options.py:331-347 | the definition of a strike row, each quote read with `.get(key, 0)` from its side; StrikeRowFields states it column by column |
| OptionData.StrikeRowFields | Scripts/nifty_options.py:331-347 | a strike row carries its strike as a number, and each of its ten quote columns is the field of its side when the side has it and 0 when it does not, a missing side giving 0 throughout |
| OptionData.TimestampRow | Scripts/nifty_options.py:378-384 | the last row has "Update Time" and the time in its last two columns and a blank strike and IV |
| OptionData.LastWithStrike | Scripts/nifty_options.py:313 | the item found has the strike and no later item shares it; none found means no item has it |
| OptionData.StrikeMap | Scripts/nifty_options.py:313 | the map's keys are the multiples of 100 some item has, each mapped to the last item with that strike |
| AtmIv.Ltp | Scripts/nifty_options.py:230-231 | '' and None count as 0, numbers convert to themselves, a non-empty text converts to the value of its decimal literal, and `ValueError` is raised exactly for a non-empty text that is no decimal literal |
| AtmIv.LtpOfText | Scripts/nifty_options.py:263-264 | a quoted premium such as "12.50" converts to its value |
| AtmIv.LtpOfDash | Scripts/nifty_options.py:263-264 | the placeholder "-" raises `ValueError` |
| Text.FloatOfText | Scripts/nifty_options.py:230-231 | blank text never converts, and a negative value comes only from text whose first non-blank character is `-` |
| Text.FloatOfDigits | Scripts/nifty_options.py:230-231 | a run of digits converts to the number it spells |
| Text.FloatOfNatText | Scripts/nifty_options.py:230-231 | the numeral of a natural number, with or without a leading `-`, converts to that number or its negation |
| Text.FloatOfPointDigits | Scripts/nifty_options.py:230-231 | digits, a point and digits convert to the whole part plus the fraction over the power of ten of its length |
| Text.FloatOfDecimalText | Scripts/nifty_options.py:230-231 | a number written with k decimal places converts back to its value |
| Text.FloatOfScientificText | Scripts/nifty_options.py:230-231 | `me` followed by `e` or `e-` and an exponent converts to m times or over that power of ten |
| Text.FloatOfLoneMinus | Scripts/nifty_options.py:230-231 | a lone `-` does not convert |
| Text.FloatOfTextChars | Scripts/nifty_options.py:230-231 | a text that converts holds, once stripped, only digits, signs, `.`, `e` and `E` |
| AtmIv.ValidRows | Scripts/nifty_options.py:210-213 | the valid rows are numeric-strike rows |
| AtmIv.MinByDistance | Scripts/nifty_options.py:219 | `min` by key gives a numeric row at least distance from the reference price |
| AtmIv.FirstNearest | Scripts/nifty_options.py:210-219 | there is no nearest row exactly when no strike is numeric; otherwise it is the first numeric row at least distance |
| AtmIv.FirstNearestRowUnique | Scripts/nifty_options.py:219 | the first nearest row is unique |
| AtmIv.ValidRowsEmpty | Scripts/nifty_options.py:215-216 | `valid_rows` is empty exactly when no strike is numeric |
| AtmIv.MinByDistanceStep | Scripts/nifty_options.py:219 | `min` keeps the earlier row unless a later one is strictly nearer |
| AtmIv.MinOfValidRows | Scripts/nifty_options.py:210-219 | `min` over `valid_rows` is the first numeric row at least distance in the whole table |
| AtmIv.FirstWithStrike | Scripts/nifty_options.py:221-225 | the search with `break` finds the first row with the strike, or reports none has it |
| AtmIv.AtmRowFound | Scripts/nifty_options.py:221-228 | the search for the ATM strike's row always finds that very row, so the None branch is unreachable |
| AtmIv.AtmOfSpec | Scripts/nifty_options.py:206-233 | no ATM exactly when no strike is numeric; raises exactly when a premium of the first nearest row fails to convert; otherwise that row's strike and premiums |
| AtmIv.AtmOf | Scripts/nifty_options.py:206-233 | the definition of the ATM result; AtmOfSpec states it |
| AtmIv.FindAtmStrikeAndPrices | Scripts/nifty_options.py:206-233 | the two loops compute the ATM result of the specification |
| AtmIv.FloorPrice | Scripts/nifty_options.py:271-276 | the floored premium is at least the price, the intrinsic value plus 0.01, and 0.01 |
| AtmIv.FloorPriceSpec | Scripts/nifty_options.py:271-276 | the floored premium is at least the price, the intrinsic value plus 0.01 and 0.01, equals one of them, leaves a high enough price alone, and flooring twice changes nothing |
| AtmIv.ShouldUseCallIv | Scripts/nifty_options.py:235-245 | the definition: the call side for a strike at or above the reference price, whichever branch of the flag is taken |
| AtmIv.PrepareRequest | Scripts/nifty_options.py:279-290 | the definition of the solver's input; RequestSpec states its bounds |
| AtmIv.RequestSpec | Scripts/nifty_options.py:279-290 | the solver gets positive ATM premiums (1.0 in place of a non-positive one) and strike premiums no lower than the quotes and the floors |
| AtmIv.RowIv | Scripts/nifty_options.py:256-306 | the definition of one row's IV; RowIvSpec and RowIvSolved state it |
| AtmIv.RowIvSpec | Scripts/nifty_options.py:256-306 | a row raises exactly when numeric with an unconvertible premium; a non-numeric row, or one whose premiums both convert to values not above 0, is blank; an IV shown is positive and is 100 times what the solver gave for the side chosen by strike >= future price |
| AtmIv.RowIvSolved | Scripts/nifty_options.py:258-306 | conversely, a numeric row whose premiums convert and are not both 0 or below gets 100 times the solver's answer for the side chosen by strike >= future price when that is positive, and blank otherwise |
| AtmIv.RowIvOf | Scripts/nifty_options.py:256-306 | the loop body computes the row's IV of the specification |
| AtmIv.RowIvUsesOneSide | Scripts/nifty_options.py:293-298 | the IV depends only on the solver's answer for the chosen side |
| AtmIv.IvValuesSpec | Scripts/nifty_options.py:254-308 | the IV list raises exactly when some row raises; otherwise it holds each row's IV in order |
| AtmIv.IvValuesStep | Scripts/nifty_options.py:256-306 | one more row extends the list by that row's IV or raises its exception |
| AtmIv.IvValuesRaisedPrefix | Scripts/nifty_options.py:256-306 | once a row has raised, later rows do not change the outcome |
| AtmIv.IvColumn | Scripts/nifty_options.py:247-308 | the definition of the IV column; IvColumnShape and IvValuesSpec state it |
| AtmIv.IvColumnShape | Scripts/nifty_options.py:247-308 | the IV column has one entry per row, each blank or a positive number, blank for every non-numeric row |
| AtmIv.CalculateIv | Scripts/nifty_options.py:247-308 | the loop computes the IV column of the specification |
| ChainAssembly.Present | Scripts/nifty_options.py:318-320 | the strikes kept by the loop are all in the strike map |
| ChainAssembly.FirstAbove | Scripts/nifty_options.py:322 | the marker goes after every strike not above the underlying's value and before the first one above it |
| ChainAssembly.RowsOf | Scripts/nifty_options.py:331-347 | one row per kept strike |
| ChainAssembly.RowsOfIndex | Scripts/nifty_options.py:331-347 | the i-th row is the strike row of the i-th kept strike's item |
| ChainAssembly.AssembleRows | Scripts/nifty_options.py:315-355 | the loop with the `inserted_underlying` flag and the trailing marker computes the assembled rows |
| ChainAssembly.FilledDone | Scripts/nifty_options.py:349-355 | after the loop, the marker is appended exactly when it was not inserted, giving the assembled rows |
| ChainAssembly.FilledStep | Scripts/nifty_options.py:318-347 | one loop step keeps the invariant: the rows are those of the strikes so far, with the marker in place once a strike above the value was seen |
| ChainAssembly.StepBefore | Scripts/nifty_options.py:331-347 | a strike not above the value, before the marker, only appends its row |
| ChainAssembly.StepInsert | Scripts/nifty_options.py:322-329 | the first strike above the value puts the marker before its row |
| ChainAssembly.StepAfter | Scripts/nifty_options.py:331-347 | a strike after the marker appends its row after it |
| ChainAssembly.PresentStep | Scripts/nifty_options.py:319-320 | a strike missing from the map is skipped and any other is kept |
| ChainAssembly.FirstAboveAppend | Scripts/nifty_options.py:322 | a later strike moves the marker position only while no strike so far was above the value |
| ChainAssembly.RowsOfAppend | Scripts/nifty_options.py:335-347 | a kept strike appends its row |
| ChainAssembly.Assembled | Scripts/nifty_options.py:315-355 | the definition of the rows; AssembledShape and OneMarker state it |
| ChainAssembly.AssembledShape | Scripts/nifty_options.py:315-355 | the rows are the kept strikes' rows in order with the marker inserted at the first strike above the value, or last |
| ChainAssembly.SplitRowsShape | Scripts/nifty_options.py:315-355 | splitting the rows at a position and putting the marker there gives one more row, in order |
| ChainAssembly.OneMarker | Scripts/nifty_options.py:322-329 | exactly one row, the marker, has a non-numeric strike |
| ChainAssembly.LadderMapped | Scripts/nifty_options.py:181 | every strike of `all_strikes` is a key of `strike_map` |
| ChainAssembly.WindowInMap | Scripts/nifty_options.py:311-313 | every strike of the window is a key of `strike_map` |
| ChainAssembly.FitsMapped | Scripts/nifty_options.py:189 | a window cut out of the strike list keeps only strikes that are in the map |
| ChainAssembly.SliceMapped | Scripts/nifty_options.py:189 | a slice of a list whose strikes are all in the map has only mapped strikes |
| ChainAssembly.WindowStrikesMapped | Scripts/nifty_options.py:318-320 | the `continue` never fires: every window strike is kept |
| ChainAssembly.AllPresent | Scripts/nifty_options.py:318-320 | when every strike is mapped, every strike is kept |
| ChainAssembly.WithIv | Scripts/nifty_options.py:368 | the IV column is attached row by row |
| ChainAssembly.CreateOptionChainRows | Scripts/nifty_options.py:310-388 | computes the option-chain table of the specification, or its exception |
| ChainAssembly.OptionChain | Scripts/nifty_options.py:357-386 | the definition of the table; OptionChainValue and OptionChainShape state it |
| ChainAssembly.OptionChainValue | Scripts/nifty_options.py:357-386 | a table that does not raise is the assembled rows with their IV column, then the timestamp row |
| ChainAssembly.OptionChainShape | Scripts/nifty_options.py:310-388 | a table has the window's strike rows and the marker, two rows more than the window, ends with the timestamp row, and the marker's IV is blank |
| ChainAssembly.WithIvShape | Scripts/nifty_options.py:366-386 | the IV column keeps the rows and their order, and the timestamp row comes last |
| NavTable.ExtractDisplayName | Scripts/nav_fetch.py:36-41 | the definition of the display name; DisplayNameShape and DisplayNameIdempotent state it |
| NavTable.DisplayNameShape | Scripts/nav_fetch.py:36-41 | a display name has no '-' and no leading, trailing or doubled whitespace; its words are those of the text before the first '-' |
| NavTable.DisplayNameIdempotent | Scripts/nav_fetch.py:36-41 | the display name of a display name is itself |
| NavTable.BeforeAbsent | Scripts/nav_fetch.py:38 | `split('-')[0]` of text without '-' is the text itself |
| NavTable.DisplayNames | Scripts/nav_fetch.py:44 | one display name per fund, in order |
| NavTable.TargetDate | Scripts/nav_fetch.py:55-62 | the definition of the target date; TargetDateRule states it |
| NavTable.TargetDateRule | Scripts/nav_fetch.py:55-62 | the target date is a weekday, 3, 2 or 1 days back for Monday, Sunday and the rest, and every day skipped is a weekend day |
| NavTable.DaysBackRule | Scripts/nav_fetch.py:55-62 | going back that many days lands on a weekday and passes only weekend days |
| NavTable.LastForSpec | Scripts/nav_fetch.py:73-85 | the NAV found for a display name is the last listed entry of a target fund with that name, or none when there is no such entry |
| NavTable.NavMapLastWins | Scripts/nav_fetch.py:79-85 | a display name is in `nav_data` exactly when some target fund's NAV has it, and holds the last such NAV and time |
| NavTable.NavMapKeys | Scripts/nav_fetch.py:79-82 | every key of `nav_data` is the display name of a target fund |
| NavTable.NavMapAppend | Scripts/nav_fetch.py:79-85 | one more NAV updates the map by one store |
| NavTable.SchemeNavsStep | Scripts/nav_fetch.py:74-75 | the scheme loop visits the schemes' NAVs in order |
| NavTable.AllNavsStep | Scripts/nav_fetch.py:73-75 | the fund loop visits the funds' NAVs in order |
| NavTable.StoreNavs | Scripts/nav_fetch.py:75-85 | the innermost loop leaves the map of all NAVs seen so far |
| NavTable.StoreSchemes | Scripts/nav_fetch.py:74-85 | the scheme loop leaves the map of all NAVs seen so far |
| NavTable.CollectNavData | Scripts/nav_fetch.py:71-85 | the three nested loops build the map of the NAVs of all funds, in document order |
| NavTable.RecordsOf | Scripts/nav_fetch.py:91-106 | one record per display name |
| NavTable.RecordsOfSpec | Scripts/nav_fetch.py:91-106 | each record has its display name, with the collected NAV and time when present and '-' for both otherwise |
| NavTable.CountFoundBounds | Scripts/nav_fetch.py:89-99 | `funds_found` is at most the number of names, equals it exactly when every name was found, and is 0 exactly when none was |
| NavTable.BuildRecords | Scripts/nav_fetch.py:88-114 | the loop builds the records and then the timestamp row, and counts the names found |
| NavTable.FetchNavTable | Scripts/nav_fetch.py:53-114 | the script's target date, records and count are those of the specification for the data fetched |
| EcoCalendar.IntOfTextRoundTrip | Scripts/eco.py:16 | `int` of a decimal numeral, optionally negative, gives its value |
| EcoCalendar.IntOfWhole | Scripts/eco.py:16 | `int` of a whole float gives that integer |
| EcoCalendar.FormatTime | Scripts/eco.py:14-20 | the definition of the time text; FormatTimeSpec states it |
| EcoCalendar.FormatTimeNull | Scripts/eco.py:14-20 | a missing time becomes "" |
| EcoCalendar.ClockTextSpec | Scripts/eco.py:18 | `%H:%M` is two two-digit fields, the hours and the minutes of the minute of the day |
| EcoCalendar.FormatEpochSpec | Scripts/eco.py:14-20 | the time is "" exactly for a timestamp outside the range `datetime` can hold; otherwise it is the IST hour and minute that contain the timestamp |
| EcoCalendar.FormatTimeSpec | Scripts/eco.py:14-20 | the time is "" exactly when the value does not convert to an integer or is out of range; otherwise it is the IST clock reading of that integer |
| EcoCalendar.ClockOfSeconds | Scripts/eco.py:16-18 | the minute of the day contains the second of the day |
| EcoCalendar.CleanValue | Scripts/eco.py:22-25 | a string stays a string, with no '%' and no longer than before, and anything else stays what it was |
| EcoCalendar.CleanValueSpec | Scripts/eco.py:22-25 | a string loses every '%' and keeps every other character; other values pass unchanged |
| EcoCalendar.CleanValueIdempotent | Scripts/eco.py:22-25 | cleaning twice is cleaning once |
| EcoCalendar.CountryName | Scripts/eco.py:27-35 | a string maps to a string and anything else passes unchanged |
| EcoCalendar.CountryNameSpec | Scripts/eco.py:27-35 | a listed code maps to its country and anything else passes unchanged; mapping twice is mapping once |
| EcoCalendar.CountryNamesDistinct | Scripts/eco.py:28-34 | no two codes share a country name |
| EcoCalendar.TrendSymbol | Scripts/eco.py:47-48 | the trend is one of the arrow up, the arrow down and '-' |
| EcoCalendar.TrendSymbolSpec | Scripts/eco.py:47-48 | the arrow up exactly for "up", the arrow down exactly for "down", '-' for anything else |
| EcoCalendar.BuildRecord | Scripts/eco.py:50-59 | the definition of one record; BuildRecordRaises and BuildRecordFields state it |
| EcoCalendar.BuildRecordRaises | Scripts/eco.py:50-59 | an item raises exactly when it has an indicator or impact that is not a string |
| EcoCalendar.BuildRecordFields | Scripts/eco.py:50-59 | a record's indicator is stripped, its values carry no '%', its trend is one of the three symbols, and a missing time is blank |
| EcoCalendar.FirstFailure | Scripts/eco.py:46-61 | every item before the first failure builds and the item there raises |
| EcoCalendar.SuccessesSpec | Scripts/eco.py:46-59 | when no item raises, each item yields one record, in order |
| EcoCalendar.PageRecordsSpec | Scripts/eco.py:41-61 | a page yields one record per item, in order, up to the first item that raises |
| EcoCalendar.CollectPage | Scripts/eco.py:46-61 | the item loop, left by the exception, yields the page's records |
| EcoCalendar.CollectRecords | Scripts/eco.py:38-61 | the page loop yields the records of all pages in turn |
| EcoCalendar.NothingFetched | Scripts/eco.py:41-61 | when every page fails to load, no records are collected |
| EcoCalendar.RecordsTrends | Scripts/eco.py:47-58 | every record's trend is one of the three symbols |
| EcoCalendar.Table | Scripts/eco.py:63-79 | the table has at least two rows and ends with the "Updated" row |
| EcoCalendar.TableShape | Scripts/eco.py:63-79 | the table ends with the "Updated" row; it is just "No Data" and "Updated" exactly when nothing was collected, and otherwise the records then "Updated" |
| EcoCalendar.FetchData | Scripts/eco.py:37-79 | computes the table of the specification |
| CashTable.SortedKeys | Scripts/cash.py:21 | the sorted dates are all dates of the document |
| CashTable.SortedKeysSpec | Scripts/cash.py:21 | `sorted` lists every date once, in strictly ascending string order |
| CashTable.LeastExists | Scripts/cash.py:21 | a non-empty set of dates has a first one in string order |
| CashTable.LeastUnique | Scripts/cash.py:21 | and only one |
| CashTable.StrLeReflexive | Scripts/cash.py:21 | every string is ordered before or equal to itself |
| CashTable.CsvWriter.constructor | Scripts/cash.py:17-18 | the file starts with no rows |
| CashTable.CsvWriter.WriteRow | Scripts/cash.py:19 | `writerow` appends exactly that row |
| CashTable.WriteCashCsv | Scripts/cash.py:17-26 | the file gets the rows, and the script the exception, of the specification |
| CashTable.Emit | Scripts/cash.py:21-26 | no more rows than dates, each row is three cells starting with one of the dates, and the only exception is `KeyError` |
| CashTable.EmitStep | Scripts/cash.py:21-26 | one more date writes its row, skips it, or stops with `KeyError` |
| CashTable.EmitStopped | Scripts/cash.py:24-25 | after a `KeyError` nothing more is written |
| CashTable.Selected | Scripts/cash.py:23 | the selected dates all have both flows |
| CashTable.SelectedSpec | Scripts/cash.py:21-23 | the selected dates are the dates with both flows, in the given order |
| CashTable.SelectedMembers | Scripts/cash.py:23 | a date is selected exactly when it has both flows |
| CashTable.SelectedAscending | Scripts/cash.py:21-23 | selection keeps the ascending order |
| CashTable.EmitRows | Scripts/cash.py:21-26 | without an exception one row is written per selected date: the date and the two differences |
| CashTable.EmitRaisesIff | Scripts/cash.py:21-26 | the loop raises `KeyError` exactly when a date with both flows lacks a difference, and nothing else |
| CashTable.CashFile | Scripts/cash.py:17-26 | the file is never empty and starts with the header row |
| CashTable.CashFileRaises | Scripts/cash.py:17-26 | the file starts with the header, and the script stops exactly when some date with both flows lacks a difference |
| CashTable.CashFileRows | Scripts/cash.py:17-26 | without an exception, the header is followed by one row per date with both flows, strictly ascending, each the date and the two differences |

## Left out

- Network access is not modelled: the HTTP requests, sessions, status codes, `raise_for_status`, the future-price fetch and the option-chain fetch. The model starts from the decoded JSON, given as a parameter.
- Clock readings are parameters, not reads of `datetime.now` in IST. This covers the current instant, the eco script's two "Last checked" and "Updated" readings, and the timestamp texts. Time zones are not modelled: instants are already in IST.
- EcoCalendar.FormatEpoch: adds a fixed +5:30 (19800 seconds) to the epoch time. pytz's Asia/Kolkata differs before 1945: it used +6:30 from October 1941 to May 1942 and from September 1942 to 15 October 1945, and local mean time before 1906. Timestamps from those years come out shifted in the model.
- `strftime` formats are written out only where the model reads them back. These are the expiry text, the holiday date text and the eco `%H:%M` clock. The weekday name is a table. The NAV target date's `%Y-%m-%d` URL text is not modelled.
- The IV solver (`CalcIvGreeks`) is not modelled, because its code lives outside the scripts. It is a function parameter that returns a volatility or nothing (None stands for an exception). `round(iv, 2)` is not modelled, and reals stand for floats, so float rounding error is not modelled.
- pandas frames, column reordering, `to_csv` and file-system calls (`makedirs`, `open`) are not modelled. Tables are sequences of rows.
- `print` output and `main()`'s control flow are not modelled.
- Dates outside years 1 to 9999 are not modelled. `GetNextTuesday` raises when the expiry passes 9999-12-31.
- NavTable.TargetDateRule: going back from the first days of year 1 gives a year-0 date in the model, where the source raises `OverflowError`.
- EcoCalendar.IntOf does not accept `int()`'s digit-group underscores or non-ASCII digits.
- JSON values that are lists are not modelled. A page's `data` is a sequence of objects; any other item type is not modelled.
- Cells have no representation for JSON booleans, nested objects used as cell values, or a `null` option side. On such input the source behaves differently: eco.py line 16 turns `True` into the time "05:30", because `int(True)` is 1, and for `"CE": null` the `.get` on lines 332-333 raises `AttributeError` on None.
- CashTable does not model `cash`, `fii` or `dii` values that are not objects, nor a `data` that is not an object. It also does not model a document with no top-level `"data"` key: line 21 then raises `KeyError`, after the header row was written on line 19. For a string `cash`, the test on line 23 is a substring test: the date is skipped unless the string contains both "fii" and "dii", and then line 24 raises `TypeError`.
- `str.capitalize` changes only ASCII letters in the model. Python's full Unicode case mapping is not modelled.
- NavTable: a document missing `data`, `schemes`, `navs`, `NAV_Name`, `hNAV_Amt` or `hNAV_Upload_display` makes lines 73-85 raise `KeyError`. The model takes a well-formed document, so it does not capture that exception.
- Expiry.ParseExpiryText accepts only the eleven-character upper-case form `DD-MON-YYYY`. `strptime` on line 362 also accepts forms such as "3-MAR-2026" and "03-Mar-2026", and the model's OptionChain raises on those. The script only ever passes it its own text from line 172, where the two agree.
- AtmIv.Ltp: Python's `float` also accepts "inf", "infinity" and "nan", digit-group underscores and non-ASCII digits; the model does not, and raises `ValueError` on them. The exact real value stands for the nearest double.
- EcoCalendar.BuildRecord and EcoCalendar.IntOf treat a `NumberText` cell (a number rendered as a string, used only for the option chain's marker row) as a value that is not a string, whereas Python would see a string. The calendar's values come from decoded JSON, which never yields such a cell, so no input of the script reaches that case.
- `fund_name_mapping` (nav_fetch.py line 47) is not modelled, because it is built and never used.
