/** The economic-calendar table: one row per event the calendar pages list, with a
    placeholder row when nothing was collected and an `Updated` row at the end. */
module EcoCalendar {
  import opened Wrappers
  import opened Cells
  import opened Text

  // ---------------------------------------------------------------- times

  /** India Standard Time is five and a half hours ahead of UTC all year round. */
  const IstOffsetSeconds: int := 19800

  /** The first and last second that `datetime.utcfromtimestamp` accepts (years 1 to 9999);
      the last is moved back by the IST offset, past which the conversion overflows. */
  const MinEpoch: int := -62135596800
  const MaxEpoch: int := 253402300799 - 19800

  /** `int(x)` of a decimal text: surrounding whitespace, an optional sign, then digits. */
  function SignedValue(s: string): Option<int> {
    var t := Strip(s);
    if t != [] && (t[0] == '-' || t[0] == '+') then
      if |t| > 1 && AllDigits(t[1..]) then
        var v: int := DigitsValue(t[1..]);
        Some(if t[0] == '-' then -v else v)
      else None
    else if t != [] && AllDigits(t) then Some(DigitsValue(t))
    else None
  }

  /** `int(x)`: a number truncated toward zero, a decimal text read, anything else refused.
      The text of a float contains a point, an exponent or letters, so `int` refuses it. */
  function IntOf(c: Cell): Option<int> {
    match c
    case Num(v) => Some(if v >= 0.0 then v.Floor else -((-v).Floor))
    case Text(s) => SignedValue(s)
    case Null => None
    case NumberText(_) => None
  }

  /** `str(n)` and `str(-n)` read back through `int`. */
  lemma IntOfTextRoundTrip(n: nat)
    ensures IntOf(Text(NatText(n))) == Some(n)
    ensures IntOf(Text("-" + NatText(n))) == Some(-(n as int))
  {
    var s := NatText(n);
    NatTextValue(n);
    StripKeeps(s);
    assert s[0] != '-' && s[0] != '+' by { assert IsDigit(s[0]); }
    var m := "-" + s;
    StripKeeps(m);
    assert m[1..] == s;
  }

  /** A whole number, either sign, converts to itself. */
  lemma IntOfWhole(n: int)
    ensures IntOf(Num(n as real)) == Some(n)
  {
  }

  /** `HH:MM` of the minute `m` of a day. */
  function ClockText(m: nat): string
    requires m < 1440
  {
    Padded(m / 60, 2) + ":" + Padded(m % 60, 2)
  }

  /** `format_time`: the IST wall-clock time of a Unix timestamp, or the empty string when
      the timestamp does not convert or is out of range. */
  function FormatTime(timestamp: Cell): string {
    match IntOf(timestamp)
    case None => ""
    case Some(t) => FormatEpoch(t)
  }

  /** The IST `HH:MM` of whole second `t` since the epoch, or the empty string out of range. */
  function FormatEpoch(t: int): string {
    if t < MinEpoch || t > MaxEpoch then ""
    else ClockText(((t + IstOffsetSeconds) / 60) % 1440)
  }

  /** A missing timestamp is shown as the empty string. */
  lemma FormatTimeNull()
    ensures FormatTime(Null) == ""
  {
  }

  /** The clock text is two digits of hours, a colon and two digits of minutes. */
  lemma ClockTextSpec(m: nat)
    requires m < 1440
    ensures var r := ClockText(m);
      && |r| == 5 && r[2] == ':' && AllDigits(r[..2]) && AllDigits(r[3..])
      && DigitsValue(r[..2]) == m / 60 && DigitsValue(r[3..]) == m % 60
  {
    var r := ClockText(m);
    assert r[..2] == Padded(m / 60, 2);
    assert r[3..] == Padded(m % 60, 2);
    PaddedValue(m / 60, 2);
    PaddedValue(m % 60, 2);
  }

  /** Within range, the hour and minute of IST in which the instant falls; outside it,
      the empty string. */
  lemma FormatEpochSpec(t: int)
    ensures FormatEpoch(t) == "" <==> t < MinEpoch || t > MaxEpoch
    ensures FormatEpoch(t) != "" ==>
      var r := FormatEpoch(t);
      && |r| == 5 && r[2] == ':' && AllDigits(r[..2]) && AllDigits(r[3..])
      && DigitsValue(r[..2]) < 24 && DigitsValue(r[3..]) < 60
      && DigitsValue(r[..2]) * 3600 + DigitsValue(r[3..]) * 60 <= (t + IstOffsetSeconds) % 86400
      && (t + IstOffsetSeconds) % 86400 < DigitsValue(r[..2]) * 3600 + DigitsValue(r[3..]) * 60 + 60
  {
    if MinEpoch <= t <= MaxEpoch {
      var x := t + IstOffsetSeconds;
      var m := (x / 60) % 1440;
      ClockTextSpec(m);
      ClockOfSeconds(x);
      assert (m / 60) * 3600 + (m % 60) * 60 == m * 60;
    }
  }

  /** The result is empty exactly when the conversion fails or the timestamp is out of
      range; otherwise it is the IST clock time of the converted timestamp. */
  lemma FormatTimeSpec(timestamp: Cell)
    ensures FormatTime(timestamp) == "" <==>
      IntOf(timestamp).None? || IntOf(timestamp).value < MinEpoch || IntOf(timestamp).value > MaxEpoch
    ensures IntOf(timestamp).Some? ==> FormatTime(timestamp) == FormatEpoch(IntOf(timestamp).value)
  {
    if IntOf(timestamp).Some? {
      FormatEpochSpec(IntOf(timestamp).value);
    }
  }

  /** The minute of the day an instant falls in is its seconds since midnight, whole minutes. */
  lemma ClockOfSeconds(x: int)
    ensures ((x / 60) % 1440) * 60 <= x % 86400 < ((x / 60) % 1440) * 60 + 60
  {
    var q := x / 60;
    var s := x % 60;
    assert x == q * 60 + s;
    var d := q / 1440;
    assert q == d * 1440 + q % 1440;
    assert x == d * 86400 + (q % 1440) * 60 + s;
  }

  // ---------------------------------------------------------------- values

  /** `clean_value`: a string loses its `%` signs; any other value is kept. */
  function CleanValue(value: Cell): (r: Cell)
    ensures r.Text? <==> value.Text?
    ensures r.Text? ==> '%' !in r.text && |r.text| <= |value.text|
  {
    if value.Text? then Text(Remove(value.text, '%')) else value
  }

  /** A string keeps every character but `%` and loses all of those; other values pass. */
  lemma CleanValueSpec(value: Cell)
    ensures value.Text? <==> CleanValue(value).Text?
    ensures value.Text? ==>
      && '%' !in CleanValue(value).text
      && |CleanValue(value).text| == |value.text| - multiset(value.text)['%']
      && forall c :: c != '%' ==> multiset(CleanValue(value).text)[c] == multiset(value.text)[c]
    ensures !value.Text? ==> CleanValue(value) == value
  {
  }

  lemma CleanValueIdempotent(value: Cell)
    ensures CleanValue(CleanValue(value)) == CleanValue(value)
  {
    if value.Text? {
      assert '%' !in Remove(value.text, '%');
    }
  }

  /** The country names `get_country_name` knows. */
  function Countries(): map<string, string> {
    map[
    "JPN" := "Japan", "CHN" := "China", "KOR" := "South Korea",
    "SAU" := "Saudi Arabia", "IND" := "India", "TUR" := "Turkey",
    "DEU" := "Germany", "ZAF" := "South Africa", "EUR" := "Euro Area",
    "BRA" := "Brazil", "CAN" := "Canada", "USA" := "United States",
    "FRA" := "France"]
  }

  /** `countries.get(code, code)`. */
  function CountryName(code: Cell): (r: Cell)
    ensures r.Text? <==> code.Text?
    ensures !code.Text? ==> r == code
  {
    if code.Text? && code.text in Countries() then Text(Countries()[code.text]) else code
  }

  /** A listed code becomes its name, anything else stays as it is; no name is itself a
      code, so naming twice is naming once. */
  lemma CountryNameSpec(code: Cell)
    ensures code.Text? && code.text in Countries() ==> CountryName(code) == Text(Countries()[code.text])
    ensures !(code.Text? && code.text in Countries()) ==> CountryName(code) == code
    ensures CountryName(CountryName(code)) == CountryName(code)
  {
    assert forall k :: k in Countries() ==> Countries()[k] !in Countries();
  }

  /** No two codes share a name. */
  lemma CountryNamesDistinct()
    ensures forall a, b :: a in Countries() && b in Countries() && a != b ==> Countries()[a] != Countries()[b]
  {
  }

  /** The trend expression: an up arrow for `up`, a down arrow for `down`, `-` otherwise. */
  function TrendSymbol(trend: Cell): (r: string)
    ensures r in {"\U{2191}", "\U{2193}", "-"}
  {
    if trend == Text("up") then "\U{2191}"
    else if trend == Text("down") then "\U{2193}"
    else "-"
  }

  lemma TrendSymbolSpec(trend: Cell)
    ensures TrendSymbol(trend) == "\U{2191}" <==> trend == Text("up")
    ensures TrendSymbol(trend) == "\U{2193}" <==> trend == Text("down")
    ensures TrendSymbol(trend) == "-" <==> trend != Text("up") && trend != Text("down")
  {
  }

  // ---------------------------------------------------------------- records

  /** A row of the calendar table, column by column. */
  datatype EcoRecord = EcoRecord(
    time: Cell, country: Cell, indicator: Cell, actual: Cell,
    forecast: Cell, previous: Cell, impact: Cell, trend: Cell)

  /** The record of one calendar item; `strip` or `capitalize` on a value that is not a
      string raises `AttributeError`. */
  function BuildRecord(item: Object): Result<EcoRecord> {
    var indicator := Get(item, "indicator", Blank);
    var impact := Get(item, "impact", Blank);
    if !indicator.Text? || !impact.Text? then Raised(AttributeError)
    else
      Ok(EcoRecord(
        Text(FormatTime(Get(item, "datetime", Null))),
        CountryName(Get(item, "country", Blank)),
        Text(Strip(indicator.text)),
        CleanValue(Get(item, "actual", Blank)),
        CleanValue(Get(item, "forecast", Blank)),
        CleanValue(Get(item, "previous", Blank)),
        Text(Capitalize(impact.text)),
        Text(TrendSymbol(Get(item, "trend", Blank)))))
  }

  /** An item fails exactly when it carries an indicator or impact that is not a string. */
  lemma BuildRecordRaises(item: Object)
    ensures BuildRecord(item).Raised? <==>
      ("indicator" in item && !item["indicator"].Text?) || ("impact" in item && !item["impact"].Text?)
  {
  }

  /** A record has its indicator stripped, no `%` in its figures, one of the three trend
      symbols, and a blank time when the item has none. */
  lemma BuildRecordFields(item: Object)
    requires BuildRecord(item).Ok?
    ensures var r := BuildRecord(item).value;
      && r.time.Text? && r.indicator.Text? && r.impact.Text? && r.trend.Text?
      && (r.indicator.text == [] || (!IsSpace(r.indicator.text[0])
                                     && !IsSpace(r.indicator.text[|r.indicator.text| - 1])))
      && (r.actual.Text? ==> '%' !in r.actual.text)
      && (r.forecast.Text? ==> '%' !in r.forecast.text)
      && (r.previous.Text? ==> '%' !in r.previous.text)
      && r.trend.text in {"\U{2191}", "\U{2193}", "-"}
      && ("datetime" !in item ==> r.time == Blank)
  {
    var indicator, impact := Get(item, "indicator", Blank), Get(item, "impact", Blank);
    var time := Get(item, "datetime", Null);
    assert BuildRecord(item).value == EcoRecord(
      Text(FormatTime(time)),
      CountryName(Get(item, "country", Blank)),
      Text(Strip(indicator.text)),
      CleanValue(Get(item, "actual", Blank)),
      CleanValue(Get(item, "forecast", Blank)),
      CleanValue(Get(item, "previous", Blank)),
      Text(Capitalize(impact.text)),
      Text(TrendSymbol(Get(item, "trend", Blank))));
    StripEnds(indicator.text);
    if "datetime" !in item {
      FormatTimeNull();
      assert time == Null;
    }
  }

  /** What one calendar page yields: nothing when the request, the status or the document
      fails, else the items of its `data` list. */
  datatype Page = Unavailable | Page(items: seq<Object>)

  /** How a record is made from an item; the table uses `BuildRecord`. */
  type Builder = Object -> Result<EcoRecord>

  /** How many items come before the first one that raises. */
  function FirstFailure(items: seq<Object>, build: Builder): (f: nat)
    ensures f <= |items|
    ensures forall j :: 0 <= j < f ==> build(items[j]).Ok?
    ensures f < |items| ==> build(items[f]).Raised?
  {
    if items == [] || build(items[0]).Raised? then 0 else 1 + FirstFailure(items[1..], build)
  }

  /** The records of the items that do not raise, in order. */
  function Successes(items: seq<Object>, build: Builder): seq<EcoRecord> {
    if items == [] then []
    else
      var last := build(items[|items| - 1]);
      Successes(items[..|items| - 1], build) + (if last.Ok? then [last.value] else [])
  }

  /** When no item raises, each yields one record, in input order. */
  lemma {:induction false} SuccessesSpec(items: seq<Object>, build: Builder)
    requires forall j :: 0 <= j < |items| ==> build(items[j]).Ok?
    ensures |Successes(items, build)| == |items|
    ensures forall j :: 0 <= j < |items| ==> Successes(items, build)[j] == build(items[j]).value
  {
    if items != [] {
      SuccessesSpec(items[..|items| - 1], build);
    }
  }

  /** The records a page adds: those of its items up to the first that raises, since the
      exception ends the page's loop. */
  function PageRecords(page: Page, build: Builder): seq<EcoRecord> {
    if page.Unavailable? then [] else Successes(page.items[..FirstFailure(page.items, build)], build)
  }

  /** A page yields one record per item, in input order, up to the first item that raises,
      and all of its items when none does. */
  lemma PageRecordsSpec(page: Page, build: Builder)
    requires page.Page?
    ensures |PageRecords(page, build)| == FirstFailure(page.items, build)
    ensures forall j :: 0 <= j < FirstFailure(page.items, build) ==>
      PageRecords(page, build)[j] == build(page.items[j]).value
    ensures (forall j :: 0 <= j < |page.items| ==> build(page.items[j]).Ok?) ==>
      |PageRecords(page, build)| == |page.items|
  {
    var items := page.items;
    var f := FirstFailure(items, build);
    SuccessesSpec(items[..f], build);
  }

  /** The records of all pages, page by page. */
  function Records(pages: seq<Page>, build: Builder): seq<EcoRecord> {
    if pages == [] then []
    else Records(pages[..|pages| - 1], build) + PageRecords(pages[|pages| - 1], build)
  }

  /** The loop of `fetch_data` over the pages: an exception while building a record
      abandons the rest of that page. */
  method CollectRecords(pages: seq<Page>, build: Builder) returns (records: seq<EcoRecord>)
    ensures records == Records(pages, build)
  {
    records := [];
    for p := 0 to |pages|
      invariant records == Records(pages[..p], build)
    {
      assert pages[..p + 1][..p] == pages[..p];
      if pages[p].Page? {
        var pageRecords := CollectPage(pages[p].items, build);
        records := records + pageRecords;
      }
    }
    assert pages[..|pages|] == pages;
  }

  /** The loop over one page's items, left at the first item that raises. */
  method CollectPage(items: seq<Object>, build: Builder) returns (records: seq<EcoRecord>)
    ensures records == PageRecords(Page(items), build)
  {
    records := [];
    var k := 0;
    assert items[..0] == [];
    while k < |items|
      invariant 0 <= k <= |items|
      invariant forall j :: 0 <= j < k ==> build(items[j]).Ok?
      invariant records == Successes(items[..k], build)
    {
      var record := build(items[k]);
      if record.Raised? {
        break;
      }
      assert items[..k + 1][..k] == items[..k];
      records := records + [record.value];
      k := k + 1;
    }
    assert FirstFailure(items, build) == k;
  }

  /** The row added when no record was collected. */
  function NoDataRow(checkedTime: string): EcoRecord {
    EcoRecord(Blank, Text("No Data"), Blank, Blank, Blank, Blank, Blank,
              Text("Last checked: " + checkedTime))
  }

  /** The row always added last. */
  function UpdatedRow(updatedTime: string): EcoRecord {
    EcoRecord(Blank, Blank, Blank, Blank, Blank, Blank, Text("Updated"), Text(updatedTime))
  }

  /** The table `fetch_data` returns; the two times are the two readings of the clock. */
  function Table(pages: seq<Page>, checkedTime: string, updatedTime: string): (t: seq<EcoRecord>)
    ensures |t| >= 2 && t[|t| - 1] == UpdatedRow(updatedTime)
  {
    var rs := Records(pages, BuildRecord);
    (if rs == [] then [NoDataRow(checkedTime)] else rs) + [UpdatedRow(updatedTime)]
  }

  /** `fetch_data`. */
  method FetchData(pages: seq<Page>, checkedTime: string, updatedTime: string)
    returns (records: seq<EcoRecord>)
    ensures records == Table(pages, checkedTime, updatedTime)
  {
    records := CollectRecords(pages, BuildRecord);
    if records == [] {
      records := records + [NoDataRow(checkedTime)];
    }
    records := records + [UpdatedRow(updatedTime)];
  }

  /** The trend of every collected record is one of the three symbols, so never the
      placeholder's. */
  lemma {:induction false} RecordsTrends(pages: seq<Page>)
    ensures forall r :: r in Records(pages, BuildRecord) ==>
      r.trend.Text? && r.trend.text in {"\U{2191}", "\U{2193}", "-"}
  {
    if pages != [] {
      RecordsTrends(pages[..|pages| - 1]);
      var page := pages[|pages| - 1];
      if page.Page? {
        PageRecordsSpec(page, BuildRecord);
        forall r | r in PageRecords(page, BuildRecord)
          ensures r.trend.Text? && r.trend.text in {"\U{2191}", "\U{2193}", "-"}
        {
          var j :| 0 <= j < |PageRecords(page, BuildRecord)| && PageRecords(page, BuildRecord)[j] == r;
          BuildRecordFields(page.items[j]);
        }
      }
    }
  }

  /** The `Updated` row comes last; the `No Data` row is there exactly when no record was
      collected, and otherwise the collected records come first, in order. */
  lemma TableShape(pages: seq<Page>, checkedTime: string, updatedTime: string)
    ensures var t := Table(pages, checkedTime, updatedTime);
      && |t| >= 2
      && t[|t| - 1] == UpdatedRow(updatedTime)
      && (Records(pages, BuildRecord) == [] <==> t == [NoDataRow(checkedTime), UpdatedRow(updatedTime)])
      && (Records(pages, BuildRecord) != [] ==> t[..|t| - 1] == Records(pages, BuildRecord))
      && (NoDataRow(checkedTime) in t <==> Records(pages, BuildRecord) == [])
  {
    var rs := Records(pages, BuildRecord);
    RecordsTrends(pages);
    var t := Table(pages, checkedTime, updatedTime);
    if rs != [] {
      assert t[..|t| - 1] == rs;
      assert NoDataRow(checkedTime) !in rs;
      assert t[0] == rs[0];
    }
  }

  /** With every page unavailable the table is the two placeholder rows. */
  lemma {:induction false} NothingFetched(pages: seq<Page>, build: Builder)
    requires forall i :: 0 <= i < |pages| ==> pages[i].Unavailable?
    ensures Records(pages, build) == []
  {
    if pages != [] {
      NothingFetched(pages[..|pages| - 1], build);
    }
  }
}
