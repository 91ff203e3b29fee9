/** The daily NAV table: the previous weekday (Friday on Saturday, Sunday and Monday;
    holidays are not skipped), the NAVs of a fixed list of funds
    collected from the AMFI document for that day, and the rows written in the list's
    order with a trailing timestamp row. */
module NavTable {
  import opened Wrappers
  import opened Cells
  import opened Text
  import opened Calendar

  /** `target_funds_api`: the funds reported, by their full scheme names. */
  const TargetFundsApi: seq<string> := [
    "Aditya Birla Sun Life PSU Equity Fund-Direct Plan-Growth",
    "Axis Focused Fund - Direct Plan - Growth Option",
    "Axis Large & Mid Cap Fund - Direct Plan - Growth",
    "Axis Large Cap Fund - Direct Plan - Growth",
    "Axis Small Cap Fund - Direct Plan - Growth",
    "ICICI Prudential Banking and PSU Debt Fund - Direct Plan -  Growth",
    "ICICI Prudential Corporate Bond Fund - Direct Plan - Growth",
    "ICICI Prudential Gilt Fund - Direct Plan - Growth",
    "ICICI Prudential Nifty 50 Index Fund - Direct Plan Cumulative Option",
    "ICICI PRUDENTIAL SILVER ETF FUND OF FUND - Direct Plan - Growth",
    "ICICI Prudential Technology Fund - Direct Plan -  Growth",
    "Mahindra Manulife Consumption Fund - Direct Plan -Growth",
    "Mirae Asset Arbitrage Fund Direct Growth",
    "Mirae Asset ELSS Tax Saver Fund - Direct Plan - Growth",
    "Mirae Asset Healthcare Fund Direct Growth",
    "Nippon India Gold Savings Fund - Direct Plan Growth Plan - Growth Option",
    "Nippon India Nifty Next 50 Junior BeES FoF - Direct Plan - Growth Plan - Growth Option",
    "Nippon India Nivesh Lakshya Long Duration Fund- Direct Plan- Growth Option",
    "quant ELSS Tax Saver Fund - Growth Option - Direct Plan",
    "SBI MAGNUM GILT FUND - DIRECT PLAN - GROWTH"
  ]

  // ---------------------------------------------------------------- display names

  /** `extract_display_name`: the text before the first '-', stripped, with its runs of
      whitespace collapsed to single spaces. */
  function ExtractDisplayName(fullName: string): string {
    JoinSpaces(Split(Strip(Before(fullName, '-'))))
  }

  /** A display name has no '-', no leading or trailing whitespace and no run of
      whitespace; its words are those of the stripped text before the first '-'. */
  lemma DisplayNameShape(fullName: string)
    ensures '-' !in ExtractDisplayName(fullName)
    ensures SingleSpaced(ExtractDisplayName(fullName))
    ensures Split(ExtractDisplayName(fullName)) == Split(Strip(Before(fullName, '-')))
  {
    var stripped := Strip(Before(fullName, '-'));
    var ws := Split(stripped);
    assert stripped == TrimEnd(TrimStart(Before(fullName, '-')));
    SliceAvoids(Before(fullName, '-'), |Before(fullName, '-')| - |TrimStart(Before(fullName, '-'))|,
                |Before(fullName, '-')|, '-');
    SliceAvoids(TrimStart(Before(fullName, '-')), 0, |stripped|, '-');
    SplitAvoids(stripped, '-');
    JoinAvoids(ws, '-');
    JoinSingleSpaced(ws);
    SplitJoin(ws);
  }

  /** Text without '-' is its own `split('-')[0]`. */
  lemma BeforeAbsent(s: string, ch: char)
    requires ch !in s
    ensures Before(s, ch) == s
  {
  }

  /** Extracting the display name of a display name changes nothing. */
  lemma DisplayNameIdempotent(fullName: string)
    ensures ExtractDisplayName(ExtractDisplayName(fullName)) == ExtractDisplayName(fullName)
  {
    var r := ExtractDisplayName(fullName);
    var ws := Split(Strip(Before(fullName, '-')));
    DisplayNameShape(fullName);
    BeforeAbsent(r, '-');
    StripKeeps(r);
    SplitJoin(ws);
  }

  /** `display_names`: the display name of every target fund, in list order. */
  function DisplayNames(funds: seq<string>): (names: seq<string>)
    ensures |names| == |funds| && forall i :: 0 <= i < |funds| ==> names[i] == ExtractDisplayName(funds[i])
  {
    seq(|funds|, i requires 0 <= i < |funds| => ExtractDisplayName(funds[i]))
  }

  // ---------------------------------------------------------------- the target date

  /** The day before `today` whose NAVs are fetched: three days back on a Monday, two
      on a Sunday, one otherwise. */
  function TargetDate(today: Date): Date
    requires ValidDate(today)
  {
    var w := Weekday(today);
    if w == 0 then SubDays(today, 3) else if w == 6 then SubDays(today, 2) else SubDays(today, 1)
  }

  /** The target date is the latest weekday (Monday to Friday) before today: every day
      strictly between the two falls on a weekend. */
  lemma TargetDateRule(today: Date)
    requires ValidDate(today)
    ensures var t := TargetDate(today);
      var n := Ordinal(today) - Ordinal(t);
      && ValidDate(t) && Weekday(t) < 5
      && n == (if Weekday(today) == 0 then 3 else if Weekday(today) == 6 then 2 else 1)
      && (forall k: nat :: 0 < k < n ==> Weekday(SubDays(today, k)) >= 5)
  {
    var w := Weekday(today);
    var m: nat := if w == 0 then 3 else if w == 6 then 2 else 1;
    var t := TargetDate(today);
    assert t == SubDays(today, m);
    assert Ordinal(today) - Ordinal(t) == m;
    DaysBackRule(w, m);
    assert Weekday(t) == WeekdayBefore(w, m);
    forall k: nat | 0 < k < m ensures Weekday(SubDays(today, k)) >= 5 {
      var q := SubDays(today, k);
      assert Weekday(q) == WeekdayBefore(w, k);
    }
  }

  /** Going back `m` days from weekday `w` lands on a weekday, and passes only weekend days. */
  lemma DaysBackRule(w: int, m: int)
    requires 0 <= w < 7 && m == (if w == 0 then 3 else if w == 6 then 2 else 1)
    ensures WeekdayBefore(w, m) < 5
    ensures forall k :: 0 < k < m ==> WeekdayBefore(w, k) >= 5
  {
  }

  // ---------------------------------------------------------------- the AMFI document

  /** One NAV entry: `NAV_Name`, `hNAV_Amt` and `hNAV_Upload_display`. */
  datatype Nav = Nav(navName: string, amount: Cell, uploadDisplay: Cell)
  datatype Scheme = Scheme(navs: seq<Nav>)
  datatype FundHouse = FundHouse(schemes: seq<Scheme>)

  /** The NAV and upload time kept for a display name. */
  datatype NavEntry = NavEntry(fundNav: Cell, updateTime: Cell)

  /** The NAV entries of the schemes, in document order. */
  function SchemeNavs(schemes: seq<Scheme>): seq<Nav> {
    if schemes == [] then []
    else SchemeNavs(schemes[..|schemes| - 1]) + schemes[|schemes| - 1].navs
  }

  /** The NAV entries of the whole document, in document order. */
  function AllNavs(data: seq<FundHouse>): seq<Nav> {
    if data == [] then []
    else AllNavs(data[..|data| - 1]) + SchemeNavs(data[|data| - 1].schemes)
  }

  /** The effect of one NAV entry on `nav_data`: a target fund's entry is stored under its
      key (its display name in the script), replacing what was there. */
  function Store(navData: map<string, NavEntry>, nav: Nav, funds: seq<string>,
                 key: string -> string): map<string, NavEntry> {
    if nav.navName in funds then
      navData[key(nav.navName) := NavEntry(nav.amount, nav.uploadDisplay)]
    else navData
  }

  /** `nav_data` after the entries `navs`, in order. */
  function NavMap(navs: seq<Nav>, funds: seq<string>, key: string -> string): map<string, NavEntry> {
    if navs == [] then map[]
    else Store(NavMap(navs[..|navs| - 1], funds, key), navs[|navs| - 1], funds, key)
  }

  /** The last entry of a target fund whose key is `name`, if any. */
  function LastFor(navs: seq<Nav>, name: string, funds: seq<string>, key: string -> string): Option<Nav> {
    if navs == [] then None
    else
      var last := navs[|navs| - 1];
      if last.navName in funds && key(last.navName) == name then Some(last)
      else LastFor(navs[..|navs| - 1], name, funds, key)
  }

  /** The entry found is the last of a target fund with that key, and there is none
      exactly when no entry of a target fund has it. */
  lemma {:induction false} LastForSpec(navs: seq<Nav>, name: string, funds: seq<string>,
                                       key: string -> string)
    ensures var r := LastFor(navs, name, funds, key);
      && (r.Some? ==>
            exists i :: (0 <= i < |navs| && navs[i] == r.value
              && r.value.navName in funds && key(r.value.navName) == name
              && forall j :: i < j < |navs| ==> !(navs[j].navName in funds && key(navs[j].navName) == name)))
      && (r.None? ==> forall i :: 0 <= i < |navs| ==> !(navs[i].navName in funds && key(navs[i].navName) == name))
  {
    if navs != [] {
      var n := |navs| - 1;
      LastForSpec(navs[..n], name, funds, key);
      assert forall j :: 0 <= j < n ==> navs[..n][j] == navs[j];
    }
  }

  /** `nav_data` holds a name exactly when some target fund's entry has it as key, and then
      the last such entry's NAV and upload time: a later entry overwrites an earlier one. */
  lemma {:induction false} NavMapLastWins(navs: seq<Nav>, funds: seq<string>, name: string,
                                          key: string -> string)
    ensures name in NavMap(navs, funds, key) <==> LastFor(navs, name, funds, key).Some?
    ensures name in NavMap(navs, funds, key) ==>
      NavMap(navs, funds, key)[name] ==
        NavEntry(LastFor(navs, name, funds, key).value.amount, LastFor(navs, name, funds, key).value.uploadDisplay)
  {
    if navs != [] {
      NavMapLastWins(navs[..|navs| - 1], funds, name, key);
    }
  }

  /** Every key of `nav_data` is the key (display name) of a listed fund. */
  lemma NavMapKeys(navs: seq<Nav>, funds: seq<string>, name: string, key: string -> string)
    requires name in NavMap(navs, funds, key)
    ensures exists f :: f in funds && key(f) == name
  {
    NavMapLastWins(navs, funds, name, key);
    LastForSpec(navs, name, funds, key);
    var nav := LastFor(navs, name, funds, key).value;
    assert nav.navName in funds && key(nav.navName) == name;
  }

  lemma NavMapAppend(navs: seq<Nav>, nav: Nav, funds: seq<string>, key: string -> string)
    ensures NavMap(navs + [nav], funds, key) == Store(NavMap(navs, funds, key), nav, funds, key)
  {
    assert (navs + [nav])[..|navs|] == navs;
  }

  lemma SchemeNavsStep(schemes: seq<Scheme>, j: nat)
    requires j < |schemes|
    ensures SchemeNavs(schemes[..j + 1]) == SchemeNavs(schemes[..j]) + schemes[j].navs
  {
    assert schemes[..j + 1][..j] == schemes[..j];
  }

  lemma AllNavsStep(data: seq<FundHouse>, i: nat)
    requires i < |data|
    ensures AllNavs(data[..i + 1]) == AllNavs(data[..i]) + SchemeNavs(data[i].schemes)
  {
    assert data[..i + 1][..i] == data[..i];
  }

  /** The innermost loop, over `scheme['navs']`: each entry stored in turn. */
  method StoreNavs(navData0: map<string, NavEntry>, navs: seq<Nav>, funds: seq<string>,
                   displayNameOf: string -> string, ghost seen: seq<Nav>)
    returns (navData: map<string, NavEntry>)
    requires navData0 == NavMap(seen, funds, displayNameOf)
    ensures navData == NavMap(seen + navs, funds, displayNameOf)
  {
    navData := navData0;
    assert seen + navs[..0] == seen;
    for k := 0 to |navs|
      invariant navData == NavMap(seen + navs[..k], funds, displayNameOf)
    {
      var nav := navs[k];
      NavMapAppend(seen + navs[..k], nav, funds, displayNameOf);
      assert seen + navs[..k + 1] == seen + navs[..k] + [nav];
      if nav.navName in funds {
        var displayName := displayNameOf(nav.navName);
        navData := navData[displayName := NavEntry(nav.amount, nav.uploadDisplay)];
      }
    }
    assert navs[..|navs|] == navs;
  }

  /** The middle loop, over `fund['schemes']`. */
  method StoreSchemes(navData0: map<string, NavEntry>, schemes: seq<Scheme>, funds: seq<string>,
                      displayNameOf: string -> string, ghost seen: seq<Nav>)
    returns (navData: map<string, NavEntry>)
    requires navData0 == NavMap(seen, funds, displayNameOf)
    ensures navData == NavMap(seen + SchemeNavs(schemes), funds, displayNameOf)
  {
    navData := navData0;
    assert seen + SchemeNavs(schemes[..0]) == seen;
    for j := 0 to |schemes|
      invariant navData == NavMap(seen + SchemeNavs(schemes[..j]), funds, displayNameOf)
    {
      navData := StoreNavs(navData, schemes[j].navs, funds, displayNameOf, seen + SchemeNavs(schemes[..j]));
      SchemeNavsStep(schemes, j);
      assert seen + SchemeNavs(schemes[..j]) + schemes[j].navs == seen + SchemeNavs(schemes[..j + 1]);
    }
    assert schemes[..|schemes|] == schemes;
  }

  /** The outer loop, over `data['data']`, that fills `nav_data`, with `displayNameOf` the
      key function (`extract_display_name`). */
  method CollectNavData(data: seq<FundHouse>, funds: seq<string>, displayNameOf: string -> string)
    returns (navData: map<string, NavEntry>)
    ensures navData == NavMap(AllNavs(data), funds, displayNameOf)
  {
    navData := map[];
    for i := 0 to |data|
      invariant navData == NavMap(AllNavs(data[..i]), funds, displayNameOf)
    {
      navData := StoreSchemes(navData, data[i].schemes, funds, displayNameOf, AllNavs(data[..i]));
      AllNavsStep(data, i);
    }
    assert data[..|data|] == data;
  }

  // ---------------------------------------------------------------- the records

  /** A row of the CSV: `Fund Name`, `Fund NAV`, `Update Time`. */
  datatype Record = Record(fundName: string, fundNav: Cell, updateTime: Cell)

  /** The record of one display name: its NAV and time if collected, '-' otherwise. */
  function RecordFor(name: string, navData: map<string, NavEntry>): Record {
    if name in navData then Record(name, navData[name].fundNav, navData[name].updateTime)
    else Record(name, Text("-"), Text("-"))
  }

  /** The records of the names, in order. */
  function RecordsOf(names: seq<string>, navData: map<string, NavEntry>): (rs: seq<Record>)
    ensures |rs| == |names|
  {
    if names == [] then []
    else RecordsOf(names[..|names| - 1], navData) + [RecordFor(names[|names| - 1], navData)]
  }

  /** The number of names with collected data. */
  function CountFound(names: seq<string>, navData: map<string, NavEntry>): nat {
    if names == [] then 0
    else CountFound(names[..|names| - 1], navData) + (if names[|names| - 1] in navData then 1 else 0)
  }

  /** One record per name, in the names' order, with the collected NAV and time or '-' for
      both. */
  lemma {:induction false} RecordsOfSpec(names: seq<string>, navData: map<string, NavEntry>)
    ensures forall i :: 0 <= i < |names| ==> RecordsOf(names, navData)[i].fundName == names[i]
    ensures forall i :: 0 <= i < |names| && names[i] in navData ==>
      RecordsOf(names, navData)[i].fundNav == navData[names[i]].fundNav
      && RecordsOf(names, navData)[i].updateTime == navData[names[i]].updateTime
    ensures forall i :: 0 <= i < |names| && names[i] !in navData ==>
      RecordsOf(names, navData)[i].fundNav == Text("-") && RecordsOf(names, navData)[i].updateTime == Text("-")
  {
    if names != [] {
      RecordsOfSpec(names[..|names| - 1], navData);
    }
  }

  /** `funds_found` is at most the number of names, reaches it exactly when every name was
      collected, and is zero exactly when none was. */
  lemma {:induction false} CountFoundBounds(names: seq<string>, navData: map<string, NavEntry>)
    ensures CountFound(names, navData) <= |names|
    ensures CountFound(names, navData) == |names| <==> forall i :: 0 <= i < |names| ==> names[i] in navData
    ensures CountFound(names, navData) == 0 <==> forall i :: 0 <= i < |names| ==> names[i] !in navData
  {
    if names != [] {
      var n := |names| - 1;
      CountFoundBounds(names[..n], navData);
      assert forall i :: 0 <= i < n ==> names[..n][i] == names[i];
    }
  }

  /** The trailing row: `Last Updated:` and the time followed by ` IST`. */
  function LastUpdatedRecord(timestamp: string): Record {
    Record("", Text("Last Updated:"), Text(timestamp + " IST"))
  }

  /** The loop that builds `sorted_records` and counts `funds_found`, then the timestamp row. */
  method BuildRecords(names: seq<string>, navData: map<string, NavEntry>, timestamp: string)
    returns (sortedRecords: seq<Record>, fundsFound: nat)
    ensures sortedRecords == RecordsOf(names, navData) + [LastUpdatedRecord(timestamp)]
    ensures fundsFound == CountFound(names, navData)
  {
    sortedRecords := [];
    fundsFound := 0;
    for i := 0 to |names|
      invariant sortedRecords == RecordsOf(names[..i], navData)
      invariant fundsFound == CountFound(names[..i], navData)
    {
      assert names[..i + 1][..i] == names[..i];
      var displayName := names[i];
      if displayName in navData {
        sortedRecords := sortedRecords + [Record(displayName, navData[displayName].fundNav,
                                                 navData[displayName].updateTime)];
        fundsFound := fundsFound + 1;
      } else {
        sortedRecords := sortedRecords + [Record(displayName, Text("-"), Text("-"))];
      }
    }
    assert names[..|names|] == names;
    sortedRecords := sortedRecords + [Record("", Text("Last Updated:"), Text(timestamp + " IST"))];
  }

  /** The script: the date whose NAVs are requested, the records written and
      `funds_found`, for the document fetched for that date and the formatted time of the
      run. */
  method FetchNavTable(today: Date, data: seq<FundHouse>, timestamp: string)
    returns (targetDate: Date, sortedRecords: seq<Record>, fundsFound: nat)
    requires ValidDate(today)
    ensures targetDate == TargetDate(today)
    ensures var names := DisplayNames(TargetFundsApi);
      var navData := NavMap(AllNavs(data), TargetFundsApi, ExtractDisplayName);
      sortedRecords == RecordsOf(names, navData) + [LastUpdatedRecord(timestamp)]
      && fundsFound == CountFound(names, navData)
  {
    var displayNames := DisplayNames(TargetFundsApi);
    targetDate := TargetDate(today);
    var navData := CollectNavData(data, TargetFundsApi, ExtractDisplayName);
    sortedRecords, fundsFound := BuildRecords(displayNames, navData, timestamp);
  }
}
