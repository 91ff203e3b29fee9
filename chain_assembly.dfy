/** Building the options table: one row per strike of the window, the underlying's marker
    row among them, the IV column, and the timestamp row last. */
module ChainAssembly {
  import opened Wrappers
  import opened Cells
  import opened Order
  import opened Calendar
  import opened OptionData
  import opened StrikeWindow
  import opened Expiry
  import opened AtmIv

  /** The strikes of the window that the strike map holds, in window order. */
  function Present(strikes: seq<int>, strikeMap: map<int, StrikeItem>): (ps: seq<int>)
    ensures forall i :: 0 <= i < |ps| ==> ps[i] in strikeMap
  {
    if strikes == [] then []
    else
      var n := |strikes| - 1;
      Present(strikes[..n], strikeMap) + (if strikes[n] in strikeMap then [strikes[n]] else [])
  }

  /** Where the marker goes: before the first strike above the underlying's value. */
  function FirstAbove(ps: seq<int>, underlyingValue: real): (p: nat)
    ensures p <= |ps|
    ensures forall j :: 0 <= j < p ==> ps[j] as real <= underlyingValue
    ensures p < |ps| ==> ps[p] as real > underlyingValue
  {
    if ps == [] then 0
    else if ps[0] as real > underlyingValue then 0
    else 1 + FirstAbove(ps[1..], underlyingValue)
  }

  /** The strike rows of `ps`, in order. */
  function RowsOf(ps: seq<int>, strikeMap: map<int, StrikeItem>): (rows: seq<Row>)
    requires forall i :: 0 <= i < |ps| ==> ps[i] in strikeMap
    ensures |rows| == |ps|
  {
    if ps == [] then []
    else
      var n := |ps| - 1;
      RowsOf(ps[..n], strikeMap) + [StrikeRow(strikeMap[ps[n]])]
  }

  /** Row `i` is the strike row of the `i`-th strike. */
  lemma {:induction false} RowsOfIndex(ps: seq<int>, strikeMap: map<int, StrikeItem>)
    requires forall i :: 0 <= i < |ps| ==> ps[i] in strikeMap
    ensures forall i :: 0 <= i < |ps| ==> RowsOf(ps, strikeMap)[i] == StrikeRow(strikeMap[ps[i]])
  {
    if ps != [] {
      var n := |ps| - 1;
      RowsOfIndex(ps[..n], strikeMap);
    }
  }

  /** The rows of `option_data`: the strike rows up to the first strike above the
      underlying's value, the marker row, then the remaining strike rows. */
  function Assembled(strikes: seq<int>, strikeMap: map<int, StrikeItem>, underlyingValue: real,
                     expiryText: string): seq<Row>
  {
    var ps := Present(strikes, strikeMap);
    var p := FirstAbove(ps, underlyingValue);
    RowsOf(ps[..p], strikeMap) + [MarkerRow(underlyingValue, expiryText)] + RowsOf(ps[p..], strikeMap)
  }

  lemma {:induction false} FirstAboveAppend(ps: seq<int>, s: int, u: real)
    ensures FirstAbove(ps + [s], u) ==
      if FirstAbove(ps, u) < |ps| then FirstAbove(ps, u)
      else if s as real > u then |ps| else |ps| + 1
  {
    if ps != [] {
      assert (ps + [s])[1..] == ps[1..] + [s];
      FirstAboveAppend(ps[1..], s, u);
    }
  }

  lemma RowsOfAppend(ps: seq<int>, s: int, strikeMap: map<int, StrikeItem>)
    requires (forall i :: 0 <= i < |ps| ==> ps[i] in strikeMap) && s in strikeMap
    ensures RowsOf(ps + [s], strikeMap) == RowsOf(ps, strikeMap) + [StrikeRow(strikeMap[s])]
  {
    assert (ps + [s])[..|ps|] == ps;
  }

  lemma PresentStep(strikes: seq<int>, i: nat, strikeMap: map<int, StrikeItem>)
    requires i < |strikes|
    ensures strikes[i] in strikeMap ==>
      Present(strikes[..i + 1], strikeMap) == Present(strikes[..i], strikeMap) + [strikes[i]]
    ensures strikes[i] !in strikeMap ==>
      Present(strikes[..i + 1], strikeMap) == Present(strikes[..i], strikeMap)
  {
    assert strikes[..i + 1][..i] == strikes[..i];
    assert Present(strikes[..i], strikeMap) + [] == Present(strikes[..i], strikeMap);
  }

  /** A strike at most the value, before the marker: its row is appended. */
  lemma StepBefore(ps: seq<int>, s: int, strikeMap: map<int, StrikeItem>, u: real)
    requires (forall i :: 0 <= i < |ps| ==> ps[i] in strikeMap) && s in strikeMap
    requires FirstAbove(ps, u) == |ps| && s as real <= u
    ensures FirstAbove(ps + [s], u) == |ps + [s]|
    ensures RowsOf(ps + [s], strikeMap) == RowsOf(ps, strikeMap) + [StrikeRow(strikeMap[s])]
  {
    FirstAboveAppend(ps, s, u);
    RowsOfAppend(ps, s, strikeMap);
  }

  /** The first strike above the value: the marker, then its row. */
  lemma StepInsert(ps: seq<int>, s: int, strikeMap: map<int, StrikeItem>, u: real, marker: Row)
    requires (forall i :: 0 <= i < |ps| ==> ps[i] in strikeMap) && s in strikeMap
    requires FirstAbove(ps, u) == |ps| && s as real > u
    ensures var q := ps + [s];
      && FirstAbove(q, u) == |ps| < |q|
      && RowsOf(q[..|ps|], strikeMap) + [marker] + RowsOf(q[|ps|..], strikeMap)
         == RowsOf(ps, strikeMap) + [marker] + [StrikeRow(strikeMap[s])]
  {
    FirstAboveAppend(ps, s, u);
    var q := ps + [s];
    assert q[..|ps|] == ps && q[|ps|..] == [s];
    assert RowsOf([s], strikeMap) == [StrikeRow(strikeMap[s])];
  }

  /** A strike after the marker: its row is appended. */
  lemma StepAfter(ps: seq<int>, s: int, strikeMap: map<int, StrikeItem>, u: real, marker: Row)
    requires (forall i :: 0 <= i < |ps| ==> ps[i] in strikeMap) && s in strikeMap
    requires FirstAbove(ps, u) < |ps|
    ensures var q := ps + [s];
      var p := FirstAbove(ps, u);
      && FirstAbove(q, u) == p < |q|
      && RowsOf(q[..p], strikeMap) + [marker] + RowsOf(q[p..], strikeMap)
         == RowsOf(ps[..p], strikeMap) + [marker] + RowsOf(ps[p..], strikeMap) + [StrikeRow(strikeMap[s])]
  {
    FirstAboveAppend(ps, s, u);
    var q := ps + [s];
    var p := FirstAbove(ps, u);
    assert q[..p] == ps[..p] && q[p..] == ps[p..] + [s];
    RowsOfAppend(ps[p..], s, strikeMap);
    AppendLast(RowsOf(ps[..p], strikeMap), marker, RowsOf(ps[p..], strikeMap), StrikeRow(strikeMap[s]));
  }

  lemma AppendLast<T>(a: seq<T>, x: T, b: seq<T>, y: T)
    ensures a + [x] + (b + [y]) == a + [x] + b + [y]
  {
  }

  /** `rows` holds the strike rows of `ps`, with the marker before the first strike above the
      value once it has been inserted. */
  predicate Filled(ps: seq<int>, strikeMap: map<int, StrikeItem>, u: real, marker: Row,
                   inserted: bool, rows: seq<Row>)
    requires forall i :: 0 <= i < |ps| ==> ps[i] in strikeMap
  {
    var p := FirstAbove(ps, u);
    && (!inserted ==> p == |ps| && rows == RowsOf(ps, strikeMap))
    && (inserted ==> p < |ps| && rows == RowsOf(ps[..p], strikeMap) + [marker] + RowsOf(ps[p..], strikeMap))
  }

  /** One more strike of the map: the marker if it is the first above the value, then its row. */
  lemma FilledStep(ps: seq<int>, s: int, strikeMap: map<int, StrikeItem>, u: real, marker: Row,
                   inserted: bool, rows: seq<Row>)
    requires (forall i :: 0 <= i < |ps| ==> ps[i] in strikeMap) && s in strikeMap
    requires Filled(ps, strikeMap, u, marker, inserted, rows)
    ensures forall i :: 0 <= i < |ps + [s]| ==> (ps + [s])[i] in strikeMap
    ensures Filled(ps + [s], strikeMap, u, marker, inserted || s as real > u,
                   (if s as real > u && !inserted then rows + [marker] else rows) + [StrikeRow(strikeMap[s])])
  {
    assert forall i :: 0 <= i < |ps + [s]| ==> (ps + [s])[i] in strikeMap;
    if s as real > u && !inserted {
      StepInsert(ps, s, strikeMap, u, marker);
    } else if inserted {
      StepAfter(ps, s, strikeMap, u, marker);
    } else {
      StepBefore(ps, s, strikeMap, u);
    }
  }

  /** The loop of `create_option_chain_dataframe` that fills `option_data`. */
  method AssembleRows(strikes: seq<int>, strikeMap: map<int, StrikeItem>, underlyingValue: real,
                      expiryText: string) returns (optionData: seq<Row>)
    ensures optionData == Assembled(strikes, strikeMap, underlyingValue, expiryText)
  {
    var marker := MarkerRow(underlyingValue, expiryText);
    optionData := [];
    var insertedUnderlying := false;
    for i := 0 to |strikes|
      invariant Filled(Present(strikes[..i], strikeMap), strikeMap, underlyingValue, marker,
                       insertedUnderlying, optionData)
    {
      var ps := Present(strikes[..i], strikeMap);
      PresentStep(strikes, i, strikeMap);
      var strike := strikes[i];
      if strike !in strikeMap {
        continue;
      }
      FilledStep(ps, strike, strikeMap, underlyingValue, marker, insertedUnderlying, optionData);
      if strike as real > underlyingValue && !insertedUnderlying {
        optionData := optionData + [marker];
        insertedUnderlying := true;
      }
      optionData := optionData + [StrikeRow(strikeMap[strike])];
    }
    assert strikes[..|strikes|] == strikes;
    FilledDone(strikes, strikeMap, underlyingValue, expiryText, insertedUnderlying, optionData);
    if !insertedUnderlying {
      optionData := optionData + [marker];
    }
  }

  /** After the last strike: the marker goes last if no strike was above the value. */
  lemma FilledDone(strikes: seq<int>, strikeMap: map<int, StrikeItem>, u: real, expiryText: string,
                   inserted: bool, rows: seq<Row>)
    requires Filled(Present(strikes, strikeMap), strikeMap, u, MarkerRow(u, expiryText), inserted, rows)
    ensures (if inserted then rows else rows + [MarkerRow(u, expiryText)])
      == Assembled(strikes, strikeMap, u, expiryText)
  {
    var ps := Present(strikes, strikeMap);
    assert ps[..|ps|] == ps && ps[|ps|..] == [];
  }

  lemma Around<T>(a: seq<T>, x: T, b: seq<T>)
    ensures var s := a + [x] + b;
      && |s| == |a| + |b| + 1 && s[|a|] == x
      && (forall j :: 0 <= j < |a| ==> s[j] == a[j])
      && (forall j :: |a| < j < |s| ==> s[j] == b[j - |a| - 1])
  {
  }

  /** The rows of `ps` split at `p` around a marker: the marker at `p`, strike rows on
      either side. */
  lemma SplitRowsShape(ps: seq<int>, p: nat, strikeMap: map<int, StrikeItem>, marker: Row)
    requires p <= |ps| && forall i :: 0 <= i < |ps| ==> ps[i] in strikeMap
    ensures var rows := RowsOf(ps[..p], strikeMap) + [marker] + RowsOf(ps[p..], strikeMap);
      && |rows| == |ps| + 1
      && rows[p] == marker
      && (forall j :: 0 <= j < p ==> rows[j] == StrikeRow(strikeMap[ps[j]]))
      && (forall j :: p < j < |rows| ==> rows[j] == StrikeRow(strikeMap[ps[j - 1]]))
  {
    var a, b := RowsOf(ps[..p], strikeMap), RowsOf(ps[p..], strikeMap);
    var rows := a + [marker] + b;
    Around(a, marker, b);
    RowsOfIndex(ps[..p], strikeMap);
    RowsOfIndex(ps[p..], strikeMap);
    forall j | 0 <= j < p ensures rows[j] == StrikeRow(strikeMap[ps[j]]) {
      assert rows[j] == a[j] && ps[..p][j] == ps[j];
    }
    forall j | p < j < |rows| ensures rows[j] == StrikeRow(strikeMap[ps[j - 1]]) {
      assert rows[j] == b[j - p - 1] && ps[p..][j - p - 1] == ps[j - 1];
    }
  }

  /** The marker sits at the first strike above the underlying's value, or last; the strike
      rows before it are those of the strikes at most the value, in window order, and the
      strike rows after it those of the remaining strikes, in window order. */
  lemma AssembledShape(strikes: seq<int>, strikeMap: map<int, StrikeItem>, underlyingValue: real,
                       expiryText: string)
    ensures var rows := Assembled(strikes, strikeMap, underlyingValue, expiryText);
      var ps := Present(strikes, strikeMap);
      var p := FirstAbove(ps, underlyingValue);
      && |rows| == |ps| + 1
      && rows[p] == MarkerRow(underlyingValue, expiryText)
      && (forall j :: 0 <= j < p ==> rows[j] == StrikeRow(strikeMap[ps[j]]))
      && (forall j :: p < j < |rows| ==> rows[j] == StrikeRow(strikeMap[ps[j - 1]]))
  {
    var ps := Present(strikes, strikeMap);
    SplitRowsShape(ps, FirstAbove(ps, underlyingValue), strikeMap, MarkerRow(underlyingValue, expiryText));
  }

  /** Exactly one row is the marker: it alone has no numeric strike. */
  lemma OneMarker(strikes: seq<int>, strikeMap: map<int, StrikeItem>, underlyingValue: real,
                  expiryText: string)
    ensures var rows := Assembled(strikes, strikeMap, underlyingValue, expiryText);
      var p := FirstAbove(Present(strikes, strikeMap), underlyingValue);
      forall j :: 0 <= j < |rows| ==> (rows[j].strike.Num? <==> j != p)
  {
    AssembledShape(strikes, strikeMap, underlyingValue, expiryText);
  }

  /** Every round strike of the ladder is in the strike map. */
  lemma LadderMapped(items: seq<StrikeItem>)
    ensures var all := AllStrikes(items);
      forall i :: 0 <= i < |all| ==> all[i] in StrikeMap(items)
  {
    var all := AllStrikes(items);
    forall i | 0 <= i < |all| ensures all[i] in StrikeMap(items) {
      var k := all[i];
      assert k in multiset(StrikesOf(items));
      assert k in StrikesOf(items);
      var it :| it in items && it.strikePrice == k;
      var n :| 0 <= n < |items| && items[n] == it;
    }
  }

  /** Every strike of the window is in the strike map, so no strike is skipped. */
  lemma WindowStrikesMapped(snap: Snapshot, strikeRange: nat)
    requires GetFilteredStrikePrices(snap, strikeRange).Ok?
    ensures var w := GetFilteredStrikePrices(snap, strikeRange).value;
      Present(w.strikes, StrikeMap(snap.items)) == w.strikes
  {
    var w := GetFilteredStrikePrices(snap, strikeRange).value;
    WindowInMap(snap, strikeRange);
    AllPresent(w.strikes, StrikeMap(snap.items));
  }

  lemma WindowInMap(snap: Snapshot, strikeRange: nat)
    requires GetFilteredStrikePrices(snap, strikeRange).Ok?
    ensures var w := GetFilteredStrikePrices(snap, strikeRange).value;
      forall j :: 0 <= j < |w.strikes| ==> w.strikes[j] in StrikeMap(snap.items)
  {
    WindowShape(snap, strikeRange);
    LadderMapped(snap.items);
    var w := GetFilteredStrikePrices(snap, strikeRange).value;
    var all := AllStrikes(snap.items);
    FitsMapped(w, all, TargetIndex(all, w.roundedStrike), strikeRange, StrikeMap(snap.items));
  }

  lemma FitsMapped(w: Window, all: seq<int>, t: int, r: nat, m: map<int, StrikeItem>)
    requires FitsAround(w, all, t, r)
    requires forall i :: 0 <= i < |all| ==> all[i] in m
    ensures forall j :: 0 <= j < |w.strikes| ==> w.strikes[j] in m
  {
    SliceMapped(w.strikes, all, t - w.offset, m);
  }

  lemma SliceMapped(strikes: seq<int>, all: seq<int>, start: nat, m: map<int, StrikeItem>)
    requires start + |strikes| <= |all| && strikes <= all[start..]
    requires forall i :: 0 <= i < |all| ==> all[i] in m
    ensures forall j :: 0 <= j < |strikes| ==> strikes[j] in m
  {
    forall j | 0 <= j < |strikes| ensures strikes[j] in m {
      assert strikes[j] == all[start..][j] == all[start + j];
    }
  }

  lemma {:induction false} AllPresent(strikes: seq<int>, strikeMap: map<int, StrikeItem>)
    requires forall i :: 0 <= i < |strikes| ==> strikes[i] in strikeMap
    ensures Present(strikes, strikeMap) == strikes
  {
    if strikes != [] {
      var n := |strikes| - 1;
      AllPresent(strikes[..n], strikeMap);
      assert strikes[..n] + [strikes[n]] == strikes;
    }
  }

  // ---------------------------------------------------------------- the table

  /** The number of strikes either side of the target: `strike_range`'s default. */
  const StrikeRange: nat := 10

  /** `df['IV'] = iv_column`: the IV entry beside each row. */
  function WithIv(rows: seq<Row>, ivs: seq<Cell>): (t: seq<TableRow>)
    requires |rows| == |ivs|
    ensures |t| == |rows| && forall i :: 0 <= i < |rows| ==> t[i] == TableRow(rows[i], ivs[i])
  {
    seq(|rows|, i requires 0 <= i < |rows| => TableRow(rows[i], ivs[i]))
  }

  /** What `create_option_chain_dataframe` builds: the window's rows with their IV entries
      and the timestamp row, or the exception that stops it. The expiry text is parsed with
      `%d-%b-%Y`, and the expiry instant is at 15:30 of that day. */
  function OptionChain(snap: Snapshot, expiryText: string, futurePrice: real, solve: Solver,
                       currentTime: string): Result<seq<TableRow>>
  {
    match GetFilteredStrikePrices(snap, StrikeRange)
    case Raised(e) => Raised(e)
    case Ok(w) =>
      var rows := Assembled(w.strikes, StrikeMap(snap.items), w.underlyingValue, expiryText);
      match ParseExpiryText(expiryText)
      case None => Raised(ValueError)
      case Some(d) =>
        match IvColumn(rows, w.underlyingValue, futurePrice, ExpiryInstant(d), solve)
        case Raised(e) => Raised(e)
        case Ok(ivs) =>
          IvColumnShape(rows, w.underlyingValue, futurePrice, ExpiryInstant(d), solve);
          Ok(WithIv(rows, ivs) + [TimestampRow(currentTime)])
  }

  /** `create_option_chain_dataframe(data, expiry_date)`, with the future price, the solver
      and the formatted current time passed in. */
  method CreateOptionChainRows(snap: Snapshot, expiryText: string, futurePrice: real, solve: Solver,
                               currentTime: string) returns (r: Result<seq<TableRow>>)
    ensures r == OptionChain(snap, expiryText, futurePrice, solve, currentTime)
  {
    var window := GetFilteredStrikePrices(snap, StrikeRange);
    if window.Raised? {
      return Raised(window.error);
    }
    var w := window.value;
    var strikeMap := StrikeMap(snap.items);
    var rows := AssembleRows(w.strikes, strikeMap, w.underlyingValue, expiryText);
    var spotPrice := w.underlyingValue;
    var expiry := ParseExpiryText(expiryText);
    if expiry.None? {
      return Raised(ValueError);
    }
    var expiryDatetime := ExpiryInstant(expiry.value);
    var ivColumn := CalculateIv(rows, spotPrice, futurePrice, expiryDatetime, solve);
    if ivColumn.Raised? {
      return Raised(ivColumn.error);
    }
    IvColumnShape(rows, spotPrice, futurePrice, expiryDatetime, solve);
    var df := WithIv(rows, ivColumn.value);
    return Ok(df + [TimestampRow(currentTime)]);
  }

  /** A built table is the assembled rows, each beside its IV entry, then the timestamp row;
      every strike of the window has its row, and the marker row's IV is blank. */
  lemma OptionChainShape(snap: Snapshot, expiryText: string, futurePrice: real, solve: Solver,
                         currentTime: string)
    requires OptionChain(snap, expiryText, futurePrice, solve, currentTime).Ok?
    ensures var t := OptionChain(snap, expiryText, futurePrice, solve, currentTime).value;
      var w := GetFilteredStrikePrices(snap, StrikeRange).value;
      var rows := Assembled(w.strikes, StrikeMap(snap.items), w.underlyingValue, expiryText);
      && Present(w.strikes, StrikeMap(snap.items)) == w.strikes
      && |t| == |rows| + 1 == |w.strikes| + 2
      && t[|t| - 1] == TimestampRow(currentTime)
      && (forall j :: 0 <= j < |rows| ==> t[j].row == rows[j])
      && t[FirstAbove(w.strikes, w.underlyingValue)].iv == Blank
  {
    var w := GetFilteredStrikePrices(snap, StrikeRange).value;
    var m := StrikeMap(snap.items);
    WindowStrikesMapped(snap, StrikeRange);
    var rows := Assembled(w.strikes, m, w.underlyingValue, expiryText);
    var p := FirstAbove(w.strikes, w.underlyingValue);
    assert |rows| == |w.strikes| + 1 && !rows[p].strike.Num? by {
      AssembledShape(w.strikes, m, w.underlyingValue, expiryText);
    }
    var d := ParseExpiryText(expiryText).value;
    var ivs := IvColumn(rows, w.underlyingValue, futurePrice, ExpiryInstant(d), solve).value;
    assert |ivs| == |rows| && ivs[p] == Blank by {
      IvColumnShape(rows, w.underlyingValue, futurePrice, ExpiryInstant(d), solve);
    }
    OptionChainValue(snap, expiryText, futurePrice, solve, currentTime);
    WithIvShape(rows, ivs, p, TimestampRow(currentTime));
  }

  /** A built table unfolded: the window's rows beside their IV entries, then the timestamp. */
  lemma OptionChainValue(snap: Snapshot, expiryText: string, futurePrice: real, solve: Solver,
                         currentTime: string)
    requires OptionChain(snap, expiryText, futurePrice, solve, currentTime).Ok?
    ensures var w := GetFilteredStrikePrices(snap, StrikeRange).value;
      var rows := Assembled(w.strikes, StrikeMap(snap.items), w.underlyingValue, expiryText);
      && GetFilteredStrikePrices(snap, StrikeRange).Ok?
      && ParseExpiryText(expiryText).Some?
      && var ivs := IvColumn(rows, w.underlyingValue, futurePrice,
                             ExpiryInstant(ParseExpiryText(expiryText).value), solve);
      && ivs.Ok? && |ivs.value| == |rows|
      && OptionChain(snap, expiryText, futurePrice, solve, currentTime).value
         == WithIv(rows, ivs.value) + [TimestampRow(currentTime)]
  {
    var w := GetFilteredStrikePrices(snap, StrikeRange).value;
    var rows := Assembled(w.strikes, StrikeMap(snap.items), w.underlyingValue, expiryText);
    var d := ParseExpiryText(expiryText).value;
    IvColumnShape(rows, w.underlyingValue, futurePrice, ExpiryInstant(d), solve);
  }

  lemma WithIvShape(rows: seq<Row>, ivs: seq<Cell>, p: nat, last: TableRow)
    requires |ivs| == |rows| && p < |rows| && ivs[p] == Blank
    ensures var t := WithIv(rows, ivs) + [last];
      && |t| == |rows| + 1 && t[|t| - 1] == last
      && (forall j :: 0 <= j < |rows| ==> t[j].row == rows[j])
      && t[p].iv == Blank
  {
  }
}
