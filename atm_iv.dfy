/** The implied-volatility column of the options table: choosing the at-the-money (ATM)
    row by the future price, and preparing each strike's request to the IV solver.
    The solver itself is a parameter: it is given a request and the side to price (the
    call when `true`), and returns the volatility or `None` when it raises. */
module AtmIv {
  import opened Wrappers
  import opened Cells
  import opened Order
  import opened Calendar
  import opened OptionData
  import Text

  /** `float(cell) if cell not in ['', None] else 0`: numbers convert, text converts when it
      is a decimal literal and raises `ValueError` otherwise. */
  function Ltp(c: Cell): (r: Result<real>)
    ensures c == Blank || c == Null ==> r == Ok(0.0)
    ensures c.Num? ==> r == Ok(c.value)
    ensures c.NumberText? ==> r == Ok(c.shown)
    ensures c.Text? && c.text != "" && Text.FloatOfText(c.text).Some?
            ==> r == Ok(Text.FloatOfText(c.text).value)
    ensures r.Raised? <==> c.Text? && c.text != "" && Text.FloatOfText(c.text).None?
    ensures r.Raised? ==> r.error == ValueError
  {
    match c
    case Num(v) => Ok(v)
    case NumberText(v) => Ok(v)
    case Null => Ok(0.0)
    case Text(t) =>
      if t == "" then Ok(0.0)
      else
        match Text.FloatOfText(t)
        case Some(v) => Ok(v)
        case None => Raised(ValueError)
  }

  /** A premium that the exchange sends as text, such as `"12.05"`, converts to its value. */
  lemma {:induction false} LtpOfText(whole: nat, cents: nat)
    requires cents < 100
    ensures Ltp(Text(Text.NatText(whole) + "." + Text.Padded(cents, 2)))
            == Ok(Text.Decimal(whole, cents, 2))
  {
    Text.FloatOfDecimalText(whole, cents, 2);
  }

  /** Text that is no number, such as the exchange's `"-"`, raises `ValueError`. */
  lemma LtpOfDash()
    ensures Ltp(Text("-")) == Raised(ValueError)
  {
    Text.FloatOfLoneMinus();
  }

  /** `isinstance(row['STRIKE'], (int, float))`. */
  predicate IsNumeric(row: Row) {
    row.strike.Num?
  }

  function RealAbs(x: real): real {
    if x < 0.0 then -x else x
  }

  /** `abs(row['STRIKE'] - reference_price)`. */
  function Distance(row: Row, referencePrice: real): real
    requires IsNumeric(row)
  {
    RealAbs(row.strike.value - referencePrice)
  }

  // ---------------------------------------------------------------- ATM row

  /** `valid_rows`: the rows with a numeric strike, in table order. */
  function ValidRows(rows: seq<Row>): (vr: seq<Row>)
    ensures forall j :: 0 <= j < |vr| ==> IsNumeric(vr[j])
  {
    if rows == [] then []
    else
      var n := |rows| - 1;
      ValidRows(rows[..n]) + (if IsNumeric(rows[n]) then [rows[n]] else [])
  }

  /** `min(vr, key=lambda x: abs(x['STRIKE'] - reference_price))`: the first row of least
      distance. */
  function MinByDistance(vr: seq<Row>, referencePrice: real): (m: Row)
    requires vr != [] && forall j :: 0 <= j < |vr| ==> IsNumeric(vr[j])
    ensures m in vr && IsNumeric(m)
    ensures forall j :: 0 <= j < |vr| ==> Distance(m, referencePrice) <= Distance(vr[j], referencePrice)
  {
    var n := |vr| - 1;
    if n == 0 then vr[0]
    else
      var m := MinByDistance(vr[..n], referencePrice);
      if Distance(vr[n], referencePrice) < Distance(m, referencePrice) then vr[n] else m
  }

  /** Row `k` has a numeric strike nearest to the reference price, and no earlier numeric
      row is as near. */
  predicate IsFirstNearestRow(rows: seq<Row>, referencePrice: real, k: int) {
    0 <= k < |rows| && IsNumeric(rows[k])
    && (forall j :: 0 <= j < |rows| && IsNumeric(rows[j]) ==>
          Distance(rows[k], referencePrice) <= Distance(rows[j], referencePrice))
    && (forall j :: 0 <= j < k && IsNumeric(rows[j]) ==>
          Distance(rows[j], referencePrice) > Distance(rows[k], referencePrice))
  }

  /** The first numeric row nearest the reference price, if any row is numeric. */
  function FirstNearest(rows: seq<Row>, referencePrice: real): (r: Option<nat>)
    ensures r.None? <==> forall i :: 0 <= i < |rows| ==> !IsNumeric(rows[i])
    ensures r.Some? ==> IsFirstNearestRow(rows, referencePrice, r.value)
  {
    if rows == [] then None
    else
      var n := |rows| - 1;
      var k := FirstNearest(rows[..n], referencePrice);
      assert forall i :: 0 <= i < n ==> rows[..n][i] == rows[i];
      if IsNumeric(rows[n]) && (k.None? || Distance(rows[n], referencePrice) < Distance(rows[k.value], referencePrice))
      then Some(n) else k
  }

  /** The first nearest row is unique. */
  lemma FirstNearestRowUnique(rows: seq<Row>, referencePrice: real, k1: int, k2: int)
    requires IsFirstNearestRow(rows, referencePrice, k1) && IsFirstNearestRow(rows, referencePrice, k2)
    ensures k1 == k2
  {
    assert Distance(rows[k1], referencePrice) == Distance(rows[k2], referencePrice);
  }

  /** No row is kept exactly when no row is numeric. */
  lemma {:induction false} ValidRowsEmpty(rows: seq<Row>)
    ensures ValidRows(rows) == [] <==> forall i :: 0 <= i < |rows| ==> !IsNumeric(rows[i])
  {
    if rows != [] {
      var n := |rows| - 1;
      ValidRowsEmpty(rows[..n]);
      assert forall i :: 0 <= i < n ==> rows[..n][i] == rows[i];
    }
  }

  /** Extending the rows by one numeric row: `min` keeps its pick unless the new row is
      strictly nearer. */
  lemma MinByDistanceStep(vr: seq<Row>, x: Row, referencePrice: real)
    requires vr != [] && (forall j :: 0 <= j < |vr| ==> IsNumeric(vr[j])) && IsNumeric(x)
    ensures var m := MinByDistance(vr, referencePrice);
      MinByDistance(vr + [x], referencePrice) ==
        if Distance(x, referencePrice) < Distance(m, referencePrice) then x else m
  {
    assert (vr + [x])[..|vr|] == vr;
  }

  /** The row `min` picks among the valid rows is the first numeric row nearest the
      reference price. */
  lemma {:induction false} MinOfValidRows(rows: seq<Row>, referencePrice: real)
    ensures ValidRows(rows) != [] <==> FirstNearest(rows, referencePrice).Some?
    ensures ValidRows(rows) != [] ==>
      MinByDistance(ValidRows(rows), referencePrice) == rows[FirstNearest(rows, referencePrice).value]
  {
    ValidRowsEmpty(rows);
    if rows != [] && ValidRows(rows) != [] {
      var n := |rows| - 1;
      var init := rows[..n];
      var x := rows[n];
      var vr := ValidRows(init);
      var k := FirstNearest(init, referencePrice);
      MinOfValidRows(init, referencePrice);
      if !IsNumeric(x) {
        assert ValidRows(rows) == vr;
        assert FirstNearest(rows, referencePrice) == k;
        assert rows[k.value] == init[k.value];
      } else if vr == [] {
        assert ValidRows(rows) == [x];
        assert FirstNearest(rows, referencePrice) == Some(n);
      } else {
        assert ValidRows(rows) == vr + [x];
        var m := rows[k.value];
        assert MinByDistance(vr, referencePrice) == m by {
          assert m == init[k.value];
        }
        MinByDistanceStep(vr, x, referencePrice);
      }
    }
  }

  /** The first row whose `STRIKE` equals `s`, searching from row `j`. */
  function FirstWithStrike(rows: seq<Row>, s: real, j: nat): (r: Option<nat>)
    ensures r.Some? ==> j <= r.value < |rows| && rows[r.value].strike == Num(s)
    ensures r.Some? ==> forall i :: j <= i < r.value ==> rows[i].strike != Num(s)
    ensures r.None? ==> forall i :: j <= i < |rows| ==> rows[i].strike != Num(s)
    decreases |rows| - j
  {
    if j >= |rows| then None
    else if rows[j].strike == Num(s) then Some(j)
    else FirstWithStrike(rows, s, j + 1)
  }

  /** The scan for `row['STRIKE'] == atm_strike` stops at the ATM row itself, so the
      `atm_row is None` case never arises. */
  lemma AtmRowFound(rows: seq<Row>, referencePrice: real, k: nat)
    requires IsFirstNearestRow(rows, referencePrice, k)
    ensures FirstWithStrike(rows, rows[k].strike.value, 0) == Some(k)
  {
    var r := FirstWithStrike(rows, rows[k].strike.value, 0);
    assert r.Some? && r.value <= k;
  }

  /** What `find_atm_strike_and_prices` returns. */
  datatype Atm = NoAtm | Atm(strike: real, callPrice: real, putPrice: real)

  /** No ATM when no strike is numeric, and otherwise the strike and premiums of the first
      numeric row nearest the reference price, or the `ValueError` of a premium that does
      not convert. */
  function AtmOf(rows: seq<Row>, referencePrice: real): Result<Atm> {
    match FirstNearest(rows, referencePrice)
    case None => Ok(NoAtm)
    case Some(k) =>
      match Ltp(rows[k].callLtp)
      case Raised(e) => Raised(e)
      case Ok(call) =>
        match Ltp(rows[k].putLtp)
        case Raised(e) => Raised(e)
        case Ok(put) => Ok(Atm(rows[k].strike.value, call, put))
  }

  /** `find_atm_strike_and_prices` gives no ATM exactly when no strike is numeric, raises
      exactly when a premium of the first nearest row does not convert, and otherwise gives
      that row's strike and premiums. */
  lemma AtmOfSpec(rows: seq<Row>, referencePrice: real)
    ensures var r := AtmOf(rows, referencePrice);
      && (r == Ok(NoAtm) <==> forall i :: 0 <= i < |rows| ==> !IsNumeric(rows[i]))
      && (r.Raised? <==>
            exists k :: (IsFirstNearestRow(rows, referencePrice, k)
                         && (Ltp(rows[k].callLtp).Raised? || Ltp(rows[k].putLtp).Raised?)))
      && (r.Ok? && r.value.Atm? ==>
            exists k :: IsFirstNearestRow(rows, referencePrice, k) && r.value.strike == rows[k].strike.value
              && Ltp(rows[k].callLtp) == Ok(r.value.callPrice) && Ltp(rows[k].putLtp) == Ok(r.value.putPrice))
  {
    var f := FirstNearest(rows, referencePrice);
    if f.Some? {
      forall k | IsFirstNearestRow(rows, referencePrice, k) ensures k == f.value {
        FirstNearestRowUnique(rows, referencePrice, k, f.value);
      }
    }
  }

  /** `find_atm_strike_and_prices(df, reference_price)`. */
  method FindAtmStrikeAndPrices(rows: seq<Row>, referencePrice: real) returns (r: Result<Atm>)
    ensures r == AtmOf(rows, referencePrice)
  {
    var validRows: seq<Row> := [];
    var i := 0;
    while i < |rows|
      invariant 0 <= i <= |rows|
      invariant validRows == ValidRows(rows[..i])
    {
      assert rows[..i + 1][..i] == rows[..i];
      if rows[i].strike.Num? {
        validRows := validRows + [rows[i]];
      }
      i := i + 1;
    }
    assert rows[..|rows|] == rows;
    MinOfValidRows(rows, referencePrice);
    if validRows == [] {
      return Ok(NoAtm);
    }
    var k := FirstNearest(rows, referencePrice).value;
    var atmStrike := MinByDistance(validRows, referencePrice).strike.value;
    AtmRowFound(rows, referencePrice, k);
    var atmRow: Option<Row> := None;
    var j := 0;
    while j < |rows|
      invariant 0 <= j <= k
      invariant FirstWithStrike(rows, atmStrike, j) == Some(k)
      invariant atmRow == None
    {
      if rows[j].strike == Num(atmStrike) {
        atmRow := Some(rows[j]);
        break;
      }
      j := j + 1;
    }
    assert atmRow == Some(rows[k]);
    var callPrice := Ltp(atmRow.value.callLtp);
    if callPrice.Raised? {
      return Raised(callPrice.error);
    }
    var putPrice := Ltp(atmRow.value.putLtp);
    if putPrice.Raised? {
      return Raised(putPrice.error);
    }
    return Ok(Atm(atmStrike, callPrice.value, putPrice.value));
  }

  // ---------------------------------------------------------------- IV requests

  function RealMax(a: real, b: real): real {
    if a < b then b else a
  }

  /** `max(price, intrinsic + 0.01, 0.01)`: a premium below intrinsic value is raised to
      just above it. */
  function FloorPrice(price: real, intrinsic: real): (r: real)
    ensures r >= price && r >= intrinsic + 0.01 && r >= 0.01
  {
    RealMax(RealMax(price, intrinsic + 0.01), 0.01)
  }

  /** The floored premium is at least the premium, at least 0.01 above intrinsic and at least
      0.01; a premium already that high is kept, and flooring twice is flooring once. */
  lemma FloorPriceSpec(price: real, intrinsic: real)
    ensures FloorPrice(price, intrinsic) >= price
    ensures FloorPrice(price, intrinsic) >= intrinsic + 0.01 && FloorPrice(price, intrinsic) >= 0.01
    ensures price >= intrinsic + 0.01 && price >= 0.01 ==> FloorPrice(price, intrinsic) == price
    ensures FloorPrice(FloorPrice(price, intrinsic), intrinsic) == FloorPrice(price, intrinsic)
    ensures FloorPrice(price, intrinsic) == price || FloorPrice(price, intrinsic) == intrinsic + 0.01
      || FloorPrice(price, intrinsic) == 0.01
  {
  }

  /** `should_use_call_iv(strike, reference_price, mode)`: both modes use the call at or
      above the reference price. */
  predicate ShouldUseCallIv(strike: real, referencePrice: real, sensibull: bool) {
    if sensibull then strike >= referencePrice else strike >= referencePrice
  }

  /** The arguments `CalcIvGreeks` is built with. */
  datatype IvRequest = IvRequest(
    spotPrice: real, futurePrice: real,
    atmStrike: real, atmStrikeCallPrice: real, atmStrikePutPrice: real,
    expiry: Instant,
    strikePrice: real, strikeCallPrice: real, strikePutPrice: real)

  /** The request for a strike with premiums `call` and `put`: intrinsic values measured
      from the future price, 1.0 in place of a missing ATM premium. */
  function PrepareRequest(spotPrice: real, futurePrice: real, atm: Atm, expiry: Instant,
                          strike: real, call: real, put: real): IvRequest
    requires atm.Atm?
  {
    IvRequest(spotPrice, futurePrice, atm.strike,
              if atm.callPrice > 0.0 then atm.callPrice else 1.0,
              if atm.putPrice > 0.0 then atm.putPrice else 1.0,
              expiry, strike,
              FloorPrice(call, RealMax(0.0, futurePrice - strike)),
              FloorPrice(put, RealMax(0.0, strike - futurePrice)))
  }

  /** Every request the solver gets has positive premiums, at least 0.01 above each side's
      intrinsic value, and the ATM premiums are the ATM row's whenever those are positive. */
  lemma RequestSpec(spotPrice: real, futurePrice: real, atm: Atm, expiry: Instant,
                    strike: real, call: real, put: real)
    requires atm.Atm?
    ensures var req := PrepareRequest(spotPrice, futurePrice, atm, expiry, strike, call, put);
      && req.atmStrikeCallPrice > 0.0 && req.atmStrikePutPrice > 0.0
      && (atm.callPrice > 0.0 ==> req.atmStrikeCallPrice == atm.callPrice)
      && (atm.putPrice > 0.0 ==> req.atmStrikePutPrice == atm.putPrice)
      && req.strikeCallPrice >= call && req.strikePutPrice >= put
      && req.strikeCallPrice >= futurePrice - strike + 0.01 && req.strikeCallPrice >= 0.01
      && req.strikePutPrice >= strike - futurePrice + 0.01 && req.strikePutPrice >= 0.01
  {
    FloorPriceSpec(call, RealMax(0.0, futurePrice - strike));
    FloorPriceSpec(put, RealMax(0.0, strike - futurePrice));
  }

  /** The solver: the volatility (as a fraction) on the chosen side, or `None` if it raises. */
  type Solver = (IvRequest, bool) -> Option<real>

  /** The IV entry of one row, or the `ValueError` of an unconvertible premium. */
  function RowIv(row: Row, spotPrice: real, futurePrice: real, atm: Atm, expiry: Instant,
                 solve: Solver): Result<Cell>
    requires atm.Atm?
  {
    if !IsNumeric(row) then Ok(Blank)
    else
      var strike := row.strike.value;
      match Ltp(row.callLtp)
      case Raised(e) => Raised(e)
      case Ok(call) =>
        match Ltp(row.putLtp)
        case Raised(e) => Raised(e)
        case Ok(put) =>
          if call <= 0.0 && put <= 0.0 then Ok(Blank)
          else
            var req := PrepareRequest(spotPrice, futurePrice, atm, expiry, strike, call, put);
            match solve(req, ShouldUseCallIv(strike, futurePrice, true))
            case None => Ok(Blank)
            case Some(v) => if v * 100.0 > 0.0 then Ok(Num(v * 100.0)) else Ok(Blank)
  }

  /** An IV entry is blank or a positive percentage, and blank for a row without a numeric
      strike or without a positive premium; only an unconvertible premium raises. */
  lemma RowIvSpec(row: Row, spotPrice: real, futurePrice: real, atm: Atm, expiry: Instant,
                  solve: Solver)
    requires atm.Atm?
    ensures var r := RowIv(row, spotPrice, futurePrice, atm, expiry, solve);
      && (r.Raised? <==> IsNumeric(row) && (Ltp(row.callLtp).Raised? || Ltp(row.putLtp).Raised?))
      && (r.Ok? ==> r.value == Blank || (r.value.Num? && r.value.value > 0.0))
      && (!IsNumeric(row) ==> r == Ok(Blank))
      && ((Ltp(row.callLtp).Ok? && Ltp(row.putLtp).Ok?
           && Ltp(row.callLtp).value <= 0.0 && Ltp(row.putLtp).value <= 0.0) ==> r == Ok(Blank))
      && (r.Ok? && r.value.Num? ==>
            solve(PrepareRequest(spotPrice, futurePrice, atm, expiry, row.strike.value,
                                 Ltp(row.callLtp).value, Ltp(row.putLtp).value),
                  row.strike.value >= futurePrice) == Some(r.value.value / 100.0))
  {
  }

  /** Conversely, a numeric row whose premiums convert, not both non-positive, gets the
      solver's answer as a percentage when that is positive, and a blank otherwise. */
  lemma {:induction false} RowIvSolved(row: Row, spotPrice: real, futurePrice: real, atm: Atm,
                                       expiry: Instant, solve: Solver)
    requires atm.Atm?
    ensures IsNumeric(row) && Ltp(row.callLtp).Ok? && Ltp(row.putLtp).Ok?
            && !(Ltp(row.callLtp).value <= 0.0 && Ltp(row.putLtp).value <= 0.0) ==>
      var answer := solve(PrepareRequest(spotPrice, futurePrice, atm, expiry, row.strike.value,
                                         Ltp(row.callLtp).value, Ltp(row.putLtp).value),
                          row.strike.value >= futurePrice);
      RowIv(row, spotPrice, futurePrice, atm, expiry, solve)
        == if answer.Some? && answer.value * 100.0 > 0.0 then Ok(Num(answer.value * 100.0))
           else Ok(Blank)
  {
  }

  /** Only the side that `should_use_call_iv` chooses is ever asked for: two solvers that
      agree on that side give the same entry. */
  lemma RowIvUsesOneSide(row: Row, spotPrice: real, futurePrice: real, atm: Atm, expiry: Instant,
                         solve1: Solver, solve2: Solver)
    requires atm.Atm?
    requires forall req: IvRequest :: solve1(req, req.strikePrice >= futurePrice) == solve2(req, req.strikePrice >= futurePrice)
    ensures RowIv(row, spotPrice, futurePrice, atm, expiry, solve1) == RowIv(row, spotPrice, futurePrice, atm, expiry, solve2)
  {
    if IsNumeric(row) && Ltp(row.callLtp).Ok? && Ltp(row.putLtp).Ok? {
      var req := PrepareRequest(spotPrice, futurePrice, atm, expiry, row.strike.value,
                                Ltp(row.callLtp).value, Ltp(row.putLtp).value);
      assert solve1(req, req.strikePrice >= futurePrice) == solve2(req, req.strikePrice >= futurePrice);
    }
  }

  /** The IV entries of `rows` in order, stopping at the first row that raises. */
  function IvValues(rows: seq<Row>, spotPrice: real, futurePrice: real, atm: Atm, expiry: Instant,
                    solve: Solver): Result<seq<Cell>>
    requires atm.Atm?
  {
    if rows == [] then Ok([])
    else
      var n := |rows| - 1;
      match IvValues(rows[..n], spotPrice, futurePrice, atm, expiry, solve)
      case Raised(e) => Raised(e)
      case Ok(vs) =>
        match RowIv(rows[n], spotPrice, futurePrice, atm, expiry, solve)
        case Raised(e) => Raised(e)
        case Ok(c) => Ok(vs + [c])
  }

  /** The entries are the rows' own, one per row, and the column fails exactly when some
      row's entry raises. */
  lemma {:induction false} IvValuesSpec(rows: seq<Row>, spotPrice: real, futurePrice: real, atm: Atm,
                                        expiry: Instant, solve: Solver)
    requires atm.Atm?
    ensures var r := IvValues(rows, spotPrice, futurePrice, atm, expiry, solve);
      && (r.Raised? <==> exists i :: 0 <= i < |rows| && RowIv(rows[i], spotPrice, futurePrice, atm, expiry, solve).Raised?)
      && (r.Ok? ==> |r.value| == |rows| && forall i :: 0 <= i < |rows| ==>
            RowIv(rows[i], spotPrice, futurePrice, atm, expiry, solve) == Ok(r.value[i]))
  {
    IvValuesRaises(rows, spotPrice, futurePrice, atm, expiry, solve);
    IvValuesEntries(rows, spotPrice, futurePrice, atm, expiry, solve);
  }

  lemma {:induction false} IvValuesRaises(rows: seq<Row>, spotPrice: real, futurePrice: real, atm: Atm,
                                          expiry: Instant, solve: Solver)
    requires atm.Atm?
    ensures IvValues(rows, spotPrice, futurePrice, atm, expiry, solve).Raised? <==>
      exists i :: 0 <= i < |rows| && RowIv(rows[i], spotPrice, futurePrice, atm, expiry, solve).Raised?
  {
    if rows != [] {
      var n := |rows| - 1;
      var init := rows[..n];
      IvValuesRaises(init, spotPrice, futurePrice, atm, expiry, solve);
      assert forall i :: 0 <= i < n ==> init[i] == rows[i];
      var prefix := IvValues(init, spotPrice, futurePrice, atm, expiry, solve);
      var last := RowIv(rows[n], spotPrice, futurePrice, atm, expiry, solve);
      if prefix.Raised? {
        var i :| 0 <= i < n && RowIv(init[i], spotPrice, futurePrice, atm, expiry, solve).Raised?;
        assert RowIv(rows[i], spotPrice, futurePrice, atm, expiry, solve).Raised?;
      } else if last.Raised? {
        assert RowIv(rows[n], spotPrice, futurePrice, atm, expiry, solve).Raised?;
      } else {
        assert IvValues(rows, spotPrice, futurePrice, atm, expiry, solve).Ok?;
        forall i | 0 <= i < |rows|
          ensures !RowIv(rows[i], spotPrice, futurePrice, atm, expiry, solve).Raised?
        {
          if i < n {
            assert rows[i] == init[i];
          }
        }
      }
    }
  }

  lemma {:induction false} IvValuesEntries(rows: seq<Row>, spotPrice: real, futurePrice: real, atm: Atm,
                                           expiry: Instant, solve: Solver)
    requires atm.Atm?
    ensures var r := IvValues(rows, spotPrice, futurePrice, atm, expiry, solve);
      r.Ok? ==> |r.value| == |rows| && forall i :: 0 <= i < |rows| ==>
        RowIv(rows[i], spotPrice, futurePrice, atm, expiry, solve) == Ok(r.value[i])
  {
    if rows != [] {
      var n := |rows| - 1;
      var init := rows[..n];
      IvValuesEntries(init, spotPrice, futurePrice, atm, expiry, solve);
      var prefix := IvValues(init, spotPrice, futurePrice, atm, expiry, solve);
      var last := RowIv(rows[n], spotPrice, futurePrice, atm, expiry, solve);
      if prefix.Ok? && last.Ok? {
        var vs := prefix.value + [last.value];
        assert IvValues(rows, spotPrice, futurePrice, atm, expiry, solve) == Ok(vs);
        forall i | 0 <= i < |rows|
          ensures RowIv(rows[i], spotPrice, futurePrice, atm, expiry, solve) == Ok(vs[i])
        {
          if i < n {
            assert rows[i] == init[i] && vs[i] == prefix.value[i];
          }
        }
      }
    }
  }

  /** One more row adds that row's entry, or raises. */
  lemma IvValuesStep(rows: seq<Row>, i: nat, spotPrice: real, futurePrice: real,
                     atm: Atm, expiry: Instant, solve: Solver, vs: seq<Cell>)
    requires atm.Atm? && i < |rows|
    requires IvValues(rows[..i], spotPrice, futurePrice, atm, expiry, solve) == Ok(vs)
    ensures IvValues(rows[..i + 1], spotPrice, futurePrice, atm, expiry, solve) ==
      match RowIv(rows[i], spotPrice, futurePrice, atm, expiry, solve)
      case Raised(e) => Raised(e)
      case Ok(c) => Ok(vs + [c])
  {
    assert rows[..i + 1][..i] == rows[..i];
  }

  /** A column that fails at row `i` fails as a whole, with that row's exception. */
  lemma {:induction false} IvValuesRaisedPrefix(rows: seq<Row>, i: nat, spotPrice: real, futurePrice: real,
                                                atm: Atm, expiry: Instant, solve: Solver)
    requires atm.Atm? && i <= |rows|
    requires IvValues(rows[..i], spotPrice, futurePrice, atm, expiry, solve).Raised?
    ensures IvValues(rows, spotPrice, futurePrice, atm, expiry, solve)
      == IvValues(rows[..i], spotPrice, futurePrice, atm, expiry, solve)
    decreases |rows| - i
  {
    if i < |rows| {
      assert rows[..i + 1][..i] == rows[..i];
      IvValuesRaisedPrefix(rows, i + 1, spotPrice, futurePrice, atm, expiry, solve);
    } else {
      assert rows[..i] == rows;
    }
  }

  /** The IV column: the ATM row's exception, all blanks when no strike is numeric, and
      otherwise the rows' entries. */
  function IvColumn(rows: seq<Row>, spotPrice: real, futurePrice: real, expiry: Instant,
                    solve: Solver): Result<seq<Cell>>
  {
    match AtmOf(rows, futurePrice)
    case Raised(e) => Raised(e)
    case Ok(atm) =>
      if atm.NoAtm? then Ok(seq(|rows|, _ => Blank))
      else IvValues(rows, spotPrice, futurePrice, atm, expiry, solve)
  }

  /** A computed column has one entry per row, each blank or a positive percentage, and
      blank on every row without a numeric strike. */
  lemma IvColumnShape(rows: seq<Row>, spotPrice: real, futurePrice: real, expiry: Instant,
                      solve: Solver)
    ensures var r := IvColumn(rows, spotPrice, futurePrice, expiry, solve);
      r.Ok? ==> |r.value| == |rows| && forall i :: 0 <= i < |rows| ==>
        (r.value[i] == Blank || (r.value[i].Num? && r.value[i].value > 0.0))
        && (!IsNumeric(rows[i]) ==> r.value[i] == Blank)
  {
    var a := AtmOf(rows, futurePrice);
    if a.Ok? && a.value.Atm? {
      IvValuesSpec(rows, spotPrice, futurePrice, a.value, expiry, solve);
      forall i | 0 <= i < |rows| {
        RowIvSpec(rows[i], spotPrice, futurePrice, a.value, expiry, solve);
      }
    }
  }

  /** The body of the row loop of `calculate_iv_for_dataframe`: the entry of one row, or
      the exception its premiums raise. */
  method RowIvOf(row: Row, spotPrice: real, futurePrice: real, atm: Atm, expiry: Instant,
                 solve: Solver) returns (r: Result<Cell>)
    requires atm.Atm?
    ensures r == RowIv(row, spotPrice, futurePrice, atm, expiry, solve)
  {
    if !row.strike.Num? {
      return Ok(Blank);
    }
    var strike := row.strike.value;
    var callPrice := Ltp(row.callLtp);
    if callPrice.Raised? {
      return Raised(callPrice.error);
    }
    var putPrice := Ltp(row.putLtp);
    if putPrice.Raised? {
      return Raised(putPrice.error);
    }
    if callPrice.value <= 0.0 && putPrice.value <= 0.0 {
      return Ok(Blank);
    }
    var request := PrepareRequest(spotPrice, futurePrice, atm, expiry, strike,
                                  callPrice.value, putPrice.value);
    var useCall := ShouldUseCallIv(strike, futurePrice, true);
    var iv := solve(request, useCall);
    if iv.Some? && iv.value * 100.0 > 0.0 {
      return Ok(Num(iv.value * 100.0));
    }
    return Ok(Blank);
  }

  /** `calculate_iv_for_dataframe`: one IV entry per row, or the exception that stops it. */
  method CalculateIv(rows: seq<Row>, spotPrice: real, futurePrice: real, expiry: Instant,
                     solve: Solver) returns (r: Result<seq<Cell>>)
    ensures r == IvColumn(rows, spotPrice, futurePrice, expiry, solve)
  {
    var found := FindAtmStrikeAndPrices(rows, futurePrice);
    if found.Raised? {
      return Raised(found.error);
    }
    var atm := found.value;
    if atm.NoAtm? {
      return Ok(seq(|rows|, _ => Blank));
    }
    var ivValues: seq<Cell> := [];
    var i := 0;
    while i < |rows|
      invariant 0 <= i <= |rows|
      invariant IvValues(rows[..i], spotPrice, futurePrice, atm, expiry, solve) == Ok(ivValues)
    {
      IvValuesStep(rows, i, spotPrice, futurePrice, atm, expiry, solve, ivValues);
      var entry := RowIvOf(rows[i], spotPrice, futurePrice, atm, expiry, solve);
      if entry.Raised? {
        IvValuesRaisedPrefix(rows, i + 1, spotPrice, futurePrice, atm, expiry, solve);
        return Raised(entry.error);
      }
      ivValues := ivValues + [entry.value];
      i := i + 1;
    }
    assert rows[..i] == rows;
    return Ok(ivValues);
  }
}
