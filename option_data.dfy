/** The option-chain document the exchange returns and the rows the script builds from it. */
module OptionData {
  import opened Wrappers
  import opened Cells

  /** One entry of `records.data`: a strike and its call (`CE`) and put (`PE`) quotes;
      a side the document leaves out is the empty object. */
  datatype StrikeItem = StrikeItem(strikePrice: int, ce: Object, pe: Object)

  /** `records`: the underlying's value and the strike entries. */
  datatype Snapshot = Snapshot(underlyingValue: real, items: seq<StrikeItem>)

  /** A row of the options table before the IV column is added, column by column. */
  datatype Row = Row(
    callOi: Cell, callOiChange: Cell, callVolume: Cell, callChange: Cell, callLtp: Cell,
    strike: Cell,
    putLtp: Cell, putChange: Cell, putVolume: Cell, putOiChange: Cell, putOi: Cell)

  /** A row of the saved table: the row's columns with `IV` after `STRIKE`. */
  datatype TableRow = TableRow(row: Row, iv: Cell)

  /** The strikes the script keeps: multiples of 100. */
  predicate IsRoundStrike(strike: int) {
    strike % 100 == 0
  }

  /** The row that marks where the underlying's value falls among the strikes: the
      value as text in `STRIKE`, the expiry in `PUT LTP`, everything else blank. */
  function MarkerRow(underlyingValue: real, expiryText: string): (r: Row)
    ensures r.strike.NumberText? && !r.strike.Num?
  {
    Row(Blank, Blank, Blank, Blank, Blank, NumberText(underlyingValue),
        Text("Expiry: " + expiryText), Blank, Blank, Blank, Blank)
  }

  /** The row of a strike: each quote field read from its side's object, 0 when absent. */
  function StrikeRow(item: StrikeItem): Row {
    var ce, pe := item.ce, item.pe;
    Row(Get(ce, "openInterest", Num(0.0)), Get(ce, "changeinOpenInterest", Num(0.0)),
        Get(ce, "totalTradedVolume", Num(0.0)), Get(ce, "change", Num(0.0)),
        Get(ce, "lastPrice", Num(0.0)),
        Num(item.strikePrice as real),
        Get(pe, "lastPrice", Num(0.0)), Get(pe, "change", Num(0.0)),
        Get(pe, "totalTradedVolume", Num(0.0)), Get(pe, "changeinOpenInterest", Num(0.0)),
        Get(pe, "openInterest", Num(0.0)))
  }

  /** `column` holds the value of `key` in the side's object, or 0 when the object lacks it. */
  predicate ReadsQuote(side: Object, key: string, column: Cell) {
    (key in side ==> column == side[key]) && (key !in side ==> column == Num(0.0))
  }

  /** A strike row shows its strike as a number, and each of its ten quote columns the
      matching field of its side's object, or 0 when the object lacks that field. */
  lemma StrikeRowFields(item: StrikeItem)
    ensures var r := StrikeRow(item);
      && r.strike == Num(item.strikePrice as real)
      && ReadsQuote(item.ce, "openInterest", r.callOi)
      && ReadsQuote(item.ce, "changeinOpenInterest", r.callOiChange)
      && ReadsQuote(item.ce, "totalTradedVolume", r.callVolume)
      && ReadsQuote(item.ce, "change", r.callChange)
      && ReadsQuote(item.ce, "lastPrice", r.callLtp)
      && ReadsQuote(item.pe, "lastPrice", r.putLtp)
      && ReadsQuote(item.pe, "change", r.putChange)
      && ReadsQuote(item.pe, "totalTradedVolume", r.putVolume)
      && ReadsQuote(item.pe, "changeinOpenInterest", r.putOiChange)
      && ReadsQuote(item.pe, "openInterest", r.putOi)
    ensures item.ce == map[] ==>
      (StrikeRow(item).callOi == StrikeRow(item).callOiChange == StrikeRow(item).callVolume
       == StrikeRow(item).callChange == StrikeRow(item).callLtp == Num(0.0))
    ensures item.pe == map[] ==>
      (StrikeRow(item).putOi == StrikeRow(item).putOiChange == StrikeRow(item).putVolume
       == StrikeRow(item).putChange == StrikeRow(item).putLtp == Num(0.0))
  {
  }

  /** The last row of the table: `Update Time` and the time it was built, all else blank. */
  function TimestampRow(currentTime: string): (r: TableRow)
    ensures r.row.putOiChange == Text("Update Time") && r.row.putOi == Text(currentTime)
    ensures r.iv == Blank && r.row.strike == Blank
  {
    TableRow(Row(Blank, Blank, Blank, Blank, Blank, Blank,
                 Blank, Blank, Blank, Text("Update Time"), Text(currentTime)), Blank)
  }

  // ---------------------------------------------------------------- strike map

  /** The last item of `items` with strike `k`, if any. */
  function LastWithStrike(items: seq<StrikeItem>, k: int): (r: Option<StrikeItem>)
    ensures r.Some? ==> r.value.strikePrice == k
    ensures r.Some? ==>
      exists i :: 0 <= i < |items| && items[i] == r.value
        && forall j :: i < j < |items| ==> items[j].strikePrice != k
    ensures r.None? ==> forall i :: 0 <= i < |items| ==> items[i].strikePrice != k
  {
    if items == [] then None
    else if items[|items| - 1].strikePrice == k then Some(items[|items| - 1])
    else LastWithStrike(items[..|items| - 1], k)
  }

  /** `{item['strikePrice']: item for item in records.data if strikePrice % 100 == 0}`. */
  function StrikeMap(items: seq<StrikeItem>): (m: map<int, StrikeItem>)
    ensures forall k :: k in m <==> IsRoundStrike(k) && LastWithStrike(items, k).Some?
    ensures forall k :: k in m ==> m[k] == LastWithStrike(items, k).value
  {
    if items == [] then map[]
    else
      var last := items[|items| - 1];
      var m := StrikeMap(items[..|items| - 1]);
      if IsRoundStrike(last.strikePrice) then m[last.strikePrice := last] else m
  }
}
