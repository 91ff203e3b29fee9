/** The FII/DII cash table: for each trading date of the daily flows document, in
    ascending order of the date text, the buy-sell difference of foreign and of domestic
    institutions, when the date has both. */
module CashTable {
  import opened Wrappers
  import opened Cells
  import opened Text

  // ---------------------------------------------------------------- sorted keys

  /** `x` comes first, in string order, among the members of `s`. */
  predicate IsLeast(x: string, s: set<string>) {
    forall y :: y in s ==> StrLe(x, y)
  }

  lemma StrLeReflexive(a: string)
    ensures StrLe(a, a)
  {
    StrLeTotal(a, a);
  }

  /** A finite set of strings has a first member. */
  lemma LeastExists(s: set<string>)
    requires s != {}
    ensures exists x :: x in s && IsLeast(x, s)
    decreases s
  {
    var a :| a in s;
    StrLeReflexive(a);
    if s != {a} {
      LeastExists(s - {a});
      var m :| m in s - {a} && IsLeast(m, s - {a});
      StrLeTotal(a, m);
      if StrLe(a, m) {
        forall y | y in s ensures StrLe(a, y) {
          if y != a {
            StrLeTransitive(a, m, y);
          }
        }
      } else {
        assert IsLeast(m, s);
      }
    } else {
      assert IsLeast(a, s);
    }
  }

  /** ... and only one, since string order is antisymmetric. */
  lemma LeastUnique(s: set<string>)
    ensures forall a, b :: a in s && IsLeast(a, s) && b in s && IsLeast(b, s) ==> a == b
  {
    forall a, b | a in s && IsLeast(a, s) && b in s && IsLeast(b, s) ensures a == b {
      StrLeAntisymmetric(a, b);
    }
  }

  /** `sorted(keys)`: the members of a set of strings in ascending order. */
  function SortedKeys(s: set<string>): (ks: seq<string>)
    ensures forall i :: 0 <= i < |ks| ==> ks[i] in s
    decreases |s|
  {
    if s == {} then []
    else
      LeastExists(s);
      LeastUnique(s);
      var k :| k in s && IsLeast(k, s);
      [k] + SortedKeys(s - {k})
  }

  predicate StrictlyAscending(ks: seq<string>) {
    forall i, j :: 0 <= i < j < |ks| ==> StrLe(ks[i], ks[j]) && ks[i] != ks[j]
  }

  /** The sorted keys are every member once, in strictly ascending order. */
  lemma {:induction false} SortedKeysSpec(s: set<string>)
    ensures |SortedKeys(s)| == |s|
    ensures forall x :: x in SortedKeys(s) <==> x in s
    ensures StrictlyAscending(SortedKeys(s))
    decreases |s|
  {
    if s != {} {
      var ks := SortedKeys(s);
      var k := ks[0];
      var rest := s - {k};
      assert ks == [k] + SortedKeys(rest);
      assert k in s && IsLeast(k, s);
      SortedKeysSpec(rest);
      forall i, j | 0 <= i < j < |ks| ensures StrLe(ks[i], ks[j]) && ks[i] != ks[j] {
        if i == 0 {
          assert ks[j] in SortedKeys(rest);
        }
      }
      forall x ensures x in ks <==> x in s {
        if x != k {
          assert x in ks <==> x in SortedKeys(rest);
        }
      }
    }
  }

  // ---------------------------------------------------------------- the document

  /** One date's entry: its `cash` object, if it has one, from each institution's name to
      its figures. */
  datatype Daily = Daily(cash: Option<map<string, Object>>)

  const BuySellDifference: string := "buy_sell_difference"

  /** The header row. */
  const Header: seq<Cell> := [Text("Date"), Text("FII buy_sell_difference"), Text("DII buy_sell_difference")]

  /** The date's entry has `cash` holding both `fii` and `dii`. */
  predicate HasFlows(d: Daily) {
    d.cash.Some? && "fii" in d.cash.value && "dii" in d.cash.value
  }

  /** The row of a date with both flows, or the `KeyError` of a missing difference. */
  function DayRow(date: string, d: Daily): Result<seq<Cell>>
    requires HasFlows(d)
  {
    var fii := d.cash.value["fii"];
    var dii := d.cash.value["dii"];
    if BuySellDifference !in fii || BuySellDifference !in dii then Raised(KeyError)
    else Ok([Text(date), fii[BuySellDifference], dii[BuySellDifference]])
  }

  /** What ends up in the file: the rows written, and the exception that stopped the
      script if one did. */
  datatype Written = Written(rows: seq<seq<Cell>>, error: Option<Exception>)

  /** The rows the loop writes for `dates`, stopping at the first exception. */
  function Emit(dates: seq<string>, days: map<string, Daily>): (w: Written)
    requires forall i :: 0 <= i < |dates| ==> dates[i] in days
    ensures |w.rows| <= |dates|
    ensures w.error.Some? ==> w.error.value == KeyError
    ensures forall i :: 0 <= i < |w.rows| ==> |w.rows[i]| == 3 && w.rows[i][0].Text? && w.rows[i][0].text in dates
  {
    if dates == [] then Written([], None)
    else
      var w := Emit(dates[..|dates| - 1], days);
      var date := dates[|dates| - 1];
      if w.error.Some? || !HasFlows(days[date]) then w
      else
        match DayRow(date, days[date])
        case Raised(e) => Written(w.rows, Some(e))
        case Ok(r) => Written(w.rows + [r], None)
  }

  /** The file the script writes for the `data` object `days`. */
  function CashFile(days: map<string, Daily>): (w: Written)
    ensures w.rows != [] && w.rows[0] == Header
  {
    var w := Emit(SortedKeys(days.Keys), days);
    Written([Header] + w.rows, w.error)
  }

  // ---------------------------------------------------------------- the writer

  /** `csv.writer` over a freshly truncated file: the rows written so far. */
  class CsvWriter {
    var rows: seq<seq<Cell>>

    constructor ()
      ensures rows == []
    {
      rows := [];
    }

    /** `writerow`. */
    method WriteRow(row: seq<Cell>)
      modifies this
      ensures rows == old(rows) + [row]
    {
      rows := rows + [row];
    }
  }

  /** Once the loop has raised, later dates write nothing more. */
  lemma {:induction false} EmitStopped(dates: seq<string>, n: nat, days: map<string, Daily>)
    requires n <= |dates|
    requires forall i :: 0 <= i < |dates| ==> dates[i] in days
    requires Emit(dates[..n], days).error.Some?
    ensures Emit(dates, days) == Emit(dates[..n], days)
    decreases |dates| - n
  {
    if n < |dates| {
      assert dates[..n + 1][..n] == dates[..n];
      EmitStopped(dates, n + 1, days);
    } else {
      assert dates[..n] == dates;
    }
  }

  /** One more date: the loop body's effect on what is written. */
  lemma EmitStep(dates: seq<string>, i: nat, days: map<string, Daily>)
    requires i < |dates|
    requires forall i :: 0 <= i < |dates| ==> dates[i] in days
    ensures var w := Emit(dates[..i], days);
      var d := days[dates[i]];
      Emit(dates[..i + 1], days) ==
        if w.error.Some? || !HasFlows(d) then w
        else if DayRow(dates[i], d).Raised? then Written(w.rows, Some(DayRow(dates[i], d).error))
        else Written(w.rows + [DayRow(dates[i], d).value], None)
  {
    assert dates[..i + 1][..i] == dates[..i];
  }

  /** The script: the header, then a row for each date with both flows in sorted order. */
  method WriteCashCsv(days: map<string, Daily>) returns (writer: CsvWriter, error: Option<Exception>)
    ensures fresh(writer)
    ensures writer.rows == CashFile(days).rows && error == CashFile(days).error
  {
    writer := new CsvWriter();
    writer.WriteRow(Header);
    var dates := SortedKeys(days.Keys);
    error := None;
    for i := 0 to |dates|
      invariant writer.rows == [Header] + Emit(dates[..i], days).rows
      invariant Emit(dates[..i], days).error == None
    {
      EmitStep(dates, i, days);
      var dailyData := days[dates[i]];
      if dailyData.cash.Some? && "fii" in dailyData.cash.value && "dii" in dailyData.cash.value {
        var fii := dailyData.cash.value["fii"];
        var dii := dailyData.cash.value["dii"];
        if BuySellDifference !in fii || BuySellDifference !in dii {
          EmitStopped(dates, i + 1, days);
          return writer, Some(KeyError);
        }
        writer.WriteRow([Text(dates[i]), fii[BuySellDifference], dii[BuySellDifference]]);
      }
    }
    assert dates[..|dates|] == dates;
  }

  // ---------------------------------------------------------------- properties

  /** The dates with both flows, in the order given. */
  function Selected(dates: seq<string>, days: map<string, Daily>): (sel: seq<string>)
    requires forall i :: 0 <= i < |dates| ==> dates[i] in days
    ensures forall i :: 0 <= i < |sel| ==> sel[i] in days && HasFlows(days[sel[i]])
  {
    if dates == [] then []
    else
      var date := dates[|dates| - 1];
      Selected(dates[..|dates| - 1], days) + (if HasFlows(days[date]) then [date] else [])
  }

  /** The selected dates are exactly the given ones with both flows, no more of them, and
      keep a strictly ascending order. */
  lemma {:induction false} SelectedSpec(dates: seq<string>, days: map<string, Daily>)
    requires forall i :: 0 <= i < |dates| ==> dates[i] in days
    ensures |Selected(dates, days)| <= |dates|
    ensures forall x :: x in Selected(dates, days) <==> x in dates && HasFlows(days[x])
    ensures StrictlyAscending(dates) ==> StrictlyAscending(Selected(dates, days))
  {
    SelectedMembers(dates, days);
    if StrictlyAscending(dates) {
      SelectedAscending(dates, days);
    }
  }

  lemma {:induction false} SelectedMembers(dates: seq<string>, days: map<string, Daily>)
    requires forall i :: 0 <= i < |dates| ==> dates[i] in days
    ensures |Selected(dates, days)| <= |dates|
    ensures forall x :: x in Selected(dates, days) <==> x in dates && HasFlows(days[x])
  {
    if dates != [] {
      var init := dates[..|dates| - 1];
      SelectedMembers(init, days);
      assert dates == init + [dates[|dates| - 1]];
    }
  }

  lemma {:induction false} SelectedAscending(dates: seq<string>, days: map<string, Daily>)
    requires forall i :: 0 <= i < |dates| ==> dates[i] in days
    requires StrictlyAscending(dates)
    ensures StrictlyAscending(Selected(dates, days))
  {
    if dates != [] {
      var init := dates[..|dates| - 1];
      var date := dates[|dates| - 1];
      assert StrictlyAscending(init);
      SelectedAscending(init, days);
      if HasFlows(days[date]) {
        var prev := Selected(init, days);
        SelectedMembers(init, days);
        forall i | 0 <= i < |prev| ensures StrLe(prev[i], date) && prev[i] != date {
          assert prev[i] in init;
          var k :| 0 <= k < |init| && init[k] == prev[i];
          assert dates[k] == prev[i];
        }
      }
    }
  }

  /** `rows` holds, for each date of `sel` in turn, the date and its two differences. */
  predicate RowsFor(rows: seq<seq<Cell>>, sel: seq<string>, days: map<string, Daily>)
    requires forall i :: 0 <= i < |sel| ==> sel[i] in days && HasFlows(days[sel[i]])
  {
    && |rows| == |sel|
    && forall j :: 0 <= j < |sel| ==>
      assert sel[j] in days && HasFlows(days[sel[j]]);
      var d := days[sel[j]];
      && BuySellDifference in d.cash.value["fii"] && BuySellDifference in d.cash.value["dii"]
      && rows[j] == [Text(sel[j]), d.cash.value["fii"][BuySellDifference],
                     d.cash.value["dii"][BuySellDifference]]
  }

  /** Without an exception the loop writes one row per selected date, in order, each
      the date and the two differences. */
  lemma {:induction false} EmitRows(dates: seq<string>, days: map<string, Daily>)
    requires forall i :: 0 <= i < |dates| ==> dates[i] in days
    requires Emit(dates, days).error.None?
    ensures RowsFor(Emit(dates, days).rows, Selected(dates, days), days)
  {
    if dates != [] {
      var init := dates[..|dates| - 1];
      assert Emit(init, days).error.None?;
      EmitRows(init, days);
    }
  }

  /** The loop raises `KeyError` exactly when some date with both flows lacks a
      difference, and raises nothing else. */
  lemma {:induction false} EmitRaisesIff(dates: seq<string>, days: map<string, Daily>)
    requires forall i :: 0 <= i < |dates| ==> dates[i] in days
    ensures Emit(dates, days).error.Some? <==>
      exists i :: 0 <= i < |dates| && HasFlows(days[dates[i]]) && DayRow(dates[i], days[dates[i]]).Raised?
    ensures Emit(dates, days).error.Some? ==> Emit(dates, days).error == Some(KeyError)
  {
    if dates != [] {
      var init := dates[..|dates| - 1];
      EmitRaisesIff(init, days);
      if Emit(init, days).error.Some? {
        var i :| 0 <= i < |init| && HasFlows(days[init[i]]) && DayRow(init[i], days[init[i]]).Raised?;
        assert dates[i] == init[i];
      } else {
        forall i | 0 <= i < |dates| - 1
          ensures !(HasFlows(days[dates[i]]) && DayRow(dates[i], days[dates[i]]).Raised?)
        {
          assert dates[i] == init[i];
        }
      }
    }
  }

  /** The file starts with the header, and the script stops with `KeyError` exactly when
      a date with both flows lacks a difference. */
  lemma CashFileRaises(days: map<string, Daily>)
    ensures |CashFile(days).rows| >= 1 && CashFile(days).rows[0] == Header
    ensures CashFile(days).error.Some? <==>
      exists date :: date in days && HasFlows(days[date]) && DayRow(date, days[date]).Raised?
    ensures CashFile(days).error.Some? ==> CashFile(days).error == Some(KeyError)
  {
    var dates := SortedKeys(days.Keys);
    SortedKeysSpec(days.Keys);
    EmitRaisesIff(dates, days);
    if CashFile(days).error.Some? {
      var i :| 0 <= i < |dates| && HasFlows(days[dates[i]]) && DayRow(dates[i], days[dates[i]]).Raised?;
    } else {
      forall date | date in days && HasFlows(days[date]) ensures DayRow(date, days[date]).Ok? {
        assert date in dates;
      }
    }
  }

  /** Unless the script stopped, after the header come the rows of exactly the dates with
      both flows, one each, in strictly ascending date order, each the date and the two
      differences; never more rows than dates. */
  lemma CashFileRows(days: map<string, Daily>)
    requires CashFile(days).error.None?
    ensures var sel := Selected(SortedKeys(days.Keys), days);
      && |sel| <= |days|
      && StrictlyAscending(sel)
      && (forall x :: x in sel <==> x in days && HasFlows(days[x]))
      && |CashFile(days).rows| >= 1
      && RowsFor(CashFile(days).rows[1..], sel, days)
  {
    var dates := SortedKeys(days.Keys);
    SortedKeysSpec(days.Keys);
    EmitRows(dates, days);
    SelectedSpec(dates, days);
    assert |dates| == |days.Keys| == |days|;
    assert CashFile(days).rows[1..] == Emit(dates, days).rows;
  }
}
