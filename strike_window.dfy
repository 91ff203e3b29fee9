/** Choosing the strikes the options table shows: the multiples of 100 nearest the
    underlying's value, at most `strikeRange` on either side. */
module StrikeWindow {
  import opened Wrappers
  import opened Order
  import opened OptionData

  // ---------------------------------------------------------------- rounding

  /** Python's `round(x)`: the nearest integer, a half going to the even neighbour. */
  function RoundHalfEven(x: real): int {
    var f := x.Floor;
    var frac := x - f as real;
    if frac < 0.5 then f
    else if frac > 0.5 then f + 1
    else if f % 2 == 0 then f else f + 1
  }

  /** `n` is a nearest integer to `x`, and the even one when `x` lies halfway. */
  predicate IsNearestEven(x: real, n: int) {
    -0.5 <= n as real - x <= 0.5
    && ((n as real - x == 0.5 || x - n as real == 0.5) ==> n % 2 == 0)
  }

  lemma RoundHalfEvenIsNearest(x: real)
    ensures IsNearestEven(x, RoundHalfEven(x))
  {
    var f := x.Floor;
    assert f as real <= x < f as real + 1.0;
  }

  /** Only one integer is nearest with ties to even, so `RoundHalfEven` is Python's `round`. */
  lemma NearestEvenUnique(x: real, a: int, b: int)
    requires IsNearestEven(x, a) && IsNearestEven(x, b)
    ensures a == b
  {
  }

  /** `round_to_nearest_100`. */
  function RoundToNearest100(price: real): (r: int)
    ensures r % 100 == 0
  {
    RoundHalfEven(price / 100.0) * 100
  }

  /** The rounded strike is a multiple of 100 within 50 of the price, the even hundred at a tie. */
  lemma RoundToNearest100Spec(price: real)
    ensures IsRoundStrike(RoundToNearest100(price))
    ensures -50.0 <= RoundToNearest100(price) as real - price <= 50.0
    ensures (RoundToNearest100(price) as real - price == 50.0
             || price - RoundToNearest100(price) as real == 50.0) ==>
            (RoundToNearest100(price) / 100) % 2 == 0
  {
    var n := RoundHalfEven(price / 100.0);
    RoundHalfEvenIsNearest(price / 100.0);
    assert RoundToNearest100(price) as real - price == 100.0 * (n as real - price / 100.0);
  }

  // ---------------------------------------------------------------- the strike ladder

  /** How many entries of `items` have strike `k`. */
  function StrikeCount(items: seq<StrikeItem>, k: int): nat {
    if items == [] then 0
    else StrikeCount(items[..|items| - 1], k) + (if items[|items| - 1].strikePrice == k then 1 else 0)
  }

  /** `[item['strikePrice'] for item in records.data if strikePrice % 100 == 0]`. */
  function StrikesOf(items: seq<StrikeItem>): (r: seq<int>)
    ensures |r| <= |items|
    ensures forall k :: k in r <==> IsRoundStrike(k) && exists it :: it in items && it.strikePrice == k
    ensures forall k :: multiset(r)[k] == if IsRoundStrike(k) then StrikeCount(items, k) else 0
  {
    if items == [] then []
    else
      var it := items[|items| - 1];
      var init := items[..|items| - 1];
      assert items == init + [it];
      if IsRoundStrike(it.strikePrice) then StrikesOf(init) + [it.strikePrice] else StrikesOf(init)
  }

  /** `all_strikes`: the round strikes in ascending order. */
  function AllStrikes(items: seq<StrikeItem>): (r: seq<int>)
    ensures SortedBy(r, IntLe) && multiset(r) == multiset(StrikesOf(items))
  {
    IntLeIsTotalOrder();
    Sort(StrikesOf(items), IntLe)
  }

  /** `s.index(x)`: where `x` first occurs. */
  function IndexOf(s: seq<int>, x: int): (i: nat)
    requires x in s
    ensures i < |s| && s[i] == x && forall j :: 0 <= j < i ==> s[j] != x
  {
    if s[0] == x then 0 else 1 + IndexOf(s[1..], x)
  }

  function Abs(n: int): nat {
    if n < 0 then -n else n
  }

  /** `abs(all_strikes[i] - rounded_strike)` for every `i`. */
  function Distances(all: seq<int>, rounded: int): (d: seq<real>)
    ensures |d| == |all| && forall i :: 0 <= i < |all| ==> d[i] == Abs(all[i] - rounded) as real
  {
    if all == [] then [] else [Abs(all[0] - rounded) as real] + Distances(all[1..], rounded)
  }

  /** `target_index`: the rounded strike's position if it is listed, else the nearest strike's. */
  function TargetIndex(all: seq<int>, rounded: int): (t: nat)
    requires |all| > 0
    ensures t < |all|
  {
    if rounded in all then IndexOf(all, rounded) else FirstMin(Distances(all, rounded))
  }

  /** Either way the target is the first strike at the least distance from the rounded value,
      and it is the rounded value itself whenever that is listed. */
  lemma TargetIsFirstNearest(all: seq<int>, rounded: int)
    requires |all| > 0
    ensures IsFirstMin(Distances(all, rounded), TargetIndex(all, rounded))
    ensures rounded in all ==> all[TargetIndex(all, rounded)] == rounded
  {
    var d := Distances(all, rounded);
    if rounded in all {
      var t := IndexOf(all, rounded);
      assert d[t] == 0.0;
      forall j | 0 <= j < t ensures d[j] > d[t] {
        assert all[j] != rounded;
      }
    }
  }

  // ---------------------------------------------------------------- the window

  /** What `get_filtered_strike_prices` returns: the strikes shown, the underlying's value,
      the rounded strike and the target's offset within the strikes shown. */
  datatype Window = Window(strikes: seq<int>, underlyingValue: real, roundedStrike: int, offset: int)

  function Max(a: int, b: int): int { if a < b then b else a }
  function Min(a: int, b: int): int { if a < b then a else b }

  /** `get_filtered_strike_prices(data, strike_range)`; `min` of an empty ladder raises
      `ValueError`. */
  function GetFilteredStrikePrices(snap: Snapshot, strikeRange: nat): Result<Window> {
    var rounded := RoundToNearest100(snap.underlyingValue);
    var all := AllStrikes(snap.items);
    if |all| == 0 then Raised(ValueError)
    else
      Ok(WindowAt(all, TargetIndex(all, rounded), strikeRange, snap.underlyingValue, rounded))
  }

  /** The slice `all[max(0, t - r):min(len(all), t + r + 1)]` around position `t`. */
  function WindowAt(all: seq<int>, t: nat, r: nat, underlyingValue: real, rounded: int): Window
    requires t < |all|
  {
    var start := Max(0, t - r);
    var end := Min(|all|, t + r + 1);
    Window(all[start..end], underlyingValue, rounded, t - start)
  }

  /** The window fails exactly when no strike is a multiple of 100. */
  lemma WindowFailsIff(snap: Snapshot, strikeRange: nat)
    ensures GetFilteredStrikePrices(snap, strikeRange).Raised? <==>
      forall it :: it in snap.items ==> !IsRoundStrike(it.strikePrice)
  {
    var all := AllStrikes(snap.items);
    var strikes := StrikesOf(snap.items);
    if |all| == 0 {
      assert strikes == [];
      forall it | it in snap.items ensures !IsRoundStrike(it.strikePrice) {
        assert it.strikePrice !in strikes;
      }
    } else {
      assert all[0] in multiset(strikes);
      assert all[0] in strikes;
    }
  }

  /** The window `w` is the slice of `all` around index `t`, at most `r` strikes on either side. */
  predicate FitsAround(w: Window, all: seq<int>, t: int, r: nat)
  {
    && 0 <= w.offset < |w.strikes| <= 2 * r + 1
    && w.offset <= t && t - w.offset + |w.strikes| <= |all|
    && w.strikes <= all[t - w.offset..]
    && w.strikes[w.offset] == all[t]
    && w.offset == Min(t, r)
    && |w.strikes| - 1 - w.offset == Min(r, |all| - 1 - t)
  }

  /** The window is a run of consecutive strikes of the ascending ladder around the target:
      `strikeRange` strikes on either side unless the ladder ends first, the target at the
      offset returned. */
  lemma WindowShape(snap: Snapshot, strikeRange: nat)
    requires GetFilteredStrikePrices(snap, strikeRange).Ok?
    ensures var w := GetFilteredStrikePrices(snap, strikeRange).value;
      && w.roundedStrike == RoundToNearest100(snap.underlyingValue)
      && w.underlyingValue == snap.underlyingValue
      && FitsAround(w, AllStrikes(snap.items), TargetIndex(AllStrikes(snap.items), w.roundedStrike), strikeRange)
  {
    var all := AllStrikes(snap.items);
    var rounded := RoundToNearest100(snap.underlyingValue);
    var t := TargetIndex(all, rounded);
    var w := GetFilteredStrikePrices(snap, strikeRange).value;
    assert w == WindowAt(all, t, strikeRange, snap.underlyingValue, rounded);
    WindowAtShape(all, t, strikeRange, snap.underlyingValue, rounded);
  }

  lemma WindowAtShape(all: seq<int>, t: nat, r: nat, u: real, rounded: int)
    requires t < |all|
    ensures var w := WindowAt(all, t, r, u, rounded);
      && w.roundedStrike == rounded && w.underlyingValue == u
      && FitsAround(w, all, t, r)
  {
  }
}
