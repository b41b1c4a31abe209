/** The drawdown computations of the accessor: the running maximum of the
    prices, the drawdown from it, and the largest drawdown. */
module Drawdowns {
  import opened Wrappers
  import opened Series
  import opened Returns

  /** The larger of two reals. */
  function Max(a: real, b: real): real {
    if a >= b then a else b
  }

  /** The highest price among entries 0..i: an upper bound of that prefix
      that the prefix attains. */
  function Peak(s: Prices, i: nat): (m: real)
    requires i < |s|
    ensures forall j :: 0 <= j <= i ==> s[j].value <= m
    ensures exists j :: 0 <= j <= i && s[j].value == m
    decreases i
  {
    if i == 0 then s[0].value else Max(Peak(s, i - 1), s[i].value)
  }

  /** The peak never falls as the prefix grows. */
  lemma {:induction false} PeakMonotone(s: Prices, i: nat, j: nat)
    requires i <= j < |s|
    ensures Peak(s, i) <= Peak(s, j)
    decreases j - i
  {
    if i < j {
      PeakMonotone(s, i, j - 1);
    }
  }

  /** `cummax()`: entry i is the highest price so far. */
  function RunningMax(s: Prices): (r: Prices)
    ensures |r| == |s|
    ensures forall i {:trigger r[i]} :: 0 <= i < |s| ==> r[i].date == s[i].date
    ensures forall i, j :: 0 <= j <= i < |s| ==> s[j].value <= r[i].value
    ensures forall i, j :: 0 <= i <= j < |s| ==> r[i].value <= r[j].value
  {
    var r := seq(|s|, i requires 0 <= i < |s| => Point(s[i].date, Peak(s, i)));
    assert forall i :: 0 <= i < |s| ==> r[i].value == Peak(s, i);
    assert forall i, j :: 0 <= i <= j < |s| ==> r[i].value <= r[j].value by {
      forall i, j | 0 <= i <= j < |s|
        ensures r[i].value <= r[j].value
      {
        PeakMonotone(s, i, j);
      }
    }
    r
  }

  /** Every entry of the running maximum is a price at or before it. */
  lemma RunningMaxAttained(s: Prices, i: nat)
    requires i < |s|
    ensures exists j :: 0 <= j <= i && RunningMax(s)[i].value == s[j].value
  {
    assert RunningMax(s)[i].value == Peak(s, i);
    var j :| 0 <= j <= i && s[j].value == Peak(s, i);
    assert RunningMax(s)[i].value == s[j].value;
  }

  /** The fall of `price` below `peak`, as a fraction of `peak`. */
  function Decline(peak: real, price: real): (d: real)
    requires 0.0 < price <= peak
    ensures 0.0 <= d < 1.0
    ensures d == 0.0 <==> price == peak
  {
    var d := (peak - price) / peak;
    assert d * peak == peak - price;
    assert d >= 1.0 ==> d * peak >= peak;
    d
  }

  /** Shrinking the peak by its decline gives back the price. */
  lemma DeclineRecoversPrice(peak: real, price: real)
    requires 0.0 < price <= peak
    ensures Grow(peak, -Decline(peak, price)) == price
  {
    assert (peak - price) / peak * peak == peak - price;
  }

  /** `drawdown(negative)`: running maximum minus price, over running
      maximum; times -1 when `negative`. */
  function Drawdown(s: Prices, negative: bool := false): (r: Values)
    requires Stored(s)
    ensures |r| == |s|
    ensures forall i {:trigger r[i]} :: 0 <= i < |s| ==> r[i].date == s[i].date
    ensures !negative ==> forall i :: 0 <= i < |s| ==> 0.0 <= r[i].value < 1.0
    ensures negative ==> forall i :: 0 <= i < |s| ==> -1.0 < r[i].value <= 0.0
  {
    var m := RunningMax(s);
    seq(|s|, i requires 0 <= i < |s| =>
      Point(s[i].date, if negative then -Decline(m[i].value, s[i].value) else Decline(m[i].value, s[i].value)))
  }

  /** Entry i of the drawdown is the decline from the running maximum. */
  lemma DrawdownAt(s: Prices, i: nat)
    requires Stored(s) && i < |s|
    ensures RunningMax(s)[i].date == s[i].date && 0.0 < s[i].value <= RunningMax(s)[i].value
    ensures Drawdown(s, false)[i] == Point(s[i].date, Decline(RunningMax(s)[i].value, s[i].value))
  {
  }

  /** The drawdown is zero exactly at a new high: a price no lower than
      every earlier one. */
  lemma DrawdownZeroAtNewHigh(s: Prices, negative: bool, i: nat)
    requires Stored(s) && i < |s|
    ensures Drawdown(s, negative)[i].value == 0.0 <==> forall j :: 0 <= j <= i ==> s[j].value <= s[i].value
  {
    var m := RunningMax(s);
    RunningMaxAttained(s, i);
    assert Drawdown(s, negative)[i].value == 0.0 <==> Decline(m[i].value, s[i].value) == 0.0;
  }

  /** Shrinking the running maximum by the drawdown gives back the price. */
  lemma DrawdownRecoversPrice(s: Prices, i: nat)
    requires Stored(s) && i < |s|
    ensures Grow(RunningMax(s)[i].value, -Drawdown(s, false)[i].value) == s[i].value
  {
    var m := RunningMax(s);
    DeclineRecoversPrice(m[i].value, s[i].value);
    assert Grow(m[i].value, -Decline(m[i].value, s[i].value)) == s[i].value;
    assert Drawdown(s, false)[i].value == Decline(m[i].value, s[i].value);
    assert -Drawdown(s, false)[i].value == -Decline(m[i].value, s[i].value);
  }

  /** `drawdown(negative=True)` is `drawdown()` negated entry by entry. */
  lemma DrawdownNegation(s: Prices)
    requires Stored(s)
    ensures var d, n := Drawdown(s, false), Drawdown(s, true);
      |n| == |d| && forall i {:trigger n[i]} :: 0 <= i < |d| ==> n[i] == Point(d[i].date, -d[i].value)
  {
    var d, n := Drawdown(s, false), Drawdown(s, true);
    var m := RunningMax(s);
    forall i {:trigger n[i]} | 0 <= i < |d|
      ensures n[i] == Point(d[i].date, -d[i].value)
    {
      assert n[i].value == -Decline(m[i].value, s[i].value);
      assert d[i].value == Decline(m[i].value, s[i].value);
    }
  }

  /** The largest value of a series; none for an empty one. */
  function MaxValue(xs: Values): (m: Option<real>)
    ensures m.None? <==> |xs| == 0
    ensures m.Some? ==> forall i :: 0 <= i < |xs| ==> xs[i].value <= m.value
    ensures m.Some? ==> exists i :: 0 <= i < |xs| && xs[i].value == m.value
    decreases |xs|
  {
    if |xs| == 0 then None
    else
      var rest := MaxValue(xs[1..]);
      assert forall i :: 1 <= i < |xs| ==> xs[i] == xs[1..][i - 1];
      if rest.None? || xs[0].value >= rest.value then Some(xs[0].value) else rest
  }

  /** The smallest value of a series; none for an empty one. */
  function MinValue(xs: Values): (m: Option<real>)
    ensures m.None? <==> |xs| == 0
    ensures m.Some? ==> forall i :: 0 <= i < |xs| ==> m.value <= xs[i].value
    ensures m.Some? ==> exists i :: 0 <= i < |xs| && xs[i].value == m.value
    decreases |xs|
  {
    if |xs| == 0 then None
    else
      var rest := MinValue(xs[1..]);
      assert forall i :: 1 <= i < |xs| ==> xs[i] == xs[1..][i - 1];
      if rest.None? || xs[0].value <= rest.value then Some(xs[0].value) else rest
  }

  /** The smallest value of a negated series is the negated largest value. */
  lemma {:induction false} MinOfNegated(xs: Values, ys: Values)
    requires |ys| == |xs| && forall i :: 0 <= i < |xs| ==> ys[i].value == -xs[i].value
    ensures MinValue(ys).Some? && MaxValue(xs).Some? ==> MinValue(ys).value == -MaxValue(xs).value
    ensures MinValue(ys).None? <==> MaxValue(xs).None?
    decreases |xs|
  {
    if |xs| > 0 {
      MinOfNegated(xs[1..], ys[1..]);
    }
  }

  /** `max_drawdown(negative)`: the largest drawdown, or the smallest
      negative drawdown when `negative`; none for an empty series (pandas
      returns NaN). */
  function MaxDrawdown(s: Prices, negative: bool := false): (r: Option<real>)
    requires Stored(s)
    ensures r.None? <==> |s| == 0
    ensures r.Some? && !negative ==> 0.0 <= r.value < 1.0
    ensures r.Some? && negative ==> -1.0 < r.value <= 0.0
    ensures r.Some? && !negative ==>
              (forall i :: 0 <= i < |s| ==> Drawdown(s, false)[i].value <= r.value) &&
              (exists i :: 0 <= i < |s| && Drawdown(s, false)[i].value == r.value)
    ensures r.Some? && negative ==>
              (forall i :: 0 <= i < |s| ==> r.value <= Drawdown(s, true)[i].value) &&
              (exists i :: 0 <= i < |s| && Drawdown(s, true)[i].value == r.value)
  {
    if negative then MinValue(Drawdown(s, true)) else MaxValue(Drawdown(s, false))
  }

  /** `max_drawdown(negative=True)` is `-max_drawdown()`. */
  lemma MaxDrawdownNegation(s: Prices)
    requires Stored(s)
    ensures MaxDrawdown(s, true).None? <==> MaxDrawdown(s, false).None?
    ensures MaxDrawdown(s, false).Some? ==> MaxDrawdown(s, true).value == -MaxDrawdown(s, false).value
  {
    DrawdownNegation(s);
    MinOfNegated(Drawdown(s, false), Drawdown(s, true));
  }

  /** A higher peak means a deeper decline to the same price. */
  lemma DeclineGrowsWithPeak(low: real, high: real, price: real)
    requires 0.0 < price <= low <= high
    ensures Decline(low, price) <= Decline(high, price)
  {
    assert (low - price) / low * low == low - price;
    assert (high - price) / high * high == high - price;
    assert price / high * high == price;
    assert price / low * low == price;
    assert price / high * low <= price;
  }

  /** The drawdown at i is the deepest decline to price i from any price at
      or before it. */
  lemma DrawdownIsDeepestDecline(s: Prices, i: nat)
    requires Stored(s) && i < |s|
    ensures forall j :: 0 <= j <= i && s[i].value <= s[j].value ==>
              Decline(s[j].value, s[i].value) <= Drawdown(s, false)[i].value
    ensures exists j :: 0 <= j <= i && s[i].value <= s[j].value &&
              Decline(s[j].value, s[i].value) == Drawdown(s, false)[i].value
  {
    var m := RunningMax(s);
    forall j | 0 <= j <= i && s[i].value <= s[j].value
      ensures Decline(s[j].value, s[i].value) <= Drawdown(s, false)[i].value
    {
      DeclineGrowsWithPeak(s[j].value, m[i].value, s[i].value);
    }
    RunningMaxAttained(s, i);
    var k :| 0 <= k <= i && m[i].value == s[k].value;
    assert Decline(s[k].value, s[i].value) == Drawdown(s, false)[i].value;
  }

  /** `max_drawdown()` is the deepest decline from any price to any later
      (or the same) price. */
  lemma MaxDrawdownIsDeepestDecline(s: Prices)
    requires Stored(s) && |s| > 0
    ensures forall i, j :: 0 <= j <= i < |s| && s[i].value <= s[j].value ==>
              Decline(s[j].value, s[i].value) <= MaxDrawdown(s, false).value
    ensures exists i, j :: 0 <= j <= i < |s| && s[i].value <= s[j].value &&
              Decline(s[j].value, s[i].value) == MaxDrawdown(s, false).value
  {
    var d := Drawdown(s, false);
    var top := MaxDrawdown(s, false).value;
    forall i, j | 0 <= j <= i < |s| && s[i].value <= s[j].value
      ensures Decline(s[j].value, s[i].value) <= top
    {
      DrawdownIsDeepestDecline(s, i);
      assert d[i].value <= top;
    }
    var i :| 0 <= i < |s| && d[i].value == top;
    DrawdownIsDeepestDecline(s, i);
    var j :| 0 <= j <= i && s[i].value <= s[j].value && Decline(s[j].value, s[i].value) == d[i].value;
  }
}
