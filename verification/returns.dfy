/** The return computations of the accessor: rebasing, percentage and
    logarithmic returns over a lag, absolute and annualized return. */
module Returns {
  import opened Wrappers
  import opened Series

  /** A series whose entries may be missing (NaN). */
  type Gapped = seq<Point<Option<real>>>

  /** The product of two reals, as a named term: equal factors then give
      equal products without arithmetic. */
  function Scale(a: real, b: real): real {
    a * b
  }

  /** A product of positive reals is positive. */
  lemma ScalePositive(a: real, b: real)
    requires a > 0.0 && b > 0.0
    ensures Scale(a, b) > 0.0
  {
  }

  /** The price reached from price `before` after a relative change `c`. */
  function Grow(before: real, c: real): real {
    Scale(before, 1.0 + c)
  }

  /** A rebased price: the price over the first price, times `base`. */
  function Rebased(price: real, first: real, base: int): real
    requires first > 0.0
  {
    Scale(price / first, base as real)
  }

  /** `rebase(base)`: every price divided by the first one, then multiplied
      by `base`. The first entry of an empty series does not exist. */
  function Rebase(s: Prices, base: int := 100): (r: Result<Prices, Error>)
    requires Stored(s)
    ensures r.Failure? <==> |s| == 0
    ensures r.Failure? ==> r.error == EmptySeries
    ensures r.Success? ==> |r.value| == |s| && r.value[0].value == base as real
    ensures r.Success? ==> forall i :: 0 <= i < |s| ==> r.value[i].date == s[i].date
    ensures r.Success? && base > 0 ==> forall i :: 0 <= i < |s| ==> r.value[i].value > 0.0
    ensures r.Success? ==> forall i :: 0 <= i < |s| ==>
              Scale(r.value[i].value, s[0].value) == Scale(s[i].value, base as real)
  {
    if |s| == 0 then Failure(EmptySeries)
    else
      PositiveRebased(s);
      var r := seq(|s|, i requires 0 <= i < |s| => Point(s[i].date, Rebased(s[i].value, s[0].value, base)));
      forall i | 0 <= i < |s|
        ensures Scale(r[i].value, s[0].value) == Scale(s[i].value, base as real)
      {
        RebasedTimesFirst(s[i].value, s[0].value, base);
      }
      Success(r)
  }

  /** A rebased price times the first price is the price times `base`. */
  lemma RebasedTimesFirst(price: real, first: real, base: int)
    requires first > 0.0
    ensures Scale(Rebased(price, first, base), first) == Scale(price, base as real)
  {
    var b := base as real;
    assert price / first * first == price;
    assert price / first * b * first == price / first * first * b;
  }

  /** Rebasing positive prices on a positive base keeps them positive, and
      takes the first price to `base`. */
  lemma PositiveRebased(s: Prices)
    requires Stored(s) && |s| > 0
    ensures forall base: int :: Rebased(s[0].value, s[0].value, base) == base as real
    ensures forall i, base: int {:trigger Rebased(s[i].value, s[0].value, base)} ::
      0 <= i < |s| && base > 0 ==> Rebased(s[i].value, s[0].value, base) > 0.0
  {
  }

  /** Relative change from price `before` to price `now`. */
  function RelChange(now: real, before: real): (c: real)
    requires now > 0.0 && before > 0.0
    ensures c > -1.0
    ensures c > 0.0 <==> now > before
    ensures c == 0.0 <==> now == before
  {
    var q := now / before;
    assert q * before == now;
    assert q <= 0.0 ==> q * before <= 0.0 * before;
    assert q > 1.0 ==> q * before > 1.0 * before;
    assert q < 1.0 ==> q * before < 1.0 * before;
    q - 1.0
  }

  /** Growing `before` by the relative change to `now` reaches `now`. */
  lemma RelChangeGrows(now: real, before: real)
    requires now > 0.0 && before > 0.0
    ensures Grow(before, RelChange(now, before)) == now
  {
  }

  /** `pct_change(period)`: entry i is the relative change from the entry
      `period` places before it, missing where that entry does not exist. A
      negative lag looks forward, as pandas' `shift` does. */
  function PctChange(s: Prices, period: int): (r: Gapped)
    requires Stored(s)
    ensures |r| == |s|
    ensures forall i {:trigger r[i]} :: 0 <= i < |s| ==> r[i].date == s[i].date
    ensures forall i :: 0 <= i < |s| ==> (r[i].value.Some? <==> 0 <= i - period < |s|)
    ensures forall i :: 0 <= i < |s| && r[i].value.Some? ==> r[i].value.value > -1.0
  {
    seq(|s|, i requires 0 <= i < |s| =>
      Point(s[i].date,
        if 0 <= i - period < |s| then Some(RelChange(s[i].value, s[i - period].value)) else None))
  }

  /** Entry i of a change with lag `i - j`, for j inside the series, is
      present and grows price j into price i. */
  lemma PctChangeAt(s: Prices, period: int, i: nat, j: nat)
    requires Stored(s) && i < |s| && j < |s| && j == i - period
    ensures PctChange(s, period)[i].value.Some?
    ensures Grow(s[j].value, PctChange(s, period)[i].value.value) == s[i].value
  {
    var c := PctChange(s, period);
    assert c[i] == Point(s[i].date, Some(RelChange(s[i].value, s[i - period].value)));
    RelChangeGrows(s[i].value, s[j].value);
  }

  /** `dropna()`: keeps the entries that are present, in order. */
  function DropNa(xs: Gapped): (r: Gapped)
    ensures |r| <= |xs|
    ensures forall k :: 0 <= k < |r| ==> r[k].value.Some?
  {
    if |xs| == 0 then []
    else (if xs[0].value.Some? then [xs[0]] else []) + DropNa(xs[1..])
  }

  /** `pct_returns(period, dropna)`. */
  function PctReturns(s: Prices, period: int := 1, dropna: bool := false): Gapped
    requires Stored(s)
  {
    if dropna then DropNa(PctChange(s, period)) else PctChange(s, period)
  }

  /** `dropna()` keeps exactly the present entries. */
  lemma {:induction false} DropNaMembers(xs: Gapped)
    ensures forall p :: p in DropNa(xs) <==> p in xs && p.value.Some?
    decreases |xs|
  {
    if |xs| > 0 {
      DropNaMembers(xs[1..]);
      assert xs == [xs[0]] + xs[1..];
    }
  }

  lemma {:induction false} DropNaAllMissing(xs: Gapped)
    requires forall k :: 0 <= k < |xs| ==> xs[k].value.None?
    ensures DropNa(xs) == []
    decreases |xs|
  {
    if |xs| > 0 {
      DropNaAllMissing(xs[1..]);
    }
  }

  lemma {:induction false} DropNaAllPresent(xs: Gapped)
    requires forall k :: 0 <= k < |xs| ==> xs[k].value.Some?
    ensures DropNa(xs) == xs
    decreases |xs|
  {
    if |xs| > 0 {
      DropNaAllPresent(xs[1..]);
      assert xs == [xs[0]] + xs[1..];
    }
  }

  /** The first index of a lagged change that is present. */
  function FirstPresent(n: nat, period: int): nat {
    if period <= 0 then 0 else if period <= n then period else n
  }

  /** One past the last index of a lagged change that is present. */
  function EndPresent(n: nat, period: int): (e: nat)
    ensures FirstPresent(n, period) <= e <= n
  {
    if period >= 0 then n else if -period <= n then n + period else 0
  }

  /** Dropping the missing entries of a series that is present exactly on
      the run `lo..hi` leaves that run. */
  lemma {:induction false} DropNaRun(xs: Gapped, lo: nat, hi: nat)
    requires lo <= hi <= |xs|
    requires forall k :: 0 <= k < |xs| ==> (xs[k].value.Some? <==> lo <= k < hi)
    ensures DropNa(xs) == xs[lo..hi]
    decreases |xs|
  {
    if hi == 0 {
      DropNaAllMissing(xs);
    } else {
      var rest := xs[1..];
      assert forall k :: 0 <= k < |rest| ==> rest[k] == xs[k + 1];
      if lo > 0 {
        DropNaRun(rest, lo - 1, hi - 1);
        assert rest[lo - 1..hi - 1] == xs[lo..hi];
      } else {
        DropNaRun(rest, 0, hi - 1);
        assert xs[..hi] == [xs[0]] + rest[..hi - 1];
      }
    }
  }

  /** Dropping the missing entries of a lagged change leaves exactly the
      run of entries whose lagged partner exists. */
  lemma DropNaOfLagged(xs: Gapped, period: int)
    requires forall i :: 0 <= i < |xs| ==> (xs[i].value.Some? <==> 0 <= i - period < |xs|)
    ensures DropNa(xs) == xs[FirstPresent(|xs|, period)..EndPresent(|xs|, period)]
  {
    DropNaRun(xs, FirstPresent(|xs|, period), EndPresent(|xs|, period));
  }

  /** With `dropna`, the percentage returns are the present run only: the
      first `period` entries go for a positive lag, the last `-period` for a
      negative one, and nothing is left when the lag exceeds the length. */
  lemma PctReturnsDropped(s: Prices, period: int)
    requires Stored(s)
    ensures var r := PctReturns(s, period, true);
      && r == PctChange(s, period)[FirstPresent(|s|, period)..EndPresent(|s|, period)]
      && (forall k :: 0 <= k < |r| ==> r[k].value.Some?)
      && |r| == (if period <= |s| && -period <= |s| then |s| - (if period < 0 then -period else period) else 0)
  {
    DropNaOfLagged(PctChange(s, period), period);
  }

  /** The entries kept by `pct_returns(period, dropna=True)` for a lag
      0 <= period <= n: entry k is the change from price k to price k + period. */
  lemma PctReturnsDroppedEntries(s: Prices, period: int)
    requires Stored(s) && 0 <= period <= |s|
    ensures var r := PctReturns(s, period, true);
      && |r| == |s| - period
      && forall k {:trigger r[k]} :: 0 <= k < |r| ==>
           r[k].date == s[k + period].date && r[k].value.Some? &&
           Grow(s[k].value, r[k].value.value) == s[k + period].value
  {
    PctReturnsDropped(s, period);
    var c := PctChange(s, period);
    var r := PctReturns(s, period, true);
    assert FirstPresent(|s|, period) == period && EndPresent(|s|, period) == |s|;
    assert r == c[period..];
    forall k {:trigger r[k]} | 0 <= k < |r|
      ensures r[k].date == s[k + period].date && r[k].value.Some? &&
              Grow(s[k].value, r[k].value.value) == s[k + period].value
    {
      assert r[k] == c[k + period];
      PctChangeAt(s, period, k + period, k);
    }
  }

  /** The law of a logarithm the model relies on: the log of a product of
      positive numbers is the sum of their logs. */
  ghost predicate LogLaw(ln: real -> real) {
    forall a: real, b: real {:trigger Scale(a, b)} ::
      0.0 < a && 0.0 < b ==> ln(Scale(a, b)) == ln(a) + ln(b)
  }

  /** Difference of the logs of price `now` and price `before`: under the
      product law, the log of the ratio of the two prices. */
  function LogRatio(now: real, before: real, ln: real -> real): (d: real)
    requires now > 0.0 && before > 0.0
    ensures ln(before) + d == ln(now)
    ensures LogLaw(ln) ==> d == ln(now / before)
  {
    assert Scale(before, now / before) == now;
    assert now / before > 0.0;
    ln(now) - ln(before)
  }

  /** `apply(log).diff(period)`: entry i is the difference of the logs of the
      price and of the price `period` places before it, missing where that
      entry does not exist. The natural log is passed in as `ln`. */
  function LogChange(s: Prices, period: int, ln: real -> real): (r: Gapped)
    requires Stored(s)
    ensures |r| == |s|
    ensures forall i {:trigger r[i]} :: 0 <= i < |s| ==> r[i].date == s[i].date
    ensures forall i :: 0 <= i < |s| ==> (r[i].value.Some? <==> 0 <= i - period < |s|)
  {
    seq(|s|, i requires 0 <= i < |s| =>
      Point(s[i].date,
        if 0 <= i - period < |s| then Some(LogRatio(s[i].value, s[i - period].value, ln)) else None))
  }

  /** Each present log return, added to the log of the lagged price, gives
      the log of the current price. */
  lemma LogChangeRecoversLogPrice(s: Prices, period: int, ln: real -> real)
    requires Stored(s)
    ensures var r := LogChange(s, period, ln);
      forall i {:trigger r[i]} :: 0 <= i < |s| && r[i].value.Some? ==>
        ln(s[i - period].value) + r[i].value.value == ln(s[i].value)
  {
    var r := LogChange(s, period, ln);
    forall i {:trigger r[i]} | 0 <= i < |s| && r[i].value.Some?
      ensures ln(s[i - period].value) + r[i].value.value == ln(s[i].value)
    {
      LogChangeAt(s, period, ln, i, i - period);
    }
  }

  /** `log_returns(period, dropna)`. */
  function LogReturns(s: Prices, ln: real -> real, period: int := 1, dropna: bool := false): Gapped
    requires Stored(s)
  {
    if dropna then DropNa(LogChange(s, period, ln)) else LogChange(s, period, ln)
  }

  /** Entry i of a log change with lag `i - j`, for j inside the series, is
      present and is the log of price i less the log of price j. */
  lemma LogChangeAt(s: Prices, period: int, ln: real -> real, i: nat, j: nat)
    requires Stored(s) && i < |s| && j < |s| && j == i - period
    ensures LogChange(s, period, ln)[i].value.Some?
    ensures ln(s[j].value) + LogChange(s, period, ln)[i].value.value == ln(s[i].value)
  {
    assert LogChange(s, period, ln)[i].value == Some(LogRatio(s[i].value, s[j].value, ln));
  }

  /** The log of a grown price is the log of the price plus the log of one
      plus the change. */
  lemma LogOfGrow(ln: real -> real, before: real, c: real)
    requires LogLaw(ln) && before > 0.0 && c > -1.0
    ensures ln(Grow(before, c)) == ln(before) + ln(1.0 + c)
  {
    assert Grow(before, c) == Scale(before, 1.0 + c);
  }

  /** A present log return is the log of one plus the percentage return
      at the same date. */
  lemma LogReturnMatchesAt(s: Prices, period: int, ln: real -> real, i: nat)
    requires Stored(s) && LogLaw(ln) && i < |s| && 0 <= i - period < |s|
    ensures LogChange(s, period, ln)[i].value.Some? && PctChange(s, period)[i].value.Some?
    ensures LogChange(s, period, ln)[i].value.value == ln(1.0 + PctChange(s, period)[i].value.value)
  {
    var j: nat := i - period;
    PctChangeAt(s, period, i, j);
    LogChangeAt(s, period, ln, i, j);
    LogOfGrow(ln, s[j].value, PctChange(s, period)[i].value.value);
  }

  /** Log returns are missing exactly where percentage returns are, and each
      present one is the log of one plus the percentage return; with `dropna`
      both keep the same run of dates. */
  lemma LogReturnsMatchPctReturns(s: Prices, period: int, ln: real -> real)
    requires Stored(s) && LogLaw(ln)
    ensures var l, p := LogChange(s, period, ln), PctChange(s, period);
      forall i {:trigger l[i]} :: 0 <= i < |s| ==>
        && (l[i].value.Some? <==> p[i].value.Some?)
        && (l[i].value.Some? ==> l[i].value.value == ln(1.0 + p[i].value.value))
    ensures var lo, hi := FirstPresent(|s|, period), EndPresent(|s|, period);
      LogReturns(s, ln, period, true) == LogChange(s, period, ln)[lo..hi] &&
      PctReturns(s, period, true) == PctChange(s, period)[lo..hi]
  {
    var l, p := LogChange(s, period, ln), PctChange(s, period);
    forall i {:trigger l[i]} | 0 <= i < |s| && l[i].value.Some?
      ensures l[i].value.value == ln(1.0 + p[i].value.value)
    {
      LogReturnMatchesAt(s, period, ln, i);
    }
    DropNaOfLagged(l, period);
    DropNaOfLagged(p, period);
  }

  /** `abs_return()`: the last price over the first, minus one. */
  function AbsReturn(s: Prices): (r: Result<real, Error>)
    requires Stored(s)
    ensures r.Failure? <==> |s| == 0
    ensures r.Failure? ==> r.error == EmptySeries
    ensures r.Success? ==> r.value > -1.0 && Grow(s[0].value, r.value) == s[|s| - 1].value
    ensures r.Success? ==> (r.value > 0.0 <==> s[|s| - 1].value > s[0].value)
    ensures r.Success? ==> (r.value == 0.0 <==> s[|s| - 1].value == s[0].value)
  {
    if |s| == 0 then Failure(EmptySeries)
    else
      RelChangeGrows(s[|s| - 1].value, s[0].value);
      Success(RelChange(s[|s| - 1].value, s[0].value))
  }

  /** Applies a series of returns, first to last, to a starting value;
      missing returns leave the value as it is. */
  function Compound(start: real, xs: Gapped): real
    decreases |xs|
  {
    if |xs| == 0 then start
    else Compound(if xs[0].value.Some? then Grow(start, xs[0].value.value) else start, xs[1..])
  }

  /** Growing a scaled value is scaling the grown value. */
  lemma GrowScales(a: real, x: real, g: real)
    ensures Grow(Scale(a, x), g) == Scale(a, Grow(x, g))
  {
    assert a * x * (1.0 + g) == a * (x * (1.0 + g));
  }

  /** Compounding is linear in its starting value. */
  lemma {:induction false} CompoundScales(a: real, x: real, xs: Gapped)
    ensures Compound(Scale(a, x), xs) == Scale(a, Compound(x, xs))
    decreases |xs|
  {
    if |xs| > 0 {
      if xs[0].value.Some? {
        GrowScales(a, x, xs[0].value.value);
        CompoundScales(a, Grow(x, xs[0].value.value), xs[1..]);
      } else {
        CompoundScales(a, x, xs[1..]);
      }
    }
  }

  /** Applying the one-step returns after position `k` to the price at `k`
      reaches the last price. */
  lemma {:induction false} CompoundFromReachesLast(s: Prices, k: nat)
    requires Stored(s) && k < |s|
    ensures Compound(s[k].value, PctChange(s, 1)[k + 1..]) == s[|s| - 1].value
    decreases |s| - k
  {
    var c := PctChange(s, 1);
    if k == |s| - 1 {
      assert c[k + 1..] == [];
    } else {
      assert c[k + 1..][1..] == c[k + 2..];
      PctChangeAt(s, 1, k + 1, k);
      CompoundFromReachesLast(s, k + 1);
    }
  }

  /** Positive factors cancel. */
  lemma CancelScale(c: real, x: real, y: real)
    requires c > 0.0 && Scale(c, x) == Scale(c, y)
    ensures x == y
  {
  }

  /** The absolute return compounds the one-step returns: one plus it is
      the product of one plus each `pct_returns(1)` entry. */
  lemma AbsReturnCompounds(s: Prices)
    requires Stored(s) && |s| > 0
    ensures 1.0 + AbsReturn(s).value == Compound(1.0, PctChange(s, 1))
  {
    var c := PctChange(s, 1);
    CompoundFromReachesLast(s, 0);
    assert c[0].value.None? && c[1..] == c[0 + 1..];
    assert Scale(s[0].value, 1.0) == s[0].value;
    CompoundScales(s[0].value, 1.0, c);
    CancelScale(s[0].value, 1.0 + AbsReturn(s).value, Compound(1.0, c));
  }

  /** Days between the first and the last date. */
  function ElapsedDays(s: Prices): int
    requires |s| > 0
  {
    s[|s| - 1].date - s[0].date
  }

  /** `annualized_return(base)`: the absolute return times `base`, over the
      days elapsed. On a single entry that is 0.0 * base / 0, a NaN. */
  function AnnualizedReturn(s: Prices, base: int := 365): (r: Result<Option<real>, Error>)
    requires Stored(s)
    ensures r.Failure? <==> |s| == 0
    ensures r.Failure? ==> r.error == EmptySeries
    ensures r.Success? ==> (r.value.None? <==> |s| == 1)
    ensures r.Success? && r.value.Some? ==>
              ElapsedDays(s) > 0 &&
              r.value.value * ElapsedDays(s) as real == AbsReturn(s).value * base as real
    ensures r.Success? && r.value.Some? && base > 0 ==>
              (r.value.value > 0.0 <==> s[|s| - 1].value > s[0].value)
    ensures r.Success? && r.value.Some? && ElapsedDays(s) == base ==>
              r.value.value == AbsReturn(s).value
  {
    if |s| == 0 then Failure(EmptySeries)
    else if |s| == 1 then Success(None)
    else Success(Some(AbsReturn(s).value * base as real / ElapsedDays(s) as real))
  }

  /** Rebasing keeps the relative change between any two prices. */
  lemma RelChangeOfRebased(x: real, y: real, first: real, base: int)
    requires x > 0.0 && y > 0.0 && first > 0.0 && base > 0
    ensures Rebased(x, first, base) > 0.0 && Rebased(y, first, base) > 0.0
    ensures RelChange(Rebased(x, first, base), Rebased(y, first, base)) == RelChange(x, y)
  {
    var b := base as real;
    assert x / first * b / (y / first * b) == x / y;
  }

  /** A rebased series with a positive base is a valid price series with the
      same returns: rebasing only rescales. */
  lemma RebaseKeepsReturns(s: Prices, base: int, period: int)
    requires Stored(s) && |s| > 0 && base > 0
    ensures Stored(Rebase(s, base).value)
    ensures PctChange(Rebase(s, base).value, period) == PctChange(s, period)
    ensures AbsReturn(Rebase(s, base).value) == AbsReturn(s)
  {
    var t := Rebase(s, base).value;
    assert Stored(t);
    var c, c' := PctChange(t, period), PctChange(s, period);
    forall i | 0 <= i < |s|
      ensures c[i] == c'[i]
    {
      if 0 <= i - period < |s| {
        RelChangeOfRebased(s[i].value, s[i - period].value, s[0].value, base);
      }
    }
    RelChangeOfRebased(s[|s| - 1].value, s[0].value, s[0].value, base);
  }

  /** Rebasing a rebased price on the rebased first price is rebasing the
      original price. */
  lemma RebasedTwice(x: real, first: real, b1: int, b2: int)
    requires x > 0.0 && first > 0.0 && b1 > 0
    ensures Rebased(first, first, b1) > 0.0
    ensures Rebased(Rebased(x, first, b1), Rebased(first, first, b1), b2) == Rebased(x, first, b2)
  {
    var b := b1 as real;
    assert x / first * b / (first / first * b) == x / first;
  }

  /** Rebasing a rebased series is the same as rebasing the original. */
  lemma RebaseTwice(s: Prices, b1: int, b2: int)
    requires Stored(s) && |s| > 0 && b1 > 0
    ensures Stored(Rebase(s, b1).value)
    ensures Rebase(Rebase(s, b1).value, b2) == Rebase(s, b2)
  {
    RebaseKeepsReturns(s, b1, 0);
    var t := Rebase(s, b1).value;
    var u, v := Rebase(t, b2).value, Rebase(s, b2).value;
    forall i | 0 <= i < |s|
      ensures u[i] == v[i]
    {
      RebasedTwice(s[i].value, s[0].value, b1, b2);
    }
    assert u == v;
  }
}
