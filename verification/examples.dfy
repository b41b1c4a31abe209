/** Worked examples: the documented behaviour of the accessor on small
    series, stated against the model. Dates are day numbers. */
module Examples {
  import opened Wrappers
  import opened Series
  import opened Returns
  import opened Drawdowns

  /** Construction sorts out-of-order dates. */
  lemma NewSortsExample()
    ensures New([Point(3, 40.0), Point(1, 10.0), Point(2, 20.0)])
         == Success([Point(1, 10.0), Point(2, 20.0), Point(3, 40.0)])
  {
    SortsThree([Point(3, 40.0), Point(1, 10.0), Point(2, 20.0)],
               [Point(1, 10.0), Point(2, 20.0), Point(3, 40.0)]);
  }

  /** The proof of the sorting example. The series are parameters rather
      than literals so that the prover does not unfold `New` on a literal
      argument. */
  lemma SortsThree(s: Prices, t: Prices)
    requires s == [Point(3, 40.0), Point(1, 10.0), Point(2, 20.0)]
    requires t == [Point(1, 10.0), Point(2, 20.0), Point(3, 40.0)]
    ensures New(s) == Success(t)
  {
    assert Stored(t);
    assert s[0] == t[2] && s[1] == t[0] && s[2] == t[1];
    assert multiset(s) == multiset(t);
    NewIgnoresInputOrder(s, t);
    NewOfStored(t);
  }

  /** Construction rejects a repeated date, and a non-positive price. */
  lemma NewRejectsExample()
    ensures New([Point(1, 10.0), Point(1, 20.0)]) == Failure(DuplicateDates)
    ensures New([Point(1, 10.0), Point(2, 0.0)]) == Failure(NonPositivePrice)
  {
    var d := [Point(1, 10.0), Point(1, 20.0)];
    assert d[0].date == d[1].date;
    var z := [Point(1, 10.0), Point(2, 0.0)];
    assert z[1].value <= 0.0;
  }

  /** `rebase()` on [10, 20, 40] is [100, 200, 400]. */
  lemma RebaseExample()
    ensures Rebase([Point(1, 10.0), Point(2, 20.0), Point(3, 40.0)])
         == Success([Point(1, 100.0), Point(2, 200.0), Point(3, 400.0)])
  {
    var s := [Point(1, 10.0), Point(2, 20.0), Point(3, 40.0)];
    var r := Rebase(s).value;
    assert r[0].value == Rebased(10.0, 10.0, 100);
    assert r[1].value == Rebased(20.0, 10.0, 100);
    assert r[2].value == Rebased(40.0, 10.0, 100);
    assert r == [Point(1, 100.0), Point(2, 200.0), Point(3, 400.0)];
  }

  /** `abs_return()` on [10, 20] is 1.0. */
  lemma AbsReturnExample()
    ensures AbsReturn([Point(1, 10.0), Point(2, 20.0)]) == Success(1.0)
  {
  }

  /** `pct_returns(dropna=True)` on [10, 20, 40] is [1.0, 1.0]. */
  lemma PctReturnsExample()
    ensures PctReturns([Point(1, 10.0), Point(2, 20.0), Point(3, 40.0)], dropna := true)
         == [Point(2, Some(1.0)), Point(3, Some(1.0))]
  {
    var s := [Point(1, 10.0), Point(2, 20.0), Point(3, 40.0)];
    var c := PctChange(s, 1);
    assert c[1].value == Some(RelChange(20.0, 10.0));
    assert c[2].value == Some(RelChange(40.0, 20.0));
    PctReturnsDropped(s, 1);
    assert c[1..3] == [Point(2, Some(1.0)), Point(3, Some(1.0))];
  }

  /** `log_returns()` on [e, e * e], with e the number whose log is 1, is
      [missing, 1.0]. */
  lemma LogReturnsExample(e: real, ln: real -> real)
    requires e > 0.0 && LogLaw(ln) && ln(e) == 1.0
    ensures var s := [Point(1, e), Point(2, Scale(e, e))];
      Stored(s) && LogReturns(s, ln) == [Point(1, None), Point(2, Some(1.0))]
  {
    var s := [Point(1, e), Point(2, Scale(e, e))];
    ScalePositive(e, e);
    var l := LogChange(s, 1, ln);
    assert l[1].value == Some(LogRatio(Scale(e, e), e, ln));
  }

  /** `annualized_return()` on a 10% gain over 365 days is 0.1. */
  lemma AnnualizedReturnExample()
    ensures AnnualizedReturn([Point(0, 100.0), Point(365, 110.0)]) == Success(Some(0.1))
  {
    var s := [Point(0, 100.0), Point(365, 110.0)];
    assert AbsReturn(s) == Success(RelChange(110.0, 100.0));
    assert RelChange(110.0, 100.0) == 0.1;
  }

  /** The running maximum of [100, 80, 120] is [100, 100, 120]. */
  lemma RunningMaxExample()
    ensures RunningMax([Point(1, 100.0), Point(2, 80.0), Point(3, 120.0)])
         == [Point(1, 100.0), Point(2, 100.0), Point(3, 120.0)]
  {
    var s := [Point(1, 100.0), Point(2, 80.0), Point(3, 120.0)];
    var m := RunningMax(s);
    assert Peak(s, 0) == 100.0;
    assert Peak(s, 1) == Max(100.0, 80.0) == 100.0;
    assert Peak(s, 2) == Max(100.0, 120.0) == 120.0;
    assert m[0] == Point(s[0].date, Peak(s, 0));
    assert m[1] == Point(s[1].date, Peak(s, 1));
    assert m[2] == Point(s[2].date, Peak(s, 2));
  }

  /** `drawdown()` on [100, 80, 120] is [0, 0.2, 0]. */
  lemma DrawdownExample()
    ensures var d := Drawdown([Point(1, 100.0), Point(2, 80.0), Point(3, 120.0)]);
      |d| == 3 && d[0] == Point(1, 0.0) && d[1] == Point(2, 0.2) && d[2] == Point(3, 0.0)
  {
    var s := [Point(1, 100.0), Point(2, 80.0), Point(3, 120.0)];
    assert Stored(s);
    RunningMaxExample();
    DeclineExample();
    DrawdownAt(s, 0);
    DrawdownAt(s, 1);
    DrawdownAt(s, 2);
  }

  /** The declines of the example: none at a peak, a fifth from 100 to 80. */
  lemma DeclineExample()
    ensures Decline(100.0, 100.0) == 0.0
    ensures Decline(100.0, 80.0) == 0.2
    ensures Decline(120.0, 120.0) == 0.0
  {
  }

  /** `max_drawdown()` on [100, 80, 120] is 0.2. */
  lemma MaxDrawdownExample()
    ensures MaxDrawdown([Point(1, 100.0), Point(2, 80.0), Point(3, 120.0)]) == Some(0.2)
  {
    var s := [Point(1, 100.0), Point(2, 80.0), Point(3, 120.0)];
    assert Stored(s);
    DrawdownExample();
    MaxDrawdownOfThree(Drawdown(s, false), MaxDrawdown(s, false).value);
  }

  /** `max_drawdown(negative=True)` on [100, 80, 120] is -0.2. */
  lemma NegativeMaxDrawdownExample()
    ensures MaxDrawdown([Point(1, 100.0), Point(2, 80.0), Point(3, 120.0)], negative := true) == Some(-0.2)
  {
    var s := [Point(1, 100.0), Point(2, 80.0), Point(3, 120.0)];
    assert Stored(s);
    MaxDrawdownExample();
    MaxDrawdownNegation(s);
  }

  /** The largest of three drawdowns [0, 0.2, 0]. */
  lemma MaxDrawdownOfThree(d: Values, top: real)
    requires |d| == 3 && d[0].value == 0.0 && d[1].value == 0.2 && d[2].value == 0.0
    requires (forall i :: 0 <= i < |d| ==> d[i].value <= top) && (exists i :: 0 <= i < |d| && d[i].value == top)
    ensures top == 0.2
  {
    assert d[1].value <= top;
  }
}
