/** The price series held by the accessor: the validation done on
    construction and the sort of the stored copy by date. */
module Series {
  import opened Wrappers

  /** One entry of a time series: a date, as a day number, and its value. */
  datatype Point<V> = Point(date: int, value: V)

  /** A series of prices. */
  type Prices = seq<Point<real>>

  /** A series of real values that are not prices, such as drawdowns. */
  type Values = seq<Point<real>>

  /** What the accessor can raise. fintopy's index-type check is
      vacuous here, because dates are day numbers by construction. */
  datatype Error =
    | DuplicateDates    // ValueError: the index has duplicates
    | NonPositivePrice  // ValueError: some price is zero or negative
    | EmptySeries       // IndexError: first or last entry of an empty series

  predicate UniqueDates<V>(s: seq<Point<V>>) {
    forall i, j :: 0 <= i < j < |s| ==> s[i].date != s[j].date
  }

  predicate AllPositive(s: Prices) {
    forall i :: 0 <= i < |s| ==> s[i].value > 0.0
  }

  predicate Ascending<V>(s: seq<Point<V>>) {
    forall i, j :: 0 <= i < j < |s| ==> s[i].date <= s[j].date
  }

  predicate StrictlyAscending<V>(s: seq<Point<V>>) {
    forall i, j :: 0 <= i < j < |s| ==> s[i].date < s[j].date
  }

  /** The invariant of the accessor's stored series. */
  predicate Stored(s: Prices) {
    StrictlyAscending(s) && AllPositive(s)
  }

  /** Uniqueness check of the index: scans the dates left to right against
      the set of dates already seen. */
  function NoneSeen<V>(s: seq<Point<V>>, seen: set<int>): (b: bool)
    ensures b <==> UniqueDates(s) && forall i :: 0 <= i < |s| ==> s[i].date !in seen
    decreases |s|
  {
    if |s| == 0 then true
    else if s[0].date in seen then false
    else
      var b := NoneSeen(s[1..], seen + {s[0].date});
      assert forall i :: 1 <= i < |s| ==> s[i] == s[1..][i - 1];
      b
  }

  /** The construction-time validation: duplicates are reported before
      non-positive prices. */
  function Validate(s: Prices): (r: Outcome<Error>)
    ensures r.Pass? <==> UniqueDates(s) && AllPositive(s)
    ensures r == Fail(DuplicateDates) <==> !UniqueDates(s)
    ensures r == Fail(NonPositivePrice) <==> UniqueDates(s) && !AllPositive(s)
  {
    if !NoneSeen(s, {}) then Fail(DuplicateDates)
    else if exists i :: 0 <= i < |s| && s[i].value <= 0.0 then Fail(NonPositivePrice)
    else Pass
  }

  /** Putting an entry in front of a series in date order keeps it in date
      order when the entry is no later than the old head. */
  lemma ConsAscending(x: Point<real>, t: Prices)
    ensures Ascending(t) && (|t| > 0 ==> x.date <= t[0].date) ==> Ascending([x] + t)
  {
    var r := [x] + t;
    if Ascending(t) && (|t| > 0 ==> x.date <= t[0].date) {
      forall i, j | 0 <= i < j < |r|
        ensures r[i].date <= r[j].date
      {
        if i > 0 {
          assert r[i] == t[i - 1] && r[j] == t[j - 1];
        } else {
          assert r[j] == t[j - 1];
          assert t[0].date <= t[j - 1].date;
        }
      }
    }
  }

  lemma ConsStrictlyAscending(x: Point<real>, t: Prices)
    ensures StrictlyAscending(t) && (|t| > 0 ==> x.date < t[0].date) ==> StrictlyAscending([x] + t)
  {
    var r := [x] + t;
    if StrictlyAscending(t) && (|t| > 0 ==> x.date < t[0].date) {
      forall i, j | 0 <= i < j < |r|
        ensures r[i].date < r[j].date
      {
        if i > 0 {
          assert r[i] == t[i - 1] && r[j] == t[j - 1];
        } else {
          assert r[j] == t[j - 1];
          assert j - 1 == 0 || t[0].date < t[j - 1].date;
        }
      }
    }
  }

  /** No entry of `t` has date `d`. */
  predicate DateAbsent(t: Prices, d: int) {
    forall k :: 0 <= k < |t| ==> t[k].date != d
  }

  /** Inserts `x` into a series in date order, before the first entry whose
      date is not earlier. */
  function Insert(x: Point<real>, t: Prices): (r: Prices)
    ensures multiset(r) == multiset(t) + multiset{x}
    ensures |r| == |t| + 1 && (r[0] == x || (|t| > 0 && r[0] == t[0]))
  {
    if |t| == 0 then [x]
    else if x.date <= t[0].date then [x] + t
    else
      assert t == [t[0]] + t[1..];
      [t[0]] + Insert(x, t[1..])
  }

  /** Inserting into a series in date order keeps it in date order, and
      strictly so when the new date is not there yet. */
  lemma {:induction false} InsertKeepsOrder(x: Point<real>, t: Prices)
    ensures Ascending(t) ==> Ascending(Insert(x, t))
    ensures StrictlyAscending(t) && DateAbsent(t, x.date) ==> StrictlyAscending(Insert(x, t))
    decreases |t|
  {
    if |t| > 0 && x.date > t[0].date {
      var tail := t[1..];
      assert forall k :: 0 <= k < |tail| ==> tail[k] == t[k + 1];
      InsertKeepsOrder(x, tail);
      ConsAscending(t[0], Insert(x, tail));
      ConsStrictlyAscending(t[0], Insert(x, tail));
    } else if |t| > 0 {
      ConsAscending(x, t);
      ConsStrictlyAscending(x, t);
    }
  }

  /** Sorts a series by date, keeping every entry. */
  function SortByDate(s: Prices): (r: Prices)
    ensures Ascending(r)
    ensures multiset(r) == multiset(s)
    ensures UniqueDates(s) ==> StrictlyAscending(r)
  {
    if |s| == 0 then []
    else
      assert s == [s[0]] + s[1..];
      var rest := SortByDate(s[1..]);
      SortStep(s, rest);
      InsertKeepsOrder(s[0], rest);
      Insert(s[0], rest)
  }

  lemma SortStep(s: Prices, rest: Prices)
    requires |s| > 0 && multiset(rest) == multiset(s[1..])
    ensures UniqueDates(s) ==> DateAbsent(rest, s[0].date)
  {
    if UniqueDates(s) {
      forall k | 0 <= k < |rest|
        ensures rest[k].date != s[0].date
      {
        assert rest[k] in multiset(s[1..]);
        var j :| 0 <= j < |s[1..]| && s[1..][j] == rest[k];
        assert s[j + 1] == rest[k];
      }
    }
  }

  /** A permutation of a series of positive prices has positive prices. */
  lemma PositivePermutation(s: Prices, t: Prices)
    requires multiset(s) == multiset(t) && AllPositive(s)
    ensures AllPositive(t)
  {
    forall k | 0 <= k < |t|
      ensures t[k].value > 0.0
    {
      assert t[k] in multiset(s);
      var j :| 0 <= j < |s| && s[j] == t[k];
    }
  }

  /** The accessor's constructor: validates, then stores a copy sorted by date. */
  function New(s: Prices): (r: Result<Prices, Error>)
    ensures r.Success? <==> UniqueDates(s) && AllPositive(s)
    ensures !UniqueDates(s) ==> r == Failure(DuplicateDates)
    ensures UniqueDates(s) && !AllPositive(s) ==> r == Failure(NonPositivePrice)
    ensures r.Success? ==> Stored(r.value) && multiset(r.value) == multiset(s)
  {
    match Validate(s)
    case Fail(e) => Failure(e)
    case Pass =>
      var sorted := SortByDate(s);
      PositivePermutation(s, sorted);
      Success(sorted)
  }

  /** Construction keeps a series that is already sorted and positive. */
  lemma NewOfStored(s: Prices)
    requires Stored(s)
    ensures New(s) == Success(s)
  {
    assert UniqueDates(s);
    StoredArrangementUnique(New(s).value, s);
  }

  /** Constructing an accessor from the series another one stores gives
      the same series back. */
  lemma NewIdempotent(s: Prices)
    requires New(s).Success?
    ensures New(New(s).value) == New(s)
  {
    NewOfStored(New(s).value);
  }

  /** With unique dates, no entry occurs twice. */
  lemma {:induction false} UniqueDatesSingleOccurrence(s: Prices, e: Point<real>)
    requires UniqueDates(s)
    ensures multiset(s)[e] <= 1
    decreases |s|
  {
    if |s| > 0 {
      assert s == [s[0]] + s[1..];
      assert UniqueDates(s[1..]) by {
        forall i, j | 0 <= i < j < |s[1..]|
          ensures s[1..][i].date != s[1..][j].date
        {
          assert s[1..][i] == s[i + 1] && s[1..][j] == s[j + 1];
        }
      }
      UniqueDatesSingleOccurrence(s[1..], e);
      if s[0] == e {
        assert e !in s[1..] by {
          forall k | 0 <= k < |s[1..]|
            ensures s[1..][k] != e
          {
            assert s[1..][k] == s[k + 1];
          }
        }
      }
    }
  }

  /** Having unique dates depends only on which entries a series holds,
      not on their order. */
  lemma UniqueDatesPermutation(s: Prices, t: Prices)
    requires multiset(s) == multiset(t) && UniqueDates(s)
    ensures UniqueDates(t)
  {
    forall i, j | 0 <= i < j < |t|
      ensures t[i].date != t[j].date
    {
      assert t[i] in multiset(s) && t[j] in multiset(s);
      var a :| 0 <= a < |s| && s[a] == t[i];
      var b :| 0 <= b < |s| && s[b] == t[j];
      if a == b {
        var e := t[i];
        assert t == t[..j] + t[j..];
        assert e in t[..j] && e in t[j..] by {
          assert t[..j][i] == e && t[j..][0] == e;
        }
        assert multiset(t)[e] == multiset(t[..j])[e] + multiset(t[j..])[e];
        UniqueDatesSingleOccurrence(s, e);
        assert false;
      }
    }
  }

  lemma TailStrictlyAscending(a: Prices)
    requires StrictlyAscending(a) && |a| > 0
    ensures StrictlyAscending(a[1..])
  {
    forall i, m | 0 <= i < m < |a[1..]|
      ensures a[1..][i].date < a[1..][m].date
    {
      assert a[1..][i] == a[i + 1] && a[1..][m] == a[m + 1];
    }
  }

  /** Two nonempty series in strictly ascending date order holding the same
      entries start with the same entry. */
  lemma SameHead(a: Prices, b: Prices)
    requires StrictlyAscending(a) && StrictlyAscending(b)
    requires multiset(a) == multiset(b) && |a| > 0
    ensures |b| > 0 && a[0] == b[0]
  {
    assert a[0] in multiset(b);
    assert b[0] in multiset(a);
    var k :| 0 <= k < |b| && b[k] == a[0];
    var j :| 0 <= j < |a| && a[j] == b[0];
  }

  /** Two series in strictly ascending date order holding the same entries
      are equal: the stored series does not depend on how it was sorted. */
  lemma {:induction false} StoredArrangementUnique(a: Prices, b: Prices)
    requires StrictlyAscending(a) && StrictlyAscending(b)
    requires multiset(a) == multiset(b)
    ensures a == b
    decreases |a|
  {
    if |a| == 0 {
      assert |multiset(b)| == 0;
    } else {
      SameHead(a, b);
      assert a == [a[0]] + a[1..] && b == [b[0]] + b[1..];
      assert multiset(a[1..]) == multiset(a) - multiset{a[0]};
      assert multiset(b[1..]) == multiset(b) - multiset{a[0]};
      TailStrictlyAscending(a);
      TailStrictlyAscending(b);
      StoredArrangementUnique(a[1..], b[1..]);
    }
  }

  /** Construction depends only on the entries given, not on their order. */
  lemma NewIgnoresInputOrder(s: Prices, t: Prices)
    requires multiset(s) == multiset(t)
    ensures New(s) == New(t)
  {
    if UniqueDates(s) {
      UniqueDatesPermutation(s, t);
    }
    if UniqueDates(t) {
      UniqueDatesPermutation(t, s);
    }
    if AllPositive(s) {
      PositivePermutation(s, t);
    }
    if AllPositive(t) {
      PositivePermutation(t, s);
    }
    if New(s).Success? {
      StoredArrangementUnique(New(s).value, New(t).value);
    }
  }
}
