/**
  `fill_missing` of q3_data_utils.py: fill the missing cells of one column of a
  copy of the table, with the column's mean or median, or by carrying the last
  value forward.
 */
module Imputation {
  import opened Tables
  import opened Cleaning

  /** The three strategies `fill_missing` accepts. */
  datatype Strategy = Mean | Median | ForwardFill

  /** The strategy a name selects; any other name is unknown. */
  function ParseStrategy(name: string): (r: Option<Strategy>)
    ensures r.Some? <==> name in {"mean", "median", "ffill"}
    ensures name == "mean" ==> r == Some(Mean)
    ensures name == "median" ==> r == Some(Median)
    ensures name == "ffill" ==> r == Some(ForwardFill)
  {
    if name == "mean" then Some(Mean)
    else if name == "median" then Some(Median)
    else if name == "ffill" then Some(ForwardFill)
    else None
  }

  // ---------------------------------------------------------------- forward fill

  /** The nearest non-missing cell at or above position `i`; missing when there is none. */
  function Nearest(s: seq<Cell>, i: nat): Cell
    requires i < |s|
  {
    if s[i] != Null || i == 0 then s[i] else Nearest(s, i - 1)
  }

  /** `ffill()`: every cell replaced by the nearest non-missing cell at or above it. */
  function ForwardFilled(s: seq<Cell>): (r: seq<Cell>)
    ensures |r| == |s|
  {
    seq(|s|, i requires 0 <= i < |s| => Nearest(s, i))
  }

  /**
    What `Nearest` picks: a cell stays missing exactly when everything at or
    above it is missing; otherwise it is the value of the closest non-missing
    cell above it, with only missing cells in between.
   */
  lemma {:induction false} NearestIsClosest(s: seq<Cell>, i: nat)
    requires i < |s|
    ensures Nearest(s, i) == Null <==> forall j :: 0 <= j <= i ==> s[j] == Null
    ensures Nearest(s, i) != Null ==>
      exists j :: 0 <= j <= i && s[j] == Nearest(s, i) && (forall k :: j < k <= i ==> s[k] == Null)
  {
    if s[i] == Null && i > 0 {
      NearestIsClosest(s, i - 1);
      if Nearest(s, i) != Null {
        var j :| 0 <= j <= i - 1 && s[j] == Nearest(s, i - 1) && forall k :: j < k <= i - 1 ==> s[k] == Null;
        assert forall k :: j < k <= i ==> s[k] == Null;
      }
    }
  }

  /**
    Forward fill keeps every non-missing cell, leaves the leading missing cells
    missing, and fills every other missing cell with the closest value above it.
   */
  lemma ForwardFillMeaning(s: seq<Cell>, i: nat)
    requires i < |s|
    ensures s[i] != Null ==> ForwardFilled(s)[i] == s[i]
    ensures ForwardFilled(s)[i] == Null <==> forall j :: 0 <= j <= i ==> s[j] == Null
    ensures ForwardFilled(s)[i] != Null ==>
      exists j :: 0 <= j <= i && s[j] == ForwardFilled(s)[i] && (forall k :: j < k <= i ==> s[k] == Null)
  {
    NearestIsClosest(s, i);
  }

  /** Filling forward a second time changes nothing. */
  lemma ForwardFillIdempotent(s: seq<Cell>)
    ensures ForwardFilled(ForwardFilled(s)) == ForwardFilled(s)
  {
    var f := ForwardFilled(s);
    forall i | 0 <= i < |s| ensures Nearest(f, i) == f[i] {
      if f[i] == Null {
        ForwardFillMeaning(s, i);
        forall j | 0 <= j <= i ensures f[j] == Null {
          ForwardFillMeaning(s, j);
        }
        NearestIsClosest(f, i);
      }
    }
  }

  /** A column whose first cell is present has no missing cell after a forward fill. */
  lemma ForwardFillLeavesNoMissing(s: seq<Cell>)
    requires |s| > 0 && s[0] != Null
    ensures NullCount(ForwardFilled(s)) == 0
  {
    forall i | 0 <= i < |s| ensures ForwardFilled(s)[i] != Null {
      ForwardFillMeaning(s, i);
    }
  }

  /** The example of the test script test_q3.py: `[1, NaN, 3]` filled forward is `[1, 1, 3]`. */
  lemma ForwardFillExample()
    ensures ForwardFilled([Num(1.0), Null, Num(3.0)]) == [Num(1.0), Num(1.0), Num(3.0)]
  {
    var s := [Num(1.0), Null, Num(3.0)];
    assert Nearest(s, 1) == Num(1.0);
  }

  // ---------------------------------------------------------------- mean and median

  /** `fillna(v)`: every missing cell becomes `v`, every other cell is kept. */
  function FilledWith(s: seq<Cell>, v: Cell): (r: seq<Cell>)
    ensures |r| == |s|
  {
    seq(|s|, i requires 0 <= i < |s| => if s[i] == Null then v else s[i])
  }

  /** Filling with a present value puts it in every missing cell, leaving none, and keeps every present cell. */
  lemma FilledWithMeaning(s: seq<Cell>, v: Cell)
    requires v != Null
    ensures NullCount(FilledWith(s, v)) == 0
    ensures forall i :: 0 <= i < |s| && s[i] == Null ==> FilledWith(s, v)[i] == v
    ensures forall i :: 0 <= i < |s| && s[i] != Null ==> FilledWith(s, v)[i] == s[i]
  {
  }

  /**
    `astype(float)` followed by skipping the missing cells: the numbers of the
    column in order; a text cell is a TypeError.
   */
  function NumericValues(s: seq<Cell>): (r: Result<seq<real>>)
    ensures r.Success? <==> forall i :: 0 <= i < |s| ==> !s[i].Str?
    ensures r.Failure? ==> r.error == TypeMismatch
    ensures r.Success? ==> forall x :: x in r.value <==> Num(x) in s
    ensures r.Success? ==> |r.value| == |s| - NullCount(s)
  {
    if |s| == 0 then Success([])
    else
      match s[0]
      case Str(_) => Failure(TypeMismatch)
      case Null => NumericValues(s[1..])
      case Num(x) =>
        match NumericValues(s[1..])
        case Failure(e) => Failure(e)
        case Success(rest) => Success([x] + rest)
  }

  /** Each number occurs among the converted values as often as it occurs in the column. */
  lemma {:induction false} NumericValuesCounts(s: seq<Cell>)
    requires NumericValues(s).Success?
    ensures forall x :: multiset(NumericValues(s).value)[x] == multiset(s)[Num(x)]
  {
    if |s| > 0 {
      assert s == [s[0]] + s[1..];
      NumericValuesCounts(s[1..]);
    }
  }

  function Sum(xs: seq<real>): real {
    if |xs| == 0 then 0.0 else xs[0] + Sum(xs[1..])
  }

  /** The position of a smallest value. */
  function ArgMin(xs: seq<real>): (k: nat)
    requires |xs| > 0
    ensures k < |xs| && forall i :: 0 <= i < |xs| ==> xs[k] <= xs[i]
  {
    if |xs| == 1 then 0
    else
      var k := ArgMin(xs[1..]);
      if xs[0] <= xs[k + 1] then 0 else k + 1
  }

  /** The position of a largest value. */
  function ArgMax(xs: seq<real>): (k: nat)
    requires |xs| > 0
    ensures k < |xs| && forall i :: 0 <= i < |xs| ==> xs[i] <= xs[k]
  {
    if |xs| == 1 then 0
    else
      var k := ArgMax(xs[1..]);
      if xs[k + 1] <= xs[0] then 0 else k + 1
  }

  /** The arithmetic mean of a non-empty list; it lies between the smallest and the largest value. */
  function Average(xs: seq<real>): (m: real)
    requires |xs| > 0
    ensures xs[ArgMin(xs)] <= m <= xs[ArgMax(xs)]
  {
    SumBounds(xs, xs[ArgMin(xs)], xs[ArgMax(xs)]);
    QuotientBetween(Sum(xs), |xs| as real, xs[ArgMin(xs)], xs[ArgMax(xs)]);
    Sum(xs) / (|xs| as real)
  }

  /** A total of n values between `lo` and `hi`, divided by n, lies between them. */
  lemma QuotientBetween(total: real, n: real, lo: real, hi: real)
    requires n > 0.0 && n * lo <= total <= n * hi
    ensures lo <= total / n <= hi
  {
    var m := total / n;
    assert m * n == total;
    assert (m - lo) * n >= 0.0;
    assert (hi - m) * n >= 0.0;
  }

  /** The sum of a concatenation is the sum of the parts. */
  lemma {:induction false} SumAppend(a: seq<real>, b: seq<real>)
    ensures Sum(a + b) == Sum(a) + Sum(b)
  {
    if |a| == 0 {
      assert a + b == b;
    } else {
      assert (a + b)[0] == a[0];
      assert (a + b)[1..] == a[1..] + b;
      SumAppend(a[1..], b);
    }
  }

  /** The sum does not depend on the order of the values. */
  lemma {:induction false} SumOfPermutation(a: seq<real>, b: seq<real>)
    requires multiset(a) == multiset(b)
    ensures Sum(a) == Sum(b)
    decreases |a|
  {
    if |a| > 0 {
      assert a == [a[0]] + a[1..];
      assert a[0] in multiset(b);
      var k :| 0 <= k < |b| && b[k] == a[0];
      var rest := b[..k] + b[k + 1..];
      assert b == b[..k] + [b[k]] + b[k + 1..];
      assert multiset(rest) == multiset(b) - multiset{b[k]};
      SumOfPermutation(a[1..], rest);
      SumAppend(b[..k] + [b[k]], b[k + 1..]);
      SumAppend(b[..k], [b[k]]);
      SumAppend(b[..k], b[k + 1..]);
      assert Sum([b[k]]) == b[k] by { assert [b[k]][1..] == []; }
    }
  }

  /** The mean does not depend on the order of the values. */
  lemma AverageOfPermutation(a: seq<real>, b: seq<real>)
    requires |a| > 0 && multiset(a) == multiset(b)
    ensures |b| == |a| && Average(a) == Average(b)
  {
    assert |multiset(a)| == |multiset(b)|;
    SumOfPermutation(a, b);
  }

  lemma {:induction false} SumBounds(xs: seq<real>, lo: real, hi: real)
    requires forall i :: 0 <= i < |xs| ==> lo <= xs[i] <= hi
    ensures (|xs| as real) * lo <= Sum(xs) <= (|xs| as real) * hi
  {
    if |xs| > 0 {
      SumBounds(xs[1..], lo, hi);
    }
  }

  /** The mean lies between any lower and upper bound of the values. */
  lemma AverageWithin(xs: seq<real>, lo: real, hi: real)
    requires |xs| > 0
    requires forall i :: 0 <= i < |xs| ==> lo <= xs[i] <= hi
    ensures lo <= Average(xs) <= hi
  {
    SumBounds(xs, lo, hi);
    QuotientBetween(Sum(xs), |xs| as real, lo, hi);
  }

  /** The example of the test script test_q3.py: the mean of 1 and 3 is 2. */
  lemma AverageExample()
    ensures Average([1.0, 3.0]) == 2.0
  {
    assert Sum([1.0, 3.0]) == 4.0 by {
      assert [1.0, 3.0][1..] == [3.0];
      assert [3.0][1..] == [];
    }
  }

  predicate SortedUp(s: seq<real>) {
    forall i, j :: 0 <= i < j < |s| ==> s[i] <= s[j]
  }

  /** Insert `x` into a sorted list, before the first element larger than it. */
  function Insert(x: real, s: seq<real>): (r: seq<real>)
    requires SortedUp(s)
    ensures SortedUp(r)
    ensures multiset(r) == multiset(s) + multiset{x}
  {
    if |s| == 0 then [x]
    else if x <= s[0] then [x] + s
    else
      var rest := Insert(x, s[1..]);
      assert s == [s[0]] + s[1..];
      LowerBoundKept(s[0], x, s[1..], rest);
      [s[0]] + rest
  }

  /** A lower bound of a list and of `x` bounds every list with the same values plus `x`. */
  lemma LowerBoundKept(lo: real, x: real, t: seq<real>, r: seq<real>)
    requires lo <= x && forall k :: 0 <= k < |t| ==> lo <= t[k]
    requires multiset(r) == multiset(t) + multiset{x}
    ensures forall k :: 0 <= k < |r| ==> lo <= r[k]
  {
    forall k | 0 <= k < |r| ensures lo <= r[k] {
      assert r[k] in multiset(r);
      if r[k] != x {
        assert r[k] in multiset(t);
        assert r[k] in t;
      }
    }
  }

  /** The values in ascending order: a sorted permutation of the input. */
  function Sorted(xs: seq<real>): (r: seq<real>)
    ensures SortedUp(r)
    ensures multiset(r) == multiset(xs)
  {
    if |xs| == 0 then []
    else
      assert xs == [xs[0]] + xs[1..];
      Insert(xs[0], Sorted(xs[1..]))
  }

  /** Two sorted lists with the same values are the same list. */
  lemma {:induction false} SortedUnique(a: seq<real>, b: seq<real>)
    requires SortedUp(a) && SortedUp(b) && multiset(a) == multiset(b)
    ensures a == b
    decreases |a|
  {
    assert |a| == |multiset(a)| == |multiset(b)| == |b|;
    if |a| > 0 {
      SortedHeads(a, b);
      TailCounts(a, b);
      SortedUnique(a[1..], b[1..]);
      assert a == [a[0]] + a[1..];
      assert b == [b[0]] + b[1..];
    }
  }

  /** Two sorted lists with the same elements start with the same element. */
  lemma SortedHeads(a: seq<real>, b: seq<real>)
    requires SortedUp(a) && SortedUp(b) && multiset(a) == multiset(b) && |a| > 0 && |b| > 0
    ensures a[0] == b[0]
  {
    assert b[0] in multiset(b) && a[0] in multiset(a);
    var i :| 0 <= i < |a| && a[i] == b[0];
    var j :| 0 <= j < |b| && b[j] == a[0];
    assert a[0] <= a[i] && b[0] <= b[j];
  }

  /** Removing the same first element from two lists with the same elements leaves the same elements. */
  lemma TailCounts(a: seq<real>, b: seq<real>)
    requires multiset(a) == multiset(b) && |a| > 0 && |b| > 0 && a[0] == b[0]
    ensures multiset(a[1..]) == multiset(b[1..])
  {
    assert a == [a[0]] + a[1..];
    assert b == [b[0]] + b[1..];
    assert multiset(a[1..]) == multiset(a) - multiset{a[0]};
    assert multiset(b[1..]) == multiset(b) - multiset{b[0]};
  }

  /**
    The median of a non-empty list: the middle sorted value, or the mean of
    the two middle ones; either way the mean of two of the values.
   */
  function MiddleValue(xs: seq<real>): (m: real)
    requires |xs| > 0
    ensures exists i, j :: 0 <= i < |xs| && 0 <= j < |xs| && m == (xs[i] + xs[j]) / 2.0
    ensures |xs| % 2 == 1 ==> m in xs
  {
    var s := Sorted(xs);
    assert |s| == |multiset(s)| == |multiset(xs)| == |xs|;
    var n := |s|;
    var lo, hi := if n % 2 == 1 then n / 2 else n / 2 - 1, n / 2;
    assert s[lo] in multiset(s) && s[hi] in multiset(s);
    assert s[lo] in xs && s[hi] in xs;
    assert exists i, j :: 0 <= i < |xs| && 0 <= j < |xs| && xs[i] == s[lo] && xs[j] == s[hi];
    Middle(s)
  }

  /** The middle element of a non-empty list, or the mean of the two middle ones. */
  function Middle(s: seq<real>): real
    requires |s| > 0
  {
    var n := |s|;
    if n % 2 == 1 then s[n / 2] else (s[n / 2 - 1] + s[n / 2]) / 2.0
  }

  /** The median does not depend on the order of the values. */
  lemma MiddleValueOfPermutation(a: seq<real>, b: seq<real>)
    requires |a| > 0 && multiset(a) == multiset(b)
    ensures |b| == |a| && MiddleValue(a) == MiddleValue(b)
  {
    assert |multiset(a)| == |multiset(b)|;
    var sa, sb := Sorted(a), Sorted(b);
    SortedUnique(sa, sb);
    assert MiddleValue(a) == Middle(sa);
    assert MiddleValue(b) == Middle(sb);
  }

  /** The median lies between any lower and upper bound of the values. */
  lemma MiddleValueWithin(xs: seq<real>, lo: real, hi: real)
    requires |xs| > 0
    requires forall i :: 0 <= i < |xs| ==> lo <= xs[i] <= hi
    ensures lo <= MiddleValue(xs) <= hi
  {
    var s := Sorted(xs);
    forall k | 0 <= k < |s| ensures lo <= s[k] <= hi {
      assert s[k] in multiset(s);
      assert s[k] in multiset(xs);
      assert s[k] in xs;
    }
  }

  /** The number filling the missing cells: the mean or median of the values, or NaN when there are none. */
  function Statistic(strategy: Strategy, xs: seq<real>): (r: Cell)
    requires strategy != ForwardFill
    ensures r == Null <==> |xs| == 0
    ensures |xs| > 0 ==> r.Num? && xs[ArgMin(xs)] <= r.x <= xs[ArgMax(xs)]
  {
    if |xs| == 0 then Null
    else if strategy == Mean then Num(Average(xs))
    else
      MiddleValueWithin(xs, xs[ArgMin(xs)], xs[ArgMax(xs)]);
      Num(MiddleValue(xs))
  }

  /**
    The column a strategy gives for column `c` of a table, when the column
    exists: mean and median fail on a text cell; every present cell is kept.
   */
  function Imputed(t: Table, c: string, strategy: Strategy): (r: Result<seq<Cell>>)
    requires WellFormed(t) && c in t.columns
    ensures r.Success? <==> strategy == ForwardFill || forall i :: 0 <= i < |t.rows| ==> !t.rows[i][c].Str?
    ensures r.Failure? ==> r.error == TypeMismatch
    ensures r.Success? ==> |r.value| == |t.rows|
    ensures r.Success? ==> forall i :: 0 <= i < |t.rows| && t.rows[i][c] != Null ==> r.value[i] == t.rows[i][c]
  {
    var col := Column(t, c);
    if strategy == ForwardFill then
      assert forall i :: 0 <= i < |col| && col[i] != Null ==> ForwardFilled(col)[i] == col[i];
      Success(ForwardFilled(col))
    else
      var xs :- NumericValues(col);
      Success(FilledWith(col, Statistic(strategy, xs)))
  }

  /**
    Mean and median fill: with `xs` the present numbers of the column, in any
    order, every missing cell gets the mean or median of `xs` (NaN when there
    are none) and every present cell is kept.
   */
  lemma StatisticFillsMissing(t: Table, c: string, strategy: Strategy, xs: seq<real>)
    requires WellFormed(t) && c in t.columns && strategy != ForwardFill
    requires forall i :: 0 <= i < |t.rows| ==> !t.rows[i][c].Str?
    requires forall x :: multiset(xs)[x] == multiset(Column(t, c))[Num(x)]
    ensures Imputed(t, c, strategy).Success?
    ensures forall i :: 0 <= i < |t.rows| ==>
      Imputed(t, c, strategy).value[i] == if t.rows[i][c] == Null then Statistic(strategy, xs) else t.rows[i][c]
    ensures strategy == Mean && |xs| > 0 ==> Statistic(strategy, xs) == Num(Average(xs))
    ensures strategy == Median && |xs| > 0 ==> Statistic(strategy, xs) == Num(MiddleValue(xs))
  {
    FillsWithStatistic(t, c, strategy, xs);
    StatisticIs(strategy, xs);
  }

  /** The fill part of `StatisticFillsMissing`: missing cells get the statistic, present cells stay. */
  lemma FillsWithStatistic(t: Table, c: string, strategy: Strategy, xs: seq<real>)
    requires WellFormed(t) && c in t.columns && strategy != ForwardFill
    requires forall i :: 0 <= i < |t.rows| ==> !t.rows[i][c].Str?
    requires forall x :: multiset(xs)[x] == multiset(Column(t, c))[Num(x)]
    ensures Imputed(t, c, strategy).Success?
    ensures forall i :: 0 <= i < |t.rows| ==>
      Imputed(t, c, strategy).value[i] == if t.rows[i][c] == Null then Statistic(strategy, xs) else t.rows[i][c]
  {
    var col := Column(t, c);
    ImputedByStatistic(t, c, strategy);
    NumericValuesCounts(col);
    StatisticOfPermutation(strategy, NumericValues(col).value, xs);
    var v := Statistic(strategy, xs);
    var filled := FilledWith(col, v);
    assert Imputed(t, c, strategy) == Success(filled);
    forall i | 0 <= i < |t.rows|
      ensures filled[i] == if t.rows[i][c] == Null then v else t.rows[i][c]
    {
      assert col[i] == t.rows[i][c];
    }
  }

  /** Which number each strategy fills with. */
  lemma StatisticIs(strategy: Strategy, xs: seq<real>)
    requires strategy != ForwardFill
    ensures strategy == Mean && |xs| > 0 ==> Statistic(strategy, xs) == Num(Average(xs))
    ensures strategy == Median && |xs| > 0 ==> Statistic(strategy, xs) == Num(MiddleValue(xs))
  {
  }

  /** Mean and median on a column without text fill with the statistic of the column's numbers. */
  lemma ImputedByStatistic(t: Table, c: string, strategy: Strategy)
    requires WellFormed(t) && c in t.columns && strategy != ForwardFill
    requires forall i :: 0 <= i < |t.rows| ==> !t.rows[i][c].Str?
    ensures NumericValues(Column(t, c)).Success?
    ensures Imputed(t, c, strategy) == Success(FilledWith(Column(t, c), Statistic(strategy, NumericValues(Column(t, c)).value)))
  {
    var col := Column(t, c);
    assert forall i :: 0 <= i < |col| ==> !col[i].Str?;
  }

  /** The fill value does not depend on the order of the numbers. */
  lemma StatisticOfPermutation(strategy: Strategy, ys: seq<real>, xs: seq<real>)
    requires strategy != ForwardFill
    requires forall x :: multiset(ys)[x] == multiset(xs)[x]
    ensures Statistic(strategy, ys) == Statistic(strategy, xs)
  {
    SameCounts(ys, xs);
    assert |multiset(ys)| == |multiset(xs)|;
    if |ys| > 0 {
      AverageOfPermutation(ys, xs);
      MiddleValueOfPermutation(ys, xs);
    }
  }

  /** Two lists in which every number occurs equally often are permutations of each other. */
  lemma {:induction false} SameCounts(a: seq<real>, b: seq<real>)
    requires forall x :: multiset(a)[x] == multiset(b)[x]
    ensures multiset(a) == multiset(b)
    decreases |a|
  {
    if |a| == 0 {
      assert multiset(a) == multiset{};
      var y := if |b| > 0 then b[0] else 0.0;
      assert |b| > 0 ==> multiset(b)[y] > 0;
      assert multiset(a)[y] == multiset(b)[y];
      assert |b| == 0;
    } else {
      var x0, tail := a[0], a[1..];
      assert a == [x0] + tail;
      assert x0 in multiset(a);
      assert multiset(b)[x0] == multiset(a)[x0] > 0;
      var k :| 0 <= k < |b| && b[k] == x0;
      var rest := b[..k] + b[k + 1..];
      assert b == b[..k] + [x0] + b[k + 1..];
      assert multiset(b) == multiset(rest) + multiset{x0};
      assert multiset(a) == multiset(tail) + multiset{x0};
      forall x ensures multiset(tail)[x] == multiset(rest)[x] {
        assert multiset(a)[x] == multiset(b)[x];
      }
      SameCounts(tail, rest);
    }
  }

  /** `out[column] = out[column].ffill()`: carry the last present value down the column. */
  method ForwardFillColumn(rows: seq<Row>, column: string) returns (out: seq<Row>)
    requires HasColumn(rows, column)
    ensures out == WithColumn(rows, column, ForwardFilled(ColumnValues(rows, column)))
  {
    ghost var col := ColumnValues(rows, column);
    ghost var cells := ForwardFilled(col);
    var n := |rows|;
    out := rows;
    var last := Null;
    for i := 0 to n
      invariant |out| == n
      invariant forall k :: 0 <= k < i ==> out[k] == rows[k][column := cells[k]]
      invariant forall k :: i <= k < n ==> out[k] == rows[k]
      invariant last == if i == 0 then Null else Nearest(col, i - 1)
    {
      var c := out[i][column];
      assert c == col[i];
      if c != Null {
        last := c;
      }
      out := out[i := out[i][column := last]];
    }
  }

  /** `out[column] = out[column].fillna(fill)`: every missing cell of the column becomes `fill`. */
  method FillColumn(rows: seq<Row>, column: string, fill: Cell) returns (out: seq<Row>)
    requires HasColumn(rows, column)
    ensures out == WithColumn(rows, column, FilledWith(ColumnValues(rows, column), fill))
  {
    ghost var cells := FilledWith(ColumnValues(rows, column), fill);
    var n := |rows|;
    out := rows;
    for i := 0 to n
      invariant |out| == n
      invariant forall k :: 0 <= k < i ==> out[k] == rows[k][column := cells[k]]
      invariant forall k :: i <= k < n ==> out[k] == rows[k]
    {
      var c := out[i][column];
      out := out[i := out[i][column := if c == Null then fill else c]];
    }
  }

  /**
    `fill_missing`: on a copy of the table, replace column `column` as the
    strategy says; an unknown strategy is a ValueError, checked before the
    column is looked up, and a missing column a KeyError.
   */
  method FillMissing(t: Table, column: string, strategy: string) returns (r: Result<Table>)
    requires WellFormed(t)
    ensures ParseStrategy(strategy).None? ==> r == Failure(UnknownStrategy(strategy))
    ensures ParseStrategy(strategy).Some? && column !in t.columns ==> r == Failure(ColumnNotFound(column))
    ensures ParseStrategy(strategy).Some? && column in t.columns ==>
      match Imputed(t, column, ParseStrategy(strategy).value)
      case Failure(e) => r == Failure(e)
      case Success(cells) => r == Success(Table(t.columns, WithColumn(t.rows, column, cells)))
    ensures r.Success? ==> WellFormed(r.value) && r.value.columns == t.columns
  {
    var parsed := ParseStrategy(strategy);
    if parsed.None? {
      return Failure(UnknownStrategy(strategy));
    }
    if column !in t.columns {
      return Failure(ColumnNotFound(column));
    }
    ColumnOfWellFormed(t, column);
    var col := ColumnValues(t.rows, column);
    var rows;
    if parsed.value == ForwardFill {
      rows := ForwardFillColumn(t.rows, column);
    } else {
      var xs := NumericValues(col);
      if xs.Failure? {
        return Failure(xs.error);
      }
      rows := FillColumn(t.rows, column, Statistic(parsed.value, xs.value));
    }
    WithColumnWellFormed(t, column, Imputed(t, column, parsed.value).value);
    return Success(Table(t.columns, rows));
  }

  /**
    The checks of the test script test_q3.py: after `fill_missing` by mean, median, or by
    forward fill from a present first cell, the column has no missing cell.
   */
  lemma FillLeavesNoMissing(t: Table, c: string, strategy: Strategy)
    requires WellFormed(t) && c in t.columns
    requires Imputed(t, c, strategy).Success?
    requires strategy == ForwardFill ==> |t.rows| > 0 && t.rows[0][c] != Null
    requires strategy != ForwardFill ==> exists i :: 0 <= i < |t.rows| && t.rows[i][c] != Null
    ensures NullCount(Imputed(t, c, strategy).value) == 0
  {
    var col := Column(t, c);
    if strategy == ForwardFill {
      ForwardFillLeavesNoMissing(col);
    } else {
      var xs := NumericValues(col).value;
      var i :| 0 <= i < |t.rows| && t.rows[i][c] != Null;
      assert col[i].Num?;
      assert col[i].x in xs;
      FilledWithMeaning(col, Statistic(strategy, xs));
    }
  }

  /** The mean fill of `[1, NaN, 3]` is `[1, 2, 3]`. */
  lemma MeanFillExample()
    ensures var s := [Num(1.0), Null, Num(3.0)];
      NumericValues(s) == Success([1.0, 3.0]) &&
      FilledWith(s, Statistic(Mean, [1.0, 3.0])) == [Num(1.0), Num(2.0), Num(3.0)]
  {
    MeanFillNumbers();
    AverageExample();
    var s := [Num(1.0), Null, Num(3.0)];
    assert FilledWith(s, Num(2.0)) == [Num(1.0), Num(2.0), Num(3.0)];
  }

  /** The numbers of `[1, NaN, 3]` are `[1, 3]`. */
  lemma MeanFillNumbers()
    ensures NumericValues([Num(1.0), Null, Num(3.0)]) == Success([1.0, 3.0])
  {
    var s := [Num(1.0), Null, Num(3.0)];
    var u, v := [Null, Num(3.0)], [Num(3.0)];
    assert s[1..] == u && u[1..] == v && v[1..] == [];
    assert NumericValues(v) == Success([3.0] + []);
    assert [3.0] + [] == [3.0];
    assert u[0] == Null;
    assert NumericValues(u) == Success([3.0]);
    assert NumericValues(s) == Success([1.0] + [3.0]);
    assert [1.0] + [3.0] == [1.0, 3.0];
  }
}
