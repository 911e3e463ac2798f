/**
  `filter_data` of q3_data_utils.py: narrow a table by a list of condition
  specifications, one after the other, each keeping the rows that satisfy it.
 */
module Filtering {
  import opened Tables

  /** The five operators the dispatcher knows. */
  datatype Operator = Equals | GreaterThan | LessThan | InRange | InList

  /** The operator a name selects; any other name is unknown. */
  function ParseOperator(name: string): (r: Option<Operator>)
    ensures r.Some? <==> name in {"equals", "greater_than", "less_than", "in_range", "in_list"}
    ensures name == "equals" ==> r == Some(Equals)
    ensures name == "greater_than" ==> r == Some(GreaterThan)
    ensures name == "less_than" ==> r == Some(LessThan)
    ensures name == "in_range" ==> r == Some(InRange)
    ensures name == "in_list" ==> r == Some(InList)
  {
    if name == "equals" then Some(Equals)
    else if name == "greater_than" then Some(GreaterThan)
    else if name == "less_than" then Some(LessThan)
    else if name == "in_range" then Some(InRange)
    else if name == "in_list" then Some(InList)
    else None
  }

  /** The `value` of a specification: one cell, or a list of cells. */
  datatype FilterValue = Scalar(cell: Cell) | Items(cells: seq<Cell>)

  /**
    One filter specification, a dictionary with the keys `column`,
    `condition`, `operator` and `value`; `None` is a key that is absent.
   */
  datatype FilterSpec = FilterSpec(
    column: Option<string>,
    condition: Option<string>,
    operator: Option<string>,
    value: Option<FilterValue>)

  /** `f.get("condition", f.get("operator"))`: the condition key, or else the operator key. */
  function OperatorName(f: FilterSpec): (r: Option<string>)
    ensures f.condition.Some? ==> r == f.condition
    ensures f.condition.None? ==> r == f.operator
  {
    if f.condition.Some? then f.condition else f.operator
  }

  /** Whether the operator a specification names is one of the five. */
  predicate KnownOperator(f: FilterSpec) {
    OperatorName(f).Some? && ParseOperator(OperatorName(f).value).Some?
  }

  /**
    Whether a value has the shape an operator reads: one cell for the three
    comparisons, a list for `in_list`, a list of exactly two bounds for `in_range`.
   */
  predicate Fits(o: Operator, val: FilterValue) {
    match o
    case InRange => val.Items? && |val.cells| == 2
    case InList => val.Items?
    case _ => val.Scalar?
  }

  /** A specification once read: the test each row's cell in `column` must pass. */
  datatype Test = Eq(v: Cell) | Gt(v: Cell) | Lt(v: Cell) | Between(lo: Cell, hi: Cell) | Among(items: seq<Cell>)
  datatype Condition = Condition(column: string, test: Test)

  /**
    Reading a specification against the table's columns, with the errors in
    the order the dispatcher meets them: the `column` key, the `value` key,
    the operator name; for `in_range`, unpacking the value into two bounds
    comes before the column is looked up; for the others the column comes
    first and the shape of the value after.
   */
  function Parse(f: FilterSpec, columns: seq<string>): (r: Result<Condition>)
    ensures f.column.None? ==> r == Failure(MissingKey("column"))
    ensures f.column.Some? && f.value.None? ==> r == Failure(MissingKey("value"))
    ensures f.column.Some? && f.value.Some? && !KnownOperator(f) ==>
      r == Failure(UnknownCondition(OperatorName(f)))
    ensures f.column.Some? && f.value.Some? && KnownOperator(f) ==>
      var o := ParseOperator(OperatorName(f).value).value;
      if o == InRange && !Fits(o, f.value.value) then r == Failure(BadFilterValue)
      else if f.column.value !in columns then r == Failure(ColumnNotFound(f.column.value))
      else r.Success? <==> Fits(o, f.value.value)
    ensures r.Success? ==> r.value.column == f.column.value && r.value.column in columns
    ensures r.Success? ==> f.value.Some? && KnownOperator(f)
    ensures r.Success? && f.value.Some? && OperatorName(f) == Some("equals") ==>
      f.value.value.Scalar? && r.value.test == Eq(f.value.value.cell)
    ensures r.Success? && f.value.Some? && OperatorName(f) == Some("greater_than") ==>
      f.value.value.Scalar? && r.value.test == Gt(f.value.value.cell)
    ensures r.Success? && f.value.Some? && OperatorName(f) == Some("less_than") ==>
      f.value.value.Scalar? && r.value.test == Lt(f.value.value.cell)
    ensures r.Success? && f.value.Some? && OperatorName(f) == Some("in_range") ==>
      f.value.value.Items? && |f.value.value.cells| == 2 &&
      r.value.test == Between(f.value.value.cells[0], f.value.value.cells[1])
    ensures r.Success? && f.value.Some? && OperatorName(f) == Some("in_list") ==>
      f.value.value.Items? && r.value.test == Among(f.value.value.cells)
  {
    if f.column.None? then Failure(MissingKey("column"))
    else if f.value.None? then Failure(MissingKey("value"))
    else
      var col, val := f.column.value, f.value.value;
      if !KnownOperator(f) then Failure(UnknownCondition(OperatorName(f)))
      else
        var o := ParseOperator(OperatorName(f).value).value;
        if o == InRange then
          if !(val.Items? && |val.cells| == 2) then Failure(BadFilterValue)
          else if col !in columns then Failure(ColumnNotFound(col))
          else Success(Condition(col, Between(val.cells[0], val.cells[1])))
        else if col !in columns then Failure(ColumnNotFound(col))
        else match (o, val)
          case (Equals, Scalar(v)) => Success(Condition(col, Eq(v)))
          case (GreaterThan, Scalar(v)) => Success(Condition(col, Gt(v)))
          case (LessThan, Scalar(v)) => Success(Condition(col, Lt(v)))
          case (InList, Items(vs)) => Success(Condition(col, Among(vs)))
          case _ => Failure(BadFilterValue)
  }

  /**
    The mask value of one cell: whether it passes the test, or a TypeError.
    Only the ordering tests can fail; a missing cell passes no comparison, and
    is in a list only when the list holds a missing cell.
   */
  function Holds(test: Test, c: Cell): (r: Result<bool>)
    ensures r.Failure? ==> r.error == TypeMismatch
    ensures test.Eq? || test.Among? ==> r.Success?
    ensures c == Null ==> r == Success(test.Among? && Null in test.items)
  {
    match test
    case Eq(v) => Success(Equal(c, v))
    case Gt(v) => Less(v, c)
    case Lt(v) => Less(c, v)
    case Between(lo, hi) =>
      var above :- LessEq(lo, c);
      var below :- LessEq(c, hi);
      Success(above && below)
    case Among(vs) => Success(c in vs)
  }

  /** On numbers, each operator is the comparison it names; `in_range` includes both bounds. */
  lemma NumericSemantics(x: real, v: real, lo: real, hi: real, vs: seq<Cell>)
    ensures Holds(Eq(Num(v)), Num(x)) == Success(x == v)
    ensures Holds(Gt(Num(v)), Num(x)) == Success(x > v)
    ensures Holds(Lt(Num(v)), Num(x)) == Success(x < v)
    ensures Holds(Between(Num(lo), Num(hi)), Num(x)) == Success(lo <= x <= hi)
    ensures Holds(Among(vs), Num(x)) == Success(Num(x) in vs)
  {
  }

  /** On texts, equals is equality and the orderings are Python's string order. */
  lemma TextSemantics(w: string, u: string, lo: string, hi: string)
    ensures Holds(Eq(Str(u)), Str(w)) == Success(w == u)
    ensures Holds(Gt(Str(u)), Str(w)) == Success(TextLess(u, w))
    ensures Holds(Lt(Str(u)), Str(w)) == Success(TextLess(w, u))
    ensures Holds(Between(Str(lo), Str(hi)), Str(w)) ==
      Success((TextLess(lo, w) || lo == w) && (TextLess(w, hi) || w == hi))
  {
    TextRange(w, lo, hi);
  }

  /** `in_range` on texts: both bounds compared by the text order, both included. */
  lemma TextRange(w: string, lo: string, hi: string)
    ensures Holds(Between(Str(lo), Str(hi)), Str(w)) ==
      Success((TextLess(lo, w) || lo == w) && (TextLess(w, hi) || w == hi))
  {
    var above, below := TextLess(lo, w) || lo == w, TextLess(w, hi) || w == hi;
    assert LessEq(Str(lo), Str(w)) == Success(above);
    assert LessEq(Str(w), Str(hi)) == Success(below);
  }

  /** Comparing a number with a text by an ordering is a TypeError, in either direction. */
  lemma MixedOrderingFails(x: real, u: string)
    ensures Holds(Gt(Str(u)), Num(x)) == Failure(TypeMismatch)
    ensures Holds(Lt(Num(x)), Str(u)) == Failure(TypeMismatch)
    ensures Holds(Eq(Str(u)), Num(x)) == Success(false)
  {
  }

  /** Whether row `r` passes condition `c`. */
  predicate Passes(c: Condition, r: Row)
    requires c.column in r
  {
    Holds(c.test, r[c.column]) == Success(true)
  }

  /** `out[mask]` for one condition: the rows that pass, in order; a TypeError on any row fails it all. */
  function Narrow(rows: seq<Row>, c: Condition): (r: Result<seq<Row>>)
    requires HasColumn(rows, c.column)
    ensures r.Success? <==> forall i :: 0 <= i < |rows| ==> Holds(c.test, rows[i][c.column]).Success?
    ensures r.Success? ==> |r.value| <= |rows| && forall x :: x in r.value ==> x in rows
  {
    if |rows| == 0 then Success([])
    else
      match Holds(c.test, rows[0][c.column])
      case Failure(e) => Failure(e)
      case Success(keep) =>
        match Narrow(rows[1..], c)
        case Failure(e) => Failure(e)
        case Success(rest) => Success(if keep then [rows[0]] + rest else rest)
  }

  /** One pass of the dispatcher's loop: read the specification, then narrow the table. */
  function Step(t: Table, f: FilterSpec): (r: Result<Table>)
    requires WellFormed(t)
    ensures r.Success? ==> WellFormed(r.value) && r.value.columns == t.columns && |r.value.rows| <= |t.rows|
  {
    match Parse(f, t.columns)
    case Failure(e) => Failure(e)
    case Success(c) =>
      ColumnOfWellFormed(t, c.column);
      match Narrow(t.rows, c)
      case Failure(e) => Failure(e)
      case Success(rows) => Success(Table(t.columns, rows))
  }

  /** The result of the dispatcher on a list of specifications: each narrows what the previous left. */
  function ApplyFilters(t: Table, filters: seq<FilterSpec>): (r: Result<Table>)
    requires WellFormed(t)
    ensures r.Success? ==> WellFormed(r.value) && r.value.columns == t.columns && |r.value.rows| <= |t.rows|
    decreases |filters|
  {
    if |filters| == 0 then Success(t)
    else
      match Step(t, filters[0])
      case Failure(e) => Failure(e)
      case Success(t') => ApplyFilters(t', filters[1..])
  }

  /**
    `filter_data`: starting from a copy of the table, apply the specifications
    in order, each to the rows the earlier ones kept.
   */
  method FilterData(t: Table, filters: seq<FilterSpec>) returns (r: Result<Table>)
    requires WellFormed(t)
    ensures r == ApplyFilters(t, filters)
    ensures |filters| == 0 ==> r == Success(t)
    ensures r.Success? ==> WellFormed(r.value) && r.value.columns == t.columns && |r.value.rows| <= |t.rows|
    ensures r.Success? ==>
      ParseAll(filters, t.columns).Success? &&
      (forall i :: 0 <= i < |t.rows| ==> Covers(ParseAll(filters, t.columns).value, t.rows[i])) &&
      r.value.rows == Select(t.rows, ParseAll(filters, t.columns).value)
    ensures (exists k :: 0 <= k < |filters| && !KnownOperator(filters[k])) ==> r.Failure?
  {
    var out := t;
    var i := 0;
    while i < |filters|
      invariant 0 <= i <= |filters|
      invariant WellFormed(out) && out.columns == t.columns && |out.rows| <= |t.rows|
      invariant ApplyFilters(t, filters) == ApplyFilters(out, filters[i..])
    {
      assert filters[i..][1..] == filters[i + 1..];
      var step := Step(out, filters[i]);
      if step.Failure? {
        r := Failure(step.error);
        if exists k :: 0 <= k < |filters| && !KnownOperator(filters[k]) {
          var k :| 0 <= k < |filters| && !KnownOperator(filters[k]);
          UnknownOperatorFails(t, filters, k);
        }
        return;
      }
      out := step.value;
      i := i + 1;
    }
    assert filters[i..] == [];
    FilterSelects(t, filters);
    return Success(out);
  }

  // ---------------------------------------------------------------- what the result is

  /** Every condition's column is a column of `r`. */
  ghost predicate Covers(conds: seq<Condition>, r: Row) {
    forall k :: 0 <= k < |conds| ==> conds[k].column in r
  }

  /** Whether row `r` passes every condition. */
  predicate PassesAll(conds: seq<Condition>, r: Row)
    requires Covers(conds, r)
  {
    forall k :: 0 <= k < |conds| ==> Passes(conds[k], r)
  }

  /** The rows that pass every condition, in their original order: the reference answer. */
  function Select(rows: seq<Row>, conds: seq<Condition>): (r: seq<Row>)
    requires forall i :: 0 <= i < |rows| ==> Covers(conds, rows[i])
    ensures |r| <= |rows|
  {
    if |rows| == 0 then []
    else (if PassesAll(conds, rows[0]) then [rows[0]] else []) + Select(rows[1..], conds)
  }

  /** The selected rows are input rows that pass every condition, and every input row that passes is selected. */
  lemma {:induction false} SelectMeaning(rows: seq<Row>, conds: seq<Condition>)
    requires forall i :: 0 <= i < |rows| ==> Covers(conds, rows[i])
    ensures forall x :: x in Select(rows, conds) ==> x in rows && Covers(conds, x) && PassesAll(conds, x)
    ensures forall i :: 0 <= i < |rows| && PassesAll(conds, rows[i]) ==> rows[i] in Select(rows, conds)
  {
    if |rows| > 0 {
      SelectMeaning(rows[1..], conds);
      forall i | 0 <= i < |rows| && PassesAll(conds, rows[i]) ensures rows[i] in Select(rows, conds) {
        if i > 0 {
          assert rows[1..][i - 1] == rows[i];
        }
      }
    }
  }

  /** The specifications read against the columns, each in turn; the first that cannot be read is the error. */
  function ParseAll(filters: seq<FilterSpec>, columns: seq<string>): (r: Result<seq<Condition>>)
    ensures r.Success? ==> |r.value| == |filters|
    ensures r.Success? ==> forall k :: 0 <= k < |filters| ==> Parse(filters[k], columns) == Success(r.value[k])
  {
    if |filters| == 0 then Success([])
    else
      match Parse(filters[0], columns)
      case Failure(e) => Failure(e)
      case Success(c) =>
        match ParseAll(filters[1..], columns)
        case Failure(e) => Failure(e)
        case Success(cs) => Success([c] + cs)
  }

  /** Narrowing by one condition keeps the rows that pass it. */
  lemma {:induction false} NarrowSelects(rows: seq<Row>, c: Condition)
    requires HasColumn(rows, c.column)
    requires Narrow(rows, c).Success?
    ensures Narrow(rows, c).value == Select(rows, [c])
  {
    if |rows| > 0 {
      NarrowSelects(rows[1..], c);
      assert PassesAll([c], rows[0]) <==> Passes(c, rows[0]) by {
        assert [c][0] == c;
      }
    }
  }

  /** Selecting by one condition and then by more is selecting by all of them. */
  lemma {:induction false} SelectCompose(rows: seq<Row>, c: Condition, conds: seq<Condition>)
    requires forall i :: 0 <= i < |rows| ==> Covers([c] + conds, rows[i])
    ensures forall i :: 0 <= i < |rows| ==> Covers([c], rows[i]) && Covers(conds, rows[i])
    ensures forall x :: x in Select(rows, [c]) ==> Covers(conds, x)
    ensures Select(Select(rows, [c]), conds) == Select(rows, [c] + conds)
  {
    forall i | 0 <= i < |rows| ensures Covers([c], rows[i]) && Covers(conds, rows[i]) {
      CoversCons(c, conds, rows[i]);
    }
    SelectMeaning(rows, [c]);
    if |rows| > 0 {
      SelectCompose(rows[1..], c, conds);
      var r := rows[0];
      CoversCons(c, conds, r);
      var head := if PassesAll([c], r) then [r] else [];
      assert Select(rows, [c]) == head + Select(rows[1..], [c]);
      SelectAppend(head, Select(rows[1..], [c]), conds);
      assert Select(head, conds) == if PassesAll([c] + conds, r) then [r] else [];
    }
  }

  /** A row covered by `[c] + conds` is covered by `[c]` and by `conds`, and passes both exactly when it passes all. */
  lemma CoversCons(c: Condition, conds: seq<Condition>, r: Row)
    requires Covers([c] + conds, r)
    ensures Covers([c], r) && Covers(conds, r)
    ensures PassesAll([c] + conds, r) <==> PassesAll([c], r) && PassesAll(conds, r)
  {
    assert ([c] + conds)[0] == c;
    assert forall k :: 0 <= k < |conds| ==> ([c] + conds)[k + 1] == conds[k];
  }

  /** Selection distributes over concatenation. */
  lemma {:induction false} SelectAppend(a: seq<Row>, b: seq<Row>, conds: seq<Condition>)
    requires forall i :: 0 <= i < |a| ==> Covers(conds, a[i])
    requires forall i :: 0 <= i < |b| ==> Covers(conds, b[i])
    ensures forall i :: 0 <= i < |a + b| ==> Covers(conds, (a + b)[i])
    ensures Select(a + b, conds) == Select(a, conds) + Select(b, conds)
  {
    if |a| > 0 {
      assert (a + b)[1..] == a[1..] + b;
      SelectAppend(a[1..], b, conds);
    } else {
      assert a + b == b;
    }
  }

  /**
    `filter_data` returns exactly the input rows that satisfy every
    condition, in their original order; all specifications could be read.
   */
  lemma {:induction false} FilterSelects(t: Table, filters: seq<FilterSpec>)
    requires WellFormed(t)
    requires ApplyFilters(t, filters).Success?
    ensures ParseAll(filters, t.columns).Success?
    ensures forall i :: 0 <= i < |t.rows| ==> Covers(ParseAll(filters, t.columns).value, t.rows[i])
    ensures ApplyFilters(t, filters).value == Table(t.columns, Select(t.rows, ParseAll(filters, t.columns).value))
    decreases |filters|
  {
    var conds := ParseAll(filters, t.columns);
    if |filters| == 0 {
      assert forall i :: 0 <= i < |t.rows| ==> t.rows[i] in t.rows;
      SelectAll(t.rows);
    } else {
      var c := Parse(filters[0], t.columns).value;
      ColumnOfWellFormed(t, c.column);
      NarrowSelects(t.rows, c);
      var mid := Step(t, filters[0]).value;
      FilterSelects(mid, filters[1..]);
      var cs := ParseAll(filters[1..], t.columns).value;
      assert conds.value == [c] + cs;
      forall i | 0 <= i < |t.rows| ensures Covers([c] + cs, t.rows[i]) {
        assert t.rows[i] in t.rows;
        forall k | 0 <= k < |[c] + cs| ensures ([c] + cs)[k].column in t.rows[i] {
          assert ([c] + cs)[k].column in t.columns;
        }
      }
      SelectCompose(t.rows, c, cs);
    }
  }

  /** With no conditions every row is selected. */
  lemma {:induction false} SelectAll(rows: seq<Row>)
    ensures Select(rows, []) == rows
  {
    if |rows| > 0 {
      SelectAll(rows[1..]);
    }
  }

  /**
    Filtering by more specifications keeps no more rows: the rows kept by
    `filters + more` are the rows of the result of `filters` filtered by `more`.
   */
  lemma {:induction false} FilterAppend(t: Table, filters: seq<FilterSpec>, more: seq<FilterSpec>)
    requires WellFormed(t)
    ensures ApplyFilters(t, filters + more) ==
      match ApplyFilters(t, filters)
      case Failure(e) => Failure(e)
      case Success(out) => ApplyFilters(out, more)
    ensures ApplyFilters(t, filters).Success? && ApplyFilters(t, filters + more).Success? ==>
      |ApplyFilters(t, filters + more).value.rows| <= |ApplyFilters(t, filters).value.rows|
    decreases |filters|
  {
    if |filters| == 0 {
      assert filters + more == more;
    } else {
      assert (filters + more)[1..] == filters[1..] + more;
      assert (filters + more)[0] == filters[0];
      if Step(t, filters[0]).Success? {
        FilterAppend(Step(t, filters[0]).value, filters[1..], more);
      }
    }
  }

  /** A specification whose operator is none of the five names makes the whole call fail. */
  lemma {:induction false} UnknownOperatorFails(t: Table, filters: seq<FilterSpec>, k: nat)
    requires WellFormed(t)
    requires k < |filters|
    requires !KnownOperator(filters[k])
    ensures ApplyFilters(t, filters).Failure?
    decreases k
  {
    if k > 0 && Step(t, filters[0]).Success? {
      assert filters[1..][k - 1] == filters[k];
      UnknownOperatorFails(Step(t, filters[0]).value, filters[1..], k - 1);
    }
  }

  /**
    The example of the test script test_q3.py: ages 10, 25, 40 and 80 filtered with
    `in_range` 18 to 65 leave the rows with ages 25 and 40.
   */
  lemma InRangeExample()
    ensures var row := (a: real) => map["age" := Num(a)];
      var t := Table(["age"], [row(10.0), row(25.0), row(40.0), row(80.0)]);
      var spec := FilterSpec(Some("age"), Some("in_range"), None, Some(Items([Num(18.0), Num(65.0)])));
      WellFormed(t) && ApplyFilters(t, [spec]) == Success(Table(["age"], [row(25.0), row(40.0)]))
  {
    var a: Row, b: Row, c: Row, d: Row := map["age" := Num(10.0)], map["age" := Num(25.0)], map["age" := Num(40.0)], map["age" := Num(80.0)];
    var t := Table(["age"], [a, b, c, d]);
    var spec := FilterSpec(Some("age"), Some("in_range"), None, Some(Items([Num(18.0), Num(65.0)])));
    var cond := Condition("age", Between(Num(18.0), Num(65.0)));
    assert ColumnSet(t) == {"age"};
    InRangeParses();
    InRangeNarrows();
    assert Step(t, spec) == Success(Table(["age"], [b, c]));
    assert [spec][1..] == [];
  }

  /** The `in_range` specification of the example reads as a closed range on `age`. */
  lemma InRangeParses()
    ensures Parse(FilterSpec(Some("age"), Some("in_range"), None, Some(Items([Num(18.0), Num(65.0)]))), ["age"])
      == Success(Condition("age", Between(Num(18.0), Num(65.0))))
  {
  }

  /** The rows of the example that the range keeps. */
  lemma InRangeNarrows()
    ensures var row := (a: real) => map["age" := Num(a)];
      Narrow([row(10.0), row(25.0), row(40.0), row(80.0)], Condition("age", Between(Num(18.0), Num(65.0))))
        == Success([row(25.0), row(40.0)])
  {
    var a: Row, b: Row, c: Row, d: Row := map["age" := Num(10.0)], map["age" := Num(25.0)], map["age" := Num(40.0)], map["age" := Num(80.0)];
    var cond := Condition("age", Between(Num(18.0), Num(65.0)));
    NumericSemantics(10.0, 0.0, 18.0, 65.0, []);
    NumericSemantics(25.0, 0.0, 18.0, 65.0, []);
    NumericSemantics(40.0, 0.0, 18.0, 65.0, []);
    NumericSemantics(80.0, 0.0, 18.0, 65.0, []);
    assert [d][1..] == [];
    assert Narrow([d], cond) == Success([]);
    assert [c, d][1..] == [d];
    assert Holds(cond.test, c["age"]) == Success(true);
    assert [c] + [] == [c];
    assert Narrow([c, d], cond) == Success([c]);
    assert [b, c, d][1..] == [c, d];
    assert Holds(cond.test, b["age"]) == Success(true);
    assert [b] + [c] == [b, c];
    assert Narrow([b, c, d], cond) == Success([b, c]);
    assert [a, b, c, d][1..] == [b, c, d];
  }
}
