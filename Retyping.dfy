/**
  `transform_types` of q3_data_utils.py: convert, in place, each column a
  type map names to the target it names. The conversions themselves
  (`pd.to_datetime`, `pd.to_numeric`, `astype('category')`) are foreign
  library code: they are the parameter `convert`, applied to a whole column,
  so that one cell's result may depend on the others (as when
  `pd.to_datetime` infers one format for the column).
 */
module Retyping {
  import opened Tables

  /** The targets the dispatcher recognises. */
  datatype Target = DateTime | Numeric | Category

  /** The target a type name selects; 'string' and every other name select none. */
  function ParseTarget(name: string): (r: Option<Target>)
    ensures r.Some? <==> name in {"datetime", "numeric", "category"}
    ensures name == "datetime" ==> r == Some(DateTime)
    ensures name == "numeric" ==> r == Some(Numeric)
    ensures name == "category" ==> r == Some(Category)
  {
    if name == "datetime" then Some(DateTime)
    else if name == "numeric" then Some(Numeric)
    else if name == "category" then Some(Category)
    else None
  }

  /** A coercion of a whole column to a target; it keeps the column's length. */
  type Converter = f: (Target, seq<Cell>) -> seq<Cell> | forall target, col :: |f(target, col)| == |col|
    witness (target: Target, col: seq<Cell>) => col

  /** `convert(df[col])`: column `col` converted to `target`, one cell per row. */
  function ConvertedCells(rows: seq<Row>, col: string, target: Target, convert: Converter): (r: seq<Cell>)
    requires HasColumn(rows, col)
    ensures |r| == |rows|
  {
    convert(target, ColumnValues(rows, col))
  }

  /**
    The type map applied entry by entry, in order: an entry with an
    unrecognised target is skipped; one whose column is missing stops with a
    KeyError, leaving the conversions already done in place.
   */
  function Retype(t: Table, entries: seq<(string, string)>, convert: Converter): (r: (Table, Option<Error>))
    requires WellFormed(t)
    ensures WellFormed(r.0) && r.0.columns == t.columns && |r.0.rows| == |t.rows|
    decreases |entries|
  {
    if |entries| == 0 then (t, None)
    else
      var (col, name) := entries[0];
      match ParseTarget(name)
      case None => Retype(t, entries[1..], convert)
      case Some(target) =>
        if col !in t.columns then (t, Some(ColumnNotFound(col)))
        else
          ColumnOfWellFormed(t, col);
          var cells := ConvertedCells(t.rows, col, target, convert);
          WithColumnWellFormed(t, col, cells);
          Retype(Table(t.columns, WithColumn(t.rows, col, cells)), entries[1..], convert)
  }

  /** The entry of the type map for a column, if any (a dict holds each key at most once). */
  function TargetOf(entries: seq<(string, string)>, col: string): (r: Option<string>)
    ensures r.Some? ==> exists k :: 0 <= k < |entries| && entries[k] == (col, r.value)
    ensures r.None? ==> forall k :: 0 <= k < |entries| ==> entries[k].0 != col
  {
    if |entries| == 0 then None
    else if entries[0].0 == col then Some(entries[0].1)
    else
      var r := TargetOf(entries[1..], col);
      assert forall k :: 0 <= k < |entries| - 1 ==> entries[1..][k] == entries[k + 1];
      r
  }

  /**
    A column the type map leaves alone, because it is not named or is named
    with an unrecognised target such as 'string', keeps all its cells.
   */
  lemma {:induction false} RetypeLeavesOthers(t: Table, entries: seq<(string, string)>, convert: Converter, col: string)
    requires WellFormed(t) && col in t.columns
    requires forall k :: 0 <= k < |entries| && entries[k].0 == col ==> ParseTarget(entries[k].1).None?
    ensures Column(Retype(t, entries, convert).0, col) == Column(t, col)
    decreases |entries|
  {
    if |entries| > 0 {
      assert forall k :: 0 <= k < |entries| - 1 ==> entries[1..][k] == entries[k + 1];
      var (c, name) := entries[0];
      match ParseTarget(name)
      case None =>
        RetypeLeavesOthers(t, entries[1..], convert, col);
      case Some(target) =>
        if c in t.columns {
          ColumnOfWellFormed(t, c);
          var cells := ConvertedCells(t.rows, c, target, convert);
          WithColumnWellFormed(t, c, cells);
          var t' := Table(t.columns, WithColumn(t.rows, c, cells));
          RetypeLeavesOthers(t', entries[1..], convert, col);
        }
    }
  }

  /** A type map with no recognised target, such as one that only asks for 'string', changes nothing. */
  lemma {:induction false} RetypeUnrecognised(t: Table, entries: seq<(string, string)>, convert: Converter)
    requires WellFormed(t)
    requires forall k :: 0 <= k < |entries| ==> ParseTarget(entries[k].1).None?
    ensures Retype(t, entries, convert) == (t, None)
    decreases |entries|
  {
    if |entries| > 0 {
      assert forall k :: 0 <= k < |entries| - 1 ==> entries[1..][k] == entries[k + 1];
      RetypeUnrecognised(t, entries[1..], convert);
    }
  }

  /**
    The first entry with a recognised target whose column is not in the table
    stops the call with a KeyError for that column.
   */
  lemma {:induction false} RetypeStopsAtMissingColumn(t: Table, entries: seq<(string, string)>, convert: Converter, k: nat)
    requires WellFormed(t) && k < |entries|
    requires ParseTarget(entries[k].1).Some? && entries[k].0 !in t.columns
    requires forall j :: 0 <= j < k && ParseTarget(entries[j].1).Some? ==> entries[j].0 in t.columns
    ensures Retype(t, entries, convert).1 == Some(ColumnNotFound(entries[k].0))
    decreases |entries|
  {
    if k > 0 {
      assert forall j :: 0 <= j < |entries| - 1 ==> entries[1..][j] == entries[j + 1];
      var (c, name) := entries[0];
      match ParseTarget(name)
      case None =>
        RetypeStopsAtMissingColumn(t, entries[1..], convert, k - 1);
      case Some(target) =>
        ColumnOfWellFormed(t, c);
        var cells := ConvertedCells(t.rows, c, target, convert);
        WithColumnWellFormed(t, c, cells);
        var t' := Table(t.columns, WithColumn(t.rows, c, cells));
        RetypeStopsAtMissingColumn(t', entries[1..], convert, k - 1);
    }
  }

  /**
    When every recognised entry names a column of the table and the map names
    each column at most once, the call succeeds and each such column holds
    the conversion of its original cells.
   */
  lemma {:induction false} RetypeConverts(t: Table, entries: seq<(string, string)>, convert: Converter, col: string)
    requires WellFormed(t) && col in t.columns
    requires Distinct(KeysOf(entries))
    requires forall k :: 0 <= k < |entries| && ParseTarget(entries[k].1).Some? ==> entries[k].0 in t.columns
    ensures Retype(t, entries, convert).1 == None
    ensures TargetOf(entries, col).Some? && ParseTarget(TargetOf(entries, col).value).Some? ==>
      var target := ParseTarget(TargetOf(entries, col).value).value;
      Column(Retype(t, entries, convert).0, col) == convert(target, Column(t, col))
    decreases |entries|
  {
    if |entries| > 0 {
      var rest := entries[1..];
      assert forall k :: 0 <= k < |rest| ==> rest[k] == entries[k + 1];
      assert KeysOf(rest) == KeysOf(entries)[1..];
      var (c, name) := entries[0];
      match ParseTarget(name)
      case None =>
        RetypeConverts(t, rest, convert, col);
      case Some(target) =>
        ColumnOfWellFormed(t, c);
        var cells := ConvertedCells(t.rows, c, target, convert);
        WithColumnWellFormed(t, c, cells);
        var t' := Table(t.columns, WithColumn(t.rows, c, cells));
        RetypeConverts(t', rest, convert, col);
        if c == col {
          forall k | 0 <= k < |rest| ensures rest[k].0 != col {
            assert KeysOf(entries)[k + 1] == rest[k].0;
          }
          RetypeLeavesOthers(t', rest, convert, col);
          assert Column(t', col) == cells;
          assert ColumnValues(t.rows, c) == Column(t, col);
        } else {
          assert Column(t', col) == Column(t, col);
        }
    }
  }

  /** The column names of a type map, in order. */
  function KeysOf(entries: seq<(string, string)>): (r: seq<string>)
    ensures |r| == |entries| && forall k :: 0 <= k < |entries| ==> r[k] == entries[k].0
  {
    seq(|entries|, k requires 0 <= k < |entries| => entries[k].0)
  }

  /** A data frame whose columns `transform_types` converts in place. */
  class Frame {
    var columns: seq<string>
    var rows: seq<Row>

    /** The table the frame holds. */
    function Value(): Table
      reads this
    {
      Table(columns, rows)
    }

    constructor (t: Table)
      ensures Value() == t
    {
      columns := t.columns;
      rows := t.rows;
    }

    /**
      `transform_types`: for each entry of the type map, in order, convert the
      named column in place; an unrecognised target is skipped, a missing
      column stops the loop with a KeyError after the earlier conversions.
     */
    method TransformTypes(typeMap: seq<(string, string)>, convert: Converter) returns (err: Option<Error>)
      requires WellFormed(Value())
      modifies this
      ensures (Value(), err) == Retype(old(Value()), typeMap, convert)
      ensures WellFormed(Value()) && columns == old(columns) && |rows| == old(|rows|)
    {
      var i := 0;
      while i < |typeMap|
        invariant 0 <= i <= |typeMap|
        invariant WellFormed(Value()) && columns == old(columns) && |rows| == old(|rows|)
        invariant Retype(old(Value()), typeMap, convert) == Retype(Value(), typeMap[i..], convert)
      {
        assert typeMap[i..][1..] == typeMap[i + 1..];
        var (col, name) := typeMap[i];
        var target := ParseTarget(name);
        if target.Some? {
          if col !in columns {
            return Some(ColumnNotFound(col));
          }
          ColumnOfWellFormed(Value(), col);
          var current := rows;
          var cells := ConvertedCells(current, col, target.value, convert);
          WithColumnWellFormed(Value(), col, cells);
          rows := WithColumn(current, col, cells);
          assert typeMap[i..][0] == (col, name);
          assert Retype(Table(columns, current), typeMap[i..], convert)
              == Retype(Table(columns, WithColumn(current, col, cells)), typeMap[i..][1..], convert);
        }
        i := i + 1;
      }
      assert typeMap[i..] == [];
      return None;
    }
  }
}
