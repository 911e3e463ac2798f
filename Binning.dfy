/**
  `create_bins` of q3_data_utils.py: add to a copy of the table one column
  that gives each value of a numeric column the label of its interval,
  as `pd.cut(..., include_lowest=True)` does.
 */
module Binning {
  import opened Tables

  predicate NonDecreasing(edges: seq<real>) {
    forall i, j :: 0 <= i < j < |edges| ==> edges[i] <= edges[j]
  }

  /**
    Edges `cut` accepts: increasing, and without repeats unless there are
    exactly two. So edges other than a pair are strictly increasing.
   */
  function ValidEdges(edges: seq<real>): (r: bool)
    ensures r ==> forall i :: 0 <= i < |edges| - 1 ==> edges[i] <= edges[i + 1]
    ensures r && |edges| != 2 ==> forall i :: 0 <= i < |edges| - 1 ==> edges[i] < edges[i + 1]
  {
    NonDecreasing(edges) && (Distinct(edges) || |edges| == 2)
  }

  /**
    Labels `cut` accepts for these edges: one per interval, no repeats, so
    that a label names exactly one interval, and no missing label, since the
    labels become the categories of the result and a category cannot be null.
   */
  function ValidLabels(edges: seq<real>, labels: seq<Cell>): (r: bool)
    ensures r <==> (|labels| == |edges| - 1 && Null !in labels &&
      forall i, j :: 0 <= i < |labels| && 0 <= j < |labels| && labels[i] == labels[j] ==> i == j)
  {
    Distinct(labels) && |labels| == |edges| - 1 && Null !in labels
  }

  /**
    Value `x` lies in interval `i`: `edges[i] < x <= edges[i + 1]`, and the
    first interval is closed on the left as well.
   */
  predicate InBin(edges: seq<real>, x: real, i: int) {
    0 <= i < |edges| - 1 && (edges[i] < x <= edges[i + 1] || (i == 0 && x == edges[0]))
  }

  /** With increasing edges a value lies in at most one interval. */
  lemma BinUnique(edges: seq<real>, x: real, i: int, j: int)
    requires NonDecreasing(edges)
    requires InBin(edges, x, i) && InBin(edges, x, j)
    ensures i == j
  {
  }

  /** A value lies in some interval exactly when it is within the outer edges. */
  lemma BinExists(edges: seq<real>, x: real)
    requires NonDecreasing(edges) && |edges| >= 2
    ensures (exists i :: InBin(edges, x, i)) <==> edges[0] <= x <= edges[|edges| - 1]
  {
    if edges[0] < x <= edges[|edges| - 1] {
      var k := 1;
      while edges[k] < x
        invariant 1 <= k < |edges|
        invariant edges[k - 1] < x
        decreases |edges| - k
      {
        k := k + 1;
      }
      assert InBin(edges, x, k - 1);
    } else if x == edges[0] {
      assert InBin(edges, x, 0);
    }
  }

  /**
    `searchsorted(x, side="left")` by binary search: the position of the
    first edge that is not below `x`.
   */
  method SearchSorted(edges: seq<real>, x: real) returns (k: nat)
    requires NonDecreasing(edges)
    ensures k <= |edges|
    ensures forall i :: 0 <= i < k ==> edges[i] < x
    ensures forall i :: k <= i < |edges| ==> x <= edges[i]
  {
    var lo, hi := 0, |edges|;
    while lo < hi
      invariant 0 <= lo <= hi <= |edges|
      invariant forall i :: 0 <= i < lo ==> edges[i] < x
      invariant forall i :: hi <= i < |edges| ==> x <= edges[i]
      decreases hi - lo
    {
      var mid := (lo + hi) / 2;
      if edges[mid] < x {
        lo := mid + 1;
      } else {
        hi := mid;
      }
    }
    k := lo;
  }

  /** The label `cut` gives a cell: that of its interval, or missing when it has none or is missing. */
  ghost function Label(edges: seq<real>, labels: seq<Cell>, c: Cell): (r: Cell)
    requires |labels| == |edges| - 1
    ensures r == Null || r in labels
    ensures !c.Num? ==> r == Null
  {
    match c
    case Num(x) =>
      if exists i :: InBin(edges, x, i) then
        var i :| InBin(edges, x, i);
        labels[i]
      else Null
    case _ => Null
  }

  /** What `Label` gives, case by case. */
  lemma LabelMeaning(edges: seq<real>, labels: seq<Cell>, x: real, i: int)
    requires NonDecreasing(edges) && |labels| == |edges| - 1
    ensures InBin(edges, x, i) ==> Label(edges, labels, Num(x)) == labels[i]
    ensures (forall j :: !InBin(edges, x, j)) ==> Label(edges, labels, Num(x)) == Null
  {
    if InBin(edges, x, i) {
      var j :| InBin(edges, x, j) && Label(edges, labels, Num(x)) == labels[j];
      BinUnique(edges, x, i, j);
    }
  }

  /**
    One value through `cut`: search the edges, move a value equal to the
    lowest edge into the first interval, and read off the label.
   */
  method CutCell(edges: seq<real>, labels: seq<Cell>, c: Cell) returns (r: Cell)
    requires NonDecreasing(edges) && |labels| == |edges| - 1
    ensures r == Label(edges, labels, c)
  {
    match c {
      case Num(x) =>
        var ids := SearchSorted(edges, x);
        if |edges| > 0 && x == edges[0] {
          ids := 1;
        }
        if ids == 0 || ids == |edges| {
          r := Null;
          if ids == 0 {
            assert forall j :: 0 <= j < |edges| ==> x < edges[j];
          } else if |edges| > 1 {
            assert forall j :: 0 <= j < |edges| ==> edges[j] < x;
          }
          LabelMeaning(edges, labels, x, 0);
        } else {
          r := labels[ids - 1];
          assert InBin(edges, x, ids - 1);
          LabelMeaning(edges, labels, x, ids - 1);
        }
      case _ =>
        r := Null;
    }
  }

  /** The name of the new column: `new_column` unless it is missing or empty, else `"{column}_bins"`. */
  function BinColumnName(column: string, newColumn: Option<string>): (name: string)
    ensures newColumn.Some? && newColumn.value != "" ==> name == newColumn.value
    ensures newColumn.None? || newColumn.value == "" ==> name == column + "_bins"
  {
    if newColumn.Some? && newColumn.value != "" then newColumn.value else column + "_bins"
  }

  /** The columns after `out[name] = ...`: unchanged when the name is taken, else the name appended. */
  function AddColumnName(columns: seq<string>, name: string): (r: seq<string>)
    ensures name in r && forall c :: c in columns ==> c in r
    ensures |r| == |columns| + (if name in columns then 0 else 1)
  {
    if name in columns then columns else columns + [name]
  }

  /**
    `create_bins`: copy the table and set column `BinColumnName(...)` to the
    labels of column `column`. A missing column is a KeyError; invalid edges,
    a text value and invalid labels are errors of `cut`, in that order.
   */
  method CreateBins(t: Table, column: string, edges: seq<real>, labels: seq<Cell>, newColumn: Option<string>)
    returns (r: Result<Table>)
    requires WellFormed(t)
    ensures column !in t.columns ==> r == Failure(ColumnNotFound(column))
    ensures column in t.columns && !ValidEdges(edges) ==> r == Failure(InvalidBins)
    ensures column in t.columns && ValidEdges(edges) && (exists i :: 0 <= i < |t.rows| && t.rows[i][column].Str?) ==>
      r == Failure(TypeMismatch)
    ensures column in t.columns && ValidEdges(edges) && (forall i :: 0 <= i < |t.rows| ==> !t.rows[i][column].Str?) ==>
      (ValidLabels(edges, labels) <==> r.Success?) && (!ValidLabels(edges, labels) ==> r == Failure(InvalidLabels))
    ensures r.Success? ==> var name := BinColumnName(column, newColumn);
      r.value.columns == AddColumnName(t.columns, name) &&
      |labels| == |edges| - 1 &&
      r.value.rows == WithColumn(t.rows, name,
        seq(|t.rows|, i requires 0 <= i < |t.rows| => Label(edges, labels, t.rows[i][column])))
    ensures r.Success? ==> WellFormed(r.value)
  {
    if column !in t.columns {
      return Failure(ColumnNotFound(column));
    }
    var col := Column(t, column);
    if !ValidEdges(edges) {
      return Failure(InvalidBins);
    }
    if exists i :: 0 <= i < |col| && col[i].Str? {
      return Failure(TypeMismatch);
    }
    if !ValidLabels(edges, labels) {
      return Failure(InvalidLabels);
    }
    var name := BinColumnName(column, newColumn);
    ghost var cells := seq(|t.rows|, i requires 0 <= i < |t.rows| => Label(edges, labels, t.rows[i][column]));
    var out := t.rows;
    for i := 0 to |t.rows|
      invariant |out| == |t.rows|
      invariant forall k :: 0 <= k < i ==> out[k] == t.rows[k][name := cells[k]]
      invariant forall k :: i <= k < |t.rows| ==> out[k] == t.rows[k]
    {
      var bin := CutCell(edges, labels, col[i]);
      out := out[i := out[i][name := bin]];
    }
    r := Success(Table(AddColumnName(t.columns, name), out));
    assert WellFormed(r.value) by {
      var cols := AddColumnName(t.columns, name);
      assert ColumnSet(r.value) == ColumnSet(t) + {name};
      assert Distinct(cols) by {
        if name !in t.columns {
          forall i, j | 0 <= i < j < |cols| ensures cols[i] != cols[j] {
            if j == |t.columns| {
              assert cols[i] in t.columns;
            }
          }
        }
      }
      forall x | x in out ensures x.Keys == ColumnSet(t) + {name} {
        var k :| 0 <= k < |out| && out[k] == x;
        assert t.rows[k] in t.rows;
      }
    }
  }

  /**
    The example of the test script test_q3.py: ages 20, 45 and 70 with edges 0, 40, 60, 120
    fall into "<40", "40-59" and "60+"; 0 falls into the first interval and
    130 into none.
   */
  lemma BinExample()
    ensures var edges, labels := [0.0, 40.0, 60.0, 120.0], [Str("<40"), Str("40-59"), Str("60+")];
      Label(edges, labels, Num(20.0)) == Str("<40") &&
      Label(edges, labels, Num(45.0)) == Str("40-59") &&
      Label(edges, labels, Num(70.0)) == Str("60+") &&
      Label(edges, labels, Num(0.0)) == Str("<40") &&
      Label(edges, labels, Num(130.0)) == Null
  {
    var edges, labels := [0.0, 40.0, 60.0, 120.0], [Str("<40"), Str("40-59"), Str("60+")];
    assert Label(edges, labels, Num(20.0)) == Str("<40") by {
      assert InBin(edges, 20.0, 0);
      LabelMeaning(edges, labels, 20.0, 0);
    }
    assert Label(edges, labels, Num(45.0)) == Str("40-59") by {
      assert InBin(edges, 45.0, 1);
      LabelMeaning(edges, labels, 45.0, 1);
    }
    assert Label(edges, labels, Num(70.0)) == Str("60+") by {
      assert InBin(edges, 70.0, 2);
      LabelMeaning(edges, labels, 70.0, 2);
    }
    assert Label(edges, labels, Num(0.0)) == Str("<40") by {
      assert InBin(edges, 0.0, 0);
      LabelMeaning(edges, labels, 0.0, 0);
    }
    assert Label(edges, labels, Num(130.0)) == Null by {
      BinExists(edges, 130.0);
      LabelMeaning(edges, labels, 130.0, 0);
    }
  }
}
