/**
  `clean_data` and `detect_missing` of q3_data_utils.py: removing duplicate
  rows, turning a sentinel value into the missing marker, and counting the
  missing cells of each column.
 */
module Cleaning {
  import opened Tables

  /** The position of the first occurrence of `x` in `rows`. */
  function FirstIndex(rows: seq<Row>, x: Row): (k: nat)
    requires x in rows
    ensures k < |rows| && rows[k] == x && x !in rows[..k]
  {
    if rows[0] == x then 0
    else
      var k := FirstIndex(rows[1..], x);
      assert rows[..k + 1] == [rows[0]] + rows[1..][..k];
      k + 1
  }

  /** A position holding `x` with no `x` before it is the first occurrence. */
  lemma FirstIndexUnique(rows: seq<Row>, x: Row, k: nat)
    requires k < |rows| && rows[k] == x && x !in rows[..k]
    ensures FirstIndex(rows, x) == k
  {
  }

  /** The first occurrence of a row of a prefix is the same in the prefix and in the whole. */
  lemma FirstIndexOfPrefix(rows: seq<Row>, n: nat, x: Row)
    requires n <= |rows| && x in rows[..n]
    ensures x in rows && FirstIndex(rows, x) == FirstIndex(rows[..n], x)
  {
    var k := FirstIndex(rows[..n], x);
    assert rows[k] == x;
    assert rows[..n][..k] == rows[..k];
    FirstIndexUnique(rows, x, k);
  }

  /**
    `drop_duplicates()`: the rows with every repeat of an earlier row removed,
    so each distinct row is kept at its first occurrence, in the original order.
    Two missing cells count as equal here, as they do in pandas.
   */
  function Dedup(rows: seq<Row>): (r: seq<Row>)
    ensures Distinct(r)
    ensures forall x :: x in r <==> x in rows
    ensures |r| <= |rows|
  {
    if |rows| == 0 then []
    else
      var earlier, last := rows[..|rows| - 1], rows[|rows| - 1];
      if last in earlier then Dedup(earlier) else Dedup(earlier) + [last]
  }

  /**
    `drop_duplicates()` keeps the rows in the order of their first
    occurrences. With the contract of `Dedup` this fixes its result exactly.
   */
  lemma {:induction false} DedupKeepsOrder(rows: seq<Row>)
    ensures forall x :: x in Dedup(rows) ==> x in rows
    ensures forall i, j :: 0 <= i < j < |Dedup(rows)| ==>
      FirstIndex(rows, Dedup(rows)[i]) < FirstIndex(rows, Dedup(rows)[j])
  {
    if |rows| > 0 {
      var earlier, last := rows[..|rows| - 1], rows[|rows| - 1];
      var d := Dedup(earlier);
      DedupKeepsOrder(earlier);
      OrderInPrefix(rows, d);
      if last !in earlier {
        FirstIndexUnique(rows, last, |rows| - 1);
        OrderWithLast(rows, d, last);
      }
    }
  }

  /** Rows ordered by first occurrence in all but the last row stay so ordered in the whole, before the last row. */
  lemma OrderInPrefix(rows: seq<Row>, d: seq<Row>)
    requires |rows| > 0
    requires forall i :: 0 <= i < |d| ==> d[i] in rows[..|rows| - 1]
    requires forall i, j :: 0 <= i < j < |d| ==>
      FirstIndex(rows[..|rows| - 1], d[i]) < FirstIndex(rows[..|rows| - 1], d[j])
    ensures forall y :: y in d ==> y in rows && FirstIndex(rows, y) < |rows| - 1
    ensures forall i, j :: 0 <= i < j < |d| ==> FirstIndex(rows, d[i]) < FirstIndex(rows, d[j])
  {
    forall i | 0 <= i < |d| ensures d[i] in rows && FirstIndex(rows, d[i]) == FirstIndex(rows[..|rows| - 1], d[i]) {
      FirstIndexOfPrefix(rows, |rows| - 1, d[i]);
    }
  }

  /** Appending a row that occurs first after all of `d` keeps the order of first occurrences. */
  lemma OrderWithLast(rows: seq<Row>, d: seq<Row>, last: Row)
    requires last in rows
    requires forall y :: y in d ==> y in rows && FirstIndex(rows, y) < FirstIndex(rows, last)
    requires forall i, j :: 0 <= i < j < |d| ==> FirstIndex(rows, d[i]) < FirstIndex(rows, d[j])
    ensures forall y :: y in d + [last] ==> y in rows
    ensures forall i, j :: 0 <= i < j < |d + [last]| ==>
      FirstIndex(rows, (d + [last])[i]) < FirstIndex(rows, (d + [last])[j])
  {
    var r := d + [last];
    forall i, j | 0 <= i < j < |r| ensures FirstIndex(rows, r[i]) < FirstIndex(rows, r[j]) {
      assert r[i] == d[i] && r[i] in d;
      if j < |d| {
        assert r[j] == d[j];
      }
    }
  }

  /** `Dedup` on two rows: one row if they are equal, both otherwise. */
  lemma DedupPair(x: Row, y: Row)
    ensures Dedup([x, y]) == if x == y then [x] else [x, y]
  {
    assert [x, y][..1] == [x];
    assert [x][..0] == [];
  }

  /** A table without repeated rows is left as it is by `Dedup`. */
  lemma {:induction false} DedupOfDistinct(rows: seq<Row>)
    requires Distinct(rows)
    ensures Dedup(rows) == rows
  {
    if |rows| > 0 {
      var earlier := rows[..|rows| - 1];
      assert rows[|rows| - 1] !in earlier;
      DedupOfDistinct(earlier);
      assert earlier + [rows[|rows| - 1]] == rows;
    }
  }

  /** Removing duplicates twice is removing them once. */
  lemma DedupIdempotent(rows: seq<Row>)
    ensures Dedup(Dedup(rows)) == Dedup(rows)
  {
    DedupOfDistinct(Dedup(rows));
  }

  /** `replace(sentinel, NaN)` on one row: every cell equal to the sentinel becomes missing. */
  function ReplaceInRow(r: Row, sentinel: Cell): Row {
    map c | c in r :: if r[c] == sentinel then Null else r[c]
  }

  /** `replace(sentinel, NaN)` on every row, over all columns alike. */
  function ReplaceSentinel(rows: seq<Row>, sentinel: Cell): (r: seq<Row>)
    ensures |r| == |rows|
    ensures forall i :: 0 <= i < |rows| ==> r[i].Keys == rows[i].Keys
    ensures forall i, c :: 0 <= i < |rows| && c in rows[i] ==>
      r[i][c] == (if rows[i][c] == sentinel then Null else rows[i][c])
  {
    seq(|rows|, i requires 0 <= i < |rows| => ReplaceInRow(rows[i], sentinel))
  }

  /** Rows in which no cell equals the sentinel, or the sentinel is the missing marker itself. */
  ghost predicate FreeOf(rows: seq<Row>, sentinel: Cell) {
    forall i, c :: 0 <= i < |rows| && c in rows[i] ==> rows[i][c] != sentinel || sentinel == Null
  }

  /** Replacing a sentinel that does not occur changes nothing. */
  lemma ReplaceAbsentSentinel(rows: seq<Row>, sentinel: Cell)
    requires FreeOf(rows, sentinel)
    ensures ReplaceSentinel(rows, sentinel) == rows
  {
    var r := ReplaceSentinel(rows, sentinel);
    forall i | 0 <= i < |rows| ensures r[i] == rows[i] {
      assert r[i].Keys == rows[i].Keys;
    }
  }

  /**
    `clean_data`: optionally drop duplicate rows, then replace the sentinel by
    the missing marker. Duplicates are dropped before the replacement. The
    Python defaults are `removeDuplicates == true` and `sentinel == Num(-999.0)`.
   */
  function CleanData(t: Table, removeDuplicates: bool, sentinel: Cell): (r: Table)
    requires WellFormed(t)
    ensures WellFormed(r) && r.columns == t.columns
    ensures |r.rows| <= |t.rows|
    ensures FreeOf(r.rows, sentinel)
  {
    var rows := if removeDuplicates then Dedup(t.rows) else t.rows;
    var r := Table(t.columns, ReplaceSentinel(rows, sentinel));
    assert forall x :: x in r.rows ==> x.Keys == ColumnSet(t) by {
      forall x | x in r.rows ensures x.Keys == ColumnSet(t) {
        var i :| 0 <= i < |r.rows| && r.rows[i] == x;
        assert rows[i] in t.rows;
      }
    }
    r
  }

  /** Without duplicate removal, each cell is kept unless it equals the sentinel, in which case it is missing. */
  lemma CleanKeepsOtherCells(t: Table, sentinel: Cell, i: nat, c: string)
    requires WellFormed(t) && i < |t.rows| && c in t.rows[i]
    ensures var r := CleanData(t, false, sentinel);
      i < |r.rows| && c in r.rows[i] &&
      r.rows[i][c] == (if t.rows[i][c] == sentinel then Null else t.rows[i][c])
  {
  }

  /**
    Running `clean_data` on its own output only removes the duplicates that the
    sentinel replacement created; without duplicate removal it changes nothing.
   */
  lemma CleanTwice(t: Table, removeDuplicates: bool, sentinel: Cell)
    requires WellFormed(t)
    ensures var once := CleanData(t, removeDuplicates, sentinel);
      CleanData(once, removeDuplicates, sentinel) ==
        if removeDuplicates then Table(once.columns, Dedup(once.rows)) else once
  {
    var once := CleanData(t, removeDuplicates, sentinel);
    if removeDuplicates {
      var d := Dedup(once.rows);
      assert FreeOf(d, sentinel) by {
        forall i, c | 0 <= i < |d| && c in d[i] ensures d[i][c] != sentinel || sentinel == Null {
          assert d[i] in once.rows;
          var k :| 0 <= k < |once.rows| && once.rows[k] == d[i];
        }
      }
      ReplaceAbsentSentinel(d, sentinel);
    } else {
      ReplaceAbsentSentinel(once.rows, sentinel);
    }
  }

  /** `clean_data` is idempotent exactly when its output has no repeated rows. */
  lemma CleanIdempotentIff(t: Table, sentinel: Cell)
    requires WellFormed(t)
    ensures var once := CleanData(t, true, sentinel);
      CleanData(once, true, sentinel) == once <==> Distinct(once.rows)
  {
    var once := CleanData(t, true, sentinel);
    CleanTwice(t, true, sentinel);
    if Distinct(once.rows) {
      DedupOfDistinct(once.rows);
    }
  }

  /**
    Rows `(-999, 0)` and `(NaN, 0)` are distinct before the replacement and
    equal after it, so a second run of `clean_data` removes one of them.
   */
  lemma CleanNotIdempotent()
    ensures var t := Table(["x", "y"], [map["x" := Num(-999.0), "y" := Num(0.0)],
                                       map["x" := Null, "y" := Num(0.0)]]);
      WellFormed(t) &&
      var once := CleanData(t, true, Num(-999.0));
      |once.rows| == 2 && |CleanData(once, true, Num(-999.0)).rows| == 1
  {
    var a: Row := map["x" := Num(-999.0), "y" := Num(0.0)];
    var b: Row := map["x" := Null, "y" := Num(0.0)];
    CleanOnceExample(a, b);
    CleanTwiceExample(b);
  }

  /** The first run on the example: the replacement turns two distinct rows into two equal ones. */
  lemma CleanOnceExample(a: Row, b: Row)
    requires a == map["x" := Num(-999.0), "y" := Num(0.0)] && b == map["x" := Null, "y" := Num(0.0)]
    ensures WellFormed(Table(["x", "y"], [a, b]))
    ensures CleanData(Table(["x", "y"], [a, b]), true, Num(-999.0)) == Table(["x", "y"], [b, b])
  {
    var t := Table(["x", "y"], [a, b]);
    assert ColumnSet(t) == {"x", "y"};
    assert b != a by { assert b["x"] != a["x"]; }
    DedupPair(a, b);
    SentinelRows(a, b);
  }

  /** The second run on the example: the repeated row goes. */
  lemma CleanTwiceExample(b: Row)
    requires b == map["x" := Null, "y" := Num(0.0)]
    ensures WellFormed(Table(["x", "y"], [b, b]))
    ensures CleanData(Table(["x", "y"], [b, b]), true, Num(-999.0)).rows == [b]
  {
    var t := Table(["x", "y"], [b, b]);
    assert ColumnSet(t) == {"x", "y"};
    DedupPair(b, b);
    SentinelRows(map["x" := Num(-999.0), "y" := Num(0.0)], b);
  }

  /** The rows of the example after the replacement of -999. */
  lemma SentinelRows(a: Row, b: Row)
    requires a == map["x" := Num(-999.0), "y" := Num(0.0)] && b == map["x" := Null, "y" := Num(0.0)]
    ensures ReplaceSentinel([a, b], Num(-999.0)) == [b, b]
    ensures ReplaceSentinel([b], Num(-999.0)) == [b]
  {
    assert ReplaceInRow(a, Num(-999.0)) == b;
    assert ReplaceInRow(b, Num(-999.0)) == b;
  }

  /**
    The example of the test script test_q3.py: `{x: [1, 1, -999], y: [0, 0, 0]}`
    cleaned with sentinel -999 has rows `(1, 0)` and `(NaN, 0)`.
   */
  lemma CleanExample()
    ensures var t := Table(["x", "y"], [map["x" := Num(1.0), "y" := Num(0.0)],
                                       map["x" := Num(1.0), "y" := Num(0.0)],
                                       map["x" := Num(-999.0), "y" := Num(0.0)]]);
      WellFormed(t) &&
      CleanData(t, true, Num(-999.0)).rows ==
        [map["x" := Num(1.0), "y" := Num(0.0)], map["x" := Null, "y" := Num(0.0)]]
  {
    var a: Row := map["x" := Num(1.0), "y" := Num(0.0)];
    var s: Row := map["x" := Num(-999.0), "y" := Num(0.0)];
    var b: Row := map["x" := Null, "y" := Num(0.0)];
    var t := Table(["x", "y"], [a, a, s]);
    assert ColumnSet(t) == {"x", "y"};
    assert s != a by { assert s["x"] != a["x"]; }
    assert [a, a, s][..2] == [a, a];
    assert [a, a][..1] == [a];
    assert Dedup(t.rows) == [a, s];
    assert ReplaceInRow(a, Num(-999.0)) == a;
    assert ReplaceInRow(s, Num(-999.0)) == b;
  }

  /** The number of missing cells in a column. */
  function NullCount(s: seq<Cell>): (n: nat)
    ensures n == multiset(s)[Null]
    ensures n <= |s|
    ensures n == 0 <==> forall i :: 0 <= i < |s| ==> s[i] != Null
  {
    if |s| == 0 then 0
    else
      assert s == [s[0]] + s[1..];
      (if s[0] == Null then 1 else 0) + NullCount(s[1..])
  }

  /** The number of missing cells in column `c`. */
  function MissingIn(t: Table, c: string): (n: nat)
    requires WellFormed(t) && c in t.columns
    ensures n == multiset(Column(t, c))[Null]
    ensures n <= |t.rows|
    ensures n == 0 <==> forall i :: 0 <= i < |t.rows| ==> t.rows[i][c] != Null
  {
    ColumnOfWellFormed(t, c);
    var s := ColumnValues(t.rows, c);
    assert forall i :: 0 <= i < |t.rows| ==> s[i] == t.rows[i][c];
    NullCount(s)
  }

  /** `detect_missing`: the number of missing cells of each column, in column order. */
  function DetectMissing(t: Table): (counts: seq<nat>)
    requires WellFormed(t)
    ensures |counts| == |t.columns|
    ensures forall j :: 0 <= j < |counts| ==> counts[j] == multiset(Column(t, t.columns[j]))[Null]
    ensures forall j :: 0 <= j < |counts| ==> counts[j] <= |t.rows|
    ensures forall j :: 0 <= j < |counts| ==>
      (counts[j] == 0 <==> forall i :: 0 <= i < |t.rows| ==> t.rows[i][t.columns[j]] != Null)
  {
    seq(|t.columns|, j requires 0 <= j < |t.columns| => MissingIn(t, t.columns[j]))
  }
}
