/**
  The in-memory table that every helper of the data-utilities library
  (q3_data_utils.py) works on: named columns, rows aligned by position,
  and cells that are missing, numeric or textual. Errors that the library
  raises as Python exceptions are values of `Error` here.
 */
module Tables {

  /** A cell: the missing marker (NaN/None), a number, or a text value. */
  datatype Cell = Null | Num(x: real) | Str(s: string)

  /** A row maps each column name to its cell. */
  type Row = map<string, Cell>

  /** A table: its column names in order and its rows in order. */
  datatype Table = Table(columns: seq<string>, rows: seq<Row>)

  /** The exceptions the library raises, by cause. */
  datatype Error =
    | MissingKey(key: string)                  // KeyError: a filter specification lacks a key
    | ColumnNotFound(column: string)           // KeyError: the table has no such column
    | UnknownCondition(operator: Option<string>)   // ValueError("Unknown condition: ...")
    | UnknownStrategy(strategy: string)          // ValueError("Unknown strategy")
    | BadFilterValue                           // the value has the wrong shape for its operator
    | TypeMismatch                             // a number and a text compared or averaged
    | InvalidBins                              // bin edges not increasing, or repeated
    | InvalidLabels                            // labels repeated, or not one fewer than the edges

  datatype Option<T> = None | Some(value: T)

  datatype Result<T> = Success(value: T) | Failure(error: Error) {
    predicate IsFailure() { Failure? }
    function PropagateFailure<U>(): Result<U> requires Failure? { Failure(error) }
    function Extract(): T requires Success? { value }
  }

  predicate Distinct<T(==)>(s: seq<T>) {
    forall i, j :: 0 <= i < j < |s| ==> s[i] != s[j]
  }

  /** The column names of a table, as a set. */
  function ColumnSet(t: Table): set<string> {
    set c | c in t.columns
  }

  /**
    The tables this model admits: distinct column names, and every row has
    exactly those columns. (pandas also allows repeated column labels; the
    model does not.)
   */
  ghost predicate WellFormed(t: Table) {
    Distinct(t.columns) && forall r :: r in t.rows ==> r.Keys == ColumnSet(t)
  }

  /** Every row of `rows` has a cell in column `c`. */
  ghost predicate HasColumn(rows: seq<Row>, c: string) {
    forall i :: 0 <= i < |rows| ==> c in rows[i]
  }

  lemma ColumnOfWellFormed(t: Table, c: string)
    requires WellFormed(t) && c in t.columns
    ensures HasColumn(t.rows, c)
  {
    forall i | 0 <= i < |t.rows| ensures c in t.rows[i] {
      assert t.rows[i] in t.rows;
    }
  }

  /** The column `c`, top to bottom (`df[c]`). */
  function ColumnValues(rows: seq<Row>, c: string): (s: seq<Cell>)
    requires HasColumn(rows, c)
    ensures |s| == |rows|
  {
    seq(|rows|, i requires 0 <= i < |rows| => rows[i][c])
  }

  /** The column `c` of a well-formed table that has it. */
  function Column(t: Table, c: string): (s: seq<Cell>)
    requires WellFormed(t) && c in t.columns
    ensures |s| == |t.rows|
    ensures forall i :: 0 <= i < |t.rows| ==> s[i] == t.rows[i][c]
  {
    ColumnOfWellFormed(t, c);
    ColumnValues(t.rows, c)
  }

  /** The rows with column `c` set to `cells` (`df[c] = cells`): added when absent, overwritten when present. */
  function WithColumn(rows: seq<Row>, c: string, cells: seq<Cell>): (r: seq<Row>)
    requires |cells| == |rows|
    ensures |r| == |rows|
    ensures HasColumn(r, c) && ColumnValues(r, c) == cells
    ensures forall i, d :: 0 <= i < |rows| && d != c ==> (d in r[i] <==> d in rows[i])
    ensures forall i, d :: 0 <= i < |rows| && d != c && d in rows[i] ==> r[i][d] == rows[i][d]
  {
    seq(|rows|, i requires 0 <= i < |rows| => rows[i][c := cells[i]])
  }

  /** Overwriting an existing column of a well-formed table keeps it well formed. */
  lemma WithColumnWellFormed(t: Table, c: string, cells: seq<Cell>)
    requires WellFormed(t) && c in t.columns && |cells| == |t.rows|
    ensures WellFormed(Table(t.columns, WithColumn(t.rows, c, cells)))
  {
    var rows := WithColumn(t.rows, c, cells);
    forall r | r in rows ensures r.Keys == ColumnSet(t) {
      var i :| 0 <= i < |rows| && rows[i] == r;
      assert t.rows[i] in t.rows;
    }
  }

  /** Python's `<` on two strings: lexicographic by code point. */
  function TextLess(a: string, b: string): (r: bool)
    ensures r ==> a != b
    ensures |a| < |b| && a == b[..|a|] ==> r
    decreases |a|
  {
    if |a| == 0 then |b| > 0
    else if |b| == 0 then false
    else if a[0] != b[0] then a[0] < b[0]
    else
      assert |a| < |b| && a == b[..|a|] ==> a[1..] == b[1..][..|a| - 1];
      TextLess(a[1..], b[1..])
  }

  /** `a == b` as pandas evaluates it cell by cell: a missing cell equals nothing, not even another one. */
  function Equal(a: Cell, b: Cell): (r: bool)
    ensures r ==> a == b
    ensures a == Null || b == Null ==> !r
    ensures a == b && a != Null ==> r
  {
    a != Null && b != Null && a == b
  }

  /**
    `a < b` as pandas evaluates it cell by cell: false when a side is missing,
    numbers against numbers and texts against texts, TypeError otherwise.
   */
  function Less(a: Cell, b: Cell): (r: Result<bool>)
    ensures r.Failure? <==> (a.Num? && b.Str?) || (a.Str? && b.Num?)
    ensures r.Failure? ==> r.error == TypeMismatch
    ensures r == Success(true) ==> a != b && a != Null && b != Null
  {
    match (a, b)
    case (Null, _) => Success(false)
    case (_, Null) => Success(false)
    case (Num(x), Num(y)) => Success(x < y)
    case (Str(s), Str(u)) => Success(TextLess(s, u))
    case _ => Failure(TypeMismatch)
  }

  /** `a <= b` cell by cell: defined where `<` is, and then `<` or pandas' `==`. */
  function LessEq(a: Cell, b: Cell): (r: Result<bool>)
    ensures r.Success? <==> Less(a, b).Success?
    ensures r.Failure? ==> r.error == TypeMismatch
    ensures r.Success? ==> (r.value <==> Less(a, b).value || Equal(a, b))
  {
    match (a, b)
    case (Null, _) => Success(false)
    case (_, Null) => Success(false)
    case (Num(x), Num(y)) => Success(x <= y)
    case (Str(s), Str(u)) => Success(TextLess(s, u) || s == u)
    case _ => Failure(TypeMismatch)
  }

  /** Text ordering is a strict order: irreflexive and transitive. */
  lemma {:induction false} TextLessStrict(a: string, b: string, c: string)
    ensures !TextLess(a, a)
    ensures TextLess(a, b) && TextLess(b, c) ==> TextLess(a, c)
    decreases |a|
  {
    if |a| > 0 && |b| > 0 && |c| > 0 {
      TextLessStrict(a[1..], b[1..], c[1..]);
    }
  }

  /**
    Where `<` on cells holds, it is a strict order: never `a < a`, never both
    `a < b` and `b < a`, and `a < b < c` gives `a < c`.
   */
  lemma LessStrictOrder(a: Cell, b: Cell, c: Cell)
    ensures Less(a, a) != Success(true)
    ensures Less(a, b) == Success(true) ==> Less(b, a) == Success(false)
    ensures Less(a, b) == Success(true) && Less(b, c) == Success(true) ==> Less(a, c) == Success(true)
  {
    if a.Str? && b.Str? {
      TextLessStrict(a.s, b.s, a.s);
      if c.Str? {
        TextLessStrict(a.s, b.s, c.s);
      }
    }
  }
}
