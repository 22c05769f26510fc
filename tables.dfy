/** A table as a value: named columns over positionally aligned rows. */
module Tables {

  import opened Cells

  type Row = seq<Cell>

  /** Column names, in order, and the rows, each holding one cell per column. */
  datatype Table = Table(names: seq<string>, rows: seq<Row>)

  /** Every row has one cell per column. */
  predicate Rectangular(t: Table)
  {
    forall i :: 0 <= i < |t.rows| ==> |t.rows[i]| == |t.names|
  }

  ghost predicate Distinct<T>(s: seq<T>)
  {
    forall i, j :: 0 <= i < j < |s| ==> s[i] != s[j]
  }

  /** A table whose columns can be looked up by name: rectangular, with distinct names. */
  ghost predicate WellFormed(t: Table)
  {
    Rectangular(t) && Distinct(t.names)
  }

  /** The first position of x: df[column] finds the column at this position. */
  function IndexOf<T(==)>(s: seq<T>, x: T): (k: nat)
    requires x in s
    ensures k < |s| && s[k] == x
    ensures forall m :: 0 <= m < k ==> s[m] != x
  {
    if s[0] == x then 0 else 1 + IndexOf(s[1..], x)
  }

  /** Column j, read down the rows. */
  function Column(rows: seq<Row>, j: nat): (col: seq<Cell>)
    requires forall i :: 0 <= i < |rows| ==> j < |rows[i]|
    ensures |col| == |rows|
    ensures forall i :: 0 <= i < |rows| ==> col[i] == rows[i][j]
  {
    seq(|rows|, i requires 0 <= i < |rows| => rows[i][j])
  }

  /** Whole-column replacement, df[column] = col: column j takes col, every other cell stays. */
  function SetColumn(rows: seq<Row>, j: nat, col: seq<Cell>): (r: seq<Row>)
    requires |col| == |rows|
    requires forall i :: 0 <= i < |rows| ==> j < |rows[i]|
    ensures |r| == |rows|
    ensures forall i :: 0 <= i < |rows| ==> |r[i]| == |rows[i]| && r[i][j] == col[i]
    ensures forall i, k :: 0 <= i < |rows| && 0 <= k < |rows[i]| && k != j ==> r[i][k] == rows[i][k]
  {
    seq(|rows|, i requires 0 <= i < |rows| => rows[i][j := col[i]])
  }

  /** Reading back a replaced column gives what was written, and the others are untouched. */
  lemma ColumnAfterSet(rows: seq<Row>, j: nat, col: seq<Cell>, k: nat)
    requires |col| == |rows|
    requires forall i :: 0 <= i < |rows| ==> j < |rows[i]| && k < |rows[i]|
    ensures Column(SetColumn(rows, j, col), k) == if k == j then col else Column(rows, k)
  {
  }

  /** A second replacement of the same column wins. */
  lemma SetColumnTwice(rows: seq<Row>, j: nat, a: seq<Cell>, b: seq<Cell>)
    requires |a| == |rows| && |b| == |rows|
    requires forall i :: 0 <= i < |rows| ==> j < |rows[i]|
    ensures SetColumn(SetColumn(rows, j, a), j, b) == SetColumn(rows, j, b)
  {
    var once, twice, direct := SetColumn(rows, j, a), SetColumn(SetColumn(rows, j, a), j, b), SetColumn(rows, j, b);
    forall i | 0 <= i < |rows| ensures twice[i] == direct[i] {
      assert |twice[i]| == |direct[i]|;
    }
  }
}
