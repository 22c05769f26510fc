/** The missing-value policy of handle_missing_values: drop incomplete rows,
    fill with 0, or carry the last value down each column. */
module MissingValues {

  import opened Cells
  import opened Tables

  /** A row with no missing cell. */
  predicate Complete(row: Row)
  {
    Missing !in row
  }

  /** df.dropna(): the rows without a missing cell, in their original order. */
  function DropIncomplete(rows: seq<Row>): (r: seq<Row>)
    ensures |r| <= |rows|
    ensures forall k :: 0 <= k < |r| ==> Complete(r[k])
    ensures forall x :: x in r <==> x in rows && Complete(x)
  {
    if rows == [] then []
    else
      assert forall x :: x in rows <==> x == rows[0] || x in rows[1..];
      (if Complete(rows[0]) then [rows[0]] else []) + DropIncomplete(rows[1..])
  }

  /** Dropping works row by row: the rows of a + b that survive are those of a, then those of b. */
  lemma {:induction false} DropIncompleteAppend(a: seq<Row>, b: seq<Row>)
    ensures DropIncomplete(a + b) == DropIncomplete(a) + DropIncomplete(b)
  {
    if a == [] {
      assert a + b == b;
    } else {
      assert (a + b)[1..] == a[1..] + b;
      DropIncompleteAppend(a[1..], b);
    }
  }

  /** Rows that are all complete are all kept. */
  lemma {:induction false} DropIncompleteKeepsComplete(rows: seq<Row>)
    requires forall i :: 0 <= i < |rows| ==> Complete(rows[i])
    ensures DropIncomplete(rows) == rows
  {
    if rows != [] {
      DropIncompleteKeepsComplete(rows[1..]);
    }
  }

  /** df.fillna(0): every missing cell becomes 0; every other cell is unchanged. */
  function FillZero(rows: seq<Row>): (r: seq<Row>)
    ensures |r| == |rows|
    ensures forall i :: 0 <= i < |rows| ==> |r[i]| == |rows[i]| && Complete(r[i])
    ensures forall i, j :: 0 <= i < |rows| && 0 <= j < |rows[i]| && rows[i][j] != Missing ==> r[i][j] == rows[i][j]
    ensures forall i, j :: 0 <= i < |rows| && 0 <= j < |rows[i]| && rows[i][j] == Missing ==> r[i][j] == Num(0.0)
  {
    seq(|rows|, i requires 0 <= i < |rows| =>
      seq(|rows[i]|, j requires 0 <= j < |rows[i]| => if rows[i][j] == Missing then Num(0.0) else rows[i][j]))
  }

  /** Fills the missing cells of row from carry, the filled row just above it. */
  function FillFrom(row: Row, carry: Row): (r: Row)
    requires |carry| == |row|
    ensures |r| == |row|
  {
    seq(|row|, j requires 0 <= j < |row| => if row[j] == Missing then carry[j] else row[j])
  }

  /** Forward fill, top to bottom, each row filled from the one filled before it. */
  function FFillFrom(rows: seq<Row>, carry: Row): (r: seq<Row>)
    requires forall i :: 0 <= i < |rows| ==> |rows[i]| == |carry|
    ensures |r| == |rows|
    ensures forall i :: 0 <= i < |rows| ==> |r[i]| == |carry|
  {
    if rows == [] then []
    else
      var first := FillFrom(rows[0], carry);
      [first] + FFillFrom(rows[1..], first)
  }

  /** df.fillna(method="ffill") on a table of the given width. */
  function FFill(rows: seq<Row>, width: nat): (r: seq<Row>)
    requires forall i :: 0 <= i < |rows| ==> |rows[i]| == width
    ensures |r| == |rows|
    ensures forall i :: 0 <= i < |rows| ==> |r[i]| == width
  {
    FFillFrom(rows, seq(width, _ => Missing))
  }

  /** Reference definition, read upwards from row i: the nearest non-missing cell of
      column j at or above row i, or dflt when there is none. */
  function Nearest(rows: seq<Row>, i: nat, j: nat, dflt: Cell): Cell
    requires i < |rows|
    requires forall k :: 0 <= k < |rows| ==> j < |rows[k]|
  {
    if rows[i][j] != Missing then rows[i][j]
    else if i == 0 then dflt
    else Nearest(rows, i - 1, j, dflt)
  }

  /** Looking up past the first row falls back to what that row resolves to. */
  lemma {:induction false} NearestShift(rows: seq<Row>, m: nat, j: nat, dflt: Cell)
    requires m + 1 < |rows|
    requires forall k :: 0 <= k < |rows| ==> j < |rows[k]|
    ensures Nearest(rows[1..], m, j, Nearest(rows, 0, j, dflt)) == Nearest(rows, m + 1, j, dflt)
  {
    if m > 0 && rows[m + 1][j] == Missing {
      NearestShift(rows, m - 1, j, dflt);
    }
  }

  lemma {:induction false} FFillFromNearest(rows: seq<Row>, carry: Row, i: nat, j: nat)
    requires forall k :: 0 <= k < |rows| ==> |rows[k]| == |carry|
    requires i < |rows| && j < |carry|
    ensures FFillFrom(rows, carry)[i][j] == Nearest(rows, i, j, carry[j])
  {
    var first := FillFrom(rows[0], carry);
    if i > 0 {
      FFillFromNearest(rows[1..], first, i - 1, j);
      NearestShift(rows, i - 1, j, carry[j]);
    }
  }

  /** Forward fill agrees with the reference: each cell is the nearest non-missing
      value at or above it in its column, and missing when there is none. */
  lemma FFillIsNearest(rows: seq<Row>, width: nat, i: nat, j: nat)
    requires forall k :: 0 <= k < |rows| ==> |rows[k]| == width
    requires i < |rows| && j < width
    ensures FFill(rows, width)[i][j] == Nearest(rows, i, j, Missing)
  {
    FFillFromNearest(rows, seq(width, _ => Missing), i, j);
  }

  lemma FFillEverywhere(rows: seq<Row>, width: nat)
    requires forall k :: 0 <= k < |rows| ==> |rows[k]| == width
    ensures forall i, j :: 0 <= i < |rows| && 0 <= j < width ==> FFill(rows, width)[i][j] == Nearest(rows, i, j, Missing)
  {
    forall i, j | 0 <= i < |rows| && 0 <= j < width
      ensures FFill(rows, width)[i][j] == Nearest(rows, i, j, Missing)
    {
      FFillIsNearest(rows, width, i, j);
    }
  }

  /** What the reference means: a present cell is kept; a missing one takes the
      value of the nearest present cell above it; a leading run of missing cells
      stays missing. */
  lemma {:induction false} NearestMeaning(rows: seq<Row>, i: nat, j: nat)
    requires i < |rows|
    requires forall k :: 0 <= k < |rows| ==> j < |rows[k]|
    ensures rows[i][j] != Missing ==> Nearest(rows, i, j, Missing) == rows[i][j]
    ensures (forall k :: 0 <= k <= i ==> rows[k][j] == Missing) <==> Nearest(rows, i, j, Missing) == Missing
    ensures forall k :: 0 <= k <= i && rows[k][j] != Missing && (forall m :: k < m <= i ==> rows[m][j] == Missing)
                        ==> Nearest(rows, i, j, Missing) == rows[k][j]
  {
    if i > 0 && rows[i][j] == Missing {
      NearestMeaning(rows, i - 1, j);
    }
  }

  /** handle_missing_values: "drop", "fill" and "ffill" select a policy; any other
      token returns the table as it is. */
  function HandleMissingValues(t: Table, how: string): (r: Table)
    requires Rectangular(t)
    ensures r.names == t.names && Rectangular(r)
    ensures how != "drop" && how != "fill" && how != "ffill" ==> r == t
    ensures how == "drop" ==> r.rows == DropIncomplete(t.rows)
    ensures how == "fill" || how == "ffill" ==> |r.rows| == |t.rows|
    ensures how == "fill" ==> forall i :: 0 <= i < |r.rows| ==> Complete(r.rows[i])
    ensures how == "fill" ==> forall i, j :: 0 <= i < |t.rows| && 0 <= j < |t.names| ==>
                                r.rows[i][j] == (if t.rows[i][j] == Missing then Num(0.0) else t.rows[i][j])
    ensures how == "ffill" ==> forall i, j :: 0 <= i < |t.rows| && 0 <= j < |t.names| ==>
                                 r.rows[i][j] == Nearest(t.rows, i, j, Missing)
  {
    if how == "drop" then Table(t.names, DropIncomplete(t.rows))
    else if how == "fill" then Table(t.names, FillZero(t.rows))
    else if how == "ffill" then
      FFillEverywhere(t.rows, |t.names|);
      Table(t.names, FFill(t.rows, |t.names|))
    else t
  }

  /** After "fill" there is nothing left for "drop" to remove. */
  lemma FillThenDrop(t: Table)
    requires Rectangular(t)
    ensures HandleMissingValues(HandleMissingValues(t, "fill"), "drop") == HandleMissingValues(t, "fill")
  {
    DropIncompleteKeepsComplete(FillZero(t.rows));
  }
}
