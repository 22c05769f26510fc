/** The specification of identify_numeric_columns: which columns hold only
    numbers, which hold numbers mixed with other values, and in what order
    they are listed. */
module Triage {

  import opened Cells
  import opened Tables
  import opened Masks

  /** An entry of the mixed list: (column, numeric count, non-numeric count). */
  datatype MixedColumn = MixedColumn(name: string, numeric: nat, nonNumeric: nat)

  /** The number of cells of column j in the given rows that coerce to a number. */
  function CountNumeric(rows: seq<Row>, j: nat, parse: Parser): (n: nat)
    requires forall i :: 0 <= i < |rows| ==> j < |rows[i]|
    ensures n <= |rows|
  {
    if rows == [] then 0
    else (if Coerce(rows[0][j], parse).Some? then 1 else 0) + CountNumeric(rows[1..], j, parse)
  }

  /** Every cell is counted exactly when every cell coerces, and none is counted
      exactly when none coerces. */
  lemma {:induction false} CountNumericExtremes(rows: seq<Row>, j: nat, parse: Parser)
    requires forall i :: 0 <= i < |rows| ==> j < |rows[i]|
    ensures CountNumeric(rows, j, parse) == |rows| <==> forall i :: 0 <= i < |rows| ==> Coerce(rows[i][j], parse).Some?
    ensures CountNumeric(rows, j, parse) == 0 <==> forall i :: 0 <= i < |rows| ==> Coerce(rows[i][j], parse).None?
  {
    if rows != [] {
      CountNumericExtremes(rows[1..], j, parse);
      assert forall i :: 1 <= i < |rows| ==> rows[i] == rows[1..][i - 1];
    }
  }

  /** Counting the cells that coerce and counting the values left once the coerced
      column drops its missing values (as get_summary_stats does) agree. */
  lemma {:induction false} CountNumericValues(rows: seq<Row>, j: nat, parse: Parser)
    requires forall i :: 0 <= i < |rows| ==> j < |rows[i]|
    ensures CountNumeric(rows, j, parse) == |Values(CoerceColumn(Column(rows, j), parse))|
  {
    if rows != [] {
      CountNumericValues(rows[1..], j, parse);
      var col := CoerceColumn(Column(rows, j), parse);
      assert col[1..] == CoerceColumn(Column(rows[1..], j), parse);
    }
  }

  /** pd.to_numeric(df[col], errors='coerce').notna().sum() for column j. */
  function NumericCount(t: Table, j: nat, parse: Parser): (n: nat)
    requires Rectangular(t) && j < |t.names|
    ensures n <= |t.rows|
  {
    CountNumeric(t.rows, j, parse)
  }

  /** Column j goes to the numeric list: some value coerces and all of them do. */
  predicate AllNumeric(t: Table, j: nat, parse: Parser)
    requires Rectangular(t) && j < |t.names|
  {
    var n := NumericCount(t, j, parse);
    n > 0 && n == |t.rows|
  }

  /** Column j goes to the mixed list: some value coerces but not all of them. */
  predicate Mixed(t: Table, j: nat, parse: Parser)
    requires Rectangular(t) && j < |t.names|
  {
    var n := NumericCount(t, j, parse);
    n > 0 && n != |t.rows|
  }

  /** The entry of the mixed list for column j. */
  function Entry(t: Table, j: nat, parse: Parser): (e: MixedColumn)
    requires Rectangular(t) && j < |t.names|
    ensures e.name == t.names[j] && e.numeric + e.nonNumeric == |t.rows|
  {
    var n := NumericCount(t, j, parse);
    MixedColumn(t.names[j], n, |t.rows| - n)
  }

  function NumericMask(t: Table, parse: Parser): (m: seq<bool>)
    requires Rectangular(t)
    ensures |m| == |t.names|
    ensures forall j :: 0 <= j < |t.names| ==> (m[j] <==> AllNumeric(t, j, parse))
  {
    seq(|t.names|, j requires 0 <= j < |t.names| => AllNumeric(t, j, parse))
  }

  function MixedMask(t: Table, parse: Parser): (m: seq<bool>)
    requires Rectangular(t)
    ensures |m| == |t.names|
    ensures forall j :: 0 <= j < |t.names| ==> (m[j] <==> Mixed(t, j, parse))
  {
    seq(|t.names|, j requires 0 <= j < |t.names| => Mixed(t, j, parse))
  }

  /** The entries for the given columns, in the order given. */
  function Entries(t: Table, idx: seq<nat>, parse: Parser): (r: seq<MixedColumn>)
    requires Rectangular(t) && forall k :: 0 <= k < |idx| ==> idx[k] < |t.names|
    ensures |r| == |idx|
    ensures forall k :: 0 <= k < |idx| ==> r[k] == Entry(t, idx[k], parse)
  {
    seq(|idx|, k requires 0 <= k < |idx| => Entry(t, idx[k], parse))
  }

  /** Entries for one more column append its entry. */
  lemma EntriesSnoc(t: Table, idx: seq<nat>, j: nat, parse: Parser)
    requires Rectangular(t) && forall k :: 0 <= k < |idx| ==> idx[k] < |t.names|
    requires j < |t.names|
    ensures Entries(t, idx + [j], parse) == Entries(t, idx, parse) + [Entry(t, j, parse)]
  {
  }

  /** The numeric list as it stands once the first j columns have been visited. */
  function NumericUpTo(t: Table, parse: Parser, j: nat): seq<string>
    requires Rectangular(t) && j <= |t.names|
  {
    if j == 0 then []
    else NumericUpTo(t, parse, j - 1) + (if AllNumeric(t, j - 1, parse) then [t.names[j - 1]] else [])
  }

  /** The mixed list as it stands once the first j columns have been visited. */
  function MixedUpTo(t: Table, parse: Parser, j: nat): seq<MixedColumn>
    requires Rectangular(t) && j <= |t.names|
  {
    if j == 0 then []
    else MixedUpTo(t, parse, j - 1) + (if Mixed(t, j - 1, parse) then [Entry(t, j - 1, parse)] else [])
  }

  /** The numeric list built column by column is the list the mask selects. */
  lemma {:induction false} NumericUpToPicks(t: Table, parse: Parser, j: nat)
    requires Rectangular(t) && j <= |t.names|
    ensures NumericUpTo(t, parse, j) == Pick(t.names, Positions(NumericMask(t, parse)[..j]))
  {
    var m := NumericMask(t, parse);
    if j == 0 {
      assert m[..0] == [];
    } else {
      var i := j - 1;
      NumericUpToPicks(t, parse, i);
      assert m[..j] == m[..i] + [m[i]];
      PositionsSnoc(m[..i], m[i]);
      if m[i] {
        PickSnoc(t.names, Positions(m[..i]), i);
      }
    }
  }

  /** The mixed list built column by column is the list the mask selects. */
  lemma {:induction false} MixedUpToPicks(t: Table, parse: Parser, j: nat)
    requires Rectangular(t) && j <= |t.names|
    ensures MixedUpTo(t, parse, j) == Entries(t, Positions(MixedMask(t, parse)[..j]), parse)
  {
    var m := MixedMask(t, parse);
    if j == 0 {
      assert m[..0] == [];
    } else {
      var i := j - 1;
      MixedUpToPicks(t, parse, i);
      assert m[..j] == m[..i] + [m[i]];
      PositionsSnoc(m[..i], m[i]);
      if m[i] {
        EntriesSnoc(t, Positions(m[..i]), i, parse);
      }
    }
  }

  /** One visit, in the terms the loop uses: n values of column j coerce; a column
      with some goes to the numeric list when all of them do, to the mixed list
      with its two counts otherwise. */
  lemma VisitColumn(t: Table, parse: Parser, j: nat, n: nat)
    requires Rectangular(t) && j < |t.names|
    requires n == NumericCount(t, j, parse)
    ensures NumericUpTo(t, parse, j + 1) ==
      NumericUpTo(t, parse, j) + (if n > 0 && n == |t.rows| then [t.names[j]] else [])
    ensures MixedUpTo(t, parse, j + 1) ==
      MixedUpTo(t, parse, j) + (if n > 0 && n != |t.rows| then [MixedColumn(t.names[j], n, |t.rows| - n)] else [])
  {
    assert AllNumeric(t, j, parse) <==> n > 0 && n == |t.rows|;
    assert Mixed(t, j, parse) <==> n > 0 && n != |t.rows|;
    assert Entry(t, j, parse) == MixedColumn(t.names[j], n, |t.rows| - n);
  }

  /** The numeric list: the names of the all-numeric columns, in column order. */
  function NumericColumns(t: Table, parse: Parser): seq<string>
    requires Rectangular(t)
  {
    NumericUpTo(t, parse, |t.names|)
  }

  /** The mixed list: an entry per mixed column, in column order. */
  function MixedColumns(t: Table, parse: Parser): seq<MixedColumn>
    requires Rectangular(t)
  {
    MixedUpTo(t, parse, |t.names|)
  }

  /** The lists are the columns the masks select, at increasing positions. */
  lemma ListsPicked(t: Table, parse: Parser)
    requires Rectangular(t)
    ensures NumericColumns(t, parse) == Pick(t.names, Positions(NumericMask(t, parse)))
    ensures MixedColumns(t, parse) == Entries(t, Positions(MixedMask(t, parse)), parse)
  {
    NumericUpToPicks(t, parse, |t.names|);
    MixedUpToPicks(t, parse, |t.names|);
    assert NumericMask(t, parse)[..|t.names|] == NumericMask(t, parse);
    assert MixedMask(t, parse)[..|t.names|] == MixedMask(t, parse);
  }

  /** Every cell of column j coerces exactly when all of its values are counted. */
  lemma AllCoerce(t: Table, j: nat, parse: Parser)
    requires Rectangular(t) && j < |t.names|
    ensures NumericCount(t, j, parse) == |t.rows| <==> forall i :: 0 <= i < |t.rows| ==> Coerce(t.rows[i][j], parse).Some?
    ensures NumericCount(t, j, parse) == 0 <==> forall i :: 0 <= i < |t.rows| ==> Coerce(t.rows[i][j], parse).None?
  {
    CountNumericExtremes(t.rows, j, parse);
  }

  /** With distinct names, a position picked by a mask that carries column j's name
      is j itself, and j is picked exactly when the mask selects it. */
  lemma PickedPosition(names: seq<string>, mask: seq<bool>, j: nat)
    requires Distinct(names) && |mask| == |names| && j < |names|
    ensures var idx := Positions(mask);
      && (forall k :: 0 <= k < |idx| && names[idx[k]] == names[j] ==> idx[k] == j)
      && (mask[j] <==> exists k :: 0 <= k < |idx| && idx[k] == j)
  {
    var idx := Positions(mask);
    forall k | 0 <= k < |idx| ensures names[idx[k]] == names[j] ==> idx[k] == j {
      assert idx[k] < |names|;
    }
    if mask[j] {
      assert j in idx;
    }
  }

  /** With distinct names, a column's name is in the names picked by a mask exactly
      when the mask selects the column. */
  lemma PickedName(names: seq<string>, mask: seq<bool>, j: nat)
    requires Distinct(names) && |mask| == |names| && j < |names|
    ensures names[j] in Pick(names, Positions(mask)) <==> mask[j]
  {
    var idx := Positions(mask);
    PickedPosition(names, mask, j);
    if names[j] in Pick(names, idx) {
      var k :| 0 <= k < |idx| && Pick(names, idx)[k] == names[j];
      assert idx[k] == j;
    }
    if mask[j] {
      var k :| 0 <= k < |idx| && idx[k] == j;
      assert Pick(names, idx)[k] == names[j];
    }
  }

  /** A column is in the numeric list exactly when the table has rows and every
      one of its cells coerces to a number. */
  lemma NumericIff(t: Table, j: nat, parse: Parser)
    requires WellFormed(t) && j < |t.names|
    ensures t.names[j] in NumericColumns(t, parse) <==>
      |t.rows| > 0 && forall i :: 0 <= i < |t.rows| ==> Coerce(t.rows[i][j], parse).Some?
  {
    ListsPicked(t, parse);
    PickedName(t.names, NumericMask(t, parse), j);
    AllCoerce(t, j, parse);
  }

  /** With distinct names, the mixed list has an entry named after column j exactly
      when the column is mixed, and that entry is column j's. */
  lemma MixedNamed(t: Table, j: nat, parse: Parser)
    requires WellFormed(t) && j < |t.names|
    ensures var ms := MixedColumns(t, parse);
      && ((exists k :: 0 <= k < |ms| && ms[k].name == t.names[j]) <==> Mixed(t, j, parse))
      && (forall k :: 0 <= k < |ms| && ms[k].name == t.names[j] ==> ms[k] == Entry(t, j, parse))
  {
    ListsPicked(t, parse);
    var mask := MixedMask(t, parse);
    var idx := Positions(mask);
    var ms := MixedColumns(t, parse);
    PickedPosition(t.names, mask, j);
    forall k | 0 <= k < |ms| && ms[k].name == t.names[j] ensures idx[k] == j {
      assert t.names[idx[k]] == t.names[j];
    }
    if exists k :: 0 <= k < |ms| && ms[k].name == t.names[j] {
      var k :| 0 <= k < |ms| && ms[k].name == t.names[j];
      assert idx[k] == j;
    }
    if mask[j] {
      var k :| 0 <= k < |idx| && idx[k] == j;
      assert ms[k].name == t.names[j];
    }
  }

  /** A column has an entry in the mixed list exactly when some but not all of its
      cells coerce; the entry counts the cells that coerce and the rest. */
  lemma MixedIff(t: Table, j: nat, parse: Parser)
    requires WellFormed(t) && j < |t.names|
    ensures var ms := MixedColumns(t, parse);
      (exists k :: 0 <= k < |ms| && ms[k].name == t.names[j]) <==>
      (exists i :: 0 <= i < |t.rows| && Coerce(t.rows[i][j], parse).Some?) &&
      (exists i :: 0 <= i < |t.rows| && Coerce(t.rows[i][j], parse).None?)
    ensures var ms := MixedColumns(t, parse); var n := NumericCount(t, j, parse);
      forall k :: 0 <= k < |ms| && ms[k].name == t.names[j] ==> ms[k] == MixedColumn(t.names[j], n, |t.rows| - n)
  {
    MixedNamed(t, j, parse);
    AllCoerce(t, j, parse);
  }

  /** A column none of whose cells coerces is in neither list. */
  lemma NeitherList(t: Table, j: nat, parse: Parser)
    requires WellFormed(t) && j < |t.names|
    requires forall i :: 0 <= i < |t.rows| ==> Coerce(t.rows[i][j], parse).None?
    ensures t.names[j] !in NumericColumns(t, parse)
    ensures forall k :: 0 <= k < |MixedColumns(t, parse)| ==> MixedColumns(t, parse)[k].name != t.names[j]
  {
    NumericIff(t, j, parse);
    MixedIff(t, j, parse);
  }

  /** Both lists follow column order: an earlier entry names an earlier column. */
  lemma ListsInColumnOrder(t: Table, parse: Parser)
    requires WellFormed(t)
    ensures var ns := NumericColumns(t, parse);
      forall a, b :: 0 <= a < b < |ns| ==>
        (ns[a] in t.names && ns[b] in t.names && IndexOf(t.names, ns[a]) < IndexOf(t.names, ns[b]))
    ensures var ms := MixedColumns(t, parse);
      forall a, b :: 0 <= a < b < |ms| ==>
        (ms[a].name in t.names && ms[b].name in t.names && IndexOf(t.names, ms[a].name) < IndexOf(t.names, ms[b].name))
  {
    ListsPicked(t, parse);
    var ni := Positions(NumericMask(t, parse));
    var mi := Positions(MixedMask(t, parse));
    forall k | 0 <= k < |ni| ensures IndexOf(t.names, t.names[ni[k]]) == ni[k] {
      IndexOfDistinct(t.names, ni[k]);
    }
    forall k | 0 <= k < |mi| ensures IndexOf(t.names, t.names[mi[k]]) == mi[k] {
      IndexOfDistinct(t.names, mi[k]);
    }
  }

  /** With distinct names, a name is found at its own position. */
  lemma IndexOfDistinct(names: seq<string>, j: nat)
    requires Distinct(names) && j < |names|
    ensures IndexOf(names, names[j]) == j
  {
  }
}
