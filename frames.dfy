/** The caller's DataFrame, which convert_to_numeric, normalize_column,
    regex_clean_column and drop_duplicates(inplace=True) update in place, and
    the column triage that reads it. */
module Frames {

  import opened Cells
  import opened Tables
  import opened Masks
  import opened Normalize
  import opened RegexClean
  import opened Duplicates
  import opened Triage

  /** The rows once column j has been through pd.to_numeric(errors='coerce'). */
  function Converted(rows: seq<Row>, j: nat, parse: Parser): (r: seq<Row>)
    requires forall i :: 0 <= i < |rows| ==> j < |rows[i]|
    ensures |r| == |rows|
    ensures forall i :: 0 <= i < |rows| ==> |r[i]| == |rows[i]|
    ensures forall i :: 0 <= i < |rows| ==> !r[i][j].Text?
    ensures forall i :: 0 <= i < |rows| ==> Coerce(r[i][j], parse) == Coerce(rows[i][j], parse)
    ensures forall i, k :: 0 <= i < |rows| && 0 <= k < |rows[i]| && k != j ==> r[i][k] == rows[i][k]
  {
    var nc := CoerceColumn(Column(rows, j), parse);
    var r := SetColumn(rows, j, ToCells(nc));
    assert forall i :: 0 <= i < |rows| ==> Coerce(r[i][j], parse) == nc[i] by {
      CoerceToCells(nc, parse);
    }
    r
  }

  /** Converting a column that was already converted changes nothing. */
  lemma ConvertedTwice(rows: seq<Row>, j: nat, parse: Parser)
    requires forall i :: 0 <= i < |rows| ==> j < |rows[i]|
    ensures Converted(Converted(rows, j, parse), j, parse) == Converted(rows, j, parse)
  {
    var once := Converted(rows, j, parse);
    var twice := Converted(once, j, parse);
    forall i | 0 <= i < |rows| ensures twice[i] == once[i] {
      assert twice[i][j] == once[i][j] by {
        match once[i][j]
        case Missing =>
        case Num(_) =>
      }
    }
  }

  class DataFrame {

    var names: seq<string>
    var rows: seq<Row>

    /** The columns can be looked up by name: every row is as wide as the header
        and no name occurs twice. */
    ghost predicate Valid()
      reads this
    {
      WellFormed(Table(names, rows))
    }

    /** The frame as a value. */
    function Value(): Table
      reads this
    {
      Table(names, rows)
    }

    constructor (t: Table)
      requires WellFormed(t)
      ensures Valid() && Value() == t
    {
      names := t.names;
      rows := t.rows;
    }

    /** convert_to_numeric: df[column] = pd.to_numeric(df[column], errors='coerce').
        An absent column raises KeyError and nothing changes. */
    method ConvertToNumeric(column: string, parse: Parser) returns (o: Outcome)
      requires Valid()
      modifies this
      ensures Valid() && names == old(names)
      ensures column !in names ==> o == Fail(KeyError(column)) && rows == old(rows)
      ensures column in names ==> o == Pass && rows == Converted(old(rows), IndexOf(names, column), parse)
    {
      if column !in names {
        return Fail(KeyError(column));
      }
      var j := IndexOf(names, column);
      rows := SetColumn(rows, j, ToCells(CoerceColumn(Column(rows, j), parse)));
      o := Pass;
    }

    /** normalize_column: the column is converted first, in the caller's frame;
        then "minmax" or "zscore" replaces it by its scaled values, and any other
        method token raises ValueError with the conversion already made. */
    method NormalizeColumn(column: string, scheme: string, parse: Parser, std: seq<real> -> Option<real>)
      returns (o: Outcome)
      requires Valid()
      modifies this
      ensures Valid() && names == old(names)
      ensures column !in names ==> o == Fail(KeyError(column)) && rows == old(rows)
      ensures column in names ==>
        var j := IndexOf(names, column);
        var nc := CoerceColumn(Column(old(rows), j), parse);
        && (scheme == MinMaxToken ==> o == Pass && rows == SetColumn(old(rows), j, ToCells(MinMaxScale(nc))))
        && (scheme == ZScoreToken ==> o == Pass && rows == SetColumn(old(rows), j, ToCells(ZScore(nc, std))))
        && (scheme != MinMaxToken && scheme != ZScoreToken ==>
              o == Fail(ValueError(BadMethodMessage)) && rows == Converted(old(rows), j, parse))
    {
      o := ConvertToNumeric(column, parse);
      if o.Fail? {
        return;
      }
      var j := IndexOf(names, column);
      ghost var before := old(rows);
      var nc := CoerceColumn(Column(rows, j), parse);
      assert nc == CoerceColumn(Column(before, j), parse) by {
        var nc0 := CoerceColumn(Column(before, j), parse);
        ColumnAfterSet(before, j, ToCells(nc0), j);
        CoerceToCells(nc0, parse);
      }
      if scheme == MinMaxToken {
        SetColumnTwice(before, j, ToCells(nc), ToCells(MinMaxScale(nc)));
        rows := SetColumn(rows, j, ToCells(MinMaxScale(nc)));
      } else if scheme == ZScoreToken {
        SetColumnTwice(before, j, ToCells(nc), ToCells(ZScore(nc, std)));
        rows := SetColumn(rows, j, ToCells(ZScore(nc, std)));
      } else {
        o := Fail(ValueError(BadMethodMessage));
      }
    }

    /** regex_clean_column: the column as text with every character of chars
        removed. An absent column raises KeyError first. An empty chars gives the
        pattern "[]", which the regular-expression engine refuses and nothing
        changes; Series.replace returns before compiling the pattern when the
        column has no cells, so an empty frame is never refused. */
    method RegexCleanColumn(column: string, chars: string, render: real -> string) returns (o: Outcome)
      requires Valid()
      modifies this
      ensures Valid() && names == old(names)
      ensures column !in names ==> o == Fail(KeyError(column)) && rows == old(rows)
      ensures column in names && chars == [] && |old(rows)| > 0 ==>
        o == Fail(RegexError("[]")) && rows == old(rows)
      ensures column in names && (chars != [] || |old(rows)| == 0) ==> o == Pass
      ensures column in names && (chars != [] || |old(rows)| == 0) ==>
        var j := IndexOf(names, column);
        rows == SetColumn(old(rows), j, CleanColumn(Column(old(rows), j), chars, render))
    {
      if column !in names {
        return Fail(KeyError(column));
      }
      var j := IndexOf(names, column);
      if Refused(chars) && |rows| > 0 {
        o := Fail(RegexError("[]"));
      } else {
        rows := SetColumn(rows, j, CleanColumn(Column(rows, j), chars, render));
        o := Pass;
      }
    }

    /** drop_duplicates(inplace=True): the caller's frame becomes what the copy
        variant returns, and the call returns None; a KeyError leaves it as it was. */
    method DropDuplicatesInPlace(subset: Option<seq<string>>, keep: Keep) returns (o: Outcome)
      requires Valid()
      modifies this
      ensures Valid()
      ensures var r := DropDuplicates(old(Value()), subset, keep);
        && (r.Success? ==> o == Pass && Value() == r.value)
        && (r.Failure? ==> o == Fail(r.error) && Value() == old(Value()))
    {
      match DropDuplicates(Value(), subset, keep)
      case Failure(e) =>
        o := Fail(e);
      case Success(t) =>
        rows := t.rows;
        o := Pass;
    }

    /** drop_duplicates(inplace=False): a new frame, and the caller's is not touched. */
    method DropDuplicatesCopy(subset: Option<seq<string>>, keep: Keep) returns (r: Result<Table>)
      requires Valid()
      ensures r == DropDuplicates(Value(), subset, keep)
      ensures r.Success? ==> WellFormed(r.value)
    {
      r := DropDuplicates(Value(), subset, keep);
    }

    /** identify_numeric_columns: one pass over the columns, appending each to the
        numeric list or the mixed list; the frame is only read. */
    method IdentifyNumericColumns(parse: Parser) returns (numeric: seq<string>, mixed: seq<MixedColumn>)
      requires Valid()
      ensures numeric == NumericColumns(Value(), parse)
      ensures mixed == MixedColumns(Value(), parse)
    {
      var t := Value();
      numeric, mixed := [], [];
      var j := 0;
      while j < |t.names|
        invariant 0 <= j <= |t.names|
        invariant numeric == NumericUpTo(t, parse, j)
        invariant mixed == MixedUpTo(t, parse, j)
      {
        var n := NumericCount(t, j, parse);
        if n > 0 {
          if n == |t.rows| {
            numeric := numeric + [t.names[j]];
          } else {
            mixed := mixed + [MixedColumn(t.names[j], n, |t.rows| - n)];
          }
        }
        VisitColumn(t, parse, j, n);
        j := j + 1;
      }
    }
  }
}
