/** The value side of get_summary_stats: the statistics of the numeric values
    of one column, read from a coerced copy of the table. */
module Summary {

  import opened Cells
  import opened Tables
  import opened Numbers

  /** The dictionary get_summary_stats returns: an error record, or the statistics.
      The sample standard deviation of a single value is NaN, hence the Option. */
  datatype Summary =
    | ErrorRecord(error: string)
    | Record(min: real, max: real, mean: real, median: real, std: Option<real>,
             count: nat, nullCount: nat)

  /** The text of the error record. */
  function NoNumericMessage(column: string): string
  {
    "Column '" + column + "' contains no numeric values after conversion"
  }

  /** df_temp[column] once convert_to_numeric has run on the copy. */
  function CoercedColumn(t: Table, column: string, parse: Parser): (col: NumColumn)
    requires Rectangular(t) && column in t.names
    ensures |col| == |t.rows|
    ensures forall i :: 0 <= i < |t.rows| ==> col[i] == Coerce(t.rows[i][IndexOf(t.names, column)], parse)
  {
    CoerceColumn(Column(t.rows, IndexOf(t.names, column)), parse)
  }

  /** get_summary_stats. Reading an absent column raises KeyError. The median and
      the sample standard deviation are computed by the table library and are
      parameters here. The caller's table is a value and cannot change. */
  function SummaryStats(t: Table, column: string, parse: Parser,
                        median: seq<real> -> real, std: seq<real> -> Option<real>): (r: Result<Summary>)
    requires Rectangular(t)
    ensures r.Failure? <==> column !in t.names
    ensures r.Failure? ==> r.error == KeyError(column)
    ensures r.Success? && r.value.ErrorRecord? ==> r.value.error == NoNumericMessage(column)
    ensures r.Success? && r.value.Record? ==>
      && r.value.count > 0
      && r.value.count + r.value.nullCount == |t.rows|
      && r.value.min <= r.value.max
  {
    if column !in t.names then Failure(KeyError(column))
    else
      var col := CoercedColumn(t, column, parse);
      var vs := Values(col);
      if |vs| == 0 then Success(ErrorRecord(NoNumericMessage(column)))
      else
        Success(Record(Min(vs), Max(vs), Mean(vs).value, median(vs), std(vs), |vs|, |col| - |vs|))
  }

  /** The error record comes back exactly when no cell of the column coerces to a number. */
  lemma SummaryErrorIff(t: Table, column: string, parse: Parser,
                        median: seq<real> -> real, std: seq<real> -> Option<real>)
    requires Rectangular(t) && column in t.names
    ensures var j := IndexOf(t.names, column);
      SummaryStats(t, column, parse, median, std).value.ErrorRecord? <==>
      forall i :: 0 <= i < |t.rows| ==> Coerce(t.rows[i][j], parse).None?
  {
    ValuesEmpty(CoercedColumn(t, column, parse));
  }

  /** A column with a value that coerces gives a record. In it, min and max are
      values of the column, every numeric value lies between them, the mean lies
      between them, and count is the number of cells that coerce. */
  lemma SummaryRecord(t: Table, column: string, parse: Parser,
                      median: seq<real> -> real, std: seq<real> -> Option<real>)
    requires Rectangular(t) && column in t.names
    requires exists i :: 0 <= i < |t.rows| && Coerce(t.rows[i][IndexOf(t.names, column)], parse).Some?
    ensures SummaryStats(t, column, parse, median, std).value.Record?
    ensures var s, j := SummaryStats(t, column, parse, median, std).value, IndexOf(t.names, column);
      && (exists i :: 0 <= i < |t.rows| && Coerce(t.rows[i][j], parse) == Some(s.min))
      && (exists i :: 0 <= i < |t.rows| && Coerce(t.rows[i][j], parse) == Some(s.max))
      && (forall i :: 0 <= i < |t.rows| && Coerce(t.rows[i][j], parse).Some? ==>
            s.min <= Coerce(t.rows[i][j], parse).value <= s.max)
      && s.min <= s.mean <= s.max
      && s.count == |Values(CoercedColumn(t, column, parse))|
  {
    var col := CoercedColumn(t, column, parse);
    var vs := Values(col);
    var w :| 0 <= w < |t.rows| && col[w].Some?;
    assert col[w].value in vs;
    var s := SummaryStats(t, column, parse, median, std).value;
    assert Some(s.min) in col && Some(s.max) in col;
    forall i | 0 <= i < |t.rows| && col[i].Some?
      ensures s.min <= col[i].value <= s.max
    {
      assert col[i].value in vs;
    }
    MeanBetween(vs);
  }
}
