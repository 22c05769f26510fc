/** Cell values of a table, the failures the cleaning routines raise, and
    the numeric coercion that pd.to_numeric(..., errors='coerce') performs. */
module Cells {

  datatype Option<+T> = None | Some(value: T)

  /** One scalar of a table: a missing value (NaN or None), a number or a piece of text. */
  datatype Cell = Missing | Num(r: real) | Text(s: string)

  /** The failures the routines raise (as opposed to value-level error records). */
  datatype Error =
    | KeyError(column: string)     // a column name that is not in the table
    | ValueError(message: string)  // an argument outside the accepted tokens
    | RegexError(pattern: string)  // a pattern the regular-expression engine refuses

  /** What an operation that works by side effect does: it returns, or it raises. */
  datatype Outcome = Pass | Fail(error: Error)

  /** What an operation that computes a value does: it returns the value, or it raises. */
  datatype Result<+T> = Success(value: T) | Failure(error: Error)

  /** The numeric parse of a text value; None when the text is not a number.
      The parser itself belongs to the table library and is a parameter here. */
  type Parser = string -> Option<real>

  /** A column after numeric coercion: None where the value is missing. */
  type NumColumn = seq<Option<real>>

  /** The numeric value of one cell under errors='coerce'. */
  function Coerce(c: Cell, parse: Parser): Option<real>
  {
    match c
    case Missing => None
    case Num(x) => Some(x)
    case Text(s) => parse(s)
  }

  /** Coerces every cell of a column; numbers are kept and missing cells stay missing. */
  function CoerceColumn(col: seq<Cell>, parse: Parser): (r: NumColumn)
    ensures |r| == |col|
    ensures forall i :: 0 <= i < |col| && col[i].Num? ==> r[i] == Some(col[i].r)
    ensures forall i :: 0 <= i < |col| && col[i].Missing? ==> r[i] == None
    ensures forall i :: 0 <= i < |col| && col[i].Text? ==> r[i] == parse(col[i].s)
  {
    seq(|col|, i requires 0 <= i < |col| => Coerce(col[i], parse))
  }

  /** Writes a coerced column back into cells: a float column holds no text. */
  function ToCells(nc: NumColumn): (r: seq<Cell>)
    ensures |r| == |nc|
    ensures forall i :: 0 <= i < |nc| ==> !r[i].Text?
  {
    seq(|nc|, i requires 0 <= i < |nc| => match nc[i] case None => Missing case Some(v) => Num(v))
  }

  /** Coercing a column that is already numeric gives it back: coercion is idempotent. */
  lemma CoerceToCells(nc: NumColumn, parse: Parser)
    ensures CoerceColumn(ToCells(nc), parse) == nc
  {
    var r := CoerceColumn(ToCells(nc), parse);
    assert |r| == |nc|;
    forall i | 0 <= i < |nc| ensures r[i] == nc[i] {
      match nc[i]
      case None =>
      case Some(v) =>
    }
  }

  /** The non-missing values of a coerced column, in row order (Series.dropna()). */
  function Values(col: NumColumn): (vs: seq<real>)
    ensures |vs| <= |col|
    ensures forall v :: v in vs <==> Some(v) in col
  {
    if col == [] then []
    else
      var rest := Values(col[1..]);
      assert forall v :: Some(v) in col <==> col[0] == Some(v) || Some(v) in col[1..];
      match col[0]
      case None => rest
      case Some(v) => [v] + rest
  }

  /** dropna() works cell by cell: the values of a + b are those of a, then those of b. */
  lemma {:induction false} ValuesAppend(a: NumColumn, b: NumColumn)
    ensures Values(a + b) == Values(a) + Values(b)
  {
    if a == [] {
      assert a + b == b;
    } else {
      assert (a + b)[1..] == a[1..] + b;
      ValuesAppend(a[1..], b);
    }
  }

  /** A single cell contributes its value when present and nothing when missing;
      with ValuesAppend this fixes Values as one value per present cell, in row order. */
  lemma ValuesSingle(c: Option<real>)
    ensures Values([c]) == if c.Some? then [c.value] else []
  {
    assert [c][1..] == [];
  }

  /** A column has no numeric value exactly when every coerced cell is missing. */
  lemma {:induction false} ValuesEmpty(col: NumColumn)
    ensures |Values(col)| == 0 <==> forall i :: 0 <= i < |col| ==> col[i].None?
  {
    if col != [] {
      ValuesEmpty(col[1..]);
      assert forall i :: 1 <= i < |col| ==> col[i] == col[1..][i - 1];
    }
  }
}
