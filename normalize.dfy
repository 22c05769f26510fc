/** The value side of normalize_column: min-max scaling and z-score
    standardisation of a coerced column, with their degenerate cases. */
module Normalize {

  import opened Cells
  import opened Numbers

  /** The accepted method tokens. */
  const MinMaxToken := "minmax"
  const ZScoreToken := "zscore"

  /** The message of the ValueError raised for any other token. */
  const BadMethodMessage := "Method must be 'minmax' or 'zscore'"

  /** df[column] = 0: the whole column becomes the constant 0. */
  function Zeros(n: nat): (r: NumColumn)
    ensures |r| == n
    ensures forall i :: 0 <= i < n ==> r[i] == Some(0.0)
  {
    seq(n, _ => Some(0.0))
  }

  /** (df[column] - shift) / scale, element-wise; missing values stay missing. */
  function Rescale(col: NumColumn, shift: real, scale: real): (r: NumColumn)
    requires scale != 0.0
    ensures |r| == |col|
    ensures forall i :: 0 <= i < |col| ==> (r[i].None? <==> col[i].None?)
  {
    seq(|col|, i requires 0 <= i < |col| =>
      match col[i]
      case None => None
      case Some(v) => Some((v - shift) / scale))
  }

  /** The minmax branch: (v - lo) / (hi - lo), or all zeros when the column has no
      numeric value or its minimum equals its maximum. */
  function MinMaxScale(col: NumColumn): (r: NumColumn)
    ensures |r| == |col|
  {
    var vs := Values(col);
    if |vs| == 0 then Zeros(|col|)
    else
      var lo, hi := Min(vs), Max(vs);
      if hi == lo then Zeros(|col|) else Stretch(col, lo, hi)
  }

  /** (v - lo) / (hi - lo) for every value v. */
  function Stretch(col: NumColumn, lo: real, hi: real): (r: NumColumn)
    requires lo != hi
    ensures |r| == |col|
  {
    Rescale(col, lo, hi - lo)
  }

  /** One element of a stretched column. */
  lemma StretchAt(col: NumColumn, lo: real, hi: real, i: nat, v: real)
    requires lo != hi && i < |col| && col[i] == Some(v)
    ensures Stretch(col, lo, hi)[i] == Some((v - lo) / (hi - lo))
  {
  }

  /** Every non-missing scaled value lies in [0, 1]. */
  lemma {:induction false} MinMaxRange(col: NumColumn)
    ensures forall i :: 0 <= i < |col| && MinMaxScale(col)[i].Some? ==> 0.0 <= MinMaxScale(col)[i].value <= 1.0
  {
    var vs := Values(col);
    if |vs| > 0 && Min(vs) != Max(vs) {
      var lo, hi := Min(vs), Max(vs);
      var r := Stretch(col, lo, hi);
      assert MinMaxScale(col) == r;
      forall i | 0 <= i < |col| && r[i].Some?
        ensures 0.0 <= r[i].value <= 1.0
      {
        var v := col[i].value;
        assert v in vs;
        StretchAt(col, lo, hi, i, v);
        UnitInterval(v - lo, hi - lo);
      }
    }
  }

  /** 0 <= a <= d with d > 0 puts a / d in [0, 1]. */
  lemma {:induction false} UnitInterval(a: real, d: real)
    requires 0.0 <= a <= d && d > 0.0
    ensures 0.0 <= a / d <= 1.0
  {
    var q := a / d;
    assert a == q * d;
  }

  /** A column that holds at least two different values scales its minimum to 0 and
      its maximum to 1, keeps missing values missing, and attains both ends. */
  lemma {:induction false} MinMaxEnds(col: NumColumn)
    requires TwoDistinct(Values(col))
    ensures var vs := Values(col); var r := MinMaxScale(col);
      && (forall i :: 0 <= i < |col| && col[i] == Some(Min(vs)) ==> r[i] == Some(0.0))
      && (forall i :: 0 <= i < |col| && col[i] == Some(Max(vs)) ==> r[i] == Some(1.0))
      && (forall i :: 0 <= i < |col| && col[i].None? ==> r[i].None?)
      && Some(0.0) in r && Some(1.0) in r
  {
    var vs := Values(col);
    MinMaxCollapse(vs);
    var lo, hi := Min(vs), Max(vs);
    var r := Stretch(col, lo, hi);
    assert MinMaxScale(col) == r;
    forall i | 0 <= i < |col| && (col[i] == Some(lo) || col[i] == Some(hi))
      ensures col[i] == Some(lo) ==> r[i] == Some(0.0)
      ensures col[i] == Some(hi) ==> r[i] == Some(1.0)
    {
      StretchEnds(col, lo, hi, i);
    }
    assert Some(lo) in col && Some(hi) in col;
    var a :| 0 <= a < |col| && col[a] == Some(lo);
    var b :| 0 <= b < |col| && col[b] == Some(hi);
    assert r[a] == Some(0.0) && r[b] == Some(1.0);
  }

  /** Stretching sends lo to 0 and hi to 1. */
  lemma StretchEnds(col: NumColumn, lo: real, hi: real, i: nat)
    requires lo != hi && i < |col|
    ensures col[i] == Some(lo) ==> Stretch(col, lo, hi)[i] == Some(0.0)
    ensures col[i] == Some(hi) ==> Stretch(col, lo, hi)[i] == Some(1.0)
  {
    if col[i] == Some(lo) {
      StretchAt(col, lo, hi, i, lo);
      Quotients(lo, hi);
    } else if col[i] == Some(hi) {
      StretchAt(col, lo, hi, i, hi);
      Quotients(lo, hi);
    }
  }

  lemma Quotients(lo: real, hi: real)
    requires lo != hi
    ensures (lo - lo) / (hi - lo) == 0.0
    ensures (hi - lo) / (hi - lo) == 1.0
  {
  }

  /** A constant column, or one with no numeric value, becomes all zeros. */
  lemma {:induction false} MinMaxDegenerate(col: NumColumn)
    requires !TwoDistinct(Values(col))
    ensures MinMaxScale(col) == Zeros(|col|)
  {
    if |Values(col)| > 0 {
      MinMaxCollapse(Values(col));
    }
  }

  /** Min-max scaling preserves the order of the values. */
  lemma {:induction false} MinMaxMonotone(col: NumColumn, i: nat, k: nat)
    requires i < |col| && k < |col|
    requires col[i].Some? && col[k].Some? && col[i].value <= col[k].value
    ensures MinMaxScale(col)[i].Some? && MinMaxScale(col)[k].Some?
    ensures MinMaxScale(col)[i].value <= MinMaxScale(col)[k].value
  {
    var vs := Values(col);
    assert col[i].value in vs;
    var lo, hi := Min(vs), Max(vs);
    if hi != lo {
      var r := Stretch(col, lo, hi);
      assert MinMaxScale(col) == r;
      var v, w := col[i].value, col[k].value;
      StretchAt(col, lo, hi, i, v);
      StretchAt(col, lo, hi, k, w);
      DivideMonotone(v - lo, w - lo, hi - lo);
    }
  }

  /** Dividing by a positive number keeps the order. */
  lemma DivideMonotone(a: real, b: real, d: real)
    requires a <= b && d > 0.0
    ensures a / d <= b / d
  {
    assert a / d * d == a && b / d * d == b;
  }

  /** The zscore branch: (v - mean) / std, or all zeros when the mean or the standard
      deviation is undefined or the deviation is 0. The sample standard deviation is
      computed by the table library and is a parameter here. */
  function ZScore(col: NumColumn, std: seq<real> -> Option<real>): (r: NumColumn)
    ensures |r| == |col|
  {
    var vs := Values(col);
    var mean, sd := Mean(vs), std(vs);
    if sd.Some? && sd.value != 0.0 && mean.Some? then Rescale(col, mean.value, sd.value)
    else Zeros(|col|)
  }

  /** The standardised column has mean 0 whenever it is not degenerate, and keeps
      missing values missing. */
  lemma {:induction false} ZScoreCentred(col: NumColumn, std: seq<real> -> Option<real>)
    requires |Values(col)| > 0
    requires std(Values(col)).Some? && std(Values(col)).value != 0.0
    ensures Mean(Values(ZScore(col, std))) == Some(0.0)
    ensures forall i :: 0 <= i < |col| ==> (ZScore(col, std)[i].None? <==> col[i].None?)
  {
    var vs := Values(col);
    var m, s := Mean(vs).value, std(vs).value;
    assert ZScore(col, std) == Rescale(col, m, s);
    ValuesRescale(col, m, s);
    CentredMean(vs, s);
  }

  /** Values shifted by their own mean and divided by any s != 0 average to 0. */
  lemma {:induction false} CentredMean(vs: seq<real>, s: real)
    requires |vs| > 0 && s != 0.0
    ensures Mean(RescaleAll(vs, Mean(vs).value, s)) == Some(0.0)
  {
    var m := Mean(vs).value;
    var ws := RescaleAll(vs, m, s);
    SumRescaleAll(vs, m, s);
    var total, n := Sum(vs), |vs| as real;
    CentredSum(total, n, m, s);
    assert Sum(ws) == 0.0;
    assert Mean(ws) == Some(0.0 / n);
  }

  /** Subtracting n copies of the mean cancels the sum. */
  lemma CentredSum(total: real, n: real, m: real, s: real)
    requires n > 0.0 && s != 0.0 && m == total / n
    ensures (total - n * m) / s == 0.0
  {
    assert n * m == total;
  }

  /** A constant column (zero deviation), an all-missing column or an undefined
      deviation gives all zeros. */
  lemma {:induction false} ZScoreDegenerate(col: NumColumn, std: seq<real> -> Option<real>)
    requires |Values(col)| == 0 || std(Values(col)).None? || std(Values(col)) == Some(0.0)
    ensures ZScore(col, std) == Zeros(|col|)
  {
  }

  /** (x - shift) / scale applied to a list of values. */
  function RescaleAll(xs: seq<real>, shift: real, scale: real): (r: seq<real>)
    requires scale != 0.0
    ensures |r| == |xs|
  {
    if xs == [] then [] else [(xs[0] - shift) / scale] + RescaleAll(xs[1..], shift, scale)
  }

  lemma {:induction false} ValuesRescale(col: NumColumn, shift: real, scale: real)
    requires scale != 0.0
    ensures Values(Rescale(col, shift, scale)) == RescaleAll(Values(col), shift, scale)
  {
    if col != [] {
      var r := Rescale(col, shift, scale);
      assert r[1..] == Rescale(col[1..], shift, scale);
      ValuesRescale(col[1..], shift, scale);
      var rest := RescaleAll(Values(col[1..]), shift, scale);
      match col[0]
      case None =>
        assert r[0] == None;
        assert Values(r) == rest;
      case Some(v) =>
        assert r[0] == Some((v - shift) / scale);
        assert Values(col) == [v] + Values(col[1..]);
        assert Values(r) == [(v - shift) / scale] + rest;
    }
  }

  lemma {:induction false} SumRescaleAll(xs: seq<real>, shift: real, scale: real)
    requires scale != 0.0
    ensures Sum(RescaleAll(xs, shift, scale)) == (Sum(xs) - (|xs| as real) * shift) / scale
  {
    if xs != [] {
      SumRescaleAll(xs[1..], shift, scale);
      var a, b := xs[0] - shift, Sum(xs[1..]) - ((|xs| - 1) as real) * shift;
      assert a / scale + b / scale == (a + b) / scale;
    }
  }
}
