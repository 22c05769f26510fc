/** Reductions over the numeric values of a column: minimum, maximum, sum and
    mean, with exact real arithmetic standing in for float64. */
module Numbers {

  import opened Cells

  /** Series.min() over a non-empty list of values. */
  function Min(xs: seq<real>): (m: real)
    requires |xs| > 0
    ensures m in xs
    ensures forall x :: x in xs ==> m <= x
  {
    if |xs| == 1 then xs[0]
    else
      var r := Min(xs[1..]);
      assert forall x :: x in xs ==> x == xs[0] || x in xs[1..];
      if xs[0] <= r then xs[0] else r
  }

  /** Series.max() over a non-empty list of values. */
  function Max(xs: seq<real>): (m: real)
    requires |xs| > 0
    ensures m in xs
    ensures forall x :: x in xs ==> x <= m
  {
    if |xs| == 1 then xs[0]
    else
      var r := Max(xs[1..]);
      assert forall x :: x in xs ==> x == xs[0] || x in xs[1..];
      if xs[0] >= r then xs[0] else r
  }

  function Sum(xs: seq<real>): real
  {
    if xs == [] then 0.0 else xs[0] + Sum(xs[1..])
  }

  /** Series.mean(): undefined (NaN) for an empty list. */
  function Mean(xs: seq<real>): (m: Option<real>)
    ensures m.Some? <==> |xs| > 0
  {
    if |xs| == 0 then None else Some(Sum(xs) / (|xs| as real))
  }

  /** The list holds two different values. */
  ghost predicate TwoDistinct(xs: seq<real>)
  {
    exists a, b :: a in xs && b in xs && a != b
  }

  /** The minimum equals the maximum exactly when all values are the same. */
  lemma {:induction false} MinMaxCollapse(xs: seq<real>)
    requires |xs| > 0
    ensures Min(xs) == Max(xs) <==> !TwoDistinct(xs)
  {
    if Min(xs) == Max(xs) {
      forall a, b | a in xs && b in xs ensures a == b {
        assert Min(xs) <= a <= Max(xs) && Min(xs) <= b <= Max(xs);
      }
    } else {
      assert Min(xs) in xs && Max(xs) in xs;
    }
  }

  /** Values in [lo, hi] sum to between n * lo and n * hi. */
  lemma {:induction false} SumBounds(xs: seq<real>, lo: real, hi: real)
    requires forall x :: x in xs ==> lo <= x <= hi
    ensures (|xs| as real) * lo <= Sum(xs) <= (|xs| as real) * hi
  {
    if xs != [] {
      assert xs[0] in xs;
      assert forall x :: x in xs[1..] ==> x in xs;
      SumBounds(xs[1..], lo, hi);
    }
  }

  /** Dividing by a positive count keeps a bound: n * a <= s implies a <= s / n. */
  lemma DivideBound(s: real, n: real, a: real, b: real)
    requires n > 0.0
    requires n * a <= s <= n * b
    ensures a <= s / n <= b
  {
    var q := s / n;
    assert s == n * q;
    assert n * (q - a) >= 0.0;
    assert n * (b - q) >= 0.0;
  }

  /** The mean of a non-empty list lies between its minimum and its maximum. */
  lemma {:induction false} MeanBetween(xs: seq<real>)
    requires |xs| > 0
    ensures Min(xs) <= Mean(xs).value <= Max(xs)
  {
    var lo, hi, n := Min(xs), Max(xs), |xs| as real;
    SumBounds(xs, lo, hi);
    DivideBound(Sum(xs), n, lo, hi);
    assert Mean(xs).value == Sum(xs) / n;
  }
}
