/** The value side of drop_duplicates: rows are compared on a subset of the
    columns (all of them by default), and of each group of rows with equal keys
    the first, the last or none is kept, in the original row order. */
module Duplicates {

  import opened Cells
  import opened Tables
  import opened Masks

  /** keep="first", keep="last" and keep=False. */
  datatype Keep = First | Last | Neither

  /** Every row is wide enough for every key column. */
  predicate Fits(rows: seq<Row>, cols: seq<nat>)
  {
    forall i, k :: 0 <= i < |rows| && 0 <= k < |cols| ==> cols[k] < |rows[i]|
  }

  /** The key of every row, in row order: its cells in the key columns. */
  function Keys(rows: seq<Row>, cols: seq<nat>): (r: seq<Row>)
    requires Fits(rows, cols)
    ensures |r| == |rows|
    ensures forall i :: 0 <= i < |rows| ==> r[i] == Pick(rows[i], cols)
  {
    seq(|rows|, i requires 0 <= i < |rows| => Pick(rows[i], cols))
  }

  /** The positions of the subset's column names; a name that is not a column
      raises KeyError. */
  function Lookup(names: seq<string>, subset: seq<string>): (r: Result<seq<nat>>)
    ensures r.Success? <==> forall k :: 0 <= k < |subset| ==> subset[k] in names
    ensures r.Success? ==> |r.value| == |subset|
    ensures r.Success? ==> forall k :: 0 <= k < |subset| ==> r.value[k] < |names| && names[r.value[k]] == subset[k]
    ensures r.Failure? ==> r.error.KeyError? && r.error.column in subset && r.error.column !in names
  {
    if subset == [] then Success([])
    else if subset[0] !in names then Failure(KeyError(subset[0]))
    else
      match Lookup(names, subset[1..])
      case Failure(e) => Failure(e)
      case Success(rest) => Success([IndexOf(names, subset[0])] + rest)
  }

  /** The key columns: every column when no subset is given. */
  function KeyColumns(names: seq<string>, subset: Option<seq<string>>): (r: Result<seq<nat>>)
    ensures r.Success? ==> forall k :: 0 <= k < |r.value| ==> r.value[k] < |names|
    ensures subset.None? ==> r.Success? && |r.value| == |names| && forall k :: 0 <= k < |names| ==> r.value[k] == k
    ensures subset.Some? ==> r == Lookup(names, subset.value)
  {
    match subset
    case None => Success(seq(|names|, k => k))
    case Some(s) => Lookup(names, s)
  }

  /** Whether the row at position i survives: under First no earlier row has its
      key, under Last no later row has it, under Neither no other row has it. */
  predicate Keeps(keys: seq<Row>, keep: Keep, i: nat)
    requires i < |keys|
  {
    match keep
    case First => forall k :: 0 <= k < i ==> keys[k] != keys[i]
    case Last => forall k :: i < k < |keys| ==> keys[k] != keys[i]
    case Neither => forall k :: 0 <= k < |keys| && k != i ==> keys[k] != keys[i]
  }

  /** The negation of DataFrame.duplicated(keep=...). */
  function KeepMask(keys: seq<Row>, keep: Keep): (m: seq<bool>)
    ensures |m| == |keys|
    ensures forall i :: 0 <= i < |keys| ==> (m[i] <==> Keeps(keys, keep, i))
  {
    seq(|keys|, i requires 0 <= i < |keys| => Keeps(keys, keep, i))
  }

  /** drop_duplicates: a frame with no rows or no columns comes back as it is;
      otherwise an unknown subset name raises KeyError, and the surviving rows are
      those the keep policy selects, in their original order. */
  function DropDuplicates(t: Table, subset: Option<seq<string>>, keep: Keep): (r: Result<Table>)
    requires Rectangular(t)
    ensures |t.rows| == 0 || |t.names| == 0 ==> r == Success(t)
    ensures r.Failure? <==> |t.rows| > 0 && |t.names| > 0 && subset.Some? &&
                            exists k :: 0 <= k < |subset.value| && subset.value[k] !in t.names
    ensures r.Failure? ==> r.error.KeyError? && r.error.column in subset.value && r.error.column !in t.names
    ensures r.Success? ==> r.value.names == t.names && Rectangular(r.value) && |r.value.rows| <= |t.rows|
    ensures r.Success? ==> forall k :: 0 <= k < |r.value.rows| ==> r.value.rows[k] in t.rows
  {
    if |t.rows| == 0 || |t.names| == 0 then Success(t)
    else
      match KeyColumns(t.names, subset)
      case Failure(e) => Failure(e)
      case Success(cols) =>
        var idx := Positions(KeepMask(Keys(t.rows, cols), keep));
        Success(Table(t.names, Pick(t.rows, idx)))
  }

  /** The keys DropDuplicates compares rows on, once the subset is known to be valid. */
  function KeysOf(t: Table, subset: Option<seq<string>>): (keys: seq<Row>)
    requires Rectangular(t) && KeyColumns(t.names, subset).Success?
    ensures |keys| == |t.rows|
  {
    Keys(t.rows, KeyColumns(t.names, subset).value)
  }

  /** The surviving rows are the input rows at strictly increasing positions, and a
      position is among them exactly when the keep policy keeps it: the relative
      order of the rows is preserved. */
  lemma DropDuplicatesKept(t: Table, subset: Option<seq<string>>, keep: Keep)
    requires Rectangular(t) && |t.rows| > 0 && |t.names| > 0
    requires KeyColumns(t.names, subset).Success?
    ensures var keys, r := KeysOf(t, subset), DropDuplicates(t, subset, keep);
      var idx := Positions(KeepMask(keys, keep));
      && r.Success?
      && r.value.rows == Pick(t.rows, idx)
      && (forall a, b :: 0 <= a < b < |idx| ==> idx[a] < idx[b])
      && (forall p :: 0 <= p < |t.rows| ==> (p in idx <==> Keeps(keys, keep, p)))
  {
  }

  /** The keys of the picked rows are the picked keys. */
  lemma KeysPick(rows: seq<Row>, cols: seq<nat>, idx: seq<nat>)
    requires Fits(rows, cols)
    requires forall k :: 0 <= k < |idx| ==> idx[k] < |rows|
    ensures Fits(Pick(rows, idx), cols)
    ensures Keys(Pick(rows, idx), cols) == Pick(Keys(rows, cols), idx)
  {
  }

  /** Under every keep policy, no two kept positions share a key. */
  lemma {:induction false} KeptKeysDistinct(keys: seq<Row>, keep: Keep)
    ensures Distinct(Pick(keys, Positions(KeepMask(keys, keep))))
  {
    var idx := Positions(KeepMask(keys, keep));
    var kk := Pick(keys, idx);
    forall a, b | 0 <= a < b < |kk| ensures kk[a] != kk[b] {
      var p, q := idx[a], idx[b];
      assert p < q && Keeps(keys, keep, p) && Keeps(keys, keep, q);
      match keep
      case First => assert keys[p] != keys[q];
      case Last => assert keys[q] != keys[p];
      case Neither => assert keys[p] != keys[q];
    }
  }

  /** No two surviving rows have the same key. */
  lemma DropDuplicatesDistinct(t: Table, subset: Option<seq<string>>, keep: Keep)
    requires Rectangular(t) && |t.rows| > 0 && |t.names| > 0
    requires KeyColumns(t.names, subset).Success?
    ensures var r := DropDuplicates(t, subset, keep).value; var cols := KeyColumns(t.names, subset).value;
      Fits(r.rows, cols) && Distinct(Keys(r.rows, cols))
  {
    var cols := KeyColumns(t.names, subset).value;
    var keys := Keys(t.rows, cols);
    var idx := Positions(KeepMask(keys, keep));
    KeysPick(t.rows, cols, idx);
    KeptKeysDistinct(keys, keep);
  }

  /** The last position of x. */
  function LastIndexOf<T(==)>(s: seq<T>, x: T): (k: nat)
    requires x in s
    ensures k < |s| && s[k] == x
    ensures forall m :: k < m < |s| ==> s[m] != x
  {
    var n := |s| - 1;
    if s[n] == x then n
    else
      assert x in s[..n] by { var i :| 0 <= i < |s| && s[i] == x; assert s[..n][i] == x; }
      LastIndexOf(s[..n], x)
  }

  /** Under First and Last every group keeps one row: every key of the input is the
      key of some kept position. */
  lemma {:induction false} KeptKeysCover(keys: seq<Row>, keep: Keep, i: nat)
    requires keep != Neither && i < |keys|
    ensures keys[i] in Pick(keys, Positions(KeepMask(keys, keep)))
  {
    var idx := Positions(KeepMask(keys, keep));
    var p := if keep == First then IndexOf(keys, keys[i]) else LastIndexOf(keys, keys[i]);
    assert Keeps(keys, keep, p);
    assert p in idx;
    var k :| 0 <= k < |idx| && idx[k] == p;
    assert Pick(keys, idx)[k] == keys[i];
  }

  /** With keep="first" or keep="last", every key of the input survives. */
  lemma DropDuplicatesCovers(t: Table, subset: Option<seq<string>>, keep: Keep)
    requires Rectangular(t) && |t.rows| > 0 && |t.names| > 0
    requires KeyColumns(t.names, subset).Success?
    requires keep != Neither
    ensures var r := DropDuplicates(t, subset, keep).value; var cols := KeyColumns(t.names, subset).value;
      Fits(r.rows, cols) && forall i :: 0 <= i < |t.rows| ==> Pick(t.rows[i], cols) in Keys(r.rows, cols)
  {
    var cols := KeyColumns(t.names, subset).value;
    var keys := Keys(t.rows, cols);
    var idx := Positions(KeepMask(keys, keep));
    KeysPick(t.rows, cols, idx);
    forall i | 0 <= i < |t.rows| ensures keys[i] in Pick(keys, idx) {
      KeptKeysCover(keys, keep, i);
    }
  }

  /** The set of distinct keys. */
  function KeySet(keys: seq<Row>): set<Row>
  {
    set i | 0 <= i < |keys| :: keys[i]
  }

  /** A sequence without repetitions has as many distinct elements as entries. */
  lemma {:induction false} DistinctCount(s: seq<Row>)
    requires Distinct(s)
    ensures |KeySet(s)| == |s|
  {
    if s != [] {
      var n := |s| - 1;
      DistinctCount(s[..n]);
      assert KeySet(s) == KeySet(s[..n]) + {s[n]} by {
        forall x | x in KeySet(s) ensures x in KeySet(s[..n]) + {s[n]} {
          var i :| 0 <= i < |s| && s[i] == x;
          if i < n { assert s[..n][i] == x; }
        }
      }
      assert s[n] !in KeySet(s[..n]);
    }
  }

  /** With keep="first" or keep="last", one row per distinct key survives, so the
      number of rows removed is the number of rows less the number of groups. */
  lemma DropDuplicatesCount(t: Table, subset: Option<seq<string>>, keep: Keep)
    requires Rectangular(t) && |t.rows| > 0 && |t.names| > 0
    requires KeyColumns(t.names, subset).Success?
    requires keep != Neither
    ensures var r := DropDuplicates(t, subset, keep).value;
      |r.rows| == |KeySet(KeysOf(t, subset))|
  {
    var keys := KeysOf(t, subset);
    var idx := Positions(KeepMask(keys, keep));
    var kk := Pick(keys, idx);
    KeptKeysDistinct(keys, keep);
    DistinctCount(kk);
    assert KeySet(kk) == KeySet(keys) by {
      forall x | x in KeySet(keys) ensures x in KeySet(kk) {
        var i :| 0 <= i < |keys| && keys[i] == x;
        KeptKeysCover(keys, keep, i);
        var k :| 0 <= k < |kk| && kk[k] == x;
      }
    }
  }

  /** Without a subset the key is the whole row: no two surviving rows are equal. */
  lemma DropDuplicatesWholeRows(t: Table, keep: Keep)
    requires Rectangular(t) && |t.rows| > 0 && |t.names| > 0
    ensures var r := DropDuplicates(t, None, keep).value; Distinct(r.rows)
  {
    var cols := KeyColumns(t.names, None).value;
    var r := DropDuplicates(t, None, keep).value;
    DropDuplicatesDistinct(t, None, keep);
    forall i | 0 <= i < |r.rows| ensures Pick(r.rows[i], cols) == r.rows[i] {
    }
  }

  /** Rows with pairwise different keys all survive. */
  lemma {:induction false} KeepAllDistinct(keys: seq<Row>, keep: Keep)
    requires Distinct(keys)
    ensures Positions(KeepMask(keys, keep)) == seq(|keys|, i => i)
  {
    var m := KeepMask(keys, keep);
    forall i | 0 <= i < |keys| ensures m[i] {
      assert Keeps(keys, keep, i);
    }
    PositionsAll(m);
  }

  /** Dropping duplicates twice is dropping them once. */
  lemma DropDuplicatesIdempotent(t: Table, subset: Option<seq<string>>, keep: Keep)
    requires Rectangular(t) && KeyColumns(t.names, subset).Success?
    ensures var r := DropDuplicates(t, subset, keep);
      r.Success? && DropDuplicates(r.value, subset, keep) == r
  {
    if |t.rows| > 0 && |t.names| > 0 {
      var r := DropDuplicates(t, subset, keep).value;
      DropDuplicatesDistinct(t, subset, keep);
      if |r.rows| > 0 {
        var cols := KeyColumns(t.names, subset).value;
        KeepAllDistinct(Keys(r.rows, cols), keep);
        PickAll(r.rows);
      }
    }
  }
}
