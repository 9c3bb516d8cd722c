/**
 * The atom-to-molecule membership matrix and the trimming both consumers
 * apply to it: drop every all-false row (padding atoms), then every
 * all-false column of what is left (padding molecules).
 */
module Membership {
  import opened Tensor

  /** Row i, column j is true iff atom i belongs to molecule j. */
  type Matrix = seq<seq<bool>>

  /** Every row has `cols` entries. */
  predicate IsMatrix(m: Matrix, cols: nat)
  {
    forall row :: row in m ==> |row| == cols
  }

  /** `reduce_any(m, axis=1)`: which rows hold some true entry. */
  function RowMask(m: Matrix): (mask: seq<bool>)
    ensures |mask| == |m|
    ensures forall i :: 0 <= i < |m| ==> (mask[i] <==> exists j :: 0 <= j < |m[i]| && m[i][j])
  {
    seq(|m|, i requires 0 <= i < |m| => true in m[i])
  }

  /** Column j of the matrix, `m[:, j]`. */
  function Column(m: Matrix, cols: nat, j: nat): (col: seq<bool>)
    requires IsMatrix(m, cols) && j < cols
    ensures |col| == |m|
    ensures forall i :: 0 <= i < |m| ==> col[i] == m[i][j]
    ensures forall i :: 0 <= i < |m| && col[i] ==> RowMask(m)[i]
  {
    seq(|m|, i requires 0 <= i < |m| => m[i][j])
  }

  /** `reduce_any(m, axis=0)`: which columns hold some true entry. */
  function ColMask(m: Matrix, cols: nat): (mask: seq<bool>)
    requires IsMatrix(m, cols)
    ensures |mask| == cols
    ensures forall j :: 0 <= j < cols ==> (mask[j] <==> exists i :: 0 <= i < |m| && m[i][j])
  {
    seq(cols, j requires 0 <= j < cols => true in Column(m, cols, j))
  }

  /** The matrix without its all-false rows. */
  function RowTrimmed(m: Matrix, cols: nat): (r: Matrix)
    requires IsMatrix(m, cols)
    ensures IsMatrix(r, cols)
  {
    BooleanMaskSubset(m, RowMask(m));
    BooleanMask(m, RowMask(m))
  }

  /** Number of molecules left after trimming. */
  function Width(m: Matrix, cols: nat): nat
    requires IsMatrix(m, cols)
  {
    Count(ColMask(RowTrimmed(m, cols), cols))
  }

  /** The shared trimming policy: all-false rows out, then all-false
      columns of the remaining rows out, both by boolean masking. */
  function Trim(m: Matrix, cols: nat): (t: Matrix)
    requires IsMatrix(m, cols)
    ensures |t| == Count(RowMask(m))
    ensures IsMatrix(t, Width(m, cols))
  {
    var r := RowTrimmed(m, cols);
    var keep := ColMask(r, cols);
    seq(|r|, i requires 0 <= i < |r| => BooleanMask(r[i], keep))
  }

  /** Dropping all-false rows never empties a column: the column mask is the
      same before and after the rows go. */
  lemma ColMaskAfterRowTrim(m: Matrix, cols: nat)
    requires IsMatrix(m, cols)
    ensures ColMask(RowTrimmed(m, cols), cols) == ColMask(m, cols)
  {
    var rm := RowMask(m);
    var r := RowTrimmed(m, cols);
    forall j | 0 <= j < cols
      ensures ColMask(r, cols)[j] == ColMask(m, cols)[j]
    {
      if true in Column(m, cols, j) {
        var i :| 0 <= i < |m| && m[i][j];
        assert true in m[i];
        BooleanMaskAt(m, rm, i);
        assert r[Rank(rm, i)] == m[i];
        assert Column(r, cols, j)[Rank(rm, i)];
      }
      if true in Column(r, cols, j) {
        var a :| 0 <= a < |r| && r[a][j];
        assert r[a] == m[Where(rm)[a]];
        assert Column(m, cols, j)[Where(rm)[a]];
      }
    }
  }

  /** Trimming keeps, in their original order, exactly the rows with a true
      entry and exactly the columns with a true entry: entry (a, b) of the
      trimmed matrix is entry (Where(rows)[a], Where(columns)[b]) of the
      original, and both index lists are increasing and list every kept
      position. */
  lemma TrimKeepsInOrder(m: Matrix, cols: nat)
    requires IsMatrix(m, cols)
    ensures Width(m, cols) == Count(ColMask(m, cols))
    ensures forall a, b :: 0 <= a < |Trim(m, cols)| && 0 <= b < Width(m, cols) ==>
      Trim(m, cols)[a][b] == m[Where(RowMask(m))[a]][Where(ColMask(m, cols))[b]]
    ensures forall i :: 0 <= i < |m| ==> (i in Where(RowMask(m)) <==> true in m[i])
    ensures forall j :: 0 <= j < cols ==> (j in Where(ColMask(m, cols)) <==> true in Column(m, cols, j))
    ensures forall a, b :: 0 <= a < b < |Where(RowMask(m))| ==> Where(RowMask(m))[a] < Where(RowMask(m))[b]
    ensures forall a, b :: 0 <= a < b < |Where(ColMask(m, cols))| ==>
      Where(ColMask(m, cols))[a] < Where(ColMask(m, cols))[b]
  {
    TrimEntries(m, cols);
    WhereIncreasing(RowMask(m));
    WhereIncreasing(ColMask(m, cols));
    WhereListsTrue(RowMask(m));
    WhereListsTrue(ColMask(m, cols));
  }

  /** Entry (a, b) of the trimmed matrix is the original entry at the a-th
      kept row and the b-th kept column. */
  lemma TrimEntries(m: Matrix, cols: nat)
    requires IsMatrix(m, cols)
    ensures Width(m, cols) == Count(ColMask(m, cols))
    ensures forall a, b :: 0 <= a < |Trim(m, cols)| && 0 <= b < Width(m, cols) ==>
      Trim(m, cols)[a][b] == m[Where(RowMask(m))[a]][Where(ColMask(m, cols))[b]]
  {
    ColMaskAfterRowTrim(m, cols);
  }

  /** A position is listed by `tf.where` exactly when its entry is true. */
  lemma WhereListsTrue(mask: seq<bool>)
    ensures forall i :: 0 <= i < |mask| ==> (i in Where(mask) <==> mask[i])
  {
    WhereInverse(mask);
    forall i | 0 <= i < |mask| && mask[i] ensures i in Where(mask) {
      assert Where(mask)[Rank(mask, i)] == i;
    }
  }

  /** The trimmed matrix has no all-false row: dropping all-false columns
      never empties a retained row. */
  lemma TrimNoEmptyRow(m: Matrix, cols: nat)
    requires IsMatrix(m, cols)
    ensures forall a :: 0 <= a < |Trim(m, cols)| ==> true in Trim(m, cols)[a]
  {
    var r := RowTrimmed(m, cols);
    var keep := ColMask(r, cols);
    forall a | 0 <= a < |r| ensures true in Trim(m, cols)[a] {
      assert r[a] == m[Where(RowMask(m))[a]];
      assert true in r[a];
      var j :| 0 <= j < cols && r[a][j];
      assert Column(r, cols, j)[a];
      assert keep[j];
      BooleanMaskAt(r[a], keep, j);
      assert Trim(m, cols)[a][Rank(keep, j)];
    }
  }

  /** The trimmed matrix has no all-false column. */
  lemma TrimNoEmptyColumn(m: Matrix, cols: nat)
    requires IsMatrix(m, cols)
    ensures forall b :: 0 <= b < Width(m, cols) ==> true in Column(Trim(m, cols), Width(m, cols), b)
  {
    var r := RowTrimmed(m, cols);
    var keep := ColMask(r, cols);
    var t := Trim(m, cols);
    var w := Width(m, cols);
    forall b | 0 <= b < w ensures true in Column(t, w, b) {
      var j := Where(keep)[b];
      assert keep[j];
      assert true in Column(r, cols, j);
      var a :| 0 <= a < |r| && r[a][j];
      assert t[a][b] == r[a][j];
      assert Column(t, w, b)[a];
    }
  }

  /** A matrix with no all-false row and no all-false column is left as it is. */
  lemma TrimClean(t: Matrix, w: nat)
    requires IsMatrix(t, w)
    requires forall a :: 0 <= a < |t| ==> true in t[a]
    requires forall b :: 0 <= b < w ==> true in Column(t, w, b)
    ensures Width(t, w) == w
    ensures Trim(t, w) == t
  {
    assert false !in RowMask(t);
    BooleanMaskAllTrue(t, RowMask(t));
    assert RowTrimmed(t, w) == t;
    var keep := ColMask(t, w);
    assert false !in keep;
    BooleanMaskAllTrue(keep, keep);
    forall a | 0 <= a < |t| ensures BooleanMask(t[a], keep) == t[a] {
      BooleanMaskAllTrue(t[a], keep);
    }
  }

  /** Trimming is idempotent: a trimmed matrix is its own trimming. */
  lemma TrimIdempotent(m: Matrix, cols: nat)
    requires IsMatrix(m, cols)
    ensures Width(Trim(m, cols), Width(m, cols)) == Width(m, cols)
    ensures Trim(Trim(m, cols), Width(m, cols)) == Trim(m, cols)
  {
    TrimNoEmptyRow(m, cols);
    TrimNoEmptyColumn(m, cols);
    TrimClean(Trim(m, cols), Width(m, cols));
  }
}
