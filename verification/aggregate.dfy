/**
 * `get_q_total_per_mol`: the per-molecule total of a per-atom value, under
 * the same trimming of the membership matrix as the batch solver uses.
 */
module Aggregator {
  import opened Tensor
  import opened Membership

  /** A boolean membership entry as 0.0 or 1.0. */
  function Indicator(b: bool): real
  {
    if b then 1.0 else 0.0
  }

  /** A value times its 0/1 membership entry. */
  function Weighted(b: bool, x: real): (y: real)
    ensures y == if b then x else 0.0
  {
    Indicator(b) * x
  }

  /** sum_i [col_i] * v_i: the values in the rows a column marks. */
  function MaskedSum(v: seq<real>, col: seq<bool>): real
    requires |v| == |col|
  {
    if |v| == 0 then 0.0
    else MaskedSum(v[..|v| - 1], col[..|col| - 1]) + Weighted(col[|col| - 1], v[|v| - 1])
  }

  /** `get_q_total_per_mol`: row-mask the values, trim the matrix, and sum
      each kept column's marked values. */
  function QTotalPerMol(q: seq<real>, m: Matrix, cols: nat): (totals: seq<real>)
    requires IsMatrix(m, cols) && |q| == |m|
    ensures |totals| == Width(m, cols)
  {
    var t := Trim(m, cols);
    var w := Width(m, cols);
    var kept := BooleanMask(q, RowMask(m));
    seq(w, j requires 0 <= j < w => MaskedSum(kept, Column(t, w, j)))
  }

  /** Multiplying by the 0/1 matrix and reducing is summing the masked values. */
  lemma {:induction false} MaskedSumIsSumOfMasked(v: seq<real>, col: seq<bool>)
    requires |v| == |col|
    ensures MaskedSum(v, col) == Sum(BooleanMask(v, col))
  {
    if |v| > 0 {
      var n := |v|;
      var init := BooleanMask(v[..n - 1], col[..n - 1]);
      MaskedSumIsSumOfMasked(v[..n - 1], col[..n - 1]);
      if col[n - 1] {
        var kept := init + [v[n - 1]];
        assert kept[..|kept| - 1] == init;
        assert Sum(kept) == Sum(init) + v[n - 1];
      }
    }
  }

  /** Each entry of `col` is covered by `rows`. */
  predicate Covers(col: seq<bool>, rows: seq<bool>)
    requires |col| == |rows|
  {
    forall i :: 0 <= i < |col| && col[i] ==> rows[i]
  }

  /** Dropping rows a column does not mark leaves its masked sum unchanged. */
  lemma {:induction false} MaskedSumDropRows(v: seq<real>, col: seq<bool>, rows: seq<bool>)
    requires |v| == |col| == |rows| && Covers(col, rows)
    ensures MaskedSum(BooleanMask(v, rows), BooleanMask(col, rows)) == MaskedSum(v, col)
  {
    if |v| > 0 {
      var n := |v|;
      assert Covers(col[..n - 1], rows[..n - 1]);
      MaskedSumDropRows(v[..n - 1], col[..n - 1], rows[..n - 1]);
      var vi := BooleanMask(v[..n - 1], rows[..n - 1]);
      var ci := BooleanMask(col[..n - 1], rows[..n - 1]);
      if rows[n - 1] {
        var vk := vi + [v[n - 1]];
        var ck := ci + [col[n - 1]];
        assert vk[..|vk| - 1] == vi;
        assert ck[..|ck| - 1] == ci;
        assert MaskedSum(vk, ck) == MaskedSum(vi, ci) + Weighted(col[n - 1], v[n - 1]);
      } else {
        assert !col[n - 1];
      }
    }
  }

  /** Column b of the trimmed matrix is the original column it stands for,
      with the dropped rows taken out. */
  lemma TrimmedColumn(m: Matrix, cols: nat, b: nat)
    requires IsMatrix(m, cols) && b < Width(m, cols)
    ensures Width(m, cols) == Count(ColMask(m, cols))
    ensures Where(ColMask(m, cols))[b] < cols
    ensures Column(Trim(m, cols), Width(m, cols), b)
         == BooleanMask(Column(m, cols, Where(ColMask(m, cols))[b]), RowMask(m))
  {
    TrimEntries(m, cols);
    var j := Where(ColMask(m, cols))[b];
    var lhs := Column(Trim(m, cols), Width(m, cols), b);
    var rhs := BooleanMask(Column(m, cols, j), RowMask(m));
    forall a | 0 <= a < |lhs| ensures lhs[a] == rhs[a] {
      assert lhs[a] == Trim(m, cols)[a][b];
    }
  }

  /** One total per molecule that has some atom, in column order; each is
      the sum of the values of the atoms that molecule holds, over the
      whole untrimmed batch. */
  lemma QTotalPerMolSums(q: seq<real>, m: Matrix, cols: nat)
    requires IsMatrix(m, cols) && |q| == |m|
    ensures |QTotalPerMol(q, m, cols)| == Count(ColMask(m, cols))
    ensures forall b :: 0 <= b < |QTotalPerMol(q, m, cols)| ==>
      Where(ColMask(m, cols))[b] < cols &&
      QTotalPerMol(q, m, cols)[b] == MaskedSum(q, Column(m, cols, Where(ColMask(m, cols))[b]))
  {
    TrimEntries(m, cols);
    var totals := QTotalPerMol(q, m, cols);
    forall b | 0 <= b < |totals|
      ensures Where(ColMask(m, cols))[b] < cols
      ensures totals[b] == MaskedSum(q, Column(m, cols, Where(ColMask(m, cols))[b]))
    {
      TrimmedColumn(m, cols, b);
      var j := Where(ColMask(m, cols))[b];
      MaskedSumDropRows(q, Column(m, cols, j), RowMask(m));
    }
  }

  /** On a matrix with no all-false row and no all-false column nothing is
      trimmed: total j is the sum over the rows column j marks. */
  lemma QTotalPerMolClean(q: seq<real>, t: Matrix, w: nat)
    requires IsMatrix(t, w) && |q| == |t|
    requires forall a :: 0 <= a < |t| ==> true in t[a]
    requires forall b :: 0 <= b < w ==> true in Column(t, w, b)
    ensures |QTotalPerMol(q, t, w)| == w
    ensures forall j :: 0 <= j < w ==> QTotalPerMol(q, t, w)[j] == MaskedSum(q, Column(t, w, j))
  {
    TrimClean(t, w);
    assert false !in RowMask(t);
    BooleanMaskAllTrue(q, RowMask(t));
  }

  /** Aggregating values already row-masked over the trimmed matrix gives
      the same totals as aggregating the full values over the original
      matrix: the two consumers of the trimming agree on molecule indices. */
  lemma QTotalPerMolOfTrimmed(q: seq<real>, m: Matrix, cols: nat)
    requires IsMatrix(m, cols) && |q| == |m|
    ensures |BooleanMask(q, RowMask(m))| == |Trim(m, cols)|
    ensures QTotalPerMol(BooleanMask(q, RowMask(m)), Trim(m, cols), Width(m, cols)) == QTotalPerMol(q, m, cols)
  {
    var t := Trim(m, cols);
    var w := Width(m, cols);
    var kept := BooleanMask(q, RowMask(m));
    TrimIdempotent(m, cols);
    TrimNoEmptyRow(m, cols);
    assert false !in RowMask(t);
    BooleanMaskAllTrue(kept, RowMask(t));
  }

  /** Atoms 0 and 1 in molecule 0, atom 2 in molecule 1. */
  function ThreeAtoms(): (m: Matrix)
    ensures IsMatrix(m, 2) && |m| == 3
    ensures Column(m, 2, 0) == [true, true, false]
    ensures Column(m, 2, 1) == [false, false, true]
  {
    [[true, false], [true, false], [false, true]]
  }

  lemma MoleculeZeroSum()
    ensures MaskedSum([2.0, 3.0, 4.0], [true, true, false]) == 5.0
  {
    assert [2.0][..0] == [] && [true][..0] == [];
    assert [2.0, 3.0][..1] == [2.0] && [true, true][..1] == [true];
    assert [2.0, 3.0, 4.0][..2] == [2.0, 3.0] && [true, true, false][..2] == [true, true];
  }

  lemma MoleculeOneSum()
    ensures MaskedSum([2.0, 3.0, 4.0], [false, false, true]) == 4.0
  {
    assert [2.0][..0] == [] && [false][..0] == [];
    assert [2.0, 3.0][..1] == [2.0] && [false, false][..1] == [false];
    assert [2.0, 3.0, 4.0][..2] == [2.0, 3.0] && [false, false, true][..2] == [false, false];
  }

  /** Values [2, 3, 4] over molecules {0, 1} and {2} total [5, 4]. */
  lemma TwoMoleculeTotals()
    ensures QTotalPerMol([2.0, 3.0, 4.0], ThreeAtoms(), 2) == [5.0, 4.0]
  {
    var m := ThreeAtoms();
    assert m[0][0] && m[1][0] && m[2][1];
    assert Column(m, 2, 0)[0] && Column(m, 2, 1)[2];
    QTotalPerMolClean([2.0, 3.0, 4.0], m, 2);
    MoleculeZeroSum();
    MoleculeOneSum();
    var totals := QTotalPerMol([2.0, 3.0, 4.0], m, 2);
    assert |totals| == 2 && totals[0] == 5.0 && totals[1] == 4.0;
    PairLiteral(totals, 5.0, 4.0);
  }

  /** Atom 0 in molecule 0; atom 1 and molecule 1 are padding. */
  function PaddedPair(): (m: Matrix)
    ensures IsMatrix(m, 2) && |m| == 2
    ensures RowMask(m) == [true, false]
  {
    [[true, false], [false, false]]
  }

  /** The padding row and the padding column are both trimmed away. */
  lemma PaddingTrimmed()
    ensures Width(PaddedPair(), 2) == 1
    ensures Trim(PaddedPair(), 2) == [[true]]
  {
    var r := RowTrimmed(PaddedPair(), 2);
    PaddingRowTrimmed();
    KeptColumns();
    assert ColMask(r, 2) == [true, false];
    assert BooleanMask([true, false], [true, false]) == [true] by {
      FirstOfTwo(true, false);
    }
  }

  lemma PaddingRowTrimmed()
    ensures RowTrimmed(PaddedPair(), 2) == [[true, false]]
  {
    FirstOfTwo([true, false], [false, false]);
  }

  lemma KeptColumns()
    ensures ColMask([[true, false]], 2) == [true, false]
  {
    var r := [[true, false]];
    assert Column(r, 2, 0) == [true] && Column(r, 2, 1) == [false];
  }

  /** Masking a pair with [true, false] keeps its first entry. */
  lemma FirstOfTwo<T>(x: T, y: T)
    ensures BooleanMask([x, y], [true, false]) == [x]
  {
    assert Where([true, false]) == [0] by {
      assert [true, false][..1] == [true];
      assert [true][..0] == [];
    }
  }

  /** The padding atom's value is left out of every total: values [x, y]
      over the padded matrix total [x]. */
  lemma PaddingLeftOut(x: real, y: real)
    ensures QTotalPerMol([x, y], PaddedPair(), 2) == [x]
  {
    var m := PaddedPair();
    PaddingTrimmed();
    FirstOfTwo(x, y);
    assert Column([[true]], 1, 0) == [true];
    assert MaskedSum([x], [true]) == x by {
      assert [x][..0] == [] && [true][..0] == [];
    }
    var totals := QTotalPerMol([x, y], m, 2);
    assert |totals| == 1 && totals[0] == x;
    assert totals == [x];
  }

  lemma PairLiteral(x: seq<real>, a: real, b: real)
    requires |x| == 2 && x[0] == a && x[1] == b
    ensures x == [a, b]
  {
  }
}
