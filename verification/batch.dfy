/**
 * `get_q_i_hat_total_per_mol`: solve every molecule of a batch and scatter
 * each molecule's charges into one flat buffer indexed by the retained
 * atoms, and the training-step call site that feeds it.
 */
module BatchSolver {
  import opened Tensor
  import opened Membership
  import opened ChargeSolver
  import opened Aggregator

  /** Every molecule column's hardness slice can be solved. */
  predicate SlicesSolvable(s: seq<real>, t: Matrix, w: nat)
    requires IsMatrix(t, w) && |s| == |t|
  {
    forall j :: 0 <= j < w ==> Solvable(BooleanMask(s, Column(t, w, j)))
  }

  /** What the solve loop needs of its inputs: the matrix has w columns,
      one e and one s per row, one total per column, and every column's
      hardness slice can be solved. */
  predicate Inputs(e: seq<real>, s: seq<real>, Qs: seq<real>, t: Matrix, w: nat)
  {
    IsMatrix(t, w) && |e| == |s| == |t| && w <= |Qs| && SlicesSolvable(s, t, w)
  }

  /** Molecule j's charges: `get_charges` on the e and s of the atoms
      column j marks, with total Qs[j], in atom order. */
  function MoleculeCharges(e: seq<real>, s: seq<real>, Qs: seq<real>, t: Matrix, w: nat, j: nat): (q: seq<real>)
    requires Inputs(e, s, Qs, t, w) && j < w
    ensures |q| == Count(Column(t, w, j))
  {
    var col := Column(t, w, j);
    Charges(BooleanMask(e, col), BooleanMask(s, col), Qs[j])
  }

  /** The last of the first c columns that marks this row, or -1. */
  function LastMember(row: seq<bool>, c: nat): (r: int)
    requires c <= |row|
    ensures -1 <= r < c
    ensures r >= 0 ==> row[r]
    ensures forall j :: r < j < c ==> !row[j]
  {
    if c == 0 then -1
    else if row[c - 1] then c - 1
    else LastMember(row, c - 1)
  }

  /** Buffer entry i after the loop has processed columns 0 .. c-1: zero if
      none of them holds atom i, and otherwise the charge the last one
      that does wrote there, each write replacing the one before. */
  function Partial(e: seq<real>, s: seq<real>, Qs: seq<real>, t: Matrix, w: nat, c: nat, i: nat): real
    requires Inputs(e, s, Qs, t, w) && c <= w && i < |t|
  {
    var j := LastMember(t[i], c);
    if j < 0 then 0.0
    else
      assert Column(t, w, j)[i];
      MoleculeCharges(e, s, Qs, t, w, j)[Rank(Column(t, w, j), i)]
  }

  /** The buffer after every column has been processed. */
  function Predicted(e: seq<real>, s: seq<real>, Qs: seq<real>, t: Matrix, w: nat): (q: seq<real>)
    requires Inputs(e, s, Qs, t, w)
    ensures |q| == |t|
  {
    seq(|t|, i requires 0 <= i < |t| => Partial(e, s, Qs, t, w, w, i))
  }

  /** Before any column is processed every entry is zero. */
  lemma BufferStartsAtZero(e: seq<real>, s: seq<real>, Qs: seq<real>, t: Matrix, w: nat, i: nat)
    requires Inputs(e, s, Qs, t, w) && i < |t|
    ensures Partial(e, s, Qs, t, w, 0, i) == 0.0
  {
  }

  /** Processing column c overwrites exactly the rows it marks. */
  lemma PartialStep(e: seq<real>, s: seq<real>, Qs: seq<real>, t: Matrix, w: nat, c: nat, i: nat)
    requires Inputs(e, s, Qs, t, w) && c < w && i < |t|
    ensures Column(t, w, c)[i] ==> Rank(Column(t, w, c), i) < |MoleculeCharges(e, s, Qs, t, w, c)|
    ensures Partial(e, s, Qs, t, w, c + 1, i)
         == if Column(t, w, c)[i] then MoleculeCharges(e, s, Qs, t, w, c)[Rank(Column(t, w, c), i)]
            else Partial(e, s, Qs, t, w, c, i)
  {
  }

  /** Entry i after the first k atoms column `col` marks have received
      their charges, over a buffer whose entry i was `other`. */
  function Scattered(col: seq<bool>, charges: seq<real>, k: nat, i: nat, other: real): real
    requires |charges| == Count(col) && i < |col|
  {
    if col[i] && Rank(col, i) < k then charges[Rank(col, i)] else other
  }

  /** One scatter write: the k-th marked row gets the k-th charge, and no
      other entry changes. */
  lemma ScatterStep(col: seq<bool>, charges: seq<real>, k: nat, i: nat, other: real)
    requires |charges| == Count(col) && k < Count(col) && i < |col|
    ensures Where(col)[k] < |col|
    ensures Scattered(col, charges, k + 1, i, other)
         == if i == Where(col)[k] then charges[k] else Scattered(col, charges, k, i, other)
  {
    var at := Where(col)[k];
    if i == at {
      RankOfWhere(col, k);
      assert Scattered(col, charges, k + 1, i, other) == charges[k];
    } else {
      if col[i] {
        WhereAtRank(col, i);
        assert Rank(col, i) != k;
      }
      assert Scattered(col, charges, k + 1, i, other) == Scattered(col, charges, k, i, other);
    }
  }

  /** `after` is `before` with the k-th row the column marks set to the
      k-th charge, for every k. */
  predicate ScatteredFrom(before: seq<real>, after: seq<real>, col: seq<bool>, charges: seq<real>)
    requires |charges| == Count(col)
  {
    |before| == |after| == |col| &&
    forall i :: 0 <= i < |col| ==> after[i] == if col[i] then charges[Rank(col, i)] else before[i]
  }

  /** `tensor_scatter_nd_update(buf, where(col), charges)`: the k-th row
      the column marks receives the k-th charge; every other entry keeps
      its value. */
  method ScatterUpdate(buf: array<real>, col: seq<bool>, charges: seq<real>)
    requires buf.Length == |col| && |charges| == Count(col)
    modifies buf
    ensures ScatteredFrom(old(buf[..]), buf[..], col, charges)
  {
    var idxs := Where(col);
    ghost var start := buf[..];
    var k := 0;
    while k < |idxs|
      invariant 0 <= k <= |idxs|
      invariant forall i :: 0 <= i < |col| ==> buf[i] == Scattered(col, charges, k, i, start[i])
    {
      ghost var before := buf[..];
      buf[idxs[k]] := charges[k];
      forall i | 0 <= i < |col|
        ensures buf[i] == Scattered(col, charges, k + 1, i, start[i])
      {
        ScatterStep(col, charges, k, i, start[i]);
        if i != idxs[k] {
          assert buf[i] == before[i];
        }
      }
      k := k + 1;
    }
  }

  /** `buf` is the buffer after columns 0 .. c-1 have been processed. */
  predicate Processed(e: seq<real>, s: seq<real>, Qs: seq<real>, t: Matrix, w: nat, c: nat, buf: seq<real>)
    requires Inputs(e, s, Qs, t, w) && c <= w
  {
    |buf| == |t| && forall i :: 0 <= i < |t| ==> buf[i] == Partial(e, s, Qs, t, w, c, i)
  }

  /** The all-zero buffer is the buffer before any column is processed. */
  lemma ProcessedNone(e: seq<real>, s: seq<real>, Qs: seq<real>, t: Matrix, w: nat, zeros: seq<real>)
    requires Inputs(e, s, Qs, t, w)
    requires zeros == Fill(|t|, 0.0)
    ensures Processed(e, s, Qs, t, w, 0, zeros)
  {
    forall i | 0 <= i < |t| ensures zeros[i] == Partial(e, s, Qs, t, w, 0, i) {
      BufferStartsAtZero(e, s, Qs, t, w, i);
    }
  }

  /** Scattering column c's charges into the buffer after columns
      0 .. c-1 gives the buffer after columns 0 .. c. */
  lemma ProcessedStep(e: seq<real>, s: seq<real>, Qs: seq<real>, t: Matrix, w: nat, c: nat,
                      before: seq<real>, after: seq<real>)
    requires Inputs(e, s, Qs, t, w) && c < w
    requires Processed(e, s, Qs, t, w, c, before)
    requires ScatteredFrom(before, after, Column(t, w, c), MoleculeCharges(e, s, Qs, t, w, c))
    ensures Processed(e, s, Qs, t, w, c + 1, after)
  {
    forall i | 0 <= i < |t| ensures after[i] == Partial(e, s, Qs, t, w, c + 1, i) {
      PartialStep(e, s, Qs, t, w, c, i);
    }
  }

  /** The buffer after every column is the predicted charge vector. */
  lemma ProcessedAll(e: seq<real>, s: seq<real>, Qs: seq<real>, t: Matrix, w: nat, buf: seq<real>)
    requires Inputs(e, s, Qs, t, w) && Processed(e, s, Qs, t, w, w, buf)
    ensures buf == Predicted(e, s, Qs, t, w)
  {
  }

  /** The zero buffer `tf.tile([0.0], [n])`. */
  method Zeros(n: nat) returns (buf: array<real>)
    ensures fresh(buf) && buf.Length == n
    ensures buf[..] == Fill(n, 0.0)
  {
    buf := new real[n](_ => 0.0);
  }

  /** The `while_loop` of `get_q_i_hat_total_per_mol` over a trimmed
      matrix: from a zero buffer, scatter each molecule's charges in turn. */
  method SolveColumns(e: seq<real>, s: seq<real>, Qs: seq<real>, t: Matrix, w: nat) returns (qHat: seq<real>)
    requires Inputs(e, s, Qs, t, w)
    ensures qHat == Predicted(e, s, Qs, t, w)
  {
    var buf := Zeros(|t|);
    ProcessedNone(e, s, Qs, t, w, buf[..]);
    var idx := 0;
    while idx < w
      invariant 0 <= idx <= w
      invariant buf.Length == |t|
      invariant Processed(e, s, Qs, t, w, idx, buf[..])
    {
      var col := Column(t, w, idx);
      var charges := MoleculeCharges(e, s, Qs, t, w, idx);
      ghost var before := buf[..];
      ScatterUpdate(buf, col, charges);
      ProcessedStep(e, s, Qs, t, w, idx, before, buf[..]);
      idx := idx + 1;
    }
    qHat := buf[..];
    ProcessedAll(e, s, Qs, t, w, qHat);
  }

  /** `get_q_i_hat_total_per_mol`: trim the membership matrix, then solve
      and scatter every molecule column into a buffer with one entry per
      retained atom. */
  method QHatPerMol(e: seq<real>, s: seq<real>, Qs: seq<real>, m: Matrix, cols: nat) returns (qHat: seq<real>)
    requires IsMatrix(m, cols)
    requires |e| == |s| == Count(RowMask(m)) && Width(m, cols) <= |Qs|
    requires SlicesSolvable(s, Trim(m, cols), Width(m, cols))
    ensures |qHat| == Count(RowMask(m))
    ensures qHat == Predicted(e, s, Qs, Trim(m, cols), Width(m, cols))
  {
    var t := Trim(m, cols);
    var w := Width(m, cols);
    qHat := SolveColumns(e, s, Qs, t, w);
  }

  /** A row marks at most one molecule. */
  predicate AtMostOne(row: seq<bool>)
  {
    forall a, b :: 0 <= a < |row| && 0 <= b < |row| && row[a] && row[b] ==> a == b
  }

  /** The membership is a partition: every row marks exactly one molecule. */
  predicate Partition(t: Matrix)
  {
    forall i :: 0 <= i < |t| ==> true in t[i] && AtMostOne(t[i])
  }

  /** When every atom of the batch is in at most one molecule, the trimmed
      matrix is a partition. */
  lemma PartitionAfterTrim(m: Matrix, cols: nat)
    requires IsMatrix(m, cols)
    requires forall i :: 0 <= i < |m| ==> AtMostOne(m[i])
    ensures Partition(Trim(m, cols))
  {
    var t := Trim(m, cols);
    TrimNoEmptyRow(m, cols);
    TrimKeepsInOrder(m, cols);
    var rows := Where(RowMask(m));
    var keep := Where(ColMask(m, cols));
    forall a | 0 <= a < |t| ensures AtMostOne(t[a]) {
      forall b, b' | 0 <= b < |t[a]| && 0 <= b' < |t[a]| && t[a][b] && t[a][b']
        ensures b == b'
      {
        assert t[a][b] == m[rows[a]][keep[b]];
        assert t[a][b'] == m[rows[a]][keep[b']];
        assert keep[b] == keep[b'];
      }
    }
  }

  /** Under a partition each atom's predicted charge is its own molecule's
      solution, at the atom's position within that molecule. */
  lemma PredictedIsOwnMoleculeCharge(e: seq<real>, s: seq<real>, Qs: seq<real>, t: Matrix, w: nat, i: nat, j: nat)
    requires Inputs(e, s, Qs, t, w) && Partition(t)
    requires i < |t| && j < w && t[i][j]
    ensures Column(t, w, j)[i]
    ensures Rank(Column(t, w, j), i) < |MoleculeCharges(e, s, Qs, t, w, j)|
    ensures Predicted(e, s, Qs, t, w)[i] == MoleculeCharges(e, s, Qs, t, w, j)[Rank(Column(t, w, j), i)]
  {
    assert Column(t, w, j)[i];
    var r := LastMember(t[i], w);
    assert r >= j;
    assert AtMostOne(t[i]);
  }

  /** Under a partition, different molecules write to different rows. */
  lemma WritesDisjoint(t: Matrix, w: nat, j: nat, j': nat)
    requires IsMatrix(t, w) && Partition(t) && j < w && j' < w && j != j'
    ensures forall a, b :: 0 <= a < |Where(Column(t, w, j))| && 0 <= b < |Where(Column(t, w, j'))| ==>
      Where(Column(t, w, j))[a] != Where(Column(t, w, j'))[b]
  {
    forall a, b | 0 <= a < |Where(Column(t, w, j))| && 0 <= b < |Where(Column(t, w, j'))|
      ensures Where(Column(t, w, j))[a] != Where(Column(t, w, j'))[b]
    {
      var i := Where(Column(t, w, j))[a];
      var i' := Where(Column(t, w, j'))[b];
      assert t[i][j] && t[i'][j'];
      assert AtMostOne(t[i]);
    }
  }

  /** Under a partition, reading back the rows of molecule j gives exactly
      that molecule's charges. */
  lemma MoleculeReadBack(e: seq<real>, s: seq<real>, Qs: seq<real>, t: Matrix, w: nat, j: nat)
    requires Inputs(e, s, Qs, t, w) && Partition(t) && j < w
    ensures BooleanMask(Predicted(e, s, Qs, t, w), Column(t, w, j)) == MoleculeCharges(e, s, Qs, t, w, j)
  {
    var col := Column(t, w, j);
    var p := Predicted(e, s, Qs, t, w);
    var back := BooleanMask(p, col);
    forall k | 0 <= k < |back| ensures back[k] == MoleculeCharges(e, s, Qs, t, w, j)[k] {
      var i := Where(col)[k];
      assert t[i][j];
      PredictedIsOwnMoleculeCharge(e, s, Qs, t, w, i, j);
      RankOfWhere(col, k);
    }
  }

  /** Under a partition the predicted charges of each molecule with an atom
      sum to that molecule's total. */
  lemma MoleculeConservation(e: seq<real>, s: seq<real>, Qs: seq<real>, t: Matrix, w: nat, j: nat)
    requires Inputs(e, s, Qs, t, w) && Partition(t) && j < w
    requires true in Column(t, w, j)
    ensures Sum(BooleanMask(Predicted(e, s, Qs, t, w), Column(t, w, j))) == Qs[j]
    ensures MaskedSum(Predicted(e, s, Qs, t, w), Column(t, w, j)) == Qs[j]
  {
    var col := Column(t, w, j);
    MoleculeReadBack(e, s, Qs, t, w, j);
    assert Solvable(BooleanMask(s, col));
    ChargesSumToTotal(BooleanMask(e, col), BooleanMask(s, col), Qs[j]);
    MaskedSumIsSumOfMasked(Predicted(e, s, Qs, t, w), col);
  }

  /** Round trip: under a partition, aggregating the predicted charges over
      the trimmed membership gives back every molecule's total. */
  lemma RoundTrip(e: seq<real>, s: seq<real>, Qs: seq<real>, m: Matrix, cols: nat)
    requires IsMatrix(m, cols) && Inputs(e, s, Qs, Trim(m, cols), Width(m, cols))
    requires Partition(Trim(m, cols)) && |Qs| == Width(m, cols)
    ensures QTotalPerMol(Predicted(e, s, Qs, Trim(m, cols), Width(m, cols)), Trim(m, cols), Width(m, cols)) == Qs
  {
    var t := Trim(m, cols);
    var w := Width(m, cols);
    var p := Predicted(e, s, Qs, t, w);
    TrimNoEmptyRow(m, cols);
    TrimNoEmptyColumn(m, cols);
    QTotalPerMolClean(p, t, w);
    forall j | 0 <= j < w ensures QTotalPerMol(p, t, w)[j] == Qs[j] {
      MoleculeConservation(e, s, Qs, t, w, j);
    }
  }

  /** The training step's charge readout (the call site of both
      functions): the molecule totals are aggregated from the reference
      charges, e, s and the reference charges are row-masked, and the
      batch is solved; returns the masked reference and the prediction.
      Under a partition the prediction keeps every molecule's total. */
  method PredictCharges(q: seq<real>, e: seq<real>, s: seq<real>, m: Matrix, cols: nat)
    returns (qTrue: seq<real>, qHat: seq<real>)
    requires IsMatrix(m, cols) && |q| == |e| == |s| == |m|
    requires SlicesSolvable(BooleanMask(s, RowMask(m)), Trim(m, cols), Width(m, cols))
    ensures |qTrue| == |qHat| == Count(RowMask(m))
    ensures qTrue == BooleanMask(q, RowMask(m))
    ensures qHat == Predicted(BooleanMask(e, RowMask(m)), BooleanMask(s, RowMask(m)),
                              QTotalPerMol(q, m, cols), Trim(m, cols), Width(m, cols))
    ensures Partition(Trim(m, cols)) ==>
      QTotalPerMol(qHat, Trim(m, cols), Width(m, cols)) == QTotalPerMol(qTrue, Trim(m, cols), Width(m, cols))
  {
    var Qs := QTotalPerMol(q, m, cols);
    var rows := RowMask(m);
    var eKept := BooleanMask(e, rows);
    var sKept := BooleanMask(s, rows);
    qHat := QHatPerMol(eKept, sKept, Qs, m, cols);
    qTrue := BooleanMask(q, rows);
    if Partition(Trim(m, cols)) {
      RoundTrip(eKept, sKept, Qs, m, cols);
      QTotalPerMolOfTrimmed(q, m, cols);
    }
  }

  /** One atom marked in two molecules. */
  function SharedAtom(): (t: Matrix)
    ensures IsMatrix(t, 2) && |t| == 1
    ensures Column(t, 2, 0) == [true] && Column(t, 2, 1) == [true]
  {
    [[true, true]]
  }

  lemma SingletonLiteral(x: seq<real>, a: real)
    requires |x| == 1 && x[0] == a
    ensures x == [a]
  {
  }

  /** Without a partition the writes overlap and the last molecule column
      wins: an atom in molecules 0 and 1 (e = 0, s = 1, totals 1 and 2)
      ends with molecule 1's charge 2, so molecule 0's total comes back as
      2 instead of 1. */
  lemma OverlapLastMoleculeWins()
    ensures Inputs([0.0], [1.0], [1.0, 2.0], SharedAtom(), 2)
    ensures Predicted([0.0], [1.0], [1.0, 2.0], SharedAtom(), 2) == [2.0]
    ensures QTotalPerMol([2.0], SharedAtom(), 2) == [2.0, 2.0]
  {
    var t := SharedAtom();
    BooleanMaskAllTrue([1.0], [true]);
    BooleanMaskAllTrue([0.0], [true]);
    SingleAtomTakesTotal(0.0, 1.0, 2.0);
    assert SlicesSolvable([1.0], t, 2);
    assert Inputs([0.0], [1.0], [1.0, 2.0], t, 2);
    assert t[0][1];
    assert LastMember(t[0], 2) == 1;
    assert Rank([true], 0) == 0 by {
      assert [true][..0] == [];
    }
    var p := Predicted([0.0], [1.0], [1.0, 2.0], t, 2);
    assert p[0] == MoleculeCharges([0.0], [1.0], [1.0, 2.0], t, 2, 1)[0];
    SingletonLiteral(p, 2.0);
    assert t[0][0];
    QTotalPerMolClean([2.0], t, 2);
    assert MaskedSum([2.0], [true]) == 2.0 by {
      assert [2.0][..0] == [] && [true][..0] == [];
    }
    var totals := QTotalPerMol([2.0], t, 2);
    assert totals[0] == 2.0 && totals[1] == 2.0;
    PairLiteral(totals, 2.0, 2.0);
  }

  /** A batch with a padding atom and a padding molecule (the matrix
      [[true, false], [false, false]]): the call site drops the padding
      atom's e and s, and the real atom takes its molecule's reference
      total q0, whatever the padding atom's values. */
  lemma PaddedBatch(e0: real, e1: real, s0: real, s1: real, q0: real, q1: real)
    requires s0 != 0.0
    ensures Inputs(BooleanMask([e0, e1], RowMask(PaddedPair())), BooleanMask([s0, s1], RowMask(PaddedPair())),
                   QTotalPerMol([q0, q1], PaddedPair(), 2), Trim(PaddedPair(), 2), Width(PaddedPair(), 2))
    ensures Predicted(BooleanMask([e0, e1], RowMask(PaddedPair())), BooleanMask([s0, s1], RowMask(PaddedPair())),
                      QTotalPerMol([q0, q1], PaddedPair(), 2), Trim(PaddedPair(), 2), Width(PaddedPair(), 2))
         == [q0]
  {
    PaddingTrimmed();
    PaddingLeftOut(q0, q1);
    FirstOfTwo(e0, e1);
    FirstOfTwo(s0, s1);
    SingleMolecule(e0, s0, q0);
  }

  /** One atom in one molecule is predicted its molecule's total. */
  lemma SingleMolecule(e0: real, s0: real, q0: real)
    requires s0 != 0.0
    ensures Inputs([e0], [s0], [q0], [[true]], 1)
    ensures Predicted([e0], [s0], [q0], [[true]], 1) == [q0]
  {
    var t := [[true]];
    assert Column(t, 1, 0) == [true];
    BooleanMaskAllTrue([e0], [true]);
    BooleanMaskAllTrue([s0], [true]);
    SingleAtomTakesTotal(e0, s0, q0);
    assert SlicesSolvable([s0], t, 1);
    assert LastMember(t[0], 1) == 0;
    assert Rank([true], 0) == 0 by {
      assert [true][..0] == [];
    }
    var p := Predicted([e0], [s0], [q0], t, 1);
    assert p[0] == MoleculeCharges([e0], [s0], [q0], t, 1, 0)[0];
    SingletonLiteral(p, q0);
  }

  /** Positive hardness makes every molecule solvable. */
  lemma PositiveSlicesSolvable(s: seq<real>, t: Matrix, w: nat)
    requires IsMatrix(t, w) && |s| == |t| && Positive(s)
    ensures SlicesSolvable(s, t, w)
  {
    forall j | 0 <= j < w ensures Solvable(BooleanMask(s, Column(t, w, j))) {
      PositiveSolvable(BooleanMask(s, Column(t, w, j)));
    }
  }

  /** Under a partition, in a molecule whose atoms all have the same e and
      the same non-zero s, every atom gets the molecule's total divided by
      its number of atoms. */
  lemma AlikeAtomsShareMoleculeTotal(e: seq<real>, s: seq<real>, Qs: seq<real>, t: Matrix, w: nat, i: nat, j: nat)
    requires Inputs(e, s, Qs, t, w) && Partition(t)
    requires i < |t| && j < w && t[i][j] && s[i] != 0.0
    requires forall a :: 0 <= a < |t| && t[a][j] ==> e[a] == e[i] && s[a] == s[i]
    ensures Column(t, w, j)[i] && Count(Column(t, w, j)) > 0
    ensures Predicted(e, s, Qs, t, w)[i] == Qs[j] / Count(Column(t, w, j)) as real
  {
    var col := Column(t, w, j);
    var eS := BooleanMask(e, col);
    var sS := BooleanMask(s, col);
    PredictedIsOwnMoleculeCharge(e, s, Qs, t, w, i, j);
    assert forall k :: 0 <= k < |sS| ==> eS[k] == e[i] && sS[k] == s[i] by {
      forall k | 0 <= k < |sS| ensures eS[k] == e[i] && sS[k] == s[i] {
        assert t[Where(col)[k]][j];
      }
    }
    IdenticalAtomsShareEqually(eS, sS, Qs[j]);
  }

  /** Molecule A (atoms 0 and 1: e = 0.5, s = 1, total 1) and molecule B
      (atoms 2, 3 and 4: e = 0, s = 1, total 0) are predicted 0.5, 0.5 and
      0, 0, 0. */
  lemma TwoMoleculeBatch(e: seq<real>, s: seq<real>, Qs: seq<real>, t: Matrix, w: nat)
    requires w == 2 && IsMatrix(t, w) && |t| == 5
    requires forall i :: 0 <= i < 5 ==> t[i][0] == (i < 2) && t[i][1] == (i >= 2)
    requires |e| == |s| == 5 && |Qs| == 2 && Qs[0] == 1.0 && Qs[1] == 0.0
    requires forall i :: 0 <= i < 5 ==> s[i] == 1.0 && e[i] == (if i < 2 then 0.5 else 0.0)
    ensures Inputs(e, s, Qs, t, w)
    ensures Predicted(e, s, Qs, t, w) == [0.5, 0.5, 0.0, 0.0, 0.0]
  {
    PositiveSlicesSolvable(s, t, w);
    TwoMoleculeShares(e, s, Qs, t, w);
    TwoBlocks(Predicted(e, s, Qs, t, w), Qs);
  }

  /** Each block's atoms share its total equally. */
  lemma TwoMoleculeShares(e: seq<real>, s: seq<real>, Qs: seq<real>, t: Matrix, w: nat)
    requires w == 2 && Inputs(e, s, Qs, t, w) && |t| == 5
    requires forall i :: 0 <= i < 5 ==> t[i][0] == (i < 2) && t[i][1] == (i >= 2)
    requires |Qs| == 2
    requires forall i :: 0 <= i < 5 ==> s[i] == 1.0 && e[i] == (if i < 2 then 0.5 else 0.0)
    ensures forall i :: 0 <= i < 2 ==> Predicted(e, s, Qs, t, w)[i] == Qs[0] / (2 - 0) as real
    ensures forall i :: 2 <= i < 5 ==> Predicted(e, s, Qs, t, w)[i] == Qs[1] / (5 - 2) as real
  {
    TwoMoleculePartition(t);
    FirstMoleculeShare(e, s, Qs, t, w);
    SecondMoleculeShare(e, s, Qs, t, w);
  }

  lemma FirstMoleculeShare(e: seq<real>, s: seq<real>, Qs: seq<real>, t: Matrix, w: nat)
    requires w == 2 && Inputs(e, s, Qs, t, w) && |t| == 5
    requires forall i :: 0 <= i < 5 ==> t[i][0] == (i < 2) && t[i][1] == (i >= 2)
    requires |Qs| == 2
    requires forall i :: 0 <= i < 5 ==> s[i] == 1.0 && e[i] == (if i < 2 then 0.5 else 0.0)
    requires Partition(t) && Count(Column(t, 2, 0)) == 2
    ensures forall i :: 0 <= i < 2 ==> Predicted(e, s, Qs, t, w)[i] == Qs[0] / (2 - 0) as real
  {
    MoleculeShares(e, s, Qs, t, w, 0, 0.5, 1.0, 0, 2);
  }

  lemma SecondMoleculeShare(e: seq<real>, s: seq<real>, Qs: seq<real>, t: Matrix, w: nat)
    requires w == 2 && Inputs(e, s, Qs, t, w) && |t| == 5
    requires forall i :: 0 <= i < 5 ==> t[i][0] == (i < 2) && t[i][1] == (i >= 2)
    requires |Qs| == 2
    requires forall i :: 0 <= i < 5 ==> s[i] == 1.0 && e[i] == (if i < 2 then 0.5 else 0.0)
    requires Partition(t) && Count(Column(t, 2, 1)) == 3
    ensures forall i :: 2 <= i < 5 ==> Predicted(e, s, Qs, t, w)[i] == Qs[1] / (5 - 2) as real
  {
    MoleculeShares(e, s, Qs, t, w, 1, 0.0, 1.0, 2, 5);
  }

  /** Five entries, the first two the first total halved, the last three
      the second total in thirds. */
  lemma TwoBlocks(p: seq<real>, Qs: seq<real>)
    requires |p| == 5 && |Qs| == 2 && Qs[0] == 1.0 && Qs[1] == 0.0
    requires forall i :: 0 <= i < 2 ==> p[i] == Qs[0] / (2 - 0) as real
    requires forall i :: 2 <= i < 5 ==> p[i] == Qs[1] / (5 - 2) as real
    ensures p == [0.5, 0.5, 0.0, 0.0, 0.0]
  {
    assert p[0] == 0.5 && p[1] == 0.5 && p[2] == 0.0 && p[3] == 0.0 && p[4] == 0.0;
  }

  /** The two blocks partition the five atoms, two and three to a molecule. */
  lemma TwoMoleculePartition(t: Matrix)
    requires IsMatrix(t, 2) && |t| == 5
    requires forall i :: 0 <= i < 5 ==> t[i][0] == (i < 2) && t[i][1] == (i >= 2)
    ensures Partition(t)
    ensures Count(Column(t, 2, 0)) == 2 && Count(Column(t, 2, 1)) == 3
  {
    forall i | 0 <= i < |t| ensures true in t[i] && AtMostOne(t[i]) {
      assert t[i][0] || t[i][1];
    }
    assert Column(t, 2, 0) == [true, true, false, false, false];
    assert Column(t, 2, 1) == [false, false, true, true, true];
    TwoMoleculesCounts();
  }

  /** The rows lo .. hi-1 form molecule j, whose atoms all have e = eV
      and s = sV: each of them gets Qs[j] / (hi - lo). */
  lemma MoleculeShares(e: seq<real>, s: seq<real>, Qs: seq<real>, t: Matrix, w: nat, j: nat,
                       eV: real, sV: real, lo: nat, hi: nat)
    requires Inputs(e, s, Qs, t, w) && Partition(t) && j < w && sV != 0.0
    requires lo < hi <= |t| && Count(Column(t, w, j)) == hi - lo
    requires forall a :: 0 <= a < |t| ==> (t[a][j] <==> lo <= a < hi)
    requires forall a :: lo <= a < hi ==> e[a] == eV && s[a] == sV
    ensures forall i :: lo <= i < hi ==> Predicted(e, s, Qs, t, w)[i] == Qs[j] / (hi - lo) as real
  {
    forall i | lo <= i < hi ensures Predicted(e, s, Qs, t, w)[i] == Qs[j] / (hi - lo) as real {
      AlikeAtomsShareMoleculeTotal(e, s, Qs, t, w, i, j);
    }
  }

  lemma TwoMoleculesCounts()
    ensures Count([true, true, false, false, false]) == 2
    ensures Count([false, false, true, true, true]) == 3
  {
    assert [true, true, false, false, false][..4] == [true, true, false, false];
    assert [true, true, false, false][..3] == [true, true, false];
    assert [true, true, false][..2] == [true, true];
    assert [true, true][..1] == [true];
    assert [true][..0] == [];
    assert [false, false, true, true, true][..4] == [false, false, true, true];
    assert [false, false, true, true][..3] == [false, false, true];
    assert [false, false, true][..2] == [false, false];
    assert [false, false][..1] == [false];
    assert [false][..0] == [];
  }
}
