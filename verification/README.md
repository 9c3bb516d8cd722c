# Charge-equilibration readout of the partial-charge network

This is a model of the charge readout in `lime/scripts/partial_charge/charge_mpnn.py`.
A graph network predicts an electronegativity `e_i` and a hardness `s_i` for every atom.
The readout turns them into partial charges. It solves, for each molecule, the minimisation of
`sum_i (e_i q_i + s_i q_i^2 / 2)` subject to `sum_i q_i = Q`.

A batch holds all of its atoms in one flat vector. A boolean membership matrix records
which molecule each atom belongs to: row `i`, column `j` is true when atom `i` is in
molecule `j`. The model covers four pieces:

- `get_charges` is module `ChargeSolver`. It is the closed-form solution for one molecule.
- The trimming that both consumers apply to the membership matrix is module `Membership`.
  All-false rows (padding atoms) go first, then all-false columns (padding molecules).
  It also holds `reduce_any` along either axis (`RowMask`, `ColMask`) and column selection
  (`Column`). Module `Tensor` holds the vector primitives `tf.where`, `tf.boolean_mask`
  and `reduce_sum`.
- `get_q_total_per_mol` is module `Aggregator`. It sums a per-atom value for each molecule.
- `get_q_i_hat_total_per_mol` and the training-step call site are module `BatchSolver`.
  It allocates a zero buffer and then runs a loop over the molecule columns. Each pass solves
  one molecule and scatters its charges into the buffer. This is modelled as methods over an
  `array<real>`:
  - `Zeros` is proved to return a buffer equal to `Fill(n, 0.0)`.
  - `ScatterUpdate` is proved to leave the buffer related to its old contents by `ScatteredFrom`.
  - The loop `SolveColumns`, `QHatPerMol` and the call site `PredictCharges` are proved to
    return the specification function `Predicted`.

Arithmetic is over exact reals. The formula is defined only where no hardness is zero and
the sum of the reciprocal hardnesses of a non-empty molecule is not zero (`Solvable`).
Every positive hardness vector is solvable (`PositiveSolvable`).

The scatter uses `tensor_scatter_nd_update` inside a sequential loop. The model therefore
states what happens for any membership matrix: each atom keeps the charge written by the LAST
molecule column that holds it (`Partial`, `LastMember`). When every atom is in exactly one
molecule (`Partition`), the writes are disjoint. Each atom then gets its own molecule's
solution, and every molecule's total is conserved.

For uniform hardness `c`, the code gives `q_i = Q/N + (mean(e) - e_i)/c`. For positive
hardness `c` the more electronegative atom therefore carries the lower charge. The model
proves the pairwise form `q_i - q_j = (e_j - e_i)/c` (`UniformHardness`).

## Model

| member | source | states |
|---|---|---|
| ChargeSolver.Reciprocal | lime/scripts/partial_charge/charge_mpnn.py:92-94 | `tf.math.pow(s, -1)` gives each atom a value whose product with its hardness is 1 |
| ChargeSolver.WeightedIsQuotient | lime/scripts/partial_charge/charge_mpnn.py:104-108 | the weighted electronegativity `e_i * s_i^-1` times `s_i` gives back `e_i`, so it is `e_i / s_i` |
| ChargeSolver.Multiplier | lime/scripts/partial_charge/charge_mpnn.py:100-112 | the multiplier `lambda` balances the constraint: `lambda * sum_j 1/s_j - sum_j e_j/s_j = Q` |
| ChargeSolver.Charges | lime/scripts/partial_charge/charge_mpnn.py:88-112 | `get_charges` returns exactly one charge per atom |
| ChargeSolver.PositiveSolvable | lime/scripts/partial_charge/charge_mpnn.py:92-112 | if every hardness is positive, every reciprocal and the reciprocal sum the formula divides by are defined |
| ChargeSolver.ChargesStationary | lime/scripts/partial_charge/charge_mpnn.py:71-84 | every atom meets the stationarity condition `e_i + s_i q_i = lambda` of the Lagrangian, with one common multiplier |
| ChargeSolver.ChargesSumToTotal | lime/scripts/partial_charge/charge_mpnn.py:58-84 | the charges of a molecule sum exactly to its total charge `Q`, which is the constraint the multiplier enforces |
| ChargeSolver.ChargesAreStationaryPoint | lime/scripts/partial_charge/charge_mpnn.py:58-84 | the charges satisfy both Lagrange conditions: the total and the common multiplier |
| ChargeSolver.EnergyDifference | lime/scripts/partial_charge/charge_mpnn.py:60-69 | against a stationary point with the same total, any charge vector's energy is higher by exactly the summed `s_i (a_i - b_i)^2 / 2` |
| ChargeSolver.StationaryIsMinimum | lime/scripts/partial_charge/charge_mpnn.py:60-84 | for positive hardness, a stationary point has no more energy than any vector with the same total, and equal energy only when the vectors are equal |
| ChargeSolver.ChargesMinimiseEnergy | lime/scripts/partial_charge/charge_mpnn.py:58-84 | for positive hardness, the charges have the least energy among all charge vectors with total `Q` |
| ChargeSolver.ChargesUniqueMinimiser | lime/scripts/partial_charge/charge_mpnn.py:58-84 | the minimiser is unique: a vector with total `Q` and no more energy than the charges is the charges |
| ChargeSolver.SingleAtomTakesTotal | lime/scripts/partial_charge/charge_mpnn.py:88-112 | a one-atom molecule gets exactly `Q`, whatever `e_0` and non-zero `s_0` are |
| ChargeSolver.UniformHardness | lime/scripts/partial_charge/charge_mpnn.py:88-112 | with one hardness `c` on every atom, `q_i - q_j = (e_j - e_i)/c` for every pair of atoms |
| ChargeSolver.IdenticalAtomsEqualCharges | lime/scripts/partial_charge/charge_mpnn.py:88-112 | atoms with the same e and the same s all get the same charge |
| ChargeSolver.IdenticalAtomsShareEqually | lime/scripts/partial_charge/charge_mpnn.py:88-112 | atoms that are all alike each get `Q/N` |
| ChargeSolver.ThreeIdenticalAtoms | lime/scripts/partial_charge/charge_mpnn.py:88-112 | `e = [1,1,1]`, `s = [2,2,2]`, `Q = 3` gives `[1,1,1]` |
| Tensor.SumDifference | lime/scripts/partial_charge/charge_mpnn.py:88-112 | the sum of an entrywise difference is the difference of the sums |
| Tensor.SumScaled | lime/scripts/partial_charge/charge_mpnn.py:96-112 | the sum of a vector scaled by `c` is `c` times its sum |
| Tensor.Where | lime/scripts/partial_charge/charge_mpnn.py:165 | `tf.where` lists exactly as many indices as there are true entries, each one a true position |
| Tensor.BooleanMask | lime/scripts/partial_charge/charge_mpnn.py:157-163 | `tf.boolean_mask` keeps one entry per true position: the k-th kept entry is the entry at the k-th true position |
| Tensor.WhereInverse | lime/scripts/partial_charge/charge_mpnn.py:165-180 | a true position's rank among the true positions indexes it in `tf.where`, and the rank of the k-th listed position is k, so scatter indices and solved charges line up |
| Tensor.WhereIncreasing | lime/scripts/partial_charge/charge_mpnn.py:165 | `tf.where` lists positions in strictly increasing order |
| Membership.Trim | lime/scripts/partial_charge/charge_mpnn.py:123-135 | the trimmed matrix has one row per atom with some membership and a common width |
| Membership.ColMaskAfterRowTrim | lime/scripts/partial_charge/charge_mpnn.py:123-135 | dropping all-false rows never empties a column: the column mask is the same before and after |
| Membership.TrimEntries | lime/scripts/partial_charge/charge_mpnn.py:123-135 | entry (a, b) of the trimmed matrix is the original entry at the a-th kept row and the b-th kept column |
| Membership.TrimKeepsInOrder | lime/scripts/partial_charge/charge_mpnn.py:211-223 | trimming keeps, in their original order, exactly the rows with a true entry and exactly the columns with a true entry |
| Membership.TrimNoEmptyRow | lime/scripts/partial_charge/charge_mpnn.py:130-135 | dropping all-false columns never empties a retained row |
| Membership.TrimNoEmptyColumn | lime/scripts/partial_charge/charge_mpnn.py:123-135 | the trimmed matrix has no all-false column |
| Membership.TrimClean | lime/scripts/partial_charge/charge_mpnn.py:123-135 | a matrix with no all-false row and no all-false column is left as it is |
| Membership.TrimIdempotent | lime/scripts/partial_charge/charge_mpnn.py:211-223 | trimming a trimmed matrix changes nothing |
| Aggregator.QTotalPerMol | lime/scripts/partial_charge/charge_mpnn.py:201-249 | `get_q_total_per_mol` returns one total per molecule left after trimming |
| Aggregator.MaskedSumIsSumOfMasked | lime/scripts/partial_charge/charge_mpnn.py:225-247 | turning the column into 0/1, multiplying and reducing (`MaskedSum`) gives the sum of the values the column marks |
| Aggregator.MaskedSumDropRows | lime/scripts/partial_charge/charge_mpnn.py:205-216 | dropping rows that a column does not mark leaves its total unchanged |
| Aggregator.TrimmedColumn | lime/scripts/partial_charge/charge_mpnn.py:211-223 | column b of the trimmed matrix is the original column it stands for, without the dropped rows |
| Aggregator.QTotalPerMolSums | lime/scripts/partial_charge/charge_mpnn.py:201-249 | there is one total per non-empty column, in column order, and each total is the sum of the values of the atoms that molecule holds in the untrimmed batch |
| Aggregator.QTotalPerMolClean | lime/scripts/partial_charge/charge_mpnn.py:201-249 | on a matrix with no all-false row or column, total j is the sum over the rows column j marks |
| Aggregator.QTotalPerMolOfTrimmed | lime/scripts/partial_charge/charge_mpnn.py:205-223 | aggregating row-masked values over the trimmed matrix gives the same totals as aggregating over the original, so both consumers agree on molecule indices |
| Aggregator.PaddingTrimmed | lime/scripts/partial_charge/charge_mpnn.py:123-135 | on `[[true,false],[false,false]]` the padding atom's row and the padding molecule's column are both dropped, leaving `[[true]]` |
| Aggregator.PaddingLeftOut | lime/scripts/partial_charge/charge_mpnn.py:201-249 | values `[x, y]` over that padded matrix total `[x]`: the padding atom's value is left out |
| Aggregator.TwoMoleculeTotals | lime/scripts/partial_charge/charge_mpnn.py:201-249 | values `[2,3,4]` over `[[1,0],[1,0],[0,1]]` total `[5,4]` |
| BatchSolver.MoleculeCharges | lime/scripts/partial_charge/charge_mpnn.py:152-180 | one molecule's solution has one charge per atom the column marks |
| BatchSolver.LastMember | lime/scripts/partial_charge/charge_mpnn.py:168-196 | the column whose write an atom keeps is the last processed column that marks it, and no later processed column marks it |
| BatchSolver.BufferStartsAtZero | lime/scripts/partial_charge/charge_mpnn.py:137-143 | before the loop every buffer entry is zero |
| BatchSolver.Zeros | lime/scripts/partial_charge/charge_mpnn.py:137-143 | the buffer is a fresh array of zeros, one per retained atom |
| BatchSolver.PartialStep | lime/scripts/partial_charge/charge_mpnn.py:168-182 | processing column c overwrites exactly the rows it marks, each with its own charge |
| BatchSolver.ScatterStep | lime/scripts/partial_charge/charge_mpnn.py:168-180 | one scatter write sets the k-th marked row to the k-th charge and changes no other entry |
| BatchSolver.ScatterUpdate | lime/scripts/partial_charge/charge_mpnn.py:165-180 | `tensor_scatter_nd_update` at `tf.where(column)`: each marked row gets the charge at its rank, and every other entry keeps its value |
| BatchSolver.ProcessedNone | lime/scripts/partial_charge/charge_mpnn.py:137-143 | the zero buffer is the state before any column |
| BatchSolver.ProcessedStep | lime/scripts/partial_charge/charge_mpnn.py:145-182 | one loop pass turns the buffer after columns 0..c-1 into the buffer after columns 0..c |
| BatchSolver.ProcessedAll | lime/scripts/partial_charge/charge_mpnn.py:189-196 | after the last column the buffer is the predicted charge vector |
| BatchSolver.SolveColumns | lime/scripts/partial_charge/charge_mpnn.py:145-196 | the `while_loop` leaves the buffer equal to the predicted charges |
| BatchSolver.QHatPerMol | lime/scripts/partial_charge/charge_mpnn.py:115-199 | `get_q_i_hat_total_per_mol` returns one charge per atom with some membership, equal to the predicted charges over the trimmed matrix |
| BatchSolver.PartitionAfterTrim | lime/scripts/partial_charge/charge_mpnn.py:123-135 | if every atom is in at most one molecule, the trimmed matrix is a partition |
| BatchSolver.PredictedIsOwnMoleculeCharge | lime/scripts/partial_charge/charge_mpnn.py:145-196 | under a partition, each atom's predicted charge is its own molecule's solution, at the atom's position within that molecule |
| BatchSolver.WritesDisjoint | lime/scripts/partial_charge/charge_mpnn.py:165-180 | under a partition, two different molecules write to disjoint rows |
| BatchSolver.MoleculeReadBack | lime/scripts/partial_charge/charge_mpnn.py:145-196 | under a partition, masking the result by molecule j gives back exactly molecule j's solution |
| BatchSolver.MoleculeConservation | lime/scripts/partial_charge/charge_mpnn.py:145-196 | under a partition, each molecule's predicted charges sum to its total `Qs[j]` |
| BatchSolver.RoundTrip | lime/scripts/partial_charge/charge_mpnn.py:406-425 | under a partition, aggregating the predicted charges gives back every molecule's total |
| BatchSolver.PredictCharges | lime/scripts/partial_charge/charge_mpnn.py:406-431 | the training step's readout row-masks the reference charges, e and s; it predicts with totals aggregated from the reference, and under a partition the predicted and reference molecule totals agree |
| BatchSolver.OverlapLastMoleculeWins | lime/scripts/partial_charge/charge_mpnn.py:168-182 | without a partition an atom shared by two molecules keeps the later molecule's charge, so the earlier molecule's total is not conserved |
| BatchSolver.PositiveSlicesSolvable | lime/scripts/partial_charge/charge_mpnn.py:157-180 | positive hardness makes every molecule's slice solvable |
| BatchSolver.AlikeAtomsShareMoleculeTotal | lime/scripts/partial_charge/charge_mpnn.py:145-196 | under a partition, a molecule of alike atoms gives each atom its total divided by its atom count |
| BatchSolver.SingleMolecule | lime/scripts/partial_charge/charge_mpnn.py:145-196 | a one-atom, one-molecule batch predicts that molecule's total for the atom |
| BatchSolver.PaddedBatch | lime/scripts/partial_charge/charge_mpnn.py:406-425 | on the padded batch, the call site drops the padding atom's `e` and `s`, and the real atom gets its reference total whatever the padding atom's values |
| BatchSolver.TwoMoleculeBatch | lime/scripts/partial_charge/charge_mpnn.py:115-199 | a batch of a two-atom molecule with total 1 and a three-atom molecule with total 0 is predicted `[0.5, 0.5, 0, 0, 0]` |

## Left out

- Floating point: charges are exact reals, not float32. Zero hardness or a zero reciprocal sum, where the code would produce inf or NaN, is excluded by the `Solvable` precondition.
- Shapes: shape mismatches that TensorFlow rejects at run time are preconditions. Examples are `e`, `s` and the trimmed matrix with different row counts, or fewer totals than molecules.
- The graph network, the featurisers and the `e`/`s` readout heads are not part of this model. They are neural-network layers whose outputs enter as the parameters `e` and `s`.
- Training is not part of this model: the gradient tape, the mean-squared-error loss, the optimizer, the epoch loop and the evaluation statistics. They are automatic differentiation and floating-point numerics.
- Dataset loading, parsing, batching and the train/test split are not part of this model. They are I/O.
- `tf.function` tracing and `set_shape` are framework mechanics with no behaviour of their own.
- The hyperparameter-search script is not part of this model. It is orchestration only.
- UniformHardness: states the pairwise differences `q_i - q_j = (e_j - e_i)/c`, not the closed form `Q/N + (mean(e) - e_i)/c`. Together with `ChargesSumToTotal` the pairwise form fixes the charges.
- RoundTrip: is stated over the trimmed matrix, and under a partition of it. Without a partition, conservation fails (`OverlapLastMoleculeWins`).
