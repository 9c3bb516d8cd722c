/**
 * The charge-equilibration solve for one molecule: given electronegativity
 * e, hardness s and total charge Q, the charges
 *
 *   q_i = -e_i / s_i + (1 / s_i) * (Q + sum_j e_j / s_j) / (sum_j 1 / s_j)
 *
 * minimise sum_i (e_i q_i + s_i q_i^2 / 2) subject to sum_i q_i = Q; the
 * fraction is the Lagrange multiplier of that constraint. Arithmetic is
 * over exact reals.
 */
module ChargeSolver {
  import opened Tensor

  predicate NonZero(s: seq<real>)
  {
    forall i :: 0 <= i < |s| ==> s[i] != 0.0
  }

  predicate Positive(s: seq<real>)
  {
    forall i :: 0 <= i < |s| ==> s[i] > 0.0
  }

  /** `tf.math.pow(s, -1)`, entrywise. */
  function Reciprocal(s: seq<real>): (inv: seq<real>)
    requires NonZero(s)
    ensures |inv| == |s|
    ensures forall i :: 0 <= i < |s| ==> s[i] * inv[i] == 1.0
  {
    seq(|s|, i requires 0 <= i < |s| => 1.0 / s[i])
  }

  /** `tf.math.multiply`, entrywise. */
  function Multiply(a: seq<real>, b: seq<real>): (p: seq<real>)
    requires |a| == |b|
    ensures |p| == |a|
    ensures forall i :: 0 <= i < |a| ==> p[i] == a[i] * b[i]
  {
    seq(|a|, i requires 0 <= i < |a| => a[i] * b[i])
  }

  /** Where the real-valued formula is defined: no atom has zero hardness
      and, for a non-empty molecule, sum_j 1 / s_j is not zero. */
  predicate Solvable(s: seq<real>)
  {
    NonZero(s) && (|s| > 0 ==> Sum(Reciprocal(s)) != 0.0)
  }

  /** The Lagrange multiplier (Q + sum_j e_j / s_j) / (sum_j 1 / s_j): the
      one value lambda whose shares lambda / s_j, less the e_j / s_j, add
      up to the total charge. */
  function Multiplier(e: seq<real>, s: seq<real>, total: real): (lambda: real)
    requires |e| == |s| > 0 && Solvable(s)
    ensures lambda * Sum(Reciprocal(s)) - Sum(Multiply(e, Reciprocal(s))) == total
  {
    (total + Sum(Multiply(e, Reciprocal(s)))) / Sum(Reciprocal(s))
  }

  /** `get_charges`: one charge per atom. */
  function Charges(e: seq<real>, s: seq<real>, total: real): (q: seq<real>)
    requires |e| == |s| && Solvable(s)
    ensures |q| == |e|
  {
    if |s| == 0 then []
    else
      var inv := Reciprocal(s);
      var lambda := Multiplier(e, s, total);
      seq(|s|, i requires 0 <= i < |s| => -e[i] * inv[i] + inv[i] * lambda)
  }

  /** b is a stationary point of the Lagrangian with multiplier c: every
      atom has e_i + s_i b_i = c. */
  predicate Stationary(e: seq<real>, s: seq<real>, b: seq<real>, c: real)
    requires |e| == |s| == |b|
  {
    forall i :: 0 <= i < |b| ==> e[i] + s[i] * b[i] == c
  }

  /** The energy sum_i (e_i q_i + s_i q_i^2 / 2) that the charges minimise. */
  function Energy(e: seq<real>, s: seq<real>, q: seq<real>): real
    requires |e| == |s| == |q|
  {
    Sum(EnergyTerms(e, s, q))
  }

  /** Atom i's share e_i q_i + s_i q_i^2 / 2 of the energy. */
  function EnergyTerms(e: seq<real>, s: seq<real>, q: seq<real>): (u: seq<real>)
    requires |e| == |s| == |q|
    ensures |u| == |q|
  {
    seq(|q|, i requires 0 <= i < |q| => e[i] * q[i] + 0.5 * s[i] * q[i] * q[i])
  }

  /** Atom i's gap s_i (a_i - b_i)^2 / 2 between two charge vectors. */
  function Gaps(s: seq<real>, a: seq<real>, b: seq<real>): (g: seq<real>)
    requires |s| == |a| == |b|
    ensures |g| == |a|
  {
    seq(|a|, i requires 0 <= i < |a| => 0.5 * s[i] * (a[i] - b[i]) * (a[i] - b[i]))
  }

  /** Weighting e by the reciprocal hardness divides it by the hardness:
      s_i * (e_i * s_i^-1) = e_i. */
  lemma WeightedIsQuotient(e: seq<real>, s: seq<real>)
    requires |e| == |s| && NonZero(s)
    ensures forall i :: 0 <= i < |s| ==> s[i] * Multiply(e, Reciprocal(s))[i] == e[i]
  {
    var inv := Reciprocal(s);
    forall i | 0 <= i < |s| ensures s[i] * Multiply(e, inv)[i] == e[i] {
      Cancel(s[i], inv[i], e[i]);
    }
  }

  lemma Cancel(x: real, y: real, z: real)
    requires x * y == 1.0
    ensures x * (z * y) == z
  {
    assert x * (z * y) == z * (x * y);
  }

  /** Positive hardness makes the formula defined. */
  lemma PositiveSolvable(s: seq<real>)
    requires Positive(s)
    ensures Solvable(s)
  {
    if |s| > 0 {
      var inv := Reciprocal(s);
      forall i | 0 <= i < |s| ensures inv[i] > 0.0 {
        assert s[i] * inv[i] == 1.0;
      }
      SumNonNegative(inv);
      assert inv[0] != 0.0;
    }
  }

  /** Every atom's charge meets the stationarity condition of the Lagrangian:
      e_i + s_i q_i is the same multiplier for all atoms. */
  lemma ChargesStationary(e: seq<real>, s: seq<real>, total: real)
    requires |e| == |s| > 0 && Solvable(s)
    ensures forall i :: 0 <= i < |s| ==>
      e[i] + s[i] * Charges(e, s, total)[i] == Multiplier(e, s, total)
  {
    var inv := Reciprocal(s);
    var lambda := Multiplier(e, s, total);
    var q := Charges(e, s, total);
    forall i | 0 <= i < |s| ensures e[i] + s[i] * q[i] == lambda {
      assert q[i] == -e[i] * inv[i] + inv[i] * lambda;
      calc {
        s[i] * q[i];
        -e[i] * (s[i] * inv[i]) + (s[i] * inv[i]) * lambda;
        { assert s[i] * inv[i] == 1.0; }
        -e[i] + lambda;
      }
    }
  }

  /** The charges sum exactly to the molecule's total charge: the constraint
      the multiplier enforces. */
  lemma ChargesSumToTotal(e: seq<real>, s: seq<real>, total: real)
    requires |e| == |s| > 0 && Solvable(s)
    ensures Sum(Charges(e, s, total)) == total
  {
    var inv := Reciprocal(s);
    var weighted := Multiply(e, inv);
    var lambda := Multiplier(e, s, total);
    var shares := ScaleBy(lambda, inv);
    ChargesAsShares(e, s, total, shares, weighted);
    SharesSum(lambda, inv, shares);
  }

  /** Each charge is the atom's share 1/s_i of the multiplier, less
      e_i / s_i. */
  lemma ChargesAsShares(e: seq<real>, s: seq<real>, total: real, shares: seq<real>, weighted: seq<real>)
    requires |e| == |s| > 0 && Solvable(s)
    requires shares == ScaleBy(Multiplier(e, s, total), Reciprocal(s))
    requires weighted == Multiply(e, Reciprocal(s))
    ensures Sum(Charges(e, s, total)) == Sum(shares) - Sum(weighted)
  {
    var q := Charges(e, s, total);
    forall i | 0 <= i < |q| ensures q[i] == shares[i] - weighted[i] {
    }
    SumDifference(shares, weighted, q);
  }

  lemma SharesSum(lambda: real, inv: seq<real>, shares: seq<real>)
    requires shares == ScaleBy(lambda, inv)
    ensures Sum(shares) == lambda * Sum(inv)
  {
    SumScaled(lambda, inv, shares);
  }

  /** Summing u - v = h + g entrywise. */
  lemma {:induction false} SumOfDifferences(u: seq<real>, v: seq<real>, h: seq<real>, g: seq<real>)
    requires |u| == |v| == |h| == |g|
    requires forall i :: 0 <= i < |u| ==> u[i] - v[i] == h[i] + g[i]
    ensures Sum(u) - Sum(v) == Sum(h) + Sum(g)
  {
    if |u| > 0 {
      var n := |u|;
      SumOfDifferences(u[..n - 1], v[..n - 1], h[..n - 1], g[..n - 1]);
    }
  }

  /** One atom's energy, compared with a stationary point b of multiplier c. */
  lemma EnergyTerm(e: real, s: real, a: real, b: real, c: real)
    requires e + s * b == c
    ensures (e * a + 0.5 * s * a * a) - (e * b + 0.5 * s * b * b)
         == c * (a - b) + 0.5 * s * (a - b) * (a - b)
  {
    assert e * (a - b) == (c - s * b) * (a - b);
  }

  lemma MulPositive(x: real, y: real)
    requires x > 0.0 && y > 0.0
    ensures x * y > 0.0
  {
  }

  /** The gap term is non-negative for positive hardness, and zero only
      when the two charges agree. */
  lemma GapTerm(s: real, a: real, b: real)
    requires s > 0.0
    ensures 0.5 * s * (a - b) * (a - b) >= 0.0
    ensures a != b ==> 0.5 * s * (a - b) * (a - b) > 0.0
  {
    var d := a - b;
    if d > 0.0 {
      MulPositive(0.5 * s, d);
      MulPositive(0.5 * s * d, d);
    } else if d < 0.0 {
      MulPositive(0.5 * s, -d);
      MulPositive(0.5 * s * (-d), -d);
      assert 0.5 * s * (-d) * (-d) == 0.5 * s * d * d;
    }
  }

  /** Atom by atom, the energy term of a exceeds that of a stationary point
      b by h_i = c * d_i, where d_i = a_i - b_i, plus the gap. */
  lemma TermsDiffer(e: seq<real>, s: seq<real>, a: seq<real>, b: seq<real>, c: real, d: seq<real>, h: seq<real>)
    requires |e| == |s| == |a| == |b| && d == Difference(a, b) && h == ScaleBy(c, d)
    requires Stationary(e, s, b, c)
    ensures forall i :: 0 <= i < |a| ==>
      EnergyTerms(e, s, a)[i] - EnergyTerms(e, s, b)[i] == h[i] + Gaps(s, a, b)[i]
  {
    forall i | 0 <= i < |a|
      ensures EnergyTerms(e, s, a)[i] - EnergyTerms(e, s, b)[i] == h[i] + Gaps(s, a, b)[i]
    {
      EnergyTerm(e[i], s[i], a[i], b[i], c);
      ScaledTerm(c, d[i], a[i], b[i]);
    }
  }

  lemma ScaledTerm(c: real, d: real, a: real, b: real)
    requires d == a - b
    ensures c * d == c * (a - b)
  {
  }

  /** The energy of a exceeds that of a stationary point b by the sum of
      h_i = c * (a_i - b_i) plus the summed gaps. */
  lemma EnergySplit(e: seq<real>, s: seq<real>, a: seq<real>, b: seq<real>, c: real, d: seq<real>, h: seq<real>)
    requires |e| == |s| == |a| == |b| && d == Difference(a, b) && h == ScaleBy(c, d)
    requires Stationary(e, s, b, c)
    ensures Energy(e, s, a) - Energy(e, s, b) == Sum(h) + Sum(Gaps(s, a, b))
  {
    TermsDiffer(e, s, a, b, c, d, h);
    SumOfDifferences(EnergyTerms(e, s, a), EnergyTerms(e, s, b), h, Gaps(s, a, b));
  }

  /** For positive hardness every gap is non-negative, and positive where
      the two vectors differ. */
  lemma GapsNonNegative(s: seq<real>, a: seq<real>, b: seq<real>)
    requires |s| == |a| == |b| && Positive(s)
    ensures forall i :: 0 <= i < |a| ==> Gaps(s, a, b)[i] >= 0.0
    ensures forall i :: 0 <= i < |a| && a[i] != b[i] ==> Gaps(s, a, b)[i] > 0.0
  {
    forall i | 0 <= i < |a|
      ensures Gaps(s, a, b)[i] >= 0.0
      ensures a[i] != b[i] ==> Gaps(s, a, b)[i] > 0.0
    {
      GapTerm(s[i], a[i], b[i]);
    }
  }

  /** The vector a_i - b_i. */
  function Difference(a: seq<real>, b: seq<real>): (d: seq<real>)
    requires |a| == |b|
    ensures |d| == |a|
    ensures forall i :: 0 <= i < |d| ==> d[i] == a[i] - b[i]
  {
    seq(|a|, i requires 0 <= i < |a| => a[i] - b[i])
  }

  /** Two vectors with the same total: any multiple of their difference
      sums to zero. */
  lemma ScaledDifferences(a: seq<real>, b: seq<real>, c: real, d: seq<real>, h: seq<real>)
    requires |a| == |b| && d == Difference(a, b) && h == ScaleBy(c, d)
    requires Sum(a) == Sum(b)
    ensures Sum(h) == 0.0
  {
    SumDifference(a, b, d);
    ScaledZero(c, d, h);
  }

  /** Any multiple of a vector that sums to zero sums to zero. */
  lemma ScaledZero(c: real, d: seq<real>, h: seq<real>)
    requires |d| == |h| && Sum(d) == 0.0
    requires forall i :: 0 <= i < |h| ==> h[i] == c * d[i]
    ensures Sum(h) == 0.0
  {
    SumScaled(c, d, h);
  }

  /** The energy of a exceeds that of a stationary point b (of multiplier c)
      with the same total by exactly the summed gaps. */
  lemma EnergyDifference(e: seq<real>, s: seq<real>, a: seq<real>, b: seq<real>, c: real)
    requires |e| == |s| == |a| == |b|
    requires Stationary(e, s, b, c)
    requires Sum(a) == Sum(b)
    ensures Energy(e, s, a) - Energy(e, s, b) == Sum(Gaps(s, a, b))
  {
    var d := Difference(a, b);
    var h := ScaleBy(c, d);
    EnergySplit(e, s, a, b, c, d, h);
    ScaledDifferences(a, b, c, d, h);
  }

  /** For positive hardness the summed gap is non-negative, and zero only
      when the two vectors are equal. */
  lemma GapSum(s: seq<real>, a: seq<real>, b: seq<real>)
    requires |s| == |a| == |b| && Positive(s)
    ensures Sum(Gaps(s, a, b)) >= 0.0
    ensures Sum(Gaps(s, a, b)) == 0.0 ==> a == b
  {
    GapsNonNegative(s, a, b);
    SumNonNegative(Gaps(s, a, b));
  }

  /** A stationary point b of the Lagrangian has energy no larger than any
      vector a with the same total, and strictly smaller unless a == b. */
  lemma StationaryIsMinimum(e: seq<real>, s: seq<real>, a: seq<real>, b: seq<real>, c: real)
    requires |e| == |s| == |a| == |b| && Positive(s)
    requires Stationary(e, s, b, c)
    requires Sum(a) == Sum(b)
    ensures Energy(e, s, b) <= Energy(e, s, a)
    ensures Energy(e, s, b) == Energy(e, s, a) ==> a == b
  {
    EnergyDifference(e, s, a, b, c);
    GapSum(s, a, b);
  }

  /** The charges have the least energy among all charge vectors with the
      same total, for positive hardness. */
  lemma ChargesMinimiseEnergy(e: seq<real>, s: seq<real>, total: real, other: seq<real>)
    requires |e| == |s| == |other| > 0 && Positive(s)
    requires Sum(other) == total
    ensures Solvable(s)
    ensures Energy(e, s, Charges(e, s, total)) <= Energy(e, s, other)
  {
    PositiveSolvable(s);
    var q := Charges(e, s, total);
    var c := Multiplier(e, s, total);
    ChargesAreStationaryPoint(e, s, total);
    StationaryIsMinimum(e, s, other, q, c);
  }

  /** The minimiser is unique: any charge vector with the same total and no
      more energy than the charges is the charges. */
  lemma ChargesUniqueMinimiser(e: seq<real>, s: seq<real>, total: real, other: seq<real>)
    requires |e| == |s| == |other| > 0 && Positive(s)
    requires Sum(other) == total
    ensures Solvable(s)
    ensures Energy(e, s, other) <= Energy(e, s, Charges(e, s, total)) ==> other == Charges(e, s, total)
  {
    PositiveSolvable(s);
    var q := Charges(e, s, total);
    var c := Multiplier(e, s, total);
    ChargesAreStationaryPoint(e, s, total);
    StationaryIsMinimum(e, s, other, q, c);
  }

  /** The charges meet both conditions of the Lagrangian: the total and the
      common multiplier. */
  lemma ChargesAreStationaryPoint(e: seq<real>, s: seq<real>, total: real)
    requires |e| == |s| > 0 && Solvable(s)
    ensures Sum(Charges(e, s, total)) == total
    ensures Stationary(e, s, Charges(e, s, total), Multiplier(e, s, total))
  {
    ChargesStationary(e, s, total);
    ChargesSumToTotal(e, s, total);
  }

  /** A single-atom molecule carries the whole charge, whatever e_0 and s_0. */
  lemma SingleAtomTakesTotal(e0: real, s0: real, total: real)
    requires s0 != 0.0
    ensures Solvable([s0])
    ensures Charges([e0], [s0], total) == [total]
  {
    var s := [s0];
    assert Reciprocal(s)[0] == 1.0 / s0;
    assert Sum(Reciprocal(s)) == 1.0 / s0 != 0.0;
    ChargesSumToTotal([e0], s, total);
    assert Sum(Charges([e0], s, total)) == Charges([e0], s, total)[0];
  }

  /** With one hardness c on every atom (c != 0), the formula is defined. */
  lemma UniformSolvable(s: seq<real>, c: real)
    requires |s| > 0 && c != 0.0
    requires forall i :: 0 <= i < |s| ==> s[i] == c
    ensures Solvable(s)
  {
    var inv := Reciprocal(s);
    assert forall i :: 0 <= i < |s| ==> inv[i] == 1.0 / c;
    SumConstant(inv, 1.0 / c);
    MulNonZero(|s| as real, 1.0 / c);
  }

  lemma MulNonZero(x: real, y: real)
    requires x != 0.0 && y != 0.0
    ensures x * y != 0.0
  {
  }

  /** Two atoms at the same multiplier and hardness c: their charges differ
      by the difference of their electronegativities over c, reversed. */
  lemma PairDifference(c: real, lambda: real, ei: real, si: real, qi: real, ej: real, sj: real, qj: real)
    requires c != 0.0 && si == c && sj == c
    requires ei + si * qi == lambda && ej + sj * qj == lambda
    ensures qi - qj == (ej - ei) / c
  {
    assert c * (qi - qj) == ej - ei;
  }

  /** With the same hardness c on every atom, the charges differ only
      through electronegativity: q_i - q_j = (e_j - e_i) / c, so for c > 0
      the more electronegative atom carries the lower charge; together with the
      total Q this fixes q_i = Q/N + (mean(e) - e_i) / c. */
  lemma UniformHardness(e: seq<real>, s: seq<real>, total: real, c: real)
    requires |e| == |s| > 0 && c != 0.0
    requires forall i :: 0 <= i < |s| ==> s[i] == c
    ensures Solvable(s)
    ensures forall i, j :: 0 <= i < |e| && 0 <= j < |e| ==>
      Charges(e, s, total)[i] - Charges(e, s, total)[j] == (e[j] - e[i]) / c
  {
    UniformSolvable(s, c);
    ChargesAreStationaryPoint(e, s, total);
    StationaryDifferences(e, s, Charges(e, s, total), Multiplier(e, s, total), c);
  }

  /** Any stationary point of a uniform-hardness system has the pairwise
      differences above. */
  lemma StationaryDifferences(e: seq<real>, s: seq<real>, q: seq<real>, lambda: real, c: real)
    requires |e| == |s| == |q| && c != 0.0
    requires forall i :: 0 <= i < |s| ==> s[i] == c
    requires Stationary(e, s, q, lambda)
    ensures forall i, j :: 0 <= i < |e| && 0 <= j < |e| ==> q[i] - q[j] == (e[j] - e[i]) / c
  {
    forall i, j | 0 <= i < |e| && 0 <= j < |e| ensures q[i] - q[j] == (e[j] - e[i]) / c {
      PairDifference(c, lambda, e[i], s[i], q[i], e[j], s[j], q[j]);
    }
  }

  /** N equal charges summing to Q are Q/N each. */
  lemma ShareOfTotal(q: seq<real>, total: real)
    requires |q| > 0 && Sum(q) == total
    requires forall i :: 0 <= i < |q| ==> q[i] == q[0]
    ensures q[0] == total / |q| as real
  {
    SumConstant(q, q[0]);
    DivideOut(|q| as real, q[0], total);
  }

  lemma DivideOut(n: real, v: real, total: real)
    requires n > 0.0 && n * v == total
    ensures v == total / n
  {
  }

  /** Atoms with one electronegativity and one hardness all get the same
      charge. */
  lemma IdenticalAtomsEqualCharges(e: seq<real>, s: seq<real>, total: real)
    requires |e| == |s| > 0 && s[0] != 0.0
    requires forall i :: 0 <= i < |s| ==> e[i] == e[0] && s[i] == s[0]
    ensures Solvable(s)
    ensures forall i :: 0 <= i < |e| ==> Charges(e, s, total)[i] == Charges(e, s, total)[0]
  {
    UniformHardness(e, s, total, s[0]);
    var q := Charges(e, s, total);
    forall i | 0 <= i < |q| ensures q[i] == q[0] {
      assert q[i] - q[0] == (e[0] - e[i]) / s[0];
    }
  }

  /** Atoms that are all alike share the charge equally: Q/N each. */
  lemma IdenticalAtomsShareEqually(e: seq<real>, s: seq<real>, total: real)
    requires |e| == |s| > 0 && s[0] != 0.0
    requires forall i :: 0 <= i < |s| ==> e[i] == e[0] && s[i] == s[0]
    ensures Solvable(s)
    ensures forall i :: 0 <= i < |e| ==> Charges(e, s, total)[i] == total / |e| as real
  {
    IdenticalAtomsEqualCharges(e, s, total);
    ChargesSumToTotal(e, s, total);
    ShareOfTotal(Charges(e, s, total), total);
  }

  /** e = [1, 1, 1], s = [2, 2, 2], Q = 3 gives one unit of charge per atom. */
  lemma ThreeIdenticalAtoms()
    ensures Solvable([2.0, 2.0, 2.0])
    ensures Charges([1.0, 1.0, 1.0], [2.0, 2.0, 2.0], 3.0) == [1.0, 1.0, 1.0]
  {
    IdenticalAtomsShareEqually([1.0, 1.0, 1.0], [2.0, 2.0, 2.0], 3.0);
  }
}
