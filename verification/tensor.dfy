/**
 * The few tensor primitives the charge readout is built from, over
 * one-dimensional vectors: `reduce_any`/`count_nonzero` on a boolean
 * vector, `tf.where` (the indices of the true entries), `tf.boolean_mask`
 * (the entries at those indices, in order) and `reduce_sum`.
 *
 * Every recursive definition peels the LAST element, so that the indices
 * it talks about are the indices of the whole vector.
 */
module Tensor {

  /** Number of true entries of a boolean vector. */
  function Count(mask: seq<bool>): (n: nat)
    ensures n <= |mask|
    ensures n == 0 <==> true !in mask
  {
    if |mask| == 0 then 0
    else Count(mask[..|mask| - 1]) + (if mask[|mask| - 1] then 1 else 0)
  }

  /** `tf.where` on a boolean vector: the positions of its true entries. */
  function Where(mask: seq<bool>): (idxs: seq<nat>)
    ensures |idxs| == Count(mask)
    ensures forall k :: 0 <= k < |idxs| ==> idxs[k] < |mask| && mask[idxs[k]]
  {
    if |mask| == 0 then []
    else
      var init := Where(mask[..|mask| - 1]);
      if mask[|mask| - 1] then init + [|mask| - 1] else init
  }

  /** `tf.boolean_mask` along the first axis: the entries of `xs` whose mask entry is true. */
  function BooleanMask<T>(xs: seq<T>, mask: seq<bool>): (kept: seq<T>)
    requires |xs| == |mask|
    ensures |kept| == Count(mask)
    ensures forall k :: 0 <= k < |kept| ==> kept[k] == xs[Where(mask)[k]]
  {
    if |xs| == 0 then []
    else
      var init := BooleanMask(xs[..|xs| - 1], mask[..|mask| - 1]);
      if mask[|mask| - 1] then init + [xs[|xs| - 1]] else init
  }

  /** Number of true entries strictly before position `i`: the position of
      entry `i` inside the masked vector. */
  function Rank(mask: seq<bool>, i: nat): (r: nat)
    requires i <= |mask|
    ensures r <= Count(mask)
    ensures i < |mask| && mask[i] ==> r < Count(mask)
  {
    CountPrefix(mask, i);
    Count(mask[..i])
  }

  /** `reduce_sum` of a real vector. */
  function Sum(xs: seq<real>): real
  {
    if |xs| == 0 then 0.0 else Sum(xs[..|xs| - 1]) + xs[|xs| - 1]
  }

  /** The vector c * x_i. */
  function ScaleBy(c: real, x: seq<real>): (r: seq<real>)
    ensures |r| == |x|
    ensures forall i :: 0 <= i < |r| ==> r[i] == c * x[i]
  {
    seq(|x|, i requires 0 <= i < |x| => c * x[i])
  }

  /** N copies of x. */
  function Fill(n: nat, x: real): (r: seq<real>)
    ensures |r| == n
    ensures forall i :: 0 <= i < n ==> r[i] == x
  {
    seq(n, i requires 0 <= i < n => x)
  }

  /** A prefix has no more true entries than the whole, and one fewer at
      least when the entry right after it is true. */
  lemma {:induction false} CountPrefix(mask: seq<bool>, i: nat)
    requires i <= |mask|
    ensures Count(mask[..i]) <= Count(mask)
    ensures i < |mask| && mask[i] ==> Count(mask[..i]) < Count(mask)
  {
    if i < |mask| {
      var n := |mask|;
      assert mask[..n][..n - 1] == mask[..n - 1];
      if i < n - 1 {
        assert mask[..n - 1][..i] == mask[..i];
        CountPrefix(mask[..n - 1], i);
      } else {
        assert mask[..i] == mask[..n - 1];
      }
    } else {
      assert mask[..i] == mask;
    }
  }

  /** `tf.where` lists the true positions in strictly increasing order. */
  lemma {:induction false} WhereIncreasing(mask: seq<bool>)
    ensures forall a, b :: 0 <= a < b < |Where(mask)| ==> Where(mask)[a] < Where(mask)[b]
  {
    if |mask| > 0 {
      WhereIncreasing(mask[..|mask| - 1]);
    }
  }

  /** Every true position appears in `tf.where`, at the index equal to its rank. */
  lemma {:induction false} WhereAtRank(mask: seq<bool>, i: nat)
    requires i < |mask| && mask[i]
    ensures Rank(mask, i) < Count(mask) && Where(mask)[Rank(mask, i)] == i
  {
    var n := |mask|;
    var init := mask[..n - 1];
    if i < n - 1 {
      assert init[..i] == mask[..i];
      WhereAtRank(init, i);
    } else {
      assert mask[..i] == init;
    }
  }

  /** The rank of the k-th position listed by `tf.where` is k. */
  lemma {:induction false} RankOfWhere(mask: seq<bool>, k: nat)
    requires k < Count(mask)
    ensures Rank(mask, Where(mask)[k]) == k
  {
    var n := |mask|;
    var init := mask[..n - 1];
    var i := Where(mask)[k];
    if k < Count(init) {
      assert i == Where(init)[k];
      assert init[..i] == mask[..i];
      RankOfWhere(init, k);
    } else {
      assert i == n - 1;
      assert mask[..i] == init;
    }
  }

  /** Both facts above, for every position and every index at once. */
  lemma WhereInverse(mask: seq<bool>)
    ensures forall i :: 0 <= i < |mask| && mask[i] ==>
      Rank(mask, i) < Count(mask) && Where(mask)[Rank(mask, i)] == i
    ensures forall k :: 0 <= k < Count(mask) ==> Rank(mask, Where(mask)[k]) == k
  {
    forall i | 0 <= i < |mask| && mask[i]
      ensures Rank(mask, i) < Count(mask) && Where(mask)[Rank(mask, i)] == i
    {
      WhereAtRank(mask, i);
    }
    forall k | 0 <= k < Count(mask) ensures Rank(mask, Where(mask)[k]) == k {
      RankOfWhere(mask, k);
    }
  }

  /** The masked vector holds entry `i` at the entry's rank. */
  lemma BooleanMaskAt<T>(xs: seq<T>, mask: seq<bool>, i: nat)
    requires |xs| == |mask| && i < |mask| && mask[i]
    ensures Rank(mask, i) < |BooleanMask(xs, mask)|
    ensures BooleanMask(xs, mask)[Rank(mask, i)] == xs[i]
  {
    WhereInverse(mask);
  }

  /** Masking keeps only entries of the original vector. */
  lemma BooleanMaskSubset<T>(xs: seq<T>, mask: seq<bool>)
    requires |xs| == |mask|
    ensures forall x :: x in BooleanMask(xs, mask) ==> x in xs
  {
    forall x | x in BooleanMask(xs, mask) ensures x in xs {
      var k :| 0 <= k < |BooleanMask(xs, mask)| && BooleanMask(xs, mask)[k] == x;
      assert xs[Where(mask)[k]] == x;
    }
  }

  /** An all-true mask keeps the whole vector. */
  lemma {:induction false} BooleanMaskAllTrue<T>(xs: seq<T>, mask: seq<bool>)
    requires |xs| == |mask| && false !in mask
    ensures BooleanMask(xs, mask) == xs
  {
    if |xs| > 0 {
      var n := |xs|;
      var init := xs[..n - 1];
      calc {
        BooleanMask(xs, mask);
        { assert mask[n - 1]; }
        BooleanMask(init, mask[..n - 1]) + [xs[n - 1]];
        { assert false !in mask[..n - 1];
          BooleanMaskAllTrue(init, mask[..n - 1]); }
        init + [xs[n - 1]];
        xs;
      }
    }
  }

  /** Summing x_i - y_i entrywise. */
  lemma {:induction false} SumDifference(x: seq<real>, y: seq<real>, z: seq<real>)
    requires |x| == |y| == |z|
    requires forall i :: 0 <= i < |z| ==> z[i] == x[i] - y[i]
    ensures Sum(z) == Sum(x) - Sum(y)
  {
    if |z| > 0 {
      var n := |z|;
      SumDifference(x[..n - 1], y[..n - 1], z[..n - 1]);
    }
  }

  /** Summing c * x_i entrywise: `reduce_sum` commutes with scaling. */
  lemma {:induction false} SumScaled(c: real, x: seq<real>, z: seq<real>)
    requires |x| == |z|
    requires forall i :: 0 <= i < |z| ==> z[i] == c * x[i]
    ensures Sum(z) == c * Sum(x)
  {
    if |z| > 0 {
      var n := |z|;
      SumScaled(c, x[..n - 1], z[..n - 1]);
      Distribute(c, Sum(x[..n - 1]), x[n - 1]);
    }
  }

  lemma Distribute(c: real, u: real, v: real)
    ensures c * (u + v) == c * u + c * v
  {
  }

  /** The sum of a vector of non-negative entries is non-negative, and is
      zero only when every entry is. */
  lemma {:induction false} SumNonNegative(xs: seq<real>)
    requires forall i :: 0 <= i < |xs| ==> xs[i] >= 0.0
    ensures Sum(xs) >= 0.0
    ensures Sum(xs) == 0.0 ==> forall i :: 0 <= i < |xs| ==> xs[i] == 0.0
  {
    if |xs| > 0 {
      SumNonNegative(xs[..|xs| - 1]);
    }
  }

  /** A vector of N copies of `c` sums to N*c. */
  lemma {:induction false} SumConstant(xs: seq<real>, c: real)
    requires forall i :: 0 <= i < |xs| ==> xs[i] == c
    ensures Sum(xs) == |xs| as real * c
  {
    if |xs| > 0 {
      SumConstant(xs[..|xs| - 1], c);
    }
  }
}
