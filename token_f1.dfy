/** The F1 score of code/metrics.py: the harmonic mean of precision and
    recall over a count of shared items. `f1_score` counts shared tokens
    with a multiset intersection (Python's `Counter &`); `uic_bb_f1_score`
    ends with the same formula over a count of matched elements. Ratios are
    exact reals. */
module TokenF1 {
  import opened Seqs

  /** Precision times recall over their mean, for `common` shared items out
      of `predicted` and `reference` items; 0 when nothing is shared, which
      also covers an empty side, so nothing is ever divided by zero. */
  function F1FromCounts(common: nat, predicted: nat, reference: nat): (r: real)
    requires common <= predicted && common <= reference
    ensures common == 0 ==> r == 0.0
    ensures common > 0 ==> r == (2 * common) as real / (predicted + reference) as real
    ensures 0.0 <= r <= 1.0
    ensures r == 1.0 <==> 0 < common == predicted == reference
  {
    if common == 0 then 0.0
    else
      var precision := 1.0 * common as real / predicted as real;
      var recall := 1.0 * common as real / reference as real;
      HarmonicMean(common as real, predicted as real, reference as real);
      RatioAtMostOne(2 * common, predicted + reference);
      (2.0 * precision * recall) / (precision + recall)
  }

  /** 2PR/(P+R) with P = c/a and R = c/b simplifies to 2c/(a+b). */
  lemma HarmonicMean(c: real, a: real, b: real)
    requires 0.0 < c && 0.0 < a && 0.0 < b
    ensures (2.0 * (1.0 * c / a) * (1.0 * c / b)) / ((1.0 * c / a) + (1.0 * c / b)) == 2.0 * c / (a + b)
  {
    var p, q := 1.0 * c / a, 1.0 * c / b;
    assert p * a == c && q * b == c;
    assert p + q > 0.0;
    calc {
      (2.0 * p * q) * (a + b);
      2.0 * q * (p * a) + 2.0 * p * (q * b);
      2.0 * q * c + 2.0 * p * c;
      (2.0 * c) * (p + q);
    }
    QuotientsEqual(2.0 * p * q, p + q, 2.0 * c, a + b);
  }

  lemma QuotientsEqual(x: real, y: real, u: real, v: real)
    requires y != 0.0 && v != 0.0 && x * v == u * y
    ensures x / y == u / v
  {
    var l, r := x / y, u / v;
    assert l * y == x && r * v == u;
    assert l * y * v == r * v * y;
  }

  /** Number of items the two lists share, counted with multiplicity. */
  function Common<T(==)>(a: seq<T>, b: seq<T>): (n: nat)
    ensures n <= |a| && n <= |b|
  {
    SubMultisetSize(multiset(a) * multiset(b), multiset(a));
    SubMultisetSize(multiset(a) * multiset(b), multiset(b));
    |multiset(a) * multiset(b)|
  }

  /** A sub-multiset is no larger, and of equal size only when equal. */
  lemma SubMultisetSize<T>(x: multiset<T>, y: multiset<T>)
    requires x <= y
    ensures |x| <= |y|
    ensures |x| == |y| ==> x == y
  {
    var d := y - x;
    assert y == x + d;
    if |x| == |y| {
      assert |d| == 0;
      assert d == multiset{};
    }
  }

  /** `f1_score(prediction_tokens, ground_truth_tokens)`. */
  function F1Score<T(==)>(prediction: seq<T>, groundTruth: seq<T>): (r: real)
    ensures 0.0 <= r <= 1.0
    ensures r == 0.0 <==> multiset(prediction) * multiset(groundTruth) == multiset{}
    ensures r > 0.0 ==> r == (2 * Common(prediction, groundTruth)) as real / (|prediction| + |groundTruth|) as real
    ensures r == 1.0 <==> prediction != [] && multiset(prediction) == multiset(groundTruth)
  {
    CommonIsFull(prediction, groundTruth);
    F1FromCounts(Common(prediction, groundTruth), |prediction|, |groundTruth|)
  }

  /** Every item is shared exactly when the two lists are permutations of
      each other. */
  lemma CommonIsFull<T>(a: seq<T>, b: seq<T>)
    ensures Common(a, b) == |a| == |b| <==> multiset(a) == multiset(b)
  {
    var inter := multiset(a) * multiset(b);
    if Common(a, b) == |a| == |b| {
      SubMultisetSize(inter, multiset(a));
      SubMultisetSize(inter, multiset(b));
    }
    if multiset(a) == multiset(b) {
      assert inter == multiset(a);
      assert |multiset(b)| == |b|;
    }
  }

  /** The score does not depend on which list is the prediction. */
  lemma F1ScoreSymmetric<T>(a: seq<T>, b: seq<T>)
    ensures F1Score(a, b) == F1Score(b, a)
  {
    assert multiset(a) * multiset(b) == multiset(b) * multiset(a);
  }

  /** The score ignores the order of both lists. */
  lemma F1ScoreIgnoresOrder<T>(a: seq<T>, a': seq<T>, b: seq<T>, b': seq<T>)
    requires multiset(a) == multiset(a') && multiset(b) == multiset(b')
    ensures F1Score(a, b) == F1Score(a', b')
  {
    assert |a| == |multiset(a)| == |a'|;
    assert |b| == |multiset(b)| == |b'|;
  }
}
