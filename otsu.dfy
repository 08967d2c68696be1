/**
 * Otsu threshold selection (meancoastline.js:140-168).
 *
 * The histogram of the index image is given as bucket counts and bucket
 * means. Every split `i` in 1..size puts buckets [0, i) in class A and the
 * rest in class B and is scored by the between-class sum of squares; the
 * threshold is the mean of the last bucket of the best-scoring class A.
 *
 * Arithmetic is exact (`real`). The engine's `multiply`, `pow(2)` and
 * `divide` are the functions Multiply, Square and Divide below; a division
 * by zero, which the script leaves to the engine, yields the parameter `z`
 * wherever it happens.
 */
module Otsu {
  import opened Wrappers

  datatype Histogram = Histogram(counts: seq<nat>, means: seq<real>)

  datatype OtsuError = EmptyHistogram

  /** One count per bucket mean, as the histogram reducer produces them. */
  predicate Paired(h: Histogram) {
    |h.counts| == |h.means|
  }

  predicate StrictlyAscending(m: seq<real>) {
    forall i, j :: 0 <= i < j < |m| ==> m[i] < m[j]
  }

  // ---------------------------------------------------------------------
  // The engine's arithmetic

  function Multiply(x: real, y: real): real {
    x * y
  }

  function Square(x: real): real {
    x * x
  }

  /** `x.divide(y)`, with `z` standing for whatever the engine yields when `y` is zero. */
  function Divide(x: real, y: real, z: real): real {
    if y == 0.0 then z else x / y
  }

  /** `reduce(ee.Reducer.sum(), [0])` over counts. */
  function Sum(c: seq<nat>): nat {
    if c == [] then 0 else c[0] + Sum(c[1..])
  }

  /** `means.multiply(counts).reduce(ee.Reducer.sum(), [0])`. */
  function Dot(m: seq<real>, c: seq<nat>): real
    requires |m| == |c|
  {
    if c == [] then 0.0 else Multiply(m[0], c[0] as real) + Dot(m[1..], c[1..])
  }

  // ---------------------------------------------------------------------
  // The statistics of a split

  /** `total`. */
  function Total(h: Histogram): real
    requires Paired(h)
  {
    Sum(h.counts) as real
  }

  /** `sum`. */
  function WeightedSum(h: Histogram): real
    requires Paired(h)
  {
    Dot(h.means, h.counts)
  }

  /** `mean`. */
  function GlobalMean(h: Histogram, z: real): real
    requires Paired(h)
  {
    Divide(WeightedSum(h), Total(h), z)
  }

  /** `aCount` of split `i`: the counts of buckets [0, i). */
  function ACount(h: Histogram, i: nat): real
    requires Paired(h) && i <= |h.counts|
  {
    Sum(h.counts[..i]) as real
  }

  /** The weighted sum of buckets [0, i). */
  function ASum(h: Histogram, i: nat): real
    requires Paired(h) && i <= |h.counts|
  {
    Dot(h.means[..i], h.counts[..i])
  }

  /** `aMean` of split `i`. */
  function AMean(h: Histogram, i: nat, z: real): real
    requires Paired(h) && i <= |h.counts|
  {
    Divide(ASum(h, i), ACount(h, i), z)
  }

  /** `bCount` of split `i`: what is left of the total. */
  function BCount(h: Histogram, i: nat): real
    requires Paired(h) && i <= |h.counts|
  {
    Total(h) - ACount(h, i)
  }

  /** `bMean` of split `i`: what is left of the weighted sum, over `bCount`. */
  function BMean(h: Histogram, i: nat, z: real): real
    requires Paired(h) && i <= |h.counts|
  {
    Divide(WeightedSum(h) - Multiply(ACount(h, i), AMean(h, i, z)), BCount(h, i), z)
  }

  /** The distance between the two class means of split `i`. */
  function Gap(h: Histogram, i: nat, z: real): real
    requires Paired(h) && i <= |h.counts|
  {
    AMean(h, i, z) - BMean(h, i, z)
  }

  /**
   * The between-class sum of squares of two classes of `a` and `b` pixels
   * with means `ma` and `mb`, around the global mean `m`.
   */
  function Score(a: real, ma: real, b: real, mb: real, m: real): real {
    Multiply(a, Square(ma - m)) + Multiply(b, Square(mb - m))
  }

  /** The score of split `i` (the `bss` list entry for `i`). */
  function Bss(h: Histogram, i: nat, z: real): real
    requires Paired(h) && 1 <= i <= |h.counts|
  {
    Score(ACount(h, i), AMean(h, i, z), BCount(h, i), BMean(h, i, z), GlobalMean(h, z))
  }

  // ---------------------------------------------------------------------
  // Selection

  /** The `bss` list: one score per split 1..size, entry `j` for split `j + 1`. */
  function Scores(h: Histogram, z: real): (s: seq<real>)
    requires Paired(h)
    ensures |s| == |h.means|
    ensures forall j :: 0 <= j < |s| ==> s[j] == Bss(h, j + 1, z)
  {
    seq(|h.means|, j requires 0 <= j < |h.means| => Bss(h, j + 1, z))
  }

  /** The position a `sort` by score followed by `get([-1])` ends on: a largest score. */
  function ArgMax(s: seq<real>): (k: nat)
    requires |s| > 0
    ensures k < |s|
    ensures forall j :: 0 <= j < |s| ==> s[j] <= s[k]
  {
    if |s| == 1 then 0
    else
      var k' := ArgMax(s[..|s| - 1]);
      if s[|s| - 1] >= s[k'] then |s| - 1 else k'
  }

  /**
   * `t` is the mean of a bucket `k` whose split (class A = buckets [0, k])
   * scores at least as well as every one of the `size` splits.
   */
  ghost predicate IsOtsuThreshold(h: Histogram, z: real, t: real)
    requires Paired(h)
  {
    exists k :: 0 <= k < |h.means| && t == h.means[k] &&
      forall i :: 1 <= i <= |h.means| ==> Bss(h, i, z) <= Bss(h, k + 1, z)
  }

  /** `otsu(histogram)`: an empty histogram has no bucket mean to return. */
  function Otsu(h: Histogram, z: real): (r: Result<real, OtsuError>)
    requires Paired(h)
    ensures |h.means| == 0 <==> r == Failure(EmptyHistogram)
    ensures r.Success? ==> IsOtsuThreshold(h, z, r.value)
  {
    if |h.means| == 0 then Failure(EmptyHistogram)
    else
      var scores := Scores(h, z);
      var k := ArgMax(scores);
      assert forall i :: 1 <= i <= |h.means| ==> Bss(h, i, z) == scores[i - 1] <= Bss(h, k + 1, z);
      Success(h.means[k])
  }

  /** A one-bucket histogram yields that bucket's mean. */
  lemma OneBucket(count: nat, mean: real, z: real)
    ensures Otsu(Histogram([count], [mean]), z) == Success(mean)
  {
  }

  // ---------------------------------------------------------------------
  // Sums over split sequences

  lemma {:induction false} SumSplit(c: seq<nat>, i: nat)
    requires i <= |c|
    ensures Sum(c) == Sum(c[..i]) + Sum(c[i..])
  {
    if i == 0 {
      assert c[..0] == [] && c[0..] == c;
    } else {
      SumSplit(c[1..], i - 1);
      assert c[..i][1..] == c[1..][..i - 1];
      assert c[i..] == c[1..][i - 1..];
    }
  }

  lemma {:induction false} DotSplit(m: seq<real>, c: seq<nat>, i: nat)
    requires |m| == |c| && i <= |c|
    ensures Dot(m, c) == Dot(m[..i], c[..i]) + Dot(m[i..], c[i..])
  {
    if i == 0 {
      assert c[..0] == [] && c[0..] == c && m[0..] == m;
    } else {
      DotSplit(m[1..], c[1..], i - 1);
      assert c[..i][1..] == c[1..][..i - 1];
      assert m[..i][1..] == m[1..][..i - 1];
      assert c[i..] == c[1..][i - 1..];
      assert m[i..] == m[1..][i - 1..];
    }
  }

  /** Buckets holding no pixels add nothing to the weighted sum. */
  lemma {:induction false} EmptyDot(m: seq<real>, c: seq<nat>)
    requires |m| == |c| && Sum(c) == 0
    ensures Dot(m, c) == 0.0
  {
    if c != [] {
      MultiplyByZero(m[0], c[0] as real);
      EmptyDot(m[1..], c[1..]);
    }
  }

  lemma {:induction false} ZeroSum(c: seq<nat>)
    requires forall j :: 0 <= j < |c| ==> c[j] == 0
    ensures Sum(c) == 0
  {
    if c != [] {
      ZeroSum(c[1..]);
    }
  }

  /** A histogram whose mass sits in the one bucket `r`. */
  lemma {:induction false} SingleBucketSums(m: seq<real>, c: seq<nat>, r: nat)
    requires |m| == |c| && r < |c|
    requires forall j :: 0 <= j < |c| && j != r ==> c[j] == 0
    ensures Sum(c) == c[r]
    ensures Dot(m, c) == Multiply(m[r], c[r] as real)
  {
    if r == 0 {
      ZeroSum(c[1..]);
      EmptyDot(m[1..], c[1..]);
    } else {
      MultiplyByZero(m[0], c[0] as real);
      SingleBucketSums(m[1..], c[1..], r - 1);
    }
  }

  // ---------------------------------------------------------------------
  // Properties of the splits

  /** Split `i` partitions the buckets: A holds [0, i), B holds the rest. */
  lemma SplitPartition(h: Histogram, i: nat)
    requires Paired(h) && i <= |h.counts|
    ensures BCount(h, i) == Sum(h.counts[i..]) as real
    ensures BCount(h, i) >= 0.0
    ensures ACount(h, i) + BCount(h, i) == Total(h)
    ensures ACount(h, i) == Sum(h.counts[..i]) as real
  {
    SumSplit(h.counts, i);
  }

  /**
   * The class means are the weighted means of their own buckets: what the
   * script leaves for class B is exactly the weighted sum of buckets
   * [i, size), and when both classes hold pixels they recombine into the
   * weighted sum.
   */
  lemma ClassMeans(h: Histogram, i: nat, z: real)
    requires Paired(h) && i <= |h.counts|
    ensures ACount(h, i) > 0.0 ==> Multiply(ACount(h, i), AMean(h, i, z)) == ASum(h, i)
    ensures WeightedSum(h) - Multiply(ACount(h, i), AMean(h, i, z)) == Dot(h.means[i..], h.counts[i..])
    ensures BCount(h, i) > 0.0 ==>
      Multiply(BCount(h, i), BMean(h, i, z)) == Dot(h.means[i..], h.counts[i..])
    ensures ACount(h, i) > 0.0 && BCount(h, i) > 0.0 ==>
      Multiply(ACount(h, i), AMean(h, i, z)) + Multiply(BCount(h, i), BMean(h, i, z)) == WeightedSum(h)
  {
    DotSplit(h.means, h.counts, i);
    if ACount(h, i) == 0.0 {
      EmptyDot(h.means[..i], h.counts[..i]);
      MultiplyByZero(AMean(h, i, z), ACount(h, i));
    } else {
      MultiplyDivide(ASum(h, i), ACount(h, i), z);
    }
    if BCount(h, i) > 0.0 {
      MultiplyDivide(WeightedSum(h) - Multiply(ACount(h, i), AMean(h, i, z)), BCount(h, i), z);
    }
  }

  /** With pixels on both sides, the global mean is the count-weighted mean of the class means. */
  lemma Recombine(h: Histogram, i: nat, z: real)
    requires Paired(h) && i <= |h.counts|
    requires ACount(h, i) > 0.0 && BCount(h, i) > 0.0
    ensures Total(h) == ACount(h, i) + BCount(h, i)
    ensures Multiply(Total(h), GlobalMean(h, z)) ==
      Multiply(ACount(h, i), AMean(h, i, z)) + Multiply(BCount(h, i), BMean(h, i, z))
  {
    SplitPartition(h, i);
    ClassMeans(h, i, z);
    MultiplyDivide(WeightedSum(h), Total(h), z);
  }

  /** Every split scores at least zero. */
  lemma ScoreNonNegative(h: Histogram, i: nat, z: real)
    requires Paired(h) && 1 <= i <= |h.counts|
    ensures Bss(h, i, z) >= 0.0
  {
    SplitPartition(h, i);
    ScoreAtLeastZero(ACount(h, i), AMean(h, i, z), BCount(h, i), BMean(h, i, z), GlobalMean(h, z));
  }

  /**
   * With pixels on both sides, the score is Otsu's between-class form
   * nA * nB * (meanA - meanB)^2 / total, whatever `z` is (stated here
   * multiplied out by the total).
   */
  lemma BetweenClassForm(h: Histogram, i: nat, z: real)
    requires Paired(h) && 1 <= i <= |h.counts|
    requires ACount(h, i) > 0.0 && BCount(h, i) > 0.0
    ensures Multiply(Bss(h, i, z), Total(h)) ==
      Multiply(Multiply(ACount(h, i), BCount(h, i)), Square(Gap(h, i, z)))
  {
    Recombine(h, i, z);
    ScoreBetweenClasses(ACount(h, i), AMean(h, i, z), BCount(h, i), BMean(h, i, z), GlobalMean(h, z),
      Total(h), Gap(h, i, z));
  }

  /** A split that leaves one class empty scores zero, whatever `z` is. */
  lemma EmptyClassScoresZero(h: Histogram, i: nat, z: real)
    requires Paired(h) && 1 <= i <= |h.counts|
    requires ACount(h, i) == 0.0 || BCount(h, i) == 0.0
    ensures Bss(h, i, z) == 0.0
  {
    SplitPartition(h, i);
    if ACount(h, i) == 0.0 {
      MultiplyByZero(AMean(h, i, z), ACount(h, i));
      assert WeightedSum(h) - Multiply(ACount(h, i), AMean(h, i, z)) == WeightedSum(h);
      assert BCount(h, i) == Total(h);
      assert BMean(h, i, z) == GlobalMean(h, z);
    } else {
      DotSplit(h.means, h.counts, i);
      EmptyDot(h.means[i..], h.counts[i..]);
      assert ASum(h, i) == WeightedSum(h);
      assert ACount(h, i) == Total(h);
      assert AMean(h, i, z) == GlobalMean(h, z);
    }
    ScoreOneSided(ACount(h, i), AMean(h, i, z), BCount(h, i), BMean(h, i, z), GlobalMean(h, z));
  }

  /** The last split puts every bucket in class A and scores zero. */
  lemma LastSplitScoresZero(h: Histogram, z: real)
    requires Paired(h) && |h.counts| > 0
    ensures BCount(h, |h.counts|) == 0.0
    ensures Bss(h, |h.counts|, z) == 0.0
  {
    SplitPartition(h, |h.counts|);
    EmptyClassScoresZero(h, |h.counts|, z);
  }

  /**
   * With all mass in two buckets p < q of a strictly ascending histogram,
   * the threshold is the mean of a bucket in [p, q): at least the lower
   * cluster's mean and below the upper cluster's.
   */
  lemma TwoClusters(h: Histogram, z: real, p: nat, q: nat, t: real)
    requires Paired(h) && StrictlyAscending(h.means)
    requires p < q < |h.counts|
    requires h.counts[p] > 0 && h.counts[q] > 0
    requires forall j :: 0 <= j < |h.counts| && j != p && j != q ==> h.counts[j] == 0
    requires Otsu(h, z) == Success(t)
    ensures h.means[p] <= t < h.means[q]
  {
    var k :| 0 <= k < |h.means| && t == h.means[k] &&
      forall i :: 1 <= i <= |h.means| ==> Bss(h, i, z) <= Bss(h, k + 1, z);
    assert p <= k < q by {
      SeparatingSplitScores(h, z, p, q);
      assert Bss(h, p + 1, z) <= Bss(h, k + 1, z);
      if k + 1 <= p || k + 1 > q {
        OneSidedSplitsScoreZero(h, z, p, q, k + 1);
        assert false;
      }
    }
    assert k == p || h.means[p] < h.means[k];
    assert h.means[k] < h.means[q];
  }

  /** Split p + 1 puts one cluster on each side and scores above zero. */
  lemma SeparatingSplitScores(h: Histogram, z: real, p: nat, q: nat)
    requires Paired(h) && p < q < |h.counts| && h.means[p] != h.means[q]
    requires h.counts[p] > 0 && h.counts[q] > 0
    requires forall j :: 0 <= j < |h.counts| && j != p && j != q ==> h.counts[j] == 0
    ensures Bss(h, p + 1, z) > 0.0
  {
    var s := p + 1;
    SplitPartition(h, s);
    var am, ac := h.means[..s], h.counts[..s];
    var bm, bc := h.means[s..], h.counts[s..];
    SingleBucketSums(am, ac, p);
    SingleBucketSums(bm, bc, q - s);
    assert ACount(h, s) == ac[p] as real > 0.0;
    assert BCount(h, s) == bc[q - s] as real > 0.0;
    assert AMean(h, s, z) == h.means[p] by {
      DivideProduct(am[p], ac[p] as real, z);
    }
    assert BMean(h, s, z) == h.means[q] by {
      ClassMeans(h, s, z);
      DivideProduct(bm[q - s], bc[q - s] as real, z);
    }
    BetweenClassForm(h, s, z);
    PositiveBetweenClass(ACount(h, s), BCount(h, s), Gap(h, s, z));
    PositiveFactor(Bss(h, s, z), Total(h), Multiply(Multiply(ACount(h, s), BCount(h, s)), Square(Gap(h, s, z))));
  }

  /** A split that keeps both clusters on the same side scores zero. */
  lemma OneSidedSplitsScoreZero(h: Histogram, z: real, p: nat, q: nat, i: nat)
    requires Paired(h) && p < q && 1 <= i <= |h.counts|
    requires forall j :: 0 <= j < |h.counts| && j != p && j != q ==> h.counts[j] == 0
    requires i <= p || i > q
    ensures Bss(h, i, z) == 0.0
  {
    if i <= p {
      ZeroSum(h.counts[..i]);
    } else {
      ZeroSum(h.counts[i..]);
      SplitPartition(h, i);
    }
    EmptyClassScoresZero(h, i, z);
  }

  /**
   * With all mass in the one bucket r of several, every split scores zero,
   * so the mean of every bucket, occupied or not, is an Otsu threshold.
   */
  lemma OneOccupiedBucket(h: Histogram, z: real, r: nat)
    requires Paired(h) && r < |h.counts|
    requires forall j :: 0 <= j < |h.counts| && j != r ==> h.counts[j] == 0
    ensures forall i :: 1 <= i <= |h.counts| ==> Bss(h, i, z) == 0.0
    ensures forall k :: 0 <= k < |h.means| ==> IsOtsuThreshold(h, z, h.means[k])
  {
    forall i | 1 <= i <= |h.counts|
      ensures Bss(h, i, z) == 0.0
    {
      if i <= r {
        ZeroSum(h.counts[..i]);
      } else {
        ZeroSum(h.counts[i..]);
        SplitPartition(h, i);
      }
      EmptyClassScoresZero(h, i, z);
    }
    forall k | 0 <= k < |h.means|
      ensures IsOtsuThreshold(h, z, h.means[k])
    {
      assert forall i :: 1 <= i <= |h.means| ==> Bss(h, i, z) <= Bss(h, k + 1, z);
    }
  }

  // ---------------------------------------------------------------------
  // The algebra of scores, on plain reals

  lemma ScoreAtLeastZero(a: real, ma: real, b: real, mb: real, m: real)
    requires a >= 0.0 && b >= 0.0
    ensures Score(a, ma, b, mb, m) >= 0.0
  {
    SquareAtLeastZero(ma - m);
    SquareAtLeastZero(mb - m);
    MultiplyAtLeastZero(a, Square(ma - m));
    MultiplyAtLeastZero(b, Square(mb - m));
  }

  lemma ScoreOneSided(a: real, ma: real, b: real, mb: real, m: real)
    requires (a == 0.0 && mb == m) || (b == 0.0 && ma == m)
    ensures Score(a, ma, b, mb, m) == 0.0
  {
  }

  /** Otsu's between-class form of the score, when both classes hold pixels. */
  lemma ScoreBetweenClasses(a: real, ma: real, b: real, mb: real, m: real, n: real, d: real)
    requires a > 0.0 && b > 0.0 && n == a + b && d == ma - mb
    requires Multiply(n, m) == Multiply(a, ma) + Multiply(b, mb)
    ensures Multiply(Score(a, ma, b, mb, m), n) == Multiply(Multiply(a, b), Square(d))
  {
    var da, db := ma - m, mb - m;
    assert n * m == a * ma + b * mb;
    assert da * n == b * d by {
      calc {
        da * n;
        ma * n - m * n;
        ma * a + ma * b - (a * ma + b * mb);
        b * d;
      }
    }
    assert db * n == - (a * d) by {
      calc {
        db * n;
        mb * n - m * n;
        mb * a + mb * b - (a * ma + b * mb);
        - (a * d);
      }
    }
    var lhs := a * (da * da) + b * (db * db);
    assert lhs * (n * n) == (a * b * (d * d)) * n by {
      calc {
        lhs * (n * n);
        a * (da * n) * (da * n) + b * (db * n) * (db * n);
        a * (b * d) * (b * d) + b * (a * d) * (a * d);
        (a * b * (d * d)) * (b + a);
      }
    }
    CancelFactor(lhs * n, a * b * (d * d), n);
    assert Score(a, ma, b, mb, m) == lhs;
  }

  lemma PositiveBetweenClass(a: real, b: real, d: real)
    requires a > 0.0 && b > 0.0 && d != 0.0
    ensures Multiply(Multiply(a, b), Square(d)) > 0.0
  {
    MultiplyPositive(a, b);
    assert Square(d) > 0.0 by {
      if d < 0.0 {
        MultiplyPositive(-d, -d);
        assert d * d == (-d) * (-d);
      } else {
        MultiplyPositive(d, d);
      }
    }
    MultiplyPositive(Multiply(a, b), Square(d));
  }

  lemma MultiplyPositive(x: real, y: real)
    requires x > 0.0 && y > 0.0
    ensures Multiply(x, y) > 0.0
  {
  }

  lemma PositiveFactor(x: real, n: real, y: real)
    requires n > 0.0 && y > 0.0 && Multiply(x, n) == y
    ensures x > 0.0
  {
  }

  lemma SquareAtLeastZero(x: real)
    ensures Square(x) >= 0.0
  {
  }

  lemma MultiplyAtLeastZero(x: real, y: real)
    requires x >= 0.0 && y >= 0.0
    ensures Multiply(x, y) >= 0.0
  {
  }

  lemma MultiplyByZero(x: real, zero: real)
    requires zero == 0.0
    ensures Multiply(x, zero) == 0.0 && Multiply(zero, x) == 0.0
  {
  }

  lemma MultiplyDivide(x: real, y: real, z: real)
    requires y != 0.0
    ensures Multiply(y, Divide(x, y, z)) == x
  {
  }

  lemma DivideProduct(x: real, y: real, z: real)
    requires y != 0.0
    ensures Divide(Multiply(x, y), y, z) == x
  {
  }

  lemma CancelFactor(x: real, y: real, c: real)
    requires c != 0.0 && x * c == y * c
    ensures x == y
  {
  }
}
