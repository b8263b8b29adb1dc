/** The buckets a trend query cuts its window into. Times are milliseconds. */
module TrendBuckets {

  function Interval(range: nat, width: nat): nat
    requires width >= 1
  {
    if range / width < 1 then 1 else range / width
  }

  function CeilDiv(a: nat, b: nat): nat
    requires b >= 1
  {
    (a + b - 1) / b
  }

  /** GROUP BY ([start, end), interval): as many buckets as it takes to cover the window. */
  function BucketCount(range: nat, width: nat): nat
    requires width >= 1
  {
    CeilDiv(range, Interval(range, width))
  }

  function BucketStart(range: nat, width: nat, i: nat): nat
    requires width >= 1
  {
    i * Interval(range, width)
  }

  function BucketEnd(range: nat, width: nat, i: nat): nat
    requires width >= 1
  {
    if BucketStart(range, width, i + 1) < range then BucketStart(range, width, i + 1) else range
  }

  lemma MulMonotone(a: int, b: int, q: nat)
    requires a <= b
    ensures a * q <= b * q
  {
    assert b * q == a * q + (b - a) * q;
  }

  /** A quotient is the one number whose multiple lies within one divisor below. */
  lemma QuotientIs(n: nat, q: nat, c: nat)
    requires q >= 1 && c * q <= n < c * q + q
    ensures n / q == c
  {
    var d := n / q;
    assert n == q * d + n % q;
    if d < c {
      MulMonotone(d + 1, c, q);
    } else if d > c {
      MulMonotone(c + 1, d, q);
    }
  }

  lemma QuotientBounds(n: nat, q: nat)
    requires q >= 1
    ensures n / q * q <= n < n / q * q + q
  {
    assert n == q * (n / q) + n % q;
  }

  /** Rounding up: the one number of divisors that covers a, and no more than it takes. */
  lemma CeilIs(a: nat, q: nat, c: nat)
    requires q >= 1 && a <= c * q < a + q
    ensures CeilDiv(a, q) == c
  {
    QuotientIs(a + q - 1, q, c);
  }

  lemma CeilBounds(a: nat, q: nat)
    requires q >= 1
    ensures a <= CeilDiv(a, q) * q < a + q
    ensures CeilDiv(a, q) == 0 <==> a == 0
    ensures CeilDiv(a, q) <= a
  {
    QuotientBounds(a + q - 1, q);
    var c := CeilDiv(a, q);
    if c > a {
      MulMonotone(a + 1, c, q);
      MulMonotone(1, q, a);
    }
  }

  lemma CeilMonotone(a: nat, b: nat, q: nat)
    requires a <= b && q >= 1
    ensures CeilDiv(a, q) <= CeilDiv(b, q)
  {
    CeilBounds(a, q);
    CeilBounds(b, q);
    var x, y := CeilDiv(a, q), CeilDiv(b, q);
    if x > y {
      MulMonotone(y + 1, x, q);
    }
  }

  /** The count, exactly: the width, and as many more as the remainder of the floor division fills. */
  lemma CountIs(range: nat, width: nat)
    requires width >= 1
    ensures range < width ==> BucketCount(range, width) == range
    ensures range >= width ==>
              range / width >= 1 && BucketCount(range, width) == width + CeilDiv(range % width, range / width)
  {
    QuotientBounds(range, width);
    if range < width {
      QuotientIs(range, width, 0);
      CeilIs(range, 1, range);
    } else {
      var q, r := range / width, range % width;
      CeilBounds(r, q);
      var c := CeilDiv(r, q);
      assert (width + c) * q == width * q + c * q;
      assert range == width * q + r;
      CeilIs(range, q, width + c);
    }
  }

  /** A trend has at most the requested number of points exactly when the width divides the window or exceeds it. */
  lemma AtMostWidthIff(range: nat, width: nat)
    requires width >= 1
    ensures BucketCount(range, width) <= width <==> range % width == 0 || range < width
  {
    CountIs(range, width);
    if range >= width {
      CeilBounds(range % width, range / width);
    }
  }

  /** It is always fewer than twice the width. */
  lemma CountBound(range: nat, width: nat)
    requires width >= 1
    ensures range >= width ==>
              range / width >= 1 && BucketCount(range, width) <= width + CeilDiv(width - 1, range / width)
    ensures BucketCount(range, width) < 2 * width
  {
    CountIs(range, width);
    if range >= width {
      CeilMonotone(range % width, width - 1, range / width);
      CeilBounds(width - 1, range / width);
    }
  }

  /** Every moment of the window lies in exactly one bucket. */
  lemma BucketsPartition(range: nat, width: nat, t: nat, i: nat)
    requires width >= 1 && t < range
    ensures t / Interval(range, width) < BucketCount(range, width)
    ensures i < BucketCount(range, width) ==>
              (BucketStart(range, width, i) <= t < BucketEnd(range, width, i) <==> i == t / Interval(range, width))
  {
    var d, n := Interval(range, width), BucketCount(range, width);
    var k := t / d;
    QuotientBounds(t, d);
    CeilBounds(range, d);
    NextStart(range, width, i);
    hide Interval, CeilDiv;
    Spread(d, n, k, range, t);
    Locate(d, k, t, i);
  }

  /** The bucket of a moment inside the window is one of the n that cover it. */
  lemma Spread(d: nat, n: nat, k: nat, range: nat, t: nat)
    requires k * d <= t < range <= n * d
    ensures k < n
  {
    if k >= n {
      MulMonotone(n, k, d);
    }
  }

  lemma Locate(d: nat, k: nat, t: nat, i: nat)
    requires k * d <= t < k * d + d
    ensures i * d <= t < i * d + d <==> i == k
  {
    if i < k {
      MulMonotone(i + 1, k, d);
    } else if i > k {
      MulMonotone(k + 1, i, d);
    }
  }

  lemma NextStart(range: nat, width: nat, i: nat)
    requires width >= 1
    ensures BucketStart(range, width, i + 1) == BucketStart(range, width, i) + Interval(range, width)
  {
    hide Interval;
    var d := Interval(range, width);
    assert (i + 1) * d == i * d + d;
  }
}
