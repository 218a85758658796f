/**
  Range reduction by multiply and shift: a k-bit word x and a k-bit bound max give
  (x * max) >> k.  Here n is 2^k; core-mwc.h uses k = 8, 16, 32 and 64.
 */
module Reduction {
  import opened Arithmetic

  /** The product is taken in 2k bits, the result cast back to k bits. */
  function Reduce(n: nat, x: nat, max: nat): nat
    requires n > 0
  {
    ((x * max) % (n * n) / n) % n
  }

  /** The words that reduce to v. */
  function Preimages(n: nat, max: nat, v: nat): set<nat>
    requires n > 0
  {
    set x: nat | x < n && Reduce(n, x, max) == v
  }

  /** The least word whose multiple by max reaches v * n. */
  function Threshold(n: nat, max: nat, v: nat): int
    requires max > 0
  {
    (v * n + max - 1) / max
  }

  lemma MulBelow(x: nat, max: nat, n: nat)
    requires x < n && max < n
    ensures x * max < n * n
  {
    MulLe(x, max, n);
    MulLe(n, x, n - 1);
    assert n * (n - 1) == n * n - n;
  }

  lemma QuotientIs(a: int, n: nat, v: int)
    requires n > 0
    ensures a / n == v <==> v * n <= a < v * n + n
  {
    var q := a / n;
    assert a == n * q + a % n;
    if v < q {
      MulLe(n, v + 1, q);
    } else if q < v {
      MulLe(n, q + 1, v);
    }
  }

  lemma QuotientBelow(p: nat, n: nat, max: nat)
    requires n > 0 && p < max * n
    ensures p / n < max
  {
    if p / n >= max {
      MulLe(n, max, p / n);
    }
  }

  /** No bit is lost: the product fits, and the reduced value is below max. */
  lemma ReduceInRange(n: nat, x: nat, max: nat)
    requires x < n && max < n
    ensures Reduce(n, x, max) == x * max / n
    ensures max > 0 ==> Reduce(n, x, max) < max
    ensures max == 0 ==> Reduce(n, x, max) == 0
  {
    hide Reduce;
    MulBelow(x, max, n);
    ReduceIsQuotient(n, x, max, x * max);
    if max == 0 {
      assert x * max == 0;
      DivModUnique(0, 0, 0, n);
    } else {
      ProductBelow(x, max, n);
      QuotientBelow(x * max, n, max);
    }
  }

  lemma ProductBelow(x: nat, max: nat, n: nat)
    requires x < n && max > 0
    ensures x * max < max * n
  {
    MulLe(max, x, n - 1);
    assert max * (n - 1) == max * n - max;
  }

  lemma ReduceIsQuotient(n: nat, x: nat, max: nat, p: nat)
    requires p == x * max && p < n * n
    ensures Reduce(n, x, max) == p / n
  {
    SmallMod(p, n * n);
    QuotientBelow(p, n, n);
    SmallMod(p / n, n);
    ReduceSteps(n, x, max, p, p / n);
  }

  lemma ReduceSteps(n: nat, x: nat, max: nat, p: nat, q: nat)
    requires n > 0 && p == x * max && p % (n * n) == p && p / n == q && q % n == q
    ensures Reduce(n, x, max) == q
  {
  }

  lemma SmallMod(a: nat, m: nat)
    requires a < m
    ensures a % m == a
  {
  }

  lemma ThresholdIs(n: nat, max: nat, v: nat, x: nat)
    requires max > 0
    ensures v * n <= x * max <==> Threshold(n, max, v) <= x
  {
    var c := Threshold(n, max, v);
    QuotientIs(v * n + max - 1, max, c);
    if c <= x {
      MulLe(max, c, x);
    } else {
      MulLe(max, x + 1, c);
    }
  }

  /** The words that reduce to v are the interval between two thresholds. */
  lemma PreimagesAreInterval(n: nat, max: nat, v: nat, x: nat)
    requires 0 < max < n && x < n && v < max
    ensures x in Preimages(n, max, v) <==> Threshold(n, max, v) <= x < Threshold(n, max, v + 1)
  {
    ReduceInRange(n, x, max);
    QuotientIs(x * max, n, v);
    ThresholdIs(n, max, v, x);
    ThresholdIs(n, max, v + 1, x);
    assert (v + 1) * n == v * n + n;
  }

  lemma LastThreshold(n: nat, max: nat, v: nat)
    requires 0 < max && v < max
    ensures 0 <= Threshold(n, max, v) && Threshold(n, max, v + 1) <= n
  {
    MulLe(n, v + 1, max);
    assert max * (n + 1) == max * n + max;
    ThresholdBelow(n, max, v, v * n);
    ThresholdBelow(n, max, v + 1, (v + 1) * n);
  }

  lemma ThresholdBelow(n: nat, max: nat, v: nat, product: nat)
    requires max > 0 && product == v * n
    ensures 0 <= Threshold(n, max, v)
    ensures product + max - 1 < (n + 1) * max ==> Threshold(n, max, v) <= n
  {
    if product + max - 1 < (n + 1) * max {
      QuotientBelow(product + max - 1, max, n + 1);
    }
  }

  lemma {:induction false} IntervalSize(s: set<nat>, lo: int, hi: int)
    requires 0 <= lo <= hi
    requires forall x: nat :: x in s <==> lo <= x < hi
    ensures |s| == hi - lo
    decreases hi - lo
  {
    if lo == hi {
      assert s == {};
    } else {
      IntervalSize(s - {hi - 1}, lo, hi - 1);
    }
  }

  lemma ThresholdGap(n: nat, max: nat, v: nat)
    requires max > 0
    ensures var gap := Threshold(n, max, v + 1) - Threshold(n, max, v);
      gap == n / max || (n % max != 0 && gap == n / max + 1)
  {
    var q, r, c := n / max, n % max, Threshold(n, max, v);
    assert n == max * q + r;
    assert (v + 1) * n == v * n + n;
    QuotientIs(v * n + max - 1, max, c);
    assert (c + q) * max == c * max + max * q;
    assert (c + q + 1) * max == c * max + max * q + max;
    QuotientIs((v + 1) * n + max - 1, max, c + q);
    QuotientIs((v + 1) * n + max - 1, max, c + q + 1);
  }

  /** Every value below max has floor(n / max) or ceil(n / max) preimages among the n words. */
  lemma AsUnbiasedAsPossible(n: nat, max: nat, v: nat)
    requires 0 < max < n && v < max
    ensures |Preimages(n, max, v)| == n / max
      || (n % max != 0 && |Preimages(n, max, v)| == n / max + 1)
  {
    var s, lo, hi := Preimages(n, max, v), Threshold(n, max, v), Threshold(n, max, v + 1);
    ThresholdGap(n, max, v);
    LastThreshold(n, max, v);
    forall x: nat ensures x in s <==> lo <= x < hi {
      if x < n {
        PreimagesAreInterval(n, max, v, x);
      }
    }
    assert n / max >= 0;
    IntervalSize(s, lo, hi);
  }

  /** The reachable results are exactly 0..max-1; the "1..max (inclusive)" of the comments never includes max and always includes 0. */
  lemma ExactRange(n: nat, max: nat, v: nat)
    requires 0 < max < n
    ensures (exists x: nat :: x < n && Reduce(n, x, max) == v) <==> v < max
  {
    if v < max {
      AsUnbiasedAsPossible(n, max, v);
      assert n / max >= 1;
      var x :| x in Preimages(n, max, v);
      assert x < n && Reduce(n, x, max) == v;
    }
    if x: nat :| x < n && Reduce(n, x, max) == v {
      ReduceInRange(n, x, max);
    }
  }
}
