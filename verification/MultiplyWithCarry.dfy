/**
  The two multiply-with-carry registers behind stress_mwc32.  A register x with
  multiplier a steps to a * (x & 65535) + (x >> 16) in 32-bit arithmetic.
 */
module MultiplyWithCarry {
  import opened Arithmetic

  const HALF: nat := 0x1_0000
  const MULTIPLIER_Z: nat := 36969
  const MULTIPLIER_W: nat := 18000
  const SEED_W: nat := 521288629
  const SEED_Z: nat := 362436069

  /** Multipliers of at most 16 bits, as both of the generator's are. */
  type Multiplier = a: nat | 1 < a < HALF witness 2

  /** The modulus the register works to. */
  function Modulus(a: Multiplier): (m: nat)
    ensures m > 0
  {
    a * HALF - 1
  }

  function Step(a: Multiplier, x: nat): nat {
    (a * (x % HALF) + x / HALF) % WORD32
  }

  function After(a: Multiplier, x: nat, n: nat): nat {
    if n == 0 then x else Step(a, After(a, x, n - 1))
  }

  /** The step undone, on 0..Modulus. */
  function Back(a: Multiplier, y: nat): int {
    y / a + HALF * (y % a)
  }

  function Pow(b: nat, n: nat): nat {
    if n == 0 then 1 else b * Pow(b, n - 1)
  }

  // ---------- no overflow, and the range entered ----------

  /** The 32-bit product and sum never overflow. */
  lemma NoOverflow(a: Multiplier, x: nat)
    requires x < WORD32
    ensures a * (x % HALF) + x / HALF < WORD32
    ensures Step(a, x) == a * (x % HALF) + x / HALF
  {
    MulLe(a, x % HALF, HALF - 1);
  }

  lemma {:induction false} AfterIsWord(a: Multiplier, x: nat, n: nat)
    requires x < WORD32
    ensures After(a, x, n) < WORD32
  {
  }

  lemma StepKeepsRange(a: Multiplier, x: nat)
    requires x <= Modulus(a)
    ensures Step(a, x) <= Modulus(a)
  {
    NoOverflow(a, x);
    MulLe(a, x % HALF, HALF - 1);
    assert x / HALF <= a - 1;
  }

  /** Any seed is inside 0..Modulus after two steps. */
  lemma InRangeAfterTwo(a: Multiplier, x: nat)
    requires x < WORD32
    ensures After(a, x, 2) <= Modulus(a)
  {
    var y := Step(a, x);
    NoOverflow(a, x);
    MulLe(a, x % HALF, HALF - 1);
    SecondStep(a, y);
    hide Step;
    assert After(a, x, 2) == Step(a, After(a, x, 1));
    assert After(a, x, 1) == Step(a, After(a, x, 0));
  }

  lemma SecondStep(a: Multiplier, y: nat)
    requires y < WORD32 && y <= a * HALF + HALF - 1 - a
    ensures Step(a, y) <= Modulus(a)
  {
    NoOverflow(a, y);
    if y / HALF < a {
      MulLe(a, y % HALF, HALF - 1);
    } else {
      DivModUnique(y, a, y - a * HALF, HALF);
      MulLe(a, y % HALF, HALF - 2);
    }
  }

  // ---------- the congruence ----------

  /** One step divides by 2^16 modulo a * 2^16 - 1. */
  lemma StepCongruence(a: Multiplier, x: nat)
    requires x < WORD32
    ensures HALF * Step(a, x) == x + Modulus(a) * (x % HALF)
  {
    NoOverflow(a, x);
    assert x == HALF * (x / HALF) + x % HALF;
  }

  lemma Rearrange(p: nat, y: nat, m: nat, k: nat, s: nat)
    requires HALF * s == y + m * k
    ensures (HALF * p) * s == p * y + m * (p * k)
  {
    assert (HALF * p) * s == p * (HALF * s);
    assert p * (y + m * k) == p * y + p * (m * k);
    assert p * (m * k) == m * (p * k);
  }

  /** 2^(16 n) * x_n and x_0 agree modulo a * 2^16 - 1, for every n. */
  lemma {:induction false} Congruence(a: Multiplier, x: nat, n: nat)
    requires x < WORD32
    ensures (Pow(HALF, n) * After(a, x, n)) % Modulus(a) == x % Modulus(a)
  {
    if n > 0 {
      var y, p, m := After(a, x, n - 1), Pow(HALF, n - 1), Modulus(a);
      Congruence(a, x, n - 1);
      AfterIsWord(a, x, n - 1);
      hide Step, Modulus;
      StepCongruence(a, y);
      Rearrange(p, y, m, y % HALF, Step(a, y));
      ModShift(p * y, p * (y % HALF), m);
    }
  }

  // ---------- a bijection on 0..Modulus ----------

  lemma DivideSum(a: nat, q: nat, r: nat)
    requires r < a
    ensures (a * q + r) / a == q && (a * q + r) % a == r
  {
    DivModUnique(a * q + r, q, r, a);
  }

  lemma BackInRange(a: Multiplier, y: nat)
    requires y <= Modulus(a)
    ensures 0 <= Back(a, y) <= Modulus(a)
    ensures Back(a, y) % HALF == y / a && Back(a, y) / HALF == y % a
  {
    var q := y / a;
    assert y == a * q + y % a;
    if q >= HALF {
      MulLe(a, HALF, q);
    }
    DivideSum(HALF, y % a, q);
  }

  /** Step and Back are inverse to each other on 0..Modulus. */
  lemma StepIsBijection(a: Multiplier, x: nat)
    requires x <= Modulus(a)
    ensures 0 <= Back(a, x) <= Modulus(a) && Step(a, Back(a, x)) == x
    ensures Step(a, x) <= Modulus(a) && Back(a, Step(a, x)) == x
  {
    BackInRange(a, x);
    NoOverflow(a, Back(a, x));
    StepKeepsRange(a, x);
    NoOverflow(a, x);
    DivideSum(a, x % HALF, x / HALF);
  }

  // ---------- which seeds get stuck ----------

  predicate Fixed(a: Multiplier, x: nat) {
    x == 0 || x == Modulus(a)
  }

  lemma FixedStays(a: Multiplier, x: nat)
    requires Fixed(a, x)
    ensures Step(a, x) == x
  {
    if x != 0 {
      DivideSum(HALF, a - 1, HALF - 1);
      NoOverflow(a, x);
    }
  }

  /** Where a - 1 has the inverse u modulo 65535, nothing else is fixed. */
  lemma NothingElseFixed(a: Multiplier, x: nat, u: int, v: int)
    requires x < WORD32 && u * (a - 1) == 1 + 65535 * v && Step(a, x) == x
    ensures Fixed(a, x)
  {
    var lo := x % HALF;
    StepCongruence(a, x);
    assert 65535 * x == Modulus(a) * lo;
    assert (a - 1) * lo == 65535 * (x - a * lo);
    assert u * ((a - 1) * lo) == (u * (a - 1)) * lo;
    assert u * (65535 * (x - a * lo)) == 65535 * (u * (x - a * lo));
    assert (1 + 65535 * v) * lo == lo + 65535 * (v * lo);
    var k := u * (x - a * lo) - v * lo;
    assert lo == 65535 * k;
    if k == 0 {
      assert x == 0;
    } else {
      assert k == 1 && lo == 65535;
    }
  }

  /** Both registers of the generator have just the two fixed points. */
  lemma FixedPoints(x: nat)
    requires x < WORD32
    ensures Step(MULTIPLIER_Z, x) == x <==> Fixed(MULTIPLIER_Z, x)
    ensures Step(MULTIPLIER_W, x) == x <==> Fixed(MULTIPLIER_W, x)
  {
    hide Step, Fixed;
    if Fixed(MULTIPLIER_Z, x) { FixedStays(MULTIPLIER_Z, x); }
    if Fixed(MULTIPLIER_W, x) { FixedStays(MULTIPLIER_W, x); }
    if Step(MULTIPLIER_Z, x) == x { NothingElseFixed(MULTIPLIER_Z, x, 61892, 34913); }
    if Step(MULTIPLIER_W, x) == x { NothingElseFixed(MULTIPLIER_W, x, 18704, 5137); }
  }

  lemma MultipleForward(a: nat, m: nat, x: nat, s: nat, lo: nat)
    requires m > 0 && a * HALF == m + 1 && HALF * s == x + m * lo && x % m == 0
    ensures s % m == 0
  {
    var q := x / m;
    assert HALF * s == m * (q + lo);
    assert a * (HALF * s) == (a * HALF) * s;
    assert a * (m * (q + lo)) == m * (a * (q + lo));
    assert s == m * (a * (q + lo) - s) + 0;
    DivModUnique(s, a * (q + lo) - s, 0, m);
  }

  lemma MultipleBackward(m: nat, x: nat, s: nat, lo: nat)
    requires m > 0 && HALF * s == x + m * lo && s % m == 0
    ensures x % m == 0
  {
    var q := s / m;
    assert HALF * (m * q) == m * (HALF * q);
    DivModUnique(x, HALF * q - lo, 0, m);
  }

  lemma MultipleByStep(a: Multiplier, x: nat)
    requires x < WORD32
    ensures Step(a, x) % Modulus(a) == 0 <==> x % Modulus(a) == 0
  {
    StepCongruence(a, x);
    if x % Modulus(a) == 0 {
      MultipleForward(a, Modulus(a), x, Step(a, x), x % HALF);
    }
    if Step(a, x) % Modulus(a) == 0 {
      MultipleBackward(Modulus(a), x, Step(a, x), x % HALF);
    }
  }

  lemma {:induction false} MultipleAfter(a: Multiplier, x: nat, n: nat)
    requires x < WORD32
    ensures After(a, x, n) % Modulus(a) == 0 <==> x % Modulus(a) == 0
  {
    if n > 0 {
      MultipleAfter(a, x, n - 1);
      AfterIsWord(a, x, n - 1);
      MultipleByStep(a, After(a, x, n - 1));
    }
  }

  /** A register ever reaches a fixed point exactly when its seed is a multiple of the modulus, and then within two steps. */
  lemma StuckIff(a: Multiplier, x: nat)
    requires x < WORD32
    ensures (exists n: nat :: Fixed(a, After(a, x, n))) <==> x % Modulus(a) == 0
    ensures x % Modulus(a) == 0 ==> Fixed(a, After(a, x, 2))
  {
    var m := Modulus(a);
    if n: nat :| Fixed(a, After(a, x, n)) {
      MultipleAfter(a, x, n);
      DivModUnique(0, 0, 0, m);
      DivModUnique(m, 1, 0, m);
    }
    if x % m == 0 {
      MultipleAfter(a, x, 2);
      InRangeAfterTwo(a, x);
      var y := After(a, x, 2);
      assert y < m ==> y == 0 by {
        if y < m { DivModUnique(y, 0, y, m); }
      }
    }
  }

  /** The default seeds never get stuck. */
  lemma DefaultSeedsNeverStuck(n: nat)
    ensures !Fixed(MULTIPLIER_Z, After(MULTIPLIER_Z, SEED_Z, n))
    ensures !Fixed(MULTIPLIER_W, After(MULTIPLIER_W, SEED_W, n))
  {
    StuckIff(MULTIPLIER_Z, SEED_Z);
    StuckIff(MULTIPLIER_W, SEED_W);
  }
}
