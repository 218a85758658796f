/** Primality by 6k-1, 6k+1 trial division, and the search for a stride prime, of core-prime.c. */
module Primes {
  import opened Arithmetic

  const MASKED: nat := 0x1000_0000_0000_0000          // the mask 0x0ffffffffffffffe keeps the bits below 2^60
  const LEAST: nat := 1009
  const TRIES: nat := 2000
  const GIVE_UP: nat := 18446744073709551557

  predicate Divides(d: nat, n: nat)
    requires d > 0
  {
    n % d == 0
  }

  ghost predicate Prime(n: nat) {
    n >= 2 && forall d | 2 <= d < n :: !Divides(d, n)
  }

  /** max is the square root of n rounded as the source rounds it: isqrt(n) <= max <= isqrt(n) + 2. */
  predicate Near(n: nat, max: nat) {
    n < (max + 1) * (max + 1) && (max < 2 || (max - 2) * (max - 2) <= n)
  }

  ghost predicate RoundsRoots(root: nat -> nat) {
    forall k: nat | k < WORD64 :: Near(k, root(k))
  }

  // ---------- divisibility ----------

  /** What divides a divisor divides the number. */
  lemma DivisorOfDivisor(n: nat, d: nat, c: nat)
    requires d > 0 && c > 0 && n % d == 0 && d % c == 0
    ensures n % c == 0
  {
    var a, b := n / d, d / c;
    assert n == d * a && d == c * b;
    assert n == c * (b * a) + 0;
    DivModUnique(n, b * a, 0, c);
  }

  /** A number with a proper divisor has one that is at most its root. */
  lemma SmallDivisor(n: nat, d: nat, max: nat) returns (e: nat)
    requires 2 <= d < n && Divides(d, n) && n < (max + 1) * (max + 1)
    ensures 2 <= e <= max && Divides(e, n)
  {
    var c := n / d;
    assert n == d * c;
    if c <= 1 {
      MulLe(d, c, 1);
    }
    DivModUnique(n, d, 0, c);
    if d > max && c > max {
      MulLe(d, max + 1, c);
      MulLe(max + 1, max + 1, d);
    }
    e := if d <= max then d else c;
  }

  lemma NoSmallDivisorIsPrime(n: nat, max: nat)
    requires n >= 2 && n < (max + 1) * (max + 1)
    requires forall d | 2 <= d <= max :: !Divides(d, n)
    ensures Prime(n)
  {
    hide Divides;
    forall d | 2 <= d < n ensures !Divides(d, n) {
      if Divides(d, n) {
        var e := SmallDivisor(n, d, max);
      }
    }
  }

  /** Of six consecutive candidates only two can divide a number that 2 and 3 do not divide. */
  lemma SixCandidates(n: nat, i: nat)
    requires !Divides(2, n) && !Divides(3, n) && i % 6 == 5
    requires !Divides(i, n) && !Divides(i + 2, n)
    ensures forall d | i <= d < i + 6 :: !Divides(d, n)
  {
    hide Divides;
    var k := i / 6;
    assert i == 6 * k + 5;
    DivModUnique(i + 1, 3 * k + 3, 0, 2);
    DivModUnique(i + 3, 3 * k + 4, 0, 2);
    DivModUnique(i + 4, 2 * k + 3, 0, 3);
    DivModUnique(i + 5, 3 * k + 5, 0, 2);
    NotDivided(n, i + 1, 2);
    NotDivided(n, i + 3, 2);
    NotDivided(n, i + 4, 3);
    NotDivided(n, i + 5, 2);
  }

  lemma NotDivided(n: nat, d: nat, c: nat)
    requires c > 0 && !Divides(c, n) && d > 0 && d % c == 0
    ensures !Divides(d, n)
  {
    if n % d == 0 {
      DivisorOfDivisor(n, d, c);
    }
  }

  lemma CandidateBelow(n: nat, i: nat, max: nat)
    requires Near(n, max) && 5 <= i <= max
    ensures i + 2 < n
  {
    MulLe(max - 2, i - 2, max - 2);
    MulLe(i - 2, i - 2, max - 2);
    MulLe(i - 2, 3, i - 2);
  }

  lemma RootBelow(n: nat, max: nat)
    requires Near(n, max) && n < WORD64
    ensures max < 0x1_0000_0002
  {
    if max >= 0x1_0000_0002 {
      MulLe(max - 2, 0x1_0000_0000, max - 2);
    }
  }

  /** True exactly for primes, for every 64-bit n; the candidate i never overflows. */
  method PrimeCheck(n: nat, max: nat) returns (prime: bool)
    requires n < WORD64 && Near(n, max)
    ensures prime <==> Prime(n)
  {
    hide Divides, Near;
    if n <= 3 {
      UpToThree(n);
      return n >= 2;
    }
    if Divides(2, n) || Divides(3, n) {
      return false;
    }
    RootBelow(n, max);
    NotDivided(n, 4, 2);
    var i := 5;
    while i <= max
      invariant i % 6 == 5 && i >= 5
      invariant forall d | 2 <= d < i :: !Divides(d, n)
    {
      if Divides(i, n) || Divides(i + 2, n) {
        CandidateBelow(n, i, max);
        return false;
      }
      SixCandidates(n, i);
      ModShift(i, 1, 6);
      assert i + 6 < WORD64;
      i := i + 6;
    }
    RootAbove(n, max);
    NoSmallDivisorIsPrime(n, max);
    return true;
  }

  lemma UpToThree(n: nat)
    requires n <= 3
    ensures Prime(n) <==> n >= 2
  {
  }

  lemma RootAbove(n: nat, max: nat)
    requires Near(n, max)
    ensures n < (max + 1) * (max + 1)
  {
  }

  // ---------- the search ----------

  /** (n & 0x0ffffffffffffffe) + 1 */
  function OddOf(n: nat): nat {
    n % MASKED / 2 * 2 + 1
  }

  function Start(p: nat, n: nat): (start: nat)
    ensures p <= start && (p % 2 == 1 ==> start % 2 == 1)
  {
    if p < OddOf(n) then OddOf(n) else p
  }

  function Bump(p: nat): nat {
    (p + 2) % WORD64
  }

  ghost predicate Good(n: nat, p: nat)
    requires p > 0
  {
    n % p != 0 && Prime(p)
  }

  /** The first good candidate among the next `tries` after p, 0 when there is none. */
  ghost function FirstGood(n: nat, p: nat, tries: nat): (r: nat)
    requires p % 2 == 1
    ensures r > 0 ==> r % 2 == 1 && Good(n, r)
    decreases tries
  {
    if tries == 0 then 0
    else
      OddBump(p);
      if Good(n, Bump(p)) then Bump(p) else FirstGood(n, Bump(p), tries - 1)
  }

  function Tries(stopAfter: nat): nat {
    if stopAfter < TRIES then stopAfter else TRIES
  }

  /** The search loop both functions share; the continue flag is read as false before try `stopAfter`. */
  method Search(n: nat, start: nat, stopAfter: nat, root: nat -> nat) returns (p: nat, found: bool)
    requires n < WORD64 && start < WORD64 && start % 2 == 1
    requires RoundsRoots(root)
    ensures found <==> FirstGood(n, start, Tries(stopAfter)) != 0
    ensures found ==> p == FirstGood(n, start, Tries(stopAfter))
  {
    hide Good, Prime, Bump, Near, FirstGood;
    p, found := start, false;
    FirstGoodStep(n, start, 0);
    var i := 0;
    while i < stopAfter && i < TRIES
      invariant 0 <= i <= Tries(stopAfter) && p < WORD64 && p % 2 == 1
      invariant FirstGood(n, start, Tries(stopAfter)) == FirstGood(n, p, Tries(stopAfter) - i)
    {
      OddBump(p);
      FirstGoodStep(n, p, Tries(stopAfter) - i);
      p := Bump(p);
      GoodMeans(n, p);
      if n % p != 0 {
        var prime := PrimeCheck(p, root(p));
        if prime {
          found := true;
          return;
        }
      }
      i := i + 1;
    }
    FirstGoodStep(n, p, 0);
  }

  lemma OddBump(p: nat)
    requires p % 2 == 1
    ensures Bump(p) % 2 == 1 && Bump(p) < WORD64
  {
  }

  lemma FirstGoodStep(n: nat, p: nat, tries: nat)
    requires p % 2 == 1
    ensures FirstGood(n, p, 0) == 0
    ensures tries > 0 ==> Bump(p) % 2 == 1
    ensures tries > 0 ==> FirstGood(n, p, tries) == if Good(n, Bump(p)) then Bump(p) else FirstGood(n, Bump(p), tries - 1)
  {
  }

  lemma GoodMeans(n: nat, p: nat)
    requires p > 0
    ensures Good(n, p) <==> n % p != 0 && Prime(p)
    ensures 1 <= n < p ==> (Good(n, p) <==> Prime(p))
  {
    if 1 <= n < p {
      DivModUnique(n, 0, n, p);
    }
  }

  method PrimeGet(n: nat, stopAfter: nat, root: nat -> nat) returns (r: nat)
    requires n < WORD64
    requires RoundsRoots(root)
    ensures var first := FirstGood(n, Start(LEAST, n), Tries(stopAfter));
      r == if first != 0 then first else GIVE_UP
  {
    var p := LEAST;
    if p < OddOf(n) {
      p := OddOf(n);
    }
    var found;
    r, found := Search(n, p, stopAfter, root);
    if !found {
      r := GIVE_UP;
    }
  }

  /** stress_prime64_next_get with its static p. */
  class PrimeSource {
    var p: nat

    ghost predicate Valid()
      reads this
    {
      p < WORD64 && p % 2 == 1
    }

    constructor ()
      ensures Valid() && p == LEAST
    {
      p := LEAST;
    }

    method NextGet(n: nat, stopAfter: nat, root: nat -> nat) returns (r: nat)
      requires Valid() && n < WORD64
      requires RoundsRoots(root)
      modifies this
      ensures Valid() && p == r && r == NextPrime(old(p), n, stopAfter)
    {
      if p < OddOf(n) {
        p := OddOf(n);
      }
      FirstGoodIsWord(n, p, Tries(stopAfter));
      var found;
      p, found := Search(n, p, stopAfter, root);
      if !found {
        p := LEAST;
      }
      r := p;
    }
  }

  ghost function NextPrime(p: nat, n: nat, stopAfter: nat): nat
    requires p % 2 == 1
  {
    var first := FirstGood(n, Start(p, n), Tries(stopAfter));
    if first != 0 then first else LEAST
  }

  lemma {:induction false} FirstGoodIsWord(n: nat, p: nat, tries: nat)
    requires p % 2 == 1
    ensures FirstGood(n, p, tries) < WORD64
    decreases tries
  {
    hide Good, Prime, Bump;
    if tries > 0 {
      OddBump(p);
      FirstGoodIsWord(n, Bump(p), tries - 1);
    }
  }

  // ---------- the least prime above ----------

  lemma NoWrap(p: nat)
    requires p + 2 < WORD64
    ensures Bump(p) == p + 2
  {
  }

  /** The search gives up exactly when none of its candidates, the odd numbers after p modulo 2^64, is good. */
  lemma {:induction false} GivesUpIff(n: nat, p: nat, tries: nat)
    requires p % 2 == 1 && p < WORD64
    ensures forall k | 1 <= k <= tries :: Candidate(p, k) > 0
    ensures FirstGood(n, p, tries) == 0 <==> forall k | 1 <= k <= tries :: !Good(n, Candidate(p, k))
    decreases tries
  {
    hide Good, Bump, FirstGood, Candidate;
    FirstGoodStep(n, p, tries);
    OddBump(p);
    if tries > 0 {
      GivesUpIff(n, Bump(p), tries - 1);
      CandidateStep(p, 1);
      forall k | 1 < k <= tries ensures Candidate(p, k) == Candidate(Bump(p), k - 1) {
        CandidateStep(p, k);
      }
      forall k | 1 <= k <= tries - 1 ensures Candidate(Bump(p), k) == Candidate(p, k + 1) {
        CandidateStep(p, k + 1);
      }
    }
  }

  function Candidate(p: nat, k: nat): nat {
    (p + 2 * k) % 0x1_0000_0000_0000_0000
  }

  lemma CandidateStep(p: nat, k: nat)
    requires k >= 1
    ensures Candidate(p, 1) == Bump(p)
    ensures Candidate(p, k) == Candidate(Bump(p), k - 1)
  {
  }

  /** A search that is not stopped gives up only after 2000 candidates; the constant it then returns is 2^64 - 59. */
  lemma GivingUpTakes2000(n: nat, p: nat, stopAfter: nat)
    requires p % 2 == 1 && p < WORD64 && stopAfter >= 2000
    ensures forall k | 1 <= k <= 2000 :: Candidate(p, k) > 0
    ensures FirstGood(n, p, Tries(stopAfter)) == 0 <==> forall k | 1 <= k <= 2000 :: !Good(n, Candidate(p, k))
    ensures GIVE_UP == 0x1_0000_0000_0000_0000 - 59
  {
    hide Good, FirstGood, Candidate;
    GivesUpIff(n, p, 2000);
    assert Tries(stopAfter) == 2000;
  }

  /** Short of wrap-around, what is found is the least good odd number after p, at most 2 * tries away. */
  lemma {:induction false} FirstGoodIsLeast(n: nat, p: nat, tries: nat)
    requires p % 2 == 1 && p + 2 * tries < WORD64 && FirstGood(n, p, tries) != 0
    ensures p < FirstGood(n, p, tries) <= p + 2 * tries
    ensures Good(n, FirstGood(n, p, tries))
    ensures forall m | p < m < FirstGood(n, p, tries) && m % 2 == 1 :: !Good(n, m)
    decreases tries
  {
    hide Good, Bump;
    NoWrap(p);
    if !Good(n, Bump(p)) {
      FirstGoodIsLeast(n, Bump(p), tries - 1);
    }
  }

  lemma EvenIsNotPrime(m: nat)
    requires m > 2 && m % 2 == 0
    ensures !Prime(m)
  {
    assert Divides(2, m);
  }

  /** Where the search starts: at 1009 or n | 1 below 2^60; above it the mask leaves the start far below n. */
  lemma StartIs(n: nat)
    requires n < WORD64
    ensures var start := Start(LEAST, n);
      && start % 2 == 1 && start >= LEAST && start + 2 * TRIES < WORD64
      && (n < MASKED ==> n <= start && (start == LEAST || start == n / 2 * 2 + 1))
      && (n >= MASKED ==> start + 2 * TRIES < n)
  {
  }

  /** For 1 <= n < 2^60 a prime that is found is the least prime above both 1009 and n | 1. */
  lemma LeastPrimeAbove(n: nat, stopAfter: nat)
    requires 1 <= n < MASKED
    ensures var start, r := Start(LEAST, n), FirstGood(n, Start(LEAST, n), Tries(stopAfter));
      && n <= start && start >= LEAST && (start == LEAST || start == n / 2 * 2 + 1)
      && (r != 0 ==> start < r && Prime(r) && forall m | start < m < r :: !Prime(m))
  {
    hide Good, Prime, FirstGood, Start, OddOf, Tries, Divides;
    StartIs(n);
    var start, tries := Start(LEAST, n), Tries(stopAfter);
    var r := FirstGood(n, start, tries);
    if r != 0 {
      AtMostTries(stopAfter);
      FirstGoodIsLeast(n, start, tries);
      GoodMeans(n, r);
      forall m | start < m < r ensures !Prime(m) {
        if m % 2 == 0 {
          EvenIsNotPrime(m);
        } else {
          GoodMeans(n, m);
        }
      }
    }
  }

  lemma AtMostTries(stopAfter: nat)
    ensures Tries(stopAfter) <= TRIES
  {
  }

  /** "Return a prime > n": a prime that is found exceeds n exactly when n < 2^60. */
  lemma FoundExceedsIff(n: nat, stopAfter: nat)
    requires n < WORD64
    ensures var r := FirstGood(n, Start(LEAST, n), Tries(stopAfter));
      r != 0 ==> (r > n <==> n < 0x1000_0000_0000_0000)
  {
    hide Good, Prime, FirstGood, Start, OddOf, Tries;
    StartIs(n);
    AtMostTries(stopAfter);
    if FirstGood(n, Start(LEAST, n), Tries(stopAfter)) != 0 {
      FirstGoodIsLeast(n, Start(LEAST, n), Tries(stopAfter));
    }
  }

  /** From 2^60 on one can be found: the mask drops the high bits, and the search starts at 1009 again. */
  lemma FoundPastTheMask(n: nat, stopAfter: nat)
    requires MASKED <= n < WORD64 && n % MASKED <= LEAST && n % 1013 != 0 && stopAfter >= 2
    ensures FirstGood(n, Start(LEAST, n), Tries(stopAfter)) == 1013 < n
  {
    hide Good, Prime, FirstGood, Tries;
    assert Tries(stopAfter) >= 2 by { TriesAtLeast(stopAfter, 2); }
    assert Start(LEAST, n) == LEAST;
    FirstGoodStep(n, LEAST, Tries(stopAfter));
    FirstGoodStep(n, LEAST + 2, Tries(stopAfter) - 1);
    AroundLeast();
    GoodMeans(n, 1011);
    GoodMeans(n, 1013);
  }

  lemma TriesAtLeast(stopAfter: nat, k: nat)
    requires k <= stopAfter && k <= TRIES
    ensures Tries(stopAfter) >= k
  {
  }

  lemma AroundLeast()
    ensures Prime(1009) && !Prime(1011) && Prime(1013)
  {
    NoSmallDivisorIsPrime(1009, 31);
    NoSmallDivisorIsPrime(1013, 31);
    assert 1011 == 3 * 337 && Divides(3, 1011);
  }

  /** So "> n" does fail: for n = 2^60 the result is 1013. */
  lemma NotAlwaysAbove()
    ensures FirstGood(MASKED, Start(LEAST, MASKED), TRIES) == 1013 < MASKED
  {
    hide Good, Prime, FirstGood, Start;
    FoundPastTheMask(MASKED, TRIES);
  }

  /** For n = 0 every candidate divides n, so the search always gives up. */
  lemma ZeroGivesUp(p: nat, tries: nat)
    requires p % 2 == 1
    ensures FirstGood(0, p, tries) == 0
  {
    var r := FirstGood(0, p, tries);
    if r > 0 {
      DivModUnique(0, 0, 0, r);
    }
  }

  // ---------- successive calls ----------

  datatype Request = Request(n: nat, stopAfter: nat)

  /** The results of successive calls, starting from the static value p. */
  ghost function Results(p: nat, calls: seq<Request>): seq<nat>
    requires p % 2 == 1
    decreases |calls|
  {
    if calls == [] then []
    else
      var r := NextPrime(p, calls[0].n, calls[0].stopAfter);
      [r] + Results(r, calls[1..])
  }

  /** No call gives up, and no search comes within reach of 2^64. */
  ghost predicate Smooth(p: nat, calls: seq<Request>)
    requires p % 2 == 1
    decreases |calls|
  {
    calls != [] ==>
      var c := calls[0];
      && c.n < WORD64
      && Start(p, c.n) + 2 * TRIES < WORD64
      && FirstGood(c.n, Start(p, c.n), Tries(c.stopAfter)) != 0
      && Smooth(NextPrime(p, c.n, c.stopAfter), calls[1..])
  }

  /** Until a call gives up or wraps, the results are strictly increasing primes, each no divisor of its n, and above it below 2^60. */
  lemma {:induction false} SuccessivePrimes(p: nat, calls: seq<Request>)
    requires p % 2 == 1 && Smooth(p, calls)
    ensures var rs := Results(p, calls);
      && |rs| == |calls|
      && (forall i | 0 <= i < |rs| :: p < rs[i] && Good(calls[i].n, rs[i]))
      && (forall i | 0 <= i < |rs| :: calls[i].n < MASKED ==> rs[i] > calls[i].n)
      && (forall i, j | 0 <= i < j < |rs| :: rs[i] < rs[j])
    decreases |calls|
  {
    hide Good, FirstGood, Start, Tries, NextPrime;
    if calls != [] {
      var r := NextPrime(p, calls[0].n, calls[0].stopAfter);
      SmoothCall(p, calls[0]);
      SuccessivePrimes(r, calls[1..]);
      assert Results(p, calls) == [r] + Results(r, calls[1..]);
    }
  }

  lemma SmoothCall(p: nat, c: Request)
    requires p % 2 == 1 && c.n < WORD64 && Start(p, c.n) + 2 * TRIES < WORD64
    requires FirstGood(c.n, Start(p, c.n), Tries(c.stopAfter)) != 0
    ensures var r := NextPrime(p, c.n, c.stopAfter);
      r % 2 == 1 && p < r && Good(c.n, r) && (c.n < MASKED ==> r > c.n)
  {
    hide Good, FirstGood, Tries;
    AtMostTries(c.stopAfter);
    FirstGoodIsLeast(c.n, Start(p, c.n), Tries(c.stopAfter));
  }

  // ---------- striding ----------

  /** If p divides a * b it divides (x - y * q) * b for x = p or a, written out as the remainder r. */
  lemma RemainderProduct(p: nat, a: nat, b: nat, x: nat, y: nat, q: nat, r: nat, k: int, l: int)
    requires p > 0 && x == y * q + r && x * b == p * k && y * b == p * l
    ensures (r * b) % p == 0
  {
    assert r * b == x * b - (y * q) * b;
    assert (y * q) * b == (y * b) * q;
    assert (p * l) * q == p * (l * q);
    assert p * (k - l * q) == p * k - p * (l * q);
    DivModUnique(r * b, k - l * q, 0, p);
  }

  /** A smaller factor r with r * b divisible by p, for the Euclidean descent. */
  lemma SmallerFactor(p: nat, a: nat, b: nat) returns (r: nat)
    requires Prime(p) && (a * b) % p == 0 && a % p != 0 && a > 1
    ensures r < a && r % p != 0 && (r * b) % p == 0
  {
    var k := (a * b) / p;
    assert a * b == p * k;
    if a >= p {
      r := a % p;
      assert a == p * (a / p) + r;
      RemainderProduct(p, a, b, a, p, a / p, r, k, b);
      DivModUnique(r, 0, r, p);
    } else {
      r := p % a;
      assert p == a * (p / a) + r;
      RemainderProduct(p, a, b, p, a, p / a, r, b, k);
      assert !Divides(a, p);
      DivModUnique(r, 0, r, p);
    }
  }

  /** Euclid's lemma. */
  lemma {:induction false} Euclid(p: nat, a: nat, b: nat)
    requires Prime(p) && (a * b) % p == 0 && a % p != 0
    ensures b % p == 0
    decreases a
  {
    hide Prime;
    if a <= 1 {
      OneOrNothing(p, a, b);
    } else {
      var r := SmallerFactor(p, a, b);
      Euclid(p, r, b);
    }
  }

  lemma OneOrNothing(p: nat, a: nat, b: nat)
    requires a <= 1 && Prime(p) && (a * b) % p == 0 && a % p != 0
    ensures b % p == 0
  {
    DivModUnique(0, 0, 0, p);
    assert a == 1 && a * b == b;
  }

  /** Where step i of the stride lands among m slots. */
  function Slot(p: nat, m: nat, i: nat): nat
    requires m > 0
  {
    ((i + 1) * p) % m
  }

  /** Slots are reached by adding p again and again, round the end, the first being p itself. */
  lemma StrideStep(p: nat, m: nat, i: nat)
    requires m > 0
    ensures Slot(p, m, 0) == p % m
    ensures Slot(p, m, i + 1) == (Slot(p, m, i) + p) % m
  {
    var q := ((i + 1) * p) / m;
    assert (i + 1) * p == m * q + Slot(p, m, i);
    assert (i + 2) * p == (i + 1) * p + p;
    ModShift(Slot(p, m, i) + p, q, m);
  }

  /** The stride never lands on the same slot twice in m steps. */
  lemma StrideInjective(p: nat, m: nat, i: nat, j: nat)
    requires Prime(p) && m > 0 && m % p != 0 && i < j < m
    ensures Slot(p, m, i) != Slot(p, m, j)
  {
    if Slot(p, m, i) == Slot(p, m, j) {
      var x, y := (i + 1) * p, (j + 1) * p;
      var k := y / m - x / m;
      assert y - x == (j - i) * p;
      assert y - x == m * k;
      assert k > 0;
      DivModUnique(m * k, j - i, 0, p);
      Euclid(p, m, k);
      var c := k / p;
      assert k == p * c;
      assert m * (p * c) == p * (m * c);
      assert j - i == m * c;
      assert c >= 1;
      MulLe(m, 1, c);
    }
  }

  lemma {:induction false} Pigeonhole(f: nat -> nat, n: nat, s: set<nat>)
    requires forall i | 0 <= i < n :: f(i) in s
    requires forall i, j | 0 <= i < j < n :: f(i) != f(j)
    requires |s| == n
    ensures forall v | v in s :: exists i :: 0 <= i < n && f(i) == v
    decreases n
  {
    if n > 0 {
      var last := f(n - 1);
      Pigeonhole(f, n - 1, s - {last});
      forall v | v in s ensures exists i :: 0 <= i < n && f(i) == v {
        if v == last {
          assert f(n - 1) == v;
        } else {
          assert v in s - {last};
        }
      }
    }
  }

  function Below(m: nat): (s: set<nat>)
    ensures forall v: nat :: v in s <==> v < m
    ensures |s| == m
  {
    if m == 0 then {} else Below(m - 1) + {m - 1}
  }

  ghost predicate Visited(p: nat, m: nat, v: nat)
    requires m > 0
  {
    exists i :: 0 <= i < m && Slot(p, m, i) == v
  }

  /** Striding by a prime that does not divide m visits every one of m slots exactly once in m steps. */
  lemma StrideVisitsAll(p: nat, m: nat)
    requires Prime(p) && m > 0 && m % p != 0
    ensures forall i, j | 0 <= i < j < m :: Slot(p, m, i) != Slot(p, m, j)
    ensures forall v | 0 <= v < m :: Visited(p, m, v)
  {
    forall i, j | 0 <= i < j < m ensures Slot(p, m, i) != Slot(p, m, j) {
      StrideInjective(p, m, i, j);
    }
    forall i | 0 <= i < m ensures Slot(p, m, i) in Below(m) {
      ModBelow((i + 1) * p, m);
    }
    hide Slot, Prime;
    var f := (i: nat) => Slot(p, m, i);
    Pigeonhole(f, m, Below(m));
    forall v | 0 <= v < m ensures Visited(p, m, v) {
      assert v in Below(m);
      var i :| 0 <= i < m && f(i) == v;
      assert Slot(p, m, i) == v;
    }
  }

  lemma ModBelow(x: nat, m: nat)
    requires m > 0
    ensures x % m < m
  {
  }

  /** The promise behind the `n % p` test: whatever n is, a prime that is found strides over n slots. */
  lemma FoundPrimeStrides(n: nat, stopAfter: nat)
    requires 0 < n < WORD64
    ensures var p := FirstGood(n, Start(LEAST, n), Tries(stopAfter));
      p != 0 ==> forall v | 0 <= v < n :: Visited(p, n, v)
  {
    hide Prime, Visited, FirstGood;
    var p := FirstGood(n, Start(LEAST, n), Tries(stopAfter));
    if p != 0 {
      GoodMeans(n, p);
      StrideVisitsAll(p, n);
    }
  }

  /** A stride by a divisor of the number of slots other than 1 never reaches slot 1. */
  lemma DivisorMissesOne(p: nat, m: nat)
    requires p > 1 && m > 0 && m % p == 0
    ensures m > 1 && !Visited(p, m, 1)
  {
    var k := m / p;
    assert m == p * k;
    assert k > 0;
    MulLe(p, 1, k);
    forall i | 0 <= i < m ensures Slot(p, m, i) != 1 {
      var q := ((i + 1) * p) / m;
      assert (i + 1) * p == m * q + Slot(p, m, i);
      assert m * q == p * (k * q);
      if Slot(p, m, i) == 1 {
        DivModUnique((i + 1) * p, k * q, 1, p);
        DivModUnique((i + 1) * p, i + 1, 0, p);
      }
    }
  }

  /** Giving up hands out 1009, which may divide n: the result strides over n slots if and only if a prime was found or 1009 does not divide n. */
  lemma NextStridesIff(p: nat, n: nat, stopAfter: nat)
    requires p % 2 == 1 && 0 < n < WORD64
    ensures (forall v | 0 <= v < n :: Visited(NextPrime(p, n, stopAfter), n, v))
      <==> FirstGood(n, Start(p, n), Tries(stopAfter)) != 0 || n % 1009 != 0
  {
    hide Prime, Good, Visited, FirstGood, Tries, Start, OddOf;
    var r, first := NextPrime(p, n, stopAfter), FirstGood(n, Start(p, n), Tries(stopAfter));
    AroundLeast();
    if first != 0 {
      GoodMeans(n, r);
      StrideVisitsAll(r, n);
    } else if n % LEAST != 0 {
      StrideVisitsAll(LEAST, n);
    } else {
      DivisorMissesOne(LEAST, n);
    }
  }

  /** With the continue flag already down, as when files are cleaned up at the end, nothing is searched: the result strides over n slots if and only if 1009 does not divide n. */
  lemma StoppedStridesIff(p: nat, n: nat)
    requires p % 2 == 1 && 0 < n < WORD64
    ensures NextPrime(p, n, 0) == 1009
    ensures (forall v | 0 <= v < n :: Visited(NextPrime(p, n, 0), n, v)) <==> n % 1009 != 0
  {
    hide Visited, FirstGood, Start, OddOf;
    FirstGoodStep(n, Start(p, n), 0);
    NextStridesIff(p, n, 0);
  }

  /** So it does fail: over 1009 slots the stride 1009 never reaches slot 1. */
  lemma StrideCanMissSlots()
    ensures NextPrime(1009, 1009, 0) == 1009 && !Visited(1009, 1009, 1)
  {
    hide Visited;
    StoppedStridesIff(LEAST, LEAST);
    DivisorMissesOne(LEAST, LEAST);
  }
}
