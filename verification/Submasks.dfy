/** stress_flag_permutation: every submask of a set of flags, in increasing order. */
module Submasks {
  import opened Arithmetic
  import opened Bits

  const MAX_PERMUTATIONS: nat := 20

  function PopCount(flags: nat): nat {
    if flags == 0 then 0 else flags % 2 + PopCount(flags / 2)
  }

  /** The bits of j, low end first, placed into the set bits of flags. */
  function Deposit(flags: nat, j: nat): nat
    decreases flags
  {
    if flags == 0 then 0
    else if flags % 2 == 1 then j % 2 + 2 * Deposit(flags / 2, j / 2)
    else 2 * Deposit(flags / 2, j)
  }

  /** The bits of x at the set bits of flags, packed together. */
  function Extract(flags: nat, x: nat): nat
    decreases flags
  {
    if flags == 0 then 0
    else if flags % 2 == 1 then x % 2 + 2 * Extract(flags / 2, x / 2)
    else Extract(flags / 2, x / 2)
  }

  /** Every bit of x is a bit of flags. */
  ghost predicate Submask(x: nat, flags: nat) {
    forall k: nat :: Bit(x, k) <= Bit(flags, k)
  }

  lemma SubmaskOfNone(x: nat)
    requires Submask(x, 0)
    ensures x == 0
  {
    forall k: nat ensures Bit(x, k) == Bit(0, k) {
      ZeroBit(k);
      assert Bit(x, k) <= Bit(0, k);
    }
    BitsDetermine(x, 0);
  }

  lemma SubmaskHalves(x: nat, flags: nat)
    ensures Submask(x, flags) <==> x % 2 <= flags % 2 && Submask(x / 2, flags / 2)
  {
    if Submask(x, flags) {
      assert Bit(x, 0) <= Bit(flags, 0);
      forall k: nat ensures Bit(x / 2, k) <= Bit(flags / 2, k) {
        assert Bit(x, k + 1) <= Bit(flags, k + 1);
      }
    }
    if x % 2 <= flags % 2 && Submask(x / 2, flags / 2) {
      forall k: nat ensures Bit(x, k) <= Bit(flags, k) {
        if k > 0 { assert Bit(x / 2, k - 1) <= Bit(flags / 2, k - 1); }
      }
    }
  }

  // One bit of flags at a time: the recursive functions are unfolded only here.

  lemma DepositStep(flags: nat, j: nat)
    requires flags > 0
    ensures Deposit(flags, j) / 2 == Deposit(flags / 2, if flags % 2 == 1 then j / 2 else j)
    ensures Deposit(flags, j) % 2 == if flags % 2 == 1 then j % 2 else 0
  {
  }

  lemma ExtractStep(flags: nat, x: nat)
    requires flags > 0
    ensures flags % 2 == 0 ==> Extract(flags, x) == Extract(flags / 2, x / 2)
    ensures flags % 2 == 1 ==> Extract(flags, x) / 2 == Extract(flags / 2, x / 2) && Extract(flags, x) % 2 == x % 2
  {
  }

  lemma NoFlags(j: nat)
    ensures Deposit(0, j) == 0 && Extract(0, j) == 0 && Pow2(PopCount(0)) == 1
  {
  }

  lemma CountStep(flags: nat)
    ensures PopCount(0) == 0
    ensures flags > 0 ==> PopCount(flags) == flags % 2 + PopCount(flags / 2)
  {
  }

  lemma Pow2Step(n: nat)
    ensures Pow2(0) == 1
    ensures n > 0 ==> Pow2(n) == 2 * Pow2(n - 1)
  {
  }

  lemma RangeStep(flags: nat)
    requires flags > 0
    ensures flags % 2 == 0 ==> Pow2(PopCount(flags)) == Pow2(PopCount(flags / 2))
    ensures flags % 2 == 1 ==> Pow2(PopCount(flags)) == 2 * Pow2(PopCount(flags / 2))
  {
    hide PopCount, Pow2;
    CountStep(flags);
    Pow2Step(PopCount(flags));
  }

  lemma {:induction false} DepositIsSubmask(flags: nat, j: nat)
    ensures Submask(Deposit(flags, j), flags)
    decreases flags
  {
    hide Deposit, Submask;
    if flags > 0 {
      DepositStep(flags, j);
      DepositIsSubmask(flags / 2, if flags % 2 == 1 then j / 2 else j);
      SubmaskHalves(Deposit(flags, j), flags);
    } else {
      NoFlags(j);
      EverySubmask(0);
    }
  }

  lemma EverySubmask(flags: nat)
    ensures Submask(flags, flags)
  {
  }

  lemma {:induction false} ExtractBelow(flags: nat, x: nat)
    ensures Extract(flags, x) < Pow2(PopCount(flags))
    decreases flags
  {
    hide Extract, PopCount, Pow2;
    if flags > 0 {
      ExtractStep(flags, x);
      RangeStep(flags);
      ExtractBelow(flags / 2, x / 2);
    } else {
      NoFlags(x);
    }
  }

  /** Deposit and Extract are inverse between 0 .. 2^popcount - 1 and the submasks. */
  lemma {:induction false} ExtractDeposit(flags: nat, j: nat)
    requires j < Pow2(PopCount(flags))
    ensures Extract(flags, Deposit(flags, j)) == j
    decreases flags
  {
    hide Extract, Deposit, PopCount, Pow2;
    if flags > 0 {
      DepositStep(flags, j);
      ExtractStep(flags, Deposit(flags, j));
      RangeStep(flags);
      ExtractDeposit(flags / 2, if flags % 2 == 1 then j / 2 else j);
    } else {
      NoFlags(j);
      NoFlags(0);
    }
  }

  lemma {:induction false} DepositExtract(flags: nat, x: nat)
    requires Submask(x, flags)
    ensures Deposit(flags, Extract(flags, x)) == x
    decreases flags
  {
    hide Extract, Deposit, Submask;
    if flags == 0 {
      SubmaskOfNone(x);
      NoFlags(Extract(flags, x));
    } else {
      SubmaskHalves(x, flags);
      ExtractStep(flags, x);
      DepositStep(flags, Extract(flags, x));
      DepositExtract(flags / 2, x / 2);
    }
  }

  lemma {:induction false} DepositIncreases(flags: nat, i: nat, j: nat)
    requires i < j < Pow2(PopCount(flags))
    ensures Deposit(flags, i) < Deposit(flags, j)
    decreases flags
  {
    hide Deposit, PopCount, Pow2;
    if flags == 0 {
      NoFlags(j);
    } else {
      DepositStep(flags, i);
      DepositStep(flags, j);
      RangeStep(flags);
      if flags % 2 == 0 {
        DepositIncreases(flags / 2, i, j);
      } else if i / 2 < j / 2 {
        DepositIncreases(flags / 2, i / 2, j / 2);
      }
    }
  }

  // ---------- the cap on the number of flags ----------

  /** The lowest n set bits of flags. */
  function Lowest(flags: nat, n: nat): nat
    decreases flags
  {
    if flags == 0 || n == 0 then 0
    else if flags % 2 == 1 then 1 + 2 * Lowest(flags / 2, n - 1)
    else 2 * Lowest(flags / 2, n)
  }

  lemma {:induction false} LowestCount(flags: nat, n: nat)
    ensures PopCount(Lowest(flags, n)) == if n < PopCount(flags) then n else PopCount(flags)
    ensures PopCount(flags) <= n ==> Lowest(flags, n) == flags
    decreases flags
  {
    hide PopCount, Lowest;
    LowestStep(flags, n);
    CountStep(flags);
    if flags > 0 && n == 0 {
      SomeBitSet(flags);
    } else if flags > 0 {
      var rest := if flags % 2 == 1 then n - 1 else n;
      LowestCount(flags / 2, rest);
      CountDoubled(Lowest(flags / 2, rest));
    }
  }

  lemma LowestStep(flags: nat, n: nat)
    ensures flags == 0 || n == 0 ==> Lowest(flags, n) == 0
    ensures flags > 0 && n > 0 && flags % 2 == 1 ==> Lowest(flags, n) == 1 + 2 * Lowest(flags / 2, n - 1)
    ensures flags > 0 && n > 0 && flags % 2 == 0 ==> Lowest(flags, n) == 2 * Lowest(flags / 2, n)
  {
  }

  lemma CountDoubled(x: nat)
    ensures PopCount(2 * x) == PopCount(x) && PopCount(1 + 2 * x) == 1 + PopCount(x)
  {
  }

  lemma {:induction false} SomeBitSet(flags: nat)
    requires flags > 0
    ensures PopCount(flags) > 0
  {
    if flags % 2 == 0 { SomeBitSet(flags / 2); }
  }

  lemma {:induction false} DepositLowest(flags: nat, n: nat, j: nat)
    requires j < Pow2(n)
    ensures Deposit(Lowest(flags, n), j) == Deposit(flags, j)
    decreases flags
  {
    hide Deposit, Lowest, Pow2;
    LowestStep(flags, n);
    Pow2Step(n);
    if flags > 0 && n == 0 {
      DepositZero(flags);
      NoFlags(j);
    } else if flags > 0 {
      var rest, k := if flags % 2 == 1 then n - 1 else n, if flags % 2 == 1 then j / 2 else j;
      DepositLowest(flags / 2, rest, k);
      DepositStep(flags, j);
      var low := Lowest(flags, n);
      if low > 0 {
        DepositStep(low, j);
      } else {
        NoFlags(j);
        NoFlags(k);
      }
    }
  }

  lemma {:induction false} DepositZero(flags: nat)
    ensures Deposit(flags, 0) == 0
  {
    if flags > 0 { DepositZero(flags / 2); }
  }

  function Capped(flags: nat): (n: nat)
    ensures n <= MAX_PERMUTATIONS
  {
    if PopCount(flags) > MAX_PERMUTATIONS then MAX_PERMUTATIONS else PopCount(flags)
  }

  /** The array the function returns. */
  function Permutations(flags: nat): seq<nat> {
    seq(Pow2(Capped(flags)), j requires j >= 0 => Deposit(flags, j))
  }

  /** The entries are strictly increasing and are exactly the submasks of the lowest 20 flags. */
  lemma ExactlyTheSubmasks(flags: nat, x: nat)
    ensures forall i, j | 0 <= i < j < |Permutations(flags)| :: Permutations(flags)[i] < Permutations(flags)[j]
    ensures x in Permutations(flags) <==> Submask(x, Lowest(flags, 20))
    ensures |Permutations(flags)| == Pow2(if PopCount(flags) < 20 then PopCount(flags) else 20)
  {
    var low, ps := Lowest(flags, MAX_PERMUTATIONS), Permutations(flags);
    LowestCount(flags, MAX_PERMUTATIONS);
    Pow2Monotone(Capped(flags), MAX_PERMUTATIONS);
    forall j: nat | j < |ps| ensures ps[j] == Deposit(low, j) {
      DepositLowest(flags, MAX_PERMUTATIONS, j);
    }
    forall i: nat, j: nat | i < j < |ps| ensures ps[i] < ps[j] {
      DepositIncreases(low, i, j);
    }
    if x in ps {
      var j: nat :| j < |ps| && ps[j] == x;
      DepositIsSubmask(low, j);
    }
    if Submask(x, low) {
      ExtractBelow(low, x);
      DepositExtract(low, x);
      assert ps[Extract(low, x)] == x;
    }
  }

  /** Every submask of flags appears exactly when flags has at most 20 bits set. */
  lemma AllSubmasksIff(flags: nat)
    ensures (forall x: nat :: Submask(x, flags) ==> x in Permutations(flags)) <==> PopCount(flags) <= 20
  {
    LowestCount(flags, MAX_PERMUTATIONS);
    if PopCount(flags) <= MAX_PERMUTATIONS {
      forall x: nat | Submask(x, flags) ensures x in Permutations(flags) {
        ExactlyTheSubmasks(flags, x);
      }
    } else {
      ExactlyTheSubmasks(flags, flags);
      var low := Lowest(flags, MAX_PERMUTATIONS);
      if Submask(flags, low) {
        SubmaskCount(flags, low);
      }
    }
  }

  lemma {:induction false} SubmaskCount(x: nat, flags: nat)
    requires Submask(x, flags)
    ensures PopCount(x) <= PopCount(flags)
    decreases flags
  {
    if flags == 0 {
      SubmaskOfNone(x);
    } else {
      SubmaskHalves(x, flags);
      SubmaskCount(x / 2, flags / 2);
    }
  }

  lemma {:induction false} Pow2Monotone(a: nat, b: nat)
    requires a <= b
    ensures Pow2(a) <= Pow2(b)
    decreases b
  {
    if a < b { Pow2Monotone(a, b - 1); }
  }

  // ---------- the loops ----------

  /** perm holds the flags below iMask; f and b are flags and j shifted past the bits dealt with. */
  ghost predicate Placed(flags: nat, j: nat, perm: nat, iMask: nat, jMask: nat, f: nat, b: nat) {
    && iMask > 0 && jMask > 0 && f == flags / iMask && b == j / jMask
    && perm < iMask && Deposit(flags, j) == perm + iMask * Deposit(f, b)
  }

  lemma Product(m: nat, low: nat, rest: nat)
    ensures m * (low + 2 * rest) == (if low == 0 then 0 else m * low) + (2 * m) * rest
  {
  }

  lemma PlacedNext(flags: nat, j: nat, perm: nat, iMask: nat, jMask: nat, f: nat, b: nat)
    requires Placed(flags, j, perm, iMask, jMask, f, b)
    ensures f % 2 == 0 ==> Placed(flags, j, perm, 2 * iMask, jMask, f / 2, b)
    ensures f % 2 == 1 ==> Placed(flags, j, perm + (if b % 2 == 1 then iMask else 0), 2 * iMask, 2 * jMask, f / 2, b / 2)
  {
    DivDiv(flags, iMask, 2);
    DivDiv(j, jMask, 2);
    var low, rest := if f % 2 == 1 then b % 2 else 0, Deposit(f / 2, if f % 2 == 1 then b / 2 else b);
    assert Deposit(f, b) == low + 2 * rest;
    hide Deposit;
    Product(iMask, low, rest);
  }

  /** The inner loop: entry j collects the flags at which the next bit of j is set. */
  method Entry(flags: nat, j: nat) returns (perm: nat)
    requires flags < Pow2(32)
    ensures perm == Deposit(flags, j)
  {
    hide Deposit, Placed, Pow2;
    perm := 0;
    var i, iMask: nat, jMask: nat := 0, 1, 1;
    ghost var f: nat, b: nat := flags, j;
    PlacedFirst(flags, j);
    while i < 32
      invariant 0 <= i <= 32 && f < Pow2(32 - i)
      invariant Placed(flags, j, perm, iMask, jMask, f, b)
    {
      PlacedMeans(flags, j, perm, iMask, jMask, f, b);
      PlacedNext(flags, j, perm, iMask, jMask, f, b);
      HalfBelow(f, 32 - i);
      if flags / iMask % 2 == 1 {
        if j / jMask % 2 == 1 {
          perm := perm + iMask;      // |=, the bit being clear
        }
        jMask, b := 2 * jMask, b / 2;
      }
      iMask, i, f := 2 * iMask, i + 1, f / 2;
    }
    PlacedLast(flags, j, perm, iMask, jMask, f, b);
  }

  lemma PlacedFirst(flags: nat, j: nat)
    ensures Placed(flags, j, 0, 1, 1, flags, j)
  {
    hide Deposit;
  }

  lemma PlacedMeans(flags: nat, j: nat, perm: nat, iMask: nat, jMask: nat, f: nat, b: nat)
    requires Placed(flags, j, perm, iMask, jMask, f, b)
    ensures iMask > 0 && jMask > 0 && f == flags / iMask && b == j / jMask
  {
  }

  lemma PlacedLast(flags: nat, j: nat, perm: nat, iMask: nat, jMask: nat, f: nat, b: nat)
    requires Placed(flags, j, perm, iMask, jMask, f, b) && f < Pow2(0)
    ensures perm == Deposit(flags, j)
  {
    assert Deposit(0, b) == 0;
    hide Deposit;
  }

  lemma HalfBelow(f: nat, n: nat)
    requires n > 0 && f < Pow2(n)
    ensures f / 2 < Pow2(n - 1)
  {
  }

  method CountFlags(flags: nat) returns (nBits: nat)
    ensures nBits == PopCount(flags)
  {
    nBits := 0;
    var flagBits := flags;
    while flagBits != 0
      invariant nBits + PopCount(flagBits) == PopCount(flags)
    {
      nBits := nBits + flagBits % 2;
      flagBits := flagBits / 2;
    }
  }

  /** `allocates` is false when calloc fails; `hasTarget` is false for a null result pointer. */
  method FlagPermutation(flags: nat, hasTarget: bool, allocates: bool) returns (perms: array?<nat>, n: nat)
    requires flags < Pow2(32)
    ensures hasTarget && allocates ==> perms != null && perms[..] == Permutations(flags) && n == perms.Length
    ensures !(hasTarget && allocates) ==> perms == null && n == 0
  {
    hide Deposit, Pow2, PopCount;
    perms, n := null, 0;
    if !hasTarget {
      return;
    }
    var nBits := CountFlags(flags);
    if nBits > MAX_PERMUTATIONS {
      nBits := MAX_PERMUTATIONS;
    }
    if !allocates {
      return;
    }
    n := Pow2(nBits);
    var entries := new nat[n](_ => 0);
    var j := 0;
    while j < n
      invariant 0 <= j <= n && n == entries.Length
      invariant forall k | 0 <= k < j :: entries[k] == Deposit(flags, k)
    {
      entries[j] := Entry(flags, j);
      j := j + 1;
    }
    perms := entries;
    assert perms[..] == Permutations(flags);
  }
}
