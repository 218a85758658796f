/**
  stress_fs_max_pipe_size_get: the largest pipe size, read from the system or found
  by binary chop.  `accepts` says whether a fresh pipe takes a size; the check also
  refuses sizes below a page.
 */
module PipeSize {
  import opened Bits

  const INT_MAX: nat := 0x7fff_ffff

  predicate Check(accepts: nat -> bool, pageSize: nat, sz: nat) {
    sz >= pageSize && accepts(sz)
  }

  /** sz is accepted and the next size is refused, or is INT_MAX, which is never tried. */
  predicate Edge(accepts: nat -> bool, pageSize: nat, sz: nat) {
    Check(accepts, pageSize, sz) && (sz + 1 == INT_MAX || !Check(accepts, pageSize, sz + 1))
  }

  /** What a size is refused, every larger one is. */
  ghost predicate Monotone(accepts: nat -> bool) {
    forall a: nat, b: nat | a <= b && accepts(b) :: accepts(a)
  }

  /** Whatever the sizes accepted, the chop ends before its 64th pass, at an edge unless even one page is refused. */
  method Chop(accepts: nat -> bool, pageSize: nat) returns (sz: nat, passes: nat)
    requires 0 < pageSize < INT_MAX
    ensures passes < 64
    ensures pageSize <= sz < INT_MAX
    ensures (accepts(sz) && (sz + 1 == 0x7fff_ffff || !accepts(sz + 1))) || (sz == pageSize && !accepts(pageSize))
    ensures Edge(accepts, pageSize, sz) || (sz == pageSize && !accepts(pageSize))
  {
    hide Pow2, Check;
    CheckIs(accepts, pageSize);
    var min, max, prev := pageSize, INT_MAX, 0;
    sz, passes := 0, 0;
    RangeFits();
    while passes < 64
      invariant passes <= 32 && pageSize <= min <= max <= INT_MAX
      invariant min == pageSize || Check(accepts, pageSize, min)
      invariant max == INT_MAX || !Check(accepts, pageSize, max)
      invariant min == max ==> min == pageSize && !accepts(pageSize)
      invariant passes == 0 ==> prev == 0
      invariant passes > 0 ==> (prev == min && Check(accepts, pageSize, min)) || (prev == max < INT_MAX)
      invariant passes <= 31 ==> max - min <= Pow2(31 - passes)
      invariant passes == 32 ==> max - min <= 1 && prev == min
    {
      if passes < 31 {
        HalfPower(31 - passes);
      }
      sz := min + (max - min) / 2;
      if prev == sz {
        return;
      }
      prev := sz;
      if Check(accepts, pageSize, sz) {
        min := sz;
      } else {
        max := sz;
      }
      passes := passes + 1;
    }
  }

  lemma RangeFits()
    ensures Pow2(31) == INT_MAX + 1 && Pow2(0) == 1
  {
    assert Pow2(4) == 16 && Pow2(8) == 256 && Pow2(7) == 128;
    Pow2Add(8, 8);
    Pow2Add(8, 7);
    Pow2Add(16, 15);
  }

  lemma HalfPower(n: nat)
    requires n > 0
    ensures Pow2(n) == 2 * Pow2(n - 1)
  {
  }

  lemma CheckIs(accepts: nat -> bool, pageSize: nat)
    ensures forall sz: nat | sz >= pageSize :: Check(accepts, pageSize, sz) == accepts(sz)
  {
  }

  /** When larger sizes are refused first, an edge is the largest size accepted below INT_MAX, and there is one exactly when a page is accepted. */
  lemma EdgeIsLargest(accepts: nat -> bool, pageSize: nat, sz: nat)
    requires Monotone(accepts) && 0 < pageSize <= sz < INT_MAX
    ensures Edge(accepts, pageSize, sz) <==>
      accepts(sz) && forall b: nat | sz < b < INT_MAX :: !accepts(b)
    ensures Edge(accepts, pageSize, sz) ==> accepts(pageSize)
  {
    if Edge(accepts, pageSize, sz) {
      var next: nat := sz + 1;
      forall b: nat | sz < b < INT_MAX ensures !accepts(b) {
        assert accepts(b) ==> accepts(next);
      }
    }
  }

  /** The static max_pipe_size; 0 until a size has been determined. */
  class PipeLimit {
    var known: nat

    constructor ()
      ensures known == 0
    {
      known := 0;
    }

    /** `reported` is the number read from the system, 0 when there is none; only an accepted report is remembered. */
    method Get(accepts: nat -> bool, pageSize: nat, reported: nat) returns (sz: nat)
      requires 0 < pageSize < INT_MAX
      modifies this
      ensures old(known) != 0 ==> sz == known == old(known)
      ensures old(known) == 0 && reported >= pageSize && accepts(reported) ==> sz == known == reported
      ensures old(known) == 0 && !(reported >= pageSize && accepts(reported)) ==> known == 0 && pageSize <= sz < 0x7fff_ffff
      ensures old(known) == 0 && !(reported >= pageSize && accepts(reported)) ==>
        (accepts(sz) && (sz + 1 == 0x7fff_ffff || !accepts(sz + 1))) || (sz == pageSize && !accepts(pageSize))
    {
      if known != 0 {
        return known;
      }
      if Check(accepts, pageSize, reported) {
        known := reported;
        return known;
      }
      var passes;
      sz, passes := Chop(accepts, pageSize);
    }
  }
}
