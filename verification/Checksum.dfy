/**
  stress_net_ipv4_checksum: the Internet checksum with a 32-bit accumulator and two
  folds, against the end-around-carry sum of section 1 of RFC 1071 (words and a
  trailing odd byte as a little-endian host reads them).
 */
module Checksum {
  import opened Arithmetic

  const LIMIT: nat := 131074     // 65537 words of 65535 come to 2^32 - 1 exactly

  function FirstWord(data: seq<Byte>): (w: nat)
    requires data != []
    ensures w <= 65535
  {
    var low: nat := data[0];
    var high: nat := if |data| == 1 then 0 else data[1];
    low + 256 * high
  }

  function Rest(data: seq<Byte>): seq<Byte>
    requires data != []
  {
    if |data| == 1 then [] else data[2..]
  }

  /** The sum of the words, in unbounded arithmetic. */
  function Sum(data: seq<Byte>): nat
    decreases |data|
  {
    if data == [] then 0 else FirstWord(data) + Sum(Rest(data))
  }

  // ---------- the reference ----------

  /** One's-complement addition of 16-bit words: the carry comes back in at the low end. */
  function OnesAdd(a: nat, b: nat): nat {
    if a + b > 65535 then a + b - 65535 else a + b
  }

  function OnesSum(data: seq<Byte>): nat
    decreases |data|
  {
    if data == [] then 0 else OnesAdd(FirstWord(data), OnesSum(Rest(data)))
  }

  function Reference(data: seq<Byte>): int {
    65535 - OnesSum(data)
  }

  /** The one's-complement representative of a sum: 0 only for 0, otherwise 1..65535. */
  function Ones(s: nat): nat {
    if s == 0 then 0 else (s - 1) % 65535 + 1
  }

  lemma OnesOfAdd(w: nat, s: nat)
    requires w <= 65535
    ensures OnesAdd(w, Ones(s)) == Ones(w + s)
  {
    if s > 0 {
      var q := (s - 1) / 65535;
      assert s - 1 == 65535 * q + (s - 1) % 65535;
      if w + Ones(s) > 65535 {
        assert w + s - 1 == 65535 * (q + 1) + (w + Ones(s) - 65536);
      } else {
        assert w + s - 1 == 65535 * q + (w + Ones(s) - 1);
      }
    }
  }

  lemma {:induction false} OnesSumIs(data: seq<Byte>)
    ensures OnesSum(data) == Ones(Sum(data))
    decreases |data|
  {
    if data != [] {
      OnesSumIs(Rest(data));
      OnesOfAdd(FirstWord(data), Sum(Rest(data)));
    }
  }

  /** The sum by bytes: an even place counts once, an odd one 256 times. */
  function ByteSum(data: seq<Byte>): nat {
    if data == [] then 0
    else
      var n := |data| - 1;
      var last: nat := data[n];
      ByteSum(data[..n]) + (if n % 2 == 0 then last else 256 * last)
  }

  lemma {:induction false} SumIsByteSum(data: seq<Byte>)
    ensures Sum(data) == ByteSum(data)
    decreases |data|
  {
    if |data| == 1 {
      assert Rest(data) == [] && data[..0] == [];
      assert Sum(data) == FirstWord(data) + Sum([]);
    } else if |data| > 1 {
      SumIsByteSum(Rest(data));
      ByteSumFront(data);
    }
  }

  lemma {:induction false} ByteSumFront(data: seq<Byte>)
    requires |data| >= 2
    ensures ByteSum(data) == data[0] + 256 * data[1] + ByteSum(data[2..])
    decreases |data|
  {
    var n := |data| - 1;
    if n == 1 {
      assert data[..1][..0] == [] && data[2..] == [];
      assert ByteSum(data[..1]) == data[0];
    } else {
      ByteSumFront(data[..n]);
      assert data[..n][2..] == data[2..][..n - 2];
    }
  }

  // ---------- what the code computes ----------

  /** The two folds and the complement, from the 32-bit accumulator. */
  function Folded(sum: nat): int {
    var once := sum / 65536 + sum % 65536;
    var twice := once + once / 65536;
    65535 - twice % 65536
  }

  function Code(data: seq<Byte>): int {
    Folded(Sum(data) % WORD32)
  }

  lemma FoldedIs(sum: nat)
    requires sum < WORD32
    ensures Folded(sum) == 65535 - Ones(sum)
  {
    var q, r := sum / 65536, sum % 65536;
    if sum > 0 {
      if q + r <= 65535 {
        DivModUnique(sum - 1, q, q + r - 1, 65535);
        DivModUnique(q + r, 0, q + r, 65536);
      } else {
        DivModUnique(sum - 1, q + 1, q + r - 65536, 65535);
        DivModUnique(q + r, 1, q + r - 65536, 65536);
        DivModUnique(q + r + 1, 1, q + r - 65535, 65536);
      }
    }
  }

  lemma {:induction false} SumBound(data: seq<Byte>)
    ensures Sum(data) <= 65535 * (|data| / 2) + if |data| % 2 == 1 then 255 else 0
    decreases |data|
  {
    if data != [] {
      SumBound(Rest(data));
    }
  }

  lemma SumFits(data: seq<Byte>)
    requires |data| <= LIMIT
    ensures Sum(data) < WORD32 && Code(data) == 65535 - Ones(Sum(data))
  {
    hide Sum, Folded, Ones;
    SumBound(data);
    FoldedIs(Sum(data));
  }

  /** Up to LIMIT bytes the accumulator cannot overflow, two folds suffice, and the result is the Internet checksum. */
  lemma CorrectUpToLimit(data: seq<Byte>)
    requires |data| <= LIMIT
    ensures Sum(data) < WORD32 && Code(data) == Reference(data)
  {
    hide Sum, Code, Ones, OnesSum;
    SumFits(data);
    OnesSumIs(data);
  }

  function Overflowing(n: nat): (data: seq<Byte>)
    ensures |data| == n
  {
    seq(n, i => if i < LIMIT then 255 else if i == LIMIT then 1 else 0)
  }

  lemma {:induction false} ZerosSum(data: seq<Byte>)
    requires forall i | 0 <= i < |data| :: data[i] == 0
    ensures Sum(data) == 0
    decreases |data|
  {
    if data != [] {
      ZerosSum(Rest(data));
    }
  }

  lemma {:induction false} OverflowingSum(data: seq<Byte>, words: nat)
    requires |data| > 2 * words
    requires forall i | 0 <= i < |data| :: data[i] == if i < 2 * words then 255 else if i == 2 * words then 1 else 0
    ensures Sum(data) == 65535 * words + 1
    decreases words
  {
    if words == 0 {
      ZerosSum(Rest(data));
    } else {
      OverflowingSum(Rest(data), words - 1);
    }
  }

  /** The limit is exact: the code is right on every input of a size exactly when the size is at most LIMIT. */
  lemma CorrectIff(n: nat)
    ensures (forall data: seq<Byte> | |data| == n :: Code(data) == Reference(data)) <==> n <= 131074
  {
    if n <= LIMIT {
      forall data: seq<Byte> | |data| == n ensures Code(data) == Reference(data) {
        CorrectUpToLimit(data);
      }
    } else {
      var bad := Overflowing(n);
      OverflowingSum(bad, LIMIT / 2);
      assert Sum(bad) == WORD32;
      OnesSumIs(bad);
      assert Code(bad) == 65535 && Reference(bad) == 65534;
    }
  }

  // ---------- verifying a stored checksum ----------

  function Stored(data: seq<Byte>, at: nat, sum: nat): seq<Byte>
    requires at + 1 < |data| && sum <= 65535
  {
    data[at := sum % 256][at + 1 := sum / 256]
  }

  lemma {:induction false} StoredSum(data: seq<Byte>, at: nat, sum: nat)
    requires at + 1 < |data| && at % 2 == 0 && sum <= 65535
    requires data[at] == 0 && data[at + 1] == 0
    ensures Sum(Stored(data, at, sum)) == Sum(data) + sum
    decreases |data|
  {
    if at == 0 {
      assert Rest(Stored(data, at, sum)) == Rest(data);
    } else {
      assert Rest(Stored(data, at, sum)) == Stored(Rest(data), at - 2, sum);
      assert FirstWord(Stored(data, at, sum)) == FirstWord(data);
      StoredSum(Rest(data), at - 2, sum);
    }
  }

  /** A sum and the complement of its representative come to a non-zero multiple of 65535. */
  lemma OnesCompletes(s: nat)
    ensures 0 <= 65535 - Ones(s) <= 65535 && Ones(s + 65535 - Ones(s)) == 65535
  {
    if s > 0 {
      var q := (s - 1) / 65535;
      assert s - 1 == 65535 * q + (s - 1) % 65535;
      assert s + 65535 - Ones(s) - 1 == 65535 * q + 65534;
    }
  }

  /** A checksum stored in its zeroed, aligned word makes the data check to zero. */
  lemma StoredChecksumVerifies(data: seq<Byte>, at: nat)
    requires |data| <= LIMIT && at + 1 < |data| && at % 2 == 0
    requires data[at] == 0 && data[at + 1] == 0
    ensures 0 <= Code(data) <= 65535 && Code(Stored(data, at, Code(data))) == 0
  {
    hide Sum, Code, Ones;
    SumFits(data);
    OnesCompletes(Sum(data));
    StoredSum(data, at, Code(data));
    SumFits(Stored(data, at, Code(data)));
  }

  // ---------- the loop ----------

  lemma Accumulate(total: nat, w: nat)
    ensures (total % WORD32 + w) % WORD32 == (total + w) % WORD32
  {
  }

  /** The sum with the words before k already taken off. */
  lemma SumFrom(data: seq<Byte>, k: nat)
    requires k < |data|
    ensures k + 1 < |data| ==> Sum(data[k..]) == FirstWord(data[k..]) + Sum(data[k + 2..])
    ensures k + 1 < |data| ==> FirstWord(data[k..]) == data[k] as int + 256 * data[k + 1] as int
    ensures k + 1 == |data| ==> Sum(data[k..]) == data[k]
  {
    if k + 1 < |data| {
      assert data[k..][2..] == data[k + 2..];
    } else {
      assert Rest(data[k..]) == [];
    }
  }

  method Ipv4Checksum(ptr: array?<Byte>, sz: nat) returns (checksum: int)
    requires ptr != null ==> sz <= ptr.Length
    ensures ptr == null ==> checksum == 0
    ensures ptr != null ==> checksum == Code(ptr[..sz])
  {
    hide Sum, Folded, FirstWord;
    if ptr == null {
      return 0;
    }
    ghost var data := ptr[..sz];
    var sum, n, at := 0, sz, 0;
    ghost var total: nat := 0;
    assert data[0..] == data;
    while n > 1
      invariant 0 <= n && at + n == sz
      invariant sum == total % WORD32 && total + Sum(data[at..]) == Sum(data)
    {
      SumFrom(data, at);
      var low: nat, high: nat := ptr[at], ptr[at + 1];
      Accumulate(total, low + 256 * high);
      sum := (sum + (low + 256 * high)) % WORD32;
      total := total + (low + 256 * high);
      at := at + 2;
      n := n - 2;
    }
    if n > 0 {
      SumFrom(data, at);
      var last: nat := ptr[at];
      Accumulate(total, last);
      sum := (sum + last) % WORD32;
      total := total + last;
    } else {
      assert data[at..] == [];
      EmptySum();
    }
    assert sum == Sum(data) % WORD32;
    SecondFoldFits(sum);
    sum := sum / 65536 + sum % 65536;
    sum := (sum + sum / 65536) % WORD32;
    checksum := 65535 - sum % 65536;
  }

  lemma SecondFoldFits(sum: nat)
    requires sum < WORD32
    ensures var once := sum / 65536 + sum % 65536;
      Folded(sum) == 65535 - (once + once / 65536) % WORD32 % 65536
  {
    var once := sum / 65536 + sum % 65536;
    DivModUnique(once + once / 65536, 0, once + once / 65536, WORD32);
  }

  lemma EmptySum()
    ensures Sum([]) == 0
  {
  }
}
