/**
  Port reservation of core-net.c: a first-fit allocator of contiguous ports over a
  shared bitmap.  Each call is one atomic operation; what may fail inside it is
  taking the map's lock, which the scan drops and retakes after every 17 ports.
 */
module Ports {
  const PORTS: nat := 65536

  type Bitmap = b: seq<bool> | |b| == PORTS witness seq(PORTS, _ => false)

  predicate RangeOk(start: int, end: int) {
    start <= end && 0 <= start < PORTS && 0 <= end < PORTS
  }

  predicate Clear(taken: Bitmap, bound: Bitmap, port: nat)
    requires port < PORTS
  {
    !taken[port] && !bound[port]
  }

  /** All `count` ports from base on exist and are clear in both bitmaps. */
  ghost predicate Free(taken: Bitmap, bound: Bitmap, base: nat, count: nat) {
    base + count <= PORTS && forall k | base <= k < base + count :: Clear(taken, bound, k)
  }

  /** The least base at or after `start` whose block is free, -1 when there is none. */
  ghost function FirstFit(taken: Bitmap, bound: Bitmap, start: nat, count: nat): int
    decreases PORTS - start
  {
    if start + count > PORTS then -1
    else if Free(taken, bound, start, count) then start
    else if start >= PORTS then -1
    else FirstFit(taken, bound, start + 1, count)
  }

  lemma {:induction false} FirstFitIsLeast(taken: Bitmap, bound: Bitmap, start: nat, count: nat)
    ensures var p := FirstFit(taken, bound, start, count);
      && p >= -1 && (p != -1 ==> start <= p && Free(taken, bound, p, count))
      && (forall b: nat :: start <= b && Free(taken, bound, b, count) ==> 0 <= p <= b)
    decreases PORTS - start
  {
    if start + count <= PORTS && !Free(taken, bound, start, count) && start < PORTS {
      FirstFitIsLeast(taken, bound, start + 1, count);
    }
  }

  /** Some port of the block is allocated or bound. */
  ghost predicate Blocked(taken: Bitmap, bound: Bitmap, base: nat, count: nat) {
    exists k :: base <= k < base + count && k < 65536 && (taken[k] || bound[k])
  }

  /** No base from `from` on and before `to` has a free block. */
  ghost predicate AllBlocked(taken: Bitmap, bound: Bitmap, from: int, to: int, count: nat) {
    forall b: nat | from <= b < to :: Blocked(taken, bound, b, count)
  }

  /** On the two bitmaps: the ports found are allocated to nobody and bound by nobody, and no earlier block was like that. */
  lemma FirstFitOnBitmaps(taken: Bitmap, bound: Bitmap, start: nat, count: nat)
    ensures var p := FirstFit(taken, bound, start, count);
      && (p != -1 ==> start <= p && p + count <= 65536 && forall k | p <= k < p + count :: !taken[k] && !bound[k])
      && (p != -1 ==> AllBlocked(taken, bound, start, p, count))
      && (p == -1 ==> AllBlocked(taken, bound, start, 65537 - count, count))
  {
    FirstFitIsLeast(taken, bound, start, count);
    var p := FirstFit(taken, bound, start, count);
    if p != -1 {
      forall k | p <= k < p + count ensures !taken[k] && !bound[k] {
        assert Clear(taken, bound, k);
      }
    }
    forall b: nat | start <= b && b + count <= 65536 && !Free(taken, bound, b, count) ensures Blocked(taken, bound, b, count) {
      var k :| b <= k < b + count && !Clear(taken, bound, k);
      assert taken[k] || bound[k];
    }
  }

  /** The attempts to take the lock while passing from start to end: one, and one more for each 17 ports passed. */
  lemma AttemptsAre(start: nat, end: nat)
    requires start <= end
    ensures 17 * (Attempts(start, end) - 1) <= end - start < 17 * Attempts(start, end)
  {
  }

  /** A base that is free and has no free base before it is the first fit. */
  lemma LeastIsFirstFit(taken: Bitmap, bound: Bitmap, start: nat, count: nat, base: nat)
    requires start <= base && Free(taken, bound, base, count)
    requires forall b: nat :: start <= b < base ==> !Free(taken, bound, b, count)
    ensures FirstFit(taken, bound, start, count) == base
  {
    FirstFitIsLeast(taken, bound, start, count);
  }

  lemma NoneIsFirstFit(taken: Bitmap, bound: Bitmap, start: nat, count: nat)
    requires forall b: nat :: start <= b ==> !Free(taken, bound, b, count)
    ensures FirstFit(taken, bound, start, count) == -1
  {
    FirstFitIsLeast(taken, bound, start, count);
  }

  /** Where the scan stops: at the last port of the first fit, or after the last port there is. */
  ghost function ScanEnd(taken: Bitmap, bound: Bitmap, start: nat, count: nat): (end: int)
    requires start < PORTS && count > 0
    ensures start <= end <= PORTS
  {
    FirstFitIsLeast(taken, bound, start, count);
    var p := FirstFit(taken, bound, start, count);
    if p == -1 then PORTS else p + count - 1
  }

  /** The lock is taken once, and again after every 17 ports passed over. */
  function Attempts(start: nat, end: nat): nat
    requires start <= end
  {
    1 + (end - start) / 17
  }

  /** Every attempt that the scan makes to take the lock succeeds. */
  ghost predicate AllLocked(taken: Bitmap, bound: Bitmap, start: nat, count: nat, locks: nat -> bool)
    requires start < PORTS && count > 0
  {
    forall k: nat | k < Attempts(start, ScanEnd(taken, bound, start, count)) :: locks(k)
  }

  lemma AllLockedIfAlways(taken: Bitmap, bound: Bitmap, start: nat, count: nat, locks: nat -> bool)
    requires start < PORTS && count > 0
    ensures (forall k :: locks(k)) ==> AllLocked(taken, bound, start, count, locks)
  {
  }

  lemma FirstLockFails(taken: Bitmap, bound: Bitmap, start: nat, count: nat, locks: nat -> bool)
    requires start < PORTS && count > 0 && !locks(0)
    ensures !AllLocked(taken, bound, start, count, locks)
  {
    assert Attempts(start, ScanEnd(taken, bound, start, count)) >= 1;
  }

  /** The scan is about to look at port i, and retaking the lock fails: the attempt is one it makes. */
  lemma LaterLockFails(taken: Bitmap, bound: Bitmap, start: nat, count: nat, locks: nat -> bool, i: nat, attempt: nat)
    requires start < PORTS && count > 0 && start <= i <= PORTS && i - start == 17 * attempt && !locks(attempt)
    requires forall b: nat :: start <= b && b + count <= i ==> !Free(taken, bound, b, count)
    ensures !AllLocked(taken, bound, start, count, locks)
  {
    FirstFitIsLeast(taken, bound, start, count);
    assert ScanEnd(taken, bound, start, count) >= i;
  }

  lemma LocksSucceeded(taken: Bitmap, bound: Bitmap, start: nat, count: nat, locks: nat -> bool, attempts: nat, rest: nat)
    requires start < PORTS && count > 0 && rest < 17 && attempts > 0
    requires ScanEnd(taken, bound, start, count) - start == 17 * (attempts - 1) + rest
    requires forall k: nat | k < attempts :: locks(k)
    ensures AllLocked(taken, bound, start, count, locks)
  {
    assert Attempts(start, ScanEnd(taken, bound, start, count)) == attempts;
  }

  function Mark(taken: Bitmap, base: int, count: int, value: bool): Bitmap {
    seq(PORTS, i requires 0 <= i < PORTS => if base <= i < base + count then value else taken[i])
  }

  // ---------- runs of whole calls ----------

  datatype Block = Block(base: nat, count: nat)

  /** The bitmap, and the blocks handed out and not yet released. */
  datatype State = State(taken: Bitmap, live: seq<Block>)

  datatype Call =
    | Reserve(start: int, end: int, bound: Bitmap, locked: bool)
    | Release(index: nat)

  predicate Covers(b: Block, port: nat) {
    b.base <= port < b.base + b.count
  }

  /** `locked` is false when one of the call's attempts to take the lock fails, that is, when AllLocked is. */
  ghost function Result(s: State, c: Call): int
    requires c.Reserve?
  {
    if !RangeOk(c.start, c.end) || !c.locked then -1
    else FirstFit(s.taken, c.bound, c.start, c.end - c.start + 1)
  }

  ghost function Step(s: State, c: Call): State {
    match c
    case Reserve(start, end, bound, locked) =>
      var port := Result(s, c);
      if port < 0 then s
      else State(Mark(s.taken, port, end - start + 1, true), s.live + [Block(port, end - start + 1)])
    case Release(i) =>
      if i >= |s.live| then s
      else State(Mark(s.taken, s.live[i].base, s.live[i].count, false), s.live[..i] + s.live[i + 1..])
  }

  ghost function Run(calls: seq<Call>): State {
    if calls == [] then State(seq(PORTS, _ => false), [])
    else Step(Run(calls[..|calls| - 1]), calls[|calls| - 1])
  }

  ghost predicate Inv(s: State) {
    && (forall i | 0 <= i < |s.live| :: s.live[i].count > 0 && s.live[i].base + s.live[i].count <= PORTS)
    && (forall i, j, k | 0 <= i < |s.live| && 0 <= j < |s.live| && Covers(s.live[i], k) && Covers(s.live[j], k) :: i == j)
    && (forall k | 0 <= k < PORTS :: s.taken[k] <==> exists i :: 0 <= i < |s.live| && Covers(s.live[i], k))
  }

  lemma ReserveKeepsInv(s: State, c: Call)
    requires Inv(s) && c.Reserve?
    ensures Inv(Step(s, c))
  {
    var port, t := Result(s, c), Step(s, c);
    if port >= 0 {
      var n, b := |s.live|, Block(port, c.end - c.start + 1);
      FirstFitIsLeast(s.taken, c.bound, c.start, b.count);
      assert forall k: nat | Covers(b, k) :: k < PORTS && Clear(s.taken, c.bound, k);
      assert t.live[n] == b && forall i | 0 <= i < n :: t.live[i] == s.live[i];
      assert forall i, k | 0 <= i < n && Covers(s.live[i], k) :: !Covers(b, k);
      forall k | 0 <= k < PORTS ensures t.taken[k] <==> exists i :: 0 <= i < |t.live| && Covers(t.live[i], k) {
        if Covers(b, k) {
          assert Covers(t.live[n], k);
        } else if s.taken[k] {
          var i :| 0 <= i < n && Covers(s.live[i], k);
          assert Covers(t.live[i], k);
        }
      }
    }
  }

  lemma ReleaseKeepsInv(s: State, r: nat)
    requires Inv(s) && r < |s.live|
    ensures Inv(Step(s, Release(r)))
  {
    var t, b := Step(s, Release(r)), s.live[r];
    assert forall i | 0 <= i < |t.live| :: t.live[i] == s.live[if i < r then i else i + 1];
    forall k | 0 <= k < PORTS ensures t.taken[k] <==> exists i :: 0 <= i < |t.live| && Covers(t.live[i], k) {
      if !Covers(b, k) && s.taken[k] {
        var i :| 0 <= i < |s.live| && Covers(s.live[i], k);
        assert Covers(t.live[if i < r then i else i - 1], k);
      }
    }
  }

  lemma {:induction false} RunInv(calls: seq<Call>)
    ensures Inv(Run(calls))
    decreases |calls|
  {
    if calls != [] {
      var s, c := Run(calls[..|calls| - 1]), calls[|calls| - 1];
      RunInv(calls[..|calls| - 1]);
      hide Inv;
      if c.Reserve? {
        ReserveKeepsInv(s, c);
      } else if c.index < |s.live| {
        ReleaseKeepsInv(s, c.index);
      }
    }
  }

  /** Over every run of calls, outstanding reservations are disjoint and the bitmap is exactly their union. */
  lemma ReservationsAreDisjoint(calls: seq<Call>)
    ensures var s := Run(calls);
      && (forall i, j, k | 0 <= i < j < |s.live| && Covers(s.live[i], k) :: !Covers(s.live[j], k))
      && (forall k | 0 <= k < PORTS :: s.taken[k] <==> exists i :: 0 <= i < |s.live| && Covers(s.live[i], k))
  {
    RunInv(calls);
  }

  /** Releasing what a reserve just returned restores the bitmap, whatever was reserved before. */
  lemma ReleaseUndoesReserve(s: State, c: Call)
    requires c.Reserve? && Result(s, c) >= 0
    ensures Step(Step(s, c), Release(|s.live|)) == s
  {
    var t := Step(s, c);
    FirstFitIsLeast(s.taken, c.bound, c.start, c.end - c.start + 1);
    var u, b := Step(t, Release(|s.live|)), t.live[|s.live|];
    assert b == Block(Result(s, c), c.end - c.start + 1);
    forall k: nat | k < PORTS ensures u.taken[k] == s.taken[k] {
      if Covers(b, k) {
        assert Clear(s.taken, c.bound, k);
      }
    }
    assert u.taken == s.taken && u.live == s.live;
  }

  // ---------- the calls themselves ----------

  class PortMap {
    var taken: array<bool>

    ghost predicate Valid()
      reads this
    {
      taken.Length == PORTS
    }

    ghost function Bits(): Bitmap
      reads this, taken
      requires Valid()
    {
      taken[..]
    }

    constructor ()
      ensures Valid() && fresh(taken)
      ensures Bits() == seq(PORTS, _ => false)
    {
      taken := new bool[PORTS](_ => false);
    }

    /** The k-th attempt to take the lock within the call succeeds when locks(k). */
    method ReservePorts(start: int, end: int, bound: Bitmap, locks: nat -> bool) returns (port: int)
      requires Valid()
      modifies taken
      ensures Valid()
      ensures !(0 <= start <= end < 65536) ==> port == -1
      ensures port != -1 ==> start <= port && port + (end - start) < 65536
      ensures port != -1 ==> forall k | port <= k <= port + (end - start) :: !old(Bits())[k] && !bound[k]
      ensures port != -1 ==> AllBlocked(old(Bits()), bound, start, port, end - start + 1)
      ensures port == -1 && 0 <= start <= end < 65536 && (forall k :: locks(k)) ==>
        AllBlocked(old(Bits()), bound, start, 65536 - (end - start), end - start + 1)
      ensures RangeOk(start, end) ==>
        port == if AllLocked(old(Bits()), bound, start, end - start + 1, locks)
                then FirstFit(old(Bits()), bound, start, end - start + 1) else -1
      ensures Bits() == if port == -1 then old(Bits()) else Mark(old(Bits()), port, end - start + 1, true)
    {
      port := -1;
      var quantity := end - start + 1;
      if !RangeOk(start, end) {
        return;
      }
      FirstFitOnBitmaps(Bits(), bound, start, quantity);
      hide FirstFit, Free, AllBlocked, AllLocked;
      AllLockedIfAlways(Bits(), bound, start, quantity, locks);
      if start == end {
        port := ReserveOne(start, bound, locks);
      } else {
        port := FindBlock(start, quantity, bound, locks);
        if port != -1 {
          var i := port;
          while i < port + quantity
            invariant port <= i <= port + quantity <= PORTS
            invariant Bits() == Mark(old(Bits()), port, i - port, true)
          {
            taken[i] := true;
            i := i + 1;
          }
        }
      }
    }

    /** The single-port path. */
    method ReserveOne(start: nat, bound: Bitmap, locks: nat -> bool) returns (port: int)
      requires Valid() && start < PORTS
      modifies taken
      ensures port == if AllLocked(old(Bits()), bound, start, 1, locks) then FirstFit(old(Bits()), bound, start, 1) else -1
      ensures Bits() == if port == -1 then old(Bits()) else Mark(old(Bits()), port, 1, true)
    {
      ghost var bits := Bits();
      port := -1;
      var yieldCount, attempt := 0, 0;
      if !locks(attempt) {
        FirstLockFails(bits, bound, start, 1, locks);
        return;
      }
      attempt := attempt + 1;
      var i := start;
      while i < PORTS
        invariant attempt > 0 && 0 <= yieldCount <= 16 && i - start == 17 * (attempt - 1) + yieldCount
        invariant forall k: nat | k < attempt :: locks(k)
        invariant start <= i <= PORTS && Bits() == bits && port == -1
        invariant forall b: nat :: start <= b < i ==> !Free(bits, bound, b, 1)
      {
        if !taken[i] && !bound[i] {
          assert Free(bits, bound, i, 1);
          LeastIsFirstFit(bits, bound, start, 1, i);
          LocksSucceeded(bits, bound, start, 1, locks, attempt, yieldCount);
          taken[i] := true;
          port := i;
          return;
        }
        assert !Clear(bits, bound, i);
        yieldCount := yieldCount + 1;
        if yieldCount > 16 {
          yieldCount := 0;
          if !locks(attempt) {
            LaterLockFails(bits, bound, start, 1, locks, i + 1, attempt);
            return;
          }
          attempt := attempt + 1;
        }
        i := i + 1;
      }
      NoneIsFirstFit(bits, bound, start, 1);
      LocksSucceeded(bits, bound, start, 1, locks, attempt, yieldCount);
    }

    /** The scan of the range path: j counts the clear ports ending at i. */
    method FindBlock(start: nat, quantity: nat, bound: Bitmap, locks: nat -> bool) returns (port: int)
      requires Valid() && start < PORTS && quantity > 0
      ensures port == if AllLocked(Bits(), bound, start, quantity, locks) then FirstFit(Bits(), bound, start, quantity) else -1
    {
      ghost var bits := Bits();
      port := -1;
      var j, yieldCount, attempt := 0, 0, 0;
      if !locks(attempt) {
        FirstLockFails(bits, bound, start, quantity, locks);
        return;
      }
      attempt := attempt + 1;
      var i := start;
      while i < PORTS
        invariant attempt > 0 && 0 <= yieldCount <= 16 && i - start == 17 * (attempt - 1) + yieldCount
        invariant forall k: nat | k < attempt :: locks(k)
        invariant start <= i <= PORTS && 0 <= j <= i - start && j < quantity && port == -1
        invariant forall k | i - j <= k < i :: Clear(bits, bound, k)
        invariant start < i - j ==> !Clear(bits, bound, i - j - 1)
        invariant forall b: nat :: start <= b && b + quantity <= i ==> !Free(bits, bound, b, quantity)
      {
        if !taken[i] && !bound[i] {
          j := j + 1;
          if j == quantity {
            port := i + 1 - quantity;
            assert Free(bits, bound, port, quantity);
            LeastIsFirstFit(bits, bound, start, quantity, port);
            LocksSucceeded(bits, bound, start, quantity, locks, attempt, yieldCount);
            return;
          }
          assert forall b: nat :: start <= b && b + quantity == i + 1 ==> b <= i - j && !Free(bits, bound, b, quantity);
        } else {
          port := -1;
          j := 0;
          assert !Clear(bits, bound, i);
        }
        yieldCount := yieldCount + 1;
        if yieldCount > 16 {
          yieldCount := 0;
          if !locks(attempt) {
            LaterLockFails(bits, bound, start, quantity, locks, i + 1, attempt);
            return;
          }
          attempt := attempt + 1;
        }
        i := i + 1;
      }
      NoneIsFirstFit(bits, bound, start, quantity);
      LocksSucceeded(bits, bound, start, quantity, locks, attempt, yieldCount);
    }

    method ReleasePorts(start: int, end: int)
      requires Valid()
      modifies taken
      ensures Valid()
      ensures Bits() == if RangeOk(start, end) then Mark(old(Bits()), start, end - start + 1, false) else old(Bits())
    {
      if RangeOk(start, end) {
        var i := start;
        while i <= end
          invariant start <= i <= end + 1
          invariant Bits() == Mark(old(Bits()), start, i - start, false)
        {
          taken[i] := false;
          i := i + 1;
        }
      }
    }

    /** Any run of calls on the map: it ends in the state of the model. */
    method RunCalls(requests: seq<Request>) returns (live: seq<Block>)
      requires Valid() && Bits() == seq(PORTS, _ => false)
      modifies taken
      ensures Valid() && State(Bits(), live) == Run(Calls(requests))
    {
      hide AllLocked, Run, Calls, Inv, FirstFit, Free, Attempts;
      live := [];
      NoCalls();
      var k := 0;
      while k < |requests|
        invariant 0 <= k <= |requests| && Valid()
        invariant State(Bits(), live) == Run(Calls(requests[..k]))
      {
        ghost var s := State(Bits(), live);
        NextCall(requests, k);
        RunInv(Calls(requests[..k]));
        match requests[k] {
          case Take(start, end, bound, locks) =>
            var port := ReservePorts(start, end, bound, locks);
            if port != -1 {
              live := live + [Block(port, end - start + 1)];
            }
          case Give(i) =>
            if i < |live| {
              LiveInRange(s, i);
              ReleasePorts(live[i].base, live[i].base + live[i].count - 1);
              live := live[..i] + live[i + 1..];
            }
        }
        assert State(Bits(), live) == Step(s, AsCall(s, requests[k]));
        k := k + 1;
      }
      assert requests[..k] == requests;
    }
  }

  lemma LiveInRange(s: State, i: nat)
    requires Inv(s) && i < |s.live|
    ensures s.live[i].count > 0 && s.live[i].base + s.live[i].count <= PORTS
  {
  }

  /** A call as it is made: which attempts to take the lock succeed, and which outstanding block is given back. */
  datatype Request =
    | Take(start: int, end: int, bound: Bitmap, locks: nat -> bool)
    | Give(index: nat)

  ghost function AsCall(s: State, r: Request): Call {
    match r
    case Take(start, end, bound, locks) =>
      Reserve(start, end, bound, RangeOk(start, end) && AllLocked(s.taken, bound, start, end - start + 1, locks))
    case Give(i) => Release(i)
  }

  ghost function Calls(requests: seq<Request>): seq<Call> {
    if requests == [] then []
    else
      var before := Calls(requests[..|requests| - 1]);
      before + [AsCall(Run(before), requests[|requests| - 1])]
  }

  lemma NoCalls()
    ensures Run(Calls([])) == State(seq(PORTS, _ => false), [])
  {
  }

  lemma NextCall(requests: seq<Request>, k: nat)
    requires k < |requests|
    ensures var s := Run(Calls(requests[..k]));
      Run(Calls(requests[..k + 1])) == Step(s, AsCall(s, requests[k]))
  {
    hide AsCall, Step;
    var before := Calls(requests[..k]);
    assert requests[..k + 1][..k] == requests[..k];
    var calls := Calls(requests[..k + 1]);
    assert calls[..|calls| - 1] == before;
  }
}
