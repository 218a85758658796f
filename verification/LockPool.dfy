/**
  The shared lock pool of core-lock.c with its atomic spinlock back end, as a
  system of interleaved steps: each step is one access to shared memory by one
  process.  There is no bound on the number of processes.
 */
module LockPool {
  const MAGIC: nat := 0x387cb9e5
  const MAGIC_FREE: nat := 0
  const LOCK_MAX: nat := 16384

  datatype Slot = Slot(magic: nat, flag: bool)

  type Pid = nat

  /** Where a process is inside the library. */
  datatype Pc =
    | Idle
      // stress_lock_create: stress_lock_get, then init
    | GetValid
    | GetSpin
    | GetScan(i: nat)
    | GetMark(i: nat)
    | GetUnlock(found: nat)   // 0 stands for the null result
    | InitFlag(h: nat)
      // stress_lock_destroy: stress_lock_put
    | PutValid(h: nat)
    | PutSpin(h: nat)
    | PutMagic(h: nat)
    | PutFlag(h: nat)
    | PutUnlock
      // stress_lock_acquire and stress_lock_release
    | AcquireValid(h: nat)
    | AcquireSpin(h: nat)
    | ReleaseValid(h: nat)
    | ReleaseFlag(h: nat)

  /** A process: its position, the handles it created and not destroyed, the locks it was granted and not released. */
  datatype Proc = Proc(pc: Pc, owns: set<nat>, holds: set<nat>)

  datatype State = State(slots: seq<Slot>, procs: map<Pid, Proc>)

  datatype Action =
    | Create
    | Destroy(h: nat)
    | Acquire(h: nat)
    | Release(h: nat)
    | Proceed
    | GiveUp     // the spin loop runs out of time after a failed test-and-set

  function At(s: State, p: Pid): Proc {
    if p in s.procs then s.procs[p] else Proc(Idle, {}, {})
  }

  predicate Owns(s: State, p: Pid, h: nat) {
    h in At(s, p).owns
  }

  predicate Holds(s: State, p: Pid, h: nat) {
    h in At(s, p).holds
  }

  /** The process is inside a call that uses handle h. */
  predicate Using(s: State, p: Pid, h: nat) {
    match At(s, p).pc
    case AcquireValid(g) => g == h
    case AcquireSpin(g) => g == h
    case ReleaseValid(g) => g == h
    case ReleaseFlag(g) => g == h
    case _ => false
  }

  /** The process is in the middle of creating or destroying slot h, whose magic is set. */
  predicate Midway(s: State, p: Pid, h: nat) {
    match At(s, p).pc
    case GetUnlock(g) => g == h && g != 0
    case InitFlag(g) => g == h
    case PutValid(g) => g == h
    case PutSpin(g) => g == h
    case PutMagic(g) => g == h
    case _ => false
  }

  predicate Claims(s: State, p: Pid, h: nat) {
    Owns(s, p, h) || Midway(s, p, h)
  }

  /** Between a successful test-and-set of the big lock and its release. */
  predicate InBig(s: State, p: Pid) {
    match At(s, p).pc
    case GetScan(_) => true
    case GetMark(_) => true
    case GetUnlock(_) => true
    case PutMagic(_) => true
    case PutFlag(_) => true
    case PutUnlock => true
    case _ => false
  }

  // ---------- steps ----------

  /** The assumed discipline: handles are live when used, only the holder releases, only the owner of an idle handle destroys it. */
  ghost predicate Enabled(s: State, p: Pid, a: Action) {
    match a
    case Create => At(s, p).pc == Idle
    case Destroy(h) => At(s, p).pc == Idle && Owns(s, p, h) && forall q :: !Holds(s, q, h) && !Using(s, q, h)
    case Acquire(h) => At(s, p).pc == Idle && exists q :: Owns(s, q, h)
    case Release(h) => At(s, p).pc == Idle && Holds(s, p, h)
    case Proceed => At(s, p).pc != Idle
    case GiveUp =>
      match At(s, p).pc
      case GetSpin => |s.slots| > 0 && s.slots[0].flag
      case PutSpin(_) => |s.slots| > 0 && s.slots[0].flag
      case AcquireSpin(h) => h < |s.slots| && s.slots[h].flag
      case _ => false
  }

  function SetFlag(s: State, h: nat, flag: bool): State {
    if h < |s.slots| then s.(slots := s.slots[h := s.slots[h].(flag := flag)]) else s
  }

  function SetMagic(s: State, h: nat, magic: nat): State {
    if h < |s.slots| then s.(slots := s.slots[h := s.slots[h].(magic := magic)]) else s
  }

  function Goto(s: State, p: Pid, pc: Pc): State {
    s.(procs := s.procs[p := At(s, p).(pc := pc)])
  }

  function SetOwns(s: State, p: Pid, owns: set<nat>): State {
    s.(procs := s.procs[p := At(s, p).(owns := owns)])
  }

  function SetHolds(s: State, p: Pid, holds: set<nat>): State {
    s.(procs := s.procs[p := At(s, p).(holds := holds)])
  }

  predicate Valid(s: State, h: nat) {
    h < |s.slots| && s.slots[h].magic == MAGIC
  }

  predicate Flag(s: State, h: nat) {
    h < |s.slots| && s.slots[h].flag
  }

  function Apply(s: State, p: Pid, a: Action): State {
    match a
    case Create => Goto(s, p, GetValid)
    case Destroy(h) => Goto(SetOwns(s, p, At(s, p).owns - {h}), p, PutValid(h))
    case Acquire(h) => Goto(s, p, AcquireValid(h))
    case Release(h) => Goto(s, p, ReleaseValid(h))
    case Proceed => ProceedFrom(s, p, At(s, p).pc)
    case GiveUp =>
      match At(s, p).pc
      case PutSpin(h) => Goto(SetOwns(s, p, At(s, p).owns + {h}), p, Idle)   // -1: the handle stays valid
      case _ => Goto(s, p, Idle)
  }

  function ProceedFrom(s: State, p: Pid, pc: Pc): State {
    match pc
    case Idle => s
    case GetValid => if Valid(s, 0) then Goto(s, p, GetSpin) else Goto(s, p, Idle)
    case GetSpin => if Flag(s, 0) then s else Goto(SetFlag(s, 0, true), p, GetScan(0))
    case GetScan(i) =>
      if i >= LOCK_MAX || i >= |s.slots| then Goto(s, p, GetUnlock(0))
      else if s.slots[i].magic == MAGIC_FREE then Goto(s, p, GetMark(i))
      else Goto(s, p, GetScan(i + 1))
    case GetMark(i) => Goto(SetMagic(s, i, MAGIC), p, GetUnlock(i))
    case GetUnlock(i) => Goto(SetFlag(s, 0, false), p, if i == 0 then Idle else InitFlag(i))
    case InitFlag(h) => Goto(SetOwns(SetFlag(s, h, false), p, At(s, p).owns + {h}), p, Idle)
    case PutValid(h) => if Valid(s, h) && Valid(s, 0) then Goto(s, p, PutSpin(h)) else Goto(s, p, Idle)
    case PutSpin(h) => if Flag(s, 0) then s else Goto(SetFlag(s, 0, true), p, PutMagic(h))
    case PutMagic(h) => Goto(SetMagic(s, h, MAGIC_FREE), p, PutFlag(h))
    case PutFlag(h) => Goto(SetFlag(s, h, false), p, PutUnlock)
    case PutUnlock => Goto(SetFlag(s, 0, false), p, Idle)
    case AcquireValid(h) => if Valid(s, h) then Goto(s, p, AcquireSpin(h)) else Goto(s, p, Idle)
    case AcquireSpin(h) =>
      if Flag(s, h) then s
      else Goto(SetHolds(SetFlag(s, h, true), p, At(s, p).holds + {h}), p, Idle)
    case ReleaseValid(h) => if Valid(s, h) then Goto(s, p, ReleaseFlag(h)) else Goto(s, p, Idle)
    case ReleaseFlag(h) => Goto(SetHolds(SetFlag(s, h, false), p, At(s, p).holds - {h}), p, Idle)
  }

  /** stress_lock_mem_map: zeroed pages, then slot 0 made the big lock. */
  function Mapped(): State {
    State(seq(LOCK_MAX, i => Slot(if i == 0 then MAGIC else MAGIC_FREE, false)), map[])
  }

  // ---------- the invariant ----------

  ghost predicate TableInv(s: State) {
    && |s.slots| == LOCK_MAX
    && s.slots[0].magic == MAGIC
    && forall h | 0 <= h < LOCK_MAX :: s.slots[h].magic == MAGIC || s.slots[h].magic == MAGIC_FREE
  }

  ghost predicate BigInv(s: State)
    requires TableInv(s)
  {
    && (forall p, q :: InBig(s, p) && InBig(s, q) ==> p == q)
    && (s.slots[0].flag <==> exists p :: InBig(s, p))
  }

  /** Slots in use are slot 0 and the claimed ones; each is claimed by one process only, and in one way. */
  ghost predicate ClaimInv(s: State)
    requires TableInv(s)
  {
    && (forall p: Pid, h: nat :: Claims(s, p, h) ==> 1 <= h < LOCK_MAX && s.slots[h].magic == MAGIC)
    && (forall p: Pid, q: Pid, h: nat :: Claims(s, p, h) && Claims(s, q, h) ==> p == q)
    && (forall p: Pid, h: nat :: !(Owns(s, p, h) && Midway(s, p, h)))
    && (forall h | 1 <= h < LOCK_MAX && s.slots[h].magic == MAGIC :: exists p :: Claims(s, p, h))
  }

  /** The flag of a slot other than 0 is set exactly when one process holds it; locks held or in use are live. */
  ghost predicate HoldInv(s: State)
    requires TableInv(s)
  {
    && (forall p: Pid, q: Pid, h: nat :: Holds(s, p, h) && Holds(s, q, h) ==> p == q)
    && (forall p: Pid, h: nat :: Holds(s, p, h) || Using(s, p, h) ==> exists q :: Owns(s, q, h))
    && (forall p: Pid, h: nat :: Holds(s, p, h) ==> 1 <= h < LOCK_MAX && s.slots[h].flag)
    && (forall h | 1 <= h < LOCK_MAX && s.slots[h].flag :: exists p :: Holds(s, p, h))
  }

  /** What a process in the middle of a call knows. */
  ghost predicate LocalInv(s: State, p: Pid)
    requires TableInv(s)
  {
    match At(s, p).pc
    case GetScan(i) => i <= LOCK_MAX && forall j | 0 <= j < i :: s.slots[j].magic == MAGIC
    case GetMark(i) => 1 <= i < LOCK_MAX && s.slots[i].magic == MAGIC_FREE
    case GetUnlock(i) => i == 0 ==> forall j | 0 <= j < LOCK_MAX :: s.slots[j].magic == MAGIC
    case PutFlag(h) => 1 <= h < LOCK_MAX && s.slots[h].magic == MAGIC_FREE
    case ReleaseValid(h) => Holds(s, p, h)
    case ReleaseFlag(h) => Holds(s, p, h)
    case _ => true
  }

  ghost predicate Inv(s: State) {
    && TableInv(s)
    && BigInv(s)
    && ClaimInv(s)
    && HoldInv(s)
    && forall p :: LocalInv(s, p)
  }

  lemma MappedInv()
    ensures Inv(Mapped())
  {
    var s := Mapped();
    assert forall p :: At(s, p) == Proc(Idle, {}, {});
  }

  // ---------- every step keeps the invariant ----------

  /** Only process p moved from s to t. */
  ghost predicate OnlyMoved(s: State, t: State, p: Pid) {
    forall q | q != p :: At(t, q) == At(s, q)
  }

  lemma BigKept(s: State, t: State, p: Pid)
    requires TableInv(s) && TableInv(t) && BigInv(s) && OnlyMoved(s, t, p)
    requires InBig(t, p) == InBig(s, p) && t.slots[0].flag == s.slots[0].flag
    ensures BigInv(t)
  {
    assert forall q :: InBig(t, q) == InBig(s, q);
  }

  lemma BigTaken(s: State, t: State, p: Pid)
    requires TableInv(s) && TableInv(t) && BigInv(s) && OnlyMoved(s, t, p)
    requires !s.slots[0].flag && InBig(t, p) && t.slots[0].flag
    ensures BigInv(t)
  {
    assert forall q | q != p :: InBig(t, q) == InBig(s, q);
  }

  lemma BigReleased(s: State, t: State, p: Pid)
    requires TableInv(s) && TableInv(t) && BigInv(s) && OnlyMoved(s, t, p)
    requires InBig(s, p) && !InBig(t, p) && !t.slots[0].flag
    ensures BigInv(t)
  {
    assert forall q | q != p :: InBig(t, q) == InBig(s, q);
  }

  /** Claims move between a process's own handles and its midway slot, or not at all. */
  lemma ClaimsKept(s: State, t: State, p: Pid)
    requires TableInv(s) && TableInv(t) && ClaimInv(s) && OnlyMoved(s, t, p)
    requires forall h: nat :: Claims(t, p, h) == Claims(s, p, h)
    requires forall h: nat :: !(Owns(t, p, h) && Midway(t, p, h))
    requires forall h | 0 <= h < LOCK_MAX :: t.slots[h].magic == s.slots[h].magic
    ensures ClaimInv(t)
  {
    assert forall q: Pid, h: nat :: Claims(t, q, h) == Claims(s, q, h);
    assert forall q: Pid, h: nat | q != p :: Owns(t, q, h) == Owns(s, q, h) && Midway(t, q, h) == Midway(s, q, h);
  }

  lemma ClaimAdded(s: State, t: State, p: Pid, g: nat)
    requires TableInv(s) && TableInv(t) && ClaimInv(s) && OnlyMoved(s, t, p)
    requires 1 <= g < LOCK_MAX && s.slots[g].magic == MAGIC_FREE && t.slots[g].magic == MAGIC
    requires forall h: nat :: Claims(t, p, h) == (Claims(s, p, h) || h == g)
    requires forall h: nat :: !(Owns(t, p, h) && Midway(t, p, h))
    requires forall h | 0 <= h < LOCK_MAX && h != g :: t.slots[h].magic == s.slots[h].magic
    ensures ClaimInv(t)
  {
    assert forall q: Pid, h: nat | q != p :: Claims(t, q, h) == Claims(s, q, h);
    assert forall q: Pid, h: nat | q != p :: Owns(t, q, h) == Owns(s, q, h) && Midway(t, q, h) == Midway(s, q, h);
    assert Claims(t, p, g);
    forall h | 1 <= h < LOCK_MAX && h != g && s.slots[h].magic == MAGIC ensures exists q :: Claims(t, q, h) {
      var q :| Claims(s, q, h);
      assert Claims(t, q, h);
    }
  }

  lemma ClaimDropped(s: State, t: State, p: Pid, g: nat)
    requires TableInv(s) && TableInv(t) && ClaimInv(s) && OnlyMoved(s, t, p)
    requires Claims(s, p, g) && t.slots[g].magic == MAGIC_FREE
    requires forall h: nat :: Claims(t, p, h) == (Claims(s, p, h) && h != g)
    requires forall h: nat :: !(Owns(t, p, h) && Midway(t, p, h))
    requires forall h | 0 <= h < LOCK_MAX && h != g :: t.slots[h].magic == s.slots[h].magic
    ensures ClaimInv(t)
  {
    assert forall q: Pid, h: nat | q != p :: Claims(t, q, h) == Claims(s, q, h);
    assert forall q: Pid, h: nat | q != p :: Owns(t, q, h) == Owns(s, q, h) && Midway(t, q, h) == Midway(s, q, h);
  }

  /** Nothing is granted or released; handles in use stay owned. */
  lemma HoldsKept(s: State, t: State, p: Pid)
    requires TableInv(s) && TableInv(t) && HoldInv(s) && OnlyMoved(s, t, p)
    requires forall h: nat :: Holds(t, p, h) == Holds(s, p, h)
    requires forall h: nat :: Using(t, p, h) && !Using(s, p, h) ==> exists q :: Owns(s, q, h)
    requires forall h | Owns(s, p, h) && !Owns(t, p, h) :: forall q :: !Holds(t, q, h) && !Using(t, q, h)
    requires forall h | 1 <= h < LOCK_MAX :: t.slots[h].flag == s.slots[h].flag
    ensures HoldInv(t)
  {
    assert forall q: Pid, h: nat :: Holds(t, q, h) == Holds(s, q, h);
    forall q: Pid, h: nat | Holds(t, q, h) || Using(t, q, h) ensures exists r :: Owns(t, r, h) {
      assert q != p ==> Using(t, q, h) == Using(s, q, h);
      var r :| Owns(s, r, h);
      assert Owns(t, r, h);
    }
  }

  lemma HoldAdded(s: State, t: State, p: Pid, g: nat)
    requires TableInv(s) && TableInv(t) && HoldInv(s) && OnlyMoved(s, t, p)
    requires Using(s, p, g) && 1 <= g < LOCK_MAX && !s.slots[g].flag && t.slots[g].flag
    requires forall h: nat :: Holds(t, p, h) == (Holds(s, p, h) || h == g)
    requires forall h: nat :: !Using(t, p, h) && Owns(t, p, h) == Owns(s, p, h)
    requires forall h | 1 <= h < LOCK_MAX && h != g :: t.slots[h].flag == s.slots[h].flag
    ensures HoldInv(t)
  {
    assert forall q: Pid, h: nat | q != p :: Holds(t, q, h) == Holds(s, q, h) && Using(t, q, h) == Using(s, q, h);
    forall q: Pid, h: nat | Holds(t, q, h) || Using(t, q, h) ensures exists r :: Owns(t, r, h) {
      assert Holds(s, q, h) || Using(s, q, h);
      var r :| Owns(s, r, h);
      assert Owns(t, r, h);
    }
    assert Holds(t, p, g);
    forall h | 1 <= h < LOCK_MAX && h != g && t.slots[h].flag ensures exists q :: Holds(t, q, h) {
      var q :| Holds(s, q, h);
      assert Holds(t, q, h);
    }
  }

  lemma HoldDropped(s: State, t: State, p: Pid, g: nat)
    requires TableInv(s) && TableInv(t) && HoldInv(s) && OnlyMoved(s, t, p)
    requires Holds(s, p, g) && !t.slots[g].flag
    requires forall h: nat :: Holds(t, p, h) == (Holds(s, p, h) && h != g)
    requires forall h: nat :: !Using(t, p, h) && Owns(t, p, h) == Owns(s, p, h)
    requires forall h | 1 <= h < LOCK_MAX && h != g :: t.slots[h].flag == s.slots[h].flag
    ensures HoldInv(t)
  {
    assert forall q: Pid, h: nat | q != p :: Holds(t, q, h) == Holds(s, q, h) && Using(t, q, h) == Using(s, q, h);
    forall q: Pid, h: nat | Holds(t, q, h) || Using(t, q, h) ensures exists r :: Owns(t, r, h) {
      assert Holds(s, q, h) || Using(s, q, h);
      var r :| Owns(s, r, h);
      assert Owns(t, r, h);
    }
    forall h | 1 <= h < LOCK_MAX && h != g && t.slots[h].flag ensures exists q :: Holds(t, q, h) {
      var q :| Holds(s, q, h);
      assert Holds(t, q, h);
    }
  }

  lemma LocalsKept(s: State, t: State, p: Pid)
    requires TableInv(s) && TableInv(t) && BigInv(s) && OnlyMoved(s, t, p)
    requires forall q :: LocalInv(s, q)
    requires LocalInv(t, p)
    requires InBig(s, p) || forall h | 0 <= h < LOCK_MAX :: t.slots[h].magic == s.slots[h].magic
    ensures forall q :: LocalInv(t, q)
  {
    forall q ensures LocalInv(t, q) {
      if q != p {
        assert LocalInv(s, q);
        assert InBig(s, p) ==> !InBig(s, q);
      }
    }
  }

  /** A step that moves p inside or outside a call and writes nothing. */
  lemma QuietStep(s: State, p: Pid, pc: Pc)
    requires Inv(s)
    requires var t := Goto(s, p, pc);
      && InBig(t, p) == InBig(s, p)
      && (forall h: nat :: Midway(t, p, h) == Midway(s, p, h))
      && (forall h: nat :: Using(t, p, h) && !Using(s, p, h) ==> exists q :: Owns(s, q, h))
      && LocalInv(t, p)
    ensures Inv(Goto(s, p, pc))
  {
    var t := Goto(s, p, pc);
    assert At(t, p) == At(s, p).(pc := pc);
    assert OnlyMoved(s, t, p);
    BigKept(s, t, p);
    assert forall h: nat :: Owns(t, p, h) == Owns(s, p, h);
    ClaimsKept(s, t, p);
    HoldsKept(s, t, p);
    LocalsKept(s, t, p);
  }

  lemma CreateStep(s: State, p: Pid)
    requires Inv(s) && At(s, p).pc == Idle
    ensures Inv(Apply(s, p, Create))
  {
    QuietStep(s, p, GetValid);
  }

  lemma AcquireStep(s: State, p: Pid, h: nat)
    requires Inv(s) && Enabled(s, p, Acquire(h))
    ensures Inv(Apply(s, p, Acquire(h)))
  {
    QuietStep(s, p, AcquireValid(h));
  }

  lemma ReleaseStep(s: State, p: Pid, h: nat)
    requires Inv(s) && Enabled(s, p, Release(h))
    ensures Inv(Apply(s, p, Release(h)))
  {
    QuietStep(s, p, ReleaseValid(h));
  }

  lemma DestroyStep(s: State, p: Pid, g: nat)
    requires Inv(s) && Enabled(s, p, Destroy(g))
    ensures Inv(Apply(s, p, Destroy(g)))
  {
    var t := Apply(s, p, Destroy(g));
    assert At(t, p) == Proc(PutValid(g), At(s, p).owns - {g}, At(s, p).holds);
    assert OnlyMoved(s, t, p);
    BigKept(s, t, p);
    assert forall h: nat :: Claims(t, p, h) == Claims(s, p, h);
    ClaimsKept(s, t, p);
    assert forall q: Pid, h: nat | q != p :: Holds(t, q, h) == Holds(s, q, h) && Using(t, q, h) == Using(s, q, h);
    HoldsKept(s, t, p);
    LocalsKept(s, t, p);
  }

  lemma GiveUpStep(s: State, p: Pid)
    requires Inv(s) && Enabled(s, p, GiveUp)
    ensures Inv(Apply(s, p, GiveUp))
  {
    match At(s, p).pc
    case PutSpin(g) =>
      var t := Apply(s, p, GiveUp);
      assert At(t, p) == Proc(Idle, At(s, p).owns + {g}, At(s, p).holds);
      assert OnlyMoved(s, t, p);
      BigKept(s, t, p);
      assert forall h: nat :: Claims(t, p, h) == Claims(s, p, h);
      ClaimsKept(s, t, p);
      HoldsKept(s, t, p);
      LocalsKept(s, t, p);
    case _ =>
      QuietStep(s, p, Idle);
  }

  /** stress_lock_valid never fails inside a call; the scan moves on past slots in use. */
  lemma QuietProceed(s: State, p: Pid)
    requires Inv(s)
    requires match At(s, p).pc
      case GetValid => true
      case GetScan(_) => true
      case PutValid(_) => true
      case AcquireValid(_) => true
      case ReleaseValid(_) => true
      case _ => false
    ensures Inv(Apply(s, p, Proceed))
  {
    assert LocalInv(s, p);
    hide BigInv;
    match At(s, p).pc
    case GetValid => QuietStep(s, p, GetSpin);
    case GetScan(i) =>
      if i >= LOCK_MAX {
        QuietStep(s, p, GetUnlock(0));
      } else if s.slots[i].magic == MAGIC_FREE {
        QuietStep(s, p, GetMark(i));
      } else {
        QuietStep(s, p, GetScan(i + 1));
      }
    case PutValid(h) =>
      assert Claims(s, p, h);
      QuietStep(s, p, PutSpin(h));
    case AcquireValid(h) =>
      assert Using(s, p, h);
      var q :| Owns(s, q, h);
      assert Claims(s, q, h);
      QuietStep(s, p, AcquireSpin(h));
    case ReleaseValid(h) =>
      assert Holds(s, p, h);
      var q :| Owns(s, q, h);
      assert Claims(s, q, h);
      QuietStep(s, p, ReleaseFlag(h));
  }

  /** Winning the test-and-set of the big lock. */
  lemma TakeBigStep(s: State, p: Pid)
    requires Inv(s) && (At(s, p).pc.GetSpin? || At(s, p).pc.PutSpin?)
    ensures Inv(Apply(s, p, Proceed))
  {
    var t := Apply(s, p, Proceed);
    if !s.slots[0].flag {
      assert At(t, p).owns == At(s, p).owns && At(t, p).holds == At(s, p).holds;
      assert OnlyMoved(s, t, p);
      BigTaken(s, t, p);
      assert forall h: nat :: Owns(t, p, h) == Owns(s, p, h) && Midway(t, p, h) == Midway(s, p, h);
      ClaimsKept(s, t, p);
      HoldsKept(s, t, p);
      LocalsKept(s, t, p);
    }
  }

  lemma DropBigStep(s: State, p: Pid)
    requires Inv(s) && (At(s, p).pc.GetUnlock? || At(s, p).pc.PutUnlock?)
    ensures Inv(Apply(s, p, Proceed))
  {
    var t := Apply(s, p, Proceed);
    assert At(t, p).owns == At(s, p).owns && At(t, p).holds == At(s, p).holds;
    assert OnlyMoved(s, t, p);
    BigReleased(s, t, p);
    assert forall h: nat :: Owns(t, p, h) == Owns(s, p, h) && Midway(t, p, h) == Midway(s, p, h);
    ClaimsKept(s, t, p);
    HoldsKept(s, t, p);
    LocalsKept(s, t, p);
  }

  lemma MarkStep(s: State, p: Pid)
    requires Inv(s) && At(s, p).pc.GetMark?
    ensures Inv(Apply(s, p, Proceed))
  {
    var t, i := Apply(s, p, Proceed), At(s, p).pc.i;
    assert LocalInv(s, p);
    assert At(t, p) == At(s, p).(pc := GetUnlock(i));
    assert OnlyMoved(s, t, p);
    BigKept(s, t, p);
    assert forall h: nat :: Owns(t, p, h) == Owns(s, p, h) && Midway(t, p, h) == (h == i) && !Midway(s, p, h);
    assert !Claims(s, p, i);
    ClaimAdded(s, t, p, i);
    HoldsKept(s, t, p);
    LocalsKept(s, t, p);
  }

  lemma InitStep(s: State, p: Pid)
    requires Inv(s) && At(s, p).pc.InitFlag?
    ensures Inv(Apply(s, p, Proceed))
  {
    var t, g := Apply(s, p, Proceed), At(s, p).pc.h;
    assert Claims(s, p, g);
    NotHeldMidway(s, p, g);
    assert At(t, p) == Proc(Idle, At(s, p).owns + {g}, At(s, p).holds);
    assert OnlyMoved(s, t, p);
    BigKept(s, t, p);
    assert forall h: nat :: Claims(t, p, h) == Claims(s, p, h);
    ClaimsKept(s, t, p);
    HoldsKept(s, t, p);
    LocalsKept(s, t, p);
  }

  /** A slot being created or destroyed is held by nobody, and its flag is clear. */
  lemma NotHeldMidway(s: State, p: Pid, g: nat)
    requires Inv(s) && Midway(s, p, g)
    ensures 1 <= g < LOCK_MAX && !s.slots[g].flag && forall q :: !Holds(s, q, g) && !Using(s, q, g)
  {
    assert Claims(s, p, g);
    if q :| Holds(s, q, g) || Using(s, q, g) {
      var r :| Owns(s, r, g);
      assert Claims(s, r, g);
    }
  }

  lemma ClearMagicStep(s: State, p: Pid)
    requires Inv(s) && At(s, p).pc.PutMagic?
    ensures Inv(Apply(s, p, Proceed))
  {
    var t, g := Apply(s, p, Proceed), At(s, p).pc.h;
    assert Claims(s, p, g);
    assert At(t, p) == At(s, p).(pc := PutFlag(g));
    assert OnlyMoved(s, t, p);
    BigKept(s, t, p);
    assert forall h: nat :: Claims(t, p, h) == (Claims(s, p, h) && h != g) by {
      assert !Owns(s, p, g);
    }
    ClaimDropped(s, t, p, g);
    HoldsKept(s, t, p);
    LocalsKept(s, t, p);
  }

  lemma ClearFlagStep(s: State, p: Pid)
    requires Inv(s) && At(s, p).pc.PutFlag?
    ensures Inv(Apply(s, p, Proceed))
  {
    var t, g := Apply(s, p, Proceed), At(s, p).pc.h;
    assert LocalInv(s, p);
    if s.slots[g].flag {
      var q :| Holds(s, q, g);
      var r :| Owns(s, r, g);
      assert Claims(s, r, g);
    }
    assert At(t, p) == At(s, p).(pc := PutUnlock);
    assert OnlyMoved(s, t, p);
    BigKept(s, t, p);
    assert forall h: nat :: Claims(t, p, h) == Claims(s, p, h);
    ClaimsKept(s, t, p);
    HoldsKept(s, t, p);
    LocalsKept(s, t, p);
  }

  lemma GrantStep(s: State, p: Pid)
    requires Inv(s) && At(s, p).pc.AcquireSpin?
    ensures Inv(Apply(s, p, Proceed))
  {
    var t, g := Apply(s, p, Proceed), At(s, p).pc.h;
    assert Using(s, p, g);
    var r :| Owns(s, r, g);
    assert Claims(s, r, g);
    if !s.slots[g].flag {
      assert At(t, p) == Proc(Idle, At(s, p).owns, At(s, p).holds + {g});
      assert OnlyMoved(s, t, p);
      BigKept(s, t, p);
      assert forall h: nat :: Claims(t, p, h) == Claims(s, p, h);
      ClaimsKept(s, t, p);
      HoldAdded(s, t, p, g);
      LocalsKept(s, t, p);
    }
  }

  lemma ReleaseFlagStep(s: State, p: Pid)
    requires Inv(s) && At(s, p).pc.ReleaseFlag?
    ensures Inv(Apply(s, p, Proceed))
  {
    var t, g := Apply(s, p, Proceed), At(s, p).pc.h;
    assert LocalInv(s, p);
    assert Holds(s, p, g);
    assert At(t, p) == Proc(Idle, At(s, p).owns, At(s, p).holds - {g});
    assert OnlyMoved(s, t, p);
    BigKept(s, t, p);
    assert forall h: nat :: Claims(t, p, h) == Claims(s, p, h);
    ClaimsKept(s, t, p);
    HoldDropped(s, t, p, g);
    LocalsKept(s, t, p);
  }

  /** Every enabled step keeps the invariant. */
  lemma StepKeepsInv(s: State, p: Pid, a: Action)
    requires Inv(s) && Enabled(s, p, a)
    ensures Inv(Apply(s, p, a))
  {
    match a
    case Create => CreateStep(s, p);
    case Destroy(h) => DestroyStep(s, p, h);
    case Acquire(h) => AcquireStep(s, p, h);
    case Release(h) => ReleaseStep(s, p, h);
    case GiveUp => GiveUpStep(s, p);
    case Proceed =>
      match At(s, p).pc
      case GetSpin => TakeBigStep(s, p);
      case PutSpin(_) => TakeBigStep(s, p);
      case GetMark(_) => MarkStep(s, p);
      case GetUnlock(_) => DropBigStep(s, p);
      case InitFlag(_) => InitStep(s, p);
      case PutMagic(_) => ClearMagicStep(s, p);
      case PutFlag(_) => ClearFlagStep(s, p);
      case PutUnlock => DropBigStep(s, p);
      case AcquireSpin(_) => GrantStep(s, p);
      case ReleaseFlag(_) => ReleaseFlagStep(s, p);
      case _ => QuietProceed(s, p);
  }

  // ---------- whole runs ----------

  datatype Event = Event(p: Pid, a: Action)

  function After(s: State, run: seq<Event>): State {
    if run == [] then s
    else Apply(After(s, run[..|run| - 1]), run[|run| - 1].p, run[|run| - 1].a)
  }

  /** Every event is enabled where it happens. */
  ghost predicate Legal(s: State, run: seq<Event>) {
    run != [] ==>
      var before, last := run[..|run| - 1], run[|run| - 1];
      Legal(s, before) && Enabled(After(s, before), last.p, last.a)
  }

  lemma {:induction false} RunKeepsInv(s: State, run: seq<Event>)
    requires Inv(s) && Legal(s, run)
    ensures Inv(After(s, run))
    decreases |run|
  {
    hide Inv, Enabled, Apply;
    if run != [] {
      var before, last := run[..|run| - 1], run[|run| - 1];
      RunKeepsInv(s, before);
      StepKeepsInv(After(s, before), last.p, last.a);
    }
  }

  lemma RunsFromMapped(run: seq<Event>)
    requires Legal(Mapped(), run)
    ensures Inv(After(Mapped(), run))
  {
    MappedInv();
    RunKeepsInv(Mapped(), run);
  }

  /** A lock is held by at most one process, and its flag says exactly whether one holds it. */
  lemma MutualExclusion(run: seq<Event>, h: nat)
    requires Legal(Mapped(), run) && 1 <= h < LOCK_MAX
    ensures var s := After(Mapped(), run);
      && (forall p, q :: Holds(s, p, h) && Holds(s, q, h) ==> p == q)
      && (Flag(s, h) <==> exists p :: Holds(s, p, h))
  {
    RunsFromMapped(run);
  }

  /** The big lock likewise: its flag is set exactly while one process is inside its critical section. */
  lemma BigLockExclusion(run: seq<Event>)
    requires Legal(Mapped(), run)
    ensures var s := After(Mapped(), run);
      && (forall p, q :: InBig(s, p) && InBig(s, q) ==> p == q)
      && (Flag(s, 0) <==> exists p :: InBig(s, p))
  {
    RunsFromMapped(run);
  }

  /** Live handles are distinct slots other than slot 0, and no used slot is ever lost. */
  lemma HandlesAreDistinct(run: seq<Event>)
    requires Legal(Mapped(), run)
    ensures var s := After(Mapped(), run);
      && (forall p: Pid, h: nat :: Owns(s, p, h) ==> 1 <= h < 16384 && Valid(s, h))
      && (forall p: Pid, q: Pid, h: nat :: Owns(s, p, h) && Owns(s, q, h) ==> p == q)
      && (forall h: nat :: Valid(s, h) <==> h == 0 || exists p :: Claims(s, p, h))
  {
    RunsFromMapped(run);
    var s := After(Mapped(), run);
    assert forall p: Pid, h: nat :: Owns(s, p, h) ==> Claims(s, p, h);
  }

  /** A create that returns a handle returns one that nobody owns, holds or uses; one that returns null without giving up found every slot claimed. */
  lemma CreateOutcome(s: State, p: Pid)
    requires Inv(s)
    ensures At(s, p).pc.InitFlag? ==>
      var h, t := At(s, p).pc.h, Apply(s, p, Proceed);
      && At(t, p).owns == At(s, p).owns + {h} && !Flag(t, h)
      && forall q :: !Owns(s, q, h) && !Holds(t, q, h) && !Using(t, q, h)
    ensures At(s, p).pc == GetUnlock(0) ==> forall h | 1 <= h < 16384 :: Valid(s, h) && exists q :: Claims(s, q, h)
  {
    assert LocalInv(s, p);
    if At(s, p).pc.InitFlag? {
      var h, t := At(s, p).pc.h, Apply(s, p, Proceed);
      assert Claims(s, p, h);
      assert forall q :: Owns(s, q, h) ==> Claims(s, q, h);
      NotHeldMidway(s, p, h);
      assert OnlyMoved(s, t, p);
      assert forall q :: Holds(t, q, h) == Holds(s, q, h);
      assert forall q | q != p :: Using(t, q, h) == Using(s, q, h);
    }
  }

  /** A slot's magic changes only while the changing process is alone in the critical section of the big lock. */
  lemma MagicChangesUnderBigLock(s: State, p: Pid, a: Action, h: nat)
    requires Inv(s) && Enabled(s, p, a) && h < LOCK_MAX
    requires Apply(s, p, a).slots[h].magic != s.slots[h].magic
    ensures h != 0 && s.slots[0].flag && InBig(s, p) && InBig(Apply(s, p, a), p)
    ensures forall q | q != p :: !InBig(s, q)
  {
    MagicStep(s, p, a, h);
    hide Apply;
    assert LocalInv(s, p);
    assert InBig(s, p);
    if At(s, p).pc == PutMagic(h) {
      assert Claims(s, p, h);
    }
  }

  /** The only steps that write a slot's magic. */
  lemma MagicStep(s: State, p: Pid, a: Action, h: nat)
    requires h < |s.slots| && |Apply(s, p, a).slots| == |s.slots| && Apply(s, p, a).slots[h].magic != s.slots[h].magic
    ensures a == Proceed && (At(s, p).pc == GetMark(h) || At(s, p).pc == PutMagic(h))
    ensures InBig(Apply(s, p, a), p)
  {
  }

  /** Timing out writes nothing, grants and takes away nothing, and leaves the handle of a failed destroy with its owner. */
  lemma GiveUpGrantsNothing(s: State, p: Pid)
    requires Inv(s) && Enabled(s, p, GiveUp)
    ensures var t := Apply(s, p, GiveUp);
      && t.slots == s.slots && At(t, p).pc == Idle
      && (At(s, p).pc.PutSpin? ==> Owns(t, p, At(s, p).pc.h))
      && (forall q: Pid, h: nat :: Claims(t, q, h) == Claims(s, q, h))
      && (forall q: Pid, h: nat :: Holds(t, q, h) == Holds(s, q, h))
  {
    var t := Apply(s, p, GiveUp);
    assert OnlyMoved(s, t, p);
    assert forall h: nat :: Claims(t, p, h) == Claims(s, p, h);
  }

  /** A timed-out acquire leaves the caller not holding exactly when another process holds the lock, that is, when the caller did not hold it before. */
  lemma GiveUpNotHoldingIff(s: State, p: Pid, h: nat)
    requires Inv(s) && At(s, p).pc == AcquireSpin(h) && Enabled(s, p, GiveUp)
    ensures !Holds(Apply(s, p, GiveUp), p, h) <==> !Holds(s, p, h)
    ensures !Holds(Apply(s, p, GiveUp), p, h) <==> exists q :: q != p && Holds(s, q, h)
  {
    GiveUpGrantsNothing(s, p);
    assert Using(s, p, h);
    var q :| Owns(s, q, h);
    assert Claims(s, q, h);
    var r :| Holds(s, r, h);
  }

  // ---------- the critical section is never blocked ----------

  /** Steps of its own that the holder of the big lock still needs to release it. */
  function Remaining(pc: Pc): int {
    match pc
    case GetScan(i) => LOCK_MAX - i + 2
    case GetMark(_) => 2
    case GetUnlock(_) => 1
    case PutMagic(_) => 3
    case PutFlag(_) => 2
    case PutUnlock => 1
    case _ => 0
  }

  /** The holder of the big lock can always step, and each step brings its release nearer. */
  lemma HolderProgress(s: State, p: Pid)
    requires Inv(s) && InBig(s, p)
    ensures Enabled(s, p, Proceed)
    ensures 0 < Remaining(At(s, p).pc) <= LOCK_MAX + 2
    ensures var t := Apply(s, p, Proceed);
      if Remaining(At(s, p).pc) == 1 then !Flag(t, 0)
      else InBig(t, p) && Remaining(At(t, p).pc) < Remaining(At(s, p).pc)
  {
    assert LocalInv(s, p);
    assert TableInv(s);
    hide Inv, LocalInv, BigInv, ClaimInv, HoldInv;
  }

  /** How many events of a run are steps of process p. */
  function StepsOf(run: seq<Event>, p: Pid): nat {
    if run == [] then 0 else StepsOf(run[..|run| - 1], p) + if run[|run| - 1].p == p then 1 else 0
  }

  /** Some prefix of the run ends with p out of the big lock and the big lock free. */
  ghost predicate Frees(s: State, run: seq<Event>, p: Pid) {
    exists n :: 0 <= n <= |run| && !InBig(After(s, run[..n]), p) && !Flag(After(s, run[..n]), 0)
  }

  lemma FreesMore(s: State, run: seq<Event>, p: Pid)
    requires run != [] && Frees(s, run[..|run| - 1], p)
    ensures Frees(s, run, p)
  {
    hide InBig, Flag;
    var before := run[..|run| - 1];
    var n :| 0 <= n <= |before| && !InBig(After(s, before[..n]), p) && !Flag(After(s, before[..n]), 0);
    assert run[..n] == before[..n];
  }

  /** A step of another process leaves the holder of the big lock where it is. */
  lemma OthersStay(s: State, q: Pid, a: Action, p: Pid)
    requires q != p
    ensures At(Apply(s, q, a), p) == At(s, p)
  {
    hide ProceedFrom;
    OthersStayProceeding(s, q, At(s, q).pc, p);
  }

  lemma OthersStayProceeding(s: State, q: Pid, pc: Pc, p: Pid)
    requires q != p
    ensures At(ProceedFrom(s, q, pc), p) == At(s, p)
  {
    hide Valid, Flag;
  }

  lemma InBigOnlyProceeds(s: State, p: Pid, a: Action)
    requires InBig(s, p) && Enabled(s, p, a)
    ensures a == Proceed
  {
  }

  /** As long as the holder has not released, each of its steps has brought the release nearer. */
  lemma {:induction false} HolderCounts(s: State, run: seq<Event>, p: Pid)
    requires Inv(s) && InBig(s, p) && Legal(s, run) && !Frees(s, run, p)
    ensures InBig(After(s, run), p)
    ensures Remaining(At(After(s, run), p).pc) + StepsOf(run, p) <= Remaining(At(s, p).pc)
    decreases |run|
  {
    hide Inv, Apply, Remaining, Flag, Enabled, Frees;
    if run != [] {
      var before, last := run[..|run| - 1], run[|run| - 1];
      if Frees(s, before, p) { FreesMore(s, run, p); }
      HolderCounts(s, before, p);
      RunKeepsInv(s, before);
      var u := After(s, before);
      if last.p == p {
        InBigOnlyProceeds(u, p, last.a);
        HolderProgress(u, p);
        StepKeepsInv(u, p, Proceed);
        if Remaining(At(u, p).pc) == 1 {
          LeavesBig(u, p);
          FreedNow(s, run, p);
        }
      } else {
        OthersStay(u, last.p, last.a, p);
      }
    }
  }

  lemma LeavesBig(s: State, p: Pid)
    requires Inv(s) && InBig(s, p) && Remaining(At(s, p).pc) == 1
    ensures !InBig(Apply(s, p, Proceed), p)
  {
    assert LocalInv(s, p);
  }

  lemma FreedNow(s: State, run: seq<Event>, p: Pid)
    requires !InBig(After(s, run), p) && !Flag(After(s, run), 0)
    ensures Frees(s, run, p)
  {
    assert run[..|run|] == run;
  }

  /** However the other processes interleave, a run with enough steps of the holder of the big lock contains its release; 16386 are always enough. */
  lemma BigLockIsFreed(s: State, run: seq<Event>, p: Pid)
    requires Inv(s) && InBig(s, p) && Legal(s, run)
    requires StepsOf(run, p) >= Remaining(At(s, p).pc)
    ensures Remaining(At(s, p).pc) <= 16386 && Frees(s, run, p)
  {
    hide Inv, InBig, Remaining, Frees, Legal;
    HolderProgress(s, p);
    if !Frees(s, run, p) {
      HolderCounts(s, run, p);
      RunKeepsInv(s, run);
      HolderProgress(After(s, run), p);
    }
  }

  /** The slot a call works on, if any. */
  function SlotOf(pc: Pc): nat {
    match pc
    case GetMark(i) => i
    case GetUnlock(i) => i
    case InitFlag(h) => h
    case PutValid(h) => h
    case PutSpin(h) => h
    case PutMagic(h) => h
    case PutFlag(h) => h
    case AcquireValid(h) => h
    case AcquireSpin(h) => h
    case ReleaseValid(h) => h
    case ReleaseFlag(h) => h
    case _ => 0
  }

  lemma SlotInTable(s: State, p: Pid)
    requires Inv(s)
    ensures SlotOf(At(s, p).pc) < |s.slots| == LOCK_MAX
    ensures At(s, p).pc.GetScan? ==> At(s, p).pc.i <= LOCK_MAX
  {
    assert LocalInv(s, p);
    var h := SlotOf(At(s, p).pc);
    if Using(s, p, h) {
      var q :| Owns(s, q, h);
      assert Claims(s, q, h);
    } else if Midway(s, p, h) {
      assert Claims(s, p, h);
    }
  }
}
