/**
  What whole calls of the lock pool do: run by themselves to their end, and with
  the steps of other processes in between.
 */
module LockCalls {
  import opened LockPool

  // ---------- runs, one event at a time ----------

  lemma EmptyRun(s: State)
    ensures Legal(s, []) && After(s, []) == s
  {
  }

  lemma RunMore(s: State, run: seq<Event>, e: Event)
    requires Legal(s, run) && Enabled(After(s, run), e.p, e.a)
    ensures Legal(s, run + [e])
    ensures After(s, run + [e]) == Apply(After(s, run), e.p, e.a)
  {
    assert (run + [e])[..|run|] == run;
  }

  /** Process p enters call c and takes n steps. */
  function CallRun(p: Pid, c: Action, n: nat): seq<Event> {
    seq(n + 1, i => Event(p, if i == 0 then c else Proceed))
  }

  ghost predicate Reaches(s: State, p: Pid, c: Action, n: nat, t: State) {
    Legal(s, CallRun(p, c, n)) && After(s, CallRun(p, c, n)) == t
  }

  lemma Entered(s: State, p: Pid, c: Action)
    requires Enabled(s, p, c)
    ensures Reaches(s, p, c, 0, Apply(s, p, c))
  {
    hide Legal, After, Enabled, Apply;
    EmptyRun(s);
    RunMore(s, [], Event(p, c));
    assert [] + [Event(p, c)] == CallRun(p, c, 0);
  }

  lemma Advance(s: State, p: Pid, c: Action, n: nat, t: State)
    requires Reaches(s, p, c, n, t) && At(t, p).pc != Idle
    ensures Reaches(s, p, c, n + 1, Apply(t, p, Proceed))
  {
    hide Legal, After, Apply;
    RunMore(s, CallRun(p, c, n), Event(p, Proceed));
    assert CallRun(p, c, n) + [Event(p, Proceed)] == CallRun(p, c, n + 1);
  }

  /** A slot that a process owns, holds, uses or is midway with is in the table and in use. */
  lemma LiveSlot(s: State, p: Pid, h: nat)
    requires Inv(s) && (Owns(s, p, h) || Holds(s, p, h) || Using(s, p, h) || Midway(s, p, h))
    ensures 1 <= h < |s.slots| == LOCK_MAX && Valid(s, h) && Valid(s, 0)
  {
    if Holds(s, p, h) || Using(s, p, h) {
      var q :| Owns(s, q, h);
      assert Claims(s, q, h);
    } else {
      assert Claims(s, p, h);
    }
  }

  /** The handle of a call the discipline allows is live. */
  lemma Ready(s: State, p: Pid, c: Action, h: nat)
    requires Inv(s) && Enabled(s, p, c) && (c == Acquire(h) || c == Release(h) || c == Destroy(h))
    ensures At(s, p).pc == Idle && 1 <= h < |s.slots| == LOCK_MAX && Valid(s, h) && Valid(s, 0)
    ensures c == Release(h) ==> Holds(s, p, h) && Flag(s, h)
  {
    if c == Acquire(h) {
      var q :| Owns(s, q, h);
      LiveSlot(s, q, h);
    } else {
      LiveSlot(s, p, h);
    }
  }

  // ---------- calls that nothing interrupts ----------

  /** A release frees the lock: in two steps the flag is clear and the holder no longer holds, and nothing else has changed. */
  lemma ReleaseAlone(s: State, p: Pid, h: nat)
    requires Inv(s) && Enabled(s, p, Release(h))
    ensures h < |s.slots| && Legal(s, CallRun(p, Release(h), 2))
    ensures var t := After(s, CallRun(p, Release(h), 2));
      && t.slots == s.slots[h := Slot(s.slots[h].magic, false)] && !Holds(t, p, h)
      && At(t, p) == At(s, p).(holds := At(s, p).holds - {h})
  {
    hide Inv, Apply, Enabled, Legal, After, Reaches;
    Ready(s, p, Release(h), h);
    var t0 := Apply(s, p, Release(h));
    var t1 := Apply(t0, p, Proceed);
    ReleaseSteps(s, p, h, t0, t1);
    Entered(s, p, Release(h));
    Advance(s, p, Release(h), 0, t0);
    Advance(s, p, Release(h), 1, t1);
    ReachesMeans(s, p, Release(h), 2, Apply(t1, p, Proceed));
  }

  lemma ReachesMeans(s: State, p: Pid, c: Action, n: nat, t: State)
    requires Reaches(s, p, c, n, t)
    ensures Legal(s, CallRun(p, c, n)) && After(s, CallRun(p, c, n)) == t
  {
  }

  lemma ReleaseSteps(s: State, p: Pid, h: nat, t0: State, t1: State)
    requires h < |s.slots| && Valid(s, h) && At(s, p).pc == Idle && Holds(s, p, h)
    requires t0 == Apply(s, p, Release(h)) && t1 == Apply(t0, p, Proceed)
    ensures At(t0, p).pc != Idle && At(t1, p).pc != Idle
    ensures var t := Apply(t1, p, Proceed);
      && t.slots == s.slots[h := Slot(s.slots[h].magic, false)]
      && At(t, p) == At(s, p).(holds := At(s, p).holds - {h})
  {
    assert At(t0, p) == At(s, p).(pc := ReleaseValid(h)) && t0.slots == s.slots;
    assert At(t1, p) == At(s, p).(pc := ReleaseFlag(h)) && t1.slots == s.slots;
  }

  /** An acquire of a clear lock takes it in two steps. */
  lemma AcquireAlone(s: State, p: Pid, h: nat)
    requires Inv(s) && Enabled(s, p, Acquire(h)) && !Flag(s, h)
    ensures h < |s.slots| && Legal(s, CallRun(p, Acquire(h), 2))
    ensures var t := After(s, CallRun(p, Acquire(h), 2));
      && t.slots == s.slots[h := Slot(s.slots[h].magic, true)] && Holds(t, p, h)
      && At(t, p) == At(s, p).(holds := At(s, p).holds + {h})
  {
    hide Inv, Apply, Enabled, Legal, After, Reaches;
    Ready(s, p, Acquire(h), h);
    var t0 := Apply(s, p, Acquire(h));
    var t1 := Apply(t0, p, Proceed);
    AcquireSteps(s, p, h, t0, t1);
    Entered(s, p, Acquire(h));
    Advance(s, p, Acquire(h), 0, t0);
    Advance(s, p, Acquire(h), 1, t1);
    ReachesMeans(s, p, Acquire(h), 2, Apply(t1, p, Proceed));
  }

  lemma AcquireSteps(s: State, p: Pid, h: nat, t0: State, t1: State)
    requires h < |s.slots| && Valid(s, h) && At(s, p).pc == Idle && !Flag(s, h)
    requires t0 == Apply(s, p, Acquire(h)) && t1 == Apply(t0, p, Proceed)
    ensures At(t0, p).pc != Idle && At(t1, p).pc != Idle
    ensures var t := Apply(t1, p, Proceed);
      && t.slots == s.slots[h := Slot(s.slots[h].magic, true)]
      && At(t, p) == At(s, p).(holds := At(s, p).holds + {h})
  {
    assert At(t0, p) == At(s, p).(pc := AcquireValid(h)) && t0.slots == s.slots;
    assert At(t1, p) == At(s, p).(pc := AcquireSpin(h)) && t1.slots == s.slots;
  }

  /** A holder that acquires its own lock again, as the discipline allows, spins, times out and still holds. */
  lemma ReacquireStillHolds(s: State, p: Pid, h: nat)
    requires Inv(s) && At(s, p).pc == Idle && Holds(s, p, h)
    ensures var run := CallRun(p, Acquire(h), 1) + [Event(p, GiveUp)];
      Legal(s, run) && At(After(s, run), p) == At(s, p)
  {
    hide Inv, Apply, Enabled, Legal, After, Reaches;
    HolderMay(s, p, h);
    Ready(s, p, Release(h), h);
    var t0 := Apply(s, p, Acquire(h));
    var t1 := Apply(t0, p, Proceed);
    ReacquireSteps(s, p, h, t0, t1);
    Entered(s, p, Acquire(h));
    Advance(s, p, Acquire(h), 0, t0);
    ReachesMeans(s, p, Acquire(h), 1, t1);
    RunMore(s, CallRun(p, Acquire(h), 1), Event(p, GiveUp));
  }

  lemma HolderMay(s: State, p: Pid, h: nat)
    requires Inv(s) && At(s, p).pc == Idle && Holds(s, p, h)
    ensures Enabled(s, p, Release(h)) && Enabled(s, p, Acquire(h))
  {
  }

  lemma ReacquireSteps(s: State, p: Pid, h: nat, t0: State, t1: State)
    requires h < |s.slots| && Valid(s, h) && At(s, p).pc == Idle && Flag(s, h)
    requires t0 == Apply(s, p, Acquire(h)) && t1 == Apply(t0, p, Proceed)
    ensures At(t0, p).pc != Idle && Enabled(t1, p, GiveUp)
    ensures At(Apply(t1, p, GiveUp), p) == At(s, p)
  {
    assert At(t0, p) == At(s, p).(pc := AcquireValid(h)) && t0.slots == s.slots;
    assert At(t1, p) == At(s, p).(pc := AcquireSpin(h)) && t1.slots == s.slots;
  }

  /** A destroy that finds the big lock clear frees the slot in five steps. */
  lemma DestroyAlone(s: State, p: Pid, h: nat)
    requires Inv(s) && Enabled(s, p, Destroy(h)) && !Flag(s, 0)
    ensures 1 <= h < |s.slots| && Legal(s, CallRun(p, Destroy(h), 5))
    ensures var t := After(s, CallRun(p, Destroy(h), 5));
      && t.slots == s.slots[h := Slot(0, false)] && !Owns(t, p, h)
      && At(t, p) == At(s, p).(owns := At(s, p).owns - {h})
  {
    hide Inv, Apply, Enabled, Legal, After, Reaches;
    var c := Destroy(h);
    Ready(s, p, c, h);
    var t0 := Apply(s, p, c);
    var t1 := Apply(t0, p, Proceed);
    var t2 := Apply(t1, p, Proceed);
    var t3 := Apply(t2, p, Proceed);
    var t4 := Apply(t3, p, Proceed);
    DestroySteps(s, p, h, t0, t1, t2);
    DestroyStepsInside(s, p, h, t2, t3, t4);
    Entered(s, p, c);
    Advance(s, p, c, 0, t0);
    Advance(s, p, c, 1, t1);
    Advance(s, p, c, 2, t2);
    Advance(s, p, c, 3, t3);
    Advance(s, p, c, 4, t4);
    ReachesMeans(s, p, c, 5, Apply(t4, p, Proceed));
  }

  lemma DestroySteps(s: State, p: Pid, h: nat, t0: State, t1: State, t2: State)
    requires 1 <= h < |s.slots| && Valid(s, h) && Valid(s, 0) && At(s, p).pc == Idle && !Flag(s, 0)
    requires t0 == Apply(s, p, Destroy(h)) && t1 == Apply(t0, p, Proceed) && t2 == Apply(t1, p, Proceed)
    ensures At(t0, p).pc != Idle && At(t1, p).pc != Idle
    ensures t2.slots == s.slots[0 := Slot(s.slots[0].magic, true)]
    ensures At(t2, p) == Proc(PutMagic(h), At(s, p).owns - {h}, At(s, p).holds)
  {
    assert At(t0, p) == Proc(PutValid(h), At(s, p).owns - {h}, At(s, p).holds) && t0.slots == s.slots;
    assert At(t1, p) == At(t0, p).(pc := PutSpin(h)) && t1.slots == s.slots;
  }

  lemma DestroyStepsInside(s: State, p: Pid, h: nat, t2: State, t3: State, t4: State)
    requires 1 <= h < |s.slots| && !Flag(s, 0)
    requires t2.slots == s.slots[0 := Slot(s.slots[0].magic, true)] && At(t2, p).pc == PutMagic(h)
    requires t3 == Apply(t2, p, Proceed) && t4 == Apply(t3, p, Proceed)
    ensures At(t3, p).pc != Idle && At(t4, p).pc != Idle
    ensures var t := Apply(t4, p, Proceed);
      t.slots == s.slots[h := Slot(MAGIC_FREE, false)] && At(t, p) == At(t2, p).(pc := Idle)
  {
    assert At(t3, p) == At(t2, p).(pc := PutFlag(h)) && t3.slots == t2.slots[h := Slot(MAGIC_FREE, s.slots[h].flag)];
    assert At(t4, p) == At(t2, p).(pc := PutUnlock) && t4.slots == t2.slots[h := Slot(MAGIC_FREE, false)];
    assert Apply(t4, p, Proceed).slots == s.slots[h := Slot(MAGIC_FREE, false)];
  }

  /** A create that finds the big lock clear returns the first free slot, set up and clear. */
  lemma CreateAlone(s: State, p: Pid, h: nat)
    requires Inv(s) && Enabled(s, p, Create) && !Flag(s, 0)
    requires h < LOCK_MAX && s.slots[h].magic == MAGIC_FREE && forall j | 0 <= j < h :: s.slots[j].magic == MAGIC
    ensures h < |s.slots| && Legal(s, CallRun(p, Create, h + 6))
    ensures var t := After(s, CallRun(p, Create, h + 6));
      && t.slots == s.slots[h := Slot(0x387cb9e5, false)]
      && At(t, p) == At(s, p).(owns := At(s, p).owns + {h})
  {
    hide Inv, Apply, Enabled, Legal, After, Reaches;
    var t0 := Apply(s, p, Create);
    var t1 := Apply(t0, p, Proceed);
    FreeIsClear(s, p, h);
    var big := s.slots[0 := Slot(s.slots[0].magic, true)];
    CreateSteps(s, p, t0, t1);
    var t2 := Apply(t1, p, Proceed);
    Entered(s, p, Create);
    Advance(s, p, Create, 0, t0);
    Advance(s, p, Create, 1, t1);
    var u := Scanned(s, p, h, t2, big);
    CreateStepsInside(s, p, h, u, big);
    var u1 := Apply(u, p, Proceed);
    var u2 := Apply(u1, p, Proceed);
    Advance(s, p, Create, h + 3, u);
    Advance(s, p, Create, h + 4, u1);
    Advance(s, p, Create, h + 5, u2);
    ReachesMeans(s, p, Create, h + 6, Apply(u2, p, Proceed));
  }

  lemma FreeIsClear(s: State, p: Pid, h: nat)
    requires Inv(s) && Enabled(s, p, Create) && h < LOCK_MAX && s.slots[h].magic == MAGIC_FREE
    ensures |s.slots| == LOCK_MAX && Valid(s, 0) && At(s, p).pc == Idle && 1 <= h && !s.slots[h].flag
  {
    if h > 0 && s.slots[h].flag {
      var q :| Holds(s, q, h);
      LiveSlot(s, q, h);
    }
  }

  lemma CreateSteps(s: State, p: Pid, t0: State, t1: State)
    requires 0 < |s.slots| && Valid(s, 0) && At(s, p).pc == Idle && !Flag(s, 0)
    requires t0 == Apply(s, p, Create) && t1 == Apply(t0, p, Proceed)
    ensures At(t0, p).pc != Idle && At(t1, p).pc != Idle
    ensures var t2 := Apply(t1, p, Proceed);
      t2.slots == s.slots[0 := Slot(s.slots[0].magic, true)] && At(t2, p) == At(s, p).(pc := GetScan(0))
  {
    assert At(t0, p) == At(s, p).(pc := GetValid) && t0.slots == s.slots;
    assert At(t1, p) == At(s, p).(pc := GetSpin) && t1.slots == s.slots;
  }

  /** The scan passes the slots in use before h and stops at h. */
  lemma Scanned(s: State, p: Pid, h: nat, t: State, big: seq<Slot>) returns (u: State)
    requires Reaches(s, p, Create, 2, t) && t.slots == big && At(t, p) == At(s, p).(pc := GetScan(0))
    requires h < |big| == LOCK_MAX && big[h].magic == MAGIC_FREE && forall j | 0 <= j < h :: big[j].magic == MAGIC
    ensures Reaches(s, p, Create, h + 3, u) && u.slots == big && At(u, p) == At(s, p).(pc := GetMark(h))
  {
    hide Reaches, Apply;
    u := t;
    var i := 0;
    while i < h
      invariant 0 <= i <= h && Reaches(s, p, Create, i + 2, u)
      invariant u.slots == big && At(u, p) == At(s, p).(pc := GetScan(i))
    {
      ScanStep(u, p, i);
      Advance(s, p, Create, i + 2, u);
      u, i := Apply(u, p, Proceed), i + 1;
    }
    ScanStep(u, p, h);
    Advance(s, p, Create, h + 2, u);
    u := Apply(u, p, Proceed);
  }

  lemma ScanStep(t: State, p: Pid, i: nat)
    requires At(t, p).pc == GetScan(i) && i < |t.slots| == LOCK_MAX
    ensures var u := Apply(t, p, Proceed);
      && u.slots == t.slots
      && At(u, p) == At(t, p).(pc := if t.slots[i].magic == MAGIC_FREE then GetMark(i) else GetScan(i + 1))
  {
  }

  lemma CreateStepsInside(s: State, p: Pid, h: nat, u: State, big: seq<Slot>)
    requires 1 <= h < |s.slots| && !Flag(s, 0) && !s.slots[h].flag && big == s.slots[0 := Slot(s.slots[0].magic, true)]
    requires u.slots == big && At(u, p) == At(s, p).(pc := GetMark(h)) && At(s, p).pc == Idle
    ensures var u1 := Apply(u, p, Proceed);
      var u2 := Apply(u1, p, Proceed);
      var t := Apply(u2, p, Proceed);
      && At(u, p).pc != Idle && At(u1, p).pc != Idle && At(u2, p).pc != Idle
      && t.slots == s.slots[h := Slot(MAGIC, false)]
      && At(t, p) == At(s, p).(owns := At(s, p).owns + {h})
  {
    var u1 := Apply(u, p, Proceed);
    assert At(u1, p) == At(s, p).(pc := GetUnlock(h)) && u1.slots == big[h := Slot(MAGIC, false)];
    var u2 := Apply(u1, p, Proceed);
    assert At(u2, p) == At(s, p).(pc := InitFlag(h)) && u2.slots == s.slots[h := Slot(MAGIC, false)];
  }

  /** The discipline can be met: create, then acquire, is a legal run from the mapped table that ends with slot 1 held. */
  lemma SomeRunHolds(p: Pid)
    ensures var run := CallRun(p, Create, 7) + CallRun(p, Acquire(1), 2);
      Legal(Mapped(), run) && At(After(Mapped(), run), p).pc == Idle && Holds(After(Mapped(), run), p, 1)
  {
    MappedInv();
    assert At(Mapped(), p).pc == Idle;
    CreateAlone(Mapped(), p, 1);
    var a, b := CallRun(p, Create, 7), CallRun(p, Acquire(1), 2);
    RunKeepsInv(Mapped(), a);
    var t := After(Mapped(), a);
    assert Owns(t, p, 1);
    AcquireAlone(t, p, 1);
    hide Inv, Enabled, Apply, Mapped;
    RunsJoin(Mapped(), a, b);
  }

  lemma {:induction false} RunsJoin(s: State, a: seq<Event>, b: seq<Event>)
    requires Legal(s, a) && Legal(After(s, a), b)
    ensures Legal(s, a + b) && After(s, a + b) == After(After(s, a), b)
    decreases |b|
  {
    hide Enabled, Apply;
    if b == [] {
      assert a + b == a;
    } else {
      var n := |b| - 1;
      RunsJoin(s, a, b[..n]);
      RunMore(s, a + b[..n], b[n]);
      assert a + b[..n] + [b[n]] == a + b;
    }
  }

  // ---------- calls with other processes in between ----------

  predicate Enters(c: Action) {
    !c.Proceed? && !c.GiveUp?
  }

  /** A run that begins as p enters call c, in which p never times out; the others do as they please. */
  ghost predicate CallsIn(run: seq<Event>, p: Pid, c: Action) {
    run != [] && run[0] == Event(p, c) && Enters(c) && forall i | 1 <= i < |run| && run[i].p == p :: run[i].a == Proceed
  }

  /** Where p, which entered call c as `me`, can be: inside the call, or back with what the call is for. */
  ghost predicate Within(me: Proc, now: Proc, c: Action) {
    match c
    case Acquire(h) =>
      now == me.(pc := AcquireValid(h)) || now == me.(pc := AcquireSpin(h)) || now == me.(pc := Idle, holds := me.holds + {h})
    case Release(h) =>
      now == me.(pc := ReleaseValid(h)) || now == me.(pc := ReleaseFlag(h)) || now == me.(pc := Idle, holds := me.holds - {h})
    case Destroy(h) =>
      && now == Proc(now.pc, me.owns - {h}, me.holds)
      && (now.pc == PutValid(h) || now.pc == PutSpin(h) || now.pc == PutMagic(h) || now.pc == PutFlag(h) || now.pc == PutUnlock || now.pc == Idle)
    case Create =>
      if now.pc == Idle && now.owns != me.owns then Created(me, now)
      else
        && now == me.(pc := now.pc)
        && (now.pc.GetValid? || now.pc.GetSpin? || now.pc.GetScan? || now.pc.GetMark? || now.pc.GetUnlock? || now.pc.InitFlag? || now.pc == Idle)
    case _ => true
  }

  ghost predicate Created(me: Proc, now: Proc) {
    exists h: nat :: h !in me.owns && now == me.(owns := me.owns + {h}, pc := Idle)
  }

  /** One more step of p keeps it within its call. */
  lemma OwnStepWithin(me: Proc, t: State, p: Pid, c: Action)
    requires Inv(t) && me.pc == Idle && Enters(c) && Within(me, At(t, p), c) && At(t, p).pc != Idle
    ensures Within(me, At(Apply(t, p, Proceed), p), c)
  {
    match c
    case Acquire(h) => LiveSlot(t, p, h);
    case Release(h) => LiveSlot(t, p, h);
    case Destroy(h) =>
    case Create =>
      if At(t, p).pc.InitFlag? {
        var h := At(t, p).pc.h;
        assert Midway(t, p, h) && !Owns(t, p, h);
        hide Inv;
        var now := At(Apply(t, p, Proceed), p);
        assert now == me.(owns := me.owns + {h}, pc := Idle);
        assert Created(me, now);
      }
  }

  /** At some moment of the run p, in the big lock, had just freed slot h. */
  ghost predicate Freed(s: State, run: seq<Event>, p: Pid, h: nat) {
    exists n :: 0 <= n <= |run| && FreedAt(After(s, run[..n]), p, h)
  }

  ghost predicate FreedAt(t: State, p: Pid, h: nat) {
    At(t, p).pc == PutUnlock && h < |t.slots| && t.slots[h] == Slot(MAGIC_FREE, false)
  }

  /** At some moment of the run p, in the big lock, had found every slot in use. */
  ghost predicate Full(s: State, run: seq<Event>, p: Pid) {
    exists n :: 0 <= n <= |run| && FullAt(After(s, run[..n]), p)
  }

  ghost predicate FullAt(t: State, p: Pid) {
    At(t, p).pc == GetUnlock(0) && forall h | 1 <= h < LOCK_MAX :: Valid(t, h)
  }

  lemma FreedLater(s: State, run: seq<Event>, p: Pid, h: nat)
    requires run != [] && (Freed(s, run[..|run| - 1], p, h) || FreedAt(After(s, run), p, h))
    ensures Freed(s, run, p, h)
  {
    hide FreedAt, After;
    var before := run[..|run| - 1];
    if Freed(s, before, p, h) {
      var n :| 0 <= n <= |before| && FreedAt(After(s, before[..n]), p, h);
      assert run[..n] == before[..n];
    } else {
      assert run[..|run|] == run;
    }
  }

  lemma FullLater(s: State, run: seq<Event>, p: Pid)
    requires run != [] && (Full(s, run[..|run| - 1], p) || FullAt(After(s, run[..|run| - 1]), p))
    ensures Full(s, run, p)
  {
    hide FullAt, After;
    var before := run[..|run| - 1];
    assert before[..|before|] == before;
    var n :| 0 <= n <= |before| && FullAt(After(s, before[..n]), p);
    assert run[..n] == before[..n];
  }

  lemma EnteredWithin(s: State, p: Pid, c: Action)
    requires Enabled(s, p, c) && Enters(c)
    ensures At(s, p).pc == Idle && At(Apply(s, p, c), p).pc != Idle && At(Apply(s, p, c), p).pc != PutUnlock
    ensures Within(At(s, p), At(Apply(s, p, c), p), c)
  {
  }

  /** What p knows at every moment of a call, whatever the others do. */
  lemma {:induction false} CallSoFar(s: State, run: seq<Event>, p: Pid, c: Action)
    requires Inv(s) && Legal(s, run) && CallsIn(run, p, c)
    ensures At(s, p).pc == Idle && Within(At(s, p), At(After(s, run), p), c)
    ensures c.Destroy? && (At(After(s, run), p).pc == PutUnlock || At(After(s, run), p).pc == Idle) ==> Freed(s, run, p, c.h)
    ensures c.Create? && At(After(s, run), p) == At(s, p) ==> Full(s, run, p)
    decreases |run|
  {
    hide Inv, Apply, Enabled, Freed, Full, Within;
    var before, last := run[..|run| - 1], run[|run| - 1];
    var u := After(s, before);
    if before == [] {
      EnteredWithin(s, p, c);
    } else {
      CallSoFar(s, before, p, c);
      RunKeepsInv(s, before);
      if last.p != p {
        OthersStay(u, last.p, last.a, p);
      } else {
        ProceedMeans(u, p);
        OwnStepWithin(At(s, p), u, p, c);
        OwnStepHistory(At(s, p), u, p, c);
      }
      if c.Destroy? && (Freed(s, before, p, c.h) || FreedAt(After(s, run), p, c.h)) { FreedLater(s, run, p, c.h); }
      if Full(s, before, p) || FullAt(u, p) { FullLater(s, run, p); }
    }
  }

  lemma ProceedMeans(t: State, p: Pid)
    requires Enabled(t, p, Proceed)
    ensures At(t, p).pc != Idle
  {
  }

  lemma OwnStepHistory(me: Proc, t: State, p: Pid, c: Action)
    requires Inv(t) && me.pc == Idle && Enters(c) && Within(me, At(t, p), c) && At(t, p).pc != Idle
    ensures var u := Apply(t, p, Proceed);
      c.Destroy? && (At(u, p).pc == PutUnlock || At(u, p).pc == Idle) ==> At(t, p).pc == PutUnlock || FreedAt(u, p, c.h)
    ensures var u := Apply(t, p, Proceed);
      c.Create? && At(u, p) == me ==> FullAt(t, p)
  {
    assert LocalInv(t, p);
    if c.Destroy? {
      if At(t, p).pc.PutValid? || At(t, p).pc.PutMagic? { LiveSlot(t, p, c.h); }
    } else if c.Create? && At(t, p).pc.InitFlag? {
      assert Midway(t, p, At(t, p).pc.h);
    }
    hide Inv, ClaimInv, HoldInv, BigInv, Within;
    WithinDestroy(me, At(t, p), c);
  }

  lemma WithinDestroy(me: Proc, now: Proc, c: Action)
    requires Within(me, now, c) && me.pc == Idle && now.pc != Idle
    ensures c.Destroy? ==> now.pc in {PutValid(c.h), PutSpin(c.h), PutMagic(c.h), PutFlag(c.h), PutUnlock}
    ensures c.Create? ==> now == me.(pc := now.pc)
    ensures c.Create? ==> now.pc.GetValid? || now.pc.GetSpin? || now.pc.GetScan? || now.pc.GetMark? || now.pc.GetUnlock? || now.pc.InitFlag?
  {
  }

  /** However the others interleave, an acquire that returns without timing out holds the lock. */
  lemma FinishedAcquireHolds(s: State, run: seq<Event>, p: Pid, h: nat)
    requires Inv(s) && Legal(s, run) && CallsIn(run, p, Acquire(h)) && At(After(s, run), p).pc == Idle
    ensures At(After(s, run), p) == At(s, p).(holds := At(s, p).holds + {h})
    ensures Holds(After(s, run), p, h) && Flag(After(s, run), h)
  {
    CallSoFar(s, run, p, Acquire(h));
    RunKeepsInv(s, run);
    hide Legal, After, CallsIn;
    assert Holds(After(s, run), p, h);
  }

  /** A destroy that returns without timing out had freed the slot, and the handle is owned no more. */
  lemma FinishedDestroyFrees(s: State, run: seq<Event>, p: Pid, h: nat)
    requires Inv(s) && Legal(s, run) && CallsIn(run, p, Destroy(h)) && At(After(s, run), p).pc == Idle
    ensures At(After(s, run), p) == At(s, p).(owns := At(s, p).owns - {h})
    ensures exists n :: 0 <= n <= |run| && FreedAt(After(s, run[..n]), p, h)
  {
    CallSoFar(s, run, p, Destroy(h));
    hide Legal, After, CallsIn, Inv;
  }

  /** A create that returns without timing out has one new handle, or had found every slot in use. */
  lemma FinishedCreateOwns(s: State, run: seq<Event>, p: Pid)
    requires Inv(s) && Legal(s, run) && CallsIn(run, p, Create) && At(After(s, run), p).pc == Idle
    ensures (exists h: nat :: h !in At(s, p).owns && At(After(s, run), p) == At(s, p).(owns := At(s, p).owns + {h}))
         || (At(After(s, run), p) == At(s, p) && exists n :: 0 <= n <= |run| && FullAt(After(s, run[..n]), p))
  {
    CallSoFar(s, run, p, Create);
    hide Legal, After, CallsIn, Inv, FullAt;
    var me, now := At(s, p), At(After(s, run), p);
    if now.owns != me.owns {
      var h: nat :| h !in me.owns && now == me.(owns := me.owns + {h}, pc := Idle);
      assert now == me.(owns := me.owns + {h});
    }
  }

  /** At some moment of the run p, holding h no more, had just cleared its flag. */
  ghost predicate LetGo(s: State, run: seq<Event>, p: Pid, h: nat) {
    exists n :: 0 <= n <= |run| && !Holds(After(s, run[..n]), p, h) && !Flag(After(s, run[..n]), h)
  }

  /** A release takes two steps of its caller, whatever the others do in between: after them the flag has been cleared. */
  lemma {:induction false} ReleaseSoFar(s: State, run: seq<Event>, p: Pid, h: nat)
    requires Inv(s) && Legal(s, run) && CallsIn(run, p, Release(h))
    ensures 1 <= StepsOf(run, p) <= 3
    ensures var now := At(After(s, run), p);
      && (StepsOf(run, p) == 1 ==> now == At(s, p).(pc := ReleaseValid(h)))
      && (StepsOf(run, p) == 2 ==> now == At(s, p).(pc := ReleaseFlag(h)))
      && (StepsOf(run, p) == 3 ==> now == At(s, p).(pc := Idle, holds := At(s, p).holds - {h}) && LetGo(s, run, p, h))
    decreases |run|
  {
    hide Inv, Apply, Enabled, LetGo;
    var before, last := run[..|run| - 1], run[|run| - 1];
    var u := After(s, before);
    if before == [] {
      assert last == Event(p, Release(h));
      ReleaseEntered(s, p, h);
      assert StepsOf(run, p) == StepsOf(before, p) + 1;
    } else {
      ReleaseSoFar(s, before, p, h);
      RunKeepsInv(s, before);
      if last.p != p {
        OthersStay(u, last.p, last.a, p);
        if StepsOf(before, p) == 3 { LetGoMore(s, run, p, h); }
      } else {
        ProceedMeans(u, p);
        ReleaseOwnStep(u, p, h);
        if StepsOf(before, p) == 2 { LetGoNow(s, run, p, h); }
      }
    }
  }

  lemma ReleaseEntered(s: State, p: Pid, h: nat)
    requires Enabled(s, p, Release(h))
    ensures At(Apply(s, p, Release(h)), p) == At(s, p).(pc := ReleaseValid(h))
  {
  }

  lemma ReleaseOwnStep(t: State, p: Pid, h: nat)
    requires Inv(t) && (At(t, p).pc == ReleaseValid(h) || At(t, p).pc == ReleaseFlag(h))
    ensures var u := Apply(t, p, Proceed);
      && (At(t, p).pc == ReleaseValid(h) ==> At(u, p) == At(t, p).(pc := ReleaseFlag(h)))
      && (At(t, p).pc == ReleaseFlag(h) ==> At(u, p) == At(t, p).(pc := Idle, holds := At(t, p).holds - {h}) && !Flag(u, h))
  {
    LiveSlot(t, p, h);
  }

  lemma LetGoMore(s: State, run: seq<Event>, p: Pid, h: nat)
    requires run != [] && LetGo(s, run[..|run| - 1], p, h)
    ensures LetGo(s, run, p, h)
  {
    hide After, Holds, Flag;
    var before := run[..|run| - 1];
    var n :| 0 <= n <= |before| && !Holds(After(s, before[..n]), p, h) && !Flag(After(s, before[..n]), h);
    assert run[..n] == before[..n];
  }

  lemma LetGoNow(s: State, run: seq<Event>, p: Pid, h: nat)
    requires !Holds(After(s, run), p, h) && !Flag(After(s, run), h)
    ensures LetGo(s, run, p, h)
  {
    assert run[..|run|] == run;
  }

  /** However the others interleave, once p has made its two steps after entering a release it no longer holds the lock, and the flag has been clear. */
  lemma ReleaseInTwoSteps(s: State, run: seq<Event>, p: Pid, h: nat)
    requires Inv(s) && Legal(s, run) && CallsIn(run, p, Release(h)) && StepsOf(run, p) >= 3
    ensures At(After(s, run), p) == At(s, p).(holds := At(s, p).holds - {h})
    ensures exists n :: 0 <= n <= |run| && !Holds(After(s, run[..n]), p, h) && !Flag(After(s, run[..n]), h)
  {
    hide Inv, Legal, After;
    ReleaseSoFar(s, run, p, h);
    CallSoFar(s, run, p, Release(h));
  }
}
