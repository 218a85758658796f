/** The pool in shared memory: the slots are updated in place, one access a step. */
module LockTable {
  import opened LockPool

  class Table {
    var slots: array<Slot>
    var procs: map<Pid, Proc>

    ghost function State(): State
      reads this, slots
    {
      LockPool.State(slots[..], procs)
    }

    /** stress_lock_mem_map */
    constructor ()
      ensures State() == Mapped() && fresh(slots)
    {
      slots := new Slot[LOCK_MAX](i => Slot(MAGIC_FREE, false));
      procs := map[];
      new;
      slots[0] := slots[0].(flag := false);
      slots[0] := slots[0].(magic := MAGIC);
      assert slots[..] == Mapped().slots;
    }

    /** The atomic instruction: sets the flag, returns what it was. */
    method TestAndSet(h: nat) returns (was: bool)
      requires h < slots.Length
      modifies slots
      ensures was == old(slots[h].flag)
      ensures slots[..] == old(slots[..])[h := old(slots[h]).(flag := true)]
    {
      was := slots[h].flag;
      slots[h] := slots[h].(flag := true);
    }

    method Store(p: Pid, pc: Pc, owns: set<nat>, holds: set<nat>)
      modifies this`procs
      ensures procs == old(procs)[p := Proc(pc, owns, holds)]
    {
      procs := procs[p := Proc(pc, owns, holds)];
    }

    /** One shared access of a process inside a call. */
    method Proceed(p: Pid)
      requires Inv(State()) && At(State(), p).pc != Idle
      modifies this`procs, slots
      ensures State() == Apply(old(State()), p, Action.Proceed)
    {
      hide Inv;
      SlotInTable(State(), p);
      var me := if p in procs then procs[p] else Proc(Idle, {}, {});
      var pc := me.pc;
      match me.pc {
        case Idle =>
        case GetValid => pc := if slots[0].magic == MAGIC then GetSpin else Idle;
        case GetSpin =>
          var was := TestAndSet(0);
          if !was { pc := GetScan(0); }
        case GetScan(i) =>
          pc := if i >= LOCK_MAX then GetUnlock(0)
                else if slots[i].magic == MAGIC_FREE then GetMark(i)
                else GetScan(i + 1);
        case GetMark(i) =>
          slots[i] := slots[i].(magic := MAGIC);
          pc := GetUnlock(i);
        case GetUnlock(i) =>
          slots[0] := slots[0].(flag := false);
          pc := if i == 0 then Idle else InitFlag(i);
        case InitFlag(h) =>
          slots[h] := slots[h].(flag := false);
          me := me.(owns := me.owns + {h});
          pc := Idle;
        case PutValid(h) =>
          pc := if slots[h].magic == MAGIC && slots[0].magic == MAGIC then PutSpin(h) else Idle;
        case PutSpin(h) =>
          var was := TestAndSet(0);
          if !was { pc := PutMagic(h); }
        case PutMagic(h) =>
          slots[h] := slots[h].(magic := MAGIC_FREE);
          pc := PutFlag(h);
        case PutFlag(h) =>
          slots[h] := slots[h].(flag := false);
          pc := PutUnlock;
        case PutUnlock =>
          slots[0] := slots[0].(flag := false);
          pc := Idle;
        case AcquireValid(h) => pc := if slots[h].magic == MAGIC then AcquireSpin(h) else Idle;
        case AcquireSpin(h) =>
          var was := TestAndSet(h);
          if !was {
            me := me.(holds := me.holds + {h});
            pc := Idle;
          }
        case ReleaseValid(h) => pc := if slots[h].magic == MAGIC then ReleaseFlag(h) else Idle;
        case ReleaseFlag(h) =>
          slots[h] := slots[h].(flag := false);
          me := me.(holds := me.holds - {h});
          pc := Idle;
      }
      Store(p, pc, me.owns, me.holds);
    }

    /** A process enters the library. */
    method Enter(p: Pid, a: Action)
      requires Enabled(State(), p, a) && !a.Proceed? && !a.GiveUp?
      modifies this`procs
      ensures State() == Apply(old(State()), p, a)
    {
      var me := if p in procs then procs[p] else Proc(Idle, {}, {});
      match a {
        case Create => Store(p, GetValid, me.owns, me.holds);
        case Destroy(h) => Store(p, PutValid(h), me.owns - {h}, me.holds);
        case Acquire(h) => Store(p, AcquireValid(h), me.owns, me.holds);
        case Release(h) => Store(p, ReleaseValid(h), me.owns, me.holds);
      }
    }

    /** The time check after a failed test-and-set: back out with -1 or NULL. */
    method GiveUp(p: Pid)
      requires Enabled(State(), p, Action.GiveUp)
      modifies this`procs
      ensures State() == Apply(old(State()), p, Action.GiveUp)
    {
      var me := if p in procs then procs[p] else Proc(Idle, {}, {});
      Store(p, Idle, if me.pc.PutSpin? then me.owns + {me.pc.h} else me.owns, me.holds);
    }

    /** Any legal interleaving, run on the shared table. */
    method Run(run: seq<Event>)
      requires Inv(State()) && Legal(State(), run)
      modifies this`procs, slots
      ensures State() == After(old(State()), run) && Inv(State())
    {
      hide Inv, Enabled, Apply;
      ghost var s := State();
      var i := 0;
      while i < |run|
        invariant 0 <= i <= |run|
        invariant State() == After(s, run[..i]) && Inv(State())
      {
        LegalAt(s, run, i);
        var p, a := run[i].p, run[i].a;
        StepKeepsInv(State(), p, a);
        match a {
          case Proceed => EnabledProceed(State(), p); Proceed(p);
          case GiveUp => GiveUp(p);
          case _ => Enter(p, a);
        }
        assert run[..i + 1][..i] == run[..i];
        i := i + 1;
      }
      assert run[..|run|] == run;
    }
  }

  lemma EnabledProceed(s: State, p: Pid)
    requires Enabled(s, p, Proceed)
    ensures At(s, p).pc != Idle
  {
  }

  lemma {:induction false} LegalAt(s: State, run: seq<Event>, i: nat)
    requires Legal(s, run) && i < |run|
    ensures Enabled(After(s, run[..i]), run[i].p, run[i].a)
    decreases |run|
  {
    hide Enabled, Apply;
    var n := |run| - 1;
    if i < n {
      LegalAt(s, run[..n], i);
      assert run[..n][..i] == run[..i];
    }
  }
}
