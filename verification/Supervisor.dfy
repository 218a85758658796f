/**
  stress_oomable_child: fork a child, wait for it, restart it when it dies of a
  bus error, a segmentation fault or the OOM killer, and escalate signals while
  waiting fails.  What fork and waitpid return, and the clock, are events.
 */
module Supervisor {
  datatype Signal = SIGALRM | SIGTERM | SIGKILL | SIGBUS | SIGSEGV | Other(number: nat)

  const SIGNALS: seq<Signal> := [SIGALRM, SIGALRM, SIGALRM, SIGALRM, SIGTERM, SIGKILL]
  const LAST: nat := 5

  datatype Event =
    | Stop                                  // not to continue, or past the end time
    | ForkFails(outOfResources: bool)       // EAGAIN and ENOMEM are retried
    | Forks
    | WaitFails(noChild: bool, late: bool)  // ECHILD; the time is past t_end
    | Exits(code: nat)
    | Dies(of: Signal)

  datatype Place = Again | Rewait | Report | Returned(value: int)

  /** The local variables, and a record of the system calls made. */
  datatype State = State(
    place: Place,
    signalIdx: nat, ooms: nat, segvs: nat, buserrs: nat, rc: int,
    forks: nat, reaped: nat, sent: seq<Signal>)

  const INITIAL: State := State(Again, 0, 0, 0, 0, 0, 0, 0, [])

  function SignalAt(idx: nat): Signal {
    if idx < LAST then SIGNALS[idx] else SIGKILL
  }

  /** One event; an event that does not belong to the place is not for this process and changes nothing. */
  function Step(s: State, e: Event, oomable: bool): State {
    match (s.place, e)
    case (Again, Stop) => s.(place := Returned(0))
    case (Again, ForkFails(retry)) => if retry then s else s.(place := Returned(-1))
    case (Again, Forks) => s.(place := Rewait, forks := s.forks + 1)
    case (Rewait, WaitFails(noChild, late)) =>
      if noChild then s.(place := Report)
      else
        var t := s.(sent := s.sent + [SignalAt(s.signalIdx)]);
        if s.signalIdx < LAST then t.(signalIdx := s.signalIdx + 1)
        else if late then t.(place := Report)
        else t
    case (Rewait, Exits(code)) => s.(place := Report, reaped := s.reaped + 1, rc := code % 256)
    case (Rewait, Dies(signal)) =>
      var t := s.(reaped := s.reaped + 1);
      if signal == SIGBUS then t.(place := Again, buserrs := s.buserrs + 1)
      else if SignalAt(s.signalIdx) != SIGKILL && signal == SIGKILL then
        if oomable then t.(place := Returned(0)) else t.(place := Again, ooms := s.ooms + 1)
      else if signal == SIGSEGV then t.(place := Again, segvs := s.segvs + 1)
      else t.(place := Report, rc := 0)     // WEXITSTATUS of a signal death
    case _ => s
  }

  function Run(events: seq<Event>, oomable: bool): State {
    if events == [] then INITIAL
    else Step(Run(events[..|events| - 1], oomable), events[|events| - 1], oomable)
  }

  // ---------- what every run keeps ----------

  function Restarts(s: State): nat {
    s.ooms + s.segvs + s.buserrs
  }

  ghost predicate Inv(s: State) {
    && s.signalIdx == (if |s.sent| < LAST then |s.sent| else LAST)
    && (forall k | 0 <= k < |s.sent| :: s.sent[k] == SignalAt(k))
    && (s.place == Again ==> s.reaped == s.forks == Restarts(s) && s.rc == 0)
    && (s.place == Rewait ==> s.forks == s.reaped + 1 == Restarts(s) + 1 && s.rc == 0)
    && (s.place == Report ==> s.forks == Restarts(s) + 1 && s.reaped <= s.forks <= s.reaped + 1)
    && (s.place == Report ==> 0 <= s.rc < 256)
    && (s.place.Returned? ==> s.place.value == 0 || (s.place.value == -1 && s.forks == Restarts(s)))
    && (s.place.Returned? ==> s.reaped == s.forks)
  }

  lemma StepKeepsInv(s: State, e: Event, oomable: bool)
    requires Inv(s)
    ensures Inv(Step(s, e, oomable))
  {
    hide SignalAt;
    SignalSaturates(|s.sent|);
  }

  lemma SignalSaturates(n: nat)
    ensures SignalAt(if n < LAST then n else LAST) == SignalAt(n)
  {
  }

  lemma {:induction false} RunInv(events: seq<Event>, oomable: bool)
    ensures Inv(Run(events, oomable))
    decreases |events|
  {
    if events != [] {
      RunInv(events[..|events| - 1], oomable);
      StepKeepsInv(Run(events[..|events| - 1], oomable), events[|events| - 1], oomable);
    }
  }

  /** The k-th signal of a run is the k-th of the list, then SIGKILL for ever. */
  lemma Escalation(events: seq<Event>, oomable: bool, k: nat)
    requires k < |Run(events, oomable).sent|
    ensures Run(events, oomable).sent[k] == if k < 4 then SIGALRM else if k == 4 then SIGTERM else SIGKILL
    ensures Run(events, oomable).sent[k] == SIGKILL ==>
      |Run(events, oomable).sent| > LAST && Run(events, oomable).sent[..LAST] == [SIGALRM, SIGALRM, SIGALRM, SIGALRM, SIGTERM]
  {
    RunInv(events, oomable);
    var sent := Run(events, oomable).sent;
    assert sent[k] == SignalAt(k);
    if sent[k] == SIGKILL {
      assert sent[0] == SignalAt(0) && sent[1] == SignalAt(1) && sent[2] == SignalAt(2);
      assert sent[3] == SignalAt(3) && sent[4] == SignalAt(4);
    }
  }

  /** A child is forked only when every child before it has been reaped. */
  lemma OneChildAtATime(events: seq<Event>, oomable: bool)
    ensures var s := Run(events, oomable);
      && s.reaped <= s.forks <= s.reaped + 1
      && (Step(s, Forks, oomable).forks > s.forks ==> s.reaped == s.forks)
  {
    RunInv(events, oomable);
  }

  /** At the report step there was one fork more than restarts, and the result is the exit status of a child that exited, else 0. */
  lemma ReportAccounts(events: seq<Event>, oomable: bool)
    requires Run(events, oomable).place == Report
    ensures var s := Run(events, oomable);
      s.forks == 1 + s.ooms + s.segvs + s.buserrs && 0 <= s.rc < 256
    ensures Run(events, oomable).rc != 0 ==>
      exists i :: 0 <= i < |events| && events[i].Exits? && events[i].code % 256 == Run(events, oomable).rc
  {
    RunInv(events, oomable);
    ExitStatus(events, oomable);
  }

  lemma {:induction false} ExitStatus(events: seq<Event>, oomable: bool)
    ensures Run(events, oomable).rc != 0 ==>
      exists i :: 0 <= i < |events| && events[i].Exits? && events[i].code % 256 == Run(events, oomable).rc
    decreases |events|
  {
    if events != [] {
      var before, last := events[..|events| - 1], events[|events| - 1];
      var s, t := Run(before, oomable), Run(events, oomable);
      ExitStatus(before, oomable);
      if t.rc != 0 {
        if t.rc == s.rc {
          var i :| 0 <= i < |before| && before[i].Exits? && before[i].code % 256 == s.rc;
          assert events[i] == before[i];
        } else {
          assert events[|events| - 1].Exits?;
        }
      }
    }
  }

  /** The wrapper returns -1 only for a fork that failed for good. */
  lemma {:induction false} MinusOneIsForkFailure(events: seq<Event>, oomable: bool)
    requires events != [] && Run(events, oomable).place == Returned(-1)
    ensures ForkFails(false) in events
    decreases |events|
  {
    var before, last := events[..|events| - 1], events[|events| - 1];
    RunInv(before, oomable);
    if Run(before, oomable).place == Returned(-1) {
      if before != [] { MinusOneIsForkFailure(before, oomable); }
      assert forall e :: e in before ==> e in events;
    }
  }

  // ---------- what each answer leads to ----------

  predicate Final(s: State) {
    s.place == Report || s.place.Returned?
  }

  lemma {:induction false} FinalStays(events: seq<Event>, more: seq<Event>, oomable: bool)
    requires Final(Run(events, oomable))
    ensures Run(events + more, oomable) == Run(events, oomable)
    decreases |more|
  {
    if more == [] {
      assert events + more == events;
    } else {
      var n := |more| - 1;
      FinalStays(events, more[..n], oomable);
      RunOne(events + more[..n], more[n], oomable);
      assert events + more[..n] + [more[n]] == events + more;
    }
  }

  /** The exit status of a child that exits is what the wrapper reports, whatever else would have followed. */
  lemma ExitIsReported(events: seq<Event>, code: nat, more: seq<Event>, oomable: bool)
    requires Run(events, oomable).place == Rewait
    ensures var t := Run(events + [Exits(code)] + more, oomable);
      && t.place == Report && t.rc == code % 256
      && t.reaped == t.forks == 1 + t.ooms + t.segvs + t.buserrs
  {
    RunInv(events, oomable);
    RunOne(events, Exits(code), oomable);
    FinalStays(events + [Exits(code)], more, oomable);
  }

  /** A child that dies of a bus error or a segmentation fault is restarted and counted as that, in every run. */
  lemma FaultsRestart(events: seq<Event>, oomable: bool)
    requires Run(events, oomable).place == Rewait
    ensures var s := Run(events, oomable);
      && Run(events + [Dies(SIGBUS)], oomable) == s.(place := Again, reaped := s.reaped + 1, buserrs := s.buserrs + 1)
      && Run(events + [Dies(SIGSEGV)], oomable) == s.(place := Again, reaped := s.reaped + 1, segvs := s.segvs + 1)
  {
    RunOne(events, Dies(SIGBUS), oomable);
    RunOne(events, Dies(SIGSEGV), oomable);
  }

  /** Any other signal death is reported, as status 0: only SIGKILL before the fifth signal is an exception. */
  lemma OtherDeathsReport(events: seq<Event>, signal: Signal, more: seq<Event>, oomable: bool)
    requires Run(events, oomable).place == Rewait && signal != SIGBUS && signal != SIGSEGV
    requires signal == SIGKILL ==> |Run(events, oomable).sent| >= 5
    ensures var s, t := Run(events, oomable), Run(events + [Dies(signal)] + more, oomable);
      && t.place == Report && t.rc == 0 && t.ooms == s.ooms && t.segvs == s.segvs && t.buserrs == s.buserrs
  {
    RunInv(events, oomable);
    RunOne(events, Dies(signal), oomable);
    FinalStays(events + [Dies(signal)], more, oomable);
  }

  /** A failed wait: no such child ends the wait; otherwise one more signal is sent, and only a late failure after five signals gives up. */
  lemma WaitFailures(events: seq<Event>, late: bool, oomable: bool)
    requires Run(events, oomable).place == Rewait
    ensures var s := Run(events, oomable);
      && Run(events + [WaitFails(true, late)], oomable) == s.(place := Report)
      && var t := Run(events + [WaitFails(false, late)], oomable);
        && |t.sent| == |s.sent| + 1 && t.sent[..|s.sent|] == s.sent
        && (t.place == Report <==> late && |s.sent| >= 5) && (t.place == Rewait || t.place == Report)
        && t.rc == 0 && t.forks == s.forks && t.reaped == s.reaped
        && t.ooms == s.ooms && t.segvs == s.segvs && t.buserrs == s.buserrs
  {
    RunInv(events, oomable);
    RunOne(events, WaitFails(true, late), oomable);
    RunOne(events, WaitFails(false, late), oomable);
  }

  /** Before a fork: a stop returns success, running out of resources tries again, any other failure returns -1, and success waits for the child. */
  lemma ForkAnswers(events: seq<Event>, more: seq<Event>, oomable: bool)
    requires Run(events, oomable).place == Again
    ensures Run(events + [Stop] + more, oomable).place == Returned(0)
    ensures Run(events + [ForkFails(false)] + more, oomable).place == Returned(-1)
    ensures Run(events + [ForkFails(true)], oomable) == Run(events, oomable)
    ensures var s := Run(events, oomable);
      Run(events + [Forks], oomable) == s.(place := Rewait, forks := s.forks + 1)
  {
    RunOne(events, Stop, oomable);
    RunOne(events, ForkFails(false), oomable);
    RunOne(events, ForkFails(true), oomable);
    RunOne(events, Forks, oomable);
    FinalStays(events + [Stop], more, oomable);
    FinalStays(events + [ForkFails(false)], more, oomable);
  }

  /** Children that died of a signal and were reaped. */
  function Deaths(events: seq<Event>, signal: Signal, oomable: bool): nat {
    if events == [] then 0
    else
      var before := events[..|events| - 1];
      Deaths(before, signal, oomable)
        + if Run(before, oomable).place == Rewait && events[|events| - 1] == Dies(signal) then 1 else 0
  }

  /** Over every run the counters are the numbers of children that died so; OOM kills are among the SIGKILL deaths. */
  lemma {:induction false} CountersCount(events: seq<Event>, oomable: bool)
    ensures var s := Run(events, oomable);
      && s.buserrs == Deaths(events, SIGBUS, oomable) && s.segvs == Deaths(events, SIGSEGV, oomable)
      && s.ooms <= Deaths(events, SIGKILL, oomable) && (oomable ==> s.ooms == 0)
    decreases |events|
  {
    if events != [] {
      CountersCount(events[..|events| - 1], oomable);
    }
  }

  // ---------- which SIGKILL deaths count as OOM kills ----------

  /** A SIGKILL death is treated as an OOM kill exactly when fewer than five signals were sent in the whole run so far, to this child or an earlier one. */
  lemma CountedAsOomIff(events: seq<Event>, oomable: bool)
    requires Run(events, oomable).place == Rewait
    ensures var s, t := Run(events, oomable), Step(Run(events, oomable), Dies(SIGKILL), oomable);
      && (|s.sent| < 5 ==> if oomable then t.place == Returned(0) else t.place == Again && t.ooms == s.ooms + 1)
      && (|s.sent| >= 5 ==> t.place == Report && t.ooms == s.ooms)
  {
    RunInv(events, oomable);
  }

  /** So the parent's own SIGKILL is never counted. */
  lemma OwnKillNotCounted(events: seq<Event>, oomable: bool)
    requires Run(events, oomable).place == Rewait && SIGKILL in Run(events, oomable).sent
    ensures Step(Run(events, oomable), Dies(SIGKILL), oomable).ooms == Run(events, oomable).ooms
  {
    RunInv(events, oomable);
    var k :| 0 <= k < |Run(events, oomable).sent| && Run(events, oomable).sent[k] == SIGKILL;
    Escalation(events, oomable, k);
    CountedAsOomIff(events, oomable);
  }

  /** But a real OOM kill can go uncounted: here a second child, which was sent nothing, is killed and not restarted. */
  lemma OomKillMissed()
    ensures var interrupted := WaitFails(false, false);
      var events := [Forks, interrupted, interrupted, interrupted, interrupted, interrupted, Dies(SIGSEGV), Forks, Dies(SIGKILL)];
      var s := Run(events, false);
      SIGKILL !in s.sent && s.place == Report && s.ooms == 0 && s.forks == 2
  {
    hide Run;
    var w := WaitFails(false, false);
    var e2 := [Forks, w];
    var e4 := e2 + [w, w];
    var e6 := e4 + [w, w];
    var e8 := e6 + [Dies(SIGSEGV), Forks];
    EmptyRun(false);
    RunTwo([], Forks, w, false);
    RunTwo(e2, w, w, false);
    RunTwo(e4, w, w, false);
    RunTwo(e6, Dies(SIGSEGV), Forks, false);
    RunOne(e8, Dies(SIGKILL), false);
    assert e8 + [Dies(SIGKILL)] == [Forks, w, w, w, w, w, Dies(SIGSEGV), Forks, Dies(SIGKILL)];
    assert [] + [Forks, w] == e2;
    assert Run(e6, false).sent == [SIGALRM, SIGALRM, SIGALRM, SIGALRM, SIGTERM];
  }

  lemma EmptyRun(oomable: bool)
    ensures Run([], oomable) == INITIAL
  {
  }

  lemma RunOne(events: seq<Event>, e: Event, oomable: bool)
    ensures Run(events + [e], oomable) == Step(Run(events, oomable), e, oomable)
  {
    hide Step;
    assert (events + [e])[..|events|] == events;
  }

  lemma RunTwo(events: seq<Event>, e: Event, f: Event, oomable: bool)
    ensures Run(events + [e, f], oomable) == Step(Step(Run(events, oomable), e, oomable), f, oomable)
  {
    hide Run, Step;
    RunOne(events, e, oomable);
    RunOne(events + [e], f, oomable);
    assert events + [e] + [f] == events + [e, f];
  }

  // ---------- the function itself ----------

  /** The goto-driven loop over a stream of kernel answers. */
  method OomableChild(events: seq<Event>, oomable: bool) returns (s: State)
    ensures s == Run(events, oomable)
  {
    var signalIdx, ooms, segvs, buserrs, rc := 0, 0, 0, 0, 0;
    var forks, reaped, sent := 0, 0, [];
    var place, i := Again, 0;
    while i < |events|
      invariant 0 <= i <= |events| && signalIdx >= 0 && ooms >= 0 && segvs >= 0 && buserrs >= 0 && forks >= 0 && reaped >= 0
      invariant signalIdx <= LAST
      invariant State(place, signalIdx, ooms, segvs, buserrs, rc, forks, reaped, sent) == Run(events[..i], oomable)
    {
      assert events[..i + 1][..i] == events[..i];
      var e := events[i];
      i := i + 1;
      if place == Again {
        if e == Stop {
          place := Returned(0);
        } else if e.ForkFails? {
          if !e.outOfResources {
            place := Returned(-1);
          }
        } else if e == Forks {
          forks := forks + 1;
          place := Rewait;
        }
      } else if place == Rewait {
        if e.WaitFails? {
          if e.noChild {
            place := Report;
            continue;
          }
          sent := sent + [SIGNALS[signalIdx]];
          if signalIdx < |SIGNALS| - 1 {
            signalIdx := signalIdx + 1;
          } else if e.late {
            place := Report;
          }
        } else if e.Dies? {
          reaped := reaped + 1;
          if e.of == SIGBUS {
            buserrs := buserrs + 1;
            place := Again;
            continue;
          }
          if SIGNALS[signalIdx] != SIGKILL && e.of == SIGKILL {
            if oomable {
              place := Returned(0);
            } else {
              ooms := ooms + 1;
              place := Again;
            }
            continue;
          }
          if e.of == SIGSEGV {
            segvs := segvs + 1;
            place := Again;
            continue;
          }
          rc := 0;
          place := Report;
        } else if e.Exits? {
          reaped := reaped + 1;
          rc := e.code % 256;
          place := Report;
        }
      }
    }
    s := State(place, signalIdx, ooms, segvs, buserrs, rc, forks, reaped, sent);
    assert events[..|events|] == events;
  }
}
