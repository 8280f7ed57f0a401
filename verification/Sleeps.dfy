/** What the timer queue's guarantees mean for the tasks that sleep, over whole runs of the machine. */
module Sleeps {
  import opened Base
  import Timers
  import opened Machine
  import opened Safety
  import opened Runs
  import opened Turns

  /** The task is blocked in the sleep that has this wake-up event. */
  ghost predicate AsleepIn(s: Sys, p: Pid, w: nat) {
    s.At(p).waiting && s.At(p).call == Some(Nanosleep(w))
  }

  /** What a step does to the timer. */
  function OpsOf(s: Sys, e: Event): seq<Timers.Op<Pid>> {
    match e
    case Tick => [Timers.Tick]
    case Sleep(us) => [Timers.WakeIn(s.current, us)]
    case _ => []
  }

  function TimerOps(s: Sys, es: seq<Event>): seq<Timers.Op<Pid>>
    decreases |es|
  {
    if es == [] then []
    else OpsOf(s, es[0]) + match Step(s, es[0]) case Ran(s') => TimerOps(s', es[1..]) case Panic(_) => []
  }

  function TickCount(es: seq<Event>): nat {
    if es == [] then 0 else Count(es[0].Tick?) + TickCount(es[1..])
  }

  // ----- the timer of a run -----

  ghost predicate SameTimer(s: Sys, t: Sys) {
    t.timer == s.timer && t.usPerTick == s.usPerTick
  }

  lemma SwitchTimer(s: Sys, p: Pid)
    ensures Switch(s, p).Ran? ==> SameTimer(s, Switch(s, p).s)
    ensures SameTimer(s, Popped(s))
  {
  }

  lemma YieldTimer(s: Sys)
    ensures Yield(s).Ran? ==> SameTimer(s, Yield(s).s)
  {
    hide Switch, Next, Popped;
    if Next(s).Some? {
      SwitchTimer(s, 0);
      SwitchTimer(Popped(s), Next(s).value);
    }
  }

  lemma EndTimer(s: Sys)
    ensures Exited(s).Ran? ==> SameTimer(s, Exited(s).s)
    ensures Killed(s).Ran? ==> SameTimer(s, Killed(s).s)
  {
    var w := WaitersReleased(s);
    hide Switch, Next, Popped, Released;
    if Next(w).Some? {
      SwitchTimer(w, 0);
      SwitchTimer(Unlinked(Popped(w)), Next(w).value);
    }
  }

  lemma TickTimer(s: Sys)
    ensures Ticked(s).Ran? ==> SameTimer(TimerTicked(s), Ticked(s).s)
    ensures TimerTicked(s).timer == Timers.Step(s.timer, Timers.Tick, s.usPerTick)
    ensures TimerTicked(s).usPerTick == s.usPerTick
  {
    var t := TimerTicked(s);
    hide Switch, Next, Popped, Timers.Step, Timers.Fired;
    if Next(t).Some? {
      SwitchTimer(t, 0);
      SwitchTimer(Popped(t), Next(t).value);
    }
  }

  lemma {:induction false} ScanTimer(s: Sys, n: nat, k: nat)
    requires k <= |s.ring|
    ensures SameTimer(s, IrqScanned(s, n, k))
  {
    if k > 0 {
      ScanTimer(s, n, k - 1);
    }
  }

  lemma IrqTimer(s: Sys, n: nat)
    ensures Interrupted(s, n).Ran? ==> SameTimer(s, Interrupted(s, n).s)
  {
    var t := IrqScanned(s, n, |s.ring|);
    ScanTimer(s, n, |s.ring|);
    hide Switch, Popped, IrqScanned;
    if t.prio != [] {
      SwitchTimer(t, 0);
      SwitchTimer(Popped(t), t.prio[0]);
    }
  }

  lemma CallTimer(s: Sys, c: Call)
    ensures CallOrPark(s, c).Ran? ==> SameTimer(s, CallOrPark(s, c).s)
  {
    hide Yield, Blocks, Performed;
    YieldTimer(Parking(s, c));
  }

  lemma StepTimer(s: Sys, e: Event)
    requires Step(s, e).Ran?
    ensures Step(s, e).s.usPerTick == s.usPerTick
    ensures Step(s, e).s.timer ==
            if e.Tick? then Timers.Step(s.timer, Timers.Tick, s.usPerTick)
            else if e.Sleep? then Timers.Step(s.timer, Timers.WakeIn(s.current, e.us), s.usPerTick)
            else s.timer
  {
    hide Ticked, TimerTicked, Interrupted, Yield, CallOrPark, Exited, Killed, Timers.Step, Blocks, Performed, Received,
      WithoutId;
    match e
    case Tick => TickTimer(s);
    case Irq(n) => IrqTimer(s, n);
    case Defer => YieldTimer(s.Put(s.current, s.Cur().(eax := 0)));
    case WaitForIrq => CallTimer(s, IrqWait);
    case Probe(r, block) => if block { CallTimer(s, ProbeQueue(r)); }
    case WaitFor(p) => CallTimer(s, WaitProcess(p));
    case Sleep(us) => YieldTimer(Sleeper(s, us));
    case Exit => EndTimer(s);
    case Fault => EndTimer(s);
    case _ =>
  }

  lemma RunJoin(q: Timers.Queue<Pid>, a: seq<Timers.Op<Pid>>, b: seq<Timers.Op<Pid>>, u: nat)
    requires |a| <= 1
    ensures Timers.Run(q, a + b, u) == Timers.Run(if a == [] then q else Timers.Step(q, a[0], u), b, u)
  {
    hide Timers.Step;
    if a == [] {
      assert a + b == b;
    } else {
      assert (a + b)[1..] == b;
    }
  }

  /** The timer of a run is the timer queue's own run. */
  lemma {:induction false} RunTimer(s: Sys, es: seq<Event>)
    requires Run(s, es).Ran?
    ensures Run(s, es).s.usPerTick == s.usPerTick
    ensures Run(s, es).s.timer == Timers.Run(s.timer, TimerOps(s, es), s.usPerTick)
    decreases |es|
  {
    if es != [] {
      hide Step, Timers.Step;
      StepTimer(s, es[0]);
      var s' := Step(s, es[0]).s;
      RunTimer(s', es[1..]);
      RunJoin(s.timer, OpsOf(s, es[0]), TimerOps(s', es[1..]), s.usPerTick);
    }
  }

  lemma {:induction false} OpsCount(s: Sys, es: seq<Event>)
    requires Run(s, es).Ran?
    ensures Timers.Ticks(TimerOps(s, es)) == TickCount(es)
    ensures forall i :: 0 <= i < |TimerOps(s, es)| ==> !TimerOps(s, es)[i].Desched?
    decreases |es|
  {
    if es != [] {
      hide Step;
      var rest := TimerOps(Step(s, es[0]).s, es[1..]);
      OpsCount(Step(s, es[0]).s, es[1..]);
      if OpsOf(s, es[0]) == [] {
        assert TimerOps(s, es) == rest;
      } else {
        assert TimerOps(s, es)[1..] == rest;
      }
    }
  }

  /** The event of that id, if it is queued, is the task's. */
  ghost predicate Owned(events: seq<Timers.WakeEvent<Pid>>, w: nat, p: Pid) {
    forall i :: 0 <= i < |events| && events[i].uid == w ==> events[i].toWake == p
  }

  lemma OwnerKept(q: Timers.Queue<Pid>, op: Timers.Op<Pid>, w: nat, p: Pid, u: nat)
    requires w <= q.lastUid && !op.Desched? && Owned(q.events, w, p)
    ensures w <= Timers.Step(q, op, u).lastUid && Owned(Timers.Step(q, op, u).events, w, p)
  {
  }

  lemma {:induction false} OwnerStays(q: Timers.Queue<Pid>, ops: seq<Timers.Op<Pid>>, w: nat, p: Pid, u: nat)
    requires w <= q.lastUid && Owned(q.events, w, p) && forall i :: 0 <= i < |ops| ==> !ops[i].Desched?
    ensures Owned(Timers.Run(q, ops, u).events, w, p)
    decreases |ops|
  {
    if ops != [] {
      hide Timers.Step, Owned;
      OwnerKept(q, ops[0], w, p, u);
      OwnerStays(Timers.Step(q, ops[0], u), ops[1..], w, p, u);
    }
  }

  // ----- sleeping and waking -----

  /** A task sleeps exactly as long as its event is queued. */
  lemma AsleepIff(s: Sys, p: Pid, w: nat)
    requires Inv(s)
    ensures AsleepIn(s, p, w) <==> Sleeping(s, p, w)
    ensures AsleepIn(s, p, w) ==> p in s.ring && p != s.current && w <= s.timer.lastUid
    ensures AsleepIn(s, p, w) ==> Timers.HasUid(s.timer.events, w) && s.timer.Valid()
  {
    if AsleepIn(s, p, w) {
      assert CallOk(s, p);
    }
  }

  lemma OneOwner(s: Sys, p: Pid, w: nat)
    requires Inv(s) && AsleepIn(s, p, w)
    ensures Owned(s.timer.events, w, p)
  {
    AsleepIff(s, p, w);
  }

  /**
   A sleeping task is released by exactly the tick on which its event is due, whatever happens meanwhile: it sleeps on
   through fewer ticks, and not through as many.
   */
  lemma SleepEndsOnTime(s: Sys, es: seq<Event>, p: Pid, w: nat)
    requires Inv(s) && AllowedRun(s, es) && Run(s, es).Ran? && AsleepIn(s, p, w) && s.usPerTick > 0
    ensures Timers.HasUid(s.timer.events, w) && Inv(Run(s, es).s)
    ensures AsleepIn(Run(s, es).s, p, w) <==> TickCount(es) < Timers.DueTicks(s.timer.events, w, s.usPerTick)
  {
    var t := Run(s, es).s;
    hide *;
    RunOk(s, es);
    AsleepIff(s, p, w);
    OneOwner(s, p, w);
    RunTimer(s, es);
    OpsCount(s, es);
    OwnerStays(s.timer, TimerOps(s, es), w, p, s.usPerTick);
    Timers.WakeTime(s.timer, TimerOps(s, es), w, s.usPerTick);
    AsleepIff(t, p, w);
    OwnedIff(t, p, w);
  }

  lemma OwnedIff(t: Sys, p: Pid, w: nat)
    requires Owned(t.timer.events, w, p)
    ensures Sleeping(t, p, w) <==> Timers.HasUid(t.timer.events, w)
  {
  }

  /** The tick that releases a sleeper enters it, or it is entered within the bound of its turn. */
  lemma SleeperReturns(s: Sys, es: seq<Event>, t: Sys, fs: seq<Event>, p: Pid, w: nat)
    requires Inv(s) && AllowedRun(s, es) && Run(s, es).Ran? && AsleepIn(s, p, w) && s.usPerTick > 0
    requires Step(Run(s, es).s, Tick) == Ran(t) && AllowedRun(t, fs)
    requires Timers.HasUid(s.timer.events, w)
    requires TickCount(es) + 1 == Timers.DueTicks(s.timer.events, w, s.usPerTick)
    requires Leavings(t, fs) >= |t.prio| + |t.ring| + Detours(|t.ring|, fs)
    ensures t.current == p || exists k :: FirstTurn(t, fs, p, k)
  {
    hide *;
    var r := Run(s, es).s;
    TickAllowed(r);
    TickCountMore(es);
    RunOneMore(s, es, Tick);
    SleepEndsOnTime(s, es, p, w);
    SleepEndsOnTime(s, es + [Tick], p, w);
    AsleepIff(r, p, w);
    InvRing(r);
    StepOk(r, Tick);
    TickFrame(r);
    TickRuns(r);
    BystanderOk(r, Tick, p);
    ReleasedRuns(r, t, p, w);
    if t.current != p {
      DelayOk(t, p);
      TurnComes(t, fs, p);
    }
  }

  lemma TickAllowed(s: Sys)
    ensures Allowed(s, Tick)
  {
  }

  lemma {:induction false} TickCountMore(es: seq<Event>)
    ensures TickCount(es + [Tick]) == TickCount(es) + 1
  {
    if es == [] {
      assert es + [Tick] == [Tick];
    } else {
      assert (es + [Tick])[1..] == es[1..] + [Tick];
      TickCountMore(es[1..]);
    }
  }

  lemma {:induction false} RunOneMore(s: Sys, es: seq<Event>, e: Event)
    requires AllowedRun(s, es) && Run(s, es).Ran?
    ensures Run(s, es + [e]) == Step(Run(s, es).s, e)
    ensures Allowed(Run(s, es).s, e) ==> AllowedRun(s, es + [e])
    decreases |es|
  {
    hide Step, Allowed;
    if es == [] {
      assert es + [e] == [e];
      RunsTo1(s, e);
    } else {
      assert (es + [e])[1..] == es[1..] + [e];
      RunOneMore(Step(s, es[0]).s, es[1..], e);
    }
  }

  lemma RunsTo1(s: Sys, e: Event)
    ensures Run(s, [e]) == Step(s, e)
    ensures Allowed(s, e) ==> AllowedRun(s, [e])
  {
    hide Step, Allowed;
  }

  /** A task that a step has released can run, if it was not entered at once. */
  lemma ReleasedRuns(r: Sys, t: Sys, p: Pid, w: nat)
    requires AsleepIn(r, p, w) && Bystood(r.At(p), t.At(p), t.current == p) && !AsleepIn(t, p, w)
    ensures t.current != p ==> !t.At(p).waiting
  {
    hide Resumed;
  }

  /** A call to nanosleep parks its caller under a new event, and in no run is it released before its time. */
  lemma NanosleepIsNeverEarly(s: Sys, us: nat, es: seq<Event>, p: Pid, w: nat)
    requires Inv(s) && s.current != s.idle && s.usPerTick > 0 && p == s.current && w == s.timer.lastUid + 1
    ensures Step(s, Sleep(us)).Ran? && AsleepIn(Step(s, Sleep(us)).s, p, w)
    ensures AllowedRun(Step(s, Sleep(us)).s, es) && Run(Step(s, Sleep(us)).s, es).Ran?
            && !AsleepIn(Run(Step(s, Sleep(us)).s, es).s, p, w) ==>
              us <= TickCount(es) * s.usPerTick
  {
    hide *;
    StepTimerSleep(s, us);
    SleptParks(s, us);
    var t := Slept(s, us).s;
    if AllowedRun(t, es) && Run(t, es).Ran? && !AsleepIn(Run(t, es).s, p, w) {
      AsleepIff(t, p, w);
      OneOwner(t, p, w);
      RunTimer(t, es);
      OpsCount(t, es);
      RunOk(t, es);
      OwnerStays(t.timer, TimerOps(t, es), w, p, t.usPerTick);
      OwnedIff(Run(t, es).s, p, w);
      AsleepIff(Run(t, es).s, p, w);
      TimerIsValid(s);
      Timers.SleepIsNeverEarly(s.timer, p, us, TimerOps(t, es), s.usPerTick);
    }
  }

  lemma TimerIsValid(s: Sys)
    requires Inv(s)
    ensures s.timer.Valid()
  {
  }

  lemma StepTimerSleep(s: Sys, us: nat)
    requires Inv(s) && s.current != s.idle
    ensures Step(s, Sleep(us)) == Slept(s, us) && Slept(s, us).Ran? && Inv(Slept(s, us).s)
    ensures Slept(s, us).s.usPerTick == s.usPerTick
    ensures Slept(s, us).s.timer == Timers.Step(s.timer, Timers.WakeIn(s.current, us), s.usPerTick)
  {
    hide Slept, Inv, Timers.Step;
    SleepOk(s, us);
    StepTimer(s, Sleep(us));
  }

  lemma SleptParks(s: Sys, us: nat)
    requires Inv(s) && s.current != s.idle
    ensures Slept(s, us).Ran? && AsleepIn(Slept(s, us).s, s.current, s.timer.lastUid + 1)
  {
    var t := Sleeper(s, us);
    assert t.current == s.current && AsleepIn(t, s.current, s.timer.lastUid + 1) by {
      hide Inv;
    }
    SleepOk(s, us);
    SleptIs(s, us);
    hide Inv, Slept, Sleeper, Next, Popped;
    YieldLeaves(t);
  }

  /** Leaving a call changes nothing of a caller that waits. */
  lemma YieldLeaves(t: Sys)
    requires Yield(t).Ran?
    ensures Yield(t).s.At(t.current) == t.At(t.current)
  {
    hide Next, Blocks, Performed;
  }
}
