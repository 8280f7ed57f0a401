/** What the invariant gives over whole runs: safety, delivered wake-ups, and turns that come. */
module Runs {
  import opened Base
  import opened Machine
  import opened Safety

  // ----- safety -----

  lemma BootOk(tasks: seq<Pid>, usPerTick: nat)
    requires |tasks| >= 2 && Distinct(tasks)
    ensures Inv(Boot(tasks, usPerTick))
  {
  }

  /** Every allowed run keeps the invariant; it can only end in a send to a dead task. */
  lemma {:induction false} RunOk(s: Sys, es: seq<Event>)
    requires Inv(s) && AllowedRun(s, es)
    ensures Run(s, es).Ran? ==> Inv(Run(s, es).s)
    ensures Run(s, es).Panic? ==> Run(s, es).why == NullTask
    decreases |es|
  {
    if es != [] {
      StepOk(s, es[0]);
      if Step(s, es[0]).Ran? {
        RunOk(Step(s, es[0]).s, es[1..]);
      }
    }
  }

  /**
   From boot on, in every reachable state: the priority list is free of duplicates, holds only
   live tasks that do not wait and never the running one; the running task is live and does
   not wait; and none of the scheduler's own panics is reachable.
   */
  lemma SchedulerIsSafe(tasks: seq<Pid>, usPerTick: nat, es: seq<Event>)
    requires |tasks| >= 2 && Distinct(tasks)
    requires AllowedRun(Boot(tasks, usPerTick), es)
    ensures match Run(Boot(tasks, usPerTick), es)
            case Panic(why) => why == NullTask
            case Ran(s) =>
              && Distinct(s.ring) && Distinct(s.prio)
              && (forall p :: p in s.prio ==> p in s.ring && p != s.current && !s.At(p).waiting)
              && s.current in s.ring && !s.Cur().waiting && s.Cur().call.None?
  {
    BootOk(tasks, usPerTick);
    RunOk(Boot(tasks, usPerTick), es);
  }

  /**
   In every reachable state a blocked task waits for something that has not happened: no
   interrupt is pending for it, no queued item answers it, its process lives, its timer runs.
   */
  lemma NoWakeUpIsLost(tasks: seq<Pid>, usPerTick: nat, es: seq<Event>, p: Pid)
    requires |tasks| >= 2 && Distinct(tasks)
    requires AllowedRun(Boot(tasks, usPerTick), es)
    requires Run(Boot(tasks, usPerTick), es).Ran?
    requires p in Run(Boot(tasks, usPerTick), es).s.ring
    requires Run(Boot(tasks, usPerTick), es).s.At(p).waiting
    ensures var s := Run(Boot(tasks, usPerTick), es).s;
            match s.At(p).call
            case None => false
            case Some(IrqWait) => s.At(p).hits == 0
            case Some(ProbeQueue(r)) => forall item :: item in s.At(p).queue ==> item.replyTo != r
            case Some(WaitProcess(q)) => q in s.ring
            case Some(Nanosleep(w)) =>
              exists e :: e in s.timer.events && e.toWake == p && e.uid == w
  {
    BootOk(tasks, usPerTick);
    RunOk(Boot(tasks, usPerTick), es);
    var s := Run(Boot(tasks, usPerTick), es).s;
    assert CallOk(s, p);
  }

  // ----- one wake-up -----

  /**
   A send wakes a blocked probe exactly when it carries the very number probed for. So
   probeQueue, which accepts any item, can stay blocked with an item in its queue, and that
   happens for exactly the sends that carry a reply number.
   */
  lemma SendWakes(s: Sys, to: Pid, r: nat, data: seq<byte>, q: nat)
    requires Inv(s) && to in s.ring && to != s.current
    requires s.At(to).waiting && s.At(to).call == Some(ProbeQueue(q))
    ensures Step(s, Send(to, r, data)).Ran?
    ensures var s' := Step(s, Send(to, r, data)).s;
            && (!s'.At(to).waiting <==> r == q)
            && (s'.At(to).waiting && !Blocks(s', to, ProbeQueue(q)) <==> q == 0 && r != 0)
            && s'.At(to).queue == s.At(to).queue + [Item(s'.lastMsg, s.current, r, data)]
            && s'.Cur().eax == s'.lastMsg
            && s' == s.(procs := s'.procs, lastMsg := s.lastMsg + 1)
            && forall p :: p != to && p != s.current ==> s'.At(p) == s.At(p)
  {
    assert CallOk(s, to);
    LookupNone(s.At(to).queue, q);
    LookupAppend(s.At(to).queue, Item(s.lastMsg + 1, s.current, r, data), q);
    LookupNone(s.At(to).queue + [Item(s.lastMsg + 1, s.current, r, data)], q);
  }

  /** Task 0 probes for any item, the idle task is interrupted, and task 2 sends task 0 a reply. */
  function Missing(): seq<Event> {
    [Probe(0, true), Tick, Send(0, 7, [])]
  }

  lemma RunsTo(s: Sys, e: Event, es: seq<Event>)
    requires Allowed(s, e) && Step(s, e).Ran?
    ensures Run(s, [e] + es) == Run(Step(s, e).s, es)
    ensures AllowedRun(s, [e] + es) <==> AllowedRun(Step(s, e).s, es)
  {
    hide Step, Allowed;
    assert ([e] + es)[1..] == es;
  }

  /** A run from boot that leaves a task blocked in probeQueue with an item in its queue. */
  lemma ProbeMissesReply()
    ensures AllowedRun(Boot([0, 1, 2], 1), Missing()) && Run(Boot([0, 1, 2], 1), Missing()).Ran?
    ensures var s := Run(Boot([0, 1, 2], 1), Missing()).s;
            s.At(0).waiting && s.At(0).call == Some(ProbeQueue(0)) && |s.At(0).queue| == 1
  {
    var s0 := Boot([0, 1, 2], 1);
    var s1 := Parking(s0, ProbeQueue(0)).(current := 1);
    var s2 := s1.(current := 2);
    MissingProbe(s0, s1);
    MissingTick(s1, s2);
    MissingSend(s2);
    assert Missing() == [Probe(0, true)] + ([Tick] + ([Send(0, 7, [])] + []));
    hide Step, Parking, Missing, Boot;
    RunsTo(s2, Send(0, 7, []), []);
    RunsTo(s1, Tick, [Send(0, 7, [])] + []);
    RunsTo(s0, Probe(0, true), [Tick] + ([Send(0, 7, [])] + []));
  }

  lemma MissingSend(s2: Sys)
    requires s2 == Parking(Boot([0, 1, 2], 1), ProbeQueue(0)).(current := 2)
    ensures Step(s2, Send(0, 7, [])).Ran?
    ensures var t := Step(s2, Send(0, 7, [])).s.At(0);
            t.waiting && t.call == Some(ProbeQueue(0)) && t.queue == [Item(1, 2, 7, [])]
  {
    var item := Item(1, 2, 7, []);
    assert Received(s2.At(0), item).queue == [item];
  }

  lemma MissingProbe(s0: Sys, s1: Sys)
    requires s0 == Boot([0, 1, 2], 1) && s1 == Parking(s0, ProbeQueue(0)).(current := 1)
    ensures Step(s0, Probe(0, true)) == Ran(s1)
  {
    var s := Parking(s0, ProbeQueue(0));
    assert After(s.ring, 0)[0] == 1;
    assert FirstRunnable(s, After(s.ring, 0)) == Some(1);
  }

  lemma MissingTick(s1: Sys, s2: Sys)
    requires s1 == Parking(Boot([0, 1, 2], 1), ProbeQueue(0)).(current := 1) && s2 == s1.(current := 2)
    ensures Step(s1, Tick) == Ran(s2)
  {
    assert TimerTicked(s1) == s1;
    assert After(s1.ring, 1)[0] == 2;
    assert FirstRunnable(s1, After(s1.ring, 1)) == Some(2);
  }

  // ----- what happens to a task between its turns -----

  /** Between its turns a task only gains: items, interrupt hits, and its release. */
  ghost predicate Accrues(t: Proc, t': Proc) {
    && t'.call == t.call && t'.eax == t.eax && t'.irqListen == t.irqListen
    && t.queue <= t'.queue && t.hits <= t'.hits
    && (t'.waiting ==> t.waiting)
  }

  /** The task as it is entered: its parked call has been performed, once. */
  function Resumed(t: Proc): Proc {
    if t.call.Some? then Performed(t, t.call.value).(call := None) else t
  }

  /** What its parked call is blocked on is there. */
  ghost predicate Served(t: Proc) {
    match t.call
    case Some(IrqWait) => t.hits > 0
    case Some(ProbeQueue(r)) => Lookup(t.queue, r).Some?
    case _ => true
  }

  /** What a step does to a task that is not the one that takes it. */
  ghost predicate Bystood(t: Proc, t': Proc, entered: bool) {
    exists m :: Accrues(t, m) && (entered ==> Served(m)) && t' == if entered then Resumed(m) else m
  }

  lemma SwitchFrame(s: Sys, p: Pid, q: Pid)
    requires Switch(s, p).Ran? && p in s.procs
    ensures var s' := Switch(s, p).s;
            && s'.current == p && s'.ring == s.ring && s'.gone == s.gone && s'.prio == s.prio
            && s'.procs.Keys == s.procs.Keys
            && (q != p ==> s'.At(q) == s.At(q))
            && s'.At(p) == Resumed(s.At(p)) && !s'.At(p).waiting && Served(s.At(p))
  {
  }

  lemma YieldBystander(s: Sys, p: Pid)
    requires Yield(s).Ran? && p in s.procs && Next(s).value in s.procs
    ensures Yield(s).s.At(p) == if Yield(s).s.current == p then Resumed(s.At(p)) else s.At(p)
    ensures Yield(s).s.current == p ==> Served(s.At(p))
  {
    SwitchFrame(Popped(s), Next(s).value, p);
  }

  lemma ParkBystander(s: Sys, c: Call, p: Pid)
    requires Inv(s) && s.current != s.idle && !c.Nanosleep?
    requires p in s.procs && p != s.current
    ensures CallOrPark(s, c).Ran?
    ensures Bystood(s.At(p), CallOrPark(s, c).s.At(p), CallOrPark(s, c).s.current == p)
  {
    CallOrParkOk(s, c);
    assert Accrues(s.At(p), s.At(p));
    if Blocks(s, s.current, c) {
      BlockedIsParked(s, c);
      var s' := Parking(s, c);
      NextOfPut(s, s'.Cur());
      YieldBystander(s', p);
    }
  }

  /** Whatever the current task turns into, the next task is a live one. */
  lemma NextOfPut(s: Sys, t: Proc)
    requires Inv(s) && s.current != s.idle
    ensures Next(s.Put(s.current, t)).Some? && Next(s.Put(s.current, t)).value in s.procs
  {
    var s' := s.Put(s.current, t);
    if s.prio != [] {
      assert s.prio[0] in s.prio;
    } else {
      SearchFinds(s', s.ring, s.current);
    }
  }

  lemma {:induction false} IrqBystander(s: Sys, n: nat, k: nat, p: Pid)
    requires k <= |s.ring|
    ensures Accrues(s.At(p), IrqScanned(s, n, k).At(p))
  {
    if k > 0 {
      IrqBystander(s, n, k - 1, p);
    }
  }

  lemma InterruptBystander(s: Sys, n: nat, p: Pid)
    requires Inv(s) && p in s.procs
    ensures Interrupted(s, n).Ran?
    ensures p != s.current ==>
              Bystood(s.At(p), Interrupted(s, n).s.At(p), Interrupted(s, n).s.current == p)
  {
    IrqOk(s, n);
    var s' := IrqScanned(s, n, |s.ring|);
    IrqBystander(s, n, |s.ring|, p);
    IrqScannedOk(s, n, |s.ring|);
    IrqScannedFrame(s, n, |s.ring|);
    if s'.prio != [] {
      assert s'.prio[0] in s'.prio;
      SwitchFrame(Popped(s'), s'.prio[0], p);
    }
  }

  lemma TickBystander(s: Sys, p: Pid)
    requires Inv(s) && p in s.procs
    ensures Ticked(s).Ran?
    ensures Bystood(s.At(p), Ticked(s).s.At(p), Ticked(s).s.current == p)
  {
    TickOk(s);
    TimerTickedOk(s);
    NextOk(TimerTicked(s));
    assert Accrues(s.At(p), TimerTicked(s).At(p));
    SwitchFrame(Popped(TimerTicked(s)), Next(TimerTicked(s)).value, p);
  }

  /** Ending is a switch out of a state in which only the ended task is missing. */
  lemma EndingFrame(s: Sys, p: Pid)
    requires Inv(s) && s.current != s.idle && p in s.procs && p != s.current
    ensures Exited(s).Ran? && Killed(s) == Exited(s)
    ensures var s' := Exited(s).s;
            var t := Released(s.procs, s.current)[p];
            && s.current !in s'.ring && s.current in s'.gone && p in s'.ring
            && s'.At(p) == (if s'.current == p then Resumed(t) else t) && (s'.current == p ==> Served(t))
            && s'.At(p).waiting == t.waiting
  {
    ExitOk(s);
    NextWhenEnding(s);
    WithoutFacts(s.ring, s.current);
    var s' := WaitersReleased(s);
    SwitchFrame(Unlinked(Popped(s')), Next(s').value, p);
  }

  lemma EndingRuns(s: Sys, e: Event)
    requires e.Exit? || e.Fault?
    ensures Step(s, e) == if e.Exit? then Exited(s) else Killed(s)
  {
  }

  /** Ending releases exactly the tasks that wait for the ended one, by either path. */
  lemma EndingReleases(s: Sys, e: Event, p: Pid)
    requires Inv(s) && s.current != s.idle && (e == Exit || e == Fault)
    requires p in s.ring && p != s.current
    ensures Step(s, e) == Exited(s) && Exited(s).Ran?
    ensures var s' := Exited(s).s;
            && s.current !in s'.ring && s.current in s'.gone && p in s'.ring
            && (s'.At(p).waiting <==>
                s.At(p).waiting && s.At(p).call != Some(WaitProcess(s.current)))
  {
    hide Inv, Step, Exited, Killed;
    InvRing(s);
    EndingRuns(s, e);
    EndingFrame(s, p);
  }

  lemma EndingBystander(s: Sys, p: Pid)
    requires Inv(s) && s.current != s.idle && p in s.procs && p != s.current
    ensures Killed(s) == Exited(s) && Exited(s).Ran?
    ensures Bystood(s.At(p), Exited(s).s.At(p), Exited(s).s.current == p)
  {
    EndingFrame(s, p);
    assert Accrues(s.At(p), Released(s.procs, s.current)[p]);
  }

  lemma BystanderOk(s: Sys, e: Event, p: Pid)
    requires Inv(s) && Allowed(s, e) && Step(s, e).Ran?
    requires p in s.procs && p != s.current
    ensures Bystood(s.At(p), Step(s, e).s.At(p), Step(s, e).s.current == p)
  {
    hide Inv, Ticked, Interrupted, Yield, CallOrPark, Slept, Exited, Killed, Bystood, Blocks, Lookup, WithoutId;
    NothingHappens(s.At(p));
    InvRing(s);
    match e
    case Tick => TickBystander(s, p);
    case Irq(n) => InterruptBystander(s, n, p);
    case Defer =>
      NextOfPut(s, s.Cur().(eax := 0));
      DeferBystander(s, p);
    case WaitForIrq => ParkBystander(s, IrqWait, p);
    case Probe(r, block) => if block { ParkBystander(s, ProbeQueue(r), p); }
    case Send(to, r, data) => SendBystander(s, to, r, data, p);
    case WaitFor(q) => ParkBystander(s, WaitProcess(q), p);
    case Sleep(us) => SleepBystander(s, us, p);
    case Exit => EndingBystander(s, p);
    case Fault => EndingBystander(s, p);
    case _ =>
  }

  lemma NothingHappens(t: Proc)
    ensures Bystood(t, t, false)
  {
    assert Accrues(t, t);
  }

  lemma DeferBystander(s: Sys, p: Pid)
    requires Yield(s.Put(s.current, s.Cur().(eax := 0))).Ran? && p in s.procs && p != s.current
    requires Next(s.Put(s.current, s.Cur().(eax := 0))).Some?
    requires Next(s.Put(s.current, s.Cur().(eax := 0))).value in s.procs
    ensures var o := Yield(s.Put(s.current, s.Cur().(eax := 0)));
            Bystood(s.At(p), o.s.At(p), o.s.current == p)
  {
    hide Yield, Next;
    assert Accrues(s.At(p), s.At(p));
    YieldBystander(s.Put(s.current, s.Cur().(eax := 0)), p);
  }

  lemma SendBystander(s: Sys, to: Pid, r: nat, data: seq<byte>, p: Pid)
    requires Sent(s, to, r, data).Ran? && p in s.procs && p != s.current
    ensures Bystood(s.At(p), Sent(s, to, r, data).s.At(p), false) && Sent(s, to, r, data).s.current == s.current
  {
    assert Accrues(s.At(p), s.At(p));
    assert Accrues(s.At(p), Received(s.At(p), Item(s.lastMsg + 1, s.current, r, data)));
  }

  lemma SleepBystander(s: Sys, us: nat, p: Pid)
    requires Inv(s) && s.current != s.idle && p in s.procs && p != s.current
    ensures Slept(s, us).Ran?
    ensures Bystood(s.At(p), Slept(s, us).s.At(p), Slept(s, us).s.current == p)
  {
    SleepOk(s, us);
    assert Accrues(s.At(p), s.At(p));
    var s' := Sleeper(s, us);
    if s.prio != [] {
      assert s.prio[0] in s.prio;
    } else {
      SearchFinds(s', s.ring, s.current);
    }
    YieldBystander(s', p);
  }
}
