/** What each call gives its caller and does to other tasks, stated on the fields of the tasks alone. */
module Calls {
  import opened Base
  import Timers
  import opened Machine
  import opened Safety
  import opened Runs

  // ----- messages -----

  /**
   A message goes to the back of its receiver's queue under the next number, whether the receiver is blocked or not
   and whether or not it is the sender. The receiver is released exactly if it was blocked in a probe for that very
   reply, and nothing else of any task changes but the number that the sender is given.
   */
  lemma SendDelivers(s: Sys, to: Pid, r: nat, data: seq<byte>, p: Pid)
    requires to in s.ring
    ensures Step(s, Send(to, r, data)).Ran?
    ensures var t, id := Step(s, Send(to, r, data)).s, s.lastMsg + 1;
            && t == s.(procs := t.procs, lastMsg := id)
            && t.At(to).queue == s.At(to).queue + [Item(id, s.current, r, data)]
            && (t.At(to).waiting <==> s.At(to).waiting && s.At(to).call != Some(ProbeQueue(r)))
            && (p != to ==> t.At(p).queue == s.At(p).queue && t.At(p).waiting == s.At(p).waiting)
            && t.At(p).eax == (if p == s.current then id else s.At(p).eax)
            && t.At(p).call == s.At(p).call && t.At(p).hits == s.At(p).hits && t.At(p).irqListen == s.At(p).irqListen
  {
  }

  // ----- calls that can block -----

  /** 0 takes any item. */
  predicate AnswersTo(item: Item, r: nat) {
    r == 0 || item.replyTo == r
  }

  /** Item i of the queue is the oldest one that answers r. */
  predicate Answers(queue: seq<Item>, r: nat, i: nat) {
    i < |queue| && AnswersTo(queue[i], r) && forall j :: 0 <= j < i ==> !AnswersTo(queue[j], r)
  }

  lemma {:induction false} LookupIs(queue: seq<Item>, r: nat, i: nat)
    requires Answers(queue, r, i)
    ensures Lookup(queue, r) == Some(queue[i])
  {
    if i > 0 {
      assert !AnswersTo(queue[0], r);
      LookupIs(queue[1..], r, i - 1);
    }
  }

  /** A probe, blocking or not, gives the number of the oldest item that answers, and leaves it in the queue. */
  lemma ProbeGives(s: Sys, r: nat, block: bool, i: nat)
    requires Answers(s.Cur().queue, r, i)
    ensures Step(s, Probe(r, block)) == Ran(s.Put(s.current, s.Cur().(eax := s.Cur().queue[i].id)))
  {
    LookupIs(s.Cur().queue, r, i);
  }

  /** If none answers, one gives 0, and the other parks its caller. */
  lemma ProbeFindsNone(s: Sys, r: nat)
    requires forall i :: 0 <= i < |s.Cur().queue| ==> !AnswersTo(s.Cur().queue[i], r)
    ensures Step(s, Probe(r, false)) == Ran(s.Put(s.current, s.Cur().(eax := 0)))
    ensures Step(s, Probe(r, true)) == Yield(Waits(s, ProbeQueue(r)))
  {
    LookupNone(s.Cur().queue, r);
    hide Yield;
  }

  /** The caller blocked in the call. */
  function Waits(s: Sys, c: Call): Sys {
    s.Put(s.current, s.Cur().(waiting := true, call := Some(c), eax := 0))
  }

  /** Waiting for an interrupt takes one hit if there is one, and parks the caller otherwise. */
  lemma IrqWaitGives(s: Sys)
    ensures Step(s, WaitForIrq) ==
            if s.Cur().hits > 0 then Ran(s.Put(s.current, s.Cur().(hits := s.Cur().hits - 1, eax := 1)))
            else Yield(Waits(s, IrqWait))
  {
    hide Yield;
  }

  /** Waiting for a task that is gone gives 0, and for a live one parks the caller. */
  lemma WaitForGives(s: Sys, p: Pid)
    ensures Step(s, WaitFor(p)) ==
            if p in s.ring then Yield(Waits(s, WaitProcess(p))) else Ran(s.Put(s.current, s.Cur().(eax := 0)))
  {
    hide Yield;
  }

  /** A sleep queues its event for the caller, and parks it under the number of that event. */
  lemma SleepGives(s: Sys, us: nat)
    ensures var e := Timers.WakeEvent(s.current, s.timer.lastUid + 1, us - Timers.Covered(s.timer.events, us));
            Step(s, Sleep(us)) ==
            Yield(Waits(s.(timer := Timers.Queue(s.timer.events + [e], s.timer.lastUid + 1)), Nanosleep(e.uid)))
  {
    hide Yield;
  }

  // ----- calls that never block -----

  /** Deferring leaves the caller able to run. */
  lemma DeferGives(s: Sys)
    ensures Step(s, Defer) == Yield(s.Put(s.current, s.Cur().(eax := 0)))
  {
    hide Yield;
  }

  /** Listening drops the hits of what was listened to before. */
  lemma ListenGives(s: Sys, n: nat)
    ensures Step(s, ListenToIrq(n)) == Ran(s.Put(s.current, s.Cur().(irqListen := n, hits := 0, eax := 0)))
  {
  }

  /** Checking takes one hit if there is one, and says so. */
  lemma CheckGives(s: Sys)
    ensures Step(s, CheckIrq) ==
            Ran(s.Put(s.current, if s.Cur().hits > 0 then s.Cur().(hits := s.Cur().hits - 1, eax := 1)
                                 else s.Cur().(eax := 0)))
  {
  }

  lemma {:induction false} WithoutIdIs(queue: seq<Item>, id: nat, i: nat)
    requires i <= |queue| && (i < |queue| ==> queue[i].id == id) && forall j :: 0 <= j < i ==> queue[j].id != id
    ensures WithoutId(queue, id) == queue[..i] + if i < |queue| then queue[i + 1..] else []
  {
    if i > 0 {
      WithoutIdIs(queue[1..], id, i - 1);
      assert queue[1..][..i - 1] == queue[1..i];
      assert queue[..i] == [queue[0]] + queue[1..i];
      if i < |queue| {
        assert queue[1..][i..] == queue[i + 1..];
      }
    }
  }

  /** Shifting takes the oldest item of that number, at place i, out of the caller's queue; i is its end if none is. */
  lemma ShiftTakes(s: Sys, id: nat, i: nat)
    requires i <= |s.Cur().queue| && (i < |s.Cur().queue| ==> s.Cur().queue[i].id == id)
    requires forall j :: 0 <= j < i ==> s.Cur().queue[j].id != id
    ensures var queue := s.Cur().queue;
            var rest := if i < |queue| then queue[i + 1..] else [];
            Step(s, Shift(id)) == Ran(s.Put(s.current, s.Cur().(queue := queue[..i] + rest, eax := 0)))
  {
    WithoutIdIs(s.Cur().queue, id, i);
  }

  /** A task that is begun goes to the front of the ring with nothing pending, and only its parent is told. */
  lemma BeginGives(s: Sys, p: Pid)
    requires p != s.current
    ensures Step(s, Begin(p)).Ran?
    ensures var t := Step(s, Begin(p)).s;
            && t == s.(ring := [p] + s.ring, procs := t.procs)
            && t.At(p) == Proc(false, None, 0, 0, [], 0)
            && t.Cur() == s.Cur().(eax := 1)
            && forall q :: q != p && q != s.current ==> t.At(q) == s.At(q)
  {
  }

  /** At boot nothing is pending: the first task runs, the second is the idle one, and no number has been given. */
  lemma BootGives(tasks: seq<Pid>, usPerTick: nat, p: Pid)
    requires |tasks| >= 2
    ensures var s := Boot(tasks, usPerTick);
            && s == Sys(tasks, [], tasks[0], s.procs, Timers.Queue([], 0), usPerTick, 0, tasks[1], {})
            && (p in s.procs <==> p in tasks) && s.At(p) == Proc(false, None, 0, 0, [], 0)
  {
  }

  // ----- interrupts -----

  /** The walk of an interrupt up to place k counts a hit for each listener in front of it, whatever it is doing. */
  lemma {:induction false} ScanHits(s: Sys, n: nat, k: nat, p: Pid)
    requires Distinct(s.ring) && k <= |s.ring|
    ensures IrqScanned(s, n, k).At(p) ==
            if p in s.ring[..k] && s.At(p).irqListen == n
            then s.At(p).(hits := s.At(p).hits + 1, waiting := s.At(p).waiting && s.At(p).call != Some(IrqWait))
            else s.At(p)
  {
    if k > 0 {
      ScanHits(s, n, k - 1, p);
      assert s.ring[..k] == s.ring[..k - 1] + [s.ring[k - 1]];
      assert s.ring[k - 1] !in s.ring[..k - 1];
    }
  }

  /** An interrupt is counted once for each listener, and releases exactly those that wait for one; the task that it
      enters besides has its parked call performed. */
  lemma IrqHits(s: Sys, n: nat, p: Pid)
    requires Inv(s) && p in s.ring
    ensures Step(s, Irq(n)).Ran?
    ensures var t := Step(s, Irq(n)).s;
            var hit := if s.At(p).irqListen != n then s.At(p)
                       else s.At(p).(hits := s.At(p).hits + 1,
                                     waiting := s.At(p).waiting && s.At(p).call != Some(IrqWait));
            && t == s.(procs := t.procs, prio := t.prio, current := t.current)
            && (t.current != p ==> t.At(p) == hit)
            && (t.current == p && p != s.current ==> t.At(p) == Resumed(hit))
  {
    hide Inv, IrqScanned, Resumed, Core, Interrupted, Step;
    IrqOk(s, n);
    InvRing(s);
    InvCore(s);
    ScanHits(s, n, |s.ring|, p);
    assert s.ring[..|s.ring|] == s.ring;
    IrqScannedFrame(s, n, |s.ring|);
    IrqScannedOk(s, n, |s.ring|);
    IrqEnters(s, n, p);
  }

  lemma InvCore(s: Sys)
    requires Inv(s)
    ensures Core(s)
  {
  }

  lemma IrqEnters(s: Sys, n: nat, p: Pid)
    requires Interrupted(s, n).Ran? && Core(IrqScanned(s, n, |s.ring|)) && IrqFrame(s, IrqScanned(s, n, |s.ring|))
    ensures Step(s, Irq(n)) == Interrupted(s, n)
    ensures var u, t := IrqScanned(s, n, |s.ring|), Interrupted(s, n).s;
            && t == s.(procs := t.procs, prio := t.prio, current := t.current)
            && (t.current != p ==> t.At(p) == u.At(p))
            && (t.current == p && p != s.current ==> t.At(p) == Resumed(u.At(p)))
  {
    hide IrqScanned, Resumed, Core, Switch, Served;
    var u := IrqScanned(s, n, |s.ring|);
    if u.prio != [] {
      HeadLives(u);
      SwitchFrame(Popped(u), u.prio[0], p);
      SwitchSame(Popped(u), u.prio[0]);
    }
  }

  lemma SwitchSame(s: Sys, p: Pid)
    requires Switch(s, p).Ran?
    ensures Switch(s, p).s == s.(procs := Switch(s, p).s.procs, current := p)
  {
  }

  lemma HeadLives(u: Sys)
    requires Core(u) && u.prio != []
    ensures u.prio[0] in Popped(u).procs
  {
    assert u.prio[0] in u.prio;
  }

  // ----- parked calls -----

  /** A parked call gives, when its task is entered, what it would have given at once. */
  lemma ResumedGives(t: Proc, i: nat)
    ensures t.call == None ==> Resumed(t) == t
    ensures t.call == Some(IrqWait) && t.hits > 0 ==> Resumed(t) == t.(hits := t.hits - 1, eax := 1, call := None)
    ensures t.call.Some? && t.call.value.ProbeQueue? && Answers(t.queue, t.call.value.replyTo, i) ==>
              Resumed(t) == t.(eax := t.queue[i].id, call := None)
    ensures t.call.Some? && (t.call.value.WaitProcess? || t.call.value.Nanosleep?) ==>
              Resumed(t) == t.(eax := 0, call := None)
  {
    if t.call.Some? && t.call.value.ProbeQueue? && Answers(t.queue, t.call.value.replyTo, i) {
      LookupIs(t.queue, t.call.value.replyTo, i);
    }
  }

  /** The first place of the queue that answers. */
  lemma SomeAnswers(queue: seq<Item>, r: nat) returns (i: nat)
    requires Lookup(queue, r).Some?
    ensures Answers(queue, r, i)
  {
    if r == 0 || queue[0].replyTo == r {
      return 0;
    }
    i := SomeAnswers(queue[1..], r);
    i := i + 1;
  }

  /**
   Whatever step enters a task, the task is m, which has gained since, and its parked call has given: one of its hits
   and 1, the number of the oldest item that answers, or 0.
   */
  lemma EnteredAnswers(s: Sys, e: Event, p: Pid) returns (m: Proc, i: nat)
    requires Inv(s) && Allowed(s, e) && Step(s, e).Ran?
    requires p in s.ring && p != s.current && Step(s, e).s.current == p
    ensures Accrues(s.At(p), m)
    ensures var t := Step(s, e).s.At(p);
            match s.At(p).call
            case None => t == m
            case Some(IrqWait) => m.hits > 0 && t == m.(hits := m.hits - 1, eax := 1, call := None)
            case Some(ProbeQueue(r)) => Answers(m.queue, r, i) && t == m.(eax := m.queue[i].id, call := None)
            case Some(WaitProcess(_)) => t == m.(eax := 0, call := None)
            case Some(Nanosleep(_)) => t == m.(eax := 0, call := None)
  {
    InvRing(s);
    hide Inv, Allowed, Step, Lookup, Answers, Resumed;
    BystanderOk(s, e, p);
    m :| Accrues(s.At(p), m) && Served(m) && Step(s, e).s.At(p) == Resumed(m);
    i := 0;
    if m.call.Some? && m.call.value.ProbeQueue? {
      i := SomeAnswers(m.queue, m.call.value.replyTo);
    }
    ResumedGives(m, i);
  }

  // ----- the others -----

  /** A task as a step that may enter it leaves it. */
  function Entered(t: Proc, entered: bool): Proc {
    if entered then Resumed(t) else t
  }

  /** Leaving a call changes the task that is entered and no other; the list loses its head and nothing else. */
  lemma YieldGives(s: Sys, p: Pid)
    requires Yield(s).Ran? && Next(s).Some? && Next(s).value in s.procs
    ensures var t := Yield(s).s;
            && t == s.(procs := t.procs, prio := t.prio, current := t.current) && t.current != s.current
            && t.prio == (if s.prio == [] then [] else s.prio[1..])
            && (s.prio != [] ==> t.current == s.prio[0])
            && t.At(p) == Entered(s.At(p), p == t.current)
  {
    hide Resumed, Served, Switch, FirstRunnable, After;
    SwitchFrame(Popped(s), Next(s).value, p);
    SwitchSame(Popped(s), Next(s).value);
  }

  /** A tick changes the task whose event is due, which it releases, and the task that it enters. */
  lemma TickGives(s: Sys, p: Pid)
    requires Inv(s) && p in s.ring
    ensures Step(s, Tick).Ran?
    ensures var t, ev := Step(s, Tick).s, s.timer.events;
            var due := ev != [] && ev[0].usLeft <= s.usPerTick && ev[0].toWake == p;
            && t == s.(procs := t.procs, prio := t.prio, current := t.current, timer := t.timer)
            && t.At(p) == Entered(if due then s.At(p).(waiting := false) else s.At(p), p == t.current)
  {
    TickRuns(s);
    TimerTickedOk(s);
    NextOk(TimerTicked(s));
    TickOk(s);
    TickReleases(s, p);
    var u := TimerTicked(s);
    assert Ticked(s) == Switch(Popped(u), Next(u).value);
    assert Popped(u).procs == u.procs;
    hide Inv, Ticked, TimerTicked, Step, Next, Resumed, Switch, Served;
    EntersAfterTick(s, u, Next(u).value, p);
  }

  lemma TickRuns(s: Sys)
    ensures Step(s, Tick) == Ticked(s)
  {
  }

  lemma TickReleases(s: Sys, p: Pid)
    ensures var u, ev := TimerTicked(s), s.timer.events;
            && u == s.(procs := u.procs, timer := u.timer)
            && u.At(p) == if ev != [] && ev[0].usLeft <= s.usPerTick && ev[0].toWake == p
                          then s.At(p).(waiting := false) else s.At(p)
  {
  }

  lemma EntersAfterTick(s: Sys, u: Sys, q: Pid, p: Pid)
    requires Switch(Popped(u), q).Ran? && q in u.procs
    requires u == s.(procs := u.procs, timer := u.timer) && Popped(u).procs == u.procs
    ensures var t := Switch(Popped(u), q).s;
            && t == s.(procs := t.procs, prio := t.prio, current := t.current, timer := t.timer)
            && t.At(p) == Entered(u.At(p), p == t.current)
  {
    hide Switch, Resumed, Served;
    SwitchFrame(Popped(u), q, p);
    SwitchSame(Popped(u), q);
  }

  /**
   Ending takes the caller out of the ring, whose other members keep their places, releases those that wait for it,
   and changes no other task but the one that it enters.
   */
  lemma EndGives(s: Sys, e: Event, p: Pid, a: seq<Pid>, b: seq<Pid>)
    requires Inv(s) && s.current != s.idle && (e == Exit || e == Fault)
    requires p in s.ring && p != s.current && s.ring == a + [s.current] + b
    ensures Step(s, e).Ran?
    ensures var t, waits := Step(s, e).s, s.At(p).call == Some(WaitProcess(s.current));
            && t == s.(procs := t.procs, prio := t.prio, current := t.current, ring := a + b,
                       gone := s.gone + {s.current})
            && t.At(p) == Entered(if waits then s.At(p).(waiting := false) else s.At(p), p == t.current)
  {
    hide Inv, Step, Resumed, Served, Without, Next, Killed, Exited, Released;
    InvRing(s);
    WithoutMiddle(s.ring, s.current, a, b);
    EndingRuns(s, e);
    EndingFrame(s, p);
    EndSame(s);
    ReleasedAt(s, p);
  }

  lemma WithoutMiddle(ring: seq<Pid>, c: Pid, a: seq<Pid>, b: seq<Pid>)
    requires Distinct(ring) && ring == a + [c] + b
    ensures Without(ring, c) == a + b
  {
    assert ring[|a|] == c;
    PositionIs(ring, |a|);
    hide Distinct, Position;
  }

  lemma ReleasedAt(s: Sys, p: Pid)
    requires p in s.procs && p != s.current
    ensures Released(s.procs, s.current)[p] ==
            if s.At(p).call == Some(WaitProcess(s.current)) then s.At(p).(waiting := false) else s.At(p)
  {
  }

  lemma EndSame(s: Sys)
    requires Exited(s).Ran?
    ensures var t := Exited(s).s;
            t == s.(procs := t.procs, prio := t.prio, current := t.current, ring := Without(s.ring, s.current),
                    gone := s.gone + {s.current})
  {
    hide Switch, Without, Next;
    var w := WaitersReleased(s);
    SwitchSame(Unlinked(Popped(w)), Next(w).value);
  }
}
