/**
 The kernel as it runs: task objects linked by `next` and `priorityNext`, updated in place.
 Every entry is proved to do exactly the step of the machine that it stands for.
 */
module Kernel {
  import opened Base
  import Timers
  import opened Machine
  import opened Safety

  class Task {
    const id: Pid
    var next: Task?
    var priorityNext: Task?
    var irqListen: nat
    var irqListenHits: nat
    var userWaiting: bool
    var userCall: Option<Call>
    var replyQueue: seq<Item>
    var eax: nat

    constructor (id: Pid)
      ensures this.id == id && View() == FRESH && next == null && priorityNext == null
    {
      this.id := id;
      next, priorityNext := null, null;
      irqListen, irqListenHits := 0, 0;
      userWaiting, userCall := false, None;
      replyQueue, eax := [], 0;
    }

    ghost function View(): Proc
      reads `irqListen, `irqListenHits, `userWaiting, `userCall, `replyQueue, `eax
    {
      Proc(userWaiting, userCall, irqListen, irqListenHits, replyQueue, eax)
    }
  }

  // ----- how objects represent a state -----

  /** The `next` links from start spell out the ring. */
  ghost predicate RingLinked(start: Task?, ring: seq<Task>)
    reads ring`next
  {
    && start == (if ring == [] then null else ring[0])
    && forall i {:trigger ring[i].next} :: 0 <= i < |ring| ==>
         ring[i].next == if i + 1 < |ring| then ring[i + 1] else null
  }

  /** The `priorityNext` links from first spell out the priority list. */
  ghost predicate PrioLinked(first: Task?, prio: seq<Task>)
    reads prio`priorityNext
  {
    && first == (if prio == [] then null else prio[0])
    && forall i {:trigger prio[i].priorityNext} :: 0 <= i < |prio| ==>
         prio[i].priorityNext == if i + 1 < |prio| then prio[i + 1] else null
  }

  ghost predicate Named(ids: seq<Pid>, tasks: seq<Task>) {
    && |ids| == |tasks| && Distinct(ids)
    && forall i :: 0 <= i < |tasks| ==> ids[i] == tasks[i].id
  }

  ghost predicate Among(prio: seq<Task>, ring: seq<Task>) {
    forall t :: t in prio ==> t in ring
  }

  /** The fields of every task of the ring, except perhaps one. */
  ghost predicate Shown(procs: map<Pid, Proc>, ring: seq<Task>, but: Task?)
    reads ring`irqListen, ring`irqListenHits, ring`userWaiting, ring`userCall, ring`replyQueue, ring`eax
  {
    forall t :: t in ring ==> t.id in procs && (t != but ==> procs[t.id] == t.View())
  }

  ghost predicate Clocked(q: Timers.Queue<Pid>, usPerTick: nat, timer: Timers.Timer<Task>, ring: seq<Task>)
    reads timer
  {
    && timer.Valid()
    && q.lastUid == timer.lastWakeId
    && usPerTick == timer.usPerTick
    && |q.events| == |timer.wakeevents|
    && forall i :: 0 <= i < |q.events| ==>
         var w := timer.wakeevents[i];
         w.toWake in ring && q.events[i] == Timers.WakeEvent(w.toWake.id, w.uid, w.usLeft)
  }

  ghost predicate AllFresh(tasks: seq<Task>)
    reads tasks
  {
    forall i :: 0 <= i < |tasks| ==> tasks[i].View() == FRESH
  }

  ghost function Ids(tasks: seq<Task>): (ids: seq<Pid>)
    ensures |ids| == |tasks| && forall i :: 0 <= i < |tasks| ==> ids[i] == tasks[i].id
  {
    seq(|tasks|, i requires 0 <= i < |tasks| => tasks[i].id)
  }

  lemma NamedAt(ids: seq<Pid>, tasks: seq<Task>, t: Task)
    requires Named(ids, tasks) && t in tasks
    ensures t.id in ids && Position(ids, t.id) == Position(tasks, t)
    ensures forall u :: u in tasks && u.id == t.id ==> u == t
  {
    var i := Position(tasks, t);
    assert ids[i] == t.id;
    forall u | u in tasks && u.id == t.id ensures u == t {
      assert ids[Position(tasks, u)] == t.id;
    }
  }

  class Tasks {
    var start: Task?
    var current: Task
    var priorityStart: Task?
    var lastMsgId: nat
    const timer: Timers.Timer<Task>
    ghost var ring: seq<Task>
    ghost var prio: seq<Task>
    /** The state of the machine that these objects represent. */
    ghost var s: Sys

    /** The objects represent s, up to the fields of one task. */
    ghost predicate ShapeBut(but: Task?)
      reads this, ring, prio, timer
    {
      && RingLinked(start, ring)
      && PrioLinked(priorityStart, prio)
      && Named(s.ring, ring)
      && Named(s.prio, prio)
      && Among(prio, ring)
      && Shown(s.procs, ring, but)
      && Clocked(s.timer, s.usPerTick, timer, ring)
      && current.id == s.current
      && lastMsgId == s.lastMsg
    }

    ghost predicate Shape()
      reads this, ring, prio, timer
    {
      ShapeBut(null)
    }

    ghost predicate Valid()
      reads this, ring, prio, timer
    {
      Shape() && current in ring && Inv(s)
    }

    // ----- boot -----

    /** The tasks are linked in the order given; the first one runs. */
    constructor (tasks: seq<Task>, timer: Timers.Timer<Task>)
      requires |tasks| >= 2 && Distinct(Ids(tasks))
      requires AllFresh(tasks)
      requires timer.Valid() && timer.Abs() == Timers.Queue([], 0)
      modifies tasks`next
      ensures Valid() && ring == tasks && this.timer == timer
      ensures s == Boot(Ids(tasks), timer.usPerTick)
    {
      hide Inv, RingLinked, Shown, Named, Clocked, Boot, Ids, Distinct, AllFresh, Timers.Total, Timers.DistinctUids,
        PrioLinked, Among;
      NoPriority(tasks);
      BootInv(Ids(tasks), timer.usPerTick);
      BootShown(tasks, timer, Boot(Ids(tasks), timer.usPerTick));
      LinkUp(tasks);
      start, current, priorityStart, lastMsgId := tasks[0], tasks[0], null, 0;
      this.timer := timer;
      ring, prio := tasks, [];
      s := Boot(Ids(tasks), timer.usPerTick);
    }

    static lemma NoPriority(ring: seq<Task>)
      ensures PrioLinked(null, []) && Among([], ring)
    {
    }

    static lemma BootShown(tasks: seq<Task>, timer: Timers.Timer<Task>, s: Sys)
      requires |tasks| >= 2 && Distinct(Ids(tasks)) && timer.Valid() && timer.Abs() == Timers.Queue([], 0)
      requires AllFresh(tasks) && s == Boot(Ids(tasks), timer.usPerTick)
      ensures Shown(s.procs, tasks, null) && Named(s.ring, tasks) && Named(s.prio, [])
      ensures Clocked(s.timer, s.usPerTick, timer, tasks) && Distinct(tasks)
      ensures s.current == tasks[0].id && s.lastMsg == 0
    {
      forall t | t in tasks ensures t.id in Ids(tasks) && t.View() == FRESH {
        assert Ids(tasks)[Position(tasks, t)] == t.id;
      }
      forall i, j | 0 <= i < j < |tasks| ensures tasks[i] != tasks[j] {
        assert Ids(tasks)[i] != Ids(tasks)[j];
      }
    }

    static lemma BootInv(ids: seq<Pid>, usPerTick: nat)
      requires |ids| >= 2 && Distinct(ids)
      ensures Inv(Boot(ids, usPerTick))
    {
      assert forall i :: 0 <= i < |ids| ==> ids[i] in ids;
    }

    /** Sets the links of the ring, last task first. */
    static method LinkUp(tasks: seq<Task>)
      requires Distinct(tasks)
      modifies tasks`next
      ensures RingLinked(if tasks == [] then null else tasks[0], tasks)
    {
      var i := |tasks|;
      while i > 0
        invariant 0 <= i <= |tasks|
        invariant forall k {:trigger tasks[k].next} :: i <= k < |tasks| ==>
                    tasks[k].next == if k + 1 < |tasks| then tasks[k + 1] else null
      {
        i := i - 1;
        tasks[i].next := if i + 1 < |tasks| then tasks[i + 1] else null;
      }
    }

    // ----- choosing the next task -----

    /** The successor in the ring, wrapping around to the start. */
    function NextTask(t: Task): (n: Task)
      requires RingLinked(start, ring) && t in ring
      reads this, ring
      ensures n == Succ(ring, t)
    {
      assert ring[Position(ring, t)].next == t.next;
      if t.next != null then t.next else start
    }

    method PrepareFetchNextTask() returns (t: Task)
      requires Shape() && current in ring && Next(s).Some?
      modifies this`priorityStart, this`prio, this`s, ring`priorityNext
      ensures Shape() && s == Popped(old(s))
      ensures t in ring && Next(old(s)) == Some(t.id)
    {
      if priorityStart != null {
        t := PopPriority();
      } else {
        assert s.prio == [];
        t := SearchRing();
      }
    }

    method PopPriority() returns (t: Task)
      requires Shape() && priorityStart != null
      modifies this`priorityStart, this`prio, this`s, ring`priorityNext
      ensures Shape() && s == Popped(old(s))
      ensures t in ring && old(s).prio != [] && old(s).prio[0] == t.id
    {
      hide RingLinked, Shown, Clocked, FirstRunnable, After;
      t := priorityStart;
      assert t in prio;
      priorityStart := t.priorityNext;
      t.priorityNext := null;
      s := Popped(s);
      prio := prio[1..];
    }

    method SearchRing() returns (t: Task)
      requires Shape() && current in ring && s.prio == [] && Next(s).Some?
      ensures t in ring && Next(s) == Some(t.id)
    {
      hide FirstRunnable, After, Next, Shown, Clocked, Named;
      t := NextTask(current);
      ghost var i := 0;
      SearchStart();
      if t.userWaiting {
        ghost var first := t;
        while t.userWaiting
          invariant i < |ring| && t == Nth(ring, current, i)
          invariant FirstRunnable(s, After(s.ring, s.current)[i..]) == Next(s)
          decreases |ring| - i
        {
          var next := NextTask(t);
          SearchStep(i);
          assert next != first;
          t := next;
          i := i + 1;
        }
      }
      SearchEnd(i);
    }

    lemma SearchStart()
      requires Shape() && current in ring && s.prio == []
      ensures |After(s.ring, s.current)| == |ring|
      ensures FirstRunnable(s, After(s.ring, s.current)[0..]) == Next(s)
      ensures Nth(ring, current, 0) == Succ(ring, current)
    {
      NthId(s.ring, ring, current, 0);
      assert After(s.ring, s.current)[0..] == After(s.ring, s.current);
    }

    lemma SearchStep(i: nat)
      requires Shape() && current in ring && i < |ring| && |After(s.ring, s.current)| == |ring|
      requires Nth(ring, current, i).userWaiting
      requires FirstRunnable(s, After(s.ring, s.current)[i..]) == Next(s) && Next(s).Some?
      ensures i + 1 < |ring|
      ensures FirstRunnable(s, After(s.ring, s.current)[i + 1..]) == Next(s)
      ensures Nth(ring, current, i + 1) == Succ(ring, Nth(ring, current, i))
      ensures Nth(ring, current, i + 1) != Nth(ring, current, 0)
    {
      hide FirstRunnable, Next, After, Clocked, RingLinked, PrioLinked;
      NthId(s.ring, ring, current, i);
      SkipStep(s, After(s.ring, s.current), i);
      NthSucc(s.ring, ring, current, i);
    }

    lemma SearchEnd(i: nat)
      requires Shape() && current in ring && i < |ring| && |After(s.ring, s.current)| == |ring|
      requires FirstRunnable(s, After(s.ring, s.current)[i..]) == Next(s) && Next(s).Some?
      requires !Nth(ring, current, i).userWaiting
      ensures Next(s) == Some(Nth(ring, current, i).id)
    {
      hide FirstRunnable, Next, After, Clocked, RingLinked, PrioLinked;
      NthId(s.ring, ring, current, i);
      SkipStep(s, After(s.ring, s.current), i);
    }

    // ----- changing one task -----

    /** Brings the machine up to date with the fields of t. */
    ghost method Sync(t: Task)
      requires ShapeBut(t) && t in ring
      modifies this`s
      ensures Shape() && s == old(s).Put(t.id, t.View())
    {
      hide RingLinked, PrioLinked, Clocked, Among;
      NamedAt(s.ring, ring, t);
      s := s.Put(t.id, t.View());
    }

    lemma ShownAt(t: Task)
      requires Shape() && t in ring
      ensures t.id in s.procs && s.At(t.id) == t.View() && t.id in s.ring
    {
      NamedAt(s.ring, ring, t);
    }

    lemma Weaken(t: Task)
      requires Shape()
      ensures ShapeBut(t)
    {
    }

    // ----- blocking calls -----

    /** The queue search of first() and itemByReplyTo(). */
    static method FindItem(queue: seq<Item>, replyTo: nat) returns (item: Option<Item>)
      ensures item == Lookup(queue, replyTo)
    {
      if replyTo == 0 {
        return if |queue| > 0 then Some(queue[0]) else None;
      }
      var i := 0;
      while i < |queue|
        invariant 0 <= i <= |queue| && Lookup(queue[i..], replyTo) == Lookup(queue, replyTo)
      {
        if queue[i].replyTo == replyTo {
          return Some(queue[i]);
        }
        assert queue[i..][1..] == queue[i + 1..];
        i := i + 1;
      }
      return None;
    }

    method GetTaskById(id: Pid) returns (t: Task?)
      requires Shape()
      ensures t == null <==> id !in s.ring
      ensures t != null ==> t in ring && t.id == id
    {
      t := start;
      ghost var k := 0;
      while t != null
        invariant 0 <= k <= |ring| && t == (if k < |ring| then ring[k] else null)
        invariant forall i :: 0 <= i < k ==> s.ring[i] != id
        decreases |ring| - k
      {
        if t.id == id {
          assert s.ring[k] == id;
          return;
        }
        t := t.next;
        k := k + 1;
      }
    }

    /** One evaluation of a blocking call by the current task. */
    method Evaluate(c: Call) returns (blocks: bool, r: nat)
      requires Shape() && current in ring
      modifies current`irqListenHits
      ensures ShapeBut(current)
      ensures blocks == Blocks(s, s.current, c)
      ensures !blocks ==> current.View().(eax := r) == Performed(old(current.View()), c)
      ensures blocks ==> current.View() == old(current.View())
    {
      hide RingLinked, PrioLinked, Clocked, Named;
      ShownAt(current);
      match c {
        case IrqWait =>
          blocks, r := current.irqListenHits == 0, 1;
          if !blocks {
            current.irqListenHits := current.irqListenHits - 1;
          }
        case ProbeQueue(replyTo) =>
          var item := FindItem(current.replyQueue, replyTo);
          blocks := item.None?;
          r := if item.Some? then item.value.id else 0;
        case WaitProcess(pid) =>
          var task := GetTaskById(pid);
          blocks, r := task != null, 0;
        case Nanosleep(wakeId) =>
          blocks, r := wakeId == 0, 0;
      }
    }

    /** Runs the parked call of the current task again and clears it. */
    method FinishCall()
      requires Shape() && current in ring && current.userCall.Some?
      requires !Blocks(s, s.current, current.userCall.value)
      modifies this`s, current`irqListenHits, current`eax, current`userCall
      ensures Shape()
      ensures s == var t := old(current.View());
                   old(s).Put(current.id, Performed(t, t.call.value).(call := None))
    {
      hide RingLinked, PrioLinked, Clocked, Named, Among, Blocks, Performed;
      var blocks, r := Evaluate(current.userCall.value);
      assert !blocks;
      current.eax := r;
      current.userCall := None;
      Sync(current);
    }

    /** Makes task the running one and lets it finish the call it was parked in. */
    method SwitchTo(task: Task)
      requires Shape() && task in ring && Switch(s, task.id).Ran?
      modifies this`current, this`s, task`irqListenHits, task`eax, task`userCall
      ensures Shape() && current == task && Ran(s) == Switch(old(s), task.id)
    {
      hide RingLinked, PrioLinked, Clocked, Named, Among, Blocks, Performed;
      ShownAt(task);
      current := task;
      s := s.(current := task.id);
      if task.userWaiting {
        assert false;
      } else if task.userCall.Some? {
        SwitchBlocks(old(s), task.id, task.userCall.value);
        FinishCall();
      }
    }

    /** Who is running is no part of what a call asks about. */
    static lemma SwitchBlocks(s: Sys, p: Pid, c: Call)
      ensures Blocks(s.(current := p), p, c) == Blocks(s, p, c)
    {
    }

    // ----- the timer interrupt -----

    /** The timer's part of a tick. */
    method TimerTick()
      requires Shape()
      modifies this`s, timer, ring`userWaiting
      ensures Shape() && s == TimerTicked(old(s))
      ensures s.current == old(s).current
    {
      hide RingLinked, PrioLinked, Named, Among;
      ClockTicked(s.timer, s.usPerTick, timer.wakeevents, ring);
      var woken := timer.TickOnce();
      s := s.(timer := Timers.Step(s.timer, Timers.Tick, s.usPerTick));
      if woken.Some? {
        woken.value.userWaiting := false;
        Sync(woken.value);
      }
    }

    method Tick()
      requires Valid()
      modifies this, timer, ring
      ensures Valid() && Ran(s) == Step(old(s), Event.Tick) && ring == old(ring)
    {
      hide RingLinked, PrioLinked, Named, Shown, Clocked, Inv, Next, Switch;
      assert Ticked(s).Ran? && Inv(Ticked(s).s) by { TickOk(s); }
      TimerTickedOk(s);
      TimerTick();
      NextIsLive(s);
      var t := PrepareFetchNextTask();
      SwitchTo(t);
    }

    static lemma NextIsLive(s: Sys)
      requires Inv(s)
      ensures Next(s).Some?
    {
      NextOk(s);
    }

    static lemma ClockTicked(q: Timers.Queue<Pid>, u: nat, ev: seq<Timers.WakeEvent<Task>>, ring: seq<Task>)
      requires |q.events| == |ev|
      requires forall i :: 0 <= i < |ev| ==>
                 ev[i].toWake in ring && q.events[i] == Timers.WakeEvent(ev[i].toWake.id, ev[i].uid, ev[i].usLeft)
      ensures var ev' := Timers.Ticked(ev, u);
              var q' := Timers.Ticked(q.events, u);
              |q'| == |ev'| && forall i :: 0 <= i < |ev'| ==>
                ev'[i].toWake in ring && q'[i] == Timers.WakeEvent(ev'[i].toWake.id, ev'[i].uid, ev'[i].usLeft)
      ensures match Timers.Fired(ev, u)
              case None => Timers.Fired(q.events, u).None?
              case Some(e) => e.toWake in ring && Timers.Fired(q.events, u).Some?
                              && Timers.Fired(q.events, u).value.toWake == e.toWake.id
    {
    }

    // ----- the other interrupts -----

    method AppendPriority(t: Task)
      requires Shape() && t in ring
      modifies this`priorityStart, this`prio, this`s, ring`priorityNext
      ensures Shape() && s == old(s).(prio := Appended(old(s.prio), t.id))
    {
      hide RingLinked, PrioLinked, Shown, Clocked, Named, Appended;
      NamedAt(s.ring, ring, t);
      AppendedNamed(s.prio, prio, t);
      LinkPriority(t);
      s := s.(prio := Appended(s.prio, t.id));
    }

    /** Walks to the end of the priority list and ends it with t. */
    method LinkPriority(t: Task)
      requires PrioLinked(priorityStart, prio) && Among(prio, ring) && Named(s.prio, prio) && t in ring
      modifies this`priorityStart, this`prio, ring`priorityNext
      ensures PrioLinked(priorityStart, prio) && Among(prio, ring)
      ensures prio == AppendedTask(old(prio), t)
    {
      PrioDistinct(s.prio, prio);
      if priorityStart == null {
        priorityStart := t;
      } else {
        var last := LastPriority();
        last.priorityNext := t;
      }
      t.priorityNext := null;
      prio := AppendedTask(prio, t);
    }

    static lemma PrioDistinct(ids: seq<Pid>, prio: seq<Task>)
      requires Named(ids, prio)
      ensures Distinct(prio)
    {
      forall i, j | 0 <= i < j < |prio| ensures prio[i] != prio[j] {
        assert ids[i] != ids[j];
      }
    }

    static ghost function AppendedTask(prio: seq<Task>, t: Task): seq<Task> {
      if t in prio then prio[..Position(prio, t) + 1] else prio + [t]
    }

    method LastPriority() returns (last: Task)
      requires PrioLinked(priorityStart, prio) && priorityStart != null
      ensures prio != [] && last == prio[|prio| - 1] && last in prio
    {
      last := priorityStart;
      ghost var k := 0;
      while last.priorityNext != null
        invariant 0 <= k < |prio| && last == prio[k]
        decreases |prio| - k
      {
        last := last.priorityNext;
        k := k + 1;
      }
    }

    static lemma AppendedNamed(ids: seq<Pid>, prio: seq<Task>, t: Task)
      requires Named(ids, prio) && (forall u :: u in prio && u.id == t.id ==> u == t)
      ensures Named(Appended(ids, t.id), AppendedTask(prio, t))
    {
      if t in prio {
        NamedAt(ids, prio, t);
      }
    }

    /** An interrupt reaches one task of the ring. */
    method IrqVisit(t: Task, irq: nat)
      requires Shape() && t in ring
      modifies this`priorityStart, this`prio, this`s, ring`priorityNext, t`irqListenHits, t`userWaiting
      ensures Shape() && s == IrqVisited(old(s), t.id, irq)
    {
      hide RingLinked, PrioLinked, Clocked, Named, Appended;
      ShownAt(t);
      if t.irqListen == irq {
        t.irqListenHits := t.irqListenHits + 1;
        // unblockType
        if t.userWaiting && t.userCall == Some(IrqWait) {
          t.userWaiting := false;
        }
        Sync(t);
        if !t.userWaiting {
          AppendPriority(t);
        }
      }
    }

    /** Shows the interrupt to every task of the ring. */
    method ScanRing(irq: nat)
      requires Shape() && current in ring
      modifies this`priorityStart, this`prio, this`s, ring`priorityNext, ring`irqListenHits, ring`userWaiting
      ensures Shape() && s == IrqScanned(old(s), irq, |old(s).ring|)
    {
      hide PrioLinked, Clocked, Named, Shown, IrqVisited, Among;
      NamedLength(s.ring, ring);
      var iter := start;
      ghost var k: nat := 0;
      while iter != null
        invariant k <= |ring| == |old(s).ring| && iter == (if k < |ring| then ring[k] else null)
        invariant Shape() && s == IrqScanned(old(s), irq, k)
        decreases |ring| - k
      {
        NamedIndex(s.ring, ring, k);
        IrqVisit(iter, irq);
        iter := iter.next;
        k := k + 1;
      }
    }

    method CallHandler(irq: nat)
      requires Valid()
      modifies this, ring
      ensures Valid() && Ran(s) == Step(old(s), Irq(irq)) && ring == old(ring)
    {
      hide RingLinked, PrioLinked, Clocked, Named, Shown, Among, Inv, IrqScanned, Switch;
      assert Interrupted(s, irq).Ran? && Inv(Interrupted(s, irq).s) by { IrqOk(s, irq); }
      ScanRing(irq);
      PrioEmpty(s.prio, prio, priorityStart);
      if priorityStart != null {
        var t := PopPriority();
        SwitchTo(t);
      }
    }

    // ----- system calls that may leave the caller -----

    /** returnToNextTask and the switch at the end of the system call handler. */
    method ReturnToNextTask()
      requires Shape() && current in ring && Yield(s).Ran?
      modifies this, ring
      ensures Shape() && Ran(s) == Yield(old(s)) && ring == old(ring) && current in ring
    {
      hide RingLinked, PrioLinked, Shown, Clocked, Next, Switch;
      var next := PrepareFetchNextTask();
      assert next != current;
      SwitchTo(next);
    }

    method Park(c: Call)
      requires Shape() && current in ring
      modifies this`s, current`userWaiting, current`userCall, current`eax
      ensures Shape() && s == Parking(old(s), c)
    {
      hide RingLinked, PrioLinked, Clocked, Named, Among;
      ShownAt(current);
      current.userWaiting := true;
      current.userCall := Some(c);
      current.eax := 0;
      Sync(current);
    }

    /** Assigns the returned value of a call that does not leave its caller. */
    method Return(eax: nat)
      requires ShapeBut(current) && current in ring
      modifies this`s, current`eax
      ensures Shape() && s == old(s).Put(current.id, old(current.View()).(eax := eax))
    {
      hide RingLinked, PrioLinked, Clocked, Named, Among;
      current.eax := eax;
      Sync(current);
    }

    /** The common body of the blocking calls: evaluate once, and park if that would block. */
    method Invoke(c: Call)
      requires Shape() && current in ring && CallOrPark(s, c).Ran?
      modifies this, ring
      ensures Shape() && Ran(s) == CallOrPark(old(s), c) && ring == old(ring) && current in ring
    {
      hide RingLinked, PrioLinked, Shown, Clocked, Named, Yield, Performed, Blocks;
      ShownAt(current);
      var blocks, r := Evaluate(c);
      if blocks {
        Unchanged(s.procs, ring, current);
        Park(c);
        ReturnToNextTask();
      } else {
        Return(r);
      }
    }

    method IrqWaitCall()
      requires Valid() && Allowed(s, WaitForIrq)
      modifies this, ring
      ensures Valid() && Ran(s) == Step(old(s), WaitForIrq) && ring == old(ring)
    {
      hide RingLinked, PrioLinked, Shown, Clocked, Named, Inv, CallOrPark;
      StepOk(s, WaitForIrq);
      Invoke(IrqWait);
    }

    method WaitProcessCall(pid: Pid)
      requires Valid() && Allowed(s, WaitFor(pid))
      modifies this, ring
      ensures Valid() && Ran(s) == Step(old(s), WaitFor(pid)) && ring == old(ring)
    {
      hide RingLinked, PrioLinked, Shown, Clocked, Named, Inv, CallOrPark;
      StepOk(s, WaitFor(pid));
      Invoke(WaitProcess(pid));
    }

    method ProbeQueueCall(replyTo: nat, block: bool)
      requires Valid() && Allowed(s, Probe(replyTo, block))
      modifies this, ring
      ensures Valid() && Ran(s) == Step(old(s), Probe(replyTo, block)) && ring == old(ring)
    {
      hide RingLinked, PrioLinked, Shown, Clocked, Named, Inv, CallOrPark;
      StepOk(s, Probe(replyTo, block));
      if block {
        Invoke(ProbeQueue(replyTo));
      } else {
        ProbeOnceIs(s, replyTo);
        ShownAt(current);
        var blocks, r := Evaluate(ProbeQueue(replyTo));
        Return(if blocks then 0 else r);
      }
    }

    static lemma ProbeOnceIs(s: Sys, r: nat)
      ensures ProbeOnce(s, r) ==
                if Blocks(s, s.current, ProbeQueue(r)) then Ran(s.Put(s.current, s.Cur().(eax := 0)))
                else Ran(s.Put(s.current, Performed(s.Cur(), ProbeQueue(r))))
    {
    }

    method Defer()
      requires Valid() && Allowed(s, Event.Defer)
      modifies this, ring
      ensures Valid() && Ran(s) == Step(old(s), Event.Defer) && ring == old(ring)
    {
      hide RingLinked, PrioLinked, Shown, Clocked, Named, Inv, Yield;
      StepOk(s, Event.Defer);
      ShownAt(current);
      Weaken(current);
      Return(0);
      ReturnToNextTask();
    }

    method Nanosleep(us: u32)
      requires Valid() && Allowed(s, Sleep(us))
      requires Timers.Total(timer.wakeevents) + us < TWO32
      modifies this, ring, timer
      ensures Valid() && Ran(s) == Step(old(s), Sleep(us)) && ring == old(ring)
    {
      hide RingLinked, PrioLinked, Shown, Named, Inv, Yield;
      StepOk(s, Sleep(us));
      ShownAt(current);
      ClockSlept(s.timer, timer.Abs(), ring, current, us, s.usPerTick);
      var wakeeventId := timer.WakeIn(us, current);
      s := s.(timer := Timers.Step(s.timer, Timers.WakeIn(s.current, us), s.usPerTick));
      Park(Call.Nanosleep(wakeeventId));
      ReturnToNextTask();
    }

    static lemma ClockSlept(q: Timers.Queue<Pid>, ev: Timers.Queue<Task>, ring: seq<Task>, t: Task, us: nat, u: nat)
      requires |q.events| == |ev.events| && t in ring && q.lastUid == ev.lastUid
      requires forall i :: 0 <= i < |ev.events| ==> var w := ev.events[i];
                 w.toWake in ring && q.events[i] == Timers.WakeEvent(w.toWake.id, w.uid, w.usLeft)
      ensures var ev' := Timers.Step(ev, Timers.WakeIn(t, us), u);
              var q' := Timers.Step(q, Timers.WakeIn(t.id, us), u);
              |q'.events| == |ev'.events| && q'.lastUid == ev'.lastUid &&
              forall i :: 0 <= i < |ev'.events| ==> var w := ev'.events[i];
                w.toWake in ring && q'.events[i] == Timers.WakeEvent(w.toWake.id, w.uid, w.usLeft)
    {
      SameCovered(q.events, ev.events, us);
    }

    static lemma {:induction false} SameCovered(q: seq<Timers.WakeEvent<Pid>>, ev: seq<Timers.WakeEvent<Task>>, us: nat)
      requires |q| == |ev| && forall i :: 0 <= i < |q| ==> q[i].usLeft == ev[i].usLeft
      ensures Timers.Covered(q, us) == Timers.Covered(ev, us)
    {
      if q != [] && q[0].usLeft <= us {
        SameCovered(q[1..], ev[1..], us - q[0].usLeft);
      }
    }

    // ----- system calls that stay with the caller -----

    method IrqListen(irq: nat)
      requires Valid() && Allowed(s, ListenToIrq(irq))
      modifies this`s, current
      ensures Valid() && Ran(s) == Step(old(s), ListenToIrq(irq))
    {
      hide RingLinked, PrioLinked, Clocked, Named, Among, Inv;
      StepOk(s, ListenToIrq(irq));
      ShownAt(current);
      current.irqListen := irq;
      current.irqListenHits := 0;
      Return(0);
    }

    method IrqCheck()
      requires Valid() && Allowed(s, CheckIrq)
      modifies this`s, current
      ensures Valid() && Ran(s) == Step(old(s), CheckIrq)
    {
      hide RingLinked, PrioLinked, Clocked, Named, Among, Inv;
      StepOk(s, CheckIrq);
      ShownAt(current);
      if current.irqListenHits == 0 {
        Return(0);
      } else {
        current.irqListenHits := current.irqListenHits - 1;
        Return(1);
      }
    }

    /** itemById() and the list removal behind shiftQueue; an unknown id removes nothing. */
    static method RemoveById(queue: seq<Item>, id: nat) returns (r: seq<Item>)
      ensures r == WithoutId(queue, id)
    {
      var i := 0;
      WithoutNone(queue, id);
      hide WithoutId;
      while i < |queue|
        invariant 0 <= i <= |queue|
        invariant WithoutId(queue, id) == queue[..i] + WithoutId(queue[i..], id)
      {
        WithoutStep(queue, i, id);
        if queue[i].id == id {
          return queue[..i] + queue[i + 1..];
        }
        assert queue[..i + 1] == queue[..i] + [queue[i]];
        ghost var rest := WithoutId(queue[i + 1..], id);
        assert queue[..i] + ([queue[i]] + rest) == queue[..i + 1] + rest;
        i := i + 1;
      }
      return queue;
    }

    static lemma WithoutNone(queue: seq<Item>, id: nat)
      ensures queue[..0] + WithoutId(queue[0..], id) == WithoutId(queue, id)
      ensures queue[..|queue|] + WithoutId(queue[|queue|..], id) == queue
    {
      assert queue[0..] == queue && queue[|queue|..] == [];
    }

    static lemma WithoutStep(queue: seq<Item>, i: nat, id: nat)
      requires i < |queue|
      ensures WithoutId(queue[i..], id) ==
              if queue[i].id == id then queue[i + 1..] else [queue[i]] + WithoutId(queue[i + 1..], id)
    {
      assert queue[i..][0] == queue[i] && queue[i..][1..] == queue[i + 1..];
    }

    method ShiftQueue(id: nat)
      requires Valid() && Allowed(s, Shift(id))
      modifies this`s, current
      ensures Valid() && Ran(s) == Step(old(s), Shift(id))
    {
      hide RingLinked, PrioLinked, Clocked, Named, Among, Inv;
      StepOk(s, Shift(id));
      ShownAt(current);
      current.replyQueue := RemoveById(current.replyQueue, id);
      Return(0);
    }

    /** Queues the item for task and unblocks it if it is parked on that very number. */
    method Deliver(task: Task, item: Item)
      requires Shape() && task in ring
      modifies this`s, task`replyQueue, task`userWaiting
      ensures Shape() && s == old(s).Put(task.id, Received(old(s).At(task.id), item))
    {
      hide RingLinked, PrioLinked, Clocked, Named, Among;
      ShownAt(task);
      task.replyQueue := task.replyQueue + [item];
      // unblockTypeWith
      if task.userWaiting && task.userCall.Some? && task.userCall.value.ProbeQueue?
         && task.userCall.value.replyTo == item.replyTo {
        task.userWaiting := false;
      }
      Sync(task);
    }

    /** A receiver that is not in the ring is a null pointer, which the source does not look out for. */
    method SendQueue(id: Pid, replyTo: nat, data: seq<byte>) returns (ok: bool)
      requires Valid() && Allowed(s, Send(id, replyTo, data))
      modifies this`s, this`lastMsgId, ring
      ensures Valid() && (ok <==> id in old(s).ring)
      ensures if ok then Ran(s) == Step(old(s), Send(id, replyTo, data))
              else Step(old(s), Send(id, replyTo, data)) == Panic(NullTask) && s == old(s)
    {
      hide RingLinked, PrioLinked, Shown, Clocked, Named, Among, Inv, Received;
      StepOk(s, Send(id, replyTo, data));
      var task := GetTaskById(id);
      if task == null {
        return false;
      }
      ok := true;
      lastMsgId := lastMsgId + 1;
      s := s.(lastMsg := lastMsgId);
      Deliver(task, Item(lastMsgId, current.id, replyTo, data));
      Weaken(current);
      ShownAt(current);
      Return(lastMsgId);
    }

    // ----- the ends and the beginnings of tasks -----

    /** unblockTypeWith for a task that may be waiting for process pid. */
    method UnblockWaiter(task: Task, pid: Pid)
      requires Shape() && task in ring
      modifies this`s, task`userWaiting
      ensures Shape() && s == old(s).Put(task.id, Freed(old(s).At(task.id), pid))
    {
      hide RingLinked, PrioLinked, Clocked, Named, Among;
      ShownAt(task);
      if task.userWaiting && task.userCall.Some? && task.userCall.value.WaitProcess?
         && task.userCall.value.pid == pid {
        task.userWaiting := false;
      }
      Sync(task);
    }

    /** Releases the tasks that wait for the current one. */
    method ReleaseWaiters()
      requires Shape() && current in ring && RingOk(s)
      modifies this`s, ring`userWaiting
      ensures Shape() && s == WaitersReleased(old(s))
    {
      hide PrioLinked, Clocked, Among, Named, Shown, Freed, ReleasedTo;
      var task := start;
      ghost var k := 0;
      NamedLength(s.ring, ring);
      ReleasedStep(s, 0);
      while task != null
        invariant 0 <= k <= |ring| && task == (if k < |ring| then ring[k] else null)
        invariant Shape() && k <= |old(s).ring| && s == ReleasedTo(old(s), k)
        invariant s.ring == old(s).ring && s.current == old(s).current
        decreases |ring| - k
      {
        NamedIndex(s.ring, ring, k);
        CurrentNamed(task);
        ReleasedStep(old(s), k + 1);
        if task != current {
          UnblockWaiter(task, current.id);
        }
        task := task.next;
        k := k + 1;
      }
      ReleasedAll(old(s));
    }

    lemma CurrentNamed(t: Task)
      requires Shape() && t in ring && current in ring
      ensures t == current <==> t.id == s.current
    {
      NamedAt(s.ring, ring, t);
      NamedAt(s.ring, ring, current);
    }

    /** Takes the current task out of the ring; the scanner stops at the link that leads to it. */
    method UnlinkCurrent()
      requires RingLinked(start, ring) && Distinct(ring) && current in ring
      modifies this`start, this`ring, ring`next
      ensures RingLinked(start, ring) && ring == WithoutTask(old(ring), current)
    {
      ghost var c := Position(ring, current);
      if start == current {
        start := current.next;
      } else {
        var scanner := start;
        ghost var k := 0;
        while scanner.next != current
          invariant 0 <= k < c && scanner == ring[k]
          decreases c - k
        {
          scanner := scanner.next;
          k := k + 1;
        }
        scanner.next := current.next;
      }
      ring := WithoutTask(ring, current);
    }

    method Unlink()
      requires Shape() && current in ring && current !in prio
      requires forall i :: 0 <= i < |s.timer.events| ==> s.timer.events[i].toWake != s.current
      modifies this`start, this`ring, this`s, ring`next
      ensures Shape() && s == Unlinked(old(s)) && ring == WithoutTask(old(ring), current)
    {
      hide PrioLinked, RingLinked, Named, Shown, Clocked, Among, Distinct, WithoutTask, Without, IsLess;
      PrioDistinct(s.ring, ring);
      WithoutNamed(s.ring, ring, current);
      UnlinkCurrent();
      ShownLess(s.ring, s.procs, old(ring), ring, current);
      ClockedLess(s.timer, s.usPerTick, timer, old(ring), ring, current);
      AmongLess(prio, old(ring), ring, current);
      s := Unlinked(s);
    }

    /** The same tasks, without t. */
    static ghost predicate IsLess(less: seq<Task>, ring: seq<Task>, t: Task) {
      && (forall i :: 0 <= i < |less| ==> less[i] in ring && less[i] != t)
      && (forall i :: 0 <= i < |ring| && ring[i] != t ==> ring[i] in less)
    }

    static lemma ShownLess(ids: seq<Pid>, procs: map<Pid, Proc>, ring: seq<Task>, less: seq<Task>, t: Task)
      requires Named(ids, ring) && Shown(procs, ring, null) && t in ring
      requires IsLess(less, ring, t)
      ensures Shown(procs - {t.id}, less, null)
    {
      NamedAt(ids, ring, t);
    }

    static lemma ClockedLess(q: Timers.Queue<Pid>, usPerTick: nat, timer: Timers.Timer<Task>,
                             ring: seq<Task>, less: seq<Task>, t: Task)
      requires Clocked(q, usPerTick, timer, ring)
      requires forall i :: 0 <= i < |q.events| ==> q.events[i].toWake != t.id
      requires IsLess(less, ring, t)
      ensures Clocked(q, usPerTick, timer, less)
    {
    }

    static lemma AmongLess(prio: seq<Task>, ring: seq<Task>, less: seq<Task>, t: Task)
      requires Among(prio, ring) && t !in prio
      requires IsLess(less, ring, t)
      ensures Among(prio, less)
    {
    }

    static lemma WithoutNamed(ids: seq<Pid>, ring: seq<Task>, t: Task)
      requires Named(ids, ring) && t in ring
      ensures Named(Without(ids, t.id), WithoutTask(ring, t))
      ensures IsLess(WithoutTask(ring, t), ring, t)
    {
      hide Named, Distinct, IsLess, Position;
      NamedAt(ids, ring, t);
      PrioDistinct(ids, ring);
      var k := Position(ring, t);
      IdsWithout(ids, ring, k, Without(ids, t.id), WithoutTask(ring, t));
      TasksWithout(ring, k, WithoutTask(ring, t));
    }

    static lemma IdsWithout(ids: seq<Pid>, ring: seq<Task>, k: nat, ids': seq<Pid>, ring': seq<Task>)
      requires Named(ids, ring) && k < |ring|
      requires ids' == ids[..k] + ids[k + 1..] && ring' == ring[..k] + ring[k + 1..]
      ensures Named(ids', ring')
    {
    }

    static lemma TasksWithout(ring: seq<Task>, k: nat, ring': seq<Task>)
      requires Distinct(ring) && k < |ring| && ring' == ring[..k] + ring[k + 1..]
      ensures IsLess(ring', ring, ring[k])
    {
      forall j | 0 <= j < |ring| && ring[j] != ring[k] ensures ring[j] in ring' {
        assert ring[j] == ring'[if j < k then j else j - 1];
      }
    }

    static ghost function WithoutTask(ring: seq<Task>, t: Task): seq<Task>
      requires t in ring
    {
      ring[..Position(ring, t)] + ring[Position(ring, t) + 1..]
    }

    /** What the ending of a task needs from the invariant. */
    static lemma EndFacts(s: Sys)
      requires Inv(s) && s.current != s.idle
      ensures RingOk(s) && Exited(s).Ran? && Inv(Exited(s).s) && Killed(s) == Exited(s)
      ensures var s' := WaitersReleased(s);
              && Next(s').Some? && Next(s').value != s.current
              && s.current !in Popped(s').prio
              && s'.current == s.current && Popped(s').current == s.current
              && Popped(s').timer == s.timer
              && Exited(s) == Switch(Unlinked(Popped(s')), Next(s').value)
      ensures forall i :: 0 <= i < |s.timer.events| ==> s.timer.events[i].toWake != s.current
    {
      ExitOk(s);
      NextWhenEnding(s);
    }

    lemma NotInPrio(t: Task)
      requires Shape() && t.id !in s.prio
      ensures t !in prio
    {
      if t in prio {
        NamedAt(s.prio, prio, t);
      }
    }

    /** The body that sysexit and the fatal exception path share. */
    method EndCurrent()
      requires Valid() && s.current != s.idle
      modifies this, ring
      ensures Valid() && Ran(s) == Exited(old(s)) && ring == WithoutTask(old(ring), old(current))
    {
      hide PrioLinked, RingLinked, Named, Shown, Clocked, Among, WithoutTask, Inv, RingOk,
           Switch, Next, Popped, Unlinked, WaitersReleased, Exited;
      EndFacts(s);
      ReleaseWaiters();
      var next := PrepareFetchNextTask();
      assert next != current;
      NotInPrio(current);
      StillThere(ring, next, current);
      Unlink();
      SwitchTo(next);
    }

    static lemma StillThere(ring: seq<Task>, t: Task, c: Task)
      requires t in ring && c in ring && t != c
      ensures t in WithoutTask(ring, c)
    {
      var j, k := Position(ring, t), Position(ring, c);
      if j < k { assert WithoutTask(ring, c)[j] == t; } else { assert WithoutTask(ring, c)[j - 1] == t; }
    }

    method SysExit()
      requires Valid() && Allowed(s, Exit)
      modifies this, ring
      ensures Valid() && Ran(s) == Step(old(s), Exit) && ring == WithoutTask(old(ring), old(current))
    {
      hide Inv, Exited, PrioLinked, RingLinked, Named, Shown, Clocked, Among;
      EndCurrent();
    }

    method KillCurrent()
      requires Valid() && Allowed(s, Fault)
      modifies this, ring
      ensures Valid() && Ran(s) == Step(old(s), Fault) && ring == WithoutTask(old(ring), old(current))
    {
      hide Inv, Exited, Killed, PrioLinked, RingLinked, Named, Shown, Clocked, Among;
      EndFacts(s);
      EndCurrent();
    }

    /** Puts a fresh task in front of the ring. */
    method BeginExecution(task: Task)
      requires Valid() && Allowed(s, Begin(task.id)) && task.View() == FRESH
      modifies this`start, this`s, this`ring, task`next, current`eax
      ensures Valid() && Ran(s) == Step(old(s), Begin(task.id)) && ring == [task] + old(ring)
    {
      hide PrioLinked, RingLinked, Inv, Shown, Clocked, Named, Among;
      StepOk(s, Begin(task.id));
      AddFront(task);
      Weaken(current);
      ShownAt(current);
      Return(1);
    }

    method AddFront(task: Task)
      requires Shape() && task.id !in s.ring && task.View() == FRESH
      modifies this`start, this`s, this`ring, task`next
      ensures Shape() && ring == [task] + old(ring)
      ensures s == old(s).(ring := [task.id] + old(s).ring, procs := old(s).procs[task.id := FRESH])
    {
      hide PrioLinked, RingLinked, Shown, Clocked, Named, Among;
      FrontNamed(s.ring, ring, task);
      LinkFront(task);
      FrontShown(s.procs, old(ring), task);
      FrontClocked(s.timer, s.usPerTick, timer, prio, old(ring), task);
      s := s.(ring := [task.id] + s.ring, procs := s.procs[task.id := FRESH]);
    }

    method LinkFront(task: Task)
      requires RingLinked(start, ring) && task !in ring
      modifies this`start, this`ring, task`next
      ensures RingLinked(start, ring) && ring == [task] + old(ring)
    {
      task.next := start;
      start := task;
      ring := [task] + ring;
      assert forall i :: 0 < i < |ring| ==> ring[i] == old(ring)[i - 1];
    }

    static lemma FrontNamed(ids: seq<Pid>, ring: seq<Task>, t: Task)
      requires Named(ids, ring) && t.id !in ids
      ensures Named([t.id] + ids, [t] + ring) && t !in ring
      ensures forall i :: 0 <= i < |ring| ==> ring[i].id != t.id
    {
      if t in ring {
        NamedAt(ids, ring, t);
      }
    }

    static lemma FrontShown(procs: map<Pid, Proc>, ring: seq<Task>, t: Task)
      requires Shown(procs, ring, null) && t.View() == FRESH && forall i :: 0 <= i < |ring| ==> ring[i].id != t.id
      ensures Shown(procs[t.id := FRESH], [t] + ring, null)
    {
    }

    static lemma FrontClocked(q: Timers.Queue<Pid>, usPerTick: nat, timer: Timers.Timer<Task>,
                              prio: seq<Task>, ring: seq<Task>, t: Task)
      requires Clocked(q, usPerTick, timer, ring) && Among(prio, ring)
      ensures Clocked(q, usPerTick, timer, [t] + ring) && Among(prio, [t] + ring)
    {
    }
  }

  /** A task when process pid has ended. */
  ghost function Freed(t: Proc, pid: Pid): Proc {
    if t.call == Some(WaitProcess(pid)) then t.(waiting := false) else t
  }

  /** The walk over the first k tasks of the ring. */
  ghost function ReleasedTo(s: Sys, k: nat): Sys
    requires k <= |s.ring|
    ensures ReleasedTo(s, k).ring == s.ring && ReleasedTo(s, k).current == s.current
  {
    if k == 0 then s
    else if s.ring[k - 1] == s.current then ReleasedTo(s, k - 1)
    else
      var s' := ReleasedTo(s, k - 1);
      s'.Put(s.ring[k - 1], Freed(s'.At(s.ring[k - 1]), s.current))
  }

  lemma ReleasedStep(s: Sys, k: nat)
    requires k <= |s.ring|
    ensures k == 0 ==> ReleasedTo(s, k) == s
    ensures k > 0 ==> ReleasedTo(s, k) ==
                        if s.ring[k - 1] == s.current then ReleasedTo(s, k - 1)
                        else ReleasedTo(s, k - 1).Put(s.ring[k - 1],
                               Freed(ReleasedTo(s, k - 1).At(s.ring[k - 1]), s.current))
  {
  }

  lemma {:induction false} ReleasedFrame(s: Sys, k: nat)
    requires RingOk(s) && k <= |s.ring|
    ensures ReleasedTo(s, k) == s.(procs := ReleasedTo(s, k).procs)
    ensures ReleasedTo(s, k).procs.Keys == s.procs.Keys
  {
    ReleasedStep(s, k);
    RingFacts(s);
    hide Freed, ReleasedTo, RingOk;
    if k > 0 {
      ReleasedFrame(s, k - 1);
      assert s.ring[k - 1] in s.ring;
    }
  }

  lemma {:induction false} ReleasedAt(s: Sys, k: nat, p: Pid)
    requires RingOk(s) && k <= |s.ring| && p in s.ring
    ensures ReleasedTo(s, k).At(p) ==
            if Position(s.ring, p) < k && p != s.current then Freed(s.At(p), s.current) else s.At(p)
  {
    ReleasedStep(s, k);
    RingFacts(s);
    if k > 0 {
      ReleasedAt(s, k - 1, p);
      PositionIs(s.ring, k - 1);
      assert s.ring[Position(s.ring, p)] == p;
      hide Freed, Position, ReleasedTo, RingOk;
    }
  }

  lemma ReleasedProcs(s: Sys, k: nat)
    requires RingOk(s) && k <= |s.ring|
    ensures ReleasedTo(s, k) == s.(procs := ReleasedTo(s, k).procs)
    ensures ReleasedTo(s, k).procs.Keys == s.procs.Keys
    ensures forall p :: p in s.ring ==>
              ReleasedTo(s, k).At(p) ==
              if Position(s.ring, p) < k && p != s.current then Freed(s.At(p), s.current) else s.At(p)
  {
    ReleasedFrame(s, k);
    hide Freed, Position, ReleasedTo, RingOk;
    forall p | p in s.ring
      ensures ReleasedTo(s, k).At(p) ==
              if Position(s.ring, p) < k && p != s.current then Freed(s.At(p), s.current) else s.At(p)
    {
      ReleasedAt(s, k, p);
    }
  }

  lemma RingFacts(s: Sys)
    requires RingOk(s)
    ensures Distinct(s.ring) && forall p :: p in s.ring ==> p in s.procs
  {
  }

  lemma ReleasedAll(s: Sys)
    requires RingOk(s)
    ensures ReleasedTo(s, |s.ring|) == WaitersReleased(s)
  {
    hide ReleasedTo, Position;
    ReleasedProcs(s, |s.ring|);
    var procs := ReleasedTo(s, |s.ring|).procs;
    forall p | p in procs ensures procs[p] == Released(s.procs, s.current)[p] {
      assert ReleasedTo(s, |s.ring|).At(p) == procs[p];
    }
    assert procs == Released(s.procs, s.current);
  }

  lemma Unchanged(procs: map<Pid, Proc>, ring: seq<Task>, t: Task)
    requires Shown(procs, ring, t) && t in ring && procs[t.id] == t.View()
    ensures Shown(procs, ring, null)
  {
  }

  lemma NamedLength(ids: seq<Pid>, tasks: seq<Task>)
    requires Named(ids, tasks)
    ensures |ids| == |tasks|
  {
  }

  lemma PrioEmpty(ids: seq<Pid>, prio: seq<Task>, first: Task?)
    requires Named(ids, prio) && PrioLinked(first, prio)
    ensures first == null <==> ids == []
  {
  }

  lemma NamedIndex(ids: seq<Pid>, tasks: seq<Task>, k: nat)
    requires Named(ids, tasks) && k < |tasks|
    ensures ids[k] == tasks[k].id
  {
  }

  /** The next task of the ring, cyclically. */
  ghost function Succ(ring: seq<Task>, t: Task): Task
    requires t in ring
  {
    var i := Position(ring, t) + 1;
    if i < |ring| then ring[i] else ring[0]
  }

  /** The task at place i of the rotation that starts behind c. */
  ghost function Nth(ring: seq<Task>, c: Task, i: nat): (t: Task)
    requires c in ring && i < |ring|
    ensures t in ring
  {
    var j := Position(ring, c) + 1 + i;
    ring[if j < |ring| then j else j - |ring|]
  }

  lemma NthId(ids: seq<Pid>, ring: seq<Task>, c: Task, i: nat)
    requires Named(ids, ring) && c in ring && i < |ring|
    ensures |After(ids, c.id)| == |ring| && After(ids, c.id)[i] == Nth(ring, c, i).id
  {
    hide After;
    NamedAt(ids, ring, c);
    AfterAt(ids, c.id, i);
  }

  lemma NthSucc(ids: seq<Pid>, ring: seq<Task>, c: Task, i: nat)
    requires Named(ids, ring) && c in ring && i + 1 < |ring|
    ensures Nth(ring, c, i + 1) == Succ(ring, Nth(ring, c, i))
    ensures Nth(ring, c, i + 1) != Nth(ring, c, 0)
  {
    var n := |ring|;
    var j := Position(ring, c) + 1 + i;
    var k := if j < n then j else j - n;
    assert ids[k] == ids[Position(ring, Nth(ring, c, i))];
    var a := if j + 1 < n then j + 1 else j + 1 - n;
    var b := if j - i < n then j - i else j - i - n;
    assert a != b;
    assert ids[a] != ids[b];
  }
}
