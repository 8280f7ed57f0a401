/**
 The invariant of the machine, its preservation by every step, and what follows for every
 run: no panic of the scheduler is reachable and no wake-up is lost.
 */
module Safety {
  import opened Base
  import Timers
  import opened Machine

  // ----- the invariant -----

  /** The timer holds an event for task p under this id. */
  ghost predicate Sleeping(s: Sys, p: Pid, w: nat) {
    exists i :: 0 <= i < |s.timer.events|
             && s.timer.events[i].toWake == p && s.timer.events[i].uid == w
  }

  /** A blocked call whose wake-up has not happened yet. */
  ghost predicate Parked(s: Sys, p: Pid, c: Call) {
    match c
    case IrqWait => s.At(p).hits == 0
    case ProbeQueue(r) => forall i :: 0 <= i < |s.At(p).queue| ==> s.At(p).queue[i].replyTo != r
    case WaitProcess(q) => q in s.procs
    case Nanosleep(w) => w > 0 && Sleeping(s, p, w)
  }

  /** A blocked call that has been released: what it waited for is there and will stay. */
  ghost predicate Ready(s: Sys, p: Pid, c: Call) {
    match c
    case IrqWait => s.At(p).hits > 0
    case ProbeQueue(r) => Lookup(s.At(p).queue, r).Some?
    case WaitProcess(q) => q in s.gone
    case Nanosleep(w) => w > 0
  }

  ghost predicate CallOk(s: Sys, p: Pid) {
    var t := s.At(p);
    && (t.waiting ==> t.call.Some? && Parked(s, p, t.call.value))
    && (!t.waiting && t.call.Some? ==> Ready(s, p, t.call.value))
  }

  ghost predicate RingOk(s: Sys) {
    && Distinct(s.ring)
    && (forall p :: p in s.procs <==> p in s.ring)
    && (forall p :: p in s.gone ==> p !in s.procs)
    && s.idle in s.procs && !s.At(s.idle).waiting && s.At(s.idle).call.None?
  }

  ghost predicate PrioOk(s: Sys) {
    && Distinct(s.prio)
    && forall p :: p in s.prio ==> p in s.procs && !s.At(p).waiting
  }

  ghost predicate TimerOk(s: Sys) {
    && s.timer.Valid()
    && forall i :: 0 <= i < |s.timer.events| ==>
         var e := s.timer.events[i];
         e.toWake in s.procs && s.At(e.toWake).waiting && s.At(e.toWake).call == Some(Nanosleep(e.uid))
  }

  ghost predicate CallsOk(s: Sys) {
    forall p {:trigger CallOk(s, p)} :: p in s.procs ==> CallOk(s, p)
  }

  ghost predicate Core(s: Sys) {
    RingOk(s) && PrioOk(s) && TimerOk(s) && CallsOk(s)
  }

  /** The running task is live, is in no call and is not queued to run. */
  ghost predicate CurrentOk(s: Sys) {
    && s.current in s.procs
    && !s.Cur().waiting
    && s.Cur().call.None?
    && s.current !in s.prio
  }

  ghost predicate Inv(s: Sys) {
    Core(s) && CurrentOk(s)
  }

  /** The parts of the invariant that the rotation needs. */
  lemma InvRing(s: Sys)
    requires Inv(s)
    ensures Distinct(s.ring) && s.current in s.ring && s.idle in s.ring && !s.At(s.idle).waiting
    ensures forall p :: p in s.procs <==> p in s.ring
  {
  }

  // ----- lookups -----

  lemma {:induction false} LookupNone(queue: seq<Item>, r: nat)
    ensures Lookup(queue, r).None? <==>
              forall i :: 0 <= i < |queue| ==> r != 0 && queue[i].replyTo != r
  {
    if queue != [] {
      LookupNone(queue[1..], r);
      if r != 0 && queue[0].replyTo != r {
        assert forall i :: 0 < i < |queue| ==> queue[i] == queue[1..][i - 1];
      }
    }
  }

  lemma {:induction false} LookupAppend(queue: seq<Item>, item: Item, r: nat)
    ensures Lookup(queue, r).Some? ==> Lookup(queue + [item], r) == Lookup(queue, r)
    ensures Lookup(queue, r).None? && (r == 0 || item.replyTo == r) ==> Lookup(queue + [item], r) == Some(item)
  {
    if queue != [] {
      assert (queue + [item])[1..] == queue[1..] + [item];
      LookupAppend(queue[1..], item, r);
    }
  }

  /** Blocking is exactly parking: the test a call makes is what the invariant records. */
  lemma BlockedIsParked(s: Sys, c: Call)
    requires Inv(s) && !c.Nanosleep? && Blocks(s, s.current, c)
    ensures Parked(Parking(s, c), s.current, c)
  {
    if c.ProbeQueue? {
      LookupNone(s.Cur().queue, c.replyTo);
    }
  }

  // ----- choosing the next task -----

  lemma {:induction false} FirstRunnableFinds(s: Sys, order: seq<Pid>, q: nat)
    requires q < |order| && !s.At(order[q]).waiting
    ensures FirstRunnable(s, order).Some?
    ensures exists k :: 0 <= k <= q && order[k] == FirstRunnable(s, order).value
                     && !s.At(order[k]).waiting
                     && forall j :: 0 <= j < k ==> s.At(order[j]).waiting
  {
    if s.At(order[0]).waiting {
      FirstRunnableFinds(s, order[1..], q - 1);
      var k :| 0 <= k <= q - 1 && order[1..][k] == FirstRunnable(s, order[1..]).value
            && !s.At(order[1..][k]).waiting
            && forall j :: 0 <= j < k ==> s.At(order[1..][j]).waiting;
      assert order[k + 1] == FirstRunnable(s, order).value;
      forall j | 0 <= j < k + 1 ensures s.At(order[j]).waiting {
        if j > 0 { assert order[j] == order[1..][j - 1]; }
      }
    } else {
      assert order[0] == FirstRunnable(s, order).value;
    }
  }

  lemma SkipStep(s: Sys, order: seq<Pid>, i: nat)
    requires i < |order| && FirstRunnable(s, order[i..]).Some?
    ensures if s.At(order[i]).waiting
            then i + 1 < |order| && FirstRunnable(s, order[i + 1..]) == FirstRunnable(s, order[i..])
            else FirstRunnable(s, order[i..]) == Some(order[i])
  {
    assert order[i..][0] == order[i] && order[i..][1..] == order[i + 1..];
  }

  lemma AfterMembers(ring: seq<Pid>, p: Pid)
    requires p in ring
    ensures |After(ring, p)| == |ring| && After(ring, p)[|ring| - 1] == p
    ensures forall x :: x in ring ==> x in After(ring, p)
    ensures forall i :: 0 <= i < |ring| ==> After(ring, p)[i] in ring
  {
    var k := Position(ring, p);
    var order := After(ring, p);
    forall x | x in ring ensures x in order {
      var j :| 0 <= j < |ring| && ring[j] == x;
      if j > k { assert order[j - k - 1] == x; } else { assert order[|ring| - k - 1 + j] == x; }
    }
  }

  lemma AfterDistinct(ring: seq<Pid>, p: Pid)
    requires Distinct(ring) && p in ring
    ensures Distinct(After(ring, p))
  {
    RotatedDistinct(ring, Position(ring, p) + 1);
  }

  lemma RotatedDistinct(ring: seq<Pid>, k: nat)
    requires Distinct(ring) && k <= |ring|
    ensures Distinct(ring[k..] + ring[..k])
  {
    forall i, j | 0 <= i < j < |ring| ensures (ring[k..] + ring[..k])[i] != (ring[k..] + ring[..k])[j] {
      RotatedAt(ring, k, i);
      RotatedAt(ring, k, j);
    }
  }

  lemma RotatedAt(ring: seq<Pid>, k: nat, i: nat)
    requires k <= |ring| && i < |ring|
    ensures (ring[k..] + ring[..k])[i] == ring[if k + i < |ring| then k + i else k + i - |ring|]
  {
  }

  lemma PositionIs(ring: seq<Pid>, i: nat)
    requires Distinct(ring) && i < |ring|
    ensures ring[i] in ring && Position(ring, ring[i]) == i
  {
  }

  lemma AfterAt(ring: seq<Pid>, c: Pid, i: nat)
    requires c in ring && i < |ring|
    ensures |After(ring, c)| == |ring|
    ensures var j := Position(ring, c) + 1 + i;
            After(ring, c)[i] == if j < |ring| then ring[j] else ring[j - |ring|]
  {
  }

  /** The search meets the idle task before it comes back to the task it started from. */
  lemma SearchFinds(s: Sys, ring: seq<Pid>, c: Pid)
    requires Distinct(ring) && c in ring && s.idle in ring && !s.At(s.idle).waiting
    ensures var r := FirstRunnable(s, After(ring, c));
            && r.Some? && r.value in ring && !s.At(r.value).waiting
            && (s.At(c).waiting || c != s.idle ==> r.value != c)
  {
    var order := After(ring, c);
    AfterMembers(ring, c);
    AfterDistinct(ring, c);
    var q :| 0 <= q < |order| && order[q] == s.idle;
    FirstRunnableFinds(s, order, q);
    var k :| 0 <= k <= q && order[k] == FirstRunnable(s, order).value && !s.At(order[k]).waiting;
  }

  /** What prepareFetchNextTask promises its callers. */
  lemma NextOk(s: Sys)
    requires Core(s) && s.current in s.procs
    ensures Next(s).Some?
    ensures var p := Next(s).value;
            && p in s.procs && !s.At(p).waiting && p !in Popped(s).prio
            && Core(Popped(s))
            && (s.current !in s.prio && (s.Cur().waiting || s.current != s.idle) ==> p != s.current)
  {
    if s.prio != [] {
      CoreOfPrio(s, s.prio[1..]);
      assert s.prio[0] in s.prio;
    } else {
      SearchFinds(s, s.ring, s.current);
    }
  }

  /** The list may shrink to any distinct selection of itself. */
  lemma CoreOfPrio(s: Sys, prio: seq<Pid>)
    requires Core(s) && Distinct(prio)
    requires forall p :: p in prio ==> p in s.procs && !s.At(p).waiting
    ensures Core(s.(prio := prio))
  {
    var s' := s.(prio := prio);
    forall p | p in s'.procs ensures CallOk(s', p) {
      assert CallOk(s, p);
    }
  }

  /** A change to one task and to nothing else. */
  lemma CoreOfPut(s: Sys, p: Pid, t: Proc)
    requires Core(s) && p in s.procs
    requires CallOk(s.Put(p, t), p)
    requires t.waiting ==> s.At(p).waiting && t.call == s.At(p).call
    requires s.At(p).waiting && !t.waiting ==> !t.call.Some? || !t.call.value.Nanosleep?
    requires s.At(p).waiting ==> t.call == s.At(p).call
    requires p == s.idle ==> t.call.None?
    ensures Core(s.Put(p, t))
  {
    var s' := s.Put(p, t);
    forall q | q in s'.procs ensures CallOk(s', q) {
      assert CallOk(s, q);
    }
  }

  /** Entering a live, runnable, unlisted task never fails and makes it the running one. */
  lemma SwitchOk(s: Sys, p: Pid)
    requires Core(s) && p in s.procs && !s.At(p).waiting && p !in s.prio
    ensures Switch(s, p).Ran?
    ensures Inv(Switch(s, p).s)
    ensures Switch(s, p).s.current == p
  {
    var t := s.At(p);
    assert CallOk(s, p);
    if t.call.Some? {
      var t' := Performed(t, t.call.value).(call := None);
      CoreOfPut(s, p, t');
      CoreOfCurrent(s.Put(p, t'), p, s.lastMsg);
    } else {
      CoreOfCurrent(s, p, s.lastMsg);
    }
  }

  /** The invariant sees neither the running task nor the message counter. */
  lemma CoreOfCurrent(s: Sys, p: Pid, n: nat)
    requires Core(s)
    ensures Core(s.(current := p, lastMsg := n))
  {
    var s' := s.(current := p, lastMsg := n);
    forall q | q in s'.procs ensures CallOk(s', q) {
      assert CallOk(s, q);
    }
  }

  // ----- one step -----

  /** Leaving for the next task, from a call or by deferring. */
  lemma YieldOk(s: Sys)
    requires Core(s) && s.current in s.procs && s.current !in s.prio
    requires s.Cur().waiting || s.current != s.idle
    ensures Yield(s).Ran? && Inv(Yield(s).s)
  {
    NextOk(s);
    SwitchOk(Popped(s), Next(s).value);
  }

  lemma ParkOk(s: Sys, c: Call)
    requires Inv(s) && s.current != s.idle && !c.Nanosleep?
    requires Parked(Parking(s, c), s.current, c)
    ensures Yield(Parking(s, c)).Ran? && Inv(Yield(Parking(s, c)).s)
  {
    var s' := Parking(s, c);
    forall q | q in s'.procs ensures CallOk(s', q) {
      assert CallOk(s, q);
    }
    YieldOk(s');
  }

  lemma CallOrParkOk(s: Sys, c: Call)
    requires Inv(s) && s.current != s.idle && !c.Nanosleep?
    ensures CallOrPark(s, c).Ran? && Inv(CallOrPark(s, c).s)
  {
    if Blocks(s, s.current, c) {
      BlockedIsParked(s, c);
      ParkOk(s, c);
    } else {
      CoreOfPut(s, s.current, Performed(s.Cur(), c));
    }
  }

  lemma SleepOk(s: Sys, us: nat)
    requires Inv(s) && s.current != s.idle
    ensures Slept(s, us).Ran? && Inv(Slept(s, us).s)
  {
    var s' := Sleeper(s, us);
    Timers.StepValid(s.timer, Timers.WakeIn(s.current, us), s.usPerTick);
    var n := |s.timer.events|;
    assert s'.timer.events[n].toWake == s.current && s'.timer.events[n].uid == s'.timer.lastUid;
    assert forall i :: 0 <= i < n ==> s'.timer.events[i] == s.timer.events[i];
    forall q | q in s'.procs ensures CallOk(s', q) {
      assert CallOk(s, q);
      if q != s.current && s.At(q).waiting && s.At(q).call.value.Nanosleep? {
        var i :| 0 <= i < n && s.timer.events[i].toWake == q && s.timer.events[i].uid == s.At(q).call.value.wakeId;
        assert s'.timer.events[i].toWake == q;
      }
    }
    YieldOk(s');
  }

  /** The timer wakes only the task whose event fired, and every other event stays. */
  lemma TimerTickedOk(s: Sys)
    requires Inv(s)
    ensures Inv(TimerTicked(s))
  {
    var s' := TimerTicked(s);
    TimerTickedTimer(s);
    forall q | q in s'.procs ensures CallOk(s', q) {
      assert CallOk(s, q);
      if s'.At(q).waiting && s.At(q).call.value.Nanosleep? {
        TimerTickedSleeper(s, q, s.At(q).call.value.wakeId);
      }
    }
  }

  lemma TimerTickedTimer(s: Sys)
    requires Inv(s)
    ensures TimerOk(TimerTicked(s))
  {
    Timers.StepValid(s.timer, Timers.Tick, s.usPerTick);
    var ev := s.timer.events;
    var s' := TimerTicked(s);
    if Timers.Fired(ev, s.usPerTick).Some? {
      forall i | 0 <= i < |s'.timer.events|
        ensures var e := s'.timer.events[i]; e == ev[i + 1] && e.toWake != ev[0].toWake
      {
        assert ev[i + 1].uid != ev[0].uid;
      }
    } else {
      assert forall i :: 0 <= i < |ev| ==>
        s'.timer.events[i].toWake == ev[i].toWake && s'.timer.events[i].uid == ev[i].uid;
    }
  }

  lemma TimerTickedSleeper(s: Sys, p: Pid, w: nat)
    requires Inv(s) && Sleeping(s, p, w) && TimerTicked(s).At(p).waiting
    ensures Sleeping(TimerTicked(s), p, w)
  {
    var ev := s.timer.events;
    var ev' := TimerTicked(s).timer.events;
    var i :| 0 <= i < |ev| && ev[i].toWake == p && ev[i].uid == w;
    if Timers.Fired(ev, s.usPerTick).Some? {
      assert ev'[i - 1] == ev[i];
    } else {
      assert ev'[i].toWake == p && ev'[i].uid == w;
    }
  }

  lemma TickOk(s: Sys)
    requires Inv(s)
    ensures Ticked(s).Ran? && Inv(Ticked(s).s)
  {
    TimerTickedOk(s);
    NextOk(TimerTicked(s));
    SwitchOk(Popped(TimerTicked(s)), Next(TimerTicked(s)).value);
  }

  lemma AppendedOk(prio: seq<Pid>, p: Pid)
    requires Distinct(prio)
    ensures Distinct(Appended(prio, p))
    ensures p in Appended(prio, p)
    ensures forall q :: q in Appended(prio, p) ==> q in prio || q == p
  {
    if p in prio {
      assert Appended(prio, p)[Position(prio, p)] == p;
    } else {
      assert Appended(prio, p)[|prio|] == p;
    }
  }

  lemma IrqVisitedOk(s: Sys, p: Pid, n: nat)
    requires Core(s) && p in s.procs
    ensures Core(IrqVisited(s, p, n))
  {
    if s.At(p).irqListen == n {
      assert CallOk(s, p);
      CoreOfPut(s, p, Hit(s.At(p)));
      var s' := s.Put(p, Hit(s.At(p)));
      if !s'.At(p).waiting {
        AppendedOk(s'.prio, p);
        CoreOfPrio(s', Appended(s'.prio, p));
      }
    }
  }

  /** The walk changes no link, no call and no list but the priority list. */
  ghost predicate IrqFrame(s: Sys, s': Sys) {
    && s' == s.(prio := s'.prio, procs := s'.procs)
    && s'.procs.Keys == s.procs.Keys
    && (s'.prio == [] ==> s.prio == [])
    && forall q :: s'.At(q).call == s.At(q).call && (s'.At(q).waiting ==> s.At(q).waiting)
  }

  lemma {:induction false} IrqScannedFrame(s: Sys, n: nat, k: nat)
    requires k <= |s.ring| && forall p :: p in s.ring ==> p in s.procs
    ensures IrqFrame(s, IrqScanned(s, n, k))
  {
    if k > 0 {
      IrqScannedFrame(s, n, k - 1);
      assert s.ring[k - 1] in s.ring;
    }
  }

  lemma {:induction false} IrqScannedOk(s: Sys, n: nat, k: nat)
    requires Core(s) && k <= |s.ring|
    ensures Core(IrqScanned(s, n, k))
  {
    if k > 0 {
      IrqScannedOk(s, n, k - 1);
      IrqScannedFrame(s, n, k - 1);
      assert s.ring[k - 1] in s.ring;
      IrqVisitedOk(IrqScanned(s, n, k - 1), s.ring[k - 1], n);
    }
  }

  lemma IrqOk(s: Sys, n: nat)
    requires Inv(s)
    ensures Interrupted(s, n).Ran? && Inv(Interrupted(s, n).s)
  {
    var s' := IrqScanned(s, n, |s.ring|);
    IrqScannedOk(s, n, |s.ring|);
    IrqScannedFrame(s, n, |s.ring|);
    if s'.prio != [] {
      NextOk(s');
      SwitchOk(Popped(s'), s'.prio[0]);
    }
  }

  lemma ReceivedOk(s: Sys, to: Pid, item: Item)
    requires Core(s) && to in s.procs
    ensures Core(s.Put(to, Received(s.At(to), item)))
  {
    var t := s.At(to);
    assert CallOk(s, to);
    var t' := Received(t, item);
    if t.call.Some? && t.call.value.ProbeQueue? {
      LookupAppend(t.queue, item, t.call.value.replyTo);
      LookupNone(t.queue, t.call.value.replyTo);
    }
    assert CallOk(s.Put(to, t'), to);
    CoreOfPut(s, to, t');
  }

  lemma ReceivedFacts(t: Proc, item: Item)
    ensures Received(t, item).call == t.call && (Received(t, item).waiting ==> t.waiting)
  {
  }

  lemma SentIs(s: Sys, to: Pid, r: nat, data: seq<byte>, t: Proc)
    requires to in s.ring && t == Received(s.At(to), Item(s.lastMsg + 1, s.current, r, data))
    ensures Sent(s, to, r, data) == Returned(s.Put(to, t).(lastMsg := s.lastMsg + 1), s.lastMsg + 1)
    ensures s.Put(to, t).(current := s.current, lastMsg := s.lastMsg + 1) == s.Put(to, t).(lastMsg := s.lastMsg + 1)
  {
  }

  lemma SendOk(s: Sys, to: Pid, r: nat, data: seq<byte>)
    requires Inv(s) && to in s.ring
    ensures Sent(s, to, r, data).Ran? && Inv(Sent(s, to, r, data).s)
  {
    var item := Item(s.lastMsg + 1, s.current, r, data);
    var t := Received(s.At(to), item);
    InvRing(s);
    SentIs(s, to, r, data, t);
    ReceivedFacts(s.At(to), item);
    ReceivedOk(s, to, item);
    CoreOfCurrent(s.Put(to, t), s.current, s.lastMsg + 1);
    hide Core, Received, Sent, Returned;
    ReceivedCurrent(s, to, t);
  }

  lemma ReceivedCurrent(s: Sys, to: Pid, t: Proc)
    requires CurrentOk(s) && to in s.procs && t.call == s.At(to).call && (t.waiting ==> s.At(to).waiting)
    requires Core(s.Put(to, t).(lastMsg := s.lastMsg + 1))
    ensures Inv(s.Put(to, t).(lastMsg := s.lastMsg + 1))
    ensures var s' := s.Put(to, t).(lastMsg := s.lastMsg + 1);
            Returned(s', s'.lastMsg).Ran? && Inv(Returned(s', s'.lastMsg).s)
  {
    var s' := s.Put(to, t).(lastMsg := s.lastMsg + 1);
    ReturnOk(s', s'.Cur().(eax := s'.lastMsg));
  }

  lemma WithoutFacts(ring: seq<Pid>, p: Pid)
    requires Distinct(ring) && p in ring
    ensures Distinct(Without(ring, p))
    ensures forall q :: q in Without(ring, p) <==> q in ring && q != p
  {
    var k := Position(ring, p);
    hide Position;
    LessDistinct(ring, k, Without(ring, p));
    LessMembers(ring, k, Without(ring, p));
  }

  lemma LessDistinct(ring: seq<Pid>, k: nat, less: seq<Pid>)
    requires Distinct(ring) && k < |ring| && less == ring[..k] + ring[k + 1..]
    ensures Distinct(less)
  {
  }

  lemma LessMembers(ring: seq<Pid>, k: nat, less: seq<Pid>)
    requires Distinct(ring) && k < |ring| && less == ring[..k] + ring[k + 1..]
    ensures forall q :: q in less <==> q in ring && q != ring[k]
  {
    forall q | q in ring && q != ring[k] ensures q in less {
      var j :| 0 <= j < |ring| && ring[j] == q;
      assert less[if j < k then j else j - 1] == q;
    }
    forall q | q in less ensures q in ring && q != ring[k] {
      var j :| 0 <= j < |less| && less[j] == q;
      assert ring[if j < k then j else j + 1] == q;
    }
  }

  lemma EndRing(s: Sys, ring: seq<Pid>)
    requires RingOk(s) && s.current in s.procs && s.current != s.idle
    requires Distinct(ring) && forall q :: q in ring <==> q in s.ring && q != s.current
    ensures RingOk(s.(ring := ring, procs := Released(s.procs, s.current) - {s.current},
                      gone := s.gone + {s.current}))
  {
    var procs := Released(s.procs, s.current) - {s.current};
    assert procs[s.idle] == Released(s.procs, s.current)[s.idle];
    assert forall q :: q in procs <==> q in s.procs && q != s.current;
  }

  /** The call of a task that outlives the current one. */
  lemma EndCall(s: Sys, q: Pid)
    requires Core(s) && q in s.procs && q != s.current
    ensures q in Unlinked(WaitersReleased(s)).procs && CallOk(Unlinked(WaitersReleased(s)), q)
  {
    assert CallOk(s, q);
  }

  lemma EndQueues(s: Sys)
    requires Inv(s)
    ensures PrioOk(Unlinked(WaitersReleased(s))) && TimerOk(Unlinked(WaitersReleased(s)))
  {
  }

  /** The state in which an ending task is left, whichever task comes next. */
  lemma EndOk(s: Sys)
    requires Inv(s) && s.current != s.idle
    ensures Core(Unlinked(WaitersReleased(s)))
  {
    var s' := Unlinked(WaitersReleased(s));
    WithoutFacts(s.ring, s.current);
    EndRing(s, Without(s.ring, s.current));
    EndQueues(s);
    hide RingOk, PrioOk, TimerOk, CallOk;
    forall q | q in s'.procs ensures CallOk(s', q) {
      EndCall(s, q);
    }
  }

  /** The search for a next task does not see the links that ending changes. */
  lemma NextWhenEnding(s: Sys)
    requires Inv(s) && s.current != s.idle
    ensures var s' := WaitersReleased(s);
            && Next(s').Some? && Next(s').value != s.current
            && Next(s').value in s.procs && !s'.At(Next(s').value).waiting
            && Next(s').value !in Popped(s').prio
  {
    if s.prio != [] {
      assert s.prio[0] in s.prio;
    } else {
      SearchFinds(WaitersReleased(s), s.ring, s.current);
    }
  }

  lemma ExitOk(s: Sys)
    requires Inv(s) && s.current != s.idle
    ensures Exited(s).Ran? && Inv(Exited(s).s)
    ensures Killed(s) == Exited(s)
  {
    var s' := WaitersReleased(s);
    NextWhenEnding(s);
    EndOk(s);
    var p := Next(s').value;
    var u := Unlinked(s');
    CoreOfPrio(u, Popped(s').prio);
    assert u.(prio := Popped(s').prio) == Unlinked(Popped(s'));
    SwitchOk(Unlinked(Popped(s')), p);
  }

  lemma BeginOk(s: Sys, p: Pid)
    requires Inv(s) && p !in s.ring && p !in s.gone
    ensures Begun(s, p).Ran? && Inv(Begun(s, p).s)
  {
    var s1 := s.(ring := [p] + s.ring, procs := s.procs[p := FRESH]);
    forall q | q in s1.procs ensures CallOk(s1, q) {
      if q in s.procs { assert CallOk(s, q); }
    }
    CoreOfPut(s1, s.current, s1.Cur().(eax := 1));
  }

  lemma ReturnOk(s: Sys, t: Proc)
    requires Inv(s)
    requires !t.waiting && t.call.None?
    ensures Inv(s.Put(s.current, t))
  {
    CoreOfPut(s, s.current, t);
  }

  lemma DeferOk(s: Sys)
    requires Inv(s) && s.current != s.idle
    ensures Yield(s.Put(s.current, s.Cur().(eax := 0))).Ran?
    ensures Inv(Yield(s.Put(s.current, s.Cur().(eax := 0))).s)
  {
    hide Core, Yield;
    ReturnOk(s, s.Cur().(eax := 0));
    YieldOk(s.Put(s.current, s.Cur().(eax := 0)));
  }

  /** The calls that only change the task that makes them. */
  lemma PlainCallOk(s: Sys, e: Event)
    requires Inv(s) && (e.ListenToIrq? || e.CheckIrq? || (e.Probe? && !e.block) || e.Shift?)
    ensures Step(s, e).Ran? && Inv(Step(s, e).s)
  {
    hide Core, Lookup, WithoutId;
    match e
    case ListenToIrq(n) => ReturnOk(s, s.Cur().(irqListen := n, hits := 0, eax := 0));
    case CheckIrq =>
      ReturnOk(s, s.Cur().(eax := 0));
      if s.Cur().hits > 0 { ReturnOk(s, s.Cur().(hits := s.Cur().hits - 1, eax := 1)); }
    case Probe(r, _) =>
      ReturnOk(s, s.Cur().(eax := 0));
      ReturnOk(s, Performed(s.Cur(), ProbeQueue(r)));
    case Shift(id) => ReturnOk(s, s.Cur().(queue := WithoutId(s.Cur().queue, id), eax := 0));
  }

  lemma SendRuns(s: Sys, to: Pid, r: nat, data: seq<byte>)
    requires Inv(s)
    ensures Sent(s, to, r, data).Ran? <==> to in s.ring
    ensures to in s.ring ==> Inv(Sent(s, to, r, data).s)
  {
    hide Inv;
    if to in s.ring {
      SendOk(s, to, r, data);
    }
  }

  /**
   Every step that is allowed keeps the invariant, and the only panic left is a send to a
   task that is not in the ring.
   */
  lemma StepOk(s: Sys, e: Event)
    requires Inv(s) && Allowed(s, e)
    ensures Step(s, e).Ran? <==> (e.Send? ==> e.to in s.ring)
    ensures Step(s, e).Ran? ==> Inv(Step(s, e).s)
  {
    hide Inv, Ticked, Interrupted, Yield, CallOrPark, Sent, Slept, Exited, Killed, Begun, Listening, Checked, ProbeOnce,
      Shifted;
    match e
    case Tick => TickOk(s);
    case Irq(n) => IrqOk(s, n);
    case Defer => DeferOk(s);
    case WaitForIrq => CallOrParkOk(s, IrqWait);
    case ListenToIrq(n) => PlainCallOk(s, e);
    case CheckIrq => PlainCallOk(s, e);
    case Probe(r, block) => if block { CallOrParkOk(s, ProbeQueue(r)); } else { PlainCallOk(s, e); }
    case Shift(id) => PlainCallOk(s, e);
    case Send(to, r, data) => SendRuns(s, to, r, data);
    case WaitFor(p) => CallOrParkOk(s, WaitProcess(p));
    case Sleep(us) => SleepOk(s, us);
    case Exit => ExitOk(s);
    case Fault => ExitOk(s);
    case Begin(p) =>
      InvRing(s);
      BeginOk(s, p);
  }
}
