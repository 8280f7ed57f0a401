/** What an interrupt does to the priority list: whom it puts there, and whom it drops. */
module Interrupts {
  import opened Base
  import Timers
  import opened Machine
  import opened Safety
  import opened Runs

  /** A listener that can run once the interrupt has hit it. */
  predicate Runner(s: Sys, n: nat, p: Pid) {
    s.At(p).irqListen == n && !Hit(s.At(p)).waiting
  }

  /** Those among the tasks, in their order. */
  function Runners(s: Sys, n: nat, tasks: seq<Pid>): seq<Pid> {
    if tasks == [] then []
    else Runners(s, n, tasks[..|tasks| - 1]) + if Runner(s, n, tasks[|tasks| - 1]) then [tasks[|tasks| - 1]] else []
  }

  /** The first place of the list that holds one of them. */
  function FirstListed(s: Sys, n: nat, prio: seq<Pid>, tasks: seq<Pid>): (r: Option<nat>)
    ensures r.Some? ==> r.value < |prio| && Runner(s, n, prio[r.value]) && prio[r.value] in tasks
    ensures r.Some? ==> forall i :: 0 <= i < r.value ==> !(Runner(s, n, prio[i]) && prio[i] in tasks)
    ensures r.None? ==> forall i :: 0 <= i < |prio| ==> !(Runner(s, n, prio[i]) && prio[i] in tasks)
  {
    if prio == [] then None
    else if Runner(s, n, prio[0]) && prio[0] in tasks then Some(0)
    else match FirstListed(s, n, prio[1..], tasks) case Some(i) => Some(i + 1) case None => None
  }

  /** What stays of the list: all of it, or what stands up to that place. */
  function Head(first: Option<nat>, prio: seq<Pid>): seq<Pid>
    requires first.Some? ==> first.value < |prio|
  {
    if first.Some? then prio[..first.value + 1] else prio
  }

  /** Which tasks are put behind it: those behind that one. */
  function From(first: Option<nat>, prio: seq<Pid>, tasks: seq<Pid>): (k: nat)
    requires first.Some? ==> first.value < |prio| && prio[first.value] in tasks
    ensures k <= |tasks|
  {
    if first.Some? then Position(tasks, prio[first.value]) + 1 else 0
  }

  /** The list when these tasks have been visited. */
  function ListAfter(s: Sys, n: nat, prio: seq<Pid>, tasks: seq<Pid>): seq<Pid> {
    var first := FirstListed(s, n, prio, tasks);
    Head(first, prio) + Runners(s, n, tasks[From(first, prio, tasks)..])
  }

  lemma {:induction false} RunnersAre(s: Sys, n: nat, tasks: seq<Pid>)
    ensures forall p :: p in Runners(s, n, tasks) <==> p in tasks && Runner(s, n, p)
  {
    if tasks != [] {
      RunnersAre(s, n, tasks[..|tasks| - 1]);
      assert tasks == tasks[..|tasks| - 1] + [tasks[|tasks| - 1]];
    }
  }

  lemma RunnersStep(s: Sys, n: nat, tasks: seq<Pid>, x: Pid)
    ensures Runners(s, n, tasks + [x]) == Runners(s, n, tasks) + if Runner(s, n, x) then [x] else []
  {
    assert (tasks + [x])[..|tasks|] == tasks;
  }

  lemma FirstListedIs(s: Sys, n: nat, prio: seq<Pid>, tasks: seq<Pid>, j: nat)
    requires j < |prio| && Runner(s, n, prio[j]) && prio[j] in tasks
    requires forall i :: 0 <= i < j ==> !(Runner(s, n, prio[i]) && prio[i] in tasks)
    ensures FirstListed(s, n, prio, tasks) == Some(j)
  {
  }

  lemma AppendedNew(list: seq<Pid>, x: Pid)
    requires x !in list
    ensures Appended(list, x) == list + [x]
  {
  }

  lemma AppendedOld(list: seq<Pid>, x: Pid, j: nat)
    requires j < |list| && list[j] == x && forall i :: 0 <= i < j ==> list[i] != x
    ensures Appended(list, x) == list[..j + 1]
  {
    FirstPosition(list, x, j);
  }

  lemma PositionOfMore(tasks: seq<Pid>, x: Pid, y: Pid)
    requires y in tasks
    ensures Position(tasks + [x], y) == Position(tasks, y)
    ensures (tasks + [x])[Position(tasks, y) + 1..] == tasks[Position(tasks, y) + 1..] + [x]
  {
    var k := Position(tasks, y);
    FirstPosition(tasks + [x], y, k);
  }

  lemma {:induction false} FirstPosition(s: seq<Pid>, y: Pid, k: nat)
    requires k < |s| && s[k] == y && forall i :: 0 <= i < k ==> s[i] != y
    ensures y in s && Position(s, y) == k
  {
    if k > 0 {
      FirstPosition(s[1..], y, k - 1);
    }
  }

  /** A task that is not on the list yet. */
  lemma NewStep(s: Sys, n: nat, prio: seq<Pid>, tasks: seq<Pid>, x: Pid)
    requires Distinct(prio) && Distinct(tasks) && x !in tasks && Runner(s, n, x)
    requires FirstListed(s, n, prio, tasks + [x]) == FirstListed(s, n, prio, tasks)
    requires FirstListed(s, n, prio, tasks).Some? ==> prio[FirstListed(s, n, prio, tasks).value] != x
    ensures ListAfter(s, n, prio, tasks + [x]) == Appended(ListAfter(s, n, prio, tasks), x)
  {
    var first := FirstListed(s, n, prio, tasks);
    var head, from := Head(first, prio), From(first, prio, tasks);
    var tail := Runners(s, n, tasks[from..]);
    hide FirstListed, Runner, Appended, Position, Head, From, Runners, Distinct;
    FromStep(first, prio, tasks, x);
    HeadWithout(s, n, prio, tasks, x, first);
    RunnersStep(s, n, tasks[from..], x);
    RunnersAre(s, n, tasks[from..]);
    assert x !in tasks[from..];
    assert ListAfter(s, n, prio, tasks) == head + tail;
    assert ListAfter(s, n, prio, tasks + [x]) == head + (tail + [x]);
    hide *;
    AppendedNew(head + tail, x);
    assert head + (tail + [x]) == head + tail + [x];
  }

  lemma FromStep(first: Option<nat>, prio: seq<Pid>, tasks: seq<Pid>, x: Pid)
    requires first.Some? ==> first.value < |prio| && prio[first.value] in tasks
    ensures From(first, prio, tasks + [x]) == From(first, prio, tasks)
    ensures (tasks + [x])[From(first, prio, tasks)..] == tasks[From(first, prio, tasks)..] + [x]
  {
    if first.Some? {
      PositionOfMore(tasks, x, prio[first.value]);
    }
  }

  lemma HeadWithout(s: Sys, n: nat, prio: seq<Pid>, tasks: seq<Pid>, x: Pid, first: Option<nat>)
    requires Runner(s, n, x) && first == FirstListed(s, n, prio, tasks) == FirstListed(s, n, prio, tasks + [x])
    requires first.Some? ==> prio[first.value] != x
    ensures x !in Head(first, prio)
  {
    assert (tasks + [x])[|tasks|] == x;
    hide Runner, FirstListed;
    forall i | 0 <= i < |prio| && (first.Some? ==> i < first.value) ensures prio[i] != x {
      NotBefore(s, n, prio, tasks + [x], x, i);
    }
    hide *;
    NotInHead(first, prio, x);
  }

  lemma NotInHead(first: Option<nat>, prio: seq<Pid>, x: Pid)
    requires first.Some? ==> first.value < |prio| && prio[first.value] != x
    requires forall i :: 0 <= i < |prio| && (first.Some? ==> i < first.value) ==> prio[i] != x
    ensures x !in Head(first, prio)
  {
  }

  lemma NotBefore(s: Sys, n: nat, prio: seq<Pid>, tasks: seq<Pid>, x: Pid, i: nat)
    requires i < |prio| && (FirstListed(s, n, prio, tasks).Some? ==> i < FirstListed(s, n, prio, tasks).value)
    requires x in tasks && Runner(s, n, x)
    ensures prio[i] != x
  {
    hide Runner, FirstListed;
  }

  /** The listed ones so far stand behind place j. */
  lemma LaterListed(s: Sys, n: nat, prio: seq<Pid>, tasks: seq<Pid>, x: Pid, j: nat)
    requires x !in tasks && j < |prio| && prio[j] == x && FirstListed(s, n, prio, tasks + [x]) == Some(j)
    ensures j < |Head(FirstListed(s, n, prio, tasks), prio)|
    ensures forall i :: 0 <= i <= j ==> Head(FirstListed(s, n, prio, tasks), prio)[i] == prio[i]
  {
    hide FirstListed, Runner;
    var first := FirstListed(s, n, prio, tasks);
    if first.Some? {
      assert prio[first.value] in tasks + [x];
    }
  }

  /** A listed task that stands in front of all listed ones so far. */
  lemma OldStep(s: Sys, n: nat, prio: seq<Pid>, tasks: seq<Pid>, x: Pid, j: nat)
    requires Distinct(prio) && x !in tasks && Runner(s, n, x)
    requires j < |prio| && prio[j] == x && FirstListed(s, n, prio, tasks + [x]) == Some(j)
    ensures ListAfter(s, n, prio, tasks + [x]) == Appended(ListAfter(s, n, prio, tasks), x)
  {
    hide *;
    var list := ListAfter(s, n, prio, tasks);
    FirstPosition(tasks + [x], x, |tasks|);
    NoRunners(s, n);
    LastCut(s, n, prio, tasks + [x], x, j);
    LaterListed(s, n, prio, tasks, x, j);
    StartsWithHead(s, n, prio, tasks);
    DistinctBefore(prio, j);
    assert list[..j + 1] == prio[..j + 1];
    AppendedOld(list, x, j);
  }

  lemma StartsWithHead(s: Sys, n: nat, prio: seq<Pid>, tasks: seq<Pid>)
    ensures |Head(FirstListed(s, n, prio, tasks), prio)| <= |ListAfter(s, n, prio, tasks)|
    ensures forall i :: 0 <= i < |Head(FirstListed(s, n, prio, tasks), prio)| ==>
              ListAfter(s, n, prio, tasks)[i] == Head(FirstListed(s, n, prio, tasks), prio)[i]
  {
    hide FirstListed, Head, Runners, Position;
  }

  lemma DistinctBefore(prio: seq<Pid>, j: nat)
    requires Distinct(prio) && j < |prio|
    ensures forall i :: 0 <= i < j ==> prio[i] != prio[j]
  {
  }

  /** If the last task visited is the first on the list, the list ends behind it. */
  lemma LastCut(s: Sys, n: nat, prio: seq<Pid>, tasks: seq<Pid>, x: Pid, j: nat)
    requires x in tasks && Position(tasks, x) + 1 == |tasks| && Runners(s, n, []) == []
    requires j < |prio| && prio[j] == x && FirstListed(s, n, prio, tasks) == Some(j)
    ensures ListAfter(s, n, prio, tasks) == prio[..j + 1]
  {
    hide FirstListed, Runners, Position;
    assert tasks[|tasks|..] == [];
    assert prio[..j + 1] + [] == prio[..j + 1];
  }

  lemma NoRunners(s: Sys, n: nat)
    ensures Runners(s, n, []) == []
  {
  }

  /** One more task visited. */
  lemma ListStep(s: Sys, n: nat, prio: seq<Pid>, tasks: seq<Pid>, x: Pid)
    requires Distinct(prio) && Distinct(tasks) && x !in tasks
    ensures ListAfter(s, n, prio, tasks + [x]) ==
            if Runner(s, n, x) then Appended(ListAfter(s, n, prio, tasks), x) else ListAfter(s, n, prio, tasks)
  {
    var first, next := FirstListed(s, n, prio, tasks), FirstListed(s, n, prio, tasks + [x]);
    hide ListAfter, FirstListed, Runner;
    if next.Some? && prio[next.value] == x {
      OldStep(s, n, prio, tasks, x, next.value);
    } else {
      if next.Some? {
        FirstListedIs(s, n, prio, tasks, next.value);
      }
      assert first == next;
      if Runner(s, n, x) {
        NewStep(s, n, prio, tasks, x);
      } else {
        IdleStep(s, n, prio, tasks, x);
      }
    }
  }

  lemma IdleStep(s: Sys, n: nat, prio: seq<Pid>, tasks: seq<Pid>, x: Pid)
    requires !Runner(s, n, x) && FirstListed(s, n, prio, tasks + [x]) == FirstListed(s, n, prio, tasks)
    ensures ListAfter(s, n, prio, tasks + [x]) == ListAfter(s, n, prio, tasks)
  {
    var first := FirstListed(s, n, prio, tasks);
    FromStep(first, prio, tasks, x);
    RunnersStep(s, n, tasks[From(first, prio, tasks)..], x);
  }

  // ----- the interrupt -----

  /** The walk changes a task only when it visits it. */
  lemma {:induction false} NotVisitedYet(s: Sys, n: nat, k: nat, p: Pid)
    requires k <= |s.ring| && p !in s.ring[..k]
    ensures IrqScanned(s, n, k).At(p) == s.At(p)
  {
    if k > 0 {
      assert s.ring[..k] == s.ring[..k - 1] + [s.ring[k - 1]];
      NotVisitedYet(s, n, k - 1, p);
    }
  }

  lemma VisitedList(s: Sys, s1: Sys, n: nat, x: Pid)
    requires s1.At(x) == s.At(x)
    ensures IrqVisited(s1, x, n).prio == if Runner(s, n, x) then Appended(s1.prio, x) else s1.prio
  {
  }

  lemma {:induction false} ScannedList(s: Sys, n: nat, k: nat)
    requires Distinct(s.ring) && Distinct(s.prio) && k <= |s.ring|
    ensures IrqScanned(s, n, k).prio == ListAfter(s, n, s.prio, s.ring[..k])
  {
    if k == 0 {
      NothingVisited(s, n);
    } else {
      var x := s.ring[k - 1];
      assert s.ring[..k] == s.ring[..k - 1] + [x];
      assert IrqScanned(s, n, k) == IrqVisited(IrqScanned(s, n, k - 1), x, n);
      hide ListAfter, Appended, IrqScanned, IrqVisited, Runner;
      ScannedList(s, n, k - 1);
      NotVisitedYet(s, n, k - 1, x);
      VisitedList(s, IrqScanned(s, n, k - 1), n, x);
      ListStep(s, n, s.prio, s.ring[..k - 1], x);
    }
  }

  lemma NothingVisited(s: Sys, n: nat)
    ensures ListAfter(s, n, s.prio, s.ring[..0]) == s.prio
  {
    NoRunners(s, n);
  }

  lemma InvLists(s: Sys)
    requires Inv(s)
    ensures Distinct(s.ring) && Distinct(s.prio) && forall p :: p in s.prio ==> p in s.ring
  {
  }

  /** If no listener that can run is on the list yet, an interrupt puts all of them there, in ring order. */
  lemma IrqJoins(s: Sys, n: nat)
    requires Inv(s) && forall i :: 0 <= i < |s.prio| ==> !Runner(s, n, s.prio[i])
    ensures IrqScanned(s, n, |s.ring|).prio == s.prio + Runners(s, n, s.ring)
  {
    hide Inv, Runner, IrqScanned, Runners, Appended;
    InvLists(s);
    ScannedList(s, n, |s.ring|);
    assert s.ring[..|s.ring|] == s.ring && s.ring[0..] == s.ring;
  }

  /**
   Otherwise let r, at place j, be the first of the list that is one: the interrupt ends the list behind r and puts
   there those that stand behind r in the ring.
   */
  lemma IrqCuts(s: Sys, n: nat, j: nat)
    requires Inv(s) && j < |s.prio| && Runner(s, n, s.prio[j])
    requires forall i :: 0 <= i < j ==> !Runner(s, n, s.prio[i])
    ensures s.prio[j] in s.ring
    ensures IrqScanned(s, n, |s.ring|).prio ==
            s.prio[..j + 1] + Runners(s, n, s.ring[Position(s.ring, s.prio[j]) + 1..])
  {
    hide Inv, Runner, IrqScanned, Runners, Appended, Position;
    InvLists(s);
    assert s.prio[j] in s.prio;
    ScannedList(s, n, |s.ring|);
    assert s.ring[..|s.ring|] == s.ring;
    FirstListedIs(s, n, s.prio, s.ring, j);
  }

  /**
   So of the listeners that can run those in front of r in the ring are left out, and of the other tasks those that
   did not stand in front of r on the list.
   */
  lemma IrqLeavesOut(s: Sys, n: nat, j: nat, p: Pid)
    requires Inv(s) && j < |s.prio| && Runner(s, n, s.prio[j]) && p in s.ring
    requires forall i :: 0 <= i < j ==> !Runner(s, n, s.prio[i])
    ensures s.prio[j] in s.ring
    ensures p !in IrqScanned(s, n, |s.ring|).prio <==>
            if Runner(s, n, p) then Position(s.ring, p) < Position(s.ring, s.prio[j]) else p !in s.prio[..j]
  {
    hide Inv, Runner, IrqScanned, Runners, Appended, Position;
    InvLists(s);
    IrqCuts(s, n, j);
    var k := Position(s.ring, s.prio[j]);
    RunnersAre(s, n, s.ring[k + 1..]);
    BehindPlace(s.ring, k, p);
    assert s.prio[..j + 1] == s.prio[..j] + [s.prio[j]];
    InFront(s, n, j, p);
  }

  /** A listener that can run does not stand in front of r on the list. */
  lemma InFront(s: Sys, n: nat, j: nat, p: Pid)
    requires j < |s.prio| && forall i :: 0 <= i < j ==> !Runner(s, n, s.prio[i])
    ensures Runner(s, n, p) ==> p !in s.prio[..j]
  {
    hide Runner;
  }

  lemma BehindPlace(ring: seq<Pid>, k: nat, p: Pid)
    requires Distinct(ring) && k < |ring| && p in ring
    ensures p in ring[k + 1..] <==> Position(ring, p) > k
    ensures p == ring[k] <==> Position(ring, p) == k
  {
    var i := Position(ring, p);
    PositionIs(ring, k);
    if i > k {
      assert ring[k + 1..][i - k - 1] == p;
    }
  }

  // ----- a run that leaves a listener out -----

  /** Two listeners and the idle task. */
  function Listeners(first: nat, second: nat, hits: nat, prio: seq<Pid>, current: Pid): Sys {
    Sys([0, 1, 2], prio, current,
        map[0 := FRESH.(irqListen := first, hits := hits), 1 := FRESH, 2 := FRESH.(irqListen := second, hits := hits)],
        Timers.Queue([], 0), 1, 0, 1, {})
  }

  function Crowding(): seq<Event> {
    [ListenToIrq(5), Tick, Tick, ListenToIrq(5), Irq(5)]
  }

  /**
   From boot, task 0 is entered by an interrupt that hit task 2 as well. The next one cuts the list behind task 2 and
   enters that: task 0, which was interrupted and has two hits pending, is not on the list.
   */
  lemma ListenerDropped()
    ensures AllowedRun(Boot([0, 1, 2], 1), Crowding())
    ensures Run(Boot([0, 1, 2], 1), Crowding()) == Ran(Listeners(5, 5, 1, [2], 0))
    ensures Inv(Listeners(5, 5, 1, [2], 0)) && Runner(Listeners(5, 5, 1, [2], 0), 5, 0)
    ensures Step(Listeners(5, 5, 1, [2], 0), Irq(5)) == Ran(Listeners(5, 5, 2, [], 2))
  {
    hide *;
    var s0, s1 := Boot([0, 1, 2], 1), Listeners(5, 0, 0, [], 0);
    var s2, s3 := Listeners(5, 0, 0, [], 1), Listeners(5, 0, 0, [], 2);
    var s4, s5 := Listeners(5, 5, 0, [], 2), Listeners(5, 5, 1, [2], 0);
    FirstListens();
    CrowdingTicks();
    SecondListens();
    FirstIrq();
    SecondIrq();
    CrowdingAllowed();
    RunsNowhere(s5);
    RunsTo(s4, Irq(5), []);
    RunsTo(s3, ListenToIrq(5), [Irq(5)] + []);
    RunsTo(s2, Tick, [ListenToIrq(5)] + ([Irq(5)] + []));
    RunsTo(s1, Tick, [Tick] + ([ListenToIrq(5)] + ([Irq(5)] + [])));
    RunsTo(s0, ListenToIrq(5), [Tick] + ([Tick] + ([ListenToIrq(5)] + ([Irq(5)] + []))));
    RunOk(s0, Crowding());
  }

  lemma RunsNowhere(s: Sys)
    ensures Run(s, []) == Ran(s) && AllowedRun(s, [])
  {
  }

  lemma CrowdingAllowed()
    ensures Allowed(Boot([0, 1, 2], 1), ListenToIrq(5)) && Allowed(Listeners(5, 0, 0, [], 0), Tick)
    ensures Allowed(Listeners(5, 0, 0, [], 1), Tick) && Allowed(Listeners(5, 0, 0, [], 2), ListenToIrq(5))
    ensures Allowed(Listeners(5, 5, 0, [], 2), Irq(5))
    ensures Runner(Listeners(5, 5, 1, [2], 0), 5, 0) && Inv(Boot([0, 1, 2], 1))
    ensures Crowding() == [ListenToIrq(5)] + ([Tick] + ([Tick] + ([ListenToIrq(5)] + ([Irq(5)] + []))))
  {
    BootOk([0, 1, 2], 1);
  }

  lemma FirstListens()
    ensures Step(Boot([0, 1, 2], 1), ListenToIrq(5)) == Ran(Listeners(5, 0, 0, [], 0))
  {
    var s := Listening(Boot([0, 1, 2], 1), 5).s;
    assert s.procs == Listeners(5, 0, 0, [], 0).procs;
  }

  lemma SecondListens()
    ensures Step(Listeners(5, 0, 0, [], 2), ListenToIrq(5)) == Ran(Listeners(5, 5, 0, [], 2))
  {
    var s := Listening(Listeners(5, 0, 0, [], 2), 5).s;
    assert s.procs == Listeners(5, 5, 0, [], 2).procs;
  }

  lemma CrowdingTicks()
    ensures Step(Listeners(5, 0, 0, [], 0), Tick) == Ran(Listeners(5, 0, 0, [], 1))
    ensures Step(Listeners(5, 0, 0, [], 1), Tick) == Ran(Listeners(5, 0, 0, [], 2))
  {
    PlainTick(Listeners(5, 0, 0, [], 0), 1);
    PlainTick(Listeners(5, 0, 0, [], 1), 2);
  }

  /** A tick with nothing queued enters the next task of the ring. */
  lemma PlainTick(s: Sys, p: Pid)
    requires s.timer.events == [] && s.prio == [] && s.current in s.ring && !s.At(p).waiting && s.At(p).call.None?
    requires Position(s.ring, s.current) + 1 < |s.ring| && s.ring[Position(s.ring, s.current) + 1] == p
    ensures Step(s, Tick) == Ran(s.(current := p))
  {
    assert TimerTicked(s) == s;
    assert After(s.ring, s.current)[0] == p;
    assert FirstRunnable(s, After(s.ring, s.current)) == Some(p);
  }

  /** Both listeners are hit by an interrupt, and neither waits. */
  lemma BothHit(s: Sys, hits: nat, prio: seq<Pid>, current: Pid)
    requires s == Listeners(5, 5, hits, prio, current)
    ensures IrqScanned(s, 5, 3) == Listeners(5, 5, hits + 1, Appended(Appended(prio, 0), 2), current)
  {
    hide Appended;
    var s1 := IrqScanned(s, 5, 1);
    assert IrqScanned(s, 5, 0) == s;
    assert s1.prio == Appended(prio, 0);
    assert IrqScanned(s, 5, 2) == s1;
    assert IrqScanned(s, 5, 3) == IrqVisited(s1, 2, 5);
    assert IrqVisited(s1, 2, 5).procs == Listeners(5, 5, hits + 1, [], current).procs;
  }

  lemma EntersFirst(s: Sys, n: nat, t: Sys, p: Pid, rest: seq<Pid>)
    requires IrqScanned(s, n, |s.ring|) == t && t.prio == [p] + rest && !t.At(p).waiting && t.At(p).call.None?
    ensures Interrupted(s, n) == Ran(t.(prio := rest, current := p))
  {
    hide IrqScanned;
    var u := t.(prio := rest);
    assert t.prio[0] == p && t.prio[1..] == rest;
    assert u.At(p) == t.At(p);
    assert Popped(t) == u && Switch(u, p) == Ran(u.(current := p));
    hide Switch, Popped;
  }

  lemma IrqRuns(s: Sys, n: nat)
    ensures Step(s, Irq(n)) == Interrupted(s, n)
  {
  }

  lemma FirstIrq()
    ensures Step(Listeners(5, 5, 0, [], 2), Irq(5)) == Ran(Listeners(5, 5, 1, [2], 0))
  {
    var s := Listeners(5, 5, 0, [], 2);
    IrqRuns(s, 5);
    hide Step, Interrupted, IrqScanned, Appended;
    BothHit(s, 0, [], 2);
    AppendedNew([], 0);
    AppendedNew([0], 2);
    EntersFirst(s, 5, Listeners(5, 5, 1, [0, 2], 2), 0, [2]);
  }

  lemma SecondIrq()
    ensures Step(Listeners(5, 5, 1, [2], 0), Irq(5)) == Ran(Listeners(5, 5, 2, [], 2))
  {
    var s := Listeners(5, 5, 1, [2], 0);
    IrqRuns(s, 5);
    hide Step, Interrupted, IrqScanned, Appended;
    BothHit(s, 1, [2], 0);
    AppendedNew([2], 0);
    AppendedOld([2, 0], 2, 0);
    EntersFirst(s, 5, Listeners(5, 5, 2, [2], 0), 2, []);
  }
}
