/**
 Fairness: in every run a task that can run gets its turn, counted in the times that some task leaves the
 processor and the interrupts that come between, and a message its reader.
 */
module Turns {
  import opened Base
  import Timers
  import opened Machine
  import opened Safety
  import opened Runs
  import opened Interrupts

  /** A tick keeps the ring, takes the head of the priority list, and only wakes. */
  lemma TickFrame(s: Sys)
    requires Inv(s)
    ensures Ticked(s).Ran? && Inv(Ticked(s).s)
    ensures var s' := Ticked(s).s;
            && s'.ring == s.ring
            && Next(TimerTicked(s)) == Some(s'.current)
            && (s.prio != [] ==> s'.current == s.prio[0] && s'.prio == s.prio[1..])
            && (s.prio == [] ==> s'.prio == [])
            && forall p :: p in s.ring && !s.At(p).waiting ==> !s'.At(p).waiting
  {
    TickOk(s);
    TimerTickedOk(s);
    NextOk(TimerTicked(s));
    var t := TimerTicked(s);
    var p := Next(t).value;
    TimerTickedFrame(s);
    hide Inv, TimerTicked, Core;
    TickedIs(s, p);
    NextFrame(t);
    forall q | q in s.ring && !s.At(q).waiting ensures !Ticked(s).s.At(q).waiting {
      SwitchFrame(Popped(t), p, q);
    }
    SwitchFrame(Popped(t), p, p);
  }

  /** The timer's part of a tick changes only the timer and one waiting flag. */
  lemma TimerTickedFrame(s: Sys)
    ensures TimerTicked(s).ring == s.ring && TimerTicked(s).prio == s.prio && TimerTicked(s).current == s.current
    ensures forall q :: !s.At(q).waiting ==> !TimerTicked(s).At(q).waiting
  {
  }

  lemma TickedIs(s: Sys, p: Pid)
    requires Next(TimerTicked(s)) == Some(p)
    ensures Ticked(s) == Switch(Popped(TimerTicked(s)), p)
  {
  }

  /** The head of the priority list comes next. */
  lemma NextFrame(s: Sys)
    ensures s.prio != [] ==> Next(s) == Some(s.prio[0]) && Popped(s).prio == s.prio[1..]
    ensures s.prio == [] ==> Popped(s).prio == []
    ensures Popped(s).ring == s.ring && forall q :: Popped(s).At(q) == s.At(q)
  {
  }

  // ----- the rotation -----

  /** The search takes the first runnable task behind the current one, cyclically; idle or not, p is runnable. */
  lemma SearchRotates(s: Sys, p: Pid)
    requires Distinct(s.ring) && s.current in s.ring && s.prio == [] && p in s.ring && !s.At(p).waiting
    ensures Next(s).Some?
    ensures exists k :: 0 <= k < |s.ring| && After(s.ring, s.current)[k] == Next(s).value
                     && p in After(s.ring, s.current) && k <= Position(After(s.ring, s.current), p)
                     && !s.At(Next(s).value).waiting
                     && forall j :: 0 <= j < k ==> s.At(After(s.ring, s.current)[j]).waiting
  {
    AfterMembers(s.ring, s.current);
    FirstRunnableFinds(s, After(s.ring, s.current), Position(After(s.ring, s.current), p));
  }

  /** With no priorities the next task is the first runnable one after the current, cyclically. */
  lemma RoundRobin(s: Sys)
    requires Inv(s) && s.prio == []
    ensures Next(s).Some?
    ensures exists k :: 0 <= k < |s.ring| && After(s.ring, s.current)[k] == Next(s).value
                     && !s.At(Next(s).value).waiting
                     && forall j :: 0 <= j < k ==> s.At(After(s.ring, s.current)[j]).waiting
  {
    SearchRotates(s, s.idle);
  }

  /** Where p stands in the rotation, by where p and the current task stand in the ring. */
  lemma PositionAfter(ring: seq<Pid>, c: Pid, p: Pid)
    requires Distinct(ring) && c in ring && p in ring
    ensures p in After(ring, c)
    ensures Position(After(ring, c), p) + 1 ==
            if Position(ring, p) > Position(ring, c) then Position(ring, p) - Position(ring, c)
            else |ring| - Position(ring, c) + Position(ring, p)
  {
    var i, j, n := Position(ring, c), Position(ring, p), |ring|;
    var at := if j > i then j - i - 1 else n - i + j - 1;
    AfterAt(ring, c, at);
    AfterDistinct(ring, c);
    assert ring[j] == p;
    hide After, Position;
    PositionIs(After(ring, c), at);
  }

  /** Where p stands when another task has left the ring. */
  lemma PositionWithout(ring: seq<Pid>, c: Pid, p: Pid)
    requires Distinct(ring) && p in ring && c in ring && p != c
    ensures |Without(ring, c)| == |ring| - 1 && p in Without(ring, c)
    ensures Position(Without(ring, c), p) == Position(ring, p) - if Position(ring, c) < Position(ring, p) then 1 else 0
  {
    var k, j := Position(ring, p), Position(ring, c);
    WithoutFacts(ring, c);
    assert ring[k] == p && ring[j] == c;
    hide Position;
    PositionIs(Without(ring, c), if j < k then k - 1 else k);
  }

  /** Seen from a task on the way, p is nearer. */
  lemma Nearer(ring: seq<Pid>, c: Pid, n: Pid, p: Pid)
    requires Distinct(ring) && c in ring && n in ring && p in ring && n in After(ring, c) && p in After(ring, c)
    requires Position(After(ring, c), n) <= Position(After(ring, c), p)
    ensures n != p ==> p in After(ring, n) && Position(After(ring, n), p) < Position(After(ring, c), p)
  {
    hide After;
    PositionAfter(ring, c, n);
    PositionAfter(ring, c, p);
    PositionAfter(ring, n, p);
    assert ring[Position(ring, n)] == n && ring[Position(ring, p)] == p && ring[Position(ring, c)] == c;
  }

  // ----- how long a turn can take -----

  /** How many times the processor can still change hands before p gets it. */
  ghost function Delay(ring: seq<Pid>, prio: seq<Pid>, current: Pid, p: Pid): nat {
    if prio != [] then |prio| + |ring|
    else if p in After(ring, current) then Position(After(ring, current), p) + 1
    else 0
  }

  ghost function DelayOf(s: Sys, p: Pid): nat {
    Delay(s.ring, s.prio, s.current, p)
  }

  lemma DelayBound(ring: seq<Pid>, prio: seq<Pid>, current: Pid, p: Pid)
    requires current in ring && p in ring
    ensures 1 <= Delay(ring, prio, current, p) <= |prio| + |ring|
  {
    AfterMembers(ring, current);
  }

  /** A task that leaves the ring, or one that joins it in front, changes the delay of p little. */
  lemma RingChanges(ring: seq<Pid>, prio: seq<Pid>, n: Pid, c: Pid, p: Pid)
    requires Distinct(ring) && n in ring && p in ring
    ensures c in ring && c != n && c != p ==> Delay(Without(ring, c), prio, n, p) <= Delay(ring, prio, n, p)
    ensures c !in ring ==> Delay([c] + ring, prio, n, p) <= Delay(ring, prio, n, p) + 1
  {
    if c !in ring {
      RingGains(ring, n, c, p);
    } else if c != n && c != p {
      RingLoses(ring, n, c, p);
    }
  }

  lemma RingLoses(ring: seq<Pid>, n: Pid, c: Pid, p: Pid)
    requires Distinct(ring) && n in ring && p in ring && c in ring && c != n && c != p
    ensures |Without(ring, c)| < |ring| && p in After(ring, n) && p in After(Without(ring, c), n)
    ensures Position(After(Without(ring, c), n), p) <= Position(After(ring, n), p)
  {
    hide Without, After;
    PositionAfter(ring, n, p);
    WithoutFacts(ring, c);
    PositionWithout(ring, c, n);
    PositionWithout(ring, c, p);
    PositionAfter(Without(ring, c), n, p);
    hide Distinct;
    assert ring[Position(ring, p)] == p && ring[Position(ring, c)] == c && ring[Position(ring, n)] == n;
  }

  lemma RingGains(ring: seq<Pid>, n: Pid, c: Pid, p: Pid)
    requires Distinct(ring) && n in ring && p in ring && c !in ring
    ensures p in After(ring, n) && p in After([c] + ring, n)
    ensures Position(After([c] + ring, n), p) <= Position(After(ring, n), p) + 1
  {
    hide After;
    assert ([c] + ring)[1..] == ring;
    PositionAfter(ring, n, p);
    PositionAfter([c] + ring, n, p);
  }

  /** The choice of a next task is that of p or brings p nearer. */
  lemma ChoiceNears(s: Sys, p: Pid)
    requires Distinct(s.ring) && s.current in s.ring && p in s.ring && !s.At(p).waiting
    requires forall q :: q in s.prio ==> q in s.ring
    ensures Next(s).Some? && Next(s).value in s.ring
    ensures Next(s).value == p || Delay(s.ring, Popped(s).prio, Next(s).value, p) < DelayOf(s, p)
  {
    if s.prio != [] {
      assert s.prio[0] in s.ring;
      DelayBound(s.ring, Popped(s).prio, s.prio[0], p);
    } else {
      var order := After(s.ring, s.current);
      SearchRotates(s, p);
      AfterMembers(s.ring, s.current);
      var k :| 0 <= k < |s.ring| && order[k] == Next(s).value && k <= Position(order, p);
      assert order[Position(order, p)] == p;
      AfterDistinct(s.ring, s.current);
      hide After, Position, Next;
      PositionIs(order, k);
      if Next(s).value != p {
        Nearer(s.ring, s.current, Next(s).value, p);
      }
    }
  }

  /** The processor changes hands: another task is chosen and entered. */
  predicate Leaves(s: Sys, e: Event) {
    match e
    case Tick => true
    case Defer => true
    case Sleep(_) => true
    case Exit => true
    case Fault => true
    case WaitForIrq => Blocks(s, s.current, IrqWait)
    case Probe(r, block) => block && Blocks(s, s.current, ProbeQueue(r))
    case WaitFor(q) => Blocks(s, s.current, WaitProcess(q))
    case _ => false
  }

  lemma SwitchRing(s: Sys, p: Pid)
    requires Switch(s, p).Ran?
    ensures Switch(s, p).s.ring == s.ring && Switch(s, p).s.prio == s.prio && Switch(s, p).s.current == p
  {
  }

  /** A switch from t, which has the ring, the list and the current task of s. */
  lemma SwitchNears(s: Sys, t: Sys, p: Pid)
    requires InRing(s, p) && t.ring == s.ring && t.prio == s.prio && t.current == s.current && !t.At(p).waiting
    requires Next(t).Some? && Switch(Popped(t), Next(t).value).Ran?
    ensures var s' := Switch(Popped(t), Next(t).value).s;
            s'.ring == s.ring && (s'.current == p || DelayOf(s', p) < DelayOf(s, p))
  {
    ChoiceNears(t, p);
    NextFrame(t);
    SwitchRing(Popped(t), Next(t).value);
  }

  /** What the rotation needs of the invariant. */
  ghost predicate InRing(s: Sys, p: Pid) {
    && Distinct(s.ring) && s.current in s.ring && p in s.ring && p != s.current && !s.At(p).waiting
    && forall q :: q in s.prio ==> q in s.ring
  }

  lemma InvInRing(s: Sys, p: Pid)
    requires Inv(s) && p in s.ring && p != s.current && !s.At(p).waiting
    ensures InRing(s, p)
  {
  }

  lemma YieldNears(s: Sys, t: Sys, p: Pid)
    requires InRing(s, p) && t.ring == s.ring && t.prio == s.prio && t.current == s.current && !t.At(p).waiting
    requires Yield(t).Ran?
    ensures Yield(t).s.ring == s.ring && (Yield(t).s.current == p || DelayOf(Yield(t).s, p) < DelayOf(s, p))
  {
    hide InRing, DelayOf, Switch, Popped;
    ChoiceIs(s, t, p);
    SwitchNears(s, t, p);
  }

  lemma ChoiceIs(s: Sys, t: Sys, p: Pid)
    requires InRing(s, p) && t.ring == s.ring && t.prio == s.prio && t.current == s.current && !t.At(p).waiting
    ensures Next(t).Some?
  {
    ChoiceNears(t, p);
  }

  /** The current task ends: it leaves the ring, and the processor changes hands. */
  lemma EndNears(s: Sys, p: Pid)
    requires Inv(s) && s.current != s.idle && InRing(s, p)
    ensures Exited(s).Ran? && Exited(s).s.ring == Without(s.ring, s.current) && p in Exited(s).s.ring
    ensures Exited(s).s.current == p || DelayOf(Exited(s).s, p) < DelayOf(s, p)
  {
    var w := WaitersReleased(s);
    ExitOk(s);
    NextWhenEnding(s);
    WithoutFacts(s.ring, s.current);
    ChoiceNears(w, p);
    NextFrame(w);
    SwitchRing(Unlinked(Popped(w)), Next(w).value);
    hide Inv, Delay, Without;
    RingChanges(s.ring, Popped(w).prio, Next(w).value, s.current, p);
  }

  /** A new task goes to the front of the ring. */
  lemma BeginNears(s: Sys, q: Pid, p: Pid)
    requires InRing(s, p) && q !in s.ring
    ensures Begun(s, q).Ran? && p in Begun(s, q).s.ring && Begun(s, q).s.current == s.current
    ensures DelayOf(Begun(s, q).s, p) <= DelayOf(s, p) + 1
  {
    RingChanges(s.ring, s.prio, s.current, q, p);
  }

  function Count(b: bool): nat {
    if b then 1 else 0
  }

  /** One step: unless it enters p it leaves p able to run, and no farther away than it found it, one nearer if the
      processor changed hands and one farther at most if a task was begun. */
  lemma StepNears(s: Sys, e: Event, p: Pid)
    requires Inv(s) && Allowed(s, e) && !e.Irq? && Step(s, e).Ran?
    requires p in s.ring && p != s.current && !s.At(p).waiting
    ensures p in Step(s, e).s.ring
    ensures Step(s, e).s.current == p ==> Leaves(s, e)
    ensures Step(s, e).s.current != p ==>
              !Step(s, e).s.At(p).waiting
              && DelayOf(Step(s, e).s, p) + Count(Leaves(s, e)) <= DelayOf(s, p) + Count(e.Begin?)
  {
    hide Inv, InRing, Delay, DelayOf, Ticked, Yield, CallOrPark, Slept, Exited, Killed, Begun, Bystood, Blocks, Lookup,
      WithoutId, Performed;
    InvInRing(s, p);
    InvRing(s);
    BystanderOk(s, e, p);
    NotEntered(s.At(p), Step(s, e).s.At(p));
    match e
    case Tick => TickNears(s, p);
    case Defer => YieldNears(s, s.Put(s.current, s.Cur().(eax := 0)), p);
    case WaitForIrq => CallNears(s, IrqWait, p);
    case Probe(r, block) => if block { CallNears(s, ProbeQueue(r), p); } else { StaysNear(s, e, p); }
    case WaitFor(q) => CallNears(s, WaitProcess(q), p);
    case Sleep(us) =>
      assert Slept(s, us) == Yield(Sleeper(s, us)) by { SleptIs(s, us); }
      YieldNears(s, Sleeper(s, us), p);
    case Exit => EndNears(s, p);
    case Fault => EndNears(s, p); ExitOk(s);
    case Begin(q) => BeginNears(s, q, p);
    case _ => StaysNear(s, e, p);
  }

  lemma NotEntered(t: Proc, t': Proc)
    ensures Bystood(t, t', false) && !t.waiting ==> !t'.waiting
  {
  }

  lemma SleptIs(s: Sys, us: nat)
    ensures Slept(s, us) == Yield(Sleeper(s, us))
  {
    hide Yield, Sleeper;
  }

  lemma TickNears(s: Sys, p: Pid)
    requires Inv(s) && InRing(s, p) && Ticked(s).Ran?
    ensures Ticked(s).s.ring == s.ring && (Ticked(s).s.current == p || DelayOf(Ticked(s).s, p) < DelayOf(s, p))
  {
    TimerTickedFrame(s);
    assert !s.At(p).waiting;
    hide Inv, InRing, DelayOf, Ticked, TimerTicked, Switch, Popped;
    TickFrame(s);
    TickedIs(s, Ticked(s).s.current);
    SwitchNears(s, TimerTicked(s), p);
  }

  /** A call that blocks is left for the next task, and one that does not changes only its caller. */
  lemma CallNears(s: Sys, c: Call, p: Pid)
    requires InRing(s, p) && CallOrPark(s, c).Ran?
    ensures CallOrPark(s, c).s.ring == s.ring
    ensures if Blocks(s, s.current, c)
            then CallOrPark(s, c).s.current == p || DelayOf(CallOrPark(s, c).s, p) < DelayOf(s, p)
            else CallOrPark(s, c).s.current == s.current && DelayOf(CallOrPark(s, c).s, p) == DelayOf(s, p)
  {
    assert p != s.current && !s.At(p).waiting;
    hide InRing, Yield, Delay, Blocks, Performed;
    if Blocks(s, s.current, c) {
      hide DelayOf;
      YieldNears(s, Parking(s, c), p);
    }
  }

  /** The calls that change no ring, list or current task. */
  lemma StaysNear(s: Sys, e: Event, p: Pid)
    requires e.ListenToIrq? || e.CheckIrq? || (e.Probe? && !e.block) || e.Shift? || e.Send?
    requires Step(s, e).Ran?
    ensures Step(s, e).s.ring == s.ring && Step(s, e).s.current == s.current && !Leaves(s, e)
    ensures DelayOf(Step(s, e).s, p) == DelayOf(s, p)
  {
    hide Delay, Blocks, Performed, WithoutId, Received;
  }

  /** A list without repetitions is no longer than the ring that its members are in. */
  lemma {:induction false} SubLength(prio: seq<Pid>, ring: seq<Pid>)
    requires Distinct(prio) && Distinct(ring) && forall p :: p in prio ==> p in ring
    ensures |prio| <= |ring|
  {
    if prio != [] {
      var p, rest := prio[|prio| - 1], prio[..|prio| - 1];
      WithoutFacts(ring, p);
      WithoutLength(ring, p);
      hide Without;
      forall q | q in rest ensures q in Without(ring, p) {
        var i :| 0 <= i < |rest| && rest[i] == q;
        assert prio[i] == q;
      }
      SubLength(rest, Without(ring, p));
    }
  }

  lemma WithoutLength(ring: seq<Pid>, p: Pid)
    requires p in ring
    ensures |Without(ring, p)| == |ring| - 1
  {
  }

  /** An interrupt leaves p able to run, and puts it no farther back than twice round the ring. */
  lemma IrqSetsBack(s: Sys, n: nat, p: Pid)
    requires Inv(s) && p in s.ring && p != s.current && !s.At(p).waiting
    ensures Step(s, Irq(n)).Ran? && Step(s, Irq(n)).s.ring == s.ring
    ensures Step(s, Irq(n)).s.current != p ==>
              !Step(s, Irq(n)).s.At(p).waiting && DelayOf(Step(s, Irq(n)).s, p) <= 2 * |s.ring|
  {
    InvRing(s);
    IrqOk(s, n);
    IrqRing(s, n);
    BystanderOk(s, Irq(n), p);
    IrqRuns(s, n);
    hide Inv, DelayOf, Interrupted, Step;
    var t := Interrupted(s, n).s;
    DelayOk(t, p);
    InvLists(t);
    SubLength(t.prio, t.ring);
  }

  lemma IrqRing(s: Sys, n: nat)
    requires Interrupted(s, n).Ran?
    ensures Interrupted(s, n).s.ring == s.ring
  {
    hide IrqScanned;
  }

  /** Only a new task makes the ring longer. */
  lemma RingLength(s: Sys, e: Event)
    requires Inv(s) && Allowed(s, e) && Step(s, e).Ran?
    ensures |Step(s, e).s.ring| <= |s.ring| + Count(e.Begin?)
  {
    hide Inv, Step, Exited, Killed;
    if e.Exit? || e.Fault? {
      EndingRuns(s, e);
      ExitOk(s);
      EndedRing(s);
    } else {
      RingStays(s, e);
    }
  }

  lemma EndedRing(s: Sys)
    requires Inv(s) && s.current != s.idle && Exited(s).Ran?
    ensures |Exited(s).s.ring| <= |s.ring|
  {
    InvRing(s);
    WithoutLength(s.ring, s.current);
    hide Inv, Without, Switch;
    SwitchKeepsRing(Unlinked(Popped(WaitersReleased(s))), Next(WaitersReleased(s)).value);
  }

  lemma SwitchKeepsRing(s: Sys, p: Pid)
    ensures Switch(s, p).Ran? ==> Switch(s, p).s.ring == s.ring
  {
  }

  lemma RingStays(s: Sys, e: Event)
    requires Step(s, e).Ran? && !e.Exit? && !e.Fault?
    ensures Step(s, e).s.ring == if e.Begin? then [e.p] + s.ring else s.ring
  {
    hide Blocks, Performed, FirstRunnable, IrqScanned, Timers.Step, Timers.Fired;
  }

  // ----- over runs -----

  /** How many times the processor changes hands in a run. */
  function Leavings(s: Sys, es: seq<Event>): nat
    decreases |es|
  {
    if es == [] then 0
    else Count(Leaves(s, es[0])) + match Step(s, es[0]) case Ran(s') => Leavings(s', es[1..]) case Panic(_) => 0
  }

  function Begins(es: seq<Event>): nat {
    if es == [] then 0 else Count(es[0].Begin?) + Begins(es[1..])
  }

  function Irqs(es: seq<Event>): nat {
    if es == [] then 0 else Count(es[0].Irq?) + Irqs(es[1..])
  }

  /** How much longer new tasks and interrupts can make a turn take in a ring of that many members. */
  function Detours(members: nat, es: seq<Event>): nat {
    Cost(members, Begins(es), Irqs(es))
  }

  function Cost(members: nat, begins: nat, irqs: nat): nat {
    begins + 2 * (irqs * (members + begins))
  }

  /** Event number k of the run is the first one that enters p. */
  ghost predicate FirstTurn(s: Sys, es: seq<Event>, p: Pid, k: nat) {
    && 1 <= k <= |es|
    && (forall j {:trigger es[..j]} :: 1 <= j <= k ==> Run(s, es[..j]).Ran?)
    && (forall j {:trigger es[..j]} :: 1 <= j <= k ==> (Run(s, es[..j]).s.current == p <==> j == k))
  }

  /** A prefix of a run, seen from its first event. */
  lemma RunPrefix(s: Sys, es: seq<Event>, j: nat)
    requires 1 <= j <= |es| && Step(s, es[0]).Ran?
    ensures Run(s, es[..j]) == Run(Step(s, es[0]).s, es[1..][..j - 1])
  {
    assert es[..j][1..] == es[1..][..j - 1];
  }

  lemma RunOne(s: Sys, es: seq<Event>)
    requires es != [] && Run(s, es[..1]).Ran?
    ensures Step(s, es[0]).Ran? && Run(s, es[..1]) == Step(s, es[0])
  {
    assert es[..1] == [es[0]];
  }

  lemma FirstTurnNow(s: Sys, es: seq<Event>, p: Pid)
    requires es != [] && Step(s, es[0]).Ran? && Step(s, es[0]).s.current == p
    ensures FirstTurn(s, es, p, 1)
  {
    hide Step;
    RunPrefix(s, es, 1);
  }

  lemma FirstTurnLater(s: Sys, es: seq<Event>, p: Pid, k: nat)
    requires es != [] && Step(s, es[0]).Ran? && Step(s, es[0]).s.current != p && k >= 1
    ensures FirstTurn(Step(s, es[0]).s, es[1..], p, k) <==> FirstTurn(s, es, p, k + 1)
  {
    hide Step;
    var s', rest := Step(s, es[0]).s, es[1..];
    RunPrefix(s, es, 1);
    if k < |es| {
      forall j | 1 <= j <= k ensures Run(s, es[..j + 1]) == Run(s', rest[..j]) {
        RunPrefix(s, es, j + 1);
      }
      if FirstTurn(s', rest, p, k) {
        forall j | 1 <= j <= k + 1 ensures Run(s, es[..j]).Ran? && (Run(s, es[..j]).s.current == p <==> j == k + 1) {
          if j > 1 {
            assert Run(s, es[..j]) == Run(s', rest[..j - 1]);
          }
        }
      }
      if FirstTurn(s, es, p, k + 1) {
        forall j | 1 <= j <= k ensures Run(s', rest[..j]).Ran? && (Run(s', rest[..j]).s.current == p <==> j == k) {
          assert Run(s, es[..j + 1]) == Run(s', rest[..j]);
        }
      }
    }
  }

  /** One step's share of the bound: d is the delay, m the members of the ring, b and i the events to come. */
  lemma DetourStep(d: nat, d': nat, m: nat, m': nat, b: nat, b': nat, i: nat, i': nat, leaves: nat)
    requires (d' + leaves + b' <= d + b && m' + b' <= m + b && i == i')
          || (d' <= 2 * m && m' == m && b' == b && i == i' + 1 && leaves == 0)
    ensures d' + Cost(m', b', i') + leaves <= d + Cost(m, b, i)
  {
    if i == i' {
      NoLess(i, m' + b', m + b);
    } else {
      assert i * (m + b) == i' * (m + b) + (m + b);
    }
  }

  lemma NoLess(i: nat, x: nat, y: nat)
    requires x <= y
    ensures i * x <= i * y
  {
    assert i * y - i * x == i * (y - x);
  }

  /**
   In every run a task that can run is entered before the processor has changed hands as often as there are members
   of list and ring and new tasks, and twice as many as are in the ring for each interrupt, whatever the other tasks
   call meanwhile.
   */
  lemma {:induction false} TurnComes(s: Sys, es: seq<Event>, p: Pid)
    requires Inv(s) && AllowedRun(s, es)
    requires p in s.ring && p != s.current && !s.At(p).waiting
    requires Leavings(s, es) >= DelayOf(s, p) + Detours(|s.ring|, es)
    ensures DelayOf(s, p) <= |s.prio| + |s.ring|
    ensures exists k :: FirstTurn(s, es, p, k)
    decreases |es|
  {
    hide Inv, Step, Allowed, FirstTurn, DelayOf, Leaves, Detours;
    DelayOk(s, p);
    NotYet(s, p);
    SomeLeaving(s, es);
    StepOk(s, es[0]);
    SendStays(s, es[0]);
    var s' := Step(s, es[0]).s;
    if s'.current == p {
      FirstTurnNow(s, es, p);
    } else {
      StepDetours(s, es, p);
      TurnComes(s', es[1..], p);
      var k :| FirstTurn(s', es[1..], p, k);
      FirstTurnPositive(s', es[1..], p, k);
      FirstTurnLater(s, es, p, k);
    }
  }

  lemma NotYet(s: Sys, p: Pid)
    requires Inv(s) && p in s.ring
    ensures DelayOf(s, p) >= 1
  {
    InvRing(s);
    DelayBound(s.ring, s.prio, s.current, p);
  }

  lemma SomeLeaving(s: Sys, es: seq<Event>)
    requires Leavings(s, es) > 0
    ensures es != [] && (Step(s, es[0]).Ran? || Leaves(s, es[0]))
    ensures Step(s, es[0]).Ran? ==> Leavings(s, es) == Count(Leaves(s, es[0])) + Leavings(Step(s, es[0]).s, es[1..])
  {
    hide Step, Leaves;
  }

  /** A step that does not enter p uses up of the bound what it adds to the changes of hands. */
  lemma StepDetours(s: Sys, es: seq<Event>, p: Pid)
    requires Inv(s) && es != [] && Allowed(s, es[0]) && Step(s, es[0]).Ran?
    requires p in s.ring && p != s.current && !s.At(p).waiting && Step(s, es[0]).s.current != p
    ensures p in Step(s, es[0]).s.ring && !Step(s, es[0]).s.At(p).waiting
    ensures DelayOf(Step(s, es[0]).s, p) + Detours(|Step(s, es[0]).s.ring|, es[1..]) + Count(Leaves(s, es[0]))
            <= DelayOf(s, p) + Detours(|s.ring|, es)
  {
    var e, rest := es[0], es[1..];
    hide Inv, Step, Allowed, DelayOf, Leaves, Cost, Begins, Irqs;
    var s' := Step(s, e).s;
    CountsStep(es);
    if e.Irq? {
      IrqSetsBack(s, e.n, p);
      IrqStays(s, e);
    } else {
      StepNears(s, e, p);
      RingLength(s, e);
    }
    DetourStep(DelayOf(s, p), DelayOf(s', p), |s.ring|, |s'.ring|, Begins(es), Begins(rest), Irqs(es), Irqs(rest),
               Count(Leaves(s, e)));
  }

  lemma CountsStep(es: seq<Event>)
    requires es != []
    ensures Begins(es) == Count(es[0].Begin?) + Begins(es[1..]) && Irqs(es) == Count(es[0].Irq?) + Irqs(es[1..])
  {
  }

  lemma IrqStays(s: Sys, e: Event)
    ensures e.Irq? ==> !Leaves(s, e)
  {
  }

  lemma FirstTurnPositive(s: Sys, es: seq<Event>, p: Pid, k: nat)
    requires FirstTurn(s, es, p, k)
    ensures 1 <= k <= |es|
  {
  }

  lemma SendStays(s: Sys, e: Event)
    ensures e.Send? ==> !Leaves(s, e)
  {
  }

  function Ticks(n: nat): seq<Event> {
    if n == 0 then [] else [Tick] + Ticks(n - 1)
  }

  /** Ticks alone are such a run from every state, and each of them makes the processor change hands. */
  lemma {:induction false} TicksLeave(s: Sys, n: nat)
    requires Inv(s)
    ensures AllowedRun(s, Ticks(n)) && Irqs(Ticks(n)) == 0
    ensures Leavings(s, Ticks(n)) == n && Begins(Ticks(n)) == 0
    decreases n
  {
    hide Inv, Ticked, Step, Allowed, Leaves, Next, TimerTicked;
    if n > 0 {
      TickFrame(s);
      TickRuns(s);
      hide AllowedRun, Leavings, Begins, Irqs;
      TicksLeave(Ticked(s).s, n - 1);
      TickLeaves(s, Ticked(s).s, Ticks(n - 1));
    }
  }

  lemma TickRuns(s: Sys)
    ensures Step(s, Tick) == Ticked(s)
  {
  }

  lemma TickLeaves(s: Sys, t: Sys, es: seq<Event>)
    requires Step(s, Tick) == Ran(t) && AllowedRun(t, es)
    ensures AllowedRun(s, [Tick] + es) && Irqs([Tick] + es) == Irqs(es)
    ensures Leavings(s, [Tick] + es) == 1 + Leavings(t, es) && Begins([Tick] + es) == Begins(es)
  {
    hide Step;
    assert ([Tick] + es)[1..] == es;
  }

  /** So a task that can run gets its turn within as many ticks as there are members of list and ring. */
  lemma TurnWithinTicks(s: Sys, p: Pid, n: nat)
    requires Inv(s) && p in s.ring && p != s.current && !s.At(p).waiting && n == |s.prio| + |s.ring|
    ensures exists k :: FirstTurn(s, Ticks(n), p, k)
  {
    hide Inv, FirstTurn, Ticks, AllowedRun, Leavings, Begins, Irqs;
    DelayOk(s, p);
    TicksLeave(s, n);
    TurnComes(s, Ticks(n), p);
  }

  // ----- messages -----

  /** In every run, interrupts or not, a task is first entered with everything it has gained, its parked call
      performed once. */
  lemma {:induction false} EnteredWithGains(s: Sys, es: seq<Event>, p: Pid, k: nat)
    requires Inv(s) && AllowedRun(s, es) && p in s.ring && p != s.current && FirstTurn(s, es, p, k)
    ensures Run(s, es[..k]).Ran?
    ensures exists t :: Accrues(s.At(p), t) && Run(s, es[..k]).s.At(p) == Resumed(t)
    decreases |es|
  {
    InvRing(s);
    FirstTurnPositive(s, es, p, k);
    assert Run(s, es[..1]).Ran? && (Run(s, es[..1]).s.current == p <==> 1 == k);
    RunOne(s, es);
    RunPrefix(s, es, 1);
    StepOk(s, es[0]);
    hide Inv, Step, Allowed, FirstTurn, Resumed;
    var s' := Step(s, es[0]).s;
    BystanderOk(s, es[0], p);
    if k > 1 {
      RunPrefix(s, es, k);
      StillInRing(s, es[0], p);
      FirstTurnLater(s, es, p, k - 1);
      EnteredWithGains(s', es[1..], p, k - 1);
      var t :| Accrues(s'.At(p), t) && Run(s', es[1..][..k - 1]).s.At(p) == Resumed(t);
      assert Accrues(s.At(p), t);
    }
  }

  /** Only the current task can leave the ring. */
  lemma StillInRing(s: Sys, e: Event, p: Pid)
    requires Inv(s) && Allowed(s, e) && Step(s, e).Ran? && p in s.ring && p != s.current
    ensures p in Step(s, e).s.ring
  {
    hide Inv, Step, Exited, Killed;
    if e.Exit? || e.Fault? {
      EndingRuns(s, e);
      InvRing(s);
      EndingFrame(s, p);
    } else {
      RingStays(s, e);
    }
  }

  lemma {:induction false} LookupPrefix(queue: seq<Item>, more: seq<Item>, r: nat)
    requires queue <= more && Lookup(queue, r).Some?
    ensures Lookup(more, r) == Lookup(queue, r)
  {
    if !(r == 0 || queue[0].replyTo == r) {
      LookupPrefix(queue[1..], more[1..], r);
    }
  }

  lemma SentIsFound(s: Sys, to: Pid, item: Item)
    requires Inv(s) && to in s.ring && item.replyTo != 0
    requires s.At(to).waiting && s.At(to).call == Some(ProbeQueue(item.replyTo))
    ensures Lookup(s.At(to).queue + [item], item.replyTo) == Some(item)
  {
    assert CallOk(s, to);
    LookupNone(s.At(to).queue, item.replyTo);
    LookupAppend(s.At(to).queue, item, item.replyTo);
  }

  /** A released probe returns, whenever its task is first entered, the item that it found when it was released. */
  lemma ProbeReturns(s: Sys, es: seq<Event>, p: Pid, r: nat, k: nat)
    requires Inv(s) && AllowedRun(s, es) && p in s.ring && p != s.current && FirstTurn(s, es, p, k)
    requires s.At(p).call == Some(ProbeQueue(r)) && Lookup(s.At(p).queue, r).Some?
    ensures Run(s, es[..k]).Ran?
    ensures Run(s, es[..k]).s.At(p).eax == Lookup(s.At(p).queue, r).value.id
    ensures s.At(p).queue <= Run(s, es[..k]).s.At(p).queue
  {
    hide Inv, Run, FirstTurn, AllowedRun;
    FirstTurnPositive(s, es, p, k);
    EnteredWithGains(s, es, p, k);
    var t :| Accrues(s.At(p), t) && Run(s, es[..k]).s.At(p) == Resumed(t);
    LookupPrefix(s.At(p).queue, t.queue, r);
  }

  /**
   A reply reaches the task that is blocked on it. In every run after the send, whenever that task is first entered
   its probe returns the id that the sender was given, with the item still queued behind the older ones; and it is
   entered before the processor has changed hands too often.
   */
  lemma ReplyIsDelivered(s: Sys, to: Pid, r: nat, data: seq<byte>, es: seq<Event>)
    requires Inv(s) && Allowed(s, Send(to, r, data)) && to in s.ring && to != s.current && r != 0
    requires s.At(to).waiting && s.At(to).call == Some(ProbeQueue(r))
    ensures Step(s, Send(to, r, data)).Ran?
    ensures AllowedRun(Step(s, Send(to, r, data)).s, es) ==>
              forall k :: FirstTurn(Step(s, Send(to, r, data)).s, es, to, k) ==>
                Delivered(Step(s, Send(to, r, data)).s, es, to, k,
                          s.At(to).queue + [Item(s.lastMsg + 1, s.current, r, data)])
    ensures AllowedRun(Step(s, Send(to, r, data)).s, es)
            && Leavings(Step(s, Send(to, r, data)).s, es) >= |s.prio| + |s.ring| + Detours(|s.ring|, es) ==>
              exists k :: FirstTurn(Step(s, Send(to, r, data)).s, es, to, k)
  {
    var s1 := Step(s, Send(to, r, data)).s;
    var item := Item(s.lastMsg + 1, s.current, r, data);
    assert Step(s, Send(to, r, data)).Ran? && Inv(s1) by {
      SendOk(s, to, r, data);
    }
    SendWakes(s, to, r, data, r);
    SentIsFound(s, to, item);
    hide Inv, Run, FirstTurn, AllowedRun, Step, Leavings, Detours;
    if AllowedRun(s1, es) {
      forall k | FirstTurn(s1, es, to, k) ensures Delivered(s1, es, to, k, s.At(to).queue + [item]) {
        FirstTurnPositive(s1, es, to, k);
        ProbeReturns(s1, es, to, r, k);
      }
      if Leavings(s1, es) >= |s.prio| + |s.ring| + Detours(|s.ring|, es) {
        DelayOk(s1, to);
        TurnComes(s1, es, to);
      }
    }
  }

  lemma DelayOk(s: Sys, p: Pid)
    requires Inv(s) && p in s.ring
    ensures DelayOf(s, p) <= |s.prio| + |s.ring|
  {
    DelayBound(s.ring, s.prio, s.current, p);
  }

  /** After k events the task's probe has returned the newest item of the queue, which is still there. */
  ghost predicate Delivered(s: Sys, es: seq<Event>, p: Pid, k: nat, queue: seq<Item>)
    requires queue != []
  {
    && k <= |es| && Run(s, es[..k]).Ran?
    && Run(s, es[..k]).s.At(p).eax == queue[|queue| - 1].id
    && queue <= Run(s, es[..k]).s.At(p).queue
  }

  // ----- why interrupts count -----

  /** Task 0 listens for interrupt 5, task 1 is idle, and task 2 can run. */
  function Starving(hits: nat): Sys {
    Sys([0, 1, 2], [], 0, map[0 := FRESH.(irqListen := 5, hits := hits), 1 := FRESH, 2 := FRESH],
        Timers.Queue([], 0), 1, 0, 1, {})
  }

  function Rounds(n: nat): seq<Event> {
    if n == 0 then [] else [Tick, Irq(5)] + Rounds(n - 1)
  }

  /** An interrupt enters its listener whosever turn it is, so interrupts can keep a task waiting without end. */
  lemma {:induction false} InterruptsStarve(hits: nat, n: nat)
    ensures Inv(Starving(hits)) && AllowedRun(Starving(hits), Rounds(n))
    ensures 2 in Starving(hits).ring && Starving(hits).current != 2 && !Starving(hits).At(2).waiting
    ensures Leavings(Starving(hits), Rounds(n)) == n
    ensures forall k :: !FirstTurn(Starving(hits), Rounds(n), 2, k)
    decreases n
  {
    hide *;
    StarvingOk(hits);
    RoundsAre(n);
    if n == 0 {
      NothingRuns(Starving(hits), 2);
    } else {
      StarvingStep(hits);
      InterruptsStarve(hits + 1, n - 1);
      RoundStarves(Starving(hits), Starved(hits), Starving(hits + 1), Rounds(n - 1));
    }
  }

  lemma RoundsAre(n: nat)
    ensures Rounds(n) == if n == 0 then [] else [Tick, Irq(5)] + Rounds(n - 1)
  {
  }

  lemma NothingRuns(s: Sys, p: Pid)
    ensures AllowedRun(s, []) && Leavings(s, []) == 0 && forall k :: !FirstTurn(s, [], p, k)
  {
  }

  /** One round: the current task, the idle one, and the current task again. */
  lemma RoundStarves(s: Sys, m: Sys, t: Sys, es: seq<Event>)
    requires Step(s, Tick) == Ran(m) && Step(m, Irq(5)) == Ran(t) && s.current != s.idle
    requires m.current != 2 && t.current != 2 && AllowedRun(t, es)
    requires forall k :: !FirstTurn(t, es, 2, k)
    ensures AllowedRun(s, [Tick, Irq(5)] + es) && Leavings(s, [Tick, Irq(5)] + es) == 1 + Leavings(t, es)
    ensures forall k :: !FirstTurn(s, [Tick, Irq(5)] + es, 2, k)
  {
    hide Step, FirstTurn;
    var fs, gs := [Irq(5)] + es, [Tick, Irq(5)] + es;
    assert fs[1..] == es && gs[1..] == fs;
    NoTurnBefore(m, fs, 2);
    NoTurnBefore(s, gs, 2);
  }

  /** If the first event does not enter p and p has no turn behind it, p has none. */
  lemma NoTurnBefore(s: Sys, es: seq<Event>, p: Pid)
    requires es != [] && Step(s, es[0]).Ran? && Step(s, es[0]).s.current != p
    requires forall k :: !FirstTurn(Step(s, es[0]).s, es[1..], p, k)
    ensures forall k :: !FirstTurn(s, es, p, k)
  {
    hide Step;
    forall k: nat ensures !FirstTurn(s, es, p, k) {
      if FirstTurn(s, es, p, k) {
        FirstTurnPositive(s, es, p, k);
        RunPrefix(s, es, 1);
        assert k != 1;
        FirstTurnLater(s, es, p, k - 1);
      }
    }
  }

  /** Half a round later the idle task is current. */
  function Starved(hits: nat): Sys {
    Starving(hits).(current := 1)
  }

  /** A state that can be reached: it takes one call from boot. */
  lemma StarvingReached()
    ensures Allowed(Boot([0, 1, 2], 1), ListenToIrq(5))
    ensures Step(Boot([0, 1, 2], 1), ListenToIrq(5)) == Ran(Starving(0))
  {
    assert Listening(Boot([0, 1, 2], 1), 5).s.procs == Starving(0).procs;
  }

  lemma StarvingStep(hits: nat)
    ensures Step(Starving(hits), Tick) == Ran(Starved(hits)) && Step(Starved(hits), Irq(5)) == Ran(Starving(hits + 1))
  {
    StarvingTick(hits);
    StarvingIrq(hits);
  }

  lemma StarvingTick(hits: nat)
    ensures Ticked(Starving(hits)) == Ran(Starved(hits))
  {
    var s := Starving(hits);
    assert TimerTicked(s) == s;
    assert After(s.ring, 0)[0] == 1;
    assert FirstRunnable(s, After(s.ring, 0)) == Some(1);
  }

  lemma StarvingIrq(hits: nat)
    ensures Interrupted(Starved(hits), 5) == Ran(Starving(hits + 1))
  {
    var s := Starved(hits);
    var s1 := IrqScanned(s, 5, 1);
    assert IrqScanned(s, 5, 0) == s;
    assert s1.prio == [0] && s1.procs == Starving(hits + 1).procs;
    assert IrqScanned(s, 5, 2) == s1 && IrqScanned(s, 5, 3) == s1;
    assert Popped(s1).prio == [];
  }

  lemma StarvingOk(hits: nat)
    ensures Inv(Starving(hits)) && Starving(hits).current == 0 && Starving(hits).idle == 1 && Starved(hits).current == 1
    ensures 2 in Starving(hits).ring && !Starving(hits).At(2).waiting
  {
  }
}
