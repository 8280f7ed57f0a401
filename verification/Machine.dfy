/**
 The scheduler and the blocking system calls as a state machine: one value for the whole
 system, and one function for every way into the kernel. Interrupts are off inside the
 kernel, so each entry is one atomic step.
 */
module Machine {
  import opened Base
  import Timers

  type Pid = nat

  /** The call a task is parked in, to be run again when the task is next switched to. */
  datatype Call =
    | IrqWait
    | ProbeQueue(replyTo: nat)
    | WaitProcess(pid: Pid)
    | Nanosleep(wakeId: nat)

  datatype Item = Item(id: nat, from: Pid, replyTo: nat, data: seq<byte>)

  datatype Proc = Proc(
    waiting: bool,
    call: Option<Call>,
    irqListen: nat,
    hits: nat,
    queue: seq<Item>,
    eax: nat)

  const FRESH := Proc(false, None, 0, 0, [], 0)

  /**
   ring: the tasks in link order from `start`. prio: the priority list from `priorityStart`.
   gone: the tasks that have left the ring (no field of the source; it dates the others).
   */
  datatype Sys = Sys(
    ring: seq<Pid>,
    prio: seq<Pid>,
    current: Pid,
    procs: map<Pid, Proc>,
    timer: Timers.Queue<Pid>,
    usPerTick: nat,
    lastMsg: nat,
    idle: Pid,
    gone: set<Pid>)
  {
    function At(p: Pid): Proc {
      if p in procs then procs[p] else FRESH
    }

    function Put(p: Pid, x: Proc): Sys {
      this.(procs := procs[p := x])
    }

    function Cur(): Proc {
      At(current)
    }
  }

  datatype Reason = SwitchToWaiting | Reblocked | NextIsCurrent | NobodyRunnable | NullTask

  datatype Outcome = Ran(s: Sys) | Panic(why: Reason)

  // ----- blocking calls -----

  /** First queued item that answers reply_to; 0 accepts any item. */
  function Lookup(queue: seq<Item>, replyTo: nat): Option<Item> {
    if queue == [] then None
    else if replyTo == 0 || queue[0].replyTo == replyTo then Some(queue[0])
    else Lookup(queue[1..], replyTo)
  }

  /** Would evaluating the call for task p now ask to block? */
  predicate Blocks(s: Sys, p: Pid, c: Call) {
    match c
    case IrqWait => s.At(p).hits == 0
    case ProbeQueue(r) => Lookup(s.At(p).queue, r).None?
    case WaitProcess(q) => q in s.ring
    case Nanosleep(w) => w == 0
  }

  /** The caller after an evaluation that does not block: what it consumes and returns. */
  function Performed(t: Proc, c: Call): Proc {
    match c
    case IrqWait => if t.hits > 0 then t.(hits := t.hits - 1, eax := 1) else t
    case ProbeQueue(r) =>
      (match Lookup(t.queue, r) case Some(item) => t.(eax := item.id) case None => t)
    case WaitProcess(_) => t.(eax := 0)
    case Nanosleep(_) => t.(eax := 0)
  }

  // ----- choosing and entering the next task -----

  /** The ring in the order in which the search visits it: after p first, p itself last. */
  function After(ring: seq<Pid>, p: Pid): seq<Pid> {
    if p in ring then ring[Position(ring, p) + 1..] + ring[..Position(ring, p) + 1] else ring
  }

  function FirstRunnable(s: Sys, order: seq<Pid>): Option<Pid> {
    if order == [] then None
    else if !s.At(order[0]).waiting then Some(order[0])
    else FirstRunnable(s, order[1..])
  }

  /** The task that prepareFetchNextTask returns, and the state it leaves. */
  function Next(s: Sys): Option<Pid> {
    if s.prio != [] then Some(s.prio[0]) else FirstRunnable(s, After(s.ring, s.current))
  }

  function Popped(s: Sys): Sys {
    if s.prio != [] then s.(prio := s.prio[1..]) else s
  }

  /** Entering a task runs its parked call again; that call must not block a second time. */
  function Switch(s: Sys, p: Pid): Outcome {
    var t := s.At(p);
    if t.waiting then Panic(SwitchToWaiting)
    else if t.call.None? then Ran(s.(current := p))
    else if Blocks(s, p, t.call.value) then Panic(Reblocked)
    else Ran(s.Put(p, Performed(t, t.call.value).(call := None)).(current := p))
  }

  /** Leaving a system call for another task. */
  function Yield(s: Sys): Outcome {
    match Next(s)
    case None => Panic(NobodyRunnable)
    case Some(p) => if p == s.current then Panic(NextIsCurrent) else Switch(Popped(s), p)
  }

  // ----- the timer and the other interrupts -----

  /** The timer's part of a tick: the fired event clears its task's flag. */
  function TimerTicked(s: Sys): Sys {
    var s' := s.(timer := Timers.Step(s.timer, Timers.Tick, s.usPerTick));
    match Timers.Fired(s.timer.events, s.usPerTick)
    case None => s'
    case Some(e) => s'.Put(e.toWake, s'.At(e.toWake).(waiting := false))
  }

  function Ticked(s: Sys): Outcome {
    var s' := TimerTicked(s);
    match Next(s')
    case None => Panic(NobodyRunnable)
    case Some(p) => Switch(Popped(s'), p)
  }

  /**
   Appending follows the links to the end and then ends the list at the appended task: a
   task that is already on the list loses everything that was behind it.
   */
  function Appended(prio: seq<Pid>, p: Pid): seq<Pid> {
    if p in prio then prio[..Position(prio, p) + 1] else prio + [p]
  }

  /** An interrupt as one listening task sees it. */
  function Hit(t: Proc): Proc {
    t.(hits := t.hits + 1, waiting := t.waiting && t.call != Some(IrqWait))
  }

  function IrqVisited(s: Sys, p: Pid, n: nat): Sys {
    if s.At(p).irqListen != n then s
    else
      var s' := s.Put(p, Hit(s.At(p)));
      if s'.At(p).waiting then s' else s'.(prio := Appended(s'.prio, p))
  }

  /** The walk over the first k tasks of the ring. */
  function IrqScanned(s: Sys, n: nat, k: nat): Sys
    requires k <= |s.ring|
    ensures IrqScanned(s, n, k).ring == s.ring
  {
    if k == 0 then s else IrqVisited(IrqScanned(s, n, k - 1), s.ring[k - 1], n)
  }

  function Interrupted(s: Sys, n: nat): Outcome {
    var s' := IrqScanned(s, n, |s.ring|);
    if s'.prio == [] then Ran(s') else Switch(Popped(s'), s'.prio[0])
  }

  // ----- system calls of the current task -----

  function Returned(s: Sys, eax: nat): Outcome {
    Ran(s.Put(s.current, s.Cur().(eax := eax)))
  }

  /** Parks the current task in the call and leaves for the next one. */
  function Parking(s: Sys, c: Call): Sys {
    s.Put(s.current, s.Cur().(waiting := true, call := Some(c), eax := 0))
  }

  function CallOrPark(s: Sys, c: Call): Outcome {
    if Blocks(s, s.current, c) then Yield(Parking(s, c))
    else Ran(s.Put(s.current, Performed(s.Cur(), c)))
  }

  function ProbeOnce(s: Sys, r: nat): Outcome {
    if Blocks(s, s.current, ProbeQueue(r)) then Returned(s, 0)
    else Ran(s.Put(s.current, Performed(s.Cur(), ProbeQueue(r))))
  }

  /** The current task with its wake-up event queued and parked in the sleep. */
  function Sleeper(s: Sys, us: nat): Sys {
    var s' := s.(timer := Timers.Step(s.timer, Timers.WakeIn(s.current, us), s.usPerTick));
    Parking(s', Nanosleep(s'.timer.lastUid))
  }

  function Slept(s: Sys, us: nat): Outcome {
    Yield(Sleeper(s, us))
  }

  function Listening(s: Sys, n: nat): Outcome {
    Ran(s.Put(s.current, s.Cur().(irqListen := n, hits := 0, eax := 0)))
  }

  function Checked(s: Sys): Outcome {
    if s.Cur().hits == 0 then Returned(s, 0)
    else Ran(s.Put(s.current, s.Cur().(hits := s.Cur().hits - 1, eax := 1)))
  }

  function WithoutId(queue: seq<Item>, id: nat): seq<Item> {
    if queue == [] then []
    else if queue[0].id == id then queue[1..]
    else [queue[0]] + WithoutId(queue[1..], id)
  }

  function Shifted(s: Sys, id: nat): Outcome {
    Ran(s.Put(s.current, s.Cur().(queue := WithoutId(s.Cur().queue, id), eax := 0)))
  }

  /** The receiver after a send: the item is queued, and only a probe for exactly r wakes. */
  function Received(t: Proc, item: Item): Proc {
    t.(queue := t.queue + [item],
       waiting := t.waiting && t.call != Some(ProbeQueue(item.replyTo)))
  }

  function Sent(s: Sys, to: Pid, r: nat, data: seq<byte>): Outcome {
    if to !in s.ring then Panic(NullTask)
    else
      var item := Item(s.lastMsg + 1, s.current, r, data);
      var s' := s.Put(to, Received(s.At(to), item)).(lastMsg := s.lastMsg + 1);
      Returned(s', s'.lastMsg)
  }

  /** Every task but `ending` that waits for `ending` to end is released. */
  function Released(procs: map<Pid, Proc>, ending: Pid): (r: map<Pid, Proc>)
    ensures r.Keys == procs.Keys
  {
    map p | p in procs ::
      if p != ending && procs[p].call == Some(WaitProcess(ending))
      then procs[p].(waiting := false) else procs[p]
  }

  function WaitersReleased(s: Sys): Sys {
    s.(procs := Released(s.procs, s.current))
  }

  function Without(ring: seq<Pid>, p: Pid): seq<Pid> {
    if p in ring then ring[..Position(ring, p)] + ring[Position(ring, p) + 1..] else ring
  }

  function Unlinked(s: Sys): Sys {
    s.(ring := Without(s.ring, s.current), procs := s.procs - {s.current},
       gone := s.gone + {s.current})
  }

  function Exited(s: Sys): Outcome {
    var s' := WaitersReleased(s);
    match Next(s')
    case None => Panic(NobodyRunnable)
    case Some(p) =>
      if p == s.current then Panic(NextIsCurrent) else Switch(Unlinked(Popped(s')), p)
  }

  /** A fatal exception takes its own path, without the check that sysexit makes. */
  function Killed(s: Sys): Outcome {
    var s' := WaitersReleased(s);
    match Next(s')
    case None => Panic(NobodyRunnable)
    case Some(p) => Switch(Unlinked(Popped(s')), p)
  }

  function Begun(s: Sys, p: Pid): Outcome {
    Returned(s.(ring := [p] + s.ring, procs := s.procs[p := FRESH]), 1)
  }

  // ----- the machine -----

  datatype Event =
    | Tick
    | Irq(n: nat)
    | Defer
    | WaitForIrq
    | ListenToIrq(n: nat)
    | CheckIrq
    | Probe(r: nat, block: bool)
    | Shift(id: nat)
    | Send(to: Pid, r: nat, data: seq<byte>)
    | WaitFor(p: Pid)
    | Sleep(us: nat)
    | Exit
    | Fault
    | Begin(p: Pid)

  function Step(s: Sys, e: Event): Outcome {
    match e
    case Tick => Ticked(s)
    case Irq(n) => Interrupted(s, n)
    case Defer => Yield(s.Put(s.current, s.Cur().(eax := 0)))
    case WaitForIrq => CallOrPark(s, IrqWait)
    case ListenToIrq(n) => Listening(s, n)
    case CheckIrq => Checked(s)
    case Probe(r, block) => if block then CallOrPark(s, ProbeQueue(r)) else ProbeOnce(s, r)
    case Shift(id) => Shifted(s, id)
    case Send(to, r, data) => Sent(s, to, r, data)
    case WaitFor(p) => CallOrPark(s, WaitProcess(p))
    case Sleep(us) => Slept(s, us)
    case Exit => Exited(s)
    case Fault => Killed(s)
    case Begin(p) => Begun(s, p)
  }

  /**
   What the machine relies on: the idle task only halts, so it makes no calls and does not
   fault, and a task is begun once.
   */
  predicate Allowed(s: Sys, e: Event) {
    && (e.Tick? || e.Irq? || s.current != s.idle)
    && (e.Begin? ==> e.p !in s.ring && e.p !in s.gone)
  }

  function Run(s: Sys, es: seq<Event>): Outcome
    decreases |es|
  {
    if es == [] then Ran(s)
    else
      match Step(s, es[0])
      case Ran(s') => Run(s', es[1..])
      case Panic(why) => Panic(why)
  }

  predicate AllowedRun(s: Sys, es: seq<Event>)
    decreases |es|
  {
    es == [] ||
    (Allowed(s, es[0]) && (Step(s, es[0]).Ran? ==> AllowedRun(Step(s, es[0]).s, es[1..])))
  }

  /** The ring at boot: the initial task runs, and the idle task and the drivers follow it. */
  function Boot(tasks: seq<Pid>, usPerTick: nat): Sys
    requires |tasks| >= 2
  {
    Sys(tasks, [], tasks[0], map p | p in tasks :: FRESH, Timers.Queue([], 0), usPerTick, 0, tasks[1], {})
  }
}
