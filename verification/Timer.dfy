/**
 The wake-up queue behind nanosleep: a list of events, each holding the time that is
 left after the event in front of it has fired.
 */
module Timers {
  import opened Base

  datatype WakeEvent<+T> = WakeEvent(toWake: T, uid: nat, usLeft: nat)

  // ----- what one call does to the list -----

  /** The list after one timer tick of u microseconds. */
  function Ticked<T>(ev: seq<WakeEvent<T>>, u: nat): seq<WakeEvent<T>> {
    if ev == [] then ev
    else if ev[0].usLeft > u then [ev[0].(usLeft := ev[0].usLeft - u)] + ev[1..]
    else ev[1..]
  }

  /** The event that a tick of u microseconds fires, if any. */
  function Fired<T>(ev: seq<WakeEvent<T>>, u: nat): Option<WakeEvent<T>> {
    if ev != [] && ev[0].usLeft <= u then Some(ev[0]) else None
  }

  /** The time covered by the longest prefix of the list that is due within us. */
  function Covered<T>(ev: seq<WakeEvent<T>>, us: nat): (total: nat)
    ensures total <= us
  {
    if ev == [] || us < ev[0].usLeft then 0
    else ev[0].usLeft + Covered(ev[1..], us - ev[0].usLeft)
  }

  /** The new event always goes to the back, whatever position the search found. */
  function Scheduled<T>(ev: seq<WakeEvent<T>>, uid: nat, task: T, us: nat): seq<WakeEvent<T>> {
    ev + [WakeEvent(task, uid, us - Covered(ev, us))]
  }

  /** Removes the first event called uid and gives its time to the event behind it. */
  function Descheduled<T>(ev: seq<WakeEvent<T>>, uid: nat): seq<WakeEvent<T>> {
    if ev == [] then []
    else if ev[0].uid != uid then [ev[0]] + Descheduled(ev[1..], uid)
    else if |ev| == 1 then []
    else [ev[1].(usLeft := ev[1].usLeft + ev[0].usLeft)] + ev[2..]
  }

  ghost predicate HasUid<T>(ev: seq<WakeEvent<T>>, uid: nat) {
    exists i :: 0 <= i < |ev| && ev[i].uid == uid
  }

  ghost predicate DistinctUids<T>(ev: seq<WakeEvent<T>>) {
    forall i, j :: 0 <= i < j < |ev| ==> ev[i].uid != ev[j].uid
  }

  // ----- what the list means -----

  function Total<T>(ev: seq<WakeEvent<T>>): nat {
    if ev == [] then 0 else ev[0].usLeft + Total(ev[1..])
  }

  /** Time left until event uid is due: its own and everything in front of it. */
  ghost function Due<T>(ev: seq<WakeEvent<T>>, uid: nat): nat
    requires HasUid(ev, uid)
  {
    ev[0].usLeft + if ev[0].uid == uid then 0 else Due(ev[1..], uid)
  }

  /** Ticks that an event at the front takes. TicksIsCeiling gives its closed form. */
  function TicksFor(us: nat, u: nat): nat
    requires u > 0
  {
    if us <= u then 1 else 1 + TicksFor(us - u, u)
  }

  /** Ticks left until event uid fires: every event in front of it takes its own. */
  ghost function DueTicks<T>(ev: seq<WakeEvent<T>>, uid: nat, u: nat): nat
    requires HasUid(ev, uid) && u > 0
  {
    TicksFor(ev[0].usLeft, u) + if ev[0].uid == uid then 0 else DueTicks(ev[1..], uid, u)
  }

  // ----- arithmetic of ticks -----

  /** The number of ticks is the quotient rounded up, and at least one. */
  lemma {:induction false} TicksIsCeiling(us: nat, u: nat)
    requires u > 0
    ensures TicksFor(us, u) >= 1
    ensures us <= TicksFor(us, u) * u
    ensures TicksFor(us, u) > 1 ==> (TicksFor(us, u) - 1) * u < us
    decreases us
  {
    if us > u {
      TicksIsCeiling(us - u, u);
      var t := TicksFor(us - u, u);
      assert (t + 1) * u == t * u + u;
      if t > 1 {
        assert t * u == (t - 1) * u + u;
      }
    }
  }

  lemma {:induction false} TicksMonotone(a: nat, b: nat, u: nat)
    requires a <= b && u > 0
    ensures TicksFor(a, u) <= TicksFor(b, u)
    decreases b
  {
    if a > u {
      TicksMonotone(a - u, b - u, u);
    } else {
      TicksIsCeiling(b, u);
    }
  }

  /** Merging two waits never takes more ticks than the two waits one after the other. */
  lemma {:induction false} TicksMerge(a: nat, b: nat, u: nat)
    requires u > 0
    ensures TicksFor(a + b, u) <= TicksFor(a, u) + TicksFor(b, u)
    decreases a
  {
    if a > u {
      TicksMerge(a - u, b, u);
    } else if a + b > u {
      TicksMonotone(a + b - u, b, u);
    }
  }

  // ----- one call -----

  lemma {:induction false} TickKeeps<T>(ev: seq<WakeEvent<T>>, uid: nat, u: nat)
    requires HasUid(ev, uid) && DistinctUids(ev) && u > 0
    ensures HasUid(Ticked(ev, u), uid) <==> DueTicks(ev, uid, u) > 1
    ensures HasUid(Ticked(ev, u), uid) ==>
              && Due(ev, uid) <= Due(Ticked(ev, u), uid) + u
              && DueTicks(ev, uid, u) == DueTicks(Ticked(ev, u), uid, u) + 1
    ensures !HasUid(Ticked(ev, u), uid) ==> Due(ev, uid) <= u
    ensures DistinctUids(Ticked(ev, u))
  {
    var ev' := Ticked(ev, u);
    TicksIsCeiling(ev[0].usLeft, u);
    if ev[0].usLeft > u {
      assert ev'[1..] == ev[1..];
      var i :| 0 <= i < |ev| && ev[i].uid == uid;
      assert ev'[i].uid == uid;
      TicksIsCeiling(ev'[0].usLeft, u);
    } else if ev[0].uid != uid {
      var i :| 0 <= i < |ev| && ev[i].uid == uid;
      assert ev'[i - 1].uid == uid;
      TicksIsCeiling(ev'[0].usLeft, u);
    }
  }

  lemma {:induction false} AppendKeeps<T>(ev: seq<WakeEvent<T>>, e: WakeEvent<T>, uid: nat, u: nat)
    requires HasUid(ev, uid) && u > 0
    ensures HasUid(ev + [e], uid)
    ensures Due(ev + [e], uid) == Due(ev, uid)
    ensures DueTicks(ev + [e], uid, u) == DueTicks(ev, uid, u)
  {
    var i :| 0 <= i < |ev| && ev[i].uid == uid;
    assert (ev + [e])[i].uid == uid;
    if ev[0].uid != uid {
      assert ev[1..][i - 1].uid == uid;
      assert (ev + [e])[1..] == ev[1..] + [e];
      AppendKeeps(ev[1..], e, uid, u);
    }
  }

  /** Removing another event keeps the due time, and can only save ticks. */
  lemma {:induction false} DeschedKeeps<T>(ev: seq<WakeEvent<T>>, gone: nat, uid: nat, u: nat)
    requires HasUid(ev, uid) && gone != uid && u > 0
    ensures HasUid(Descheduled(ev, gone), uid)
    ensures Due(Descheduled(ev, gone), uid) == Due(ev, uid)
    ensures DueTicks(Descheduled(ev, gone), uid, u) <= DueTicks(ev, uid, u)
  {
    var ev' := Descheduled(ev, gone);
    var i :| 0 <= i < |ev| && ev[i].uid == uid;
    if ev[0].uid == gone {
      assert ev'[i - 1].uid == uid;
      assert ev'[1..] == ev[1..][1..];
      TicksMerge(ev[1].usLeft, ev[0].usLeft, u);
    } else if ev[0].uid == uid {
      assert ev'[0].uid == uid;
    } else {
      assert ev[1..][i - 1].uid == uid;
      DeschedKeeps(ev[1..], gone, uid, u);
      assert ev'[1..] == Descheduled(ev[1..], gone);
      var j :| 0 <= j < |ev'[1..]| && ev'[1..][j].uid == uid;
      assert ev'[j + 1].uid == uid;
    }
  }

  lemma {:induction false} DeschedUids<T>(ev: seq<WakeEvent<T>>, gone: nat)
    requires DistinctUids(ev)
    ensures DistinctUids(Descheduled(ev, gone))
    ensures !HasUid(Descheduled(ev, gone), gone)
    ensures forall i :: 0 <= i < |Descheduled(ev, gone)| ==> HasUid(ev, Descheduled(ev, gone)[i].uid)
    ensures Total(Descheduled(ev, gone)) <= Total(ev)
  {
    if ev != [] {
      var ev' := Descheduled(ev, gone);
      if ev[0].uid == gone {
        forall i | 0 <= i < |ev'| ensures HasUid(ev, ev'[i].uid) && ev'[i].uid != gone {
          assert ev'[i].uid == ev[i + 1].uid;
        }
        if |ev| > 1 {
          assert ev'[1..] == ev[1..][1..];
        }
      } else {
        DeschedUids(ev[1..], gone);
        assert ev'[1..] == Descheduled(ev[1..], gone);
        forall i | 0 < i < |ev'|
          ensures HasUid(ev, ev'[i].uid) && ev'[i].uid != ev[0].uid && ev'[i].uid != gone
        {
          assert ev'[i] == ev'[1..][i - 1];
          var j :| 0 <= j < |ev[1..]| && ev[1..][j].uid == ev'[i].uid;
          assert ev[j + 1].uid == ev'[i].uid;
        }
        assert ev'[0].uid == ev[0].uid;
        forall i, j | 0 <= i < j < |ev'| ensures ev'[i].uid != ev'[j].uid {
          if i > 0 {
            assert ev'[i] == ev'[1..][i - 1] && ev'[j] == ev'[1..][j - 1];
          }
        }
      }
    }
  }

  /** What the search in wakeIn can cover is the whole list exactly when us reaches past it. */
  lemma {:induction false} CoveredIsTotal<T>(ev: seq<WakeEvent<T>>, us: nat)
    ensures Covered(ev, us) <= Total(ev)
    ensures Covered(ev, us) == Total(ev) <==> Total(ev) <= us
  {
    if ev != [] && ev[0].usLeft <= us {
      CoveredIsTotal(ev[1..], us - ev[0].usLeft);
    }
  }

  lemma {:induction false} DueOfLast<T>(ev: seq<WakeEvent<T>>, e: WakeEvent<T>)
    requires !HasUid(ev, e.uid)
    ensures HasUid(ev + [e], e.uid)
    ensures Due(ev + [e], e.uid) == Total(ev) + e.usLeft
  {
    var ev' := ev + [e];
    assert ev'[|ev|].uid == e.uid;
    if ev != [] {
      assert ev'[1..] == ev[1..] + [e];
      assert forall i :: 0 <= i < |ev[1..]| ==> ev[1..][i] == ev[i + 1];
      DueOfLast(ev[1..], e);
    }
  }

  /**
   A new event is due no earlier than asked, and exactly then if and only if everything
   already queued is due by that time: the search for its place has no effect on the order.
   */
  lemma SleepLength<T>(ev: seq<WakeEvent<T>>, uid: nat, task: T, us: nat)
    requires !HasUid(ev, uid)
    ensures HasUid(Scheduled(ev, uid, task, us), uid)
    ensures Due(Scheduled(ev, uid, task, us), uid) >= us
    ensures Due(Scheduled(ev, uid, task, us), uid) == us <==> Total(ev) <= us
  {
    CoveredIsTotal(ev, us);
    DueOfLast(ev, WakeEvent(task, uid, us - Covered(ev, us)));
  }

  lemma {:induction false} TotalSplit<T>(ev: seq<WakeEvent<T>>, k: nat)
    requires k <= |ev|
    ensures Total(ev[..k]) + Total(ev[k..]) == Total(ev)
  {
    if k > 0 {
      assert ev[..k][1..] == ev[1..][..k - 1] && ev[k..] == ev[1..][k - 1..];
      TotalSplit(ev[1..], k - 1);
    }
  }

  lemma {:induction false} CoveredIs<T>(ev: seq<WakeEvent<T>>, us: nat, k: nat)
    requires k <= |ev| && Total(ev[..k]) <= us && (k < |ev| ==> us < Total(ev[..k + 1]))
    ensures Covered(ev, us) == Total(ev[..k])
  {
    if k == 0 {
      if ev != [] {
        assert ev[..1][1..] == [];
      }
    } else {
      assert ev[..k][1..] == ev[1..][..k - 1];
      if k < |ev| {
        assert ev[..k + 1][1..] == ev[1..][..k];
      }
      CoveredIs(ev[1..], us - ev[0].usLeft, k - 1);
    }
  }

  /** By how much a sleep is late: the times of all events from the first that is not due within it. */
  lemma SleepDue<T>(ev: seq<WakeEvent<T>>, uid: nat, task: T, us: nat, k: nat)
    requires !HasUid(ev, uid)
    requires k <= |ev| && Total(ev[..k]) <= us && (k < |ev| ==> us < Total(ev[..k + 1]))
    ensures HasUid(Scheduled(ev, uid, task, us), uid)
    ensures Due(Scheduled(ev, uid, task, us), uid) == us + Total(ev[k..])
  {
    CoveredIs(ev, us, k);
    TotalSplit(ev, k);
    DueOfLast(ev, WakeEvent(task, uid, us - Covered(ev, us)));
  }

  /** Only that event goes, and only the time of the one behind it changes. */
  lemma {:induction false} DeschedIs<T>(ev: seq<WakeEvent<T>>, gone: nat, p: nat)
    requires p < |ev| && ev[p].uid == gone && forall k :: 0 <= k < p ==> ev[k].uid != gone
    ensures |Descheduled(ev, gone)| == |ev| - 1
    ensures forall k :: 0 <= k < p ==> Descheduled(ev, gone)[k] == ev[k]
    ensures forall k :: p <= k < |ev| - 1 ==>
              Descheduled(ev, gone)[k] ==
              WakeEvent(ev[k + 1].toWake, ev[k + 1].uid, ev[k + 1].usLeft + if k == p then ev[p].usLeft else 0)
  {
    if p > 0 {
      DeschedIs(ev[1..], gone, p - 1);
      assert Descheduled(ev, gone) == [ev[0]] + Descheduled(ev[1..], gone);
    }
  }

  /** Without such an event nothing changes. */
  lemma {:induction false} DeschedNone<T>(ev: seq<WakeEvent<T>>, gone: nat)
    requires !HasUid(ev, gone)
    ensures Descheduled(ev, gone) == ev
  {
    if ev != [] {
      assert forall k :: 0 <= k < |ev[1..]| ==> ev[1..][k] == ev[k + 1];
      DeschedNone(ev[1..], gone);
    }
  }

  // ----- whole runs -----

  datatype Op<T> = Tick | WakeIn(task: T, us: nat) | Desched(uid: nat)

  datatype Queue<T> = Queue(events: seq<WakeEvent<T>>, lastUid: nat) {
    ghost predicate Valid() {
      && DistinctUids(events)
      && forall i :: 0 <= i < |events| ==> events[i].uid <= lastUid
    }
  }

  function Step<T>(q: Queue<T>, op: Op<T>, u: nat): Queue<T> {
    match op
    case Tick => q.(events := Ticked(q.events, u))
    case WakeIn(task, us) => Queue(Scheduled(q.events, q.lastUid + 1, task, us), q.lastUid + 1)
    case Desched(uid) => q.(events := Descheduled(q.events, uid))
  }

  function Run<T>(q: Queue<T>, ops: seq<Op<T>>, u: nat): Queue<T>
    decreases |ops|
  {
    if ops == [] then q else Run(Step(q, ops[0], u), ops[1..], u)
  }

  function Ticks<T>(ops: seq<Op<T>>): nat {
    if ops == [] then 0 else (if ops[0].Tick? then 1 else 0) + Ticks(ops[1..])
  }

  lemma StepValid<T>(q: Queue<T>, op: Op<T>, u: nat)
    requires q.Valid()
    ensures Step(q, op, u).Valid()
  {
    var q' := Step(q, op, u);
    if op.Desched? {
      DeschedUids(q.events, op.uid);
      forall i | 0 <= i < |q'.events| ensures q'.events[i].uid <= q'.lastUid {
        var j :| 0 <= j < |q.events| && q.events[j].uid == q'.events[i].uid;
      }
    }
  }

  /**
   Never early, never later than the list at the start says, and with no desched at all
   on exactly the predicted tick.
   */
  lemma {:induction false} WakeTime<T>(q: Queue<T>, ops: seq<Op<T>>, uid: nat, u: nat)
    requires q.Valid() && HasUid(q.events, uid) && u > 0
    requires forall i :: 0 <= i < |ops| ==> ops[i] != Desched(uid)
    ensures !HasUid(Run(q, ops, u).events, uid) ==> Due(q.events, uid) <= Ticks(ops) * u
    ensures Ticks(ops) >= DueTicks(q.events, uid, u) ==> !HasUid(Run(q, ops, u).events, uid)
    ensures (forall i :: 0 <= i < |ops| ==> !ops[i].Desched?) ==>
              (!HasUid(Run(q, ops, u).events, uid) <==> Ticks(ops) >= DueTicks(q.events, uid, u))
    decreases |ops|
  {
    if ops == [] {
      TicksIsCeiling(q.events[0].usLeft, u);
    } else {
      var q' := Step(q, ops[0], u);
      StepValid(q, ops[0], u);
      match ops[0] {
        case Tick =>
          TickKeeps(q.events, uid, u);
          assert Ticks(ops) * u == Ticks(ops[1..]) * u + u;
          if !HasUid(q'.events, uid) {
            StaysGone(q', ops[1..], uid, u);
            TicksIsCeiling(q.events[0].usLeft, u);
          }
        case WakeIn(task, us) =>
          AppendKeeps(q.events, WakeEvent(task, q.lastUid + 1, us - Covered(q.events, us)), uid, u);
        case Desched(gone) =>
          DeschedKeeps(q.events, gone, uid, u);
      }
      if HasUid(q'.events, uid) {
        WakeTime(q', ops[1..], uid, u);
      }
    }
  }

  /** An event that has fired never comes back: ids are not reused. */
  lemma {:induction false} StaysGone<T>(q: Queue<T>, ops: seq<Op<T>>, uid: nat, u: nat)
    requires q.Valid() && !HasUid(q.events, uid) && uid <= q.lastUid
    ensures !HasUid(Run(q, ops, u).events, uid)
    decreases |ops|
  {
    if ops != [] {
      StepValid(q, ops[0], u);
      if ops[0].Desched? {
        DeschedUids(q.events, ops[0].uid);
      }
      StaysGone(Step(q, ops[0], u), ops[1..], uid, u);
    }
  }

  /** nanosleep(us) never returns before us microseconds' worth of ticks. */
  lemma SleepIsNeverEarly<T>(q: Queue<T>, task: T, us: nat, ops: seq<Op<T>>, u: nat)
    requires q.Valid() && u > 0
    requires forall i :: 0 <= i < |ops| ==> ops[i] != Desched(q.lastUid + 1)
    requires !HasUid(Run(Step(q, WakeIn(task, us), u), ops, u).events, q.lastUid + 1)
    ensures us <= Ticks(ops) * u
  {
    var q' := Step(q, WakeIn(task, us), u);
    StepValid(q, WakeIn(task, us), u);
    SleepLength(q.events, q.lastUid + 1, task, us);
    WakeTime(q', ops, q.lastUid + 1, u);
  }

  /** The tasks that one operation wakes, and those that it puts to sleep. */
  function Woken<T>(q: Queue<T>, op: Op<T>, u: nat): seq<T> {
    if op.Tick? && Fired(q.events, u).Some? then [Fired(q.events, u).value.toWake] else []
  }

  function Added<T>(op: Op<T>): seq<T> {
    if op.WakeIn? then [op.task] else []
  }

  function WokenOver<T>(q: Queue<T>, ops: seq<Op<T>>, u: nat): seq<T>
    decreases |ops|
  {
    if ops == [] then [] else Woken(q, ops[0], u) + WokenOver(Step(q, ops[0], u), ops[1..], u)
  }

  function AddedOver<T>(ops: seq<Op<T>>): seq<T> {
    if ops == [] then [] else Added(ops[0]) + AddedOver(ops[1..])
  }

  function Sleepers<T>(ev: seq<WakeEvent<T>>): seq<T> {
    seq(|ev|, i requires 0 <= i < |ev| => ev[i].toWake)
  }

  lemma StepServes<T>(q: Queue<T>, op: Op<T>, u: nat)
    requires !op.Desched?
    ensures Woken(q, op, u) + Sleepers(Step(q, op, u).events) == Sleepers(q.events) + Added(op)
  {
  }

  /** Without desched, sleepers wake first come first served: nobody is lost or overtaken. */
  lemma {:induction false} FirstComeFirstServed<T>(q: Queue<T>, ops: seq<Op<T>>, u: nat)
    requires forall i :: 0 <= i < |ops| ==> !ops[i].Desched?
    ensures WokenOver(q, ops, u) + Sleepers(Run(q, ops, u).events)
         == Sleepers(q.events) + AddedOver(ops)
    decreases |ops|
  {
    if ops != [] {
      var q' := Step(q, ops[0], u);
      StepServes(q, ops[0], u);
      FirstComeFirstServed(q', ops[1..], u);
      hide Woken, Sleepers, Step, Added;
      Reassociate(Woken(q, ops[0], u), WokenOver(q', ops[1..], u), Sleepers(Run(q', ops[1..], u).events),
                  Sleepers(q'.events), AddedOver(ops[1..]), Sleepers(q.events), Added(ops[0]));
    } else {
      assert [] + Sleepers(q.events) == Sleepers(q.events) + [];
    }
  }

  /** Deadlines are not the order: a short sleep queued behind a long one is due after it. */
  lemma ShortSleepWaitsForLong()
    ensures var ev := Scheduled(Scheduled([], 1, 'a', 1000), 2, 'b', 100);
            HasUid(ev, 1) && HasUid(ev, 2) && Due(ev, 1) == 1000 && Due(ev, 2) == 1100
  {
    var ev1 := Scheduled([], 1, 'a', 1000);
    DueOfLast([], ev1[0]);
    DueOfLast(ev1, WakeEvent('b', 2, 100));
    AppendKeeps(ev1, WakeEvent('b', 2, 100), 1, 1);
  }

  /** The driver of the queue, as the timer interrupt and the sleeping calls use it. */
  class Timer<T> {
    var wakeevents: seq<WakeEvent<T>>
    var lastWakeId: nat
    const usPerTick: nat
    var switches: u32
    var systemUs: u32

    /** The running sums of wakeIn and desched stay below 2^32. */
    ghost predicate Valid()
      reads this
    {
      && Abs().Valid()
      && usPerTick > 0
      && Total(wakeevents) < TWO32
    }

    ghost function Abs(): Queue<T>
      reads this
    {
      Queue(wakeevents, lastWakeId)
    }

    constructor (hz: nat)
      requires 0 < hz <= 1000000
      ensures Valid() && Abs() == Queue([], 0) && usPerTick == 1000000 / hz
    {
      wakeevents, lastWakeId, switches, systemUs := [], 0, 0, 0;
      usPerTick := 1000000 / hz;
    }

    method TickOnce() returns (woken: Option<T>)
      requires Valid()
      modifies this
      ensures Valid()
      ensures Abs() == Step(old(Abs()), Tick, usPerTick)
      ensures woken == match Fired(old(wakeevents), usPerTick)
                       case Some(e) => Some(e.toWake)
                       case None => None
      ensures switches as int == (old(switches) as int + 1) % TWO32
      ensures systemUs as int == (old(systemUs) as int + usPerTick) % TWO32
    {
      StepValid(Abs(), Op<T>.Tick, usPerTick);
      switches := (switches + 1) % TWO32;
      systemUs := (systemUs + usPerTick) % TWO32;
      woken := None;
      if |wakeevents| > 0 {
        var top := wakeevents[0];
        if top.usLeft > usPerTick {
          ghost var rest := wakeevents[1..];
          wakeevents := wakeevents[0 := top.(usLeft := top.usLeft - usPerTick)];
          assert wakeevents == [top.(usLeft := top.usLeft - usPerTick)] + rest;
          assert wakeevents[1..] == rest;
        } else {
          woken := Some(top.toWake);
          wakeevents := wakeevents[1..];
        }
      }
    }

    method WakeIn(us: u32, task: T) returns (uid: nat)
      requires Valid() && Total(wakeevents) + us < TWO32
      modifies this
      ensures Valid()
      ensures Abs() == Step(old(Abs()), Op.WakeIn(task, us), usPerTick)
      ensures uid == lastWakeId > 0
    {
      StepValid(Abs(), Op.WakeIn(task, us), usPerTick);
      ghost var ev := wakeevents;
      hide Queue.Valid, Total;
      lastWakeId := lastWakeId + 1;
      uid := lastWakeId;
      if |wakeevents| == 0 {
        TotalAppend(ev, WakeEvent(task, uid, us));
        CoveredNone<T>(us);
        wakeevents := wakeevents + [WakeEvent(task, uid, us)];
        return;
      }
      var runningTotal := Search(us);
      TotalAppend(ev, WakeEvent(task, uid, us - runningTotal));
      wakeevents := wakeevents + [WakeEvent(task, uid, us - runningTotal)];
    }

    /** The loop of wakeIn: adds up the events that are due within us. */
    method Search(us: u32) returns (runningTotal: u32)
      requires Total(wakeevents) + us < TWO32
      ensures runningTotal as int == Covered(wakeevents, us)
    {
      runningTotal := 0;
      var i := 0;
      CoveredEnd(wakeevents, us);
      hide Covered, Total;
      while i < |wakeevents|
        invariant 0 <= i <= |wakeevents| && runningTotal <= us
        invariant Covered(wakeevents, us) == runningTotal + Covered(wakeevents[i..], us - runningTotal)
        invariant runningTotal + Total(wakeevents[i..]) == Total(wakeevents)
      {
        CoveredStep(wakeevents, i, us - runningTotal);
        if us < (runningTotal + wakeevents[i].usLeft) % TWO32 { break; }
        runningTotal := (runningTotal + wakeevents[i].usLeft) % TWO32;
        i := i + 1;
      }
      CoveredNone<T>(us - runningTotal);
    }

    static lemma CoveredEnd(ev: seq<WakeEvent<T>>, us: nat)
      ensures ev[0..] == ev && ev[|ev|..] == []
    {
    }

    static lemma CoveredStep(ev: seq<WakeEvent<T>>, i: nat, us: nat)
      requires i < |ev|
      ensures Covered(ev[i..], us) ==
              if us < ev[i].usLeft then 0 else ev[i].usLeft + Covered(ev[i + 1..], us - ev[i].usLeft)
      ensures Total(ev[i..]) == ev[i].usLeft + Total(ev[i + 1..])
    {
      assert ev[i..][1..] == ev[i + 1..];
    }

    method DeschedOnce(uid: nat) returns (found: bool)
      requires Valid()
      modifies this
      ensures Valid()
      ensures Abs() == Step(old(Abs()), Desched(uid), usPerTick)
      ensures found == HasUid(old(wakeevents), uid)
    {
      StepValid(Abs(), Op<T>.Desched(uid), usPerTick);
      DeschedUids(wakeevents, uid);
      hide Total, Descheduled, HasUid, Queue.Valid;
      var i := 0;
      while i < |wakeevents|
        invariant 0 <= i <= |wakeevents|
        invariant wakeevents == old(wakeevents)
        invariant forall j :: 0 <= j < i ==> wakeevents[j].uid != uid
      {
        if wakeevents[i].uid == uid {
          Deschedules(wakeevents, uid, i);
          var wait := wakeevents[i].usLeft;
          if i + 1 < |wakeevents| {
            wakeevents := wakeevents[i + 1 := wakeevents[i + 1].(usLeft := wakeevents[i + 1].usLeft + wait)];
          }
          wakeevents := wakeevents[..i] + wakeevents[i + 1..];
          return true;
        }
        i := i + 1;
      }
      DeschedAbsent(wakeevents, uid);
      HasNot(wakeevents, uid);
      return false;
    }
  }

  lemma CoveredNone<T>(us: nat)
    ensures Covered<T>([], us) == 0 && Total<T>([]) == 0
  {
  }

  lemma HasNot<T>(ev: seq<WakeEvent<T>>, uid: nat)
    requires forall j :: 0 <= j < |ev| ==> ev[j].uid != uid
    ensures !HasUid(ev, uid)
  {
  }

  /** Giving the time of event i to the one behind it and taking it out is what desched does. */
  lemma Deschedules<T>(ev: seq<WakeEvent<T>>, uid: nat, i: nat)
    requires i < |ev| && ev[i].uid == uid && forall j :: 0 <= j < i ==> ev[j].uid != uid
    ensures HasUid(ev, uid)
    ensures i + 1 == |ev| ==> Descheduled(ev, uid) == ev[..i] + ev[i + 1..]
    ensures i + 1 < |ev| ==>
              var e := ev[i + 1].(usLeft := ev[i + 1].usLeft + ev[i].usLeft);
              Descheduled(ev, uid) == ev[i + 1 := e][..i] + ev[i + 1 := e][i + 1..]
  {
    DeschedSplice(ev, uid, i);
    hide Descheduled;
    if i + 1 < |ev| {
      var e := ev[i + 1].(usLeft := ev[i + 1].usLeft + ev[i].usLeft);
      assert ev[i + 1 := e][i + 1..] == [e] + ev[i + 2..];
    }
  }

  lemma {:induction false} DeschedSplice<T>(ev: seq<WakeEvent<T>>, uid: nat, i: nat)
    requires i < |ev| && ev[i].uid == uid
    requires forall j :: 0 <= j < i ==> ev[j].uid != uid
    ensures Descheduled(ev, uid) ==
              ev[..i] + if i + 1 == |ev| then []
                        else [ev[i + 1].(usLeft := ev[i + 1].usLeft + ev[i].usLeft)] + ev[i + 2..]
  {
    if i > 0 {
      DeschedSplice(ev[1..], uid, i - 1);
    }
  }

  lemma {:induction false} DeschedAbsent<T>(ev: seq<WakeEvent<T>>, uid: nat)
    requires forall j :: 0 <= j < |ev| ==> ev[j].uid != uid
    ensures Descheduled(ev, uid) == ev
  {
    if ev != [] {
      DeschedAbsent(ev[1..], uid);
    }
  }

  lemma {:induction false} TotalAppend<T>(ev: seq<WakeEvent<T>>, e: WakeEvent<T>)
    ensures Total(ev + [e]) == Total(ev) + e.usLeft
  {
    if ev != [] {
      assert (ev + [e])[1..] == ev[1..] + [e];
      TotalAppend(ev[1..], e);
    }
  }
}
