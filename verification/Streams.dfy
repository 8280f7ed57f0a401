/** Streams between tasks: writers append to every listener, and listeners are read by tasks that may wait. */
module Streams {
  import opened Base
  import opened Bytes

  // ----- a stream as a value -----

  /** A listener: what it has not yet delivered, and the task that last waited on it. */
  datatype Chan = Chan(id: u32, data: seq<byte>, hook: Option<nat>)

  /** A reading call that a task has parked, and whether it has been woken since. */
  datatype Call = Call(listener: u32, n: u32, woken: bool)

  /** A stream, with the calls of the tasks that wait on it. */
  datatype State = State(exclusive: bool, writers: seq<u32>, chans: seq<Chan>, lastId: u32, waiting: map<nat, Call>)

  datatype Op = NewWriter(exclusive: bool)
              | NewListener
              | Write(writer: u32, data: seq<byte>)
              | Read(task: nat, listener: u32, n: u32, block: bool)
              | Resume(task: nat)

  datatype Reply = Id(id: u32) | Refused | Written(n: nat) | Got(data: seq<byte>) | Parked | Panic

  const FRESH: State := State(false, [], [], 0, map[])

  function NextId(id: u32): u32 {
    (id + 1) % TWO32
  }

  /** The first listener with this id. */
  function Find(chans: seq<Chan>, id: u32): (r: Option<nat>)
    ensures r.Some? ==> r.value < |chans| && chans[r.value].id == id
    ensures r.None? ==> forall i :: 0 <= i < |chans| ==> chans[i].id != id
  {
    if chans == [] then None
    else if chans[0].id == id then Some(0)
    else match Find(chans[1..], id)
         case Some(i) => Some(i + 1)
         case None => None
  }

  function Register(s: State, exclusive: bool): (State, Reply) {
    if s.exclusive || (exclusive && s.writers != []) then (s, Refused)
    else (s.(exclusive := exclusive, writers := s.writers + [NextId(s.lastId)], lastId := NextId(s.lastId)),
          Id(NextId(s.lastId)))
  }

  function Appended(chans: seq<Chan>, data: seq<byte>): (r: seq<Chan>)
    ensures |r| == |chans|
    ensures forall i :: 0 <= i < |r| ==> r[i] == chans[i].(data := chans[i].data + data)
  {
    if chans == [] then [] else [chans[0].(data := chans[0].data + data)] + Appended(chans[1..], data)
  }

  function Hooked(chans: seq<Chan>): (r: set<nat>)
    ensures forall t :: t in r <==> exists i :: 0 <= i < |chans| && chans[i].hook == Some(t)
  {
    if chans == [] then {} else (if chans[0].hook.Some? then {chans[0].hook.value} else {}) + Hooked(chans[1..])
  }

  /** Wakes the given tasks, if they wait. */
  function Woken(waiting: map<nat, Call>, tasks: set<nat>): map<nat, Call> {
    map t | t in waiting :: if t in tasks then waiting[t].(woken := true) else waiting[t]
  }

  /** Takes up to n bytes from a listener that has some. */
  function Taken(s: State, i: nat, n: u32): (State, Reply)
    requires i < |s.chans|
  {
    var k := Min(n, |s.chans[i].data|);
    (s.(chans := s.chans[i := s.chans[i].(data := s.chans[i].data[k..])]), Got(s.chans[i].data[..k]))
  }

  function Step(s: State, op: Op): (State, Reply) {
    match op
    case NewWriter(exclusive) => Register(s, exclusive)
    case NewListener =>
      (s.(chans := s.chans + [Chan(NextId(s.lastId), [], None)], lastId := NextId(s.lastId)), Id(NextId(s.lastId)))
    case Write(writer, data) =>
      if writer !in s.writers then (s, Refused)
      else if data == [] then (s, Written(0))
      else (s.(chans := Appended(s.chans, data), waiting := Woken(s.waiting, Hooked(s.chans))), Written(|data|))
    case Read(task, listener, n, block) =>
      var found := Find(s.chans, listener);
      if found.None? then (s, Panic)
      else if n == 0 then (s, Got([]))
      else if s.chans[found.value].data != [] then Taken(s, found.value, n)
      else if !block then (s, Got([]))
      else (s.(chans := s.chans[found.value := s.chans[found.value].(hook := Some(task))],
               waiting := s.waiting[task := Call(listener, n, false)]), Parked)
    case Resume(task) =>
      if task !in s.waiting || !s.waiting[task].woken then (s, Panic) else
      var call := s.waiting[task];
      var found := Find(s.chans, call.listener);
      if found.None? then (s, Panic)
      else if s.chans[found.value].data == [] && call.n != 0 then (s, Panic)
      else var r := if call.n == 0 then (s, Got([])) else Taken(s, found.value, call.n);
           (r.0.(waiting := s.waiting - {task}), r.1)
  }

  function Run(s: State, ops: seq<Op>): State
    decreases |ops|
  {
    if ops == [] then s else Run(Step(s, ops[0]).0, ops[1..])
  }

  // ----- what each call gives -----

  /** A writer is refused exactly if the stream is exclusive, or it asks to be exclusive and is not the first. */
  lemma WriterGiven(s: State, exclusive: bool)
    ensures var (t, r) := Step(s, NewWriter(exclusive));
            if s.exclusive || (exclusive && |s.writers| > 0) then r == Refused && t == s
            else
              && r.Id? && r.id == (s.lastId + 1) % 0x1_0000_0000
              && t == State(exclusive, s.writers + [r.id], s.chans, r.id, s.waiting)
  {
  }

  /** A new listener comes behind the others, empty, and wakes nobody. */
  lemma ListenerGiven(s: State)
    ensures var (t, r) := Step(s, NewListener);
            && r.Id? && r.id == (s.lastId + 1) % 0x1_0000_0000
            && t == State(s.exclusive, s.writers, s.chans + [Chan(r.id, [], None)], r.id, s.waiting)
  {
  }

  /** Only the bytes of listener i, and the tasks that wait, may differ. */
  ghost predicate SameBut(s: State, t: State, i: nat) {
    && t.exclusive == s.exclusive && t.writers == s.writers && t.lastId == s.lastId && |t.chans| == |s.chans|
    && forall k :: 0 <= k < |s.chans| ==>
         && t.chans[k].id == s.chans[k].id
         && (k != i ==> t.chans[k] == s.chans[k])
  }

  /** All of a registered writer's bytes reach every listener, and wake exactly the tasks that one is hooked to. */
  lemma WriteGiven(s: State, writer: u32, data: seq<byte>)
    ensures var (t, r) := Step(s, Write(writer, data));
            if writer !in s.writers then r == Refused && t == s
            else
              && r == Written(|data|)
              && t.exclusive == s.exclusive && t.writers == s.writers && t.lastId == s.lastId
              && |t.chans| == |s.chans| && t.waiting.Keys == s.waiting.Keys
              && (forall i :: 0 <= i < |s.chans| ==>
                    t.chans[i] == Chan(s.chans[i].id, s.chans[i].data + data, s.chans[i].hook))
              && (forall u :: u in s.waiting ==>
                    var c := s.waiting[u];
                    t.waiting[u] == Call(c.listener, c.n, c.woken || (data != [] && Some(u) in HooksOf(s.chans))))
  {
    assert forall i :: 0 <= i < |s.chans| ==> s.chans[i].data + [] == s.chans[i].data;
    HooksAre(s.chans);
  }

  ghost function HooksOf(chans: seq<Chan>): set<Option<nat>> {
    set i | 0 <= i < |chans| :: chans[i].hook
  }

  lemma HooksAre(chans: seq<Chan>)
    ensures forall u :: u in Hooked(chans) <==> Some(u) in HooksOf(chans)
  {
  }

  /** What is given is the front of what was there: n bytes, or all. */
  predicate Split(was: seq<byte>, got: seq<byte>, left: seq<byte>, n: nat) {
    got + left == was && |got| <= n && (|got| == n || left == [])
  }

  lemma TakenGiven(s: State, i: nat, n: u32)
    requires i < |s.chans|
    ensures var (t, r) := Taken(s, i, n);
            && r.Got? && SameBut(s, t, i) && t.chans[i].hook == s.chans[i].hook && t.waiting == s.waiting
            && Split(s.chans[i].data, r.data, t.chans[i].data, n)
  {
  }

  /** A read takes from the front, all that it may; a task that may wait on an empty listener is parked. */
  lemma ReadGiven(s: State, task: nat, listener: u32, n: u32, block: bool, i: nat)
    requires i < |s.chans| && s.chans[i].id == listener && forall k :: 0 <= k < i ==> s.chans[k].id != listener
    ensures var (t, r) := Step(s, Read(task, listener, n, block));
            if s.chans[i].data == [] && n > 0 && block then
              && r == Parked && SameBut(s, t, i) && t.chans[i] == Chan(listener, [], Some(task))
              && t.waiting == s.waiting[task := Call(listener, n, false)]
            else
              && r.Got? && SameBut(s, t, i) && t.chans[i].hook == s.chans[i].hook && t.waiting == s.waiting
              && Split(s.chans[i].data, r.data, t.chans[i].data, n)
  {
    FindIs(s.chans, listener, i);
    assert [] + s.chans[i].data == s.chans[i].data;
    TakenGiven(s, i, n);
    hide Taken, Find;
  }

  /** A woken task that finds something is given it as if it had just called, and waits no more. */
  lemma ResumeGiven(s: State, task: nat, i: nat)
    requires task in s.waiting && s.waiting[task].woken && i < |s.chans| && s.chans[i].id == s.waiting[task].listener
    requires forall k :: 0 <= k < i ==> s.chans[k].id != s.waiting[task].listener
    ensures var (t, r) := Step(s, Resume(task));
            if s.chans[i].data == [] && s.waiting[task].n > 0 then r == Panic
            else
              && r.Got? && SameBut(s, t, i) && t.chans[i].hook == s.chans[i].hook
              && Split(s.chans[i].data, r.data, t.chans[i].data, s.waiting[task].n)
              && t.waiting.Keys == s.waiting.Keys - {task}
              && forall u :: u in t.waiting ==> t.waiting[u] == s.waiting[u]
  {
    FindIs(s.chans, s.waiting[task].listener, i);
    assert [] + s.chans[i].data == s.chans[i].data;
    TakenGiven(s, i, s.waiting[task].n);
    hide Taken, Find;
  }

  /** To read from a listener that there is not stops the machine. */
  lemma NoListener(s: State, task: nat, listener: u32, n: u32, block: bool)
    ensures Step(s, Read(task, listener, n, block)).1 == Panic <==>
            forall k :: 0 <= k < |s.chans| ==> s.chans[k].id != listener
  {
  }

  // ----- what goes in comes out -----

  /** The listener whose bytes an operation takes. */
  function Target(s: State, op: Op): Option<nat> {
    match op
    case Read(_, listener, _, _) => Find(s.chans, listener)
    case Resume(task) => if task in s.waiting then Find(s.chans, s.waiting[task].listener) else None
    case _ => None
  }

  /** What is delivered to listener i's readers by a step, and what is written to it. */
  function Out(s: State, op: Op, i: nat): seq<byte> {
    if Target(s, op) == Some(i) && Step(s, op).1.Got? then Step(s, op).1.data else []
  }

  function In(s: State, op: Op): seq<byte> {
    if op.Write? && Step(s, op).1.Written? then op.data else []
  }

  /** The bytes that readers of listener i were given. */
  function Delivered(s: State, ops: seq<Op>, i: nat): seq<byte>
    decreases |ops|
  {
    if ops == [] then []
    else
      var r := Step(s, ops[0]);
      Out(s, ops[0], i) + Delivered(r.0, ops[1..], i)
  }

  /** The bytes of all writes that were accepted. */
  function Sent(s: State, ops: seq<Op>): seq<byte>
    decreases |ops|
  {
    if ops == [] then []
    else
      var r := Step(s, ops[0]);
      In(s, ops[0]) + Sent(r.0, ops[1..])
  }

  lemma TakenSplits(s: State, i: nat, n: u32, j: nat)
    requires i < |s.chans| && j < |s.chans|
    ensures Taken(s, i, n).1.Got? && |Taken(s, i, n).0.chans| == |s.chans|
    ensures (if i == j then Taken(s, i, n).1.data else []) + Taken(s, i, n).0.chans[j].data == s.chans[j].data
  {
  }

  /** One step: delivered bytes leave the front, written bytes join the back. */
  lemma StepConserves(s: State, op: Op, i: nat)
    requires i < |s.chans|
    ensures i < |Step(s, op).0.chans|
    ensures Out(s, op, i) + Step(s, op).0.chans[i].data == s.chans[i].data + In(s, op)
  {
    var found := Target(s, op);
    var n := if op.Read? then op.n else if op.Resume? && op.task in s.waiting then s.waiting[op.task].n else 0;
    assert s.chans[i].data + [] == s.chans[i].data == [] + s.chans[i].data;
    if found.Some? {
      TakenSplits(s, found.value, n, i);
    }
    hide Find, Taken, Woken, Hooked;
  }

  /** Over any run, a listener's readers get exactly what was written, in order, with nothing lost or doubled. */
  lemma {:induction false} Conserved(s: State, ops: seq<Op>, i: nat)
    requires i < |s.chans|
    ensures i < |Run(s, ops).chans|
    ensures Delivered(s, ops, i) + Run(s, ops).chans[i].data == s.chans[i].data + Sent(s, ops)
    decreases |ops|
  {
    hide Step;
    if ops != [] {
      var r := Step(s, ops[0]);
      StepConserves(s, ops[0], i);
      Conserved(r.0, ops[1..], i);
      Reassociate(Out(s, ops[0], i), Delivered(r.0, ops[1..], i), Run(s, ops).chans[i].data, r.0.chans[i].data,
                  Sent(r.0, ops[1..]), s.chans[i].data, In(s, ops[0]));
    }
  }

  /** A listener starts empty, so from its registration on its readers get what was written since. */
  lemma ConservedSinceRegistration(s: State, ops: seq<Op>)
    ensures var t := Step(s, NewListener).0;
            && |s.chans| < |Run(t, ops).chans|
            && Delivered(t, ops, |s.chans|) + Run(t, ops).chans[|s.chans|].data == Sent(t, ops)
  {
    var t := Step(s, NewListener).0;
    Conserved(t, ops, |s.chans|);
    assert t.chans[|s.chans|].data + Sent(t, ops) == Sent(t, ops);
  }

  // ----- writers -----

  /** An exclusive writer is alone. */
  predicate WritersOk(s: State) {
    s.exclusive ==> |s.writers| == 1
  }

  lemma {:induction false} WritersStayOk(s: State, ops: seq<Op>)
    requires WritersOk(s)
    ensures WritersOk(Run(s, ops))
    ensures s.exclusive ==> Run(s, ops).exclusive && Run(s, ops).writers == s.writers
    decreases |ops|
  {
    if ops != [] {
      WritersStayOk(Step(s, ops[0]).0, ops[1..]);
    }
  }

  /** Once a writer is exclusive, only its writes are ever accepted, and no writer is ever added. */
  lemma ExclusiveForever(s: State, ops: seq<Op>, op: Op)
    requires WritersOk(s) && s.exclusive
    ensures op.NewWriter? ==> Step(Run(s, ops), op).1 == Refused
    ensures op.Write? ==> (Step(Run(s, ops), op).1.Written? <==> op.writer == s.writers[0])
  {
    WritersStayOk(s, ops);
  }

  /** The ids given out by a run. */
  function Ids(s: State, ops: seq<Op>): seq<u32>
    decreases |ops|
  {
    if ops == [] then []
    else
      var r := Step(s, ops[0]);
      (if r.1.Id? then [r.1.id] else []) + Ids(r.0, ops[1..])
  }

  lemma StepId(s: State, op: Op)
    ensures Step(s, op).0.lastId == if Step(s, op).1.Id? then NextId(s.lastId) else s.lastId
    ensures Step(s, op).1.Id? ==> Step(s, op).1.id == NextId(s.lastId)
  {
  }

  /** Ids count up from the last one, modulo 2^32. */
  lemma {:induction false} IdsCount(s: State, ops: seq<Op>, k: nat)
    requires k < |Ids(s, ops)|
    ensures Ids(s, ops)[k] == (s.lastId + k + 1) % TWO32
    decreases |ops|
  {
    hide Step;
    var r := Step(s, ops[0]);
    StepId(s, ops[0]);
    if !r.1.Id? {
      IdsCount(r.0, ops[1..], k);
    } else if k > 0 {
      IdsCount(r.0, ops[1..], k - 1);
    }
  }

  /** Two registrations get the same id exactly when a multiple of 2^32 lies between them. */
  lemma IdsRepeat(s: State, ops: seq<Op>, j: nat, k: nat)
    requires j < k < |Ids(s, ops)|
    ensures Ids(s, ops)[j] == Ids(s, ops)[k] <==> (k - j) % TWO32 == 0
  {
    hide Ids;
    IdsCount(s, ops, j);
    IdsCount(s, ops, k);
  }

  function Registrations(n: nat): seq<Op> {
    if n == 0 then [] else [NewListener] + Registrations(n - 1)
  }

  lemma {:induction false} RegistrationIds(s: State, n: nat)
    ensures |Ids(s, Registrations(n))| == n
    decreases n
  {
    if n > 0 {
      assert Registrations(n)[1..] == Registrations(n - 1);
      RegistrationIds(Step(s, NewListener).0, n - 1);
    }
  }

  /** A run that gives the same id to two listeners. */
  lemma SameIdTwice()
    ensures |Ids(FRESH, Registrations(TWO32 + 1))| == TWO32 + 1
    ensures Ids(FRESH, Registrations(TWO32 + 1))[0] == Ids(FRESH, Registrations(TWO32 + 1))[TWO32]
  {
    RegistrationIds(FRESH, TWO32 + 1);
    hide Ids, Registrations;
    IdsRepeat(FRESH, Registrations(TWO32 + 1), 0, TWO32);
  }

  // ----- waiting readers -----

  /** What a run may do: a waiting task makes no calls, and a woken one resumes the call it parked. */
  predicate Allowed(s: State, op: Op) {
    match op
    case Read(task, _, _, _) => task !in s.waiting
    case Resume(task) => task in s.waiting && s.waiting[task].woken
    case _ => true
  }

  predicate AllowedRun(s: State, ops: seq<Op>)
    decreases |ops|
  {
    ops == [] || (Allowed(s, ops[0]) && AllowedRun(Step(s, ops[0]).0, ops[1..]))
  }

  /** The listener that an id names. */
  function Named(s: State, id: u32): Option<Chan> {
    match Find(s.chans, id)
    case Some(i) => Some(s.chans[i])
    case None => None
  }

  /** A parked task's listener is empty and will wake it; a woken task's listener has something for it. */
  predicate CallOk(c: Option<Chan>, task: nat, call: Call) {
    c.Some? && call.n > 0 && if call.woken then c.value.data != [] else c.value.data == [] && c.value.hook == Some(task)
  }

  ghost predicate OneReader(waiting: map<nat, Call>) {
    forall t, u :: t in waiting && u in waiting && t != u ==> waiting[t].listener != waiting[u].listener
  }

  /** No wait is in vain. */
  ghost predicate CallsOk(s: State) {
    forall t :: t in s.waiting ==> CallOk(Named(s, s.waiting[t].listener), t, s.waiting[t])
  }

  /** No wait is in vain, and no two tasks wait on one listener. */
  ghost predicate Awake(s: State) {
    CallsOk(s) && OneReader(s.waiting)
  }

  /** The operation does not read a listener that a task waits on. */
  predicate ReadsAlone(s: State, op: Op) {
    op.Read? ==> forall t :: t in s.waiting ==> s.waiting[t].listener != op.listener
  }

  /** Later listeners do not hide earlier ones. */
  lemma {:induction false} FindKeeps(a: seq<Chan>, b: seq<Chan>, id: u32)
    requires |a| <= |b| && forall i :: 0 <= i < |a| ==> a[i].id == b[i].id
    ensures Find(a, id).Some? ==> Find(b, id) == Find(a, id)
  {
    if a != [] && a[0].id != id {
      FindKeeps(a[1..], b[1..], id);
    }
  }

  lemma {:induction false} FindIs(chans: seq<Chan>, id: u32, i: nat)
    requires i < |chans| && chans[i].id == id && forall k :: 0 <= k < i ==> chans[k].id != id
    ensures Find(chans, id) == Some(i)
  {
    if i > 0 {
      FindIs(chans[1..], id, i - 1);
    }
  }

  lemma FindSame(a: seq<Chan>, b: seq<Chan>, id: u32)
    requires |a| == |b| && forall i :: 0 <= i < |a| ==> a[i].id == b[i].id
    ensures Find(a, id) == Find(b, id)
  {
    if Find(a, id).Some? {
      FindKeeps(a, b, id);
    } else if Find(b, id).Some? {
      FindKeeps(b, a, id);
    }
  }

  /** The ids of listeners never change. */
  lemma StepKeepsIds(s: State, op: Op)
    ensures |s.chans| <= |Step(s, op).0.chans|
    ensures forall i :: 0 <= i < |s.chans| ==> s.chans[i].id == Step(s, op).0.chans[i].id
  {
  }

  /** What registrations and writes leave of the listener that id names. */
  lemma NamedAfter(s: State, op: Op, id: u32)
    requires Named(s, id).Some? && !op.Read? && !op.Resume?
    ensures Named(Step(s, op).0, id) ==
            Some(Named(s, id).value.(data := Named(s, id).value.data +
                                             if op.Write? && op.writer in s.writers then op.data else []))
  {
    StepKeepsIds(s, op);
    FindKeeps(s.chans, Step(s, op).0.chans, id);
    assert Named(s, id).value.data + [] == Named(s, id).value.data;
  }

  /** What taking from one listener leaves of any. */
  lemma NamedTaken(s: State, id: u32, n: u32, other: u32)
    requires Find(s.chans, id).Some? && other != id
    ensures Named(Taken(s, Find(s.chans, id).value, n).0, other) == Named(s, other)
  {
    FindSame(s.chans, Taken(s, Find(s.chans, id).value, n).0.chans, other);
  }

  /** Waiting calls whose listeners are as before are as good as before. */
  lemma StillAwake(s: State, t: State)
    requires Awake(s)
    requires forall u :: u in t.waiting ==>
               && u in s.waiting && t.waiting[u] == s.waiting[u]
               && Named(t, s.waiting[u].listener) == Named(s, s.waiting[u].listener)
    ensures Awake(t)
  {
    hide Named, CallOk;
  }

  lemma RegisterAwake(s: State, op: Op)
    requires Awake(s) && (op.NewWriter? || op.NewListener?)
    ensures Awake(Step(s, op).0)
  {
    var t := Step(s, op).0;
    forall u | u in s.waiting ensures Named(t, s.waiting[u].listener) == Named(s, s.waiting[u].listener) {
      NamedAfter(s, op, s.waiting[u].listener);
      assert Named(s, s.waiting[u].listener).value.data + [] == Named(s, s.waiting[u].listener).value.data;
    }
    hide Named, Awake;
    StillAwake(s, t);
  }

  /** Some listener, whichever it is, would wake the task. */
  ghost predicate IsHooked(chans: seq<Chan>, task: nat) {
    exists i :: 0 <= i < |chans| && chans[i].hook == Some(task)
  }

  /** A write to any listener wakes a parked task that any listener is hooked to, and no other. */
  lemma WriteWakes(s: State, writer: u32, data: seq<byte>, task: nat)
    requires writer in s.writers && data != [] && task in s.waiting && !s.waiting[task].woken
    ensures task in Step(s, Write(writer, data)).0.waiting
    ensures Step(s, Write(writer, data)).0.waiting[task].woken <==> IsHooked(s.chans, task)
  {
  }

  lemma ParkedIsHooked(s: State, task: nat, id: u32)
    requires Named(s, id).Some? && Named(s, id).value.hook == Some(task)
    ensures task in Hooked(s.chans)
  {
  }

  /** A task that waited is woken by a write, and finds the bytes written. */
  lemma CallWoken(s: State, op: Op, task: nat)
    requires Awake(s) && op.Write? && op.writer in s.writers && op.data != [] && task in s.waiting
    ensures CallOk(Named(Step(s, op).0, s.waiting[task].listener), task, s.waiting[task].(woken := true))
    ensures !s.waiting[task].woken ==> task in Hooked(s.chans)
  {
    var call := s.waiting[task];
    assert CallOk(Named(s, call.listener), task, call);
    NamedAfter(s, op, call.listener);
    hide Named, Hooked, Step, Awake;
    if !call.woken {
      ParkedIsHooked(s, task, call.listener);
    }
  }

  lemma OneReaderStays(waiting: map<nat, Call>, tasks: set<nat>)
    requires OneReader(waiting)
    ensures OneReader(Woken(waiting, tasks))
  {
  }

  lemma WriteAwake(s: State, op: Op)
    requires Awake(s) && op.Write?
    ensures Awake(Step(s, op).0)
  {
    if op.writer in s.writers && op.data != [] {
      var t := Step(s, op).0;
      assert t.waiting == Woken(s.waiting, Hooked(s.chans));
      OneReaderStays(s.waiting, Hooked(s.chans));
      hide Named, Hooked, Step, OneReader, CallOk;
      forall u | u in t.waiting ensures CallOk(Named(t, t.waiting[u].listener), u, t.waiting[u]) {
        CallWoken(s, op, u);
        assert t.waiting[u] == s.waiting[u].(woken := true);
      }
    }
  }

  /** A resumed call always finds what it waited for. */
  lemma ResumeAwake(s: State, task: nat)
    requires Awake(s) && task in s.waiting && s.waiting[task].woken
    ensures Step(s, Resume(task)).1.Got? && Step(s, Resume(task)).1.data != []
    ensures Awake(Step(s, Resume(task)).0)
  {
    var call, t := s.waiting[task], Step(s, Resume(task)).0;
    assert CallOk(Named(s, call.listener), task, call);
    forall id: u32 | id != call.listener ensures Named(t, id) == Named(s, id) {
      NamedTaken(s, call.listener, call.n, id);
    }
    assert t.waiting == s.waiting - {task};
    hide Named, Step;
    StillAwake(s, t);
  }

  /** A read that is served leaves the waiting tasks as they were. */
  lemma ReadAwake(s: State, op: Op)
    requires Awake(s) && op.Read? && ReadsAlone(s, op) && !Step(s, op).1.Parked?
    ensures Awake(Step(s, op).0)
  {
    var t := Step(s, op).0;
    forall id: u32 | id != op.listener ensures Named(t, id) == Named(s, id) {
      if Find(s.chans, op.listener).Some? {
        NamedTaken(s, op.listener, op.n, id);
      }
    }
    assert t.waiting == s.waiting;
    hide Named, Step;
    StillAwake(s, t);
  }

  /** What parking leaves of any listener. */
  lemma NamedParked(s: State, op: Op, other: u32)
    requires op.Read? && Step(s, op).1.Parked?
    ensures Named(s, op.listener).Some? && Named(s, op.listener).value.data == [] && op.n > 0
    ensures Named(Step(s, op).0, other) ==
            if other == op.listener then Some(Named(s, other).value.(hook := Some(op.task))) else Named(s, other)
    ensures Step(s, op).0.waiting == s.waiting[op.task := Call(op.listener, op.n, false)]
  {
    FindSame(s.chans, Step(s, op).0.chans, other);
  }

  /** Parking a reader leaves no wait in vain exactly when no other task waits on the same listener. */
  lemma ParkingIsSafe(s: State, op: Op)
    requires CallsOk(s) && op.Read? && Allowed(s, op) && Step(s, op).1.Parked?
    ensures CallsOk(Step(s, op).0) <==> ReadsAlone(s, op)
    ensures OneReader(s.waiting) && ReadsAlone(s, op) ==> OneReader(Step(s, op).0.waiting)
  {
    var t := Step(s, op).0;
    forall id: u32
      ensures Named(t, id) ==
              if id == op.listener then Some(Named(s, id).value.(hook := Some(op.task))) else Named(s, id)
    {
      NamedParked(s, op, id);
    }
    NamedParked(s, op, op.listener);
    hide Named, Step;
    if u :| u in s.waiting && s.waiting[u].listener == op.listener {
      assert u != op.task && !CallOk(Named(t, t.waiting[u].listener), u, t.waiting[u]);
    } else {
      forall u | u in t.waiting ensures CallOk(Named(t, t.waiting[u].listener), u, t.waiting[u]) {
        assert u == op.task || CallOk(Named(s, s.waiting[u].listener), u, s.waiting[u]);
      }
    }
  }

  // ----- over runs -----

  /** In a run, every listener is read by one task at a time. */
  ghost predicate Orderly(s: State, ops: seq<Op>)
    decreases |ops|
  {
    ops == [] || (Allowed(s, ops[0]) && ReadsAlone(s, ops[0]) && Orderly(Step(s, ops[0]).0, ops[1..]))
  }

  lemma StepAwake(s: State, op: Op)
    requires Awake(s) && Allowed(s, op) && ReadsAlone(s, op)
    ensures Awake(Step(s, op).0)
  {
    hide CallsOk, OneReader, Step, ReadsAlone;
    match op
    case Write(_, _) => WriteAwake(s, op);
    case Read(_, _, _, _) => if Step(s, op).1.Parked? { ParkingIsSafe(s, op); } else { ReadAwake(s, op); }
    case Resume(task) => ResumeAwake(s, task);
    case _ => RegisterAwake(s, op);
  }

  /**
   * Over any orderly run no wake-up is lost or spurious: a parked task's listener is empty and hooked to it, and a
   * task that resumes is given something.
   */
  lemma {:induction false} ReadersAreServed(s: State, ops: seq<Op>, task: nat)
    requires Awake(s) && Orderly(s, ops)
    ensures Awake(Run(s, ops))
    ensures task in Run(s, ops).waiting && Run(s, ops).waiting[task].woken ==>
              Step(Run(s, ops), Resume(task)).1.Got? && Step(Run(s, ops), Resume(task)).1.data != []
    decreases |ops|
  {
    hide Awake, Step;
    if ops == [] {
      if task in s.waiting && s.waiting[task].woken {
        ResumeAwake(s, task);
      }
    } else {
      StepAwake(s, ops[0]);
      ReadersAreServed(Step(s, ops[0]).0, ops[1..], task);
    }
  }

  lemma FreshAwake()
    ensures Awake(FRESH) && WritersOk(FRESH)
  {
  }

  /** From a fresh stream on, in every orderly run: a parked reader is hooked, and a resumed one is given bytes. */
  lemma FreshReadersAreServed(ops: seq<Op>, task: nat)
    requires Orderly(FRESH, ops) && task in Run(FRESH, ops).waiting
    ensures var s := Run(FRESH, ops);
            && CallOk(Named(s, s.waiting[task].listener), task, s.waiting[task])
            && (s.waiting[task].woken ==> Step(s, Resume(task)).1.Got? && Step(s, Resume(task)).1.data != [])
  {
    FreshAwake();
    ReadersAreServed(FRESH, ops, task);
  }

  // ----- displaced readers -----

  ghost predicate Asleep(s: State, task: nat) {
    task in s.waiting && !s.waiting[task].woken
  }

  /** A parked task that no listener is hooked to is never woken. */
  lemma {:induction false} LostForever(s: State, ops: seq<Op>, task: nat)
    requires Asleep(s, task) && !IsHooked(s.chans, task) && AllowedRun(s, ops)
    ensures Asleep(Run(s, ops), task)
    decreases |ops|
  {
    if ops != [] {
      LostStep(s, ops[0], task);
      hide Step, IsHooked, Allowed;
      LostForever(Step(s, ops[0]).0, ops[1..], task);
    }
  }

  /** Only a task that parks is hooked anew. */
  lemma StepHooks(s: State, op: Op, i: nat)
    requires i < |Step(s, op).0.chans|
    ensures var h := Step(s, op).0.chans[i].hook;
            h == None || (i < |s.chans| && h == s.chans[i].hook) || (op.Read? && h == Some(op.task))
  {
  }

  lemma LostStep(s: State, op: Op, task: nat)
    requires Asleep(s, task) && !IsHooked(s.chans, task) && Allowed(s, op)
    ensures Asleep(Step(s, op).0, task) && !IsHooked(Step(s, op).0.chans, task)
  {
    StillParked(s, op, task);
    hide Step, Hooked;
    forall i | 0 <= i < |Step(s, op).0.chans| ensures Step(s, op).0.chans[i].hook != Some(task) {
      StepHooks(s, op, i);
    }
  }

  lemma StillParked(s: State, op: Op, task: nat)
    requires Asleep(s, task) && !IsHooked(s.chans, task) && Allowed(s, op)
    ensures Asleep(Step(s, op).0, task)
  {
    hide Appended, Find;
  }

  /** A run that writes, for which it registers a writer if there is none. */
  function Writing(s: State): seq<Op> {
    if s.writers == [] then [NewWriter(false), Write(NextId(s.lastId), [0])] else [Write(s.writers[0], [0])]
  }

  lemma WritingWakes(s: State, task: nat)
    requires WritersOk(s) && Asleep(s, task) && IsHooked(s.chans, task)
    ensures AllowedRun(s, Writing(s)) && !Asleep(Run(s, Writing(s)), task)
  {
    if s.writers == [] {
      var t := Step(s, NewWriter(false)).0;
      assert t == s.(writers := [NextId(s.lastId)], lastId := NextId(s.lastId));
      WriteWakes(t, t.writers[0], [0], task);
      hide Step, IsHooked;
      assert Writing(s)[1..] == [Write(t.writers[0], [0])];
      RunWrite(t, t.writers[0]);
    } else {
      WriteWakes(s, s.writers[0], [0], task);
      hide Step, IsHooked;
      RunWrite(s, s.writers[0]);
    }
  }

  lemma RunWrite(s: State, writer: u32)
    ensures Run(s, [Write(writer, [0])]) == Step(s, Write(writer, [0])).0 && AllowedRun(s, [Write(writer, [0])])
  {
    hide Step;
  }

  /**
   A reader that a later one displaces from its listener's hook waits for ever exactly when no other listener has
   been left hooked to it. Hooks are never taken off, so one may be left from an earlier wait.
   */
  lemma DisplacedIsLost(s: State, op: Op, task: nat)
    requires WritersOk(s) && CallsOk(s) && op.Read? && Allowed(s, op) && Step(s, op).1.Parked?
    requires task in s.waiting && s.waiting[task].listener == op.listener
    ensures Asleep(Step(s, op).0, task)
    ensures (forall ops :: AllowedRun(Step(s, op).0, ops) ==> Asleep(Run(Step(s, op).0, ops), task)) <==>
            (forall i :: 0 <= i < |s.chans| && Some(i) != Find(s.chans, op.listener) ==> s.chans[i].hook != Some(task))
  {
    var t, found := Step(s, op).0, Find(s.chans, op.listener).value;
    NamedParked(s, op, op.listener);
    assert CallOk(Named(s, op.listener), task, s.waiting[task]);
    assert t.chans == s.chans[found := s.chans[found].(hook := Some(op.task))] && WritersOk(t);
    hide Step, CallOk, Named, CallsOk, Find;
    if IsHooked(t.chans, task) {
      WritingWakes(t, task);
      var i :| 0 <= i < |t.chans| && t.chans[i].hook == Some(task);
      assert i != found && s.chans[i].hook == Some(task);
    } else {
      forall ops | AllowedRun(t, ops) ensures Asleep(Run(t, ops), task) {
        LostForever(t, ops, task);
      }
      forall i | 0 <= i < |s.chans| && i != found ensures s.chans[i].hook != Some(task) {
        assert t.chans[i] == s.chans[i];
      }
    }
  }

  /** If two tasks have been woken for one listener, the one that runs second is the panic exactly when the first
      leaves it nothing. */
  lemma SecondResumes(s: State, first: nat, second: nat)
    requires first in s.waiting && second in s.waiting && first != second
    requires s.waiting[first].woken && s.waiting[second].woken
    requires s.waiting[first].listener == s.waiting[second].listener
    requires Named(s, s.waiting[first].listener).Some? && s.waiting[first].n > 0 && s.waiting[second].n > 0
    requires Named(s, s.waiting[first].listener).value.data != []
    ensures Step(s, Resume(first)).1.Got?
    ensures Step(Step(s, Resume(first)).0, Resume(second)).1 == Panic <==>
            s.waiting[first].n >= |Named(s, s.waiting[first].listener).value.data|
  {
    var t := Step(s, Resume(first)).0;
    FindSame(s.chans, t.chans, s.waiting[first].listener);
  }

  /** Task 7 reads listener 2 and is served. */
  function Served(): seq<Op> {
    [NewWriter(false), NewListener, Read(7, 2, 1, true), Write(1, [0]), Resume(7)]
  }

  /** Then it waits on listener 3, where task 8 displaces it; a write wakes both, and task 8 runs first. */
  function Displacing(): seq<Op> {
    [NewListener, Read(7, 3, 1, true), Read(8, 3, 1, true), Write(1, [0]), Resume(8)]
  }

  lemma RunsTo(s: State, op: Op, ops: seq<Op>)
    requires Allowed(s, op)
    ensures Run(s, [op] + ops) == Run(Step(s, op).0, ops)
    ensures AllowedRun(s, [op] + ops) <==> AllowedRun(Step(s, op).0, ops)
  {
    hide Step, Allowed;
    assert ([op] + ops)[1..] == ops;
  }

  /** A write of one byte, by what it leaves. */
  lemma WriteIs(s: State, writer: u32, chans: seq<Chan>, waiting: map<nat, Call>)
    requires writer in s.writers && |chans| == |s.chans| && waiting.Keys == s.waiting.Keys
    requires forall i :: 0 <= i < |chans| ==> chans[i] == s.chans[i].(data := s.chans[i].data + [0])
    requires forall t :: t in waiting ==> IsHooked(s.chans, t) && waiting[t] == s.waiting[t].(woken := true)
    ensures Step(s, Write(writer, [0])).0 == s.(chans := chans, waiting := waiting)
  {
    assert Appended(s.chans, [0]) == chans;
    assert Woken(s.waiting, Hooked(s.chans)) == waiting;
  }

  /** A call for one byte that takes the only one of listener i. */
  lemma ResumeIs(s: State, task: nat, i: nat, chan: Chan, waiting: map<nat, Call>)
    requires task in s.waiting && s.waiting[task].woken && s.waiting[task].n == 1 && waiting == s.waiting - {task}
    requires i < |s.chans| && Find(s.chans, s.waiting[task].listener) == Some(i)
    requires |s.chans[i].data| == 1 && chan == s.chans[i].(data := [])
    ensures Step(s, Resume(task)).0 == s.(chans := s.chans[i := chan], waiting := waiting)
  {
    assert s.chans[i].data[1..] == [];
  }

  lemma ParkIs(s: State, task: nat, i: nat, id: u32, chans: seq<Chan>, waiting: map<nat, Call>)
    requires i < |s.chans| && Find(s.chans, id) == Some(i) && s.chans[i].data == []
    requires chans == s.chans[i := s.chans[i].(hook := Some(task))] && waiting == s.waiting[task := Call(id, 1, false)]
    ensures Step(s, Read(task, id, 1, true)).0 == s.(chans := chans, waiting := waiting)
  {
  }

  const ONE_LISTENER := State(false, [1], [Chan(2, [], None)], 2, map[])
  const SEVEN_WAITS := ONE_LISTENER.(chans := [Chan(2, [], Some(7))], waiting := map[7 := Call(2, 1, false)])
  const SEVEN_WOKEN := ONE_LISTENER.(chans := [Chan(2, [0], Some(7))], waiting := map[7 := Call(2, 1, true)])
  const SERVED := ONE_LISTENER.(chans := [Chan(2, [], Some(7))])
  const TWO_LISTENERS := State(false, [1], [Chan(2, [], Some(7)), Chan(3, [], None)], 3, map[])
  const WAITS_AGAIN := TWO_LISTENERS.(chans := [Chan(2, [], Some(7)), Chan(3, [], Some(7))],
                                      waiting := map[7 := Call(3, 1, false)])
  const DISPLACED := TWO_LISTENERS.(chans := [Chan(2, [], Some(7)), Chan(3, [], Some(8))],
                                    waiting := map[7 := Call(3, 1, false), 8 := Call(3, 1, false)])
  const BOTH_WOKEN := TWO_LISTENERS.(chans := [Chan(2, [0], Some(7)), Chan(3, [0], Some(8))],
                                     waiting := map[7 := Call(3, 1, true), 8 := Call(3, 1, true)])
  const NOTHING_LEFT := TWO_LISTENERS.(chans := [Chan(2, [0], Some(7)), Chan(3, [], Some(8))],
                                       waiting := map[7 := Call(3, 1, true)])

  lemma SevenWaits()
    ensures Step(Step(FRESH, NewWriter(false)).0, NewListener).0 == ONE_LISTENER
    ensures Step(ONE_LISTENER, Read(7, 2, 1, true)).0 == SEVEN_WAITS
  {
    FindIs(ONE_LISTENER.chans, 2, 0);
    hide Find;
    ParkIs(ONE_LISTENER, 7, 0, 2, SEVEN_WAITS.chans, SEVEN_WAITS.waiting);
  }

  lemma SevenServed()
    ensures Step(SEVEN_WAITS, Write(1, [0])).0 == SEVEN_WOKEN && Step(SEVEN_WOKEN, Resume(7)).0 == SERVED
  {
    hide Step;
    assert SEVEN_WAITS.chans[0].hook == Some(7);
    WriteIs(SEVEN_WAITS, 1, SEVEN_WOKEN.chans, SEVEN_WOKEN.waiting);
    FindIs(SEVEN_WOKEN.chans, 2, 0);
    ResumeIs(SEVEN_WOKEN, 7, 0, SERVED.chans[0], map[]);
    assert SEVEN_WOKEN.chans[0 := SERVED.chans[0]] == SERVED.chans;
  }

  lemma EightDisplaces()
    ensures Step(SERVED, NewListener).0 == TWO_LISTENERS
    ensures Step(TWO_LISTENERS, Read(7, 3, 1, true)).0 == WAITS_AGAIN
    ensures Step(WAITS_AGAIN, Read(8, 3, 1, true)).0 == DISPLACED
  {
    FindIs(TWO_LISTENERS.chans, 3, 1);
    FindIs(WAITS_AGAIN.chans, 3, 1);
    hide Find;
    ParkIs(TWO_LISTENERS, 7, 1, 3, WAITS_AGAIN.chans, WAITS_AGAIN.waiting);
    ParkIs(WAITS_AGAIN, 8, 1, 3, DISPLACED.chans, DISPLACED.waiting);
  }

  lemma BothWoken()
    ensures Step(DISPLACED, Write(1, [0])).0 == BOTH_WOKEN
  {
    hide Step;
    assert DISPLACED.chans[0].hook == Some(7) && DISPLACED.chans[1].hook == Some(8);
    WriteIs(DISPLACED, 1, BOTH_WOKEN.chans, BOTH_WOKEN.waiting);
  }

  lemma NothingLeft()
    ensures Step(BOTH_WOKEN, Resume(8)).0 == NOTHING_LEFT
  {
    hide Step;
    FindIs(BOTH_WOKEN.chans, 3, 1);
    ResumeIs(BOTH_WOKEN, 8, 1, NOTHING_LEFT.chans[1], NOTHING_LEFT.waiting);
    assert BOTH_WOKEN.chans[1 := NOTHING_LEFT.chans[1]] == NOTHING_LEFT.chans;
  }

  lemma ServedIs()
    ensures AllowedRun(FRESH, Served()) && Run(FRESH, Served()) == SERVED
  {
    SevenWaits();
    SevenServed();
    hide Step;
    RunsTo(SEVEN_WOKEN, Resume(7), []);
    RunsTo(SEVEN_WAITS, Write(1, [0]), [Resume(7)]);
    RunsTo(ONE_LISTENER, Read(7, 2, 1, true), Served()[3..]);
    RunsTo(Step(FRESH, NewWriter(false)).0, NewListener, Served()[2..]);
    RunsTo(FRESH, NewWriter(false), Served()[1..]);
  }

  lemma DisplacedIs()
    ensures AllowedRun(SERVED, Displacing()) && Run(SERVED, Displacing()) == NOTHING_LEFT
  {
    EightDisplaces();
    BothWoken();
    NothingLeft();
    hide Step;
    RunsTo(BOTH_WOKEN, Resume(8), []);
    RunsTo(DISPLACED, Write(1, [0]), [Resume(8)]);
    RunsTo(WAITS_AGAIN, Read(8, 3, 1, true), Displacing()[3..]);
    RunsTo(TWO_LISTENERS, Read(7, 3, 1, true), Displacing()[2..]);
    RunsTo(SERVED, NewListener, Displacing()[1..]);
  }

  /** A displaced reader that is woken through an old hook can be the panic of blocking twice. */
  lemma StaleHookPanics()
    ensures AllowedRun(FRESH, Served()) && AllowedRun(Run(FRESH, Served()), Displacing())
    ensures Allowed(Run(Run(FRESH, Served()), Displacing()), Resume(7))
    ensures Step(Run(Run(FRESH, Served()), Displacing()), Resume(7)).1 == Panic
  {
    hide Run, AllowedRun;
    ServedIs();
    DisplacedIs();
    FindIs(NOTHING_LEFT.chans, 3, 1);
  }

  // ----- the objects -----

  class Listener {
    const id: u32
    var buffer: array?<byte>
    var buflen: nat
    var hooked: Option<nat>

    /** Bytes not yet read are at the front of the buffer; an empty listener has none. */
    ghost predicate Valid()
      reads this
    {
      if buffer == null then buflen == 0 else 0 < buflen <= buffer.Length
    }

    ghost function Contents(): seq<byte>
      requires Valid()
      reads this, buffer
    {
      if buffer == null then [] else buffer[..buflen]
    }

    constructor (id: u32)
      ensures Valid() && buffer == null && this.id == id && hooked == None && Contents() == []
    {
      this.id, buffer, buflen, hooked := id, null, 0, None;
    }

    /** Adds n bytes at the back in a new buffer, and says which task to wake. */
    method Append(data: array<byte>, n: nat) returns (wake: Option<nat>)
      requires Valid() && n <= data.Length
      modifies this`buffer, this`buflen
      ensures Valid() && Contents() == old(Contents()) + data[..n]
      ensures if n == 0 then buffer == old(buffer) else fresh(buffer)
      ensures wake == if n > 0 then hooked else None
    {
      if n == 0 {
        assert data[..0] == [];
        return None;
      }
      if buffer == null {
        buflen := n;
        buffer := new byte[n];
        Memcpy(buffer, 0, data, 0, n);
        Whole(buffer, data[..n]);
      } else {
        var newbuf := new byte[buflen + n];
        ghost var blank := newbuf[..];
        Memcpy(newbuf, 0, buffer, 0, buflen);
        Memcpy(newbuf, buflen, data, 0, n);
        PatchJoin(blank, 0, buffer[0..buflen], data[0..n]);
        assert buffer[0..buflen] == Contents() && data[0..n] == data[..n];
        buffer := newbuf;
        buflen := buflen + n;
      }
      return hooked;
    }

    static lemma Whole(a: array<byte>, data: seq<byte>)
      requires a.Length == |data|
      ensures a[..|data|] == a[..]
    {
    }

    /** Drops n bytes from the front, moving the rest down within the buffer. */
    method Cut(n: nat)
      requires Valid()
      modifies this`buffer, this`buflen, buffer
      ensures Valid() && (buffer == null || buffer == old(buffer))
      ensures Contents() == old(Contents())[Min(n, |old(Contents())|)..]
    {
      if buffer == null {
        return;
      }
      if buflen <= n {
        buffer := null;
        buflen := 0;
      } else {
        ghost var was := buffer[..];
        var chars: array<byte>, rm, at := buffer, buflen - n, 0;
        while at < rm
          invariant 0 <= at <= rm && chars == buffer && buflen == old(buflen)
          invariant forall k :: 0 <= k < at ==> chars[k] == was[k + n]
          invariant forall k :: at <= k < chars.Length ==> chars[k] == was[k]
        {
          chars[at] := chars[at + n];
          at := at + 1;
        }
        buflen := buflen - n;
      }
    }
  }

  class Stream {
    var exclusive: bool
    var writers: seq<u32>
    var listeners: seq<Listener>
    var wlId: u32
    /** The calls that tasks have parked on this stream. */
    var waiting: map<nat, Call>
    ghost var s: State

    static ghost predicate Is(l: Listener, c: Chan)
      reads l, l.buffer
    {
      l.Valid() && c == Chan(l.id, l.Contents(), l.hooked)
    }

    /** The listeners are separate objects with separate buffers. */
    static ghost predicate Separate(ls: seq<Listener>)
      reads ls
    {
      && (forall i, j :: 0 <= i < j < |ls| ==> ls[i] != ls[j])
      && (forall i, j :: 0 <= i < j < |ls| ==> ls[i].buffer == null || ls[i].buffer != ls[j].buffer)
    }

    static ghost function Buffers(ls: seq<Listener>): set<array?<byte>>
      reads ls
    {
      set l | l in ls :: l.buffer
    }

    ghost predicate Valid()
      reads this, listeners, Buffers(listeners)
    {
      && s == State(exclusive, writers, s.chans, wlId, waiting)
      && Separate(listeners) && |s.chans| == |listeners|
      && forall i :: 0 <= i < |listeners| ==> Is(listeners[i], s.chans[i])
    }

    constructor ()
      ensures Valid() && s == FRESH
    {
      exclusive, writers, listeners, wlId, waiting := false, [], [], 0, map[];
      s := FRESH;
    }

    method RegisterWriter(exclusive: bool) returns (id: u32)
      requires Valid()
      modifies this
      ensures Valid() && listeners == old(listeners) && s == Step(old(s), NewWriter(exclusive)).0
      ensures match Step(old(s), NewWriter(exclusive)).1
              case Id(n) => id == n
              case _ => id == TWO32 - 1
    {
      if this.exclusive {
        return TWO32 - 1;
      }
      if exclusive {
        if writers != [] {
          return TWO32 - 1;
        }
        this.exclusive := true;
      }
      wlId := NextId(wlId);
      writers := writers + [wlId];
      s := Step(s, NewWriter(exclusive)).0;
      return wlId;
    }

    method RegisterListener() returns (id: u32)
      requires Valid()
      modifies this
      ensures Valid() && s == Step(old(s), NewListener).0 && Step(old(s), NewListener).1 == Id(id)
      ensures listeners[..|old(listeners)|] == old(listeners) && fresh(listeners[|old(listeners)|])
    {
      wlId := NextId(wlId);
      var l := new Listener(wlId);
      listeners := listeners + [l];
      s := Step(s, NewListener).0;
      return wlId;
    }

    method HasWriter(id: u32) returns (found: bool)
      requires Valid()
      ensures found <==> id in s.writers
    {
      var i := 0;
      while i < |writers|
        invariant 0 <= i <= |writers| && id !in writers[..i]
      {
        if writers[i] == id {
          return true;
        }
        i := i + 1;
      }
      return false;
    }

    /** The listener with this id, if there is one. */
    method GetListener(id: u32) returns (r: Option<nat>)
      requires Valid()
      ensures r == Find(s.chans, id)
    {
      hide Find;
      var i := 0;
      while i < |listeners|
        invariant 0 <= i <= |listeners| && forall k :: 0 <= k < i ==> s.chans[k].id != id
      {
        IsListener(listeners[i], s.chans[i]);
        if listeners[i].id == id {
          FindIs(s.chans, id, i);
          return Some(i);
        }
        i := i + 1;
      }
      assert Find(s.chans, id).None?;
      return None;
    }

    /** All listeners are as described. */
    static ghost predicate All(ls: seq<Listener>, chans: seq<Chan>)
      reads ls, Buffers(ls)
    {
      |ls| == |chans| && forall i :: 0 <= i < |ls| ==> Is(ls[i], chans[i])
    }

    /** Appends to one listener, leaving the others. */
    method AppendTo(l: Listener, i: nat, data: array<byte>, n: nat, ghost chans: seq<Chan>) returns (wake: Option<nat>)
      requires Separate(listeners) && i < |listeners| && l == listeners[i] && All(listeners, chans) && n <= data.Length
      modifies l`buffer, l`buflen
      ensures Separate(listeners) && All(listeners, chans[i := chans[i].(data := chans[i].data + data[..n])])
      ensures wake == if n > 0 then chans[i].hook else None
    {
      hide Is;
      IsListener(l, chans[i]);
      wake := l.Append(data, n);
      ListenerIs(l, chans[i].(data := chans[i].data + data[..n]));
    }

    /** Appends to every listener, waking the task that each is hooked to. */
    method WriteAllListeners(data: array<byte>, n: nat)
      requires Valid() && n <= data.Length
      modifies this`waiting, this`s, listeners`buffer, listeners`buflen
      ensures Valid()
      ensures s == old(s).(chans := Appended(old(s.chans), data[..n]),
                           waiting := if n > 0 then Woken(old(s.waiting), Hooked(old(s.chans))) else old(s.waiting))
    {
      hide Is, Hooked, Appended, Woken, Separate, All;
      ghost var chans, all, cs := s.chans, Appended(s.chans, data[..n]), s.chans;
      AllIs(listeners, chans);
      WokenByNone(waiting);
      var i, tasks := 0, waiting;
      while i < |listeners|
        invariant 0 <= i <= |listeners| && s == old(s) && Separate(listeners) && |cs| == |chans|
        invariant forall k :: 0 <= k < |chans| ==> cs[k] == if k < i then all[k] else chans[k]
        invariant All(listeners, cs) && waiting == old(waiting)
        invariant tasks == if n > 0 then Woken(waiting, Hooked(chans[..i])) else waiting
      {
        var wake := AppendTo(listeners[i], i, data, n, cs);
        cs := cs[i := cs[i].(data := cs[i].data + data[..n])];
        WokenByNext(waiting, chans, i);
        if wake.Some? && wake.value in tasks {
          tasks := tasks[wake.value := tasks[wake.value].(woken := true)];
        }
        i := i + 1;
      }
      assert chans[..i] == chans && cs == all;
      AllIs(listeners, all);
      waiting := tasks;
      s := s.(chans := all, waiting := waiting);
    }

    static lemma AllIs(ls: seq<Listener>, chans: seq<Chan>)
      requires |ls| == |chans|
      ensures All(ls, chans) <==> forall i :: 0 <= i < |ls| ==> Is(ls[i], chans[i])
    {
    }

    static lemma IsListener(l: Listener, c: Chan)
      requires Is(l, c)
      ensures l.Valid() && c == Chan(l.id, l.Contents(), l.hooked)
    {
    }

    static lemma ListenerIs(l: Listener, c: Chan)
      requires l.Valid() && c == Chan(l.id, l.Contents(), l.hooked)
      ensures Is(l, c)
    {
    }

    /** Waking listener by listener wakes the hooked. */
    static lemma WokenByNext(w: map<nat, Call>, chans: seq<Chan>, i: nat)
      requires i < |chans|
      ensures Woken(w, Hooked(chans[..i + 1])) ==
              var v := Woken(w, Hooked(chans[..i]));
              if chans[i].hook.Some? && chans[i].hook.value in v then
                v[chans[i].hook.value := v[chans[i].hook.value].(woken := true)]
              else v
    {
      hide Hooked;
      assert chans[..i + 1] == chans[..i] + [chans[i]];
      assert Hooked(chans[..i + 1]) == Hooked(chans[..i]) + if chans[i].hook.Some? then {chans[i].hook.value} else {};
    }

    static lemma WokenByNone(w: map<nat, Call>)
      ensures Woken(w, Hooked([])) == w
    {
    }

    /** A write by a registered writer reaches every listener. */
    method WriteStream(writer: u32, data: array<byte>, n: nat) returns (r: int)
      requires Valid() && n <= data.Length
      modifies this`waiting, this`s, listeners`buffer, listeners`buflen
      ensures Valid() && s == Step(old(s), Write(writer, data[..n])).0
      ensures r == match Step(old(s), Write(writer, data[..n])).1 case Written(k) => k case _ => TWO32 - 1
    {
      hide Woken, Hooked;
      var ok := HasWriter(writer);
      if !ok {
        return TWO32 - 1;
      }
      WriteAllListeners(data, n);
      if n == 0 {
        AppendedNothing(old(s.chans), data[..n]);
      }
      return n;
    }

    static lemma AppendedNothing(chans: seq<Chan>, data: seq<byte>)
      requires data == []
      ensures Appended(chans, data) == chans
    {
      var all := Appended(chans, data);
      forall i | 0 <= i < |chans| ensures all[i] == chans[i] {
        assert chans[i].data + data == chans[i].data;
      }
    }

    /** Reads up to n bytes from a listener, or finds that the call would block. */
    method Perform(l: Listener, i: nat, buffer: array<byte>, n: nat, ghost chans: seq<Chan>)
      returns (blocks: bool, len: nat)
      requires Separate(listeners) && i < |listeners| && l == listeners[i] && All(listeners, chans)
      requires n <= buffer.Length && buffer !in Buffers(listeners)
      modifies l`buffer, l`buflen, l.buffer, buffer
      ensures Separate(listeners) && len <= n
      ensures blocks <==> n > 0 && chans[i].data == []
      ensures n == 0 || blocks ==> len == 0 && All(listeners, chans)
      ensures n > 0 && !blocks ==>
                && len == Min(n, |chans[i].data|) && buffer[..len] == chans[i].data[..len]
                && All(listeners, chans[i := chans[i].(data := chans[i].data[len..])])
    {
      hide Is;
      IsListener(l, chans[i]);
      if n == 0 {
        return false, 0;
      }
      len := l.buflen;
      if len == 0 {
        return true, 0;
      }
      if len > n {
        len := n;
      }
      Memcpy(buffer, 0, l.buffer, 0, len);
      ghost var got := buffer[..];
      assert got[..len] == l.buffer[0..len];
      assert l.buffer[0..len] == chans[i].data[..len];
      l.Cut(len);
      ListenerIs(l, chans[i].(data := chans[i].data[len..]));
      assert buffer[..] == got;
      assert buffer[..len] == got[..len];
      blocks := false;
    }

    /** Reads from a listener; a task that may wait and finds nothing is parked and hooked to it. */
    method ReadStream(task: nat, listener: u32, buffer: array<byte>, n: u32, block: bool) returns (reply: Reply)
      requires Valid() && n <= buffer.Length && buffer !in Buffers(listeners)
      modifies this`waiting, this`s, listeners`buffer, listeners`buflen, listeners`hooked, Buffers(listeners), buffer
      ensures Valid() && (s, reply) == Step(old(s), Read(task, listener, n, block))
      ensures reply.Got? ==> |reply.data| <= n && buffer[..|reply.data|] == reply.data
    {
      hide Is, Separate, All, Find;
      ghost var chans := s.chans;
      AllIs(listeners, chans);
      var found := GetListener(listener);
      if found.None? {
        return Panic;
      }
      var i := found.value;
      var l := listeners[i];
      var blocks, len := Perform(l, i, buffer, n, chans);
      if !blocks {
        if n > 0 {
          chans := chans[i := chans[i].(data := chans[i].data[len..])];
        }
        AllIs(listeners, chans);
        s := s.(chans := chans);
        return Got(buffer[..len]);
      }
      if !block {
        AllIs(listeners, chans);
        return Got([]);
      }
      Hook(l, i, task, chans);
      chans := chans[i := chans[i].(hook := Some(task))];
      AllIs(listeners, chans);
      waiting := waiting[task := Call(listener, n, false)];
      s := s.(chans := chans, waiting := waiting);
      return Parked;
    }

    method Hook(l: Listener, i: nat, task: nat, ghost chans: seq<Chan>)
      requires Separate(listeners) && i < |listeners| && l == listeners[i] && All(listeners, chans)
      modifies l`hooked
      ensures Separate(listeners) && All(listeners, chans[i := chans[i].(hook := Some(task))])
    {
      hide Is;
      IsListener(l, chans[i]);
      l.hooked := Some(task);
      ListenerIs(l, chans[i].(hook := Some(task)));
    }

    /** Runs the call of a woken task again. */
    method ResumeRead(task: nat, buffer: array<byte>) returns (reply: Reply)
      requires Valid() && buffer !in Buffers(listeners)
      requires task in waiting ==> waiting[task].n <= buffer.Length
      modifies this`waiting, this`s, listeners`buffer, listeners`buflen, Buffers(listeners), buffer
      ensures Valid() && (s, reply) == Step(old(s), Resume(task))
      ensures reply.Got? ==> |reply.data| <= buffer.Length && buffer[..|reply.data|] == reply.data
    {
      hide Is, Separate, All, Find;
      if task !in waiting || !waiting[task].woken {
        return Panic;
      }
      var call := waiting[task];
      ghost var chans := s.chans;
      AllIs(listeners, chans);
      var found := GetListener(call.listener);
      if found.None? {
        return Panic;
      }
      var i := found.value;
      var blocks, len := Perform(listeners[i], i, buffer, call.n, chans);
      AllIs(listeners, if call.n > 0 && !blocks then chans[i := chans[i].(data := chans[i].data[len..])] else chans);
      if blocks {
        return Panic;
      }
      if call.n > 0 {
        s := s.(chans := chans[i := chans[i].(data := chans[i].data[len..])]);
      }
      waiting := waiting - {task};
      s := s.(waiting := waiting);
      return Got(buffer[..len]);
    }
  }
}
