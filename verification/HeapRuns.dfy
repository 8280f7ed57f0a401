/** The allocator over whole runs: the area stays tiled, and nobody's block is touched but by its own free. */
module HeapRuns {
  import opened Base
  import opened Layouts
  import opened Heaps

  datatype Op = Alloc(n: u32, aligned: bool) | Free(p: nat)

  /** The index after one call; a request that fits no hole stops the kernel, and leaves the index alone here. */
  function Step(ix: seq<Entry>, op: Op): seq<Entry> {
    match op
    case Alloc(n, aligned) =>
      (match FirstFit(ix, n, aligned) case Some(i) => Allocated(ix, i, n, aligned) case None => ix)
    case Free(p) => (match StartsAt(ix, p) case Some(i) => FreedAt(ix, i) case None => ix)
  }

  function Run(ix: seq<Entry>, ops: seq<Op>): seq<Entry>
    decreases |ops|
  {
    if ops == [] then ix else Run(Step(ix, ops[0]), ops[1..])
  }

  /** No request is for nothing, and none for an aligned block is for 2^31 bytes or more. */
  predicate Sound(op: Op) {
    op.Alloc? ==> 0 < op.n && (op.aligned ==> op.n < 0x8000_0000)
  }

  ghost predicate AllSound(ops: seq<Op>) {
    forall i :: 0 <= i < |ops| ==> Sound(ops[i])
  }

  lemma StepTiles(t: seq<Entry>, ix: seq<Entry>, lo: nat, hi: nat, op: Op) returns (t': seq<Entry>)
    requires Area(lo, hi) && Lays(t, ix, lo, hi) && Sound(op)
    ensures Lays(t', Step(ix, op), lo, hi)
    ensures forall e :: e in Live(ix) && op != Free(e.start) ==> e in Live(Step(ix, op))
  {
    hide Lays, Allocated, FreedAt, Live;
    t' := t;
    match op
    case Alloc(n, aligned) =>
      var fit := FirstFit(ix, n, aligned);
      if fit.Some? {
        AllocOk(t, ix, lo, hi, fit.value, n, aligned);
        t' :| Lays(t', Allocated(ix, fit.value, n, aligned), lo, hi);
      }
    case Free(p) =>
      var at := StartsAt(ix, p);
      if at.Some? {
        t' := FreeOk(t, ix, lo, hi, at.value);
      }
  }

  /** Starts name an entry of the index. */
  lemma StartNames(t: seq<Entry>, ix: seq<Entry>, lo: nat, hi: nat, d: Entry, e: Entry)
    requires Lays(t, ix, lo, hi) && d in ix && e in ix && d.start == e.start
    ensures d == e
  {
    SameMembers(t, ix);
    var i :| 0 <= i < |t| && t[i] == d;
    var j :| 0 <= j < |t| && t[j] == e;
    Unique(t, lo, hi, i, j);
  }

  /** A free takes out exactly the block that starts there, if there is one. */
  lemma FreeLive(t: seq<Entry>, ix: seq<Entry>, lo: nat, hi: nat, p: nat)
    requires Area(lo, hi) && Lays(t, ix, lo, hi)
    ensures Live(Step(ix, Free(p))) == set e | e in Live(ix) && e.start != p
  {
    hide Lays, FreedAt, Area, StartsAt;
    var at := StartsAt(ix, p);
    if at.Some? {
      var _ := FreeOk(t, ix, lo, hi, at.value);
      forall e | e in Live(ix) && e.start == p ensures e == ix[at.value] {
        StartNames(t, ix, lo, hi, e, ix[at.value]);
      }
    } else {
      assert forall e :: e in Live(ix) ==> e.start != p;
    }
  }

  /** A request adds exactly one block, where a hole has room for it, and changes nothing if none has. */
  lemma AllocLive(t: seq<Entry>, ix: seq<Entry>, lo: nat, hi: nat, n: u32, aligned: bool)
    requires Area(lo, hi) && Lays(t, ix, lo, hi) && Sound(Alloc(n, aligned))
    ensures if exists j, b :: 0 <= j < |ix| && Room(ix[j], b, n, aligned)
            then exists j, b :: 0 <= j < |ix| && Room(ix[j], b, n, aligned)
                                && Live(Step(ix, Alloc(n, aligned))) == Live(ix) + {Entry(b, n, false)}
            else Step(ix, Alloc(n, aligned)) == ix
  {
    hide Lays, Allocated, Live, Room, FirstFit, Area, AlignedWaste;
    ServedIff(t, ix, lo, hi, n, aligned);
    var fit := FirstFit(ix, n, aligned);
    if fit.Some? {
      AllocOk(t, ix, lo, hi, fit.value, n, aligned);
      var d := Block(ix[fit.value], AlignedWaste(ix[fit.value], aligned), n);
      assert d == Entry(d.start, n, false);
      assert Room(ix[fit.value], d.start, n, aligned);
    }
  }

  /** In every reachable state the entries tile the area with no two holes side by side. */
  lemma {:induction false} AlwaysTiles(t: seq<Entry>, ix: seq<Entry>, lo: nat, hi: nat, ops: seq<Op>)
    returns (t': seq<Entry>)
    requires Area(lo, hi) && Lays(t, ix, lo, hi) && AllSound(ops)
    ensures Lays(t', Run(ix, ops), lo, hi)
    decreases |ops|
  {
    hide Lays, Step;
    t' := t;
    if ops != [] {
      t' := StepTiles(t, ix, lo, hi, ops[0]);
      t' := AlwaysTiles(t', Step(ix, ops[0]), lo, hi, ops[1..]);
    }
  }

  /** A block stays, unmoved and unresized, until its own start is freed. */
  lemma {:induction false} BlockStays(t: seq<Entry>, ix: seq<Entry>, lo: nat, hi: nat, ops: seq<Op>, e: Entry)
    requires Area(lo, hi) && Lays(t, ix, lo, hi) && AllSound(ops) && e in Live(ix)
    requires forall i :: 0 <= i < |ops| ==> ops[i] != Free(e.start)
    ensures e in Live(Run(ix, ops))
    decreases |ops|
  {
    hide Lays, Step, Live;
    if ops != [] {
      var t' := StepTiles(t, ix, lo, hi, ops[0]);
      BlockStays(t', Step(ix, ops[0]), lo, hi, ops[1..], e);
    }
  }

  /** Two blocks of a reachable index never overlap. */
  lemma BlocksApart(t: seq<Entry>, ix: seq<Entry>, lo: nat, hi: nat, ops: seq<Op>, d: Entry, e: Entry)
    requires Area(lo, hi) && Lays(t, ix, lo, hi) && AllSound(ops)
    requires d in Live(Run(ix, ops)) && e in Live(Run(ix, ops)) && d != e
    ensures Disjoint(d, e) && lo <= d.start && d.End() <= hi
  {
    var t' := AlwaysTiles(t, ix, lo, hi, ops);
    var now := Run(ix, ops);
    hide Run;
    SameMembers(t', now);
    var i :| 0 <= i < |t'| && t'[i] == d;
    var j :| 0 <= j < |t'| && t'[j] == e;
    Inside(t', lo, hi, i);
    if i < j {
      Ascending(t', lo, hi, i, j);
    } else {
      Ascending(t', lo, hi, j, i);
    }
  }
}
