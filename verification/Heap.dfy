/** The block allocator: an index of blocks and holes, kept by size, that tiles an area. */
module Heaps {
  import opened Base
  import opened OrderedArrays
  import opened Layouts

  const PAGE: nat := 0x1000
  const ENTRY_SIZE: nat := 12

  function BySize(): (Entry, Entry) -> bool {
    (a: Entry, b: Entry) => a.size < b.size
  }

  // ----- the index as a value -----

  function StartsAt(ix: seq<Entry>, p: nat): (r: Option<nat>)
    ensures r.Some? ==> r.value < |ix| && ix[r.value].start == p
    ensures r.None? ==> forall i :: 0 <= i < |ix| ==> ix[i].start != p
  {
    if ix == [] then None
    else if ix[0].start == p then Some(0)
    else match StartsAt(ix[1..], p) case None => None case Some(i) => Some(i + 1)
  }

  function EndsAt(ix: seq<Entry>, p: nat): (r: Option<nat>)
    ensures r.Some? ==> r.value < |ix| && ix[r.value].End() == p
    ensures r.None? ==> forall i :: 0 <= i < |ix| ==> ix[i].End() != p
  {
    if ix == [] then None
    else if ix[0].End() == p then Some(0)
    else match EndsAt(ix[1..], p) case None => None case Some(i) => Some(i + 1)
  }

  /** Bytes from the start of the entry to the next page boundary. */
  function Waste(e: Entry): nat {
    if e.start % PAGE == 0 then 0 else PAGE - e.start % PAGE
  }

  /** What is left of a number in 32 bits. */
  function Wrap(x: int): (r: nat)
    ensures r < TWO32
  {
    x % TWO32
  }

  lemma WrapIs(x: int)
    ensures 0 <= x < TWO32 ==> Wrap(x) == x
  {
  }

  lemma WrapSum(a: int, b: int)
    ensures Wrap(Wrap(a) + b) == Wrap(a + b)
  {
  }

  /** A static_cast<s32> of a 32-bit value. */
  function S32(x: nat): int {
    if x % TWO32 < 0x8000_0000 then x % TWO32 else x % TWO32 - TWO32
  }

  /** The test of the two searches. The one for aligned blocks is signed. */
  predicate Takes(e: Entry, n: u32, aligned: bool) {
    e.isHole && if aligned then S32(e.size) - Waste(e) >= S32(n) else e.size >= n
  }

  /** Bytes of the hole in front of the block. */
  function AlignedWaste(e: Entry, aligned: bool): nat {
    if aligned then Waste(e) else 0
  }

  /** The first hole in index order that passes the test. */
  function FirstFit(ix: seq<Entry>, n: u32, aligned: bool): (r: Option<nat>)
    ensures r.Some? ==> r.value < |ix| && Takes(ix[r.value], n, aligned)
    ensures r.Some? ==> forall i :: 0 <= i < r.value ==> !Takes(ix[i], n, aligned)
    ensures r.None? ==> forall i :: 0 <= i < |ix| ==> !Takes(ix[i], n, aligned)
  {
    if ix == [] then None
    else if Takes(ix[0], n, aligned) then Some(0)
    else match FirstFit(ix[1..], n, aligned) case None => None case Some(i) => Some(i + 1)
  }

  /** Can a block of n bytes be carved out of the hole, after w bytes of waste? */
  predicate Fits(e: Entry, w: nat, n: nat) {
    e.isHole && e.size >= w + n
  }

  /** A hole cut up for n bytes: the waste in front, the block, and the rest, in 32-bit arithmetic. */
  function Front(hole: Entry, w: nat): seq<Entry> {
    if w == 0 then [] else [Entry(hole.start, w, true)]
  }

  /** The size of the hole behind the waste. */
  function SizeBehind(hole: Entry, w: nat): nat {
    Wrap(hole.size - w)
  }

  function Rest(hole: Entry, w: nat, n: u32): seq<Entry> {
    if n < SizeBehind(hole, w)
    then [Entry(Wrap(hole.start + w + n), SizeBehind(hole, w) - n, true)] else []
  }

  function Block(hole: Entry, w: nat, n: u32): Entry {
    Entry(Wrap(hole.start + w), n, false)
  }

  function InsertedAll(ix: seq<Entry>, es: seq<Entry>): seq<Entry>
    decreases |es|
  {
    if es == [] then ix else InsertedAll(Inserted(ix, es[0], BySize()), es[1..])
  }

  /** The index after an allocation out of entry i: the pieces are inserted in this order. */
  function Allocated(ix: seq<Entry>, i: nat, n: u32, aligned: bool): seq<Entry>
    requires i < |ix|
  {
    var w := AlignedWaste(ix[i], aligned);
    InsertedAll(Removed(ix, i), Front(ix[i], w) + Rest(ix[i], w, n) + [Block(ix[i], w, n)])
  }

  function MergedLeft(ix: seq<Entry>, i: nat): (seq<Entry>, Option<nat>)
    requires i < |ix|
  {
    match EndsAt(ix, ix[i].start)
    case Some(b) =>
      if ix[b].isHole then
        var m := ix[b].(size := ix[b].size + ix[i].size);
        var ix' := Removed(ix[b := m], i);
        (ix', EndsAt(ix', m.End()))
      else (ix, Some(i))
    case None => (ix, Some(i))
  }

  function MergedRight(ix: seq<Entry>, i: nat): seq<Entry>
    requires i < |ix|
  {
    match StartsAt(ix, ix[i].End())
    case Some(e) =>
      if ix[e].isHole then Removed(ix[i := ix[i].(size := ix[i].size + ix[e].size)], e) else ix
    case None => ix
  }

  /** The index after freeing the entry at place i. */
  function FreedAt(ix: seq<Entry>, i: nat): seq<Entry>
    requires i < |ix|
  {
    var (ix', j) := MergedLeft(ix[i := ix[i].(isHole := true)], i);
    if j.Some? && j.value < |ix'| then MergedRight(ix', j.value) else ix'
  }

  // ----- allocation -----

  lemma {:induction false} InsertedAllOk(ix: seq<Entry>, es: seq<Entry>)
    ensures multiset(InsertedAll(ix, es)) == multiset(ix) + multiset(es)
    ensures |InsertedAll(ix, es)| == |ix| + |es|
    ensures Sorted(ix, BySize()) ==> Sorted(InsertedAll(ix, es), BySize())
    decreases |es|
  {
    if es != [] {
      assert es == [es[0]] + es[1..];
      InsertedOk(ix, es[0], BySize());
      InsertedAllOk(Inserted(ix, es[0], BySize()), es[1..]);
    }
  }

  lemma PiecesTile(hole: Entry, w: nat, n: u32)
    requires Fits(hole, w, n) && n > 0 && hole.End() < TWO32
    ensures var mid := Front(hole, w) + [Block(hole, w, n)] + Rest(hole, w, n);
            && Tiles(mid, hole.start, hole.End()) && NoTwoHoles(mid)
            && Block(hole, w, n) in mid
            && forall e :: e in mid && !e.isHole ==> e == Block(hole, w, n)
    ensures Block(hole, w, n) == Entry(hole.start + w, n, false)
  {
    WrapIs(hole.size - w);
    WrapIs(hole.start + w);
    WrapIs(hole.start + w + n);
    hide Wrap;
  }

  lemma AllocatedMultiset(ix: seq<Entry>, i: nat, n: u32, aligned: bool)
    requires i < |ix|
    ensures var w := AlignedWaste(ix[i], aligned);
            multiset(Allocated(ix, i, n, aligned)) ==
              multiset(ix) - multiset{ix[i]} + multiset(Front(ix[i], w) + [Block(ix[i], w, n)] + Rest(ix[i], w, n))
    ensures Sorted(ix, BySize()) ==> Sorted(Allocated(ix, i, n, aligned), BySize())
  {
    var w := AlignedWaste(ix[i], aligned);
    RemovedOk(ix, i, BySize());
    InsertedAllOk(Removed(ix, i), Front(ix[i], w) + Rest(ix[i], w, n) + [Block(ix[i], w, n)]);
  }

  /** The areas that the allocator is given. */
  predicate Area(lo: nat, hi: nat) {
    lo <= hi < TWO32 && hi - lo < 0x8000_0000
  }

  lemma EntryInside(t: seq<Entry>, ix: seq<Entry>, lo: nat, hi: nat, i: nat)
    requires Tiles(t, lo, hi) && multiset(t) == multiset(ix) && i < |ix|
    ensures lo <= ix[i].start && ix[i].End() <= hi
  {
    var k := PlaceOf(t, ix, i);
    Inside(t, lo, hi, k);
  }

  /** The signed test asks whether the block fits, for requests below 2^31. */
  lemma TakesFits(e: Entry, n: u32, aligned: bool)
    requires e.size < 0x8000_0000 && (aligned ==> n < 0x8000_0000)
    ensures Takes(e, n, aligned) <==> Fits(e, AlignedWaste(e, aligned), n)
  {
  }

  /**
   An allocation keeps the area tiled with its holes apart, hands out a range that overlaps no
   live block and lies in the area (at a page boundary if asked), and changes no live block.
   */
  lemma AllocOk(t: seq<Entry>, ix: seq<Entry>, lo: nat, hi: nat, i: nat, n: u32, aligned: bool)
    requires Area(lo, hi) && Lays(t, ix, lo, hi) && FirstFit(ix, n, aligned) == Some(i)
    requires 0 < n && (aligned ==> n < 0x8000_0000)
    ensures exists t' :: Lays(t', Allocated(ix, i, n, aligned), lo, hi)
    ensures var d := Block(ix[i], AlignedWaste(ix[i], aligned), n);
            && Live(Allocated(ix, i, n, aligned)) == Live(ix) + {d}
            && (forall e :: e in Live(ix) ==> Disjoint(e, d))
            && lo <= d.start && d.End() <= hi && d.size == n
            && (aligned ==> d.start % PAGE == 0)
    ensures Sorted(ix, BySize()) ==> Sorted(Allocated(ix, i, n, aligned), BySize())
  {
    hide Tiles, NoTwoHoles, Live, Allocated, Front, Rest, Block, Disjoint, FirstFit, Takes, Fits, Spliced, Sorted;
    hide AlignedWaste, PAGE;
    EntryInside(t, ix, lo, hi, i);
    var w := AlignedWaste(ix[i], aligned);
    var mid := Front(ix[i], w) + [Block(ix[i], w, n)] + Rest(ix[i], w, n);
    TakenFits(ix[i], n, aligned);
    PiecesTile(ix[i], w, n);
    AllocatedMultiset(ix, i, n, aligned);
    var k := PlaceOf(t, ix, i);
    CarveOk(t, ix, lo, hi, k, mid, Block(ix[i], w, n), Allocated(ix, i, n, aligned));
  }

  lemma TakenFits(e: Entry, n: u32, aligned: bool)
    requires Takes(e, n, aligned) && e.size < 0x8000_0000 && (aligned ==> n < 0x8000_0000)
    ensures e.isHole && Fits(e, AlignedWaste(e, aligned), n)
    ensures aligned ==> (e.start + AlignedWaste(e, aligned)) % PAGE == 0
  {
    TakesFits(e, n, aligned);
    AlignUp(e.start);
  }

  lemma AlignUp(p: nat)
    ensures p % PAGE != 0 ==> (p + (PAGE - p % PAGE)) % PAGE == 0
  {
  }

  /**
   Which requests keep the tiling, once they have found a hole: those for at least one byte and for less than 2^31.
   A block of no bytes tiles nothing, and a larger one, which the signed test for aligned blocks takes for a
   negative number, does not fit anywhere.
   */
  lemma AllocKeepsIff(t: seq<Entry>, ix: seq<Entry>, lo: nat, hi: nat, i: nat, n: u32, aligned: bool)
    requires Area(lo, hi) && Lays(t, ix, lo, hi) && FirstFit(ix, n, aligned) == Some(i)
    ensures 0 < n < 0x8000_0000 <==> exists t' :: Lays(t', Allocated(ix, i, n, aligned), lo, hi)
  {
    if 0 < n < 0x8000_0000 {
      AllocOk(t, ix, lo, hi, i, n, aligned);
    } else {
      AllocatedMultiset(ix, i, n, aligned);
      var ix' := Allocated(ix, i, n, aligned);
      var d := Block(ix[i], AlignedWaste(ix[i], aligned), n);
      assert d in multiset(ix');
      hide Allocated, FirstFit, Takes;
      forall t' ensures !Lays(t', ix', lo, hi) {
        if Lays(t', ix', lo, hi) {
          SameMembers(t', ix');
          assert d in ix' && d.size == n;
          var j :| 0 <= j < |t'| && t'[j] == d;
          Inside(t', lo, hi, j);
        }
      }
    }
  }

  /** n bytes can be handed out at b: they lie in the hole, and at a page boundary if asked. */
  predicate Room(e: Entry, b: nat, n: nat, aligned: bool) {
    e.isHole && e.start <= b && b + n <= e.End() && (aligned ==> b % 0x1000 == 0)
  }

  /** The waste leads to the least page boundary that is not below the start. */
  lemma WasteIsLeast(e: Entry, b: nat)
    ensures (e.start + Waste(e)) % 0x1000 == 0
    ensures e.start <= b && b % 0x1000 == 0 ==> e.start + Waste(e) <= b
  {
    AlignUp(e.start);
    if e.start % 0x1000 != 0 && e.start <= b && b % 0x1000 == 0 {
      NextPage(e.start, b);
    }
  }

  lemma NextPage(p: nat, b: nat)
    requires p <= b && b % 0x1000 == 0 && p % 0x1000 != 0
    ensures p - p % 0x1000 + 0x1000 <= b
  {
    var q, k := p / 0x1000, b / 0x1000;
    assert p == 0x1000 * q + p % 0x1000 && b == 0x1000 * k;
    assert q < k;
  }

  /** A hole passes the test exactly if it has room, and the block then starts at the first place that has. */
  lemma TakesRoom(e: Entry, n: u32, aligned: bool)
    requires e.End() < TWO32 && e.size < 0x8000_0000 && (aligned ==> n < 0x8000_0000)
    ensures Takes(e, n, aligned) ==> Room(e, Block(e, AlignedWaste(e, aligned), n).start, n, aligned)
    ensures forall b :: Room(e, b, n, aligned) ==>
              Takes(e, n, aligned) && Block(e, AlignedWaste(e, aligned), n).start <= b
  {
    TakesFits(e, n, aligned);
    hide Takes, Waste;
    WasteIsLeast(e, e.start);
    var w := AlignedWaste(e, aligned);
    forall b | Room(e, b, n, aligned) ensures e.start + w <= b {
      WasteIsLeast(e, b);
    }
    WrapIs(e.start + w);
  }

  /**
   A request is refused exactly if no hole has room for it; otherwise it is given the first place with room of the
   first hole that has any. Aligned requests of 2^31 bytes and more are left to LargeTakes.
   */
  lemma ServedIff(t: seq<Entry>, ix: seq<Entry>, lo: nat, hi: nat, n: u32, aligned: bool)
    requires Area(lo, hi) && Lays(t, ix, lo, hi) && (aligned ==> n < 0x8000_0000)
    ensures match FirstFit(ix, n, aligned)
            case None => forall j, b :: 0 <= j < |ix| ==> !Room(ix[j], b, n, aligned)
            case Some(i) =>
              var d := Block(ix[i], AlignedWaste(ix[i], aligned), n);
              && d.size == n && Room(ix[i], d.start, n, aligned)
              && (forall b :: Room(ix[i], b, n, aligned) ==> d.start <= b)
              && forall j, b :: 0 <= j < i ==> !Room(ix[j], b, n, aligned)
  {
    forall j | 0 <= j < |ix| ensures ix[j].End() < TWO32 && ix[j].size < 0x8000_0000 {
      EntryInside(t, ix, lo, hi, j);
    }
    hide Lays, FirstFit, Takes, Room, AlignedWaste;
    forall j | 0 <= j < |ix|
      ensures Takes(ix[j], n, aligned) ==> Room(ix[j], Block(ix[j], AlignedWaste(ix[j], aligned), n).start, n, aligned)
      ensures forall b :: Room(ix[j], b, n, aligned) ==>
                Takes(ix[j], n, aligned) && Block(ix[j], AlignedWaste(ix[j], aligned), n).start <= b
    {
      TakesRoom(ix[j], n, aligned);
    }
  }

  /** Aligned requests of 2^31 bytes and more read as negative, so every hole takes those near enough to 2^32. */
  lemma LargeTakes(e: Entry, n: u32)
    requires e.size < 0x8000_0000 && 0x8000_0000 <= n
    ensures Takes(e, n, true) <==> e.isHole && Waste(e) + n <= e.size + 0x1_0000_0000
  {
  }

  /** In a sorted index the first hole that passes the test is the smallest one that does. */
  lemma BestFit(ix: seq<Entry>, n: u32, aligned: bool, i: nat)
    requires Sorted(ix, BySize()) && FirstFit(ix, n, aligned) == Some(i)
    ensures forall j :: 0 <= j < |ix| && Takes(ix[j], n, aligned) ==> ix[i].size <= ix[j].size
    ensures !aligned ==> forall j :: 0 <= j < |ix| && Fits(ix[j], 0, n) ==> ix[i].size <= ix[j].size
  {
    assert !aligned ==> forall j :: 0 <= j < |ix| ==> (Fits(ix[j], 0, n) <==> Takes(ix[j], n, aligned));
  }

  /** The hole that a request is served from is the smallest one that has room for it. */
  lemma SmallestServes(t: seq<Entry>, ix: seq<Entry>, lo: nat, hi: nat, n: u32, aligned: bool, i: nat)
    requires Area(lo, hi) && Lays(t, ix, lo, hi) && (aligned ==> n < 0x8000_0000)
    requires Sorted(ix, BySize()) && FirstFit(ix, n, aligned) == Some(i)
    ensures forall j, b :: 0 <= j < |ix| && Room(ix[j], b, n, aligned) ==> ix[i].size <= ix[j].size
  {
    ServedIff(t, ix, lo, hi, n, aligned);
    hide Lays, Area, Room, FirstFit, Sorted;
    forall j, b | 0 <= j < |ix| && Room(ix[j], b, n, aligned) ensures ix[i].size <= ix[j].size {
      if i < j {
        InOrder(ix, i, j);
      }
    }
  }

  // ----- freeing -----

  /** The index finds by its end, or by its start, exactly the entry that lies there. */
  lemma FindsEnd(t: seq<Entry>, ix: seq<Entry>, lo: nat, hi: nat, k: nat)
    requires Tiles(t, lo, hi) && multiset(t) == multiset(ix) && k < |t|
    ensures EndsAt(ix, t[k].End()).Some? && ix[EndsAt(ix, t[k].End()).value] == t[k]
  {
    SameMembers(t, ix);
    assert t[k] in ix;
    var b := EndsAt(ix, t[k].End()).value;
    var kb := PlaceOf(t, ix, b);
    Unique(t, lo, hi, k, kb);
  }

  lemma FindsStart(t: seq<Entry>, ix: seq<Entry>, lo: nat, hi: nat, k: nat)
    requires Tiles(t, lo, hi) && multiset(t) == multiset(ix) && k < |t|
    ensures StartsAt(ix, t[k].start).Some? && ix[StartsAt(ix, t[k].start).value] == t[k]
  {
    SameMembers(t, ix);
    assert t[k] in ix;
    var b := StartsAt(ix, t[k].start).value;
    var kb := PlaceOf(t, ix, b);
    Unique(t, lo, hi, k, kb);
  }

  /** Nothing ends where the area starts, and nothing starts where it ends. */
  lemma FindsNothing(t: seq<Entry>, ix: seq<Entry>, lo: nat, hi: nat)
    requires Tiles(t, lo, hi) && multiset(t) == multiset(ix)
    ensures EndsAt(ix, lo).None? && StartsAt(ix, hi).None?
  {
    if EndsAt(ix, lo).Some? {
      var k := PlaceOf(t, ix, EndsAt(ix, lo).value);
      Inside(t, lo, hi, k);
    }
    if StartsAt(ix, hi).Some? {
      var k := PlaceOf(t, ix, StartsAt(ix, hi).value);
      Inside(t, lo, hi, k);
    }
  }

  /** Only the pairs that entry k belongs to may be two holes. */
  ghost predicate ApartBut(t: seq<Entry>, k: nat) {
    forall i :: 0 < i < |t| && i != k && i != k + 1 ==> !(t[i - 1].isHole && t[i].isHole)
  }

  /** Only entry k and the one behind it may be two holes. */
  ghost predicate ApartUpTo(t: seq<Entry>, k: nat) {
    forall i :: 0 < i < |t| && i != k + 1 ==> !(t[i - 1].isHole && t[i].isHole)
  }

  lemma MarkOk(t: seq<Entry>, ix: seq<Entry>, lo: nat, hi: nat, i: nat, k: nat)
    requires Lays(t, ix, lo, hi) && i < |ix| && k < |t| && t[k] == ix[i]
    ensures var x := ix[i].(isHole := true);
            && Tiles(t[k := x], lo, hi) && multiset(t[k := x]) == multiset(ix[i := x])
            && ApartBut(t[k := x], k)
            && Live(ix[i := x]) == Live(ix) - {ix[i]}
  {
    var x := ix[i].(isHole := true);
    UpdatedMultiset(t, k, x);
    UpdatedMultiset(ix, i, x);
    MarkLive(t, lo, hi, k, x);
    SameLive(t, ix);
    SameLive(t[k := x], ix[i := x]);
  }

  lemma SameLive(t: seq<Entry>, ix: seq<Entry>)
    requires multiset(t) == multiset(ix)
    ensures Live(t) == Live(ix)
  {
    SameMembers(t, ix);
  }

  lemma MarkLive(t: seq<Entry>, lo: nat, hi: nat, k: nat, x: Entry)
    requires Tiles(t, lo, hi) && k < |t| && x == t[k].(isHole := true)
    ensures Live(t[k := x]) == Live(t) - {t[k]}
  {
    var t' := t[k := x];
    forall e: Entry | !e.isHole ensures e in t' <==> e in t && e != t[k] {
      if e in t && e != t[k] {
        var j :| 0 <= j < |t| && t[j] == e;
        assert t'[j] == e;
      }
      if e in t' && e == t[k] {
        var j :| 0 <= j < |t| && t'[j] == e;
        Unique(t, lo, hi, j, k);
      }
    }
  }

  lemma MergedMultiset(ix: seq<Entry>, a: nat, c: nat, m: Entry)
    requires a < |ix| && c < |ix| && a != c
    ensures multiset(Removed(ix[a := m], c)) == multiset(ix) - multiset{ix[a], ix[c]} + multiset{m}
  {
    UpdatedMultiset(ix, a, m);
    RemovedMultiset(ix[a := m], c);
    PairIn(ix, a, c);
  }

  lemma PairIn(ix: seq<Entry>, a: nat, c: nat)
    requires a < |ix| && c < |ix| && a != c
    ensures multiset{ix[a], ix[c]} <= multiset(ix)
  {
    RemovedMultiset(ix, a);
    assert ix[c] == if c < a then Removed(ix, a)[c] else Removed(ix, a)[c - 1];
    assert ix[c] in multiset(Removed(ix, a));
  }

  lemma HolesAside(ix: seq<Entry>, ix': seq<Entry>, a: Entry, b: Entry, m: Entry)
    requires a.isHole && b.isHole && m.isHole
    requires multiset(ix') == multiset(ix) - multiset{a, b} + multiset{m}
    ensures Live(ix') == Live(ix)
  {
    forall e: Entry | !e.isHole ensures e in ix' <==> e in ix {
      assert e in ix' <==> e in multiset(ix');
      assert e in ix <==> e in multiset(ix);
    }
  }

  lemma SplicedPair(t: seq<Entry>, k: nat, m: Entry)
    requires k + 1 < |t|
    ensures multiset(Spliced(t, k, 2, [m])) == multiset(t) - multiset{t[k], t[k + 1]} + multiset{m}
  {
    SplicedMultiset(t, k, 2, [m]);
    assert t[k..k + 2] == [t[k], t[k + 1]];
  }

  /** Two neighbouring holes become one: the tiling stays and no block is touched. */
  lemma MergeOk(t: seq<Entry>, ix: seq<Entry>, lo: nat, hi: nat, k: nat, a: nat, c: nat)
    requires Tiles(t, lo, hi) && multiset(t) == multiset(ix)
    requires k + 1 < |t| && a < |ix| && c < |ix| && ix[a] == t[k] && ix[c] == t[k + 1]
    requires t[k].isHole && t[k + 1].isHole
    ensures var m := ix[a].(size := ix[a].size + ix[c].size);
            && a != c
            && Tiles(Spliced(t, k, 2, [m]), lo, hi)
            && multiset(Spliced(t, k, 2, [m])) == multiset(Removed(ix[a := m], c))
            && Live(Removed(ix[a := m], c)) == Live(ix)
  {
    var m := ix[a].(size := ix[a].size + ix[c].size);
    Ascending(t, lo, hi, k, k + 1);
    SplicedTiles(t, lo, hi, k, 2, [m]);
    SplicedPair(t, k, m);
    hide Tiles, Spliced, Removed, Live;
    MergedMultiset(ix, a, c, m);
    HolesAside(ix, Removed(ix[a := m], c), ix[a], ix[c], m);
  }

  /** After the merge to the left, entry j of the index is the freed one, and only the pair
      behind it may still be two holes. */
  ghost predicate LeftMerged(t: seq<Entry>, ix: seq<Entry>, lo: nat, hi: nat, k: nat, j: nat) {
    && Tiles(t, lo, hi) && multiset(t) == multiset(ix)
    && k < |t| && j < |ix| && ix[j] == t[k] && t[k].isHole
    && ApartUpTo(t, k)
  }

  lemma LeftOk(t: seq<Entry>, ix: seq<Entry>, lo: nat, hi: nat, i: nat, k: nat) returns (t': seq<Entry>, k': nat)
    requires Tiles(t, lo, hi) && multiset(t) == multiset(ix) && ApartBut(t, k)
    requires i < |ix| && k < |t| && t[k] == ix[i] && t[k].isHole
    ensures MergedLeft(ix, i).1.Some?
    ensures LeftMerged(t', MergedLeft(ix, i).0, lo, hi, k', MergedLeft(ix, i).1.value)
    ensures Live(MergedLeft(ix, i).0) == Live(ix)
    ensures k == 0 || !t[k - 1].isHole ==> MergedLeft(ix, i) == (ix, Some(i)) && t' == t && k' == k
  {
    hide Spliced, EndsAt, Live;
    if k == 0 {
      FindsNothing(t, ix, lo, hi);
      return t, k;
    }
    FindsEnd(t, ix, lo, hi, k - 1);
    var b := EndsAt(ix, ix[i].start).value;
    if !t[k - 1].isHole {
      return t, k;
    }
    MergeOk(t, ix, lo, hi, k - 1, b, i);
    var m := ix[b].(size := ix[b].size + ix[i].size);
    t', k' := Spliced(t, k - 1, 2, [m]), k - 1;
    SplicedAt(t, k - 1, 2, [m]);
    FindsEnd(t', Removed(ix[b := m], i), lo, hi, k - 1);
    SplicedApart(t, k - 1, m);
  }

  lemma SplicedApart(t: seq<Entry>, k: nat, m: Entry)
    requires k + 1 < |t| && ApartBut(t, k + 1) && t[k].isHole && m.isHole
    ensures ApartUpTo(Spliced(t, k, 2, [m]), k)
  {
    hide Spliced;
    SplicedAt(t, k, 2, [m]);
    var r := Spliced(t, k, 2, [m]);
    forall i | 0 < i < |r| && i != k + 1 ensures !(r[i - 1].isHole && r[i].isHole) {
      if i < k {
      } else if i == k {
        assert r[i - 1] == t[k - 1];
      } else {
        assert r[i] == t[i + 1] && r[i - 1] == t[i];
      }
    }
  }

  lemma RightOk(t: seq<Entry>, ix: seq<Entry>, lo: nat, hi: nat, k: nat, j: nat) returns (t': seq<Entry>)
    requires LeftMerged(t, ix, lo, hi, k, j)
    ensures Lays(t', MergedRight(ix, j), lo, hi)
    ensures Live(MergedRight(ix, j)) == Live(ix)
    ensures k + 1 == |t| || !t[k + 1].isHole ==> MergedRight(ix, j) == ix
  {
    hide Spliced, StartsAt, Live, NoTwoHoles, ApartUpTo, Tiles, Removed;
    Behind(t, lo, hi, k);
    if k + 1 == |t| {
      FindsNothing(t, ix, lo, hi);
      ApartEnd(t, k);
      return t;
    }
    FindsStart(t, ix, lo, hi, k + 1);
    if !t[k + 1].isHole {
      ApartEnd(t, k);
      return t;
    }
    var e := StartsAt(ix, ix[j].End()).value;
    MergeOk(t, ix, lo, hi, k, j, e);
    t' := Spliced(t, k, 2, [ix[j].(size := ix[j].size + ix[e].size)]);
    MergedApart(t, k, ix[j].(size := ix[j].size + ix[e].size));
  }

  lemma Behind(t: seq<Entry>, lo: nat, hi: nat, k: nat)
    requires Tiles(t, lo, hi) && k < |t|
    ensures t[k].End() == if k + 1 < |t| then t[k + 1].start else hi
  {
  }

  lemma ApartEnd(t: seq<Entry>, k: nat)
    requires ApartUpTo(t, k) && k < |t| && (k + 1 == |t| || !t[k + 1].isHole)
    ensures NoTwoHoles(t)
  {
  }

  lemma MergedApart(t: seq<Entry>, k: nat, m: Entry)
    requires k + 1 < |t| && ApartUpTo(t, k) && t[k].isHole && t[k + 1].isHole
    ensures NoTwoHoles(Spliced(t, k, 2, [m]))
  {
    hide Spliced;
    SplicedAt(t, k, 2, [m]);
    var r := Spliced(t, k, 2, [m]);
    forall i | 0 < i < |r| ensures !(r[i - 1].isHole && r[i].isHole) {
      if i < k {
      } else if i == k {
        assert r[i - 1] == t[k - 1];
      } else if i == k + 1 {
        assert r[i] == t[k + 2];
      } else {
        assert r[i] == t[i + 1] && r[i - 1] == t[i];
      }
    }
  }

  /**
   Freeing keeps the area tiled with its holes apart and takes exactly that block from the live
   ones; freeing a hole changes nothing; and the index is reordered only by a merge.
   */
  lemma FreeOk(t: seq<Entry>, ix: seq<Entry>, lo: nat, hi: nat, i: nat) returns (t': seq<Entry>)
    requires Lays(t, ix, lo, hi) && i < |ix|
    ensures Lays(t', FreedAt(ix, i), lo, hi)
    ensures Live(FreedAt(ix, i)) == Live(ix) - {ix[i]}
    ensures ix[i].isHole ==> FreedAt(ix, i) == ix
  {
    hide Tiles, Lays, Live, MergedLeft, MergedRight, Spliced;
    var k := PlaceIn(t, ix, lo, hi, i);
    var x := ix[i].(isHole := true);
    MarkOk(t, ix, lo, hi, i, k);
    var t1, k1 := LeftOk(t[k := x], ix[i := x], lo, hi, i, k);
    var (ix1, j) := MergedLeft(ix[i := x], i);
    t' := RightOk(t1, ix1, lo, hi, k1, j.value);
    if ix[i].isHole {
      HoleAlone(t, ix, lo, hi, k);
      assert ix[i := x] == ix && t[k := x] == t;
    }
  }

  lemma PlaceIn(t: seq<Entry>, ix: seq<Entry>, lo: nat, hi: nat, i: nat) returns (k: nat)
    requires Lays(t, ix, lo, hi) && i < |ix|
    ensures k < |t| && t[k] == ix[i]
  {
    k := PlaceOf(t, ix, i);
  }

  lemma HoleAlone(t: seq<Entry>, ix: seq<Entry>, lo: nat, hi: nat, k: nat)
    requires Lays(t, ix, lo, hi) && k < |t| && t[k].isHole
    ensures k == 0 || !t[k - 1].isHole
    ensures k + 1 == |t| || !t[k + 1].isHole
  {
  }

  // ----- the order of the index -----

  /** The hole that ends where entry i starts, and the one that starts where it ends. */
  function LeftHole(ix: seq<Entry>, i: nat): (r: Option<nat>)
    requires i < |ix|
    ensures r.Some? ==> r.value < |ix|
  {
    match EndsAt(ix, ix[i].start)
    case Some(b) => if ix[b].isHole then Some(b) else None
    case None => None
  }

  function RightHole(ix: seq<Entry>, i: nat): (r: Option<nat>)
    requires i < |ix|
    ensures r.Some? ==> r.value < |ix|
  {
    match StartsAt(ix, ix[i].End())
    case Some(e) => if ix[e].isHole then Some(e) else None
    case None => None
  }

  /** Where the merged entry is in the index before the free. */
  function Survivor(ix: seq<Entry>, i: nat): nat
    requires i < |ix|
  {
    if LeftHole(ix, i).Some? then LeftHole(ix, i).value else i
  }

  function SizeAt(ix: seq<Entry>, at: Option<nat>): nat
    requires at.Some? ==> at.value < |ix|
  {
    match at case Some(k) => ix[k].size case None => 0
  }

  /** The size of the merged entry. */
  function MergedSize(ix: seq<Entry>, i: nat): nat
    requires i < |ix|
  {
    SizeAt(ix, LeftHole(ix, i)) + ix[i].size + SizeAt(ix, RightHole(ix, i))
  }

  /** Entry j goes when entry i is freed. */
  predicate Swallowed(ix: seq<Entry>, i: nat, j: nat)
    requires i < |ix|
  {
    (j == i && LeftHole(ix, i).Some?) || RightHole(ix, i) == Some(j)
  }

  /** The place of entry j when entry c is gone. */
  function PlaceWithout(c: nat, j: nat): nat
    requires j != c
  {
    if j < c then j else j - 1
  }

  lemma RemovedAt(s: seq<Entry>, c: nat, j: nat)
    requires c < |s| && j < |s| && j != c
    ensures PlaceWithout(c, j) < |Removed(s, c)| && Removed(s, c)[PlaceWithout(c, j)] == s[j]
  {
  }

  lemma InOrder(ix: seq<Entry>, i: nat, j: nat)
    requires Sorted(ix, BySize()) && i < j < |ix|
    ensures ix[i].size <= ix[j].size
  {
    assert !BySize()(ix[j], ix[i]);
  }

  /** The entry at place a of a sorted index grows. */
  lemma GrownSorted(s: seq<Entry>, a: nat, m: Entry)
    requires Sorted(s, BySize()) && a < |s| && m.size >= s[a].size
    ensures Sorted(s[a := m], BySize()) <==> forall j :: a < j < |s| ==> s[j].size >= m.size
  {
    var r := s[a := m];
    if Sorted(r, BySize()) {
      forall j | a < j < |s| ensures s[j].size >= m.size {
        InOrder(r, a, j);
      }
    }
    if forall j :: a < j < |s| ==> s[j].size >= m.size {
      forall i, j | 0 <= i < j < |r| ensures !BySize()(r[j], r[i]) {
        InOrder(s, i, j);
      }
    }
  }

  /** The entries behind place a, without those at places c and e. */
  lemma BehindWithout(s: seq<Entry>, c: nat, a: nat, e: nat, n: nat)
    requires a < |s| && c < |s| && a != c && e != c
    ensures PlaceWithout(c, a) < |Removed(s, c)| && Removed(s, c)[PlaceWithout(c, a)] == s[a]
    ensures (forall k :: PlaceWithout(c, a) < k < |Removed(s, c)| && k != PlaceWithout(c, e) ==>
                           Removed(s, c)[k].size >= n)
            <==> (forall j :: a < j < |s| && j != c && j != e ==> s[j].size >= n)
  {
    var r := Removed(s, c);
    RemovedAt(s, c, a);
    if forall k :: PlaceWithout(c, a) < k < |r| && k != PlaceWithout(c, e) ==> r[k].size >= n {
      hide Removed;
      forall j | a < j < |s| && j != c && j != e ensures s[j].size >= n {
        RemovedAt(s, c, j);
        assert r[PlaceWithout(c, j)].size >= n;
      }
    }
    if forall j :: a < j < |s| && j != c && j != e ==> s[j].size >= n {
      forall k | PlaceWithout(c, a) < k < |r| && k != PlaceWithout(c, e) ensures r[k].size >= n {
        var j := if k < c then k else k + 1;
        RemovedAt(s, c, j);
        assert s[j].size >= n;
      }
    }
  }

  /** The entry at place a of a sorted index grows, and the one at place c goes. */
  lemma GrownGoneSorted(s: seq<Entry>, a: nat, c: nat, m: Entry)
    requires Sorted(s, BySize()) && a < |s| && c < |s| && a != c && m.size >= s[a].size
    ensures Sorted(Removed(s[a := m], c), BySize()) <==> forall j :: a < j < |s| && j != c ==> s[j].size >= m.size
  {
    assert Removed(s[a := m], c) == Removed(s, c)[PlaceWithout(c, a) := m];
    RemovedOk(s, c, BySize());
    hide Removed, Sorted;
    BehindWithout(s, c, a, |s|, m.size);
    GrownSorted(Removed(s, c), PlaceWithout(c, a), m);
  }

  /** No entry of the index occurs twice. */
  lemma IndexUnique(t: seq<Entry>, ix: seq<Entry>, lo: nat, hi: nat, a: nat, b: nat)
    requires Tiles(t, lo, hi) && multiset(t) == multiset(ix) && a < |ix| && b < |ix| && ix[a] == ix[b]
    ensures a == b
  {
    if a != b {
      var k := PlaceOf(t, ix, a);
      RemovedMultiset(ix, a);
      RemovedMultiset(t, k);
      RemovedAt(ix, a, b);
      assert ix[b] in multiset(Removed(ix, a)) && multiset(Removed(ix, a)) == multiset(Removed(t, k));
      var j :| 0 <= j < |Removed(t, k)| && Removed(t, k)[j] == t[k];
      Unique(t, lo, hi, k, if j < k then j else j + 1);
    }
  }

  /** Marking an entry changes neither search. */
  lemma {:induction false} MarkSearches(ix: seq<Entry>, ix': seq<Entry>, p: nat)
    requires |ix| == |ix'| && forall i :: 0 <= i < |ix| ==> ix[i].start == ix'[i].start && ix[i].size == ix'[i].size
    ensures EndsAt(ix, p) == EndsAt(ix', p) && StartsAt(ix, p) == StartsAt(ix', p)
  {
    if ix != [] {
      MarkSearches(ix[1..], ix'[1..], p);
    }
  }

  /** An entry is no neighbour of itself. */
  lemma NotItself(t: seq<Entry>, ix: seq<Entry>, lo: nat, hi: nat, i: nat)
    requires Tiles(t, lo, hi) && multiset(t) == multiset(ix) && i < |ix|
    ensures EndsAt(ix, ix[i].start) != Some(i) && StartsAt(ix, ix[i].End()) != Some(i)
    ensures LeftHole(ix, i).Some? ==> LeftHole(ix, i) != RightHole(ix, i)
  {
    var k := PlaceOf(t, ix, i);
    if LeftHole(ix, i).Some? {
      var b := PlaceOf(t, ix, LeftHole(ix, i).value);
    }
  }

  /** Without a hole to the left the entry stays where it is, and the hole to the right joins it. */
  lemma FreedInPlace(t: seq<Entry>, ix: seq<Entry>, lo: nat, hi: nat, i: nat)
    requires Tiles(t, lo, hi) && multiset(t) == multiset(ix) && i < |ix| && LeftHole(ix, i).None?
    ensures var x := Entry(ix[i].start, MergedSize(ix, i), true);
            FreedAt(ix, i) == match RightHole(ix, i) case Some(e) => Removed(ix[i := x], e) case None => ix[i := x]
  {
    hide Tiles, EndsAt, StartsAt, Removed;
    var ix0 := ix[i := ix[i].(isHole := true)];
    NotItself(t, ix, lo, hi, i);
    MarkSearches(ix, ix0, ix[i].start);
    MarkSearches(ix, ix0, ix[i].End());
    LeftKept(ix0, i);
    RightIs(ix0, i);
    var behind := StartsAt(ix, ix[i].End());
    assert behind.Some? ==> ix0[behind.value] == ix[behind.value];
    var x := Entry(ix[i].start, MergedSize(ix, i), true);
    assert ix0[i := x] == ix[i := x];
  }

  lemma LeftKept(ix: seq<Entry>, i: nat)
    requires i < |ix| && LeftHole(ix, i).None?
    ensures MergedLeft(ix, i) == (ix, Some(i))
  {
  }

  lemma RightIs(ix: seq<Entry>, i: nat)
    requires i < |ix|
    ensures MergedRight(ix, i) ==
            match RightHole(ix, i)
            case Some(e) => Removed(ix[i := ix[i].(size := ix[i].size + ix[e].size)], e)
            case None => ix
  {
  }

  /** A hole to the left swallows the entry, and then the hole to the right. */
  lemma FreedIntoLeft(t: seq<Entry>, ix: seq<Entry>, lo: nat, hi: nat, i: nat, b: nat, s: seq<Entry>, a: nat)
    requires Lays(t, ix, lo, hi) && i < |ix| && LeftHole(ix, i) == Some(b)
    requires b != i && s == Removed(ix, i) && a == PlaceWithout(i, b) && a < |s| && s[a] == ix[b]
    ensures var x := Entry(ix[b].start, MergedSize(ix, i), true);
            match RightHole(ix, i)
            case None => FreedAt(ix, i) == s[a := x]
            case Some(e) =>
              && e != i && PlaceWithout(i, e) < |s| && PlaceWithout(i, e) != a
              && FreedAt(ix, i) == Removed(s[a := x], PlaceWithout(i, e))
  {
    hide Tiles, Lays, EndsAt, StartsAt, Removed, LeftHole, RightHole, MergedLeft, MergedRight;
    var ix1 := s[a := ix[b].(size := ix[b].size + ix[i].size)];
    var t1 := LeftSwallows(t, ix, lo, hi, i, b, ix1);
    LaysTiles(t, ix, lo, hi);
    RightStays(t, t1, ix, ix1, lo, hi, i, b);
    RightIs(ix1, a);
    var x := Entry(ix[b].start, MergedSize(ix, i), true);
    assert ix[b].isHole by { LeftIsHole(ix, i); }
    if RightHole(ix, i).Some? {
      var e := RightHole(ix, i).value;
      assert ix1[a := ix1[a].(size := ix1[a].size + ix1[PlaceWithout(i, e)].size)] == s[a := x];
    } else {
      assert ix1 == s[a := x];
    }
  }

  lemma LeftIsHole(ix: seq<Entry>, i: nat)
    requires i < |ix|
    ensures LeftHole(ix, i).Some? ==> ix[LeftHole(ix, i).value].isHole
  {
  }

  lemma LaysTiles(t: seq<Entry>, ix: seq<Entry>, lo: nat, hi: nat)
    requires Lays(t, ix, lo, hi)
    ensures Tiles(t, lo, hi) && multiset(t) == multiset(ix)
  {
  }

  lemma LeftSwallows(t: seq<Entry>, ix: seq<Entry>, lo: nat, hi: nat, i: nat, b: nat, ix1: seq<Entry>)
    returns (t1: seq<Entry>)
    requires Lays(t, ix, lo, hi) && i < |ix| && LeftHole(ix, i) == Some(b) && b != i
    requires PlaceWithout(i, b) < |Removed(ix, i)|
    requires ix1 == Removed(ix, i)[PlaceWithout(i, b) := ix[b].(size := ix[b].size + ix[i].size)]
    ensures Tiles(t1, lo, hi) && multiset(t1) == multiset(ix1)
    ensures MergedLeft(ix[i := ix[i].(isHole := true)], i) == (ix1, Some(PlaceWithout(i, b)))
  {
    hide Tiles, EndsAt, Removed, NoTwoHoles, Live, ApartBut, ApartUpTo, MergedLeft;
    var ix0 := ix[i := ix[i].(isHole := true)];
    LeftIs(ix, i, b);
    var k := PlaceIn(t, ix, lo, hi, i);
    MarkOk(t, ix, lo, hi, i, k);
    var k1;
    t1, k1 := LeftOk(t[k := ix0[i]], ix0, lo, hi, i, k);
    SameEnd(t1, ix1, lo, hi, PlaceWithout(i, b), MergedLeft(ix0, i).1.value);
  }

  lemma LeftIs(ix: seq<Entry>, i: nat, b: nat)
    requires i < |ix| && LeftHole(ix, i) == Some(b) && b != i
    ensures var m := ix[b].(size := ix[b].size + ix[i].size);
            var ix1 := Removed(ix, i)[PlaceWithout(i, b) := m];
            MergedLeft(ix[i := ix[i].(isHole := true)], i) == (ix1, EndsAt(ix1, m.End()))
  {
    var ix0, m := ix[i := ix[i].(isHole := true)], ix[b].(size := ix[b].size + ix[i].size);
    MarkSearches(ix, ix0, ix[i].start);
    UpdatedRemoved(ix, i, ix[i].(isHole := true), b, m);
    hide EndsAt, Removed;
  }

  /** An update at place i is of no account if that entry goes. */
  lemma UpdatedRemoved(ix: seq<Entry>, i: nat, x: Entry, b: nat, m: Entry)
    requires i < |ix| && b < |ix| && b != i
    ensures PlaceWithout(i, b) < |Removed(ix, i)|
    ensures Removed(ix[i := x][b := m], i) == Removed(ix, i)[PlaceWithout(i, b) := m]
  {
  }

  /** What the search by end finds is the entry itself. */
  lemma SameEnd(t: seq<Entry>, ix: seq<Entry>, lo: nat, hi: nat, a: nat, j: nat)
    requires Tiles(t, lo, hi) && multiset(t) == multiset(ix) && a < |ix| && j < |ix|
    requires ix[a].start == ix[j].start || ix[a].End() == ix[j].End()
    ensures a == j
  {
    var k := PlaceOf(t, ix, a);
    var l := PlaceOf(t, ix, j);
    Unique(t, lo, hi, k, l);
    IndexUnique(t, ix, lo, hi, a, j);
  }

  /** The merge to the left leaves the hole to the right where it was. */
  lemma RightStays(t: seq<Entry>, t1: seq<Entry>, ix: seq<Entry>, ix1: seq<Entry>, lo: nat, hi: nat, i: nat, b: nat)
    requires Tiles(t, lo, hi) && multiset(t) == multiset(ix) && i < |ix| && LeftHole(ix, i) == Some(b) && b != i
    requires Tiles(t1, lo, hi) && multiset(t1) == multiset(ix1)
    requires PlaceWithout(i, b) < |Removed(ix, i)|
    requires ix1 == Removed(ix, i)[PlaceWithout(i, b) := ix[b].(size := ix[b].size + ix[i].size)]
    ensures match RightHole(ix, i)
            case None => RightHole(ix1, PlaceWithout(i, b)) == None
            case Some(e) =>
              && e != i && e != b && RightHole(ix1, PlaceWithout(i, b)) == Some(PlaceWithout(i, e))
              && PlaceWithout(i, e) < |ix1| && ix1[PlaceWithout(i, e)] == ix[e]
  {
    var a, p, at := PlaceWithout(i, b), ix[i].End(), StartsAt(ix, ix[i].End());
    NotItself(t, ix, lo, hi, i);
    hide Tiles, StartsAt, EndsAt;
    assert ix1[a].End() == p;
    var at1 := StartsAt(ix1, p);
    if at.Some? {
      RemovedAt(ix, i, at.value);
      assert at.value != b;
      assert ix1[PlaceWithout(i, at.value)] == ix[at.value];
      SameEnd(t1, ix1, lo, hi, PlaceWithout(i, at.value), at1.value);
    }
  }

  /**
   Which frees keep the index sorted: those behind whose surviving entry every entry that stays is at least as
   large as the merged one. The condition can be read off the index before the free.
   */
  lemma FreeSortedIff(t: seq<Entry>, ix: seq<Entry>, lo: nat, hi: nat, i: nat)
    requires Lays(t, ix, lo, hi) && Sorted(ix, BySize()) && i < |ix|
    ensures Sorted(FreedAt(ix, i), BySize()) <==>
            forall j :: Survivor(ix, i) < j < |ix| && !Swallowed(ix, i, j) ==> ix[j].size >= MergedSize(ix, i)
  {
    LaysTiles(t, ix, lo, hi);
    NotItself(t, ix, lo, hi, i);
    hide Lays, Tiles, StartsAt, EndsAt, Removed, Sorted, FreedAt;
    if LeftHole(ix, i).Some? {
      FreeLeftSortedIff(t, ix, lo, hi, i, LeftHole(ix, i).value);
    } else {
      FreedInPlace(t, ix, lo, hi, i);
      var x := Entry(ix[i].start, MergedSize(ix, i), true);
      if RightHole(ix, i).Some? {
        GrownGoneSorted(ix, i, RightHole(ix, i).value, x);
      } else {
        GrownSorted(ix, i, x);
      }
    }
  }

  lemma FreeLeftSortedIff(t: seq<Entry>, ix: seq<Entry>, lo: nat, hi: nat, i: nat, b: nat)
    requires Lays(t, ix, lo, hi) && Sorted(ix, BySize()) && i < |ix| && LeftHole(ix, i) == Some(b) && b != i
    ensures Sorted(FreedAt(ix, i), BySize()) <==>
            forall j :: b < j < |ix| && j != i && RightHole(ix, i) != Some(j) ==> ix[j].size >= MergedSize(ix, i)
  {
    var x := Entry(ix[b].start, MergedSize(ix, i), true);
    assert x.size >= ix[b].size;
    RemovedAt(ix, i, b);
    hide Lays, StartsAt, EndsAt, LeftHole, RightHole, MergedSize, Removed, Sorted, FreedAt, PlaceWithout;
    FreedIntoLeft(t, ix, lo, hi, i, b, Removed(ix, i), PlaceWithout(i, b));
    if RightHole(ix, i).Some? {
      GoneTwiceSorted(ix, i, b, RightHole(ix, i).value, x);
    } else {
      GoneSorted(ix, i, b, x);
    }
  }

  lemma GoneSorted(ix: seq<Entry>, i: nat, b: nat, x: Entry)
    requires Sorted(ix, BySize()) && i < |ix| && b < |ix| && i != b && x.size >= ix[b].size
    requires PlaceWithout(i, b) < |Removed(ix, i)|
    ensures Sorted(Removed(ix, i)[PlaceWithout(i, b) := x], BySize()) <==>
            forall j :: b < j < |ix| && j != i ==> ix[j].size >= x.size
  {
    assert |Removed(ix, i)| == |ix| - 1;
    RemovedOk(ix, i, BySize());
    BehindWithout(ix, i, b, |ix|, x.size);
    hide Removed, Sorted;
    GrownSorted(Removed(ix, i), PlaceWithout(i, b), x);
  }

  lemma GoneTwiceSorted(ix: seq<Entry>, i: nat, b: nat, e: nat, x: Entry)
    requires Sorted(ix, BySize()) && i < |ix| && b < |ix| && i != b && x.size >= ix[b].size
    requires PlaceWithout(i, b) < |Removed(ix, i)|
    requires e != i && PlaceWithout(i, e) < |Removed(ix, i)| && PlaceWithout(i, e) != PlaceWithout(i, b)
    ensures Sorted(Removed(Removed(ix, i)[PlaceWithout(i, b) := x], PlaceWithout(i, e)), BySize()) <==>
            forall j :: b < j < |ix| && j != i && j != e ==> ix[j].size >= x.size
  {
    RemovedOk(ix, i, BySize());
    BehindWithout(ix, i, b, e, x.size);
    hide Removed, Sorted;
    GrownGoneSorted(Removed(ix, i), PlaceWithout(i, b), PlaceWithout(i, e), x);
  }

  /** A merge grows an entry where it stands: here the largest hole is left in front of a block. */
  lemma MergeUnsorts()
    ensures var ix := [Entry(0, 1, false), Entry(10, 5, false), Entry(1, 9, true)];
            && Sorted(ix, BySize())
            && FreedAt(ix, 0) == [Entry(0, 10, true), Entry(10, 5, false)]
            && !Sorted(FreedAt(ix, 0), BySize())
  {
    var ix := [Entry(0, 1, false), Entry(10, 5, false), Entry(1, 9, true)];
    var ix1 := ix[0 := Entry(0, 1, true)];
    assert ix1[1..][1..] == [Entry(1, 9, true)];
    assert EndsAt(ix1, 0).None?;
    assert StartsAt(ix1[1..][1..], 1) == Some(0);
    assert StartsAt(ix1, 1) == Some(2);
    var r := Removed(ix1[0 := Entry(0, 10, true)], 2);
    assert r == [Entry(0, 10, true), Entry(10, 5, false)];
    assert MergedLeft(ix1, 0) == (ix1, Some(0));
    assert BySize()(r[1], r[0]);
  }

  // ----- the heap itself -----

  /** AkariPanic and a failed ASSERT stop the machine: NoHole and IndexFull. */
  datatype AllocResult = Got(p: nat) | NoHole | IndexFull

  lemma InsertedAllStep(ix: seq<Entry>, e: Entry, es: seq<Entry>)
    ensures InsertedAll(ix, [e] + es) == InsertedAll(Inserted(ix, e, BySize()), es)
    ensures InsertedAll(ix, []) == ix
  {
    assert ([e] + es)[1..] == es;
  }

  lemma AllocatedLength(ix: seq<Entry>, i: nat, n: u32, aligned: bool)
    requires i < |ix|
    ensures var w := AlignedWaste(ix[i], aligned);
            |Allocated(ix, i, n, aligned)| == |ix| + |Front(ix[i], w)| + |Rest(ix[i], w, n)|
  {
    var w := AlignedWaste(ix[i], aligned);
    InsertedAllOk(Removed(ix, i), Front(ix[i], w) + Rest(ix[i], w, n) + [Block(ix[i], w, n)]);
  }

  class Heap {
    const index: OrderedArray<Entry>
    const start: nat
    const dataStart: nat
    const end: nat
    var used: u32

    ghost predicate Valid()
      reads this, index, index.slots
    {
      && index.Valid() && index.lessThan == BySize()
      && Area(dataStart, end)
      && exists t :: Lays(t, Index(), dataStart, end)
    }

    ghost function Index(): seq<Entry>
      requires index.Valid()
      reads this, index, index.slots
    {
      index.Contents()
    }

    /** The index lies at the start of the area; the data begin on the next page. */
    constructor (start: nat, end: nat, indexSize: nat)
      requires start % PAGE == 0 && end % PAGE == 0 && indexSize > 0
      requires DataStart(start, indexSize) < end < TWO32 && end - start < 0x8000_0000
      ensures Valid() && fresh(index) && fresh(index.slots)
      ensures Index() == [Entry(DataStart(start, indexSize), end - DataStart(start, indexSize), true)]
      ensures start + ENTRY_SIZE * indexSize <= dataStart == DataStart(start, indexSize) && this.end == end
      ensures used == dataStart - start
    {
      var ds := DataStart(start, indexSize);
      index := new OrderedArray(indexSize, BySize());
      this.start, this.end, dataStart, used := start, end, ds, (ds - start) % TWO32;
      new;
      var ok := index.Insert(Entry(ds, end - ds, true));
      assert Lays(Index(), Index(), dataStart, end);
    }

    /** The test looks at 16 bits, so a start on a page boundary may still be moved up a page. */
    static function DataStart(start: nat, indexSize: nat): (r: nat)
      ensures start + ENTRY_SIZE * indexSize <= r
      ensures start % PAGE == 0 ==> r % PAGE == 0
    {
      var s := start + ENTRY_SIZE * indexSize;
      PageUp(s);
      if s % 0x10000 != 0 then s - s % PAGE + PAGE else s
    }

    /** The least page boundary behind the index, but for one that is no 64 KiB boundary: there a page is skipped. */
    static lemma DataStartIs(start: nat, indexSize: nat, b: nat)
      ensures var s, r := start + 12 * indexSize, DataStart(start, indexSize);
              && r % 0x1000 == 0
              && (s % 0x1000 == 0 && s % 0x1_0000 != 0 ==> r == s + 0x1000)
              && (s % 0x1000 != 0 || s % 0x1_0000 == 0 ==> s <= r && (s <= b && b % 0x1000 == 0 ==> r <= b))
    {
      var s := start + 12 * indexSize;
      PageUp(s);
      if s % 0x1000 != 0 && s <= b && b % 0x1000 == 0 {
        NextPage(s, b);
      }
    }

    static lemma PageUp(s: nat)
      ensures (s - s % PAGE + PAGE) % PAGE == 0 && s - s % PAGE + PAGE > s
      ensures s % 0x10000 == 0 ==> s % PAGE == 0
    {
      assert s == PAGE * (s / PAGE) + s % PAGE;
      assert s - s % PAGE + PAGE == PAGE * (s / PAGE + 1);
      if s % 0x10000 == 0 {
        assert s == PAGE * (16 * (s / 0x10000));
      }
    }

    method IndexOfEntryStarting(p: nat) returns (r: Option<nat>)
      requires index.Valid()
      ensures r == StartsAt(Index(), p)
    {
      ghost var ix := Index();
      var i := 0;
      while i < index.size
        invariant 0 <= i <= |ix| && ix == Index()
        invariant StartsAt(ix, p) == match StartsAt(ix[i..], p) case None => None case Some(j) => Some(i + j)
      {
        assert ix[i..][0] == ix[i] && ix[i..][1..] == ix[i + 1..];
        if index.slots[i].start == p {
          return Some(i);
        }
        i := i + 1;
      }
      return None;
    }

    method IndexOfEntryEnding(p: nat) returns (r: Option<nat>)
      requires index.Valid()
      ensures r == EndsAt(Index(), p)
    {
      ghost var ix := Index();
      var i := 0;
      while i < index.size
        invariant 0 <= i <= |ix| && ix == Index()
        invariant EndsAt(ix, p) == match EndsAt(ix[i..], p) case None => None case Some(j) => Some(i + j)
      {
        assert ix[i..][0] == ix[i] && ix[i..][1..] == ix[i + 1..];
        if index.slots[i].start + index.slots[i].size == p {
          return Some(i);
        }
        i := i + 1;
      }
      return None;
    }

    method SmallestHole(n: u32) returns (r: Option<nat>)
      requires index.Valid()
      ensures r == FirstFit(Index(), n, false)
    {
      ghost var ix := Index();
      var it := 0;
      while it < index.size
        invariant 0 <= it <= |ix| && ix == Index()
        invariant FirstFit(ix, n, false) ==
                  match FirstFit(ix[it..], n, false) case None => None case Some(j) => Some(it + j)
      {
        assert ix[it..][0] == ix[it] && ix[it..][1..] == ix[it + 1..];
        if index.slots[it].isHole && index.slots[it].size >= n {
          return Some(it);
        }
        it := it + 1;
      }
      return None;
    }

    method SmallestAlignedHole(n: u32) returns (r: Option<nat>)
      requires index.Valid()
      ensures r == FirstFit(Index(), n, true)
    {
      hide Waste, S32;
      ghost var ix := Index();
      var it := 0;
      while it < index.size
        invariant 0 <= it <= |ix| && ix == Index()
        invariant FirstFit(ix, n, true) ==
                  match FirstFit(ix[it..], n, true) case None => None case Some(j) => Some(it + j)
      {
        assert ix[it..][0] == ix[it] && ix[it..][1..] == ix[it + 1..];
        if index.slots[it].isHole {
          var off := Waste(index.slots[it]);
          if S32(index.slots[it].size) - off >= S32(n) {
            return Some(it);
          }
        }
        it := it + 1;
      }
      return None;
    }

    /** What both allocators promise of the index they leave. */
    ghost predicate AllocPost(ix: seq<Entry>, n: u32, aligned: bool, r: AllocResult)
      requires index.Valid()
      reads this, index, index.slots
    {
      match FirstFit(ix, n, aligned)
      case None => r == NoHole && Index() == ix
      case Some(i) =>
        if |Allocated(ix, i, n, aligned)| > index.maxSize then r == IndexFull
        else r == Got(Block(ix[i], AlignedWaste(ix[i], aligned), n).start) && Index() == Allocated(ix, i, n, aligned)
    }

    /** Inserts the next of the pieces that are still to come. */
    method Add(e: Entry, ghost rest: seq<Entry>) returns (ok: bool)
      requires index.Valid() && index.lessThan == BySize()
      modifies index`size, index.slots
      ensures index.Valid() && ok == (|old(Index())| < index.maxSize)
      ensures ok ==> InsertedAll(Index(), rest) == InsertedAll(old(Index()), [e] + rest)
      ensures ok ==> |Index()| == |old(Index())| + 1
    {
      InsertedAllStep(Index(), e, rest);
      ok := index.Insert(e);
    }

    method Alloc(n: u32) returns (r: AllocResult)
      requires Valid()
      modifies this`used, index`size, index.slots
      ensures index.Valid() && AllocPost(old(Index()), n, false, r)
      ensures r.Got? ==> used == (old(used) + n) % 0x1_0000_0000
      ensures n > 0 && !r.IndexFull? ==> Valid()
    {
      hide Lays, FirstFit, InsertedAll, Inserted, Removed;
      ghost var ix := Index();
      var it := SmallestHole(n);
      if it.None? {
        return NoHole;
      }
      var hole := index.slots[it.value];
      HoleInside(ix, it.value, n, false);
      ghost var goal := Allocated(ix, it.value, n, false);
      AllocatedLength(ix, it.value, n, false);
      index.Remove(it.value);
      RemovedLength(ix, it.value);
      assert Front(hole, 0) + Rest(hole, 0, n) + [Block(hole, 0, n)] == Rest(hole, 0, n) + [Block(hole, 0, n)];
      r := CarveRest(hole, hole.start, n, goal);
      if n > 0 && !r.IndexFull? {
        KeepsLayout(ix, it.value, n, false);
      }
    }

    method AllocAligned(n: u32) returns (r: AllocResult)
      requires Valid()
      modifies this`used, index`size, index.slots
      ensures index.Valid() && AllocPost(old(Index()), n, true, r)
      ensures r.Got? ==> used == (old(used) + n) % 0x1_0000_0000
      ensures 0 < n < 0x8000_0000 && !r.IndexFull? ==> Valid()
    {
      hide Lays, FirstFit, InsertedAll, Inserted, Removed, Takes, Wrap, S32;
      ghost var ix := Index();
      var it := SmallestAlignedHole(n);
      if it.None? {
        return NoHole;
      }
      var hole := index.slots[it.value];
      HoleInside(ix, it.value, n, true);
      ghost var w := Waste(hole);
      ghost var goal := Allocated(ix, it.value, n, true);
      ghost var rest := Rest(hole, w, n) + [Block(hole, w, n)];
      AllocatedLength(ix, it.value, n, true);
      index.Remove(it.value);
      RemovedLength(ix, it.value);
      var dataStart := hole.start;
      if dataStart % PAGE != 0 {
        var oldSize := hole.size;
        dataStart := Wrap(dataStart - dataStart % PAGE + PAGE);
        hole := hole.(size := PAGE - hole.start % PAGE);
        assert Front(ix[it.value], w) + Rest(ix[it.value], w, n) + [Block(ix[it.value], w, n)] == [hole] + rest;
        var _ := Add(hole, rest);
        hole := hole.(start := dataStart, size := Wrap(oldSize - hole.size));
      } else {
        assert Front(ix[it.value], w) + Rest(ix[it.value], w, n) + [Block(ix[it.value], w, n)] == rest;
      }
      WrapIs(ix[it.value].start);
      WrapIs(ix[it.value].size);
      RestBehind(ix[it.value], w, n);
      assert hole == Entry(Wrap(ix[it.value].start + w), SizeBehind(ix[it.value], w), true);
      assert InsertedAll(Index(), rest) == goal;
      r := CarveRest(hole, dataStart, n, goal);
      if 0 < n < 0x8000_0000 && !r.IndexFull? {
        KeepsLayout(ix, it.value, n, true);
      }
    }

    /** Cutting up the hole behind the waste is cutting up the hole. */
    static lemma RestBehind(hole: Entry, w: nat, n: u32)
      requires hole.End() < TWO32
      ensures var behind := Entry(Wrap(hole.start + w), SizeBehind(hole, w), true);
              Rest(behind, 0, n) == Rest(hole, w, n) && Block(behind, 0, n) == Block(hole, w, n)
    {
      hide Wrap;
      WrapSum(hole.start + w, 0);
      WrapSum(hole.start + w, n);
      WrapIs(SizeBehind(hole, w));
    }

    lemma HoleInside(ix: seq<Entry>, i: nat, n: u32, aligned: bool)
      requires Area(dataStart, end) && (exists t :: Lays(t, ix, dataStart, end))
      requires i < |ix| && Takes(ix[i], n, aligned)
      ensures ix[i].isHole && ix[i].End() < TWO32
    {
      var t :| Lays(t, ix, dataStart, end);
      EntryInside(t, ix, dataStart, end, i);
    }

    /** The common end. The hole is not in the index; it starts where the block shall start. */
    method CarveRest(hole: Entry, dataStart: nat, n: u32, ghost goal: seq<Entry>) returns (r: AllocResult)
      requires index.Valid() && index.lessThan == BySize()
      requires hole.isHole && hole.start == dataStart < TWO32 && hole.size < TWO32
      requires InsertedAll(Index(), Rest(hole, 0, n) + [Block(hole, 0, n)]) == goal
      modifies this`used, index`size, index.slots
      ensures index.Valid()
      ensures if |old(Index())| + |Rest(hole, 0, n)| < index.maxSize
              then r == Got(dataStart) && Index() == goal else r == IndexFull
      ensures r.Got? ==> used == (old(used) + n) % TWO32
    {
      WrapIs(hole.size);
      WrapIs(dataStart);
      hide Wrap, InsertedAll;
      if n < hole.size {
        var ok := Add(hole.(size := hole.size - n, start := Wrap(hole.start + n)), [Entry(dataStart, n, false)]);
        if !ok {
          return IndexFull;
        }
      } else {
        assert Rest(hole, 0, n) + [Entry(dataStart, n, false)] == [Entry(dataStart, n, false)];
      }
      r := Finish(dataStart, n, goal);
    }

    method Free(p: nat) returns (found: bool)
      requires Valid()
      modifies index`size, index.slots
      ensures Valid() && found == StartsAt(old(Index()), p).Some?
      ensures Index() == if found then FreedAt(old(Index()), StartsAt(old(Index()), p).value) else old(Index())
    {
      hide Lays, StartsAt, EndsAt, Removed, MergedLeft, MergedRight, Live;
      ghost var ix := Index();
      ghost var t :| Lays(t, ix, dataStart, end);
      var at := IndexOfEntryStarting(p);
      if at.None? {
        return false;
      }
      var i := at.value;
      ghost var t', k, j := FreeSteps(t, ix, i);
      index.Set(i, index.slots[i].(isHole := true));
      i := MergeLeft(p, i);
      MergeRight(i);
      return true;
    }

    ghost method FreeSteps(t: seq<Entry>, ix: seq<Entry>, i: nat) returns (t': seq<Entry>, k: nat, j: nat)
      requires i < |ix| && Lays(t, ix, dataStart, end)
      ensures MergedLeft(ix[i := ix[i].(isHole := true)], i).1 == Some(j)
      ensures j < |MergedLeft(ix[i := ix[i].(isHole := true)], i).0|
      ensures FreedAt(ix, i) == MergedRight(MergedLeft(ix[i := ix[i].(isHole := true)], i).0, j)
      ensures Lays(t', FreedAt(ix, i), dataStart, end)
    {
      var x := ix[i].(isHole := true);
      k := PlaceIn(t, ix, dataStart, end, i);
      MarkOk(t, ix, dataStart, end, i, k);
      var t1, k1 := LeftOk(t[k := x], ix[i := x], dataStart, end, i, k);
      j := MergedLeft(ix[i := x], i).1.value;
      t' := FreeOk(t, ix, dataStart, end, i);
    }

    method MergeLeft(p: nat, i: nat) returns (j: nat)
      requires index.Valid() && i < |Index()| && Index()[i].start == p
      requires MergedLeft(Index(), i).1.Some?
      modifies index`size, index.slots
      ensures index.Valid() && (Index(), Some(j)) == MergedLeft(old(Index()), i)
    {
      hide StartsAt, EndsAt;
      j := i;
      var b := IndexOfEntryEnding(p);
      if b.Some? && index.slots[b.value].isHole {
        var newSize := index.slots[b.value].size + index.slots[i].size;
        var newEnd := newSize + index.slots[b.value].start;
        index.Set(b.value, index.slots[b.value].(size := newSize));
        index.Remove(i);
        var found := IndexOfEntryEnding(newEnd);
        j := found.value;
      }
    }

    method MergeRight(i: nat)
      requires index.Valid() && i < |Index()|
      modifies index`size, index.slots
      ensures index.Valid() && Index() == MergedRight(old(Index()), i)
    {
      hide StartsAt, EndsAt;
      var e := IndexOfEntryStarting(index.slots[i].start + index.slots[i].size);
      if e.Some? && index.slots[e.value].isHole {
        index.Set(i, index.slots[i].(size := index.slots[i].size + index.slots[e.value].size));
        index.Remove(e.value);
      }
    }

    /** The common end: the block itself goes into the index. */
    method Finish(dataStart: nat, n: u32, ghost goal: seq<Entry>) returns (r: AllocResult)
      requires index.Valid() && index.lessThan == BySize()
      requires InsertedAll(Index(), [Entry(dataStart, n, false)]) == goal
      modifies this`used, index`size, index.slots
      ensures index.Valid()
      ensures if |old(Index())| < index.maxSize then r == Got(dataStart) && Index() == goal else r == IndexFull
      ensures used == (old(used) + n) % TWO32
    {
      used := (used + n) % TWO32;
      assert [Entry(dataStart, n, false)] + [] == [Entry(dataStart, n, false)];
      var ok := Add(Entry(dataStart, n, false), []);
      return if ok then Got(dataStart) else IndexFull;
    }

    static lemma RemovedLength(ix: seq<Entry>, i: nat)
      requires i < |ix|
      ensures |Removed(ix, i)| == |ix| - 1
    {
    }

    lemma KeepsLayout(ix: seq<Entry>, i: nat, n: u32, aligned: bool)
      requires Area(dataStart, end) && exists t :: Lays(t, ix, dataStart, end)
      requires 0 < n && (aligned ==> n < 0x8000_0000) && FirstFit(ix, n, aligned) == Some(i)
      ensures exists t :: Lays(t, Allocated(ix, i, n, aligned), dataStart, end)
    {
      var t :| Lays(t, ix, dataStart, end);
      AllocOk(t, ix, dataStart, end, i, n, aligned);
    }
  }
}
