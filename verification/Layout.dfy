/** Blocks in address order: how splitting and merging keep a heap area tiled. */
module Layouts {
  import opened Base

  datatype Entry = Entry(start: nat, size: nat, isHole: bool) {
    function End(): nat {
      start + size
    }
  }

  /** The entries follow each other from lo to hi without gap or overlap. */
  ghost predicate Tiles(t: seq<Entry>, lo: nat, hi: nat) {
    && t != [] && t[0].start == lo && t[|t| - 1].End() == hi
    && (forall i :: 0 <= i < |t| ==> t[i].size > 0)
    && (forall i :: 0 < i < |t| ==> t[i].start == t[i - 1].End())
  }

  ghost predicate NoTwoHoles(t: seq<Entry>) {
    forall i :: 0 < i < |t| ==> !(t[i - 1].isHole && t[i].isHole)
  }

  /** An address order of the entries of ix that tiles the area, holes kept apart. */
  ghost predicate Lays(t: seq<Entry>, ix: seq<Entry>, lo: nat, hi: nat) {
    Tiles(t, lo, hi) && NoTwoHoles(t) && multiset(t) == multiset(ix)
  }

  ghost function Live(ix: seq<Entry>): set<Entry> {
    set e | e in ix && !e.isHole
  }

  predicate Disjoint(a: Entry, b: Entry) {
    a.End() <= b.start || b.End() <= a.start
  }

  // ----- order -----

  lemma {:induction false} Ascending(t: seq<Entry>, lo: nat, hi: nat, i: nat, j: nat)
    requires Tiles(t, lo, hi) && i < j < |t|
    ensures t[i].End() <= t[j].start
    decreases j
  {
    if i < j - 1 {
      Ascending(t, lo, hi, i, j - 1);
    }
  }

  lemma Inside(t: seq<Entry>, lo: nat, hi: nat, i: nat)
    requires Tiles(t, lo, hi) && i < |t|
    ensures lo <= t[i].start && t[i].End() <= hi
  {
    if i > 0 { Ascending(t, lo, hi, 0, i); }
    if i < |t| - 1 { Ascending(t, lo, hi, i, |t| - 1); }
  }

  /** Starts and ends name an entry. */
  lemma Unique(t: seq<Entry>, lo: nat, hi: nat, i: nat, j: nat)
    requires Tiles(t, lo, hi) && i < |t| && j < |t|
    requires t[i].start == t[j].start || t[i].End() == t[j].End()
    ensures i == j
  {
    if i < j { Ascending(t, lo, hi, i, j); }
    if j < i { Ascending(t, lo, hi, j, i); }
  }

  lemma SameMembers(t: seq<Entry>, ix: seq<Entry>)
    requires multiset(t) == multiset(ix)
    ensures |t| == |ix|
    ensures forall e :: e in t <==> e in ix
  {
    assert |multiset(t)| == |t| && |multiset(ix)| == |ix|;
    forall e ensures e in t <==> e in ix {
      assert e in t <==> e in multiset(t);
      assert e in ix <==> e in multiset(ix);
    }
  }

  /** The place in address order of an entry of the index. */
  lemma PlaceOf(t: seq<Entry>, ix: seq<Entry>, i: nat) returns (k: nat)
    requires multiset(t) == multiset(ix) && i < |ix|
    ensures k < |t| && t[k] == ix[i]
  {
    SameMembers(t, ix);
    assert ix[i] in ix;
    k :| 0 <= k < |t| && t[k] == ix[i];
  }

  // ----- splitting and merging -----

  function Spliced(t: seq<Entry>, k: nat, n: nat, mid: seq<Entry>): seq<Entry>
    requires k + n <= |t|
  {
    t[..k] + mid + t[k + n..]
  }

  lemma SplicedAt(t: seq<Entry>, k: nat, n: nat, mid: seq<Entry>)
    requires k + n <= |t|
    ensures |Spliced(t, k, n, mid)| == |t| - n + |mid|
    ensures forall i {:trigger Spliced(t, k, n, mid)[i]} :: 0 <= i < |Spliced(t, k, n, mid)| ==>
              Spliced(t, k, n, mid)[i] == if i < k then t[i]
                                          else if i < k + |mid| then mid[i - k]
                                          else t[i + n - |mid|]
  {
  }

  lemma SplicedMultiset(t: seq<Entry>, k: nat, n: nat, mid: seq<Entry>)
    requires k + n <= |t|
    ensures multiset(Spliced(t, k, n, mid)) == multiset(t) - multiset(t[k..k + n]) + multiset(mid)
  {
    assert t == t[..k] + (t[k..k + n] + t[k + n..]);
  }

  /** A stretch of entries may be exchanged for any other tiling of the same range. */
  lemma SplicedTiles(t: seq<Entry>, lo: nat, hi: nat, k: nat, n: nat, mid: seq<Entry>)
    requires Tiles(t, lo, hi) && 0 < n && k + n <= |t|
    requires Tiles(mid, t[k].start, t[k + n - 1].End())
    ensures Tiles(Spliced(t, k, n, mid), lo, hi)
  {
    hide Spliced;
    SplicedAt(t, k, n, mid);
    var r := Spliced(t, k, n, mid);
    var m := |mid|;
    forall i | 0 < i < |r| ensures r[i].start == r[i - 1].End() {
      if i < k {
      } else if i == k {
        assert r[i] == mid[0] && r[i - 1] == t[k - 1];
      } else if i < k + m {
        assert r[i] == mid[i - k] && r[i - 1] == mid[i - k - 1];
      } else if i == k + m {
        assert r[i] == t[k + n] && r[i - 1] == mid[m - 1];
      } else {
        assert r[i] == t[i + n - m] && r[i - 1] == t[i - 1 + n - m];
      }
    }
  }

  // ----- carving a block out of a hole -----

  lemma CarvedHoles(t: seq<Entry>, lo: nat, hi: nat, k: nat, mid: seq<Entry>)
    requires Tiles(t, lo, hi) && NoTwoHoles(t) && k < |t| && t[k].isHole
    requires mid != [] && NoTwoHoles(mid)
    ensures NoTwoHoles(Spliced(t, k, 1, mid))
  {
    hide Spliced;
    SplicedAt(t, k, 1, mid);
    var r := Spliced(t, k, 1, mid);
    var m := |mid|;
    forall i | 0 < i < |r| ensures !(r[i - 1].isHole && r[i].isHole) {
      if i < k {
      } else if i == k {
        assert r[i - 1] == t[k - 1];
      } else if i < k + m {
        assert r[i] == mid[i - k] && r[i - 1] == mid[i - k - 1];
      } else if i == k + m {
        assert r[i] == t[k + 1];
      } else {
        assert r[i] == t[i + 1 - m] && r[i - 1] == t[i - m];
      }
    }
  }

  /**
   A hole may be exchanged for pieces that tile it and hold one block: the area stays tiled,
   that block is the only change to the live ones, and it overlaps none of them.
   */
  lemma CarveOk(t: seq<Entry>, ix: seq<Entry>, lo: nat, hi: nat, k: nat, mid: seq<Entry>, d: Entry, ix': seq<Entry>)
    requires Lays(t, ix, lo, hi) && k < |t| && t[k].isHole
    requires Tiles(mid, t[k].start, t[k].End()) && NoTwoHoles(mid)
    requires d in mid && !d.isHole && forall e :: e in mid && !e.isHole ==> e == d
    requires multiset(ix') == multiset(ix) - multiset{t[k]} + multiset(mid)
    ensures Lays(Spliced(t, k, 1, mid), ix', lo, hi)
    ensures Live(ix') == Live(ix) + {d} && d !in Live(ix)
    ensures forall e :: e in Live(ix) ==> Disjoint(e, d)
    ensures lo <= d.start && d.End() <= hi
  {
    SplicedTiles(t, lo, hi, k, 1, mid);
    CarvedHoles(t, lo, hi, k, mid);
    SplicedMultiset(t, k, 1, mid);
    assert t[k..k + 1] == [t[k]];
    SameMembers(t, ix);
    Inside(t, lo, hi, k);
    PieceInside(mid, t[k].start, t[k].End(), d);
    CarvedLive(t, ix, lo, hi, k, mid, d, ix');
    forall e | e in Live(ix) ensures Disjoint(e, d) {
      var j :| 0 <= j < |t| && t[j] == e;
      if j < k { Ascending(t, lo, hi, j, k); } else { Ascending(t, lo, hi, k, j); }
    }
  }

  lemma PieceInside(mid: seq<Entry>, lo: nat, hi: nat, d: Entry)
    requires Tiles(mid, lo, hi) && d in mid
    ensures lo <= d.start && d.End() <= hi && d.size > 0
  {
    var j :| 0 <= j < |mid| && mid[j] == d;
    Inside(mid, lo, hi, j);
  }

  lemma CarvedLive(t: seq<Entry>, ix: seq<Entry>, lo: nat, hi: nat, k: nat, mid: seq<Entry>, d: Entry, ix': seq<Entry>)
    requires Tiles(t, lo, hi) && multiset(t) == multiset(ix) && k < |t| && t[k].isHole
    requires d in mid && !d.isHole && forall e :: e in mid && !e.isHole ==> e == d
    requires multiset(ix') == multiset(ix) - multiset{t[k]} + multiset(mid)
    ensures Live(ix') == Live(ix) + {d}
  {
    forall e: Entry | !e.isHole ensures e in ix' <==> e in ix || e == d {
      assert e in ix' <==> e in multiset(ix');
      assert e in ix <==> e in multiset(ix);
      assert e in mid <==> e in multiset(mid);
    }
  }
}
