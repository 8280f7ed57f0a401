/** Physical frames, the bitmap that hands them out, and the page tables that map them. */
module Memory {
  import opened Base

  const PAGE: nat := 0x1000
  const BITS: nat := 32

  /** A 32-bit word of the bitmap, as its bits from the lowest on. */
  type Bits = s: seq<bool> | |s| == BITS witness seq(BITS, _ => false)

  const FULL: Bits := seq(BITS, _ => true)

  /** The bitmap of frames in use. */
  class FrameMap {
    const frames: array<Bits>
    const frameCount: nat

    ghost predicate Valid() {
      frames.Length == frameCount / BITS + 1
    }

    /** The frames that the bitmap can hand out: the last, partial word is never used. */
    function Capacity(): nat {
      BITS * (frameCount / BITS)
    }

    predicate Used(frame: nat)
      requires Valid() && frame < Capacity()
      reads frames
    {
      frames[frame / BITS][frame % BITS]
    }

    constructor (frameCount: nat)
      ensures Valid() && fresh(frames) && this.frameCount == frameCount
      ensures forall f :: 0 <= f < Capacity() ==> !Used(f)
    {
      this.frameCount := frameCount;
      frames := new Bits[frameCount / BITS + 1](_ => seq(BITS, _ => false));
    }

    method TestFrame(addr: nat) returns (used: bool)
      requires Valid() && addr / PAGE < Capacity()
      ensures used == Used(addr / PAGE)
    {
      var frame := addr / PAGE;
      used := frames[frame / BITS][frame % BITS];
    }

    /** Marks one frame, and no other. */
    method SetFrame(addr: nat)
      requires Valid() && addr / PAGE < Capacity()
      modifies frames
      ensures forall f :: 0 <= f < Capacity() ==> Used(f) == (f == addr / PAGE || old(Used(f)))
    {
      var frame := addr / PAGE;
      Write(frame / BITS, frame % BITS, true);
      forall f | 0 <= f < Capacity() ensures Used(f) == (f == frame || old(Used(f))) {
        SplitFrame(f, frame);
      }
    }

    method ClearFrame(addr: nat)
      requires Valid() && addr / PAGE < Capacity()
      modifies frames
      ensures forall f :: 0 <= f < Capacity() ==> Used(f) == (f != addr / PAGE && old(Used(f)))
    {
      var frame := addr / PAGE;
      Write(frame / BITS, frame % BITS, false);
      forall f | 0 <= f < Capacity() ensures Used(f) == (f != frame && old(Used(f))) {
        SplitFrame(f, frame);
      }
    }

    method Write(idx: nat, off: nat, bit: bool)
      requires idx < frames.Length && off < BITS
      modifies frames
      ensures forall i, j :: 0 <= i < frames.Length && 0 <= j < BITS ==>
                frames[i][j] == if i == idx && j == off then bit else old(frames[i][j])
    {
      frames[idx] := frames[idx][off := bit];
    }

    /** Word and bit name a frame. */
    static lemma SplitFrame(f: nat, g: nat)
      ensures f / BITS == g / BITS && f % BITS == g % BITS <==> f == g
    {
    }

    /** The lowest free frame, or none when all are in use. */
    method FreeFrame() returns (r: Option<nat>)
      requires Valid()
      ensures match r
              case Some(addr) =>
                && addr % PAGE == 0 && addr / PAGE < Capacity() && !Used(addr / PAGE)
                && forall f :: 0 <= f < addr / PAGE ==> Used(f)
              case None => forall f :: 0 <= f < Capacity() ==> Used(f)
    {
      var i := 0;
      while i < frameCount / BITS
        invariant 0 <= i <= frameCount / BITS
        invariant forall f :: 0 <= f < BITS * i ==> Used(f)
      {
        if frames[i] != FULL {
          var j := 0;
          while j < BITS
            invariant 0 <= j <= BITS
            invariant forall k :: 0 <= k < j ==> frames[i][k]
          {
            if !frames[i][j] {
              WordBits(i, j);
              assert (i * 32 + j) * PAGE / PAGE == i * 32 + j;
              return Some((i * 32 + j) * PAGE);
            }
            j := j + 1;
          }
          assert false;
        }
        WordBits(i, BITS);
        i := i + 1;
      }
      return None;
    }

    /** The bits below place j of word i are the frames from BITS * i on. */
    lemma WordBits(i: nat, j: nat)
      requires Valid() && i < frameCount / BITS && j <= BITS
      requires forall f :: 0 <= f < BITS * i ==> Used(f)
      requires forall k :: 0 <= k < j ==> frames[i][k]
      ensures forall f :: 0 <= f < BITS * i + j ==> Used(f)
      ensures j < BITS ==> BITS * i + j < Capacity() && Used(BITS * i + j) == frames[i][j]
    {
      forall f | BITS * i <= f < BITS * i + j ensures f < Capacity() && Used(f) {
        assert f / BITS == i && f % BITS == f - BITS * i;
      }
      if j < BITS {
        assert (BITS * i + j) / BITS == i && (BITS * i + j) % BITS == j;
      }
    }
  }

  // ----- page tables -----

  const ENTRIES: nat := 1024

  datatype Page = Page(present: bool, readwrite: bool, user: bool, address: nat)

  /** A page-table slot that has just been cleared. */
  const NO_PAGE: Page := Page(false, false, false, 0)

  class PageTable {
    const pages: array<Page>

    constructor ()
      ensures pages.Length == ENTRIES && fresh(pages)
      ensures forall e :: 0 <= e < ENTRIES ==> pages[e] == NO_PAGE
    {
      pages := new Page[ENTRIES](_ => NO_PAGE);
    }
  }

  class PageDirectory {
    const tables: array<PageTable?>
    ghost var arrays: set<array<Page>>

    ghost predicate Valid()
      reads this, tables, arrays
    {
      && tables.Length == ENTRIES
      && (forall i :: 0 <= i < ENTRIES && tables[i] != null ==>
            tables[i].pages in arrays && tables[i].pages.Length == ENTRIES)
      && (forall i, j :: 0 <= i < j < ENTRIES && tables[i] != null && tables[j] != null ==>
            tables[i].pages != tables[j].pages)
    }

    /** What the directory says about a virtual page. */
    ghost function At(vpn: nat): Page
      requires Valid() && vpn < ENTRIES * ENTRIES
      reads this, tables, arrays
    {
      if tables[vpn / ENTRIES] == null then NO_PAGE else tables[vpn / ENTRIES].pages[vpn % ENTRIES]
    }

    constructor ()
      ensures Valid() && fresh(tables) && arrays == {}
      ensures forall p :: 0 <= p < ENTRIES * ENTRIES ==> At(p) == NO_PAGE
    {
      tables := new PageTable?[ENTRIES](_ => null);
      arrays := {};
    }

    /** Finds the slot of an address; a missing table is made if asked, and maps nothing. */
    method GetPage(vpn: nat, make: bool) returns (table: PageTable?)
      requires Valid() && vpn < ENTRIES * ENTRIES
      modifies this`arrays, tables
      ensures Valid() && fresh(arrays - old(arrays)) && old(arrays) <= arrays
      ensures table == tables[vpn / ENTRIES] && (make ==> table != null)
      ensures !make ==> table == old(tables[vpn / ENTRIES])
      ensures forall p :: 0 <= p < ENTRIES * ENTRIES ==> At(p) == old(At(p))
    {
      var idx := vpn / ENTRIES;
      if tables[idx] == null && make {
        var t := new PageTable();
        tables[idx] := t;
        arrays := arrays + {t.pages};
      }
      table := tables[idx];
    }

    /** Assigns the slot of one virtual page. */
    method SetPage(vpn: nat, page: Page)
      requires Valid() && vpn < ENTRIES * ENTRIES && tables[vpn / ENTRIES] != null
      modifies tables[vpn / ENTRIES].pages
      ensures Valid()
      ensures forall p :: 0 <= p < ENTRIES * ENTRIES ==> At(p) == if p == vpn then page else old(At(p))
    {
      tables[vpn / ENTRIES].pages[vpn % ENTRIES] := page;
      forall p | 0 <= p < ENTRIES * ENTRIES ensures At(p) == if p == vpn then page else old(At(p)) {
        SplitPage(p, vpn);
      }
    }

    static lemma SplitPage(p: nat, q: nat)
      ensures p / ENTRIES == q / ENTRIES && p % ENTRIES == q % ENTRIES <==> p == q
    {
    }
  }
}
