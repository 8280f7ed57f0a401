/** Loading an ELF image: its segments are copied page by page into freshly mapped frames. */
module Elf {
  import opened Base
  import opened Bytes
  import opened Memory

  const PAGES: nat := ENTRIES * ENTRIES
  const PT_LOAD: nat := 1

  /** A program header, and the part of the ELF header that finds it. */
  datatype Segment = Segment(kind: nat, offset: nat, vaddr: nat, filesz: nat, memsz: nat)

  datatype Result = Loaded | BadMagic | AlreadyMapped | NoFrames | BadSizes

  predicate HasMagic(image: seq<byte>)
    requires |image| >= 4
  {
    image[0] == 0x7f && image[1] == 0x45 && image[2] == 0x4c && image[3] == 0x46
  }

  function HeaderCount(image: seq<byte>): nat
    requires |image| >= 52
  {
    Half(image, 44)
  }

  function HeaderAt(image: seq<byte>, i: nat): nat
    requires |image| >= 52
  {
    Word(image, 28) + Half(image, 42) * i
  }

  function Header(image: seq<byte>, i: nat): Segment
    requires |image| >= 52 && HeaderAt(image, i) + 32 <= |image|
  {
    var at := HeaderAt(image, i);
    Segment(Word(image, at), Word(image, at + 4), Word(image, at + 8), Word(image, at + 16), Word(image, at + 20))
  }

  /** The bytes are in the image, and sizes and addresses fit the machine. */
  predicate Sound(size: nat, seg: Segment) {
    && seg.offset + Min(seg.filesz, seg.memsz) <= size
    && seg.vaddr + seg.memsz <= TWO32
    && seg.filesz < 0x8000_0000 && seg.memsz < 0x8000_0000
  }

  /** What the format promises for byte k of a segment: file content, then zeros. */
  function ByteOf(image: seq<byte>, seg: Segment, k: nat): byte
    requires k < seg.memsz && Sound(|image|, seg)
  {
    if k < seg.filesz then image[seg.offset + k] else 0
  }

  function BytesOf(image: seq<byte>, seg: Segment, from: nat, n: nat): (r: seq<byte>)
    requires from + n <= seg.memsz && Sound(|image|, seg)
    ensures |r| == n
  {
    seq(n, i requires 0 <= i < n => ByteOf(image, seg, from + i))
  }

  /** The part of the file that reaches into a chunk. */
  ghost function FilePart(image: seq<byte>, seg: Segment, n: nat, h: nat): (r: seq<byte>)
    requires h > 0 ==> seg.offset + n + h <= |image|
    ensures |r| == h
  {
    if h > 0 then image[seg.offset + n..seg.offset + n + h] else []
  }

  /** A chunk is the h bytes of the file that reach into it, then zeros. */
  lemma ChunkBytes(image: seq<byte>, seg: Segment, n: nat, c: nat, h: nat)
    requires n + c <= seg.memsz && Sound(|image|, seg) && seg.filesz <= seg.memsz
    requires h == if seg.filesz <= n then 0 else Min(c, seg.filesz - n)
    ensures h > 0 ==> seg.offset + n + h <= |image|
    ensures BytesOf(image, seg, n, c) == FilePart(image, seg, n, h) + Repeat(0 as byte, c - h)
  {
    var data, x := BytesOf(image, seg, n, c), FilePart(image, seg, n, h);
    var y := x + Repeat(0 as byte, c - h);
    forall i | 0 <= i < c ensures data[i] == y[i] {
      assert data[i] == ByteOf(image, seg, n + i);
      if i < h {
        assert y[i] == x[i] == image[seg.offset + n + i];
      } else {
        assert y[i] == Repeat(0 as byte, c - h)[i - h];
      }
    }
  }

  /** The words of a stored program header. */
  lemma PhdrRead(image: seq<byte>, at: nat, ws: seq<u32>)
    requires |ws| == 8 && at + 32 <= |image| && image[at..at + 32] == Words(ws)
    ensures Word(image, at) == ws[0] && Word(image, at + 4) == ws[1] && Word(image, at + 8) == ws[2]
    ensures Word(image, at + 12) == ws[3] && Word(image, at + 16) == ws[4] && Word(image, at + 20) == ws[5]
    ensures Word(image, at + 24) == ws[6] && Word(image, at + 28) == ws[7]
  {
    hide Words, Word, Half;
    StoredWord(image, at, ws, 0);
    StoredWord(image, at, ws, 1);
    StoredWord(image, at, ws, 2);
    StoredWord(image, at, ws, 3);
    StoredWord(image, at, ws, 4);
    StoredWord(image, at, ws, 5);
    StoredWord(image, at, ws, 6);
    StoredWord(image, at, ws, 7);
  }

  /** The four letters, as the first word of the file. */
  lemma MagicRead(image: seq<byte>, ws: seq<u32>)
    requires |ws| == 13 && |image| >= 52 && image[0..52] == Words(ws)
    ensures HasMagic(image) <==> ws[0] == 0x464c_457f
  {
    WordsAt(ws, 0);
    SliceSlice(image, 0, 52, 0, 4);
    var w := image[0..4];
    assert image[0] == w[0] && image[1] == w[1] && image[2] == w[2] && image[3] == w[3];
    BytesOfWord(ws[0]);
  }

  /**
   A file as the format lays it out is read as it was meant. The words of the file header are es: the magic number,
   nine bytes more of e_ident and padding, type and machine, version, entry, phoff, shoff, flags, ehsize and
   phentsize, phnum and shentsize, shnum and shstrndx. Those of header i are hs: type, offset, vaddr, paddr, filesz,
   memsz, flags and align.
   */
  lemma HeaderReads(image: seq<byte>, i: nat, es: seq<u32>, hs: seq<u32>, at: nat)
    requires |es| == 13 && |image| >= 52 && image[0..52] == Words(es)
    requires at == es[7] + es[10] / 0x1_0000 * i
    requires |hs| == 8 && at + 32 <= |image| && image[at..at + 32] == Words(hs)
    ensures HasMagic(image) <==> es[0] == 0x464c_457f
    ensures Word(image, 24) == es[6] && HeaderCount(image) == es[11] % 0x1_0000 && HeaderAt(image, i) == at
    ensures Header(image, i) == Segment(hs[0], hs[1], hs[2], hs[4], hs[5])
  {
    hide Words, Word, Half, HasMagic;
    MagicRead(image, es);
    StoredWord(image, 0, es, 6);
    StoredWord(image, 0, es, 7);
    StoredWord(image, 0, es, 10);
    StoredWord(image, 0, es, 11);
    PhdrRead(image, at, hs);
  }

  // ----- an address space as a value -----

  /** The frame of each virtual page (0 for none), the frames in use, and physical memory. */
  datatype Space = Space(table: seq<nat>, used: set<nat>, bytes: seq<byte>)

  /** Mapped pages have frames of their own, all in use and inside memory. */
  ghost predicate Sane(x: Space) {
    && |x.table| == PAGES
    && 0 in x.used
    && (forall f: nat :: f in x.used ==> (f + 1) * PAGE <= |x.bytes|)
    && (forall p :: 0 <= p < PAGES && x.table[p] != 0 ==> x.table[p] in x.used)
    && (forall p, q :: 0 <= p < q < PAGES && x.table[p] != 0 ==> x.table[p] != x.table[q])
  }

  ghost predicate Mapped(x: Space, v: nat)
    requires Sane(x)
  {
    v < TWO32 && x.table[v / PAGE] != 0
  }

  /** The bytes of one frame. */
  ghost function FrameOf(bytes: seq<byte>, f: nat): (r: seq<byte>)
    requires (f + 1) * PAGE <= |bytes|
    ensures |r| == PAGE
  {
    bytes[f * PAGE..(f + 1) * PAGE]
  }

  /** The byte that the task sees at virtual address v. */
  ghost function View(x: Space, v: nat): byte
    requires Sane(x) && Mapped(x, v)
  {
    FrameOf(x.bytes, x.table[v / PAGE])[v % PAGE]
  }

  /** b came from a by giving free frames to unmapped pages and writing only there. */
  ghost predicate Grew(a: Space, b: Space) {
    && Sane(a) && Sane(b) && |a.bytes| == |b.bytes| && a.used <= b.used
    && (forall p :: 0 <= p < PAGES && a.table[p] != 0 ==> b.table[p] == a.table[p])
    && (forall p :: 0 <= p < PAGES && b.table[p] != a.table[p] ==> b.table[p] !in a.used)
    && (forall f: nat :: f in a.used ==> FrameOf(b.bytes, f) == FrameOf(a.bytes, f))
  }

  lemma GrewTwice(a: Space, b: Space, c: Space)
    requires Grew(a, b) && Grew(b, c)
    ensures Grew(a, c)
  {
  }

  /** Byte k of a segment is in place. */
  ghost predicate HoldsByte(x: Space, image: seq<byte>, seg: Segment, k: nat)
    requires Sane(x) && Sound(|image|, seg) && k < seg.memsz
  {
    Mapped(x, seg.vaddr + k) && View(x, seg.vaddr + k) == ByteOf(image, seg, k)
  }

  /** The first n bytes of a segment are in place. */
  ghost predicate Holds(x: Space, image: seq<byte>, seg: Segment, n: nat)
    requires Sane(x) && Sound(|image|, seg) && n <= seg.memsz
  {
    forall k: nat :: k < n ==> HoldsByte(x, image, seg, k)
  }

  /** What a task saw it still sees. */
  lemma StillSeen(a: Space, b: Space, v: nat)
    requires Grew(a, b) && Mapped(a, v)
    ensures Mapped(b, v) && View(b, v) == View(a, v)
  {
  }

  lemma StillHolds(a: Space, b: Space, image: seq<byte>, seg: Segment, n: nat)
    requires Grew(a, b) && Sound(|image|, seg) && n <= seg.memsz && Holds(a, image, seg, n)
    ensures Holds(b, image, seg, n)
  {
    forall k: nat | k < n ensures HoldsByte(b, image, seg, k) {
      assert HoldsByte(a, image, seg, k);
      StillSeen(a, b, seg.vaddr + k);
    }
  }

  /** The effect of mapping page p to the free frame f and writing data at place off in it. */
  ghost function Filled(a: Space, p: nat, f: nat, off: nat, data: seq<byte>): Space
    requires p < |a.table| && off + |data| <= PAGE && (f + 1) * PAGE <= |a.bytes|
  {
    Space(a.table[p := f], a.used + {f}, Patch(a.bytes, f * PAGE + off, data))
  }

  /** Writing inside one frame leaves the others. */
  lemma OtherFrame(bytes: seq<byte>, f: nat, off: nat, data: seq<byte>, g: nat)
    requires (f + 1) * PAGE <= |bytes| && (g + 1) * PAGE <= |bytes| && f != g && off + |data| <= PAGE
    ensures FrameOf(Patch(bytes, f * PAGE + off, data), g) == FrameOf(bytes, g)
  {
    if f < g {
      assert (f + 1) * PAGE <= g * PAGE;
    } else {
      assert (g + 1) * PAGE <= f * PAGE;
    }
    var at, x, y := f * PAGE + off, FrameOf(Patch(bytes, f * PAGE + off, data), g), FrameOf(bytes, g);
    forall j | 0 <= j < PAGE ensures x[j] == y[j] {
      PatchAt(bytes, at, data, g * PAGE + j);
    }
  }

  lemma SameFrame(bytes: seq<byte>, f: nat, off: nat, data: seq<byte>, j: nat)
    requires (f + 1) * PAGE <= |bytes| && off + |data| <= PAGE && j < |data|
    ensures FrameOf(Patch(bytes, f * PAGE + off, data), f)[off + j] == data[j]
  {
    PatchAt(bytes, f * PAGE + off, data, f * PAGE + off + j);
  }

  lemma FilledTable(a: Space, p: nat, f: nat, off: nat, data: seq<byte>)
    requires p < |a.table| && off + |data| <= PAGE && (f + 1) * PAGE <= |a.bytes|
    ensures Filled(a, p, f, off, data).table == a.table[p := f]
  {
  }

  lemma FilledOk(a: Space, p: nat, f: nat, off: nat, data: seq<byte>)
    requires Sane(a) && p < PAGES && a.table[p] == 0 && f !in a.used
    requires off + |data| <= PAGE && (f + 1) * PAGE <= |a.bytes|
    ensures Grew(a, Filled(a, p, f, off, data)) && Sane(Filled(a, p, f, off, data))
  {
    var b := Filled(a, p, f, off, data);
    forall g: nat | g in a.used ensures FrameOf(b.bytes, g) == FrameOf(a.bytes, g) {
      OtherFrame(a.bytes, f, off, data, g);
    }
  }

  /** The effect of mapping page p to the free frame f. */
  ghost function MappedTo(a: Space, p: nat, f: nat): Space
    requires p < |a.table|
  {
    a.(table := a.table[p := f], used := a.used + {f})
  }

  lemma MappedOk(a: Space, p: nat, f: nat)
    requires Sane(a) && p < PAGES && a.table[p] == 0 && f !in a.used && (f + 1) * PAGE <= |a.bytes|
    ensures Grew(a, MappedTo(a, p, f))
  {
  }

  /** Virtual addresses of one page differ by their place in it. */
  lemma SamePage(v: nat, j: nat)
    requires v % PAGE + j < PAGE
    ensures (v + j) / PAGE == v / PAGE && (v + j) % PAGE == v % PAGE + j
  {
  }

  /** The bytes of a chunk, once filled in. */
  lemma FilledByte(a: Space, f: nat, image: seq<byte>, seg: Segment, n: nat, c: nat, j: nat)
    requires Sane(a) && Sound(|image|, seg) && n + c <= seg.memsz && j < c
    requires a.table[(seg.vaddr + n) / PAGE] == 0 && f !in a.used
    requires (seg.vaddr + n) % PAGE + c <= PAGE && (f + 1) * PAGE <= |a.bytes|
    requires Sane(Filled(a, (seg.vaddr + n) / PAGE, f, (seg.vaddr + n) % PAGE, BytesOf(image, seg, n, c)))
    ensures var b := Filled(a, (seg.vaddr + n) / PAGE, f, (seg.vaddr + n) % PAGE, BytesOf(image, seg, n, c));
            HoldsByte(b, image, seg, n + j)
  {
    hide Patch, Sane, FrameOf, Sound;
    var v := seg.vaddr + n;
    var data := BytesOf(image, seg, n, c);
    SamePage(v, j);
    assert seg.vaddr + (n + j) == v + j;
    SameFrame(a.bytes, f, v % PAGE, data, j);
    assert data[j] == ByteOf(image, seg, n + j);
    ZeroUsed(a);
    SoundAddress(|image|, seg, n + j);
  }

  lemma ZeroUsed(a: Space)
    requires Sane(a)
    ensures |a.table| == PAGES && 0 in a.used
  {
  }

  lemma SoundAddress(size: nat, seg: Segment, k: nat)
    requires Sound(size, seg) && k < seg.memsz
    ensures seg.vaddr + k < TWO32 && (seg.vaddr + k) / PAGE < PAGES
  {
  }

  /** Filling the page that byte n falls in with the next chunk advances the segment. */
  lemma FilledHolds(a: Space, f: nat, image: seq<byte>, seg: Segment, n: nat, c: nat)
    requires Sane(a) && Sound(|image|, seg) && n + c <= seg.memsz && 0 < c
    requires Holds(a, image, seg, n)
    requires a.table[(seg.vaddr + n) / PAGE] == 0 && f !in a.used
    requires (seg.vaddr + n) % PAGE + c <= PAGE && (f + 1) * PAGE <= |a.bytes|
    ensures var b := Filled(a, (seg.vaddr + n) / PAGE, f, (seg.vaddr + n) % PAGE, BytesOf(image, seg, n, c));
            Grew(a, b) && Holds(b, image, seg, n + c)
  {
    hide HoldsByte, Sound, Filled, Patch, FrameOf, ByteOf;
    var v := seg.vaddr + n;
    var data := BytesOf(image, seg, n, c);
    SoundAddress(|image|, seg, n);
    var b := Filled(a, v / PAGE, f, v % PAGE, data);
    FilledOk(a, v / PAGE, f, v % PAGE, data);
    StillHolds(a, b, image, seg, n);
    forall k: nat | k < n + c ensures HoldsByte(b, image, seg, k) {
      if n <= k {
        FilledByte(a, f, image, seg, n, c, k - n);
      }
    }
  }

  /** The page holds a byte of the segment. */
  ghost predicate Touches(seg: Segment, n: nat, p: nat) {
    n > 0 && seg.vaddr / PAGE <= p && p * PAGE < seg.vaddr + n
  }

  /** No page of the segment is mapped yet. */
  ghost predicate Unmapped(x: Space, seg: Segment)
    requires Sane(x)
  {
    forall p :: 0 <= p < PAGES && Touches(seg, seg.memsz, p) ==> x.table[p] == 0
  }

  /** Only pages of the segment's first n bytes were given a frame, all of those were, and none had one. */
  ghost predicate Covers(a: Space, b: Space, seg: Segment, n: nat)
    requires Sane(a) && Sane(b)
  {
    forall p :: 0 <= p < PAGES ==>
      if Touches(seg, n, p) then a.table[p] == 0 != b.table[p] else a.table[p] == b.table[p]
  }

  /** A chunk starts a page or the segment, and ends the page or the segment. */
  lemma NextChunk(seg: Segment, n: nat, c: nat, p: nat)
    requires n < seg.memsz && seg.vaddr + seg.memsz <= TWO32
    requires n == 0 || (seg.vaddr + n) % PAGE == 0
    requires c == Min(PAGE - (seg.vaddr + n) % PAGE, seg.memsz - n)
    ensures Touches(seg, n + c, p) <==> Touches(seg, n, p) || p == (seg.vaddr + n) / PAGE
    ensures !Touches(seg, n, (seg.vaddr + n) / PAGE) && (seg.vaddr + n) / PAGE < PAGES
    ensures n + c == seg.memsz || (seg.vaddr + n + c) % PAGE == 0
    ensures Touches(seg, seg.memsz, (seg.vaddr + n) / PAGE)
  {
  }

  lemma GrewSame(a: Space)
    requires Sane(a)
    ensures Grew(a, a)
  {
  }

  lemma StartsEmpty(a: Space, image: seq<byte>, seg: Segment)
    requires Sane(a) && Sound(|image|, seg)
    ensures Covers(a, a, seg, 0) && Holds(a, image, seg, 0)
  {
  }

  lemma SoundFits(size: nat, seg: Segment)
    requires Sound(size, seg)
    ensures seg.vaddr + seg.memsz <= TWO32
  {
  }

  /** A page of the segment that is found mapped was mapped before the segment was begun. */
  lemma StartedMapped(a: Space, b: Space, seg: Segment, n: nat, p: nat)
    requires Sane(a) && Sane(b) && Covers(a, b, seg, n) && p < PAGES
    requires Touches(seg, seg.memsz, p) && !Touches(seg, n, p) && b.table[p] != 0
    ensures !Unmapped(a, seg)
  {
  }

  lemma CoversNext(a: Space, b: Space, c: Space, seg: Segment, n: nat, k: nat)
    requires Sane(a) && Sane(b) && Sane(c) && Covers(a, b, seg, n)
    requires forall q :: Touches(seg, n + k, q) <==> Touches(seg, n, q) || q == (seg.vaddr + n) / PAGE
    requires !Touches(seg, n, (seg.vaddr + n) / PAGE) && (seg.vaddr + n) / PAGE < PAGES
    requires b.table[(seg.vaddr + n) / PAGE] == 0 != c.table[(seg.vaddr + n) / PAGE]
    requires c.table == b.table[(seg.vaddr + n) / PAGE := c.table[(seg.vaddr + n) / PAGE]]
    ensures Covers(a, c, seg, n + k)
  {
    hide Touches;
  }

  // ----- whole images -----

  /** The headers are in the image, and so are the bytes of its segments. */
  ghost predicate WellFormed(image: seq<byte>) {
    && |image| >= 52
    && forall i :: 0 <= i < HeaderCount(image) ==>
         HeaderAt(image, i) + 32 <= |image| && (Header(image, i).kind == PT_LOAD ==> Sound(|image|, Header(image, i)))
  }

  /** Header i is a segment to be loaded. */
  ghost predicate Loads(image: seq<byte>, i: nat)
    requires WellFormed(image)
  {
    i < HeaderCount(image) && Header(image, i).kind == PT_LOAD
  }

  ghost predicate TouchedBy(image: seq<byte>, i: nat, p: nat)
    requires WellFormed(image) && Loads(image, i)
  {
    Touches(Header(image, i), Header(image, i).memsz, p)
  }

  /** The first n headers fit a's free pages: sizes are right, no page is mapped, and none is shared. */
  ghost predicate Loadable(a: Space, image: seq<byte>, n: nat)
    requires Sane(a) && WellFormed(image)
  {
    && (forall i: nat :: i < n && Loads(image, i) ==>
          && Unmapped(a, Header(image, i))
          && (Header(image, i).memsz == 0 || Header(image, i).filesz <= Header(image, i).memsz))
    && (forall i: nat, j: nat, p: nat ::
          i < j < n && Loads(image, i) && Loads(image, j) && TouchedBy(image, i, p) && p < PAGES ==>
            !TouchedBy(image, j, p))
  }

  /** All segments among the first n headers are in place. */
  ghost predicate HoldsAll(x: Space, image: seq<byte>, n: nat)
    requires Sane(x) && WellFormed(image)
  {
    forall i: nat :: i < n && Loads(image, i) ==> Holds(x, image, Header(image, i), Header(image, i).memsz)
  }

  /** Exactly the pages of those segments were newly mapped. */
  ghost predicate CoversAll(a: Space, b: Space, image: seq<byte>, n: nat)
    requires Sane(a) && Sane(b) && WellFormed(image)
  {
    && (forall i: nat, p: nat :: i < n && Loads(image, i) && TouchedBy(image, i, p) && p < PAGES ==> b.table[p] != 0)
    && (forall p: nat :: p < PAGES && b.table[p] != a.table[p] ==>
          exists i: nat :: i < n && Loads(image, i) && TouchedBy(image, i, p))
  }

  /** What a task sees of its loaded segments: the bytes of the file, and zeros behind them. */
  lemma LoadedByte(x: Space, image: seq<byte>, i: nat, k: nat)
    requires Sane(x) && WellFormed(image) && HoldsAll(x, image, HeaderCount(image))
    requires i < HeaderCount(image) && Header(image, i).kind == 1 && k < Header(image, i).memsz
    ensures var seg := Header(image, i);
            && Mapped(x, seg.vaddr + k) && (k < seg.filesz ==> seg.offset + k < |image|)
            && View(x, seg.vaddr + k) == if k < seg.filesz then image[seg.offset + k] else 0
  {
    hide Header, View, Mapped;
    assert Loads(image, i);
    assert HoldsByte(x, image, Header(image, i), k);
  }

  /** Loading header n, which is a segment. */
  lemma LoadedNext(a: Space, b: Space, c: Space, image: seq<byte>, n: nat)
    requires WellFormed(image) && Loads(image, n) && Grew(a, b) && Grew(b, c)
    requires HoldsAll(b, image, n) && CoversAll(a, b, image, n) && Loadable(a, image, n)
    requires Holds(c, image, Header(image, n), Header(image, n).memsz)
    requires Covers(b, c, Header(image, n), Header(image, n).memsz)
    requires Header(image, n).memsz == 0 || Header(image, n).filesz <= Header(image, n).memsz
    ensures Grew(a, c) && HoldsAll(c, image, n + 1) && CoversAll(a, c, image, n + 1) && Loadable(a, image, n + 1)
  {
    hide Holds, Touches, Header, Sound;
    GrewTwice(a, b, c);
    forall i: nat | i < n && Loads(image, i) ensures Holds(c, image, Header(image, i), Header(image, i).memsz) {
      StillHolds(b, c, image, Header(image, i), Header(image, i).memsz);
    }
    forall p: nat | p < PAGES && c.table[p] != a.table[p]
      ensures exists i: nat :: i < n + 1 && Loads(image, i) && TouchedBy(image, i, p)
    {
      if c.table[p] != b.table[p] {
        assert TouchedBy(image, n, p);
      } else {
        var i: nat :| i < n && Loads(image, i) && TouchedBy(image, i, p);
        assert i < n + 1;
      }
    }
  }

  /** A segment that meets a mapped page was not loadable beside the earlier ones. */
  lemma NotLoadable(a: Space, b: Space, image: seq<byte>, n: nat)
    requires WellFormed(image) && Loads(image, n) && Grew(a, b) && CoversAll(a, b, image, n)
    requires !Unmapped(b, Header(image, n))
    ensures !Loadable(a, image, HeaderCount(image))
  {
    hide Touches, Header, Sound;
    var p: nat :| p < PAGES && TouchedBy(image, n, p) && b.table[p] != 0;
    if b.table[p] != a.table[p] {
      var i: nat :| i < n && Loads(image, i) && TouchedBy(image, i, p);
    }
  }

  lemma WrongSizes(a: Space, image: seq<byte>, n: nat)
    requires Sane(a) && WellFormed(image) && Loads(image, n) && Header(image, n).filesz > Header(image, n).memsz > 0
    ensures !Loadable(a, image, HeaderCount(image))
  {
  }

  lemma NoneLoaded(a: Space, image: seq<byte>)
    requires Sane(a) && WellFormed(image)
    ensures HoldsAll(a, image, 0) && CoversAll(a, a, image, 0) && Loadable(a, image, 0)
  {
  }

  /** Any other kind of header changes nothing. */
  lemma Ignored(a: Space, b: Space, image: seq<byte>, n: nat)
    requires Sane(a) && Sane(b) && WellFormed(image) && !Loads(image, n)
    requires HoldsAll(b, image, n) && CoversAll(a, b, image, n) && Loadable(a, image, n)
    ensures HoldsAll(b, image, n + 1) && CoversAll(a, b, image, n + 1) && Loadable(a, image, n + 1)
  {
    hide Holds, Touches, Header, Sound;
    forall p: nat | p < PAGES && b.table[p] != a.table[p]
      ensures exists i: nat :: i < n + 1 && Loads(image, i) && TouchedBy(image, i, p)
    {
      var i: nat :| i < n && Loads(image, i) && TouchedBy(image, i, p);
      assert i < n + 1;
    }
  }

  // ----- frames spent -----

  /** The pages that have a frame in b and had none in a. */
  ghost function NewPages(a: Space, b: Space): set<nat>
    requires |a.table| == |b.table| == PAGES
  {
    set p: nat | p < PAGES && a.table[p] == 0 && b.table[p] != 0
  }

  /** Each of them has taken one frame out of the free ones, and nothing else has. */
  ghost predicate Spent(a: Space, b: Space)
    requires |a.table| == |b.table| == PAGES
  {
    |b.used| == |a.used| + |NewPages(a, b)|
  }

  lemma FilledSpent(a: Space, p: nat, f: nat, off: nat, data: seq<byte>)
    requires Sane(a) && p < PAGES && a.table[p] == 0 && f !in a.used
    requires off + |data| <= PAGE && (f + 1) * PAGE <= |a.bytes|
    ensures Spent(a, Filled(a, p, f, off, data))
  {
    hide Patch;
    assert NewPages(a, Filled(a, p, f, off, data)) == {p};
  }

  lemma NoneSpent(a: Space)
    requires Sane(a)
    ensures Spent(a, a)
  {
    assert NewPages(a, a) == {};
  }

  lemma SpentTwice(a: Space, b: Space, c: Space)
    requires Grew(a, b) && Grew(b, c) && Spent(a, b) && Spent(b, c)
    ensures Spent(a, c) && NewPages(a, c) == NewPages(a, b) + NewPages(b, c)
  {
    assert NewPages(a, c) == NewPages(a, b) + NewPages(b, c);
    assert NewPages(a, b) !! NewPages(b, c);
  }

  /** Frames of the bitmap. */
  lemma {:induction false} UsedSize(used: set<nat>, capacity: nat)
    requires forall f :: f in used ==> f < capacity
    ensures |used| <= capacity
    ensures (forall f :: 0 <= f < capacity ==> f in used) ==> |used| == capacity
  {
    if capacity == 0 {
      assert used == {};
    } else {
      UsedSize(used - {capacity - 1}, capacity - 1);
    }
  }

  lemma {:induction false} SubsetSize(x: set<nat>, y: set<nat>)
    requires x <= y
    ensures |x| <= |y|
  {
    if x != {} {
      var e :| e in x;
      SubsetSize(x - {e}, y - {e});
    }
  }

  /** The pages that a segment needs. */
  ghost function SegmentPages(seg: Segment): set<nat> {
    set p: nat | p < PAGES && Touches(seg, seg.memsz, p)
  }

  /** The pages that the first n headers need. */
  ghost function PagesWanted(image: seq<byte>, n: nat): set<nat>
    requires WellFormed(image)
  {
    set p: nat | p < PAGES && Wanted(image, n, p)
  }

  ghost predicate Wanted(image: seq<byte>, n: nat, p: nat)
    requires WellFormed(image)
  {
    exists i: nat :: i < n && Loads(image, i) && TouchedBy(image, i, p)
  }

  /** Loading stopped at a page of the given ones, with the frames used up by others of them. */
  ghost predicate Starved(a: Space, b: Space, pages: set<nat>, capacity: nat)
    requires |a.table| == |b.table| == PAGES
  {
    && Spent(a, b) && NewPages(a, b) <= pages && |b.used| == capacity
    && exists p :: 0 <= p < PAGES && p in pages && b.table[p] == 0
  }

  /** Then there had not been enough frames for them. */
  lemma StarvedShort(a: Space, b: Space, pages: set<nat>, capacity: nat)
    requires |a.table| == |b.table| == PAGES && Starved(a, b, pages, capacity)
    ensures capacity < |a.used| + |pages|
  {
    var p :| 0 <= p < PAGES && p in pages && b.table[p] == 0;
    SubsetSize(NewPages(a, b), pages - {p});
  }

  lemma CoversNew(a: Space, b: Space, seg: Segment, n: nat)
    requires Sane(a) && Sane(b) && Covers(a, b, seg, n) && n <= seg.memsz
    ensures NewPages(a, b) <= SegmentPages(seg)
    ensures n == seg.memsz ==> NewPages(a, b) == SegmentPages(seg) && Unmapped(a, seg)
  {
    forall p | p in NewPages(a, b) ensures p in SegmentPages(seg) {
      assert Touches(seg, n, p);
    }
    if n == seg.memsz {
      forall p | p in SegmentPages(seg) ensures p in NewPages(a, b) {
      }
    }
  }

  lemma SpentAll(a: Space, b: Space, pages: set<nat>)
    requires |a.table| == |b.table| == PAGES && Spent(a, b) && NewPages(a, b) == pages
    ensures |b.used| == |a.used| + |pages|
  {
  }

  /** A segment that finds no frame for page p. */
  lemma SegmentStarved(a: Space, b: Space, seg: Segment, n: nat, p: nat, capacity: nat)
    requires Sane(a) && Sane(b) && Covers(a, b, seg, n) && n <= seg.memsz && Spent(a, b) && |b.used| == capacity
    requires p < PAGES && Touches(seg, seg.memsz, p) && b.table[p] == 0
    ensures Starved(a, b, SegmentPages(seg), capacity)
  {
    CoversNew(a, b, seg, n);
    hide Sane, Covers, Touches, NewPages;
    assert p in SegmentPages(seg);
  }

  lemma CoversAllNew(a: Space, b: Space, image: seq<byte>, n: nat)
    requires Sane(a) && Sane(b) && WellFormed(image) && CoversAll(a, b, image, n)
    ensures NewPages(a, b) <= PagesWanted(image, n)
    ensures Loadable(a, image, n) ==> NewPages(a, b) == PagesWanted(image, n)
  {
    hide Touches, Header;
    if Loadable(a, image, n) {
      forall p | p in PagesWanted(image, n) ensures p in NewPages(a, b) {
        var i: nat :| i < n && Loads(image, i) && TouchedBy(image, i, p);
        assert Unmapped(a, Header(image, i));
      }
    }
  }

  /** An image whose n-th header finds no frame for one of its pages. */
  lemma ImageStarved(a: Space, b: Space, c: Space, image: seq<byte>, n: nat, capacity: nat)
    requires WellFormed(image) && Loads(image, n) && Grew(a, b) && Grew(b, c) && Spent(a, b)
    requires CoversAll(a, b, image, n) && Starved(b, c, SegmentPages(Header(image, n)), capacity)
    ensures Starved(a, c, PagesWanted(image, HeaderCount(image)), capacity)
  {
    SpentTwice(a, b, c);
    CoversAllNew(a, b, image, n);
    hide Header, WellFormed, Grew, NewPages;
    var wanted := PagesWanted(image, HeaderCount(image));
    forall p | p in SegmentPages(Header(image, n)) ensures p in wanted {
      assert TouchedBy(image, n, p);
    }
    forall p | p in PagesWanted(image, n) ensures p in wanted {
      var i: nat :| i < n && Loads(image, i) && TouchedBy(image, i, p);
    }
  }

  /** What one more chunk adds to a segment that has been begun. */
  lemma ChunkDone(a: Space, b: Space, c: Space, image: seq<byte>, seg: Segment, n: nat, k: nat, p: nat, f: nat)
    requires Sound(|image|, seg) && 0 < k && n + k <= seg.memsz && p == (seg.vaddr + n) / PAGE < PAGES
    requires Grew(a, b) && Holds(b, image, seg, n) && Covers(a, b, seg, n) && Spent(a, b)
    requires b.table[p] == 0 && f !in b.used && (f + 1) * PAGE <= |b.bytes| && (seg.vaddr + n) % PAGE + k <= PAGE
    requires forall q :: Touches(seg, n + k, q) <==> Touches(seg, n, q) || q == p
    requires !Touches(seg, n, p)
    requires c == Filled(b, p, f, (seg.vaddr + n) % PAGE, BytesOf(image, seg, n, k))
    ensures Grew(a, c) && Holds(c, image, seg, n + k) && Covers(a, c, seg, n + k) && |c.table| == PAGES && Spent(a, c)
  {
    hide Sound, BytesOf, Touches, Holds, Covers, Spent;
    ZeroUsed(b);
    FilledTable(b, p, f, (seg.vaddr + n) % PAGE, BytesOf(image, seg, n, k));
    FilledSpent(b, p, f, (seg.vaddr + n) % PAGE, BytesOf(image, seg, n, k));
    FilledHolds(b, f, image, seg, n, k);
    hide Filled, Grew, Sane;
    GrewTwice(a, b, c);
    SpentTwice(a, b, c);
    CoversNext(a, b, c, seg, n, k);
  }

  // ----- the loader -----

  class Loader {
    const frames: FrameMap
    const dir: PageDirectory
    const memory: array<byte>
    /** The frame that the loader's window shows. */
    var wand: nat
    ghost var space: Space

    /** The bitmap marks the frames in use, and the tables map the pages. */
    static ghost predicate Describes(frames: FrameMap, dir: PageDirectory, table: seq<nat>, used: set<nat>)
      reads frames.frames, dir, dir.tables, dir.arrays
    {
      && frames.Valid() && dir.Valid() && |table| == PAGES
      && (forall f: nat :: f in used <==> f < frames.Capacity() && frames.Used(f))
      && (forall p :: 0 <= p < PAGES ==> dir.At(p).address == table[p])
    }

    /** The bitmap, the page tables and memory are the address space. */
    ghost predicate Valid()
      reads this, frames.frames, dir, dir.tables, dir.arrays, memory
    {
      && Sane(space) && space.bytes == memory[..] && memory.Length == PAGE * frames.Capacity()
      && Describes(frames, dir, space.table, space.used)
    }

    /** Starts on an address space that the bitmap and the tables describe. */
    constructor (frames: FrameMap, dir: PageDirectory, memory: array<byte>, wand: nat, ghost space: Space)
      requires Sane(space) && space.bytes == memory[..] && memory.Length == PAGE * frames.Capacity()
      requires Describes(frames, dir, space.table, space.used)
      ensures Valid() && this.space == space && this.wand == wand
      ensures this.frames == frames && this.dir == dir && this.memory == memory
    {
      this.frames := frames;
      this.dir := dir;
      this.memory := memory;
      this.wand := wand;
      this.space := space;
    }

    lemma FreeHere(f: nat)
      requires Valid() && f < frames.Capacity() && !frames.Used(f)
      ensures f !in space.used && (f + 1) * PAGE <= memory.Length && |space.table| == PAGES
    {
    }

    /** Sets the frame's bit and the page's entry. */
    method TakeFrame(vpn: nat, addr: nat)
      requires Describes(frames, dir, space.table, space.used) && vpn < PAGES && dir.tables[vpn / ENTRIES] != null
      requires addr / PAGE < frames.Capacity()
      modifies frames.frames, dir.arrays
      ensures Describes(frames, dir, space.table[vpn := addr / PAGE], space.used + {addr / PAGE})
      ensures dir.At(vpn) == Page(true, true, true, addr / PAGE)
    {
      frames.SetFrame(addr);
      dir.SetPage(vpn, Page(true, true, true, addr / PAGE));
    }

    lemma AllUsed()
      requires Valid() && forall f :: 0 <= f < frames.Capacity() ==> frames.Used(f)
      ensures |space.used| == frames.Capacity()
    {
      UsedSize(space.used, frames.Capacity());
    }

    /** Gives a free frame to a page that has none, or panics. */
    method AllocAnyFrame(vpn: nat) returns (r: Result)
      requires Valid() && vpn < PAGES && dir.tables[vpn / ENTRIES] != null
      modifies this`space, frames.frames, dir.arrays
      ensures Valid()
      ensures r.AlreadyMapped? <==> old(space.table[vpn]) != 0
      ensures r.NoFrames? ==> |space.used| == frames.Capacity()
      ensures r.Loaded? || r.AlreadyMapped? || r.NoFrames?
      ensures !r.Loaded? ==> space == old(space)
      ensures r.Loaded? ==>
                && dir.At(vpn).address !in old(space.used) && (dir.At(vpn).address + 1) * PAGE <= memory.Length
                && dir.At(vpn) == Page(true, true, true, dir.At(vpn).address)
                && space == MappedTo(old(space), vpn, dir.At(vpn).address)
    {
      hide Sane, Filled;
      var t := dir.tables[vpn / ENTRIES];
      assert dir.At(vpn) == t.pages[vpn % ENTRIES];
      if t.pages[vpn % ENTRIES].address != 0 {
        return AlreadyMapped;
      }
      var addr := frames.FreeFrame();
      if addr.None? {
        AllUsed();
        return NoFrames;
      }
      var f := addr.value / PAGE;
      FreeHere(f);
      TakeFrame(vpn, addr.value);
      MappedOk(space, vpn, f);
      space := MappedTo(space, vpn, f);
      return Loaded;
    }

    /** Writes the next chunk of a segment through the window. */
    method CopyChunk(image: array<byte>, seg: Segment, copied: nat, copy: nat) returns (r: Result)
      requires image != memory && Sound(image.Length, seg) && 0 < copy && copied + copy <= seg.memsz
      requires (seg.vaddr + copied) % PAGE + copy <= PAGE && (wand + 1) * PAGE <= memory.Length
      modifies memory
      ensures r == if seg.filesz <= seg.memsz then Loaded else BadSizes
      ensures r.Loaded? ==>
                memory[..] == Patch(old(memory[..]), wand * PAGE + (seg.vaddr + copied) % PAGE,
                                    BytesOf(image[..], seg, copied, copy))
      ensures r.BadSizes? ==> memory[..] == old(memory[..])
    {
      hide Patch, BytesOf, Sound, ByteOf, Repeat;
      var dest := wand * PAGE + (seg.vaddr + copied) % PAGE;
      if seg.filesz == 0 {
        ChunkBytes(image[..], seg, copied, copy, 0);
        assert FilePart(image[..], seg, copied, 0) + Repeat(0 as byte, copy) == Repeat(0 as byte, copy);
        Memset(memory, dest, 0, copy);
      } else if seg.filesz < seg.memsz {
        var fileLeft := seg.filesz - copied;
        if copy > fileLeft {
          if fileLeft < 0 {
            fileLeft := 0;
          }
          ChunkBytes(image[..], seg, copied, copy, fileLeft);
          CopyTail(image, seg, copied, copy, dest, fileLeft);
        } else {
          WholeChunk(image, seg, copied, copy);
          Memcpy(memory, dest, image, seg.offset + copied, copy);
        }
      } else if seg.filesz == seg.memsz {
        WholeChunk(image, seg, copied, copy);
        Memcpy(memory, dest, image, seg.offset + copied, copy);
      } else {
        return BadSizes;
      }
      return Loaded;
    }

    /** The chunk in which the file ends, or that lies past its end. */
    method CopyTail(image: array<byte>, seg: Segment, copied: nat, copy: nat, dest: nat, fileLeft: nat)
      requires image != memory && dest + copy <= memory.Length && fileLeft <= copy
      requires fileLeft > 0 ==> seg.offset + copied + fileLeft <= image.Length
      modifies memory
      ensures memory[..] == Patch(old(memory[..]), dest,
                                  FilePart(image[..], seg, copied, fileLeft) + Repeat(0, copy - fileLeft))
    {
      hide Patch, Repeat;
      PatchNothing(memory[..], dest);
      if fileLeft != 0 {
        Memcpy(memory, dest, image, seg.offset + copied, fileLeft);
      }
      Memset(memory, dest + fileLeft, 0, copy - fileLeft);
      PatchJoin(old(memory[..]), dest, FilePart(image[..], seg, copied, fileLeft), Repeat(0, copy - fileLeft));
    }

    /** Maps a page, making its table if need be, and points the window at it. */
    method MapPage(vpn: nat) returns (r: Result)
      requires Valid() && vpn < PAGES
      modifies this`space, this`wand, frames.frames, dir`arrays, dir.tables, dir.arrays
      ensures Valid() && fresh(dir.arrays - old(dir.arrays))
      ensures r.AlreadyMapped? <==> old(space.table[vpn]) != 0
      ensures r.NoFrames? ==> |space.used| == frames.Capacity()
      ensures r.Loaded? || r.AlreadyMapped? || r.NoFrames?
      ensures !r.Loaded? ==> space == old(space)
      ensures r.Loaded? ==>
                && wand !in old(space.used) && (wand + 1) * PAGE <= memory.Length
                && space == MappedTo(old(space), vpn, wand)
    {
      hide Sane;
      var page := dir.GetPage(vpn, true);
      r := AllocAnyFrame(vpn);
      if r.Loaded? {
        assert dir.At(vpn) == page.pages[vpn % ENTRIES];
        wand := page.pages[vpn % ENTRIES].address;
      }
    }

    /** Maps the page that a chunk falls in and fills it. */
    method LoadChunk(image: array<byte>, seg: Segment, copied: nat, copy: nat) returns (r: Result)
      requires Valid() && image != memory && Sound(image.Length, seg) && 0 < copy && copied + copy <= seg.memsz
      requires (seg.vaddr + copied) % PAGE + copy <= PAGE && (seg.vaddr + copied) / PAGE < PAGES
      modifies this`space, this`wand, memory, frames.frames, dir`arrays, dir.tables, dir.arrays
      ensures Valid() && fresh(dir.arrays - old(dir.arrays)) && image[..] == old(image[..])
      ensures r.Loaded? || r.AlreadyMapped? || r.NoFrames? || r.BadSizes?
      ensures r.AlreadyMapped? <==> old(space.table[(seg.vaddr + copied) / PAGE]) != 0
      ensures r.NoFrames? ==> |space.used| == frames.Capacity() && space == old(space)
      ensures r.BadSizes? ==> seg.filesz > seg.memsz
      ensures r.Loaded? ==>
                && seg.filesz <= seg.memsz && wand !in old(space.used) && (wand + 1) * PAGE <= memory.Length
                && space == Filled(old(space), (seg.vaddr + copied) / PAGE, wand,
                                   (seg.vaddr + copied) % PAGE, BytesOf(image[..], seg, copied, copy))
    {
      hide Sane, Sound, BytesOf, Patch, Grew, Describes;
      var vpn := (seg.vaddr + copied) / PAGE;
      ZeroUsed(space);
      r := MapPage(vpn);
      if r.Loaded? {
        FilledOk(old(space), vpn, wand, (seg.vaddr + copied) % PAGE, BytesOf(image[..], seg, copied, copy));
        r := CopyChunk(image, seg, copied, copy);
        space := space.(bytes := memory[..]);
      }
    }

    lemma InUse()
      requires Valid()
      ensures |space.used| <= frames.Capacity()
    {
      UsedSize(space.used, frames.Capacity());
    }

    /** Copies one segment, page by page. */
    method LoadSegment(image: array<byte>, seg: Segment) returns (r: Result)
      requires Valid() && image != memory && Sound(image.Length, seg)
      modifies this`space, this`wand, memory, frames.frames, dir`arrays, dir.tables, dir.arrays
      ensures Valid() && fresh(dir.arrays - old(dir.arrays)) && image[..] == old(image[..])
      ensures r.Loaded? || r.AlreadyMapped? || r.NoFrames? || r.BadSizes?
      ensures r.Loaded? ==>
                && Grew(old(space), space) && Holds(space, image[..], seg, seg.memsz)
                && Covers(old(space), space, seg, seg.memsz) && (seg.memsz == 0 || seg.filesz <= seg.memsz)
      ensures r.Loaded? ==> Spent(old(space), space) && Unmapped(old(space), seg)
      ensures r.Loaded? ==> |old(space).used| + |SegmentPages(seg)| <= frames.Capacity()
      ensures r.AlreadyMapped? ==> !Unmapped(old(space), seg)
      ensures r.NoFrames? ==>
                Grew(old(space), space) && Starved(old(space), space, SegmentPages(seg), frames.Capacity())
      ensures r.NoFrames? ==> frames.Capacity() < |old(space).used| + |SegmentPages(seg)|
      ensures r.BadSizes? ==> seg.filesz > seg.memsz > 0
    {
      hide Sane, Sound, BytesOf, Filled, Touches, Holds, Grew, Covers, Describes, Spent, Starved, SegmentPages,
        Unmapped;
      ZeroUsed(space);
      NoneSpent(space);
      var virt, copied := seg.vaddr, 0;
      GrewSame(space);
      StartsEmpty(space, image[..], seg);
      SoundFits(image.Length, seg);
      while copied < seg.memsz
        invariant 0 <= copied <= seg.memsz && (copied == 0 || copied == seg.memsz || (virt + copied) % PAGE == 0)
        invariant Valid() && fresh(dir.arrays - old(dir.arrays)) && image[..] == old(image[..])
        invariant Grew(old(space), space) && Holds(space, image[..], seg, copied)
        invariant Covers(old(space), space, seg, copied) && (copied == 0 || seg.filesz <= seg.memsz)
        invariant |space.table| == PAGES && Spent(old(space), space)
      {
        var copy := PAGE - (virt + copied) % PAGE;
        if seg.memsz - copied < copy {
          copy := seg.memsz - copied;
        }
        ghost var was, p := space, (virt + copied) / PAGE;
        forall q ensures Touches(seg, copied + copy, q) <==> Touches(seg, copied, q) || q == p {
          NextChunk(seg, copied, copy, q);
        }
        NextChunk(seg, copied, copy, p);
        r := LoadChunk(image, seg, copied, copy);
        if !r.Loaded? {
          if r.AlreadyMapped? {
            StartedMapped(old(space), was, seg, copied, p);
          } else if r.NoFrames? {
            SegmentStarved(old(space), space, seg, copied, p, frames.Capacity());
            StarvedShort(old(space), space, SegmentPages(seg), frames.Capacity());
          }
          return;
        }
        ChunkDone(old(space), was, space, image[..], seg, copied, copy, p, wand);
        copied := copied + copy;
      }
      CoversNew(old(space), space, seg, seg.memsz);
      SpentAll(old(space), space, SegmentPages(seg));
      InUse();
      return Loaded;
    }

    /** Loads every segment of an image, and says where its program starts. */
    method LoadImageInto(image: array<byte>) returns (r: Result, entry: nat)
      requires Valid() && image != memory && WellFormed(image[..])
      modifies this`space, this`wand, memory, frames.frames, dir`arrays, dir.tables, dir.arrays
      ensures Valid() && image[..] == old(image[..])
      ensures r.BadMagic? <==> !HasMagic(image[..])
      ensures r.BadMagic? ==> space == old(space)
      ensures r.Loaded? ==>
                && Grew(old(space), space) && HoldsAll(space, image[..], HeaderCount(image[..]))
                && CoversAll(old(space), space, image[..], HeaderCount(image[..]))
                && wand == old(wand) && entry == Word(image[..], 24)
      ensures r.Loaded? <==>
                && HasMagic(image[..]) && Loadable(old(space), image[..], HeaderCount(image[..]))
                && |old(space).used| + |PagesWanted(image[..], HeaderCount(image[..]))| <= frames.Capacity()
      ensures r.AlreadyMapped? || r.BadSizes? ==> !Loadable(old(space), image[..], HeaderCount(image[..]))
      ensures r.NoFrames? ==>
                frames.Capacity() < |old(space).used| + |PagesWanted(image[..], HeaderCount(image[..]))|
    {
      hide Sane, Sound, Holds, HoldsAll, Grew, Covers, CoversAll, Describes, Header, Word, Half, Unmapped, Spent,
        Starved, SegmentPages, PagesWanted, Loadable;
      ghost var bytes := image[..];
      entry := 0;
      if image[0] != 0x7f || image[1] != 0x45 || image[2] != 0x4c || image[3] != 0x46 {
        return BadMagic, entry;
      }
      entry := Word(image[..], 24);
      var oldWand := wand;
      GrewSame(space);
      NoneLoaded(space, bytes);
      NoneSpent(space);
      ZeroUsed(space);
      var i := 0;
      while i < HeaderCount(image[..])
        invariant 0 <= i <= HeaderCount(bytes)
        invariant Valid() && fresh(dir.arrays - old(dir.arrays)) && image[..] == bytes
        invariant Grew(old(space), space) && HoldsAll(space, bytes, i)
        invariant CoversAll(old(space), space, bytes, i) && Loadable(old(space), bytes, i)
        invariant |space.table| == PAGES && Spent(old(space), space)
      {
        var ph := Header(image[..], i);
        ghost var was := space;
        if ph.kind == PT_LOAD {
          assert Loads(bytes, i);
          r := LoadSegment(image, ph);
          if !r.Loaded? {
            if r.AlreadyMapped? {
              NotLoadable(old(space), was, bytes, i);
            } else if r.NoFrames? {
              ZeroUsed(space);
              ImageStarved(old(space), was, space, bytes, i, frames.Capacity());
              StarvedShort(old(space), space, PagesWanted(bytes, HeaderCount(bytes)), frames.Capacity());
            } else {
              WrongSizes(old(space), bytes, i);
            }
            return;
          }
          ZeroUsed(space);
          SpentTwice(old(space), was, space);
          LoadedNext(old(space), was, space, bytes, i);
        } else {
          Ignored(old(space), space, bytes, i);
        }
        i := i + 1;
      }
      wand := oldWand;
      CoversAllNew(old(space), space, bytes, HeaderCount(bytes));
      SpentAll(old(space), space, PagesWanted(bytes, HeaderCount(bytes)));
      InUse();
      return Loaded, entry;
    }

    /** A chunk that lies within the file's part of the segment is a copy. */
    static lemma WholeChunk(image: array<byte>, seg: Segment, n: nat, c: nat)
      requires 0 < c && n + c <= seg.filesz <= seg.memsz && Sound(image.Length, seg)
      ensures seg.offset + n + c <= image.Length
      ensures BytesOf(image[..], seg, n, c) == image[seg.offset + n..seg.offset + n + c]
    {
      ChunkBytes(image[..], seg, n, c, c);
    }
  }
}
