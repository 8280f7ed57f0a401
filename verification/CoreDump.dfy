/** The second pass of the core dumper: headers, notes and pages fill the size that was computed. */
module CoreDump {
  import opened Base
  import opened Bytes
  import opened Memory
  import opened Elf
  import opened CoreRuns

  const EHDR: nat := 52
  const PHDR: nat := 32

  // ----- notes -----

  function Align4(x: nat): nat {
    (x + 3) / 4 * 4
  }

  /** Bytes needed for two notes with these descriptions. */
  function NotesSize(a: nat, b: nat): nat {
    Align4(Align4(a) + b) + 12 * 2 + 8 * 2
  }

  const CORE_NAME: seq<byte> := [0x43, 0x4f, 0x52, 0x45, 0]

  /** The header and the name of a note. */
  ghost function NoteHead(size: u32, kind: u32): (r: seq<byte>)
    ensures |r| == 17
  {
    Words([5, size, kind]) + CORE_NAME
  }

  /** A note is stored at this place. */
  ghost predicate NoteAt(notes: seq<byte>, at: nat, desc: seq<byte>, kind: u32) {
    && at + 20 + |desc| <= |notes| && |desc| < TWO32
    && notes[at..at + 17] == NoteHead(|desc|, kind) && notes[at + 20..at + 20 + |desc|] == desc
  }

  /** Writing header, name and description in place makes a note, and leaves what is before it. */
  lemma NoteWritten(s: seq<byte>, at: nat, desc: seq<byte>, kind: u32)
    requires at + 20 + |desc| <= |s| && |desc| < TWO32
    ensures var t := Patch(Patch(Patch(s, at, Words([5, |desc|, kind])), at + 12, CORE_NAME), at + 20, desc);
            NoteAt(t, at, desc, kind) && t[..at] == s[..at]
  {
    hide Patch, Words;
    var head := Words([5, |desc|, kind]);
    var one := Patch(s, at, head);
    var two := Patch(one, at + 12, CORE_NAME);
    var t := Patch(two, at + 20, desc);
    PatchAppend(s, at, at, head);
    PatchApart(s, at, head, 0, at);
    PatchAppend(one, at, at + 12, CORE_NAME);
    PatchApart(one, at + 12, CORE_NAME, 0, at);
    PatchAppend(two, at + 20, at + 20, desc);
    PatchApart(two, at + 20, desc, at, at + 17);
    PatchApart(two, at + 20, desc, 0, at);
    assert t[at..at + 17] == one[at..at + 12] + CORE_NAME;
    assert one[at..at + 12] == s[at..at] + head == head;
    assert t[at + 20..at + 20 + |desc|] == two[at + 20..at + 20] + desc == desc;
  }

  /** Skips to the next multiple of four. */
  function Padded(x: nat): (r: nat)
    ensures r == Align4(x)
  {
    if x % 4 != 0 then x + (4 - x % 4) else x
  }

  lemma AlignNote(at: nat, n: nat)
    requires at % 4 == 0
    ensures Align4(at + 17) == at + 20 && Align4(at + 20 + n) == at + 20 + Align4(n)
  {
  }

  method CopyName(notes: array<byte>, at: nat)
    requires at + 5 <= notes.Length
    modifies notes
    ensures notes[..] == Patch(old(notes[..]), at, CORE_NAME)
  {
    var name := new byte[] [0x43, 0x4f, 0x52, 0x45, 0];
    assert name[0..5] == CORE_NAME;
    Memcpy(notes, at, name, 0, 5);
  }

  /** Writes one note and returns where the next one goes. */
  method PutNote(notes: array<byte>, at: nat, desc: array<byte>, kind: u32) returns (next: nat)
    requires desc != notes && at % 4 == 0 && at + 20 + desc.Length <= notes.Length && desc.Length < TWO32
    modifies notes
    ensures next == at + 20 + Align4(desc.Length)
    ensures NoteAt(notes[..], at, desc[..], kind)
    ensures notes[..][..at] == old(notes[..])[..at]
  {
    hide Patch, Words, NoteAt, Align4;
    AlignNote(at, desc.Length);
    NoteWritten(notes[..], at, desc[..], kind);
    next := at;
    StoreWords(notes, next, [5, desc.Length, kind]);
    next := next + 12;
    CopyName(notes, next);
    next := Padded(next + 5);
    assert desc[0..desc.Length] == desc[..];
    Memcpy(notes, next, desc, 0, desc.Length);
    next := Padded(next + desc.Length);
  }

  /** The two notes exactly fill the size computed beforehand. */
  method BuildNotes(status: array<byte>, info: array<byte>) returns (notes: array<byte>, notesSize: nat)
    requires status.Length < TWO32 && info.Length < TWO32
    ensures fresh(notes) && notes.Length == notesSize == NotesSize(status.Length, info.Length)
    ensures NoteAt(notes[..], 0, status[..], 1)
    ensures NoteAt(notes[..], 20 + Align4(status.Length), info[..], 3)
    ensures 20 + Align4(status.Length) + 20 + Align4(info.Length) == notesSize
  {
    NotesFill(status.Length, info.Length);
    hide NoteAt, Align4;
    notesSize := status.Length;
    notesSize := Align4(notesSize);
    notesSize := notesSize + info.Length;
    notesSize := Align4(notesSize);
    notesSize := notesSize + 12 * 2 + (5 + 3) * 2;
    assert notesSize == NotesSize(status.Length, info.Length);
    hide NotesSize;
    notes := new byte[notesSize];
    var next := PutNote(notes, 0, status, 1);
    ghost var one := notes[..];
    next := PutNote(notes, next, info, 3);
    FirstNoteKept(one, notes[..], status[..], 20 + Align4(status.Length));
    assert next == notesSize;
  }

  /** Aligning as one goes along is aligning the total. */
  lemma NotesFill(a: nat, b: nat)
    ensures 20 + Align4(a) + 20 + Align4(b) == NotesSize(a, b)
    ensures Align4(a) % 4 == 0 && a <= Align4(a) && b <= Align4(b)
  {
  }

  lemma FirstNoteKept(x: seq<byte>, y: seq<byte>, desc: seq<byte>, n: nat)
    requires NoteAt(x, 0, desc, 1) && |x| == |y| && n <= |x| && x[..n] == y[..n] && 20 + |desc| <= n
    ensures NoteAt(y, 0, desc, 1)
  {
    assert y[0..17] == x[..n][0..17] == x[0..17];
    assert y[20..20 + |desc|] == x[..n][20..20 + |desc|] == x[20..20 + |desc|];
  }

  // ----- headers and data -----

  /** The frames of all present pages are in memory. */
  ghost predicate FramesIn(own: seq<Table>, size: nat) {
    forall i, p :: 0 <= i < |own| && 0 <= p < |own[i]| && own[i][p].present ==> (own[i][p].address + 1) * PAGE <= size
  }

  ghost predicate TableFramesIn(t: seq<Page>, size: nat) {
    forall p :: 0 <= p < |t| && t[p].present ==> (t[p].address + 1) * PAGE <= size
  }

  /** The bytes of a run: its pages, in order. */
  ghost function RunData(mem: seq<byte>, t: seq<Page>, i: nat): (r: seq<byte>)
    requires i <= |t| && TableFramesIn(t, |mem|)
    ensures |r| == PAGE * RunLength(t, i)
    decreases |t| - i
  {
    if i < |t| && t[i].present then FrameOf(mem, t[i].address) + RunData(mem, t, i + 1) else []
  }

  lemma {:induction false} RunDataAt(mem: seq<byte>, t: seq<Page>, i: nat, p: nat, o: nat)
    requires i <= |t| && TableFramesIn(t, |mem|) && p < RunLength(t, i) && o < PAGE
    ensures t[i + p].present && PAGE * p + o < PAGE * RunLength(t, i)
    ensures RunData(mem, t, i)[PAGE * p + o] == FrameOf(mem, t[i + p].address)[o]
    decreases p
  {
    if p > 0 {
      RunDataAt(mem, t, i + 1, p - 1, o);
      assert PAGE * p + o == PAGE + (PAGE * (p - 1) + o);
    }
  }

  ghost predicate ArePages(own: seq<Table>, runs: seq<nat>) {
    forall k :: 0 <= k < |runs| ==> IsPage(own, runs[k])
  }

  /** Pages in the first j runs. */
  ghost function PagesBefore(own: seq<Table>, runs: seq<nat>, j: nat): nat
    requires j <= |runs| && ArePages(own, runs)
  {
    if j == 0 then 0 else PagesBefore(own, runs, j - 1) + LengthOf(own, runs[j - 1])
  }

  ghost function DataOf(mem: seq<byte>, own: seq<Table>, run: nat): (r: seq<byte>)
    requires IsPage(own, run) && FramesIn(own, |mem|)
    ensures |r| == PAGE * LengthOf(own, run)
  {
    RunData(mem, own[run / 0x1_0000], run % 0x1_0000)
  }

  lemma {:induction false} PagesBeforeAll(own: seq<Table>, runs: seq<nat>, j: nat)
    requires j <= |runs| && ArePages(own, runs)
    ensures PagesBefore(own, runs, j) + PagesOf(own, runs[j..]) == PagesOf(own, runs)
  {
    if j == 0 {
      assert runs[0..] == runs;
    } else {
      PagesBeforeAll(own, runs, j - 1);
      assert runs[j - 1..][1..] == runs[j..];
    }
  }

  function AddressOf(run: nat): nat {
    (run / 0x1_0000 * 1024 + run % 0x1_0000) * 0x1000
  }

  /** Words of the ELF header, the note header and the header of a run. */
  function EhdrWords(runCount: nat): (r: seq<u32>)
    ensures |r| == 13
  {
    [0x464c_457f, 0x0001_0101, 0, 0, 4 + 3 * 0x1_0000, 1, 0, EHDR, 0, 0,
     EHDR + PHDR * 0x1_0000, (1 + runCount) % 0x1_0000 + 40 * 0x1_0000, 0]
  }

  function NoteWords(offset: u32, size: u32): (r: seq<u32>)
    ensures |r| == 8
  {
    [4, offset, 0, 0, size, 0, 0, 0]
  }

  function RunWords(offset: u32, vaddr: u32, size: u32): (r: seq<u32>)
    ensures |r| == 8
  {
    [1, offset, vaddr, 0, size, size, 7, 0x1000]
  }

  function DataStart(runCount: nat): nat {
    EHDR + PHDR * (1 + runCount)
  }

  /** Where the data of run j goes, given where that of run 0 does. */
  ghost function OffsetOf(own: seq<Table>, runs: seq<nat>, base: nat, j: nat): nat
    requires j <= |runs| && ArePages(own, runs)
  {
    base + PAGE * PagesBefore(own, runs, j)
  }

  function HeaderPlace(j: nat): nat {
    EHDR + PHDR * (1 + j)
  }

  lemma {:induction false} OffsetsGrow(own: seq<Table>, runs: seq<nat>, base: nat, j: nat, k: nat)
    requires j < k <= |runs| && ArePages(own, runs)
    ensures OffsetOf(own, runs, base, j) + PAGE * LengthOf(own, runs[j]) == OffsetOf(own, runs, base, j + 1)
    ensures OffsetOf(own, runs, base, j + 1) <= OffsetOf(own, runs, base, k)
  {
    if j + 1 < k {
      OffsetsGrow(own, runs, base, j, k - 1);
    }
  }

  /** Offsets and addresses are 32-bit words. */
  ghost predicate Fits(size: nat, own: seq<Table>, runs: seq<nat>, base: nat) {
    && |own| == ENTRIES && ArePages(own, runs)
    && DataStart(|runs|) <= base && OffsetOf(own, runs, base, |runs|) <= size < TWO32
  }

  lemma RunFits(size: nat, own: seq<Table>, runs: seq<nat>, base: nat, j: nat)
    requires Fits(size, own, runs, base) && j < |runs|
    ensures HeaderPlace(j) + PHDR <= DataStart(|runs|) <= base <= OffsetOf(own, runs, base, j)
    ensures OffsetOf(own, runs, base, j) + PAGE * LengthOf(own, runs[j]) <= size < TWO32
    ensures AddressOf(runs[j]) + PAGE * LengthOf(own, runs[j]) <= TWO32
    ensures LengthOf(own, runs[j]) <= ENTRIES && AddressOf(runs[j]) < TWO32
  {
    OffsetsGrow(own, runs, base, j, |runs|);
    hide PagesBefore, RunLength;
    assert IsPage(own, runs[j]);
  }

  /** Header and data of run j are in place. */
  ghost predicate RunWritten(core: seq<byte>, mem: seq<byte>, own: seq<Table>, runs: seq<nat>, base: nat, j: nat)
    requires Fits(|core|, own, runs, base) && FramesIn(own, |mem|) && j < |runs|
  {
    RunFits(|core|, own, runs, base, j);
    var at, size := OffsetOf(own, runs, base, j), PAGE * LengthOf(own, runs[j]);
    && core[HeaderPlace(j)..HeaderPlace(j) + PHDR] == Words(RunWords(at, AddressOf(runs[j]), size))
    && core[at..at + size] == DataOf(mem, own, runs[j])
  }

  /** Writing apart from a run keeps it. */
  lemma KeepsRun(core: seq<byte>, mem: seq<byte>, own: seq<Table>, runs: seq<nat>, base: nat, k: nat,
                 at: nat, data: seq<byte>)
    requires Fits(|core|, own, runs, base) && FramesIn(own, |mem|) && k < |runs|
    requires RunWritten(core, mem, own, runs, base, k) && at + |data| <= |core|
    requires HeaderPlace(k) + PHDR <= at
    requires at + |data| <= OffsetOf(own, runs, base, k)
             || OffsetOf(own, runs, base, k) + PAGE * LengthOf(own, runs[k]) <= at
    ensures RunWritten(Patch(core, at, data), mem, own, runs, base, k)
  {
    hide Patch, Words, DataOf, PagesBefore, RunWords, FramesIn;
    RunFits(|core|, own, runs, base, k);
    PatchApart(core, at, data, HeaderPlace(k), HeaderPlace(k) + PHDR);
    PatchApart(core, at, data, OffsetOf(own, runs, base, k),
               OffsetOf(own, runs, base, k) + PAGE * LengthOf(own, runs[k]));
  }

  /** Writing the data of run j and then its header puts it in place, and keeps the runs before it. */
  lemma NextRunWritten(core: seq<byte>, mem: seq<byte>, own: seq<Table>, runs: seq<nat>, base: nat, j: nat)
    requires Fits(|core|, own, runs, base) && FramesIn(own, |mem|) && j < |runs|
    requires forall k :: 0 <= k < j ==> RunWritten(core, mem, own, runs, base, k)
    ensures OffsetOf(own, runs, base, j) + |DataOf(mem, own, runs[j])| <= |core| < TWO32 && AddressOf(runs[j]) < TWO32
    ensures HeaderPlace(j) + PHDR <= |core|
    ensures var one := Patch(core, OffsetOf(own, runs, base, j), DataOf(mem, own, runs[j]));
            var two := Patch(one, HeaderPlace(j), Words(RunWords(OffsetOf(own, runs, base, j), AddressOf(runs[j]),
                                                                 PAGE * LengthOf(own, runs[j]))));
            forall k :: 0 <= k <= j ==> RunWritten(two, mem, own, runs, base, k)
  {
    hide Patch, Words, DataOf, PagesBefore, RunWords, FramesIn, RunWritten;
    RunFits(|core|, own, runs, base, j);
    var at, data := OffsetOf(own, runs, base, j), DataOf(mem, own, runs[j]);
    var one := Patch(core, at, data);
    var head := Words(RunWords(at, AddressOf(runs[j]), PAGE * LengthOf(own, runs[j])));
    var two := Patch(one, HeaderPlace(j), head);
    forall k | 0 <= k < j ensures RunWritten(two, mem, own, runs, base, k) {
      RunFits(|core|, own, runs, base, k);
      OffsetsGrow(own, runs, base, k, j);
      KeepsRun(core, mem, own, runs, base, k, at, data);
      KeepsRun(one, mem, own, runs, base, k, HeaderPlace(j), head);
    }
    PatchAppend(core, at, at, data);
    PatchApart(one, HeaderPlace(j), head, at, at + |data|);
    PatchAppend(one, HeaderPlace(j), HeaderPlace(j), head);
    ThisRunWritten(two, mem, own, runs, base, j);
  }

  lemma ThisRunWritten(core: seq<byte>, mem: seq<byte>, own: seq<Table>, runs: seq<nat>, base: nat, j: nat)
    requires Fits(|core|, own, runs, base) && FramesIn(own, |mem|) && j < |runs|
    requires HeaderPlace(j) + PHDR <= |core| && AddressOf(runs[j]) < TWO32
    requires OffsetOf(own, runs, base, j) + PAGE * LengthOf(own, runs[j]) <= |core|
    requires core[HeaderPlace(j)..HeaderPlace(j) + PHDR] ==
             Words(RunWords(OffsetOf(own, runs, base, j), AddressOf(runs[j]), PAGE * LengthOf(own, runs[j])))
    requires core[OffsetOf(own, runs, base, j)..OffsetOf(own, runs, base, j) + PAGE * LengthOf(own, runs[j])] ==
             DataOf(mem, own, runs[j])
    ensures RunWritten(core, mem, own, runs, base, j)
  {
  }

  /** A core file: headers, notes and the pages of each run, filling its size. */
  ghost predicate IsDump(core: seq<byte>, mem: seq<byte>, own: seq<Table>, runs: seq<nat>, notes: seq<byte>) {
    var base := DataStart(|runs|) + |notes|;
    && Fits(|core|, own, runs, base) && OffsetOf(own, runs, base, |runs|) == |core| && FramesIn(own, |mem|)
    && HeadWritten(core, |runs|, notes)
    && forall k :: 0 <= k < |runs| ==> RunWritten(core, mem, own, runs, base, k)
  }

  ghost predicate HeadWritten(core: seq<byte>, runCount: nat, notes: seq<byte>) {
    && DataStart(runCount) + |notes| <= |core| < TWO32
    && core[0..EHDR] == Words(EhdrWords(runCount))
    && core[EHDR..EHDR + PHDR] == Words(NoteWords(DataStart(runCount), |notes|))
    && core[DataStart(runCount)..DataStart(runCount) + |notes|] == notes
  }

  /** Writing a run header or run data leaves the fixed parts. */
  lemma KeepsHead(core: seq<byte>, runCount: nat, notes: seq<byte>, at: nat, data: seq<byte>)
    requires HeadWritten(core, runCount, notes) && at + |data| <= |core|
    requires DataStart(runCount) + |notes| <= at || EHDR + PHDR <= at <= at + |data| <= DataStart(runCount)
    ensures HeadWritten(Patch(core, at, data), runCount, notes)
  {
    hide Patch, Words, EhdrWords, NoteWords;
    PatchApart(core, at, data, 0, EHDR);
    PatchApart(core, at, data, EHDR, EHDR + PHDR);
    PatchApart(core, at, data, DataStart(runCount), DataStart(runCount) + |notes|);
  }

  /** Headers and notes, stored in turn. */
  lemma HeadStored(core: seq<byte>, runCount: nat, notes: seq<byte>)
    requires DataStart(runCount) + |notes| <= |core| < TWO32
    ensures HeadWritten(Patch(Patch(Patch(core, 0, Words(EhdrWords(runCount))), EHDR,
                                    Words(NoteWords(DataStart(runCount), |notes|))), DataStart(runCount), notes),
                        runCount, notes)
  {
    hide Patch, Words, EhdrWords, NoteWords;
    var ehdr, phdr := Words(EhdrWords(runCount)), Words(NoteWords(DataStart(runCount), |notes|));
    var one := Patch(core, 0, ehdr);
    var two := Patch(one, EHDR, phdr);
    var three := Patch(two, DataStart(runCount), notes);
    PatchAppend(core, 0, 0, ehdr);
    PatchAppend(one, EHDR, EHDR, phdr);
    PatchAppend(two, DataStart(runCount), DataStart(runCount), notes);
    PatchApart(one, EHDR, phdr, 0, EHDR);
    PatchApart(two, DataStart(runCount), notes, 0, EHDR);
    PatchApart(two, DataStart(runCount), notes, EHDR, EHDR + PHDR);
    assert three[0..EHDR] == core[0..0] + ehdr == ehdr;
    assert three[EHDR..EHDR + PHDR] == one[EHDR..EHDR] + phdr == phdr;
    assert three[DataStart(runCount)..DataStart(runCount) + |notes|] ==
           two[DataStart(runCount)..DataStart(runCount)] + notes == notes;
  }

  /** One more page of a run. */
  lemma RunStep(mem: seq<byte>, t: seq<Page>, i: nat)
    requires i < |t| && TableFramesIn(t, |mem|)
    ensures t[i].present ==>
              && (t[i].address + 1) * PAGE <= |mem| && RunLength(t, i) == 1 + RunLength(t, i + 1)
              && RunData(mem, t, i) == FrameOf(mem, t[i].address) + RunData(mem, t, i + 1)
    ensures !t[i].present ==> RunLength(t, i) == 0
  {
  }

  /** Copies one frame into the file by way of the helper page. */
  method CopyPage(core: array<byte>, nextWrite: nat, memory: array<byte>, helper: array<byte>, frame: nat)
    requires core != memory && core != helper && memory != helper && helper.Length == PAGE
    requires (frame + 1) * PAGE <= memory.Length && nextWrite + PAGE <= core.Length
    modifies core, helper
    ensures core[..] == Patch(old(core[..]), nextWrite, FrameOf(memory[..], frame))
  {
    hide Patch;
    Memcpy(helper, 0, memory, frame * PAGE, PAGE);
    PatchAll(old(helper[..]), FrameOf(memory[..], frame));
    assert helper[0..PAGE] == helper[..];
    Memcpy(core, nextWrite, helper, 0, PAGE);
  }

  /** Copies the pages of one run. */
  method WriteRun(core: array<byte>, nextWrite: nat, memory: array<byte>, helper: array<byte>,
                  pages: array<Page>, start: nat) returns (written: nat)
    requires core != memory && core != helper && memory != helper && helper.Length == PAGE
    requires start <= pages.Length == ENTRIES && TableFramesIn(pages[..], memory.Length)
    requires nextWrite + PAGE * RunLength(pages[..], start) <= core.Length
    modifies core, helper
    ensures written == PAGE * RunLength(pages[..], start)
    ensures core[..] == Patch(old(core[..]), nextWrite, RunData(memory[..], pages[..], start))
  {
    hide Patch, RunLength, RunData, FrameOf, TableFramesIn;
    ghost var t: seq<Page>, mem, done := pages[..], memory[..], [];
    written := 0;
    var pi := start;
    PatchNothing(core[..], nextWrite);
    while pi < 1024 && pages[pi].present
      invariant start <= pi <= 1024 && memory[..] == mem
      invariant |done| == written && written + PAGE * RunLength(t, pi) == PAGE * RunLength(t, start)
      invariant done + RunData(mem, t, pi) == RunData(mem, t, start)
      invariant core[..] == Patch(old(core[..]), nextWrite, done)
    {
      RunStep(mem, t, pi);
      ghost var page := FrameOf(mem, t[pi].address);
      PatchJoin(old(core[..]), nextWrite, done, page);
      CopyPage(core, nextWrite + written, memory, helper, pages[pi].address);
      assert done + RunData(mem, t, pi) == (done + page) + RunData(mem, t, pi + 1);
      done := done + page;
      written := written + PAGE;
      pi := pi + 1;
    }
    RunEnds(mem, t, pi);
    assert done + [] == done;
  }

  lemma RunEnds(mem: seq<byte>, t: seq<Page>, i: nat)
    requires i <= |t| && TableFramesIn(t, |mem|) && (i < |t| ==> !t[i].present)
    ensures RunLength(t, i) == 0 && RunData(mem, t, i) == []
  {
  }

  /** The table of a run is there, and is the task's own. */
  lemma TableOfRun(dir: PageDirectory, kernel: PageDirectory, own: seq<Table>, run: nat, size: nat)
    requires dir.Valid() && kernel.Valid() && Owns(dir, kernel, own) && IsPage(own, run) && FramesIn(own, size)
    ensures run / 0x1_0000 < dir.tables.Length && dir.tables[run / 0x1_0000] != null
    ensures dir.tables[run / 0x1_0000].pages.Length == ENTRIES && run % 0x1_0000 < ENTRIES
    ensures own[run / 0x1_0000] == dir.tables[run / 0x1_0000].pages[..]
    ensures TableFramesIn(own[run / 0x1_0000], size)
  {
  }

  lemma FirstOffset(own: seq<Table>, runs: seq<nat>, base: nat)
    requires ArePages(own, runs)
    ensures OffsetOf(own, runs, base, 0) == base
  {
  }

  /** Writes the data of one run, and then its header. */
  method StoreRun(core: array<byte>, dir: PageDirectory, memory: array<byte>, helper: array<byte>, run: nat,
                  nextHdr: nat, nextWrite: nat, kernel: PageDirectory, ghost own: seq<Table>) returns (written: nat)
    requires core != memory && core != helper && memory != helper && helper.Length == PAGE
    requires dir.Valid() && kernel.Valid() && Owns(dir, kernel, own) && FramesIn(own, memory.Length)
    requires IsPage(own, run) && AddressOf(run) < TWO32 && nextHdr + PHDR <= core.Length
    requires nextWrite + PAGE * LengthOf(own, run) <= core.Length < TWO32
    modifies core, helper
    ensures written == PAGE * LengthOf(own, run)
    ensures core[..] == Patch(Patch(old(core[..]), nextWrite, DataOf(memory[..], own, run)), nextHdr,
                              Words(RunWords(nextWrite, AddressOf(run), written)))
  {
    hide Patch, Words, RunWords, Owns, FramesIn, TableFramesIn, RunData, FrameOf, RunLength;
    var pti, pi := run / 0x1_0000, run % 0x1_0000;
    TableOfRun(dir, kernel, own, run, memory.Length);
    written := WriteRun(core, nextWrite, memory, helper, dir.tables[pti].pages, pi);
    StoreWords(core, nextHdr, RunWords(nextWrite, (pti * 1024 + pi) * 0x1000, written));
  }

  /** Writes the data and then the header of every run. */
  method WriteRuns(core: array<byte>, dir: PageDirectory, memory: array<byte>, helper: array<byte>, runs: seq<nat>,
                   base: nat, kernel: PageDirectory, ghost own: seq<Table>, ghost notes: seq<byte>)
    requires core != memory && core != helper && memory != helper && helper.Length == PAGE
    requires dir.Valid() && kernel.Valid() && Owns(dir, kernel, own) && FramesIn(own, memory.Length)
    requires Fits(core.Length, own, runs, base) && base == DataStart(|runs|) + |notes|
    requires HeadWritten(core[..], |runs|, notes)
    modifies core, helper
    ensures HeadWritten(core[..], |runs|, notes)
    ensures forall k :: 0 <= k < |runs| ==> RunWritten(core[..], memory[..], own, runs, base, k)
  {
    hide Patch, Words, RunWords, Owns, FramesIn, TableFramesIn, RunWritten, HeadWritten, RunData, FrameOf,
      PagesBefore, RunLength;
    ghost var mem := memory[..];
    FirstOffset(own, runs, base);
    var nextHdr, nextWrite := HeaderPlace(0), base;
    var j := 0;
    while j < |runs|
      invariant 0 <= j <= |runs| && memory[..] == mem && nextHdr == HeaderPlace(j)
      invariant nextWrite == OffsetOf(own, runs, base, j)
      invariant HeadWritten(core[..], |runs|, notes)
      invariant forall k :: 0 <= k < j ==> RunWritten(core[..], mem, own, runs, base, k)
    {
      RunFits(core.Length, own, runs, base, j);
      NextRunWritten(core[..], mem, own, runs, base, j);
      OffsetsGrow(own, runs, base, j, j + 1);
      KeepsHead(core[..], |runs|, notes, nextWrite, DataOf(mem, own, runs[j]));
      ghost var head := Words(RunWords(nextWrite, AddressOf(runs[j]), PAGE * LengthOf(own, runs[j])));
      KeepsHead(Patch(core[..], nextWrite, DataOf(mem, own, runs[j])), |runs|, notes, nextHdr, head);
      var written := StoreRun(core, dir, memory, helper, runs[j], nextHdr, nextWrite, kernel, own);
      nextWrite := nextWrite + written;
      nextHdr := nextHdr + PHDR;
      j := j + 1;
    }
  }

  /**
   * Dumps a task: the size found by the first pass is filled exactly by the second.
   */
  method DumpElfCore(dir: PageDirectory, kernel: PageDirectory, memory: array<byte>,
                     status: array<byte>, info: array<byte>, ghost own: seq<Table>)
    returns (core: array<byte>, size: nat, ghost runs: seq<nat>, ghost noteBytes: seq<byte>)
    requires dir.Valid() && kernel.Valid() && Owns(dir, kernel, own) && FramesIn(own, memory.Length)
    requires DataStart(|RunsFrom(own, 0)|) + NotesSize(status.Length, info.Length) + PAGE * CountFrom(own, 0) < TWO32
    ensures fresh(core) && core.Length == size
    ensures runs == RunsFrom(own, 0) && IsDump(core[..], memory[..], own, runs, noteBytes)
    ensures NoteAt(noteBytes, 0, status[..], 1) && NoteAt(noteBytes, 20 + Align4(status.Length), info[..], 3)
    ensures |noteBytes| == NotesSize(status.Length, info.Length)
  {
    hide NoteAt, Owns, FramesIn, RunWritten, HeadWritten, StartsRun, RunsFrom, CountFrom, PagesOf, PagesBefore;
    OwnTables(dir, kernel, own);
    var runList, runCount, pageCount := ScanRuns(dir, kernel, own);
    runs := runList;
    var notes, notesSize := BuildNotes(status, info);
    noteBytes := notes[..];
    PagesBeforeAll(own, runs, |runs|);
    NoPages(own);
    assert runs[|runs|..] == [];
    size := EHDR + PHDR * (1 + runCount) + 0x1000 * pageCount + notesSize;
    var helper := new byte[0x1000];
    core := StartCore(size, runCount, notes);
    var nextWrite := DataStart(runCount) + notesSize;
    WriteRuns(core, dir, memory, helper, runList, nextWrite, kernel, own, noteBytes);
  }

  /** Allocates the file and writes its headers and notes. */
  method StartCore(size: nat, runCount: nat, notes: array<byte>) returns (core: array<byte>)
    requires DataStart(runCount) + notes.Length <= size < TWO32
    ensures fresh(core) && core.Length == size && HeadWritten(core[..], runCount, notes[..])
  {
    hide Patch, Words, EhdrWords, NoteWords, HeadWritten;
    core := new byte[size];
    HeadStored(core[..], runCount, notes[..]);
    StoreWords(core, 0, EhdrWords(runCount));
    StoreWords(core, EHDR, NoteWords(DataStart(runCount), notes.Length));
    Memcpy(core, DataStart(runCount), notes, 0, notes.Length);
    assert notes[0..notes.Length] == notes[..];
  }

  lemma NoPages(own: seq<Table>)
    ensures PagesOf(own, []) == 0
  {
  }

  // ----- reading the file back -----

  /** The segment that the header of run j describes. */
  ghost function RunSegment(own: seq<Table>, runs: seq<nat>, notes: seq<byte>, j: nat): Segment
    requires j < |runs| && ArePages(own, runs)
  {
    Segment(PT_LOAD, OffsetOf(own, runs, DataStart(|runs|) + |notes|, j), AddressOf(runs[j]),
            PAGE * LengthOf(own, runs[j]), PAGE * LengthOf(own, runs[j]))
  }

  /** The ELF header says what the loader looks for, except that its header count is cut to 16 bits. */
  lemma DumpHead(core: seq<byte>, runCount: nat, notes: seq<byte>)
    requires HeadWritten(core, runCount, notes)
    ensures |core| >= 52 && HasMagic(core) && Word(core, 28) == EHDR && Half(core, 42) == PHDR
    ensures HeaderCount(core) == (1 + runCount) % 0x1_0000
    ensures HeaderAt(core, 0) + 32 <= |core| && Header(core, 0) == Segment(4, DataStart(runCount), 0, |notes|, 0)
  {
    hide Words;
    var ws, ns := EhdrWords(runCount), NoteWords(DataStart(runCount), |notes|);
    MagicRead(core, ws);
    StoredWord(core, 0, ws, 7);
    StoredWord(core, 0, ws, 10);
    StoredWord(core, 0, ws, 11);
    PhdrRead(core, EHDR, ns);
  }

  /** Every field of the file header and of the note header, at its place in the format. */
  lemma HeadIs(core: seq<byte>, runCount: nat, notes: seq<byte>)
    requires HeadWritten(core, runCount, notes)
    ensures |core| >= 84
    ensures Word(core, 0) == 0x464c_457f && Word(core, 4) == 0x1_0101 && Word(core, 8) == 0 && Word(core, 12) == 0
    ensures Half(core, 16) == 4 && Half(core, 18) == 3 && Word(core, 20) == 1 && Word(core, 24) == 0
    ensures Word(core, 28) == 52 && Word(core, 32) == 0 && Word(core, 36) == 0
    ensures Half(core, 40) == 52 && Half(core, 42) == 32 && Half(core, 44) == (1 + runCount) % 0x1_0000
    ensures Half(core, 46) == 40 && Half(core, 48) == 0 && Half(core, 50) == 0
    ensures Word(core, 52) == 4 && Word(core, 56) == 52 + 32 * (1 + runCount) && Word(core, 60) == 0
    ensures Word(core, 64) == 0 && Word(core, 68) == |notes| && Word(core, 72) == 0
    ensures Word(core, 76) == 0 && Word(core, 80) == 0
    ensures core[52 + 32 * (1 + runCount)..52 + 32 * (1 + runCount) + |notes|] == notes
  {
    hide Words, Word, Half;
    var ws := EhdrWords(runCount);
    IdentIs(core, ws);
    StoredWord(core, 0, ws, 4);
    StoredWord(core, 0, ws, 5);
    StoredWord(core, 0, ws, 6);
    StoredWord(core, 0, ws, 7);
    StoredWord(core, 0, ws, 8);
    StoredWord(core, 0, ws, 9);
    StoredWord(core, 0, ws, 10);
    StoredWord(core, 0, ws, 11);
    StoredWord(core, 0, ws, 12);
    PhdrRead(core, EHDR, NoteWords(DataStart(runCount), |notes|));
  }

  lemma IdentIs(core: seq<byte>, ws: seq<u32>)
    requires |ws| == 13 && |core| >= 52 && core[0..52] == Words(ws)
    ensures Word(core, 0) == ws[0] && Word(core, 4) == ws[1] && Word(core, 8) == ws[2] && Word(core, 12) == ws[3]
  {
    hide Words, Word, Half;
    StoredWord(core, 0, ws, 0);
    StoredWord(core, 0, ws, 1);
    StoredWord(core, 0, ws, 2);
    StoredWord(core, 0, ws, 3);
  }

  /** A note, at its place in the format: sizes, kind, the name CORE with its final zero, and the description. */
  lemma NoteReads(notes: seq<byte>, at: nat, desc: seq<byte>, kind: u32)
    requires NoteAt(notes, at, desc, kind)
    ensures at + 20 + |desc| <= |notes|
    ensures Word(notes, at) == 5 && Word(notes, at + 4) == |desc| && Word(notes, at + 8) == kind
    ensures notes[at + 12..at + 17] == [0x43, 0x4f, 0x52, 0x45, 0] && notes[at + 20..at + 20 + |desc|] == desc
  {
    hide Words, Word, Half;
    var ws := [5, |desc|, kind];
    assert notes[at..at + 12] == notes[at..at + 17][..12] == Words(ws);
    assert notes[at + 12..at + 17] == notes[at..at + 17][12..];
    StoredWord(notes, at, ws, 0);
    StoredWord(notes, at, ws, 1);
    StoredWord(notes, at, ws, 2);
  }

  /** The file's reader sees every run exactly when there are fewer than 65535 of them. */
  lemma HeadersCounted(core: seq<byte>, mem: seq<byte>, own: seq<Table>, runs: seq<nat>, notes: seq<byte>)
    requires IsDump(core, mem, own, runs, notes)
    ensures |core| >= 52
    ensures HeaderCount(core) == 1 + |runs| <==> |runs| < 0xffff
  {
    DumpHead(core, |runs|, notes);
  }

  /** A task whose every second page is present, in 128 tables. */
  function Checkered(): Table {
    seq(ENTRIES, i => Page(i % 2 == 0, false, false, 0))
  }

  function CrowdedTable(i: nat): Table {
    if i < 128 then Checkered() else []
  }

  function Crowded(): (own: seq<Table>)
    ensures |own| == ENTRIES
  {
    seq(ENTRIES, i requires 0 <= i < ENTRIES => CrowdedTable(i))
  }

  lemma {:induction false} CheckeredStarts(i: nat)
    requires i <= ENTRIES && i % 2 == 0
    ensures |Starts(Checkered(), i)| == PresentCount(Checkered(), i) == (ENTRIES - i) / 2
    decreases ENTRIES - i
  {
    if i < ENTRIES {
      CheckeredStarts(i + 2);
      var t := Checkered();
      assert t[i].present && !t[i + 1].present;
      assert RunLength(t, i + 1) == 0 && RunLength(t, i) == 1;
      assert Starts(t, i + 1) == Starts(t, i + 2);
    }
  }

  lemma {:induction false} CrowdedRuns(i: nat)
    requires i <= ENTRIES
    ensures |RunsFrom(Crowded(), i)| == CountFrom(Crowded(), i) == if i < 128 then 512 * (128 - i) else 0
    decreases ENTRIES - i
  {
    if i < ENTRIES {
      CrowdedRuns(i + 1);
      CheckeredStarts(0);
      assert Crowded()[i] == CrowdedTable(i);
      hide Checkered, Crowded;
    }
  }

  lemma CrowdedFrames()
    ensures FramesIn(Crowded(), PAGE)
  {
    hide Checkered;
    forall i, p | 0 <= i < ENTRIES && 0 <= p < |Crowded()[i]| ensures Crowded()[i][p].address == 0 {
      assert Crowded()[i] == CrowdedTable(i);
      CheckeredAt(p);
    }
  }

  lemma CheckeredAt(p: nat)
    ensures p < ENTRIES ==> Checkered()[p].address == 0
  {
  }

  lemma DumpCount(core: seq<byte>, mem: seq<byte>, own: seq<Table>, runs: seq<nat>, notes: seq<byte>)
    requires IsDump(core, mem, own, runs, notes)
    ensures |core| >= 52 && HeaderCount(core) == (1 + |runs|) % 0x1_0000
  {
    DumpHead(core, |runs|, notes);
  }

  /** It can be dumped, and the file's reader sees none of its 65536 runs. */
  lemma CrowdedMiscounted(core: seq<byte>, mem: seq<byte>, notes: seq<byte>)
    ensures FramesIn(Crowded(), PAGE) && |RunsFrom(Crowded(), 0)| == CountFrom(Crowded(), 0) == 0x1_0000
    ensures IsDump(core, mem, Crowded(), RunsFrom(Crowded(), 0), notes) ==> |core| >= 52 && HeaderCount(core) == 1
  {
    hide *;
    CrowdedRuns(0);
    CrowdedFrames();
    if IsDump(core, mem, Crowded(), RunsFrom(Crowded(), 0), notes) {
      DumpCount(core, mem, Crowded(), RunsFrom(Crowded(), 0), notes);
    }
  }

  /** The loader's view of header 1 + j is run j. */
  lemma DumpReads(core: seq<byte>, mem: seq<byte>, own: seq<Table>, runs: seq<nat>, notes: seq<byte>, j: nat)
    requires IsDump(core, mem, own, runs, notes) && j < |runs|
    ensures |core| >= 52 && HeaderAt(core, 1 + j) == HeaderPlace(j) && HeaderPlace(j) + 32 <= |core|
    ensures Header(core, 1 + j) == RunSegment(own, runs, notes, j)
    ensures Word(core, HeaderPlace(j) + 12) == 0
    ensures Word(core, HeaderPlace(j) + 24) == 7 && Word(core, HeaderPlace(j) + 28) == 0x1000
    ensures Sound(|core|, Header(core, 1 + j))
    ensures core[Header(core, 1 + j).offset..Header(core, 1 + j).offset + Header(core, 1 + j).filesz] ==
            DataOf(mem, own, runs[j])
  {
    hide Words, Word, Half, DataOf, PagesBefore, RunLength, FramesIn, HasMagic;
    var base := DataStart(|runs|) + |notes|;
    DumpHead(core, |runs|, notes);
    RunFits(|core|, own, runs, base, j);
    assert RunWritten(core, mem, own, runs, base, j);
    PhdrRead(core, HeaderPlace(j),
             RunWords(OffsetOf(own, runs, base, j), AddressOf(runs[j]), PAGE * LengthOf(own, runs[j])));
  }

  /** The virtual address of byte o of a page. */
  function PageAddress(table: nat, page: nat, o: nat): nat {
    (table * 1024 + page) * 0x1000 + o
  }

  /** Every present page of the task is in the file: some segment covers it and holds its frame's bytes. */
  lemma DumpIsFaithful(core: seq<byte>, mem: seq<byte>, own: seq<Table>, runs: seq<nat>, notes: seq<byte>,
                       i: nat, p: nat, o: nat) returns (j: nat)
    requires IsDump(core, mem, own, runs, notes) && runs == RunsFrom(own, 0)
    requires i < |own| && p < |own[i]| && own[i][p].present && o < PAGE
    ensures j < |runs| && (own[i][p].address + 1) * PAGE <= |mem|
    ensures |core| >= 52 && HeaderAt(core, 1 + j) + 32 <= |core| && Sound(|core|, Header(core, 1 + j))
    ensures var seg := Header(core, 1 + j);
            && seg.kind == PT_LOAD && seg.vaddr <= PageAddress(i, p, o) < seg.vaddr + seg.memsz
            && ByteOf(core, seg, PageAddress(i, p, o) - seg.vaddr) == FrameOf(mem, own[i][p].address)[o]
  {
    hide Words, Word, Half, PagesBefore, HasMagic, HeadWritten, RunWritten, FrameOf, RunsFrom, RunLength, IsDump,
      IsPage,
      RunData, Sound, Header, HeaderAt, ByteOf;
    var s;
    s, j := FindRun(own, i, p);
    DumpParts(core, mem, own, runs, notes);
    Decode(i, s);
    DumpReads(core, mem, own, runs, notes, j);
    RunDataAt(mem, own[i], s, p - s, o);
    SegmentByte(core, Header(core, 1 + j), DataOf(mem, own, runs[j]), PAGE * (p - s) + o);
    assert PageAddress(i, p, o) - AddressOf(runs[j]) == PAGE * (p - s) + o;
  }

  lemma DumpParts(core: seq<byte>, mem: seq<byte>, own: seq<Table>, runs: seq<nat>, notes: seq<byte>)
    requires IsDump(core, mem, own, runs, notes)
    ensures ArePages(own, runs) && FramesIn(own, |mem|) && |core| < TWO32
  {
  }

  /** The run of a present page, and its place in the list. */
  lemma FindRun(own: seq<Table>, i: nat, p: nat) returns (s: nat, j: nat)
    requires i < |own| && p < |own[i]| && own[i][p].present
    ensures s <= p < s + RunLength(own[i], s) && j < |RunsFrom(own, 0)| && RunsFrom(own, 0)[j] == Encode(i, s)
  {
    s := RunOf(own[i], p);
    Decode(i, s);
    RunsExact(own, 0);
    assert Encode(i, s) in RunsFrom(own, 0) by {
      hide RunLength, RunsFrom;
    }
    j :| 0 <= j < |RunsFrom(own, 0)| && RunsFrom(own, 0)[j] == Encode(i, s);
  }

  /** A byte of a segment that is all file. */
  lemma SegmentByte(image: seq<byte>, seg: Segment, data: seq<byte>, k: nat)
    requires Sound(|image|, seg) && seg.filesz == seg.memsz && k < seg.memsz
    requires image[seg.offset..seg.offset + seg.filesz] == data
    ensures ByteOf(image, seg, k) == data[k]
  {
  }

  /** With a header count that fits its field, the file is one the loader accepts, and loads exactly the runs. */
  lemma DumpIsWellFormed(core: seq<byte>, mem: seq<byte>, own: seq<Table>, runs: seq<nat>, notes: seq<byte>)
    requires IsDump(core, mem, own, runs, notes) && |runs| + 1 < 0x1_0000
    ensures WellFormed(core) && HasMagic(core) && HeaderCount(core) == 1 + |runs|
    ensures forall i: nat :: Loads(core, i) <==> 1 <= i <= |runs|
  {
    hide Words, Word, Half, PagesBefore, HasMagic, RunLength, RunWritten, DataOf, Header, HeaderAt, HeadWritten;
    DumpHead(core, |runs|, notes);
    forall i: nat | i < 1 + |runs|
      ensures HeaderAt(core, i) + 32 <= |core| && (Header(core, i).kind == PT_LOAD <==> i >= 1)
      ensures i >= 1 ==> Sound(|core|, Header(core, i))
    {
      if i >= 1 {
        DumpReads(core, mem, own, runs, notes, i - 1);
      }
    }
  }

  /** What a task that loads the dump sees is what the dumped task saw. */
  lemma DumpThenLoad(core: seq<byte>, mem: seq<byte>, own: seq<Table>, runs: seq<nat>, notes: seq<byte>, x: Space,
                     i: nat, p: nat, o: nat)
    requires IsDump(core, mem, own, runs, notes) && runs == RunsFrom(own, 0) && |runs| + 1 < 0x1_0000
    requires Sane(x) && WellFormed(core) && HoldsAll(x, core, HeaderCount(core))
    requires i < |own| && p < |own[i]| && own[i][p].present && o < PAGE
    ensures (own[i][p].address + 1) * PAGE <= |mem| && Mapped(x, PageAddress(i, p, o))
    ensures View(x, PageAddress(i, p, o)) == FrameOf(mem, own[i][p].address)[o]
  {
    hide Words, Word, Half, HeadWritten, RunWritten, FrameOf, RunsFrom, RunLength, Sound, Header, HeaderAt, WellFormed,
      IsDump, View, Mapped;
    var j := DumpIsFaithful(core, mem, own, runs, notes, i, p, o);
    DumpIsWellFormed(core, mem, own, runs, notes);
    var seg := Header(core, 1 + j);
    assert Loads(core, 1 + j);
    assert HoldsByte(x, core, seg, PageAddress(i, p, o) - seg.vaddr);
  }

  /** The pages that the segment of a run touches are those of the run. */
  lemma RunTouches(own: seq<Table>, run: nat, seg: Segment, q: nat)
    requires IsPage(own, run) && seg.vaddr == AddressOf(run) && seg.memsz == PAGE * LengthOf(own, run)
    ensures Touches(seg, seg.memsz, q) ==>
              q / 1024 == run / 0x1_0000 && run % 0x1_0000 <= q % 1024 < run % 0x1_0000 + LengthOf(own, run)
    ensures Touches(seg, seg.memsz, q) ==>
              q / 1024 < |own| && q % 1024 < |own[q / 1024]| && own[q / 1024][q % 1024].present
  {
    var first := run / 0x1_0000 * 1024 + run % 0x1_0000;
    RunIsPresent(own[run / 0x1_0000], run % 0x1_0000);
    hide RunLength;
    assert seg.vaddr / PAGE == first;
    assert Touches(seg, seg.memsz, q) ==> first <= q < first + LengthOf(own, run);
  }

  /** The dump can be loaded wherever the dumped pages are free. */
  lemma DumpIsLoadable(core: seq<byte>, mem: seq<byte>, own: seq<Table>, runs: seq<nat>, notes: seq<byte>, x: Space)
    requires IsDump(core, mem, own, runs, notes) && runs == RunsFrom(own, 0) && |runs| + 1 < 0x1_0000
    requires Sane(x) && WellFormed(core)
    requires forall q :: 0 <= q < PAGES && q / 1024 < |own| && q % 1024 < |own[q / 1024]|
                         && own[q / 1024][q % 1024].present ==>
               x.table[q] == 0
    ensures Loadable(x, core, HeaderCount(core))
  {
    hide Words, Word, Half, HeadWritten, RunWritten, FrameOf, RunsFrom, RunLength, Sound, Header, HeaderAt, IsDump,
      Touches,
      DataOf, PagesBefore, IsPage;
    DumpIsWellFormed(core, mem, own, runs, notes);
    DumpParts(core, mem, own, runs, notes);
    RunsAscend(own, 0);
    forall i: nat | Loads(core, i) ensures Header(core, i) == RunSegment(own, runs, notes, i - 1) {
      DumpReads(core, mem, own, runs, notes, i - 1);
    }
    forall i: nat, q: nat | Loads(core, i) && TouchedBy(core, i, q)
      ensures q / 1024 < |own| && q % 1024 < |own[q / 1024]| && own[q / 1024][q % 1024].present
      ensures q / 1024 == runs[i - 1] / 0x1_0000
      ensures runs[i - 1] % 0x1_0000 <= q % 1024 < runs[i - 1] % 0x1_0000 + LengthOf(own, runs[i - 1])
    {
      RunTouches(own, runs[i - 1], Header(core, i), q);
    }
    forall i: nat | Loads(core, i)
      ensures Unmapped(x, Header(core, i)) && Header(core, i).filesz <= Header(core, i).memsz
    {
      forall q | 0 <= q < PAGES && Touches(Header(core, i), Header(core, i).memsz, q) ensures x.table[q] == 0 {
        assert TouchedBy(core, i, q);
      }
    }
    forall i: nat, j: nat, q: nat
      | i < j < HeaderCount(core) && Loads(core, i) && Loads(core, j) && TouchedBy(core, i, q)
      ensures !TouchedBy(core, j, q)
    {
      assert EndOf(own, runs[i - 1]) <= runs[j - 1];
    }
  }
}
