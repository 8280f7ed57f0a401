/** The list of physical regions that a bus-master DMA transfer is split into. */
module Prd {
  import opened Base

  const PAGE64K: nat := 0x10000
  const MAX_TRANSFER_SIZE: nat := 262144
  const MAX_SEG: nat := MAX_TRANSFER_SIZE / PAGE64K + 2
  const MAX_PRD: nat := MAX_SEG * 4
  const PRD_BUF_SIZE: nat := 48 + 2 * MAX_PRD * 8
  const EOT: nat := 0x8000_0000

  datatype Region = Region(addr: nat, size: nat)

  // ----- the format of an entry: address, then count and end flag -----

  function CountField(size: nat, last: bool): nat {
    size % PAGE64K + if last then EOT else 0
  }

  /** A count of zero stands for 64 KiB. */
  function SizeOf(word: nat): nat {
    if word % PAGE64K == 0 then PAGE64K else word % PAGE64K
  }

  predicate IsLast(word: nat) {
    word >= EOT
  }

  // ----- the regions of a transfer -----

  function Chunk(addr: nat, bc: nat): nat {
    Min(bc, PAGE64K - addr % PAGE64K)
  }

  function Regions(addr: nat, bc: nat): seq<Region>
    decreases bc
  {
    if bc == 0 then [] else [Region(addr, Chunk(addr, bc))] + Regions(addr + Chunk(addr, bc), bc - Chunk(addr, bc))
  }

  function TotalSize(rs: seq<Region>): nat {
    if rs == [] then 0 else rs[0].size + TotalSize(rs[1..])
  }

  ghost predicate Contiguous(rs: seq<Region>, addr: nat) {
    && (rs != [] ==> rs[0].addr == addr)
    && forall i :: 0 < i < |rs| ==> rs[i].addr == rs[i - 1].addr + rs[i - 1].size
  }

  ghost predicate InOnePage(r: Region) {
    0 < r.size <= PAGE64K && r.addr / PAGE64K == (r.addr + r.size - 1) / PAGE64K
  }

  lemma FirstChunk(addr: nat, bc: nat)
    requires bc > 0
    ensures 0 < Chunk(addr, bc) <= bc && InOnePage(Region(addr, Chunk(addr, bc)))
    ensures Regions(addr, bc) == [Region(addr, Chunk(addr, bc))] + Regions(addr + Chunk(addr, bc), bc - Chunk(addr, bc))
  {
  }

  /** The regions cover the buffer, each inside one 64 KiB page and none of them empty. */
  lemma {:induction false} RegionsOk(addr: nat, bc: nat)
    ensures var rs := Regions(addr, bc);
            && Contiguous(rs, addr) && TotalSize(rs) == bc
            && forall i :: 0 <= i < |rs| ==> InOnePage(rs[i])
    decreases bc
  {
    if bc > 0 {
      var c := Chunk(addr, bc);
      FirstChunk(addr, bc);
      hide *;
      RegionsOk(addr + c, bc - c);
      Prepended(Region(addr, c), Regions(addr + c, bc - c));
    }
  }

  lemma Prepended(r: Region, rest: seq<Region>)
    requires Contiguous(rest, r.addr + r.size) && InOnePage(r) && forall i :: 0 <= i < |rest| ==> InOnePage(rest[i])
    ensures var rs := [r] + rest;
            && Contiguous(rs, r.addr) && TotalSize(rs) == r.size + TotalSize(rest)
            && forall i :: 0 <= i < |rs| ==> InOnePage(rs[i])
  {
    assert ([r] + rest)[1..] == rest;
    hide InOnePage;
  }

  /** There is exactly one region for every 64 KiB page that the buffer touches. */
  lemma {:induction false} RegionCount(addr: nat, bc: nat)
    ensures bc == 0 ==> |Regions(addr, bc)| == 0
    ensures bc > 0 ==> |Regions(addr, bc)| == (addr + bc - 1) / PAGE64K - addr / PAGE64K + 1
    ensures |Regions(addr, bc)| <= bc / PAGE64K + 2
    decreases bc
  {
    if bc > 0 {
      var c := Chunk(addr, bc);
      RegionCount(addr + c, bc - c);
    }
  }

  /** So the largest transfer never runs out of entries. */
  lemma TransferFits(addr: nat, bc: nat)
    requires bc <= MAX_TRANSFER_SIZE
    ensures |Regions(addr, bc)| <= MAX_SEG < MAX_PRD
  {
    RegionCount(addr, bc);
  }

  /** What the controller reads back from an entry is the region it was written for. */
  lemma FieldRoundTrip(size: nat, last: bool)
    requires 0 < size <= PAGE64K
    ensures SizeOf(CountField(size, last)) == size && IsLast(CountField(size, last)) == last
    ensures CountField(size, last) < TWO32
  {
  }

  /** The low half of the word is the count modulo 64 Ki, the top bit marks the end, and the rest is zero. */
  lemma FieldBits(size: nat, last: bool)
    ensures CountField(size, last) % 0x1_0000 == size % 0x1_0000
    ensures CountField(size, last) / 0x1_0000 == if last then 0x8000 else 0
  {
  }

  // ----- building the list -----

  /** The part of an address that names its 64 KiB page: x & 0xffff0000. */
  function PageMask(x: nat): nat {
    x - x % PAGE64K
  }

  /** The words of the table are those of the regions, the last of them flagged. */
  ghost predicate Encodes(table: seq<nat>, rs: seq<Region>, n: nat, all: nat) {
    && n <= |rs| && 2 * n <= |table|
    && forall i {:trigger rs[i]} :: 0 <= i < n ==>
         table[2 * i] == rs[i].addr && table[2 * i + 1] == CountField(rs[i].size, i + 1 == all)
  }

  class Dma {
    const table: array<nat>
    var numPrd: nat

    constructor ()
      ensures table.Length == 2 * MAX_PRD && fresh(table)
    {
      table := new nat[2 * MAX_PRD];
      numPrd := 0;
    }

    /** set_up_xfer: 1 means that the table has no room for the transfer. */
    method SetUpXfer(bytes: nat, bufAddr: nat) returns (error: nat)
      requires table.Length == 2 * MAX_PRD
      requires bytes < 0x8000_0000 && bufAddr < TWO32 && bufAddr + bytes <= TWO32
      modifies this, table
      ensures error == 0 <==> |Regions(bufAddr, bytes)| <= MAX_PRD
      ensures error == 0 ==>
                && numPrd == |Regions(bufAddr, bytes)|
                && Encodes(table[..], Regions(bufAddr, bytes), numPrd, numPrd)
    {
      hide Regions, Chunk, CountField, Encodes;
      ghost var rs := Regions(bufAddr, bytes);
      var n: nat, bc: nat, phyAddr: nat := 0, bytes, bufAddr;
      EncodesNothing(table[..], rs);
      while bc > 0
        invariant n <= MAX_PRD && bc <= bytes && (bc > 0 ==> phyAddr + bc == bufAddr + bytes)
        invariant n <= |rs| && rs[n..] == if bc == 0 then [] else Regions(phyAddr, bc)
        invariant Encodes(table[..], rs, n, |rs|)
        decreases bc
      {
        RegionsStep(rs, n, phyAddr, bc);
        if n >= MAX_PRD {
          return 1;
        }
        var temp, next := NextEntry(phyAddr, bc);
        bc := bc - temp;
        SetEntry(n, phyAddr, temp, bc < 1, rs);
        phyAddr := next;
        n := n + 1;
      }
      numPrd := n;
      return 0;
    }

    /** Writes entry n: the address, then the count with the end bit if nothing is left. */
    method SetEntry(n: nat, addr: nat, size: nat, last: bool, ghost rs: seq<Region>)
      requires table.Length == 2 * MAX_PRD && n < MAX_PRD && n < |rs| && Encodes(table[..], rs, n, |rs|)
      requires rs[n] == Region(addr, size) && last == (n + 1 == |rs|)
      modifies table
      ensures Encodes(table[..], rs, n + 1, |rs|)
    {
      table[2 * n] := addr;
      table[2 * n + 1] := size % PAGE64K;
      if last {
        table[2 * n + 1] := table[2 * n + 1] + EOT;
      }
    }

    static lemma EncodesNothing(words: seq<nat>, rs: seq<Region>)
      requires |words| == 2 * MAX_PRD
      ensures Encodes(words, rs, 0, |rs|)
      ensures forall a: nat :: Regions(a, 0) == []
    {
    }

    static lemma RegionsStep(rs: seq<Region>, n: nat, addr: nat, bc: nat)
      requires n <= |rs| && bc > 0 && rs[n..] == Regions(addr, bc)
      ensures n < |rs| && rs[n] == Region(addr, Chunk(addr, bc)) && 0 < Chunk(addr, bc) <= bc
      ensures rs[n + 1..] == if bc == Chunk(addr, bc) then []
                             else Regions(addr + Chunk(addr, bc), bc - Chunk(addr, bc))
      ensures n + 1 == |rs| <==> bc == Chunk(addr, bc)
    {
      assert rs[n] == rs[n..][0] && rs[n + 1..] == rs[n..][1..];
    }

    /** The count of one entry and the address of the next, in 32-bit arithmetic. */
    static method NextEntry(addr: nat, bc: nat) returns (temp: nat, next: nat)
      requires 0 < bc && addr < TWO32 && addr + bc <= TWO32
      ensures temp == Chunk(addr, bc) && next == (addr + temp) % TWO32
    {
      temp := PAGE64K;
      if temp > bc {
        temp := bc;
      }
      next := (addr + temp) % TWO32;
      if PageMask(next) != PageMask(addr) {
        next := PageMask(next);
        temp := (next - addr) % TWO32;
      }
    }
  }

  // ----- where the table lies -----

  /** dma_pci_config: the address of the table inside the static buffer. */
  function TableAddress(buf: nat): nat {
    var lw := buf + 15 - (buf + 15) % 8;
    if PageMask(lw) != PageMask(lw + MAX_PRD * 8 - 1) then PageMask(lw + MAX_PRD * 8) else lw
  }

  lemma DivMod(x: nat, q: nat, r: nat, d: nat)
    requires d == 8 || d == PAGE64K
    requires x == d * q + r && r < d
    ensures x / d == q && x % d == r
  {
  }

  /** The table is 8-aligned, inside the buffer, and does not cross a 64 KiB boundary. */
  lemma TablePlacement(buf: nat)
    ensures var lw := TableAddress(buf);
            && lw % 8 == 0 && buf <= lw && lw + MAX_PRD * 8 <= buf + PRD_BUF_SIZE
            && lw / PAGE64K == (lw + MAX_PRD * 8 - 1) / PAGE64K
  {
    var e := (buf + 15) / 8;
    var lw := 8 * e;
    assert lw == buf + 15 - (buf + 15) % 8;
    DivMod(lw, e, 0, 8);
    Crossing(lw, lw / PAGE64K, lw % PAGE64K);
    var q := lw / PAGE64K;
    DivMod(PAGE64K * (q + 1), 8192 * (q + 1), 0, 8);
  }

  /** It is at the multiple of 8 that lies 8 to 15 bytes into the buffer, or else at the next 64 KiB boundary. */
  lemma TableChosen(buf: nat, lw: nat)
    requires lw % 8 == 0 && buf + 8 <= lw < buf + 16
    ensures TableAddress(buf) ==
            if lw % 0x1_0000 + 192 <= 0x1_0000 then lw else lw - lw % 0x1_0000 + 0x1_0000
  {
    var e := lw / 8;
    assert lw == 8 * e;
    DivMod(buf + 15, e, buf + 15 - lw, 8);
    Crossing(lw, lw / PAGE64K, lw % PAGE64K);
  }

  lemma Crossing(lw: nat, q: nat, r: nat)
    requires lw == PAGE64K * q + r && r < PAGE64K
    ensures lw / PAGE64K == q
    ensures if r + 191 < PAGE64K
            then PageMask(lw) == PageMask(lw + 191) && (lw + 191) / PAGE64K == q
            else PageMask(lw) != PageMask(lw + 191) && PageMask(lw + 192) == PAGE64K * (q + 1)
                 && (PAGE64K * (q + 1)) / PAGE64K == q + 1 == (PAGE64K * (q + 1) + 191) / PAGE64K
  {
    DivMod(lw, q, r, PAGE64K);
    if r + 191 < PAGE64K {
      DivMod(lw + 191, q, r + 191, PAGE64K);
    } else {
      DivMod(lw + 191, q + 1, r + 191 - PAGE64K, PAGE64K);
      DivMod(lw + 192, q + 1, r + 192 - PAGE64K, PAGE64K);
      DivMod(PAGE64K * (q + 1), q + 1, 0, PAGE64K);
      DivMod(PAGE64K * (q + 1) + 191, q + 1, 191, PAGE64K);
    }
  }
}
