/** Byte access to a disk that transfers whole sectors, up to 256 of them at a time. */
module Ata {
  import opened Base
  import opened Bytes

  const SECTOR: nat := 512

  class Drive {
    const disk: array<byte>
    /** The static one-sector buffers of the read and of the write path. */
    const readTemp: array<byte>
    const writeTemp: array<byte>

    ghost predicate Valid() {
      && disk.Length % SECTOR == 0
      && readTemp.Length == SECTOR && writeTemp.Length == SECTOR
      && disk != readTemp && disk != writeTemp && readTemp != writeTemp
    }

    constructor (sectors: nat)
      ensures Valid() && disk.Length == sectors * SECTOR
      ensures fresh(disk) && fresh(readTemp) && fresh(writeTemp)
    {
      disk := new byte[sectors * SECTOR];
      readTemp := new byte[SECTOR];
      writeTemp := new byte[SECTOR];
    }

    /** The count register holds eight bits, and 0 in it asks for 256 sectors. */
    static function SectorsMoved(sc: nat): nat {
      if sc % 256 == 0 then 256 else sc % 256
    }

    /** One read command: count and start sector go to the drive, which fills the buffer. */
    method ReadCommand(number: nat, start: nat, buffer: array<byte>, at: nat)
      requires Valid() && buffer != disk && 1 <= number <= 256
      requires (start + number) * SECTOR <= disk.Length && at + number * SECTOR <= buffer.Length
      modifies buffer
      ensures buffer[..] == Patch(old(buffer[..]), at, Slice(disk[..], start * SECTOR, number * SECTOR))
    {
      hide Patch;
      Memcpy(buffer, at, disk, start * SECTOR, SectorsMoved(number) * SECTOR);
    }

    method WriteCommand(number: nat, start: nat, buffer: array<byte>, at: nat)
      requires Valid() && buffer != disk && 1 <= number <= 256
      requires (start + number) * SECTOR <= disk.Length && at + number * SECTOR <= buffer.Length
      modifies disk
      ensures disk[..] == Patch(old(disk[..]), start * SECTOR, Slice(buffer[..], at, number * SECTOR))
    {
      hide Patch;
      Memcpy(disk, start * SECTOR, buffer, at, SectorsMoved(number) * SECTOR);
    }

    method ReadSectors(start: nat, number: nat, buffer: array<byte>, at: nat)
      requires Valid() && buffer != disk && number >= 1
      requires (start + number) * SECTOR <= disk.Length && at + number * SECTOR <= buffer.Length
      modifies buffer
      ensures buffer[..] == Patch(old(buffer[..]), at, Slice(disk[..], start * SECTOR, number * SECTOR))
      decreases number
    {
      hide Patch, Slice;
      var s, n, b := start, number, at;
      ghost var d, before, m: nat := disk[..], buffer[..], 0;
      PatchNoSlice(before, at, d, start * SECTOR);
      while n > 256
        invariant 1 <= n && n + m == number && s == start + m && b == at + m * SECTOR
        invariant buffer[..] == Patch(before, at, Slice(d, start * SECTOR, m * SECTOR))
      {
        ReadSectors(s, 256, buffer, b);
        PatchSlices(before, at, d, start * SECTOR, m * SECTOR, 256 * SECTOR);
        b := b + SECTOR * 256;
        s := s + 256;
        n := n - 256;
        m := m + 256;
      }
      ReadCommand(n, s, buffer, b);
      PatchSlices(before, at, d, start * SECTOR, m * SECTOR, n * SECTOR);
    }

    method WriteSectors(start: nat, number: nat, buffer: array<byte>, at: nat)
      requires Valid() && buffer != disk && number >= 1
      requires (start + number) * SECTOR <= disk.Length && at + number * SECTOR <= buffer.Length
      modifies disk
      ensures disk[..] == Patch(old(disk[..]), start * SECTOR, Slice(buffer[..], at, number * SECTOR))
      decreases number
    {
      hide Patch, Slice;
      var s, n, b := start, number, at;
      ghost var data, before, m: nat := buffer[..], disk[..], 0;
      PatchNoSlice(before, start * SECTOR, data, at);
      while n > 256
        invariant 1 <= n && n + m == number && s == start + m && b == at + m * SECTOR
        invariant disk[..] == Patch(before, start * SECTOR, Slice(data, at, m * SECTOR))
      {
        WriteSectors(s, 256, buffer, b);
        PatchSlices(before, start * SECTOR, data, at, m * SECTOR, 256 * SECTOR);
        b := b + SECTOR * 256;
        s := s + 256;
        n := n - 256;
        m := m + 256;
      }
      WriteCommand(n, s, buffer, b);
      PatchSlices(before, start * SECTOR, data, at, m * SECTOR, n * SECTOR);
    }

    /** The range that a request names, as the code splits it up. */
    static lemma Address(sector: nat, offset: nat)
      ensures (sector + offset / SECTOR) * SECTOR + offset % SECTOR == sector * SECTOR + offset
    {
    }

    /** The sectors that a length fills, and what is left of it. */
    static lemma Sectors(length: nat)
      ensures length == length / SECTOR * SECTOR + length % SECTOR && length % SECTOR < SECTOR
    {
    }

    lemma Buffers()
      requires Valid()
      ensures disk != readTemp && disk != writeTemp && readTemp != writeTemp
      ensures readTemp.Length == writeTemp.Length == SECTOR
    {
    }

    /** Whole sectors hold a range that lies inside the disk. */
    lemma RoundUp(open: nat, off: nat, length: nat)
      requires Valid() && off < SECTOR && open * SECTOR + off + length <= disk.Length
      ensures off > 0 || length > 0 ==> (open + 1) * SECTOR <= disk.Length
    {
    }

    /** Reads part of one sector by way of the read buffer. */
    method ReadPart(open: nat, off: nat, k: nat, buffer: array<byte>, at: nat)
      requires Valid() && buffer != disk && buffer != readTemp
      requires off + k <= SECTOR && (open + 1) * SECTOR <= disk.Length && at + k <= buffer.Length
      modifies buffer, readTemp
      ensures buffer[..] == Patch(old(buffer[..]), at, Slice(disk[..], open * SECTOR + off, k))
    {
      hide Patch;
      ReadSectors(open, 1, readTemp, 0);
      SliceInSlice(old(readTemp[..]), disk[..], open * SECTOR, SECTOR, off, k);
      Memcpy(buffer, at, readTemp, off, k);
      assert readTemp[off..off + k] == Slice(readTemp[..], off, k);
    }

    /** Reads exactly the requested bytes, whatever the alignment and the length. */
    method ReadData(sectorOffset: nat, offset: nat, length: nat, buffer: array<byte>, at: nat)
      requires Valid() && buffer != disk && buffer != readTemp
      requires sectorOffset * SECTOR + offset + length <= disk.Length && at + length <= buffer.Length
      modifies buffer, readTemp
      ensures buffer[..] == Patch(old(buffer[..]), at, Slice(disk[..], sectorOffset * SECTOR + offset, length))
    {
      hide Patch, Slice;
      Address(sectorOffset, offset);
      ReadFrom(sectorOffset + offset / SECTOR, offset % SECTOR, length, buffer, at);
    }

    method ReadFrom(open: nat, off: nat, length: nat, buffer: array<byte>, at: nat)
      requires Valid() && buffer != disk && buffer != readTemp && off < SECTOR
      requires open * SECTOR + off + length <= disk.Length && at + length <= buffer.Length
      modifies buffer, readTemp
      ensures buffer[..] == Patch(old(buffer[..]), at, Slice(disk[..], open * SECTOR + off, length))
    {
      hide Patch, Slice;
      if off > 0 {
        RoundUp(open, off, length);
        var k := Min(SECTOR, off + length) - off;
        ReadPart(open, off, k, buffer, at);
        var rest := length - (Min(SECTOR, off + length) - off);
        ReadRest(open + 1, rest, buffer, at + k);
        PatchSlices(old(buffer[..]), at, disk[..], open * SECTOR + off, k, rest);
      } else {
        ReadRest(open, length, buffer, at);
      }
    }

    /** The part of a read that starts on a sector boundary. */
    method ReadRest(open: nat, length: nat, buffer: array<byte>, at: nat)
      requires Valid() && buffer != disk && buffer != readTemp
      requires open * SECTOR + length <= disk.Length && at + length <= buffer.Length
      modifies buffer, readTemp
      ensures buffer[..] == Patch(old(buffer[..]), at, Slice(disk[..], open * SECTOR, length))
    {
      hide Patch, Slice, Valid;
      Sectors(length);
      Buffers();
      var complete := length / SECTOR;
      PatchNoSlice(old(buffer[..]), at, disk[..], open * SECTOR);
      if complete > 0 {
        ReadSectors(open, complete, buffer, at);
      }
      var len := length % SECTOR;
      if len > 0 {
        RoundUp(open + complete, 0, len);
        ReadPart(open + complete, 0, len, buffer, at + complete * SECTOR);
        PatchSlices(old(buffer[..]), at, disk[..], open * SECTOR, complete * SECTOR, len);
      }
    }

    /** Read-modify-write of part of one sector. */
    method Rewrite(open: nat, off: nat, k: nat, buffer: array<byte>, at: nat)
      requires Valid() && buffer != disk && buffer != writeTemp
      requires off + k <= SECTOR && (open + 1) * SECTOR <= disk.Length && at + k <= buffer.Length
      modifies disk, writeTemp
      ensures disk[..] == Patch(old(disk[..]), open * SECTOR + off, Slice(buffer[..], at, k))
    {
      hide Patch;
      ReadSectors(open, 1, writeTemp, 0);
      PatchAll(old(writeTemp[..]), Slice(disk[..], open * SECTOR, SECTOR));
      Memcpy(writeTemp, off, buffer, at, k);
      assert buffer[at..at + k] == Slice(buffer[..], at, k);
      WholeSlice(writeTemp[..]);
      PatchWithin(disk[..], open * SECTOR, SECTOR, off, Slice(buffer[..], at, k));
      hide Slice;
      WriteSectors(open, 1, writeTemp, 0);
    }

    static lemma WholeSlice(s: seq<byte>)
      ensures Slice(s, 0, |s|) == s
    {
    }

    /** Changes exactly the requested bytes of the disk, whatever the alignment and the length. */
    method WriteData(sectorOffset: nat, offset: nat, length: nat, buffer: array<byte>, at: nat)
      requires Valid() && buffer != disk && buffer != writeTemp
      requires sectorOffset * SECTOR + offset + length <= disk.Length && at + length <= buffer.Length
      modifies disk, writeTemp
      ensures disk[..] == Patch(old(disk[..]), sectorOffset * SECTOR + offset, Slice(buffer[..], at, length))
    {
      hide Patch, Slice;
      Address(sectorOffset, offset);
      WriteFrom(sectorOffset + offset / SECTOR, offset % SECTOR, length, buffer, at);
    }

    method WriteFrom(open: nat, off: nat, length: nat, buffer: array<byte>, at: nat)
      requires Valid() && buffer != disk && buffer != writeTemp && off < SECTOR
      requires open * SECTOR + off + length <= disk.Length && at + length <= buffer.Length
      modifies disk, writeTemp
      ensures disk[..] == Patch(old(disk[..]), open * SECTOR + off, Slice(buffer[..], at, length))
    {
      hide Patch, Slice;
      if off > 0 {
        RoundUp(open, off, length);
        var k := Min(SECTOR, off + length) - off;
        Rewrite(open, off, k, buffer, at);
        var rest := length - (Min(SECTOR, off + length) - off);
        WriteRest(open + 1, rest, buffer, at + k);
        PatchSlices(old(disk[..]), open * SECTOR + off, buffer[..], at, k, rest);
      } else {
        WriteRest(open, length, buffer, at);
      }
    }

    /** The part of a write that starts on a sector boundary. */
    method WriteRest(open: nat, length: nat, buffer: array<byte>, at: nat)
      requires Valid() && buffer != disk && buffer != writeTemp
      requires open * SECTOR + length <= disk.Length && at + length <= buffer.Length
      modifies disk, writeTemp
      ensures disk[..] == Patch(old(disk[..]), open * SECTOR, Slice(buffer[..], at, length))
    {
      hide Patch, Slice, Valid;
      Sectors(length);
      Buffers();
      var complete := length / SECTOR;
      PatchNoSlice(old(disk[..]), open * SECTOR, buffer[..], at);
      if complete > 0 {
        WriteSectors(open, complete, buffer, at);
      }
      var len := length % SECTOR;
      if len > 0 {
        RoundUp(open + complete, 0, len);
        Rewrite(open + complete, 0, len, buffer, at + complete * SECTOR);
        PatchSlices(old(disk[..]), open * SECTOR, buffer[..], at, complete * SECTOR, len);
      }
    }

    /**
     A read of any range after a write of any other gives the bytes written where the two overlap, and the old ones
     of the disk elsewhere. So what was written can be read back.
     */
    method WriteThenRead(sector: nat, offset: nat, length: nat, source: array<byte>, from: nat,
                         readSector: nat, readOffset: nat, n: nat, buffer: array<byte>, at: nat)
      requires Valid() && source != disk && source != writeTemp && buffer != disk && buffer != readTemp
      requires sector * SECTOR + offset + length <= disk.Length && from + length <= source.Length
      requires readSector * SECTOR + readOffset + n <= disk.Length && at + n <= buffer.Length
      modifies disk, writeTemp, readTemp, buffer
      ensures var a, b, r := sector * SECTOR + offset, readSector * SECTOR + readOffset, buffer[at..at + n];
              forall j :: 0 <= j < n ==>
                r[j] == if a <= b + j < a + length then old(source[from + (b + j - a)]) else old(disk[b + j])
      ensures sector * SECTOR + offset == readSector * SECTOR + readOffset && n == length ==>
                buffer[at..at + n] == old(source[from..from + n])
    {
      hide Patch, Slice;
      ghost var d, data := disk[..], Slice(source[..], from, length);
      ghost var a, b := sector * SECTOR + offset, readSector * SECTOR + readOffset;
      SliceIs(source, from, length);
      WriteData(sector, offset, length, source, from);
      ReadData(readSector, readOffset, n, buffer, at);
      SliceIs(buffer, at, n);
      SliceOfPatch(d, a, data, b, n);
    }

    static lemma SliceIs(x: array<byte>, at: nat, n: nat)
      requires at + n <= x.Length
      ensures Slice(x[..], at, n) == x[at..at + n]
      ensures forall k :: 0 <= k < n ==> Slice(x[..], at, n)[k] == x[at + k]
    {
    }

    /** A slice of a patched sequence. */
    static lemma SliceOfPatch(d: seq<byte>, a: nat, data: seq<byte>, b: nat, n: nat)
      requires a + |data| <= |d| && b + n <= |d|
      ensures forall j :: 0 <= j < n ==>
                Slice(Patch(d, a, data), b, n)[j] == if a <= b + j < a + |data| then data[b + j - a] else d[b + j]
      ensures a == b && n == |data| ==> Slice(Patch(d, a, data), b, n) == data
    {
      forall j | 0 <= j < n
        ensures Slice(Patch(d, a, data), b, n)[j] == if a <= b + j < a + |data| then data[b + j - a] else d[b + j]
      {
        PatchAt(d, a, data, b + j);
        hide Patch;
        SliceAt(Patch(d, a, data), b, n, j);
      }
    }
  }
}
