/** Reading files from a FAT32 volume by following cluster chains. */
module Fat {
  import opened Base
  import opened Bytes

  /** The disk layer reads from 512-byte sectors, whatever the volume's own sector size is. */
  const SECTOR: nat := 512

  /** What the FAT says about the cluster behind one. Bad stands for the driver's panics. */
  datatype Link = NextCluster(c: nat) | EndOfFile | Bad

  function Classify(entry: nat): Link {
    if entry == 0 || entry == 1 then Bad
    else if 0x0FFF_FFF0 <= entry <= 0x0FFF_FFF7 then Bad
    else if entry >= 0x0FFF_FFF8 then EndOfFile
    else NextCluster(entry)
  }

  datatype Outcome = Data(bytes: seq<byte>) | Panic

  ghost function Prepended(done: seq<byte>, r: Outcome): Outcome {
    match r case Data(rest) => Data(done + rest) case Panic => Panic
  }

  datatype Volume = Volume(
    disk: nat -> byte,
    sectorsPerCluster: nat,
    bytesPerSector: nat,
    firstDataSector: nat,
    firstFatSector: nat,
    rootCluster: nat)
  {
    function BytesPerCluster(): nat {
      sectorsPerCluster * bytesPerSector
    }

    predicate Valid() {
      4 <= BytesPerCluster() < 0x1_0000
    }

    function BytesAt(a: nat, n: nat): (r: seq<byte>)
      ensures |r| == n && forall i :: 0 <= i < n ==> r[i] == disk(a + i)
    {
      seq(n, i requires 0 <= i < n => disk(a + i))
    }

    /** The bytes that the disk driver returns for a sector number taken modulo 2^32. */
    function PartitionRead(sector: int, length: nat): (r: seq<byte>)
      ensures |r| == length
    {
      BytesAt((sector % TWO32) * SECTOR, length)
    }

    function ClusterData(c: nat): (r: seq<byte>)
      ensures |r| == BytesPerCluster()
    {
      PartitionRead(firstDataSector + (c - 2) * sectorsPerCluster, BytesPerCluster())
    }

    function FatCluster(k: nat): (r: seq<byte>)
      ensures |r| == BytesPerCluster()
    {
      PartitionRead(firstFatSector + k * sectorsPerCluster, BytesPerCluster())
    }

    /** fat_entry_for, without the cache. */
    function Entry(c: nat): nat
      requires Valid()
    {
      var perCluster := BytesPerCluster() / 4;
      var k := c / perCluster;
      IndexInside(c, perCluster);
      Word(FatCluster(k), 4 * (c - k * perCluster)) % 0x1000_0000
    }

    /** The number of the FAT's cluster that the lookup reads for cluster c. */
    function FatIndex(c: nat): nat
      requires Valid()
    {
      c / (BytesPerCluster() / 4)
    }

    /** Where that lookup finds the entry. */
    function EntryAddress(c: nat): nat
      requires Valid()
    {
      IndexInside(c, BytesPerCluster() / 4);
      (firstFatSector + FatIndex(c) * sectorsPerCluster) % TWO32 * SECTOR
      + 4 * (c - FatIndex(c) * (BytesPerCluster() / 4))
    }

    /** Where a FAT32 volume keeps it: four bytes for each cluster, from the start of the first FAT. */
    function SpecAddress(c: nat): nat {
      firstFatSector * bytesPerSector + 4 * c
    }

    function EntryAtAddress(a: nat): nat {
      Word(BytesAt(a, 4), 0) % 0x1000_0000
    }

    lemma EntryIsAt(c: nat)
      requires Valid()
      ensures Entry(c) == EntryAtAddress(EntryAddress(c))
    {
      var n, k := BytesPerCluster() / 4, FatIndex(c);
      hide Word, BytesPerCluster;
      IndexInside(c, n);
      WordAt((firstFatSector + k * sectorsPerCluster) % TWO32 * SECTOR, BytesPerCluster(), 4 * (c - k * n));
    }

    /** The lookup goes to the right place exactly when sectors have 512 bytes, or it reads sector 0. */
    lemma AddressIff(c: nat)
      requires Valid() && BytesPerCluster() % 4 == 0
      requires firstFatSector + FatIndex(c) * sectorsPerCluster < TWO32
      ensures EntryAddress(c) == SpecAddress(c) <==>
              bytesPerSector == SECTOR || firstFatSector + FatIndex(c) * sectorsPerCluster == 0
    {
      var n, k := BytesPerCluster() / 4, FatIndex(c);
      SmallMod(firstFatSector + k * sectorsPerCluster);
      IndexInside(c, n);
      assert 4 * n == sectorsPerCluster * bytesPerSector;
      Distance(firstFatSector, sectorsPerCluster, bytesPerSector, n, k, c);
    }

    /**
     The entry looked up is the one that the format means, whatever the disk holds, exactly when sectors have 512
     bytes or the sector looked at is 0.
     */
    lemma EntryMeetsFormat(c: nat)
      requires Valid() && BytesPerCluster() % 4 == 0
      requires firstFatSector + FatIndex(c) * sectorsPerCluster < TWO32
      ensures (forall d :: this.(disk := d).Entry(c) == EntryOn(d, SpecAddress(c))) <==>
              bytesPerSector == SECTOR || firstFatSector + FatIndex(c) * sectorsPerCluster == 0
    {
      AddressIff(c);
      var a, b := EntryAddress(c), SpecAddress(c);
      forall d ensures this.(disk := d).Entry(c) == EntryOn(d, a) {
        this.(disk := d).EntryIsAt(c);
      }
      if a != b {
        var d: nat -> byte := x => if x == a then 1 else 0;
        OneByte(d, a, b);
        assert this.(disk := d).Entry(c) == EntryOn(d, a);
      }
    }

    /** The same address on another disk. */
    function EntryOn(d: nat -> byte, a: nat): nat {
      this.(disk := d).EntryAtAddress(a)
    }

    lemma OneByte(d: nat -> byte, a: nat, b: nat)
      requires a != b && forall x: nat :: d(x) == if x == a then 1 else 0
      ensures EntryOn(d, a) == 1 && EntryOn(d, b) != 1
    {
    }

    /** The same holds of the data: cluster c, the first being number 2, is read from its place exactly then. */
    lemma DataMeetsFormat(c: nat, sector: nat)
      requires Valid() && c >= 2 && sector == firstDataSector + (c - 2) * sectorsPerCluster < TWO32
      ensures (forall d :: this.(disk := d).ClusterData(c) ==
                           this.(disk := d).BytesAt(sector * bytesPerSector, BytesPerCluster()))
              <==> bytesPerSector == SECTOR || sector == 0
    {
      SmallMod(sector);
      ProductZero(sector, SECTOR - bytesPerSector);
      var a, b, n := sector * SECTOR, sector * bytesPerSector, BytesPerCluster();
      assert a - b == sector * (SECTOR - bytesPerSector);
      forall d ensures this.(disk := d).ClusterData(c) == this.(disk := d).BytesAt(a, n) {
      }
      if a != b {
        var d: nat -> byte := x => if x == a then 1 else 0;
        assert this.(disk := d).ClusterData(c) == this.(disk := d).BytesAt(a, n);
        assert this.(disk := d).BytesAt(a, n)[0] == d(a + 0) == 1;
        assert this.(disk := d).BytesAt(b, n)[0] == d(b + 0) == 0;
      }
    }

    lemma WordAt(a: nat, n: nat, i: nat)
      requires i + 4 <= n
      ensures Word(BytesAt(a, n), i) == Word(BytesAt(a + i, 4), 0)
    {
      var s, t := BytesAt(a, n), BytesAt(a + i, 4);
      assert s[i] == disk(a + i) && s[i + 1] == disk(a + (i + 1))
          && s[i + 2] == disk(a + (i + 2)) && s[i + 3] == disk(a + (i + 3));
      assert t[0] == disk(a + i + 0) && t[1] == disk(a + i + 1)
          && t[2] == disk(a + i + 2) && t[3] == disk(a + i + 3);
    }

    // ----- the two loops of fat_read_data -----

    /** Skips whole clusters; an offset of exactly one cluster is not skipped. */
    function Skip(c: nat, offset: nat): (r: (Link, nat))
      requires Valid()
      ensures r.0.NextCluster? ==> r.1 <= BytesPerCluster()
      decreases offset
    {
      if offset > BytesPerCluster() then
        match Classify(Entry(c))
        case NextCluster(c') => Skip(c', offset - BytesPerCluster())
        case EndOfFile => (EndOfFile, 0)
        case Bad => (Bad, 0)
      else (NextCluster(c), offset)
    }

    function Copied(c: nat, offset: nat, length: nat): Outcome
      requires Valid() && offset <= BytesPerCluster()
      decreases length, offset
    {
      if length == 0 then Data([])
      else
        var n := Min(length, BytesPerCluster() - offset);
        var piece := ClusterData(c)[offset..offset + n];
        if n == length then Data(piece)
        else
          match Classify(Entry(c))
          case NextCluster(c') =>
            (match Copied(c', 0, length - n) case Data(rest) => Data(piece + rest) case Panic => Panic)
          case EndOfFile => Data(piece)
          case Bad => Panic
    }

    function ReadFrom(c: nat, offset: nat, length: nat): Outcome
      requires Valid()
    {
      match Skip(c, offset)
      case (NextCluster(c'), o) => Copied(c', o, length)
      case (EndOfFile, _) => Data([])
      case (Bad, _) => Panic
    }

    // ----- what a read gives -----

    /** Each cluster's entry is the number of the next; the one of the last may be anything. */
    ghost predicate Links(cs: seq<nat>)
      requires Valid()
    {
      && cs != []
      && forall i :: 0 < i < |cs| ==> Entry(cs[i - 1]) == cs[i] && 2 <= cs[i] < 0x0FFF_FFF0
    }

    /** Nothing comes behind the last one: its entry marks the end, or is one that the driver panics on. */
    ghost predicate EndsAt(cs: seq<nat>)
      requires Valid() && cs != []
    {
      !(2 <= Entry(cs[|cs| - 1]) < 0x0FFF_FFF0)
    }

    ghost function Contents(cs: seq<nat>): seq<byte> {
      if cs == [] then [] else ClusterData(cs[0]) + Contents(cs[1..])
    }

    lemma LinksStep(cs: seq<nat>)
      requires Valid() && Links(cs)
      ensures |cs| >= 1
      ensures |cs| > 1 ==> Classify(Entry(cs[0])) == NextCluster(cs[1]) && Links(cs[1..])
      ensures |cs| > 1 ==> cs[|cs| - 1] == cs[1..][|cs[1..]| - 1]
    {
      if |cs| > 1 {
        var rest := cs[1..];
        forall i | 0 < i < |rest| ensures Entry(rest[i - 1]) == rest[i] && 2 <= rest[i] < 0x0FFF_FFF0 {
          assert rest[i] == cs[i + 1] && rest[i - 1] == cs[i];
        }
      }
    }

    /** The bytes from the offset on, as far as there are any. */
    ghost function Cut(all: seq<byte>, offset: nat, length: nat): seq<byte> {
      if offset <= |all| then all[offset..Min(offset + length, |all|)] else []
    }

    /** What the request gives on these clusters, the entry behind the last being e. */
    ghost predicate Reads(o: Outcome, all: seq<byte>, e: nat, offset: nat, length: nat) {
      && (offset + length <= |all| || e >= 0x0FFF_FFF8 ==> o == Data(Cut(all, offset, length)))
      && (offset + length > |all| && (e < 2 || 0x0FFF_FFF0 <= e < 0x0FFF_FFF8) ==> o == Panic)
    }

    /** One cluster of the second loop. */
    lemma CopiedStep(c: nat, offset: nat, length: nat, o: Outcome)
      requires Valid() && offset <= BytesPerCluster() && o == Copied(c, offset, length)
      ensures offset + length <= BytesPerCluster() ==> o == Data(ClusterData(c)[offset..offset + length])
      ensures offset + length > BytesPerCluster() && Entry(c) >= 0x0FFF_FFF8 ==> o == Data(ClusterData(c)[offset..])
      ensures offset + length > BytesPerCluster() && (Entry(c) < 2 || 0x0FFF_FFF0 <= Entry(c) < 0x0FFF_FFF8) ==>
                o == Panic
      ensures offset + length > BytesPerCluster() && 2 <= Entry(c) < 0x0FFF_FFF0 ==>
                o == Prepended(ClusterData(c)[offset..], Copied(Entry(c), 0, length - (BytesPerCluster() - offset)))
    {
      hide BytesPerCluster, Entry, ClusterData;
      assert ClusterData(c)[offset..] == ClusterData(c)[offset..BytesPerCluster()];
    }

    /** A request that the first cluster does not hold goes on in the others. */
    lemma ReadsOn(d: seq<byte>, rest: seq<byte>, e: nat, offset: nat, length: nat, o: Outcome)
      requires offset <= |d| < offset + length
      requires Reads(o, rest, e, 0, length - (|d| - offset))
      ensures Reads(Prepended(d[offset..], o), d + rest, e, offset, length)
    {
      SliceOfJoin(d, rest, offset, length);
    }

    lemma {:induction false} CopiedIsSlice(cs: seq<nat>, offset: nat, length: nat)
      requires Valid() && Links(cs) && offset <= BytesPerCluster()
      ensures offset <= |Contents(cs)|
      ensures Reads(Copied(cs[0], offset, length), Contents(cs), Entry(cs[|cs| - 1]), offset, length)
      decreases |cs|
    {
      hide *;
      LinksStep(cs);
      LinkBounds(cs);
      ContentsStep(cs);
      var bpc, d, rest := BytesPerCluster(), ClusterData(cs[0]), Contents(cs[1..]);
      CopiedStep(cs[0], offset, length, Copied(cs[0], offset, length));
      if offset + length <= bpc {
        ReadsInside(d, rest, Entry(cs[|cs| - 1]), offset, length);
      } else if |cs| > 1 {
        CopiedIsSlice(cs[1..], 0, length - (bpc - offset));
        ReadsOn(d, rest, Entry(cs[|cs| - 1]), offset, length, Copied(cs[1], 0, length - (bpc - offset)));
      } else {
        LastCopied(d, Entry(cs[0]), offset, length);
      }
    }

    /** A request that the first cluster holds. */
    lemma ReadsInside(d: seq<byte>, rest: seq<byte>, e: nat, offset: nat, length: nat)
      requires offset + length <= |d|
      ensures Reads(Data(d[offset..offset + length]), d + rest, e, offset, length)
    {
      SliceInFirst(d, rest, offset, length);
    }

    /** One that goes on behind the last. */
    lemma LastCopied(d: seq<byte>, e: nat, offset: nat, length: nat)
      requires offset <= |d| < offset + length
      ensures e >= 0x0FFF_FFF8 ==> Reads(Data(d[offset..]), d, e, offset, length)
      ensures e < 2 || 0x0FFF_FFF0 <= e < 0x0FFF_FFF8 ==> Reads(Panic, d, e, offset, length)
      ensures 2 <= e < 0x0FFF_FFF0 ==> forall o :: Reads(o, d, e, offset, length)
    {
      assert d[offset..|d|] == d[offset..];
    }

    lemma LinkBounds(cs: seq<nat>)
      requires Valid() && Links(cs)
      ensures |cs| > 1 ==> Entry(cs[0]) == cs[1] && 2 <= cs[1] < 0x0FFF_FFF0
    {
      hide Entry;
      assert |cs| > 1 ==> Entry(cs[1 - 1]) == cs[1];
    }

    /** One cluster of the first loop. */
    lemma SkipStep(c: nat, offset: nat, length: nat, o: Outcome)
      requires Valid() && o == ReadFrom(c, offset, length)
      ensures offset <= BytesPerCluster() ==> o == Copied(c, offset, length)
      ensures offset > BytesPerCluster() && Entry(c) >= 0x0FFF_FFF8 ==> o == Data([])
      ensures offset > BytesPerCluster() && (Entry(c) < 2 || 0x0FFF_FFF0 <= Entry(c) < 0x0FFF_FFF8) ==> o == Panic
      ensures offset > BytesPerCluster() && 2 <= Entry(c) < 0x0FFF_FFF0 ==>
                o == ReadFrom(Entry(c), offset - BytesPerCluster(), length)
    {
      hide BytesPerCluster, Entry, Copied;
    }

    /** A request that starts behind the first cluster is one to the others. */
    lemma ReadsBehind(d: seq<byte>, rest: seq<byte>, e: nat, offset: nat, length: nat, o: Outcome)
      requires |d| <= offset && Reads(o, rest, e, offset - |d|, length)
      ensures Reads(o, d + rest, e, offset, length)
    {
      SliceOfRest(d, rest, offset, length);
    }

    /**
     A read follows the entries from cluster to cluster. It gives the bytes asked for if the clusters hold them all,
     is cut at the end of the last if its entry marks the end of the file, and panics on any other entry there.
     */
    lemma {:induction false} ReadIsSlice(cs: seq<nat>, offset: nat, length: nat)
      requires Valid() && Links(cs)
      ensures Reads(ReadFrom(cs[0], offset, length), Contents(cs), Entry(cs[|cs| - 1]), offset, length)
      decreases |cs|
    {
      hide *;
      LinksStep(cs);
      LinkBounds(cs);
      var bpc, o := BytesPerCluster(), ReadFrom(cs[0], offset, length);
      SkipStep(cs[0], offset, length, o);
      if offset <= bpc {
        CopiedIsSlice(cs, offset, length);
      } else {
        ContentsStep(cs);
        if |cs| > 1 {
          ReadIsSlice(cs[1..], offset - bpc, length);
          ReadsBehind(ClusterData(cs[0]), Contents(cs[1..]), Entry(cs[|cs| - 1]), offset, length, o);
        } else {
          LastSkipped(ClusterData(cs[0]), Entry(cs[0]), offset, length);
        }
      }
    }

    lemma ContentsStep(cs: seq<nat>)
      requires cs != []
      ensures Contents(cs) == ClusterData(cs[0]) + Contents(cs[1..])
      ensures |cs| == 1 ==> Contents(cs) == ClusterData(cs[0])
    {
    }

    /** A request behind the end of the file gives nothing. */
    lemma LastSkipped(d: seq<byte>, e: nat, offset: nat, length: nat)
      requires |d| < offset
      ensures e >= 0x0FFF_FFF8 ==> Reads(Data([]), d, e, offset, length)
      ensures e < 2 || 0x0FFF_FFF0 <= e < 0x0FFF_FFF8 ==> Reads(Panic, d, e, offset, length)
      ensures 2 <= e < 0x0FFF_FFF0 ==> forall o :: Reads(o, d, e, offset, length)
    {
    }

    /** From every cluster of every table the entries can be followed until they hold what is asked for, or end. */
    lemma {:induction false} Follows(c: nat, need: nat) returns (cs: seq<nat>)
      requires Valid()
      ensures Links(cs) && cs[0] == c && (EndsAt(cs) || |Contents(cs)| >= need)
      decreases need
    {
      hide Entry, ClusterData;
      cs := [c];
      assert Contents(cs) == ClusterData(c) + Contents(cs[1..]);
      if 2 <= Entry(c) < 0x0FFF_FFF0 && need > BytesPerCluster() {
        var rest := Follows(Entry(c), need - BytesPerCluster());
        cs := [c] + rest;
        assert cs[1..] == rest;
        forall i | 0 < i < |cs| ensures Entry(cs[i - 1]) == cs[i] && 2 <= cs[i] < 0x0FFF_FFF0 {
          assert i > 1 ==> cs[i - 1] == rest[i - 2] && cs[i] == rest[i - 1];
        }
        assert cs[|cs| - 1] == rest[|rest| - 1];
      }
    }
  }

  lemma SmallMod(x: nat)
    requires x < TWO32
    ensures x % TWO32 == x
  {
  }

  lemma Distance(first: nat, spc: nat, size: nat, n: nat, k: nat, c: nat)
    requires 4 * n == spc * size && k * n <= c
    ensures (first + k * spc) * SECTOR + 4 * (c - k * n) - (first * size + 4 * c) == (first + k * spc) * (SECTOR - size)
    ensures (first + k * spc) * (SECTOR - size) == 0 <==> size == SECTOR || first + k * spc == 0
  {
    assert 4 * (k * n) == k * (4 * n) == k * (spc * size) == (k * spc) * size;
    ProductZero(first + k * spc, SECTOR - size);
  }

  lemma ProductZero(x: int, y: int)
    ensures x * y == 0 <==> x == 0 || y == 0
  {
  }

  lemma IndexInside(c: nat, n: nat)
    requires n > 0
    ensures 0 <= c - (c / n) * n < n
  {
    assert c == (c / n) * n + c % n;
  }

  lemma SliceOfRest(d: seq<byte>, rest: seq<byte>, offset: nat, length: nat)
    requires |d| <= offset
    ensures |d + rest| == |d| + |rest|
    ensures offset <= |d| + |rest| ==>
              (d + rest)[offset..Min(offset + length, |d| + |rest|)]
              == rest[offset - |d|..Min(offset - |d| + length, |rest|)]
  {
    if offset <= |d| + |rest| {
      var from, n := offset - |d|, Min(offset - |d| + length, |rest|) - (offset - |d|);
      SliceSlice(d + rest, |d|, |rest|, from, n);
      assert (d + rest)[|d|..|d| + |rest|] == rest;
    }
  }

  lemma SliceInFirst(d: seq<byte>, rest: seq<byte>, offset: nat, n: nat)
    requires offset + n <= |d|
    ensures (d + rest)[offset..offset + n] == d[offset..offset + n]
  {
  }

  lemma SliceOfJoin(d: seq<byte>, rest: seq<byte>, offset: nat, length: nat)
    requires offset <= |d| && |d| - offset < length
    ensures var n := |d| - offset;
            d[offset..] + rest[..Min(length - n, |rest|)] == (d + rest)[offset..Min(offset + length, |d| + |rest|)]
  {
  }

  class Driver {
    const vol: Volume
    /** The FAT, as far as it has been read. */
    var fatClusters: map<nat, seq<byte>>
    /** The static one-cluster buffer of the read path. */
    var scratch: array?<byte>

    ghost predicate Valid()
      reads this
    {
      && vol.Valid()
      && forall k :: k in fatClusters ==> fatClusters[k] == vol.FatCluster(k)
    }

    constructor (vol: Volume)
      requires vol.Valid()
      ensures Valid() && this.vol == vol && scratch == null
    {
      this.vol := vol;
      fatClusters := map[];
      scratch := null;
    }

    method ReadFatCluster(k: nat) returns (data: seq<byte>)
      requires Valid()
      modifies this`fatClusters
      ensures Valid() && data == vol.FatCluster(k)
    {
      if k in fatClusters {
        return fatClusters[k];
      }
      data := vol.PartitionRead(vol.firstFatSector + k * vol.sectorsPerCluster, vol.BytesPerCluster());
      fatClusters := fatClusters[k := data];
    }

    /** The cached lookup gives what the uncached one would. */
    method EntryFor(c: nat) returns (entry: nat)
      requires Valid()
      modifies this`fatClusters
      ensures Valid() && entry == vol.Entry(c)
    {
      var perCluster := vol.BytesPerCluster() / 4;
      var k := c / perCluster;
      IndexInside(c, perCluster);
      var data := ReadFatCluster(k);
      entry := Word(data, 4 * (c - k * perCluster)) % 0x1000_0000;
    }

    method PrepareScratch()
      requires Valid()
      modifies this`scratch
      ensures Valid() && scratch != null && scratch.Length >= vol.BytesPerCluster()
      ensures scratch == old(scratch) || fresh(scratch)
    {
      if scratch != null && scratch.Length < vol.BytesPerCluster() {
        scratch := null;
      }
      if scratch == null {
        scratch := new byte[vol.BytesPerCluster()];
      }
    }

    /** fat_read_cluster: the cluster's bytes land at the front of the buffer. */
    method ReadCluster(c: nat, buffer: array<byte>)
      requires buffer.Length >= vol.BytesPerCluster()
      modifies buffer
      ensures buffer[..] == Patch(old(buffer[..]), 0, vol.ClusterData(c))
    {
      var data := vol.ClusterData(c);
      var i := 0;
      while i < |data|
        invariant 0 <= i <= |data|
        invariant forall j :: 0 <= j < i ==> buffer[j] == data[j]
        invariant forall j :: i <= j < buffer.Length ==> buffer[j] == old(buffer[j])
      {
        buffer[i] := data[i];
        i := i + 1;
      }
    }

    /**
     Reads up to length bytes from offset on. None is a panic. No precondition asks for a
     well-formed FAT: both loops end on every content, cyclic chains included.
     */
    method ReadData(inode: nat, offset: nat, length: nat, buffer: array<byte>) returns (r: Option<nat>)
      requires Valid() && length <= buffer.Length && buffer != scratch
      modifies this, buffer, scratch
      ensures Valid()
      ensures match vol.ReadFrom(inode, offset, length)
              case Data(bytes) =>
                r == Some(|bytes|) && |bytes| <= length && buffer[..] == Patch(old(buffer[..]), 0, bytes)
              case Panic => r == None
    {
      hide Volume.Skip, Volume.Copied, Volume.BytesPerCluster, Patch;
      PrepareScratch();
      var link, off := SkipClusters(inode, offset);
      match link {
        case Bad => return None;
        case EndOfFile =>
          PatchNothing(buffer[..], 0);
          return Some(0);
        case NextCluster(c) =>
          r := CopyClusters(c, off, length, buffer);
      }
    }

    method SkipClusters(inode: nat, offset: nat) returns (link: Link, off: nat)
      requires Valid()
      modifies this`fatClusters
      ensures Valid() && (link, off) == vol.Skip(inode, offset)
    {
      var current := inode;
      off := offset;
      while off > vol.BytesPerCluster()
        invariant Valid() && vol.Skip(current, off) == vol.Skip(inode, offset)
        decreases off
      {
        var entry := EntryFor(current);
        match Classify(entry) {
          case Bad => return Bad, 0;
          case EndOfFile => return EndOfFile, 0;
          case NextCluster(c) => current := c;
        }
        off := off - vol.BytesPerCluster();
      }
      link := NextCluster(current);
    }

    method CopyClusters(c: nat, offset: nat, length: nat, buffer: array<byte>) returns (r: Option<nat>)
      requires Valid() && length <= buffer.Length && offset <= vol.BytesPerCluster()
      requires scratch != null && scratch.Length >= vol.BytesPerCluster() && buffer != scratch
      modifies this`fatClusters, buffer, scratch
      ensures Valid()
      ensures match vol.Copied(c, offset, length)
              case Data(bytes) =>
                r == Some(|bytes|) && |bytes| <= length && buffer[..] == Patch(old(buffer[..]), 0, bytes)
              case Panic => r == None
    {
      hide Patch, Volume.BytesPerCluster, Volume.Copied, Volume.Entry, Classify, Prepended;
      var current: nat, off: nat, len: nat, copied: nat := c, offset, length, 0;
      ghost var before, done := buffer[..], [];
      PatchNothing(before, 0);
      PrependNothing(vol, c, offset, length, []);
      while len > 0
        invariant Valid() && off <= vol.BytesPerCluster() && copied == |done| && copied + len == length
        invariant buffer[..] == Patch(before, 0, done)
        invariant vol.Copied(c, offset, length) == Prepended(done, vol.Copied(current, off, len))
        invariant len == 0 ==> vol.Copied(c, offset, length) == Data(done)
        decreases len, off
      {
        var copyLen := Min(len, vol.BytesPerCluster() - off) % 0x1_0000;
        SmallLength(vol.BytesPerCluster(), off, len);
        ghost var piece := vol.ClusterData(current)[off..off + copyLen];
        CopyPiece(current, off, copyLen, buffer, copied);
        PatchJoin(before, 0, done, piece);
        PrependJoin(done, piece, vol, current, off, len);
        done := done + piece;
        off := 0;
        len := len - copyLen;
        copied := copied + copyLen;
        if len > 0 {
          var entry := EntryFor(current);
          match Classify(entry) {
            case Bad => return None;
            case EndOfFile => return Some(copied);
            case NextCluster(c') => current := c';
          }
        }
        PrependNothing(vol, current, 0, len, done);
      }
      return Some(copied);
    }

    /** Part of one cluster, by way of the scratch buffer. */
    method CopyPiece(c: nat, off: nat, n: nat, buffer: array<byte>, at: nat)
      requires scratch != null && scratch.Length >= vol.BytesPerCluster() && buffer != scratch
      requires off + n <= vol.BytesPerCluster() && at + n <= buffer.Length
      modifies buffer, scratch
      ensures buffer[..] == Patch(old(buffer[..]), at, vol.ClusterData(c)[off..off + n])
    {
      ReadCluster(c, scratch);
      assert scratch[off..off + n] == vol.ClusterData(c)[off..off + n];
      Memcpy(buffer, at, scratch, off, n);
    }
  }

  /** The 16-bit length of a copy holds it, since a cluster has fewer than 65536 bytes. */
  lemma SmallLength(bpc: nat, off: nat, len: nat)
    requires bpc < 0x1_0000 && off <= bpc
    ensures Min(len, bpc - off) % 0x1_0000 == Min(len, bpc - off)
  {
  }

  lemma PrependNothing(vol: Volume, c: nat, off: nat, len: nat, done: seq<byte>)
    requires vol.Valid() && off <= vol.BytesPerCluster()
    ensures Prepended([], vol.Copied(c, off, len)) == vol.Copied(c, off, len)
    ensures len == 0 ==> Prepended(done, vol.Copied(c, off, len)) == Data(done)
  {
    match vol.Copied(c, off, len)
    case Data(rest) => assert [] + rest == rest;
    case Panic =>
  }

  /** One round of the copying loop, with what has been copied put in front. */
  lemma PrependJoin(done: seq<byte>, piece: seq<byte>, vol: Volume, c: nat, off: nat, len: nat)
    requires vol.Valid() && off <= vol.BytesPerCluster() && len > 0
    requires piece == vol.ClusterData(c)[off..off + Min(len, vol.BytesPerCluster() - off)]
    ensures Prepended(done, vol.Copied(c, off, len)) ==
              if |piece| == len then Data(done + piece)
              else match Classify(vol.Entry(c))
                   case NextCluster(c') => Prepended(done + piece, vol.Copied(c', 0, len - |piece|))
                   case EndOfFile => Data(done + piece)
                   case Bad => Panic
  {
    if |piece| < len && Classify(vol.Entry(c)).NextCluster? {
      match vol.Copied(Classify(vol.Entry(c)).c, 0, len - |piece|)
      case Data(rest) => assert done + (piece + rest) == (done + piece) + rest;
      case Panic =>
    }
  }
}
