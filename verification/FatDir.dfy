/** Listing a FAT directory and looking a name up in it: two walks over the same entries. */
module FatDirs {
  import opened Base
  import opened Bytes
  import opened Fat

  const CLUSTER: nat := 4096
  const RECORD: nat := 32
  const RECORDS: nat := 128
  const NAME_SIZE: nat := 128
  const LONG_NAME: nat := 0x0F

  /** How a record spells its short name, and a long-name record its part of a long one. */
  datatype Naming = Naming(shortName: seq<byte> -> string, portion: seq<byte> -> string)

  datatype File = File(name: string, inode: nat, directory: bool, size: nat)

  /** Overrun: a name is copied into a field that is too short for it. */
  datatype Result<+T> = Found(value: T) | NotFound | Panicked | Overrun

  datatype Dirent = Dirent(name: string, inode: nat)

  datatype Node = Node(name: string, directory: bool, inode: nat, length: nat)

  // ----- the records of a cluster -----

  function Record(d: seq<byte>, pos: nat): (r: seq<byte>)
    requires |d| == CLUSTER && pos < RECORDS
    ensures |r| == RECORD
  {
    d[RECORD * pos..RECORD * pos + RECORD]
  }

  function InodeOf(r: seq<byte>): nat
    requires |r| == RECORD
  {
    0x1_0000 * Half(r, 20) + Half(r, 26)
  }

  predicate IsVolumeId(attributes: nat) {
    attributes / 8 % 2 == 1
  }

  predicate IsDirectory(attributes: nat) {
    attributes / 16 % 2 == 1
  }

  function FileOf(nm: Naming, r: seq<byte>, lfn: string): File
    requires |r| == RECORD
  {
    File(if |lfn| > 0 then lfn else nm.shortName(r), InodeOf(r), IsDirectory(r[11] as nat), Word(r, 28))
  }

  datatype Kind = End | Deleted | LongName | VolumeId | FileOrDir

  function KindOf(r: seq<byte>): Kind
    requires |r| == RECORD
  {
    if r[0] == 0 then End
    else if r[0] == 0xe5 then Deleted
    else if r[11] as nat == LONG_NAME then LongName
    else if IsVolumeId(r[11] as nat) then VolumeId
    else FileOrDir
  }

  /** The files from record pos on, and the long name that is pending at the end. */
  function Scan(nm: Naming, d: seq<byte>, pos: nat, lfn: string): (seq<File>, string)
    requires |d| == CLUSTER && pos <= RECORDS
    decreases RECORDS - pos
  {
    if pos == RECORDS then ([], lfn)
    else
      var r := Record(d, pos);
      match KindOf(r)
      case End => ([], lfn)
      case Deleted => Scan(nm, d, pos + 1, lfn)
      case LongName => Scan(nm, d, pos + 1, nm.portion(r) + lfn)
      case VolumeId => Scan(nm, d, pos + 1, lfn)
      case FileOrDir =>
        var (fs, rest) := Scan(nm, d, pos + 1, "");
        ([FileOf(nm, r, lfn)] + fs, rest)
  }

  // ----- a directory -----

  /** The clusters of a directory, up to the one whose FAT entry leads no further. */
  ghost predicate Path(vol: Volume, cs: seq<nat>)
    requires vol.Valid()
  {
    vol.Links(cs) && vol.EndsAt(cs)
  }

  ghost function Files(vol: Volume, nm: Naming, cs: seq<nat>, lfn: string): seq<File>
    requires vol.BytesPerCluster() == CLUSTER
  {
    if cs == [] then []
    else
      var (fs, rest) := Scan(nm, vol.ClusterData(cs[0]), 0, lfn);
      fs + Files(vol, nm, cs[1..], rest)
  }

  /** What running off the end of the chain means. */
  ghost function AtEnd<T>(vol: Volume, cs: seq<nat>): Result<T>
    requires vol.Valid() && Path(vol, cs)
  {
    if vol.Entry(cs[|cs| - 1]) >= 0x0FFF_FFF8 then NotFound else Panicked
  }

  function DirentOf(f: File): Dirent {
    Dirent(f.name[..Min(|f.name|, NAME_SIZE - 1)], f.inode)
  }

  function NodeOf(f: File): Node {
    Node(f.name, f.directory, f.inode, f.size)
  }

  /** The first file of that name. */
  function FirstNamed(fs: seq<File>, name: string): (r: Option<nat>)
    ensures r.Some? ==> r.value < |fs| && fs[r.value].name == name
    ensures r.Some? ==> forall i :: 0 <= i < r.value ==> fs[i].name != name
    ensures r.None? ==> forall i :: 0 <= i < |fs| ==> fs[i].name != name
  {
    if fs == [] then None
    else if fs[0].name == name then Some(0)
    else match FirstNamed(fs[1..], name) case Some(i) => Some(i + 1) case None => None
  }

  /** The k-th entry of a listing; the root shows two entries of its own in front. */
  function Listed(files: seq<File>, inode: nat, index: nat, end: Result<Dirent>): Result<Dirent> {
    if inode == 0 && index <= 1 then Found(Dirent(if index == 0 then "." else "..", 0))
    else
      var k := if inode == 0 then index - 2 else index;
      if k < |files| then Found(DirentOf(files[k])) else end
  }

  /** The root's own entries, which every lookup there finds first. */
  predicate RootName(inode: nat, name: string) {
    inode == 0 && (name == "." || name == "..")
  }

  /** What a lookup finds. A name of 128 characters or more, once it matches, does not fit in the node's field. */
  function Named(files: seq<File>, inode: nat, name: string, end: Result<Node>): Result<Node> {
    if RootName(inode, name) then Found(Node(name, true, 0, 0))
    else match FirstNamed(files, name)
      case Some(i) => if |name| < NAME_SIZE then Found(NodeOf(files[i])) else Overrun
      case None => end
  }

  function ClusterFor(vol: Volume, inode: nat): nat {
    if inode == 0 then vol.rootCluster else inode
  }

  // ----- which files a directory holds -----

  /** A record of a directory. */
  type Slot = r: seq<byte> | |r| == 32 witness seq(32, _ => 0)

  /** The records of a cluster in front of the first that begins with 0, from place pos on. */
  function Records(d: seq<byte>, pos: nat): (rs: seq<Slot>)
    requires |d| == 4096 && pos <= 128
    ensures |rs| <= 128 - pos
    ensures forall k :: 0 <= k < |rs| ==> rs[k] == d[32 * (pos + k)..32 * (pos + k) + 32] && rs[k][0] != 0
    ensures pos + |rs| < 128 ==> d[32 * (pos + |rs|)] == 0
    decreases 128 - pos
  {
    if pos == 128 || d[32 * pos] == 0 then [] else [d[32 * pos..32 * pos + 32]] + Records(d, pos + 1)
  }

  /** The records of all clusters of a directory. */
  ghost function AllRecords(vol: Volume, cs: seq<nat>): (rs: seq<Slot>)
    requires vol.BytesPerCluster() == CLUSTER
  {
    if cs == [] then [] else Records(vol.ClusterData(cs[0]), 0) + AllRecords(vol, cs[1..])
  }

  /** A record that is not deleted, and holds neither part of a long name nor the volume's name, is a file. */
  predicate IsFile(r: Slot)
  {
    r[0] != 0xe5 && r[11] != 0x0F && r[11] / 8 % 2 == 0
  }

  predicate IsNamePart(r: Slot)
  {
    r[0] != 0xe5 && r[11] == 0x0F
  }

  /** The parts of a long name in some records, later ones in front. */
  function NameParts(nm: Naming, rs: seq<Slot>): string
  {
    if rs == [] then ""
    else
      var last := rs[|rs| - 1];
      (if IsNamePart(last) then nm.portion(last) else "") + NameParts(nm, rs[..|rs| - 1])
  }

  /** The file that record r is, given the records between it and the file in front. */
  function FileAt(nm: Naming, between: seq<Slot>, r: Slot): File
  {
    var name := NameParts(nm, between);
    File(if name != "" then name else nm.shortName(r),
         0x1_0000 * (r[20] as nat + 0x100 * (r[21] as nat)) + (r[26] as nat + 0x100 * (r[27] as nat)),
         r[11] / 16 % 2 == 1,
         r[28] as nat + 0x100 * (r[29] as nat) + 0x1_0000 * (r[30] as nat) + 0x100_0000 * (r[31] as nat))
  }

  /** What the walk makes of one record, and the name that is pending behind it. */
  function FilesOf(nm: Naming, r: Slot, lfn: string): (seq<File>, string)
  {
    match KindOf(r)
    case FileOrDir => ([FileOf(nm, r, lfn)], "")
    case LongName => ([], nm.portion(r) + lfn)
    case _ => ([], lfn)
  }

  /** What it makes of a list of records. */
  function FilesIn(nm: Naming, rs: seq<Slot>, lfn: string): (seq<File>, string)
  {
    if rs == [] then ([], lfn)
    else
      var (f, name) := FilesOf(nm, rs[0], lfn);
      var (fs, rest) := FilesIn(nm, rs[1..], name);
      (f + fs, rest)
  }

  lemma ScanOne(nm: Naming, d: seq<byte>, pos: nat, lfn: string)
    requires |d| == CLUSTER && pos < RECORDS && d[32 * pos] != 0
    ensures var (f, name) := FilesOf(nm, Record(d, pos), lfn);
            var (fs, rest) := Scan(nm, d, pos + 1, name);
            Scan(nm, d, pos, lfn) == (f + fs, rest)
  {
    hide FileOf;
    var (fs, rest) := Scan(nm, d, pos + 1, FilesOf(nm, Record(d, pos), lfn).1);
    assert [] + fs == fs;
  }

  lemma ScanEnds(nm: Naming, d: seq<byte>, pos: nat, lfn: string)
    requires |d| == CLUSTER && pos <= RECORDS && (pos < RECORDS ==> d[32 * pos] == 0)
    ensures Scan(nm, d, pos, lfn) == ([], lfn)
  {
  }

  lemma {:induction false} ScanIsFilesIn(nm: Naming, d: seq<byte>, pos: nat, lfn: string)
    requires |d| == CLUSTER && pos <= RECORDS
    ensures Scan(nm, d, pos, lfn) == FilesIn(nm, Records(d, pos), lfn)
    decreases RECORDS - pos
  {
    hide Scan, FilesOf;
    if pos == RECORDS || d[32 * pos] == 0 {
      ScanEnds(nm, d, pos, lfn);
    } else {
      var rs := Records(d, pos);
      assert rs[0] == Record(d, pos) && rs[1..] == Records(d, pos + 1);
      ScanOne(nm, d, pos, lfn);
      ScanIsFilesIn(nm, d, pos + 1, FilesOf(nm, rs[0], lfn).1);
    }
  }

  lemma {:induction false} FilesInJoin(nm: Naming, a: seq<Slot>, b: seq<Slot>, lfn: string)
    ensures var (fs, rest) := FilesIn(nm, a, lfn);
            var (gs, end) := FilesIn(nm, b, rest);
            FilesIn(nm, a + b, lfn) == (fs + gs, end)
    decreases |a|
  {
    hide FilesOf;
    if a == [] {
      assert a + b == b && [] + FilesIn(nm, b, lfn).0 == FilesIn(nm, b, lfn).0;
    } else {
      assert (a + b)[0] == a[0] && (a + b)[1..] == a[1..] + b;
      var (f, name) := FilesOf(nm, a[0], lfn);
      FilesInJoin(nm, a[1..], b, name);
      var (fs, rest) := FilesIn(nm, a[1..], name);
      assert f + (fs + FilesIn(nm, b, rest).0) == (f + fs) + FilesIn(nm, b, rest).0;
    }
  }

  lemma {:induction false} FilesAreIn(vol: Volume, nm: Naming, cs: seq<nat>, lfn: string)
    requires vol.BytesPerCluster() == CLUSTER
    ensures Files(vol, nm, cs, lfn) == FilesIn(nm, AllRecords(vol, cs), lfn).0
    decreases |cs|
  {
    if cs != [] {
      hide Scan, FilesIn, Records, Volume.ClusterData;
      var d := vol.ClusterData(cs[0]);
      ScanIsFilesIn(nm, d, 0, lfn);
      FilesAreIn(vol, nm, cs[1..], Scan(nm, d, 0, lfn).1);
      FilesInJoin(nm, Records(d, 0), AllRecords(vol, cs[1..]), lfn);
    }
  }

  /** The places at which the records are files, in order, and the place behind the last of them. */
  ghost predicate FilePlaces(rs: seq<Slot>, ps: seq<nat>)
  {
    && (forall j, k :: 0 <= j < k < |ps| ==> ps[j] < ps[k])
    && (forall k :: 0 <= k < |ps| ==> ps[k] < |rs| && IsFile(rs[ps[k]]))
    && (forall b :: 0 <= b < |rs| && IsFile(rs[b]) ==> b in ps)
  }

  function Behind(ps: seq<nat>, k: nat): nat
    requires k <= |ps|
  {
    if k == 0 then 0 else ps[k - 1] + 1
  }

  /** f is the file that record b, with those from a up to it, stands for. */
  ghost predicate StandsFor(nm: Naming, rs: seq<Slot>, a: nat, b: nat, f: File)
  {
    a <= b < |rs| && f == FileAt(nm, rs[a..b], rs[b])
  }

  /** The files of a list are those that its records stand for, each with the records behind the file in front. */
  ghost predicate AreAt(nm: Naming, rs: seq<Slot>, ps: seq<nat>, fs: seq<File>)
  {
    && FilePlaces(rs, ps) && |ps| == |fs|
    && forall k :: 0 <= k < |ps| ==> StandsFor(nm, rs, Behind(ps, k), ps[k], fs[k])
  }

  lemma KindIs(r: Slot)
    requires r[0] != 0
    ensures KindOf(r) == FileOrDir <==> IsFile(r)
    ensures KindOf(r) == LongName <==> IsNamePart(r)
  {
  }

  lemma FileIs(nm: Naming, r: Slot, between: seq<Slot>)
    ensures FileOf(nm, r, NameParts(nm, between)) == FileAt(nm, between, r)
  {
    hide NameParts;
  }

  /** One record more. */
  lemma OneMore(nm: Naming, r: Slot, between: seq<Slot>)
    requires r[0] != 0
    ensures FilesOf(nm, r, NameParts(nm, between)) ==
            if IsFile(r) then ([FileAt(nm, between, r)], "") else ([], NameParts(nm, between + [r]))
  {
    hide KindOf, FileOf, FileAt, IsFile, IsNamePart;
    KindIs(r);
    FileIs(nm, r, between);
    assert (between + [r])[..|between|] == between;
    assert "" + NameParts(nm, between) == NameParts(nm, between);
  }

  lemma PlacesGrow(rs: seq<Slot>, r: Slot, ps: seq<nat>)
    requires FilePlaces(rs, ps)
    ensures FilePlaces(rs + [r], if IsFile(r) then ps + [|rs|] else ps)
  {
    hide IsFile;
    var all, qs := rs + [r], if IsFile(r) then ps + [|rs|] else ps;
    forall b | 0 <= b < |all| && IsFile(all[b]) ensures b in qs {
      if b < |rs| {
        assert IsFile(rs[b]);
      } else {
        assert qs[|ps|] == b;
      }
    }
  }

  lemma BehindFits(rs: seq<Slot>, ps: seq<nat>, k: nat)
    requires FilePlaces(rs, ps) && k <= |ps|
    ensures Behind(ps, k) <= |rs| && (k < |ps| ==> Behind(ps, k) <= ps[k])
  {
  }

  lemma StillStandsFor(nm: Naming, rs: seq<Slot>, r: Slot, a: nat, b: nat, f: File)
    requires StandsFor(nm, rs, a, b, f)
    ensures StandsFor(nm, rs + [r], a, b, f)
  {
    hide FileAt;
    assert (rs + [r])[a..b] == rs[a..b];
  }

  lemma LastStandsFor(nm: Naming, rs: seq<Slot>, r: Slot, a: nat)
    requires a <= |rs|
    ensures StandsFor(nm, rs + [r], a, |rs|, FileAt(nm, rs[a..], r))
  {
    hide FileAt;
    assert (rs + [r])[a..|rs|] == rs[a..];
  }

  /** The same files, in a list that has one record more. */
  lemma AreStill(nm: Naming, rs: seq<Slot>, r: Slot, ps: seq<nat>, fs: seq<File>)
    requires AreAt(nm, rs, ps, fs)
    ensures Behind(ps, |ps|) <= |rs|
    ensures AreAt(nm, rs + [r], if IsFile(r) then ps + [|rs|] else ps,
                  if IsFile(r) then fs + [FileAt(nm, rs[Behind(ps, |ps|)..], r)] else fs)
  {
    hide IsFile, FileAt, StandsFor, FilePlaces;
    PlacesGrow(rs, r, ps);
    BehindFits(rs, ps, |ps|);
    LastStandsFor(nm, rs, r, Behind(ps, |ps|));
    var qs := if IsFile(r) then ps + [|rs|] else ps;
    forall k | 0 <= k < |ps|
      ensures Behind(qs, k) == Behind(ps, k) && StandsFor(nm, rs + [r], Behind(ps, k), ps[k], fs[k])
    {
      StillStandsFor(nm, rs, r, Behind(ps, k), ps[k], fs[k]);
    }
    assert Behind(qs, |ps|) == Behind(ps, |ps|);
  }

  lemma FilesInOne(nm: Naming, r: Slot, lfn: string)
    ensures FilesIn(nm, [r], lfn) == FilesOf(nm, r, lfn)
  {
    hide FilesOf;
    var (f, name) := FilesOf(nm, r, lfn);
    assert [r][1..] == [] && f + [] == f;
  }

  /** ps are the places of the files of rs, and pending is the name behind the last of them. */
  ghost predicate Walked(nm: Naming, rs: seq<Slot>, ps: seq<nat>, walk: (seq<File>, string)) {
    AreAt(nm, rs, ps, walk.0) && Behind(ps, |ps|) <= |rs| && walk.1 == NameParts(nm, rs[Behind(ps, |ps|)..])
  }

  lemma NoParts(nm: Naming)
    ensures NameParts(nm, []) == ""
  {
  }

  lemma WalkedOn(nm: Naming, rs: seq<Slot>, r: Slot, ps: seq<nat>) returns (qs: seq<nat>)
    requires r[0] != 0 && Walked(nm, rs, ps, FilesIn(nm, rs, ""))
    ensures Walked(nm, rs + [r], qs, FilesIn(nm, rs + [r], ""))
  {
    var (fs, name) := FilesIn(nm, rs, "");
    hide FilesIn, FilesOf, IsFile, NameParts, FileAt, AreAt;
    var all, between := rs + [r], rs[Behind(ps, |ps|)..];
    AreStill(nm, rs, r, ps, fs);
    OneMore(nm, r, between);
    FilesInOne(nm, r, name);
    FilesInJoin(nm, rs, [r], "");
    if IsFile(r) {
      qs := ps + [|rs|];
      assert all[|all|..] == [];
      NoParts(nm);
    } else {
      qs := ps;
      assert fs + [] == fs && all[Behind(qs, |qs|)..] == between + [r];
    }
  }

  lemma NothingWalked(nm: Naming)
    ensures Walked(nm, [], [], FilesIn(nm, [], ""))
  {
    hide FileAt;
  }

  lemma {:induction false} FilesInAre(nm: Naming, rs: seq<Slot>) returns (ps: seq<nat>)
    requires forall k :: 0 <= k < |rs| ==> rs[k][0] != 0
    ensures Walked(nm, rs, ps, FilesIn(nm, rs, ""))
    decreases |rs|
  {
    hide *;
    if rs == [] {
      ps := [];
      NothingWalked(nm);
    } else {
      var init, r := rs[..|rs| - 1], rs[|rs| - 1];
      var qs := FilesInAre(nm, init);
      ps := WalkedOn(nm, init, r, qs);
      assert init + [r] == rs;
    }
  }

  /** No record in front of the first that begins with 0, in its cluster, begins with 0. */
  lemma {:induction false} AllBegin(vol: Volume, cs: seq<nat>)
    requires vol.BytesPerCluster() == CLUSTER
    ensures forall k :: 0 <= k < |AllRecords(vol, cs)| ==> AllRecords(vol, cs)[k][0] != 0
    decreases |cs|
  {
    hide Volume.ClusterData;
    if cs != [] {
      AllBegin(vol, cs[1..]);
    }
  }

  /** The files of a directory are its records that are files, in order. */
  lemma FilesAre(vol: Volume, nm: Naming, cs: seq<nat>) returns (ps: seq<nat>)
    requires vol.BytesPerCluster() == CLUSTER
    ensures AreAt(nm, AllRecords(vol, cs), ps, Files(vol, nm, cs, ""))
  {
    hide AllRecords, Files, FilesIn, AreAt, NameParts, Behind;
    AllBegin(vol, cs);
    FilesAreIn(vol, nm, cs, "");
    ps := FilesInAre(nm, AllRecords(vol, cs));
  }

  // ----- the two walks agree -----

  /** No file in front of place j has its name. */
  predicate InFront(files: seq<File>, j: nat)
    requires j < |files|
  {
    forall i :: 0 <= i < j ==> files[i].name != files[j].name
  }

  /** What a listing gives at each place: a name of more than 127 characters is cut to its first 127. */
  lemma ListedGives(vol: Volume, files: seq<File>, cs: seq<nat>, inode: nat, index: nat)
    requires vol.Valid() && Path(vol, cs)
    ensures var r := Listed(files, inode, index, AtEnd(vol, cs));
            var k := if inode == 0 then index - 2 else index;
            if k < 0 then r == Found(Dirent([".", ".."][index], 0))
            else if k < |files| then
              && r.Found? && r.value.inode == files[k].inode && r.value.name <= files[k].name
              && |r.value.name| == if |files[k].name| > 127 then 127 else |files[k].name|
            else r == if vol.Entry(cs[|cs| - 1]) < 0x0FFF_FFF8 then Panicked else NotFound
  {
    hide Volume.Entry, Path;
  }

  /** What a lookup gives: the first file of that name, or what the end of the chain means if there is none. */
  lemma NamedGives(vol: Volume, files: seq<File>, cs: seq<nat>, inode: nat, name: string)
    requires vol.Valid() && Path(vol, cs)
    ensures var r := Named(files, inode, name, AtEnd(vol, cs));
            if inode == 0 && name in {".", ".."} then r == Found(Node(name, true, 0, 0))
            else if forall i :: 0 <= i < |files| ==> files[i].name != name then
              r == if vol.Entry(cs[|cs| - 1]) < 0x0FFF_FFF8 then Panicked else NotFound
            else exists i :: 0 <= i < |files| && files[i].name == name && InFront(files, i)
                   && r == if |name| > 127 then Overrun
                           else Found(Node(name, files[i].directory, files[i].inode, files[i].size))
  {
    hide Volume.Entry, Path, FirstNamed;
    var found := FirstNamed(files, name);
    if found.Some? {
      assert InFront(files, found.value);
    }
  }

  /** A name that is found is listed, whole, with the inode that was found. */
  lemma FoundIsListed(files: seq<File>, inode: nat, name: string, endD: Result<Dirent>, endN: Result<Node>)
    requires Named(files, inode, name, endN).Found? && !endN.Found?
    ensures exists k: nat :: Listed(files, inode, k, endD) ==
              Found(Dirent(name, Named(files, inode, name, endN).value.inode))
  {
    var k: nat := if inode == 0 && name == "." then 0
                  else if inode == 0 && name == ".." then 1
                  else FirstNamed(files, name).value + if inode == 0 then 2 else 0;
    assert |name| < NAME_SIZE ==> name[..Min(|name|, NAME_SIZE - 1)] == name;
    assert Listed(files, inode, k, endD) == Found(Dirent(name, Named(files, inode, name, endN).value.inode));
  }

  /**
   Looking up a listed name leads back to the entry listed exactly when the name was not cut, the first entry of
   that name is no different from it, and it is not one of the root's own names with something else behind it.
   */
  lemma ListedIsFound(files: seq<File>, inode: nat, k: nat, endD: Result<Dirent>, endN: Result<Node>)
    requires k < |files| && !endN.Found?
    ensures Listed(files, inode, k + if inode == 0 then 2 else 0, endD) == Found(DirentOf(files[k]))
    ensures Named(files, inode, DirentOf(files[k]).name, endN) == Found(NodeOf(files[k])) <==>
            && |files[k].name| < NAME_SIZE
            && if RootName(inode, files[k].name) then files[k] == File(files[k].name, 0, true, 0)
               else forall j :: 0 <= j < k && files[j].name == files[k].name && InFront(files, j) ==>
                                  files[j] == files[k]
  {
    var name := files[k].name;
    assert |name| < NAME_SIZE ==> name[..Min(|name|, NAME_SIZE - 1)] == name;
    assert |name[..Min(|name|, NAME_SIZE - 1)]| == Min(|name|, NAME_SIZE - 1);
    if |name| < NAME_SIZE && !RootName(inode, name) {
      var j := FirstNamed(files, name).value;
      assert files[j].name == name && InFront(files, j);
      forall i | 0 <= i < k && files[i].name == name && InFront(files, i) ensures i == j {
      }
    }
  }

  // ----- the walks -----

  class Directory {
    const driver: Driver
    const nm: Naming

    constructor (driver: Driver, nm: Naming)
      ensures this.driver == driver && this.nm == nm
    {
      this.driver := driver;
      this.nm := nm;
    }

    /** The walk over one cluster for a place in the listing. */
    method ScanForIndex(d: seq<byte>, index: nat, current0: nat, lfn0: string)
      returns (found: Option<File>, current: nat, lfn: string)
      requires |d| == CLUSTER && current0 <= index
      ensures var (fs, rest) := Scan(nm, d, 0, lfn0);
              if index - current0 < |fs| then found == Some(fs[index - current0])
              else found == None && current == current0 + |fs| && lfn == rest
    {
      hide Scan, FileOf, KindOf;
      current, lfn := current0, lfn0;
      ghost var (all, end) := Scan(nm, d, 0, lfn0);
      ghost var k: nat := 0;
      var position: nat := 0;
      while position < RECORDS
        invariant position <= RECORDS && current <= index && k <= |all| && current == current0 + k
        invariant Scan(nm, d, position, lfn) == (all[k..], end)
      {
        ScanStep(nm, d, position, lfn);
        var fd := Record(d, position);
        match KindOf(fd) {
          case End => return None, current, lfn;
          case Deleted =>
          case LongName => lfn := nm.portion(fd) + lfn;
          case VolumeId =>
          case FileOrDir =>
            assert all[k] == all[k..][0] && all[k + 1..] == all[k..][1..];
            if current == index {
              return Some(FileOf(nm, fd, lfn)), current + 1, lfn;
            }
            current := current + 1;
            k := k + 1;
            lfn := "";
        }
        position := position + 1;
      }
      ScanStep(nm, d, position, lfn);
      return None, current, lfn;
    }

    /** The walk over one cluster for a name. */
    method ScanForName(d: seq<byte>, name: string, lfn0: string) returns (found: Option<File>, lfn: string)
      requires |d| == CLUSTER
      ensures var (fs, rest) := Scan(nm, d, 0, lfn0);
              match FirstNamed(fs, name)
              case Some(i) => found == Some(fs[i])
              case None => found == None && lfn == rest
    {
      hide Scan, FirstNamed, FileOf, KindOf;
      lfn := lfn0;
      ghost var (all, end) := Scan(nm, d, 0, lfn0);
      ghost var k: nat := 0;
      var position: nat := 0;
      while position < RECORDS
        invariant position <= RECORDS && k <= |all|
        invariant Scan(nm, d, position, lfn) == (all[k..], end)
        invariant forall j :: 0 <= j < k ==> all[j].name != name
      {
        ScanStep(nm, d, position, lfn);
        var fd := Record(d, position);
        match KindOf(fd) {
          case End =>
            FirstNamedNone(all, name, k);
            return None, lfn;
          case Deleted =>
          case LongName => lfn := nm.portion(fd) + lfn;
          case VolumeId =>
          case FileOrDir =>
            assert all[k] == all[k..][0] && all[k + 1..] == all[k..][1..];
            if FileOf(nm, fd, lfn).name == name {
              FirstNamedAt(all, name, k);
              return Some(FileOf(nm, fd, lfn)), lfn;
            }
            k := k + 1;
            lfn := "";
        }
        position := position + 1;
      }
      ScanStep(nm, d, position, lfn);
      FirstNamedNone(all, name, k);
      return None, lfn;
    }

    ghost predicate Walkable(inode: nat, cs: seq<nat>)
      reads driver
    {
      && driver.Valid() && driver.vol.BytesPerCluster() == CLUSTER
      && Path(driver.vol, cs) && cs[0] == if inode == 0 then driver.vol.rootCluster else inode
    }

    /** fat_readdir. The walk ends because the directory's chain, cs, is finite. */
    method Readdir(inode: nat, index: nat, ghost cs: seq<nat>) returns (r: Result<Dirent>)
      requires Walkable(inode, cs)
      modifies driver`fatClusters
      ensures driver.Valid()
      ensures r == Listed(Files(driver.vol, nm, cs, ""), inode, index, AtEnd(driver.vol, cs))
    {
      hide Files, Scan, Path, Volume.Entry, Volume.ClusterData, AtEnd, Driver.Valid, Classify, DirentOf;
      if inode == 0 && index <= 1 {
        return Found(Dirent(if index == 0 then "." else "..", 0));
      }
      var current := if inode == 0 then 2 else 0;
      ghost var base := current;
      var currentCluster := ClusterFor(driver.vol, inode);
      var lfn := "";
      ghost var all := Files(driver.vol, nm, cs, "");
      ghost var i: nat := 0;
      PathStart(driver.vol, cs);
      while true
        invariant driver.Valid() && i < |cs| && currentCluster == cs[i]
        invariant base <= current <= index && current - base <= |all|
        invariant all[current - base..] == Files(driver.vol, nm, cs[i..], lfn)
        decreases |cs| - i
      {
        ghost var fs, end := ClusterStep(driver.vol, nm, cs, i, lfn, all, current - base);
        var found, next, rest := ScanForIndex(driver.vol.ClusterData(currentCluster), index, current, lfn);
        if found.Some? {
          return Found(DirentOf(found.value));
        }
        current, lfn := next, rest;
        PathStep(driver.vol, cs, i);
        var entry := driver.EntryFor(currentCluster);
        match Classify(entry) {
          case Bad => return Panicked;
          case EndOfFile => return NotFound;
          case NextCluster(c) => currentCluster := c;
        }
        i := i + 1;
      }
    }

    /** fat_finddir, over the same clusters and records. */
    method Finddir(inode: nat, name: string, ghost cs: seq<nat>) returns (r: Result<Node>)
      requires Walkable(inode, cs)
      modifies driver`fatClusters
      ensures driver.Valid()
      ensures r == Named(Files(driver.vol, nm, cs, ""), inode, name, AtEnd(driver.vol, cs))
    {
      hide Files, Scan, Path, Volume.Entry, Volume.ClusterData, AtEnd, Driver.Valid, FirstNamed;
      if RootName(inode, name) {
        return Found(Node(name, true, 0, 0));
      }
      var currentCluster := ClusterFor(driver.vol, inode);
      var lfn := "";
      ghost var all := Files(driver.vol, nm, cs, "");
      ghost var i: nat, n: nat := 0, 0;
      PathStart(driver.vol, cs);
      while true
        invariant driver.Valid() && i < |cs| && currentCluster == cs[i] && n <= |all|
        invariant all[n..] == Files(driver.vol, nm, cs[i..], lfn)
        invariant forall j :: 0 <= j < n ==> all[j].name != name
        decreases |cs| - i
      {
        ghost var fs, end := ClusterStep(driver.vol, nm, cs, i, lfn, all, n);
        var found, rest := ScanForName(driver.vol.ClusterData(currentCluster), name, lfn);
        FirstNamedIn(all, n, fs, name);
        if found.Some? {
          if |name| >= NAME_SIZE {
            return Overrun;
          }
          return Found(NodeOf(found.value));
        }
        n, lfn := n + |fs|, rest;
        PathStep(driver.vol, cs, i);
        var entry := driver.EntryFor(currentCluster);
        match Classify(entry) {
          case Bad => FirstNamedNone(all, name, n); return Panicked;
          case EndOfFile => FirstNamedNone(all, name, n); return NotFound;
          case NextCluster(c) => currentCluster := c;
        }
        i := i + 1;
      }
    }
  }

  /** A file found in one stretch of the list, with none in front, is the first of the list. */
  lemma FirstNamedIn(all: seq<File>, n: nat, fs: seq<File>, name: string)
    requires n + |fs| <= |all| && forall j :: 0 <= j < |fs| ==> all[n + j] == fs[j]
    requires forall j :: 0 <= j < n ==> all[j].name != name
    ensures match FirstNamed(fs, name)
            case Some(j) => FirstNamed(all, name) == Some(n + j) && all[n + j] == fs[j]
            case None => forall j :: 0 <= j < n + |fs| ==> all[j].name != name
  {
    hide FirstNamed;
    var found := FirstNamed(fs, name);
    var k := if found.Some? then found.value else |fs|;
    forall m | 0 <= m < n + k ensures all[m].name != name {
      if m >= n {
        assert all[n + (m - n)] == fs[m - n];
      }
    }
    if found.Some? {
      assert all[n + k] == fs[k];
      FirstNamedAt(all, name, n + k);
    }
  }

  /** The list from n on starts with fs and goes on with rest. */
  lemma SuffixStep<T>(all: seq<T>, n: nat, fs: seq<T>, rest: seq<T>)
    requires n <= |all| && all[n..] == fs + rest
    ensures n + |fs| <= |all| && all[n + |fs|..] == rest
    ensures forall j :: 0 <= j < |fs| ==> all[n + j] == fs[j]
  {
    assert |all| == n + |fs| + |rest|;
    assert all[n + |fs|..] == all[n..][|fs|..];
    forall j | 0 <= j < |fs| ensures all[n + j] == fs[j] {
      assert all[n..][j] == fs[j];
    }
  }

  /** Reading cluster i of a directory moves that many files on in the list of all. */
  lemma ClusterStep(vol: Volume, nm: Naming, cs: seq<nat>, i: nat, lfn: string, all: seq<File>, n: nat)
    returns (fs: seq<File>, rest: string)
    requires vol.BytesPerCluster() == CLUSTER && i < |cs| && n <= |all|
    requires all[n..] == Files(vol, nm, cs[i..], lfn)
    ensures Scan(nm, vol.ClusterData(cs[i]), 0, lfn) == (fs, rest)
    ensures n + |fs| <= |all| && all[n + |fs|..] == Files(vol, nm, cs[i + 1..], rest)
    ensures forall j :: 0 <= j < |fs| ==> all[n + j] == fs[j]
    ensures i + 1 == |cs| ==> n + |fs| == |all|
  {
    hide Files, Scan, Volume.Entry, Volume.ClusterData;
    FilesStep(vol, nm, cs, i, lfn);
    var scan := Scan(nm, vol.ClusterData(cs[i]), 0, lfn);
    fs, rest := scan.0, scan.1;
    SuffixStep(all, n, fs, Files(vol, nm, cs[i + 1..], rest));
  }

  lemma FilesStep(vol: Volume, nm: Naming, cs: seq<nat>, i: nat, lfn: string)
    requires vol.BytesPerCluster() == CLUSTER && i < |cs|
    ensures var (fs, rest) := Scan(nm, vol.ClusterData(cs[i]), 0, lfn);
            && Files(vol, nm, cs[i..], lfn) == fs + Files(vol, nm, cs[i + 1..], rest)
            && (i + 1 == |cs| ==> Files(vol, nm, cs[i + 1..], rest) == [])
  {
    assert cs[i..][0] == cs[i] && cs[i..][1..] == cs[i + 1..];
  }

  lemma PathStart(vol: Volume, cs: seq<nat>)
    requires vol.Valid() && Path(vol, cs)
    ensures |cs| > 0 && cs[0..] == cs
  {
  }

  lemma PathStep(vol: Volume, cs: seq<nat>, i: nat)
    requires vol.Valid() && Path(vol, cs) && i < |cs|
    ensures match Classify(vol.Entry(cs[i]))
            case NextCluster(c) => i + 1 < |cs| && cs[i + 1] == c
            case EndOfFile => i + 1 == |cs| && AtEnd<Dirent>(vol, cs) == NotFound && AtEnd<Node>(vol, cs) == NotFound
            case Bad => i + 1 == |cs| && AtEnd<Dirent>(vol, cs) == Panicked && AtEnd<Node>(vol, cs) == Panicked
  {
    if i + 1 < |cs| {
      assert vol.Entry(cs[i + 1 - 1]) == cs[i + 1];
    }
    hide Volume.Entry;
  }

  lemma ScanStep(nm: Naming, d: seq<byte>, pos: nat, lfn: string)
    requires |d| == CLUSTER && pos <= RECORDS
    ensures pos == RECORDS ==> Scan(nm, d, pos, lfn) == ([], lfn)
    ensures pos < RECORDS ==>
              var r := Record(d, pos);
              var (fs, end) := Scan(nm, d, pos, lfn);
              match KindOf(r)
              case End => fs == [] && end == lfn
              case Deleted => (fs, end) == Scan(nm, d, pos + 1, lfn)
              case LongName => (fs, end) == Scan(nm, d, pos + 1, nm.portion(r) + lfn)
              case VolumeId => (fs, end) == Scan(nm, d, pos + 1, lfn)
              case FileOrDir => fs != [] && fs[0] == FileOf(nm, r, lfn)
                                && Scan(nm, d, pos + 1, "") == (fs[1..], end)
  {
  }

  lemma {:induction false} FirstNamedAt(fs: seq<File>, name: string, k: nat)
    requires k < |fs| && fs[k].name == name && forall j :: 0 <= j < k ==> fs[j].name != name
    ensures FirstNamed(fs, name) == Some(k)
  {
  }

  lemma FirstNamedNone(fs: seq<File>, name: string, k: nat)
    requires k <= |fs| && fs[k..] == []
    requires forall j :: 0 <= j < k ==> fs[j].name != name
    ensures FirstNamed(fs, name) == None && k == |fs|
  {
  }
}
