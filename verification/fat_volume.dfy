/** FAT volumes byte by byte, as sections 3, 4 and 6 of the Microsoft FAT Specification lay them out, and that the driver
    reads from them what they hold. */
module FatImage {
  import opened Types
  import opened Fat
  import FatListing

  type Half = n: nat | n < 0x1_0000
  type Full32 = n: nat | n < 0x1_0000_0000

  // ----- the boot sector

  predicate Fits(l: Layout)
  {
    && l.bytesPerSector < 0x1_0000 && l.sectorsPerCluster < 256 && l.reserved < 0x1_0000
    && l.fatCount < 256 && l.rootEntries < 0x1_0000
  }

  /** The first 36 bytes: jump, name of the formatter, and the parameter block that all volumes have. */
  function ParameterBlock(jump: seq<Byte>, l: Layout, total16: Half, media: Byte, size16: Half, disk: seq<Byte>, total32: Full32)
    : (r: seq<Byte>)
    requires |jump| == 11 && |disk| == 8 && Fits(l)
    ensures |r| == 36
  {
    jump + Le16(l.bytesPerSector) + [l.sectorsPerCluster] + Le16(l.reserved) + [l.fatCount] + Le16(l.rootEntries)
    + Le16(total16) + [media] + Le16(size16) + disk + Le32(total32)
  }

  ghost predicate BlockWritten(boot: Sector, l: Layout, total16: Half, size16: Half, total32: Full32)
  {
    && Fits(l)
    && boot[..36] == ParameterBlock(boot[..11], l, total16, boot[21], size16, boot[24..32], total32)
    && boot[510..512] == [0x55, 0xAA]
  }

  /** The sectors are counted in 16 bits when they fit, and in 32 bits otherwise. */
  ghost predicate TotalWritten(l: Layout, total16: Half, total32: Full32)
  {
    if total16 != 0 then l.totalSectors == total16 else l.totalSectors == total32
  }

  /** A volume with 16-bit tables: their size is a field of 16 bits. */
  ghost predicate Boot16(boot: Sector, l: Layout)
  {
    exists t16: Half, t32: Full32 ::
      0 < l.sectorsPerFat < 0x1_0000 && TotalWritten(l, t16, t32) && BlockWritten(boot, l, t16, l.sectorsPerFat, t32)
  }

  /** A volume with 32-bit tables: their size and the root cluster stand behind the block. */
  ghost predicate Boot32(boot: Sector, l: Layout)
  {
    exists t16: Half, t32: Full32 ::
      && l.sectorsPerFat < 0x1_0000_0000 && l.rootCluster < 0x1_0000_0000
      && TotalWritten(l, t16, t32) && BlockWritten(boot, l, t16, 0, t32)
      && boot[36..40] == Le32(l.sectorsPerFat) && boot[44..48] == Le32(l.rootCluster)
  }

  lemma BlockReadBack(boot: Sector, l: Layout, total16: Half, size16: Half, total32: Full32)
    requires BlockWritten(boot, l, total16, size16, total32)
    ensures Signed(boot)
    ensures U16(boot, 11) == l.bytesPerSector && boot[13] == l.sectorsPerCluster && U16(boot, 14) == l.reserved
    ensures boot[16] == l.fatCount && U16(boot, 17) == l.rootEntries
    ensures U16(boot, 19) == total16 && U16(boot, 22) == size16 && U32(boot, 32) == total32
  {
    hide U16, U32, Le16, Le32;
    var b := ParameterBlock(boot[..11], l, total16, boot[21], size16, boot[24..32], total32);
    assert boot[0..36] == boot[..36];
    assert b[11..13] == Le16(l.bytesPerSector) && b[13..14] == [l.sectorsPerCluster] && b[14..16] == Le16(l.reserved);
    assert b[16..17] == [l.fatCount] && b[17..19] == Le16(l.rootEntries) && b[19..21] == Le16(total16);
    assert b[22..24] == Le16(size16) && b[32..36] == Le32(total32);
    FieldOf(boot, 0, b, 11, 13);
    FieldOf(boot, 0, b, 13, 14);
    FieldOf(boot, 0, b, 14, 16);
    FieldOf(boot, 0, b, 16, 17);
    FieldOf(boot, 0, b, 17, 19);
    FieldOf(boot, 0, b, 19, 21);
    FieldOf(boot, 0, b, 22, 24);
    FieldOf(boot, 0, b, 32, 36);
    ReadBack16(boot, 11, l.bytesPerSector);
    ReadBack16(boot, 14, l.reserved);
    ReadBack16(boot, 17, l.rootEntries);
    ReadBack16(boot, 19, total16);
    ReadBack16(boot, 22, size16);
    ReadBack32(boot, 32, total32);
    assert boot[13] == boot[13..14][0] && boot[16] == boot[16..17][0];
    assert boot[510] == boot[510..512][0] && boot[511] == boot[510..512][1];
  }

  /** fat_init takes from a boot sector what was written into it. */
  lemma LayoutIsReadBack(boot: Sector, l: Layout)
    ensures Boot16(boot, l) ==> Signed(boot) && LayoutOf(boot) == l.(rootCluster := U32(boot, 44))
    ensures Boot32(boot, l) ==> Signed(boot) && LayoutOf(boot) == l
  {
    hide U16, U32, Le16, Le32, BlockWritten, Signed;
    if t16: Half, t32: Full32 :|
      0 < l.sectorsPerFat < 0x1_0000 && TotalWritten(l, t16, t32) && BlockWritten(boot, l, t16, l.sectorsPerFat, t32) {
      BlockReadBack(boot, l, t16, l.sectorsPerFat, t32);
    }
    if t16: Half, t32: Full32 :|
      && l.sectorsPerFat < 0x1_0000_0000 && l.rootCluster < 0x1_0000_0000
      && TotalWritten(l, t16, t32) && BlockWritten(boot, l, t16, 0, t32)
      && boot[36..40] == Le32(l.sectorsPerFat) && boot[44..48] == Le32(l.rootCluster) {
      BlockReadBack(boot, l, t16, 0, t32);
      ReadBack32(boot, 36, l.sectorsPerFat);
      ReadBack32(boot, 44, l.rootCluster);
    }
  }

  // ----- directory entries

  /** The 32 bytes of an entry: name, attributes, 8 bytes of times, high half of the first cluster, 4 bytes of times, low
      half, size. */
  function Record(e: DirEntry, created: seq<Byte>, written: seq<Byte>): (r: seq<Byte>)
    requires |created| == 8 && |written| == 4 && e.firstCluster < 0x1_0000_0000 && e.size < 0x1_0000_0000
    ensures |r| == 32
  {
    e.name + [e.attr] + created + Le16(e.firstCluster / 0x1_0000) + written + Le16(e.firstCluster % 0x1_0000) + Le32(e.size)
  }

  /** Entry `i` of a sector is this one. */
  ghost predicate RecordWritten(sector: Sector, i: nat, e: DirEntry)
    requires i < 16
  {
    && e.firstCluster < 0x1_0000_0000 && e.size < 0x1_0000_0000
    && sector[32 * i..32 * i + 32] == Record(e, sector[32 * i + 12..32 * i + 20], sector[32 * i + 22..32 * i + 26])
  }

  /** The driver reads an entry as it was written. */
  lemma RecordIsReadBack(sector: Sector, i: nat, e: DirEntry)
    requires i < 16 && RecordWritten(sector, i, e)
    ensures EntryAt(sector, i) == e
  {
    hide U16, U32, Le16, Le32;
    var at := 32 * i;
    var r := Record(e, sector[at + 12..at + 20], sector[at + 22..at + 26]);
    assert r[0..11] == e.name && r[11..12] == [e.attr] && r[20..22] == Le16(e.firstCluster / 0x1_0000);
    assert r[26..28] == Le16(e.firstCluster % 0x1_0000) && r[28..32] == Le32(e.size);
    FieldOf(sector, at, r, 0, 11);
    FieldOf(sector, at, r, 11, 12);
    FieldOf(sector, at, r, 20, 22);
    FieldOf(sector, at, r, 26, 28);
    FieldOf(sector, at, r, 28, 32);
    ReadBack16(sector, at + 20, e.firstCluster / 0x1_0000);
    ReadBack16(sector, at + 26, e.firstCluster % 0x1_0000);
    ReadBack32(sector, at + 28, e.size);
    assert sector[at + 11] == sector[at + 11..at + 12][0];
  }

  /** The listing shows an entry as it was written: name, whether bit 4 is set, size. */
  lemma RecordIsListed(sector: Sector, i: nat, e: DirEntry)
    requires i < 16 && RecordWritten(sector, i, e) && e.name[0] != 0 && e.name[0] != 0xE5 && (e.attr as bv8) & 0x0F != 0x0F
    ensures FatListing.Lines(FatListing.Shown(Live(sector, i))) ==
            [FatListing.Line(Printed(e.name, (e.attr as bv8) & 0x10 != 0), (e.attr as bv8) & 0x10 != 0, e.size)]
            + FatListing.Lines(FatListing.Shown(Live(sector, i + 1)))
  {
    hide Printed, Live, FatListing.Lines, FatListing.Shown;
    RecordIsReadBack(sector, i, e);
    FatListing.AttributeBits(e);
    hide RecordWritten, FatListing.IsDir, FatListing.LongName;
    assert EntryAt(sector, i).name[0] == sector[32 * i];
    FatListing.OneMore(sector, i);
  }

  // ----- a directory sector

  /** A search looks at the places of a sector one by one. */
  lemma NextPlace(sector: Sector, name: seq<Byte>, j: nat)
    requires j < 16 && |name| == 11
    ensures Lookup(Live(sector, j), name) ==
            if sector[32 * j] == 0 then None
            else if sector[32 * j] != 0xE5 && sector[32 * j..32 * j + 11] == name then Some(EntryAt(sector, j))
            else Lookup(Live(sector, j + 1), name)
  {
    hide U16, U32, Lookup;
    LookupNone(name);
    if sector[32 * j] != 0 {
      var rest := Live(sector, j + 1);
      LookupConcat(if sector[32 * j] == 0xE5 then [] else [EntryAt(sector, j)], rest, name);
      LookupOne(EntryAt(sector, j), name);
    }
  }

  lemma {:induction false} NotInSector(sector: Sector, name: seq<Byte>, j: nat)
    requires j <= 16 && |name| == 11 && forall i :: 0 <= i < 16 ==> sector[32 * i..32 * i + 11] != name
    ensures Lookup(Live(sector, j), name).None?
    decreases 16 - j
  {
    hide EntryAt, Lookup;
    if j < 16 {
      NextPlace(sector, name, j);
      NotInSector(sector, name, j + 1);
      hide Live;
    } else {
      LookupNone(name);
    }
  }

  lemma {:induction false} FirstInSector(sector: Sector, i: nat, name: seq<Byte>, j: nat)
    requires j <= i < 16 && |name| == 11 && sector[32 * i..32 * i + 11] == name && name[0] != 0 && name[0] != 0xE5
    requires forall k :: 0 <= k < i ==> sector[32 * k] != 0 && sector[32 * k..32 * k + 11] != name
    ensures Lookup(Live(sector, j), name) == Some(EntryAt(sector, i))
    decreases i - j
  {
    hide EntryAt, Lookup, Live;
    assert sector[32 * i] == name[0];
    NextPlace(sector, name, j);
    if j < i {
      FirstInSector(sector, i, name, j + 1);
    }
  }

  /** The sector holds the entry at place `i`, and at no place before it the name or the end mark. */
  ghost predicate Held(sector: Sector, i: nat, e: DirEntry)
  {
    && i < 16 && e.name[0] != 0 && e.name[0] != 0xE5
    && (forall k :: 0 <= k < i ==> sector[32 * k] != 0 && sector[32 * k..32 * k + 11] != e.name)
    && RecordWritten(sector, i, e)
  }

  lemma HeldIsFound(sector: Sector, i: nat, e: DirEntry)
    requires Held(sector, i, e)
    ensures Lookup(Live(sector, 0), e.name) == Some(e)
  {
    hide RecordWritten, Live, Lookup;
    RecordIsReadBack(sector, i, e);
    assert EntryAt(sector, i).name == e.name;
    FirstInSector(sector, i, e.name, 0);
  }

  ghost predicate NoRecord(sector: Sector, name: Name)
  {
    forall k :: 0 <= k < 16 ==> sector[32 * k..32 * k + 11] != name
  }

  lemma NoRecordIsAbsent(sector: Sector, name: Name)
    requires NoRecord(sector, name)
    ensures Lookup(Live(sector, 0), name).None?
  {
    NotInSector(sector, name, 0);
  }

  // ----- the parts of a volume, in plain numbers

  function RootStart(l: Layout): nat
  {
    l.reserved + l.fatCount * l.sectorsPerFat
  }

  function RootSectors(l: Layout): nat
  {
    (l.rootEntries * 32 + 511) / 512
  }

  /** Where the clusters begin; on a volume with 32-bit tables the root directory is one of the chains. */
  function DataAt(l: Layout, fat32: bool): nat
  {
    RootStart(l) + if fat32 then 0 else RootSectors(l)
  }

  lemma ClustersAreSpecified(l: Layout)
    requires l.WellFormed()
    ensures l.Overhead() == DataAt(l, false) <= l.totalSectors < WORD
    ensures l.Clusters() == (l.totalSectors - DataAt(l, false)) / l.sectorsPerCluster
  {
    OverheadIsSpecified(l);
    hide l.Overhead, DataAt;
  }

  lemma OverheadIsSpecified(l: Layout)
    requires l.bytesPerSector == SECTOR
    ensures l.Overhead() == DataAt(l, false)
  {
  }

  /** What fat_init computes are the places the specification gives: tables, root directory, clusters. */
  lemma MountedIsSpecified(g: Geometry, l: Layout)
    requires l.WellFormed()
    ensures var v := Mounted(g, l);
            && l.Clusters() == (l.totalSectors - DataAt(l, false)) / l.sectorsPerCluster
            && (v.fat32 <==> l.Clusters() >= 65525)
            && v.bytesPerSector == 512 && v.sectorsPerCluster == l.sectorsPerCluster && v.reserved == l.reserved
            && (!v.fat32 ==> v.rootDirSector == RootStart(l) && v.rootDirSectors == RootSectors(l))
            && (v.fat32 ==> v.rootCluster == l.rootCluster)
            && v.dataSector == DataAt(l, v.fat32)
  {
    ClustersAreSpecified(l);
    MountedBounds(g, l);
    hide l.Clusters, l.Overhead;
  }

  lemma ClusterIsSpecified(g: Geometry, l: Layout, c: nat)
    requires l.WellFormed() && 2 <= c < l.Clusters() + 2
    ensures var v := Mounted(g, l);
            && ClusterSector(v, c) == DataAt(l, v.fat32) + (c - 2) * l.sectorsPerCluster
            && ClusterSector(v, c) + l.sectorsPerCluster <= l.totalSectors < WORD
  {
    hide l.Clusters, l.Overhead, l.WellFormed, DataAt, Mounted, ClusterSector;
    MountedIsSpecified(g, l);
    ClusterPlace(g, l, c - 2);
    MountedBounds(g, l);
  }

  // ----- table entries and chains

  /** The entry of cluster `c` in the first table, of 2 or 4 bytes, is `next`; of 32 bits the upper four are not used. */
  ghost predicate EntryWritten(disk: Disk, l: Layout, fat32: bool, c: nat, next: nat)
  {
    var at := c * if fat32 then 4 else 2;
    && l.reserved + at / 512 in disk && at % 512 + (if fat32 then 4 else 2) <= 512
    && var field := disk[l.reserved + at / 512][at % 512..at % 512 + if fat32 then 4 else 2];
    if fat32 then exists n: Full32 :: n % 0x1000_0000 == next && field == Le32(n)
    else next < 0x1_0000 && field == Le16(next)
  }

  lemma NextIsReadBack(disk: Disk, g: Geometry, l: Layout, c: nat, next: nat)
    requires l.WellFormed() && c < l.Clusters() + 2 && EntryWritten(disk, l, Mounted(g, l).fat32, c, next)
    ensures Mounted(g, l).bytesPerSector == SECTOR && NextCluster(disk, Mounted(g, l), c) == next
  {
    hide l.Clusters, l.Overhead, l.WellFormed, Mounted, U16, U32, Le16, Le32, EntrySector, EntryOffset;
    var v := Mounted(g, l);
    MountedIsSpecified(g, l);
    EntriesAreInFirstTable(g, l, c);
    var w, at := Width(v), c * Width(v);
    TablePlace(at, EntrySector(v, c) - l.reserved, EntryOffset(v, c));
    var sector, offset := disk[EntrySector(v, c)], EntryOffset(v, c);
    if v.fat32 {
      var n: Full32 :| n % 0x1000_0000 == next && sector[offset..offset + 4] == Le32(n);
      ReadBack32(sector, offset, n);
    } else {
      ReadBack16(sector, offset, next);
    }
  }

  lemma TablePlace(at: nat, sector: nat, offset: nat)
    requires sector * SECTOR + offset == at && offset < SECTOR
    ensures at / 512 == sector && at % 512 == offset
  {
  }

  /** The clusters of a chain, each linked to the next and the last to an end mark. */
  ghost predicate ChainWritten(disk: Disk, l: Layout, fat32: bool, chain: seq<nat>)
  {
    && (forall k :: 0 <= k < |chain| ==> 2 <= chain[k] < l.Clusters() + 2)
    && (forall k :: 0 <= k < |chain| - 1 ==> EntryWritten(disk, l, fat32, chain[k], chain[k + 1]))
    && (chain != [] ==> EndWritten(disk, l, fat32, chain[|chain| - 1]))
  }

  ghost predicate EndWritten(disk: Disk, l: Layout, fat32: bool, c: nat)
  {
    exists m: nat :: EntryWritten(disk, l, fat32, c, m) && m >= if fat32 then 0x0FFF_FFF8 else 0xFFF8
  }

  lemma {:induction false} ChainIsFollowed(disk: Disk, g: Geometry, l: Layout, chain: seq<nat>, k: nat)
    requires l.WellFormed() && ChainWritten(disk, l, Mounted(g, l).fat32, chain) && k < |chain|
    ensures Mounted(g, l).bytesPerSector == SECTOR && Nth(disk, Mounted(g, l), chain[0], k) == chain[k]
  {
    hide l.Clusters, l.Overhead, l.WellFormed, Mounted, NextCluster, EntryWritten;
    MountedIsSpecified(g, l);
    if k > 0 {
      ChainIsFollowed(disk, g, l, chain, k - 1);
      NextIsReadBack(disk, g, l, chain[k - 1], chain[k]);
    }
  }

  /** The driver follows a chain to its end and no further. */
  lemma ChainIsReadBack(disk: Disk, g: Geometry, l: Layout, chain: seq<nat>)
    requires l.WellFormed() && ChainWritten(disk, l, Mounted(g, l).fat32, chain) && chain != []
    ensures Mounted(g, l).bytesPerSector == SECTOR && ChainLength(disk, Mounted(g, l), chain[0], |chain|)
    ensures forall k :: 0 <= k < |chain| ==> Nth(disk, Mounted(g, l), chain[0], k) == chain[k]
  {
    hide l.Clusters, l.Overhead, l.WellFormed, Mounted, NextCluster, EntryWritten;
    MountedIsSpecified(g, l);
    var v, last := Mounted(g, l), |chain| - 1;
    forall k | 0 <= k < |chain|
      ensures Nth(disk, v, chain[0], k) == chain[k] && !Ended(v, chain[k])
    {
      ChainIsFollowed(disk, g, l, chain, k);
      FewClusters(g, l);
    }
    var m: nat :| EntryWritten(disk, l, v.fat32, chain[last], m) && m >= if v.fat32 then 0x0FFF_FFF8 else 0xFFF8;
    NextIsReadBack(disk, g, l, chain[last], m);
  }

  /** Numbers of clusters are below the end marks. */
  lemma FewClusters(g: Geometry, l: Layout)
    requires l.WellFormed()
    ensures l.Clusters() + 2 <= if Mounted(g, l).fat32 then 0x0FFF_FFF6 else 0xFFF7
  {
  }

  // ----- the bytes of a file

  /** Byte `p` of the contents lies in cluster number p / cluster size of the chain, in its place there. */
  ghost predicate ContentWritten(disk: Disk, l: Layout, fat32: bool, chain: seq<nat>, content: seq<Byte>)
  {
    && l.sectorsPerCluster > 0 && |content| <= |chain| * (l.sectorsPerCluster * 512)
    && forall p :: 0 <= p < |content| ==> ByteWritten(disk, l, fat32, chain, p, content[p])
  }

  ghost predicate ByteWritten(disk: Disk, l: Layout, fat32: bool, chain: seq<nat>, p: nat, b: Byte)
    requires l.sectorsPerCluster > 0
  {
    var k, t := p / 512 / l.sectorsPerCluster, p / 512 % l.sectorsPerCluster;
    && k < |chain| && chain[k] >= 2
    && var sector := DataAt(l, fat32) + (chain[k] - 2) * l.sectorsPerCluster + t;
    sector in disk && disk[sector][p % 512] == b
  }

  lemma ByteIsReadBack(disk: Disk, g: Geometry, l: Layout, chain: seq<nat>, p: nat, b: Byte)
    requires l.WellFormed() && ChainWritten(disk, l, Mounted(g, l).fat32, chain) && chain != []
    requires l.sectorsPerCluster > 0 && ByteWritten(disk, l, Mounted(g, l).fat32, chain, p, b)
    ensures Mounted(g, l).bytesPerSector == SECTOR && Mounted(g, l).sectorsPerCluster > 0
    ensures FileByte(disk, Mounted(g, l), chain[0], p) == b && FileSector(disk, Mounted(g, l), chain[0], p / SECTOR) in disk
  {
    hide l.Clusters, l.Overhead, l.WellFormed, Mounted, ClusterSector, DataAt, Nth, ChainWritten, FileSector, FileByte;
    MountedIsSpecified(g, l);
    var k, t := p / 512 / l.sectorsPerCluster, p / 512 % l.sectorsPerCluster;
    ModBelow(p / 512, l.sectorsPerCluster);
    ChainPlace(disk, g, l, chain, k, t);
    PlaceInFile(disk, Mounted(g, l), chain[0], p, chain[k], ClusterSector(Mounted(g, l), chain[k]) + t);
  }

  /** Sector `t` of the `k`-th cluster of a chain. */
  lemma ChainPlace(disk: Disk, g: Geometry, l: Layout, chain: seq<nat>, k: nat, t: nat)
    requires l.WellFormed() && ChainWritten(disk, l, Mounted(g, l).fat32, chain) && k < |chain| && t < l.sectorsPerCluster
    ensures Mounted(g, l).bytesPerSector == SECTOR && Nth(disk, Mounted(g, l), chain[0], k) == chain[k] >= 2
    ensures ClusterSector(Mounted(g, l), chain[k]) + t ==
            DataAt(l, Mounted(g, l).fat32) + (chain[k] - 2) * l.sectorsPerCluster + t < WORD
  {
    hide l.Clusters, l.Overhead, l.WellFormed, Mounted, NextCluster, EntryWritten, EndWritten, ClusterSector, DataAt, Nth;
    ChainIsFollowed(disk, g, l, chain, k);
    ClusterIsSpecified(g, l, chain[k]);
  }

  lemma ModBelow(n: nat, d: nat)
    requires d > 0
    ensures n % d < d
  {
  }

  lemma PlaceInFile(disk: Disk, v: Geometry, first: nat, p: nat, c: nat, at: nat)
    requires v.bytesPerSector == SECTOR && v.sectorsPerCluster > 0 && at < WORD && at in disk
    requires Nth(disk, v, first, p / 512 / v.sectorsPerCluster) == c && at == ClusterSector(v, c) + p / 512 % v.sectorsPerCluster
    ensures FileSector(disk, v, first, p / SECTOR) == at && FileByte(disk, v, first, p) == disk[at][p % 512]
  {
    hide Nth, ClusterSector;
  }

  // ----- a file in a root directory of fixed size

  /** The `s`-th sector of the root directory holds the entry at place `i`, and no sector or place before it the name. */
  ghost predicate FileWritten(disk: Disk, l: Layout, s: nat, i: nat, e: DirEntry)
  {
    && s < RootSectors(l)
    && (forall at :: RootStart(l) <= at <= RootStart(l) + s ==> at in disk)
    && (forall at :: RootStart(l) <= at < RootStart(l) + s ==> NoRecord(disk[at], e.name))
    && Held(disk[RootStart(l) + s], i, e)
  }

  lemma {:induction false} FileIsFoundFrom(disk: Disk, g: Geometry, l: Layout, s: nat, i: nat, e: DirEntry, t: nat)
    requires l.WellFormed() && !Mounted(g, l).fat32 && FileWritten(disk, l, s, i, e) && t <= s
    ensures Lookup(FixedRoot(disk, Mounted(g, l), t), e.name) == Some(e)
    decreases s - t
  {
    hide l.Clusters, l.Overhead, l.WellFormed, Mounted, RootStart, RootSectors, Live, Held, NoRecord, Lookup;
    var v, at := Mounted(g, l), RootStart(l) + t;
    MountedIsSpecified(g, l);
    RootFits(g, l);
    assert (v.rootDirSector + t) % WORD == at;
    LookupConcat(Live(disk[at], 0), FixedRoot(disk, v, t + 1), e.name);
    if t < s {
      FileIsFoundFrom(disk, g, l, s, i, e, t + 1);
      NoRecordIsAbsent(disk[at], e.name);
    } else {
      HeldIsFound(disk[at], i, e);
    }
  }

  lemma RootFits(g: Geometry, l: Layout)
    requires l.WellFormed() && !Mounted(g, l).fat32
    ensures RootStart(l) + RootSectors(l) < WORD
  {
    MountedBounds(g, l);
    MulOrder(0, l.Clusters(), l.sectorsPerCluster);
    MountedIsSpecified(g, l);
  }

  // ----- a file in a root directory that is a chain

  function SectorOf(l: Layout, c: nat, t: nat): int
  {
    DataAt(l, true) + (c - 2) * l.sectorsPerCluster + t
  }

  /** Sector `s` of the `q`-th cluster of the root chain holds the entry at place `i`, and no sector or place before it the
      name. */
  ghost predicate FileWritten32(disk: Disk, l: Layout, root: seq<nat>, q: nat, s: nat, i: nat, e: DirEntry)
  {
    && q < |root| && s < l.sectorsPerCluster
    && (forall j, t: nat :: 0 <= j < q && t < l.sectorsPerCluster ==> Without(disk, SectorOf(l, root[j], t), e.name))
    && (forall t: nat :: t < s ==> Without(disk, SectorOf(l, root[q], t), e.name))
    && 0 <= SectorOf(l, root[q], s) && SectorOf(l, root[q], s) in disk
    && Held(disk[SectorOf(l, root[q], s)], i, e)
  }

  ghost predicate Without(disk: Disk, at: int, name: Name)
  {
    0 <= at && at in disk && NoRecord(disk[at], name)
  }

  /** The clusters of the root chain before the one of the entry hold no such name; that one holds it. */
  lemma {:induction false} InClusterFrom(disk: Disk, v: Geometry, l: Layout, c: nat, first: nat, s: nat, i: nat, e: DirEntry,
                                         found: bool, t: nat)
    requires v.sectorsPerCluster == l.sectorsPerCluster && first == SectorOf(l, c, 0) && first + l.sectorsPerCluster < WORD
    requires t <= s <= l.sectorsPerCluster && forall u: nat :: u < s ==> Without(disk, SectorOf(l, c, u), e.name)
    requires found ==>
               && s < l.sectorsPerCluster && 0 <= SectorOf(l, c, s) && SectorOf(l, c, s) in disk
               && Held(disk[SectorOf(l, c, s)], i, e)
    requires !found ==> s == l.sectorsPerCluster
    ensures Lookup(InCluster(disk, v, first, t), e.name) == if found then Some(e) else None
    decreases s - t
  {
    hide Live, Held, NoRecord, DataAt, Lookup;
    LookupNone(e.name);
    if t < l.sectorsPerCluster {
      var at := first + t;
      assert at == SectorOf(l, c, t) && at % WORD == at;
      hide SectorOf;
      LookupConcat(if at in disk then Live(disk[at], 0) else [], InCluster(disk, v, first, t + 1), e.name);
      if t < s {
        assert Without(disk, SectorOf(l, c, t), e.name);
        InClusterFrom(disk, v, l, c, first, s, i, e, found, t + 1);
        NoRecordIsAbsent(disk[at], e.name);
      } else {
        HeldIsFound(disk[at], i, e);
      }
    }
  }

  lemma InRootCluster(disk: Disk, g: Geometry, l: Layout, root: seq<nat>, q: nat, s: nat, i: nat, e: DirEntry, j: nat)
    requires l.WellFormed() && Mounted(g, l).fat32 && ChainWritten(disk, l, true, root)
    requires FileWritten32(disk, l, root, q, s, i, e) && j <= q
    ensures Lookup(InCluster(disk, Mounted(g, l), ClusterSector(Mounted(g, l), root[j]), 0), e.name) == if j == q then Some(e) else None
  {
    hide l.Clusters, l.Overhead, l.WellFormed, Mounted, ClusterSector, InCluster, Lookup, NoRecord, Held, EntryWritten, Without;
    MountedIsSpecified(g, l);
    ClusterIsSpecified(g, l, root[j]);
    var first := ClusterSector(Mounted(g, l), root[j]);
    InClusterFrom(disk, Mounted(g, l), l, root[j], first, if j == q then s else l.sectorsPerCluster, i, e, j == q, 0);
  }

  lemma {:induction false} FileIsFoundAlong(disk: Disk, g: Geometry, l: Layout, root: seq<nat>, q: nat, s: nat, i: nat, e: DirEntry,
                                            j: nat, n: nat)
    requires l.WellFormed() && Mounted(g, l).fat32 && ChainWritten(disk, l, true, root)
    requires FileWritten32(disk, l, root, q, s, i, e) && j <= q
    requires n > q - j
    ensures Mounted(g, l).bytesPerSector == SECTOR
    ensures Lookup(InChain(disk, Mounted(g, l), root[j], n), e.name) == Some(e)
    ensures SearchEnds(disk, Mounted(g, l), root[j], e.name, n)
    decreases q - j
  {
    hide l.Clusters, l.Overhead, l.WellFormed, Mounted, ClusterSector, InCluster, Lookup, EntryWritten, NextCluster, FileWritten32;
    var v := Mounted(g, l);
    MountedIsSpecified(g, l);
    FewClusters(g, l);
    InRootCluster(disk, g, l, root, q, s, i, e, j);
    ChainStep(disk, l, root, q, s, i, e);
    LookupConcat(InCluster(disk, v, ClusterSector(v, root[j]), 0), InChain(disk, v, NextCluster(disk, v, root[j]), n - 1), e.name);
    if j < q {
      NextIsReadBack(disk, g, l, root[j], root[j + 1]);
      FileIsFoundAlong(disk, g, l, root, q, s, i, e, j + 1, n - 1);
    }
  }

  lemma ChainStep(disk: Disk, l: Layout, root: seq<nat>, q: nat, s: nat, i: nat, e: DirEntry)
    requires FileWritten32(disk, l, root, q, s, i, e)
    ensures q < |root|
  {
  }

  // ----- the whole volume

  /** A disk in whose first sector a volume with 16-bit tables is laid out, with this file in its root directory. */
  ghost predicate Volume16(disk: Disk, l: Layout, s: nat, i: nat, e: DirEntry, chain: seq<nat>, content: seq<Byte>)
  {
    && l.WellFormed() && l.Clusters() < 65525
    && 0 in disk && Boot16(disk[0], l)
    && FileWritten(disk, l, s, i, e)
    && chain != [] && e.firstCluster == chain[0] && e.size == |content|
    && ChainWritten(disk, l, false, chain) && ContentWritten(disk, l, false, chain, content)
  }

  /** What the read delivers from such a chain is the contents. */
  lemma ContentIsReadBack(disk: Disk, g: Geometry, l: Layout, chain: seq<nat>, content: seq<Byte>, want: nat)
    requires l.WellFormed() && chain != [] && want <= |content|
    requires ChainWritten(disk, l, Mounted(g, l).fat32, chain) && ContentWritten(disk, l, Mounted(g, l).fat32, chain, content)
    ensures var v := Mounted(g, l);
            && v.bytesPerSector == SECTOR && v.sectorsPerCluster > 0
            && Available(disk, v, chain[0], want) == want && AllReadable(disk, v, chain[0], want)
            && forall p :: 0 <= p < want ==> FileByte(disk, v, chain[0], p) == content[p]
  {
    hide l.Clusters, l.Overhead, l.WellFormed, Mounted, Available, ChainWritten, ByteWritten, FileByte, FileSector, ChainLength;
    var v := Mounted(g, l);
    MountedIsSpecified(g, l);
    ChainIsReadBack(disk, g, l, chain);
    AvailableIsMinimum(disk, v, chain[0], want, |chain|);
    forall p | 0 <= p < want
      ensures FileByte(disk, v, chain[0], p) == content[p] && FileSector(disk, v, chain[0], p / SECTOR) in disk
    {
      ByteIsReadBack(disk, g, l, chain, p, content[p]);
    }
    forall t: nat | t * SECTOR < want
      ensures FileSector(disk, v, chain[0], t) in disk
    {
      assert t * SECTOR / SECTOR == t;
    }
  }

  /** Mounting such a disk and reading the file by its name: the first bytes of the contents, as many as there are and fit,
      and the rest of the buffer untouched. */
  method MountAndRead(disk: Disk, filename: seq<Byte>, buffer: array<Byte>, maxSize: nat, ghost l: Layout, ghost s: nat, ghost i: nat,
                      ghost e: DirEntry, ghost chain: seq<nat>, ghost content: seq<Byte>)
    returns (ok: bool)
    requires Volume16(disk, l, s, i, e, chain, content)
    requires CString(filename) && FatName(filename) == e.name && maxSize <= buffer.Length
    modifies buffer
    ensures ok && var n := if maxSize < |content| then maxSize else |content|;
                  buffer[..] == content[..n] + old(buffer[n..])
  {
    hide l.Clusters, l.Overhead, l.WellFormed, Boot16, Boot32, LayoutOf, Signed, FileWritten, ChainWritten, ContentWritten, Available,
      AllReadable, FileByte, FileSector, FatName, Lookup, Mounted, FixedRoot, DataAt, Delivered, l.Readable;
    LayoutIsReadBack(disk[0], l);
    var volume := new FatVolume(disk, true);
    ghost var l' := LayoutOf(disk[0]);
    ghost var g := volume.geometry;
    SameButRoot(g, l, l');
    volume.Init();
    ghost var before, done := buffer[..], 0;
    FileIsFoundFrom(disk, g, l, s, i, e, 0);
    ContentIsReadBack(disk, g, l, chain, content, if maxSize < |content| then maxSize else |content|);
    ok, done := volume.ReadFile(filename, buffer, maxSize, 0);
    DeliveredContent(disk, volume.geometry, chain[0], before, buffer[..], done, content);
  }

  lemma DeliveredContent(disk: Disk, g: Geometry, first: nat, before: seq<Byte>, after: seq<Byte>, done: nat, content: seq<Byte>)
    requires g.bytesPerSector == SECTOR && g.sectorsPerCluster > 0 && Delivered(disk, g, first, before, after, done)
    requires done <= |content| && forall p :: 0 <= p < done ==> FileByte(disk, g, first, p) == content[p]
    ensures done <= |before| && after == content[..done] + before[done..]
  {
    hide FileByte, FileSector;
  }

  /** The root cluster plays no part on a volume with 16-bit tables. */
  lemma SameButRoot(g: Geometry, l: Layout, l': Layout)
    requires l.WellFormed() && l.Clusters() < 65525 && l' == l.(rootCluster := l'.rootCluster)
    ensures l'.Readable() && Mounted(g, l') == Mounted(g, l) && !Mounted(g, l).fat32
  {
  }

  lemma IsReadable(l: Layout)
    requires l.WellFormed()
    ensures l.Readable()
  {
  }

  /** The same with 32-bit tables: the root directory is the chain that begins at the root cluster. */
  ghost predicate Volume32(disk: Disk, l: Layout, root: seq<nat>, q: nat, s: nat, i: nat, e: DirEntry, chain: seq<nat>, content: seq<Byte>)
  {
    && l.WellFormed() && l.Clusters() >= 65525 && l.rootEntries == 0
    && 0 in disk && Boot32(disk[0], l)
    && root != [] && l.rootCluster == root[0] && ChainWritten(disk, l, true, root) && FileWritten32(disk, l, root, q, s, i, e)
    && chain != [] && e.firstCluster == chain[0] && e.size == |content|
    && ChainWritten(disk, l, true, chain) && ContentWritten(disk, l, true, chain, content)
  }

  method MountAndRead32(disk: Disk, filename: seq<Byte>, buffer: array<Byte>, maxSize: nat, ghost l: Layout, ghost root: seq<nat>,
                        ghost q: nat, ghost s: nat, ghost i: nat, ghost e: DirEntry, ghost chain: seq<nat>, ghost content: seq<Byte>)
    returns (ok: bool)
    requires Volume32(disk, l, root, q, s, i, e, chain, content)
    requires CString(filename) && FatName(filename) == e.name && maxSize <= buffer.Length
    modifies buffer
    ensures ok && var n := if maxSize < |content| then maxSize else |content|;
                  buffer[..] == content[..n] + old(buffer[n..])
  {
    hide l.Clusters, l.Overhead, l.WellFormed, Boot16, Boot32, LayoutOf, Signed, FileWritten32, ChainWritten, ContentWritten, Available,
      AllReadable, FileByte, FileSector, FatName, Lookup, SearchEnds, Mounted, InChain, DataAt,
      Delivered, l.Readable;
    LayoutIsReadBack(disk[0], l);
    var volume := new FatVolume(disk, true);
    ghost var g := volume.geometry;
    MountedIsSpecified(g, l);
    IsReadable(l);
    volume.Init();
    ghost var before, done := buffer[..], 0;
    FileIsFoundAlong(disk, g, l, root, q, s, i, e, 0, q + 1);
    ContentIsReadBack(disk, g, l, chain, content, if maxSize < |content| then maxSize else |content|);
    ok, done := volume.ReadFile(filename, buffer, maxSize, q + 1);
    DeliveredContent(disk, volume.geometry, chain[0], before, buffer[..], done, content);
  }
}
