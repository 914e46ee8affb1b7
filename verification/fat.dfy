/** File names, geometry and reading of a FAT volume (fat.cpp). */
module Fat {
  import opened Types

  const SECTOR: nat := 512
  const WORD: nat := 0x1_0000_0000
  const SPACE: Byte := 32
  const DOT: Byte := 46

  type Sector = s: seq<Byte> | |s| == SECTOR witness seq(SECTOR, _ => 0)

  /** The sectors that ata_read_sectors can read. */
  type Disk = map<nat, Sector>

  // ----- names of eleven bytes

  function Upper(c: Byte): Byte
  {
    if 97 <= c <= 122 then c - 32 else c
  }

  function UpperText(s: seq<Byte>): (r: seq<Byte>)
    ensures |r| == |s|
  {
    seq(|s|, k requires 0 <= k < |s| => Upper(s[k]))
  }

  function Pad(s: seq<Byte>, n: nat): (r: seq<Byte>)
    ensures |r| == n
  {
    seq(n, k requires 0 <= k < n => if k < |s| then s[k] else SPACE)
  }

  /** A string of C: it ends at its first zero. */
  predicate CString(s: seq<Byte>)
  {
    0 !in s
  }

  /** How much of a text goes to the first field: up to its first dot, at most eight characters. */
  function BaseLength(src: seq<Byte>, n: nat): (r: nat)
    requires n <= 8 && n <= |src|
    requires DOT !in src[..n]
    ensures n <= r <= 8 && r <= |src| && DOT !in src[..r]
    ensures r < 8 && r < |src| ==> src[r] == DOT
    decreases 8 - n
  {
    if n < 8 && n < |src| && src[n] != DOT then
      assert src[..n + 1] == src[..n] + [src[n]];
      BaseLength(src, n + 1)
    else n
  }

  function Base(src: seq<Byte>): seq<Byte>
  {
    src[..BaseLength(src, 0)]
  }

  /** The three characters after the dot that ends the first field; none when something else ends it. */
  function Extension(src: seq<Byte>): seq<Byte>
  {
    var b := BaseLength(src, 0);
    if b < |src| && src[b] == DOT then
      var rest := src[b + 1..];
      if |rest| > 3 then rest[..3] else rest
    else []
  }

  function FatName(src: seq<Byte>): (r: seq<Byte>)
    ensures |r| == 11
  {
    Pad(UpperText(Base(src)), 8) + Pad(UpperText(Extension(src)), 3)
  }

  /** to_fat_name. */
  method ToFatName(src: seq<Byte>) returns (dest: array<Byte>)
    requires CString(src)
    ensures fresh(dest) && dest.Length == 11 && dest[..] == FatName(src)
  {
    dest := new Byte[11](_ => SPACE);
    var i, d := 0, 0;
    while i < |src| && src[i] != DOT && d < 8
      invariant i == d <= 8 && d <= |src| && DOT !in src[..i]
      invariant forall k :: 0 <= k < 11 ==> dest[k] == if k < d then Upper(src[k]) else SPACE
      decreases 8 - d
    {
      hide Upper;
      assert src[..i + 1] == src[..i] + [src[i]];
      dest[d] := Upper(src[i]);
      d := d + 1;
      i := i + 1;
    }
    FieldsEnd(src, i);
    assert dest[..8] == Pad(UpperText(src[..i]), 8);
    assert dest[8..] == Pad(UpperText([]), 3);
    if i < |src| && src[i] == DOT {
      FillExtension(src, i + 1, dest);
    }
    assert dest[..] == dest[..8] + dest[8..];
  }

  /** The part of to_fat_name after the dot. */
  method FillExtension(src: seq<Byte>, start: nat, dest: array<Byte>)
    requires start <= |src| && dest.Length == 11 && forall k :: 8 <= k < 11 ==> dest[k] == SPACE
    modifies dest
    ensures dest[..8] == old(dest[..8])
    ensures dest[8..] == Pad(UpperText(if |src[start..]| > 3 then src[start..][..3] else src[start..]), 3)
  {
    var i, d := start, 8;
    while i < |src| && d < 11
      invariant 8 <= d <= 11 && i == start + (d - 8) <= |src|
      invariant forall k :: 0 <= k < 8 ==> dest[k] == old(dest[k])
      invariant forall k :: 8 <= k < 11 ==> dest[k] == if k < d then Upper(src[start + k - 8]) else SPACE
    {
      dest[d] := Upper(src[i]);
      d := d + 1;
      i := i + 1;
    }
  }

  lemma BaseEnds(src: seq<Byte>, n: nat)
    requires n <= 8 && n <= |src| && DOT !in src[..n]
    requires n == 8 || n == |src| || src[n] == DOT
    ensures BaseLength(src, 0) == n
  {
    var r := BaseLength(src, 0);
    assert forall k :: 0 <= k < n ==> src[..n][k] == src[k];
    assert forall k :: 0 <= k < r ==> src[..r][k] == src[k];
  }

  /** What the two fields hold when the scan for the dot has stopped at `n`. */
  lemma FieldsEnd(src: seq<Byte>, n: nat)
    requires n <= 8 && n <= |src| && DOT !in src[..n]
    requires n == 8 || n == |src| || src[n] == DOT
    ensures Base(src) == src[..n]
    ensures Extension(src) ==
            if n < |src| && src[n] == DOT then (if |src[n + 1..]| > 3 then src[n + 1..][..3] else src[n + 1..]) else []
  {
    BaseEnds(src, n);
  }

  /** The letters, and what becomes of every byte. */
  lemma UpperInBytes(c: Byte)
    ensures 'a' as nat <= c <= 'z' as nat ==> Upper(c) - 'A' as nat == c - 'a' as nat
    ensures c < 'a' as nat || c > 'z' as nat ==> Upper(c) == c
  {
  }

  /** A typed text in the eleven bytes of a name: up to eight characters before the first dot, up to three after it, in
      capitals, with spaces behind both; without a dot in one of the first nine places there is no extension. */
  lemma NameInBytes(src: seq<Byte>, n: nat)
    requires n <= 8 && n <= |src| && DOT !in src[..n]
    requires n == 8 || n == |src| || src[n] == 46
    ensures forall k :: 0 <= k < 8 ==> FatName(src)[k] == if k < n then Upper(src[k]) else 32
    ensures forall k :: 8 <= k < 11 ==>
              FatName(src)[k] == if n < |src| && src[n] == 46 && n + k - 7 < |src| then Upper(src[n + k - 7]) else 32
  {
    hide Upper;
    FieldsEnd(src, n);
  }

  /** Case makes no difference. */
  lemma CaseDoesNotMatter(a: seq<Byte>, b: seq<Byte>)
    requires UpperText(a) == UpperText(b)
    ensures FatName(a) == FatName(b)
  {
    assert |a| == |b|;
    forall k | 0 <= k < |a|
      ensures Upper(a[k]) == Upper(b[k])
      ensures a[k] == DOT <==> b[k] == DOT
    {
      assert UpperText(a)[k] == UpperText(b)[k];
    }
    var n := BaseLength(a, 0);
    assert forall k :: 0 <= k < n ==> a[..n][k] != DOT;
    BaseEnds(b, n);
    assert UpperText(Base(a)) == UpperText(Base(b));
    assert UpperText(Extension(a)) == UpperText(Extension(b));
  }

  // ----- the text that fat_list_root prints

  function Solid(s: seq<Byte>): (r: seq<Byte>)
    ensures |r| <= |s| && SPACE !in r
    ensures forall x :: x in r ==> x in s
    ensures forall x :: x in s && x != SPACE ==> x in r
  {
    if s == [] then [] else (if s[0] == SPACE then [] else [s[0]]) + Solid(s[1..])
  }

  function Printed(name: seq<Byte>, isDir: bool): seq<Byte>
    requires |name| == 11
  {
    Solid(name[..8]) + (if isDir then [] else [DOT]) + Solid(name[8..])
  }

  /** The loop of fat_list_root that prints a name. */
  method PrintName(name: seq<Byte>, attr: Byte) returns (text: seq<Byte>)
    requires |name| == 11
    ensures text == Printed(name, (attr / 16) % 2 == 1)
  {
    hide Solid, PrintedTo, Printed;
    text := [];
    var isDir := (attr / 16) % 2 == 1;
    PrintEnds(name, isDir);
    for c := 0 to 11
      invariant text == PrintedTo(name, isDir, c)
    {
      PrintStep(name, isDir, c);
      if c == 8 && !isDir {
        text := text + [DOT];
      }
      if name[c] != SPACE {
        text := text + [name[c]];
      }
    }
  }

  /** What has been printed before character `c`. */
  function PrintedTo(name: seq<Byte>, isDir: bool, c: nat): seq<Byte>
    requires |name| == 11 && c <= 11
  {
    if c <= 8 then Solid(name[..c])
    else Solid(name[..8]) + (if isDir then [] else [DOT]) + Solid(name[8..c])
  }

  lemma PrintStep(name: seq<Byte>, isDir: bool, c: nat)
    requires |name| == 11 && c < 11
    ensures PrintedTo(name, isDir, c + 1) ==
            PrintedTo(name, isDir, c) + (if c == 8 && !isDir then [DOT] else []) + (if name[c] != SPACE then [name[c]] else [])
  {
    hide Solid;
    SolidNone();
    if c < 8 {
      SolidMore(name[..c], name[c]);
      assert name[..c + 1] == name[..c] + [name[c]];
    } else {
      SolidMore(name[8..c], name[c]);
      assert name[8..c + 1] == name[8..c] + [name[c]];
    }
  }

  lemma PrintEnds(name: seq<Byte>, isDir: bool)
    requires |name| == 11
    ensures PrintedTo(name, isDir, 0) == [] && PrintedTo(name, isDir, 11) == Printed(name, isDir)
  {
    assert name[8..11] == name[8..];
  }

  lemma SolidNone()
    ensures Solid([]) == []
  {
  }

  lemma {:induction false} SolidMore(s: seq<Byte>, x: Byte)
    ensures Solid(s + [x]) == Solid(s) + if x != SPACE then [x] else []
  {
    if s == [] {
      assert [x][1..] == [];
    } else {
      SolidMore(s[1..], x);
      assert (s + [x])[0] == s[0] && (s + [x])[1..] == s[1..] + [x];
      assert Solid(s + [x]) == (if s[0] == SPACE then [] else [s[0]]) + Solid(s[1..] + [x]);
    }
  }

  /** Spaces only at the end. */
  predicate Padded(s: seq<Byte>)
  {
    forall j, k :: 0 <= j < k < |s| && s[j] == SPACE ==> s[k] == SPACE
  }

  predicate NoLower(s: seq<Byte>)
  {
    forall k :: 0 <= k < |s| ==> Upper(s[k]) == s[k]
  }

  lemma {:induction false} PaddedIsPad(s: seq<Byte>)
    ensures Padded(s) <==> Pad(Solid(s), |s|) == s
  {
    if s == [] {
    } else if s[0] != SPACE {
      PaddedIsPad(s[1..]);
      assert Solid(s) == [s[0]] + Solid(s[1..]);
      assert Pad(Solid(s), |s|) == [s[0]] + Pad(Solid(s[1..]), |s| - 1);
      assert s == [s[0]] + s[1..];
      assert Padded(s) <==> Padded(s[1..]) by {
        assert forall k :: 0 < k < |s| ==> s[k] == s[1..][k - 1];
      }
    } else if Padded(s) {
      assert forall k :: 0 <= k < |s| ==> s[k] == SPACE;
      NothingSolid(s);
    } else {
      var k :| 0 <= k < |s| && s[k] != SPACE;
      assert s[k] in Solid(s);
      assert Pad(Solid(s), |s|)[0] == Solid(s)[0];
    }
  }

  lemma NothingSolid(s: seq<Byte>)
    requires forall k :: 0 <= k < |s| ==> s[k] == SPACE
    ensures Solid(s) == []
  {
  }

  lemma UpperPad(s: seq<Byte>, n: nat)
    ensures Pad(UpperText(s), n) == UpperText(Pad(s, n))
  {
  }

  /** One field survives printing and reading back exactly when it has no lower-case letter and only padding
      spaces. */
  lemma FieldRoundTrip(f: seq<Byte>)
    ensures Pad(UpperText(Solid(f)), |f|) == f <==> Padded(f) && NoLower(f)
  {
    hide Solid;
    PaddedIsPad(f);
    var s := Solid(f);
    UpperPad(s, |f|);
    if NoLower(f) {
      assert forall k :: 0 <= k < |s| ==> s[k] in f;
      assert UpperText(s) == s;
    } else if Pad(UpperText(s), |f|) == f {
      UpperTwice(Pad(s, |f|));
    }
  }

  lemma UpperTwice(s: seq<Byte>)
    ensures NoLower(UpperText(s))
  {
  }

  lemma LowerInFields(name: seq<Byte>)
    requires |name| == 11
    ensures NoLower(name) <==> NoLower(name[..8]) && NoLower(name[8..])
  {
    assert forall k :: 0 <= k < 8 ==> name[k] == name[..8][k];
    assert forall k :: 8 <= k < 11 ==> name[k] == name[8..][k - 8];
  }

  /** The name of a file entry, without zeros, printed and read back: exactly the canonical ones come back. */
  lemma NameRoundTrip(name: seq<Byte>)
    requires |name| == 11 && CString(name)
    ensures FatName(Printed(name, false)) == name <==>
            DOT !in name[..8] && Padded(name[..8]) && Padded(name[8..]) && NoLower(name)
  {
    hide Padded, Solid;
    var base, ext := Solid(name[..8]), Solid(name[8..]);
    var text := Printed(name, false);
    FieldRoundTrip(name[..8]);
    FieldRoundTrip(name[8..]);
    assert name == name[..8] + name[8..];
    LowerInFields(name);
    hide NoLower;
    if DOT in name[..8] {
      DottedBase(name, false);
    } else {
      assert DOT !in base;
      assert text[..|base|] == base && text[|base|] == DOT;
      BaseEnds(text, |base|);
      assert Base(text) == base && Extension(text) == ext;
    }
  }

  /** Two fields without spaces inside, each padded with spaces, are shown with a dot between them, which a directory does
      not get. */
  lemma PrintedInBytes(name: seq<Byte>, base: seq<Byte>, ext: seq<Byte>, isDir: bool)
    requires |base| <= 8 && |ext| <= 3 && 32 !in base && 32 !in ext
    requires name == base + seq(8 - |base|, _ => 32) + ext + seq(3 - |ext|, _ => 32)
    ensures Printed(name, isDir) == base + (if isDir then [] else [46]) + ext
  {
    assert name[..8] == base + seq(8 - |base|, _ => 32) && name[8..] == ext + seq(3 - |ext|, _ => 32);
    SolidField(base, 8 - |base|);
    SolidField(ext, 3 - |ext|);
  }

  lemma {:induction false} SolidField(s: seq<Byte>, n: nat)
    requires 32 !in s
    ensures Solid(s + seq(n, _ => 32)) == s
  {
    if s == [] {
      NothingSolid(seq(n, _ => 32));
      assert s + seq(n, _ => 32) == seq(n, _ => 32);
    } else {
      assert (s + seq(n, _ => 32))[1..] == s[1..] + seq(n, _ => 32);
      SolidField(s[1..], n);
    }
  }

  /** A name in lower case comes back in upper case. */
  lemma LowerCaseIsLost()
    ensures var name: Name := [97] + seq(10, _ => SPACE);
            CString(name) && FatName(Printed(name, false)) != name
  {
    var name := [97] + seq(10, _ => SPACE);
    NameRoundTrip(name);
    assert Upper(name[0]) != name[0];
  }

  /** A dot in the first field is taken for the end of that field. */
  lemma DottedBase(name: seq<Byte>, isDir: bool)
    requires |name| == 11 && DOT in name[..8]
    ensures FatName(Printed(name, isDir)) != name
  {
    var text := Printed(name, isDir);
    var r := FatName(text);
    forall k | 0 <= k < 8
      ensures r[k] != DOT
    {
      assert k < |Base(text)| ==> Base(text)[k] != DOT && r[k] == Upper(Base(text)[k]);
    }
    var k :| 0 <= k < 8 && name[..8][k] == DOT;
    assert name[k] == DOT;
  }

  /** The name of a directory is printed without a dot, so it only comes back when it has no extension. */
  lemma DirectoryNameRoundTrip(name: seq<Byte>)
    requires |name| == 11 && CString(name)
    ensures FatName(Printed(name, true)) == name <==>
            DOT !in name[..8] && Padded(name[..8]) && NoLower(name[..8]) && Solid(name[8..]) == []
  {
    hide Solid;
    var base, ext := Solid(name[..8]), Solid(name[8..]);
    var text := Printed(name, true);
    assert text == base + ext;
    FieldRoundTrip(name[..8]);
    PaddedIsPad(name[8..]);
    assert name == name[..8] + name[8..];
    if DOT in name[..8] {
      DottedBase(name, true);
    } else if ext == [] {
      assert text == base && DOT !in base;
      BaseEnds(text, |base|);
      assert Base(text) == base && Extension(text) == [];
      Blank(name[8..]);
    } else {
      SolidPad(UpperText(Base(text)), 8);
      SolidPad(UpperText(Extension(text)), 3);
      assert FatName(text)[..8] == Pad(UpperText(Base(text)), 8) && FatName(text)[8..] == Pad(UpperText(Extension(text)), 3);
    }
  }

  lemma Blank(f: seq<Byte>)
    requires Solid(f) == []
    ensures f == Pad(UpperText([]), |f|)
  {
    hide Solid;
    assert forall k :: 0 <= k < |f| ==> f[k] in f;
  }

  lemma {:induction false} SolidPad(s: seq<Byte>, n: nat)
    ensures |Solid(Pad(s, n))| <= |s|
    decreases n
  {
    if n == 0 {
    } else if s == [] {
      NothingSolid(Pad(s, n));
    } else {
      SolidPad(s[1..], n - 1);
      assert Pad(s, n)[1..] == Pad(s[1..], n - 1);
    }
  }

  // ----- geometry

  /** What fat_init takes from the boot sector. */
  datatype Layout = Layout(bytesPerSector: nat, sectorsPerCluster: nat, reserved: nat, fatCount: nat, rootEntries: nat,
                           totalSectors: nat, sectorsPerFat: nat, rootCluster: nat)
  {
    /** The code needs sectors of 512 bytes, which is the size of its buffers. */
    predicate Readable()
    {
      bytesPerSector == SECTOR && sectorsPerCluster > 0
    }

    function RootDirSectors(): nat
    {
      if bytesPerSector == 0 then 0 else (rootEntries * 32 + (bytesPerSector - 1)) / bytesPerSector
    }

    /** Sectors in front of the data, on a volume with a fixed root directory. */
    function Overhead(): nat
    {
      reserved + fatCount * sectorsPerFat + RootDirSectors()
    }

    /** The number of clusters as fat_init computes it, in 32 bits. */
    function Clusters(): nat
    {
      if sectorsPerCluster == 0 then 0 else ((totalSectors - Overhead()) % WORD) / sectorsPerCluster
    }

    function EntryWidth(): nat
    {
      if Clusters() >= 65525 then 4 else 2
    }

    /** A volume whose parts fit into it and whose first table has an entry for every cluster. */
    predicate WellFormed()
    {
      && Readable() && totalSectors < WORD && Overhead() <= totalSectors
      && fatCount > 0 && Clusters() <= 0x0FFF_FFF4
      && (Clusters() + 2) * EntryWidth() <= sectorsPerFat * SECTOR
    }
  }

  predicate Signed(boot: Sector)
  {
    boot[510] == 0x55 && boot[511] == 0xAA
  }

  function LayoutOf(boot: Sector): Layout
  {
    Layout(U16(boot, 11), boot[13], U16(boot, 14), boot[16], U16(boot, 17),
           if U16(boot, 19) != 0 then U16(boot, 19) else U32(boot, 32),
           if U16(boot, 22) != 0 then U16(boot, 22) else U32(boot, 36),
           U32(boot, 44))
  }

  /** The number of bits of a table entry, from the count of clusters: section 3.5 of the Microsoft FAT
      Specification. */
  function SpecifiedBits(clusters: nat): nat
  {
    if clusters < 4085 then 12 else if clusters < 65525 then 16 else 32
  }

  /** The code knows no 12-bit tables, and agrees with the specification on all other volumes. */
  lemma WidthIsSpecified(l: Layout)
    ensures 8 * l.EntryWidth() == SpecifiedBits(l.Clusters()) <==> l.Clusters() >= 4085
  {
  }

  /** A floppy of 2847 clusters is read with entries of 16 bits instead of 12. */
  lemma FloppyIsMisread()
    ensures var l := Layout(SECTOR, 1, 1, 2, 224, 2880, 9, 0);
            l.Clusters() == 2847 && 8 * l.EntryWidth() == 16 && SpecifiedBits(l.Clusters()) == 12
  {
  }

  /** The globals that fat_init sets. */
  datatype Geometry = Geometry(fat32: bool, bytesPerSector: nat, sectorsPerCluster: nat, reserved: nat, fatCount: nat,
                               sectorsPerFat: nat, rootDirSector: nat, rootDirSectors: nat, dataSector: nat, rootCluster: nat)

  /** The globals after fat_init has accepted a boot sector; one of them keeps its former value. */
  function Mounted(g: Geometry, l: Layout): Geometry
  {
    var fats := (l.reserved + (l.fatCount * l.sectorsPerFat) % WORD) % WORD;
    if l.Clusters() >= 65525 then
      Geometry(true, l.bytesPerSector, l.sectorsPerCluster, l.reserved, l.fatCount, l.sectorsPerFat,
               g.rootDirSector, l.RootDirSectors(), fats, l.rootCluster)
    else
      Geometry(false, l.bytesPerSector, l.sectorsPerCluster, l.reserved, l.fatCount, l.sectorsPerFat,
               fats, l.RootDirSectors(), (fats + l.RootDirSectors()) % WORD, g.rootCluster)
  }

  /** get_cluster_sector, in 32 bits. */
  function ClusterSector(g: Geometry, cluster: nat): (r: nat)
    ensures r < WORD
  {
    (g.dataSector + (((cluster - 2) % WORD) * g.sectorsPerCluster) % WORD) % WORD
  }

  /** Where the data of a volume starts: behind the tables, and the root directory if it is a fixed one. */
  function DataStart(v: Geometry): nat
  {
    v.reserved + v.fatCount * v.sectorsPerFat + if v.fat32 then 0 else v.rootDirSectors
  }

  lemma MountedBounds(g: Geometry, l: Layout)
    requires l.WellFormed()
    ensures var v := Mounted(g, l);
            && v.dataSector == DataStart(v)
            && v.dataSector + l.Clusters() * v.sectorsPerCluster <= l.totalSectors < WORD
            && (!v.fat32 ==> v.rootDirSector == v.reserved + v.fatCount * v.sectorsPerFat)
  {
    MulOrder(0, l.fatCount, l.sectorsPerFat);
    SumNoWrap(l.reserved, l.fatCount * l.sectorsPerFat, l.RootDirSectors());
    ClustersFit(l);
    hide l.RootDirSectors, l.Clusters;
  }

  lemma SumNoWrap(a: nat, b: nat, c: nat)
    requires a + b + c < WORD
    ensures (a + b % WORD) % WORD == a + b && (a + b + c) % WORD == a + b + c
  {
  }

  lemma ClustersFit(l: Layout)
    requires l.Readable() && l.Overhead() <= l.totalSectors < WORD
    ensures l.Clusters() * l.sectorsPerCluster <= l.totalSectors - l.Overhead()
  {
    var n := l.totalSectors - l.Overhead();
    hide l.Overhead;
    assert n % WORD == n;
    DivMul(n, l.sectorsPerCluster);
  }

  lemma DivMul(n: nat, d: nat)
    requires d > 0
    ensures (n / d) * d <= n && n / d <= n
  {
    assert n == d * (n / d) + n % d;
    MulOrder(1, d, n / d);
  }

  lemma MulStep(x: nat, z: nat)
    ensures (x + 1) * z == x * z + z && x * z >= 0
  {
  }

  lemma NoWrap(x: nat, d: nat, s: nat)
    requires d > 0 && s + x * d < WORD
    ensures x < WORD && (s + ((x % WORD) * d) % WORD) % WORD == s + x * d
  {
    MulOrder(1, d, x);
    assert d * x == x * d;
  }

  lemma ClusterPlace(g: Geometry, l: Layout, c: nat)
    requires l.WellFormed() && c < l.Clusters()
    ensures var v := Mounted(g, l);
            && ClusterSector(v, c + 2) == v.dataSector + c * v.sectorsPerCluster
            && v.dataSector + c * v.sectorsPerCluster + v.sectorsPerCluster <= l.totalSectors
  {
    hide l.Clusters, l.Overhead;
    var v := Mounted(g, l);
    MountedBounds(g, l);
    MulOrder(c + 1, l.Clusters(), v.sectorsPerCluster);
    MulStep(c, v.sectorsPerCluster);
    NoWrap(c, v.sectorsPerCluster, v.dataSector);
  }

  /** Different clusters share no sector; all their sectors lie behind the tables and the root directory, and inside
      the volume. */
  lemma ClustersAreApart(g: Geometry, l: Layout, c: nat, d: nat)
    requires l.WellFormed() && 2 <= c < d < l.Clusters() + 2
    ensures var v := Mounted(g, l);
            && DataStart(v) <= ClusterSector(v, c)
            && ClusterSector(v, c) + v.sectorsPerCluster <= ClusterSector(v, d)
            && ClusterSector(v, d) + v.sectorsPerCluster <= l.totalSectors
  {
    hide Mounted, ClusterSector, DataStart, l.WellFormed, l.Clusters;
    var v := Mounted(g, l);
    MountedBounds(g, l);
    ClusterPlace(g, l, c - 2);
    ClusterPlace(g, l, d - 2);
    MulOrder(c - 1, d - 2, v.sectorsPerCluster);
    MulStep(c - 2, v.sectorsPerCluster);
  }

  // ----- the table

  function Width(g: Geometry): nat
  {
    if g.fat32 then 4 else 2
  }

  /** The sector of the table entry of a cluster, and the place of the entry in it. */
  function EntrySector(g: Geometry, cluster: nat): nat
    requires g.bytesPerSector > 0
  {
    (g.reserved + ((cluster * Width(g)) % WORD) / g.bytesPerSector) % WORD
  }

  function EntryOffset(g: Geometry, cluster: nat): (r: nat)
    requires g.bytesPerSector > 0
    ensures g.bytesPerSector == SECTOR ==> r + Width(g) <= SECTOR
  {
    OffsetFits(cluster, Width(g));
    ((cluster * Width(g)) % WORD) % g.bytesPerSector
  }

  lemma OffsetFits(c: nat, w: nat)
    requires w == 2 || w == 4
    ensures ((c * w) % WORD) % SECTOR + w <= SECTOR
  {
    var n := c * w;
    var q := n / WORD;
    var x := n % WORD;
    assert n == WORD * q + x;
    var y := x % SECTOR;
    assert x == SECTOR * (x / SECTOR) + y;
    if w == 2 {
      assert y == 2 * (c - 0x8000_0000 * q - 256 * (x / SECTOR));
    } else {
      assert y == 4 * (c - 0x4000_0000 * q - 128 * (x / SECTOR));
    }
  }

  /** The entry of every cluster lies inside the first table and inside one sector, and different clusters have
      different entries: section 4.1 of the Microsoft FAT Specification. */
  lemma EntriesAreInFirstTable(g: Geometry, l: Layout, c: nat)
    requires l.WellFormed() && c < l.Clusters() + 2
    ensures var v := Mounted(g, l);
            && v.bytesPerSector == SECTOR
            && v.reserved <= EntrySector(v, c) < v.reserved + v.sectorsPerFat
            && EntryOffset(v, c) + Width(v) <= SECTOR
            && (EntrySector(v, c) - v.reserved) * SECTOR + EntryOffset(v, c) == c * Width(v)
  {
    hide l.Clusters, l.Overhead;
    var v := Mounted(g, l);
    MountedBounds(g, l);
    MulOrder(1, l.fatCount, l.sectorsPerFat);
    MulOrder(0, l.Clusters(), l.sectorsPerCluster);
    EntryPlace(c, Width(v), v.reserved, v.sectorsPerFat, l.Clusters());
  }

  lemma EntryPlace(c: nat, w: nat, reserved: nat, size: nat, clusters: nat)
    requires (w == 2 || w == 4) && c < clusters + 2 && (clusters + 2) * w <= size * SECTOR
    requires clusters <= 0x0FFF_FFF4 && reserved + size < WORD
    ensures var off := (c * w) % WORD;
            && (reserved + off / SECTOR) % WORD == reserved + off / SECTOR < reserved + size
            && off % SECTOR + w <= SECTOR
            && (off / SECTOR) * SECTOR + off % SECTOR == c * w
  {
    var n := c * w;
    assert n + w <= size * SECTOR by {
      MulOrder(c + 1, clusters + 2, w);
      assert (c + 1) * w == n + w;
    }
    assert n < WORD by {
      MulOrder(c, 0x1000_0000, w);
    }
    OffsetFits(c, w);
    SectorPlace(n, w, size);
  }

  lemma SectorPlace(n: nat, w: nat, size: nat)
    requires n + w <= size * SECTOR && w > 0
    ensures n / SECTOR < size && n / SECTOR * SECTOR + n % SECTOR == n
  {
  }

  predicate Ended(g: Geometry, cluster: nat)
  {
    cluster == 0 || cluster >= if g.fat32 then 0x0FFF_FFF8 else 0xFFF8
  }

  /** get_next_cluster; an unreadable table ends every chain. */
  function NextCluster(disk: Disk, g: Geometry, cluster: nat): (r: nat)
    requires g.bytesPerSector == SECTOR
  {
    if EntrySector(g, cluster) !in disk then (if g.fat32 then 0x0FFF_FFFF else 0xFFFF)
    else if g.fat32 then U32(disk[EntrySector(g, cluster)], EntryOffset(g, cluster)) % 0x1000_0000
    else U16(disk[EntrySector(g, cluster)], EntryOffset(g, cluster))
  }

  // ----- directories

  type Name = s: seq<Byte> | |s| == 11 witness seq(11, _ => SPACE)

  datatype DirEntry = DirEntry(name: Name, attr: Byte, firstCluster: nat, size: nat)

  function EntryAt(sector: Sector, i: nat): DirEntry
    requires i < 16
  {
    DirEntry(sector[32 * i..32 * i + 11], sector[32 * i + 11],
             U16(sector, 32 * i + 20) * 65536 + U16(sector, 32 * i + 26), U32(sector, 32 * i + 28))
  }

  /** The entries of a sector from the `i`-th on, without the deleted ones, up to the end mark. */
  function Live(sector: Sector, i: nat): seq<DirEntry>
    requires i <= 16
    decreases 16 - i
  {
    if i == 16 || sector[32 * i] == 0 then []
    else (if sector[32 * i] == 0xE5 then [] else [EntryAt(sector, i)]) + Live(sector, i + 1)
  }

  /** The first entry with this name. */
  function Lookup(entries: seq<DirEntry>, name: seq<Byte>): (r: Option<DirEntry>)
    ensures r.Some? ==> r.value in entries && r.value.name == name
    ensures r.None? ==> forall e :: e in entries ==> e.name != name
  {
    if entries == [] then None
    else if entries[0].name == name then Some(entries[0])
    else Lookup(entries[1..], name)
  }

  lemma {:induction false} LookupConcat(a: seq<DirEntry>, b: seq<DirEntry>, name: seq<Byte>)
    ensures Lookup(a + b, name) == if Lookup(a, name).Some? then Lookup(a, name) else Lookup(b, name)
  {
    if a == [] {
      assert a + b == b;
    } else {
      assert (a + b)[0] == a[0] && (a + b)[1..] == a[1..] + b;
      LookupConcat(a[1..], b, name);
    }
  }

  /** A fixed root directory from its `s`-th sector on; it ends at the first sector that cannot be read. */
  function FixedRoot(disk: Disk, g: Geometry, s: nat): seq<DirEntry>
    decreases g.rootDirSectors - s
  {
    var at := (g.rootDirSector + s) % WORD;
    if s >= g.rootDirSectors || at !in disk then []
    else Live(disk[at], 0) + FixedRoot(disk, g, s + 1)
  }

  /** The entries in one cluster, from its `s`-th sector on; an unreadable sector hides the rest of the cluster. */
  function InCluster(disk: Disk, g: Geometry, first: nat, s: nat): seq<DirEntry>
    decreases g.sectorsPerCluster - s
  {
    var at := (first + s) % WORD;
    if s >= g.sectorsPerCluster || at !in disk then []
    else Live(disk[at], 0) + InCluster(disk, g, first, s + 1)
  }

  const ROOT_END: nat := 0x0FFF_FFF8

  /** The entries in the first `n` clusters of a directory. */
  function InChain(disk: Disk, g: Geometry, cluster: nat, n: nat): seq<DirEntry>
    requires g.bytesPerSector == SECTOR
    decreases n
  {
    if n == 0 || cluster >= ROOT_END then []
    else InCluster(disk, g, ClusterSector(g, cluster), 0) + InChain(disk, g, NextCluster(disk, g, cluster), n - 1)
  }

  /** The search of a directory ends, by its name or by the end of the chain, within `n` clusters. On a chain that
      closes on itself the search for a missing name does not end. */
  ghost predicate SearchEnds(disk: Disk, g: Geometry, cluster: nat, name: seq<Byte>, n: nat)
    requires g.bytesPerSector == SECTOR
    decreases n
  {
    cluster >= ROOT_END || (n > 0 &&
    (Lookup(InCluster(disk, g, ClusterSector(g, cluster), 0), name).Some? || SearchEnds(disk, g, NextCluster(disk, g, cluster), name, n - 1)))
  }

  ghost predicate FindEnds(disk: Disk, g: Geometry, name: seq<Byte>, n: nat)
    requires g.bytesPerSector == SECTOR
  {
    g.fat32 ==> SearchEnds(disk, g, g.rootCluster, name, n)
  }

  /** The root directory, as far as `n` clusters go. */
  function Root(disk: Disk, g: Geometry, n: nat): seq<DirEntry>
    requires g.bytesPerSector == SECTOR
  {
    if g.fat32 then InChain(disk, g, g.rootCluster, n) else FixedRoot(disk, g, 0)
  }

  /** Where a search that ends finds a name does not depend on how far it is allowed to go. */
  lemma {:induction false} FindIsIndependent(disk: Disk, g: Geometry, cluster: nat, name: seq<Byte>, n: nat, m: nat)
    requires g.bytesPerSector == SECTOR && SearchEnds(disk, g, cluster, name, n) && n <= m
    ensures Lookup(InChain(disk, g, cluster, m), name) == Lookup(InChain(disk, g, cluster, n), name)
    decreases n
  {
    hide InCluster, ClusterSector, NextCluster, Lookup;
    if cluster < ROOT_END {
      var here, next := InCluster(disk, g, ClusterSector(g, cluster), 0), NextCluster(disk, g, cluster);
      LookupConcat(here, InChain(disk, g, next, m - 1), name);
      LookupConcat(here, InChain(disk, g, next, n - 1), name);
      if Lookup(here, name).None? {
        FindIsIndependent(disk, g, next, name, n - 1, m - 1);
      }
    }
  }

  /** The `k`-th cluster of a chain. */
  function Nth(disk: Disk, g: Geometry, cluster: nat, k: nat): nat
    requires g.bytesPerSector == SECTOR
    decreases k
  {
    if k == 0 then cluster else NextCluster(disk, g, Nth(disk, g, cluster, k - 1))
  }

  lemma {:induction false} NthShift(disk: Disk, g: Geometry, cluster: nat, k: nat)
    requires g.bytesPerSector == SECTOR
    ensures Nth(disk, g, NextCluster(disk, g, cluster), k) == Nth(disk, g, cluster, k + 1)
  {
    hide NextCluster;
    if k > 0 {
      NthShift(disk, g, cluster, k - 1);
    }
  }

  /** The search ends at the `k`-th cluster: there the chain is over, or the cluster holds the name. */
  predicate StopsAt(disk: Disk, g: Geometry, cluster: nat, name: seq<Byte>, k: nat)
    requires g.bytesPerSector == SECTOR
  {
    var c := Nth(disk, g, cluster, k);
    c >= ROOT_END || Lookup(InCluster(disk, g, ClusterSector(g, c), 0), name).Some?
  }

  lemma {:induction false} SearchEndsWithin(disk: Disk, g: Geometry, cluster: nat, name: seq<Byte>, n: nat)
    requires g.bytesPerSector == SECTOR
    ensures SearchEnds(disk, g, cluster, name, n) <==>
            (exists k :: 0 <= k < n && StopsAt(disk, g, cluster, name, k)) || Nth(disk, g, cluster, n) >= ROOT_END
    decreases n
  {
    hide InCluster, ClusterSector, NextCluster, Lookup;
    if n > 0 {
      var next := NextCluster(disk, g, cluster);
      assert StopsAt(disk, g, cluster, name, 0) <==>
             cluster >= ROOT_END || Lookup(InCluster(disk, g, ClusterSector(g, cluster), 0), name).Some? by {
        assert Nth(disk, g, cluster, 0) == cluster;
      }
      SearchEndsWithin(disk, g, next, name, n - 1);
      NthShift(disk, g, cluster, n - 1);
      forall k: nat
        ensures StopsAt(disk, g, next, name, k) <==> StopsAt(disk, g, cluster, name, k + 1)
      {
        NthShift(disk, g, cluster, k);
      }
      if k :| 0 <= k < n && StopsAt(disk, g, cluster, name, k) && k > 0 {
        assert StopsAt(disk, g, next, name, k - 1);
      }
    }
  }

  /** The search ends exactly when some cluster of the chain ends the chain or holds the name. */
  lemma SearchEndsExactly(disk: Disk, g: Geometry, cluster: nat, name: seq<Byte>)
    requires g.bytesPerSector == SECTOR
    ensures (exists n :: SearchEnds(disk, g, cluster, name, n)) <==> exists k: nat :: StopsAt(disk, g, cluster, name, k)
  {
    hide InCluster, ClusterSector, NextCluster, Lookup, SearchEnds, Nth;
    if n :| SearchEnds(disk, g, cluster, name, n) {
      SearchEndsWithin(disk, g, cluster, name, n);
      assert Nth(disk, g, cluster, n) >= ROOT_END ==> StopsAt(disk, g, cluster, name, n);
    }
    if k: nat :| StopsAt(disk, g, cluster, name, k) {
      SearchEndsWithin(disk, g, cluster, name, k + 1);
    }
  }

  /** The chain comes back to its `i`-th cluster after `p` more, and none so far ends the search. */
  predicate ClosesOnItself(disk: Disk, g: Geometry, cluster: nat, name: seq<Byte>, i: nat, p: nat)
    requires g.bytesPerSector == SECTOR
  {
    && p > 0 && Nth(disk, g, cluster, i) == Nth(disk, g, cluster, i + p)
    && forall k :: 0 <= k < i + p ==> !StopsAt(disk, g, cluster, name, k)
  }

  lemma {:induction false} GoesRound(disk: Disk, g: Geometry, cluster: nat, i: nat, p: nat, k: nat)
    requires g.bytesPerSector == SECTOR && p > 0 && Nth(disk, g, cluster, i) == Nth(disk, g, cluster, i + p)
    ensures exists j :: 0 <= j < i + p && Nth(disk, g, cluster, j) == Nth(disk, g, cluster, k)
  {
    hide NextCluster;
    if k >= i + p {
      GoesRound(disk, g, cluster, i, p, k - 1);
      var j :| 0 <= j < i + p && Nth(disk, g, cluster, j) == Nth(disk, g, cluster, k - 1);
      var back := if j + 1 == i + p then i else j + 1;
      assert Nth(disk, g, cluster, j + 1) == Nth(disk, g, cluster, k);
      assert Nth(disk, g, cluster, back) == Nth(disk, g, cluster, k);
    }
  }

  /** A chain that stays below `bound` comes to some cluster twice. */
  lemma Repeats(disk: Disk, g: Geometry, cluster: nat, bound: nat)
    requires g.bytesPerSector == SECTOR && forall k: nat :: Nth(disk, g, cluster, k) < bound
    ensures exists i, j :: 0 <= i < j <= bound && Nth(disk, g, cluster, i) == Nth(disk, g, cluster, j)
  {
    hide NextCluster, Nth;
    var chain := seq(bound + 1, k requires 0 <= k => Nth(disk, g, cluster, k));
    PigeonHole(chain, bound);
    var i, j :| 0 <= i < j < |chain| && chain[i] == chain[j];
    assert Nth(disk, g, cluster, i) == Nth(disk, g, cluster, j);
  }

  /** The search never ends exactly when the chain closes on itself before it has come to an end or to the name. */
  lemma SearchNeverEndsExactly(disk: Disk, g: Geometry, cluster: nat, name: seq<Byte>)
    requires g.bytesPerSector == SECTOR
    ensures (forall n :: !SearchEnds(disk, g, cluster, name, n)) <==>
            exists i: nat, p: nat :: ClosesOnItself(disk, g, cluster, name, i, p)
  {
    hide InCluster, ClusterSector, NextCluster, Lookup, SearchEnds, Nth;
    SearchEndsExactly(disk, g, cluster, name);
    if i: nat, p: nat :| ClosesOnItself(disk, g, cluster, name, i, p) {
      forall k: nat
        ensures !StopsAt(disk, g, cluster, name, k)
      {
        GoesRound(disk, g, cluster, i, p, k);
        var j :| 0 <= j < i + p && Nth(disk, g, cluster, j) == Nth(disk, g, cluster, k);
        assert !StopsAt(disk, g, cluster, name, j);
      }
    }
    if forall k: nat :: !StopsAt(disk, g, cluster, name, k) {
      assert forall k: nat :: Nth(disk, g, cluster, k) < ROOT_END by {
        forall k: nat
          ensures Nth(disk, g, cluster, k) < ROOT_END
        {
          assert !StopsAt(disk, g, cluster, name, k);
        }
      }
      Repeats(disk, g, cluster, ROOT_END);
      var i: nat, j: nat :| i < j <= ROOT_END && Nth(disk, g, cluster, i) == Nth(disk, g, cluster, j);
      assert ClosesOnItself(disk, g, cluster, name, i, j - i);
    }
  }

  const LOOPED := Layout(SECTOR, 1, 32, 1, 0, 66069, 512, 2)

  /** A volume whose empty root directory is one cluster that the table links to itself. */
  function LoopedDisk(): Disk
  {
    map[32 := seq(SECTOR, k => if k == 8 then 2 else 0), 544 := seq(SECTOR, _ => 0)]
  }

  /** On such a volume, well formed otherwise, no search ends, whatever the name. */
  lemma LoopedSearchNeverEnds(g: Geometry, name: seq<Byte>, n: nat)
    ensures LOOPED.WellFormed() && Mounted(g, LOOPED).fat32
    ensures !FindEnds(LoopedDisk(), Mounted(g, LOOPED), name, n)
  {
    var v, disk := Mounted(g, LOOPED), LoopedDisk();
    assert v == Geometry(true, SECTOR, 1, 32, 1, 512, g.rootDirSector, 0, 544, 2);
    assert EntrySector(v, 2) == 32 && EntryOffset(v, 2) == 8;
    assert U16(disk[32], 8) == 2 && U16(disk[32], 10) == 0;
    assert NextCluster(disk, v, 2) == 2;
    assert Live(disk[544], 0) == [];
    assert InCluster(disk, v, 544, 1) == [];
    assert InCluster(disk, v, ClusterSector(v, 2), 0) == [];
    assert Nth(disk, v, 2, 0) == 2 && Nth(disk, v, 2, 1) == 2;
    assert ClosesOnItself(disk, v, 2, name, 0, 1) by {
      assert !StopsAt(disk, v, 2, name, 0);
    }
    SearchNeverEndsExactly(disk, v, 2, name);
    assert v.rootCluster == 2 && !SearchEnds(disk, v, v.rootCluster, name, n);
  }

  // ----- the data of a file

  function ClusterBytes(g: Geometry): nat
  {
    g.sectorsPerCluster * SECTOR
  }

  /** The disk sector of the `t`-th sector of a file. */
  function FileSector(disk: Disk, g: Geometry, first: nat, t: nat): nat
    requires g.bytesPerSector == SECTOR && g.sectorsPerCluster > 0
  {
    (ClusterSector(g, Nth(disk, g, first, t / g.sectorsPerCluster)) + t % g.sectorsPerCluster) % WORD
  }

  /** Byte `p` of the clusters of a file, one after the other. */
  function FileByte(disk: Disk, g: Geometry, first: nat, p: nat): Byte
    requires g.bytesPerSector == SECTOR && g.sectorsPerCluster > 0
  {
    var at := FileSector(disk, g, first, p / SECTOR);
    if at in disk then disk[at][p % SECTOR] else 0
  }

  /** How many of `want` bytes the chain has. */
  function Available(disk: Disk, g: Geometry, cluster: nat, want: nat): (r: nat)
    requires g.bytesPerSector == SECTOR && g.sectorsPerCluster > 0
    ensures r <= want
    decreases want
  {
    if want == 0 || Ended(g, cluster) then 0
    else if want <= ClusterBytes(g) then want
    else ClusterBytes(g) + Available(disk, g, NextCluster(disk, g, cluster), want - ClusterBytes(g))
  }

  /** `len` is the number of clusters in front of the end of a chain. */
  ghost predicate ChainLength(disk: Disk, g: Geometry, cluster: nat, len: nat)
    requires g.bytesPerSector == SECTOR
  {
    && Ended(g, Nth(disk, g, cluster, len))
    && forall k :: 0 <= k < len ==> !Ended(g, Nth(disk, g, cluster, k))
  }

  /** A chain of `len` clusters has the bytes of `len` clusters. */
  lemma {:induction false} AvailableIsMinimum(disk: Disk, g: Geometry, cluster: nat, want: nat, len: nat)
    requires g.bytesPerSector == SECTOR && g.sectorsPerCluster > 0 && ChainLength(disk, g, cluster, len)
    ensures Available(disk, g, cluster, want) == if want < len * ClusterBytes(g) then want else len * ClusterBytes(g)
    decreases len
  {
    hide NextCluster, Ended;
    if len == 0 {
    } else {
      assert !Ended(g, Nth(disk, g, cluster, 0));
      MulStep(len - 1, ClusterBytes(g));
      if want > ClusterBytes(g) {
        var next := NextCluster(disk, g, cluster);
        NthShift(disk, g, cluster, len - 1);
        forall k | 0 <= k < len - 1
          ensures !Ended(g, Nth(disk, g, next, k))
        {
          NthShift(disk, g, cluster, k);
          assert !Ended(g, Nth(disk, g, cluster, k + 1));
        }
        AvailableIsMinimum(disk, g, next, want - ClusterBytes(g), len - 1);
      }
    }
  }

  /** A chain that never ends, such as one that closes on itself, has as many bytes as are asked for. */
  lemma {:induction false} EndlessChainHasAll(disk: Disk, g: Geometry, cluster: nat, want: nat)
    requires g.bytesPerSector == SECTOR && g.sectorsPerCluster > 0
    requires forall k: nat :: !Ended(g, Nth(disk, g, cluster, k))
    ensures Available(disk, g, cluster, want) == want
    decreases want
  {
    hide NextCluster, Ended;
    assert !Ended(g, Nth(disk, g, cluster, 0));
    if want > ClusterBytes(g) {
      var next := NextCluster(disk, g, cluster);
      forall k: nat
        ensures !Ended(g, Nth(disk, g, next, k))
      {
        NthShift(disk, g, cluster, k);
        assert !Ended(g, Nth(disk, g, cluster, k + 1));
      }
      EndlessChainHasAll(disk, g, next, want - ClusterBytes(g));
    }
  }

  /** After `k` whole clusters the rest of the chain has the rest of the bytes. */
  lemma {:induction false} AvailableAfter(disk: Disk, g: Geometry, first: nat, want: nat, k: nat)
    requires g.bytesPerSector == SECTOR && g.sectorsPerCluster > 0 && k * ClusterBytes(g) <= want
    requires forall j :: 0 <= j < k ==> !Ended(g, Nth(disk, g, first, j))
    ensures Available(disk, g, first, want) ==
            k * ClusterBytes(g) + Available(disk, g, Nth(disk, g, first, k), want - k * ClusterBytes(g))
  {
    hide NextCluster, Ended, Available, ClusterBytes;
    if k > 0 {
      MulStep(k - 1, ClusterBytes(g));
      AvailableAfter(disk, g, first, want, k - 1);
      AvailableStep(disk, g, Nth(disk, g, first, k - 1), want - (k - 1) * ClusterBytes(g));
    }
  }

  lemma AvailableStep(disk: Disk, g: Geometry, cluster: nat, want: nat)
    requires g.bytesPerSector == SECTOR && g.sectorsPerCluster > 0 && ClusterBytes(g) <= want && !Ended(g, cluster)
    ensures Available(disk, g, cluster, want) ==
            ClusterBytes(g) + Available(disk, g, NextCluster(disk, g, cluster), want - ClusterBytes(g))
  {
    hide NextCluster, Ended;
  }

  // ----- the driver

  /** What fat_read_file leaves in the buffer: `done` bytes of the file, and the rest as it was. */
  ghost predicate Delivered(disk: Disk, g: Geometry, first: nat, before: seq<Byte>, buffer: seq<Byte>, done: nat)
    requires g.bytesPerSector == SECTOR && g.sectorsPerCluster > 0
  {
    && |buffer| == |before| && done <= |buffer|
    && (forall p :: 0 <= p < done ==> buffer[p] == FileByte(disk, g, first, p))
    && (forall p :: done <= p < |buffer| ==> buffer[p] == before[p])
    && (forall t: nat :: t * SECTOR < done ==> FileSector(disk, g, first, t) in disk)
  }

  /** Every sector that holds one of the first `size` bytes of a file can be read. */
  ghost predicate AllReadable(disk: Disk, g: Geometry, first: nat, size: nat)
    requires g.bytesPerSector == SECTOR && g.sectorsPerCluster > 0
  {
    forall t: nat :: t * SECTOR < size ==> FileSector(disk, g, first, t) in disk
  }

  lemma NotReadable(disk: Disk, g: Geometry, first: nat, size: nat, at: nat)
    requires g.bytesPerSector == SECTOR && g.sectorsPerCluster > 0
    requires at < size && at % SECTOR == 0 && FileSector(disk, g, first, at / SECTOR) !in disk
    ensures !AllReadable(disk, g, first, size)
  {
    assert (at / SECTOR) * SECTOR == at;
  }

  class FatVolume {
    const disk: Disk
    const present: bool     // ata_disk_exists
    var active: bool        // fat_active
    var geometry: Geometry

    ghost predicate Valid()
      reads this
    {
      active ==> geometry.bytesPerSector == SECTOR && geometry.sectorsPerCluster > 0
    }

    constructor (disk: Disk, present: bool)
      ensures Valid() && !active && this.disk == disk && this.present == present
    {
      this.disk, this.present := disk, present;
      active := false;
      geometry := Geometry(false, SECTOR, 1, 0, 2, 0, 0, 0, 0, 0);
    }

    /** fat_init. */
    method Init()
      requires present && 0 in disk && Signed(disk[0]) ==> LayoutOf(disk[0]).Readable()
      modifies this
      ensures Valid()
      ensures active <==> present && 0 in disk && Signed(disk[0])
      ensures geometry == if active then Mounted(old(geometry), LayoutOf(disk[0])) else old(geometry)
    {
      hide LayoutOf;
      active := false;
      if !present {
        return;
      }
      if 0 !in disk {
        return;
      }
      var boot := disk[0];
      if boot[510] != 0x55 || boot[511] != 0xAA {
        return;
      }
      var l := LayoutOf(boot);
      var rootDirSectors := (l.rootEntries * 32 + (l.bytesPerSector - 1)) / l.bytesPerSector;
      geometry := geometry.(bytesPerSector := l.bytesPerSector, sectorsPerCluster := l.sectorsPerCluster, reserved := l.reserved,
                            fatCount := l.fatCount, sectorsPerFat := l.sectorsPerFat, rootDirSectors := rootDirSectors);
      var dataSectors := (l.totalSectors - (l.reserved + l.fatCount * l.sectorsPerFat + rootDirSectors)) % WORD;
      var totalClusters := dataSectors / l.sectorsPerCluster;
      var behindTables := (l.reserved + (l.fatCount * l.sectorsPerFat) % WORD) % WORD;
      if totalClusters >= 65525 {
        geometry := geometry.(fat32 := true, rootCluster := l.rootCluster, dataSector := behindTables);
      } else {
        geometry := geometry.(fat32 := false, rootDirSector := behindTables, dataSector := (behindTables + rootDirSectors) % WORD);
      }
      active := true;
    }

    /** The innermost loop of a search: one sector of a directory. */
    static method ScanSector(sector: Sector, name: seq<Byte>) returns (r: Option<DirEntry>)
      requires |name| == 11
      ensures r == Lookup(Live(sector, 0), name)
    {
      for i := 0 to 16
        invariant Lookup(Live(sector, 0), name) == Lookup(Live(sector, i), name)
      {
        LookupConcat(if sector[32 * i] == 0xE5 then [] else [EntryAt(sector, i)], Live(sector, i + 1), name);
        if sector[32 * i] == 0 {
          return None;
        }
        if sector[32 * i] != 0xE5 {
          LookupOne(EntryAt(sector, i), name);
          if sector[32 * i..32 * i + 11] == name {
            return Some(EntryAt(sector, i));
          }
        }
      }
      return None;
    }

    /** The search of a fixed root directory. */
    method FindFixed(name: seq<Byte>) returns (r: Option<DirEntry>)
      requires |name| == 11
      ensures r == Lookup(FixedRoot(disk, geometry, 0), name)
    {
      hide Live, Lookup;
      LookupNone(name);
      for s := 0 to geometry.rootDirSectors
        invariant Lookup(FixedRoot(disk, geometry, 0), name) == Lookup(FixedRoot(disk, geometry, s), name)
      {
        var at := (geometry.rootDirSector + s) % WORD;
        if at !in disk {
          return None;
        }
        LookupConcat(Live(disk[at], 0), FixedRoot(disk, geometry, s + 1), name);
        r := ScanSector(disk[at], name);
        if r.Some? {
          return;
        }
      }
      return None;
    }

    /** The search of one cluster of a directory. */
    method FindInCluster(first: nat, name: seq<Byte>) returns (r: Option<DirEntry>)
      requires |name| == 11
      ensures r == Lookup(InCluster(disk, geometry, first, 0), name)
    {
      hide Live, Lookup;
      LookupNone(name);
      for s := 0 to geometry.sectorsPerCluster
        invariant Lookup(InCluster(disk, geometry, first, 0), name) == Lookup(InCluster(disk, geometry, first, s), name)
      {
        var at := (first + s) % WORD;
        if at !in disk {
          return None;
        }
        LookupConcat(Live(disk[at], 0), InCluster(disk, geometry, first, s + 1), name);
        r := ScanSector(disk[at], name);
        if r.Some? {
          return;
        }
      }
      return None;
    }

    /** The search of a root directory that is a chain of clusters; `n` bounds its length. */
    method FindInChain(name: seq<Byte>, ghost n: nat) returns (r: Option<DirEntry>)
      requires |name| == 11 && geometry.bytesPerSector == SECTOR && SearchEnds(disk, geometry, geometry.rootCluster, name, n)
      ensures r == Lookup(InChain(disk, geometry, geometry.rootCluster, n), name)
    {
      hide InCluster, Lookup, NextCluster, ClusterSector;
      LookupNone(name);
      r := None;
      var cluster: nat := geometry.rootCluster;
      ghost var m := n;
      while cluster < ROOT_END && r.None?
        invariant r.None? ==> SearchEnds(disk, geometry, cluster, name, m)
        invariant Lookup(InChain(disk, geometry, geometry.rootCluster, n), name) ==
                  if r.Some? then r else Lookup(InChain(disk, geometry, cluster, m), name)
        decreases if r.Some? then 0 else 1, m
      {
        LookupConcat(InCluster(disk, geometry, ClusterSector(geometry, cluster), 0),
                     InChain(disk, geometry, NextCluster(disk, geometry, cluster), m - 1), name);
        r := FindInCluster(ClusterSector(geometry, cluster), name);
        cluster := NextCluster(disk, geometry, cluster);
        m := m - 1;
      }
    }

    /** The search that fat_read_file and fat_get_file_size have in common. */
    method FindEntry(name: seq<Byte>, ghost n: nat) returns (r: Option<DirEntry>)
      requires Valid() && active && |name| == 11 && FindEnds(disk, geometry, name, n)
      ensures r == Lookup(Root(disk, geometry, n), name)
    {
      if !geometry.fat32 {
        r := FindFixed(name);
      } else {
        r := FindInChain(name, n);
      }
    }

    /** fat_get_file_size. */
    method GetFileSize(filename: seq<Byte>, ghost n: nat) returns (size: nat)
      requires Valid() && CString(filename)
      requires active ==> FindEnds(disk, geometry, FatName(filename), n)
      ensures !active ==> size == 0
      ensures active ==>
                var entry := Lookup(Root(disk, geometry, n), FatName(filename));
                size == if entry.Some? then entry.value.size else 0
    {
      if !active {
        return 0;
      }
      var fatName := ToFatName(filename);
      var entry := FindEntry(fatName[..], n);
      return if entry.Some? then entry.value.size else 0;
    }

    /** The copy of one sector, or of the part of it that is still wanted. */
    static method CopySector(buffer: array<Byte>, at: nat, sector: Sector, count: nat)
      requires count <= SECTOR && at + count <= buffer.Length
      modifies buffer
      ensures forall p :: 0 <= p < buffer.Length ==>
                buffer[p] == if at <= p < at + count then sector[p - at] else old(buffer[p])
    {
      for i := 0 to count
        invariant forall p :: 0 <= p < buffer.Length ==> buffer[p] == if at <= p < at + i then sector[p - at] else old(buffer[p])
      {
        buffer[at + i] := sector[i];
      }
    }

    /** The loop of fat_read_file over the sectors of its `k`-th cluster. */
    method ReadCluster(sector: nat, start: nat, buffer: array<Byte>, fileSize: nat, ghost first: nat, ghost k: nat, ghost before: seq<Byte>)
      returns (ok: bool, bytesRead: nat)
      requires Valid() && active && fileSize <= buffer.Length && start == k * ClusterBytes(geometry) < fileSize
      requires sector == ClusterSector(geometry, Nth(disk, geometry, first, k))
      requires Delivered(disk, geometry, first, before, buffer[..], k * ClusterBytes(geometry))
      modifies buffer
      ensures Delivered(disk, geometry, first, before, buffer[..], bytesRead)
      ensures ok ==> bytesRead == if (k + 1) * ClusterBytes(geometry) < fileSize then (k + 1) * ClusterBytes(geometry) else fileSize
      ensures !ok ==> bytesRead < fileSize && bytesRead < (k + 1) * ClusterBytes(geometry)
      ensures !ok ==> bytesRead % SECTOR == 0 && FileSector(disk, geometry, first, bytesRead / SECTOR) !in disk
    {
      hide Delivered, ClusterSector, NextCluster, FileSector, ClusterBytes;
      var spc := geometry.sectorsPerCluster;
      bytesRead := start;
      ghost var t: nat := SectorsBefore(geometry, k);
      for s := 0 to spc
        invariant bytesRead == if (t + s) * SECTOR < fileSize then (t + s) * SECTOR else fileSize
        invariant Delivered(disk, geometry, first, before, buffer[..], bytesRead)
      {
        if bytesRead >= fileSize {
          break;
        }
        SectorOfFile(disk, geometry, first, k, s);
        var at := (sector + s) % WORD;
        if at !in disk {
          return false, bytesRead;
        }
        var toCopy := SECTOR;
        if fileSize - bytesRead < SECTOR {
          toCopy := fileSize - bytesRead;
        }
        ghost var now := buffer[..];
        CopySector(buffer, bytesRead, disk[at], toCopy);
        DeliveredMore(disk, geometry, first, before, now, buffer[..], t + s, toCopy);
        bytesRead := bytesRead + toCopy;
      }
      return true, bytesRead;
    }

    /** The second half of fat_read_file. */
    method ReadData(first: nat, buffer: array<Byte>, fileSize: nat) returns (ok: bool, ghost done: nat)
      requires Valid() && active && fileSize <= buffer.Length
      modifies buffer
      ensures Delivered(disk, geometry, first, old(buffer[..]), buffer[..], done)
      ensures ok <==> AllReadable(disk, geometry, first, Available(disk, geometry, first, fileSize))
      ensures ok ==> done == Available(disk, geometry, first, fileSize)
      ensures !ok ==> done < Available(disk, geometry, first, fileSize)
      ensures !ok ==> done % SECTOR == 0 && FileSector(disk, geometry, first, done / SECTOR) !in disk
    {
      hide Delivered, ClusterSector, NextCluster, Available, Ended, FileSector, ClusterBytes, AllReadable;
      var bytesRead, cluster: nat := 0, first;
      ghost var k: nat := 0;
      NothingDelivered(disk, geometry, first, buffer[..]);
      while bytesRead < fileSize
        invariant bytesRead == if k * ClusterBytes(geometry) < fileSize then k * ClusterBytes(geometry) else fileSize
        invariant cluster == Nth(disk, geometry, first, k)
        invariant forall j :: 0 <= j < k ==> !Ended(geometry, Nth(disk, geometry, first, j))
        invariant Delivered(disk, geometry, first, old(buffer[..]), buffer[..], bytesRead)
        invariant k > 0 ==> (k - 1) * ClusterBytes(geometry) < fileSize
        decreases fileSize - bytesRead
      {
        if Ended(geometry, cluster) {
          break;
        }
        ok, bytesRead := ReadCluster(ClusterSector(geometry, cluster), bytesRead, buffer, fileSize, first, k, old(buffer[..]));
        if !ok {
          MoreAvailable(disk, geometry, first, fileSize, k, bytesRead);
          NotReadable(disk, geometry, first, Available(disk, geometry, first, fileSize), bytesRead);
          return false, bytesRead;
        }
        OneMoreCluster(geometry, k);
        cluster := NextCluster(disk, geometry, cluster);
        k := k + 1;
      }
      AllAvailable(disk, geometry, first, fileSize, k);
      DeliveredIsReadable(disk, geometry, first, old(buffer[..]), buffer[..], bytesRead);
      return true, bytesRead;
    }

    /** fat_read_file. */
    method ReadFile(filename: seq<Byte>, buffer: array<Byte>, maxSize: nat, ghost n: nat) returns (ok: bool, ghost done: nat)
      requires Valid() && CString(filename) && maxSize <= buffer.Length
      requires active ==> FindEnds(disk, geometry, FatName(filename), n)
      modifies buffer
      ensures !active || Lookup(Root(disk, geometry, n), FatName(filename)).None? ==> !ok && buffer[..] == old(buffer[..])
      ensures active && Lookup(Root(disk, geometry, n), FatName(filename)).Some? ==>
                var entry := Lookup(Root(disk, geometry, n), FatName(filename)).value;
                var want := if maxSize < entry.size then maxSize else entry.size;
                var available := Available(disk, geometry, entry.firstCluster, want);
                && Delivered(disk, geometry, entry.firstCluster, old(buffer[..]), buffer[..], done)
                && (ok <==> AllReadable(disk, geometry, entry.firstCluster, available))
                && (ok ==> done == available)
                && (!ok ==> done < available && done % SECTOR == 0 && FileSector(disk, geometry, entry.firstCluster, done / SECTOR) !in disk)
    {
      done := 0;
      if !active {
        return false, 0;
      }
      var fatName := ToFatName(filename);
      var entry := FindEntry(fatName[..], n);
      if entry.None? {
        return false, 0;
      }
      var fileSize := entry.value.size;
      if maxSize < fileSize {
        fileSize := maxSize;
      }
      ok, done := ReadData(entry.value.firstCluster, buffer, fileSize);
    }
  }

  lemma NothingDelivered(disk: Disk, g: Geometry, first: nat, buffer: seq<Byte>)
    requires g.bytesPerSector == SECTOR && g.sectorsPerCluster > 0
    ensures Delivered(disk, g, first, buffer, buffer, 0)
  {
  }

  lemma DeliveredIsReadable(disk: Disk, g: Geometry, first: nat, before: seq<Byte>, buffer: seq<Byte>, done: nat)
    requires g.bytesPerSector == SECTOR && g.sectorsPerCluster > 0 && Delivered(disk, g, first, before, buffer, done)
    ensures AllReadable(disk, g, first, done)
  {
  }

  lemma OneMoreCluster(g: Geometry, k: nat)
    requires g.sectorsPerCluster > 0
    ensures k * ClusterBytes(g) < (k + 1) * ClusterBytes(g)
  {
    MulStep(k, ClusterBytes(g));
  }

  /** What is delivered after `k` clusters, when no more are needed or the chain has ended, is all there is. */
  lemma AllAvailable(disk: Disk, g: Geometry, first: nat, want: nat, k: nat)
    requires g.bytesPerSector == SECTOR && g.sectorsPerCluster > 0
    requires forall j :: 0 <= j < k ==> !Ended(g, Nth(disk, g, first, j))
    requires k > 0 ==> (k - 1) * ClusterBytes(g) < want
    requires k * ClusterBytes(g) >= want || Ended(g, Nth(disk, g, first, k))
    ensures Available(disk, g, first, want) == if k * ClusterBytes(g) < want then k * ClusterBytes(g) else want
  {
    hide NextCluster, Ended, ClusterBytes;
    if k * ClusterBytes(g) <= want {
      AvailableAfter(disk, g, first, want, k);
    } else {
      MulStep(k - 1, ClusterBytes(g));
      AvailableAfter(disk, g, first, want, k - 1);
      assert !Ended(g, Nth(disk, g, first, k - 1));
    }
  }

  /** A failure inside the `k`-th cluster comes before all there is has been delivered. */
  lemma MoreAvailable(disk: Disk, g: Geometry, first: nat, want: nat, k: nat, done: nat)
    requires g.bytesPerSector == SECTOR && g.sectorsPerCluster > 0
    requires forall j :: 0 <= j <= k ==> !Ended(g, Nth(disk, g, first, j))
    requires k * ClusterBytes(g) < want && done < want && done < (k + 1) * ClusterBytes(g)
    ensures done < Available(disk, g, first, want)
  {
    hide NextCluster, Ended, ClusterBytes;
    MulStep(k, ClusterBytes(g));
    AvailableAfter(disk, g, first, want, k);
    assert !Ended(g, Nth(disk, g, first, k));
  }

  lemma LookupOne(e: DirEntry, name: seq<Byte>)
    ensures Lookup([e], name) == if e.name == name then Some(e) else None
  {
    assert [e][1..] == [];
  }

  lemma LookupNone(name: seq<Byte>)
    ensures Lookup([], name) == None
  {
  }

  lemma ClusterIsSectors(k: nat, spc: nat)
    ensures k * (spc * SECTOR) == (k * spc) * SECTOR
    ensures (k + 1) * (spc * SECTOR) == (k * spc + spc) * SECTOR
  {
  }

  /** The sectors of a file in front of its `k`-th cluster. */
  lemma SectorsBefore(g: Geometry, k: nat) returns (t: nat)
    ensures t == k * g.sectorsPerCluster
    ensures k * ClusterBytes(g) == t * SECTOR && (k + 1) * ClusterBytes(g) == (t + g.sectorsPerCluster) * SECTOR
  {
    ClusterIsSectors(k, g.sectorsPerCluster);
    t := k * g.sectorsPerCluster;
  }

  /** Sector `s` of the `k`-th cluster of a file. */
  lemma SectorOfFile(disk: Disk, g: Geometry, first: nat, k: nat, s: nat)
    requires g.bytesPerSector == SECTOR && s < g.sectorsPerCluster
    ensures FileSector(disk, g, first, k * g.sectorsPerCluster + s) == (ClusterSector(g, Nth(disk, g, first, k)) + s) % WORD
  {
    DivUnique(k * g.sectorsPerCluster + s, g.sectorsPerCluster, k, s);
  }

  lemma DivUnique(n: nat, d: nat, q: nat, r: nat)
    requires d > 0 && n == q * d + r && r < d
    ensures n / d == q && n % d == r
  {
    var q' := n / d;
    assert n == d * q' + n % d;
    MulStep(q, d);
    MulStep(q', d);
    if q' < q {
      MulOrder(q' + 1, q, d);
    } else if q < q' {
      MulOrder(q + 1, q', d);
    }
  }

  /** One more sector. */
  lemma DeliveredMore(disk: Disk, g: Geometry, first: nat, before: seq<Byte>, now: seq<Byte>, later: seq<Byte>, t: nat, count: nat)
    requires g.bytesPerSector == SECTOR && g.sectorsPerCluster > 0
    requires Delivered(disk, g, first, before, now, t * SECTOR)
    requires FileSector(disk, g, first, t) in disk && count <= SECTOR && t * SECTOR + count <= |now| == |later|
    requires forall p :: 0 <= p < |now| ==>
               later[p] == if t * SECTOR <= p < t * SECTOR + count then disk[FileSector(disk, g, first, t)][p - t * SECTOR] else now[p]
    ensures Delivered(disk, g, first, before, later, t * SECTOR + count)
  {
    hide FileSector;
    forall p | t * SECTOR <= p < t * SECTOR + count
      ensures later[p] == FileByte(disk, g, first, p)
    {
      assert p / SECTOR == t && p % SECTOR == p - t * SECTOR;
    }
    forall u: nat | u * SECTOR < t * SECTOR + count
      ensures FileSector(disk, g, first, u) in disk
    {
      assert u < t ==> u * SECTOR < t * SECTOR;
      assert u <= t;
    }
  }
}
