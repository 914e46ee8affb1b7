/** The listing of the root directory (fat_list_root in fat.cpp), and when it agrees with the searches. */
module FatListing {
  import opened Types
  import opened Fat

  // ----- the sectors both walk over

  function FixedSectors(disk: Disk, g: Geometry, s: nat): seq<Sector>
    decreases g.rootDirSectors - s
  {
    var at := (g.rootDirSector + s) % WORD;
    if s >= g.rootDirSectors || at !in disk then [] else [disk[at]] + FixedSectors(disk, g, s + 1)
  }

  function ClusterSectors(disk: Disk, g: Geometry, first: nat, s: nat): seq<Sector>
    decreases g.sectorsPerCluster - s
  {
    var at := (first + s) % WORD;
    if s >= g.sectorsPerCluster || at !in disk then [] else [disk[at]] + ClusterSectors(disk, g, first, s + 1)
  }

  function ChainSectors(disk: Disk, g: Geometry, cluster: nat, n: nat): seq<Sector>
    requires g.bytesPerSector == SECTOR
    decreases n
  {
    if n == 0 || cluster >= ROOT_END then []
    else ClusterSectors(disk, g, ClusterSector(g, cluster), 0) + ChainSectors(disk, g, NextCluster(disk, g, cluster), n - 1)
  }

  // ----- what the searches and the listing see of them

  predicate HasEnd(sector: Sector, i: nat)
    requires i <= 16
    decreases 16 - i
  {
    i < 16 && (sector[32 * i] == 0 || HasEnd(sector, i + 1))
  }

  /** A piece of a long name, which the listing passes over and the searches do not. */
  predicate LongName(e: DirEntry)
  {
    e.attr % 16 == 15
  }

  function Shown(entries: seq<DirEntry>): seq<DirEntry>
  {
    if entries == [] then []
    else (if LongName(entries[0]) then [] else [entries[0]]) + Shown(entries[1..])
  }

  function Searched(sectors: seq<Sector>): seq<DirEntry>
  {
    if sectors == [] then [] else Live(sectors[0], 0) + Searched(sectors[1..])
  }

  /** The entries up to the first end mark. */
  function BeforeEnd(sectors: seq<Sector>): seq<DirEntry>
  {
    if sectors == [] then []
    else Live(sectors[0], 0) + if HasEnd(sectors[0], 0) then [] else BeforeEnd(sectors[1..])
  }

  /** The entries in the sectors behind the one with the first end mark. */
  function BeyondEnd(sectors: seq<Sector>): seq<DirEntry>
  {
    if sectors == [] then []
    else if HasEnd(sectors[0], 0) then Searched(sectors[1..])
    else BeyondEnd(sectors[1..])
  }

  function Listed(sectors: seq<Sector>): seq<DirEntry>
  {
    Shown(BeforeEnd(sectors))
  }

  lemma {:induction false} SearchedSplits(sectors: seq<Sector>)
    ensures Searched(sectors) == BeforeEnd(sectors) + BeyondEnd(sectors)
  {
    hide Live, HasEnd;
    if sectors != [] && !HasEnd(sectors[0], 0) {
      SearchedSplits(sectors[1..]);
    }
  }

  lemma {:induction false} ShownMembers(entries: seq<DirEntry>)
    ensures forall e :: e in Shown(entries) <==> e in entries && !LongName(e)
  {
    if entries != [] {
      ShownMembers(entries[1..]);
    }
  }

  /** Passing over pieces of long names does not change a match that is none. */
  lemma {:induction false} LookupShown(entries: seq<DirEntry>, name: seq<Byte>)
    ensures var r := Lookup(entries, name);
            && (r.None? ==> Lookup(Shown(entries), name).None?)
            && (r.Some? && !LongName(r.value) ==> Lookup(Shown(entries), name) == r)
  {
    hide LongName, Lookup;
    LookupNone(name);
    if entries != [] {
      var e, rest := entries[0], entries[1..];
      LookupShown(rest, name);
      assert entries == [e] + rest;
      LookupConcat([e], rest, name);
      LookupConcat([e], Shown(rest), name);
      LookupOne(e, name);
      assert Shown(entries) == if LongName(e) then Shown(rest) else [e] + Shown(rest);
      hide Shown;
    }
  }

  /** The searches and the listing agree on a name exactly when the searches find nothing, or find it in front of the
      first end mark and not as a piece of a long name. */
  lemma SearchAgreesWithListing(sectors: seq<Sector>, name: seq<Byte>)
    ensures Lookup(Searched(sectors), name) == Lookup(Listed(sectors), name) <==>
            var before := Lookup(BeforeEnd(sectors), name);
            Lookup(Searched(sectors), name).None? || (before.Some? && !LongName(before.value))
  {
    hide Live, HasEnd, BeforeEnd, BeyondEnd, Searched;
    SearchedSplits(sectors);
    LookupConcat(BeforeEnd(sectors), BeyondEnd(sectors), name);
    LookupShown(BeforeEnd(sectors), name);
    ShownMembers(BeforeEnd(sectors));
    hide Lookup, Shown;
  }

  lemma {:induction false} SearchedConcat(a: seq<Sector>, b: seq<Sector>)
    ensures Searched(a + b) == Searched(a) + Searched(b)
  {
    hide Live;
    if a == [] {
      assert a + b == b;
    } else {
      assert (a + b)[0] == a[0] && (a + b)[1..] == a[1..] + b;
      SearchedConcat(a[1..], b);
    }
  }

  lemma {:induction false} FixedRootIsSearched(disk: Disk, g: Geometry, s: nat)
    ensures FixedRoot(disk, g, s) == Searched(FixedSectors(disk, g, s))
    decreases g.rootDirSectors - s
  {
    hide Live;
    var at := (g.rootDirSector + s) % WORD;
    if s < g.rootDirSectors && at in disk {
      FixedRootIsSearched(disk, g, s + 1);
      assert ([disk[at]] + FixedSectors(disk, g, s + 1))[1..] == FixedSectors(disk, g, s + 1);
    }
  }

  lemma {:induction false} InClusterIsSearched(disk: Disk, g: Geometry, first: nat, s: nat)
    ensures InCluster(disk, g, first, s) == Searched(ClusterSectors(disk, g, first, s))
    decreases g.sectorsPerCluster - s
  {
    hide Live;
    var at := (first + s) % WORD;
    if s < g.sectorsPerCluster && at in disk {
      InClusterIsSearched(disk, g, first, s + 1);
      assert ([disk[at]] + ClusterSectors(disk, g, first, s + 1))[1..] == ClusterSectors(disk, g, first, s + 1);
    }
  }

  lemma {:induction false} InChainIsSearched(disk: Disk, g: Geometry, cluster: nat, n: nat)
    requires g.bytesPerSector == SECTOR
    ensures InChain(disk, g, cluster, n) == Searched(ChainSectors(disk, g, cluster, n))
    decreases n
  {
    hide Live, NextCluster, ClusterSector, InCluster, ClusterSectors;
    if n > 0 && cluster < ROOT_END {
      var next := NextCluster(disk, g, cluster);
      InChainIsSearched(disk, g, next, n - 1);
      InClusterIsSearched(disk, g, ClusterSector(g, cluster), 0);
      SearchedConcat(ClusterSectors(disk, g, ClusterSector(g, cluster), 0), ChainSectors(disk, g, next, n - 1));
    }
  }

  /** A root directory as the sectors that are read of it. */
  function RootSectors(disk: Disk, g: Geometry, n: nat): seq<Sector>
    requires g.bytesPerSector == SECTOR
  {
    if g.fat32 then ChainSectors(disk, g, g.rootCluster, n) else FixedSectors(disk, g, 0)
  }

  /** When fat_read_file finds what fat_list_root shows. */
  lemma RootSearchAgreesWithListing(disk: Disk, g: Geometry, n: nat, name: seq<Byte>)
    requires g.bytesPerSector == SECTOR
    ensures var sectors := RootSectors(disk, g, n);
            var before := Lookup(BeforeEnd(sectors), name);
            Lookup(Root(disk, g, n), name) == Lookup(Listed(sectors), name) <==>
            Lookup(Root(disk, g, n), name).None? || (before.Some? && !LongName(before.value))
  {
    hide Lookup, Searched, Listed, BeforeEnd, FixedSectors, ChainSectors, FixedRoot, InChain;
    if g.fat32 {
      InChainIsSearched(disk, g, g.rootCluster, n);
    } else {
      FixedRootIsSearched(disk, g, 0);
    }
    SearchAgreesWithListing(RootSectors(disk, g, n), name);
  }

  function OneEntry(name: Name): Sector
  {
    name + seq(SECTOR - 11, _ => 0)
  }

  /** A file in the sector behind the end mark is found by the searches and not shown by the listing. */
  lemma FileBehindEndMark(name: Name)
    requires name[0] != 0 && name[0] != 0xE5
    ensures var sectors := [seq(SECTOR, _ => 0), OneEntry(name)];
            Lookup(Searched(sectors), name).Some? && Lookup(Listed(sectors), name).None?
  {
    var empty: Sector, full := seq(SECTOR, _ => 0), OneEntry(name);
    var e := EntryAt(full, 0);
    assert full[0..11] == name;
    assert Live(empty, 0) == [];
    assert Live(full, 0) == [e] + Live(full, 1);
    assert [empty, full][1..] == [full] && [full][1..] == [];
    assert Searched([full]) == Live(full, 0) + Searched([]);
    assert Searched([empty, full]) == Live(empty, 0) + Searched([full]);
    assert Searched([empty, full])[0] == e;
  }

  /** A volume with a root directory of two sectors. */
  const TWO_SECTORS := Layout(SECTOR, 1, 1, 1, 32, 5000, 20, 0)

  /** On a well-formed volume whose root directory begins with an end mark, a file in its second sector is found and not
      listed. */
  lemma FileBehindEndMarkOnVolume(g: Geometry, name: Name, n: nat)
    requires name[0] != 0 && name[0] != 0xE5
    ensures TWO_SECTORS.WellFormed()
    ensures var disk: Disk, v := map[21 := seq(SECTOR, _ => 0), 22 := OneEntry(name)], Mounted(g, TWO_SECTORS);
            Lookup(Root(disk, v, n), name).Some? && Lookup(Listed(RootSectors(disk, v, n)), name).None?
  {
    hide Live, HasEnd, Lookup, Searched, Listed;
    var disk: Disk, v := map[21 := seq(SECTOR, _ => 0), 22 := OneEntry(name)], Mounted(g, TWO_SECTORS);
    assert v == Geometry(false, SECTOR, 1, 1, 1, 20, 21, 2, 23, g.rootCluster);
    assert FixedSectors(disk, v, 2) == [];
    assert FixedSectors(disk, v, 1) == [disk[22]];
    assert FixedSectors(disk, v, 0) == [disk[21], disk[22]];
    FixedRootIsSearched(disk, v, 0);
    FileBehindEndMark(name);
  }

  /** The attribute bits the listing looks at: all four low bits mark a piece of a long name, bit 4 a directory. */
  lemma AttributeBits(e: DirEntry)
    ensures LongName(e) <==> (e.attr as bv8) & 0x0F == 0x0F
    ensures IsDir(e) <==> (e.attr as bv8) & 0x10 != 0
  {
  }

  // ----- the listing

  datatype Line = Line(text: seq<Byte>, isDir: bool, size: nat)

  predicate IsDir(e: DirEntry)
  {
    (e.attr / 16) % 2 == 1
  }

  function LineOf(e: DirEntry): Line
  {
    Line(Printed(e.name, IsDir(e)), IsDir(e), e.size)
  }

  ghost function Lines(entries: seq<DirEntry>): seq<Line>
  {
    if entries == [] then [] else [LineOf(entries[0])] + Lines(entries[1..])
  }

  lemma {:induction false} LinesConcat(a: seq<DirEntry>, b: seq<DirEntry>)
    ensures Lines(a + b) == Lines(a) + Lines(b)
  {
    hide LineOf;
    if a == [] {
      assert a + b == b;
    } else {
      assert (a + b)[0] == a[0] && (a + b)[1..] == a[1..] + b;
      LinesConcat(a[1..], b);
    }
  }

  lemma {:induction false} ShownConcat(a: seq<DirEntry>, b: seq<DirEntry>)
    ensures Shown(a + b) == Shown(a) + Shown(b)
  {
    if a == [] {
      assert a + b == b;
    } else {
      assert (a + b)[0] == a[0] && (a + b)[1..] == a[1..] + b;
      ShownConcat(a[1..], b);
    }
  }

  /** What one more sector adds to the lines. */
  lemma ListedStep(sector: Sector, rest: seq<Sector>)
    ensures Lines(Listed([sector] + rest)) == Lines(Shown(Live(sector, 0))) + if HasEnd(sector, 0) then [] else Lines(Listed(rest))
  {
    hide Live, HasEnd, Lines;
    var more := if HasEnd(sector, 0) then [] else BeforeEnd(rest);
    assert ([sector] + rest)[1..] == rest;
    ShownConcat(Live(sector, 0), more);
    LinesNone();
    LinesConcat(Shown(Live(sector, 0)), Shown(more));
  }

  lemma LinesNone()
    ensures Shown([]) == [] && Lines([]) == []
  {
  }

  /** The innermost loop: one sector, until its end mark. */
  method ListSector(sector: Sector) returns (lines: seq<Line>, ended: bool)
    ensures lines == Lines(Shown(Live(sector, 0)))
    ensures ended <==> HasEnd(sector, 0)
  {
    hide Printed, Live, Shown, Lines, HasEnd;
    lines := [];
    assert [] + Lines(Shown(Live(sector, 0))) == Lines(Shown(Live(sector, 0)));
    for i := 0 to 16
      invariant lines + Lines(Shown(Live(sector, i))) == Lines(Shown(Live(sector, 0)))
      invariant HasEnd(sector, 0) <==> HasEnd(sector, i)
    {
      AtMark(sector, i);
      if sector[32 * i] == 0 {
        return lines, true;
      }
      var e := EntryAt(sector, i);
      OneMore(sector, i);
      if sector[32 * i] != 0xE5 && e.attr % 16 != 15 {
        var text := PrintName(e.name, e.attr);
        lines := lines + [Line(text, (e.attr / 16) % 2 == 1, e.size)];
      }
    }
    AtSectorEnd(sector);
    return lines, false;
  }

  lemma AtMark(sector: Sector, i: nat)
    requires i < 16
    ensures HasEnd(sector, i) <==> sector[32 * i] == 0 || HasEnd(sector, i + 1)
    ensures sector[32 * i] == 0 ==> Live(sector, i) == [] && Lines(Shown([])) == []
  {
  }

  lemma AtSectorEnd(sector: Sector)
    ensures Live(sector, 16) == [] && Lines(Shown([])) == [] && !HasEnd(sector, 16)
  {
  }

  lemma OneMore(sector: Sector, i: nat)
    requires i < 16 && sector[32 * i] != 0
    ensures var e, rest := EntryAt(sector, i), Lines(Shown(Live(sector, i + 1)));
            Lines(Shown(Live(sector, i))) == if sector[32 * i] == 0xE5 || LongName(e) then rest else [LineOf(e)] + rest
  {
    hide Lines, LineOf;
    var e, rest := EntryAt(sector, i), Live(sector, i + 1);
    assert Live(sector, i) == if sector[32 * i] == 0xE5 then rest else [e] + rest;
    if sector[32 * i] != 0xE5 {
      ShownConcat([e], rest);
      OneShown(e);
      assert [] + Shown(rest) == Shown(rest);
      if !LongName(e) {
        LinesConcat([e], Shown(rest));
        OneLine(e);
      }
    }
  }

  lemma OneShown(e: DirEntry)
    ensures Shown([e]) == if LongName(e) then [] else [e]
  {
    assert [e][1..] == [];
  }

  lemma OneLine(e: DirEntry)
    ensures Lines([e]) == [LineOf(e)]
  {
    assert [e][1..] == [];
  }

  /** fat_list_root on a fixed root directory. */
  method ListFixed(volume: FatVolume) returns (lines: seq<Line>)
    ensures lines == Lines(Listed(FixedSectors(volume.disk, volume.geometry, 0)))
  {
    hide Live, HasEnd, Lines, Listed;
    ghost var disk, g := volume.disk, volume.geometry;
    lines := [];
    for s := 0 to volume.geometry.rootDirSectors
      invariant lines + Lines(Listed(FixedSectors(disk, g, s))) == Lines(Listed(FixedSectors(disk, g, 0)))
    {
      var at := (volume.geometry.rootDirSector + s) % WORD;
      ListedNone();
      if at !in volume.disk {
        return;
      }
      ListedStep(volume.disk[at], FixedSectors(disk, g, s + 1));
      var some, ended := ListSector(volume.disk[at]);
      lines := lines + some;
      if ended {
        return;
      }
    }
    ListedNone();
  }

  lemma ListedNone()
    ensures Listed([]) == [] && Lines([]) == []
  {
  }

  // ----- the listing of a chain

  predicate Marked(sectors: seq<Sector>)
  {
    sectors != [] && (HasEnd(sectors[0], 0) || Marked(sectors[1..]))
  }

  lemma {:induction false} ListedConcat(a: seq<Sector>, b: seq<Sector>)
    ensures Lines(Listed(a + b)) == Lines(Listed(a)) + if Marked(a) then [] else Lines(Listed(b))
  {
    hide Live, HasEnd, Lines, Listed;
    ListedNone();
    if a == [] {
      assert a + b == b;
    } else {
      var rest := a[1..];
      assert a + b == [a[0]] + (rest + b) && a == [a[0]] + rest;
      ListedConcat(rest, b);
      ListedStep(a[0], rest + b);
      ListedStep(a[0], rest);
    }
  }

  /** fat_list_root on one cluster. */
  method ListCluster(volume: FatVolume, first: nat) returns (lines: seq<Line>, ended: bool)
    ensures lines == Lines(Listed(ClusterSectors(volume.disk, volume.geometry, first, 0)))
    ensures ended <==> Marked(ClusterSectors(volume.disk, volume.geometry, first, 0))
  {
    hide Live, HasEnd, Lines, Listed;
    ghost var disk, g := volume.disk, volume.geometry;
    lines, ended := [], false;
    for s := 0 to volume.geometry.sectorsPerCluster
      invariant lines + Lines(Listed(ClusterSectors(disk, g, first, s))) == Lines(Listed(ClusterSectors(disk, g, first, 0)))
      invariant Marked(ClusterSectors(disk, g, first, 0)) <==> Marked(ClusterSectors(disk, g, first, s))
    {
      var at := (first + s) % WORD;
      ListedNone();
      if at !in volume.disk {
        return;
      }
      ghost var rest := ClusterSectors(disk, g, first, s + 1);
      assert ([disk[at]] + rest)[1..] == rest;
      ListedStep(disk[at], rest);
      var some;
      some, ended := ListSector(volume.disk[at]);
      lines := lines + some;
      if ended {
        return;
      }
    }
    ListedNone();
  }

  /** The listing ends, by an end mark or by the end of the chain, within `n` clusters. */
  ghost predicate ListEnds(disk: Disk, g: Geometry, cluster: nat, n: nat)
    requires g.bytesPerSector == SECTOR
    decreases n
  {
    cluster >= ROOT_END || (n > 0 &&
    (Marked(ClusterSectors(disk, g, ClusterSector(g, cluster), 0)) || ListEnds(disk, g, NextCluster(disk, g, cluster), n - 1)))
  }

  /** The listing ends at the `k`-th cluster: there the chain is over, or the cluster holds an end mark. */
  predicate ListStopsAt(disk: Disk, g: Geometry, cluster: nat, k: nat)
    requires g.bytesPerSector == SECTOR
  {
    var c := Nth(disk, g, cluster, k);
    c >= ROOT_END || Marked(ClusterSectors(disk, g, ClusterSector(g, c), 0))
  }

  lemma {:induction false} ListEndsWithin(disk: Disk, g: Geometry, cluster: nat, n: nat)
    requires g.bytesPerSector == SECTOR
    ensures ListEnds(disk, g, cluster, n) <==>
            (exists k :: 0 <= k < n && ListStopsAt(disk, g, cluster, k)) || Nth(disk, g, cluster, n) >= ROOT_END
    decreases n
  {
    hide ClusterSectors, ClusterSector, NextCluster, Marked;
    if n > 0 {
      var next := NextCluster(disk, g, cluster);
      assert ListStopsAt(disk, g, cluster, 0) <==>
             cluster >= ROOT_END || Marked(ClusterSectors(disk, g, ClusterSector(g, cluster), 0)) by {
        assert Nth(disk, g, cluster, 0) == cluster;
      }
      ListEndsWithin(disk, g, next, n - 1);
      NthShift(disk, g, cluster, n - 1);
      forall k: nat
        ensures ListStopsAt(disk, g, next, k) <==> ListStopsAt(disk, g, cluster, k + 1)
      {
        NthShift(disk, g, cluster, k);
      }
      if k :| 0 <= k < n && ListStopsAt(disk, g, cluster, k) && k > 0 {
        assert ListStopsAt(disk, g, next, k - 1);
      }
    }
  }

  /** The listing ends exactly when some cluster of the chain ends the chain or holds an end mark. */
  lemma ListEndsExactly(disk: Disk, g: Geometry, cluster: nat)
    requires g.bytesPerSector == SECTOR
    ensures (exists n :: ListEnds(disk, g, cluster, n)) <==> exists k: nat :: ListStopsAt(disk, g, cluster, k)
  {
    hide ClusterSectors, ClusterSector, NextCluster, Marked, ListEnds, Nth;
    if n :| ListEnds(disk, g, cluster, n) {
      ListEndsWithin(disk, g, cluster, n);
      assert Nth(disk, g, cluster, n) >= ROOT_END ==> ListStopsAt(disk, g, cluster, n);
    }
    if k: nat :| ListStopsAt(disk, g, cluster, k) {
      ListEndsWithin(disk, g, cluster, k + 1);
    }
  }

  /** The chain comes back to its `i`-th cluster after `p` more, and none so far ends the listing. */
  predicate ListClosesOnItself(disk: Disk, g: Geometry, cluster: nat, i: nat, p: nat)
    requires g.bytesPerSector == SECTOR
  {
    && p > 0 && Nth(disk, g, cluster, i) == Nth(disk, g, cluster, i + p)
    && forall k :: 0 <= k < i + p ==> !ListStopsAt(disk, g, cluster, k)
  }

  /** The listing never ends exactly when the chain closes on itself before it has come to an end or to an end mark. */
  lemma ListNeverEndsExactly(disk: Disk, g: Geometry, cluster: nat)
    requires g.bytesPerSector == SECTOR
    ensures (forall n :: !ListEnds(disk, g, cluster, n)) <==>
            exists i: nat, p: nat :: ListClosesOnItself(disk, g, cluster, i, p)
  {
    hide ClusterSectors, ClusterSector, NextCluster, Marked, ListEnds, Nth;
    ListEndsExactly(disk, g, cluster);
    if i: nat, p: nat :| ListClosesOnItself(disk, g, cluster, i, p) {
      forall k: nat
        ensures !ListStopsAt(disk, g, cluster, k)
      {
        GoesRound(disk, g, cluster, i, p, k);
        var j :| 0 <= j < i + p && Nth(disk, g, cluster, j) == Nth(disk, g, cluster, k);
        assert !ListStopsAt(disk, g, cluster, j);
      }
    }
    if forall k: nat :: !ListStopsAt(disk, g, cluster, k) {
      assert forall k: nat :: Nth(disk, g, cluster, k) < ROOT_END by {
        forall k: nat
          ensures Nth(disk, g, cluster, k) < ROOT_END
        {
          assert !ListStopsAt(disk, g, cluster, k);
        }
      }
      Repeats(disk, g, cluster, ROOT_END);
      var i: nat, j: nat :| i < j <= ROOT_END && Nth(disk, g, cluster, i) == Nth(disk, g, cluster, j);
      assert ListClosesOnItself(disk, g, cluster, i, j - i);
    }
  }

  /** The same looped volume as for the searches, with deleted entries instead of an end mark. */
  function LoopedDeleted(): Disk
  {
    map[32 := seq(SECTOR, k => if k == 8 then 2 else 0), 544 := seq(SECTOR, _ => 0xE5)]
  }

  /** With the empty root directory the listing ends at once, where the searches do not; with deleted entries in it, it
      does not end either. */
  lemma LoopedListing(g: Geometry, n: nat)
    ensures ListEnds(LoopedDisk(), Mounted(g, LOOPED), Mounted(g, LOOPED).rootCluster, 1)
    ensures !ListEnds(LoopedDeleted(), Mounted(g, LOOPED), Mounted(g, LOOPED).rootCluster, n)
  {
    var v, empty, disk := Mounted(g, LOOPED), LoopedDisk(), LoopedDeleted();
    assert v == Geometry(true, SECTOR, 1, 32, 1, 512, g.rootDirSector, 0, 544, 2);
    assert ClusterSectors(empty, v, 544, 1) == [] && ClusterSectors(disk, v, 544, 1) == [];
    assert ClusterSectors(empty, v, 544, 0) == [empty[544]] && ClusterSectors(disk, v, 544, 0) == [disk[544]];
    assert HasEnd(empty[544], 0);
    NoEnd(disk[544], 0);
    assert [disk[544]][1..] == [] && !Marked([disk[544]]);
    assert ClusterSector(v, 2) == 544;
    assert EntrySector(v, 2) == 32 && EntryOffset(v, 2) == 8;
    assert U16(disk[32], 8) == 2 && U16(disk[32], 10) == 0;
    assert NextCluster(disk, v, 2) == 2;
    assert Nth(disk, v, 2, 0) == 2 && Nth(disk, v, 2, 1) == 2;
    assert ListClosesOnItself(disk, v, 2, 0, 1) by {
      assert !ListStopsAt(disk, v, 2, 0);
    }
    ListNeverEndsExactly(disk, v, 2);
  }

  lemma {:induction false} NoEnd(sector: Sector, i: nat)
    requires i <= 16 && forall k :: 0 <= k < SECTOR ==> sector[k] != 0
    ensures !HasEnd(sector, i)
    decreases 16 - i
  {
    if i < 16 {
      NoEnd(sector, i + 1);
    }
  }

  /** fat_list_root on a root directory that is a chain of clusters. */
  method ListChain(volume: FatVolume, ghost n: nat) returns (lines: seq<Line>)
    requires volume.geometry.bytesPerSector == SECTOR && ListEnds(volume.disk, volume.geometry, volume.geometry.rootCluster, n)
    ensures lines == Lines(Listed(ChainSectors(volume.disk, volume.geometry, volume.geometry.rootCluster, n)))
  {
    hide Lines, Listed, ClusterSectors, Marked, NextCluster, ClusterSector;
    ghost var disk, g := volume.disk, volume.geometry;
    lines := [];
    ListedNone();
    var cluster: nat := volume.geometry.rootCluster;
    ghost var m := n;
    while cluster < ROOT_END
      invariant ListEnds(disk, g, cluster, m)
      invariant lines + Lines(Listed(ChainSectors(disk, g, cluster, m))) == Lines(Listed(ChainSectors(disk, g, g.rootCluster, n)))
      decreases m
    {
      ghost var here := ClusterSectors(disk, g, ClusterSector(g, cluster), 0);
      ghost var rest := ChainSectors(disk, g, NextCluster(disk, g, cluster), m - 1);
      ListedConcat(here, rest);
      var some, ended := ListCluster(volume, ClusterSector(volume.geometry, cluster));
      lines := lines + some;
      if ended {
        return;
      }
      cluster := NextCluster(volume.disk, volume.geometry, cluster);
      m := m - 1;
    }
  }
}
