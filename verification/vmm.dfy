/** The virtual memory manager (vmm.cpp): page tables written in place in physical memory. */
module VirtualMemory {
  import opened Types
  import opened Frames
  import opened Paging
  import opened Copies
  import opened Image

  const IDENTITY_TABLES: nat := 32

  function IdentityTable(t: nat): (r: Page)
    ensures |r| == ENTRIES
  {
    seq(ENTRIES, p requires 0 <= p => Entry(t * ENTRIES + p, 3))
  }

  /** The tables vmm_init leaves behind map each page of the first 128 MB to itself. */
  ghost predicate Identity(dir: Page, mem: seq<Page>, first: nat)
  {
    && Shape(dir, mem)
    && first + IDENTITY_TABLES <= MAX_FRAMES
    && (forall t :: 0 <= t < IDENTITY_TABLES ==> dir[t] == Entry(first + t, 3) && mem[first + t] == IdentityTable(t))
    && (forall t :: IDENTITY_TABLES <= t < ENTRIES ==> dir[t] == ABSENT)
  }

  lemma IdentityTableIsGood(dir: Page, mem: seq<Page>, first: nat, t: nat)
    requires Identity(dir, mem, first) && t < ENTRIES
    ensures dir[t].Entry? && GoodTable(dir[t], mem)
    ensures Present(dir[t]) <==> t < IDENTITY_TABLES
  {
    if t < IDENTITY_TABLES {
      assert IdentityTable(t)[0] == Entry(t * ENTRIES, 3);
      OrGrants(3, 3, 3);
    }
  }

  lemma IdentityLookup(dir: Page, mem: seq<Page>, first: nat, page: nat)
    requires Identity(dir, mem, first) && page < PAGES
    ensures Lookup(dir, mem, page) == if page < MAX_FRAMES then Entry(page, 3) else ABSENT
  {
    var t, k := page / ENTRIES, page % ENTRIES;
    assert page == t * ENTRIES + k;
    if t < IDENTITY_TABLES {
      assert IdentityTable(t)[k] == Entry(page, 3);
    }
  }

  lemma IdentityIsFlat(dir: Page, mem: seq<Page>, first: nat)
    requires Identity(dir, mem, first)
    ensures TablesOk(dir, mem)
    ensures Flat(dir, mem) == map page | page in Below(MAX_FRAMES) :: Entry(page, 3)
    ensures forall f :: f in TableFrames(dir) <==> first <= f < first + IDENTITY_TABLES
  {
    forall t | 0 <= t < ENTRIES
      ensures dir[t].Entry? && GoodTable(dir[t], mem)
      ensures Present(dir[t]) <==> t < IDENTITY_TABLES
    {
      IdentityTableIsGood(dir, mem, first, t);
    }
    forall page: nat | page < PAGES
      ensures Lookup(dir, mem, page) == if page < MAX_FRAMES then Entry(page, 3) else ABSENT
    {
      IdentityLookup(dir, mem, first, page);
    }
    forall f | first <= f < first + IDENTITY_TABLES
      ensures f in TableFrames(dir)
    {
      assert dir[f - first].frame == f;
    }
  }

  lemma SpareIsFrame(used: set<nat>, total: nat)
    requires total <= MAX_FRAMES
    ensures Spare(used, total) < MAX_FRAMES
  {
  }

  // ----- two states in which a caller does not get what was asked for

  /** After vmm_init, with no frame left: the first new table is frame 0 and does no harm, the second makes two
      directory entries share it. */
  lemma TwiceOutOfFrames(dir: Page, mem: seq<Page>, first: nat, target: nat, flags: bv12)
    requires Identity(dir, mem, first) && 0 < first && first + IDENTITY_TABLES <= RESERVED
    ensures var s, p, q := Space(dir, mem, Below(RESERVED), RESERVED), KERNEL_FIRST * ENTRIES, (KERNEL_FIRST + 1) * ENTRIES;
            && Sound(s) && CanMap(s, p)
            && var s1 := MapIn(s, p, target, flags);
            Sound(s1) && !CanMap(s1, q) && !Sound(MapIn(s1, q, target, flags))
  {
    var s, p, q := Space(dir, mem, Below(RESERVED), RESERVED), KERNEL_FIRST * ENTRIES, (KERNEL_FIRST + 1) * ENTRIES;
    IdentityIsFlat(dir, mem, first);
    hide TablesOk, Flat, Identity, FlatOf;
    assert Sound(s) by {
      forall f | f in TableFrames(dir)
        ensures f in Below(RESERVED)
      {
      }
    }
    OutOfFrames(s);
    assert dir[KERNEL_FIRST] == ABSENT && dir[KERNEL_FIRST + 1] == ABSENT by {
      IdentityHigh(dir, mem, first);
    }
    MapInIsFlat(s, p, target, flags);
    var s1 := MapIn(s, p, target, flags);
    NewTable(s, p, target, flags);
    OutOfFrames(s1);
    assert s1.dir[KERNEL_FIRST].frame in TableFrames(s1.dir);
    MapInIsFlat(s1, q, target, flags);
  }

  /** After vmm_init, a page table taken away from its own address: the next vmm_map_page cannot write it. */
  lemma TableOutOfReach(dir: Page, mem: seq<Page>, first: nat, target: nat, total: nat)
    requires Identity(dir, mem, first) && 0 < first && first + IDENTITY_TABLES <= RESERVED && total <= MAX_FRAMES
    ensures var s, ops := Space(dir, mem, Below(RESERVED), total), [Unmap(first), Map(0, target, 3)];
            Playable(s, ops) && IdentityIntact(s) && !Carried(s, ops)
  {
    var s, ops := Space(dir, mem, Below(RESERVED), total), [Unmap(first), Map(0, target, 3)];
    hide TablesOk, Flat, Do;
    IdentityIsFlat(dir, mem, first);
    assert dir[0] == Entry(first, 3) && Present(dir[0]);
    assert TableFrames(dir) <= Below(RESERVED);
    DoKeepsSound(s, Unmap(first));
    var s1 := Do(s, ops[0]);
    assert s1.dir == s.dir by {
      UnmapKeepsDirectory(s, first);
    }
    assert first !in FlatOf(s1) && !Writable(s1, ops[1]);
    assert ops[1..] == [Map(0, target, 3)] && ops[1..][1..] == [];
    assert 0 / ENTRIES == 0 && CanMap(s1, 0);
    assert Playable(s1, ops[1..]);
  }

  lemma UnmapKeepsDirectory(s: Space, page: nat)
    requires Sound(s) && page < PAGES
    ensures Do(s, Unmap(page)).dir == s.dir
  {
  }

  lemma IdentityHigh(dir: Page, mem: seq<Page>, first: nat)
    requires Identity(dir, mem, first)
    ensures forall t :: IDENTITY_TABLES <= t < ENTRIES ==> dir[t] == ABSENT
  {
  }

  lemma OutOfFrames(s: Space)
    requires Below(s.total) <= s.used
    ensures Spare(s.used, s.total) == 0
  {
    assert FreeFrames(s.used, s.total) == {};
    FullMeansNoneClear(s.used, s.total);
  }

  lemma NewTable(s: Space, page: nat, target: nat, flags: bv12)
    requires Sound(s) && page < PAGES && !Present(s.dir[page / ENTRIES])
    ensures var s1, spare := MapIn(s, page, target, flags), Spare(s.used, s.total);
            && s1.dir == s.dir[page / ENTRIES := Entry(spare, flags | 1)] && Present(s1.dir[page / ENTRIES])
            && s1.used == s.used + {spare} && s1.total == s.total
  {
    OrGrants(0, 0, flags);
  }

  /** A shared entry of a copy is the kernel's as it was when the copy was made. */
  lemma SharedEntry(copy: Page, s: Space, own: set<nat>, p: nat)
    requires CopyOf(copy, s, own) && KERNEL_FIRST <= p < ENTRIES
    ensures |copy| == ENTRIES && copy[p] == s.dir[p]
  {
    assert CopiedEntry(copy[p], s.dir[p], s.mem, own, p);
  }

  /** A page of the kernel's mapped for the kernel only, a directory copied, the page mapped again for user tasks:
      the kernel's own directory grants it, no copy does. */
  lemma UserAccessIsNotShared(s: Space, page: nat, target: nat, copy: Page, own: set<nat>)
    requires Sound(s) && KERNEL_FIRST * ENTRIES <= page < PAGES && CanMap(s, page) && !Present(s.dir[page / ENTRIES])
    requires var s1 := MapIn(s, page, target, 3); CopyOf(copy, s1, own) && Linked(copy, s1, own)
    ensures var s1 := MapIn(s, page, target, 3);
            && Sound(s1) && CanMap(s1, page)
            && var s2 := MapIn(s1, page, target, 7);
            && page in FlatOf(s2) && FlatOf(s2)[page].flags == 7
            && Present(copy[page / ENTRIES]) && Present(Lookup(copy, s2.mem, page))
            && Effective(copy, s2.mem, page) != 7
  {
    hide Flat, MapIn, CopyOf, Linked;
    MapInIsFlat(s, page, target, 3);
    NewTable(s, page, target, 3);
    var s1, p := MapIn(s, page, target, 3), page / ENTRIES;
    SharedEntry(copy, s1, own, p);
    MapInIsFlat(s1, page, target, 7);
    SharedRights(copy, s1, own, page, target, 7);
  }

  /** The directory vmm_create_user_page_dir makes when no frame is left for a table of its own: only shared entries. */
  function SharedOnly(dir: Page): (r: Page)
    requires |dir| == ENTRIES
    ensures |r| == ENTRIES
  {
    seq(ENTRIES, i requires 0 <= i < ENTRIES => if i >= KERNEL_FIRST then dir[i] else ABSENT)
  }

  lemma SharedOnlyIsCopy(s: Space)
    requires Sound(s)
    ensures |s.dir| == ENTRIES && CopyOf(SharedOnly(s.dir), s, {}) && Linked(SharedOnly(s.dir), s, {})
  {
  }

  /** After vmm_init such a copy, made between the two mappings, is one that lacks the rights of the second. */
  lemma UserAccessExample(dir: Page, mem: seq<Page>, first: nat, target: nat, total: nat)
    requires Identity(dir, mem, first) && 0 < first && first + IDENTITY_TABLES <= RESERVED && total <= MAX_FRAMES
    ensures var s, page := Space(dir, mem, Below(RESERVED), total), KERNEL_FIRST * ENTRIES;
            && Sound(s) && Sound(MapIn(s, page, target, 3))
            && var s1 := MapIn(s, page, target, 3);
            var copy, s2 := SharedOnly(s1.dir), MapIn(s1, page, target, 7);
            && CopyOf(copy, s1, {})
            && page in FlatOf(s2) && FlatOf(s2)[page].flags == 7
            && Present(copy[page / ENTRIES]) && Present(Lookup(copy, s2.mem, page))
            && Effective(copy, s2.mem, page) != 7
  {
    hide TablesOk, Flat, MapIn, CopyOf, Linked, SharedOnly, Identity;
    var s, page := Space(dir, mem, Below(RESERVED), total), KERNEL_FIRST * ENTRIES;
    IdentityIsFlat(dir, mem, first);
    IdentityHigh(dir, mem, first);
    InitIsSound(dir, mem, first, total);
    MapInIsFlat(s, page, target, 3);
    SharedOnlyIsCopy(MapIn(s, page, target, 3));
    UserAccessIsNotShared(s, page, target, SharedOnly(MapIn(s, page, target, 3).dir), {});
  }

  lemma InitIsSound(dir: Page, mem: seq<Page>, first: nat, total: nat)
    requires Identity(dir, mem, first) && 0 < first && first + IDENTITY_TABLES <= RESERVED && total <= MAX_FRAMES
    ensures var s := Space(dir, mem, Below(RESERVED), total);
            Sound(s) && forall page: nat :: page < PAGES ==> CanMap(s, page)
  {
    hide TablesOk, Flat, Identity;
    IdentityIsFlat(dir, mem, first);
    assert FirstClear(Below(RESERVED), total, 0) < total ==> FirstClear(Below(RESERVED), total, 0) !in Below(RESERVED);
    assert TableFrames(dir) <= Below(RESERVED);
  }

  class AddressSpace {
    const pmm: FrameAllocator
    const dir: array<Word>     // kernel_page_directory
    const mem: array<Page>     // physical memory, frame by frame

    ghost function Footprint(): set<object>
    {
      {dir, mem, pmm, pmm.bitmap}
    }

    ghost function Now(): Space
      reads dir, mem, pmm
    {
      Space(dir[..], mem[..], pmm.used, pmm.totalFrames)
    }

    ghost predicate Valid()
      reads Footprint()
    {
      && pmm.Valid()
      && dir.Length == ENTRIES
      && mem.Length == MAX_FRAMES
      && Sound(Now())
    }

    ghost function FlatMap(): map<nat, Word>
      requires dir.Length == ENTRIES
      reads dir, mem, pmm
    {
      FlatOf(Now())
    }

    /** vmm_init without a framebuffer. The identity tables are 32 frames of the kernel image. */
    constructor (frames: FrameAllocator, ram: array<Page>, first: nat)
      requires frames.Valid() && Below(RESERVED) <= frames.used
      requires ram.Length == MAX_FRAMES && forall f :: 0 <= f < ram.Length ==> |ram[f]| == ENTRIES
      requires first + IDENTITY_TABLES <= RESERVED
      modifies ram
      ensures Valid() && pmm == frames && mem == ram && fresh(dir)
      ensures FlatMap() == map page | page in Below(MAX_FRAMES) :: Entry(page, 3)
      ensures forall f :: f in TableFrames(dir[..]) <==> first <= f < first + IDENTITY_TABLES
    {
      pmm := frames;
      mem := ram;
      dir := new Word[ENTRIES](_ => ABSENT);
      new;
      for t := 0 to IDENTITY_TABLES
        invariant forall f :: 0 <= f < mem.Length ==> |mem[f]| == ENTRIES
        invariant forall u :: 0 <= u < t ==> dir[u] == Entry(first + u, 3) && mem[first + u] == IdentityTable(u)
      {
        FillIdentityTable(first + t, t);
        dir[t] := Entry(first + t, 3);
      }
      for t := IDENTITY_TABLES to ENTRIES
        invariant forall f :: 0 <= f < mem.Length ==> |mem[f]| == ENTRIES
        invariant forall u :: 0 <= u < IDENTITY_TABLES ==> dir[u] == Entry(first + u, 3) && mem[first + u] == IdentityTable(u)
        invariant forall u :: IDENTITY_TABLES <= u < t ==> dir[u] == ABSENT
      {
        dir[t] := ABSENT;
      }
      IdentityIsFlat(dir[..], mem[..], first);
    }

    /** The inner loop of vmm_init. */
    method FillIdentityTable(table: nat, t: nat)
      requires table < mem.Length && |mem[table]| == ENTRIES
      modifies mem
      ensures mem[..] == old(mem[..])[table := IdentityTable(t)]
    {
      for p := 0 to ENTRIES
        invariant |mem[table]| == ENTRIES && mem[..] == old(mem[..])[table := mem[table]]
        invariant forall k :: 0 <= k < p ==> mem[table][k] == Entry(t * ENTRIES + k, 3)
      {
        mem[table] := mem[table][p := Entry(t * ENTRIES + p, 3)];
      }
      assert mem[table] == IdentityTable(t);
    }

    /** The loop that clears a new table. */
    method ClearTable(table: nat)
      requires table < mem.Length && |mem[table]| == ENTRIES
      modifies mem
      ensures mem[..] == old(mem[..])[table := EmptyTable()]
    {
      for i := 0 to ENTRIES
        invariant |mem[table]| == ENTRIES && mem[..] == old(mem[..])[table := mem[table]]
        invariant forall k :: 0 <= k < i ==> mem[table][k] == ABSENT
      {
        mem[table] := mem[table][i := ABSENT];
      }
      assert mem[table] == EmptyTable();
    }

    /** The allocation inside vmm_map_page, null read as frame 0. */
    method AllocTable() returns (address: nat)
      requires pmm.Valid() && Below(RESERVED) <= pmm.used
      modifies pmm`usedFrames, pmm`used, pmm.bitmap
      ensures pmm.Valid()
      ensures address == Spare(old(pmm.used), pmm.totalFrames) * PAGE_SIZE
      ensures pmm.used == old(pmm.used) + {Spare(old(pmm.used), pmm.totalFrames)}
    {
      assert 0 in pmm.used by { assert 0 in Below(RESERVED); }
      address := pmm.Alloc();
    }

    /** The first half of vmm_map_page: a directory entry for the page, with a cleared table if it is new.
        A failed allocation is not noticed: the table is then frame 0. */
    method ProvideTable(pdIdx: nat, flags: bv12)
      requires Valid() && pdIdx < ENTRIES
      modifies dir, mem, pmm`usedFrames, pmm`used, pmm.bitmap
      ensures pmm.Valid()
      ensures var spare := Spare(old(pmm.used), pmm.totalFrames);
              var r := Provide(old(dir[..]), old(mem[..]), spare, pdIdx, flags);
              && dir[..] == r.0
              && mem[..] == r.1
              && pmm.used == if old(Present(dir[pdIdx])) then old(pmm.used) else old(pmm.used) + {spare}
    {
      if !Present(dir[pdIdx]) {
        AddTable(pdIdx, flags);
      } else {
        dir[pdIdx] := Entry(dir[pdIdx].frame, dir[pdIdx].flags | flags);
      }
    }

    /** The branch for a missing table. */
    method AddTable(pdIdx: nat, flags: bv12)
      requires Valid() && pdIdx < ENTRIES && !Present(dir[pdIdx])
      modifies dir, mem, pmm`usedFrames, pmm`used, pmm.bitmap
      ensures pmm.Valid() && pmm.used == old(pmm.used) + {Spare(old(pmm.used), pmm.totalFrames)}
      ensures dir[..] == old(dir[..])[pdIdx := Entry(Spare(old(pmm.used), pmm.totalFrames), flags | 1)]
      ensures mem[..] == old(mem[..])[Spare(old(pmm.used), pmm.totalFrames) := EmptyTable()]
    {
      hide Spare, Distinct, GoodTable;
      SpareIsFrame(pmm.used, pmm.totalFrames);
      var newPt := AllocTable();
      var table := newPt / PAGE_SIZE;
      ClearTable(table);
      dir[pdIdx] := Entry(table, flags | 1);
    }

    /** vmm_map_page. */
    method MapPage(virt: nat, phys: nat, flags: bv12)
      requires Valid() && virt < ADDRESSES && phys < ADDRESSES
      modifies dir, mem, pmm`usedFrames, pmm`used, pmm.bitmap
      ensures Now() == MapIn(old(Now()), virt / PAGE_SIZE, phys / PAGE_SIZE, flags)
      ensures Valid() <==> CanMap(old(Now()), virt / PAGE_SIZE)
      ensures Valid() ==>
                FlatMap() == old(FlatMap())[virt / PAGE_SIZE := Entry(phys / PAGE_SIZE, flags | 1)]
    {
      ghost var before := Now();
      Indices(before, virt);
      var pdIdx, ptIdx := virt / SPAN, virt / PAGE_SIZE % ENTRIES;
      ProvideTable(pdIdx, flags);
      ghost var mid := mem[..];
      var pt := dir[pdIdx].frame;
      mem[pt] := mem[pt][ptIdx := Entry(phys / PAGE_SIZE, flags | 1)];
      assert mem[..] == mid[pt := mid[pt][ptIdx := Entry(phys / PAGE_SIZE, flags | 1)]];
      assert Now() == MapIn(before, virt / PAGE_SIZE, phys / PAGE_SIZE, flags);
      MapInIsFlat(before, virt / PAGE_SIZE, phys / PAGE_SIZE, flags);
    }

    /** vmm_unmap_page. */
    method UnmapPage(virt: nat)
      requires Valid() && virt < ADDRESSES
      modifies mem
      ensures Valid()
      ensures Now() == UnmapIn(old(Now()), virt / PAGE_SIZE)
      ensures FlatMap() == old(FlatMap()) - {virt / PAGE_SIZE}
    {
      ghost var before := Now();
      var pdIdx, ptIdx := virt / SPAN, virt / PAGE_SIZE % ENTRIES;
      Indices(Now(), virt);
      if Present(dir[pdIdx]) {
        var pt := dir[pdIdx].frame;
        mem[pt] := mem[pt][ptIdx := ABSENT];
        assert mem[..] == before.mem[pt := mem[pt]];
      }
      UnmapInIsFlat(before, virt / PAGE_SIZE);
    }

    /** vmm_get_phys_addr. */
    method GetPhysAddr(virt: nat) returns (phys: nat)
      requires Valid() && virt < ADDRESSES
      ensures phys == Translate(FlatMap(), virt)
      ensures virt / 0x1000 in FlatMap() ==> phys / 0x1000 == FlatMap()[virt / 0x1000].frame && phys % 0x1000 == virt % 0x1000
      ensures virt / 0x1000 !in FlatMap() ==> phys == if virt < 0x800_0000 then virt else 0
    {
      TranslateInNumbers(FlatMap(), virt);
      var pdIdx, ptIdx := virt / SPAN, virt / PAGE_SIZE % ENTRIES;
      Indices(Now(), virt);
      if !Present(dir[pdIdx]) {
        if virt < IDENTITY_LIMIT {
          return virt;
        }
        return 0;
      }
      var pt := dir[pdIdx].frame;
      if !Present(mem[pt][ptIdx]) {
        if virt < IDENTITY_LIMIT {
          return virt;
        }
        return 0;
      }
      return mem[pt][ptIdx].frame * PAGE_SIZE + virt % PAGE_SIZE;
    }

    /** vmm_copy_kernel_pages, for a cleared directory in frame `home`. */
    method CopyKernelPages(home: nat)
      requires pmm.Valid() && dir.Length == ENTRIES && mem.Length == MAX_FRAMES && home < MAX_FRAMES
      requires Progress(Now(), Now(), home, 0)
      modifies mem, pmm`usedFrames, pmm`used, pmm.bitmap
      ensures Valid()
      ensures Progress(old(Now()), Now(), home, ENTRIES)
    {
      ghost var s0 := Now();
      for i: nat := 0 to ENTRIES
        invariant pmm.Valid() && Progress(s0, Now(), home, i)
      {
        CopyStepProgress(s0, Now(), home, i);
        CopyEntry(home, i);
      }
    }

    /** One round of the copying loop. */
    method CopyEntry(home: nat, i: nat)
      requires pmm.Valid() && Below(RESERVED) <= pmm.used && dir.Length == ENTRIES && mem.Length == MAX_FRAMES
      requires i < ENTRIES && home < MAX_FRAMES && home in pmm.used
      requires Present(dir[i]) ==> dir[i].frame < MAX_FRAMES && dir[i].frame in pmm.used
      requires forall f :: 0 <= f < MAX_FRAMES ==> |mem[f]| == ENTRIES
      modifies mem, pmm`usedFrames, pmm`used, pmm.bitmap
      ensures pmm.Valid()
      ensures Now() == CopyStep(old(Now()), home, i)
    {
      if i >= KERNEL_FIRST {
        SetEntry(home, i, dir[i]);
      } else if Present(dir[i]) {
        CopyLowEntry(home, i);
      }
    }

    /** The branch for a table of its own. */
    method CopyLowEntry(home: nat, i: nat)
      requires pmm.Valid() && Below(RESERVED) <= pmm.used && dir.Length == ENTRIES && mem.Length == MAX_FRAMES
      requires i < KERNEL_FIRST && home < MAX_FRAMES && home in pmm.used
      requires Present(dir[i]) && dir[i].frame < MAX_FRAMES && dir[i].frame in pmm.used
      requires forall f :: 0 <= f < MAX_FRAMES ==> |mem[f]| == ENTRIES
      modifies mem, pmm`usedFrames, pmm`used, pmm.bitmap
      ensures pmm.Valid()
      ensures Now() == CopyStep(old(Now()), home, i)
    {
      hide FirstClear, UsedIn;
      assert 0 in Below(RESERVED);
      var newPt := pmm.Alloc();
      if newPt != 0 {
        CopyTable(dir[i].frame, newPt / PAGE_SIZE);
        SetEntry(home, i, Entry(newPt / PAGE_SIZE, dir[i].flags));
      }
    }

    /** A write of one entry of the new directory. */
    method SetEntry(home: nat, i: nat, entry: Word)
      requires home < mem.Length && |mem[home]| == ENTRIES && i < ENTRIES
      modifies mem
      ensures mem[..] == old(mem[..])[home := old(mem[home])[i := entry]]
    {
      mem[home] := mem[home][i := entry];
    }

    /** The loop that copies one table word by word. */
    method CopyTable(source: nat, target: nat)
      requires source < mem.Length && target < mem.Length && source != target
      requires |mem[source]| == |mem[target]| == ENTRIES
      modifies mem
      ensures mem[..] == old(mem[..])[target := old(mem[source])]
    {
      for j := 0 to ENTRIES
        invariant |mem[target]| == ENTRIES && mem[..] == old(mem[..])[target := mem[target]]
        invariant mem[target][..j] == old(mem[source])[..j]
      {
        mem[target] := mem[target][j := mem[source][j]];
      }
      assert mem[target] == old(mem[source]);
    }

    /** The allocation and the clearing loop of vmm_create_user_page_dir. */
    method StartDirectory() returns (pd: nat)
      requires Valid()
      modifies mem, pmm`usedFrames, pmm`used, pmm.bitmap
      ensures pmm.Valid()
      ensures var f := FirstClear(old(pmm.used), pmm.totalFrames, 0);
              if f < pmm.totalFrames then pd == f * PAGE_SIZE && pd != 0 && Now() == Started(old(Now()))
              else pd == 0 && Now() == old(Now())
    {
      assert 0 in Below(RESERVED);
      pd := pmm.Alloc();
      if pd != 0 {
        ClearTable(pd / PAGE_SIZE);
      }
    }

    /** vmm_create_user_page_dir: the address of a directory for a user task, or 0. */
    method CreateUserPageDir() returns (pd: nat)
      requires Valid()
      modifies mem, pmm`usedFrames, pmm`used, pmm.bitmap
      ensures Valid()
      ensures pd == 0 <==> FreeFrames(old(pmm.used), pmm.totalFrames) == {}
      ensures pd == 0 ==> Now() == old(Now())
      ensures pd != 0 ==> Created(old(Now()), Now(), pd / PAGE_SIZE)
    {
      ghost var before := Now();
      FullMeansNoneClear(pmm.used, pmm.totalFrames);
      pd := StartDirectory();
      if pd == 0 {
        return;
      }
      StartedIsSound(before);
      CopyKernelPages(pd / PAGE_SIZE);
      CreatedAtLast(before, Now());
    }

    /** A store of one byte by virtual address, through the two-level walk. */
    method StoreByte(virt: nat, b: Byte)
      requires Valid() && virt < ADDRESSES && Backed(Now(), virt / PAGE_SIZE)
      modifies mem
      ensures Valid()
      ensures Now() == Poke(old(Now()), virt / PAGE_SIZE, virt % PAGE_SIZE, b)
      ensures var phys := Translate(old(FlatMap()), virt);
              forall a: nat :: a < 0x800_0000 ==> ByteAt(mem[..], a) == if a == phys then b else old(ByteAt(mem[..], a))
    {
      ghost var before := Now();
      StoreInNumbers(before, virt, b);
      hide ByteAt;
      Indices(before, virt);
      var pt := dir[virt / SPAN].frame;
      var f := mem[pt][virt / PAGE_SIZE % ENTRIES].frame;
      mem[f] := WithByteIn(mem[f], virt % PAGE_SIZE, b);
      assert mem[..] == before.mem[f := mem[f]];
      PokeKeepsTables(before, virt / PAGE_SIZE, virt % PAGE_SIZE, b);
    }

    /** A load of one byte by virtual address, through the two-level walk. */
    method LoadByte(virt: nat) returns (b: Byte)
      requires Valid() && virt < ADDRESSES && Backed(Now(), virt / PAGE_SIZE)
      ensures b == Bytes(mem[FrameOf(Now(), virt / PAGE_SIZE)])[virt % PAGE_SIZE]
      ensures var phys := Translate(FlatMap(), virt); phys < 0x800_0000 && b == ByteAt(mem[..], phys)
    {
      hide ByteAt, ByteIn, Translate;
      LoadInNumbers(Now(), virt);
      Indices(Now(), virt);
      var pt := dir[virt / SPAN].frame;
      var f := mem[pt][virt / PAGE_SIZE % ENTRIES].frame;
      b := ByteIn(mem[f], virt % PAGE_SIZE);
    }
  }
}
