/** Loading a program from disk (the last part of elf.cpp): the file reader, the heap and the loader together. */
module ElfDisk {
  import opened Types
  import opened Frames
  import opened Paging
  import opened Image
  import Elf
  import Fat
  import HeapModel
  import KernelHeap

  /** What a buffer as long as the file may hold after the file has been read into it. When the chain is shorter
      than the directory says, the rest is whatever the memory held before. */
  ghost predicate ReadOf(disk: Fat.Disk, g: Fat.Geometry, entry: Fat.DirEntry, data: seq<Byte>)
    requires g.bytesPerSector == Fat.SECTOR && g.sectorsPerCluster > 0
  {
    && |data| == entry.size
    && forall p :: 0 <= p < Fat.Available(disk, g, entry.firstCluster, entry.size) ==>
         data[p] == Fat.FileByte(disk, g, entry.firstCluster, p)
  }

  /** No segment covers a page of the region the heap grows in. */
  ghost predicate ClearOfHeap(data: seq<Byte>)
  {
    forall i: nat, p: nat :: Elf.Load(data, i) && Elf.SegmentAt(data, i).Covers(p) ==>
      p < HeapModel.HEAP_START / PAGE_SIZE || p >= HeapModel.HEAP_MAX / PAGE_SIZE
  }

  ghost function Found(volume: Fat.FatVolume, filename: seq<Byte>, n: nat): Option<Fat.DirEntry>
    requires volume.geometry.bytesPerSector == Fat.SECTOR
    reads volume
  {
    Fat.Lookup(Fat.Root(volume.disk, volume.geometry, n), Fat.FatName(filename))
  }

  /** What the loader takes for granted, of whatever the buffer holds after the read. */
  ghost predicate Loadable(disk: Fat.Disk, g: Fat.Geometry, entry: Fat.DirEntry)
    requires g.bytesPerSector == Fat.SECTOR && g.sectorsPerCluster > 0
  {
    && entry.size <= HeapModel.MAX_REQUEST
    && forall data :: ReadOf(disk, g, entry, data) ==> Elf.WellPlaced(data) && ClearOfHeap(data)
  }

  /** The `n` bytes from `src` on are in none of the blocks. */
  ghost predicate Spared(live: set<HeapModel.Block>, src: nat, n: nat)
  {
    forall b: HeapModel.Block :: b in live ==> src + n <= b.Payload() || b.End() <= src
  }

  /** Freeing what kmalloc has just returned leaves exactly the allocations of before, and the very same heap
      when it did not grow. */
  lemma MallocThenFree(h: HeapModel.Heap, request: nat, granted: nat)
    requires HeapModel.Inv(h) && granted <= HeapModel.PagesFor(HeapModel.RoundUp(request)) && HeapModel.Grants(h, granted)
    ensures var r := HeapModel.Malloc(h, request, granted);
            && (r.1 == 0 ==> r.0.blocks == h.blocks)
            && (r.1 != 0 ==>
                  && HeapModel.Allocated(r.0, r.1)
                  && HeapModel.HEAP_START <= r.1 && r.1 + request <= r.0.end
                  && request <= r.0.blocks[HeapModel.Index(r.0, r.1)].size
                  && Spared(HeapModel.Live(h.blocks), r.1, request)
                  && HeapModel.Live(HeapModel.Free(r.0, r.1).blocks) == HeapModel.Live(h.blocks)
                  && (HeapModel.Best(h.blocks, HeapModel.RoundUp(request), |h.blocks|) >= 0 ==> HeapModel.Free(r.0, r.1) == h))
  {
    hide HeapModel.Malloc, HeapModel.Best, HeapModel.Live, HeapModel.Release, HeapModel.Place;
    HeapModel.MallocKeepsInv(h, request, granted);
    HeapModel.MallocAllocates(h, request, granted);
    var r := HeapModel.Malloc(h, request, granted);
    if r.1 != 0 {
      var b := r.0.blocks[HeapModel.Index(r.0, r.1)];
      assert HeapModel.Inside(b, r.0.end);
      forall c | c in HeapModel.Live(h.blocks)
        ensures r.1 + request <= c.Payload() || c.End() <= r.1
      {
        HeapModel.LiveAreApart(r.0.blocks, r.0.end, b, c);
      }
      HeapModel.ReleaseRemovesOne(r.0.blocks, r.0.end, HeapModel.Index(r.0, r.1));
      if HeapModel.Best(h.blocks, HeapModel.RoundUp(request), |h.blocks|) >= 0 {
        HeapModel.FreeUndoesMalloc(h, request, granted);
      }
    }
  }

  /** What the loader maps and stores elsewhere does not touch the pages the heap owns, nor a byte in them. */
  lemma OwnsStays(s0: Space, s: Space, pages: map<nat, nat>, owned: map<nat, nat>)
    requires Owns(s0, owned) && Sound(s) && Elsewhere(s0, s, pages)
    requires owned.Keys !! pages.Keys
    ensures Owns(s, owned) && forall flags: bv12 :: Granted(s0, owned, flags) ==> Granted(s, owned, flags)
    ensures forall p :: p in owned ==> owned[p] < MAX_FRAMES && s.mem[owned[p]] == s0.mem[owned[p]]
  {
    hide Flat;
    forall p | p in owned
      ensures Backed(s, p) && owned[p] == FrameOf(s, p)
      ensures s.mem[owned[p]] == s0.mem[owned[p]]
    {
      assert Backed(s0, p) && owned[p] in owned.Values;
      assert 0 in Below(RESERVED);
    }
  }

  /** What a successful load means: the pages of the segments read as the file says and are open to user code, the result
      gives entry point and hull. */
  ghost predicate Runnable(s: Space, data: seq<Byte>, result: Elf.LoadResult)
    requires Sound(s)
  {
    && Elf.Acceptable(data)
    && result.entryPoint == Elf.EntryPoint(data)
    && Elf.IsHull(data, result.loadBase, result.loadSize)
    && Elf.ImageLoaded(s, data)
    && Elf.OpenToUsers(s, data)
    && (forall j: nat :: Elf.Load(data, j) && Elf.Undisturbed(data, j) ==> Elf.SegmentLoaded(s, data, Elf.SegmentAt(data, j)))
    && forall j: nat :: Elf.Load(data, j) && Elf.Undisturbed(data, j) ==>
         var seg := Elf.SegmentAt(data, j);
         && (seg.offset + seg.filesz <= |data| ==>
               forall a: nat :: seg.vaddr <= a < seg.vaddr + seg.filesz ==> Elf.LoadOf(s, a) == data[seg.offset + (a - seg.vaddr)])
         && forall a: nat :: seg.vaddr + seg.filesz <= a < seg.vaddr + seg.memsz ==> Elf.LoadOf(s, a) == 0
  }

  /** When the chain is as long as the directory says, the buffer can only hold the file. */
  lemma WholeFileIsRead(disk: Fat.Disk, g: Fat.Geometry, entry: Fat.DirEntry, data: seq<Byte>)
    requires g.bytesPerSector == Fat.SECTOR && g.sectorsPerCluster > 0
    requires Fat.Available(disk, g, entry.firstCluster, entry.size) == entry.size
    ensures ReadOf(disk, g, entry, data) <==>
            data == seq(entry.size, p requires 0 <= p => Fat.FileByte(disk, g, entry.firstCluster, p))
  {
    hide Fat.FileByte, Fat.Available;
    var file := seq(entry.size, p requires 0 <= p => Fat.FileByte(disk, g, entry.firstCluster, p));
    if ReadOf(disk, g, entry, data) {
      assert data == file;
    }
  }

  // ----- the block that holds the file

  /** `n` bytes from `src` on lie in pages of `owned`. */
  ghost predicate InPages(owned: map<nat, nat>, src: nat, n: nat)
  {
    src + n <= ADDRESSES && forall k: nat :: k < n ==> Elf.PageAt(src, k) in owned
  }

  /** Bytes of the pages of `owned`, except `n` from `src` on, are as they were. */
  ghost predicate SameElsewhere(s0: Space, s: Space, owned: map<nat, nat>, src: nat, n: nat)
  {
    forall p, k: nat | p in owned && k < PAGE_SIZE && !(src <= p * PAGE_SIZE + k < src + n) ::
      owned[p] < |s0.mem| && owned[p] < |s.mem| && |s0.mem[owned[p]]| == |s.mem[owned[p]]| == ENTRIES ==>
        Bytes(s.mem[owned[p]])[k] == Bytes(s0.mem[owned[p]])[k]
  }

  /** What holds after the first bytes of the file have been stored. */
  ghost predicate Stored(s0: Space, s: Space, owned: map<nat, nat>, src: nat, data: seq<Byte>)
  {
    && Healthy(s) && IdentityIntact(s) && Owns(s, owned) && Granted(s, owned, 3) && InPages(owned, src, |data|)
    && Elf.LiesAt(s, src, data)
    && SameElsewhere(s0, s, owned, src, |data|)
  }

  lemma StoredNothing(s: Space, owned: map<nat, nat>, src: nat)
    requires Healthy(s) && IdentityIntact(s) && Owns(s, owned) && Granted(s, owned, 3) && src <= ADDRESSES
    ensures Stored(s, s, owned, src, [])
  {
  }

  lemma PokeKeepsOwner(s: Space, owned: map<nat, nat>, page: nat, k: nat, b: Byte)
    requires Healthy(s) && IdentityIntact(s) && Owns(s, owned) && page in owned && k < PAGE_SIZE
    ensures Sound(s) && Backed(s, page)
    ensures var s' := Poke(s, page, k, b);
            && Sound(s') && Healthy(s') && IdentityIntact(s') && Owns(s', owned) && FlatOf(s') == FlatOf(s)
            && (forall p :: p in owned && p != page ==> s'.mem[owned[p]] == s.mem[owned[p]])
            && Bytes(s'.mem[owned[page]]) == Put(Bytes(s.mem[owned[page]]), k, b)
  {
    hide Flat, ByteIn, Bytes, WithByteIn, Put;
    assert Backed(s, page) && owned[page] == FrameOf(s, page);
    PokeKeepsTables(s, page, k, b);
    BytesWithByte(s.mem[owned[page]], k, b);
    var s' := Poke(s, page, k, b);
    forall p | p in owned
      ensures Backed(s', p) && owned[p] == FrameOf(s', p)
      ensures p != page ==> s'.mem[owned[p]] == s.mem[owned[p]]
    {
      assert Backed(s, p) && owned[p] == FrameOf(s, p);
    }
  }

  /** Where a byte lies, and that different bytes lie at different places. */
  lemma Places(src: nat, j: nat, k: nat)
    ensures Elf.PageAt(src, j) * PAGE_SIZE + (src + j) % PAGE_SIZE == src + j
    ensures Elf.PageAt(src, j) == Elf.PageAt(src, k) && (src + j) % PAGE_SIZE == (src + k) % PAGE_SIZE ==> j == k
  {
  }

  lemma OwnedByte(s: Space, owned: map<nat, nat>, p: nat)
    requires Owns(s, owned) && p in owned
    ensures Backed(s, p) && owned[p] == FrameOf(s, p) && 0 < owned[p] < MAX_FRAMES && owned[p] in s.used
    ensures |s.mem| == MAX_FRAMES && |s.mem[owned[p]]| == ENTRIES
  {
    hide Flat;
    assert owned[p] in owned.Values && 0 in Below(RESERVED);
  }

  lemma StoredByte(s0: Space, s: Space, owned: map<nat, nat>, src: nat, data: seq<Byte>, b: Byte)
    requires Stored(s0, s, owned, src, data) && InPages(owned, src, |data| + 1)
    ensures var page, k := Elf.PageAt(src, |data|), (src + |data|) % PAGE_SIZE;
            Backed(s, page) && Stored(s0, Poke(s, page, k, b), owned, src, data + [b])
  {
    hide Flat, Bytes, Owns, Healthy, IdentityIntact, Backed, Poke, SameElsewhere;
    var page, k := Elf.PageAt(src, |data|), (src + |data|) % PAGE_SIZE;
    PokeKeepsOwner(s, owned, page, k, b);
    var s' := Poke(s, page, k, b);
    forall j: nat | j < |data| + 1
      ensures Elf.Reads(s', src + j, (data + [b])[j]) && Backed(s', Elf.PageAt(src, j))
      ensures 0 < FrameOf(s', Elf.PageAt(src, j)) && FrameOf(s', Elf.PageAt(src, j)) in s'.used
    {
      var p := Elf.PageAt(src, j);
      OwnedByte(s, owned, p);
      OwnedByte(s', owned, p);
      Places(src, j, |data|);
      assert j < |data| ==> Elf.Reads(s, src + j, data[j]);
    }
    forall p | p in owned
      ensures owned[p] < |s.mem| == |s'.mem| && |s.mem[owned[p]]| == |s'.mem[owned[p]]| == ENTRIES
    {
      OwnedByte(s, owned, p);
      OwnedByte(s', owned, p);
    }
    SameElsewhereStep(s0, s, s', owned, src, |data|, b);
  }

  lemma SameElsewhereStep(s0: Space, s: Space, s': Space, owned: map<nat, nat>, src: nat, n: nat, b: Byte)
    requires SameElsewhere(s0, s, owned, src, n) && Owns(s, owned) && Owns(s', owned) && Elf.PageAt(src, n) in owned
    requires forall p :: p in owned ==> owned[p] < |s.mem| == |s'.mem| && |s.mem[owned[p]]| == |s'.mem[owned[p]]| == ENTRIES
    requires forall p :: p in owned && p != Elf.PageAt(src, n) ==> s'.mem[owned[p]] == s.mem[owned[p]]
    requires Bytes(s'.mem[owned[Elf.PageAt(src, n)]]) == Put(Bytes(s.mem[owned[Elf.PageAt(src, n)]]), (src + n) % PAGE_SIZE, b)
    ensures SameElsewhere(s0, s', owned, src, n + 1)
  {
    hide Bytes, Owns;
    Places(src, n, n);
  }

  /** The bytes of `buffer` written to the block at `src`, through the page tables. */
  method StoreFile(heap: KernelHeap.Heap, src: nat, buffer: array<Byte>)
    requires heap.Valid() && HeapModel.HEAP_START <= src && src + buffer.Length <= heap.end
    modifies heap.vm.mem
    ensures heap.Valid() && Elf.LiesAt(heap.vm.Now(), src, buffer[..])
    ensures SameElsewhere(old(heap.vm.Now()), heap.vm.Now(), heap.pages, src, buffer.Length)
  {
    hide Owns, Elsewhere, Flat, Healthy, IdentityIntact, HeapModel.Inv, HeapModel.Ordered, Elf.LiesAt, SameElsewhere, InPages, Backed, Poke;
    ghost var s0 := heap.vm.Now();
    BlockPages(heap, src, buffer.Length);
    StoredNothing(s0, heap.pages, src);
    assert buffer[..0] == [];
    for i: nat := 0 to buffer.Length
      invariant heap.Linked() && HeapModel.Inv(heap.Model()) && heap.vm.Valid()
      invariant Stored(s0, heap.vm.Now(), heap.pages, src, buffer[..i])
    {
      FirstPages(heap.pages, src, buffer.Length, i + 1);
      StoredByte(s0, heap.vm.Now(), heap.pages, src, buffer[..i], buffer[i]);
      InRange(heap.pages, src, buffer.Length, i);
      heap.vm.StoreByte(src + i, buffer[i]);
      assert buffer[..i + 1] == buffer[..i] + [buffer[i]];
    }
    assert buffer[..buffer.Length] == buffer[..];
  }

  lemma FirstPages(owned: map<nat, nat>, src: nat, n: nat, m: nat)
    requires InPages(owned, src, n) && m <= n
    ensures InPages(owned, src, m)
  {
  }

  lemma InRange(owned: map<nat, nat>, src: nat, n: nat, i: nat)
    requires InPages(owned, src, n) && i < n
    ensures src + i < ADDRESSES
  {
  }

  lemma BlockPages(heap: KernelHeap.Heap, src: nat, n: nat)
    requires heap.Valid() && HeapModel.HEAP_START <= src && src + n <= heap.end
    ensures InPages(heap.pages, src, n) && src <= ADDRESSES
  {
    hide Owns, Flat, Healthy, IdentityIntact, HeapModel.Inv, HeapModel.Laid;
    HeapModel.OrderedEnd(heap.Model());
    forall k: nat | k < n
      ensures Elf.PageAt(src, k) in heap.pages
    {
      assert HeapModel.HEAP_START / PAGE_SIZE <= (src + k) / PAGE_SIZE < heap.end / PAGE_SIZE;
    }
  }

  // ----- what the other blocks hold

  ghost predicate SameByte(s0: Space, before: map<nat, nat>, s: Space, after: map<nat, nat>, a: nat)
  {
    var p := a / PAGE_SIZE;
    && p in before && before[p] < |s0.mem| && |s0.mem[before[p]]| == ENTRIES
    && p in after && after[p] < |s.mem| && |s.mem[after[p]]| == ENTRIES
    && Bytes(s.mem[after[p]])[a % PAGE_SIZE] == Bytes(s0.mem[before[p]])[a % PAGE_SIZE]
  }

  /** Every payload byte of these blocks is as it was. */
  ghost predicate PayloadsKept(s0: Space, before: map<nat, nat>, s: Space, after: map<nat, nat>, live: set<HeapModel.Block>)
  {
    forall b: HeapModel.Block, a: nat :: b in live && b.Payload() <= a < b.End() ==> SameByte(s0, before, s, after, a)
  }

  /** Every payload byte of these blocks has a page with a frame of memory. */
  ghost predicate Housed(s: Space, owned: map<nat, nat>, live: set<HeapModel.Block>)
  {
    PayloadsKept(s, owned, s, owned, live)
  }

  lemma HousedIsKept(s: Space, owned: map<nat, nat>, live: set<HeapModel.Block>)
    requires Housed(s, owned, live)
    ensures PayloadsKept(s, owned, s, owned, live)
  {
  }

  lemma LiveAreHoused(heap: KernelHeap.Heap)
    requires heap.Valid()
    ensures Housed(heap.vm.Now(), heap.pages, HeapModel.Live(heap.Model().blocks))
  {
    hide Owns, Flat, Healthy, IdentityIntact, Bytes, heap.vm.Valid;
    var s, live := heap.vm.Now(), HeapModel.Live(heap.Model().blocks);
    forall b: HeapModel.Block, a: nat | b in live && b.Payload() <= a < b.End()
      ensures SameByte(s, heap.pages, s, heap.pages, a)
    {
      HeapModel.LiveAreApart(heap.Model().blocks, heap.end, b, b);
      BlockPages(heap, b.Payload(), b.size);
      assert Elf.PageAt(b.Payload(), a - b.Payload()) in heap.pages;
      OwnedByte(s, heap.pages, a / PAGE_SIZE);
    }
  }

  lemma KeptPagesKeepPayloads(s0: Space, before: map<nat, nat>, s: Space, after: map<nat, nat>, live: set<HeapModel.Block>)
    requires Housed(s0, before, live) && KernelHeap.PagesKept(s0, before, s, after)
    ensures PayloadsKept(s0, before, s, after, live) && Housed(s, after, live)
  {
    hide Bytes;
    forall b: HeapModel.Block, a: nat | b in live && b.Payload() <= a < b.End()
      ensures SameByte(s0, before, s, after, a) && SameByte(s, after, s, after, a)
    {
      assert SameByte(s0, before, s0, before, a);
    }
  }

  /** Storing the file behind a block's address leaves the payloads of the others. */
  lemma StoreKeepsPayloads(s0: Space, s: Space, owned: map<nat, nat>, src: nat, n: nat, live: set<HeapModel.Block>)
    requires Housed(s0, owned, live) && Owns(s, owned)
    requires SameElsewhere(s0, s, owned, src, n) && Spared(live, src, n)
    ensures PayloadsKept(s0, owned, s, owned, live) && Housed(s, owned, live)
  {
    hide Bytes, Owns;
    forall b: HeapModel.Block, a: nat | b in live && b.Payload() <= a < b.End()
      ensures SameByte(s0, owned, s, owned, a) && SameByte(s, owned, s, owned, a)
    {
      assert SameByte(s0, owned, s0, owned, a);
      OwnedByte(s, owned, a / PAGE_SIZE);
      assert a == a / PAGE_SIZE * PAGE_SIZE + a % PAGE_SIZE;
    }
  }

  lemma PayloadsKeptTwice(s0: Space, before: map<nat, nat>, s1: Space, between: map<nat, nat>, s2: Space, after: map<nat, nat>,
                          live: set<HeapModel.Block>)
    requires PayloadsKept(s0, before, s1, between, live) && PayloadsKept(s1, between, s2, after, live)
    ensures PayloadsKept(s0, before, s2, after, live)
  {
    hide Bytes;
    forall b: HeapModel.Block, a: nat | b in live && b.Payload() <= a < b.End()
      ensures SameByte(s0, before, s2, after, a)
    {
      assert SameByte(s0, before, s1, between, a) && SameByte(s1, between, s2, after, a);
    }
  }

  // ----- the load

  /** elf_load_from_memory of a file in a heap block: the heap's pages stay its own and keep every byte, the file
      among them. */
  method LoadBesideHeap(heap: KernelHeap.Heap, src: nat, size: nat, ghost data: seq<Byte>) returns (result: Elf.LoadResult)
    requires heap.Valid() && Elf.WellPlaced(data) && ClearOfHeap(data)
    requires size == |data| && Elf.LiesAt(heap.vm.Now(), src, data) && HeapModel.HEAP_START <= src && src + size <= heap.end
    modifies heap.vm.dir, heap.vm.mem, heap.vm.pmm`usedFrames, heap.vm.pmm`used, heap.vm.pmm.bitmap
    ensures heap.Valid() && Elf.LiesAt(heap.vm.Now(), src, data)
    ensures KernelHeap.PagesKept(old(heap.vm.Now()), heap.pages, heap.vm.Now(), heap.pages)
    ensures result.success ==> Runnable(heap.vm.Now(), data, result)
    ensures !result.success ==> result == Elf.FAILED
    ensures !result.success && Elf.Acceptable(data) ==> FreeFrames(heap.vm.pmm.used, heap.vm.pmm.totalFrames) == {}
  {
    hide Owns, Elsewhere, Flat, Elf.WellPlaced, Elf.Acceptable, Elf.IsHull, Elf.SegmentLoaded, Elf.Load, Elf.SegmentAt,
      HeapModel.Inv, HeapModel.Ordered, Elf.LiesAt, Elf.ImageLoaded, Elf.Undisturbed;
    ghost var s0 := heap.vm.Now();
    ghost var pages;
    HeapEnd(heap.Model());
    BlockPages(heap, src, size);
    BlockIsClear(data, src, heap.pages, heap.end);
    result, pages := Elf.LoadFromMemory(heap.vm, src, size, data);
    assert heap.pages.Keys !! pages.Keys;
    OwnsStays(s0, heap.vm.Now(), pages, heap.pages);
    assert |s0.mem| == |heap.vm.Now().mem| == MAX_FRAMES;
  }

  lemma BlockIsClear(data: seq<Byte>, src: nat, owned: map<nat, nat>, end: nat)
    requires ClearOfHeap(data) && InPages(owned, src, |data|) && end / PAGE_SIZE <= HeapModel.HEAP_MAX / PAGE_SIZE
    requires forall p :: p in owned ==> HeapModel.HEAP_START / PAGE_SIZE <= p < end / PAGE_SIZE
    ensures Elf.ClearOfInput(data, src)
  {
    hide Elf.Load, Elf.SegmentAt;
  }

  lemma HeapEnd(h: HeapModel.Heap)
    requires HeapModel.Ordered(h)
    ensures h.end / PAGE_SIZE <= HeapModel.HEAP_MAX / PAGE_SIZE
  {
  }

  /** fat_read_file into a buffer as long as the file. */
  method FetchFile(volume: Fat.FatVolume, filename: seq<Byte>, buffer: array<Byte>, ghost n: nat) returns (ok: bool)
    requires volume.Valid() && volume.active && Fat.CString(filename)
    requires Fat.FindEnds(volume.disk, volume.geometry, Fat.FatName(filename), n)
    requires Found(volume, filename, n).Some? && buffer.Length == Found(volume, filename, n).value.size
    modifies buffer
    ensures var entry := Found(volume, filename, n).value;
            && (ok <==> Fat.AllReadable(volume.disk, volume.geometry, entry.firstCluster,
                                        Fat.Available(volume.disk, volume.geometry, entry.firstCluster, entry.size)))
            && (ok ==> ReadOf(volume.disk, volume.geometry, entry, buffer[..]))
  {
    hide Fat.Lookup, Fat.Root, Fat.FatName, Fat.Available, Fat.FileByte, Fat.FindEnds, Fat.AllReadable, Fat.FileSector;
    ghost var done;
    ok, done := volume.ReadFile(filename, buffer, buffer.Length, n);
  }

  /** kmalloc of a block that is to be given back. */
  method Borrow(heap: KernelHeap.Heap, size: nat) returns (ptr: nat)
    requires heap.Valid() && 0 < size <= HeapModel.MAX_REQUEST
    modifies heap, heap.vm.dir, heap.vm.mem, heap.vm.pmm`usedFrames, heap.vm.pmm`used, heap.vm.pmm.bitmap
    ensures heap.Valid() && KernelHeap.PagesKept(old(heap.vm.Now()), old(heap.pages), heap.vm.Now(), heap.pages)
    ensures ptr == 0 ==>
              && heap.Model().blocks == old(heap.Model().blocks)
              && (heap.end == HeapModel.HEAP_MAX || FreeFrames(heap.vm.pmm.used, heap.vm.pmm.totalFrames) == {})
    ensures ptr != 0 ==>
              && HeapModel.Allocated(heap.Model(), ptr)
              && HeapModel.HEAP_START <= ptr && ptr + size <= heap.end
              && size <= heap.Model().blocks[HeapModel.Index(heap.Model(), ptr)].size
              && Spared(old(HeapModel.Live(heap.Model().blocks)), ptr, size)
              && HeapModel.Live(HeapModel.Free(heap.Model(), ptr).blocks) == old(HeapModel.Live(heap.Model().blocks))
  {
    hide HeapModel.Inv, HeapModel.Ordered, HeapModel.Malloc, HeapModel.Live, HeapModel.Best, Owns, Flat;
    ghost var h, granted := heap.Model(), 0;
    InvOf(h);
    ptr, granted := heap.Kmalloc(size);
    MallocThenFree(h, size, granted);
  }

  lemma InvOf(h: HeapModel.Heap)
    requires HeapModel.Inv(h)
    ensures HeapModel.Ordered(h)
  {
  }

  /** elf_load_from_disk: the file is read into a block of the heap, loaded from there and the block given back, so that
      the heap holds the same allocations afterwards on every path. After a success the block still holds the file. */
  method LoadFromDisk(volume: Fat.FatVolume, heap: KernelHeap.Heap, filename: seq<Byte>, ghost n: nat)
    returns (result: Elf.LoadResult, ghost data: seq<Byte>, ghost block: nat)
    requires volume.Valid() && heap.Valid() && Fat.CString(filename)
    requires volume.active ==> Fat.FindEnds(volume.disk, volume.geometry, Fat.FatName(filename), n)
    requires volume.active && Found(volume, filename, n).Some? ==>
               Loadable(volume.disk, volume.geometry, Found(volume, filename, n).value)
    modifies heap, heap.vm.dir, heap.vm.mem, heap.vm.pmm`usedFrames, heap.vm.pmm`used, heap.vm.pmm.bitmap
    ensures heap.Valid()
    ensures HeapModel.Live(heap.Model().blocks) == old(HeapModel.Live(heap.Model().blocks))
    ensures PayloadsKept(old(heap.vm.Now()), old(heap.pages), heap.vm.Now(), heap.pages,
                         old(HeapModel.Live(heap.Model().blocks)))
    ensures !result.success ==>
              && result == Elf.FAILED
              && (volume.active && Found(volume, filename, n).Some? ==>
                    var entry := Found(volume, filename, n).value;
                    var size := Fat.Available(volume.disk, volume.geometry, entry.firstCluster, entry.size);
                    || entry.size == 0
                    || !Fat.AllReadable(volume.disk, volume.geometry, entry.firstCluster, size)
                    || (ReadOf(volume.disk, volume.geometry, entry, data) && !Elf.Acceptable(data))
                    || heap.end == HeapModel.HEAP_MAX || FreeFrames(heap.vm.pmm.used, heap.vm.pmm.totalFrames) == {})
    ensures result.success ==>
              && volume.active && Found(volume, filename, n).Some?
              && ReadOf(volume.disk, volume.geometry, Found(volume, filename, n).value, data)
              && Elf.LiesAt(heap.vm.Now(), block, data)
              && Runnable(heap.vm.Now(), data, result)
  {
    hide Owns, Elsewhere, Flat, Elf.WellPlaced, Elf.Acceptable, HeapModel.Inv, HeapModel.Ordered, HeapModel.Live, HeapModel.Free,
      HeapModel.Allocated, ReadOf, ClearOfHeap, SameElsewhere, Elf.LiesAt, Fat.Lookup, Fat.Root, Fat.FatName,
      Fat.Available, Fat.FindEnds, Fat.AllReadable, Runnable, KernelHeap.PagesKept, PayloadsKept, Housed, Spared;
    result, data, block := Elf.FAILED, [], 0;
    ghost var s0, pages0, live := heap.vm.Now(), heap.pages, HeapModel.Live(heap.Model().blocks);
    LiveAreHoused(heap);
    HousedIsKept(s0, pages0, live);
    if !volume.active {
      return;
    }
    var fileSize := volume.GetFileSize(filename, n);
    if fileSize == 0 {
      return;
    }
    var ptr := Borrow(heap, fileSize);
    ghost var s1, pages := heap.vm.Now(), heap.pages;
    KeptPagesKeepPayloads(s0, pages0, s1, pages, live);
    if ptr == 0 {
      return;
    }
    var buffer := new Byte[fileSize];
    var ok := FetchFile(volume, filename, buffer, n);
    StoreFile(heap, ptr, buffer);
    ghost var s2 := heap.vm.Now();
    StoreKeepsPayloads(s1, s2, pages, ptr, fileSize, live);
    PayloadsKeptTwice(s0, pages0, s1, pages, s2, pages, live);
    if !ok {
      heap.Kfree(ptr);
      return;
    }
    data, block := buffer[..], ptr;
    result := LoadBesideHeap(heap, ptr, fileSize, data);
    KeptPagesKeepPayloads(s2, pages, heap.vm.Now(), pages, live);
    PayloadsKeptTwice(s0, pages0, s2, pages, heap.vm.Now(), pages, live);
    heap.Kfree(ptr);
  }
}
