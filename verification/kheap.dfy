/** The kernel heap (kheap.cpp): headers linked in place, growing page by page through the virtual memory manager. */
module KernelHeap {
  import opened Types
  import opened Frames
  import opened Paging
  import opened Image
  import opened VirtualMemory
  import opened HeapModel

  /** HeapBlock: what the 16 bytes before a payload hold; 0 is the null pointer. */
  datatype Header = Header(size: nat, isFree: bool, next: nat, prev: nat)

  type Headers = map<nat, Header>

  // ----- chains of headers

  function Prev(list: seq<nat>, i: nat): nat
    requires i <= |list|
  {
    if i > 0 then list[i - 1] else 0
  }

  ghost predicate LinkedAt(h: Headers, list: seq<nat>, i: nat)
    requires i < |list|
  {
    list[i] != 0 && list[i] in h && h[list[i]].next == Next(list, i) && h[list[i]].prev == Prev(list, i)
  }

  /** next and prev are mutual inverses along the list, which is where the walk from `start` goes. */
  ghost predicate Chain(h: Headers, start: nat, list: seq<nat>)
  {
    && start == Next(list, -1)
    && (forall i :: 0 <= i < |list| ==> LinkedAt(h, list, i))
    && (forall i, j :: 0 <= i < j < |list| ==> list[i] != list[j])
  }

  ghost function View(h: Headers, list: seq<nat>): (blocks: seq<Block>)
    ensures |blocks| == |list|
  {
    seq(|list|, i requires 0 <= i < |list| =>
      if list[i] in h then Block(list[i], h[list[i]].size, h[list[i]].isFree) else Block(list[i], 0, false))
  }

  /** Splitting the block at `a`: a header for the rest, linked in behind it. */
  function SplitHeaders(h: Headers, a: nat, size: nat): Headers
    requires a in h && h[a].size >= size + HEADER && (h[a].next == 0 || h[a].next in h)
  {
    var n := a + HEADER + size;
    var h1 := h[n := Header(h[a].size - size - HEADER, true, h[a].next, a)];
    var h2 := if h[a].next != 0 then h1[h[a].next := h1[h[a].next].(prev := n)] else h1;
    h2[a := h2[a].(next := n, size := size)]
  }

  /** Joining the block at `a` with its successor. */
  function JoinHeaders(h: Headers, a: nat): Headers
    requires a in h && h[a].next in h
  {
    var b := h[h[a].next];
    var h1 := h[a := h[a].(size := h[a].size + HEADER + b.size, next := b.next)];
    if b.next != 0 && b.next in h1 then h1[b.next := h1[b.next].(prev := a)] else h1
  }

  lemma SplitChain(h: Headers, start: nat, list: seq<nat>, k: nat, size: nat)
    requires Chain(h, start, list) && k < |list|
    requires list[k] in h && h[list[k]].size >= size + HEADER + 4
    requires list[k] + HEADER + size !in list
    ensures h[list[k]].next == 0 || h[list[k]].next in h
    ensures list[k] in SplitHeaders(h, list[k], size)
    ensures Chain(SplitHeaders(h, list[k], size), start, list[..k + 1] + [list[k] + HEADER + size] + list[k + 1..])
  {
    assert LinkedAt(h, list, k);
    assert k + 1 < |list| ==> LinkedAt(h, list, k + 1);
    var n := list[k] + HEADER + size;
    var list' := list[..k + 1] + [n] + list[k + 1..];
    var h' := SplitHeaders(h, list[k], size);
    forall i | 0 <= i < |list'|
      ensures LinkedAt(h', list', i)
    {
      if i <= k {
        assert LinkedAt(h, list, i);
      } else if i > k + 1 {
        assert LinkedAt(h, list, i - 1);
      }
    }
  }

  lemma SplitView(h: Headers, start: nat, list: seq<nat>, k: nat, size: nat)
    requires Chain(h, start, list) && k < |list|
    requires list[k] in h && h[list[k]].size >= size + HEADER + 4
    requires list[k] + HEADER + size !in list
    ensures h[list[k]].next == 0 || h[list[k]].next in h
    ensures var h' := SplitHeaders(h, list[k], size);
            && list[k] in h'
            && View(h'[list[k] := h'[list[k]].(isFree := false)], list[..k + 1] + [list[k] + HEADER + size] + list[k + 1..])
               == Place(View(h, list), k, size)
  {
    SplitChain(h, start, list, k, size);
    assert LinkedAt(h, list, k);
    PlaceShape(View(h, list), k, size);
    hide Place;
    assert forall i :: 0 <= i < |list| ==> LinkedAt(h, list, i);
  }

  lemma JoinChain(h: Headers, start: nat, list: seq<nat>, k: nat)
    requires Chain(h, start, list) && k + 1 < |list|
    ensures list[k] in h && h[list[k]].next in h
    ensures var list' := list[..k + 1] + list[k + 2..];
            var h' := JoinHeaders(h, list[k]);
            && Chain(h', start, list')
            && View(h', list') == Absorb(View(h, list), k)
  {
    JoinLinks(h, start, list, k);
    AbsorbShape(View(h, list), k);
    hide Absorb;
    var list' := list[..k + 1] + list[k + 2..];
    var h' := JoinHeaders(h, list[k]);
    assert LinkedAt(h, list, k) && LinkedAt(h, list, k + 1);
    forall i | 0 <= i < |list'|
      ensures View(h', list')[i] == Absorb(View(h, list), k)[i]
    {
      assert LinkedAt(h, list, if i <= k then i else i + 1) && LinkedAt(h', list', i);
    }
  }

  lemma JoinLinks(h: Headers, start: nat, list: seq<nat>, k: nat)
    requires Chain(h, start, list) && k + 1 < |list|
    ensures list[k] in h && h[list[k]].next in h
    ensures Chain(JoinHeaders(h, list[k]), start, list[..k + 1] + list[k + 2..])
  {
    assert LinkedAt(h, list, k) && LinkedAt(h, list, k + 1);
    assert k + 2 < |list| ==> LinkedAt(h, list, k + 2);
    var list' := list[..k + 1] + list[k + 2..];
    var h' := JoinHeaders(h, list[k]);
    forall i | 0 <= i < |list'|
      ensures LinkedAt(h', list', i)
    {
      if i <= k {
        assert LinkedAt(h, list, i);
      } else {
        assert LinkedAt(h, list, i + 1);
      }
    }
  }

  lemma AppendChain(h: Headers, start: nat, list: seq<nat>, n: nat, size: nat)
    requires Chain(h, start, list) && n != 0 && n !in list
    ensures list != [] ==> list[|list| - 1] in h
    ensures var h1 := h[n := Header(size, true, 0, Prev(list, |list|))];
            var h' := if list == [] then h1 else h1[list[|list| - 1] := h1[list[|list| - 1]].(next := n)];
            && Chain(h', if list == [] then n else start, list + [n])
            && View(h', list + [n]) == View(h, list) + [Block(n, size, true)]
  {
    if list != [] {
      assert LinkedAt(h, list, |list| - 1);
    }
    var h1 := h[n := Header(size, true, 0, Prev(list, |list|))];
    var h' := if list == [] then h1 else h1[list[|list| - 1] := h1[list[|list| - 1]].(next := n)];
    forall i | 0 <= i < |list + [n]|
      ensures LinkedAt(h', list + [n], i)
    {
      if i < |list| {
        assert LinkedAt(h, list, i);
      }
    }
  }

  /** Header writes between two states touch no payload in use. */
  ghost predicate WritesSpare(h: Headers, h': Headers, live: set<Block>)
  {
    forall a :: a in h' && (a !in h || h[a] != h'[a]) ==> forall b :: b in live ==> Apart(a, b)
  }

  predicate Apart(a: nat, b: Block)
  {
    a + HEADER <= b.Payload() || b.End() <= a
  }

  lemma HeadersAreSpare(blocks: seq<Block>, end: nat, j: nat)
    requires Laid(blocks, end) && j < |blocks|
    ensures forall b :: b in Live(blocks) ==> Apart(blocks[j].addr, b)
  {
    forall b | b in Live(blocks)
      ensures Apart(blocks[j].addr, b)
    {
      var i :| 0 <= i < |blocks| && !blocks[i].free && blocks[i] == b;
      assert i < j ==> blocks[i].End() <= blocks[j].addr;
      assert j < i ==> blocks[j].End() <= blocks[i].addr;
    }
  }

  /** The header a split writes lies in the free payload. */
  lemma SplitHeaderIsSpare(blocks: seq<Block>, end: nat, k: nat, size: nat)
    requires Laid(blocks, end) && k < |blocks| && blocks[k].free && blocks[k].size >= size + HEADER
    ensures forall b :: b in Live(blocks) ==> Apart(blocks[k].addr + HEADER + size, b)
    ensures forall i :: 0 <= i < |blocks| ==> blocks[i].addr != blocks[k].addr + HEADER + size
  {
    forall b | b in Live(blocks)
      ensures Apart(blocks[k].addr + HEADER + size, b)
    {
      var i :| 0 <= i < |blocks| && !blocks[i].free && blocks[i] == b;
      assert i < k ==> blocks[i].End() <= blocks[k].addr;
      assert k < i ==> blocks[k].End() <= blocks[i].addr;
    }
    forall i | 0 <= i < |blocks|
      ensures blocks[i].addr != blocks[k].addr + HEADER + size
    {
      assert i < k ==> blocks[i].End() <= blocks[k].addr;
      assert k < i ==> blocks[k].End() <= blocks[i].addr;
    }
  }

  /** Marking a block, which changes only its own place in the view. */
  lemma MarkChain(h: Headers, start: nat, list: seq<nat>, k: nat, isFree: bool)
    requires Chain(h, start, list) && k < |list|
    ensures list[k] in h
    ensures var h' := h[list[k] := h[list[k]].(isFree := isFree)];
            && Chain(h', start, list)
            && View(h', list) == View(h, list)[k := Block(list[k], h[list[k]].size, isFree)]
  {
    assert LinkedAt(h, list, k);
    var h' := h[list[k] := h[list[k]].(isFree := isFree)];
    forall i | 0 <= i < |list|
      ensures LinkedAt(h', list, i)
    {
      assert LinkedAt(h, list, i);
    }
  }

  lemma SplitWrites(h: Headers, start: nat, list: seq<nat>, end: nat, k: nat, size: nat)
    requires Chain(h, start, list) && k < |list| && Laid(View(h, list), end)
    requires list[k] in h && h[list[k]].isFree && h[list[k]].size >= size + HEADER + 4
    ensures list[k] + HEADER + size !in list
    ensures h[list[k]].next == 0 || h[list[k]].next in h
    ensures list[k] in SplitHeaders(h, list[k], size)
    ensures var h' := SplitHeaders(h, list[k], size);
            WritesSpare(h, h'[list[k] := h'[list[k]].(isFree := false)], Live(View(h, list)))
  {
    var blocks := View(h, list);
    assert LinkedAt(h, list, k);
    SplitHeaderIsSpare(blocks, end, k, size);
    forall i | 0 <= i < |list|
      ensures list[i] != list[k] + HEADER + size
    {
      assert blocks[i].addr == list[i];
    }
    HeadersAreSpare(blocks, end, k);
    if k + 1 < |list| {
      assert LinkedAt(h, list, k + 1);
      HeadersAreSpare(blocks, end, k + 1);
    }
  }

  /** `best` is the header of the best of the first `i` blocks. */
  ghost predicate Scanned(blocks: seq<Block>, list: seq<nat>, size: nat, i: nat, best: nat)
    requires |blocks| == |list| && i <= |list|
  {
    var k := Best(blocks, size, i);
    -1 <= k < i && best == if k >= 0 then list[k] else 0
  }

  lemma ScanStart(blocks: seq<Block>, list: seq<nat>, size: nat)
    requires |blocks| == |list|
    ensures Scanned(blocks, list, size, 0, 0)
  {
  }

  lemma ScanStep(h: Headers, start: nat, list: seq<nat>, size: nat, i: nat, best: nat)
    requires Chain(h, start, list) && i < |list| && Scanned(View(h, list), list, size, i, best)
    ensures list[i] in h && (best != 0 ==> best in h)
    ensures var c := h[list[i]];
            Scanned(View(h, list), list, size, i + 1,
                    if c.isFree && c.size >= size && (best == 0 || c.size < h[best].size) then list[i] else best)
  {
    assert LinkedAt(h, list, i);
    assert best != 0 ==> LinkedAt(h, list, Best(View(h, list), size, i));
    BestIsSmallestFirst(View(h, list), size, i);
  }

  lemma IdentityStays(s: Space, s': Space, page: nat, entry: Word)
    requires Sound(s) && Sound(s') && IdentityIntact(s) && FlatOf(s') == FlatOf(s)[page := entry]
    requires page >= MAX_FRAMES
    ensures IdentityIntact(s')
  {
    hide Flat;
  }

  /** The pages of `before` still have their frames, and these hold what they held. */
  ghost predicate PagesKept(s0: Space, before: map<nat, nat>, s: Space, after: map<nat, nat>)
  {
    forall p :: p in before ==>
      p in after && after[p] == before[p] < |s0.mem| == |s.mem| && s.mem[after[p]] == s0.mem[before[p]]
  }

  lemma KeptByAll(s: Space, owned: map<nat, nat>)
    requires Owns(s, owned)
    ensures PagesKept(s, owned, s, owned)
  {
    hide Flat;
    assert forall p :: p in owned ==> Backed(s, p);
  }

  lemma KeptTwice(s0: Space, before: map<nat, nat>, s1: Space, between: map<nat, nat>, s2: Space, after: map<nat, nat>)
    requires PagesKept(s0, before, s1, between) && PagesKept(s1, between, s2, after)
    ensures PagesKept(s0, before, s2, after)
  {
  }

  /** Mapping a new page keeps the pages there are. */
  lemma KeptByMap(s: Space, s1: Space, owned: map<nat, nat>, page: nat, flags: bv12)
    requires Filled(s, s1) && Healthy(s) && page < PAGES && Owns(s, owned) && page !in owned
    requires s1.mem == s.mem
    ensures Sound(s1)
    ensures var f := FirstClear(s.used, s.total, 0);
            PagesKept(s, owned, MapIn(s1, page, f, flags), owned[page := f])
  {
    hide Flat, Enter;
    FilledIsSound(s, s1);
    OwnedFramesUntouched(s, s1, owned, page, flags);
    FreshPageMaps(s, s1, page, flags);
    assert forall p :: p in owned ==> owned[p] in owned.Values;
  }

  /** A page of the heap: allocate a frame and map it, unless none is left. */
  method MapFresh(vm: AddressSpace, virt: nat, ghost pages: map<nat, nat>) returns (ok: bool, ghost f: nat)
    requires vm.Valid() && Healthy(vm.Now()) && IdentityIntact(vm.Now()) && Owns(vm.Now(), pages) && Granted(vm.Now(), pages, 3)
    requires IDENTITY_LIMIT <= virt < ADDRESSES && virt / PAGE_SIZE !in pages
    modifies vm.dir, vm.mem, vm.pmm`usedFrames, vm.pmm`used, vm.pmm.bitmap
    ensures vm.Valid() && Healthy(vm.Now()) && IdentityIntact(vm.Now())
    ensures if ok then Owns(vm.Now(), pages[virt / PAGE_SIZE := f])
            else Owns(vm.Now(), pages) && FreeFrames(vm.pmm.used, vm.pmm.totalFrames) == {}
    ensures Granted(vm.Now(), if ok then pages[virt / PAGE_SIZE := f] else pages, 3)
    ensures PagesKept(old(vm.Now()), pages, vm.Now(), if ok then pages[virt / PAGE_SIZE := f] else pages)
  {
    hide Flat, Owns, IdentityIntact, OneToOne, PagesKept, Granted;
    ghost var s, page := vm.Now(), virt / PAGE_SIZE;
    KeptByAll(s, pages);
    FullMeansNoneClear(s.used, s.total);
    assert 0 in Below(RESERVED);
    var phys := vm.pmm.Alloc();
    if phys == 0 {
      assert vm.Now() == s;
      return false, 0;
    }
    f := FirstClear(s.used, s.total, 0);
    ghost var s1 := vm.Now();
    assert s1.mem == s.mem[f := s.mem[f]];
    FilledIsSound(s, s1);
    FreshPageMaps(s, s1, page, 3);
    FreshPageOwns(s, s1, pages, page, 3);
    KeptByMap(s, s1, pages, page, 3);
    vm.MapPage(virt, phys, 3);
    assert phys / PAGE_SIZE == f;
    assert vm.Now() == MapIn(s1, page, f, 3);
    IdentityStays(s, vm.Now(), page, Entry(f, 3 | 1));
    MoreGranted(s, vm.Now(), pages, page, f, 3);
    ok := true;
  }

  lemma MoreGranted(s: Space, s': Space, pages: map<nat, nat>, page: nat, f: nat, flags: bv12)
    requires Sound(s) && Sound(s') && Granted(s, pages, flags) && FlatOf(s') == FlatOf(s)[page := Entry(f, flags)]
    ensures Granted(s', pages[page := f], flags)
  {
    hide Flat;
  }

  class Heap {
    const vm: AddressSpace
    var headers: Headers
    var start: nat            // heap_start_block
    var end: nat              // heap_current_end
    ghost var list: seq<nat>  // the blocks, in the order of the walk
    ghost var lost: nat       // bytes mapped by growths that failed
    ghost var pages: map<nat, nat>  // the frame behind each page of the heap

    ghost function Model(): HeapModel.Heap
      reads this
    {
      HeapModel.Heap(View(headers, list), end, lost)
    }

    ghost predicate Linked()
      reads this
    {
      Chain(headers, start, list) && Ordered(Model())
    }

    /** Every page below `end` has a frame that no other heap page has and no page table lies in, and is present and
        writable but not open to user code; the first 128 MB still stand for themselves. */
    ghost predicate Mapped()
      reads this, vm, vm.Footprint()
    {
      && vm.Valid() && Healthy(vm.Now()) && IdentityIntact(vm.Now())
      && Owns(vm.Now(), pages) && Granted(vm.Now(), pages, 3)
      && HEAP_START <= end
      && forall p :: p in pages <==> HEAP_START / PAGE <= p < end / PAGE
    }

    ghost predicate Valid()
      reads this, vm, vm.Footprint()
    {
      Linked() && Mapped() && Inv(Model())
    }

    /** What the processor grants for every address of the heap: bits 0 and 1, and not the one for user code. */
    lemma HeapRights(virt: nat)
      requires Mapped() && 0xC000_0000 <= virt < end / 0x1000 * 0x1000
      ensures RightsAt(vm.Now(), virt) == 3
    {
      hide Flat, RightsAt, Granted;
      GrantedAt(vm.Now(), pages, 3, virt);
    }

    /** kheap_init. */
    constructor (space: AddressSpace)
      requires space.Valid() && Healthy(space.Now()) && IdentityIntact(space.Now())
      ensures Valid() && vm == space && Model() == EMPTY
    {
      vm := space;
      headers := map[];
      start := 0;
      end := HEAP_START;
      list, lost, pages := [], 0, map[];
      new;
      assert View(headers, list) == [];
    }

    /** The scan of kmalloc. */
    method FindBest(size: nat) returns (best: nat)
      requires Linked()
      ensures var k := Best(View(headers, list), size, |list|);
              best == if 0 <= k < |list| then list[k] else 0
    {
      hide Best, Ordered;
      var current := start;
      best := 0;
      ghost var i: nat := 0;
      ScanStart(View(headers, list), list, size);
      while current != 0
        invariant i <= |list| && current == Next(list, i - 1)
        invariant Scanned(View(headers, list), list, size, i, best)
        decreases |list| - i
      {
        assert LinkedAt(headers, list, i);
        ScanStep(headers, start, list, size, i, best);
        if headers[current].isFree && headers[current].size >= size {
          if best == 0 || headers[current].size < headers[best].size {
            best := current;
          }
        }
        current := headers[current].next;
        i := i + 1;
      }
      assert i < |list| ==> LinkedAt(headers, list, i);
    }

    /** The part of kmalloc that uses a block of the list. */
    method UseBlock(best: nat, size: nat, ghost k: nat)
      requires Linked() && k < |list| && list[k] == best && Fits(View(headers, list)[k], size)
      modifies this`headers, this`list
      ensures Chain(headers, start, list)
      ensures View(headers, list) == Place(old(View(headers, list)), k, size)
      ensures WritesSpare(old(headers), headers, Live(old(View(headers, list))))
    {
      hide Ordered, Place;
      assert LinkedAt(headers, list, k);
      assert Laid(View(headers, list), end) by { OrderedIsLaid(Model()); }
      HeadersAreSpare(View(headers, list), end, k);
      if headers[best].size >= size + HEADER + 4 {
        SplitWrites(headers, start, list, end, k, size);
        SplitChain(headers, start, list, k, size);
        SplitView(headers, start, list, k, size);
        ghost var before := headers;
        var newBlock := best + HEADER + size;
        headers := headers[newBlock := Header(headers[best].size - size - HEADER, true, headers[best].next, best)];
        if headers[best].next != 0 {
          headers := headers[headers[best].next := headers[headers[best].next].(prev := newBlock)];
        }
        headers := headers[best := headers[best].(next := newBlock)];
        headers := headers[best := headers[best].(size := size)];
        assert headers == SplitHeaders(before, best, size);
        list := list[..k + 1] + [newBlock] + list[k + 1..];
      } else {
        PlaceWhole(View(headers, list), k, size);
      }
      MarkChain(headers, start, list, k, false);
      headers := headers[best := headers[best].(isFree := false)];
    }

    /** heap_grow: false when the region or the frames run out, with the pages mapped so far kept. */
    method Grow(size: nat) returns (ok: bool, ghost granted: nat)
      requires Mapped() && end <= HEAP_MAX && (end - HEAP_START) % PAGE == 0
      modifies this`end, this`pages, vm.dir, vm.mem, vm.pmm`usedFrames, vm.pmm`used, vm.pmm.bitmap
      ensures Mapped() && end == old(end) + granted * PAGE <= HEAP_MAX
      ensures granted <= PagesFor(size) && (ok <==> granted == PagesFor(size))
      ensures !ok ==> end == HEAP_MAX || FreeFrames(vm.pmm.used, vm.pmm.totalFrames) == {}
      ensures PagesKept(old(vm.Now()), old(pages), vm.Now(), pages)
    {
      hide Flat, Owns, PagesKept, Granted;
      var pagesNeeded := PagesFor(size);
      granted := 0;
      KeptByAll(vm.Now(), pages);
      for i := 0 to pagesNeeded
        invariant PagesKept(old(vm.Now()), old(pages), vm.Now(), pages)
        invariant Mapped() && end == old(end) + i * PAGE <= HEAP_MAX && granted == i
      {
        HeapEndAligned(old(end), i);
        if end >= HEAP_MAX {
          return false, granted;
        }
        ghost var f, s1 := 0, vm.Now();
        ok, f := MapFresh(vm, end, pages);
        KeptTwice(old(vm.Now()), old(pages), s1, pages, vm.Now(), if ok then pages[end / PAGE := f] else pages);
        if !ok {
          return;
        }
        pages := pages[end / PAGE := f];
        end := end + PAGE;
        granted := granted + 1;
      }
      ok := true;
    }

    /** The part of kmalloc that links the new pages in as one block at the end of the list. */
    method Append(oldEnd: nat)
      requires Chain(headers, start, list) && Laid(View(headers, list), oldEnd)
      requires HEAP_START <= oldEnd && oldEnd + HEADER <= end
      modifies this`headers, this`start, this`list
      ensures Chain(headers, start, list)
      ensures View(headers, list) == old(View(headers, list)) + [Block(oldEnd, end - oldEnd - HEADER, true)]
      ensures WritesSpare(old(headers), headers, Live(old(View(headers, list))))
      ensures old(headers).Keys <= headers.Keys
    {
      hide Live, Laid;
      ghost var blocks := View(headers, list);
      AppendIsSpare(blocks, oldEnd, list);
      AppendChain(headers, start, list, oldEnd, end - oldEnd - HEADER);
      assert list != [] ==> LinkedAt(headers, list, 0);
      if start == 0 {
        headers := headers[oldEnd := Header(end - oldEnd - HEADER, true, 0, 0)];
        start := oldEnd;
      } else {
        HeadersAreSpare(blocks, oldEnd, |list| - 1);
        var last := LastBlock();
        headers := headers[oldEnd := Header(end - oldEnd - HEADER, true, 0, last)];
        headers := headers[last := headers[last].(next := oldEnd)];
      }
      list := list + [oldEnd];
    }

    /** The walk to the last block. */
    method LastBlock() returns (last: nat)
      requires Chain(headers, start, list) && list != []
      ensures last == list[|list| - 1]
    {
      last := start;
      ghost var i := 0;
      assert LinkedAt(headers, list, 0);
      while headers[last].next != 0
        invariant 0 <= i < |list| && last == list[i] && LinkedAt(headers, list, i)
        decreases |list| - i
      {
        last := headers[last].next;
        i := i + 1;
        assert LinkedAt(headers, list, i);
      }
      assert i + 1 < |list| ==> LinkedAt(headers, list, i + 1);
    }

    /** The part of kmalloc that grows the heap and links the new block in. */
    method Extend(size: nat) returns (ok: bool, ghost granted: nat)
      requires Linked() && Mapped() && size > 0
      modifies this, vm.dir, vm.mem, vm.pmm`usedFrames, vm.pmm`used, vm.pmm.bitmap
      ensures Chain(headers, start, list) && Mapped()
      ensures granted <= PagesFor(size) && Grants(old(Model()), granted)
      ensures ok ==> granted == PagesFor(size) && Model() == Grown(old(Model()), granted)
      ensures !ok ==>
                && granted < PagesFor(size)
                && Model() == old(HeapModel.Heap(View(headers, list), end + granted * PAGE, lost + granted * PAGE))
                && (end == HEAP_MAX || FreeFrames(vm.pmm.used, vm.pmm.totalFrames) == {})
      ensures old(headers).Keys <= headers.Keys
      ensures WritesSpare(old(headers), headers, Live(old(View(headers, list))))
      ensures PagesKept(old(vm.Now()), old(pages), vm.Now(), pages)
    {
      hide Ordered, Owns, Flat, LinkedAt, Live, PagesKept, FreeFrames;
      OrderedIsLaid(Model());
      var oldEnd := end;
      ok, granted := Grow(size);
      if !ok {
        lost := lost + granted * PAGE;
        return;
      }
      Append(oldEnd);
    }

    /** kmalloc. */
    method Kmalloc(request: nat) returns (ptr: nat, ghost granted: nat)
      requires Linked() && Mapped() && request <= MAX_REQUEST
      modifies this, vm.dir, vm.mem, vm.pmm`usedFrames, vm.pmm`used, vm.pmm.bitmap
      ensures Linked() && Mapped()
      ensures granted <= PagesFor(RoundUp(request)) && Grants(old(Model()), granted)
      ensures (Model(), ptr) == Malloc(old(Model()), request, granted)
      ensures old(Valid()) ==> Valid()
      ensures ptr == 0 && request != 0 ==> end == 0xD000_0000 || FreeFrames(vm.pmm.used, vm.pmm.totalFrames) == {}
      ensures WritesSpare(old(headers), headers, Live(old(View(headers, list))))
      ensures PagesKept(old(vm.Now()), old(pages), vm.Now(), pages)
      ensures var blocks, need := old(View(headers, list)), (request + 3) / 4 * 4 + 16;
              if request == 0 || exists i :: 0 <= i < |blocks| && blocks[i].free && blocks[i].size >= request then end == old(end)
              else
                && end == old(end) + granted * 4096
                && (ptr == 0 ==> granted * 4096 < need)
                && (ptr != 0 ==> ptr == old(end) + 16 && (granted - 1) * 4096 < need <= granted * 4096)
      decreases if Best(View(headers, list), RoundUp(request), |list|) < 0 then 1 else 0
    {
      hide Best, Malloc, Place, Ordered, Inv, Live, Owns, Flat, LinkedAt, Grown, PagesKept, Rounded, PagesAsked;
      granted := 0;
      ghost var h, h0 := Model(), headers;
      KeptByAll(vm.Now(), pages);
      OrderedIsLaid(h);
      if request == 0 {
        MallocOfNothing(h, 0);
        return 0, 0;
      }
      RoundingHolds(request);
      RoundsToWords(request);
      var size := Rounded(request);
      BestIsThere(headers, start, list, size);
      var best := FindBest(size);
      if best != 0 {
        MallocServed(h, request);
        FitsTheRequest(h, request);
        UseBlock(best, size, Best(h.blocks, size, |h.blocks|));
        StaysValid(h, request, 0);
        return best + HEADER, 0;
      }
      var ok;
      NothingFits(h, request);
      ok, granted := Extend(size);
      GrowthInNumbers(h, request, granted);
      if !ok {
        MallocFailed(h, request, granted);
        StaysValid(h, request, granted);
        return 0, granted;
      }
      MallocGrown(h, request);
      ghost var h1, s1, between, more := headers, vm.Now(), pages, 0;
      ptr, more := Kmalloc(size);
      KeptTwice(old(vm.Now()), old(pages), s1, between, vm.Now(), pages);
      WritesCompose(h0, h1, headers, Live(h.blocks));
      StaysValid(h, request, granted);
    }

    /** kfree, of null or of an allocation. */
    method Kfree(ptr: nat)
      requires Linked() && (ptr == 0 || Allocated(Model(), ptr))
      modifies this`headers, this`list
      ensures Linked() && Model() == Free(old(Model()), ptr)
      ensures old(Mapped()) ==> Mapped()
      ensures old(Valid()) ==> Valid()
      ensures WritesSpare(old(headers), headers, Live(old(View(headers, list))))
    {
      hide Live, Laid, Ordered, Inv, Absorb, LinkedAt, View, Owns;
      if ptr == 0 {
        return;
      }
      ghost var h, h0, list0 := Model(), headers, list;
      ghost var k := Index(h, ptr);
      OrderedIsLaid(h);
      ReleaseKeepsLayout(h.blocks, end, k);
      ViewAt(headers, start, list, k);
      MarkChain(headers, start, list, k, true);
      var block := ptr - HEADER;
      headers := headers[block := headers[block].(isFree := true)];
      MergeNext(block, k);
      MergePrev(block, k);
      OnlyListedHeaders(h0, headers, start, list0, end);
      OrderedAgain(h, Model());
      FreeStaysValid(h, ptr);
    }

    /** The first half of kfree's coalescing. */
    method MergeNext(block: nat, ghost k: nat)
      requires Chain(headers, start, list) && k < |list| && list[k] == block
      modifies this`headers, this`list
      ensures Chain(headers, start, list) && k < |list| && list[k] == block
      ensures var before := old(View(headers, list));
              View(headers, list) == if k + 1 < |before| && before[k + 1].free then Absorb(before, k) else before
      ensures Touched(old(headers), headers, old(list))
      ensures forall a :: a in list ==> a in old(list)
    {
      hide Chain, View, Absorb, Touched, JoinHeaders;
      ViewAt(headers, start, list, k);
      TouchedNothing(headers, list);
      if headers[block].next != 0 && headers[headers[block].next].isFree {
        JoinFacts(headers, start, list, k);
        JoinChain(headers, start, list, k);
        JoinNext(block);
        list := list[..k + 1] + list[k + 2..];
      }
    }

    /** The second half: `block` goes into its free predecessor. */
    method MergePrev(block: nat, ghost k: nat)
      requires Chain(headers, start, list) && k < |list| && list[k] == block
      modifies this`headers, this`list
      ensures Chain(headers, start, list)
      ensures var before := old(View(headers, list));
              View(headers, list) == if k > 0 && before[k - 1].free then Absorb(before, k - 1) else before
      ensures Touched(old(headers), headers, old(list))
    {
      hide Chain, View, Absorb, Touched, JoinHeaders;
      ViewAt(headers, start, list, k);
      TouchedNothing(headers, list);
      if headers[block].prev != 0 && headers[headers[block].prev].isFree {
        JoinFacts(headers, start, list, k - 1);
        JoinChain(headers, start, list, k - 1);
        JoinPrev(block);
        list := list[..k] + list[k + 1..];
      }
    }

    /** The header writes of the first half. */
    method JoinNext(block: nat)
      requires block in headers && headers[block].next in headers && headers[block].next != block
      requires var next := headers[headers[block].next].next; next == 0 || next in headers
      modifies this`headers
      ensures headers == JoinHeaders(old(headers), block)
    {
      headers := headers[block := headers[block].(size := headers[block].size + HEADER + headers[headers[block].next].size)];
      headers := headers[block := headers[block].(next := headers[headers[block].next].next)];
      if headers[block].next != 0 {
        headers := headers[headers[block].next := headers[headers[block].next].(prev := block)];
      }
    }

    /** The header writes of the second half. */
    method JoinPrev(block: nat)
      requires block in headers && headers[block].prev in headers && headers[block].prev != block
      requires headers[headers[block].prev].next == block
      requires headers[block].next == 0 || (headers[block].next in headers && headers[block].next != headers[block].prev)
      modifies this`headers
      ensures headers == JoinHeaders(old(headers), old(headers[block].prev))
    {
      var prev := headers[block].prev;
      headers := headers[prev := headers[prev].(size := headers[prev].size + HEADER + headers[block].size)];
      headers := headers[prev := headers[prev].(next := headers[block].next)];
      if headers[block].next != 0 {
        headers := headers[headers[block].next := headers[headers[block].next].(prev := headers[block].prev)];
      }
    }
  }

  /** Only headers of listed blocks differ. */
  ghost predicate Touched(h: Headers, h': Headers, list: seq<nat>)
  {
    forall a :: a in h' && (a !in h || h[a] != h'[a]) ==> a in list
  }

  lemma TouchedNothing(h: Headers, list: seq<nat>)
    ensures Touched(h, h, list)
  {
  }

  /** Two neighbours, what comes behind them, and that joining them touches only listed headers. */
  lemma JoinFacts(h: Headers, start: nat, list: seq<nat>, k: nat)
    requires Chain(h, start, list) && k + 1 < |list|
    ensures list[k] in h && h[list[k]].next == list[k + 1] && list[k + 1] in h && list[k + 1] != list[k] && list[k] != 0
    ensures h[list[k + 1]].prev == list[k]
    ensures var next := h[list[k + 1]].next; next == 0 || (next in h && next != list[k])
    ensures Touched(h, JoinHeaders(h, list[k]), list)
    ensures forall a :: a in list[..k + 1] + list[k + 2..] ==> a in list
  {
    ViewAt(h, start, list, k);
    ViewAt(h, start, list, k + 1);
  }

  lemma OnlyListedHeaders(h: Headers, h': Headers, start: nat, list: seq<nat>, end: nat)
    requires Chain(h, start, list) && Laid(View(h, list), end) && Touched(h, h', list)
    ensures WritesSpare(h, h', Live(View(h, list)))
  {
    forall a | a in list
      ensures forall b :: b in Live(View(h, list)) ==> Apart(a, b)
    {
      var j :| 0 <= j < |list| && list[j] == a;
      ViewAt(h, start, list, j);
      HeadersAreSpare(View(h, list), end, j);
    }
  }

  /** A block, its neighbours, and their place in the view. */
  lemma ViewAt(h: Headers, start: nat, list: seq<nat>, k: nat)
    requires Chain(h, start, list) && k < |list|
    ensures list[k] in h && list[k] != 0 && View(h, list)[k] == Block(list[k], h[list[k]].size, h[list[k]].isFree)
    ensures h[list[k]].next == Next(list, k) && h[list[k]].prev == Prev(list, k)
    ensures k + 1 < |list| ==> list[k + 1] in h && list[k + 1] != 0 && View(h, list)[k + 1].free == h[list[k + 1]].isFree
    ensures k > 0 ==> list[k - 1] in h && list[k - 1] != 0 && View(h, list)[k - 1].free == h[list[k - 1]].isFree
  {
    assert LinkedAt(h, list, k);
    assert k + 1 < |list| ==> LinkedAt(h, list, k + 1);
    assert k > 0 ==> LinkedAt(h, list, k - 1);
  }

  lemma FreeStaysValid(h: HeapModel.Heap, ptr: nat)
    requires Allocated(h, ptr)
    ensures Inv(h) ==> Inv(Free(h, ptr))
  {
    if Inv(h) {
      FreeKeepsInv(h, ptr);
    }
  }

  lemma OrderedAgain(h: HeapModel.Heap, h': HeapModel.Heap)
    requires Ordered(h) && h'.end == h.end && Laid(h'.blocks, h.end)
    ensures Ordered(h')
  {
  }

  lemma BestIsThere(h: Headers, start: nat, list: seq<nat>, size: nat)
    requires Chain(h, start, list)
    ensures var k := Best(View(h, list), size, |list|);
            -1 <= k < |list| && (k >= 0 ==> list[k] != 0 && View(h, list)[k].addr == list[k])
  {
    var k := Best(View(h, list), size, |list|);
    BestIsSmallestFirst(View(h, list), size, |list|);
    assert 0 <= k < |list| ==> LinkedAt(h, list, k);
  }

  lemma FitsTheRequest(h: HeapModel.Heap, request: nat)
    requires Best(h.blocks, RoundUp(request), |h.blocks|) >= 0
    ensures exists i :: 0 <= i < |h.blocks| && h.blocks[i].free && h.blocks[i].size >= request
  {
    BestIsSmallestFirst(h.blocks, RoundUp(request), |h.blocks|);
    RoundsToWords(request);
  }

  lemma NothingFits(h: HeapModel.Heap, request: nat)
    requires Laid(h.blocks, h.end) && request != 0 && Best(h.blocks, RoundUp(request), |h.blocks|) < 0
    ensures forall i :: 0 <= i < |h.blocks| && h.blocks[i].free ==> h.blocks[i].size < request
  {
    if exists i :: 0 <= i < |h.blocks| && h.blocks[i].free && h.blocks[i].size >= request {
      var k := ServingBlock(h, request);
    }
  }

  lemma StaysValid(h: HeapModel.Heap, request: nat, granted: nat)
    requires granted <= PagesFor(RoundUp(request)) && Grants(h, granted)
    ensures Inv(h) ==> Inv(Malloc(h, request, granted).0)
  {
    if Inv(h) {
      MallocKeepsInv(h, request, granted);
    }
  }

  lemma MallocOfNothing(h: HeapModel.Heap, granted: nat)
    ensures Malloc(h, 0, granted) == (h, 0)
  {
  }

  lemma WritesCompose(h: Headers, h1: Headers, h2: Headers, live: set<Block>)
    requires WritesSpare(h, h1, live) && WritesSpare(h1, h2, live)
    requires h.Keys <= h1.Keys
    ensures WritesSpare(h, h2, live)
  {
  }

  lemma AppendIsSpare(blocks: seq<Block>, end: nat, list: seq<nat>)
    requires Laid(blocks, end) && |list| == |blocks| && forall i :: 0 <= i < |list| ==> blocks[i].addr == list[i]
    ensures forall b :: b in Live(blocks) ==> Apart(end, b)
    ensures end !in list
  {
    forall i | 0 <= i < |list|
      ensures list[i] < end
    {
      assert Inside(blocks[i], end);
    }
    forall b | b in Live(blocks)
      ensures Apart(end, b)
    {
      var i :| 0 <= i < |blocks| && !blocks[i].free && blocks[i] == b;
      assert Inside(blocks[i], end);
    }
  }

  lemma HeapEndAligned(end: nat, n: nat)
    requires HEAP_START <= end && (end - HEAP_START) % PAGE == 0 && end + n * PAGE <= HEAP_MAX
    ensures var e := end + n * PAGE;
            (e + PAGE) / PAGE == e / PAGE + 1 && (e < HEAP_MAX ==> e + PAGE <= HEAP_MAX && e < ADDRESSES && e / PAGE < PAGES)
  {
    var q := (end - HEAP_START) / PAGE;
    assert end + n * PAGE == (HEAP_START / PAGE + q + n) * PAGE;
    assert HEAP_MAX == HEAP_MAX / PAGE * PAGE;
  }

  lemma OrderedIsLaid(h: HeapModel.Heap)
    requires Ordered(h)
    ensures Laid(h.blocks, h.end) && HEAP_START <= h.end <= HEAP_MAX && (h.end - HEAP_START) % PAGE == 0
  {
  }

  lemma PlaceWhole(blocks: seq<Block>, k: nat, size: nat)
    requires k < |blocks| && size <= blocks[k].size < size + HEADER + 4
    ensures Place(blocks, k, size) == blocks[k := Block(blocks[k].addr, blocks[k].size, false)]
  {
  }
}
