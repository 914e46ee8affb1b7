/** The kernel heap as a list of blocks: what kmalloc and kfree mean. */
module HeapModel {

  const HEADER: nat := 16
  const PAGE: nat := 4096
  const HEAP_START: nat := 0xC000_0000
  const HEAP_MAX: nat := 0xD000_0000
  const WORD_LIMIT: nat := 0x1_0000_0000

  /** The largest request whose rounding does not wrap around in 32 bits. */
  const MAX_REQUEST: nat := 0xFFFF_EFF0

  /** A block: its header at `addr`, then `size` bytes of payload. */
  datatype Block = Block(addr: nat, size: nat, free: bool)
  {
    function Payload(): nat { addr + HEADER }
    function End(): nat { addr + HEADER + size }
  }

  /** The block list, the end of the mapped heap, and the bytes mapped by growths that failed half-way. */
  datatype Heap = Heap(blocks: seq<Block>, end: nat, lost: nat)

  // ----- the invariant

  predicate Inside(b: Block, end: nat)
  {
    && HEAP_START <= b.addr && b.End() <= end
    && b.addr % 4 == 0 && b.size % 4 == 0
  }

  ghost predicate Laid(blocks: seq<Block>, end: nat)
  {
    && (forall i :: 0 <= i < |blocks| ==> Inside(blocks[i], end))
    && forall i, j :: 0 <= i < j < |blocks| ==> blocks[i].End() <= blocks[j].addr
  }

  ghost predicate Coalesced(blocks: seq<Block>)
  {
    forall i {:trigger blocks[i].free} :: 0 <= i < |blocks| - 1 ==> !(blocks[i].free && blocks[i + 1].free)
  }

  function Footprint(blocks: seq<Block>): nat
  {
    if blocks == [] then 0 else Footprint(blocks[..|blocks| - 1]) + HEADER + blocks[|blocks| - 1].size
  }

  /** What holds even while kmalloc has just appended a block: ordered, disjoint, inside the mapped heap. */
  ghost predicate Ordered(h: Heap)
  {
    && HEAP_START <= h.end <= HEAP_MAX && (h.end - HEAP_START) % PAGE == 0
    && Laid(h.blocks, h.end)
  }

  lemma OrderedEnd(h: Heap)
    requires Ordered(h)
    ensures HEAP_START <= h.end <= HEAP_MAX && h.end % PAGE == 0
  {
  }

  ghost predicate Inv(h: Heap)
  {
    && Ordered(h)
    && Coalesced(h.blocks)
    && Footprint(h.blocks) + h.lost == h.end - HEAP_START
  }

  /** The allocations: address and size of every block in use. */
  ghost function Live(blocks: seq<Block>): set<Block>
  {
    set i | 0 <= i < |blocks| && !blocks[i].free :: blocks[i]
  }

  // ----- kmalloc

  function RoundUp(size: nat): nat
  {
    (size + 3) / 4 * 4
  }

  function PagesFor(size: nat): nat
  {
    (size + HEADER + PAGE - 1) / PAGE
  }

  /** The rounded request, in 32 bits. */
  function Rounded(size: nat): nat
  {
    (size + 3) % WORD_LIMIT / 4 * 4
  }

  /** The pages asked for a rounded request, in 32 bits. */
  function PagesAsked(rounded: nat): nat
  {
    ((rounded + HEADER) % WORD_LIMIT + PAGE - 1) % WORD_LIMIT / PAGE
  }

  /** Rounding in 32 bits gives pages that hold the request exactly when the request is not too close to 4 GB. */
  lemma RoundingHolds(size: nat)
    requires 0 < size < WORD_LIMIT
    ensures Rounded(size) >= size && PagesAsked(Rounded(size)) * PAGE >= size + HEADER <==> size <= MAX_REQUEST
    ensures size <= MAX_REQUEST ==> Rounded(size) == RoundUp(size) && PagesAsked(RoundUp(size)) == PagesFor(RoundUp(size))
  {
    hide Rounded, RoundUp, PagesAsked, PagesFor;
    if size <= MAX_REQUEST {
      RoundsUp(size);
      PagesHold(RoundUp(size));
    } else {
      RoundsHigh(size);
      if Rounded(size) >= size {
        FewPages(Rounded(size));
      }
    }
  }

  lemma RoundsUp(size: nat)
    requires size <= MAX_REQUEST
    ensures size <= Rounded(size) == RoundUp(size) <= MAX_REQUEST
  {
    assert MAX_REQUEST == 4 * (MAX_REQUEST / 4);
  }

  lemma RoundsHigh(size: nat)
    requires MAX_REQUEST < size < WORD_LIMIT
    ensures Rounded(size) == 0 || MAX_REQUEST < Rounded(size) < WORD_LIMIT
  {
  }

  lemma PagesHold(rounded: nat)
    requires rounded <= MAX_REQUEST
    ensures PagesAsked(rounded) == PagesFor(rounded) && PagesFor(rounded) * PAGE >= rounded + HEADER
  {
  }

  /** Above the limit the sum of size, header and rounding wraps, and what is left asks for one page at most. */
  lemma FewPages(rounded: nat)
    requires MAX_REQUEST < rounded < WORD_LIMIT
    ensures PagesAsked(rounded) <= 1
  {
    var x := (rounded + HEADER) % WORD_LIMIT;
    assert x == if rounded + HEADER < WORD_LIMIT then rounded + HEADER else rounded + HEADER - WORD_LIMIT;
    assert (x + PAGE - 1) % WORD_LIMIT < 2 * PAGE;
  }

  /** A little above the limit the rounded request asks for no page at all. */
  lemma RoundingWraps()
    ensures Rounded(MAX_REQUEST + 1) > MAX_REQUEST && PagesAsked(Rounded(MAX_REQUEST + 1)) == 0
  {
  }

  predicate Fits(b: Block, size: nat)
  {
    b.free && b.size >= size
  }

  /** The best of the first `n` blocks, as the scan of kmalloc finds it; -1 when none fits. */
  function Best(blocks: seq<Block>, size: nat, n: nat): int
    requires n <= |blocks|
  {
    if n == 0 then -1
    else
      var best := Best(blocks, size, n - 1);
      if Fits(blocks[n - 1], size) && (best < 0 || best >= |blocks| || blocks[n - 1].size < blocks[best].size) then n - 1 else best
  }

  /** The scan picks the first of the smallest blocks that fit, and misses none. */
  lemma {:induction false} BestIsSmallestFirst(blocks: seq<Block>, size: nat, n: nat)
    requires n <= |blocks|
    ensures var k := Best(blocks, size, n);
            && -1 <= k < n
            && (k < 0 <==> forall i :: 0 <= i < n ==> !Fits(blocks[i], size))
            && (k >= 0 ==>
                  && Fits(blocks[k], size)
                  && (forall i :: 0 <= i < n && Fits(blocks[i], size) ==> blocks[k].size <= blocks[i].size)
                  && (forall i :: 0 <= i < k && Fits(blocks[i], size) ==> blocks[k].size < blocks[i].size))
  {
    if n > 0 {
      BestIsSmallestFirst(blocks, size, n - 1);
    }
  }

  /** Using block `k`: split when the rest can hold a header and four bytes. */
  function Place(blocks: seq<Block>, k: nat, size: nat): seq<Block>
    requires k < |blocks| && blocks[k].size >= size
  {
    var b := blocks[k];
    if b.size >= size + HEADER + 4
    then blocks[..k] + [Block(b.addr, size, false), Block(b.addr + HEADER + size, b.size - size - HEADER, true)] + blocks[k + 1..]
    else blocks[k := Block(b.addr, b.size, false)]
  }

  /** The heap after a successful growth, with its new block at the end of the list. */
  function Grown(h: Heap, pages: nat): Heap
    requires pages > 0
  {
    Heap(h.blocks + [Block(h.end, pages * PAGE - HEADER, true)], h.end + pages * PAGE, h.lost)
  }

  /** kmalloc, where `granted` pages can be had if the heap must grow. */
  function Malloc(h: Heap, request: nat, granted: nat): (r: (Heap, nat))
  {
    var size := RoundUp(request);
    var k := Best(h.blocks, size, |h.blocks|);
    if request == 0 then (h, 0)
    else if 0 <= k < |h.blocks| && h.blocks[k].size >= size then (h.(blocks := Place(h.blocks, k, size)), h.blocks[k].Payload())
    else if granted < PagesFor(size) then (Heap(h.blocks, h.end + granted * PAGE, h.lost + granted * PAGE), 0)
    else
      var g := Grown(h, PagesFor(size));
      (g.(blocks := Place(g.blocks, |h.blocks|, size)), h.end + HEADER)
  }

  // ----- kfree

  /** Block `k` swallows its successor. */
  function Absorb(blocks: seq<Block>, k: nat): seq<Block>
    requires k + 1 < |blocks|
  {
    blocks[..k] + [Block(blocks[k].addr, blocks[k].size + HEADER + blocks[k + 1].size, blocks[k].free)] + blocks[k + 2..]
  }

  function Release(blocks: seq<Block>, k: nat): seq<Block>
    requires k < |blocks|
  {
    var freed := blocks[k := Block(blocks[k].addr, blocks[k].size, true)];
    var ahead := if k + 1 < |freed| && freed[k + 1].free then Absorb(freed, k) else freed;
    if k > 0 && ahead[k - 1].free then Absorb(ahead, k - 1) else ahead
  }

  ghost predicate Allocated(h: Heap, ptr: nat)
  {
    exists k :: 0 <= k < |h.blocks| && !h.blocks[k].free && h.blocks[k].Payload() == ptr
  }

  ghost function Index(h: Heap, ptr: nat): (k: nat)
    requires Allocated(h, ptr)
    ensures k < |h.blocks| && !h.blocks[k].free && h.blocks[k].Payload() == ptr
  {
    var k :| 0 <= k < |h.blocks| && !h.blocks[k].free && h.blocks[k].Payload() == ptr; k
  }

  ghost function Free(h: Heap, ptr: nat): Heap
    requires ptr == 0 || Allocated(h, ptr)
  {
    if ptr == 0 then h else h.(blocks := Release(h.blocks, Index(h, ptr)))
  }

  // ----- footprints

  lemma {:induction false} FootprintOfConcat(a: seq<Block>, b: seq<Block>)
    ensures Footprint(a + b) == Footprint(a) + Footprint(b)
  {
    if b == [] {
      assert a + b == a;
    } else {
      assert (a + b)[..|a + b| - 1] == a + b[..|b| - 1];
      FootprintOfConcat(a, b[..|b| - 1]);
    }
  }

  lemma FootprintAround(a: seq<Block>, mid: seq<Block>, b: seq<Block>)
    ensures Footprint(a + mid + b) == Footprint(a) + Footprint(mid) + Footprint(b)
  {
    FootprintOfConcat(a + mid, b);
    FootprintOfConcat(a, mid);
  }

  lemma FootprintOfOne(b: Block)
    ensures Footprint([b]) == HEADER + b.size
  {
    assert [b][..0] == [];
  }

  lemma FootprintOfTwo(b: Block, c: Block)
    ensures Footprint([b, c]) == 2 * HEADER + b.size + c.size
  {
    assert [b, c] == [b] + [c];
    FootprintOfConcat([b], [c]);
    FootprintOfOne(b);
    FootprintOfOne(c);
  }

  // ----- every operation keeps the invariant

  lemma FootprintReplace(blocks: seq<Block>, k: nat, mid: seq<Block>)
    requires k < |blocks| && Footprint(mid) == HEADER + blocks[k].size
    ensures Footprint(blocks[..k] + mid + blocks[k + 1..]) == Footprint(blocks)
  {
    hide Footprint;
    FootprintAround(blocks[..k], mid, blocks[k + 1..]);
    FootprintAround(blocks[..k], [blocks[k]], blocks[k + 1..]);
    FootprintOfOne(blocks[k]);
    assert blocks == blocks[..k] + [blocks[k]] + blocks[k + 1..];
  }

  lemma PlaceKeepsFootprint(blocks: seq<Block>, k: nat, size: nat)
    requires k < |blocks| && blocks[k].size >= size
    ensures Footprint(Place(blocks, k, size)) == Footprint(blocks)
  {
    hide Footprint, Place;
    var b := blocks[k];
    PlaceInNumbers(blocks, k, size);
    if b.size >= size + HEADER + 4 {
      var x, y := Block(b.addr, size, false), Block(b.addr + HEADER + size, b.size - size - HEADER, true);
      FootprintOfTwo(x, y);
      FootprintReplace(blocks, k, [x, y]);
    } else {
      var c := Block(b.addr, b.size, false);
      FootprintOfOne(c);
      FootprintReplace(blocks, k, [c]);
    }
  }

  lemma AbsorbKeepsFootprint(blocks: seq<Block>, k: nat)
    requires k + 1 < |blocks|
    ensures Footprint(Absorb(blocks, k)) == Footprint(blocks)
  {
    hide Footprint;
    assert blocks == blocks[..k] + [blocks[k], blocks[k + 1]] + blocks[k + 2..];
    FootprintAround(blocks[..k], [blocks[k], blocks[k + 1]], blocks[k + 2..]);
    FootprintOfTwo(blocks[k], blocks[k + 1]);
    var c := Block(blocks[k].addr, blocks[k].size + HEADER + blocks[k + 1].size, blocks[k].free);
    FootprintAround(blocks[..k], [c], blocks[k + 2..]);
    FootprintOfOne(c);
  }

  lemma PlaceShape(blocks: seq<Block>, k: nat, size: nat)
    requires k < |blocks| && blocks[k].size >= size
    ensures var b, after := blocks[k], Place(blocks, k, size);
            if b.size >= size + HEADER + 4 then
              && |after| == |blocks| + 1
              && (forall i :: 0 <= i < k ==> after[i] == blocks[i])
              && after[k] == Block(b.addr, size, false)
              && after[k + 1] == Block(b.addr + HEADER + size, b.size - size - HEADER, true)
              && (forall i :: k + 1 < i < |after| ==> after[i] == blocks[i - 1])
            else after == blocks[k := Block(b.addr, b.size, false)]
  {
  }

  lemma AbsorbShape(blocks: seq<Block>, k: nat)
    requires k + 1 < |blocks|
    ensures var after := Absorb(blocks, k);
            && |after| == |blocks| - 1
            && (forall i :: 0 <= i < k ==> after[i] == blocks[i])
            && after[k] == Block(blocks[k].addr, blocks[k].size + HEADER + blocks[k + 1].size, blocks[k].free)
            && (forall i :: k < i < |after| ==> after[i] == blocks[i + 1])
  {
  }

  lemma InsideIgnoresUse(b: Block, end: nat)
    ensures Inside(b, end) ==> Inside(Block(b.addr, b.size, false), end) && Inside(Block(b.addr, b.size, true), end)
  {
  }

  lemma SplitInside(b: Block, end: nat, size: nat)
    requires Inside(b, end) && size % 4 == 0 && b.size >= size + HEADER
    ensures Inside(Block(b.addr, size, false), end)
    ensures Inside(Block(b.addr + HEADER + size, b.size - size - HEADER, true), end)
  {
    assert b.addr + HEADER + size == 4 * (b.addr / 4 + 4 + size / 4);
    assert b.size - size - HEADER == 4 * (b.size / 4 - size / 4 - 4);
  }

  lemma PlaceKeepsLayout(blocks: seq<Block>, end: nat, k: nat, size: nat)
    requires Laid(blocks, end) && k < |blocks| && Fits(blocks[k], size) && size % 4 == 0
    ensures Laid(Place(blocks, k, size), end)
  {
    hide Place, Inside;
    PlaceShape(blocks, k, size);
    var after := Place(blocks, k, size);
    assert Inside(blocks[k], end);
    if blocks[k].size >= size + HEADER + 4 {
      SplitInside(blocks[k], end, size);
    }
    InsideIgnoresUse(blocks[k], end);
    forall i | 0 <= i < |after|
      ensures Inside(after[i], end)
    {
      var i' := if i <= k || |after| == |blocks| then i else i - 1;
      assert Inside(blocks[i'], end);
    }
    forall i, j | 0 <= i < j < |after|
      ensures after[i].End() <= after[j].addr
    {
      if |after| > |blocks| {
        var i', j' := if i <= k then i else i - 1, if j <= k then j else j - 1;
        assert i' < j' ==> blocks[i'].End() <= blocks[j'].addr;
      }
    }
  }

  /** A block in use between free ones: nothing new touches. */
  lemma PlaceKeepsCoalesced(blocks: seq<Block>, k: nat, size: nat)
    requires k < |blocks| && Fits(blocks[k], size)
    requires forall i {:trigger blocks[i].free} :: 0 <= i < |blocks| - 1 ==> !(blocks[i].free && blocks[i + 1].free) || i + 1 == k
    requires k + 1 < |blocks| ==> !blocks[k + 1].free
    ensures Coalesced(Place(blocks, k, size))
  {
    hide Place;
    PlaceShape(blocks, k, size);
    var after := Place(blocks, k, size);
    forall i | 0 <= i < |after| - 1
      ensures !(after[i].free && after[i + 1].free)
    {
      var back := if i <= k then i else if |after| == |blocks| then i else i - 1;
      assert blocks[back].free || !blocks[back].free;
    }
  }

  lemma JoinedInside(b: Block, c: Block, end: nat)
    requires Inside(b, end) && Inside(c, end) && b.End() <= c.addr
    ensures Inside(Block(b.addr, b.size + HEADER + c.size, b.free), end)
  {
    assert b.size + HEADER + c.size == 4 * (b.size / 4 + 4 + c.size / 4);
  }

  lemma AbsorbKeepsLayout(blocks: seq<Block>, end: nat, k: nat)
    requires Laid(blocks, end) && k + 1 < |blocks|
    ensures Laid(Absorb(blocks, k), end)
  {
    hide Absorb, Inside;
    AbsorbShape(blocks, k);
    var after := Absorb(blocks, k);
    assert blocks[k].End() <= blocks[k + 1].addr;
    JoinedInside(blocks[k], blocks[k + 1], end);
    forall i | 0 <= i < |after|
      ensures Inside(after[i], end)
    {
      assert Inside(blocks[if i <= k then i else i + 1], end);
    }
    forall i, j | 0 <= i < j < |after|
      ensures after[i].End() <= after[j].addr
    {
      var i', j' := if i < k then i else i + 1, if j <= k then j else j + 1;
      assert blocks[i'].End() <= blocks[j'].addr;
    }
  }

  /** No two neighbours are free, except perhaps block `k` with one beside it. */
  ghost predicate CoalescedBut(blocks: seq<Block>, k: nat)
  {
    forall i {:trigger blocks[i].free} :: 0 <= i < |blocks| - 1 && i != k && i + 1 != k ==> !(blocks[i].free && blocks[i + 1].free)
  }

  /** Merging a free block with its free successor, which has none free beyond it. */
  lemma MergeAhead(blocks: seq<Block>, k: nat)
    requires CoalescedBut(blocks, k) && k + 1 < |blocks| && blocks[k].free && blocks[k + 1].free
    ensures CoalescedBut(Absorb(blocks, k), k)
    ensures k + 1 < |blocks| - 1 ==> !Absorb(blocks, k)[k + 1].free
  {
    hide Absorb;
    AbsorbShape(blocks, k);
    var after := Absorb(blocks, k);
    forall i | 0 <= i < |after| - 1 && i != k && i + 1 != k
      ensures !(after[i].free && after[i + 1].free)
    {
      var back := if i < k then i else i + 1;
      assert blocks[back].free == after[i].free;
    }
    assert k + 2 < |blocks| ==> !(blocks[k + 1].free && blocks[k + 2].free);
  }

  /** Merging a free block into its free predecessor. */
  lemma MergeBehind(blocks: seq<Block>, k: nat)
    requires CoalescedBut(blocks, k) && 0 < k < |blocks| && blocks[k].free && blocks[k - 1].free
    requires k + 1 < |blocks| ==> !blocks[k + 1].free
    ensures Coalesced(Absorb(blocks, k - 1))
  {
    hide Absorb;
    AbsorbShape(blocks, k - 1);
    var after := Absorb(blocks, k - 1);
    forall i | 0 <= i < |after| - 1
      ensures !(after[i].free && after[i + 1].free)
    {
      var back := if i < k then i else i + 1;
      assert i != k - 1 ==> blocks[back].free == after[i].free;
    }
  }

  lemma ReleaseKeepsCoalesced(blocks: seq<Block>, k: nat)
    requires k < |blocks| && !blocks[k].free && Coalesced(blocks)
    ensures Coalesced(Release(blocks, k))
  {
    hide Absorb;
    var freed := blocks[k := Block(blocks[k].addr, blocks[k].size, true)];
    forall i | 0 <= i < |freed| - 1 && i != k && i + 1 != k
      ensures !(freed[i].free && freed[i + 1].free)
    {
      assert blocks[i].free == freed[i].free;
    }
    var ahead := if k + 1 < |freed| && freed[k + 1].free then Absorb(freed, k) else freed;
    if k + 1 < |freed| {
      AbsorbShape(freed, k);
      if freed[k + 1].free {
        MergeAhead(freed, k);
      }
    }
    if k > 0 && ahead[k - 1].free {
      MergeBehind(ahead, k);
    } else {
      assert Coalesced(ahead) by {
        forall i | 0 <= i < |ahead| - 1
          ensures !(ahead[i].free && ahead[i + 1].free)
        {
        }
      }
    }
  }

  lemma ReleaseKeepsLayout(blocks: seq<Block>, end: nat, k: nat)
    requires Laid(blocks, end) && k < |blocks|
    ensures Laid(Release(blocks, k), end)
    ensures Footprint(Release(blocks, k)) == Footprint(blocks)
  {
    hide Footprint, Laid, Absorb;
    var freed := blocks[k := Block(blocks[k].addr, blocks[k].size, true)];
    FreeingKeepsLayout(blocks, end, k);
    FreeingKeepsFootprint(blocks, k);
    var ahead := if k + 1 < |freed| && freed[k + 1].free then Absorb(freed, k) else freed;
    if k + 1 < |freed| && freed[k + 1].free {
      AbsorbShape(freed, k);
      AbsorbKeepsLayout(freed, end, k);
      AbsorbKeepsFootprint(freed, k);
    }
    if k > 0 && ahead[k - 1].free {
      AbsorbKeepsLayout(ahead, end, k - 1);
      AbsorbKeepsFootprint(ahead, k - 1);
    }
  }

  lemma FreeingKeepsLayout(blocks: seq<Block>, end: nat, k: nat)
    requires Laid(blocks, end) && k < |blocks|
    ensures Laid(blocks[k := Block(blocks[k].addr, blocks[k].size, true)], end)
  {
    var freed := blocks[k := Block(blocks[k].addr, blocks[k].size, true)];
    assert forall i :: 0 <= i < |freed| ==> Inside(blocks[i], end) && freed[i].End() == blocks[i].End() && freed[i].addr == blocks[i].addr;
  }

  lemma FreeingKeepsFootprint(blocks: seq<Block>, k: nat)
    requires k < |blocks|
    ensures Footprint(blocks[k := Block(blocks[k].addr, blocks[k].size, true)]) == Footprint(blocks)
  {
    hide Footprint;
    var c := Block(blocks[k].addr, blocks[k].size, true);
    assert blocks == blocks[..k] + [blocks[k]] + blocks[k + 1..];
    assert blocks[k := c] == blocks[..k] + [c] + blocks[k + 1..];
    FootprintAround(blocks[..k], [blocks[k]], blocks[k + 1..]);
    FootprintAround(blocks[..k], [c], blocks[k + 1..]);
    FootprintOfOne(blocks[k]);
    FootprintOfOne(c);
  }

  lemma FreeKeepsInv(h: Heap, ptr: nat)
    requires Inv(h) && (ptr == 0 || Allocated(h, ptr))
    ensures Inv(Free(h, ptr))
  {
    if ptr != 0 {
      ReleaseKeepsCoalesced(h.blocks, Index(h, ptr));
      ReleaseKeepsLayout(h.blocks, h.end, Index(h, ptr));
    }
  }

  // ----- kmalloc in numbers

  /** A request is rounded up to words, and to no more. */
  lemma RoundsToWords(size: nat)
    ensures RoundUp(size) % 4 == 0 && size <= RoundUp(size) < size + 4
  {
  }

  /** The pages of a growth are the least number that holds the block and its header. */
  lemma PagesAreLeast(size: nat)
    ensures (PagesFor(size) - 1) * 4096 < size + 16 <= PagesFor(size) * 4096
  {
  }

  /** A request that no free block can serve: the heap grows by the pages granted, and the request is met exactly when
      these are the least number of pages that hold it with its header. */
  lemma GrowthInNumbers(h: Heap, request: nat, granted: nat)
    requires Laid(h.blocks, h.end) && request != 0 && granted <= PagesFor(RoundUp(request))
    requires forall i :: 0 <= i < |h.blocks| && h.blocks[i].free ==> h.blocks[i].size < request
    ensures var r, need := Malloc(h, request, granted), (request + 3) / 4 * 4 + 16;
            && r.0.end == h.end + granted * 4096
            && if r.1 == 0 then granted * 4096 < need else r.1 == h.end + 16 && (granted - 1) * 4096 < need <= granted * 4096
  {
    hide Place, Laid;
    BestIsSmallestFirst(h.blocks, RoundUp(request), |h.blocks|);
    PagesAreLeast(RoundUp(request));
    RoundsToWords(request);
  }

  /** A request that a free block can serve: it gets the lowest of the smallest that are large enough, cut to the rounded
      request when 20 bytes or more are to spare, and the heap does not grow. */
  lemma ServiceInNumbers(h: Heap, request: nat, granted: nat) returns (k: nat)
    requires Laid(h.blocks, h.end) && request != 0
    requires exists i :: 0 <= i < |h.blocks| && h.blocks[i].free && h.blocks[i].size >= request
    ensures k < |h.blocks| && h.blocks[k].free && h.blocks[k].size >= request
    ensures forall i :: 0 <= i < |h.blocks| && h.blocks[i].free && h.blocks[i].size >= request ==>
              h.blocks[i].size >= h.blocks[k].size && (h.blocks[i].size == h.blocks[k].size ==> i >= k)
    ensures var r, b, size := Malloc(h, request, granted), h.blocks[k], (request + 3) / 4 * 4;
            && r.0.end == h.end && r.0.lost == h.lost && r.1 == b.addr + 16
            && r.0.blocks == if b.size >= size + 20
                             then h.blocks[..k] + [Block(b.addr, size, false), Block(b.addr + 16 + size, b.size - size - 16, true)] + h.blocks[k + 1..]
                             else h.blocks[..k] + [Block(b.addr, b.size, false)] + h.blocks[k + 1..]
  {
    hide Place, Best, Laid;
    var size := RoundUp(request);
    k := ServingBlock(h, request);
    PlaceInNumbers(h.blocks, k, size);
  }

  lemma PlaceInNumbers(blocks: seq<Block>, k: nat, size: nat)
    requires k < |blocks| && blocks[k].size >= size
    ensures var b := blocks[k];
            Place(blocks, k, size) ==
            if b.size >= size + 20
            then blocks[..k] + [Block(b.addr, size, false), Block(b.addr + 16 + size, b.size - size - 16, true)] + blocks[k + 1..]
            else blocks[..k] + [Block(b.addr, b.size, false)] + blocks[k + 1..]
  {
    hide Place;
    PlaceShape(blocks, k, size);
  }

  /** Blocks are whole words, so one that holds the request holds it rounded. */
  lemma WordsFit(b: Block, end: nat, request: nat)
    requires Inside(b, end) && b.size >= request
    ensures b.size >= RoundUp(request)
  {
    assert b.size == 4 * (b.size / 4);
  }

  lemma ServingBlock(h: Heap, request: nat) returns (k: nat)
    requires Laid(h.blocks, h.end) && request != 0
    requires exists i :: 0 <= i < |h.blocks| && h.blocks[i].free && h.blocks[i].size >= request
    ensures k == Best(h.blocks, RoundUp(request), |h.blocks|) && k < |h.blocks|
    ensures h.blocks[k].free && h.blocks[k].size >= RoundUp(request) >= request
    ensures forall i :: 0 <= i < |h.blocks| && h.blocks[i].free && h.blocks[i].size >= request ==>
              h.blocks[i].size >= h.blocks[k].size && (h.blocks[i].size == h.blocks[k].size ==> i >= k)
  {
    hide RoundUp, Best;
    RoundsToWords(request);
    BestIsSmallestFirst(h.blocks, RoundUp(request), |h.blocks|);
    forall i | 0 <= i < |h.blocks| && h.blocks[i].free && h.blocks[i].size >= request
      ensures Fits(h.blocks[i], RoundUp(request))
    {
      WordsFit(h.blocks[i], h.end, request);
    }
    hide Laid;
    k := Best(h.blocks, RoundUp(request), |h.blocks|);
  }

  lemma FirstPlace()
    ensures Place([Block(0xC000_0000, 8176, true)], 0, 5000) == [Block(0xC000_0000, 5000, false), Block(0xC000_1398, 3160, true)]
  {
    hide Place;
    PlaceInNumbers([Block(0xC000_0000, 8176, true)], 0, 5000);
  }

  /** The first request on an empty heap, of 5000 bytes: two pages, of which a block of 3160 bytes is left. */
  lemma FirstMalloc()
    ensures Malloc(EMPTY, 5000, 2) ==
            (Heap([Block(0xC000_0000, 5000, false), Block(0xC000_1398, 3160, true)], 0xC000_2000, 0), 0xC000_0010)
  {
    hide Place;
    assert Grown(EMPTY, 2).blocks == [Block(0xC000_0000, 8176, true)];
    FirstPlace();
    assert RoundUp(5000) == 5000 && PagesFor(5000) == 2;
  }

  // ----- growth

  /** A growth follows a scan that found nothing; the new block is then the only one that fits, so the
      second scan ends the recursion. */
  lemma GrownFits(h: Heap, size: nat)
    requires Best(h.blocks, size, |h.blocks|) < 0
    ensures var g := Grown(h, PagesFor(size));
            && Best(g.blocks, size, |g.blocks|) == |h.blocks|
            && Fits(g.blocks[|h.blocks|], size)
            && forall i :: 0 <= i < |h.blocks| ==> !Fits(g.blocks[i], size)
  {
    BestIsSmallestFirst(h.blocks, size, |h.blocks|);
    var g := Grown(h, PagesFor(size));
    BestIsSmallestFirst(g.blocks, size, |g.blocks|);
    assert forall i :: 0 <= i < |h.blocks| ==> g.blocks[i] == h.blocks[i];
  }

  lemma AlignedPages(end: nat, pages: nat)
    requires end >= HEAP_START && (end - HEAP_START) % PAGE == 0
    ensures end % 4 == 0 && (pages * PAGE - HEADER) % 4 == 0
    ensures (end + pages * PAGE - HEAP_START) % PAGE == 0
  {
    var q := (end - HEAP_START) / PAGE;
    assert end == HEAP_START + q * PAGE == 4 * (HEAP_START / 4 + q * 1024);
    assert pages * PAGE - HEADER == 4 * (pages * 1024 - 4);
    assert end + pages * PAGE - HEAP_START == (q + pages) * PAGE;
  }

  lemma GrownIsLaid(h: Heap, pages: nat)
    requires Ordered(h) && pages > 0
    ensures Laid(Grown(h, pages).blocks, Grown(h, pages).end)
    ensures Footprint(Grown(h, pages).blocks) == Footprint(h.blocks) + pages * PAGE
  {
    hide Footprint;
    AlignedPages(h.end, pages);
    var b := Block(h.end, pages * PAGE - HEADER, true);
    FootprintOfConcat(h.blocks, [b]);
    FootprintOfOne(b);
  }

  ghost predicate Grants(h: Heap, granted: nat)
  {
    h.end + granted * PAGE <= HEAP_MAX
  }

  // The three ways through kmalloc.

  lemma MallocServed(h: Heap, request: nat)
    requires Ordered(h) && request > 0 && Best(h.blocks, RoundUp(request), |h.blocks|) >= 0
    ensures var size := RoundUp(request);
            var k := Best(h.blocks, size, |h.blocks|);
            && k < |h.blocks| && Fits(h.blocks[k], size)
            && Malloc(h, request, 0) == (h.(blocks := Place(h.blocks, k, size)), h.blocks[k].Payload())
            && Ordered(h.(blocks := Place(h.blocks, k, size)))
  {
    hide Place, Best;
    var size := RoundUp(request);
    var k := Best(h.blocks, size, |h.blocks|);
    BestIsSmallestFirst(h.blocks, size, |h.blocks|);
    PlaceKeepsLayout(h.blocks, h.end, k, size);
  }

  lemma MallocFailed(h: Heap, request: nat, granted: nat)
    requires Ordered(h) && request > 0 && Best(h.blocks, RoundUp(request), |h.blocks|) < 0
    requires granted < PagesFor(RoundUp(request)) && Grants(h, granted)
    ensures Malloc(h, request, granted) == (Heap(h.blocks, h.end + granted * PAGE, h.lost + granted * PAGE), 0)
    ensures Ordered(Malloc(h, request, granted).0)
  {
    hide Best;
    AlignedPages(h.end, granted);
  }

  /** After a growth kmalloc calls itself; the second call is served from the list. */
  lemma MallocGrown(h: Heap, request: nat)
    requires Ordered(h) && request > 0 && Best(h.blocks, RoundUp(request), |h.blocks|) < 0
    requires Grants(h, PagesFor(RoundUp(request)))
    ensures var size := RoundUp(request);
            var g := Grown(h, PagesFor(size));
            && Ordered(g)
            && size > 0 && RoundUp(size) == size
            && Best(g.blocks, size, |g.blocks|) >= 0
            && (forall m: nat :: Malloc(g, size, m) == Malloc(h, request, PagesFor(size)))
            && Live(g.blocks) == Live(h.blocks)
  {
    hide Place, Best, Live, Laid, Footprint;
    var size := RoundUp(request);
    var g := Grown(h, PagesFor(size));
    GrownFits(h, size);
    GrownIsLaid(h, PagesFor(size));
    AlignedPages(h.end, PagesFor(size));
    GrownLive(h, PagesFor(size));
  }

  lemma GrownLive(h: Heap, pages: nat)
    requires pages > 0
    ensures Live(Grown(h, pages).blocks) == Live(h.blocks)
  {
    var g := Grown(h, pages);
    forall c
      ensures c in Live(g.blocks) <==> c in Live(h.blocks)
    {
      if c in Live(h.blocks) {
        var i :| 0 <= i < |h.blocks| && !h.blocks[i].free && h.blocks[i] == c;
        assert g.blocks[i] == c;
      }
    }
  }

  lemma ServedKeepsInv(h: Heap, k: nat, size: nat)
    requires Inv(h) && k < |h.blocks| && Fits(h.blocks[k], size) && size % 4 == 0
    ensures Inv(h.(blocks := Place(h.blocks, k, size)))
  {
    hide Footprint, Place, Laid;
    PlaceKeepsLayout(h.blocks, h.end, k, size);
    PlaceKeepsFootprint(h.blocks, k, size);
    FreeHasNoFreeNeighbour(h.blocks, k);
    PlaceKeepsCoalesced(h.blocks, k, size);
  }

  lemma GrownKeepsInv(h: Heap, size: nat)
    requires Inv(h) && size > 0 && size % 4 == 0 && Grants(h, PagesFor(size)) && Best(h.blocks, size, |h.blocks|) < 0
    ensures var g := Grown(h, PagesFor(size));
            Fits(g.blocks[|h.blocks|], size) && Inv(g.(blocks := Place(g.blocks, |h.blocks|, size)))
  {
    hide Footprint, Best, Place, Laid;
    GrownFits(h, size);
    InvIsLaid(h);
    GrownIsLaid(h, PagesFor(size));
    AlignedPages(h.end, PagesFor(size));
    var g := Grown(h, PagesFor(size));
    assert forall i :: 0 <= i < |h.blocks| ==> g.blocks[i].free == h.blocks[i].free;
    PlaceKeepsLayout(g.blocks, g.end, |h.blocks|, size);
    PlaceKeepsFootprint(g.blocks, |h.blocks|, size);
    PlaceKeepsCoalesced(g.blocks, |h.blocks|, size);
  }

  lemma MallocKeepsInv(h: Heap, request: nat, granted: nat)
    requires Inv(h) && granted <= PagesFor(RoundUp(request)) && Grants(h, granted)
    ensures Inv(Malloc(h, request, granted).0)
  {
    hide Footprint, Place, Best;
    var size := RoundUp(request);
    var k := Best(h.blocks, size, |h.blocks|);
    BestIsSmallestFirst(h.blocks, size, |h.blocks|);
    if request != 0 {
      if k >= 0 {
        ServedKeepsInv(h, k, size);
      } else if granted == PagesFor(size) {
        GrownKeepsInv(h, size);
      } else {
        AlignedPages(h.end, granted);
      }
    }
  }

  lemma FreeHasNoFreeNeighbour(blocks: seq<Block>, k: nat)
    requires Coalesced(blocks) && k < |blocks| && blocks[k].free
    ensures k + 1 < |blocks| ==> !blocks[k + 1].free
    ensures k > 0 ==> !blocks[k - 1].free
  {
  }

  // ----- allocations

  lemma LiveOf(blocks: seq<Block>, b: Block)
    ensures b in Live(blocks) <==> exists i :: 0 <= i < |blocks| && !blocks[i].free && blocks[i] == b
  {
  }

  /** Addresses tell blocks apart. */
  lemma SameAddressSameBlock(blocks: seq<Block>, end: nat, i: nat, j: nat)
    requires Laid(blocks, end) && i < |blocks| && j < |blocks| && blocks[i].addr == blocks[j].addr
    ensures i == j
  {
  }

  /** kmalloc adds one allocation, large enough, inside what was a free block; the others stay as they are. */
  lemma PlaceAddsOne(blocks: seq<Block>, end: nat, k: nat, size: nat)
    requires Laid(blocks, end) && k < |blocks| && Fits(blocks[k], size)
    ensures var b := Place(blocks, k, size)[k];
            && !b.free && b.addr == blocks[k].addr && size <= b.size < size + HEADER + 4 && b.size <= blocks[k].size
            && b !in Live(blocks) && Live(Place(blocks, k, size)) == Live(blocks) + {b}
  {
    hide Place, Inside, Laid;
    PlaceShape(blocks, k, size);
    var after := Place(blocks, k, size);
    var b := after[k];
    if b in Live(blocks) {
      var i :| 0 <= i < |blocks| && !blocks[i].free && blocks[i] == b;
      SameAddressSameBlock(blocks, end, i, k);
    }
    forall c
      ensures c in Live(after) <==> c in Live(blocks) || c == b
    {
      if c in Live(after) {
        var i :| 0 <= i < |after| && !after[i].free && after[i] == c;
        var i' := if i <= k || |after| == |blocks| then i else i - 1;
        assert i != k ==> blocks[i'] == c;
      }
      if c in Live(blocks) {
        var i :| 0 <= i < |blocks| && !blocks[i].free && blocks[i] == c;
        var i' := if i < k || |after| == |blocks| then i else i + 1;
        assert after[i'] == c;
      }
    }
  }

  lemma AbsorbKeepsLive(blocks: seq<Block>, k: nat)
    requires k + 1 < |blocks| && blocks[k].free && blocks[k + 1].free
    ensures Live(Absorb(blocks, k)) == Live(blocks)
  {
    hide Absorb;
    AbsorbShape(blocks, k);
    var after := Absorb(blocks, k);
    forall c
      ensures c in Live(after) <==> c in Live(blocks)
    {
      if c in Live(after) {
        var i :| 0 <= i < |after| && !after[i].free && after[i] == c;
        assert blocks[if i < k then i else i + 1] == c;
      }
      if c in Live(blocks) {
        var i :| 0 <= i < |blocks| && !blocks[i].free && blocks[i] == c;
        assert after[if i < k then i else i - 1] == c;
      }
    }
  }

  lemma FreeingRemovesOne(blocks: seq<Block>, end: nat, k: nat)
    requires Laid(blocks, end) && k < |blocks| && !blocks[k].free
    ensures Live(blocks[k := Block(blocks[k].addr, blocks[k].size, true)]) == Live(blocks) - {blocks[k]}
  {
    var freed := blocks[k := Block(blocks[k].addr, blocks[k].size, true)];
    forall c
      ensures c in Live(freed) <==> c in Live(blocks) && c != blocks[k]
    {
      if c in Live(freed) {
        var i :| 0 <= i < |freed| && !freed[i].free && freed[i] == c;
        assert blocks[i] == c;
      }
      if c in Live(blocks) && c != blocks[k] {
        var i :| 0 <= i < |blocks| && !blocks[i].free && blocks[i] == c;
        assert freed[i] == c;
      }
    }
  }

  /** kfree removes exactly the allocation it is given. */
  lemma ReleaseRemovesOne(blocks: seq<Block>, end: nat, k: nat)
    requires Laid(blocks, end) && k < |blocks| && !blocks[k].free
    ensures Live(Release(blocks, k)) == Live(blocks) - {blocks[k]}
  {
    hide Absorb, Live, Laid;
    var freed := blocks[k := Block(blocks[k].addr, blocks[k].size, true)];
    FreeingRemovesOne(blocks, end, k);
    var ahead := if k + 1 < |freed| && freed[k + 1].free then Absorb(freed, k) else freed;
    if k + 1 < |freed| {
      AbsorbShape(freed, k);
      if freed[k + 1].free {
        AbsorbKeepsLive(freed, k);
      }
    }
    if k > 0 && ahead[k - 1].free {
      AbsorbKeepsLive(ahead, k - 1);
    }
  }

  // ----- kfree undoes kmalloc

  lemma ReleaseUndoesPlace(blocks: seq<Block>, k: nat, size: nat)
    requires Coalesced(blocks) && k < |blocks| && Fits(blocks[k], size)
    ensures Release(Place(blocks, k, size), k) == blocks
  {
    FreeHasNoFreeNeighbour(blocks, k);
    PlaceShape(blocks, k, size);
    var placed := Place(blocks, k, size);
    var freed := placed[k := Block(placed[k].addr, placed[k].size, true)];
    if |placed| > |blocks| {
      AbsorbShape(freed, k);
      assert Absorb(freed, k) == blocks;
    } else {
      assert freed == blocks;
    }
  }

  /** When kmalloc needs no growth, freeing its result restores the very same heap, split or not. */
  lemma FreeUndoesMalloc(h: Heap, request: nat, granted: nat)
    requires Inv(h) && request > 0 && Best(h.blocks, RoundUp(request), |h.blocks|) >= 0
    ensures var r := Malloc(h, request, granted);
            && Allocated(r.0, r.1)
            && Free(r.0, r.1) == h
  {
    hide Place, Footprint, Best, Release;
    var size := RoundUp(request);
    var k := Best(h.blocks, size, |h.blocks|);
    BestIsSmallestFirst(h.blocks, size, |h.blocks|);
    PlaceAddsOne(h.blocks, h.end, k, size);
    PlaceKeepsLayout(h.blocks, h.end, k, size);
    PlaceShape(h.blocks, k, size);
    var r := Malloc(h, request, granted);
    assert r.0.blocks[k].Payload() == r.1;
    SameAddressSameBlock(r.0.blocks, h.end, k, Index(r.0, r.1));
    ReleaseUndoesPlace(h.blocks, k, size);
  }

  /** Once nothing is allocated the list is empty or one free block, which spans the whole heap
      unless growths have failed. */
  lemma NothingAllocated(h: Heap)
    requires Inv(h) && Live(h.blocks) == {}
    ensures |h.blocks| <= 1
    ensures h.lost == 0 && h.blocks != [] ==> h.blocks == [Block(HEAP_START, h.end - HEAP_START - HEADER, true)]
  {
    forall i | 0 <= i < |h.blocks|
      ensures h.blocks[i].free
    {
      LiveOf(h.blocks, h.blocks[i]);
    }
    if |h.blocks| == 1 {
      FootprintOfOne(h.blocks[0]);
      assert h.blocks == [h.blocks[0]];
    }
  }

  // ----- runs

  datatype Call = Allocate(request: nat, granted: nat) | Deallocate(ptr: nat)

  /** A heap together with the allocations its callers hold. */
  datatype Held = Held(heap: Heap, owned: set<Block>)

  const EMPTY := Heap([], HEAP_START, 0)

  /** Callers free only what they hold (or null); a growth gets no more pages than it asks for or the region has. */
  ghost predicate Proper(h: Held, c: Call)
  {
    match c
    case Allocate(request, granted) => granted <= PagesFor(RoundUp(request)) && Grants(h.heap, granted)
    case Deallocate(ptr) => ptr == 0 || (Allocated(h.heap, ptr) && h.heap.blocks[Index(h.heap, ptr)] in h.owned)
  }

  ghost function Step(h: Held, c: Call): Held
    requires Proper(h, c)
  {
    match c
    case Allocate(request, granted) =>
      var r := Malloc(h.heap, request, granted);
      if r.1 == 0 || !Allocated(r.0, r.1) then Held(r.0, h.owned)
      else Held(r.0, h.owned + {r.0.blocks[Index(r.0, r.1)]})
    case Deallocate(ptr) =>
      if ptr == 0 then h else Held(Free(h.heap, ptr), h.owned - {h.heap.blocks[Index(h.heap, ptr)]})
  }

  ghost predicate ProperRun(h: Held, calls: seq<Call>)
    decreases |calls|
  {
    calls != [] ==> Proper(h, calls[0]) && ProperRun(Step(h, calls[0]), calls[1..])
  }

  ghost function Run(h: Held, calls: seq<Call>): Held
    requires ProperRun(h, calls)
    decreases |calls|
  {
    if calls == [] then h else Run(Step(h, calls[0]), calls[1..])
  }

  /** `ptr` is a new allocation of `h'` that is large enough; all others are those of `h`. */
  ghost predicate Adds(h: Heap, h': Heap, ptr: nat, request: nat)
  {
    && ptr % 4 == 0
    && Allocated(h', ptr)
    && var b := h'.blocks[Index(h', ptr)];
    && b.size >= request && b !in Live(h.blocks) && Live(h'.blocks) == Live(h.blocks) + {b}
  }

  lemma AddsBlock(h: Heap, h': Heap, k: nat, request: nat)
    requires Laid(h'.blocks, h'.end) && k < |h'.blocks|
    requires var b := h'.blocks[k];
             !b.free && b.size >= request && b !in Live(h.blocks) && Live(h'.blocks) == Live(h.blocks) + {b}
    ensures Adds(h, h', h'.blocks[k].Payload(), request)
  {
    SameAddressSameBlock(h'.blocks, h'.end, k, Index(h', h'.blocks[k].Payload()));
    PayloadAligned(h'.blocks[k], h'.end);
  }

  /** What kmalloc returns: null exactly for an empty request or a growth that fails, and otherwise
      a new allocation that is large enough, leaving all others in place. */
  lemma MallocAllocates(h: Heap, request: nat, granted: nat)
    requires Inv(h) && granted <= PagesFor(RoundUp(request)) && Grants(h, granted)
    ensures var size := RoundUp(request);
            var r := Malloc(h, request, granted);
            && (r.1 == 0 <==> request == 0 || (Best(h.blocks, size, |h.blocks|) < 0 && granted < PagesFor(size)))
            && (r.1 == 0 ==> r.0.blocks == h.blocks)
            && (r.1 != 0 ==> Adds(h, r.0, r.1, request))
  {
    hide Place, Footprint, Best, Live, Adds, Coalesced, Inside, Laid, Inv;
    var size := RoundUp(request);
    var k := Best(h.blocks, size, |h.blocks|);
    BestIsSmallestFirst(h.blocks, size, |h.blocks|);
    if request != 0 && k >= 0 {
      ServedAdds(h, request, granted);
    } else if request != 0 && granted == PagesFor(size) {
      GrownAdds(h, request);
    }
  }

  lemma InvIsLaid(h: Heap)
    requires Inv(h)
    ensures Laid(h.blocks, h.end)
  {
  }

  lemma ServedAdds(h: Heap, request: nat, granted: nat)
    requires Inv(h) && request > 0 && granted <= PagesFor(RoundUp(request)) && Grants(h, granted)
    requires Best(h.blocks, RoundUp(request), |h.blocks|) >= 0
    ensures Malloc(h, request, granted).1 != 0 && Adds(h, Malloc(h, request, granted).0, Malloc(h, request, granted).1, request)
  {
    hide Place, Best, Live, Adds, Inv, Laid;
    var size := RoundUp(request);
    var k := Best(h.blocks, size, |h.blocks|);
    BestIsSmallestFirst(h.blocks, size, |h.blocks|);
    MallocKeepsInv(h, request, granted);
    InvIsLaid(h);
    var h' := Malloc(h, request, granted).0;
    InvIsLaid(h');
    PlaceAddsOne(h.blocks, h.end, k, size);
    PlaceShape(h.blocks, k, size);
    AddsBlock(h, h', k, request);
  }

  lemma GrownAdds(h: Heap, request: nat)
    requires Inv(h) && request > 0 && Grants(h, PagesFor(RoundUp(request))) && Best(h.blocks, RoundUp(request), |h.blocks|) < 0
    ensures var r := Malloc(h, request, PagesFor(RoundUp(request)));
            r.1 != 0 && Adds(h, r.0, r.1, request)
  {
    hide Place, Best, Live, Adds, Inv, Laid;
    var size := RoundUp(request);
    BestIsSmallestFirst(h.blocks, size, |h.blocks|);
    MallocKeepsInv(h, request, PagesFor(size));
    var h' := Malloc(h, request, PagesFor(size)).0;
    InvIsLaid(h');
    GrownAllocates(h, size);
    AddsBlock(h, h', |h.blocks|, request);
  }

  lemma PayloadAligned(b: Block, end: nat)
    requires Inside(b, end)
    ensures b.Payload() % 4 == 0
  {
    assert b.Payload() == 4 * (b.addr / 4 + 4);
  }

  lemma GrownAllocates(h: Heap, size: nat)
    requires Inv(h) && size % 4 == 0 && Best(h.blocks, size, |h.blocks|) < 0
    ensures var g := Grown(h, PagesFor(size));
            var n := |h.blocks|;
            && Fits(g.blocks[n], size)
            && n < |Place(g.blocks, n, size)|
            && var b := Place(g.blocks, n, size)[n];
            && !b.free && b.Payload() == h.end + HEADER && b.size >= size
            && b !in Live(h.blocks) && Live(Place(g.blocks, n, size)) == Live(h.blocks) + {b}
  {
    hide Place, Footprint, Best;
    GrownFits(h, size);
    GrownIsLaid(h, PagesFor(size));
    var g := Grown(h, PagesFor(size));
    PlaceAddsOne(g.blocks, g.end, |h.blocks|, size);
    PlaceShape(g.blocks, |h.blocks|, size);
    GrownLive(h, PagesFor(size));
  }

  /** Over every run from the empty heap the invariant holds and the callers hold exactly the live blocks. */
  lemma {:induction false} RunKeepsInv(h: Held, calls: seq<Call>)
    requires Inv(h.heap) && h.owned == Live(h.heap.blocks) && ProperRun(h, calls)
    ensures var end := Run(h, calls);
            Inv(end.heap) && end.owned == Live(end.heap.blocks)
    decreases |calls|
  {
    if calls != [] {
      StepKeepsInv(h, calls[0]);
      RunKeepsInv(Step(h, calls[0]), calls[1..]);
    }
  }

  /** Over every run no two allocations the callers hold overlap, headers included, and all lie in the heap. */
  lemma HeldBlocksAreApart(h: Held, calls: seq<Call>, b: Block, c: Block)
    requires Inv(h.heap) && h.owned == Live(h.heap.blocks) && ProperRun(h, calls)
    requires b in Run(h, calls).owned && c in Run(h, calls).owned && b != c
    ensures HEAP_START <= b.addr && b.End() <= Run(h, calls).heap.end <= HEAP_MAX
    ensures b.End() <= c.addr || c.End() <= b.addr
  {
    hide Footprint, Run, ProperRun, Coalesced, Laid;
    RunKeepsInv(h, calls);
    LiveAreApart(Run(h, calls).heap.blocks, Run(h, calls).heap.end, b, c);
  }

  lemma LiveAreApart(blocks: seq<Block>, end: nat, b: Block, c: Block)
    requires Laid(blocks, end) && b in Live(blocks) && c in Live(blocks)
    ensures HEAP_START <= b.addr && b.End() <= end
    ensures b != c ==> b.End() <= c.addr || c.End() <= b.addr
  {
    var i :| 0 <= i < |blocks| && !blocks[i].free && blocks[i] == b;
    var j :| 0 <= j < |blocks| && !blocks[j].free && blocks[j] == c;
    assert Inside(blocks[i], end);
    assert b != c ==> blocks[if i < j then i else j].End() <= blocks[if i < j then j else i].addr;
  }

  lemma StepKeepsInv(h: Held, c: Call)
    requires Inv(h.heap) && h.owned == Live(h.heap.blocks) && Proper(h, c)
    ensures Inv(Step(h, c).heap) && Step(h, c).owned == Live(Step(h, c).heap.blocks)
  {
    hide Place, Footprint, Best, Release;
    match c
    case Allocate(request, granted) =>
      MallocKeepsInv(h.heap, request, granted);
      MallocAllocates(h.heap, request, granted);
    case Deallocate(ptr) =>
      if ptr != 0 {
        FreeKeepsInv(h.heap, ptr);
        ReleaseRemovesOne(h.heap.blocks, h.heap.end, Index(h.heap, ptr));
      }
  }

  /** After any run that has freed all it was given, at most one block is left. */
  lemma AllFreedMeansOneBlock(calls: seq<Call>)
    requires ProperRun(Held(EMPTY, {}), calls)
    requires Run(Held(EMPTY, {}), calls).owned == {}
    ensures |Run(Held(EMPTY, {}), calls).heap.blocks| <= 1
  {
    assert Live(EMPTY.blocks) == {};
    RunKeepsInv(Held(EMPTY, {}), calls);
    NothingAllocated(Run(Held(EMPTY, {}), calls).heap);
  }
}
