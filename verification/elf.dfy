/** The ELF loader (elf.cpp). */
module Elf {
  import opened Types
  import opened Frames
  import opened Paging
  import opened Image
  import opened VirtualMemory

  const EHDR_SIZE: nat := 52
  const PHDR_SIZE: nat := 32
  const PT_LOAD: nat := 1

  type File = seq<Byte>

  // ----- the file format

  /** elf_validate: a little-endian 32-bit executable for the 386. */
  predicate Validate(data: File)
    requires |data| >= EHDR_SIZE
  {
    && data[0] == 0x7f && data[1] == 'E' as nat && data[2] == 'L' as nat && data[3] == 'F' as nat
    && data[4] == 1
    && data[5] == 1
    && U16(data, 16) == 2
    && U16(data, 18) == 3
  }

  datatype Segment = Segment(kind: nat, offset: nat, vaddr: nat, filesz: nat, memsz: nat, flags: nat)
  {
    predicate Loads() { kind == PT_LOAD }

    function End(): nat { vaddr + memsz }

    /** The page of byte `k` of the segment. */
    function PageOf(k: nat): nat { (vaddr + k) / PAGE_SIZE }

    function FirstPage(): nat { vaddr / PAGE_SIZE }
    function PageCount(): nat { (memsz + PAGE_SIZE - 1) / PAGE_SIZE }

    /** The pages the loader's page loop maps: one every 4096 bytes from the first. */
    predicate Covers(page: nat) { Loads() && FirstPage() <= page < FirstPage() + PageCount() }
  }

  function EntryPoint(data: File): nat requires |data| >= EHDR_SIZE { U32(data, 24) }
  function HeaderCount(data: File): nat requires |data| >= EHDR_SIZE { U16(data, 44) }

  function HeaderAt(data: File, i: nat): nat
    requires |data| >= EHDR_SIZE
  {
    U32(data, 28) + i * U16(data, 42)
  }

  predicate HeaderInside(data: File, i: nat)
    requires |data| >= EHDR_SIZE
  {
    HeaderAt(data, i) + PHDR_SIZE <= |data|
  }

  function SegmentAt(data: File, i: nat): Segment
    requires |data| >= EHDR_SIZE && HeaderInside(data, i)
  {
    var at := HeaderAt(data, i);
    Segment(U32(data, at), U32(data, at + 4), U32(data, at + 8), U32(data, at + 16), U32(data, at + 20), U32(data, at + 24))
  }

  /** Segment `i` is to be loaded. */
  predicate Load(data: File, i: nat)
  {
    |data| >= EHDR_SIZE && i < HeaderCount(data) && HeaderInside(data, i) && SegmentAt(data, i).Loads()
  }

  // ----- when the loader can succeed

  /** Some segment ends above where some segment starts. */
  ghost predicate HullNotEmpty(data: File)
  {
    exists i: nat, j: nat :: Load(data, i) && Load(data, j) && SegmentAt(data, i).vaddr < SegmentAt(data, j).End()
  }

  ghost predicate Acceptable(data: File)
  {
    && |data| >= EHDR_SIZE
    && Validate(data)
    && (forall i: nat :: i < HeaderCount(data) ==> HeaderInside(data, i))
    && HullNotEmpty(data)
  }

  // ----- what the loader takes for granted

  /** The page loop of a segment reaches its last byte. */
  predicate Reached(s: Segment)
  {
    s.memsz == 0 || s.vaddr % PAGE_SIZE + s.memsz <= PAGE_SIZE * s.PageCount()
  }

  ghost predicate Placed(s: Segment)
  {
    && IDENTITY_LIMIT <= s.vaddr
    && s.End() < ADDRESSES
    && s.filesz <= s.memsz
    && Reached(s)
  }

  /** No address the first pass computes overflows 32 bits. */
  ghost predicate NoOverflow(data: File)
  {
    && |data| < ADDRESSES
    && (|data| >= EHDR_SIZE ==> HeaderAt(data, HeaderCount(data)) + PHDR_SIZE < ADDRESSES)
    && (forall i: nat :: Load(data, i) ==> SegmentAt(data, i).End() < ADDRESSES)
  }

  /** Segments lie above the identity mapping, the page loop reaches their last byte, and no offset in the file
      overflows. */
  ghost predicate WellPlaced(data: File)
  {
    && NoOverflow(data)
    && (forall i: nat :: Load(data, i) ==> Placed(SegmentAt(data, i)) && SegmentAt(data, i).offset + SegmentAt(data, i).filesz < ADDRESSES)
  }

  /** The pages the loop maps hold every byte of the segment exactly when Reached says so;
      a page-aligned segment always qualifies. */
  lemma ReachedMeansCovered(s: Segment)
    requires s.Loads()
    ensures Reached(s) <==> forall k: nat :: k < s.memsz ==> s.Covers(s.PageOf(k))
    ensures s.vaddr % PAGE_SIZE == 0 ==> Reached(s)
  {
    if !Reached(s) {
      assert !s.Covers(s.PageOf(s.memsz - 1));
    }
  }

  /** How many bytes behind filesz are cleared: the difference in 32 bits. */
  function Remaining(s: Segment): nat
  {
    (s.memsz - s.filesz) % ADDRESSES
  }

  /** The clearing stays inside the segment exactly when the file part is no longer than the segment; the copy is cut
      to memsz, the clearing is not. */
  lemma ClearingStaysInside(s: Segment)
    requires s.filesz < ADDRESSES && s.memsz < ADDRESSES
    ensures s.filesz + Remaining(s) <= s.memsz <==> s.filesz <= s.memsz
    ensures s.filesz <= s.memsz ==> s.filesz + Remaining(s) == s.memsz
  {
  }

  /** One byte more in the file than in memory: almost 4 GB are cleared. */
  lemma ClearingWraps()
    ensures Remaining(Segment(PT_LOAD, 0, IDENTITY_LIMIT, 2, 1, 0)) == ADDRESSES - 1
  {
  }

  /** Two bytes on either side of a page boundary: the page loop maps the first page and not the second. */
  lemma UnalignedSegmentIsMissed()
    ensures var s := Segment(PT_LOAD, 0, IDENTITY_LIMIT + PAGE_SIZE - 1, 2, 2, 0);
            !Reached(s) && s.Covers(s.PageOf(0)) && !s.Covers(s.PageOf(1))
  {
  }

  // ----- the meaning of a loaded file

  /** Byte `k` of a segment in memory: from the file, or zero beyond it. A segment whose file range
      leaves the file is loaded as zeros. */
  function Content(data: File, s: Segment, k: nat): Byte
  {
    if k < s.filesz && s.offset + s.filesz <= |data| then data[s.offset + k] else 0
  }

  /** The byte a load from `virt` gives, through the page tables. */
  ghost predicate Reads(s: Space, virt: nat, b: Byte)
    requires Sound(s)
  {
    Backed(s, virt / PAGE_SIZE) && Bytes(s.mem[FrameOf(s, virt / PAGE_SIZE)])[virt % PAGE_SIZE] == b
  }

  /** That byte, or -1 where there is none. */
  ghost function LoadOf(s: Space, virt: nat): int
    requires Sound(s)
  {
    if Backed(s, virt / PAGE_SIZE) then Bytes(s.mem[FrameOf(s, virt / PAGE_SIZE)])[virt % PAGE_SIZE] else -1
  }

  lemma ReadsIsLoad(s: Space, virt: nat)
    requires Sound(s)
    ensures forall b: Byte :: Reads(s, virt, b) <==> LoadOf(s, virt) == b
  {
    hide Flat, Bytes;
  }

  /** The last of the first `n` segments that covers a page, or -1. */
  ghost function LastCover(data: File, n: nat, p: nat): (j: int)
    ensures -1 <= j < n
    ensures j >= 0 ==> Load(data, j) && SegmentAt(data, j).Covers(p)
    ensures forall i: nat :: j < i < n && Load(data, i) ==> !SegmentAt(data, i).Covers(p)
  {
    if n == 0 then -1
    else if Load(data, n - 1) && SegmentAt(data, n - 1).Covers(p) then n - 1
    else LastCover(data, n - 1, p)
  }

  /** What a segment leaves at an address of one of its pages: its own byte, and zero around it. */
  function ByteLeft(data: File, s: Segment, virt: nat): Byte
  {
    if s.vaddr <= virt < s.End() then Content(data, s, virt - s.vaddr) else 0
  }

  /** Every page of a segment shows what the last segment that covers it has left there. */
  ghost predicate ImageLoaded(s: Space, data: File)
    requires Sound(s) && |data| >= EHDR_SIZE
  {
    forall p: nat :: PageLoaded(s, data, p)
  }

  ghost predicate PageLoaded(s: Space, data: File, p: nat)
    requires Sound(s) && |data| >= EHDR_SIZE
  {
    var j := LastCover(data, HeaderCount(data), p);
    j >= 0 ==>
      && Backed(s, p)
      && forall k: nat :: k < PAGE_SIZE ==> Bytes(s.mem[FrameOf(s, p)])[k] == ByteLeft(data, SegmentAt(data, j), p * PAGE_SIZE + k)
  }

  /** No later segment covers a page of segment `j`. */
  ghost predicate Undisturbed(data: File, j: nat)
    requires Load(data, j)
  {
    forall i: nat, p: nat :: j < i && Load(data, i) && SegmentAt(data, j).Covers(p) ==> !SegmentAt(data, i).Covers(p)
  }

  ghost predicate SegmentLoaded(s: Space, data: File, seg: Segment)
    requires Sound(s)
  {
    forall k: nat :: k < seg.memsz ==> Reads(s, seg.vaddr + k, Content(data, seg, k))
  }

  /** Byte `k` of a segment reads as the format says: the byte of the file at its offset, and zero behind filesz. */
  lemma ByteIsLoaded(s: Space, data: File, seg: Segment, k: nat)
    requires Sound(s) && SegmentLoaded(s, data, seg) && seg.filesz <= seg.memsz
    ensures seg.offset + seg.filesz <= |data| && k < seg.filesz ==> Reads(s, seg.vaddr + k, data[seg.offset + k])
    ensures seg.filesz <= k < seg.memsz ==> Reads(s, seg.vaddr + k, 0)
  {
    hide Reads;
    assert k < seg.memsz ==> Reads(s, seg.vaddr + k, Content(data, seg, k));
  }

  /** A loaded segment, address by address. */
  lemma LoadedPlainly(s: Space, data: File, seg: Segment)
    requires Sound(s) && SegmentLoaded(s, data, seg) && seg.filesz <= seg.memsz
    ensures seg.offset + seg.filesz <= |data| ==>
              forall a: nat :: seg.vaddr <= a < seg.vaddr + seg.filesz ==> LoadOf(s, a) == data[seg.offset + (a - seg.vaddr)]
    ensures forall a: nat :: seg.vaddr + seg.filesz <= a < seg.vaddr + seg.memsz ==> LoadOf(s, a) == 0
  {
    hide LoadOf, Reads, SegmentLoaded, Content;
    forall a: nat | seg.vaddr <= a < seg.vaddr + seg.memsz
      ensures seg.offset + seg.filesz <= |data| && a < seg.vaddr + seg.filesz ==> LoadOf(s, a) == data[seg.offset + (a - seg.vaddr)]
      ensures seg.vaddr + seg.filesz <= a ==> LoadOf(s, a) == 0
    {
      ByteIsLoaded(s, data, seg, a - seg.vaddr);
      ReadsIsLoad(s, a);
    }
  }

  /** load_base and load_size are the exact hull of the segments. */
  ghost predicate IsHull(data: File, base: nat, size: nat)
  {
    && (exists i: nat :: Load(data, i) && SegmentAt(data, i).vaddr == base)
    && (exists i: nat :: Load(data, i) && SegmentAt(data, i).vaddr + SegmentAt(data, i).memsz == base + size)
    && forall i: nat :: Load(data, i) ==>
         base <= SegmentAt(data, i).vaddr && SegmentAt(data, i).vaddr + SegmentAt(data, i).memsz <= base + size
  }

  // ----- images: the pages of a file under construction

  type Img = map<nat, seq<Byte>>

  ghost predicate Full(img: Img)
  {
    forall p :: p in img ==> |img[p]| == PAGE_SIZE
  }

  /** The first `n` pages of a segment are cleared, new or not; the others are as before. */
  ghost predicate Cleared(before: Img, img: Img, seg: Segment, n: nat)
  {
    && (forall p :: p in img <==> p in before || seg.FirstPage() <= p < seg.FirstPage() + n)
    && (forall p :: p in img && seg.FirstPage() <= p < seg.FirstPage() + n ==> img[p] == Zeros())
    && (forall p :: p in img && !(seg.FirstPage() <= p < seg.FirstPage() + n) ==> p in before && img[p] == before[p])
  }

  /** The first `w` bytes of a segment have been stored into `before`. */
  ghost predicate Stored(before: Img, img: Img, data: File, seg: Segment, w: nat)
  {
    && Full(before) && Full(img) && img.Keys == before.Keys
    && forall p: nat, k: nat | p in img && k < PAGE_SIZE ::
         img[p][k] ==
         if seg.vaddr <= p * PAGE_SIZE + k < seg.vaddr + w then Content(data, seg, p * PAGE_SIZE + k - seg.vaddr)
         else before[p][k]
  }

  lemma ClearedStep(before: Img, img: Img, seg: Segment, n: nat)
    requires Cleared(before, img, seg, n)
    ensures Cleared(before, img[seg.FirstPage() + n := Zeros()], seg, n + 1)
  {
  }

  lemma SameAddress(p: nat, j: nat, v: nat)
    requires j < PAGE_SIZE
    ensures p == v / PAGE_SIZE && j == v % PAGE_SIZE <==> p * PAGE_SIZE + j == v
  {
  }

  lemma AddressInSegment(seg: Segment, p: nat, k: nat)
    requires seg.Loads() && Placed(seg) && k < PAGE_SIZE
    ensures seg.vaddr <= p * PAGE_SIZE + k < seg.End() ==> seg.Covers(p)
  {
    if seg.vaddr <= p * PAGE_SIZE + k < seg.End() {
      ReachedMeansCovered(seg);
      SameAddress(p, k, p * PAGE_SIZE + k);
      assert seg.Covers(seg.PageOf(p * PAGE_SIZE + k - seg.vaddr));
    }
  }

  lemma StoredStep(before: Img, img: Img, data: File, seg: Segment, w: nat)
    requires Stored(before, img, data, seg, w) && seg.PageOf(w) in img
    ensures var page := seg.PageOf(w);
            Stored(before, img[page := Put(img[page], (seg.vaddr + w) % PAGE_SIZE, Content(data, seg, w))], data, seg, w + 1)
  {
    var page, k := seg.PageOf(w), (seg.vaddr + w) % PAGE_SIZE;
    var img' := img[page := Put(img[page], k, Content(data, seg, w))];
    forall p: nat, j: nat | p in img' && j < PAGE_SIZE
      ensures img'[p][j] ==
              if seg.vaddr <= p * PAGE_SIZE + j < seg.vaddr + (w + 1) then Content(data, seg, p * PAGE_SIZE + j - seg.vaddr)
              else before[p][j]
    {
      SameAddress(p, j, seg.vaddr + w);
    }
  }

  /** When the file range of a segment leaves the file nothing is copied; the cleared pages already show it. */
  lemma NothingToCopy(before: Img, cleared: Img, data: File, seg: Segment)
    requires Full(cleared) && Cleared(before, cleared, seg, seg.PageCount())
    requires seg.Loads() && Placed(seg)
    requires seg.offset + seg.filesz > |data| || seg.filesz == 0
    ensures Stored(cleared, cleared, data, seg, seg.filesz)
  {
    forall p: nat, k: nat | p in cleared && k < PAGE_SIZE && seg.vaddr <= p * PAGE_SIZE + k < seg.vaddr + seg.filesz
      ensures cleared[p][k] == 0
    {
      AddressInSegment(seg, p, k);
    }
  }

  /** A stored segment leaves its bytes in the pages it covers, and the other pages as they were. */
  lemma StoredLeaves(before: Img, cleared: Img, img: Img, data: File, seg: Segment)
    requires Full(before) && Cleared(before, cleared, seg, seg.PageCount())
    requires Stored(cleared, img, data, seg, seg.memsz)
    requires seg.Loads() && Placed(seg)
    ensures forall p :: p in img <==> p in before || seg.Covers(p)
    ensures forall p, k: nat | p in img && seg.Covers(p) && k < PAGE_SIZE :: img[p][k] == ByteLeft(data, seg, p * PAGE_SIZE + k)
    ensures forall p :: p in img && !seg.Covers(p) ==> img[p] == before[p]
  {
    forall p | p in img && !seg.Covers(p)
      ensures img[p] == before[p]
    {
      forall k: nat | k < PAGE_SIZE
        ensures img[p][k] == before[p][k]
      {
        AddressInSegment(seg, p, k);
      }
    }
  }

  // ----- the file in memory

  function PageAt(src: nat, k: nat): nat
  {
    (src + k) / PAGE_SIZE
  }

  /** The file lies at `src`: its bytes read there, through allocated frames other than 0. */
  ghost predicate LiesAt(s: Space, src: nat, data: File)
    requires Sound(s)
  {
    && src + |data| <= ADDRESSES
    && forall k: nat :: k < |data| ==>
         Reads(s, src + k, data[k]) && Backed(s, PageAt(src, k)) && 0 < FrameOf(s, PageAt(src, k)) && FrameOf(s, PageAt(src, k)) in s.used
  }

  /** No segment covers a page the file lies in. */
  ghost predicate ClearOfInput(data: File, src: nat)
  {
    forall i: nat, k: nat :: Load(data, i) && k < |data| ==> !SegmentAt(data, i).Covers(PageAt(src, k))
  }

  ghost predicate Outside(img: Img, src: nat, n: nat)
  {
    forall k: nat :: k < n ==> PageAt(src, k) !in img
  }

  /** While an image grows in other pages, the file stays where it is and as it is. */
  lemma InputStays(s0: Space, s: Space, pages: map<nat, nat>, img: Img, src: nat, data: File)
    requires Holds(s0, s, pages, img) && LiesAt(s0, src, data) && Outside(img, src, |data|)
    ensures LiesAt(s, src, data)
  {
    hide Flat, Bytes, Owns;
    forall k: nat | k < |data|
      ensures Reads(s, src + k, data[k]) && Backed(s, PageAt(src, k))
      ensures 0 < FrameOf(s, PageAt(src, k)) && FrameOf(s, PageAt(src, k)) in s.used
    {
      var p := PageAt(src, k);
      assert Backed(s0, p) && Reads(s0, src + k, data[k]);
      assert p !in pages;
    }
  }

  lemma OutsideSegments(data: File, img: Img, n: nat, src: nat)
    requires OnlySegments(data, img, n) && ClearOfInput(data, src)
    ensures Outside(img, src, |data|)
  {
  }

  /** Where pages of the image lie over the file in memory, a byte of the file reads as the image has it. */
  lemma InputReadsExactly(s0: Space, s: Space, pages: map<nat, nat>, img: Img, src: nat, data: File, k: nat)
    requires Holds(s0, s, pages, img) && LiesAt(s0, src, data) && k < |data|
    ensures Reads(s, src + k, data[k]) <==>
            PageAt(src, k) !in img || (|img[PageAt(src, k)]| == PAGE_SIZE && img[PageAt(src, k)][(src + k) % PAGE_SIZE] == data[k])
  {
    hide Flat, Bytes;
    var p := PageAt(src, k);
    assert Reads(s0, src + k, data[k]) && Backed(s0, p) && FrameOf(s0, p) in s0.used;
    if p in img {
      assert Backed(s, p) && FrameOf(s, p) == pages[p];
    }
  }

  /** Once a segment has its pages, the file in memory is as it was exactly when the file has only zeros in them. */
  lemma InputLostExactly(s0: Space, s: Space, pages: map<nat, nat>, before: Img, img: Img, src: nat, data: File, seg: Segment)
    requires Holds(s0, s, pages, img) && LiesAt(s0, src, data) && Outside(before, src, |data|)
    requires seg.Loads() && Cleared(before, img, seg, seg.PageCount())
    ensures (forall k: nat :: k < |data| ==> Reads(s, src + k, data[k])) <==>
            forall k: nat :: k < |data| && seg.Covers(PageAt(src, k)) ==> data[k] == 0
  {
    hide Flat, Reads, Owns, Elsewhere, Shows, IdentityIntact, LiesAt;
    forall k: nat | k < |data|
      ensures Reads(s, src + k, data[k]) <==> (seg.Covers(PageAt(src, k)) ==> data[k] == 0)
    {
      InputReadsExactly(s0, s, pages, img, src, data, k);
      assert PageAt(src, k) !in before;
    }
  }

  /** A byte of the file, read from memory. */
  method ReadByte(vm: AddressSpace, src: nat, at: nat, ghost data: File) returns (b: Byte)
    requires vm.Valid() && LiesAt(vm.Now(), src, data) && at < |data|
    ensures b == data[at]
  {
    hide Flat, Bytes;
    assert Reads(vm.Now(), src + at, data[at]);
    b := vm.LoadByte(src + at);
  }

  method ReadU16(vm: AddressSpace, src: nat, at: nat, ghost data: File) returns (n: nat)
    requires vm.Valid() && LiesAt(vm.Now(), src, data) && at + 2 <= |data|
    ensures n == U16(data, at)
  {
    hide LiesAt;
    var low := ReadByte(vm, src, at, data);
    var high := ReadByte(vm, src, at + 1, data);
    n := low as nat + 256 * high as nat;
  }

  method ReadU32(vm: AddressSpace, src: nat, at: nat, ghost data: File) returns (n: nat)
    requires vm.Valid() && LiesAt(vm.Now(), src, data) && at + 4 <= |data|
    ensures n == U32(data, at)
  {
    hide LiesAt, U16;
    var low := ReadU16(vm, src, at, data);
    var high := ReadU16(vm, src, at + 2, data);
    n := low + 0x1_0000 * high;
  }

  /** elf_validate. */
  method ElfValidate(vm: AddressSpace, src: nat, ghost data: File) returns (ok: bool)
    requires vm.Valid() && LiesAt(vm.Now(), src, data) && |data| >= EHDR_SIZE
    ensures ok == Validate(data)
  {
    hide LiesAt, U16;
    var m0 := ReadByte(vm, src, 0, data);
    var m1 := ReadByte(vm, src, 1, data);
    var m2 := ReadByte(vm, src, 2, data);
    var m3 := ReadByte(vm, src, 3, data);
    if m0 != 0x7f || m1 != 'E' as nat || m2 != 'L' as nat || m3 != 'F' as nat {
      return false;
    }
    var class_ := ReadByte(vm, src, 4, data);
    if class_ != 1 {
      return false;
    }
    var encoding := ReadByte(vm, src, 5, data);
    if encoding != 1 {
      return false;
    }
    var kind := ReadU16(vm, src, 16, data);
    if kind != 2 {
      return false;
    }
    var machine := ReadU16(vm, src, 18, data);
    return machine == 3;
  }

  /** The fields of the program header at `at`. */
  method ReadHeader(vm: AddressSpace, src: nat, at: nat, ghost data: File) returns (seg: Segment)
    requires vm.Valid() && LiesAt(vm.Now(), src, data) && at + PHDR_SIZE <= |data|
    ensures seg == Segment(U32(data, at), U32(data, at + 4), U32(data, at + 8), U32(data, at + 16), U32(data, at + 20), U32(data, at + 24))
  {
    hide LiesAt, U32;
    var kind := ReadU32(vm, src, at, data);
    var offset := ReadU32(vm, src, at + 4, data);
    var vaddr := ReadU32(vm, src, at + 8, data);
    var filesz := ReadU32(vm, src, at + 16, data);
    var memsz := ReadU32(vm, src, at + 20, data);
    var flags := ReadU32(vm, src, at + 24, data);
    seg := Segment(kind, offset, vaddr, filesz, memsz, flags);
  }

  /** Where the program headers are and how many there are. */
  method ReadTable(vm: AddressSpace, src: nat, ghost data: File) returns (offset: nat, entrySize: nat, count: nat)
    requires vm.Valid() && LiesAt(vm.Now(), src, data) && |data| >= EHDR_SIZE
    ensures count == HeaderCount(data) && forall i: nat :: HeaderAt(data, i) == offset + i * entrySize
  {
    hide LiesAt, U16, U32;
    offset := ReadU32(vm, src, 28, data);
    count := ReadU16(vm, src, 44, data);
    entrySize := ReadU16(vm, src, 42, data);
  }

  // ----- loading one segment

  /** The allocation in the page loop and the loop that clears the frame through the identity mapping. */
  method ZeroedFrame(vm: AddressSpace) returns (phys: nat)
    requires vm.Valid() && Healthy(vm.Now()) && IdentityIntact(vm.Now())
    modifies vm.mem, vm.pmm`usedFrames, vm.pmm`used, vm.pmm.bitmap
    ensures vm.Valid()
    ensures phys == 0 ==> vm.Now() == old(vm.Now()) && FreeFrames(vm.pmm.used, vm.pmm.totalFrames) == {}
    ensures phys != 0 ==>
              var f := FirstClear(old(vm.pmm.used), vm.pmm.totalFrames, 0);
              && phys == f * PAGE_SIZE
              && Filled(old(vm.Now()), vm.Now())
              && Bytes(vm.mem[f]) == Zeros()
  {
    ghost var s := vm.Now();
    FullMeansNoneClear(s.used, s.total);
    assert 0 in Below(RESERVED);
    phys := vm.pmm.Alloc();
    if phys == 0 {
      return;
    }
    ghost var f := phys / PAGE_SIZE;
    assert vm.Now().mem == s.mem[f := s.mem[f]];
    FilledIsSound(s, vm.Now());
    ClearFrame(vm, phys, s);
  }

  method ClearFrame(vm: AddressSpace, phys: nat, ghost s: Space)
    requires vm.Valid() && Filled(s, vm.Now()) && Healthy(s) && IdentityIntact(s)
    requires phys == FirstClear(s.used, s.total, 0) * PAGE_SIZE
    modifies vm.mem
    ensures vm.Valid() && Filled(s, vm.Now())
    ensures Bytes(vm.mem[phys / PAGE_SIZE]) == Zeros()
  {
    hide Flat;
    ghost var f := phys / PAGE_SIZE;
    for b: nat := 0 to PAGE_SIZE
      invariant vm.Valid() && Filled(s, vm.Now())
      invariant forall k: nat :: k < b ==> ByteIn(vm.Now().mem[f], k) == 0
    {
      FilledPoke(s, vm.Now(), b, 0);
      assert (phys + b) / PAGE_SIZE == f && (phys + b) % PAGE_SIZE == b;
      vm.StoreByte(phys + b, 0);
    }
    assert Bytes(vm.mem[f]) == Zeros();
  }

  /** The body of the page loop: a zeroed frame mapped at `virt`, or failure when no frame is left. */
  method ProvidePage(vm: AddressSpace, virt: nat, segmentFlags: nat, ghost s0: Space, ghost pages: map<nat, nat>, ghost img: Img)
    returns (ok: bool, ghost pages': map<nat, nat>)
    requires vm.Valid() && Holds(s0, vm.Now(), pages, img)
    requires IDENTITY_LIMIT <= virt < ADDRESSES
    modifies vm.dir, vm.mem, vm.pmm`usedFrames, vm.pmm`used, vm.pmm.bitmap
    ensures vm.Valid()
    ensures !ok ==> vm.Now() == old(vm.Now()) && FreeFrames(vm.pmm.used, vm.pmm.totalFrames) == {}
    ensures !ok ==> pages' == pages
    ensures ok ==> Holds(s0, vm.Now(), pages', img[virt / PAGE_SIZE := Zeros()])
  {
    hide Flat;
    ghost var s := vm.Now();
    var phys := ZeroedFrame(vm);
    pages' := pages;
    if phys == 0 {
      return false, pages;
    }
    var flags: bv12 := 7;
    if segmentFlags % 2 == 1 {
      flags := flags | 4;
    }
    assert flags | 1 == 7;
    ghost var s1, page, f := vm.Now(), virt / PAGE_SIZE, FirstClear(s.used, s.total, 0);
    HoldsNewPage(s0, s, s1, pages, img, page, flags);
    vm.MapPage(virt, phys, flags);
    assert phys / PAGE_SIZE == f;
    assert vm.Now() == MapIn(s1, page, f, flags);
    ok, pages' := true, pages[page := f];
  }

  /** Where round `n` of the page loop maps. */
  lemma PageOfRound(seg: Segment, n: nat)
    requires seg.Loads() && Placed(seg) && n * PAGE_SIZE < seg.memsz
    ensures var virt := seg.vaddr + n * PAGE_SIZE - (seg.vaddr + n * PAGE_SIZE) % PAGE_SIZE;
            IDENTITY_LIMIT <= virt < ADDRESSES && virt / PAGE_SIZE == seg.FirstPage() + n
    ensures n < seg.PageCount() && seg.Covers(seg.FirstPage() + n)
  {
  }

  /** The page loop. On failure some of the pages are there and no frame is left. */
  method MapSegment(vm: AddressSpace, seg: Segment, ghost s0: Space, ghost pages0: map<nat, nat>, ghost img0: Img)
    returns (ok: bool, ghost pages: map<nat, nat>, ghost img: Img)
    requires vm.Valid() && Holds(s0, vm.Now(), pages0, img0)
    requires seg.Loads() && Placed(seg)
    modifies vm.dir, vm.mem, vm.pmm`usedFrames, vm.pmm`used, vm.pmm.bitmap
    ensures vm.Valid() && Holds(s0, vm.Now(), pages, img)
    ensures ok ==> Cleared(img0, img, seg, seg.PageCount())
    ensures !ok ==> FreeFrames(vm.pmm.used, vm.pmm.totalFrames) == {}
    ensures !ok ==> forall p :: p in img ==> p in img0 || seg.Covers(p)
  {
    hide Flat, Owns, Elsewhere, Shows;
    pages, img := pages0, img0;
    var pageOff: nat := 0;
    ghost var n := 0;
    while pageOff < seg.memsz
      invariant pageOff == n * PAGE_SIZE && 0 <= n <= seg.PageCount()
      invariant vm.Valid() && Holds(s0, vm.Now(), pages, img)
      invariant Cleared(img0, img, seg, n)
      decreases seg.PageCount() - n
    {
      var virt := seg.vaddr + pageOff - (seg.vaddr + pageOff) % PAGE_SIZE;
      PageOfRound(seg, n);
      ClearedStep(img0, img, seg, n);
      ok, pages := ProvidePage(vm, virt, seg.flags, s0, pages, img);
      if !ok {
        return;
      }
      img := img[virt / PAGE_SIZE := Zeros()];
      pageOff, n := pageOff + PAGE_SIZE, n + 1;
    }
    ok := true;
  }

  /** A store through the page tables to a page of the image. */
  method StoreIn(vm: AddressSpace, virt: nat, b: Byte, ghost s0: Space, ghost pages: map<nat, nat>, ghost img: Img)
    requires vm.Valid() && Holds(s0, vm.Now(), pages, img)
    requires virt < ADDRESSES && virt / PAGE_SIZE in img && Full(img)
    modifies vm.mem
    ensures vm.Valid()
    ensures Holds(s0, vm.Now(), pages, img[virt / PAGE_SIZE := Put(img[virt / PAGE_SIZE], virt % PAGE_SIZE, b)])
  {
    hide Flat, Owns, Elsewhere;
    HoldsStore(s0, vm.Now(), pages, img, virt / PAGE_SIZE, virt % PAGE_SIZE, b);
    vm.StoreByte(virt, b);
  }

  /** The next byte of a segment. */
  method StoreNext(vm: AddressSpace, virt: nat, b: Byte, ghost s0: Space, ghost pages: map<nat, nat>, ghost img: Img,
                   ghost before: Img, ghost data: File, ghost seg: Segment, ghost k: nat)
    returns (ghost img': Img)
    requires vm.Valid() && Holds(s0, vm.Now(), pages, img)
    requires Stored(before, img, data, seg, k) && seg.PageOf(k) in img
    requires virt == seg.vaddr + k < ADDRESSES && b == Content(data, seg, k)
    modifies vm.mem
    ensures vm.Valid() && Holds(s0, vm.Now(), pages, img')
    ensures Stored(before, img', data, seg, k + 1)
  {
    hide Flat, Owns, Elsewhere, Shows, Put, Content;
    StoredStep(before, img, data, seg, k);
    StoreIn(vm, virt, b, s0, pages, img);
    img' := img[virt / PAGE_SIZE := Put(img[virt / PAGE_SIZE], virt % PAGE_SIZE, b)];
  }

  lemma SameOutside(a: Img, b: Img, src: nat, n: nat)
    requires Outside(a, src, n) && b.Keys == a.Keys
    ensures Outside(b, src, n)
  {
  }

  /** The copy loop and the loop that clears the rest of the segment. */
  method CopySegment(vm: AddressSpace, src: nat, size: nat, seg: Segment, ghost data: File, ghost s0: Space,
                     ghost pages: map<nat, nat>, ghost before: Img, ghost cleared: Img)
    returns (ghost img: Img)
    requires vm.Valid() && Holds(s0, vm.Now(), pages, cleared)
    requires size == |data| && LiesAt(s0, src, data) && Outside(cleared, src, size)
    requires seg.Loads() && Placed(seg)
    requires Full(before) && Full(cleared) && Cleared(before, cleared, seg, seg.PageCount())
    modifies vm.mem
    ensures vm.Valid() && Holds(s0, vm.Now(), pages, img)
    ensures Stored(cleared, img, data, seg, seg.memsz)
  {
    hide Flat, Owns, Elsewhere, Shows, Put, LiesAt, Outside, Remaining;
    ReachedMeansCovered(seg);
    img := cleared;
    var copyFilesz := if seg.filesz > seg.memsz then seg.memsz else seg.filesz;
    if copyFilesz > 0 && seg.offset + copyFilesz <= size {
      for b: nat := 0 to copyFilesz
        invariant vm.Valid() && Holds(s0, vm.Now(), pages, img)
        invariant Stored(cleared, img, data, seg, b)
      {
        assert seg.Covers(seg.PageOf(b));
        SameOutside(cleared, img, src, size);
        InputStays(s0, vm.Now(), pages, img, src, data);
        var byte := ReadByte(vm, src, seg.offset + b, data);
        img := StoreNext(vm, seg.vaddr + b, byte, s0, pages, img, cleared, data, seg, b);
      }
    } else {
      NothingToCopy(before, cleared, data, seg);
    }
    ClearingStaysInside(seg);
    var bssStart, remaining := seg.vaddr + seg.filesz, Remaining(seg);
    for b: nat := 0 to remaining
      invariant vm.Valid() && Holds(s0, vm.Now(), pages, img)
      invariant Stored(cleared, img, data, seg, seg.filesz + b)
    {
      assert seg.Covers(seg.PageOf(seg.filesz + b));
      img := StoreNext(vm, bssStart + b, 0, s0, pages, img, cleared, data, seg, seg.filesz + b);
    }
  }

  // ----- the loader

  datatype LoadResult = LoadResult(entryPoint: nat, loadBase: nat, loadSize: nat, success: bool)

  const FAILED := LoadResult(0, 0, 0, false)

  /** The first pass over the program headers. */
  method FindHull(vm: AddressSpace, src: nat, size: nat, ghost data: File) returns (ok: bool, lowest: nat, highest: nat)
    requires vm.Valid() && LiesAt(vm.Now(), src, data) && size == |data| >= EHDR_SIZE && NoOverflow(data)
    ensures ok <==> (forall i: nat :: i < HeaderCount(data) ==> HeaderInside(data, i)) && HullNotEmpty(data)
    ensures ok ==> lowest < highest && IsHull(data, lowest, highest - lowest)
  {
    hide LiesAt, U16, U32, HeaderAt;
    lowest, highest := 0xFFFF_FFFF, 0;
    var offset, entrySize, count := ReadTable(vm, src, data);
    for i: nat := 0 to count
      invariant forall j: nat :: j < i ==> HeaderInside(data, j)
      invariant lowest <= 0xFFFF_FFFF
      invariant forall j: nat :: j < i && Load(data, j) ==>
                  lowest <= SegmentAt(data, j).vaddr && SegmentAt(data, j).End() <= highest
      invariant lowest == 0xFFFF_FFFF || exists j: nat :: j < i && Load(data, j) && SegmentAt(data, j).vaddr == lowest
      invariant highest == 0 || exists j: nat :: j < i && Load(data, j) && SegmentAt(data, j).End() == highest
    {
      if offset + i * entrySize + PHDR_SIZE > size {
        assert !HeaderInside(data, i);
        return false, lowest, highest;
      }
      var seg := ReadHeader(vm, src, offset + i * entrySize, data);
      assert seg == SegmentAt(data, i);
      if seg.Loads() {
        assert Load(data, i);
        if seg.vaddr < lowest {
          lowest := seg.vaddr;
        }
        if seg.vaddr + seg.memsz > highest {
          highest := seg.vaddr + seg.memsz;
        }
      }
    }
    ok := lowest < highest;
  }

  /** The image after the segments before `n`: their pages, each as the last segment that covers it left it. */
  ghost predicate Loaded(data: File, img: Img, n: nat)
  {
    && Full(img)
    && (forall p :: p in img <==> LastCover(data, n, p) >= 0)
    && forall p, k: nat | p in img && k < PAGE_SIZE ::
         img[p][k] == ByteLeft(data, SegmentAt(data, LastCover(data, n, p)), p * PAGE_SIZE + k)
  }

  ghost predicate OnlySegments(data: File, img: Img, n: nat)
  {
    forall p :: p in img ==> exists j: nat :: j < n && Load(data, j) && SegmentAt(data, j).Covers(p)
  }

  lemma LoadedStep(data: File, before: Img, cleared: Img, img: Img, n: nat)
    requires WellPlaced(data) && Load(data, n) && Loaded(data, before, n)
    requires var seg := SegmentAt(data, n);
             Cleared(before, cleared, seg, seg.PageCount()) && Stored(cleared, img, data, seg, seg.memsz)
    ensures Loaded(data, img, n + 1)
  {
    hide Content, U16, U32, HeaderAt, ByteLeft, Cleared;
    var seg := SegmentAt(data, n);
    StoredLeaves(before, cleared, img, data, seg);
    forall p: nat
      ensures LastCover(data, n + 1, p) == if seg.Covers(p) then n else LastCover(data, n, p)
    {
    }
    hide Load, SegmentAt, LastCover, Stored;
  }

  lemma LoadedNothing(data: File)
    ensures Loaded(data, map[], 0)
  {
  }

  lemma LoadedSkips(data: File, img: Img, n: nat)
    requires Loaded(data, img, n) && !Load(data, n)
    ensures Loaded(data, img, n + 1)
  {
    hide Content, ByteLeft, Load;
  }

  lemma LoadedOnlySegments(data: File, img: Img, n: nat)
    requires Loaded(data, img, n)
    ensures OnlySegments(data, img, n)
  {
    hide ByteLeft;
  }

  lemma OnlySegmentsGrows(data: File, before: Img, img: Img, n: nat)
    requires OnlySegments(data, before, n) && Load(data, n)
    requires forall p :: p in img ==> p in before || SegmentAt(data, n).Covers(p)
    ensures OnlySegments(data, img, n + 1)
  {
  }

  lemma LoadedIsShown(s0: Space, s: Space, pages: map<nat, nat>, img: Img, data: File)
    requires Holds(s0, s, pages, img) && |data| >= EHDR_SIZE && Loaded(data, img, HeaderCount(data))
    ensures ImageLoaded(s, data)
  {
    hide Flat, Bytes, ByteLeft, LastCover;
    forall p: nat
      ensures PageLoaded(s, data, p)
    {
      assert p in img ==> Backed(s, p) && FrameOf(s, p) == pages[p];
    }
  }

  /** Every byte of a segment is present, writable and open to user code: bits 0, 1 and 2 at both levels, and no other. */
  ghost predicate OpenToUsers(s: Space, data: File)
    requires Sound(s)
  {
    forall j: nat, a: nat ::
      Load(data, j) && SegmentAt(data, j).vaddr <= a < SegmentAt(data, j).vaddr + SegmentAt(data, j).memsz ==> RightsAt(s, a) == 7
  }

  lemma LoadedIsOpen(s0: Space, s: Space, pages: map<nat, nat>, img: Img, data: File)
    requires Holds(s0, s, pages, img) && |data| >= EHDR_SIZE && WellPlaced(data) && Loaded(data, img, HeaderCount(data))
    ensures OpenToUsers(s, data)
  {
    hide Flat, Bytes, ByteLeft, RightsAt, Granted, U16, U32, HeaderAt;
    forall j: nat, a: nat |
      Load(data, j) && SegmentAt(data, j).vaddr <= a < SegmentAt(data, j).vaddr + SegmentAt(data, j).memsz
      ensures RightsAt(s, a) == 7
    {
      var seg := SegmentAt(data, j);
      LoadLoads(data, j);
      ReachedMeansCovered(seg);
      assert seg.Covers(seg.PageOf(a - seg.vaddr));
      hide LastCover;
      assert LastCover(data, HeaderCount(data), a / PAGE_SIZE) >= 0;
      GrantedAt(s, pages, 7, a);
    }
  }

  lemma ImageReads(s: Space, data: File, virt: nat)
    requires Sound(s) && |data| >= EHDR_SIZE && ImageLoaded(s, data)
    requires LastCover(data, HeaderCount(data), virt / PAGE_SIZE) >= 0
    ensures Reads(s, virt, ByteLeft(data, SegmentAt(data, LastCover(data, HeaderCount(data), virt / PAGE_SIZE)), virt))
  {
    hide Flat, Bytes, ByteLeft, LastCover, Load, SegmentAt, HeaderCount;
    var p, k := virt / PAGE_SIZE, virt % PAGE_SIZE;
    assert PageLoaded(s, data, p);
    SameAddress(p, k, virt);
  }

  lemma LastIs(data: File, j: nat, p: nat)
    requires Load(data, j) && SegmentAt(data, j).Covers(p) && Undisturbed(data, j)
    ensures LastCover(data, HeaderCount(data), p) == j
  {
    hide SegmentAt, HeaderAt, HeaderCount;
  }

  /** A segment of whose pages no later one covers any reads as the file says. */
  lemma UndisturbedIsLoaded(s: Space, data: File, j: nat)
    requires Sound(s) && |data| >= EHDR_SIZE && ImageLoaded(s, data)
    requires Load(data, j) && Placed(SegmentAt(data, j)) && Undisturbed(data, j)
    ensures SegmentLoaded(s, data, SegmentAt(data, j))
  {
    hide Flat, Bytes, Content, Reads, ImageLoaded, Undisturbed, LastCover, U16, U32, HeaderAt;
    var seg := SegmentAt(data, j);
    LoadLoads(data, j);
    ReachedMeansCovered(seg);
    forall k: nat | k < seg.memsz
      ensures Reads(s, seg.vaddr + k, Content(data, seg, k))
    {
      assert seg.Covers(seg.PageOf(k));
      LastIs(data, j, seg.PageOf(k));
      ImageReads(s, data, seg.vaddr + k);
    }
  }

  /** What stands at the addresses of the segments that no later one disturbs: the bytes of the file from their offset
      on, and zeros behind them. */
  lemma LoadedImage(s: Space, data: File)
    requires Sound(s) && WellPlaced(data)
    requires forall j: nat :: Load(data, j) && Undisturbed(data, j) ==> SegmentLoaded(s, data, SegmentAt(data, j))
    ensures forall j: nat :: Load(data, j) && Undisturbed(data, j) ==>
              var seg := SegmentAt(data, j);
              && (seg.offset + seg.filesz <= |data| ==>
                    forall a: nat :: seg.vaddr <= a < seg.vaddr + seg.filesz ==> LoadOf(s, a) == data[seg.offset + (a - seg.vaddr)])
              && forall a: nat :: seg.vaddr + seg.filesz <= a < seg.vaddr + seg.memsz ==> LoadOf(s, a) == 0
  {
    hide Flat, Reads, LoadOf, SegmentLoaded, U32, U16, HeaderAt, Undisturbed;
    forall j: nat | Load(data, j) && Undisturbed(data, j)
      ensures var seg := SegmentAt(data, j);
              && (seg.offset + seg.filesz <= |data| ==>
                    forall a: nat :: seg.vaddr <= a < seg.vaddr + seg.filesz ==> LoadOf(s, a) == data[seg.offset + (a - seg.vaddr)])
              && forall a: nat :: seg.vaddr + seg.filesz <= a < seg.vaddr + seg.memsz ==> LoadOf(s, a) == 0
    {
      LoadedPlainly(s, data, SegmentAt(data, j));
    }
  }

  /** Byte `k` of segment `j` survives the later segments. */
  ghost predicate Survives(data: File, j: nat, k: nat)
    requires Load(data, j) && LastCover(data, HeaderCount(data), SegmentAt(data, j).PageOf(k)) >= 0
  {
    var seg, last := SegmentAt(data, j), LastCover(data, HeaderCount(data), SegmentAt(data, j).PageOf(k));
    ByteLeft(data, SegmentAt(data, last), seg.vaddr + k) == Content(data, seg, k)
  }

  /** A segment reads as the file says exactly when the last segment over each of its pages leaves the same bytes. */
  lemma SegmentLoadedExactly(s: Space, data: File, j: nat)
    requires Sound(s) && |data| >= EHDR_SIZE && ImageLoaded(s, data)
    requires Load(data, j) && Placed(SegmentAt(data, j))
    ensures forall k: nat :: k < SegmentAt(data, j).memsz ==> LastCover(data, HeaderCount(data), SegmentAt(data, j).PageOf(k)) >= 0
    ensures SegmentLoaded(s, data, SegmentAt(data, j)) <==> forall k: nat :: k < SegmentAt(data, j).memsz ==> Survives(data, j, k)
  {
    hide Flat, Bytes, Content, Reads, ImageLoaded, LastCover, ByteLeft, U16, U32, HeaderAt;
    var seg := SegmentAt(data, j);
    LoadLoads(data, j);
    ReachedMeansCovered(seg);
    forall k: nat | k < seg.memsz
      ensures LastCover(data, HeaderCount(data), seg.PageOf(k)) >= 0
      ensures Reads(s, seg.vaddr + k, Content(data, seg, k)) <==> Survives(data, j, k)
    {
      assert seg.Covers(seg.PageOf(k));
      ImageReads(s, data, seg.vaddr + k);
      OneByteReads(s, seg.vaddr + k);
    }
  }

  /** A file of two segments of one byte each, 256 bytes apart: 7 at 0x08000000 and 9 at 0x08000100. */
  function TwoOnOnePage(): File
  {
    seq(118, k requires 0 <= k < 118 =>
      match k
      case 0 => 0x7f case 1 => 69 case 2 => 76 case 3 => 70 case 4 => 1 case 5 => 1 case 16 => 2 case 18 => 3
      case 27 => 8 case 28 => 52 case 42 => 32 case 44 => 2
      case 52 => 1 case 56 => 116 case 63 => 8 case 68 => 1 case 72 => 1
      case 84 => 1 case 88 => 117 case 93 => 1 case 95 => 8 case 100 => 1 case 104 => 1
      case 116 => 7 case 117 => 9
      case _ => 0)
  }

  const LOW := Segment(PT_LOAD, 116, IDENTITY_LIMIT, 1, 1, 0)
  const HIGH := Segment(PT_LOAD, 117, IDENTITY_LIMIT + 256, 1, 1, 0)

  lemma TwoHeaders(data: File)
    requires data == TwoOnOnePage()
    ensures Validate(data) && HeaderCount(data) == 2
    ensures HeaderAt(data, 0) == 52 && HeaderAt(data, 1) == 84 && HeaderAt(data, 2) == 116
  {
    assert U16(data, 28) == 52 && U16(data, 30) == 0 && U16(data, 42) == 32;
  }

  lemma TwoSegments(data: File)
    requires data == TwoOnOnePage() && HeaderAt(data, 0) == 52 && HeaderAt(data, 1) == 84
    ensures SegmentAt(data, 0) == LOW && SegmentAt(data, 1) == HIGH
  {
    hide HeaderAt, U16, TwoOnOnePage;
    LowNumbers(data);
    LowSizes(data);
    HighNumbers(data);
    HighSizes(data);
  }

  lemma NumberAt(data: File, at: nat, b0: Byte, b1: Byte, b2: Byte, b3: Byte)
    requires at + 4 <= |data| && data[at] == b0 && data[at + 1] == b1 && data[at + 2] == b2 && data[at + 3] == b3
    ensures U32(data, at) == (b0 as nat) + 256 * (b1 as nat) + 0x1_0000 * (b2 as nat) + 0x100_0000 * (b3 as nat)
  {
  }

  lemma LowNumbers(data: File)
    requires data == TwoOnOnePage()
    ensures U32(data, 52) == 1
    ensures U32(data, 56) == 116
    ensures U32(data, 60) == IDENTITY_LIMIT
  {
    hide U32;
    NumberAt(data, 52, 1, 0, 0, 0);
    NumberAt(data, 56, 116, 0, 0, 0);
    NumberAt(data, 60, 0, 0, 0, 8);
  }

  lemma LowSizes(data: File)
    requires data == TwoOnOnePage()
    ensures U32(data, 68) == 1
    ensures U32(data, 72) == 1
    ensures U32(data, 76) == 0
  {
    hide U32;
    NumberAt(data, 68, 1, 0, 0, 0);
    NumberAt(data, 72, 1, 0, 0, 0);
    NumberAt(data, 76, 0, 0, 0, 0);
  }

  lemma HighNumbers(data: File)
    requires data == TwoOnOnePage()
    ensures U32(data, 84) == 1
    ensures U32(data, 88) == 117
    ensures U32(data, 92) == IDENTITY_LIMIT + 256
  {
    hide U32;
    NumberAt(data, 84, 1, 0, 0, 0);
    NumberAt(data, 88, 117, 0, 0, 0);
    NumberAt(data, 92, 0, 1, 0, 8);
  }

  lemma HighSizes(data: File)
    requires data == TwoOnOnePage()
    ensures U32(data, 100) == 1
    ensures U32(data, 104) == 1
    ensures U32(data, 108) == 0
  {
    hide U32;
    NumberAt(data, 100, 1, 0, 0, 0);
    NumberAt(data, 104, 1, 0, 0, 0);
    NumberAt(data, 108, 0, 0, 0, 0);
  }

  /** The loader takes the file, and the second segment's page replaces the first's. */
  lemma SharedPageExample()
    ensures var data := TwoOnOnePage();
            && Acceptable(data) && WellPlaced(data)
            && Load(data, 0) && LastCover(data, HeaderCount(data), SegmentAt(data, 0).PageOf(0)) == 1 && !Survives(data, 0, 0)
  {
    hide U16, U32, HeaderAt, Validate, HeaderCount, SegmentAt;
    var data := TwoOnOnePage();
    TwoHeaders(data);
    TwoSegments(data);
    assert data[116] == 7;
    hide TwoOnOnePage;
    assert Load(data, 0) && Load(data, 1);
    assert forall i: nat :: i < 2 ==> HeaderInside(data, i) && (SegmentAt(data, i) == LOW || SegmentAt(data, i) == HIGH);
    assert HullNotEmpty(data) by {
      assert SegmentAt(data, 0).vaddr < SegmentAt(data, 1).End();
    }
    assert HIGH.Covers(LOW.PageOf(0));
  }

  /** With the same file at 0x08000000, its first byte lies in a page of its first segment. */
  lemma FileUnderItself()
    ensures var data := TwoOnOnePage();
            Load(data, 0) && SegmentAt(data, 0).Covers(PageAt(IDENTITY_LIMIT, 0)) && data[0] != 0 && !ClearOfInput(data, IDENTITY_LIMIT)
  {
    hide U16, U32, HeaderAt, HeaderCount, SegmentAt;
    var data := TwoOnOnePage();
    TwoHeaders(data);
    TwoSegments(data);
    assert Load(data, 0);
  }

  lemma OneByteReads(s: Space, virt: nat)
    requires Sound(s)
    ensures forall a: Byte, b: Byte :: Reads(s, virt, a) && Reads(s, virt, b) ==> a == b
  {
    hide Flat, Bytes;
  }

  lemma LoadLoads(data: File, j: nat)
    requires Load(data, j)
    ensures SegmentAt(data, j).Loads()
  {
  }

  /** Where a later segment shares a page, the bytes loaded before are gone: the page reads as the later one alone
      left it, zeros around its own bytes. */
  lemma LaterSegmentReplaces(s: Space, data: File, j: nat, i: nat, k: nat)
    requires Sound(s) && |data| >= EHDR_SIZE && ImageLoaded(s, data)
    requires Load(data, j) && Load(data, i) && j < i && k < SegmentAt(data, j).memsz
    requires LastCover(data, HeaderCount(data), SegmentAt(data, j).PageOf(k)) == i
    ensures Reads(s, SegmentAt(data, j).vaddr + k, ByteLeft(data, SegmentAt(data, i), SegmentAt(data, j).vaddr + k))
  {
    hide Flat, Bytes, ByteLeft, Reads, ImageLoaded, LastCover, U16, U32, HeaderAt;
    ImageReads(s, data, SegmentAt(data, j).vaddr + k);
  }

  /** The second pass over the program headers. */
  method LoadSegments(vm: AddressSpace, src: nat, size: nat, ghost data: File)
    returns (ok: bool, ghost pages: map<nat, nat>, ghost img: Img)
    requires vm.Valid() && Healthy(vm.Now()) && IdentityIntact(vm.Now()) && WellPlaced(data) && Acceptable(data)
    requires size == |data| && LiesAt(vm.Now(), src, data) && ClearOfInput(data, src)
    modifies vm.dir, vm.mem, vm.pmm`usedFrames, vm.pmm`used, vm.pmm.bitmap
    ensures vm.Valid() && Holds(old(vm.Now()), vm.Now(), pages, img)
    ensures OnlySegments(data, img, HeaderCount(data))
    ensures ok ==> Loaded(data, img, HeaderCount(data))
    ensures !ok ==> FreeFrames(vm.pmm.used, vm.pmm.totalFrames) == {}
  {
    hide Flat, Owns, Elsewhere, Shows, Content, U16, U32, HeaderAt, LiesAt, ClearOfInput, Outside, LastCover, ByteLeft,
      OnlySegments, Loaded, Full, Cleared;
    ghost var s0 := vm.Now();
    HoldsNothing(s0);
    pages, img := map[], map[];
    LoadedNothing(data);
    var offset, entrySize, count := ReadTable(vm, src, data);
    for i: nat := 0 to count
      invariant vm.Valid() && Holds(s0, vm.Now(), pages, img)
      invariant Loaded(data, img, i)
    {
      LoadedOnlySegments(data, img, i);
      OutsideSegments(data, img, i, src);
      InputStays(s0, vm.Now(), pages, img, src, data);
      assert HeaderInside(data, i);
      var seg := ReadHeader(vm, src, offset + i * entrySize, data);
      assert seg == SegmentAt(data, i);
      if seg.Loads() {
        ghost var before, cleared := img, img;
        ok, pages, cleared := MapSegment(vm, seg, s0, pages, before);
        if !ok {
          img := cleared;
          LoadedOnlySegments(data, before, i);
          OnlySegmentsGrows(data, before, img, i);
          OnlySegmentsEarlier(data, img, i + 1, HeaderCount(data));
          return;
        }
        ClearedIsOutside(data, before, cleared, i, src);
        ClearedIsFull(data, before, cleared, seg, i);
        img := CopySegment(vm, src, size, seg, data, s0, pages, before, cleared);
        LoadedStep(data, before, cleared, img, i);
      } else {
        LoadedSkips(data, img, i);
      }
    }
    LoadedOnlySegments(data, img, count);
    ok := true;
  }

  lemma ClearedIsFull(data: File, before: Img, cleared: Img, seg: Segment, n: nat)
    requires Loaded(data, before, n) && Cleared(before, cleared, seg, seg.PageCount())
    ensures Full(before) && Full(cleared)
  {
    hide LastCover, ByteLeft;
  }

  lemma ClearedIsOutside(data: File, before: Img, cleared: Img, n: nat, src: nat)
    requires OnlySegments(data, before, n) && Load(data, n) && ClearOfInput(data, src)
    requires Cleared(before, cleared, SegmentAt(data, n), SegmentAt(data, n).PageCount())
    ensures Outside(cleared, src, |data|)
  {
    OutsideSegments(data, before, n, src);
  }

  lemma OnlySegmentsEarlier(data: File, img: Img, m: nat, n: nat)
    requires OnlySegments(data, img, m) && m <= n
    ensures OnlySegments(data, img, n)
  {
  }

  /** elf_load_from_memory. After a success every page of a segment reads, through the page tables, as the last segment
      that covers it says, and the result gives the hull; whatever happens, no page and no memory outside the segments
      has changed; and an acceptable file fails only when no frame is left. */
  method LoadFromMemory(vm: AddressSpace, src: nat, size: nat, ghost data: File)
    returns (result: LoadResult, ghost pages: map<nat, nat>)
    requires vm.Valid() && Healthy(vm.Now()) && IdentityIntact(vm.Now()) && WellPlaced(data)
    requires size == |data| && LiesAt(vm.Now(), src, data) && ClearOfInput(data, src)
    modifies vm.dir, vm.mem, vm.pmm`usedFrames, vm.pmm`used, vm.pmm.bitmap
    ensures vm.Valid() && Healthy(vm.Now()) && IdentityIntact(vm.Now()) && LiesAt(vm.Now(), src, data)
    ensures Elsewhere(old(vm.Now()), vm.Now(), pages)
    ensures forall p :: p in pages ==> exists j: nat :: Load(data, j) && SegmentAt(data, j).Covers(p)
    ensures result.success ==>
              && Acceptable(data)
              && result.entryPoint == EntryPoint(data)
              && IsHull(data, result.loadBase, result.loadSize)
              && ImageLoaded(vm.Now(), data)
              && forall j: nat :: Load(data, j) && Undisturbed(data, j) ==> SegmentLoaded(vm.Now(), data, SegmentAt(data, j))
    ensures result.success ==>
              var s := vm.Now();
              forall j: nat :: Load(data, j) && Undisturbed(data, j) ==>
                var seg := SegmentAt(data, j);
                && (seg.offset + seg.filesz <= |data| ==>
                      forall a: nat :: seg.vaddr <= a < seg.vaddr + seg.filesz ==> LoadOf(s, a) == data[seg.offset + (a - seg.vaddr)])
                && forall a: nat :: seg.vaddr + seg.filesz <= a < seg.vaddr + seg.memsz ==> LoadOf(s, a) == 0
    ensures result.success ==> OpenToUsers(vm.Now(), data)
    ensures !result.success ==> result == FAILED
    ensures !result.success && Acceptable(data) ==> FreeFrames(vm.pmm.used, vm.pmm.totalFrames) == {}
    ensures !Acceptable(data) ==> !result.success && vm.Now() == old(vm.Now())
  {
    hide Flat, Owns, Elsewhere, Content, U16, U32, HeaderAt, SegmentLoaded, LiesAt, ClearOfInput, Outside,
      NoOverflow, ImageLoaded, Undisturbed, LastCover, LoadOf, OpenToUsers, Granted;
    ghost var s0 := vm.Now();
    HoldsNothing(s0);
    pages := map[];
    result := FAILED;
    if size < EHDR_SIZE {
      return;
    }
    var ok := ElfValidate(vm, src, data);
    if !ok {
      return;
    }
    var entry := ReadU32(vm, src, 24, data);
    var lowest, highest;
    ok, lowest, highest := FindHull(vm, src, size, data);
    if !ok {
      return;
    }
    ghost var img;
    ok, pages, img := LoadSegments(vm, src, size, data);
    OutsideSegments(data, img, HeaderCount(data), src);
    InputStays(s0, vm.Now(), pages, img, src, data);
    if !ok {
      return;
    }
    LoadedIsShown(s0, vm.Now(), pages, img, data);
    LoadedIsOpen(s0, vm.Now(), pages, img, data);
    forall j: nat | Load(data, j) && Undisturbed(data, j)
      ensures SegmentLoaded(vm.Now(), data, SegmentAt(data, j))
    {
      UndisturbedIsLoaded(vm.Now(), data, j);
    }
    LoadedImage(vm.Now(), data);
    result := LoadResult(entry, lowest, highest - lowest, true);
  }
}
