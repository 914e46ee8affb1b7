/** Bytes behind virtual addresses: what stores through the page tables do to loads. */
module Image {
  import opened Types
  import opened Frames
  import opened Paging
  import opened Copies

  const WORDS := ENTRIES

  // ----- bytes of words and pages

  /** Byte `k` of a word, lowest first. */
  function ByteOf(w: Word, k: nat): Byte
    requires k < 4
  {
    match w
    case Data(b0, b1, b2, b3) => if k == 0 then b0 else if k == 1 then b1 else if k == 2 then b2 else b3
    case Entry(frame, flags) =>
      var low := flags as nat;
      if k == 0 then low % 256
      else if k == 1 then low / 256 % 16 + frame % 16 * 16
      else if k == 2 then frame / 16 % 256
      else frame / 4096 % 256
  }

  /** The bytes of a word are its value, lowest first: what data holds, or frame and flags of an entry. */
  lemma WordInBytes(w: Word)
    ensures ByteOf(w, 0) + 0x100 * ByteOf(w, 1) + 0x1_0000 * ByteOf(w, 2) + 0x100_0000 * ByteOf(w, 3) ==
            match w
            case Data(b0, b1, b2, b3) => b0 + 0x100 * b1 + 0x1_0000 * b2 + 0x100_0000 * b3
            case Entry(frame, flags) => frame % 0x10_0000 * 0x1000 + flags as nat
  {
    if w.Entry? {
      EntryInBytes(w.frame, w.flags as nat);
    }
  }

  lemma EntryInBytes(frame: nat, low: nat)
    requires low < 0x1000
    ensures low % 256 + 0x100 * (low / 256 % 16 + frame % 16 * 16) + 0x1_0000 * (frame / 16 % 256) + 0x100_0000 * (frame / 4096 % 256) ==
            frame % 0x10_0000 * 0x1000 + low
  {
    assert low / 256 % 16 == low / 256;
    FrameInDigits(frame);
  }

  lemma FrameInDigits(frame: nat)
    ensures frame % 16 + 16 * (frame / 16 % 256) + 4096 * (frame / 4096 % 256) == frame % 0x10_0000
  {
    assert frame / 16 / 256 == frame / 4096;
    assert frame / 4096 / 256 == frame / 0x10_0000;
  }

  function WithByte(w: Word, k: nat, b: Byte): (r: Word)
    requires k < 4
    ensures forall j: nat | j < 4 :: ByteOf(r, j) == if j == k then b else ByteOf(w, j)
  {
    Data(if k == 0 then b else ByteOf(w, 0), if k == 1 then b else ByteOf(w, 1),
         if k == 2 then b else ByteOf(w, 2), if k == 3 then b else ByteOf(w, 3))
  }

  function ByteIn(page: Page, k: nat): Byte
    requires |page| == ENTRIES && k < PAGE_SIZE
  {
    ByteOf(page[k / 4], k % 4)
  }

  function WithByteIn(page: Page, k: nat, b: Byte): (r: Page)
    requires |page| == ENTRIES && k < PAGE_SIZE
    ensures |r| == ENTRIES
    ensures forall j: nat | j < PAGE_SIZE :: ByteIn(r, j) == if j == k then b else ByteIn(page, j)
  {
    page[k / 4 := WithByte(page[k / 4], k % 4, b)]
  }

  /** A page of memory as its bytes. */
  function Bytes(page: Page): (r: seq<Byte>)
    requires |page| == ENTRIES
    ensures |r| == PAGE_SIZE
  {
    seq(PAGE_SIZE, k requires 0 <= k < PAGE_SIZE => ByteIn(page, k))
  }

  function Put(bytes: seq<Byte>, k: nat, b: Byte): (r: seq<Byte>)
    requires k < |bytes|
  {
    bytes[k := b]
  }

  lemma BytesWithByte(page: Page, k: nat, b: Byte)
    requires |page| == ENTRIES && k < PAGE_SIZE
    ensures Bytes(WithByteIn(page, k, b)) == Put(Bytes(page), k, b)
  {
  }

  function Zeros(): (r: seq<Byte>)
    ensures |r| == PAGE_SIZE
  {
    seq(PAGE_SIZE, _ => 0)
  }

  // ----- loads and stores by virtual address

  /** The page is mapped to a frame of memory that holds no page table. */
  ghost predicate Backed(s: Space, page: nat)
    requires Sound(s)
  {
    && page in FlatOf(s)
    && FlatOf(s)[page].frame < MAX_FRAMES
    && FlatOf(s)[page].frame !in TableFrames(s.dir)
  }

  ghost function FrameOf(s: Space, page: nat): nat
    requires Sound(s) && Backed(s, page)
  {
    FlatOf(s)[page].frame
  }

  ghost function Poke(s: Space, page: nat, k: nat, b: Byte): Space
    requires Sound(s) && Backed(s, page) && k < PAGE_SIZE
  {
    var f := FrameOf(s, page);
    s.(mem := s.mem[f := WithByteIn(s.mem[f], k, b)])
  }

  /** The byte of memory at a physical address. */
  function ByteAt(mem: seq<Page>, phys: nat): Byte
    requires |mem| == MAX_FRAMES && (forall f :: 0 <= f < MAX_FRAMES ==> |mem[f]| == ENTRIES) && phys < 0x800_0000
  {
    ByteOf(mem[phys / 0x1000][phys % 0x1000 / 4], phys % 4)
  }

  /** A load gives the byte at the address that its virtual address translates to. */
  lemma LoadInNumbers(s: Space, virt: nat)
    requires Sound(s) && virt < ADDRESSES && Backed(s, virt / PAGE_SIZE)
    ensures var phys := Translate(FlatOf(s), virt);
            phys < 0x800_0000 && ByteAt(s.mem, phys) == ByteIn(s.mem[FrameOf(s, virt / PAGE_SIZE)], virt % PAGE_SIZE)
  {
    hide ByteOf, ByteIn, ByteAt;
    TranslateInNumbers(FlatOf(s), virt);
    AtAddress(s.mem, Translate(FlatOf(s), virt));
  }

  /** A store changes the byte at the address that its virtual address translates to, and no other byte of memory. */
  lemma StoreInNumbers(s: Space, virt: nat, b: Byte)
    requires Sound(s) && virt < ADDRESSES && Backed(s, virt / PAGE_SIZE)
    ensures var phys := Translate(FlatOf(s), virt);
            var s' := Poke(s, virt / PAGE_SIZE, virt % PAGE_SIZE, b);
            && phys < 0x800_0000
            && forall a: nat :: a < 0x800_0000 ==> ByteAt(s'.mem, a) == if a == phys then b else ByteAt(s.mem, a)
  {
    hide ByteOf, WithByteIn, ByteAt;
    TranslateInNumbers(FlatOf(s), virt);
    var f, k := FrameOf(s, virt / PAGE_SIZE), virt % PAGE_SIZE;
    var s' := Poke(s, virt / PAGE_SIZE, k, b);
    forall a: nat | a < 0x800_0000
      ensures ByteAt(s'.mem, a) == if a == f * 0x1000 + k then b else ByteAt(s.mem, a)
    {
      AtAddress(s.mem, a);
      AtAddress(s'.mem, a);
      if a / 0x1000 == f {
        assert ByteIn(s'.mem[f], a % 0x1000) == if a % 0x1000 == k then b else ByteIn(s.mem[f], a % 0x1000);
      }
    }
  }

  lemma AtAddress(mem: seq<Page>, a: nat)
    requires |mem| == MAX_FRAMES && (forall f :: 0 <= f < MAX_FRAMES ==> |mem[f]| == ENTRIES) && a < 0x800_0000
    ensures ByteAt(mem, a) == ByteIn(mem[a / 0x1000], a % 0x1000)
  {
    assert a % 0x1000 % 4 == a % 4;
  }

  /** A store to a page that is no table leaves every translation alone. */
  lemma PokeKeepsTables(s: Space, page: nat, k: nat, b: Byte)
    requires Sound(s) && Backed(s, page) && k < PAGE_SIZE
    ensures Sound(Poke(s, page, k, b)) && FlatOf(Poke(s, page, k, b)) == FlatOf(s)
  {
    UnusedFrameIsInvisible(s, Poke(s, page, k, b), FrameOf(s, page));
  }

  // ----- pages with frames of their own

  ghost predicate OneToOne(pages: map<nat, nat>)
  {
    forall p, q :: p in pages && q in pages && pages[p] == pages[q] ==> p == q
  }

  lemma OneToOneExtend(pages: map<nat, nat>, page: nat, f: nat)
    requires OneToOne(pages) && f !in pages.Values
    ensures OneToOne(pages[page := f])
  {
    assert forall p :: p in pages ==> pages[p] in pages.Values;
  }

  /** Each page of `pages` has its own allocated frame, no other page of `pages` shares it and no table lies in it. */
  ghost predicate Owns(s: Space, pages: map<nat, nat>)
  {
    && Sound(s)
    && (forall p :: p in pages ==> Backed(s, p) && pages[p] == FrameOf(s, p))
    && OneToOne(pages)
    && pages.Values <= s.used
    && pages.Values !! Below(RESERVED)
  }

  /** Below 128 MB every page still stands for itself. */
  ghost predicate IdentityIntact(s: Space)
    requires Sound(s)
  {
    forall p: nat :: p < MAX_FRAMES ==> p in FlatOf(s) && FlatOf(s)[p].frame == p
  }

  // ----- runs during which the page tables can be written

  /** A step keeps the first 128 MB as they are when it works above them or maps a page to itself. */
  predicate KeepsIdentity(op: Op)
  {
    op.page >= MAX_FRAMES || (op.Map? && op.target == op.page)
  }

  lemma StepKeepsIdentityExactly(s: Space, op: Op)
    requires Sound(s) && IdentityIntact(s) && op.page < PAGES && (op.Map? ==> CanMap(s, op.page))
    ensures Sound(Do(s, op)) && (IdentityIntact(Do(s, op)) <==> KeepsIdentity(op))
  {
    hide Flat, Do;
    DoKeepsSound(s, op);
    if IdentityIntact(Do(s, op)) && op.page < MAX_FRAMES {
      assert op.page in FlatOf(Do(s, op)) && FlatOf(Do(s, op))[op.page].frame == op.page;
    }
  }

  /** The identity mapping is there before every step of a run and after the last. */
  ghost predicate IdentityThroughout(s: Space, ops: seq<Op>)
    requires Playable(s, ops)
    decreases |ops|
  {
    && IdentityIntact(s)
    && (ops != [] ==> Sound(Do(s, ops[0])) && IdentityThroughout(Do(s, ops[0]), ops[1..]))
  }

  /** It is there throughout a run exactly when it was there at first and every step keeps it. */
  lemma {:induction false} RunKeepsIdentityExactly(s: Space, ops: seq<Op>)
    requires Playable(s, ops)
    ensures IdentityThroughout(s, ops) <==> IdentityIntact(s) && forall k :: 0 <= k < |ops| ==> KeepsIdentity(ops[k])
    decreases |ops|
  {
    hide IdentityIntact, KeepsIdentity, Do;
    if ops != [] && IdentityIntact(s) {
      StepKeepsIdentityExactly(s, ops[0]);
      RunKeepsIdentityExactly(Do(s, ops[0]), ops[1..]);
      assert forall k :: 0 < k < |ops| ==> ops[k] == ops[1..][k - 1];
      assert (forall k :: 0 <= k < |ops| ==> KeepsIdentity(ops[k])) <==>
             KeepsIdentity(ops[0]) && forall k :: 0 <= k < |ops| - 1 ==> KeepsIdentity(ops[1..][k]);
    }
  }

  ghost predicate AtItself(s: Space, f: nat)
    requires Sound(s)
  {
    f in FlatOf(s) && FlatOf(s)[f].frame == f
  }

  /** The table a step writes can be written: the frame it lies in is mapped at its own address. */
  ghost predicate Writable(s: Space, op: Op)
    requires Sound(s) && op.page < PAGES
  {
    var d := s.dir[op.page / ENTRIES];
    if Present(d) then AtItself(s, d.frame) else op.Map? ==> AtItself(s, Spare(s.used, s.total))
  }

  /** Every step of a run can write its table. */
  ghost predicate Carried(s: Space, ops: seq<Op>)
    requires Playable(s, ops)
    decreases |ops|
  {
    ops != [] ==> Writable(s, ops[0]) && Sound(Do(s, ops[0])) && Carried(Do(s, ops[0]), ops[1..])
  }

  /** While the identity mapping is there, the code writes the tables it means to write. */
  lemma {:induction false} IdentityCarries(s: Space, ops: seq<Op>)
    requires Playable(s, ops) && IdentityThroughout(s, ops)
    ensures Carried(s, ops)
    ensures Sound(Play(s, ops)) && IdentityIntact(Play(s, ops))
    decreases |ops|
  {
    hide Do;
    if ops != [] {
      Indices(s, ops[0].page * PAGE_SIZE);
      assert GoodTable(s.dir[ops[0].page / ENTRIES], s.mem);
      IdentityCarries(Do(s, ops[0]), ops[1..]);
    }
  }

  /** Runs whose steps keep the identity mapping write all their tables, and the two-level walk after them finds for
      each page what it was last given. */
  lemma WalkAfterKeepingRun(s: Space, ops: seq<Op>, page: nat)
    requires Playable(s, ops) && IdentityIntact(s) && page < PAGES
    requires forall k :: 0 <= k < |ops| ==> KeepsIdentity(ops[k])
    ensures Carried(s, ops)
    ensures Sound(Play(s, ops)) && IdentityIntact(Play(s, ops))
    ensures var w := LastWord(FlatOf(s), ops, page);
            if Present(w) then page in FlatOf(Play(s, ops)) && FlatOf(Play(s, ops))[page] == w
            else page !in FlatOf(Play(s, ops))
  {
    hide IdentityIntact, KeepsIdentity, Flat, LastWord, Play, Carried;
    RunKeepsIdentityExactly(s, ops);
    IdentityCarries(s, ops);
    WalkEqualsFlatMap(s, ops, page);
  }

  /** Frame 0 has at most been taken for a table once memory ran out. */
  ghost predicate Healthy(s: Space)
  {
    Sound(s) && (0 in TableFrames(s.dir) ==> FreeFrames(s.used, s.total) == {})
  }

  /** A frame taken by the allocator and filled, before it is mapped. */
  ghost predicate Filled(s: Space, s1: Space)
  {
    var f := FirstClear(s.used, s.total, 0);
    && Sound(s) && f < s.total
    && s1.dir == s.dir && s1.total == s.total && s1.used == s.used + {f}
    && |s1.mem| == MAX_FRAMES && |s1.mem[f]| == ENTRIES && s1.mem == s.mem[f := s1.mem[f]]
  }

  lemma FilledIsSound(s: Space, s1: Space)
    requires Filled(s, s1) && Healthy(s)
    ensures var f := FirstClear(s.used, s.total, 0);
            && f !in s.used && RESERVED <= f && f !in TableFrames(s.dir)
            && 0 !in TableFrames(s.dir)
            && Sound(s1) && FlatOf(s1) == FlatOf(s)
  {
    var f := FirstClear(s.used, s.total, 0);
    assert f in Below(RESERVED) ==> f in s.used;
    assert f in FreeFrames(s.used, s.total);
    UnusedFrameIsInvisible(s, s1, f);
  }

  lemma FreshPageMaps(s: Space, s1: Space, page: nat, flags: bv12)
    requires Filled(s, s1) && Healthy(s) && page < PAGES
    ensures Sound(s1) && CanMap(s1, page)
    ensures var f := FirstClear(s.used, s.total, 0);
            var s2 := MapIn(s1, page, f, flags);
            && Healthy(s2)
            && FlatOf(s2) == FlatOf(s)[page := Entry(f, flags | 1)]
            && TableFrames(s2.dir) <= TableFrames(s.dir) + {Spare(s1.used, s.total)}
            && f !in TableFrames(s2.dir)
            && forall g :: g in s.used && g != 0 && g < MAX_FRAMES && g !in TableFrames(s.dir) ==>
                 g !in TableFrames(s2.dir) && s2.mem[g] == s.mem[g]
  {
    FilledIsSound(s, s1);
    var f, spare := FirstClear(s.used, s.total, 0), Spare(s1.used, s1.total);
    var s2 := MapIn(s1, page, f, flags);
    MapInIsFlat(s1, page, f, flags);
    Indices(s1, page * PAGE_SIZE);
    FullMeansNoneClear(s1.used, s1.total);
    forall g | g in TableFrames(s2.dir)
      ensures g in TableFrames(s.dir) + {spare}
      ensures g == 0 ==> spare == 0 && !Present(s.dir[page / ENTRIES])
    {
      var t :| 0 <= t < ENTRIES && Present(s2.dir[t]) && s2.dir[t].frame == g;
      if t != page / ENTRIES || Present(s.dir[t]) {
        assert s.dir[t].frame in TableFrames(s.dir);
      }
    }
    assert FreeFrames(s1.used + {0}, s1.total) <= FreeFrames(s1.used, s1.total);
  }

  /** Mapping writes no frame that a page already has, nor the new one. */
  lemma OwnedFramesUntouched(s: Space, s1: Space, pages: map<nat, nat>, page: nat, flags: bv12)
    requires Filled(s, s1) && Healthy(s) && page < PAGES
    requires Owns(s, pages)
    ensures Sound(s1)
    ensures var f := FirstClear(s.used, s.total, 0);
            var s2 := MapIn(s1, page, f, flags);
            forall g :: g in pages.Values + {f} ==>
              g < MAX_FRAMES && g !in TableFrames(s2.dir) && s2.mem[g] == s1.mem[g]
  {
    FilledIsSound(s, s1);
    FreshPageMaps(s, s1, page, flags);
    var f := FirstClear(s.used, s.total, 0);
    var own := pages.Values + {f};
    forall g | g in own
      ensures g < MAX_FRAMES && g !in TableFrames(s1.dir) && g != Spare(s1.used, s1.total)
    {
      FullMeansNoneClear(s1.used, s1.total);
      if g != f {
        var p :| p in pages && pages[p] == g;
        assert Backed(s, p);
      }
    }
    TableOfPage(s1, own, page, f, flags);
  }

  /** The new page and the old ones, by their entries in the flat map; a page that had a frame gets the new one. */
  lemma FreshPageOwns(s: Space, s1: Space, pages: map<nat, nat>, page: nat, flags: bv12)
    requires Filled(s, s1) && Healthy(s) && page < PAGES
    requires Owns(s, pages)
    ensures Sound(s1)
    ensures var f := FirstClear(s.used, s.total, 0);
            Owns(MapIn(s1, page, f, flags), pages[page := f])
  {
    hide Flat, OneToOne;
    FilledIsSound(s, s1);
    FreshPageMaps(s, s1, page, flags);
    OwnedFramesUntouched(s, s1, pages, page, flags);
    var f := FirstClear(s.used, s.total, 0);
    var s2 := MapIn(s1, page, f, flags);
    forall p | p in pages[page := f]
      ensures Backed(s2, p) && FrameOf(s2, p) == pages[page := f][p]
    {
      assert p != page ==> Backed(s, p) && pages[p] in pages.Values;
    }
    assert pages[page := f].Values <= pages.Values + {f};
    OneToOneExtend(pages, page, f);
  }

  /** Filling a new frame byte by byte, at its own address below 128 MB. */
  lemma FilledPoke(s: Space, s1: Space, k: nat, b: Byte)
    requires Filled(s, s1) && Healthy(s) && IdentityIntact(s) && k < PAGE_SIZE
    ensures var f := FirstClear(s.used, s.total, 0);
            && Sound(s1) && Backed(s1, f) && FrameOf(s1, f) == f
            && Filled(s, Poke(s1, f, k, b))
            && forall j: nat | j < PAGE_SIZE ::
                 ByteIn(Poke(s1, f, k, b).mem[f], j) == if j == k then b else ByteIn(s1.mem[f], j)
  {
    FilledIsSound(s, s1);
  }

  // ----- an image under construction

  /** How the rest of the space relates to the state `s0` before `pages` were given frames. */
  ghost predicate Elsewhere(s0: Space, s: Space, pages: map<nat, nat>)
    requires Sound(s0) && Sound(s)
  {
    && s0.used <= s.used
    && (forall p :: p !in pages ==> (p in FlatOf(s) <==> p in FlatOf(s0)))
    && (forall p :: p !in pages && p in FlatOf(s0) ==> FlatOf(s)[p] == FlatOf(s0)[p])
    && (forall g :: g in s0.used && 0 < g < MAX_FRAMES && g !in TableFrames(s0.dir) ==>
          g !in TableFrames(s.dir) && g !in pages.Values && s.mem[g] == s0.mem[g])
  }

  /** The flat map has exactly these rights for each of the pages. */
  ghost predicate Granted(s: Space, pages: map<nat, nat>, flags: bv12)
    requires Sound(s)
  {
    forall p :: p in pages ==> p in FlatOf(s) && FlatOf(s)[p].flags == flags
  }

  /** The rights the processor finds for an address, with 0 where nothing is mapped. */
  ghost function RightsAt(s: Space, virt: nat): bv12
    requires Sound(s)
  {
    if virt / PAGE_SIZE in FlatOf(s) then
      EffectiveIsRequested(s.dir, s.mem, virt / PAGE_SIZE);
      Effective(s.dir, s.mem, virt / PAGE_SIZE)
    else 0
  }

  lemma GrantedAt(s: Space, pages: map<nat, nat>, flags: bv12, virt: nat)
    requires Sound(s) && Granted(s, pages, flags) && virt / PAGE_SIZE in pages
    ensures RightsAt(s, virt) == flags
  {
    EffectiveIsRequested(s.dir, s.mem, virt / PAGE_SIZE);
  }

  /** Each page of `img` reads as `img` says, through a frame of its own, and is present, writable and open to user code;
      since `s0` nothing else has changed. */
  ghost predicate Holds(s0: Space, s: Space, pages: map<nat, nat>, img: map<nat, seq<Byte>>)
  {
    && Sound(s0) && Healthy(s) && IdentityIntact(s) && Owns(s, pages)
    && Shows(s.mem, pages, img)
    && Granted(s, pages, 7)
    && Elsewhere(s0, s, pages)
  }

  ghost predicate Shows(mem: seq<Page>, pages: map<nat, nat>, img: map<nat, seq<Byte>>)
  {
    && img.Keys == pages.Keys
    && forall p :: p in pages ==>
         && pages[p] < |mem| && |mem[pages[p]]| == ENTRIES
         && |img[p]| == PAGE_SIZE && Bytes(mem[pages[p]]) == img[p]
  }

  lemma ShowsUpdate(mem: seq<Page>, mem': seq<Page>, pages: map<nat, nat>, img: map<nat, seq<Byte>>,
                    page: nat, f: nat, bytes: seq<Byte>)
    requires Shows(mem, pages, img) && |mem'| == |mem|
    requires forall p :: p in pages && p != page ==> mem'[pages[p]] == mem[pages[p]]
    requires f < |mem'| && |mem'[f]| == ENTRIES && |bytes| == PAGE_SIZE && Bytes(mem'[f]) == bytes
    ensures Shows(mem', pages[page := f], img[page := bytes])
  {
    hide Bytes;
  }

  lemma HoldsNothing(s: Space)
    requires Healthy(s) && IdentityIntact(s)
    ensures Holds(s, s, map[], map[])
  {
  }

  /** Giving a page a frame of its own: allocate, clear through the identity mapping, map. If the page had one, its
      bytes are replaced by zeros. */
  lemma HoldsNewPage(s0: Space, s: Space, s1: Space, pages: map<nat, nat>, img: map<nat, seq<Byte>>, page: nat, flags: bv12)
    requires Holds(s0, s, pages, img) && Filled(s, s1)
    requires MAX_FRAMES <= page < PAGES
    requires Bytes(s1.mem[FirstClear(s.used, s.total, 0)]) == Zeros() && flags | 1 == 7
    ensures Sound(s1) && CanMap(s1, page)
    ensures var f := FirstClear(s.used, s.total, 0);
            Holds(s0, MapIn(s1, page, f, flags), pages[page := f], img[page := Zeros()])
  {
    hide Flat, Bytes, OneToOne, Spare, Shows;
    var f := FirstClear(s.used, s.total, 0);
    FilledIsSound(s, s1);
    FreshPageMaps(s, s1, page, flags);
    FreshPageOwns(s, s1, pages, page, flags);
    OwnedFramesUntouched(s, s1, pages, page, flags);
    var s2 := MapIn(s1, page, f, flags);
    forall p | p in pages
      ensures s2.mem[pages[p]] == s.mem[pages[p]]
    {
      assert pages[p] in pages.Values && pages[p] in s.used;
    }
    ShowsUpdate(s.mem, s2.mem, pages, img, page, f, Zeros());
    ElsewhereGrows(s0, s, s2, pages, page, f, flags | 1);
    assert IdentityIntact(s2);
  }

  lemma ElsewhereGrows(s0: Space, s: Space, s2: Space, pages: map<nat, nat>, page: nat, f: nat, flags: bv12)
    requires Sound(s0) && Sound(s) && Sound(s2) && Elsewhere(s0, s, pages)
    requires f !in s.used && s.used <= s2.used
    requires FlatOf(s2) == FlatOf(s)[page := Entry(f, flags)]
    requires forall g :: g in s.used && g != 0 && g < MAX_FRAMES && g !in TableFrames(s.dir) ==>
               g !in TableFrames(s2.dir) && s2.mem[g] == s.mem[g]
    ensures Elsewhere(s0, s2, pages[page := f])
  {
    hide Flat;
    assert pages[page := f].Values <= pages.Values + {f};
  }

  lemma ElsewhereStays(s0: Space, s: Space, s': Space, pages: map<nat, nat>, f: nat)
    requires Sound(s0) && Sound(s) && Sound(s') && Elsewhere(s0, s, pages)
    requires f in pages.Values && s'.dir == s.dir && s'.used == s.used && FlatOf(s') == FlatOf(s)
    requires forall g :: 0 <= g < MAX_FRAMES && g != f ==> s'.mem[g] == s.mem[g]
    ensures Elsewhere(s0, s', pages)
  {
    hide Flat;
  }

  lemma OwnsAfterStore(s: Space, s': Space, pages: map<nat, nat>)
    requires Owns(s, pages) && Sound(s') && s'.dir == s.dir && s'.used == s.used && FlatOf(s') == FlatOf(s)
    ensures Owns(s', pages)
    ensures forall flags: bv12 :: Granted(s, pages, flags) ==> Granted(s', pages, flags)
  {
    hide Flat;
    forall p | p in pages
      ensures Backed(s', p) && FrameOf(s', p) == pages[p]
    {
      assert Backed(s, p);
    }
  }

  /** A store to a page of the image changes that byte of it and nothing else. */
  lemma HoldsStore(s0: Space, s: Space, pages: map<nat, nat>, img: map<nat, seq<Byte>>, page: nat, k: nat, b: Byte)
    requires Holds(s0, s, pages, img) && page in img && k < PAGE_SIZE
    ensures Backed(s, page)
    ensures Holds(s0, Poke(s, page, k, b), pages, img[page := Put(img[page], k, b)])
  {
    hide Flat, ByteIn, Bytes, WithByteIn, Granted, Elsewhere;
    assert Backed(s, page) && FrameOf(s, page) == pages[page];
    PokeKeepsTables(s, page, k, b);
    BytesWithByte(s.mem[pages[page]], k, b);
    var s' := Poke(s, page, k, b);
    OwnsAfterStore(s, s', pages);
    forall p | p in pages && p != page
      ensures s'.mem[pages[p]] == s.mem[pages[p]]
    {
      assert Backed(s, p);
    }
    ShowsUpdate(s.mem, s'.mem, pages, img, page, pages[page], Put(img[page], k, b));
    assert pages[page := pages[page]] == pages;
    ElsewhereStays(s0, s, s', pages, pages[page]);
  }
}
