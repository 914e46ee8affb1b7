/** Two-level page tables as values, and the flat page map they stand for. */
module Paging {
  import opened Types
  import opened Frames

  const ENTRIES: nat := 1024
  const PAGES: nat := 0x10_0000
  const SPAN: nat := 0x40_0000               // what one directory entry covers
  const ADDRESSES: nat := 0x1_0000_0000
  const IDENTITY_LIMIT: nat := 0x800_0000    // 128 MB
  const KERNEL_FIRST: nat := 768             // directory entries from here on are shared

  /** A 32-bit word of memory, in the form in which it was last written: a table entry
      (frame number and twelve flag bits) or four bytes. */
  datatype Word =
    | Entry(frame: nat, flags: bv12)
    | Data(b0: Byte, b1: Byte, b2: Byte, b3: Byte)

  const ABSENT := Entry(0, 0)

  type Page = seq<Word>

  predicate Present(w: Word)
  {
    w.Entry? && w.flags & 1 == 1
  }

  /** `a` grants nothing that `b` does not. */
  predicate Within(a: bv12, b: bv12)
  {
    a & b == a
  }

  ghost predicate Shape(dir: Page, mem: seq<Page>)
  {
    && |dir| == ENTRIES
    && |mem| == MAX_FRAMES
    && forall f :: 0 <= f < MAX_FRAMES ==> |mem[f]| == ENTRIES
  }

  /** A present directory entry points to a table of entries, none with more rights than it. */
  ghost predicate GoodTable(d: Word, mem: seq<Page>)
    requires |mem| == MAX_FRAMES
  {
    Present(d) ==>
      && d.frame < MAX_FRAMES
      && |mem[d.frame]| == ENTRIES
      && forall k :: 0 <= k < ENTRIES ==>
           GoodEntry(mem[d.frame][k], d.flags)
  }

  predicate GoodEntry(e: Word, above: bv12)
  {
    e.Entry? && (Present(e) ==> Within(e.flags, above))
  }

  ghost predicate Distinct(dir: Page)
  {
    forall s, t :: 0 <= s < t < |dir| && Present(dir[s]) && Present(dir[t]) ==> dir[s].frame != dir[t].frame
  }

  ghost predicate TablesOk(dir: Page, mem: seq<Page>)
  {
    && Shape(dir, mem)
    && (forall t :: 0 <= t < ENTRIES ==> dir[t].Entry? && GoodTable(dir[t], mem))
    && Distinct(dir)
  }

  ghost function TableFrames(dir: Page): set<nat>
  {
    set t | 0 <= t < |dir| && Present(dir[t]) :: dir[t].frame
  }

  // ----- the walk

  /** The table entry the walk reaches for a page, ABSENT when it stops at the directory. */
  function Lookup(dir: Page, mem: seq<Page>, page: nat): Word
    requires |dir| == ENTRIES && page < PAGES
  {
    var d := dir[page / ENTRIES];
    if Present(d) && d.frame < |mem| && page % ENTRIES < |mem[d.frame]|
    then mem[d.frame][page % ENTRIES]
    else ABSENT
  }

  /** The flat map from virtual pages to frames and rights. */
  ghost function Flat(dir: Page, mem: seq<Page>): map<nat, Word>
    requires |dir| == ENTRIES
  {
    map page: nat | page < PAGES && Present(Lookup(dir, mem, page)) :: Lookup(dir, mem, page)
  }

  /** The rights the processor grants: those set at both levels. */
  function Effective(dir: Page, mem: seq<Page>, page: nat): bv12
    requires |dir| == ENTRIES && page < PAGES
    requires Present(dir[page / ENTRIES]) && Present(Lookup(dir, mem, page))
  {
    dir[page / ENTRIES].flags & Lookup(dir, mem, page).flags
  }

  /** Both levels together grant exactly what the table entry says. */
  lemma EffectiveIsRequested(dir: Page, mem: seq<Page>, page: nat)
    requires TablesOk(dir, mem) && page in Flat(dir, mem)
    ensures Present(dir[page / ENTRIES])
    ensures Effective(dir, mem, page) == Flat(dir, mem)[page].flags
  {
    var d := dir[page / ENTRIES];
    assert GoodTable(d, mem);
    var e := mem[d.frame][page % ENTRIES];
    assert Within(e.flags, d.flags);
  }

  // ----- entering one page

  /** A directory entry with a table behind it, `spare` being the frame used if it is missing. */
  function Provide(dir: Page, mem: seq<Page>, spare: nat, p: nat, flags: bv12): (r: (Page, seq<Page>))
    requires p < |dir| && dir[p].Entry? && spare < |mem|
  {
    var d := dir[p];
    if Present(d) then (dir[p := Entry(d.frame, d.flags | flags)], mem)
    else (dir[p := Entry(spare, flags | 1)], mem[spare := EmptyTable()])
  }

  /** The tables after vmm_map_page. */
  function Enter(dir: Page, mem: seq<Page>, spare: nat, page: nat, target: nat, flags: bv12): (r: (Page, seq<Page>))
    requires |dir| == ENTRIES && page < PAGES && spare < |mem| && dir[page / ENTRIES].Entry?
    requires Present(dir[page / ENTRIES]) ==>
               dir[page / ENTRIES].frame < |mem| && |mem[dir[page / ENTRIES].frame]| == ENTRIES
  {
    var r := Provide(dir, mem, spare, page / ENTRIES, flags);
    var table := r.0[page / ENTRIES].frame;
    (r.0, r.1[table := r.1[table][page % ENTRIES := Entry(target, flags | 1)]])
  }

  function EmptyTable(): (r: Page)
    ensures |r| == ENTRIES && forall k :: 0 <= k < ENTRIES ==> r[k] == ABSENT
  {
    seq(ENTRIES, _ => ABSENT)
  }

  lemma OrGrants(a: bv12, b: bv12, c: bv12)
    ensures Within(a, b) ==> Within(a, b | c)
    ensures Within(c, b | c)
    ensures b & 1 == 1 ==> Within(c | 1, b | c) && (b | c) & 1 == 1
    ensures Within(c | 1, c | 1)
    ensures (a | 1) & 1 == 1
  {
  }

  /** The null pointer of a failed allocation is frame 0; it is harmless until it is used twice. */
  ghost predicate FrameServes(dir: Page, spare: nat, page: nat)
    requires |dir| == ENTRIES && page < PAGES
  {
    Present(dir[page / ENTRIES]) || spare !in TableFrames(dir)
  }

  lemma EnterKeepsGoodTable(dir: Page, mem: seq<Page>, spare: nat, page: nat, target: nat, flags: bv12, t: nat)
    requires TablesOk(dir, mem) && page < PAGES && spare < MAX_FRAMES && t < ENTRIES
    requires FrameServes(dir, spare, page)
    ensures GoodTable(dir[page / ENTRIES], mem)
    ensures var r := Enter(dir, mem, spare, page, target, flags); GoodTable(r.0[t], r.1)
  {
    var p := page / ENTRIES;
    assert GoodTable(dir[p], mem) && GoodTable(dir[t], mem);
    var r := Enter(dir, mem, spare, page, target, flags);
    if t == p {
      forall k | 0 <= k < ENTRIES
        ensures GoodEntry(r.1[r.0[p].frame][k], r.0[p].flags)
      {
        var before := if Present(dir[p]) then mem[dir[p].frame][k] else ABSENT;
        OrGrants(before.flags, dir[p].flags, flags);
      }
    } else if Present(dir[t]) {
      assert dir[t].frame in TableFrames(dir);
    }
  }

  /** vmm_map_page keeps distinct entries on distinct tables exactly when its spare frame serves no table yet. */
  lemma EnterKeepsTables(dir: Page, mem: seq<Page>, spare: nat, page: nat, target: nat, flags: bv12)
    requires TablesOk(dir, mem) && page < PAGES && spare < MAX_FRAMES
    ensures GoodTable(dir[page / ENTRIES], mem)
    ensures var r := Enter(dir, mem, spare, page, target, flags);
            TablesOk(r.0, r.1) <==> FrameServes(dir, spare, page)
  {
    var p := page / ENTRIES;
    assert GoodTable(dir[p], mem);
    var r := Enter(dir, mem, spare, page, target, flags);
    OrGrants(0, 0, flags);
    if FrameServes(dir, spare, page) {
      forall t | 0 <= t < ENTRIES
        ensures r.0[t].Entry? && GoodTable(r.0[t], r.1)
      {
        EnterKeepsGoodTable(dir, mem, spare, page, target, flags, t);
      }
      EnterKeepsDistinct(dir, mem, spare, page, target, flags);
    } else {
      var t :| 0 <= t < ENTRIES && Present(dir[t]) && dir[t].frame == spare;
      var low, high := if t < p then t else p, if t < p then p else t;
      assert Present(r.0[low]) && Present(r.0[high]) && r.0[low].frame == r.0[high].frame;
    }
  }

  lemma EnterKeepsDistinct(dir: Page, mem: seq<Page>, spare: nat, page: nat, target: nat, flags: bv12)
    requires TablesOk(dir, mem) && page < PAGES && spare < MAX_FRAMES
    requires FrameServes(dir, spare, page)
    ensures GoodTable(dir[page / ENTRIES], mem)
    ensures Distinct(Enter(dir, mem, spare, page, target, flags).0)
  {
    var p := page / ENTRIES;
    assert GoodTable(dir[p], mem);
    var dir' := Enter(dir, mem, spare, page, target, flags).0;
    forall s, t | 0 <= s < t < ENTRIES && Present(dir'[s]) && Present(dir'[t])
      ensures dir'[s].frame != dir'[t].frame
    {
      assert s != p ==> dir[s].frame in TableFrames(dir);
      assert t != p ==> dir[t].frame in TableFrames(dir);
    }
  }

  /** vmm_map_page changes the flat map at its own page and nowhere else. */
  lemma EnterUpdatesFlat(dir: Page, mem: seq<Page>, spare: nat, page: nat, target: nat, flags: bv12)
    requires TablesOk(dir, mem) && page < PAGES && spare < MAX_FRAMES
    requires FrameServes(dir, spare, page)
    ensures GoodTable(dir[page / ENTRIES], mem)
    ensures var r := Enter(dir, mem, spare, page, target, flags);
            Flat(r.0, r.1) == Flat(dir, mem)[page := Entry(target, flags | 1)]
  {
    var p := page / ENTRIES;
    assert GoodTable(dir[p], mem);
    var r := Enter(dir, mem, spare, page, target, flags);
    OrGrants(dir[p].flags, dir[p].flags, flags);
    forall q: nat | q < PAGES
      ensures Lookup(r.0, r.1, q) == if q == page then Entry(target, flags | 1) else Lookup(dir, mem, q)
    {
      var t := q / ENTRIES;
      assert q == t * ENTRIES + q % ENTRIES && page == p * ENTRIES + page % ENTRIES;
      if t != p && Present(dir[t]) {
        assert dir[t].frame in TableFrames(dir);
      }
    }
  }

  // ----- address spaces over the frame allocator

  /** The kernel directory, physical memory, and the frame allocator beneath them. */
  datatype Space = Space(dir: Page, mem: seq<Page>, used: set<nat>, total: nat)

  ghost predicate Sound(s: Space)
  {
    && TablesOk(s.dir, s.mem)
    && s.total <= MAX_FRAMES
    && Below(RESERVED) <= s.used
    && TableFrames(s.dir) <= s.used
  }

  /** The frame vmm_map_page takes for a missing table; a failed allocation gives frame 0. */
  ghost function Spare(used: set<nat>, total: nat): nat
  {
    var r := FirstClear(used, total, 0);
    if r < total then r else 0
  }

  ghost predicate CanMap(s: Space, page: nat)
    requires |s.dir| == ENTRIES && page < PAGES
  {
    FrameServes(s.dir, Spare(s.used, s.total), page)
  }

  /** The directory index, the table behind it, and the reserved frame 0. */
  lemma Indices(s: Space, virt: nat)
    requires Sound(s) && virt < ADDRESSES
    ensures virt / SPAN == virt / PAGE_SIZE / ENTRIES < ENTRIES && virt / PAGE_SIZE < PAGES
    ensures s.dir[virt / SPAN].Entry? && GoodTable(s.dir[virt / SPAN], s.mem)
    ensures 0 in s.used
  {
    assert 0 in Below(RESERVED);
  }

  ghost function MapIn(s: Space, page: nat, target: nat, flags: bv12): Space
    requires Sound(s) && page < PAGES
  {
    assert GoodTable(s.dir[page / ENTRIES], s.mem);
    var spare := Spare(s.used, s.total);
    var r := Enter(s.dir, s.mem, spare, page, target, flags);
    Space(r.0, r.1, if Present(s.dir[page / ENTRIES]) then s.used else s.used + {spare}, s.total)
  }

  ghost function UnmapIn(s: Space, page: nat): Space
    requires Sound(s) && page < PAGES
  {
    assert GoodTable(s.dir[page / ENTRIES], s.mem);
    var d := s.dir[page / ENTRIES];
    if Present(d) then s.(mem := s.mem[d.frame := s.mem[d.frame][page % ENTRIES := ABSENT]]) else s
  }

  ghost function FlatOf(s: Space): map<nat, Word>
    requires |s.dir| == ENTRIES
  {
    Flat(s.dir, s.mem)
  }

  /** When the frame allocator is exhausted for the second time, two directory entries share a table. */
  lemma MapInIsFlat(s: Space, page: nat, target: nat, flags: bv12)
    requires Sound(s) && page < PAGES
    ensures Sound(MapIn(s, page, target, flags)) <==> CanMap(s, page)
    ensures CanMap(s, page) ==>
              FlatOf(MapIn(s, page, target, flags)) == FlatOf(s)[page := Entry(target, flags | 1)]
  {
    var spare := Spare(s.used, s.total);
    EnterKeepsTables(s.dir, s.mem, spare, page, target, flags);
    assert GoodTable(s.dir[page / ENTRIES], s.mem);
    assert 0 in Below(RESERVED);
    if CanMap(s, page) {
      EnterUpdatesFlat(s.dir, s.mem, spare, page, target, flags);
      var s' := MapIn(s, page, target, flags);
      forall t | 0 <= t < ENTRIES && Present(s'.dir[t])
        ensures s'.dir[t].frame in s'.used
      {
        if t != page / ENTRIES || Present(s.dir[t]) {
          assert s.dir[t].frame in TableFrames(s.dir);
        }
      }
    }
  }

  lemma UnmapInIsSound(s: Space, page: nat)
    requires Sound(s) && page < PAGES
    ensures Sound(UnmapIn(s, page))
  {
    var s' := UnmapIn(s, page);
    forall t | 0 <= t < ENTRIES
      ensures s'.dir[t].Entry? && GoodTable(s'.dir[t], s'.mem)
    {
      assert GoodTable(s.dir[t], s.mem) && GoodTable(s.dir[page / ENTRIES], s.mem);
    }
  }

  lemma UnmapInLookup(s: Space, page: nat, q: nat)
    requires Sound(s) && page < PAGES && q < PAGES
    ensures var s' := UnmapIn(s, page);
            Lookup(s'.dir, s'.mem, q) == if q == page then ABSENT else Lookup(s.dir, s.mem, q)
  {
    var p, t := page / ENTRIES, q / ENTRIES;
    assert q == t * ENTRIES + q % ENTRIES && page == p * ENTRIES + page % ENTRIES;
    assert GoodTable(s.dir[p], s.mem) && GoodTable(s.dir[t], s.mem);
    if t != p && Present(s.dir[p]) && Present(s.dir[t]) {
      assert s.dir[if t < p then t else p].frame != s.dir[if t < p then p else t].frame;
    }
  }

  lemma FlatFromLookups(dir: Page, mem: seq<Page>, dir': Page, mem': seq<Page>, page: nat)
    requires |dir| == |dir'| == ENTRIES
    requires forall q: nat | q < PAGES ::
               Lookup(dir', mem', q) == if q == page then ABSENT else Lookup(dir, mem, q)
    ensures Flat(dir', mem') == Flat(dir, mem) - {page}
  {
    assert !Present(ABSENT);
  }

  lemma UnmapInIsFlat(s: Space, page: nat)
    requires Sound(s) && page < PAGES
    ensures Sound(UnmapIn(s, page))
    ensures FlatOf(UnmapIn(s, page)) == FlatOf(s) - {page}
  {
    UnmapInIsSound(s, page);
    var s' := UnmapIn(s, page);
    forall q: nat | q < PAGES
      ensures Lookup(s'.dir, s'.mem, q) == if q == page then ABSENT else Lookup(s.dir, s.mem, q)
    {
      UnmapInLookup(s, page, q);
    }
    FlatFromLookups(s.dir, s.mem, s'.dir, s'.mem, page);
  }

  // ----- runs

  datatype Op = Map(page: nat, target: nat, flags: bv12) | Unmap(page: nat)

  ghost predicate Playable(s: Space, ops: seq<Op>)
    decreases |ops|
  {
    && Sound(s)
    && (ops != [] ==>
          && ops[0].page < PAGES
          && (ops[0].Map? ==> CanMap(s, ops[0].page))
          && (Sound(Do(s, ops[0])) ==> Playable(Do(s, ops[0]), ops[1..])))
  }

  ghost function Do(s: Space, op: Op): Space
    requires Sound(s) && op.page < PAGES
  {
    match op
    case Map(page, target, flags) => MapIn(s, page, target, flags)
    case Unmap(page) => UnmapIn(s, page)
  }

  lemma DoKeepsSound(s: Space, op: Op)
    requires Sound(s) && op.page < PAGES && (op.Map? ==> CanMap(s, op.page))
    ensures Sound(Do(s, op))
    ensures FlatOf(Do(s, op)) ==
            match op
            case Map(page, target, flags) => FlatOf(s)[page := Entry(target, flags | 1)]
            case Unmap(page) => FlatOf(s) - {page}
  {
    match op
    case Map(page, target, flags) => MapInIsFlat(s, page, target, flags);
    case Unmap(page) => UnmapInIsFlat(s, page);
  }

  ghost function Play(s: Space, ops: seq<Op>): Space
    requires Playable(s, ops)
    decreases |ops|
  {
    if ops == [] then s
    else DoKeepsSound(s, ops[0]); Play(Do(s, ops[0]), ops[1..])
  }

  /** What a run should mean: each page keeps what it was last given. */
  ghost function LastWord(flat: map<nat, Word>, ops: seq<Op>, page: nat): Word
    decreases |ops|
  {
    if ops == [] then (if page in flat then flat[page] else ABSENT)
    else
      var last := ops[|ops| - 1];
      if last.page != page then LastWord(flat, ops[..|ops| - 1], page)
      else if last.Map? then Entry(last.target, last.flags | 1)
      else ABSENT
  }

  /** LastWord looks at the run from its end; it may as well take its first step first. */
  lemma {:induction false} LastWordFromFront(flat: map<nat, Word>, ops: seq<Op>, page: nat)
    requires ops != []
    requires page in flat ==> Present(flat[page])
    ensures LastWord(flat, ops, page) ==
            LastWord(match ops[0]
                     case Map(p, target, flags) => flat[p := Entry(target, flags | 1)]
                     case Unmap(p) => flat - {p}, ops[1..], page)
    decreases |ops|
  {
    if |ops| > 1 {
      assert ops[1..][..|ops| - 2] == ops[..|ops| - 1][1..];
      LastWordFromFront(flat, ops[..|ops| - 1], page);
    } else {
      assert ops[..0] == [];
    }
  }

  /** The two-level walk after any run equals the flat map: every page has what it was last given. */
  lemma {:induction false} WalkEqualsFlatMap(s: Space, ops: seq<Op>, page: nat)
    requires Playable(s, ops) && page < PAGES
    ensures Sound(Play(s, ops))
    ensures var w := LastWord(FlatOf(s), ops, page);
            if Present(w) then page in FlatOf(Play(s, ops)) && FlatOf(Play(s, ops))[page] == w
            else page !in FlatOf(Play(s, ops))
    decreases |ops|
  {
    if ops != [] {
      DoKeepsSound(s, ops[0]);
      WalkEqualsFlatMap(Do(s, ops[0]), ops[1..], page);
      LastWordFromFront(FlatOf(s), ops, page);
    }
  }

  /** vmm_get_phys_addr by the flat map: unmapped addresses stand for themselves below 128 MB. */
  function Translate(flat: map<nat, Word>, virt: nat): nat
  {
    if virt / PAGE_SIZE in flat && flat[virt / PAGE_SIZE].Entry? then flat[virt / PAGE_SIZE].frame * PAGE_SIZE + virt % PAGE_SIZE
    else if virt < IDENTITY_LIMIT then virt
    else 0
  }

  /** The flat map is what the processor finds by the address alone: ten bits choose the table, ten the entry. */
  lemma WalkByAddress(s: Space, virt: nat)
    requires Sound(s) && virt < 0x1_0000_0000
    ensures s.dir[virt / 0x40_0000].Entry? && GoodTable(s.dir[virt / 0x40_0000], s.mem)
    ensures virt / 0x1000 in FlatOf(s) <==>
            && Present(s.dir[virt / 0x40_0000])
            && Present(s.mem[s.dir[virt / 0x40_0000].frame][virt / 0x1000 % 0x400])
    ensures virt / 0x1000 in FlatOf(s) ==>
              FlatOf(s)[virt / 0x1000] == s.mem[s.dir[virt / 0x40_0000].frame][virt / 0x1000 % 0x400]
  {
    Indices(s, virt);
  }

  /** What an address translates to: frame and offset of a mapped one, and otherwise itself below 128 MB and 0 above. */
  lemma TranslateInNumbers(flat: map<nat, Word>, virt: nat)
    requires forall p :: p in flat ==> flat[p].Entry?
    ensures virt / 0x1000 in flat ==>
              Translate(flat, virt) / 0x1000 == flat[virt / 0x1000].frame && Translate(flat, virt) % 0x1000 == virt % 0x1000
    ensures virt / 0x1000 !in flat ==> Translate(flat, virt) == if virt < 0x800_0000 then virt else 0
  {
    if virt / 0x1000 in flat {
      OffsetStays(flat[virt / 0x1000].frame, virt % 0x1000);
    }
  }

  lemma OffsetStays(frame: nat, offset: nat)
    requires offset < 0x1000
    ensures (frame * 0x1000 + offset) / 0x1000 == frame && (frame * 0x1000 + offset) % 0x1000 == offset
  {
  }

  /** Step `k` is the last of a run that maps or unmaps the page. */
  ghost predicate LastOn(ops: seq<Op>, k: nat, page: nat)
  {
    k < |ops| && ops[k].page == page && forall j :: k < j < |ops| ==> ops[j].page != page
  }

  lemma {:induction false} LastWordIs(flat: map<nat, Word>, ops: seq<Op>, page: nat, k: nat)
    requires LastOn(ops, k, page)
    ensures LastWord(flat, ops, page) == if ops[k].Map? then Entry(ops[k].target, ops[k].flags | 1) else ABSENT
    decreases |ops|
  {
    if k < |ops| - 1 {
      LastWordIs(flat, ops[..|ops| - 1], page, k);
    }
  }

  /** After a run an address whose page was mapped last to a frame is that frame's byte at the same offset; one whose page
      was unmapped last stands for itself below 128 MB and is 0 above. */
  lemma AddressAfterRun(s: Space, ops: seq<Op>, virt: nat, k: nat)
    requires Playable(s, ops) && virt < 0x1_0000_0000 && LastOn(ops, k, virt / 0x1000)
    ensures Sound(Play(s, ops))
    ensures var phys := Translate(FlatOf(Play(s, ops)), virt);
            if ops[k].Map? then phys == ops[k].target * 0x1000 + virt % 0x1000
            else phys == if virt < 0x800_0000 then virt else 0
  {
    hide Play, LastWord, Flat;
    WalkEqualsFlatMap(s, ops, virt / 0x1000);
    LastWordIs(FlatOf(s), ops, virt / 0x1000, k);
    MappedIsPresent(if ops[k].Map? then ops[k].flags else 0);
  }

  lemma MappedIsPresent(flags: bv12)
    ensures (flags | 1) & 1 == 1 && !Present(ABSENT)
  {
  }

  // ----- the rights of a directory entry

  /** An entry after a page below it has been mapped: the same table with more rights, or a new table. */
  predicate Merged(d: Word, d': Word, flags: bv12)
  {
    && Present(d')
    && if Present(d) then d'.frame == d.frame && d'.flags == d.flags | flags else d'.flags == flags | 1
  }

  lemma DirectoryAfter(s: Space, op: Op, p: nat)
    requires Sound(s) && op.page < 0x10_0000 && p < 1024
    ensures |s.dir| == |Do(s, op).dir| == 1024 && s.dir[p].Entry?
    ensures var d, d' := s.dir[p], Do(s, op).dir[p];
            if op.Unmap? || op.page / 1024 != p then d' == d
            else d'.Entry? && Merged(d, d', op.flags)
  {
    assert GoodTable(s.dir[op.page / 1024], s.mem);
    if op.Map? {
      OrGrants(0, s.dir[p].flags, op.flags);
      OrGrants(0, op.flags, 1);
    }
  }

  predicate Common(flags: bv12, mask: bv12)
  {
    flags & mask != 0
  }

  /** A mapping with these flags, and the present bit, asks for a bit of the mask. */
  predicate Wanted(flags: bv12, mask: bv12)
  {
    Common(flags | 1, mask)
  }

  /** Some step of the run maps a page under entry `p` with a bit of the mask. */
  predicate Asked(ops: seq<Op>, p: nat, mask: bv12)
  {
    ops != [] && (AskedBy(ops[0], p, mask) || Asked(ops[1..], p, mask))
  }

  predicate AskedBy(op: Op, p: nat, mask: bv12)
  {
    op.Map? && op.page / 1024 == p && Wanted(op.flags, mask)
  }

  lemma {:induction false} AskedExactly(ops: seq<Op>, p: nat, mask: bv12)
    ensures Asked(ops, p, mask) <==> exists k :: 0 <= k < |ops| && AskedBy(ops[k], p, mask)
  {
    hide AskedBy;
    if ops != [] {
      AskedExactly(ops[1..], p, mask);
      if k :| 0 <= k < |ops| && AskedBy(ops[k], p, mask) && k > 0 {
        assert ops[1..][k - 1] == ops[k];
      }
      if k :| 0 <= k < |ops[1..]| && AskedBy(ops[1..][k], p, mask) {
        assert ops[k + 1] == ops[1..][k];
      }
    }
  }

  ghost predicate Allows(d: Word, mask: bv12)
  {
    Present(d) && Common(d.flags, mask)
  }

  lemma AllowsAfter(s: Space, op: Op, p: nat, mask: bv12)
    requires Sound(s) && op.page < 0x10_0000 && p < 1024
    ensures |s.dir| == |Do(s, op).dir| == 1024
    ensures Allows(Do(s, op).dir[p], mask) <==> Allows(s.dir[p], mask) || AskedBy(op, p, mask)
  {
    hide Do, GoodTable, Allows, Sound, Merged;
    DirectoryAfter(s, op, p);
    if op.Map? && op.page / 1024 == p {
      EntryAllows(s.dir[p], Do(s, op).dir[p], op.flags, mask);
    }
  }

  lemma EntryAllows(d: Word, d': Word, flags: bv12, mask: bv12)
    requires d.Entry? && d'.Entry? && Merged(d, d', flags)
    ensures Allows(d', mask) <==> Allows(d, mask) || Wanted(flags, mask)
  {
    hide Common, Present;
    if Present(d) {
      PresentBit(d);
      BitsOfEntry(d.flags, flags, d'.flags, mask);
    }
  }

  lemma PresentBit(d: Word)
    requires Present(d)
    ensures d.flags & 1 == 1
  {
  }

  lemma BitsOfEntry(d: bv12, flags: bv12, both: bv12, mask: bv12)
    requires d & 1 == 1 && both == d | flags
    ensures Common(both, mask) <==> Common(d, mask) || Common(flags | 1, mask)
  {
  }

  lemma {:induction false} AllowsAfterRun(s: Space, ops: seq<Op>, p: nat, mask: bv12)
    requires Playable(s, ops) && p < 1024
    ensures |s.dir| == |Play(s, ops).dir| == 1024
    ensures Allows(Play(s, ops).dir[p], mask) <==> Allows(s.dir[p], mask) || Asked(ops, p, mask)
    decreases |ops|
  {
    hide Do, Flat, Allows, AskedBy;
    if ops != [] {
      DoKeepsSound(s, ops[0]);
      AllowsAfter(s, ops[0], p, mask);
      AllowsAfterRun(Do(s, ops[0]), ops[1..], p, mask);
    }
  }

  /** After a run a directory entry grants exactly the bits it granted before, if it was there, and those that were asked
      for with any page below it. */
  lemma DirectoryGrants(s: Space, ops: seq<Op>, p: nat, mask: bv12)
    requires Playable(s, ops) && p < 1024
    ensures |s.dir| == |Play(s, ops).dir| == 1024
    ensures Allows(Play(s, ops).dir[p], mask) <==>
            Allows(s.dir[p], mask) || exists k :: 0 <= k < |ops| && AskedBy(ops[k], p, mask)
  {
    hide Play, Asked, Flat, AskedBy, Allows;
    AllowsAfterRun(s, ops, p, mask);
    AskedExactly(ops, p, mask);
  }
}
