/** What a user page directory shares with the kernel's and what it owns. */
module Copies {
  import opened Types
  import opened Frames
  import opened Paging

  /** An entry of the directory that vmm_copy_kernel_pages writes for the kernel entry `d`:
      shared from 3 GB up, a private copy of the table below, missing if no frame was left. */
  ghost predicate CopiedEntry(c: Word, d: Word, mem: seq<Page>, own: set<nat>, i: nat)
    requires |mem| == MAX_FRAMES
  {
    if i >= KERNEL_FIRST then c == d
    else if !Present(d) then c == ABSENT
    else
      || c == ABSENT
      || (&& c.Entry? && c.flags == d.flags && c.frame in own
          && c.frame < MAX_FRAMES && d.frame < MAX_FRAMES && mem[c.frame] == mem[d.frame])
  }

  ghost predicate Complete(copy: Page, dir: Page)
  {
    |copy| == |dir| == ENTRIES && forall i :: 0 <= i < ENTRIES && Present(dir[i]) ==> Present(copy[i])
  }

  ghost predicate CopyOf(copy: Page, s: Space, own: set<nat>)
  {
    && Sound(s)
    && |copy| == ENTRIES
    && (forall i :: 0 <= i < ENTRIES ==> CopiedEntry(copy[i], s.dir[i], s.mem, own, i))
    && Distinct(copy)
  }

  /** The copy translates exactly the pages whose table was copied or shared, and as the kernel does. */
  lemma CopyTranslatesAlike(copy: Page, s: Space, own: set<nat>)
    requires CopyOf(copy, s, own)
    ensures TablesOk(copy, s.mem)
    ensures forall page: nat | page < PAGES ::
              Lookup(copy, s.mem, page) ==
              if Present(copy[page / ENTRIES]) then Lookup(s.dir, s.mem, page) else ABSENT
    ensures Complete(copy, s.dir) ==> Flat(copy, s.mem) == FlatOf(s)
  {
    forall i | 0 <= i < ENTRIES
      ensures copy[i].Entry? && GoodTable(copy[i], s.mem)
    {
      assert GoodTable(s.dir[i], s.mem) && CopiedEntry(copy[i], s.dir[i], s.mem, own, i);
    }
    forall page: nat | page < PAGES
      ensures Lookup(copy, s.mem, page) ==
              if Present(copy[page / ENTRIES]) then Lookup(s.dir, s.mem, page) else ABSENT
    {
      assert GoodTable(s.dir[page / ENTRIES], s.mem);
      assert CopiedEntry(copy[page / ENTRIES], s.dir[page / ENTRIES], s.mem, own, page / ENTRIES);
    }
    if Complete(copy, s.dir) {
      SameLookups(copy, s.dir, s.mem);
    }
  }

  lemma SameLookups(a: Page, b: Page, mem: seq<Page>)
    requires |a| == |b| == ENTRIES
    requires forall page: nat | page < PAGES ::
               Lookup(a, mem, page) == if Present(a[page / ENTRIES]) then Lookup(b, mem, page) else ABSENT
    requires Complete(a, b)
    ensures Flat(a, mem) == Flat(b, mem)
  {
    assert !Present(ABSENT);
  }

  // ----- afterwards

  /** How a live user directory, stored in frame `home`, stays tied to the kernel's. */
  ghost predicate Linked(copy: Page, s: Space, own: set<nat>)
  {
    && Sound(s)
    && |copy| == ENTRIES
    && own !! TableFrames(s.dir)
    && own !! Below(RESERVED)
    && own <= s.used
    && forall i :: 0 <= i < ENTRIES && Present(copy[i]) ==>
         if i >= KERNEL_FIRST then Present(s.dir[i]) && copy[i].frame == s.dir[i].frame
         else copy[i].frame in own
  }

  /** A page mapped later shows in the copy exactly when it lies at or above 3 GB under a table that
      existed when the copy was made; no other page of the copy is touched, nor is the copy itself. */
  lemma CopyAfterMap(copy: Page, s: Space, own: set<nat>, page: nat, target: nat, flags: bv12, q: nat)
    requires Linked(copy, s, own) && page < PAGES && q < PAGES && CanMap(s, page)
    ensures var s' := MapIn(s, page, target, flags);
            && Lookup(copy, s'.mem, q) ==
               (if q == page && page / ENTRIES >= KERNEL_FIRST && Present(copy[page / ENTRIES])
                then Entry(target, flags | 1)
                else Lookup(copy, s.mem, q))
            && forall f :: f in own && f < MAX_FRAMES ==> s'.mem[f] == s.mem[f]
  {
    var p, t := page / ENTRIES, q / ENTRIES;
    Indices(s, page * PAGE_SIZE);
    assert q == t * ENTRIES + q % ENTRIES && page == p * ENTRIES + page % ENTRIES;
    TableOfPage(s, own, page, target, flags);
    if Present(copy[t]) && t >= KERNEL_FIRST {
      assert GoodTable(s.dir[t], s.mem);
      assert s.dir[t].frame in TableFrames(s.dir);
      if t != p && Present(s.dir[p]) {
        assert s.dir[if t < p then t else p].frame != s.dir[if t < p then p else t].frame;
      }
    }
  }

  /** The one frame vmm_map_page writes is neither owned by the copy nor a kernel table of another entry. */
  lemma TableOfPage(s: Space, own: set<nat>, page: nat, target: nat, flags: bv12)
    requires Sound(s) && page < PAGES && CanMap(s, page)
    requires own !! TableFrames(s.dir) && own !! Below(RESERVED) && own <= s.used
    ensures var p := page / ENTRIES;
            var f := if Present(s.dir[p]) then s.dir[p].frame else Spare(s.used, s.total);
            && f !in own
            && f < MAX_FRAMES
            && (!Present(s.dir[p]) ==> f !in TableFrames(s.dir))
            && forall g :: 0 <= g < MAX_FRAMES && g != f ==> MapIn(s, page, target, flags).mem[g] == s.mem[g]
  {
    var p := page / ENTRIES;
    Indices(s, page * PAGE_SIZE);
    assert 0 in Below(RESERVED);
    if Present(s.dir[p]) {
      assert s.dir[p].frame in TableFrames(s.dir);
    }
  }

  lemma LinkedSurvivesMap(copy: Page, s: Space, own: set<nat>, page: nat, target: nat, flags: bv12)
    requires Linked(copy, s, own) && page < PAGES && CanMap(s, page)
    ensures Linked(copy, MapIn(s, page, target, flags), own)
  {
    var p := page / ENTRIES;
    Indices(s, page * PAGE_SIZE);
    MapInIsFlat(s, page, target, flags);
    TableOfPage(s, own, page, target, flags);
    var s' := MapIn(s, page, target, flags);
    forall t | 0 <= t < ENTRIES && Present(s'.dir[t])
      ensures s'.dir[t].frame !in own
    {
      if t != p && Present(s.dir[t]) {
        assert s.dir[t].frame in TableFrames(s.dir);
      }
    }
    OrGrants(0, s.dir[p].flags, flags);
  }

  lemma LinkedSurvivesUnmap(copy: Page, s: Space, own: set<nat>, page: nat)
    requires Linked(copy, s, own) && page < PAGES
    ensures Linked(copy, UnmapIn(s, page), own)
    ensures forall f :: f in own && f < MAX_FRAMES ==> UnmapIn(s, page).mem[f] == s.mem[f]
  {
    UnmapInIsSound(s, page);
    Indices(s, page * PAGE_SIZE);
    assert Present(s.dir[page / ENTRIES]) ==> s.dir[page / ENTRIES].frame in TableFrames(s.dir);
  }

  /** Each step of a run keeps the copy linked and the frames it owns. */
  lemma LinkedSurvivesStep(copy: Page, s: Space, own: set<nat>, op: Op)
    requires Linked(copy, s, own) && op.page < PAGES && (op.Map? ==> CanMap(s, op.page))
    ensures Linked(copy, Do(s, op), own)
    ensures forall f :: f in own && f < MAX_FRAMES ==> Do(s, op).mem[f] == s.mem[f]
  {
    hide Linked;
    match op
    case Map(page, target, flags) =>
      LinkedSurvivesMap(copy, s, own, page, target, flags);
      LinkedFacts(copy, s, own);
      TableOfPage(s, own, page, target, flags);
    case Unmap(page) =>
      LinkedSurvivesUnmap(copy, s, own, page);
  }

  lemma LinkedFacts(copy: Page, s: Space, own: set<nat>)
    requires Linked(copy, s, own)
    ensures Sound(s) && |copy| == ENTRIES && own !! TableFrames(s.dir) && own !! Below(RESERVED) && own <= s.used
  {
  }

  /** What a linked copy shows: the kernel's own translation under a shared table, a private table's elsewhere. */
  lemma LinkedLookup(copy: Page, s: Space, own: set<nat>, q: nat)
    requires Linked(copy, s, own) && q < PAGES
    ensures q / ENTRIES >= KERNEL_FIRST && Present(copy[q / ENTRIES]) ==> Lookup(copy, s.mem, q) == Lookup(s.dir, s.mem, q)
    ensures q / ENTRIES < KERNEL_FIRST && Present(copy[q / ENTRIES]) ==> copy[q / ENTRIES].frame in own
  {
  }

  /** After any run of maps and unmaps of the kernel's, a copy made before shows from 3 GB up, under the tables that
      existed then, what the kernel's directory shows now, and below what it showed at first. */
  lemma {:induction false} CopyAfterRun(copy: Page, s: Space, own: set<nat>, ops: seq<Op>, q: nat)
    requires Linked(copy, s, own) && Playable(s, ops) && q < PAGES && forall f :: f in own ==> f < MAX_FRAMES
    ensures Linked(copy, Play(s, ops), own)
    ensures Lookup(copy, Play(s, ops).mem, q) ==
            if q / ENTRIES >= KERNEL_FIRST && Present(copy[q / ENTRIES]) then Lookup(Play(s, ops).dir, Play(s, ops).mem, q)
            else Lookup(copy, s.mem, q)
    decreases |ops|
  {
    hide Linked, MapIn, UnmapIn, Flat;
    LinkedFacts(copy, s, own);
    LinkedLookup(copy, s, own, q);
    if ops != [] {
      DoKeepsSound(s, ops[0]);
      LinkedSurvivesStep(copy, s, own, ops[0]);
      CopyAfterRun(copy, Do(s, ops[0]), own, ops[1..], q);
    }
  }

  /** The same by address: what lies from 3 GB up is shared, everything below is the copy's own. */
  lemma CopyAfterRunByAddress(copy: Page, s: Space, own: set<nat>, ops: seq<Op>, virt: nat)
    requires Linked(copy, s, own) && Playable(s, ops) && virt < 0x1_0000_0000 && forall f :: f in own ==> f < MAX_FRAMES
    ensures |copy| == 1024 && |Play(s, ops).dir| == 1024
    ensures Lookup(copy, Play(s, ops).mem, virt / 0x1000) ==
            if virt >= 0xC000_0000 && Present(copy[virt / 0x40_0000]) then Lookup(Play(s, ops).dir, Play(s, ops).mem, virt / 0x1000)
            else Lookup(copy, s.mem, virt / 0x1000)
  {
    hide Linked, Play, Lookup;
    LinkedFacts(copy, s, own);
    CopyAfterRun(copy, s, own, ops, virt / 0x1000);
    LinkedFacts(copy, Play(s, ops), own);
    Indices(s, virt);
  }

  /** The copy keeps its old directory flags, so a page shared this way has its requested rights
      there exactly when the directory entry already had them at copy time. */
  lemma SharedRights(copy: Page, s: Space, own: set<nat>, page: nat, target: nat, flags: bv12)
    requires Linked(copy, s, own) && page < PAGES && CanMap(s, page)
    requires page / ENTRIES >= KERNEL_FIRST && Present(copy[page / ENTRIES])
    ensures var mem' := MapIn(s, page, target, flags).mem;
            && Present(Lookup(copy, mem', page))
            && (Effective(copy, mem', page) == flags | 1 <==> Within(flags | 1, copy[page / ENTRIES].flags))
  {
    CopyAfterMap(copy, s, own, page, target, flags, page);
    OrGrants(0, 0, flags);
    AndCommutes(copy[page / ENTRIES].flags, flags | 1);
  }

  lemma AndCommutes(a: bv12, b: bv12)
    ensures a & b == b & a
  {
  }

  // ----- how many frames a complete copy takes

  ghost function LowTables(dir: Page, n: nat): nat
    requires n <= |dir|
  {
    if n == 0 then 0 else LowTables(dir, n - 1) + if Present(dir[n - 1]) then 1 else 0
  }

  lemma AllocationUsesOne(used: set<nat>, total: nat)
    ensures var r := FirstClear(used, total, 0);
            if r < total then |FreeFrames(used + {r}, total)| == |FreeFrames(used, total)| - 1
            else |FreeFrames(used, total)| == 0
  {
    var r := FirstClear(used, total, 0);
    FullMeansNoneClear(used, total);
    if r < total {
      assert FreeFrames(used + {r}, total) == FreeFrames(used, total) - {r};
    }
  }

  /** Writing a frame that is no table changes nothing the kernel directory shows. */
  lemma UnusedFrameIsInvisible(s: Space, s': Space, f: nat)
    requires Sound(s) && f < MAX_FRAMES && f !in TableFrames(s.dir)
    requires s'.dir == s.dir && s'.total == s.total && s.used <= s'.used
    requires |s'.mem| == MAX_FRAMES && |s'.mem[f]| == ENTRIES && s'.mem == s.mem[f := s'.mem[f]]
    ensures Sound(s') && FlatOf(s') == FlatOf(s)
  {
    forall t | 0 <= t < ENTRIES
      ensures s'.dir[t].Entry? && GoodTable(s'.dir[t], s'.mem)
      ensures Present(s.dir[t]) ==> s'.mem[s.dir[t].frame] == s.mem[s.dir[t].frame]
    {
      assert GoodTable(s.dir[t], s.mem);
      if Present(s.dir[t]) {
        assert s.dir[t].frame in TableFrames(s.dir);
      }
    }
    forall page: nat | page < PAGES
      ensures Lookup(s'.dir, s'.mem, page) == Lookup(s.dir, s.mem, page)
    {
    }
    assert !Present(ABSENT);
  }

  // ----- the copying loop

  /** The copy in frame `home` after the entries below `n`. */
  ghost predicate Copying(s: Space, own: set<nat>, home: nat, n: nat)
  {
    && Sound(s)
    && home < MAX_FRAMES && home !in own && home !in TableFrames(s.dir)
    && own !! TableFrames(s.dir)
    && own !! Below(RESERVED)
    && own <= s.used
    && (forall f :: f in own ==> f < MAX_FRAMES)
    && (forall i :: 0 <= i < ENTRIES && i < n ==> CopiedEntry(s.mem[home][i], s.dir[i], s.mem, own, i))
    && (forall i :: n <= i < ENTRIES ==> s.mem[home][i] == ABSENT)
    && Distinct(s.mem[home])
  }

  /** Writing entry `n` of the copy. */
  lemma CopyingEntry(s: Space, own: set<nat>, home: nat, n: nat, c: Word)
    requires Copying(s, own, home, n) && n < ENTRIES
    requires CopiedEntry(c, s.dir[n], s.mem, own, n)
    requires Present(c) && n < KERNEL_FIRST ==>
               forall i :: 0 <= i < n && Present(s.mem[home][i]) ==> s.mem[home][i].frame != c.frame
    ensures var s' := s.(mem := s.mem[home := s.mem[home][n := c]]);
            Copying(s', own, home, n + 1) && FlatOf(s') == FlatOf(s)
  {
    var s' := s.(mem := s.mem[home := s.mem[home][n := c]]);
    UnusedFrameIsInvisible(s, s', home);
    forall i | 0 <= i < n
      ensures CopiedEntry(s'.mem[home][i], s'.dir[i], s'.mem, own, i)
      ensures Present(s.mem[home][i]) && Present(c) ==> s.mem[home][i].frame != c.frame
    {
      assert CopiedEntry(s.mem[home][i], s.dir[i], s.mem, own, i);
      TableFrame(s, i);
      TableFrame(s, n);
      if n >= KERNEL_FIRST && Present(s.dir[i]) && Present(s.dir[n]) {
        assert s.dir[i].frame != s.dir[n].frame;
      }
    }
    TableFrame(s, n);
    assert !Present(ABSENT);
  }

  lemma TableFrame(s: Space, i: nat)
    requires Sound(s) && i < ENTRIES
    ensures s.dir[i].Entry? && GoodTable(s.dir[i], s.mem)
    ensures Present(s.dir[i]) ==> s.dir[i].frame in TableFrames(s.dir)
  {
  }

  /** Copying one table into a frame that was free. */
  lemma CopyingTable(s: Space, own: set<nat>, home: nat, n: nat, f: nat)
    requires Copying(s, own, home, n) && n < KERNEL_FIRST && Present(s.dir[n]) && s.dir[n].frame < MAX_FRAMES
    requires f !in s.used && f < MAX_FRAMES && f != home
    ensures var s' := s.(mem := s.mem[f := s.mem[s.dir[n].frame]], used := s.used + {f});
            && Copying(s', own + {f}, home, n)
            && FlatOf(s') == FlatOf(s)
            && s'.mem[f] == s'.mem[s.dir[n].frame]
            && forall i :: 0 <= i < n && Present(s'.mem[home][i]) ==> s'.mem[home][i].frame != f
  {
    TableFrame(s, n);
    assert f !in TableFrames(s.dir);
    var s' := s.(mem := s.mem[f := s.mem[s.dir[n].frame]], used := s.used + {f});
    UnusedFrameIsInvisible(s, s', f);
    forall i | 0 <= i < n
      ensures CopiedEntry(s'.mem[home][i], s'.dir[i], s'.mem, own + {f}, i)
      ensures Present(s'.mem[home][i]) ==> s'.mem[home][i].frame != f
    {
      assert CopiedEntry(s.mem[home][i], s.dir[i], s.mem, own, i);
      TableFrame(s, i);
    }
  }

  lemma CopyingDone(s: Space, own: set<nat>, home: nat)
    requires Copying(s, own, home, ENTRIES) && home in s.used && home >= RESERVED
    ensures CopyOf(s.mem[home], s, own)
    ensures CopyOf(s.mem[home], s, own + {home})
    ensures Linked(s.mem[home], s, own + {home})
  {
    forall i | 0 <= i < ENTRIES
      ensures CopiedEntry(s.mem[home][i], s.dir[i], s.mem, own + {home}, i)
    {
      assert CopiedEntry(s.mem[home][i], s.dir[i], s.mem, own, i);
    }
  }

  /** With `start` frames free at first and `left` now: none is missed until the frames run out. */
  ghost predicate Counted(copy: Page, dir: Page, n: nat, start: nat, left: nat)
    requires |copy| == |dir| == ENTRIES && n <= ENTRIES
  {
    var low := LowTables(dir, if n < KERNEL_FIRST then n else KERNEL_FIRST);
    && left == (if start >= low then start - low else 0)
    && ((forall j :: 0 <= j < n && Present(dir[j]) ==> Present(copy[j])) <==> start >= low)
  }

  /** One round of the loop of vmm_copy_kernel_pages; a failed allocation leaves the entry empty. */
  ghost function CopyStep(s: Space, home: nat, i: nat): Space
    requires |s.dir| == ENTRIES && |s.mem| == MAX_FRAMES && home < MAX_FRAMES && |s.mem[home]| == ENTRIES
    requires s.total <= MAX_FRAMES && i < ENTRIES
    requires Present(s.dir[i]) ==> s.dir[i].frame < MAX_FRAMES
    requires forall f :: 0 <= f < MAX_FRAMES ==> |s.mem[f]| == ENTRIES
  {
    if i >= KERNEL_FIRST then s.(mem := s.mem[home := s.mem[home][i := s.dir[i]]])
    else if Present(s.dir[i]) then
      var f := FirstClear(s.used, s.total, 0);
      if f == s.total then s
      else
        var mem := s.mem[f := s.mem[s.dir[i].frame]];
        s.(mem := mem[home := mem[home][i := Entry(f, s.dir[i].flags)]], used := s.used + {f})
    else s
  }

  /** What the loop has done since `s0` before round `n`. */
  ghost predicate Progress(s0: Space, s: Space, home: nat, n: nat)
  {
    && Copying(s, s.used - s0.used, home, n) && n <= ENTRIES
    && home in s.used
    && s.dir == s0.dir && s.total == s0.total && s0.used <= s.used && FlatOf(s) == FlatOf(s0)
    && Counted(s.mem[home], s.dir, n, |FreeFrames(s0.used, s0.total)|, |FreeFrames(s.used, s.total)|)
  }

  /** One more entry is as it should be, and the kernel's translations are as they were. */
  lemma CopyStepCopies(s0: Space, s: Space, home: nat, i: nat)
    requires Progress(s0, s, home, i) && i < ENTRIES
    ensures GoodTable(s.dir[i], s.mem)
    ensures var s' := CopyStep(s, home, i);
            && Copying(s', s'.used - s0.used, home, i + 1) && FlatOf(s') == FlatOf(s)
            && s'.dir == s.dir && s'.total == s.total && s.used <= s'.used
  {
    hide Counted, Flat, Distinct;
    TableFrame(s, i);
    var own := s.used - s0.used;
    var s' := CopyStep(s, home, i);
    if i >= KERNEL_FIRST {
      CopyingEntry(s, own, home, i, s.dir[i]);
    } else if Present(s.dir[i]) {
      AllocationUsesOne(s.used, s.total);
      var f := FirstClear(s.used, s.total, 0);
      if f == s.total {
        CopyingEntry(s, own, home, i, ABSENT);
        assert s.mem[home][i := ABSENT] == s.mem[home];
        assert s.mem[home := s.mem[home]] == s.mem;
      } else {
        CopyingTable(s, own, home, i, f);
        var mid := s.(mem := s.mem[f := s.mem[s.dir[i].frame]], used := s.used + {f});
        CopyingEntry(mid, own + {f}, home, i, Entry(f, s.dir[i].flags));
        assert own + {f} == s'.used - s0.used;
      }
    }
  }

  lemma CopyStepProgress(s0: Space, s: Space, home: nat, i: nat)
    requires Progress(s0, s, home, i) && i < ENTRIES
    ensures GoodTable(s.dir[i], s.mem)
    ensures Progress(s0, CopyStep(s, home, i), home, i + 1)
  {
    TableFrame(s, i);
    CopyStepCopies(s0, s, home, i);
    CountedStep(s, CopyStep(s, home, i), home, i, |FreeFrames(s0.used, s0.total)|);
    hide Copying, CopyStep, Counted, FirstClear;
  }

  lemma CountedStep(s: Space, s': Space, home: nat, i: nat, start: nat)
    requires |s.dir| == ENTRIES && |s.mem| == MAX_FRAMES && home < MAX_FRAMES && |s.mem[home]| == ENTRIES
    requires s.total <= MAX_FRAMES && i < ENTRIES && home in s.used
    requires Present(s.dir[i]) ==> s.dir[i].frame < MAX_FRAMES
    requires forall f :: 0 <= f < MAX_FRAMES ==> |s.mem[f]| == ENTRIES
    requires s' == CopyStep(s, home, i)
    requires s.mem[home][i] == ABSENT
    requires Counted(s.mem[home], s.dir, i, start, |FreeFrames(s.used, s.total)|)
    ensures Counted(s'.mem[home], s'.dir, i + 1, start, |FreeFrames(s'.used, s'.total)|)
  {
    AllocationUsesOne(s.used, s.total);
    var before, after := s.mem[home], s'.mem[home];
    assert forall j :: 0 <= j < i ==> after[j] == before[j];
    assert !Present(ABSENT);
    assert (forall j :: 0 <= j < i + 1 && Present(s.dir[j]) ==> Present(after[j])) <==>
           (forall j :: 0 <= j < i && Present(s.dir[j]) ==> Present(before[j])) && (Present(s.dir[i]) ==> Present(after[i]));
  }

  lemma ProgressDone(s0: Space, s: Space, home: nat)
    requires Progress(s0, s, home, ENTRIES) && home >= RESERVED
    ensures CopyOf(s.mem[home], s, s.used - s0.used + {home})
    ensures Linked(s.mem[home], s, s.used - s0.used + {home})
    ensures Complete(s.mem[home], s.dir) <==>
            |FreeFrames(s0.used, s0.total)| >= LowTables(s0.dir, KERNEL_FIRST)
  {
    CopyingDone(s, s.used - s0.used, home);
  }

  lemma ProgressStart(s: Space, home: nat)
    requires Sound(s) && RESERVED <= home < MAX_FRAMES && home in s.used && home !in TableFrames(s.dir)
    requires s.mem[home] == EmptyTable()
    ensures Progress(s, s, home, 0)
  {
    assert s.used - s.used == {};
    assert !Present(ABSENT);
  }

  /** The first steps of vmm_create_user_page_dir: a cleared frame nobody held. */
  ghost function Started(s: Space): Space
    requires |s.mem| == MAX_FRAMES && s.total <= MAX_FRAMES && FirstClear(s.used, s.total, 0) < s.total
  {
    var home := FirstClear(s.used, s.total, 0);
    s.(mem := s.mem[home := EmptyTable()], used := s.used + {home})
  }

  lemma StartedIsSound(s: Space)
    requires Sound(s) && FirstClear(s.used, s.total, 0) < s.total
    ensures var home := FirstClear(s.used, s.total, 0);
            && Sound(Started(s)) && FlatOf(Started(s)) == FlatOf(s)
            && home >= RESERVED && home !in TableFrames(s.dir)
            && |FreeFrames(Started(s).used, s.total)| == |FreeFrames(s.used, s.total)| - 1
            && Progress(Started(s), Started(s), home, 0)
  {
    var home := FirstClear(s.used, s.total, 0);
    AllocationUsesOne(s.used, s.total);
    assert home in Below(RESERVED) ==> home in s.used;
    UnusedFrameIsInvisible(s, Started(s), home);
    ProgressStart(Started(s), home);
  }

  /** What vmm_create_user_page_dir has made in frame `home`. */
  ghost predicate Created(s0: Space, s: Space, home: nat)
  {
    var own := s.used - s0.used;
    && Sound(s) && home in own && home < MAX_FRAMES
    && s.dir == s0.dir && s.total == s0.total && s0.used <= s.used && FlatOf(s) == FlatOf(s0)
    && CopyOf(s.mem[home], s, own)
    && Linked(s.mem[home], s, own)
    && (Complete(s.mem[home], s.dir) <==>
        |FreeFrames(s0.used, s0.total)| >= 1 + LowTables(s0.dir, KERNEL_FIRST))
  }

  lemma CreatedAtLast(s0: Space, s: Space)
    requires Sound(s0) && FirstClear(s0.used, s0.total, 0) < s0.total
    requires Progress(Started(s0), s, FirstClear(s0.used, s0.total, 0), ENTRIES)
    ensures Created(s0, s, FirstClear(s0.used, s0.total, 0))
  {
    var home := FirstClear(s0.used, s0.total, 0);
    StartedIsSound(s0);
    ProgressDone(Started(s0), s, home);
    assert s.used - s0.used == s.used - Started(s0).used + {home};
  }
}
