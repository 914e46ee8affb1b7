/** The scheduler on the kernel heap: the blocks it holds are allocations of the heap, so that every block it gives back
    is one kfree may be called with. */
module SchedHeap {
  import opened Types
  import HeapModel
  import KernelHeap
  import SchedModel
  import opened Scheduling

  const STACK_SIZE: nat := 4096

  type Blocks = map<nat, Use>

  /** Every block the scheduler holds is allocated. */
  ghost predicate HeldIn(h: HeapModel.Heap, held: Blocks)
  {
    forall b :: b in held ==> HeapModel.Allocated(h, b)
  }

  lemma AllocatedIsLive(h: HeapModel.Heap, ptr: nat)
    ensures HeapModel.Allocated(h, ptr) <==> exists b :: b in HeapModel.Live(h.blocks) && b.Payload() == ptr
  {
    if HeapModel.Allocated(h, ptr) {
      var k :| 0 <= k < |h.blocks| && !h.blocks[k].free && h.blocks[k].Payload() == ptr;
      assert h.blocks[k] in HeapModel.Live(h.blocks);
    }
  }

  /** Two allocations at one address are one. */
  lemma LiveAtOneAddress(h: HeapModel.Heap, a: HeapModel.Block, b: HeapModel.Block)
    requires HeapModel.Inv(h) && a in HeapModel.Live(h.blocks) && b in HeapModel.Live(h.blocks) && a.Payload() == b.Payload()
    ensures a == b
  {
    var i :| 0 <= i < |h.blocks| && h.blocks[i] == a;
    var j :| 0 <= j < |h.blocks| && h.blocks[j] == b;
    HeapModel.SameAddressSameBlock(h.blocks, h.end, i, j);
  }

  /** What kmalloc returns is a block the scheduler does not hold yet, and those it holds stay allocated. */
  /** A block in use of at least `size` bytes. */
  ghost predicate Holds(h: HeapModel.Heap, ptr: nat, size: nat)
  {
    HeapModel.Allocated(h, ptr) && h.blocks[HeapModel.Index(h, ptr)].size >= size
  }

  lemma HeldAfterMalloc(h: HeapModel.Heap, request: nat, granted: nat, held: Blocks)
    requires HeapModel.Inv(h) && HeldIn(h, held)
    requires granted <= HeapModel.PagesFor(HeapModel.RoundUp(request)) && HeapModel.Grants(h, granted)
    ensures var r := HeapModel.Malloc(h, request, granted);
            && HeldIn(r.0, held)
            && (r.1 != 0 ==> HeapModel.Allocated(r.0, r.1) && r.1 !in held && Holds(r.0, r.1, request))
  {
    hide HeapModel.Malloc, HeapModel.Live, HeapModel.Allocated, HeapModel.Inv;
    HeapModel.MallocKeepsInv(h, request, granted);
    HeapModel.MallocAllocates(h, request, granted);
    var r := HeapModel.Malloc(h, request, granted);
    if r.1 != 0 {
      var b := r.0.blocks[HeapModel.Index(r.0, r.1)];
      assert HeapModel.Live(r.0.blocks) == HeapModel.Live(h.blocks) + {b} && b !in HeapModel.Live(h.blocks);
      forall x | x in held
        ensures HeapModel.Allocated(r.0, x) && x != r.1
      {
        AllocatedIsLive(h, x);
        AllocatedIsLive(r.0, x);
        var c :| c in HeapModel.Live(h.blocks) && c.Payload() == x;
        if x == r.1 {
          LiveAtOneAddress(r.0, b, c);
        }
      }
    } else {
      forall x | x in held
        ensures HeapModel.Allocated(r.0, x)
      {
        AllocatedIsLive(h, x);
        AllocatedIsLive(r.0, x);
      }
    }
  }

  /** A block the scheduler gives back is one kfree may be called with; the others stay allocated. */
  lemma HeldAfterFree(h: HeapModel.Heap, held: Blocks, block: nat)
    requires HeapModel.Inv(h) && HeldIn(h, held) && block in held
    ensures HeapModel.Allocated(h, block)
    ensures HeapModel.Inv(HeapModel.Free(h, block)) && HeldIn(HeapModel.Free(h, block), held - {block})
  {
    hide HeapModel.Live, HeapModel.Allocated, HeapModel.Inv, HeapModel.Release;
    HeapModel.FreeKeepsInv(h, block);
    var h', b := HeapModel.Free(h, block), h.blocks[HeapModel.Index(h, block)];
    FreeRemoves(h, block);
    AllocatedIsLive(h, block);
    forall x | x in held - {block}
      ensures HeapModel.Allocated(h', x)
    {
      AllocatedIsLive(h, x);
      AllocatedIsLive(h', x);
      var c :| c in HeapModel.Live(h.blocks) && c.Payload() == x;
      assert c != b && c in HeapModel.Live(h'.blocks);
    }
  }

  lemma FreeRemoves(h: HeapModel.Heap, block: nat)
    requires HeapModel.Inv(h) && block != 0 && HeapModel.Allocated(h, block)
    ensures var b := h.blocks[HeapModel.Index(h, block)];
            HeapModel.Live(HeapModel.Free(h, block).blocks) == HeapModel.Live(h.blocks) - {b} && b.Payload() == block
  {
    hide HeapModel.Live, HeapModel.Release;
    HeapModel.ReleaseRemovesOne(h.blocks, h.end, HeapModel.Index(h, block));
  }

  // ----- what a timer interrupt gives back

  /** Each block can be freed in its turn. */
  ghost predicate Freeable(h: HeapModel.Heap, gone: seq<nat>)
    decreases |gone|
  {
    gone != [] ==> gone[0] != 0 && HeapModel.Allocated(h, gone[0]) && Freeable(HeapModel.Free(h, gone[0]), gone[1..])
  }

  ghost function FreeAll(h: HeapModel.Heap, gone: seq<nat>): HeapModel.Heap
    requires Freeable(h, gone)
    decreases |gone|
  {
    if gone == [] then h else FreeAll(HeapModel.Free(h, gone[0]), gone[1..])
  }

  /** Blocks the scheduler holds can be freed one after the other, each once, in any order. */
  lemma {:induction false} HeldAreFreeable(h: HeapModel.Heap, held: Blocks, gone: seq<nat>)
    requires HeapModel.Inv(h) && HeldIn(h, held) && 0 !in held
    requires forall k :: 0 <= k < |gone| ==> gone[k] in held
    requires forall j, k :: 0 <= j < k < |gone| ==> gone[j] != gone[k]
    ensures Freeable(h, gone)
    ensures HeapModel.Inv(FreeAll(h, gone)) && HeldIn(FreeAll(h, gone), held - Elements(gone))
    decreases |gone|
  {
    hide HeapModel.Inv, HeapModel.Allocated, HeapModel.Free, HeldIn;
    if gone == [] {
      assert held - Elements(gone) == held;
    } else {
      HeldAfterFree(h, held, gone[0]);
      HeldNotNull(h, held);
      HeldAreFreeable(HeapModel.Free(h, gone[0]), held - {gone[0]}, gone[1..]);
      assert Elements(gone) == {gone[0]} + Elements(gone[1..]) by {
        assert gone == [gone[0]] + gone[1..];
      }
      assert held - Elements(gone) == (held - {gone[0]}) - Elements(gone[1..]);
    }
  }

  lemma HeldNotNull(h: HeapModel.Heap, held: Blocks)
    requires HeldIn(h, held)
    ensures forall b :: b in held ==> HeapModel.Allocated(h, b)
  {
  }

  /** After TimerHandler the tasks that are left hold what they held: an interrupt gives blocks back and takes none. */
  lemma InterruptOnlyGivesBack(m: Tasks, m': Tasks, held: Blocks, held': Blocks, current: nat, esp: nat, active: bool)
    requires Accounted(m, held) && Accounted(m', held') && current in m && Survive(SavedStack(m, current, esp, active), m')
    ensures held'.Keys <= held.Keys && forall b :: b in held' ==> held'[b] == held[b]
    ensures 0 !in held
  {
    forall b | b in held'
      ensures b in held && held'[b] == held[b]
    {
      var u := held'[b];
      assert u.task in m && BlockFor(m, u) == BlockFor(m', u) == b;
    }
  }

  /** So all the blocks an interrupt gives back can be freed, and the scheduler's blocks are still allocated then. */
  lemma InterruptMeetsKfree(h: HeapModel.Heap, m: Tasks, m': Tasks, held: Blocks, held': Blocks, current: nat, esp: nat,
                            active: bool, gone: seq<nat>)
    requires HeapModel.Inv(h) && HeldIn(h, held)
    requires Accounted(m, held) && Accounted(m', held') && current in m && Survive(SavedStack(m, current, esp, active), m')
    requires Elements(gone) == held.Keys - held'.Keys && forall j, k :: 0 <= j < k < |gone| ==> gone[j] != gone[k]
    ensures Freeable(h, gone) && HeldIn(FreeAll(h, gone), held')
  {
    hide HeapModel.Inv, HeapModel.Allocated, Accounted, Survive, HeldIn, Freeable, FreeAll;
    InterruptOnlyGivesBack(m, m', held, held', current, esp, active);
    assert forall k :: 0 <= k < |gone| ==> gone[k] in Elements(gone);
    HeldAreFreeable(h, held, gone);
    assert held - Elements(gone) == held';
  }

  // ----- creating a task

  lemma HeldMoreBlock(h: HeapModel.Heap, held: Blocks, ptr: nat, use: Use)
    requires HeldIn(h, held) && HeapModel.Allocated(h, ptr)
    ensures HeldIn(h, held[ptr := use])
  {
    hide HeapModel.Allocated;
  }

  lemma HeldFewer(h: HeapModel.Heap, held: Blocks, fewer: Blocks)
    requires HeldIn(h, held) && fewer.Keys <= held.Keys
    ensures HeldIn(h, fewer)
  {
    hide HeapModel.Allocated;
  }

  lemma HeldNames(h: HeapModel.Heap, held: Blocks, stack: nat, after: Blocks)
    requires HeldIn(h, held) && (stack != 0 ==> HeapModel.Allocated(h, stack))
    requires after.Keys == held.Keys + if stack != 0 then {stack} else {}
    ensures HeldIn(h, after)
  {
    hide HeapModel.Allocated;
  }

  /** kmalloc beside the blocks the scheduler holds. */
  method Obtain(heap: KernelHeap.Heap, size: nat, ghost held: Blocks) returns (ptr: nat)
    requires heap.Valid() && HeldIn(heap.Model(), held) && size <= HeapModel.MAX_REQUEST
    modifies heap, heap.vm.dir, heap.vm.mem, heap.vm.pmm`usedFrames, heap.vm.pmm`used, heap.vm.pmm.bitmap
    ensures heap.Valid() && HeldIn(heap.Model(), held)
    ensures ptr != 0 ==> HeapModel.Allocated(heap.Model(), ptr) && ptr !in held && Holds(heap.Model(), ptr, size)
  {
    hide HeapModel.Inv, HeapModel.Ordered, HeapModel.Malloc, HeapModel.Allocated, HeldIn, Holds;
    ghost var h, granted := heap.Model(), 0;
    ptr, granted := heap.Kmalloc(size);
    HeldAfterMalloc(h, size, granted, held);
  }

  /** The task gets its blocks; the heap is not touched. */
  method Enlist(s: Scheduler, heap: KernelHeap.Heap, ptr: nat, stack: nat, ghost held1: Blocks) returns (t: nat)
    requires s.Valid() && heap.Valid() && ptr != 0 && ptr !in s.held && HeldIn(heap.Model(), held1)
    requires held1.Keys == s.held.Keys + {ptr}
    requires stack != 0 ==> HeapModel.Allocated(heap.Model(), stack) && stack !in held1
    modifies s`tasks, s`head, s`tail, s`nextId, s`list, s`held
    ensures s.Valid() && heap.Valid() && HeldIn(heap.Model(), s.held)
    ensures t == ptr && s.View() == SchedModel.Apply(old(s.View()), SchedModel.Create(t, old(s.nextId)))
    ensures heap.Model() == old(heap.Model()) && t in s.tasks && s.tasks[t].stackBase == stack
  {
    hide heap.Linked, heap.Mapped, HeapModel.Inv, s.Valid, SchedModel.Apply, HeldIn, HeapModel.Allocated;
    ghost var h := heap.Model();
    t := s.CreateTask(ptr, stack, 0);
    assert unchanged(heap, heap.vm, heap.vm.Footprint());
    HeldNames(h, held1, stack, s.held);
  }

  /** scheduler_create_task for a kernel task, with its two allocations; where the first gives null the model stops. */
  method Spawn(s: Scheduler, heap: KernelHeap.Heap, taskSize: nat) returns (t: nat)
    requires s.Valid() && heap.Valid() && HeldIn(heap.Model(), s.held) && taskSize <= HeapModel.MAX_REQUEST
    modifies s`tasks, s`head, s`tail, s`nextId, s`list, s`held
    modifies heap, heap.vm.dir, heap.vm.mem, heap.vm.pmm`usedFrames, heap.vm.pmm`used, heap.vm.pmm.bitmap
    ensures s.Valid() && heap.Valid() && HeldIn(heap.Model(), s.held)
    ensures t == 0 ==> s.View() == old(s.View()) && s.held == old(s.held)
    ensures t != 0 ==> s.View() == SchedModel.Apply(old(s.View()), SchedModel.Create(t, old(s.nextId)))
    ensures t != 0 ==> t in s.tasks && (s.tasks[t].stackBase == 0 || Holds(heap.Model(), s.tasks[t].stackBase, 4096))
  {
    hide SchedModel.Inv, SchedModel.Apply, Accounted, Chain, HeldIn, Holds;
    var ptr := Obtain(heap, taskSize, s.held);
    if ptr == 0 {
      return 0;
    }
    ghost var held1 := s.held[ptr := Use(ptr, TheTask)];
    HeldMoreBlock(heap.Model(), s.held, ptr, Use(ptr, TheTask));
    var stack := Obtain(heap, STACK_SIZE, held1);
    HeldFewer(heap.Model(), held1, s.held);
    t := Enlist(s, heap, ptr, stack, held1);
  }
}
