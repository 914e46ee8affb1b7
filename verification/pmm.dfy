/** The physical frame allocator (pmm.cpp): one bit per 4 KB frame, packed eight to a byte. */
module Frames {
  import opened Types

  const PAGE_SIZE: nat := 4096
  const BITMAP_BYTES: nat := 4096
  const MAX_FRAMES: nat := 32768
  const RESERVED: nat := 1024

  // ----- bits in bytes

  function Mask(k: nat): bv8
    requires k < 8
  {
    (1 as bv8) << k
  }

  /** test_bit on the packed bytes. */
  predicate Test(bytes: seq<bv8>, i: nat)
    requires |bytes| == BITMAP_BYTES && i < MAX_FRAMES
  {
    bytes[i / 8] & Mask(i % 8) != 0
  }

  lemma MaskValues(k: nat)
    requires k < 8
    ensures Mask(k) == [1, 2, 4, 8, 16, 32, 64, 128][k]
  {
  }

  /** Setting one bit of a byte leaves the other seven alone. */
  lemma SetMask(b: bv8, j: nat, k: nat)
    requires j < 8 && k < 8
    ensures ((b | Mask(k)) & Mask(j) != 0) <==> (j == k || b & Mask(j) != 0)
  {
    MaskValues(j);
    MaskValues(k);
  }

  /** Clearing one bit of a byte leaves the other seven alone. */
  lemma ClearMask(b: bv8, j: nat, k: nat)
    requires j < 8 && k < 8
    ensures ((b & !Mask(k)) & Mask(j) != 0) <==> (j != k && b & Mask(j) != 0)
  {
    MaskValues(j);
    MaskValues(k);
  }

  /** The set of frames whose bit is set: what the packed bytes mean. */
  ghost function UsedIn(bytes: seq<bv8>): set<nat>
    requires |bytes| == BITMAP_BYTES
  {
    set i: nat | i < MAX_FRAMES && Test(bytes, i)
  }

  lemma SettingABit(bytes: seq<bv8>, i: nat, byte: bv8)
    requires |bytes| == BITMAP_BYTES && i < MAX_FRAMES
    requires byte == bytes[i / 8] | Mask(i % 8)
    ensures UsedIn(bytes[i / 8 := byte]) == UsedIn(bytes) + {i}
  {
    var after := bytes[i / 8 := byte];
    forall j: nat | j < MAX_FRAMES
      ensures Test(after, j) <==> j == i || Test(bytes, j)
    {
      if j / 8 == i / 8 {
        SetMask(bytes[i / 8], j % 8, i % 8);
      }
    }
  }

  lemma ClearingABit(bytes: seq<bv8>, i: nat, byte: bv8)
    requires |bytes| == BITMAP_BYTES && i < MAX_FRAMES
    requires byte == bytes[i / 8] & !Mask(i % 8)
    ensures UsedIn(bytes[i / 8 := byte]) == UsedIn(bytes) - {i}
  {
    var after := bytes[i / 8 := byte];
    forall j: nat | j < MAX_FRAMES
      ensures Test(after, j) <==> j != i && Test(bytes, j)
    {
      if j / 8 == i / 8 {
        ClearMask(bytes[i / 8], j % 8, i % 8);
      }
    }
  }

  lemma NoBits(bytes: seq<bv8>)
    requires |bytes| == BITMAP_BYTES && forall i :: 0 <= i < |bytes| ==> bytes[i] == 0
    ensures UsedIn(bytes) == {}
  {
  }

  // ----- which frame comes next

  /** The lowest frame at or above `from` that is not in use, or `total` when there is none. */
  ghost function FirstClear(used: set<nat>, total: nat, from: nat): (r: nat)
    requires from <= total
    ensures from <= r <= total
    ensures r < total ==> r !in used
    ensures forall j :: from <= j < r ==> j in used
    decreases total - from
  {
    if from < total && from in used then FirstClear(used, total, from + 1) else from
  }

  /** The frames the allocator can still hand out. */
  ghost function FreeFrames(used: set<nat>, total: nat): set<nat>
  {
    Below(total) - used
  }

  class FrameAllocator {
    const bitmap: array<bv8>
    var totalFrames: nat
    var usedFrames: nat
    ghost var used: set<nat>  // the frames in use

    ghost predicate Valid()
      reads this, bitmap
    {
      && bitmap.Length == BITMAP_BYTES
      && totalFrames <= MAX_FRAMES
      && used == UsedIn(bitmap[..])
      && usedFrames == |used|
    }

    /** pmm_init: only the first 4 MB is in use. */
    constructor (memSize: nat)
      requires memSize <= MAX_FRAMES * PAGE_SIZE
      ensures Valid() && fresh(bitmap)
      ensures totalFrames == memSize / PAGE_SIZE
      ensures used == Below(RESERVED)
    {
      bitmap := new bv8[BITMAP_BYTES];
      totalFrames := memSize / PAGE_SIZE;
      usedFrames := 0;
      new;
      for i := 0 to BITMAP_BYTES
        invariant forall j :: 0 <= j < i ==> bitmap[j] == 0
        invariant usedFrames == 0 && totalFrames == memSize / PAGE_SIZE
      {
        bitmap[i] := 0;
      }
      NoBits(bitmap[..]);
      ReserveLow(RESERVED);
    }

    /** The second loop of pmm_init. */
    method ReserveLow(reserved: nat)
      requires bitmap.Length == BITMAP_BYTES && UsedIn(bitmap[..]) == {} && usedFrames == 0
      requires reserved <= MAX_FRAMES
      modifies this`usedFrames, this`used, bitmap
      ensures used == UsedIn(bitmap[..]) == Below(reserved)
      ensures usedFrames == |used|
    {
      for i: nat := 0 to reserved
        invariant UsedIn(bitmap[..]) == Below(i)
        invariant usedFrames == i
      {
        SetBit(i);
        usedFrames := usedFrames + 1;
        assert Below(i + 1) == Below(i) + {i};
      }
      BelowSize(reserved);
      used := UsedIn(bitmap[..]);
    }

    method SetBit(i: nat)
      requires bitmap.Length == BITMAP_BYTES && i < MAX_FRAMES
      modifies bitmap
      ensures UsedIn(bitmap[..]) == old(UsedIn(bitmap[..])) + {i}
    {
      ghost var before := bitmap[..];
      bitmap[i / 8] := bitmap[i / 8] | Mask(i % 8);
      assert bitmap[..] == before[i / 8 := bitmap[i / 8]];
      SettingABit(before, i, bitmap[i / 8]);
    }

    method ClearBit(i: nat)
      requires bitmap.Length == BITMAP_BYTES && i < MAX_FRAMES
      modifies bitmap
      ensures UsedIn(bitmap[..]) == old(UsedIn(bitmap[..])) - {i}
    {
      ghost var before := bitmap[..];
      bitmap[i / 8] := bitmap[i / 8] & !Mask(i % 8);
      assert bitmap[..] == before[i / 8 := bitmap[i / 8]];
      ClearingABit(before, i, bitmap[i / 8]);
    }

    method TestBit(i: nat) returns (b: bool)
      requires bitmap.Length == BITMAP_BYTES && i < MAX_FRAMES
      ensures b <==> i in UsedIn(bitmap[..])
    {
      b := bitmap[i / 8] & Mask(i % 8) != 0;
      assert b <==> Test(bitmap[..], i);
    }

    /** pmm_alloc_frame: the address of the lowest free frame, or 0. */
    method Alloc() returns (address: nat)
      requires Valid()
      modifies this`usedFrames, this`used, bitmap
      ensures Valid()
      ensures var r := FirstClear(old(used), totalFrames, 0);
              if r < totalFrames
              then address == r * PAGE_SIZE && used == old(used) + {r}
              else address == 0 && used == old(used)
    {
      var i := FindClear();
      if i < totalFrames {
        Take(i);
        return i * PAGE_SIZE;
      }
      return 0;
    }

    /** The scan of pmm_alloc_frame. */
    method FindClear() returns (i: nat)
      requires Valid()
      ensures i == FirstClear(used, totalFrames, 0)
    {
      i := 0;
      while i < totalFrames
        invariant i <= FirstClear(used, totalFrames, 0)
      {
        var taken := TestBit(i);
        if !taken {
          return;
        }
        i := i + 1;
      }
    }

    method Take(i: nat)
      requires Valid() && i < totalFrames && i !in used
      modifies this`usedFrames, this`used, bitmap
      ensures Valid() && used == old(used) + {i}
    {
      SetBit(i);
      usedFrames := usedFrames + 1;
      used := used + {i};
    }

    /** pmm_free_frame: freeing a frame that is not in use changes nothing. */
    method Free(address: nat)
      requires Valid()
      requires address / PAGE_SIZE < MAX_FRAMES
      modifies this`usedFrames, this`used, bitmap
      ensures Valid()
      ensures used == old(used) - {address / PAGE_SIZE}
    {
      var i := address / PAGE_SIZE;
      var taken := TestBit(i);
      if taken {
        assert |used - {i}| == |used| - 1;
        ClearBit(i);
        usedFrames := usedFrames - 1;
      }
      used := used - {i};
    }
  }

  lemma FullMeansNoneClear(used: set<nat>, total: nat)
    ensures FreeFrames(used, total) == {} <==> FirstClear(used, total, 0) == total
  {
    var r := FirstClear(used, total, 0);
    if r < total {
      assert r in FreeFrames(used, total);
    }
  }

  // ----- whole runs

  datatype Event = Allocate | Release(frame: nat)

  /** The frames in use and, with multiplicity, the frames callers hold. */
  datatype Holding = Holding(used: set<nat>, live: multiset<nat>)

  ghost function After(h: Holding, total: nat, e: Event): Holding
  {
    match e
    case Allocate =>
      var r := FirstClear(h.used, total, 0);
      if r < total then Holding(h.used + {r}, h.live + multiset{r}) else h
    case Release(frame) =>
      Holding(h.used - {frame}, h.live - multiset{frame})
  }

  /** The state after a run of the allocator from pmm_init. */
  ghost function Run(total: nat, events: seq<Event>): Holding
  {
    if events == [] then Holding(Below(RESERVED), multiset{})
    else After(Run(total, events[..|events| - 1]), total, events[|events| - 1])
  }

  /** Callers release only frames they hold. */
  ghost predicate Honest(total: nat, events: seq<Event>)
  {
    events != [] ==>
      && Honest(total, events[..|events| - 1])
      && (events[|events| - 1].Release? ==> events[|events| - 1].frame in Run(total, events[..|events| - 1]).live)
  }

  /** No frame is ever held twice, the reserved ones are never handed out, and nothing leaks. */
  lemma {:induction false} NoFrameIsHeldTwice(total: nat, events: seq<Event>)
    requires Honest(total, events)
    ensures Exclusive(Run(total, events), total)
  {
    if events != [] {
      var before := events[..|events| - 1];
      NoFrameIsHeldTwice(total, before);
      StepHolds(Run(total, before), total, events[|events| - 1]);
    }
  }

  ghost predicate Exclusive(h: Holding, total: nat)
  {
    && (forall f :: f in h.live ==> h.live[f] == 1 && 1024 <= f < total)
    && (forall f: nat :: f in h.used <==> f < 1024 || f in h.live)
  }

  lemma StepHolds(h: Holding, total: nat, e: Event)
    requires Exclusive(h, total)
    requires e.Release? ==> e.frame in h.live
    ensures Exclusive(After(h, total, e), total)
  {
  }
}
