/**
 How a free slot gets lost: a run of allocations and frees of one class that ends in a compaction, after
 which a slot is neither on the free stack nor handed out.
 */
module SlabLoss {
  import opened Sequences
  import opened SlabLayout
  import opened SlabAllocator

  /** More blocks than a compaction asks for, at different addresses, the first below the second. */
  ghost predicate EnoughBlocks(ms: seq<int>, spare: int) {
    && |ms| == 17 && NoDup(ms) && ms[0] < ms[1]
    && (forall m | m in ms :: IsBlock(m)) && IsBlock(spare) && spare !in ms
  }

  /** Nothing lost yet, and every free so far is in both counters. */
  ghost predicate Intact(c: SizeClass, es: nat, blocks: seq<int>, free: seq<int>)
    requires IsElemSize(es)
    reads c
  {
    && c.Valid() && c.elemSize == es && c.blocks == blocks && c.free == free && c.lost == {}
    && c.freeCnt == |blocks| * Slots(es) + c.freeCalls
  }

  lemma TopIsFree(c: SizeClass)
    requires c.Valid()
    ensures c.top != 0 <==> c.free != []
  {
  }

  lemma IsLive(c: SizeClass, a: int)
    requires c.Valid() && c.lost == {} && IsSlot(c.blocks, c.elemSize, a) && a !in c.free
    ensures a in c.live
  {
  }

  lemma IsSlotOf(es: nat, blocks: seq<int>, b: int, k: nat)
    requires IsElemSize(es) && b in blocks && IsBlock(b) && k < Slots(es)
    ensures IsSlot(blocks, es, b + k * es)
  {
    SlotIn(es, b, k);
  }

  /** Allocates until the class has one block more and no free slot. */
  method TakeBlock(c: SizeClass, es: nat, ghost blocks: seq<int>, m: int, spare: int)
    requires IsElemSize(es) && Intact(c, es, blocks, []) && c.freeCalls == 0
    requires IsBlock(m) && IsBlock(spare) && m !in blocks && spare !in blocks + [m]
    modifies c
    ensures Intact(c, es, blocks + [m], []) && c.freeCalls == 0
  {
    hide SizeClass.Valid, Compacted, FreeCounts, AllocCounts, IsElemSize, Slots, IsBlock, IsSlot;
    SizeClass.MulNext(|blocks|, Slots(es));
    var p := c.Alloc(m);
    TopIsFree(c);
    while c.top != 0
      invariant Intact(c, es, blocks + [m], c.free) && c.freeCalls == 0 && (c.top != 0 <==> c.free != [])
      decreases |c.free|
    {
      p := c.Alloc(spare);
      TopIsFree(c);
    }
  }

  method TakeAll(c: SizeClass, es: nat, ms: seq<int>, spare: int)
    requires IsElemSize(es) && EnoughBlocks(ms, spare) && Intact(c, es, [], []) && c.freeCalls == 0
    modifies c
    ensures Intact(c, es, ms, []) && c.freeCalls == 0
  {
    hide Intact, IsElemSize, IsBlock;
    var j := 0;
    assert ms[..0] == [];
    while j < |ms|
      invariant 0 <= j <= |ms| && Intact(c, es, ms[..j], []) && c.freeCalls == 0
    {
      assert ms[..j + 1] == ms[..j] + [ms[j]];
      assert ms[j] in ms;
      TakeBlock(c, es, ms[..j], ms[j], spare);
      j := j + 1;
    }
    assert ms[..j] == ms;
  }

  /** The first j slots of a block, the last one first. */
  ghost function Stacked(b: int, es: nat, j: nat): (s: seq<int>)
    ensures |s| == j
    ensures forall a :: a in s <==> exists k: nat | k < j :: a == b + k * es
  {
    if j == 0 then [] else [b + (j - 1) * es] + Stacked(b, es, j - 1)
  }

  lemma NotYetStacked(b: int, es: nat, j: nat)
    requires es > 0
    ensures b + j * es !in Stacked(b, es, j)
  {
    forall k: nat | k < j
      ensures b + k * es != b + j * es
    {
      assert (j - k) * es > 0;
      assert j * es == k * es + (j - k) * es;
    }
  }

  /** Frees the slots of a block, which is too few frees for a compaction. */
  method FreeBlock(c: SizeClass, es: nat, ghost ms: seq<int>, b: int)
    requires IsElemSize(es) && Intact(c, es, ms, []) && c.freeCalls == 0 && b in ms && IsBlock(b)
    modifies c
    ensures Intact(c, es, ms, Stacked(b, es, Slots(es))) && c.freeCalls == Slots(es)
  {
    var j := 0;
    FewSlots(es);
    hide Intact, IsElemSize, Slots, IsBlock, Stacked;
    while j < Slots(es)
      invariant 0 <= j <= Slots(es) && Intact(c, es, ms, Stacked(b, es, j)) && c.freeCalls == j
    {
      FreeNext(c, es, ms, b, j);
      j := j + 1;
    }
  }

  method FreeNext(c: SizeClass, es: nat, ghost ms: seq<int>, b: int, j: nat)
    requires IsElemSize(es) && Intact(c, es, ms, Stacked(b, es, j)) && c.freeCalls == j < Slots(es) < BLOCK_SIZE - 1
    requires b in ms && IsBlock(b)
    modifies c
    ensures Intact(c, es, ms, Stacked(b, es, j + 1)) && c.freeCalls == j + 1
  {
    IsSlotOf(es, ms, b, j);
    NotYetStacked(b, es, j);
    assert Stacked(b, es, j + 1) == [b + j * es] + Stacked(b, es, j);
    hide SizeClass.Valid, Compacted, FreeCounts, IsElemSize, Slots, IsBlock, IsSlot, Stacked, SizeClass.Compacts;
    IsLive(c, b + j * es);
    NotDue(c);
    c.FreeSlot(b + j * es);
  }

  lemma FewSlots(es: nat)
    requires IsElemSize(es)
    ensures 0 < Slots(es) < BLOCK_SIZE - 1
  {
  }

  lemma NotDue(c: SizeClass)
    requires c.freeCalls < BLOCK_SIZE - 1
    ensures !c.Compacts()
  {
  }

  /** Takes and gives back the slot on top until the next free is due for a compaction. */
  method Cycle(c: SizeClass, es: nat, ghost ms: seq<int>, ghost free: seq<int>, spare: int)
    requires IsElemSize(es) && Intact(c, es, ms, free) && free != [] && c.freeCalls < BLOCK_SIZE
    requires IsBlock(spare) && spare !in ms
    modifies c
    ensures Intact(c, es, ms, free) && c.freeCalls == BLOCK_SIZE - 1
  {
    hide SizeClass.Valid, Compacted, FreeCounts, AllocCounts, IsElemSize, Slots, IsBlock, IsSlot;
    while c.freeCalls < BLOCK_SIZE - 1
      invariant Intact(c, es, ms, free) && c.freeCalls < BLOCK_SIZE
      decreases BLOCK_SIZE - c.freeCalls
    {
      var p := c.Alloc(spare);
      NotDue(c);
      c.FreeSlot(p);
      assert [free[0]] + free[1..] == free;
    }
  }

  /** A block all of whose slots are free below another free slot is due; a block with a slot in use is not. */
  lemma OnlyTheLow(es: nat, ms: seq<int>, spare: int, b: int)
    requires IsElemSize(es) && EnoughBlocks(ms, spare) && b in ms
    ensures var free := [ms[1]] + Stacked(ms[0], es, Slots(es)); Releasable(b, es, free) <==> b == ms[0]
  {
    var low, high, n := ms[0], ms[1], Slots(es);
    var free := [high] + Stacked(low, es, n);
    SlotsFillBlock(es);
    assert low in ms && high in ms;
    if b == low {
      forall a | BlockOf(a) == low && a % es == 0
        ensures a in free
      {
        var k := SlotIndex(es, low, a);
      }
      BlocksApart(low, high);
      assert high in free;
    } else {
      SlotIn(es, b, 1);
      NotStacked(es, low, b + es);
      assert BlockOf(high) == high;
      assert b + es !in free;
    }
  }

  lemma NotStacked(es: nat, low: int, a: int)
    requires IsElemSize(es) && IsBlock(low) && BlockOf(a) != low
    ensures a !in Stacked(low, es, Slots(es))
  {
    forall k: nat | k < Slots(es)
      ensures low + k * es != a
    {
      SlotIn(es, low, k);
    }
  }

  /** One slot of another block goes on top. */
  method FreeOne(c: SizeClass, es: nat, ghost ms: seq<int>, low: int, high: int)
    requires IsElemSize(es) && Intact(c, es, ms, Stacked(low, es, Slots(es))) && c.freeCalls == Slots(es)
    requires high in ms && IsBlock(low) && IsBlock(high) && low != high
    modifies c
    ensures Intact(c, es, ms, [high] + Stacked(low, es, Slots(es))) && c.freeCalls == Slots(es) + 1
  {
    FewSlots(es);
    IsSlotOf(es, ms, high, 0);
    NotStacked(es, low, high);
    hide SizeClass.Valid, Compacted, FreeCounts, AllocCounts, IsElemSize, Slots, IsBlock, IsSlot;
    IsLive(c, high);
    NotDue(c);
    c.FreeSlot(high);
  }

  lemma IsDue(c: SizeClass, es: nat, ms: seq<int>, free: seq<int>)
    requires IsElemSize(es) && Intact(c, es, ms, free) && |ms| == 17 && c.freeCalls == BLOCK_SIZE - 1
    ensures c.Compacts()
  {
  }

  /** What the last free says, put together. */
  lemma LossEnds(c: SizeClass, es: nat, ms: seq<int>, spare: int)
    requires IsElemSize(es) && EnoughBlocks(ms, spare) && c.Valid() && c.elemSize == es && ms[1] !in c.live
    requires Compacted(es, ms, [ms[1]] + Stacked(ms[0], es, Slots(es)), {}, c.blocks, c.free, c.lost)
    ensures (forall b :: b in c.blocks <==> b in ms && b != ms[0]) && c.lost == {ms[1]} && c.free == []
  {
    hide SizeClass.Valid, Releasable, Slots, Stacked;
    var low, high := ms[0], ms[1];
    assert low in ms && high in ms;
    var free := [high] + Stacked(low, es, Slots(es));
    forall b | b in ms
      ensures b in c.blocks <==> b != low
    {
      OnlyTheLow(es, ms, spare, b);
    }
    forall a | a in free && BlockOf(a) in c.blocks
      ensures a == high
    {
      if a != high {
        StackedInBlock(es, low, a);
      }
    }
    assert Releasable(low, es, free);
    assert high !in c.free;
    NoneLeft(c.free, high);
    HighIsSlot(c, high);
  }

  lemma NoneLeft(s: seq<int>, x: int)
    requires forall a | a in s :: a == x
    ensures s == [] || x in s
  {
    if s != [] {
      var a := s[0];
      assert a in s;
    }
  }

  lemma StackedInBlock(es: nat, low: int, a: int)
    requires IsElemSize(es) && IsBlock(low) && a in Stacked(low, es, Slots(es))
    ensures BlockOf(a) == low
  {
    var k: nat :| k < Slots(es) && a == low + k * es;
    SlotIn(es, low, k);
  }

  lemma HighIsSlot(c: SizeClass, high: int)
    requires c.Valid() && high in c.blocks && IsBlock(high) && high !in c.free && high !in c.live
    ensures high in c.lost
  {
    BlockMultiple(c.elemSize, high);
    assert IsSlot(c.blocks, c.elemSize, high);
  }

  /** The run up to the last free: only frees that are not due for a compaction. */
  method BeforeLoss(es: nat, ms: seq<int>, spare: int) returns (c: SizeClass)
    requires IsElemSize(es) && EnoughBlocks(ms, spare)
    ensures fresh(c) && Intact(c, es, ms, [ms[1]] + Stacked(ms[0], es, Slots(es))) && c.freeCalls == BLOCK_SIZE - 1
  {
    var low, high := ms[0], ms[1];
    assert low in ms && high in ms;
    FewSlots(es);
    c := new SizeClass(es);
    assert Intact(c, es, [], []);
    hide Intact, IsElemSize, Slots, IsBlock;
    TakeAll(c, es, ms, spare);
    FreeBlock(c, es, ms, low);
    FreeOne(c, es, ms, low, high);
    Cycle(c, es, ms, [high] + Stacked(low, es, Slots(es)), spare);
  }

  method LastFree(c: SizeClass, es: nat, ghost ms: seq<int>, spare: int)
    requires IsElemSize(es) && EnoughBlocks(ms, spare) && c.freeCalls == BLOCK_SIZE - 1
    requires Intact(c, es, ms, [ms[1]] + Stacked(ms[0], es, Slots(es)))
    modifies c
    ensures c.Valid() && c.elemSize == es && (forall b :: b in c.blocks <==> b in ms && b != ms[0])
    ensures c.lost == {ms[1]} && c.free == [] && ms[1] !in c.live
  {
    assert es > 0;
    hide SizeClass.Valid, Compacted, FreeCounts, AllocCounts, IsElemSize, Slots, IsBlock, IsSlot, BlockOf, Releasable,
        Forfeit, Stacked;
    ghost var rest := Stacked(ms[0], es, Slots(es));
    ghost var free := [ms[1]] + rest;
    assert free[1..] == rest;
    var p := c.Alloc(spare);
    IsDue(c, es, ms, rest);
    hide SizeClass.Compacts, EnoughBlocks;
    c.FreeSlot(p);
    LossEnds(c, es, ms, spare);
  }

  /**
   For every class and any 17 blocks: hand out every slot, free all of the lowest block and one slot above it,
   take and give back that slot until a compaction is due. The compaction releases the lowest block; the slot
   above it is lost, and the stack is empty although no session holds that slot.
   */
  method LossRun(es: nat, ms: seq<int>, spare: int) returns (c: SizeClass)
    requires IsElemSize(es) && EnoughBlocks(ms, spare)
    ensures c.Valid() && c.elemSize == es && (forall b :: b in c.blocks <==> b in ms && b != ms[0])
    ensures c.lost == {ms[1]} && c.free == [] && ms[1] !in c.live
  {
    c := BeforeLoss(es, ms, spare);
    LastFree(c, es, ms, spare);
  }
}
