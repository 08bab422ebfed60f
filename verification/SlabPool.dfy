/** The per-thread pool (l_sfp): one size class for each of 8, 16, 32, 64, 128 and 256 bytes. */
module SlabPool {
  import opened SlabLayout
  import opened SlabAllocator

  /** Requests above MAX_ELEM_SIZE go to malloc() and free(). */
  datatype Chunk = Slab(address: int) | System

  class Pool {
    const classes: seq<SizeClass>

    ghost predicate Valid()
      reads this, classes
    {
      && |classes| == ARRAY_LEN
      && (forall i, j | 0 <= i < j < ARRAY_LEN :: classes[i] != classes[j])
      && (forall i | 0 <= i < ARRAY_LEN :: classes[i].Valid() && classes[i].elemSize == ElemSize(i))
      && (forall i, j, b | 0 <= i < j < ARRAY_LEN && b in classes[i].blocks :: b !in classes[j].blocks)
    }

    constructor ()
      ensures Valid() && fresh(classes)
      ensures forall i | 0 <= i < ARRAY_LEN :: classes[i].live == {}
    {
      hide SizeClass.Valid, IsSlot, BlocksOk, Linked, ElemSize;
      ElemSizes();
      var cs: seq<SizeClass> := [];
      var i := 0;
      while i < ARRAY_LEN
        invariant 0 <= i <= ARRAY_LEN && |cs| == i
        invariant forall k | 0 <= k < i :: fresh(cs[k]) && cs[k].Valid() && cs[k].elemSize == ElemSize(k)
        invariant forall k | 0 <= k < i :: cs[k].blocks == [] && cs[k].live == {}
        invariant forall j, k | 0 <= j < k < i :: cs[j] != cs[k]
      {
        var c := new SizeClass(ElemSize(i));
        cs := cs + [c];
        i := i + 1;
      }
      classes := cs;
    }

    /** __l_alloc; m is the block posix_memalign would return if one were needed. */
    method Alloc(size: nat, m: int) returns (c: Chunk, ghost i: nat)
      requires Valid() && IsBlock(m) && forall k | 0 <= k < ARRAY_LEN :: m !in classes[k].blocks
      modifies classes
      ensures Valid()
      ensures size > MAX_ELEM_SIZE ==> c == System && unchanged(classes)
      ensures size <= MAX_ELEM_SIZE ==>
                && c.Slab? && i < ARRAY_LEN && size <= ElemSize(i) && (forall j: nat | j < i :: ElemSize(j) < size)
                && c.address !in old(classes[i].live) && classes[i].live == old(classes[i].live) + {c.address}
                && AllocCounts(old(classes[i].Counts()), classes[i].Counts())
                && forall k | 0 <= k < ARRAY_LEN && k != i :: unchanged(classes[k])
    {
      hide SizeClass.Valid, IsBlock, IsSlot, BlocksOk, Linked, ElemSize, IsElemSize, AllocCounts, SizeClass.Counts;
      i := 0;
      if size > MAX_ELEM_SIZE {
        return System, i;
      }
      var k := SelectClass(size);
      i := k;
      var p := classes[k].Alloc(m);
      c := Slab(p);
    }

    /** __l_free of a chunk that was allocated with the same size. */
    method Free(size: nat, c: Chunk) returns (ghost i: nat)
      requires Valid() && (c.Slab? <==> size <= MAX_ELEM_SIZE)
      requires forall j: nat | size <= MAX_ELEM_SIZE && IsClassFor(size, j) :: c.address in classes[j].live
      modifies classes
      ensures Valid()
      ensures size > MAX_ELEM_SIZE ==> unchanged(classes)
      ensures size <= MAX_ELEM_SIZE ==>
                && i < ARRAY_LEN && IsClassFor(size, i)
                && classes[i].live == old(classes[i].live) - {c.address}
                && FreeCounts(old(classes[i].Counts()), classes[i].Counts())
                && forall k | 0 <= k < ARRAY_LEN && k != i :: unchanged(classes[k])
    {
      hide SizeClass.Valid, IsSlot, BlocksOk, Linked, ElemSize, IsElemSize, FreeCounts, Compacted, SizeClass.Counts;
      i := 0;
      if size > MAX_ELEM_SIZE {
        return;
      }
      var k := SelectClass(size);
      i := k;
      assert IsClassFor(size, k);
      classes[k].FreeSlot(c.address);
    }

    /** The smallest class that fits. */
    static ghost predicate IsClassFor(size: nat, i: nat) {
      i < ARRAY_LEN && size <= ElemSize(i) && forall j: nat | j < i :: ElemSize(j) < size
    }

    /** Live chunks never overlap, whatever classes they come from. */
    lemma LiveChunksDisjoint(i: nat, a: int, j: nat, b: int)
      requires Valid() && i < ARRAY_LEN && j < ARRAY_LEN && a in classes[i].live && b in classes[j].live
      requires i != j || a != b
      ensures a + ElemSize(i) <= b || b + ElemSize(j) <= a
    {
      var ci, cj := classes[i], classes[j];
      assert IsSlot(ci.blocks, ci.elemSize, a) && IsSlot(cj.blocks, cj.elemSize, b);
      if i == j {
        if a < b {
          SlotsApart(ci.elemSize, a, b);
        } else {
          SlotsApart(ci.elemSize, b, a);
        }
      } else {
        assert BlockOf(a) != BlockOf(b);
        SlotInsideBlock(ci.elemSize, a);
        SlotInsideBlock(cj.elemSize, b);
        BlocksApart(BlockOf(a), BlockOf(b));
      }
    }
  }
}
