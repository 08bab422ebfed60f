/** Whole runs of the allocator: any sequence of allocations and matching frees, with the compactions they trigger. */
module SlabRuns {
  import opened Sequences
  import opened SlabLayout
  import opened SlabAllocator
  import opened SlabPool

  /** A chunk in use, with the size that was asked for. */
  datatype Held = Held(size: nat, chunk: Chunk)

  /** Free takes one of the chunks in use. block is what posix_memalign would return if a block were needed. */
  datatype Op = AllocOp(size: nat, block: int) | FreeOp(which: nat)

  /** Index of the smallest class that fits. */
  function ClassOf(size: nat): (i: nat)
    requires size <= MAX_ELEM_SIZE
    ensures Pool.IsClassFor(size, i)
  {
    ElemSizes();
    if size <= 32 then (if size <= 8 then 0 else if size <= 16 then 1 else 2)
    else if size <= 64 then 3 else if size <= 128 then 4 else 5
  }

  lemma ClassIsUnique(size: nat, i: nat, j: nat)
    requires Pool.IsClassFor(size, i) && Pool.IsClassFor(size, j)
    ensures i == j
  {
  }

  predicate Small(h: Held) {
    h.size <= MAX_ELEM_SIZE
  }

  /** The live slots of the classes, as values. */
  ghost function Live(pool: Pool): seq<set<int>>
    reads pool.classes
  {
    seq(|pool.classes|, i requires 0 <= i < |pool.classes| reads pool.classes => pool.classes[i].live)
  }

  /** The chunks in use are exactly the live slots, each once, in the class that fits best. */
  ghost predicate Tracks(held: seq<Held>, live: seq<set<int>>) {
    && |live| == ARRAY_LEN
    && (forall k | 0 <= k < |held| :: Small(held[k]) <==> held[k].chunk.Slab?)
    && (forall k | 0 <= k < |held| && Small(held[k]) :: held[k].chunk.address in live[ClassOf(held[k].size)])
    && (forall j, k | 0 <= j < k < |held| :: NotSame(held[j], held[k]))
    && (forall i, a | 0 <= i < ARRAY_LEN && a in live[i] :: IsHeld(held, i, a))
  }

  /** The live slots when a chunk has been freed. */
  function Without(live: seq<set<int>>, h: Held): seq<set<int>>
    requires |live| == ARRAY_LEN && (Small(h) ==> h.chunk.Slab?)
  {
    if Small(h) then live[ClassOf(h.size) := live[ClassOf(h.size)] - {h.chunk.address}] else live
  }

  predicate NotSame(g: Held, h: Held) {
    Small(g) && Small(h) && ClassOf(g.size) == ClassOf(h.size) ==> g.chunk != h.chunk
  }

  ghost predicate IsHeld(held: seq<Held>, i: nat, a: int) {
    exists k | 0 <= k < |held| :: Small(held[k]) && ClassOf(held[k].size) == i && held[k].chunk == Slab(a)
  }

  lemma TracksAlloc(held: seq<Held>, live: seq<set<int>>, h: Held, live': seq<set<int>>)
    requires Tracks(held, live) && Small(h) && h.chunk.Slab?
    requires h.chunk.address !in live[ClassOf(h.size)] &&
             live' == live[ClassOf(h.size) := live[ClassOf(h.size)] + {h.chunk.address}]
    ensures Tracks(held + [h], live')
  {
    hide ClassOf;
    forall i, a | 0 <= i < ARRAY_LEN && a in live'[i]
      ensures IsHeld(held + [h], i, a)
    {
      if a in live[i] {
        assert IsHeld(held, i, a);
        var k :| 0 <= k < |held| && Small(held[k]) && ClassOf(held[k].size) == i && held[k].chunk == Slab(a);
        assert (held + [h])[k] == held[k];
      } else {
        assert (held + [h])[|held|] == h;
      }
    }
  }

  lemma TracksSystem(held: seq<Held>, live: seq<set<int>>, h: Held)
    requires Tracks(held, live) && !Small(h) && h.chunk == System
    ensures Tracks(held + [h], live)
  {
    hide ClassOf;
    forall i, a | 0 <= i < ARRAY_LEN && a in live[i]
      ensures IsHeld(held + [h], i, a)
    {
      assert IsHeld(held, i, a);
      var k :| 0 <= k < |held| && Small(held[k]) && ClassOf(held[k].size) == i && held[k].chunk == Slab(a);
      assert (held + [h])[k] == held[k];
    }
  }

  lemma TracksFree(held: seq<Held>, live: seq<set<int>>, w: nat, live': seq<set<int>>)
    requires Tracks(held, live) && w < |held|
    requires live' == Without(live, held[w])
    ensures Tracks(held[..w] + held[w + 1..], live')
  {
    hide ClassOf;
    hide NotSame, IsHeld;
    var rest := held[..w] + held[w + 1..];
    forall k | 0 <= k < |rest|
      ensures rest[k] == held[if k < w then k else k + 1]
      ensures Small(rest[k]) ==> rest[k].chunk.Slab? && rest[k].chunk.address in live'[ClassOf(rest[k].size)]
    {
      if Small(rest[k]) {
        StaysLive(held, live, w, live', if k < w then k else k + 1);
      }
    }
    forall i, a | 0 <= i < ARRAY_LEN && a in live'[i]
      ensures IsHeld(rest, i, a)
    {
      assert IsHeld(held, i, a);
      StaysHeld(held, w, i, a);
    }
  }

  lemma StaysLive(held: seq<Held>, live: seq<set<int>>, w: nat, live': seq<set<int>>, k: nat)
    requires Tracks(held, live) && w < |held| && k < |held| && k != w && Small(held[k])
    requires live' == Without(live, held[w])
    ensures held[k].chunk.Slab? && held[k].chunk.address in live'[ClassOf(held[k].size)]
  {
    hide ClassOf, IsHeld;
    assert if k < w then NotSame(held[k], held[w]) else NotSame(held[w], held[k]);
  }

  lemma StaysHeld(held: seq<Held>, w: nat, i: nat, a: int)
    requires w < |held| && IsHeld(held, i, a) && !(Small(held[w]) && i == ClassOf(held[w].size) &&
             held[w].chunk == Slab(a))
    ensures IsHeld(held[..w] + held[w + 1..], i, a)
  {
    hide ClassOf;
    var rest := held[..w] + held[w + 1..];
    var k :| 0 <= k < |held| && Small(held[k]) && ClassOf(held[k].size) == i && held[k].chunk == Slab(a);
    assert rest[if k < w then k else k - 1] == held[k];
  }

  /** __l_alloc in a run. */
  method DoAlloc(pool: Pool, held: seq<Held>, size: nat, block: int) returns (held': seq<Held>)
    requires pool.Valid() && Tracks(held, Live(pool)) && IsBlock(block) && Unused(pool.classes, block)
    modifies pool.classes
    ensures pool.Valid() && Tracks(held', Live(pool)) && HeldStep(AllocOp(size, block), held, held')
    ensures forall i | 0 <= i < ARRAY_LEN ::
              CountsStep(AllocOp(size, block), i, old(CountsOf(pool))[i], CountsOf(pool)[i])
  {
    hide SizeClass.Valid, IsBlock, Tracks, ElemSize, ClassOf, IsElemSize, AllocCounts, SizeClass.Counts;
    ghost var live := Live(pool);
    var c, i := pool.Alloc(size, block);
    if size > MAX_ELEM_SIZE {
      assert Live(pool) == live;
      TracksSystem(held, live, Held(size, c));
    } else {
      ClassIsUnique(size, i, ClassOf(size));
      assert Live(pool) == live[i := live[i] + {c.address}];
      TracksSize(held, live);
      TracksAlloc(held, live, Held(size, c), Live(pool));
    }
    held' := held + [Held(size, c)];
  }

  lemma TracksSize(held: seq<Held>, live: seq<set<int>>)
    requires Tracks(held, live)
    ensures |live| == ARRAY_LEN
  {
  }

  lemma TracksAt(held: seq<Held>, live: seq<set<int>>, w: nat)
    requires Tracks(held, live) && w < |held|
    ensures |live| == ARRAY_LEN && (Small(held[w]) <==> held[w].chunk.Slab?)
    ensures Small(held[w]) ==> held[w].chunk.address in live[ClassOf(held[w].size)]
  {
  }

  /** __l_free in a run: a chunk in use, with the size it was allocated with. */
  method DoFree(pool: Pool, held: seq<Held>, w: nat) returns (held': seq<Held>)
    requires pool.Valid() && Tracks(held, Live(pool)) && w < |held|
    modifies pool.classes
    ensures pool.Valid() && Tracks(held', Live(pool)) && HeldStep(FreeOp(w), held, held')
    ensures forall i | 0 <= i < ARRAY_LEN :: CountsStep(FreeOp(w), i, old(CountsOf(pool))[i], CountsOf(pool)[i])
  {
    hide SizeClass.Valid, Tracks, ElemSize, ClassOf, IsElemSize, FreeCounts, SizeClass.Counts;
    ghost var live := Live(pool);
    TracksAt(held, live, w);
    forall j: nat | held[w].size <= MAX_ELEM_SIZE && Pool.IsClassFor(held[w].size, j)
      ensures held[w].chunk.address in pool.classes[j].live
    {
      ClassIsUnique(held[w].size, j, ClassOf(held[w].size));
    }
    var i := pool.Free(held[w].size, held[w].chunk);
    if held[w].size <= MAX_ELEM_SIZE {
      ClassIsUnique(held[w].size, i, ClassOf(held[w].size));
      assert Live(pool) == live[i := live[i] - {held[w].chunk.address}];
    } else {
      assert Live(pool) == live;
    }
    TracksFree(held, live, w, Live(pool));
    held' := held[..w] + held[w + 1..];
  }

  /** Chunks in use never overlap and hold what was asked for. */
  lemma HeldApart(pool: Pool, held: seq<Held>, j: nat, k: nat)
    requires pool.Valid() && Tracks(held, Live(pool)) && j < k < |held| && Small(held[j]) && Small(held[k])
    ensures var a, b := held[j].chunk.address, held[k].chunk.address;
            a + held[j].size <= b || b + held[k].size <= a
  {
    hide SizeClass.Valid, ElemSize;
    var a, b := held[j].chunk.address, held[k].chunk.address;
    pool.LiveChunksDisjoint(ClassOf(held[j].size), a, ClassOf(held[k].size), b);
  }

  predicate Unused(classes: seq<SizeClass>, block: int)
    reads classes
  {
    forall k | 0 <= k < |classes| :: block !in classes[k].blocks
  }

  // ----- what a run does -----

  /** An allocation adds one chunk of that size; a free removes that chunk; no other chunk moves or changes. */
  predicate HeldStep(op: Op, held: seq<Held>, held': seq<Held>) {
    match op
    case AllocOp(size, _) => |held'| == |held| + 1 && held'[..|held|] == held && held'[|held|].size == size
    case FreeOp(w) => w < |held| && held' == held[..w] + held[w + 1..]
  }

  function Sizes(held: seq<Held>): (r: seq<nat>)
    ensures |r| == |held|
  {
    seq(|held|, k requires 0 <= k < |held| => held[k].size)
  }

  /** The sizes in use after some operations, by the operations alone. */
  function SizesAfter(ops: seq<Op>): seq<nat> {
    if ops == [] then []
    else
      var before := SizesAfter(ops[..|ops| - 1]);
      match ops[|ops| - 1]
      case AllocOp(size, _) => before + [size]
      case FreeOp(w) => if w < |before| then before[..w] + before[w + 1..] else before
  }

  lemma SizesStep(ops: seq<Op>, k: nat, held: seq<Held>, held': seq<Held>)
    requires k < |ops| && Sizes(held) == SizesAfter(ops[..k]) && HeldStep(ops[k], held, held')
    ensures Sizes(held') == SizesAfter(ops[..k + 1])
  {
    assert ops[..k + 1][..k] == ops[..k];
    if ops[k].AllocOp? {
      forall j | 0 <= j < |held|
        ensures held'[j] == held[j]
      {
        assert held'[..|held|][j] == held'[j];
      }
    }
  }

  /** The allocator at one moment of a run: the chunks in use, the live slots and the counters of each class. */
  datatype Snapshot = Snapshot(held: seq<Held>, live: seq<set<int>>, counters: seq<Counters>)

  ghost function CountsOf(pool: Pool): (s: seq<Counters>)
    requires pool.Valid()
    reads pool, pool.classes
    ensures |s| == ARRAY_LEN && forall i | 0 <= i < ARRAY_LEN :: s[i] == pool.classes[i].Counts()
  {
    seq(ARRAY_LEN, i requires pool.Valid() && 0 <= i < ARRAY_LEN reads pool, pool.classes => pool.classes[i].Counts())
  }

  ghost function SnapshotOf(pool: Pool, held: seq<Held>): Snapshot
    requires pool.Valid()
    reads pool, pool.classes
  {
    Snapshot(held, Live(pool), CountsOf(pool))
  }

  /**
   The chunks in use are exactly the live slots, each in the smallest class that fits, no two overlap, the
   stack is never longer than free_cnt, and alloc_cnt is blocks times slots per block.
   */
  ghost predicate Sound(s: Snapshot) {
    && Tracks(s.held, s.live)
    && (forall j, k | 0 <= j < k < |s.held| && Small(s.held[j]) && Small(s.held[k]) :: Apart(s.held[j], s.held[k]))
    && (forall c | c in s.counters :: c.allocCnt == c.blocks * c.slots && c.stack <= c.freeCnt)
  }

  // ----- how much a run can lose -----

  predicate AllocatesIn(op: Op, i: nat) {
    op.AllocOp? && op.size <= MAX_ELEM_SIZE && ClassOf(op.size) == i
  }

  ghost function AllocsIn(ops: seq<Op>, i: nat): int {
    Sum((op: Op) => if AllocatesIn(op, i) then 1 else 0, ops)
  }

  ghost function Frees(ops: seq<Op>): int {
    Sum((op: Op) => if op.FreeOp? then 1 else 0, ops)
  }

  predicate CountsStep(op: Op, i: nat, c: Counters, c': Counters) {
    if op.FreeOp? then c' == c || FreeCounts(c, c') else if AllocatesIn(op, i) then AllocCounts(c, c') else c' == c
  }

  /**
   A class loses no more slots than it has given blocks back, of those that its allocations obtained, and none
   until BLOCK_SIZE slots have been freed.
   */
  predicate Bounded(c0: Counters, c: Counters, allocs: int, frees: int) {
    && c.slots == c0.slots
    && c.lost + c.blocks * c.slots <= c0.lost + (c0.blocks + allocs) * c.slots
    && c.freeCalls <= c0.freeCalls + frees
    && (c.lost > c0.lost ==> c.freeCalls + BLOCK_SIZE <= c0.freeCalls + frees)
  }

  ghost predicate Within(start: seq<Counters>, now: seq<Counters>, ops: seq<Op>) {
    && |start| == |now| == ARRAY_LEN
    && forall i | 0 <= i < ARRAY_LEN :: Bounded(start[i], now[i], AllocsIn(ops, i), Frees(ops))
  }

  lemma BoundedAlloc(c0: Counters, c: Counters, c': Counters, allocs: int, frees: int)
    requires Bounded(c0, c, allocs, frees) && AllocCounts(c, c')
    ensures Bounded(c0, c', allocs + 1, frees)
  {
    assert (c0.blocks + allocs + 1) * c.slots == (c0.blocks + allocs) * c.slots + c.slots;
    assert (c.blocks + 1) * c.slots == c.blocks * c.slots + c.slots;
  }

  lemma BoundedFree(c0: Counters, c: Counters, c': Counters, allocs: int, frees: int)
    requires Bounded(c0, c, allocs, frees) && FreeCounts(c, c')
    ensures Bounded(c0, c', allocs, frees + 1)
  {
    assert (c.blocks - c'.blocks) * c.slots == c.blocks * c.slots - c'.blocks * c.slots;
    if c'.freeCalls != c.freeCalls + 1 {
      AtLeastOne(c.freeCalls + 1, BLOCK_SIZE);
    }
  }

  lemma AtLeastOne(n: nat, d: nat)
    requires n > 0 && d > 0 && n % d == 0
    ensures n >= d
  {
  }

  lemma CountSnoc(ops: seq<Op>, op: Op, i: nat)
    ensures AllocsIn(ops + [op], i) == AllocsIn(ops, i) + if AllocatesIn(op, i) then 1 else 0
    ensures Frees(ops + [op]) == Frees(ops) + if op.FreeOp? then 1 else 0
  {
    assert (ops + [op])[..|ops|] == ops;
  }

  lemma BoundedStep(start: Counters, c: Counters, c': Counters, ops: seq<Op>, op: Op, i: nat)
    requires Bounded(start, c, AllocsIn(ops, i), Frees(ops)) && CountsStep(op, i, c, c')
    ensures Bounded(start, c', AllocsIn(ops + [op], i), Frees(ops + [op]))
  {
    CountSnoc(ops, op, i);
    hide AllocsIn, Frees, ClassOf, Bounded, AllocCounts, FreeCounts;
    if op.FreeOp? {
      if c' == c {
        BoundedMore(start, c, AllocsIn(ops, i), Frees(ops));
      } else {
        BoundedFree(start, c, c', AllocsIn(ops, i), Frees(ops));
      }
    } else if AllocatesIn(op, i) {
      BoundedAlloc(start, c, c', AllocsIn(ops, i), Frees(ops));
    }
  }

  lemma BoundedMore(c0: Counters, c: Counters, allocs: int, frees: int)
    requires Bounded(c0, c, allocs, frees)
    ensures Bounded(c0, c, allocs, frees + 1)
  {
  }

  lemma WithinStep(start: seq<Counters>, now: seq<Counters>, next: seq<Counters>, ops: seq<Op>, k: nat)
    requires k < |ops| && Within(start, now, ops[..k]) && |next| == ARRAY_LEN
    requires forall i | 0 <= i < ARRAY_LEN :: CountsStep(ops[k], i, now[i], next[i])
    ensures Within(start, next, ops[..k + 1])
  {
    hide Bounded, CountsStep, AllocsIn, Frees;
    assert ops[..k + 1] == ops[..k] + [ops[k]];
    forall i | 0 <= i < ARRAY_LEN
      ensures Bounded(start[i], next[i], AllocsIn(ops[..k + 1], i), Frees(ops[..k + 1]))
    {
      BoundedStep(start[i], now[i], next[i], ops[..k], ops[k], i);
    }
  }

  lemma WithinAtStart(start: seq<Counters>, ops: seq<Op>)
    requires |start| == ARRAY_LEN
    ensures Within(start, start, ops[..0])
  {
  }

  predicate Apart(g: Held, h: Held) {
    g.chunk.Slab? && h.chunk.Slab? && (g.chunk.address + g.size <= h.chunk.address ||
        h.chunk.address + h.size <= g.chunk.address)
  }

  lemma SnapshotIsSound(pool: Pool, held: seq<Held>)
    requires pool.Valid() && Tracks(held, Live(pool))
    ensures Sound(SnapshotOf(pool, held))
  {
    hide Tracks, IsSlot, BlocksOk, Linked, SizeClass.Partitioned, ElemSize, Live;
    forall j, k | 0 <= j < k < |held| && Small(held[j]) && Small(held[k])
      ensures Apart(held[j], held[k])
    {
      TracksAt(held, Live(pool), j);
      TracksAt(held, Live(pool), k);
      HeldApart(pool, held, j, k);
    }
  }

  /** The system could produce the operation: a block not in use, a chunk in use. */
  predicate Possible(pool: Pool, held: seq<Held>, op: Op)
    reads pool, pool.classes
  {
    match op
    case AllocOp(_, block) => IsBlock(block) && Unused(pool.classes, block)
    case FreeOp(w) => w < |held|
  }

  /**
   A run carries out the operations up to the first that the system could not produce. After every one of
   them the allocator is sound and has lost no more than the bound; each adds or removes exactly its chunk;
   and the sizes in use at the end are those the operations say.
   */
  method RunAll(pool: Pool, ops: seq<Op>) returns (held: seq<Held>, done: nat, ghost trace: seq<Snapshot>)
    requires pool.Valid() && forall i | 0 <= i < ARRAY_LEN :: pool.classes[i].live == {}
    modifies pool.classes
    ensures pool.Valid() && done <= |ops| && (done < |ops| ==> !Possible(pool, held, ops[done]))
    ensures |trace| == done + 1 && trace[0].held == [] && trace[done] == SnapshotOf(pool, held)
    ensures forall k | 0 <= k <= done :: Sound(trace[k])
    ensures forall k | 0 <= k < done :: HeldStep(ops[k], trace[k].held, trace[k + 1].held)
    ensures forall k | 0 <= k <= done :: Within(trace[0].counters, trace[k].counters, ops[..k])
    ensures Sizes(held) == SizesAfter(ops[..done])
  {
    hide Sound, SizeClass.Valid, Tracks, HeldStep, SizesAfter, Live, Within, CountsStep, CountsOf;
    held, done := [], 0;
    NothingTracked(pool);
    SnapshotIsSound(pool, held);
    trace := [SnapshotOf(pool, held)];
    WithinAtStart(CountsOf(pool), ops);
    NoSizes(ops);
    while done < |ops| && Possible(pool, held, ops[done])
      invariant pool.Valid() && Tracks(held, Live(pool)) && done <= |ops|
      invariant |trace| == done + 1 && trace[0].held == [] && trace[done] == SnapshotOf(pool, held)
      invariant forall k | 0 <= k <= done :: Sound(trace[k])
      invariant forall k | 0 <= k < done :: HeldStep(ops[k], trace[k].held, trace[k + 1].held)
      invariant forall k | 0 <= k <= done :: Within(trace[0].counters, trace[k].counters, ops[..k])
      invariant Sizes(held) == SizesAfter(ops[..done])
    {
      ghost var before, counts := held, CountsOf(pool);
      held := Perform(pool, held, ops[done]);
      SizesStep(ops, done, before, held);
      WithinStep(trace[0].counters, counts, CountsOf(pool), ops, done);
      SnapshotIsSound(pool, held);
      trace := trace + [SnapshotOf(pool, held)];
      done := done + 1;
    }
  }

  lemma NoSizes(ops: seq<Op>)
    ensures Sizes([]) == SizesAfter(ops[..0])
  {
  }

  lemma NothingTracked(pool: Pool)
    requires pool.Valid() && forall i | 0 <= i < ARRAY_LEN :: pool.classes[i].live == {}
    ensures Tracks([], Live(pool))
  {
  }

  method Perform(pool: Pool, held: seq<Held>, op: Op) returns (held': seq<Held>)
    requires pool.Valid() && Tracks(held, Live(pool)) && Possible(pool, held, op)
    modifies pool.classes
    ensures pool.Valid() && Tracks(held', Live(pool)) && HeldStep(op, held, held')
    ensures forall i | 0 <= i < ARRAY_LEN :: CountsStep(op, i, old(CountsOf(pool))[i], CountsOf(pool)[i])
  {
    hide Tracks, HeldStep, SizeClass.Valid, CountsStep, SizeClass.Counts;
    match op {
      case AllocOp(size, block) => held' := DoAlloc(pool, held, size, block);
      case FreeOp(w) => held' := DoFree(pool, held, w);
    }
  }
}
