/**
 One size class of the slab allocator (l_sfc): an intrusive free stack threaded through the
 free slots themselves, the list of memory blocks, and the compactor.
 */
module SlabAllocator {
  import opened Sequences
  import opened SlabLayout
  import opened SlabSorting

  function Head(s: seq<int>): int {
    if s == [] then 0 else s[0]
  }

  /** Walking the links from top visits exactly the addresses of s. */
  ghost predicate Linked(top: int, link: map<int, int>, s: seq<int>) {
    && top == Head(s)
    && (forall i | 0 <= i < |s| :: s[i] != 0 && s[i] in link && link[s[i]] == Head(s[i + 1..]))
    && NoDup(s)
  }

  /** The sort buffer after zeroing the windows of the released blocks. */
  ghost predicate Zeroed(buf: seq<int>, s: seq<int>, released: seq<int>) {
    && |buf| == |s|
    && forall k | 0 <= k < |s| :: buf[k] == if s[k] != 0 && BlockOf(s[k]) in released then 0 else s[k]
  }

  ghost predicate BlocksOk(blocks: seq<int>) {
    NoDup(blocks) && forall b | b in blocks :: IsBlock(b)
  }

  /** What the window scan over the sorted buffer s has established when it stands at position i. */
  ghost predicate Scanned(s: seq<int>, blocks: seq<int>, es: nat, released: seq<int>, i: nat)
    requires IsElemSize(es)
  {
    && NoDup(released)
    && (forall f | f in released :: f in blocks)
    && (forall a | IsSlot(blocks, es, a) && BlockOf(a) in released :: a in s)
    && (forall f, k | f in released && i <= k < |s| :: s[k] >= f + BLOCK_SIZE)
    && |released| * Slots(es) <= i
    && (released != [] ==> i < |s|)
  }

  lemma ScannedSkip(s: seq<int>, blocks: seq<int>, es: nat, released: seq<int>, i: nat)
    requires IsElemSize(es) && Scanned(s, blocks, es, released, i) && i + 1 < |s|
    ensures Scanned(s, blocks, es, released, i + 1)
  {
  }

  /** The first-slot/last-slot test of compact_mem, at position i of the sorted buffer. */
  ghost predicate Hit(s: seq<int>, blocks: seq<int>, es: nat, i: nat) {
    && IsElemSize(es) && SortedSlots(s, blocks, es) && BlocksOk(blocks) && i + Slots(es) < |s|
    && IsBlock(s[i]) && s[i + Slots(es) - 1] == s[i] + BLOCK_SIZE - es
  }

  lemma BeyondHit(s: seq<int>, blocks: seq<int>, es: nat, i: nat, k: nat)
    requires Hit(s, blocks, es, i) && i + Slots(es) <= k < |s|
    ensures s[k] >= s[i] + BLOCK_SIZE
  {
    assert s[i + Slots(es) - 1] < s[k];
    SlotsApart(es, s[i + Slots(es) - 1], s[k]);
  }

  /** On a hit, positions i.. hold slots of block s[i], and no other position does. */
  lemma HitIsTheBlock(s: seq<int>, blocks: seq<int>, es: nat, i: nat, k: nat)
    requires Hit(s, blocks, es, i) && k < |s| && s[k] != 0
    ensures BlockOf(s[k]) == s[i] <==> i <= k < i + Slots(es)
  {
    if i <= k < i + Slots(es) {
      WindowIsWholeBlock(s, blocks, es, i);
      assert s[i + (k - i)] == s[i] + (k - i) * es;
      SlotIn(es, s[i], k - i);
    } else if k < i {
      assert s[k] < s[i];
    } else {
      BeyondHit(s, blocks, es, i, k);
    }
  }

  lemma ScannedHit(s: seq<int>, blocks: seq<int>, es: nat, released: seq<int>, i: nat)
    requires Hit(s, blocks, es, i) && Scanned(s, blocks, es, released, i)
    ensures Scanned(s, blocks, es, released + [s[i]], i + Slots(es))
  {
    var b := s[i];
    assert BlockOf(b) == b && b in blocks;
    assert forall f | f in released :: s[i] >= f + BLOCK_SIZE;
    assert b !in released;
    forall k | i + Slots(es) <= k < |s|
      ensures s[k] >= b + BLOCK_SIZE
    {
      BeyondHit(s, blocks, es, i, k);
    }
    forall a | IsSlot(blocks, es, a) && BlockOf(a) == b
      ensures a in s
    {
      SlotOfWholeBlock(s, blocks, es, i, a);
    }
    assert (|released| + 1) * Slots(es) == |released| * Slots(es) + Slots(es);
  }

  /** Every hit before position i has been taken. */
  ghost predicate NoneMissed(s: seq<int>, blocks: seq<int>, es: nat, released: seq<int>, i: nat) {
    forall k: nat | k < i && Hit(s, blocks, es, k) :: s[k] in released
  }

  lemma NoneMissedSkip(s: seq<int>, blocks: seq<int>, es: nat, released: seq<int>, i: nat)
    requires NoneMissed(s, blocks, es, released, i) && !Hit(s, blocks, es, i)
    ensures NoneMissed(s, blocks, es, released, i + 1)
  {
    hide Hit;
  }

  /** Inside the window of a hit there is no other hit. */
  lemma NoneMissedHit(s: seq<int>, blocks: seq<int>, es: nat, released: seq<int>, i: nat)
    requires NoneMissed(s, blocks, es, released, i) && Hit(s, blocks, es, i)
    ensures NoneMissed(s, blocks, es, released + [s[i]], i + Slots(es))
  {
    forall k: nat | k < i + Slots(es) && Hit(s, blocks, es, k)
      ensures s[k] in released + [s[i]]
    {
      if i < k {
        HitIsTheBlock(s, blocks, es, i, k);
        assert false;
      }
    }
  }

  lemma ZeroedHit(before: seq<int>, after: seq<int>, s: seq<int>, blocks: seq<int>, es: nat, released: seq<int>, i: nat)
    requires Hit(s, blocks, es, i) && Zeroed(before, s, released) && |after| == |s|
    requires forall k | 0 <= k < |s| :: after[k] == if i <= k < i + Slots(es) then 0 else before[k]
    ensures Zeroed(after, s, released + [s[i]])
  {
    forall k | 0 <= k < |s|
      ensures after[k] == if s[k] != 0 && BlockOf(s[k]) in released + [s[i]] then 0 else s[k]
    {
      if s[k] != 0 {
        HitIsTheBlock(s, blocks, es, i, k);
      }
    }
  }

  method ZeroWindow(buf: array<int>, i: nat, n: nat)
    requires i + n <= buf.Length
    modifies buf
    ensures forall k | 0 <= k < buf.Length :: buf[..][k] == if i <= k < i + n then 0 else old(buf[..])[k]
  {
    forall k | i <= k < i + n {
      buf[k] := 0;
    }
  }

  lemma AheadUntouched(buf: seq<int>, s: seq<int>, blocks: seq<int>, es: nat, released: seq<int>, i: nat, k: nat)
    requires IsElemSize(es) && Scanned(s, blocks, es, released, i) && Zeroed(buf, s, released) && i <= k < |s|
    requires BlocksOk(blocks) && SortedSlots(s, blocks, es)
    ensures buf[k] == s[k] && (released != [] ==> s[k] != 0)
  {
    if released != [] {
      var f := released[0];
      assert f in released;
      assert f in blocks;
    }
  }

  /** NULL padding never passes the test: no slot has the address BLOCK_SIZE - elem_size. */
  lemma TestIsHit(s: seq<int>, blocks: seq<int>, es: nat, i: nat)
    requires IsElemSize(es) && SortedSlots(s, blocks, es) && BlocksOk(blocks) && i + Slots(es) < |s|
    requires s[i] % BLOCK_SIZE == 0 && s[i + Slots(es) - 1] == s[i] + BLOCK_SIZE - es
    ensures Hit(s, blocks, es, i)
  {
    SlotsFillBlock(es);
    assert s[i] == 0 || IsSlot(blocks, es, s[i]);
    assert s[i + Slots(es) - 1] == 0 || IsSlot(blocks, es, s[i + Slots(es) - 1]);
  }

  /** The scan of compact_mem: finds wholly free blocks in the sorted buffer and zeroes their windows. */
  method ReleaseWholeBlocks(buf: array<int>, es: nat, ghost blocks: seq<int>) returns (released: seq<int>)
    requires IsElemSize(es) && SortedSlots(buf[..], blocks, es) && BlocksOk(blocks)
    modifies buf
    ensures Zeroed(buf[..], old(buf[..]), released)
    ensures exists i: nat :: i <= buf.Length && Scanned(old(buf[..]), blocks, es, released, i)
    ensures NoneMissed(old(buf[..]), blocks, es, released, buf.Length)
  {
    hide IsSlot, BlockOf, Scanned, Zeroed, SortedSlots, BlocksOk, NoneMissed;
    ghost var s := buf[..];
    var n, i := Slots(es), 0;
    released := [];
    SlotsFillBlock(es);
    NothingScanned(s, blocks, es);
    while i < buf.Length - n
      invariant 0 <= i <= buf.Length
      invariant Zeroed(buf[..], s, released) && Scanned(s, blocks, es, released, i) &&
                NoneMissed(s, blocks, es, released, i)
    {
      AheadUntouched(buf[..], s, blocks, es, released, i, i);
      AheadUntouched(buf[..], s, blocks, es, released, i, i + n - 1);
      var v1, v2 := buf[i], buf[i + n - 1];
      if v1 % BLOCK_SIZE != 0 || v2 != v1 + BLOCK_SIZE - es {
        ScannedSkip(s, blocks, es, released, i);
        NoneMissedSkip(s, blocks, es, released, i);
        i := i + 1;
      } else {
        TestIsHit(s, blocks, es, i);
        ScannedHit(s, blocks, es, released, i);
        NoneMissedHit(s, blocks, es, released, i);
        ghost var before := buf[..];
        ZeroWindow(buf, i, n);
        ZeroedHit(before, buf[..], s, blocks, es, released, i);
        released := released + [v1];
        i := i + n;
      }
    }
    NoneMissedAtEnd(s, blocks, es, released, i);
  }

  lemma NoneMissedAtEnd(s: seq<int>, blocks: seq<int>, es: nat, released: seq<int>, i: nat)
    requires IsElemSize(es) && NoneMissed(s, blocks, es, released, i) && |s| - Slots(es) <= i
    ensures NoneMissed(s, blocks, es, released, |s|)
  {
    hide IsSlot, SortedSlots, BlocksOk;
  }

  lemma NothingScanned(s: seq<int>, blocks: seq<int>, es: nat)
    requires IsElemSize(es)
    ensures Scanned(s, blocks, es, [], 0) && Zeroed(s, s, []) && NoneMissed(s, blocks, es, [], 0)
  {
  }

  function At(s: seq<int>, k: nat): int {
    if k < |s| then s[k] else 0
  }

  ghost predicate Ascending(s: seq<int>) {
    forall j, k | 0 <= j < k < |s| :: s[j] == 0 || s[k] == 0 || s[j] < s[k]
  }

  /** Sorting the stack padded with NULLs gives NULLs, then the free slots in address order. */
  lemma SortedBuffer(free: seq<int>, padded: seq<int>, t: seq<int>, blocks: seq<int>, es: nat)
    requires IsElemSize(es) && NoDup(free) && |free| <= |padded|
    requires forall k | 0 <= k < |padded| :: padded[k] == At(free, k)
    requires forall a | a in free :: IsSlot(blocks, es, a)
    requires IsSorted(t) && multiset(t) == multiset(padded)
    ensures SortedSlots(t, blocks, es) && |t| == |padded|
    ensures forall a | a != 0 :: a in free <==> a in t
  {
    hide IsSlot;
    assert |t| == |multiset(t)| == |multiset(padded)|;
    SameElements(t, padded);
    forall a | a != 0
      ensures a in free <==> a in t
    {
      if a in free {
        var k :| 0 <= k < |free| && free[k] == a;
        assert padded[k] == a;
      }
    }
    forall j, k | 0 <= j < k < |t|
      ensures t[j] == 0 || t[j] < t[k]
    {
      if t[j] == t[k] && t[j] != 0 {
        TwiceCount(t, j, k);
        PaddedCount(free, padded, t[j]);
        assert false;
      }
      assert t[j] in t && t[j] <= t[k];
    }
    forall k | 0 <= k < |t|
      ensures t[k] == 0 || IsSlot(blocks, es, t[k])
    {
      assert t[k] in t;
    }
  }

  lemma PaddedCount(free: seq<int>, padded: seq<int>, a: int)
    requires NoDup(free) && |free| <= |padded| && a != 0
    requires forall k | 0 <= k < |padded| :: padded[k] == At(free, k)
    ensures multiset(padded)[a] <= 1
  {
    NoDupCount(free, a);
    var pad := padded[|free|..];
    assert padded == free + pad;
    assert a !in pad;
  }

  /** Slots of the blocks that survive are those whose block was not released. */
  lemma KeptSlots(blocks: seq<int>, released: seq<int>, es: nat, a: int)
    requires es > 0
    ensures IsSlot(Keep(blocks, released), es, a) <==> IsSlot(blocks, es, a) && BlockOf(a) !in released
  {
    KeepElements(blocks, released);
  }

  lemma {:induction false} KeepNothing(blocks: seq<int>)
    ensures Keep(blocks, []) == blocks
  {
    if blocks != [] {
      KeepNothing(blocks[..|blocks| - 1]);
    }
  }

  lemma KeptBlocksOk(blocks: seq<int>, released: seq<int>)
    requires BlocksOk(blocks)
    ensures BlocksOk(Keep(blocks, released))
  {
    KeepNoDup(blocks, released);
    KeepElements(blocks, released);
  }

  /** Free slots of surviving blocks that are no longer on the stack. */
  ghost function Forgotten(before: seq<int>, after: seq<int>, blocks: seq<int>): set<int> {
    set a | a in before && a !in after && BlockOf(a) in blocks
  }

  /** One compaction, seen as data: s is the sorted buffer, buf the zeroed one, cnt the lowered free_cnt. */
  datatype Compaction = Compaction(blocks: seq<int>, es: nat, released: seq<int>, s: seq<int>, buf: seq<int>,
                                   i: nat, cnt: nat, before: seq<int>, after: seq<int>)
  {
    ghost predicate Ok() {
      && IsElemSize(es) && BlocksOk(blocks) && SortedSlots(s, blocks, es)
      && i <= |s| && Scanned(s, blocks, es, released, i) && Zeroed(buf, s, released)
      && cnt == |s| - |released| * Slots(es) && NoneMissed(s, blocks, es, released, |s|)
      && (forall a | a != 0 :: a in before <==> a in s) && 0 !in before
      && (forall a :: a in after <==> a != 0 && a in buf[..cnt])
    }

    ghost function Kept(): seq<int> {
      Keep(blocks, released)
    }

    /** What is pushed back was free and lies in a surviving block. */
    lemma StackSubset(a: int)
      requires Ok() && a in after
      ensures a in before && a in s && BlockOf(a) !in released
    {
      hide NoneMissed, SortedSlots, Scanned, BlocksOk;
      var k :| 0 <= k < cnt && buf[k] == a;
      assert buf[k] == if s[k] != 0 && BlockOf(s[k]) in released then 0 else s[k];
    }

    /** No live or lost slot lies in a released block. */
    lemma Soundness(live: set<int>, lost: set<int>)
      requires Ok() && SizeClass.Partitioned(blocks, es, before, live, lost)
      ensures forall a | IsSlot(blocks, es, a) && BlockOf(a) !in Kept() :: a in before
      ensures forall a | a in after :: a in before && BlockOf(a) in Kept()
    {
      hide NoneMissed, SortedSlots, BlocksOk, Zeroed;
      KeepElements(blocks, released);
      forall a | a in after
        ensures a in before && BlockOf(a) in Kept()
      {
        StackSubset(a);
        assert IsSlot(blocks, es, a);
      }
    }

    lemma Partition(live: set<int>, lost: set<int>)
      requires Ok() && SizeClass.Partitioned(blocks, es, before, live, lost)
      ensures SizeClass.Partitioned(Kept(), es, after, live, lost + Forgotten(before, after, Kept()))
    {
      hide NoneMissed, Scanned, SortedSlots, BlocksOk, Zeroed;
      Soundness(live, lost);
      var lost' := lost + Forgotten(before, after, Kept());
      hide BlockOf;
      forall a
        ensures IsSlot(Kept(), es, a) <==> a in after || a in live || a in lost'
      {
        KeptSlots(blocks, released, es, a);
        assert IsSlot(blocks, es, a) <==> a in before || a in live || a in lost;
      }
    }

    /** The highest free slot is never zeroed and never within the lowered count. */
    lemma HighestIsForgotten()
      requires Ok() && released != []
      ensures s != [] && s[|s| - 1] in before && s[|s| - 1] !in after && BlockOf(s[|s| - 1]) in Kept()
    {
      KeepElements(blocks, released);
      ReleasedAreBlocks();
      assert released[0] in released;
      var last := |s| - 1;
      AheadUntouched(buf, s, blocks, es, released, i, last);
      assert s[last] in s;
      assert IsSlot(blocks, es, s[last]) && forall f | f in released :: s[last] >= f + BLOCK_SIZE;
      assert |released| * Slots(es) >= Slots(es) >= 1 by {
        SlotsFillBlock(es);
        MulMono(1, |released|, Slots(es));
      }
      forall k | 0 <= k < cnt
        ensures buf[k] != s[last]
      {
        assert s[k] == 0 || s[k] < s[last];
      }
    }

    /** Every free slot of the kept blocks stays on the stack exactly when there was no block to release. */
    lemma LossIff()
      requires Ok()
      ensures (forall a | a in before && BlockOf(a) in Kept() :: a in after) <==> !AnyReleasable(blocks, es, before)
      ensures !AnyReleasable(blocks, es, before) ==> Kept() == blocks && Forgotten(before, after, Kept()) == {}
    {
      hide NoneMissed, Zeroed, SortedSlots, Scanned, BlockOf, BlocksOk, Releasable;
      ReleasedExactly();
      if released == [] {
        KeepNothing(blocks);
        NothingLost();
      } else {
        ReleasedAreBlocks();
        var f, a := released[0], s[|s| - 1];
        assert f in released;
        assert Releasable(f, es, before);
        HighestIsForgotten();
        assert a in before && a !in after && BlockOf(a) in Kept();
      }
    }

    lemma ReleasedAreBlocks()
      requires Ok()
      ensures forall f | f in released :: f in blocks && f !in Kept()
    {
      hide NoneMissed, Zeroed, SortedSlots, BlocksOk;
      KeepElements(blocks, released);
    }

    /** All that a compaction does to the blocks, the stack and the lost slots. */
    lemma Effects(live: set<int>, lost: set<int>)
      requires Ok() && SizeClass.Partitioned(blocks, es, before, live, lost)
      ensures var lost' := lost + Forgotten(before, after, Kept());
              && SizeClass.Partitioned(Kept(), es, after, live, lost')
              && |lost'| <= |lost| + |released| * Slots(es)
              && (!AnyReleasable(blocks, es, before) ==> lost' == lost)
    {
      hide *;
      Partition(live, lost);
      LossIff();
      LostAreHighest();
      UnionSize(lost, Forgotten(before, after, Kept()));
    }

    lemma NothingLost()
      requires Ok() && released == []
      ensures forall a | a in before :: a in after
    {
      hide NoneMissed, SortedSlots, Scanned, BlocksOk;
      forall a | a in before
        ensures a in after
      {
        var k :| 0 <= k < |s| && s[k] == a;
        assert buf[k] == a;
      }
    }

    /** A block is released exactly when all of it is free and some free slot lies above it. */
    lemma ReleasedIff(b: int)
      requires Ok() && b in blocks
      ensures b !in Kept() <==> Releasable(b, es, before)
    {
      hide NoneMissed, Hit, SortedSlots, Zeroed;
      KeepElements(blocks, released);
      if b in released {
        forall a | BlockOf(a) == b && a % es == 0
          ensures a in before
        {
          assert IsSlot(blocks, es, a);
        }
        assert s[i] in s && s[i] >= b + BLOCK_SIZE;
      } else if Releasable(b, es, before) {
        WholeIsFound(b);
        assert false;
      }
    }

    lemma ReleasedExactly()
      requires Ok()
      ensures forall b | b in blocks :: b !in Kept() <==> Releasable(b, es, before)
    {
      hide Releasable, NoneMissed, Scanned, Zeroed, SortedSlots, BlocksOk;
      forall b | b in blocks
        ensures b !in Kept() <==> Releasable(b, es, before)
      {
        ReleasedIff(b);
      }
    }

    lemma WholeIsFound(b: int)
      requires Ok() && b in blocks && Releasable(b, es, before)
      ensures b in released
    {
      hide Scanned, Zeroed, Hit, NoneMissed;
      var n := Slots(es);
      SlotsFillBlock(es);
      BlockMultiple(es, b);
      forall j: nat | j < n
        ensures b + j * es in s
      {
        SlotIn(es, b, j);
      }
      var p := PositionOfFirst(b);
      var q := PositionAtLeast(b, p, n - 1);
      assert (n - 1) * es == BLOCK_SIZE - es;
      var a :| a in before && a >= b + BLOCK_SIZE;
      var r :| 0 <= r < |s| && s[r] == a;
      AtWindowEnd(b, p, q, r);
      assert NoneMissed(s, blocks, es, released, |s|) ==> b in released by { TakenAt(b, p); }
    }

    lemma PositionOfFirst(b: int) returns (p: nat)
      requires b in s
      ensures p < |s| && s[p] == b
    {
      p :| p < |s| && s[p] == b;
    }

    /** The slots of the block keep their order, so slot j is at least j positions behind the first. */
    lemma {:induction false} PositionAtLeast(b: int, p: nat, j: nat) returns (q: nat)
      requires IsElemSize(es) && SortedSlots(s, blocks, es) && p < |s| && s[p] == b > 0
      requires forall k: nat | k <= j :: b + k * es in s
      ensures p + j <= q < |s| && s[q] == b + j * es
    {
      if j == 0 {
        q := p;
      } else {
        var q' := PositionAtLeast(b, p, j - 1);
        q :| q < |s| && s[q] == b + j * es;
        assert j * es == (j - 1) * es + es;
        if q <= q' {
          assert false;
        }
      }
    }

    lemma AtWindowEnd(b: int, p: nat, q: nat, r: nat)
      requires IsElemSize(es) && BlocksOk(blocks) && SortedSlots(s, blocks, es) && b in blocks
      requires p + Slots(es) - 1 <= q < |s| && s[p] == b && s[q] == b + BLOCK_SIZE - es && r < |s| &&
               s[r] >= b + BLOCK_SIZE
      ensures Hit(s, blocks, es, p)
    {
      hide IsSlot;
      SlotsFillBlock(es);
      var n := Slots(es);
      WindowLowerBound(s, blocks, es, p, q - p);
      if q - p > n - 1 {
        MulMono(n, q - p, es);
        assert false;
      }
      if r <= q {
        assert false;
      }
    }

    lemma TakenAt(b: int, p: nat)
      requires NoneMissed(s, blocks, es, released, |s|) && p < |s| && s[p] == b && Hit(s, blocks, es, p)
      ensures b in released
    {
      hide Hit;
    }

    /** What is lost lies above everything that stays, and there is at most a block's worth of it per released block. */
    lemma LostAreHighest()
      requires Ok()
      ensures forall a, c | a in before && BlockOf(a) in Kept() && a !in after && c in after :: c < a
      ensures |Forgotten(before, after, Kept())| <= |released| * Slots(es)
    {
      hide NoneMissed, Scanned, BlocksOk;
      KeepElements(blocks, released);
      forall a | a in before && BlockOf(a) in Kept() && a !in after
        ensures a in buf[cnt..] && forall c | c in after :: c < a
      {
        var k :| 0 <= k < |s| && s[k] == a;
        assert buf[k] == a;
        assert k >= cnt by {
          assert buf[..cnt] + buf[cnt..] == buf;
        }
        assert buf[cnt..][k - cnt] == a;
        forall c | c in after
          ensures c < a
        {
          var j :| 0 <= j < cnt && buf[j] == c;
          assert s[j] == c;
        }
      }
      ElementsBound(buf[cnt..]);
      Subsize(Forgotten(before, after, Kept()), Elements(buf[cnt..]));
    }

    /** The free slots above the one at position k are those behind it in the sorted buffer. */
    lemma AboveCount(k: nat)
      requires Ok() && k < |s| && s[k] != 0
      ensures |Above(before, s[k])| == |s| - 1 - k
    {
      hide NoneMissed, Scanned, BlocksOk, Zeroed, BlockOf;
      var behind := s[k + 1..];
      assert IsSlot(blocks, es, s[k]);
      forall c
        ensures c in Above(before, s[k]) <==> c in behind
      {
        if c in before && c > s[k] {
          var j :| 0 <= j < |s| && s[j] == c;
          assert behind[j - k - 1] == c;
        }
        if c in behind {
          var j :| k < j < |s| && s[j] == c;
          assert c in s;
        }
      }
      assert Above(before, s[k]) == Elements(behind);
      forall i, j | 0 <= i < j < |behind|
        ensures behind[i] != behind[j]
      {
        assert s[k] < s[k + 1 + i] < s[k + 1 + j];
      }
      NoDupSize(behind);
    }

    /** A free slot of a kept block is forgotten exactly when it is among as many highest ones as were released. */
    lemma ForgottenIff(a: int)
      requires Ok() && a in before && BlockOf(a) in Kept()
      ensures a !in after <==> |Above(before, a)| < |released| * Slots(es)
    {
      KeepElements(blocks, released);
      hide NoneMissed, Scanned, BlocksOk, IsSlot, BlockOf;
      var k :| 0 <= k < |s| && s[k] == a;
      AboveCount(k);
      assert buf[k] == a;
      if k < cnt {
        assert buf[..cnt][k] == a;
      }
      forall j | 0 <= j < cnt && buf[j] == a
        ensures j == k
      {
        assert s[j] == a;
      }
    }

    lemma ForfeitExactly()
      requires Ok()
      ensures Forgotten(before, after, Kept()) == Forfeit(before, Kept(), |released| * Slots(es))
    {
      assert IsElemSize(es);
      hide Ok, Kept, Above, IsElemSize;
      forall a | a in before && BlockOf(a) in Kept()
        ensures a !in after <==> |Above(before, a)| < |released| * Slots(es)
      {
        ForgottenIff(a);
      }
    }
  }

  ghost function Above(free: seq<int>, a: int): set<int> {
    set c | c in free && c > a
  }

  /** The free slots of the blocks that are among the n highest free slots of all. */
  ghost function Forfeit(free: seq<int>, blocks: seq<int>, n: int): set<int> {
    set a | a in free && BlockOf(a) in blocks && |Above(free, a)| < n
  }

  ghost predicate AnyReleasable(blocks: seq<int>, es: nat, free: seq<int>)
    requires es > 0
  {
    exists b | b in blocks :: Releasable(b, es, free)
  }

  /** All of the block is free and some free slot lies above it. */
  ghost predicate Releasable(b: int, es: nat, free: seq<int>)
    requires es > 0
  {
    WhollyFree(b, es, free) && exists a | a in free :: a >= b + BLOCK_SIZE
  }

  ghost predicate WhollyFree(b: int, es: nat, free: seq<int>)
    requires es > 0
  {
    forall a | BlockOf(a) == b && a % es == 0 :: a in free
  }

  lemma {:induction false} ElementsBound(s: seq<int>)
    ensures |Elements(s)| <= |s|
  {
    if s != [] {
      ElementsBound(s[..|s| - 1]);
      assert Elements(s) == Elements(s[..|s| - 1]) + {s[|s| - 1]};
    }
  }

  lemma UnionSize(a: set<int>, b: set<int>)
    ensures |a + b| <= |a| + |b|
  {
    assert a + b == a + (b - a);
    Subsize(b - a, b);
  }

  lemma Subsize(a: set<int>, b: set<int>)
    requires a <= b
    ensures |a| <= |b|
  {
    assert b == a + (b - a);
  }

  /** The sizes and counters of one class: slots per block, blocks, stack, l_sfc's three counters, lost slots. */
  datatype Counters = Counters(slots: nat, blocks: nat, stack: nat, allocCnt: nat, freeCnt: nat, freeCalls: nat,
                               lost: nat)

  /** An allocation adds at most one block and loses nothing. */
  predicate AllocCounts(c: Counters, c': Counters) {
    c'.slots == c.slots && c.blocks <= c'.blocks <= c.blocks + 1 && c'.lost == c.lost && c'.freeCalls == c.freeCalls
  }

  /** A free adds no block, and only one that is due for a compaction can lose slots: a block's worth per block. */
  predicate FreeCounts(c: Counters, c': Counters) {
    && c'.slots == c.slots && c'.blocks <= c.blocks && c'.lost <= c.lost + (c.blocks - c'.blocks) * c.slots
    && if c'.freeCalls == c.freeCalls + 1 then c'.blocks == c.blocks && c'.lost == c.lost
       else c'.freeCalls == 0 && (c.freeCalls + 1) % BLOCK_SIZE == 0
  }

  /** What a compaction does to the blocks, the free slots and the lost slots of a class. */
  ghost predicate Compacted(es: nat, blocks0: seq<int>, free0: seq<int>, lost0: set<int>, blocks: seq<int>,
                            free: seq<int>, lost: set<int>)
    requires IsElemSize(es)
  {
    // a block is released if and only if all of it is free and some free slot lies above it
    && (forall b | b in blocks :: b in blocks0)
    && (forall b | b in blocks0 :: b !in blocks <==> Releasable(b, es, free0))
    && (forall a | a in free :: a in free0 && BlockOf(a) in blocks)
    // all free slots of the kept blocks stay available if and only if no block is released
    && ((forall a | a in free0 && BlockOf(a) in blocks :: a in free) <==> !AnyReleasable(blocks0, es, free0))
    && (!AnyReleasable(blocks0, es, free0) ==> blocks == blocks0 && lost == lost0)
    // what is lost: those of the highest free slots, a block's worth per released block, that are in kept blocks
    && |blocks| <= |blocks0| && lost == lost0 + Forfeit(free0, blocks, (|blocks0| - |blocks|) * Slots(es))
  }

  class SizeClass {
    const elemSize: nat
    var top: int
    var link: map<int, int>  // first word of each slot: the intrusive next pointer
    var blocks: seq<int>
    var allocCnt: nat
    var freeCnt: nat
    var freeCalls: nat
    ghost var free: seq<int>  // the stack, top first
    ghost var live: set<int>  // slots handed out
    ghost var lost: set<int>  // slots neither on the stack nor handed out

    ghost predicate Valid()
      reads this
    {
      && IsElemSize(elemSize)
      && BlocksOk(blocks)
      && Linked(top, link, free)
      && Partitioned(blocks, elemSize, free, live, lost)
      && |free| <= freeCnt
      && allocCnt == |blocks| * Slots(elemSize)
    }

    /** Every slot of every block is in exactly one of: the stack, the live set, the lost set. */
    static ghost predicate Partitioned(blocks: seq<int>, es: nat, free: seq<int>, live: set<int>, lost: set<int>)
      requires es > 0
    {
      && (forall a :: IsSlot(blocks, es, a) <==> a in free || a in live || a in lost)
      && (forall a | a in free :: a !in live && a !in lost)
      && live !! lost
    }

    constructor (es: nat)
      requires IsElemSize(es)
      ensures Valid() && elemSize == es && blocks == [] && free == [] && live == {} && lost == {}
      ensures freeCnt == freeCalls == 0
    {
      elemSize := es;
      top, link, blocks := 0, map[], [];
      allocCnt, freeCnt, freeCalls := 0, 0, 0;
      free, live, lost := [], {}, {};
    }

    /** l_stack_push */
    method Push(p: int)
      requires Linked(top, link, free) && p != 0 && p !in free
      modifies `top, `link, `free
      ensures Linked(top, link, free) && free == [p] + old(free)
    {
      link := link[p := top];
      top := p;
      free := [p] + free;
      assert free[1..] == old(free);
      forall i | 0 <= i < |free|
        ensures free[i] in link && link[free[i]] == Head(free[i + 1..])
      {
        if i > 0 {
          assert free[i] == old(free)[i - 1];
          assert free[i + 1..] == old(free)[i..];
        }
      }
    }

    /** l_stack_pop */
    method Pop() returns (p: int)
      requires Linked(top, link, free)
      modifies `top, `link, `free
      ensures Linked(top, link, free) && p == Head(old(free))
      ensures free == if old(free) == [] then [] else old(free)[1..]
    {
      p := top;
      if p != 0 {
        assert free[0] == p && link[p] == Head(free[1..]);
        top := link[p];
        link := link[p := 0];
        free := free[1..];
        forall i | 0 <= i < |free|
          ensures free[i] in link && link[free[i]] == Head(free[i + 1..])
        {
          assert free[i] == old(free)[i + 1] && free[i + 1..] == old(free)[i + 2..];
        }
      }
    }

    /** A caller may overwrite a slot it holds, link word included. */
    method OverwriteLive(a: int, v: int)
      requires Valid() && a in live
      modifies `link
      ensures Valid()
    {
      link := link[a := v];
    }

    /** __push_mem_block: every slot of the new block goes on the stack. */
    method PushBlock(m: int)
      requires IsElemSize(elemSize) && IsBlock(m) && Linked(top, link, free)
      requires forall a | a in free :: BlockOf(a) != m
      modifies `top, `link, `free
      ensures Linked(top, link, free) && |free| == |old(free)| + Slots(elemSize)
      ensures forall a :: a in free <==> a in old(free) || (BlockOf(a) == m && a % elemSize == 0)
    {
      hide BlockOf, Linked;
      var n, j := Slots(elemSize), 0;
      while j < n
        invariant 0 <= j <= n && Linked(top, link, free) && |free| == |old(free)| + j
        invariant forall a | a in old(free) :: a in free
        invariant forall a | a in free && a !in old(free) ::
                  BlockOf(a) == m && a % elemSize == 0 && a < m + j * elemSize
        invariant forall k: nat | k < j :: m + k * elemSize in free
      {
        SlotIn(elemSize, m, j);
        ghost var before := free;
        Push(m + j * elemSize);
        assert forall a | a in before :: a in free;
        assert (j + 1) * elemSize == j * elemSize + elemSize;
        assert free[0] == m + j * elemSize;
        j := j + 1;
      }
      forall a | BlockOf(a) == m && a % elemSize == 0
        ensures a in free
      {
        var k := SlotIndex(elemSize, m, a);
      }
    }

    /** Pops a slot and hands it out; 0 when the stack is empty. */
    method TakeTop() returns (p: int)
      requires Valid()
      modifies `top, `link, `free, `live
      ensures Valid() && p == Head(old(free)) && (p == 0 <==> old(free) == [])
      ensures p == 0 ==> free == [] && live == old(live)
      ensures p != 0 ==> free == old(free)[1..]
      ensures p != 0 ==> p !in old(live) && live == old(live) + {p} && IsSlot(blocks, elemSize, p)
    {
      p := Pop();
      if p != 0 {
        assert p == old(free)[0] && p in old(free);
        assert forall a :: a in old(free) <==> a == p || a in free;
        live := live + {p};
      }
    }

    /** __add_mem_block, __push_mem_block and the counters. */
    method AddBlock(m: int)
      requires Valid() && IsBlock(m) && m !in blocks
      modifies `top, `link, `free, `blocks, `allocCnt, `freeCnt
      ensures Valid() && blocks == old(blocks) + [m] && free != [] && freeCnt == old(freeCnt) + Slots(elemSize)
    {
      hide Linked, BlockOf, Slots;
      blocks := blocks + [m];
      assert forall a | a in free :: IsSlot(old(blocks), elemSize, a);
      PushBlock(m);
      allocCnt := allocCnt + Slots(elemSize);
      freeCnt := freeCnt + Slots(elemSize);
      SlotsFillBlock(elemSize);
      BlockJoins(old(blocks), m, old(free), free);
      MulNext(|old(blocks)|, Slots(elemSize));
    }

    lemma BlockJoins(blocks0: seq<int>, m: int, free0: seq<int>, free1: seq<int>)
      requires elemSize > 0 && Partitioned(blocks0, elemSize, free0, live, lost) && IsBlock(m) && m !in blocks0
      requires forall a :: a in free1 <==> a in free0 || (BlockOf(a) == m && a % elemSize == 0)
      ensures Partitioned(blocks0 + [m], elemSize, free1, live, lost)
    {
      forall a
        ensures IsSlot(blocks0 + [m], elemSize, a) <==> a in free1 || a in live || a in lost
        ensures a in free1 ==> a !in live && a !in lost
      {
        assert IsSlot(blocks0 + [m], elemSize, a) <==>
               IsSlot(blocks0, elemSize, a) || (BlockOf(a) == m && a % elemSize == 0);
      }
    }

    static lemma MulNext(count: nat, slots: nat)
      ensures (count + 1) * slots == count * slots + slots
    {
    }

    /** The body of __l_alloc for this class; m is what posix_memalign would return. */
    method Alloc(m: int) returns (p: int)
      requires Valid() && IsBlock(m) && m !in blocks
      modifies this
      ensures Valid() && p !in old(live) && live == old(live) + {p} && lost == old(lost)
      ensures IsSlot(blocks, elemSize, p)
      ensures blocks == if old(free) == [] then old(blocks) + [m] else old(blocks)
      ensures old(free) != [] ==> p == old(free)[0] && free == old(free)[1..] && freeCnt == old(freeCnt)
      ensures old(free) == [] ==> freeCnt == old(freeCnt) + Slots(elemSize)
      ensures AllocCounts(old(Counts()), Counts()) && freeCalls == old(freeCalls)
    {
      p := TakeTop();
      if p == 0 {
        AddBlock(m);
        p := TakeTop();
      }
    }

    /** __compact_mem_copy_to_sort_buff */
    method CopyToSortBuffer(buf: array<int>)
      requires Linked(top, link, free)
      modifies buf
      ensures forall k | 0 <= k < buf.Length :: buf[..][k] == At(free, k)
    {
      var p, i := top, 0;
      while i < buf.Length
        invariant 0 <= i <= buf.Length && p == At(free, i)
        invariant forall k | 0 <= k < i :: buf[k] == At(free, k)
      {
        buf[i] := p;
        if p != 0 {
          assert free[i] == p && link[p] == Head(free[i + 1..]);
          p := link[p];
        }
        i := i + 1;
      }
    }

    /** __sort_stack: rebuilds the stack from the first cnt entries of the buffer. */
    method SortStack(buf: array<int>, cnt: nat)
      requires cnt <= buf.Length && Ascending(buf[..])
      modifies `top, `link, `free
      ensures Linked(top, link, free) && |free| <= cnt
      ensures forall a :: a in free <==> a != 0 && a in buf[..cnt]
      ensures forall i, j | 0 <= i < j < |free| :: free[i] > free[j]
    {
      hide Linked;
      top, free := 0, [];
      var i := 0;
      EmptyStack();
      while i < cnt
        invariant 0 <= i <= cnt && Linked(top, link, free) && |free| <= i
        invariant forall a :: a in free <==> a != 0 && a in buf[..i]
        invariant forall j, k | 0 <= j < k < |free| :: free[j] > free[k]
      {
        var n := buf[i];
        assert buf[..i + 1] == buf[..i] + [n];
        if n != 0 {
          assert forall a | a in free :: a < n by {
            forall a | a in free ensures a < n {
              var k :| 0 <= k < i && buf[k] == a;
              assert buf[..][k] == 0 || buf[..][i] == 0 || buf[..][k] < buf[..][i];
            }
          }
          ghost var before := free;
          Push(n);
          assert forall k | 0 <= k < |before| :: before[k] in before;
        }
        i := i + 1;
      }
    }

    lemma EmptyStack()
      requires top == 0 && free == []
      ensures Linked(top, link, free)
    {
    }

    /** compact_mem */
    method CompactMem()
      requires Valid()
      modifies this
      ensures Valid() && live == old(live) && freeCalls == old(freeCalls)
      ensures Compacted(elemSize, old(blocks), old(free), old(lost), blocks, free, lost)
      // a released block was wholly free: no live chunk lies in it
      ensures forall a | IsSlot(old(blocks), elemSize, a) && BlockOf(a) !in blocks :: a in old(free)
      ensures freeCnt == old(freeCnt) - (|old(blocks)| - |blocks|) * Slots(elemSize)
      // what is lost lies above everything that stays, at most a block's worth per released block
      ensures forall a, c | a in old(free) && BlockOf(a) in blocks && a !in free && c in free :: c < a
      ensures |lost| <= |old(lost)| + (|old(blocks)| - |blocks|) * Slots(elemSize)
      ensures forall i, j | 0 <= i < j < |free| :: free[i] > free[j]
    {
      hide Linked, IsSlot, BlockOf, Scanned, Zeroed, SortedSlots, Keep, Partitioned, Ascending, Forgotten, IsElemSize,
          Slots, NoneMissed, Releasable, AnyReleasable, Forfeit;
      ghost var free0, blocks0 := free, blocks;
      var buf, released, s, i := FindFreeBlocks();
      ReleasedOk(s, released, i);
      Rebuild(buf, released);
      ghost var c := Compaction(blocks0, elemSize, released, s, buf[..], i, freeCnt, free0, free);
      assert c.Ok() && blocks == c.Kept();
      hide Compaction.Ok, Compaction.Kept;
      c.Effects(live, lost);
      c.Soundness(live, lost);
      c.LossIff();
      c.LostAreHighest();
      c.ReleasedExactly();
      c.ForfeitExactly();
      lost := lost + Forgotten(free0, free, blocks);
      KeptBlocksOk(blocks0, released);
      KeepElements(blocks0, released);
      KeptCounters(|blocks0|, |blocks|, |released|);
    }

    /** The second half of compact_mem: the block list, the counters, and the stack from the zeroed buffer. */
    method Rebuild(buf: array<int>, released: seq<int>)
      requires IsElemSize(elemSize) && buf.Length == freeCnt && Ascending(buf[..]) && 0 !in blocks
      requires NoDup(blocks) && NoDup(released) && forall f | f in released :: f in blocks
      requires |released| * Slots(elemSize) <= freeCnt && |released| * Slots(elemSize) <= allocCnt
      modifies `blocks, `top, `link, `free, `allocCnt, `freeCnt
      ensures blocks == Keep(old(blocks), released) && |blocks| == |old(blocks)| - |released|
      ensures allocCnt == old(allocCnt) - |released| * Slots(elemSize) &&
              freeCnt == old(freeCnt) - |released| * Slots(elemSize)
      ensures Linked(top, link, free) && |free| <= freeCnt <= buf.Length && forall a :: a in free <==>
              a != 0 && a in buf[..freeCnt]
      ensures forall i, j | 0 <= i < j < |free| :: free[i] > free[j]
    {
      hide Linked, Keep, Ascending, Slots;
      KeepNothing(blocks);
      if |released| > 0 {
        blocks := RetainBlocks(blocks, released);
        SortStack(buf, freeCnt);
        allocCnt := allocCnt - |released| * Slots(elemSize);
        freeCnt := freeCnt - |released| * Slots(elemSize);
      }
      SortStack(buf, freeCnt);
    }

    lemma KeptCounters(before: nat, after: nat, released: nat)
      requires IsElemSize(elemSize) && after == before - released
      ensures before * Slots(elemSize) - released * Slots(elemSize) == after * Slots(elemSize)
      ensures before - after == released && (before - after) * Slots(elemSize) == released * Slots(elemSize)
    {
    }

    /** The first half of compact_mem: copy, sort, scan. Nothing of the class changes yet. */
    method FindFreeBlocks() returns (buf: array<int>, released: seq<int>, ghost s: seq<int>, ghost i: nat)
      requires Valid()
      ensures fresh(buf) && buf.Length == freeCnt == |s| && i <= |s|
      ensures SortedSlots(s, blocks, elemSize) && Scanned(s, blocks, elemSize, released, i)
      ensures Zeroed(buf[..], s, released) && Ascending(buf[..])
      ensures (forall a | a != 0 :: a in free <==> a in s) && 0 !in free
      ensures NoneMissed(s, blocks, elemSize, released, |s|)
    {
      hide IsSlot, BlockOf, Scanned, Zeroed, SortedSlots, Ascending, NoneMissed;
      buf := new int[freeCnt];
      CopyToSortBuffer(buf);
      ghost var padded := buf[..];
      Qsort(buf);
      s := buf[..];
      StackNoDup();
      SortedBuffer(free, padded, s, blocks, elemSize);
      released := ReleaseWholeBlocks(buf, elemSize, blocks);
      i :| i <= buf.Length && Scanned(s, blocks, elemSize, released, i);
      BufferAscending(buf[..], s, released);
    }

    lemma ReleasedOk(s: seq<int>, released: seq<int>, i: nat)
      requires Valid() && Scanned(s, blocks, elemSize, released, i) && |s| == freeCnt && i <= |s|
      ensures NoDup(released) && (forall f | f in released :: f in blocks) && 0 !in blocks
      ensures |released| * Slots(elemSize) <= freeCnt && |released| * Slots(elemSize) <= allocCnt
    {
      hide IsSlot, BlockOf, Partitioned, Linked, Slots;
      KeepCount(blocks, released);
      MulSplit(|Keep(blocks, released)|, |released|, Slots(elemSize));
    }

    static lemma MulSplit(kept: nat, released: nat, slots: nat)
      ensures released * slots <= (kept + released) * slots
    {
    }

    lemma StackNoDup()
      requires Linked(top, link, free)
      ensures NoDup(free) && 0 !in free
    {
    }

    lemma BufferAscending(buf: seq<int>, s: seq<int>, released: seq<int>)
      requires IsElemSize(elemSize) && SortedSlots(s, blocks, elemSize) && Zeroed(buf, s, released)
      ensures Ascending(buf)
    {
    }

    /** When __l_free compacts: every BLOCK_SIZE-th call, with over 16 blocks and over 99% of the slots counted free. */
    predicate Compacts()
      reads this
    {
      (freeCalls + 1) % BLOCK_SIZE == 0 && |blocks| > 16 && freeCnt + 1 > allocCnt * 990 / 1000
    }

    ghost function Counts(): Counters
      requires IsElemSize(elemSize)
      reads this
    {
      Counters(Slots(elemSize), |blocks|, |free|, allocCnt, freeCnt, freeCalls, |lost|)
    }

    /** The body of __l_free for this class, with its compaction trigger. */
    method FreeSlot(p: int)
      requires Valid() && p in live
      modifies this
      ensures Valid() && live == old(live) - {p}
      ensures freeCalls == if old(Compacts()) then 0 else old(freeCalls) + 1
      ensures forall b | b in blocks :: b in old(blocks)
      ensures !old(Compacts()) ==>
              blocks == old(blocks) && free == [p] + old(free) && lost == old(lost) && freeCnt == old(freeCnt) + 1
      ensures old(Compacts()) ==>
              Compacted(elemSize, old(blocks), [p] + old(free), old(lost), blocks, free, lost)
      // all free slots of the kept blocks stay available unless a compaction is due and finds a block to release
      ensures (forall a | a in [p] + old(free) && BlockOf(a) in blocks :: a in free) <==>
              !(old(Compacts()) && AnyReleasable(old(blocks), elemSize, [p] + old(free)))
      ensures FreeCounts(old(Counts()), Counts())
    {
      hide IsElemSize, BlockOf, Slots, Releasable, AnyReleasable, Forfeit, BlocksOk, Linked, Partitioned, FreeCounts;
      ghost var c := Counts();
      TakeBack(p);
      if freeCalls % BLOCK_SIZE == 0 && |blocks| > 16 && freeCnt > allocCnt * 990 / 1000 {
        CompactMem();
        freeCalls := 0;
        FreeCountsCompacted(c, Counts());
      } else {
        FreeCountsKept(c, Counts());
      }
    }

    static lemma FreeCountsKept(c: Counters, c': Counters)
      requires c'.slots == c.slots && c'.blocks == c.blocks && c'.lost == c.lost && c'.freeCalls == c.freeCalls + 1
      ensures FreeCounts(c, c')
    {
    }

    static lemma FreeCountsCompacted(c: Counters, c': Counters)
      requires c'.slots == c.slots && c'.blocks <= c.blocks && c'.lost <= c.lost + (c.blocks - c'.blocks) * c.slots
      requires c'.freeCalls == 0 && (c.freeCalls + 1) % BLOCK_SIZE == 0
      ensures FreeCounts(c, c')
    {
    }

    /** l_stack_push and the counters of __l_free. */
    method TakeBack(p: int)
      requires Valid() && p in live
      modifies `top, `link, `free, `live, `freeCnt, `freeCalls
      ensures Valid() && live == old(live) - {p} && free == [p] + old(free)
      ensures freeCnt == old(freeCnt) + 1 && freeCalls == old(freeCalls) + 1
    {
      assert IsSlot(blocks, elemSize, p);
      Push(p);
      live := live - {p};
      freeCnt := freeCnt + 1;
      freeCalls := freeCalls + 1;
      assert Partitioned(blocks, elemSize, free, live, lost);
    }
  }
}
