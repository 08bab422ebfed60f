/**
 Size classes and the geometry of blocks. Memory blocks are BLOCK_SIZE bytes, aligned to
 BLOCK_SIZE, and cut into equal slots; NULL is address 0. The pigeonhole argument behind
 the compactor's first-slot/last-slot test is WindowIsWholeBlock.
 */
module SlabLayout {

  const BLOCK_SIZE := 262144
  const MIN_ELEM_SIZE := 8
  const MID_ELEM_SIZE := 32
  const MAX_ELEM_SIZE := 256
  const ARRAY_MID := 3
  const ARRAY_LEN := 6

  /** elem_size of class i: MIN_ELEM_SIZE doubled i times. */
  function ElemSize(i: nat): nat {
    if i == 0 then MIN_ELEM_SIZE else 2 * ElemSize(i - 1)
  }

  predicate IsElemSize(es: nat) {
    es == 8 || es == 16 || es == 32 || es == 64 || es == 128 || es == 256
  }

  lemma ElemSizes()
    ensures ElemSize(0) == 8 && ElemSize(1) == 16 && ElemSize(2) == 32
    ensures ElemSize(3) == 64 && ElemSize(4) == 128 && ElemSize(5) == 256
  {
    assert ElemSize(1) == 2 * ElemSize(0);
    assert ElemSize(2) == 2 * ElemSize(1);
    assert ElemSize(3) == 2 * ElemSize(2);
    assert ElemSize(4) == 2 * ElemSize(3);
    assert ElemSize(5) == 2 * ElemSize(4);
  }

  function Slots(es: nat): nat
    requires IsElemSize(es)
  {
    BLOCK_SIZE / es
  }

  lemma SlotsFillBlock(es: nat)
    requires IsElemSize(es)
    ensures Slots(es) * es == BLOCK_SIZE && Slots(es) >= 1024
  {
  }

  /** The search loop shared by __l_alloc and __l_free: both pick the smallest class that fits. */
  method SelectClass(size: nat) returns (i: nat)
    requires size <= MAX_ELEM_SIZE
    ensures i < ARRAY_LEN && size <= ElemSize(i)
    ensures forall j: nat :: j < i ==> ElemSize(j) < size
  {
    ElemSizes();
    i := ARRAY_LEN - 1;
    if size <= MID_ELEM_SIZE {
      i := ARRAY_MID - 1;
    }
    while !(size * 2 > ElemSize(i) || i == 0)
      invariant i < ARRAY_LEN && size <= ElemSize(i)
    {
      i := i - 1;
    }
    ElemSizeMonotone(i);
  }

  lemma {:induction false} ElemSizeMonotone(i: nat)
    ensures forall j: nat :: j < i ==> 2 * ElemSize(j) <= ElemSize(i)
  {
    if i > 0 {
      ElemSizeMonotone(i - 1);
    }
  }

  // ----- slots -----

  function BlockOf(a: int): int {
    a - a % BLOCK_SIZE
  }

  predicate IsBlock(b: int) {
    b > 0 && b % BLOCK_SIZE == 0
  }

  /** a is the address of a slot of one of the given blocks. */
  predicate IsSlot(blocks: seq<int>, es: nat, a: int)
    requires es > 0
  {
    a > 0 && BlockOf(a) in blocks && a % es == 0
  }

  lemma SlotIn(es: nat, b: int, k: nat)
    requires IsElemSize(es) && IsBlock(b) && k < Slots(es)
    ensures BlockOf(b + k * es) == b && (b + k * es) % es == 0 && b + k * es > 0
    ensures b + k * es + es <= b + BLOCK_SIZE
  {
    SlotsFillBlock(es);
    assert 0 <= k * es && (k + 1) * es <= Slots(es) * es;
    BlockMultiple(es, b);
    ModOfSum(b, k, es);
  }

  lemma BlocksApart(x: int, y: int)
    requires x % BLOCK_SIZE == 0 && y % BLOCK_SIZE == 0 && x != y
    ensures x + BLOCK_SIZE <= y || y + BLOCK_SIZE <= x
  {
  }

  lemma BlockMultiple(es: nat, b: int)
    requires IsElemSize(es) && b % BLOCK_SIZE == 0
    ensures b % es == 0
  {
    SlotsFillBlock(es);
    var q := b / BLOCK_SIZE;
    assert b == q * (Slots(es) * es) == (q * Slots(es)) * es;
    MultipleMod(q * Slots(es), es);
  }

  lemma ModOfSum(b: int, k: int, es: nat)
    requires es > 0 && b % es == 0
    ensures (b + k * es) % es == 0
  {
    var q := b / es;
    assert b == q * es;
    assert b + k * es == (q + k) * es;
    MultipleMod(q + k, es);
  }

  lemma MultipleMod(q: int, es: nat)
    requires es > 0
    ensures (q * es) % es == 0 && (q * es) / es == q
  {
    var x := q * es;
    var d := x / es;
    assert x == d * es + x % es;
    if d < q {
      MulMono(d + 1, q, es);
      assert false;
    }
    if d > q {
      MulMono(q + 1, d, es);
      assert false;
    }
  }

  lemma MulMono(x: int, y: int, es: nat)
    requires x <= y
    ensures x * es <= y * es
  {
  }

  /** Two different slots of one size are at least that size apart. */
  lemma SlotsApart(es: nat, a: int, c: int)
    requires es > 0 && a % es == 0 && c % es == 0 && a < c
    ensures a + es <= c
  {
    var qa, qc := a / es, c / es;
    assert a == qa * es && c == qc * es;
    if qc <= qa {
      MulMono(qc, qa, es);
      assert false;
    }
    MulMono(qa + 1, qc, es);
  }

  /** Slots never straddle blocks and slots of different blocks do not overlap. */
  lemma SlotInsideBlock(es: nat, a: int)
    requires IsElemSize(es) && a % es == 0
    ensures BlockOf(a) <= a && a + es <= BlockOf(a) + BLOCK_SIZE
  {
    var end := BlockOf(a) + BLOCK_SIZE;
    BlockMultiple(es, end);
    SlotsApart(es, a, end);
  }

  // ----- the compactor's sorted buffer -----

  /** NULL padding first, then distinct slot addresses in increasing order. */
  ghost predicate SortedSlots(s: seq<int>, blocks: seq<int>, es: nat)
    requires es > 0
  {
    && (forall k | 0 <= k < |s| :: s[k] == 0 || IsSlot(blocks, es, s[k]))
    && (forall j, k | 0 <= j < k < |s| :: s[j] == 0 || s[j] < s[k])
  }

  lemma {:induction false} WindowLowerBound(s: seq<int>, blocks: seq<int>, es: nat, i: nat, j: nat)
    requires es > 0 && SortedSlots(s, blocks, es) && i + j < |s| && s[i] > 0
    ensures s[i + j] >= s[i] + j * es
  {
    if j > 0 {
      WindowLowerBound(s, blocks, es, i, j - 1);
      assert s[i + j - 1] < s[i + j];
      SlotsApart(es, s[i + j - 1], s[i + j]);
      assert j * es == (j - 1) * es + es;
    }
  }

  /**
   If the first slot of a block and, Slots(es) - 1 positions later, its last slot appear in
   the sorted buffer, then the positions between hold every slot of the block, in order.
   */
  lemma WindowIsWholeBlock(s: seq<int>, blocks: seq<int>, es: nat, i: nat)
    requires IsElemSize(es) && SortedSlots(s, blocks, es) && i + Slots(es) <= |s|
    requires IsBlock(s[i]) && s[i + Slots(es) - 1] == s[i] + BLOCK_SIZE - es
    ensures forall j: nat :: j < Slots(es) ==> s[i + j] == s[i] + j * es
  {
    var n := Slots(es);
    SlotsFillBlock(es);
    forall j: nat | j < n
      ensures s[i + j] == s[i] + j * es
    {
      WindowLowerBound(s, blocks, es, i, j);
      assert s[i + j] > 0 by { assert j * es >= 0; }
      WindowLowerBound(s, blocks, es, i + j, n - 1 - j);
      assert n * es == j * es + (n - 1 - j) * es + es;
    }
  }

  /** Hence every slot of that block is in the window. */
  lemma SlotOfWholeBlock(s: seq<int>, blocks: seq<int>, es: nat, i: nat, a: int)
    requires IsElemSize(es) && SortedSlots(s, blocks, es) && i + Slots(es) <= |s|
    requires IsBlock(s[i]) && s[i + Slots(es) - 1] == s[i] + BLOCK_SIZE - es
    requires IsSlot(blocks, es, a) && BlockOf(a) == s[i]
    ensures a in s[i..i + Slots(es)]
  {
    var k := SlotIndex(es, s[i], a);
    WindowIsWholeBlock(s, blocks, es, i);
    assert s[i..i + Slots(es)][k] == a;
  }

  lemma SlotIndex(es: nat, b: int, a: int) returns (k: nat)
    requires IsElemSize(es) && IsBlock(b) && BlockOf(a) == b && a % es == 0
    ensures k < Slots(es) && a == b + k * es
  {
    SlotsFillBlock(es);
    BlockMultiple(es, b);
    DifferenceMod(a, b, es);
    var q := (a - b) / es;
    QuotientBound(q, Slots(es), es);
    k := q;
  }

  lemma DifferenceMod(a: int, b: int, es: nat)
    requires es > 0 && a % es == 0 && b % es == 0
    ensures (a - b) % es == 0
  {
    var qa, qb := a / es, b / es;
    assert a - b == (qa - qb) * es;
    MultipleMod(qa - qb, es);
  }

  lemma QuotientBound(k: int, n: nat, es: nat)
    requires es > 0 && 0 <= k * es < n * es
    ensures 0 <= k < n
  {
    if k < 0 {
      MulMono(k, -1, es);
      assert false;
    }
    if k >= n {
      MulMono(n, k, es);
      assert false;
    }
  }
}
