/** Sorting of the compactor's pointer buffer, and counting facts about sequences of addresses. */
module SlabSorting {
  import opened Sequences

  predicate IsSorted(s: seq<int>) {
    forall i, j | 0 <= i < j < |s| :: s[i] <= s[j]
  }

  function Insert(x: int, s: seq<int>): (r: seq<int>)
    requires IsSorted(s)
    ensures IsSorted(r) && multiset(r) == multiset(s) + multiset{x}
    ensures forall y | y in r :: y == x || y in s
  {
    if s == [] || x <= s[0] then
      [x] + s
    else
      var r := Insert(x, s[1..]);
      InsertBehind(x, s, r);
      [s[0]] + r
  }

  lemma InsertBehind(x: int, s: seq<int>, r: seq<int>)
    requires s != [] && s[0] < x && IsSorted(s) && IsSorted(r) && multiset(r) == multiset(s[1..]) + multiset{x}
    ensures IsSorted([s[0]] + r) && multiset([s[0]] + r) == multiset(s) + multiset{x}
  {
    assert s == [s[0]] + s[1..];
    forall k | 0 <= k < |r|
      ensures s[0] <= r[k]
    {
      assert r[k] in multiset(r);
      assert r[k] == x || r[k] in s[1..];
    }
  }

  function Sort(s: seq<int>): (r: seq<int>)
    ensures IsSorted(r) && multiset(r) == multiset(s)
  {
    if s == [] then []
    else
      assert s == [s[0]] + s[1..];
      Insert(s[0], Sort(s[1..]))
  }

  /** Stands for qsort() with cmpptr, on addresses that cmpptr orders as numbers. */
  method Qsort(a: array<int>)
    modifies a
    ensures IsSorted(a[..]) && multiset(a[..]) == multiset(old(a[..]))
  {
    var r := Sort(a[..]);
    assert |r| == |multiset(r)| == |multiset(a[..])| == a.Length;
    forall i | 0 <= i < a.Length {
      a[i] := r[i];
    }
    assert a[..] == r;
  }

  lemma {:induction false} NoDupCount(s: seq<int>, a: int)
    requires NoDup(s)
    ensures multiset(s)[a] <= 1
  {
    if s != [] {
      var t := s[..|s| - 1];
      assert s == t + [s[|s| - 1]];
      NoDupCount(t, a);
      if s[|s| - 1] == a {
        assert a !in t;
      }
    }
  }

  lemma TwiceCount(s: seq<int>, i: nat, j: nat)
    requires i < j < |s| && s[i] == s[j]
    ensures multiset(s)[s[i]] >= 2
  {
    assert s == s[..j] + s[j..];
    assert s[..j][i] == s[i] && s[j..][0] == s[i];
    assert multiset(s) == multiset(s[..j]) + multiset(s[j..]);
  }

  lemma SameElements(s: seq<int>, t: seq<int>)
    requires multiset(s) == multiset(t)
    ensures forall a :: a in s <==> a in t
  {
    forall a
      ensures a in s <==> a in t
    {
      assert a in s <==> multiset(s)[a] > 0;
      assert a in t <==> multiset(t)[a] > 0;
    }
  }

  ghost function Elements(s: seq<int>): set<int> {
    set a | a in s
  }

  lemma {:induction false} NoDupSize(s: seq<int>)
    requires NoDup(s)
    ensures |Elements(s)| == |s|
  {
    if s != [] {
      var t, x := s[..|s| - 1], s[|s| - 1];
      NoDupSize(t);
      assert Elements(s) == Elements(t) + {x};
      assert x !in t;
    }
  }

  // ----- the block list after compaction -----

  /** The blocks that are not among the released ones, in order. */
  function Keep(blocks: seq<int>, released: seq<int>): seq<int> {
    if blocks == [] then []
    else
      var rest := Keep(blocks[..|blocks| - 1], released);
      var b := blocks[|blocks| - 1];
      if b in released then rest else rest + [b]
  }

  lemma {:induction false} KeepElements(blocks: seq<int>, released: seq<int>)
    ensures forall b :: b in Keep(blocks, released) <==> b in blocks && b !in released
  {
    if blocks != [] {
      KeepElements(blocks[..|blocks| - 1], released);
      assert blocks == blocks[..|blocks| - 1] + [blocks[|blocks| - 1]];
    }
  }

  lemma {:induction false} KeepNoDup(blocks: seq<int>, released: seq<int>)
    requires NoDup(blocks)
    ensures NoDup(Keep(blocks, released))
  {
    if blocks != [] {
      var t, x := blocks[..|blocks| - 1], blocks[|blocks| - 1];
      KeepNoDup(t, released);
      KeepElements(t, released);
      assert x !in t;
    }
  }

  /** Each released block takes exactly one pointer out of the list. */
  lemma KeepCount(blocks: seq<int>, released: seq<int>)
    requires NoDup(blocks) && NoDup(released) && forall f | f in released :: f in blocks
    ensures |Keep(blocks, released)| == |blocks| - |released|
  {
    KeepElements(blocks, released);
    KeepNoDup(blocks, released);
    NoDupSize(blocks);
    NoDupSize(released);
    NoDupSize(Keep(blocks, released));
    assert Elements(Keep(blocks, released)) == Elements(blocks) - Elements(released);
    assert Elements(released) <= Elements(blocks);
  }

  /** The nested loops that copy the surviving block pointers. */
  method RetainBlocks(blocks: seq<int>, released: seq<int>) returns (kept: seq<int>)
    requires 0 !in blocks
    requires NoDup(blocks) && NoDup(released) && forall f | f in released :: f in blocks
    ensures kept == Keep(blocks, released) && |kept| == |blocks| - |released|
  {
    kept := [];
    var i := 0;
    while i < |blocks|
      invariant 0 <= i <= |blocks| && kept == Keep(blocks[..i], released)
    {
      var block := blocks[i];
      var j := 0;
      while j < |released|
        invariant 0 <= j <= |released|
        invariant block == (if blocks[i] in released[..j] then 0 else blocks[i])
        invariant block == 0 ==> j == |released|
      {
        if released[j] == block {
          block := 0;
          assert blocks[i] in released[..];
          j := |released|;
        } else {
          j := j + 1;
        }
      }
      assert released[..j] == released;
      assert blocks[..i + 1][..i] == blocks[..i];
      if block != 0 {
        kept := kept + [block];
      }
      i := i + 1;
    }
    assert blocks[..i] == blocks;
    KeepCount(blocks, released);
  }
}
