/** The growable pointer array (LPtrArray) that holds packets, sessions and result sets. */
module PtrArrays {

  ghost predicate IsPowerOf2(i: nat) {
    i == 1 || (i > 1 && i % 2 == 0 && IsPowerOf2(i / 2))
  }

  /** l_near_pow_2: the smallest power of two that is at least n. */
  method NearPow2(n: nat) returns (i: nat)
    ensures IsPowerOf2(i) && n <= i && (i > 1 ==> i / 2 < n)
  {
    i := 1;
    while i < n
      invariant IsPowerOf2(i) && (i > 1 ==> i / 2 < n)
    {
      i := i * 2;
    }
  }

  class PtrArray<T(0)> {
    var pdata: array<T>
    var len: nat

    ghost predicate Valid()
      reads this
    {
      len <= pdata.Length
    }

    ghost function Contents(): (s: seq<T>)
      requires Valid()
      reads this, pdata
      ensures |s| == len
    {
      pdata[..len]
    }

    /** l_ptr_array_sized_new */
    constructor (size: nat)
      ensures Valid() && Contents() == [] && fresh(pdata) && size <= pdata.Length
    {
      pdata := new T[0];
      len := 0;
      new;
      if size > 0 {
        Expand(size);
      }
    }

    method Expand(more: nat)
      requires Valid()
      modifies this`pdata
      ensures Valid() && len + more <= pdata.Length && Contents() == old(Contents())
      ensures if len + more <= old(pdata).Length then pdata == old(pdata) else fresh(pdata) && IsPowerOf2(pdata.Length)
    {
      if len + more > pdata.Length {
        var newSize := NearPow2(len + more);
        var newData := new T[newSize];
        forall k | 0 <= k < pdata.Length {
          newData[k] := pdata[k];
        }
        pdata := newData;
      }
    }

    /** l_ptr_array_add */
    method Add(p: T)
      requires Valid()
      modifies this, pdata
      ensures Valid() && Contents() == old(Contents()) + [p]
      ensures pdata == old(pdata) || fresh(pdata)
    {
      if len == pdata.Length {
        Expand(1);
      }
      pdata[len] := p;
      len := len + 1;
    }

    /** l_ptr_array_remove_index: the order of the others is kept. */
    method RemoveIndex(i: nat) returns (r: T)
      requires Valid() && i < len
      modifies this`len, pdata
      ensures Valid() && r == old(Contents())[i] && Contents() == old(Contents())[..i] + old(Contents())[i + 1..]
    {
      r := pdata[i];
      ghost var was := Contents();
      var j := i;
      while j < len - 1
        invariant i <= j <= len - 1 && len == old(len)
        invariant forall k | 0 <= k < i :: pdata[k] == was[k]
        invariant forall k | i <= k < j :: pdata[k] == was[k + 1]
        invariant forall k | j <= k < len :: pdata[k] == was[k]
      {
        pdata[j] := pdata[j + 1];
        j := j + 1;
      }
      len := len - 1;
      assert Contents() == was[..i] + was[i + 1..];
    }

    /** l_ptr_array_remove_index_fast: the last one takes the place of the removed one. */
    method RemoveIndexFast(i: nat) returns (r: T)
      requires Valid() && i < len
      modifies this`len, pdata
      ensures Valid() && r == old(Contents())[i]
      ensures Contents() == old(Contents())[i := old(Contents())[old(len) - 1]][..old(len) - 1]
    {
      r := pdata[i];
      if i != len - 1 {
        pdata[i] := pdata[len - 1];
      }
      len := len - 1;
    }
  }

  /** l_ptr_array_remove_fast: removes the first occurrence of p, if there is one. */
  method RemoveFast<T(0, ==)>(a: PtrArray<T>, p: T) returns (found: bool)
    requires a.Valid()
    modifies a`len, a.pdata
    ensures a.Valid() && found == (p in old(a.Contents()))
    ensures !found ==> a.Contents() == old(a.Contents())
    ensures found ==> |a.Contents()| == |old(a.Contents())| - 1
    ensures found ==> multiset(a.Contents()) == multiset(old(a.Contents())) - multiset{p}
  {
    hide PtrArray.Contents;
    ghost var was := a.Contents();
    var i := FindFirst(a, p);
    found := i < a.len;
    if found {
      var r := a.RemoveIndexFast(i);
      SwapRemoved(was, i);
    } else {
      assert was[..i] == was;
    }
  }

  /** The search loop of l_ptr_array_remove_fast. */
  method FindFirst<T(0, ==)>(a: PtrArray<T>, p: T) returns (i: nat)
    requires a.Valid()
    ensures i <= a.len && p !in a.Contents()[..i] && (i < a.len ==> a.Contents()[i] == p)
  {
    i := 0;
    while i < a.len && a.pdata[i] != p
      invariant 0 <= i <= a.len && p !in a.Contents()[..i]
    {
      NotYet(a.Contents(), i, p);
      i := i + 1;
    }
  }

  /** Moves everything, first to last, behind what the other array holds. */
  method MoveAll<T(0)>(source: PtrArray<T>, target: PtrArray<T>)
    requires source.Valid() && target.Valid() && source != target && source.pdata != target.pdata
    modifies source`len, source.pdata, target, target.pdata
    ensures source.Valid() && target.Valid() && source.Contents() == [] &&
            target.Contents() == old(target.Contents() + source.Contents())
    ensures target.pdata == old(target.pdata) || fresh(target.pdata)
  {
    hide PtrArray.Contents;
    ghost var all := target.Contents() + source.Contents();
    while source.len > 0
      invariant source.Valid() && target.Valid() && (target.pdata == old(target.pdata) || fresh(target.pdata))
      invariant target.Contents() + source.Contents() == all
      decreases source.len
    {
      ghost var s, t := source.Contents(), target.Contents();
      var p := source.RemoveIndex(0);
      ghost var rest := source.Contents();
      target.Add(p);
      MoveOne(t, s);
      assert source.Contents() == rest;
    }
  }

  lemma MoveOne<T>(t: seq<T>, s: seq<T>)
    requires s != []
    ensures (t + [s[0]]) + (s[..0] + s[1..]) == t + s
  {
  }

  /** queue_back_client_pkt: the packet becomes the first of the input again, the others keep their order. */
  method QueueBack<T(0)>(input: PtrArray<T>, p: T)
    requires input.Valid()
    modifies input, input.pdata
    ensures input.Valid() && input.Contents() == [p] + old(input.Contents())
  {
    var queue := new PtrArray<T>(input.len);
    queue.Add(p);
    MoveAll(input, queue);
    MoveAll(queue, input);
  }

  /** A swap-with-last removal takes out exactly one occurrence of the removed element. */
  lemma NotYet<T>(s: seq<T>, i: nat, p: T)
    requires i < |s| && s[i] != p && p !in s[..i]
    ensures p !in s[..i + 1]
  {
    assert s[..i + 1] == s[..i] + [s[i]];
  }

  lemma SwapRemoved<T>(s: seq<T>, i: nat)
    requires i < |s|
    ensures multiset(s[i := s[|s| - 1]][..|s| - 1]) == multiset(s) - multiset{s[i]}
  {
    var n := |s| - 1;
    assert s == s[..n] + [s[n]];
    if i < n {
      assert s[..n] == s[..i] + [s[i]] + s[i + 1..n];
      assert s[i := s[n]][..n] == s[..i] + [s[n]] + s[i + 1..n];
    } else {
      assert s[i := s[n]][..n] == s[..n];
    }
  }
}
