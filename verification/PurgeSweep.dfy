/**
 A whole sweep of the purger over one partition, in as many chunks as it takes, with gets between the chunks
 but no set: which entries it examines, and which ones it steps over.
 */
module PurgeSweep {
  import opened Sequences
  import opened CacheShard
  import opened QueryCache

  /** Still there, and nothing but its access time has changed. */
  ghost predicate Kept(before: map<Id, Entry>, after: map<Id, Entry>, id: Id) {
    id in before && id in after && after[id] == before[id].(access := after[id].access)
  }

  /**
   Since s0 the sweep has done everything from position b up, except the positions where a chunk ended: those
   entries and the ones below b are as they were; every other one is gone or need not be collected at time now0.
   */
  ghost predicate SweptTo(s0: Shard, s: Shard, cursors: seq<nat>, b: nat, now0: int) {
    && s0.Ok() && s.Ok() && b <= |s0.arr| && b <= |s.arr|
    && (forall j | 0 <= j < b :: s.arr[j] == s0.arr[j])
    && (forall id | id in s.store :: id in s0.store) && (forall c | c in cursors :: b <= c + 1)
    && (forall i | 0 <= i < |s0.arr| ::
      if i < b || i in cursors then Kept(s0.store, s.store, s0.arr[i]) else GoneOrSurvives(s.store, s0.arr[i], now0))
  }

  lemma SweepStarts(s: Shard, now0: int)
    requires s.Ok()
    ensures SweptTo(s, s, [], |s.arr|, now0)
  {
    hide Shard.HashOk, Shard.MarksOk, Survives;
    assert forall i | 0 <= i < |s.arr| :: s.arr[i] in s.arr;
  }

  /** A chunk from below position x down to its new cursor y. */
  lemma ChunkSweeps(s0: Shard, s: Shard, t: Shard, cursors: seq<nat>, b: nat, x: nat, y: nat, now0: int, now: int)
    requires SweptTo(s0, s, cursors, b, now0) && now0 <= now && t.Ok() && Below(s, t, y, x)
    requires if cursors == [] then b == x else b == x + 1 && x in cursors
    requires forall j | y < j < x :: GoneOrSurvives(t.store, s.arr[j], now)
    ensures SweptTo(s0, t, cursors + [y], y + 1, now0)
  {
    hide Shard.Ok, Kept, GoneOrSurvives;
    forall i | 0 <= i < |s0.arr|
      ensures if i < y + 1 || i in cursors + [y] then Kept(s0.store, t.store, s0.arr[i])
              else GoneOrSurvives(t.store, s0.arr[i], now0)
    {
      ChunkAt(s0, s, t, cursors, b, x, y, now0, now, i);
    }
  }

  lemma ChunkAt(s0: Shard, s: Shard, t: Shard, cursors: seq<nat>, b: nat, x: nat, y: nat, now0: int, now: int, i: nat)
    requires SweptTo(s0, s, cursors, b, now0) && now0 <= now && Below(s, t, y, x)
    requires if cursors == [] then b == x else b == x + 1 && x in cursors
    requires forall j | y < j < x :: GoneOrSurvives(t.store, s.arr[j], now)
    requires i < |s0.arr|
    ensures if i < y + 1 || i in cursors + [y] then Kept(s0.store, t.store, s0.arr[i])
            else GoneOrSurvives(t.store, s0.arr[i], now0)
  {
    hide Shard.Ok, Survives, GoneOrSurvives;
    var id := s0.arr[i];
    if y < i < x {
      assert s.arr[i] == id;
      EarlierToo(t.store, id, now0, now);
    } else {
      NotVisited(s0, s, y, x, i);
      StaysAsItWas(s0, s, t, id, now0);
    }
  }

  lemma EarlierToo(store: map<Id, Entry>, id: Id, now0: int, now: int)
    requires now0 <= now && GoneOrSurvives(store, id, now)
    ensures GoneOrSurvives(store, id, now0)
  {
  }

  lemma StaysAsItWas(s0: Shard, s: Shard, t: Shard, id: Id, now0: int)
    requires id in s.store ==> id in t.store && t.store[id] == s.store[id]
    requires id in t.store ==> id in s.store
    ensures Kept(s0.store, s.store, id) ==> Kept(s0.store, t.store, id)
    ensures GoneOrSurvives(s.store, id, now0) ==> GoneOrSurvives(t.store, id, now0)
  {
  }

  lemma NotVisited(s0: Shard, s: Shard, y: nat, x: nat, i: nat)
    requires s0.Ok() && y < x <= |s.arr| && x <= |s0.arr| && i < |s0.arr| && !(y < i < x)
    requires forall j | 0 <= j < x :: s.arr[j] == s0.arr[j]
    ensures s0.arr[i] !in s.arr[y + 1..x]
  {
    hide Shard.HashOk, Shard.MarksOk;
    forall j | y + 1 <= j < x
      ensures s.arr[j] != s0.arr[i]
    {
      assert s.arr[j] == s0.arr[j] && j != i;
    }
  }

  // ----- gets between two chunks -----

  ghost predicate OnlyAccess(before: map<Id, Entry>, after: map<Id, Entry>) {
    (forall id :: id in before <==> id in after) && forall id | id in before :: Kept(before, after, id)
  }

  lemma GetsKeep(s0: Shard, s: Shard, t: Shard, cursors: seq<nat>, b: nat, now0: int)
    requires SweptTo(s0, s, cursors, b, now0) && t.Ok() && t.arr == s.arr && OnlyAccess(s.store, t.store)
    ensures SweptTo(s0, t, cursors, b, now0)
  {
    hide Shard.Ok;
  }

  method AnswerGets(p: Partition, keys: seq<Key>, now: int)
    requires p.Valid()
    modifies p`entries
    ensures p.Valid() && OnlyAccess(old(p.entries), p.entries)
  {
    hide Shard.HashOk, Shard.MarksOk, Shard.View, NoDup;
    for n := 0 to |keys|
      invariant p.Valid() && OnlyAccess(old(p.entries), p.entries)
    {
      var r := p.Get(keys[n], now);
    }
  }

  // ----- where the chunks end -----

  /** Where a chunk of c entries that starts below start ends: at 0 when not two more chunks are left. */
  function End(start: nat, c: nat): nat {
    if start >= 2 * c then start - c else 0
  }

  /** One chunk size apart from the end of the array down, and the last one at slot 0. */
  predicate Cursors(cs: seq<nat>, len: nat, c: nat) {
    cs != [] && |cs| * c <= len && cs[|cs| - 1] == 0 && forall j | 0 <= j < |cs| - 1 :: cs[j] == len - (j + 1) * c
  }

  /** The same while the sweep goes on, or when it has ended. */
  predicate CursorsSoFar(cs: seq<nat>, len: nat, c: nat) {
    && cs != [] && c > 0
    && if cs[|cs| - 1] == 0 then Cursors(cs, len, c)
       else (|cs| + 1) * c <= len && forall j | 0 <= j < |cs| :: cs[j] == len - (j + 1) * c
  }

  lemma CursorsNext(cs: seq<nat>, len: nat, c: nat)
    requires CursorsSoFar(cs, len, c) && cs[|cs| - 1] > 0
    ensures CursorsSoFar(cs + [End(cs[|cs| - 1], c)], len, c)
  {
    var n := |cs|;
    assert (n + 1) * c == n * c + c;
    assert (n + 2) * c == n * c + c + c;
  }

  lemma CursorsAll(cs: seq<nat>, len: nat, c: nat)
    requires CursorsSoFar(cs, len, c) && cs[|cs| - 1] == 0
    ensures Cursors(cs, len, c) && 0 in cs
  {
  }

  lemma EndIsLower(start: nat, c: nat)
    requires start > 0 && c > 0
    ensures End(start, c) < start
  {
  }

  lemma CursorsFirst(len: nat, c: nat)
    requires 0 < c <= len
    ensures CursorsSoFar([End(len, c)], len, c)
  {
  }

  lemma ChunkFits(c: nat, len: nat, loop: nat, time: nat)
    requires len > 0 && 0 < loop <= time && IsChunkSize(c, len, loop, time)
    ensures 0 < c <= len
  {
    assert (len + 1) * time == len * time + time;
    assert len * loop <= len * time;
    if c > len {
      MulLess(len + 1, c, time);
      assert false;
    }
  }

  // ----- the sweep -----

  /** One chunk of a sweep under way, or the first one. */
  method NextChunk(p: Partition, ghost s0: Shard, ghost cursors: seq<nat>, ghost now0: int, now: int, loop: nat,
                   time: nat)
    requires p.Valid() && 0 < loop <= time && now0 <= now && p.ptrArray != [] && (cursors == [] <==> p.purgeIdx == 0)
    requires var b := if cursors == [] then |p.ptrArray| else p.purgeIdx + 1; SweptTo(s0, p.AsShard(), cursors, b, now0)
    requires cursors != [] ==> p.purgeIdx in cursors
    modifies p
    ensures p.Valid() && SweptTo(s0, p.AsShard(), cursors + [p.purgeIdx], p.purgeIdx + 1, now0)
    ensures if cursors == [] then IsChunkSize(p.purgeChunkSize, |old(p.ptrArray)|, loop, time)
            else p.purgeChunkSize == old(p.purgeChunkSize)
    ensures p.purgeIdx == End(if cursors == [] then |old(p.ptrArray)| else old(p.purgeIdx), p.purgeChunkSize)
  {
    hide SweptTo, Below, SameAnswers, KeepsReferenced, GoneOrSurvives, Survives, Shard.Ok, Bytes;
    ghost var s := p.AsShard();
    ghost var x := if cursors == [] then |p.ptrArray| else p.purgeIdx;
    ghost var b := if cursors == [] then |p.ptrArray| else p.purgeIdx + 1;
    var freed := p.PurgeChunk(now, loop, time);
    ChunkSweeps(s0, s, p.AsShard(), cursors, b, x, p.purgeIdx, now0, now);
  }

  method Between(p: Partition, ghost s0: Shard, ghost cursors: seq<nat>, keys: seq<Key>, now: int, ghost now0: int)
    requires p.Valid() && SweptTo(s0, p.AsShard(), cursors, p.purgeIdx + 1, now0)
    modifies p`entries
    ensures p.Valid() && SweptTo(s0, p.AsShard(), cursors, p.purgeIdx + 1, now0) && p.ptrArray != []
  {
    hide Shard.Ok, SweptTo, OnlyAccess;
    ghost var s := p.AsShard();
    AnswerGets(p, keys, now);
    GetsKeep(s0, s, p.AsShard(), cursors, p.purgeIdx + 1, now0);
    NotEmpty(s0, s, cursors, p.purgeIdx + 1, now0);
  }

  lemma NotEmpty(s0: Shard, s: Shard, cursors: seq<nat>, b: nat, now0: int)
    requires SweptTo(s0, s, cursors, b, now0) && b > 0
    ensures s.arr != []
  {
  }

  lemma SweepDone(s0: Shard, s: Shard, cursors: seq<nat>, now0: int)
    requires SweptTo(s0, s, cursors, 1, now0) && 0 in cursors
    ensures forall id | id in s.store :: id in s0.store
    ensures forall i | 0 <= i < |s0.arr| ::
              if i in cursors then Kept(s0.store, s.store, s0.arr[i]) else GoneOrSurvives(s.store, s0.arr[i], now0)
  {
    hide Shard.Ok;
  }

  /**
   The chunks of one sweep, with the clock read before each and any gets after it. Every entry that was in the
   array is examined, except where a chunk ends: an entry there is left as it was, dead or not, and slot 0
   always is one of them. There is one such place for each chunk.
   */
  method Sweep(p: Partition, clock: nat -> int, gets: nat -> seq<Key>, loop: nat, time: nat)
    returns (cursors: seq<nat>)
    requires p.Valid() && p.purgeIdx == 0 && 0 < loop <= time
    requires forall i: nat, j: nat | i <= j :: clock(i) <= clock(j)
    modifies p
    ensures p.Valid() && p.purgeIdx == 0 && forall id | id in p.entries :: id in old(p.entries)
    ensures forall i | 0 <= i < |old(p.ptrArray)| ::
              if i in cursors then Kept(old(p.entries), p.entries, old(p.ptrArray)[i])
              else GoneOrSurvives(p.entries, old(p.ptrArray)[i], clock(0))
    ensures var len := |old(p.ptrArray)|;
            if len == 0 then cursors == []
            else IsChunkSize(p.purgeChunkSize, len, loop, time) && Cursors(cursors, len, p.purgeChunkSize)
  {
    hide SweptTo, Shard.Ok, GoneOrSurvives, Kept, CursorsSoFar, OnlyAccess;
    if p.ptrArray == [] {
      var freed := p.PurgeChunk(clock(0), loop, time);
      return [];
    }
    ghost var s0, len := p.AsShard(), |p.ptrArray|;
    SweepStarts(s0, clock(0));
    NextChunk(p, s0, [], clock(0), clock(0), loop, time);
    ghost var c := p.purgeChunkSize;
    ChunkFits(c, len, loop, time);
    CursorsFirst(len, c);
    EndIsLower(len, c);
    cursors := [p.purgeIdx];
    assert [] + cursors == cursors;
    while p.purgeIdx > 0
      invariant p.Valid() && cursors != [] && cursors[|cursors| - 1] == p.purgeIdx
      invariant SweptTo(s0, p.AsShard(), cursors, p.purgeIdx + 1, clock(0))
      invariant CursorsSoFar(cursors, len, c) && p.purgeChunkSize == c
      decreases p.purgeIdx
    {
      Between(p, s0, cursors, gets(|cursors|), clock(|cursors|), clock(0));
      CursorsNext(cursors, len, c);
      EndIsLower(p.purgeIdx, c);
      NextChunk(p, s0, cursors, clock(0), clock(|cursors|), loop, time);
      cursors := cursors + [p.purgeIdx];
    }
    CursorsAll(cursors, len, c);
    SweepDone(s0, p.AsShard(), cursors, clock(0));
  }
}
