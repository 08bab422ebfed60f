/**
 The query cache (fundadb_hash.c) as one thread sees it: a group of partitions whose
 operations are proved against an expiring map from keys to values. The locks are left to
 CacheProtocol, where the same steps interleave.
 */
module QueryCache {
  import opened Wire
  import opened Sequences
  import opened CacheShard

  // ----- one visit of the purger -----

  /** What the purger does at array position i: drop an expired entry, free a dropped and unreferenced one. */
  function Visit(s: Shard, i: nat, now: int): Shard
    requires s.Ok() && i < |s.arr|
  {
    var t := Expire(s, i, now);
    if t.store[s.arr[i]].expire == EXPIRE_DROPIT && t.store[s.arr[i]].refCount == 0 then t.Free(i) else t
  }

  function Expire(s: Shard, i: nat, now: int): Shard
    requires s.Ok() && i < |s.arr|
  {
    var e := s.store[s.arr[i]];
    if e.expire != EXPIRE_DROPIT && e.expire <= now then s.Drop(s.arr[i]) else s
  }

  /** Neither collectable now nor waiting to be dropped. */
  predicate Survives(e: Entry, now: int) {
    if e.refCount == 0 then e.expire > now else e.expire == EXPIRE_DROPIT || e.expire > now
  }

  /** From now on, both partitions answer every get alike. */
  ghost predicate SameAnswers(s: Shard, t: Shard, now: int)
    requires s.Ok() && t.Ok()
  {
    forall k, time, v | time >= now :: s.Serves(k, time, v) <==> t.Serves(k, time, v)
  }

  lemma ExpireOk(s: Shard, i: nat, now: int)
    requires s.Ok() && i < |s.arr|
    ensures var t := Expire(s, i, now);
            t.Ok() && t.arr == s.arr && SameAnswers(s, t, now) && Bytes(t.store, t.arr) == Bytes(s.store, s.arr)
  {
    var id := s.arr[i];
    assert id in s.store;
    if s.store[id].expire != EXPIRE_DROPIT && s.store[id].expire <= now {
      assert s.Mapped(id);
      s.DropOk(id);
      BytesDrop(s, id);
      var t := s.Drop(id);
      forall k, time, v | time >= now
        ensures s.Serves(k, time, v) <==> t.Serves(k, time, v)
      {
        if k in s.hash && k != s.store[id].key {
          assert t.hash[k] == s.hash[k] && s.store[s.hash[k]].key == k;
        }
      }
    }
  }

  /** A visit never changes a later answer, keeps the partition consistent and accounts for what it frees. */
  lemma VisitOk(s: Shard, i: nat, now: int)
    requires s.Ok() && i < |s.arr|
    ensures var t := Visit(s, i, now);
            && t.Ok() && SameAnswers(s, t, now) && |s.arr| - 1 <= |t.arr| <= |s.arr|
            && Bytes(t.store, t.arr) ==
                 Bytes(s.store, s.arr) - (if |t.arr| < |s.arr| then s.store[s.arr[i]].Bytes() else 0)
            && (s.store[s.arr[i]].refCount > 0 ==> t.arr == s.arr)
  {
    var t := Expire(s, i, now);
    ExpireOk(s, i, now);
    if t.store[s.arr[i]].expire == EXPIRE_DROPIT && t.store[s.arr[i]].refCount == 0 {
      t.FreeOk(i);
      BytesFree(t, i);
      hide Shard.Ok;
      assert SameAnswers(t, t.Free(i), now) by { SameView(t, t.Free(i), now); }
    }
  }

  lemma SameView(s: Shard, t: Shard, now: int)
    requires s.Ok() && t.Ok() && s.View() == t.View()
    ensures SameAnswers(s, t, now)
  {
    forall k, time, v | time >= now
      ensures s.Serves(k, time, v) <==> t.Serves(k, time, v)
    {
      assert k in s.hash <==> k in s.View();
      assert k in t.hash <==> k in t.View();
      if k in s.View() {
        assert s.View()[k] == t.View()[k];
      }
    }
  }

  /** The visited entry is gone or survives; positions below and all other entries are as they were. */
  lemma VisitOthers(s: Shard, i: nat, now: int)
    requires s.Ok() && i < |s.arr|
    ensures var t := Visit(s, i, now);
            && (forall j | 0 <= j < i :: j < |t.arr| && t.arr[j] == s.arr[j])
            && (forall id | id != s.arr[i] ::
              (id in t.store <==> id in s.store) && (id in s.store ==> t.store[id] == s.store[id]))
            && (s.arr[i] in t.store ==>
              Survives(t.store[s.arr[i]], now) && t.store[s.arr[i]] ==
                  s.store[s.arr[i]].(expire := t.store[s.arr[i]].expire))
  {
    hide Shard.HashOk, Shard.MarksOk, NoDup;
    assert s.arr[i] in s.store;
  }

  lemma VisitArray(s: Shard, i: nat, now: int)
    requires s.Ok() && i < |s.arr|
    ensures var t := Visit(s, i, now);
            && (t.arr == s.arr || t.arr == s.arr[i := s.arr[|s.arr| - 1]][..|s.arr| - 1])
            && (forall id | id in t.arr :: id in t.store && id in s.store)
  {
    hide Shard.HashOk, Shard.MarksOk, Bytes, SameAnswers, NoDup;
    VisitOk(s, i, now);
    assert s.arr[i] in s.store;
  }

  /** After the visit, position i and the survivors above it survive. */
  lemma VisitSurvivors(s: Shard, i: nat, now: int)
    requires s.Ok() && i < |s.arr| && forall k | i < k < |s.arr| :: Survives(s.store[s.arr[k]], now)
    ensures var t := Visit(s, i, now);
            t.Ok() && forall k | i <= k < |t.arr| :: Survives(t.store[t.arr[k]], now)
  {
    hide Visit, Shard.Ok, Survives, SameAnswers, Bytes;
    VisitOk(s, i, now);
    VisitOthers(s, i, now);
    VisitArray(s, i, now);
    var t := Visit(s, i, now);
    forall k | i <= k < |t.arr|
      ensures Survives(t.store[t.arr[k]], now)
    {
      assert t.arr[k] in t.arr;
      assert t.arr[k] == s.arr[k] || (k == i && t.arr[k] == s.arr[|s.arr| - 1]);
    }
  }

  /** How many entries a chunk of a sweep over len entries visits: at least ten, or all. */
  function ChunkSize(len: nat, loop: nat, time: nat): nat
    requires 0 < time
  {
    if len * loop / time < 10 then len else len * loop / time
  }

  /** The share of a sweep that fits one round, rounded down, if that is at least ten entries; otherwise all of them. */
  predicate IsChunkSize(c: nat, len: nat, loop: nat, time: nat) {
    if len * loop < 10 * time then c == len else c >= 10 && c * time <= len * loop < (c + 1) * time
  }

  lemma ChunkSizeMeans(len: nat, loop: nat, time: nat)
    requires 0 < time
    ensures IsChunkSize(ChunkSize(len, loop, time), len, loop, time)
  {
    var x := len * loop;
    var q := x / time;
    assert x == q * time + x % time;
    if q < 10 {
      MulLess(q + 1, 10, time);
    } else {
      MulLess(10, q, time);
    }
  }

  lemma MulLess(a: nat, b: nat, c: nat)
    requires a <= b
    ensures a * c <= b * c
  {
  }

  /** Where a purge chunk that starts at position start (and there was something to purge) stops. */
  function ChunkEnd(start: nat, chunk: nat): nat {
    var m := if start > chunk then start - chunk else 0;
    if m < chunk then 0 else m
  }

  class Partition {
    var hash: map<Key, Id>
    var ptrArray: seq<Id>
    var entries: map<Id, Entry>
    var nextId: Id
    var purgeIdx: nat
    var purgeChunkSize: nat

    function AsShard(): Shard
      reads this
    {
      Shard(hash, ptrArray, entries)
    }

    ghost predicate Valid()
      reads this
    {
      && AsShard().Ok()
      && (forall id | id in entries :: id < nextId)
      && purgeIdx <= |ptrArray|
      && (purgeIdx > 0 ==> purgeChunkSize > 0)
    }

    ghost function View(): map<Key, Cached>
      requires Valid()
      reads this
    {
      AsShard().View()
    }

    constructor ()
      ensures Valid() && View() == map[] && hash == map[]
    {
      hash, ptrArray, entries, nextId := map[], [], map[], 0;
      purgeIdx, purgeChunkSize := 0, 0;
    }

    /** fdb_get below the partition choice: reference, compare, copy, release. */
    method Get(k: Key, now: int) returns (r: Option<Value>)
      requires Valid()
      modifies `entries
      ensures Valid() && View() == old(View())
      ensures r == if k in View() && View()[k].expire > now then Some(View()[k].value) else None
      // the reference is given back; only the access time of the entry served can change
      ensures forall id | id in entries :: id in old(entries) &&
                var e := old(entries)[id];
                entries[id] == if r.Some? && k in hash && id == hash[k] && now > e.access then e.(access := now) else e
    {
      r := None;
      if k in hash {
        AsShard().MappedByHash(k);
        var id := hash[k];
        var e := entries[id].(refCount := entries[id].refCount + 1);
        if e.expire > now {
          r := Some(e.value);
          if now > e.access {
            e := e.(access := now);
          }
        }
        TouchOk(AsShard(), id, e.(refCount := e.refCount - 1));
        entries := entries[id := e.(refCount := e.refCount - 1)];
      }
    }

    /** fdb_set below the partition choice. */
    method Set(k: Key, v: Value, expire: int, now: int)
      requires Valid() && expire != EXPIRE_DROPIT
      modifies this
      ensures Valid() && View() == old(View())[k := Cached(v, expire)] && hash.Keys == old(hash).Keys + {k}
      ensures k in hash && hash[k] in entries && entries[hash[k]] == Entry(k, v, expire, now, 0)
      ensures Bytes(entries, ptrArray) == old(Bytes(entries, ptrArray)) + |k.bytes| + |v| + ENTRY_OVERHEAD
      ensures purgeIdx == old(purgeIdx) && purgeChunkSize == old(purgeChunkSize)
    {
      hide Shard.Ok, Shard.HashOk, Shard.View, Bytes, Shard.Drop, Shard.Add, Shard.Mapped;
      var id, e := nextId, Entry(k, v, expire, now, 0);
      AsShard().OkParts();
      AsShard().InsertOk(id, e);
      BytesInsert(AsShard(), id, e);
      InsertKeys(AsShard(), id, e);
      if k in hash {
        AsShard().MappedByHash(k);
        Unmap(hash[k]);
      }
      Append(id, e);
      nextId := nextId + 1;
    }

    /** The hash table forgets an entry: hash_value_destroy_func marks it, nothing is freed. */
    method Unmap(id: Id)
      requires id in entries
      modifies `hash, `entries
      ensures AsShard() == old(AsShard()).Drop(id)
    {
      hash := hash - {entries[id].key};
      entries := entries[id := entries[id].(expire := EXPIRE_DROPIT)];
    }

    method Append(id: Id, e: Entry)
      modifies `hash, `entries, `ptrArray
      ensures AsShard() == old(AsShard()).Add(id, e)
    {
      ptrArray := ptrArray + [id];
      entries := entries[id := e];
      hash := hash[e.key := id];
    }

    /** g_hash_table_remove_all, as fdb_truncate_all uses it. */
    method Clear() returns (n: nat)
      requires Valid()
      modifies `hash, `entries
      ensures Valid() && View() == map[] && hash == map[] && n == |old(View())| == |old(hash)|
      ensures Bytes(entries, ptrArray) == old(Bytes(entries, ptrArray))
    {
      hide Shard.Ok, Shard.HashOk, Shard.View, Bytes;
      var s := AsShard();
      s.OkParts();
      s.ClearOk();
      BytesClear(s);
      s.ViewKeys();
      n := |hash|;
      entries := map id | id in entries :: if s.Mapped(id) then entries[id].(expire := EXPIRE_DROPIT) else entries[id];
      hash := map[];
      assert AsShard() == s.Clear();
    }

    /** The body of the purge loop for the position under the cursor. */
    method VisitCursor(now: int) returns (freed: nat)
      requires AsShard().Ok() && purgeIdx < |ptrArray| && forall id | id in entries :: id < nextId
      modifies `hash, `ptrArray, `entries
      ensures AsShard() == Visit(old(AsShard()), purgeIdx, now) && hash.Keys <= old(hash).Keys
      ensures freed == if |ptrArray| < |old(ptrArray)| then old(entries[ptrArray[purgeIdx]]).Bytes() else 0
      ensures forall id | id in entries :: id < nextId
    {
      hide Shard.HashOk, Shard.MarksOk, NoDup;
      freed := 0;
      var id := ptrArray[purgeIdx];
      var e := entries[id];
      if e.expire != EXPIRE_DROPIT && e.expire <= now {
        Unmap(id);
      }
      if entries[id].expire == EXPIRE_DROPIT && entries[id].refCount == 0 {
        freed := entries[id].Bytes();
        entries := entries - {id};
        ptrArray := ptrArray[purgeIdx := ptrArray[|ptrArray| - 1]][..|ptrArray| - 1];
      }
    }

    /** Begins a sweep when the cursor is at rest. */
    method StartChunk(loop: nat, time: nat)
      requires Valid() && 0 < loop <= time
      modifies `purgeIdx, `purgeChunkSize
      ensures Valid() && purgeIdx == if old(purgeIdx) == 0 then |ptrArray| else old(purgeIdx)
      ensures purgeChunkSize ==
                if old(purgeIdx) == 0 && |ptrArray| > 0 then ChunkSize(|ptrArray|, loop, time) else old(purgeChunkSize)
    {
      if purgeIdx == 0 && |ptrArray| > 0 {
        purgeIdx := |ptrArray|;
        purgeChunkSize := |ptrArray| * loop / time;
        if purgeChunkSize < 10 {
          purgeChunkSize := |ptrArray|;
        }
      }
    }

    /** The inner loop: visits positions purgeIdx - 1 down to minIdx + 1. */
    method SweepDown(minIdx: nat, now: int) returns (freed: nat)
      requires Valid() && minIdx < purgeIdx
      modifies `hash, `ptrArray, `entries, `purgeIdx
      ensures Valid() && purgeIdx == minIdx && SameAnswers(old(AsShard()), AsShard(), now)
      ensures Bytes(entries, ptrArray) == old(Bytes(entries, ptrArray)) - freed
      ensures old(purgeIdx) == |old(ptrArray)| ==>
              forall i | minIdx < i < |ptrArray| :: Survives(entries[ptrArray[i]], now)
      ensures hash.Keys <= old(hash).Keys && KeepsReferenced(old(entries), entries)
      ensures forall i | minIdx < i < old(purgeIdx) :: GoneOrSurvives(entries, old(ptrArray)[i], now)
      ensures Below(old(AsShard()), AsShard(), minIdx, old(purgeIdx))
    {
      hide Visit, Sweeping, Shard.Ok;
      freed := 0;
      ghost var s0, start := AsShard(), purgeIdx;
      purgeIdx := purgeIdx - 1;
      SweepBegins(s0, start, now);
      while purgeIdx > minIdx
        invariant minIdx <= purgeIdx < |ptrArray| && (forall id | id in entries :: id < nextId)
        invariant AsShard().Ok() && Sweeping(s0, AsShard(), start, purgeIdx, freed, now)
      {
        SweepStep(s0, AsShard(), start, purgeIdx, freed, now);
        var f := VisitCursor(now);
        freed := freed + f;
        purgeIdx := purgeIdx - 1;
      }
      SweepEnds(s0, AsShard(), start, purgeIdx, freed, now);
    }

    /** One chunk of purgeHash_thread in this partition. */
    method PurgeChunk(now: int, loop: nat, time: nat) returns (freed: nat)
      requires Valid() && 0 < loop <= time
      modifies this
      ensures Valid() && SameAnswers(old(AsShard()), AsShard(), now)
      ensures Bytes(entries, ptrArray) == old(Bytes(entries, ptrArray)) - freed
      // the cursor ends exactly where the chunk does
      ensures var start := if old(purgeIdx) == 0 then |old(ptrArray)| else old(purgeIdx);
              purgeIdx == if start >= 2 * purgeChunkSize && start > 0 then start - purgeChunkSize else 0
      // a sweep of the whole array leaves at most slot 0 unexamined
      ensures old(purgeIdx) == 0 && purgeIdx == 0 ==>
              forall i | 1 <= i < |ptrArray| :: Survives(entries[ptrArray[i]], now)
      // every entry that was in the chunk's range has been examined, and no referenced entry is freed
      ensures var start := if old(purgeIdx) == 0 then |old(ptrArray)| else old(purgeIdx);
              forall i | purgeIdx < i < start :: GoneOrSurvives(entries, old(ptrArray)[i], now)
      ensures KeepsReferenced(old(entries), entries)
      // the entry at the new cursor, all below it and all outside the range are left as they were
      ensures var start := if old(purgeIdx) == 0 then |old(ptrArray)| else old(purgeIdx);
              if start == 0 then AsShard() == old(AsShard()) else Below(old(AsShard()), AsShard(), purgeIdx, start)
      ensures var n := |old(ptrArray)|;
              if old(purgeIdx) == 0 && n > 0 then IsChunkSize(purgeChunkSize, n, loop, time)
              else purgeChunkSize == old(purgeChunkSize)
      ensures hash.Keys <= old(hash).Keys
    {
      hide Bytes, Shard.Serves, Survives, Shard.Ok, GoneOrSurvives, KeepsReferenced, ChunkSize, IsChunkSize, Below;
      KeepsAll(entries);
      ChunkSizeMeans(|ptrArray|, loop, time);
      StartChunk(loop, time);
      freed := 0;
      if purgeIdx > 0 {
        freed := SweepDown(ChunkEnd(purgeIdx, purgeChunkSize), now);
      }
    }
  }

  /** The cursor has moved down, and every entry it has passed is gone or need not be collected. */
  ghost predicate Purged(before: (Shard, nat), after: (Shard, nat), now: int) {
    var start := if before.1 == 0 then |before.0.arr| else before.1;
    && start <= |before.0.arr| && (start > 0 ==> after.1 < start)
    && forall j | after.1 < j < start :: GoneOrSurvives(after.0.store, before.0.arr[j], now)
  }

  predicate GoneOrSurvives(store: map<Id, Entry>, id: Id, now: int) {
    id in store ==> Survives(store[id], now)
  }

  /** Entries that a reader holds are still there, with their values and counts. */
  ghost predicate KeepsReferenced(before: map<Id, Entry>, after: map<Id, Entry>) {
    forall id | id in before && before[id].refCount > 0 ::
      id in after && after[id].value == before[id].value && after[id].refCount == before[id].refCount
  }

  lemma KeepsAll(store: map<Id, Entry>)
    ensures KeepsReferenced(store, store)
  {
  }

  /** A sweep that began in s0 below position start and stands at position i: what it has done so far. */
  ghost predicate Sweeping(s0: Shard, s: Shard, start: nat, i: nat, freed: int, now: int) {
    && s0.Ok() && s.Ok() && i < start <= |s0.arr| && i < |s.arr|
    && SameAnswers(s0, s, now) && Bytes(s.store, s.arr) == Bytes(s0.store, s0.arr) - freed
    && KeepsReferenced(s0.store, s.store) && s.hash.Keys <= s0.hash.Keys
    && Below(s0, s, i, start)
    && (forall j | i < j < start :: GoneOrSurvives(s.store, s0.arr[j], now))
    && (start == |s0.arr| ==> forall j | i < j < |s.arr| :: Survives(s.store[s.arr[j]], now))
  }

  /** Only entries at positions above i and below start have been touched, and no entry has been added. */
  ghost predicate Below(s0: Shard, s: Shard, i: nat, start: nat) {
    && i < start <= |s0.arr| && i < |s.arr|
    && (forall j | 0 <= j <= i :: s.arr[j] == s0.arr[j])
    && (forall id | id in s0.store && id !in s0.arr[i + 1..start] :: id in s.store && s.store[id] == s0.store[id])
    && (forall id | id in s.store :: id in s0.store)
  }

  lemma BelowVisit(s0: Shard, s: Shard, i: nat, start: nat, now: int)
    requires s.Ok() && Below(s0, s, i, start) && 0 < i
    ensures i - 1 < |Visit(s, i, now).arr| && Below(s0, Visit(s, i, now), i - 1, start)
  {
    hide Visit, Shard.Ok, Survives;
    VisitOthers(s, i, now);
    var t := Visit(s, i, now);
    assert s.arr[i - 1] == s0.arr[i - 1] && s.arr[i] == s0.arr[i];
    assert s0.arr[i..start] == [s0.arr[i]] + s0.arr[i + 1..start];
    forall id | id in t.store
      ensures id in s0.store
    {
      VisitAdds(s, i, now, id);
    }
  }

  lemma BelowFixed(s0: Shard, s: Shard, i: nat, start: nat)
    requires Below(s0, s, i, start)
    ensures i < start <= |s0.arr| && i < |s.arr| && forall j | 0 <= j <= i :: s.arr[j] == s0.arr[j]
  {
  }

  lemma VisitAdds(s: Shard, i: nat, now: int, id: Id)
    requires s.Ok() && i < |s.arr| && id in Visit(s, i, now).store
    ensures id in s.store
  {
    hide Shard.HashOk, Shard.MarksOk, NoDup;
    assert s.arr[i] in s.store;
  }

  lemma SweepBegins(s: Shard, start: nat, now: int)
    requires s.Ok() && 0 < start <= |s.arr|
    ensures Sweeping(s, s, start, start - 1, 0, now)
  {
    hide Bytes, Survives, Shard.Serves;
    KeepsAll(s.store);
  }

  lemma SweepStep(s0: Shard, s: Shard, start: nat, i: nat, freed: int, now: int)
    requires Sweeping(s0, s, start, i, freed, now) && 0 < i
    ensures s.Ok() && i < |s.arr| && i - 1 < |Visit(s, i, now).arr| && Visit(s, i, now).Ok()
    ensures Sweeping(s0, Visit(s, i, now), start, i - 1,
            freed + (if |Visit(s, i, now).arr| < |s.arr| then s.store[s.arr[i]].Bytes() else 0), now)
  {
    hide Visit, Bytes, Survives, Shard.Serves, Shard.Ok, GoneOrSurvives, KeepsReferenced, Below;
    BelowFixed(s0, s, i, start);
    VisitOk(s, i, now);
    VisitKeys(s, i, now);
    VisitExamines(s0, s, i, start, now);
    BelowVisit(s0, s, i, start, now);
    if start == |s0.arr| {
      VisitSurvivors(s, i, now);
    }
  }

  lemma VisitKeys(s: Shard, i: nat, now: int)
    requires s.Ok() && i < |s.arr|
    ensures Visit(s, i, now).hash.Keys <= s.hash.Keys
  {
    hide Shard.HashOk, Shard.MarksOk, NoDup;
    assert s.arr[i] in s.store;
  }

  lemma SweepEnds(s0: Shard, s: Shard, start: nat, i: nat, freed: int, now: int)
    requires Sweeping(s0, s, start, i, freed, now)
    ensures s0.Ok() && s.Ok() && SameAnswers(s0, s, now) && KeepsReferenced(s0.store, s.store) &&
            s.hash.Keys <= s0.hash.Keys
    ensures Bytes(s.store, s.arr) == Bytes(s0.store, s0.arr) - freed
    ensures i < start <= |s0.arr| && forall j | i < j < start :: GoneOrSurvives(s.store, s0.arr[j], now)
    ensures start == |s0.arr| ==> forall j | i < j < |s.arr| :: Survives(s.store[s.arr[j]], now)
    ensures Below(s0, s, i, start)
  {
    hide Shard.Ok, Below, Bytes, SameAnswers, KeepsReferenced, Survives, GoneOrSurvives;
  }

  lemma VisitExamines(s0: Shard, s: Shard, i: nat, start: nat, now: int)
    requires s.Ok() && i < |s.arr| && KeepsReferenced(s0.store, s.store) && i < start <= |s0.arr|
    requires forall j | 0 <= j <= i :: s.arr[j] == s0.arr[j]
    requires forall j | i < j < start :: GoneOrSurvives(s.store, s0.arr[j], now)
    ensures var t := Visit(s, i, now);
            && KeepsReferenced(s0.store, t.store)
            && (forall j | 0 <= j < i :: j < |t.arr| && t.arr[j] == s0.arr[j])
            && (forall j | i <= j < start :: GoneOrSurvives(t.store, s0.arr[j], now))
  {
    hide Visit, Survives, Shard.Ok;
    VisitOthers(s, i, now);
    VisitReferenced(s, i, now);
  }

  lemma VisitReferenced(s: Shard, i: nat, now: int)
    requires s.Ok() && i < |s.arr|
    ensures KeepsReferenced(s.store, Visit(s, i, now).store)
  {
    hide Shard.HashOk, Shard.MarksOk, NoDup;
    assert s.arr[i] in s.store;
  }

  lemma InsertKeys(s: Shard, id: Id, e: Entry)
    requires s.HashOk()
    ensures var t := s.Insert(id, e);
            && t.hash.Keys == s.hash.Keys + {e.key} && t.store.Keys == s.store.Keys + {id} && t.arr == s.arr + [id]
            && t.hash[e.key] == id && t.store[id] == e
  {
  }

  /** Changing only the reference count and access time of an entry is invisible to the map. */
  lemma TouchOk(s: Shard, id: Id, e: Entry)
    requires s.Ok() && id in s.store && e.key == s.store[id].key && e.value == s.store[id].value &&
             e.expire == s.store[id].expire
    ensures var t := s.(store := s.store[id := e]); t.Ok() && t.View() == s.View()
  {
  }

  // ----- the group -----

  /** The partition of a key: its first byte, or the first three added as an unsigned char, modulo the group size. */
  function PartitionOf(k: Key, size: nat): (i: nat)
    requires size > 0
    ensures i < size
  {
    var b := k.bytes;
    var first := if b == [] then 0 else b[0] as int;
    var i := if |b| > 2 then (first + b[1] as int + b[2] as int) % 256 else first;
    i % size
  }

  /** An unsigned char sum of the first three bytes, or the first byte alone, as fdb_get and fdb_set both write it. */
  function PartitionAt(mem: seq<Byte>, kl: nat, size: nat): nat
    requires size > 0 && kl < |mem|
  {
    var i := mem[0] as int;
    (if kl > 2 then (i + mem[1] as int + mem[2] as int) % 256 else i) % size
  }

  /** strlen(): the position of the first NUL. */
  function Strlen(mem: seq<Byte>): (n: nat)
    requires 0 in mem
    ensures n < |mem| && mem[n] == 0 && 0 !in mem[..n]
  {
    if mem[0] == 0 then 0
    else
      assert mem == [mem[0]] + mem[1..];
      var n := Strlen(mem[1..]);
      assert mem[..n + 1] == [mem[0]] + mem[1..][..n];
      n + 1
  }

  /**
   fdb_get measures its key with strlen(), fdb_set is told the length of its own. For a key without NULs that
   is followed by one in memory, both choose the same partition.
   */
  lemma PartitionsAgree(k: Key, mem: seq<Byte>, size: nat)
    requires size > 0 && 0 !in k.bytes && |k.bytes| < |mem| && mem[..|k.bytes|] == k.bytes && mem[|k.bytes|] == 0
    ensures 0 in mem && PartitionAt(mem, Strlen(mem), size) == PartitionAt(mem, |k.bytes|, size) == PartitionOf(k, size)
  {
    FirstNul(mem, |k.bytes|);
    assert forall j | 0 <= j < |k.bytes| :: mem[j] == mem[..|k.bytes|][j];
  }

  lemma {:induction false} FirstNul(mem: seq<Byte>, n: nat)
    requires n < |mem| && mem[n] == 0 && 0 !in mem[..n]
    ensures 0 in mem && Strlen(mem) == n
  {
    if n > 0 {
      assert mem[..n][0] == mem[0];
      assert mem[1..][..n - 1] == mem[..n][1..];
      FirstNul(mem[1..], n - 1);
    }
  }

  /** The deadline of an entry set at time now: an absolute time, a number of seconds, or the default. */
  function Deadline(expire: int, now: int, expireMax: nat, expireDefault: nat): (d: int)
    requires now > 0
    ensures d > 0
  {
    if expire > 0 then (if expire > expireMax then expire else now + expire) else now + expireDefault
  }

  lemma DeadlineMeans(v: Value, expire: int, now: int, expireMax: nat, expireDefault: nat)
    requires now > 0
    ensures forall t :: Answer(Some(Cached(v, Deadline(expire, now, expireMax, expireDefault))), t) ==
              if (0 < expire <= expireMax && t < now + expire) || (expire > expireMax && t < expire) ||
                 (expire <= 0 && t < now + expireDefault)
              then Some(v) else None
  {
  }

  function SumOf(s: seq<nat>): int {
    Sum((x: nat) => x, s)
  }

  lemma SumOfNext(s: seq<nat>, i: nat)
    requires i < |s|
    ensures SumOf(s[..i + 1]) == SumOf(s[..i]) + s[i]
  {
    assert s[..i + 1] == s[..i] + [s[i]];
    SumSnoc((x: nat) => x, s[..i], s[i]);
  }

  lemma SumOfUpdate(s: seq<nat>, i: nat, x: nat)
    requires i < |s|
    ensures SumOf(s[i := x]) == SumOf(s) - s[i] + x
  {
    SumUpdate((x: nat) => x, s, i, x);
  }

  class Group {
    const parts: seq<Partition>
    const expireMax: nat
    const expireDefault: nat
    var now: int

    ghost predicate Valid()
      reads this, parts
    {
      && |parts| > 0 && now > 0
      && (forall i, j | 0 <= i < j < |parts| :: parts[i] != parts[j])
      && (forall i | 0 <= i < |parts| :: parts[i].Valid())
      && (forall i, k | 0 <= i < |parts| && k in parts[i].hash :: PartitionOf(k, |parts|) == i)
    }

    /** The expiring map: what is cached for a key, wherever its partition is. */
    ghost function Lookup(k: Key): Option<Cached>
      requires Valid()
      reads this, parts
    {
      var view := parts[PartitionOf(k, |parts|)].View();
      if k in view then Some(view[k]) else None
    }

    /** fdb_hashes_new */
    constructor (size: nat, expireMax: nat, expireDefault: nat, now: int)
      requires size > 0 && now > 0
      ensures Valid() && fresh(parts) && this.now == now && this.expireMax == expireMax &&
              this.expireDefault == expireDefault
      ensures forall k :: Lookup(k) == None
    {
      var ps: seq<Partition> := [];
      while |ps| < size
        invariant |ps| <= size
        invariant forall i | 0 <= i < |ps| :: fresh(ps[i]) && ps[i].Valid() && ps[i].hash == map[]
        invariant forall i, j | 0 <= i < j < |ps| :: ps[i] != ps[j]
      {
        var p := new Partition();
        ps := ps + [p];
      }
      parts := ps;
      this.expireMax, this.expireDefault, this.now := expireMax, expireDefault, now;
    }

    /** fdb_get */
    method Get(k: Key) returns (r: Option<Value>)
      requires Valid()
      modifies parts
      ensures Valid() && (forall j :: Lookup(j) == old(Lookup(j)))
      ensures r == match Lookup(k) { case None => None case Some(c) => if c.expire > now then Some(c.value) else None }
    {
      var i := PartitionOf(k, |parts|);
      r := parts[i].Get(k, now);
    }

    /** fdb_set: the last set of a key wins and touches no other key. */
    method Set(k: Key, v: Value, expire: int)
      requires Valid()
      modifies parts
      ensures Valid() && Lookup(k) == Some(Cached(v, Deadline(expire, now, expireMax, expireDefault)))
      ensures forall j | j != k :: Lookup(j) == old(Lookup(j))
      // a number of seconds up to the limit, a later point in time, or the default
      ensures forall t :: Answer(Lookup(k), t) ==
                if (0 < expire <= expireMax && t < now + expire) || (expire > expireMax && t < expire) ||
                   (expire <= 0 && t < now + expireDefault)
                then Some(v) else None
    {
      hide Shard.Ok, Shard.View, Bytes, Deadline, Answer;
      var i := PartitionOf(k, |parts|);
      parts[i].Set(k, v, Deadline(expire, now, expireMax, expireDefault), now);
      assert Lookup(k) == Some(Cached(v, Deadline(expire, now, expireMax, expireDefault)));
      hide Valid, Lookup, PartitionOf;
      DeadlineMeans(v, expire, now, expireMax, expireDefault);
    }

    ghost function Sizes(): seq<nat>
      reads this, parts
    {
      seq(|parts|, i requires 0 <= i < |parts| reads this, parts => |parts[i].hash|)
    }

    /** fdb_truncate_all: one pass over all partitions, every key forgotten and counted. */
    method TruncateAll() returns (total: nat)
      requires Valid()
      modifies parts
      ensures Valid() && (forall k :: Lookup(k) == None) && total == SumOf(old(Sizes()))
    {
      assert SumOf([]) == 0;
      hide Valid, Shard.Ok, Lookup, SumOf;
      ghost var sizes := Sizes();
      total := 0;
      var i := 0;
      assert sizes[..0] == [];
      while i < |parts|
        invariant 0 <= i <= |parts| && Valid()
        invariant forall j | 0 <= j < i :: parts[j].hash == map[]
        invariant forall j | i <= j < |parts| :: |parts[j].hash| == sizes[j]
        invariant total == SumOf(sizes[..i])
      {
        var n := ClearPartition(i);
        SumOfNext(sizes, i);
        total := total + n;
        i := i + 1;
      }
      assert sizes[..i] == sizes;
      AllCleared();
    }

    method ClearPartition(i: nat) returns (n: nat)
      requires Valid() && i < |parts|
      modifies parts
      ensures Valid() && n == old(|parts[i].hash|) && parts[i].hash == map[]
      ensures forall j | 0 <= j < |parts| && j != i :: parts[j].hash == old(parts[j].hash)
    {
      hide Shard.Ok, PartitionOf, Bytes, Shard.View;
      n := parts[i].Clear();
    }

    lemma AllCleared()
      requires Valid() && forall j | 0 <= j < |parts| :: parts[j].hash == map[]
      ensures forall k :: Lookup(k) == None
    {
    }

    /** The tables, arrays, entries and cursors of the partitions. */
    ghost function Sweeps(): (s: seq<(Shard, nat)>)
      reads this, parts
      ensures |s| == |parts|
    {
      seq(|parts|, i requires 0 <= i < |parts| reads this, parts => (parts[i].AsShard(), parts[i].purgeIdx))
    }

    /** The bytes of each partition's entries. */
    ghost function Loads(): seq<nat>
      requires Valid()
      reads this, parts
    {
      seq(|parts|, i requires Valid() && 0 <= i < |parts| reads this,
          parts => Bytes(parts[i].entries, parts[i].ptrArray))
    }

    /** One round of purgeHash_thread: the clock is read, then one chunk of every partition is purged. */
    method PurgeRound(clock: int, loop: nat, time: nat) returns (freed: nat)
      requires Valid() && clock >= now && 0 < loop <= time
      modifies this, parts
      ensures Valid() && now == clock
      // no later get can tell the difference
      ensures forall k, t | t >= now :: Answer(Lookup(k), t) == old(Answer(Lookup(k), t))
      ensures SumOf(Loads()) == SumOf(old(Loads())) - freed
      // and every partition has been purged by one chunk
      ensures forall i | 0 <= i < |parts| :: Purged(old(Sweeps())[i], Sweeps()[i], now)
    {
      hide Valid, Shard.Ok, Bytes, Lookup, Answer, SumOf, Purged;
      ghost var loads0, sweeps0 := Loads(), Sweeps();
      SetClock(clock);
      freed := 0;
      var i := 0;
      while i < |parts|
        invariant 0 <= i <= |parts| && Valid() && now == clock
        invariant forall k, t | t >= now :: Answer(Lookup(k), t) == old(Answer(Lookup(k), t))
        invariant SumOf(Loads()) == SumOf(loads0) - freed
        invariant forall j | 0 <= j < i :: Purged(sweeps0[j], Sweeps()[j], now)
        invariant forall j | i <= j < |parts| :: Sweeps()[j] == sweeps0[j]
      {
        ghost var loads := Loads();
        var f := PurgePart(i, loop, time);
        SumOfUpdate(loads, i, Loads()[i]);
        freed := freed + f;
        i := i + 1;
      }
    }

    method SetClock(clock: int)
      requires Valid() && clock >= now
      modifies `now
      ensures Valid() && now == clock && Loads() == old(Loads()) && Sweeps() == old(Sweeps())
      ensures forall k :: Lookup(k) == old(Lookup(k))
    {
      hide Bytes, Shard.Ok;
      now := clock;
    }

    /** The chunk of one partition. */
    method PurgePart(i: nat, loop: nat, time: nat) returns (freed: nat)
      requires Valid() && i < |parts| && 0 < loop <= time
      modifies parts
      ensures Valid() && (forall k, t | t >= now :: Answer(Lookup(k), t) == old(Answer(Lookup(k), t)))
      ensures Loads() == old(Loads())[i := Loads()[i]] && Loads()[i] == old(Loads())[i] - freed
      ensures Sweeps() == old(Sweeps())[i := Sweeps()[i]] && Purged(old(Sweeps())[i], Sweeps()[i], now)
    {
      hide Shard.Ok, Bytes, SameAnswers, GoneOrSurvives, KeepsReferenced, Survives, Below;
      freed := parts[i].PurgeChunk(now, loop, time);
      forall k, t | t >= now
        ensures Answer(Lookup(k), t) == old(Answer(Lookup(k), t))
      {
        if PartitionOf(k, |parts|) == i {
          SameAnswer(old(parts[i].AsShard()), parts[i].AsShard(), now, k, t);
        }
      }
    }
  }

  /** What a get at time t makes of the map's answer. */
  function Answer(c: Option<Cached>, t: int): Option<Value> {
    if c.Some? && c.value.expire > t then Some(c.value.value) else None
  }

  lemma SameAnswer(s: Shard, t: Shard, now: int, k: Key, time: int)
    requires s.Ok() && t.Ok() && SameAnswers(s, t, now) && time >= now
    ensures Answer(if k in s.View() then Some(s.View()[k]) else None, time) ==
            Answer(if k in t.View() then Some(t.View()[k]) else None, time)
  {
    if k in s.hash && s.View()[k].expire > time {
      assert s.Serves(k, time, s.View()[k].value);
    }
    if k in t.hash && t.View()[k].expire > time {
      assert t.Serves(k, time, t.View()[k].value);
    }
  }
}
