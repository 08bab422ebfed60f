/**
 The query cache under concurrency: any number of threads get, set, truncate and purge, and
 their atomic steps interleave in every way the per-partition read/write locks allow. Updates
 of the hash table and of the array that only a lock holder can see are one step with the
 visible change they accompany; everything a reader can see without the lock is a step of its own.
 */
module CacheProtocol {
  import opened Wire
  import opened Sequences
  import opened CacheShard
  import opened QueryCache

  /** Where a thread is, with its locals. */
  datatype Pc =
    | Idle
    // fdb_get: read lock, lookup, reference, unlock, compare and copy, release.
    // seen is the value the table held for the key at the lookup.
    | GetLocked(key: Key)
    | GetFound(key: Key, id: Id, seen: Value)
    | GetHeld(key: Key, id: Id, seen: Value)
    | GetUnlocked(key: Key, id: Id, seen: Value)
    | GetCopied(key: Key, id: Id, seen: Value, result: Option<Value>)
    // the admission check and fdb_set: write lock, insert, unlock, three counter updates
    | SetAdmitted(key: Key, entry: Entry)
    | SetLocked(key: Key, entry: Entry)
    | SetMapped(key: Key, left: seq<nat>)
    | SetCounting(left: seq<nat>)
    // fdb_truncate_all: take every write lock, clear every table, give the locks back
    | TruncLocking(next: nat)
    | TruncClearing(next: nat)
    | TruncUnlocking(next: nat)
    // purgeHash_thread in one partition: expire, look at the references, three counter updates, free
    | Purging(part: nat)
    | PurgeVisited(part: nat, idx: nat)
    | PurgeDoomed(part: nat, idx: nat, total: nat, left: seq<nat>)
  {
    predicate Reads(i: nat, size: nat)
      requires size > 0
    {
      (GetLocked? || GetFound? || GetHeld?) && PartitionOf(key, size) == i
    }

    predicate Writes(i: nat, size: nat)
      requires size > 0
    {
      || ((SetLocked? || SetMapped?) && PartitionOf(key, size) == i)
      || (TruncLocking? && i < next)
      || TruncClearing?
      || (TruncUnlocking? && next <= i)
      || ((Purging? || PurgeVisited? || PurgeDoomed?) && part == i)
    }

    /** Between the increment and the decrement of an entry's reference count. */
    predicate Holds(i: nat, id: Id, size: nat)
      requires size > 0
    {
      (GetHeld? || GetUnlocked? || GetCopied?) && PartitionOf(key, size) == i && this.id == id
    }
  }

  function Total(left: seq<nat>): nat {
    if left == [] then 0 else left[0] + Total(left[1..])
  }

  /** The three counter updates of one entry: size_keys, size_values, size_metas. */
  function Pieces(e: Entry): (left: seq<nat>)
    ensures Total(left) == e.Bytes()
  {
    assert Total([ENTRY_OVERHEAD]) == ENTRY_OVERHEAD;
    assert [|e.value|, ENTRY_OVERHEAD][1..] == [ENTRY_OVERHEAD];
    assert [|e.key.bytes|, |e.value|, ENTRY_OVERHEAD][1..] == [|e.value|, ENTRY_OVERHEAD];
    [|e.key.bytes|, |e.value|, ENTRY_OVERHEAD]
  }

  /** used is size_keys + size_values + size_metas. */
  datatype State = State(shards: seq<Shard>, threads: seq<Pc>, used: int, now: int, nextId: Id)
  {
    predicate NoWriter(t: nat, i: nat)
      requires |shards| > 0
    {
      forall u | 0 <= u < |threads| && u != t :: !threads[u].Writes(i, |shards|)
    }

    predicate NoLock(t: nat, i: nat)
      requires |shards| > 0
    {
      forall u | 0 <= u < |threads| && u != t :: !threads[u].Writes(i, |shards|) && !threads[u].Reads(i, |shards|)
    }

    function FreeMemory(maxMemory: nat): int {
      if used > maxMemory then 0 else maxMemory - used
    }

    function Goto(t: nat, pc: Pc): State
      requires t < |threads|
    {
      this.(threads := threads[t := pc])
    }

    function With(i: nat, s: Shard): State
      requires i < |shards|
    {
      this.(shards := shards[i := s])
    }

    function Part(k: Key): (i: nat)
      requires |shards| > 0
      ensures i < |shards|
    {
      PartitionOf(k, |shards|)
    }
  }

  datatype Action =
    | Tick(clock: int)
    | LockGet(key: Key) | Lookup | Reference | UnlockGet | Copy | Release
    | Admit(entry: Entry) | LockSet | Insert | UnlockSet | CountUp
    | StartTruncate | LockNext | ClearNext | UnlockNext
    | LockPurge(part: nat) | Expire(idx: nat) | Decide | CountDown | Reclaim | UnlockPurge

  /** What a run is about: the memory limit, and a bound on the bytes of one entry. */
  datatype Limits = Limits(maxMemory: nat, maxEntry: nat)

  // ----- the steps of thread t -----

  ghost predicate GetStep(s: State, t: nat, a: Action, r: State)
    requires |s.shards| > 0 && t < |s.threads|
  {
    var pc := s.threads[t];
    match a
    case LockGet(k) => pc.Idle? && s.NoWriter(t, s.Part(k)) && r == s.Goto(t, GetLocked(k))
    case Lookup =>
      && pc.GetLocked?
      && var shard := s.shards[s.Part(pc.key)];
         if pc.key in shard.hash
         then
           && shard.hash[pc.key] in shard.store
           && r == s.Goto(t, GetFound(pc.key, shard.hash[pc.key], shard.store[shard.hash[pc.key]].value))
         else r == s.Goto(t, Idle)
    case Reference =>
      && pc.GetFound? && pc.id in s.shards[s.Part(pc.key)].store
      && var i := s.Part(pc.key);
         var e := s.shards[i].store[pc.id];
         r == s.With(i, Touch(s.shards[i], pc.id, e.(refCount := e.refCount + 1))).Goto(t,
             GetHeld(pc.key, pc.id, pc.seen))
    case UnlockGet => pc.GetHeld? && r == s.Goto(t, GetUnlocked(pc.key, pc.id, pc.seen))
    case Copy =>
      && pc.GetUnlocked? && pc.id in s.shards[s.Part(pc.key)].store
      && var i := s.Part(pc.key);
         var e := s.shards[i].store[pc.id];
         var e' := if s.now < e.expire && e.access < s.now then e.(access := s.now) else e;
         r == s.With(i, Touch(s.shards[i], pc.id, e')).Goto(t,
             GetCopied(pc.key, pc.id, pc.seen, if s.now < e.expire then Some(e.value) else None))
    case Release =>
      && pc.GetCopied? && pc.id in s.shards[s.Part(pc.key)].store
      && var i := s.Part(pc.key);
         var e := s.shards[i].store[pc.id];
         e.refCount > 0 && r == s.With(i, Touch(s.shards[i], pc.id, e.(refCount := e.refCount - 1))).Goto(t, Idle)
    case _ => false
  }

  function Touch(s: Shard, id: Id, e: Entry): Shard {
    s.(store := s.store[id := e])
  }

  ghost predicate SetStep(c: Limits, s: State, t: nat, a: Action, r: State)
    requires |s.shards| > 0 && t < |s.threads|
  {
    var pc := s.threads[t];
    match a
    case Admit(e) =>
      && pc.Idle? && e.expire != EXPIRE_DROPIT && e.refCount == 0 && e.Bytes() <= c.maxEntry
      && r == s.Goto(t, if e.Bytes() > s.FreeMemory(c.maxMemory) then Idle else SetAdmitted(e.key, e))
    case LockSet => pc.SetAdmitted? && s.NoLock(t, s.Part(pc.key)) && r == s.Goto(t, SetLocked(pc.key, pc.entry))
    case Insert =>
      && pc.SetLocked? && s.shards[s.Part(pc.key)].HashOk()
      && var i := s.Part(pc.key);
         r == s.With(i, s.shards[i].Insert(s.nextId, pc.entry)).(nextId := s.nextId + 1).Goto(t,
             SetMapped(pc.key, Pieces(pc.entry)))
    case UnlockSet => pc.SetMapped? && r == s.Goto(t, SetCounting(pc.left))
    case CountUp =>
      && pc.SetCounting?
      && if pc.left == [] then r == s.Goto(t, Idle)
         else r == s.(used := s.used + pc.left[0]).Goto(t, SetCounting(pc.left[1..]))
    case _ => false
  }

  ghost predicate TruncateStep(s: State, t: nat, a: Action, r: State)
    requires |s.shards| > 0 && t < |s.threads|
  {
    var pc := s.threads[t];
    match a
    case StartTruncate => pc.Idle? && r == s.Goto(t, TruncLocking(0))
    case LockNext =>
      && pc.TruncLocking? && pc.next <= |s.shards|
      && if pc.next == |s.shards| then r == s.Goto(t, TruncClearing(0))
         else s.NoLock(t, pc.next) && r == s.Goto(t, TruncLocking(pc.next + 1))
    case ClearNext =>
      && pc.TruncClearing? && pc.next <= |s.shards|
      && if pc.next == |s.shards| then r == s.Goto(t, TruncUnlocking(0))
         else s.shards[pc.next].HashOk() && r == s.With(pc.next, s.shards[pc.next].Clear()).Goto(t,
             TruncClearing(pc.next + 1))
    case UnlockNext =>
      && pc.TruncUnlocking?
      && r == s.Goto(t, if pc.next >= |s.shards| then Idle else TruncUnlocking(pc.next + 1))
    case _ => false
  }

  ghost predicate PurgeStep(s: State, t: nat, a: Action, r: State)
    requires |s.shards| > 0 && t < |s.threads|
  {
    var pc := s.threads[t];
    match a
    case LockPurge(i) => pc.Idle? && i < |s.shards| && s.NoLock(t, i) && r == s.Goto(t, Purging(i))
    case Expire(idx) =>
      && pc.Purging? && pc.part < |s.shards| && s.shards[pc.part].Ok() && idx < |s.shards[pc.part].arr|
      && r == s.With(pc.part, QueryCache.Expire(s.shards[pc.part], idx, s.now)).Goto(t, PurgeVisited(pc.part, idx))
    case Decide =>
      && pc.PurgeVisited? && pc.part < |s.shards| && pc.idx < |s.shards[pc.part].arr|
      && s.shards[pc.part].arr[pc.idx] in s.shards[pc.part].store
      && var e := s.shards[pc.part].store[s.shards[pc.part].arr[pc.idx]];
         var doomed := e.expire == EXPIRE_DROPIT && e.refCount == 0;
         r == s.Goto(t, if doomed then PurgeDoomed(pc.part, pc.idx, e.Bytes(), Pieces(e)) else Purging(pc.part))
    case CountDown =>
      && pc.PurgeDoomed? && pc.left != []
      && r == s.(used := s.used - pc.left[0]).Goto(t, PurgeDoomed(pc.part, pc.idx, pc.total, pc.left[1..]))
    case Reclaim =>
      && pc.PurgeDoomed? && pc.left == [] && pc.part < |s.shards| && pc.idx < |s.shards[pc.part].arr|
      && r == s.With(pc.part, s.shards[pc.part].Free(pc.idx)).Goto(t, Purging(pc.part))
    case UnlockPurge => pc.Purging? && r == s.Goto(t, Idle)
    case _ => false
  }

  ghost predicate Next(c: Limits, s: State, t: nat, a: Action, r: State) {
    && |s.shards| > 0
    && if a.Tick? then s.now <= a.clock && r == s.(now := a.clock)
       else
         && t < |s.threads|
         && (GetStep(s, t, a, r) || SetStep(c, s, t, a, r) || TruncateStep(s, t, a, r) || PurgeStep(s, t, a, r))
  }

  /** A run: every state follows from the one before by some step of some thread. */
  ghost predicate Run(c: Limits, run: seq<State>, events: seq<(nat, Action)>) {
    && |run| == |events| + 1 && Initial(run[0])
    && forall n | 0 <= n < |events| :: Next(c, run[n], events[n].0, events[n].1, run[n + 1])
  }

  /** fdb_hashes_new; every thread is idle, and the clock is what time(NULL) returns. */
  ghost predicate Initial(s: State) {
    && |s.shards| > 0 && |s.threads| > 0 && s.used == 0 && s.now >= 0
    && (forall i | 0 <= i < |s.shards| :: s.shards[i] == Shard(map[], [], map[]))
    && (forall t | 0 <= t < |s.threads| :: s.threads[t] == Idle)
  }

  // ----- the invariant -----

  function HolderOf(i: nat, id: Id, size: nat): Pc -> int
    requires size > 0
  {
    (pc: Pc) => if pc.Holds(i, id, size) then 1 else 0
  }

  ghost predicate ShardsOk(s: State) {
    && |s.shards| > 0
    && (forall i | 0 <= i < |s.shards| :: s.shards[i].Ok())
    && (forall i, id | 0 <= i < |s.shards| && id in s.shards[i].store ::
      id < s.nextId && s.Part(s.shards[i].store[id].key) == i)
  }

  /** A write lock excludes every other lock on the partition. */
  ghost predicate LocksOk(s: State) {
    && |s.shards| > 0
    && forall t, u, i | 0 <= t < |s.threads| && 0 <= u < |s.threads| && t != u && 0 <= i < |s.shards| &&
      s.threads[t].Writes(i, |s.shards|) ::
         !s.threads[u].Writes(i, |s.shards|) && !s.threads[u].Reads(i, |s.shards|)
  }

  /** The entry a thread refers to is allocated and is still what the thread took it for. */
  ghost predicate PcOk(s: State, pc: Pc)
    requires ShardsOk(s)
  {
    && ((pc.GetFound? || pc.GetHeld? || pc.GetUnlocked? || pc.GetCopied?) ==>
          var store := s.shards[s.Part(pc.key)].store;
          pc.id in store && store[pc.id].key == pc.key && store[pc.id].value == pc.seen)
    && (pc.GetCopied? ==> pc.result == None || pc.result == Some(pc.seen))
    && (pc.SetAdmitted? || pc.SetLocked? ==>
      pc.entry.key == pc.key && pc.entry.expire != EXPIRE_DROPIT && pc.entry.refCount == 0)
    && (pc.TruncLocking? || pc.TruncClearing? ==> pc.next <= |s.shards|)
    && (pc.Purging? || pc.PurgeVisited? || pc.PurgeDoomed? ==> pc.part < |s.shards|)
    && (pc.PurgeVisited? || pc.PurgeDoomed? ==> pc.idx < |s.shards[pc.part].arr|)
    && (pc.PurgeDoomed? ==>
          var e := s.shards[pc.part].store[s.shards[pc.part].arr[pc.idx]];
          e.expire == EXPIRE_DROPIT && e.refCount == 0 && e.Bytes() == pc.total)
  }

  ghost predicate PcsOk(s: State) {
    ShardsOk(s) && forall t | 0 <= t < |s.threads| :: PcOk(s, s.threads[t])
  }

  /** The reference count of an entry is the number of threads that hold it. */
  ghost predicate RefsOk(s: State) {
    && |s.shards| > 0
    && forall i, id | 0 <= i < |s.shards| && id in s.shards[i].store ::
         s.shards[i].store[id].refCount == Sum(HolderOf(i, id, |s.shards|), s.threads)
  }

  ghost predicate Safe(s: State) {
    LocksOk(s) && PcsOk(s) && RefsOk(s)
  }

  // ----- one step of thread t keeps the locks exclusive -----

  lemma LocksStep(s: State, t: nat, pc: Pc, r: State)
    requires LocksOk(s) && t < |s.threads| && r.threads == s.threads[t := pc] && |r.shards| == |s.shards|
    requires forall i | 0 <= i < |s.shards| && pc.Writes(i, |s.shards|) ::
             s.threads[t].Writes(i, |s.shards|) || s.NoLock(t, i)
    requires forall i | 0 <= i < |s.shards| && pc.Reads(i, |s.shards|) ::
             s.threads[t].Reads(i, |s.shards|) || s.NoWriter(t, i)
    ensures LocksOk(r)
  {
    hide Pc.Writes, Pc.Reads;
    var n := |s.shards|;
    forall a, b, i | 0 <= a < |r.threads| && 0 <= b < |r.threads| && a != b && 0 <= i < n && r.threads[a].Writes(i, n)
      ensures !r.threads[b].Writes(i, n) && !r.threads[b].Reads(i, n)
    {
      if a == t {
        assert r.threads[b] == s.threads[b];
      } else if b == t {
        assert r.threads[a] == s.threads[a];
      }
    }
  }

  lemma LocksKept(c: Limits, s: State, t: nat, a: Action, r: State)
    requires LocksOk(s) && Next(c, s, t, a, r)
    ensures LocksOk(r)
  {
    hide LocksOk, GetStep, SetStep, TruncateStep, PurgeStep;
    if a.Tick? {
      LocksFrame(s, r);
    } else if GetStep(s, t, a, r) {
      GetLocks(s, t, a, r);
    } else if SetStep(c, s, t, a, r) {
      SetLocks(c, s, t, a, r);
    } else if TruncateStep(s, t, a, r) {
      TruncateLocks(s, t, a, r);
    } else {
      PurgeLocks(s, t, a, r);
    }
  }

  lemma GetLocks(s: State, t: nat, a: Action, r: State)
    requires |s.shards| > 0 && LocksOk(s) && t < |s.threads| && GetStep(s, t, a, r)
    ensures LocksOk(r)
  {
    hide LocksOk;
    LocksStep(s, t, r.threads[t], r);
  }

  lemma SetLocks(c: Limits, s: State, t: nat, a: Action, r: State)
    requires |s.shards| > 0 && LocksOk(s) && t < |s.threads| && SetStep(c, s, t, a, r)
    ensures LocksOk(r)
  {
    hide LocksOk;
    LocksStep(s, t, r.threads[t], r);
  }

  lemma TruncateLocks(s: State, t: nat, a: Action, r: State)
    requires |s.shards| > 0 && LocksOk(s) && t < |s.threads| && TruncateStep(s, t, a, r)
    ensures LocksOk(r)
  {
    hide LocksOk;
    LocksStep(s, t, r.threads[t], r);
  }

  lemma PurgeLocks(s: State, t: nat, a: Action, r: State)
    requires |s.shards| > 0 && LocksOk(s) && t < |s.threads| && PurgeStep(s, t, a, r)
    ensures LocksOk(r)
  {
    hide LocksOk;
    LocksStep(s, t, r.threads[t], r);
  }

  lemma LocksFrame(s: State, r: State)
    requires LocksOk(s) && r.threads == s.threads && |r.shards| == |s.shards|
    ensures LocksOk(r)
  {
  }

  // ----- steps that change no partition -----

  lemma LocalStep(s: State, t: nat, pc: Pc, r: State)
    requires PcsOk(s) && RefsOk(s) && t < |s.threads|
    requires r.threads == s.threads[t := pc] && r.shards == s.shards && r.nextId == s.nextId
    requires PcOk(s, pc)
    requires forall i, id :: pc.Holds(i, id, |s.shards|) <==> s.threads[t].Holds(i, id, |s.shards|)
    ensures PcsOk(r) && RefsOk(r)
  {
    hide Pc.Holds, Shard.Ok;
    forall u | 0 <= u < |r.threads|
      ensures PcOk(r, r.threads[u])
    {
      assert PcOk(s, r.threads[u]);
    }
    forall i, id | 0 <= i < |r.shards| && id in r.shards[i].store
      ensures r.shards[i].store[id].refCount == Sum(HolderOf(i, id, |r.shards|), r.threads)
    {
      SumUpdate(HolderOf(i, id, |s.shards|), s.threads, t, pc);
    }
  }

  // ----- steps that change the counts of one entry -----

  lemma TouchStep(s: State, t: nat, id: Id, e: Entry, pc: Pc, r: State)
    requires PcsOk(s) && RefsOk(s) && t < |s.threads|
    requires s.threads[t].GetFound? || s.threads[t].GetUnlocked? || s.threads[t].GetCopied?
    requires id == s.threads[t].id
    requires var i := s.Part(s.threads[t].key);
             var was := s.shards[i].store[id];
             && e == was.(refCount := e.refCount, access := e.access)
             && r == s.With(i, Touch(s.shards[i], id, e)).Goto(t, pc)
             // a thread about to free the entry sees its count unchanged
             && (forall u | 0 <= u < |s.threads| && s.threads[u].PurgeDoomed? && s.threads[u].part == i ::
               s.shards[i].arr[s.threads[u].idx] != id || e.refCount == 0)
             && (forall j, id' ::
               (pc.Holds(j, id', |s.shards|) <==> s.threads[t].Holds(j, id', |s.shards|)) || (j == i && id' == id))
             && e.refCount - was.refCount == HolderOf(i, id, |s.shards|)(pc) - HolderOf(i, id, |s.shards|)(s.threads[t])
    requires (pc.Idle? || pc.GetHeld? || pc.GetCopied?) && PcOk(s, pc)
    ensures PcsOk(r) && RefsOk(r)
  {
    PcsOkAt(s, t);
    hide Shard.Ok, Pc.Holds, PcsOk;
    var i := s.Part(s.threads[t].key);
    TouchPcs(s, t, i, id, e, pc, r);
    TouchRefs(s, t, i, id, e, pc, r);
  }

  /** The count of the entry follows what the thread holds of it; all other counts and holders stay. */
  lemma TouchRefs(s: State, t: nat, i: nat, id: Id, e: Entry, pc: Pc, r: State)
    requires RefsOk(s) && t < |s.threads| && i < |s.shards| && id in s.shards[i].store
    requires r == s.With(i, Touch(s.shards[i], id, e)).Goto(t, pc)
    requires forall j, id' ::
               (pc.Holds(j, id', |s.shards|) <==> s.threads[t].Holds(j, id', |s.shards|)) || (j == i && id' == id)
    requires e.refCount - s.shards[i].store[id].refCount ==
             HolderOf(i, id, |s.shards|)(pc) - HolderOf(i, id, |s.shards|)(s.threads[t])
    ensures RefsOk(r)
  {
    hide Pc.Holds;
    forall j, id' | 0 <= j < |r.shards| && id' in r.shards[j].store
      ensures r.shards[j].store[id'].refCount == Sum(HolderOf(j, id', |r.shards|), r.threads)
    {
      SumUpdate(HolderOf(j, id', |s.shards|), s.threads, t, pc);
    }
  }

  /** What each thread relies on survives a change of counts. */
  lemma TouchPcs(s: State, t: nat, i: nat, id: Id, e: Entry, pc: Pc, r: State)
    requires PcsOk(s) && t < |s.threads| && i < |s.shards| && id in s.shards[i].store
    requires e == s.shards[i].store[id].(refCount := e.refCount, access := e.access)
    requires r == s.With(i, Touch(s.shards[i], id, e)).Goto(t, pc)
    requires forall u | 0 <= u < |s.threads| && s.threads[u].PurgeDoomed? && s.threads[u].part == i ::
               s.shards[i].arr[s.threads[u].idx] != id || e.refCount == 0
    requires (pc.Idle? || pc.GetHeld? || pc.GetCopied?) && PcOk(s, pc)
    ensures PcsOk(r)
  {
    hide Shard.Ok, Pc.Holds;
    assert r.shards[i].Ok() by { TouchOk(s.shards[i], id, e); }
    assert ShardsOk(r);
    forall u | 0 <= u < |r.threads|
      ensures PcOk(r, r.threads[u])
    {
      assert PcOk(s, r.threads[u]);
    }
  }

  // ----- steps that change a partition under its write lock -----

  /** What a step under the write lock may do to the entries that others can see. */
  ghost predicate Evolves(before: Shard, after: Shard, nextId: Id) {
    && (forall id | id in after.store ::
      (id in before.store && after.store[id].key == before.store[id].key &&
          after.store[id].refCount == before.store[id].refCount) || (id == nextId && after.store[id].refCount == 0))
    && (forall id | id in before.store && before.store[id].refCount > 0 ::
          id in after.store && after.store[id].key == before.store[id].key &&
              after.store[id].value == before.store[id].value)
  }

  lemma ExclusiveShards(s: State, i: nat, n: Shard, r: State)
    requires ShardsOk(s) && i < |s.shards| && r.shards == s.shards[i := n] && n.Ok() &&
             Evolves(s.shards[i], n, s.nextId)
    requires s.nextId <= r.nextId
    requires s.nextId in n.store ==> s.nextId < r.nextId && s.Part(n.store[s.nextId].key) == i
    ensures ShardsOk(r)
  {
    hide Shard.Ok;
  }

  /** A held entry survives, unchanged in key and value. */
  lemma HeldSurvives(s: State, i: nat, n: Shard, u: nat)
    requires PcsOk(s) && RefsOk(s) && i < |s.shards| && Evolves(s.shards[i], n, s.nextId) && u < |s.threads|
    requires (s.threads[u].GetHeld? || s.threads[u].GetUnlocked? || s.threads[u].GetCopied?) &&
             s.Part(s.threads[u].key) == i
    ensures var pc := s.threads[u]; pc.id in n.store && n.store[pc.id].key == pc.key && n.store[pc.id].value == pc.seen
  {
    hide Shard.Ok, Sum;
    var pc := s.threads[u];
    assert PcOk(s, pc);
    SumAtLeast(HolderOf(i, pc.id, |s.shards|), s.threads, u);
  }

  lemma NobodyHolds(s: State, i: nat, id: Id)
    requires PcsOk(s) && i < |s.shards| && id !in s.shards[i].store
    ensures Sum(HolderOf(i, id, |s.shards|), s.threads) == 0
  {
    hide Shard.Ok, Sum;
    forall u | 0 <= u < |s.threads|
      ensures HolderOf(i, id, |s.shards|)(s.threads[u]) == 0
    {
      assert PcOk(s, s.threads[u]);
    }
    SumZero(HolderOf(i, id, |s.shards|), s.threads);
  }

  lemma ExclusiveStep(s: State, t: nat, i: nat, n: Shard, pc: Pc, r: State)
    requires Safe(s) && t < |s.threads| && i < |s.shards| && s.threads[t].Writes(i, |s.shards|)
    requires ShardsOk(r) && r.shards == s.shards[i := n] && r.threads == s.threads[t := pc] &&
             Evolves(s.shards[i], n, s.nextId)
    requires PcOk(r, pc) && forall j, id :: !pc.Holds(j, id, |s.shards|)
    ensures PcsOk(r) && RefsOk(r)
  {
    forall u | 0 <= u < |r.threads|
      ensures PcOk(r, r.threads[u])
    {
      if u != t {
        OtherPcOk(s, t, i, n, u, r);
      }
    }
    ExclusiveRefs(s, t, i, n, pc, r);
  }

  lemma OtherPcOk(s: State, t: nat, i: nat, n: Shard, u: nat, r: State)
    requires Safe(s) && t < |s.threads| && i < |s.shards| && s.threads[t].Writes(i, |s.shards|)
    requires ShardsOk(r) && r.shards == s.shards[i := n] && Evolves(s.shards[i], n, s.nextId)
    requires u < |s.threads| && u != t
    ensures PcOk(r, s.threads[u])
  {
    hide Shard.Ok, Evolves, RefsOk;
    var pc := s.threads[u];
    assert PcOk(s, pc);
    assert !pc.Writes(i, |s.shards|) && !pc.Reads(i, |s.shards|);
    if (pc.GetHeld? || pc.GetUnlocked? || pc.GetCopied?) && s.Part(pc.key) == i {
      HeldSurvives(s, i, n, u);
    }
  }

  lemma ExclusiveRefs(s: State, t: nat, i: nat, n: Shard, pc: Pc, r: State)
    requires PcsOk(s) && RefsOk(s) && t < |s.threads| && i < |s.shards| && s.threads[t].Writes(i, |s.shards|)
    requires ShardsOk(r) && r.shards == s.shards[i := n] && r.threads == s.threads[t := pc] &&
             Evolves(s.shards[i], n, s.nextId)
    requires forall j, id :: !pc.Holds(j, id, |s.shards|)
    ensures RefsOk(r)
  {
    hide Shard.Ok, Sum, PcOk;
    forall j, id | 0 <= j < |r.shards| && id in r.shards[j].store
      ensures r.shards[j].store[id].refCount == Sum(HolderOf(j, id, |r.shards|), r.threads)
    {
      SumUpdate(HolderOf(j, id, |s.shards|), s.threads, t, pc);
      if id !in s.shards[j].store {
        NobodyHolds(s, i, id);
      }
    }
  }

  // ----- every step keeps the invariant -----

  lemma GetSafe(s: State, t: nat, a: Action, r: State)
    requires Safe(s) && t < |s.threads| && GetStep(s, t, a, r)
    ensures PcsOk(r) && RefsOk(r)
  {
    hide RefsOk, Shard.ArrayOk, Shard.MarksOk;
    assert PcOk(s, s.threads[t]);
    if a.Reference? {
      ReferenceSafe(s, t, r);
    } else if a.Copy? {
      CopySafe(s, t, r);
    } else if a.Release? {
      ReleaseSafe(s, t, r);
    } else {
      LocalStep(s, t, r.threads[t], r);
    }
  }

  /** The read lock keeps the purger out, so it cannot be about to free the entry. */
  lemma ReferenceSafe(s: State, t: nat, r: State)
    requires Safe(s) && t < |s.threads| && GetStep(s, t, Reference, r)
    ensures PcsOk(r) && RefsOk(r)
  {
    hide RefsOk, Shard.Ok, PcsOk;
    var pc := s.threads[t];
    PcsOkAt(s, t);
    var i := s.Part(pc.key);
    var e := s.shards[i].store[pc.id];
    assert pc.Reads(i, |s.shards|);
    TouchStep(s, t, pc.id, e.(refCount := e.refCount + 1), r.threads[t], r);
  }

  lemma CopySafe(s: State, t: nat, r: State)
    requires Safe(s) && t < |s.threads| && GetStep(s, t, Copy, r)
    ensures PcsOk(r) && RefsOk(r)
  {
    hide RefsOk, LocksOk, Shard.Ok;
    var pc := s.threads[t];
    assert PcOk(s, pc);
    var i := s.Part(pc.key);
    TouchStep(s, t, pc.id, r.shards[i].store[pc.id], r.threads[t], r);
  }

  /** The count of a held entry is positive, so the purger cannot have chosen it. */
  lemma ReleaseSafe(s: State, t: nat, r: State)
    requires Safe(s) && t < |s.threads| && GetStep(s, t, Release, r)
    ensures PcsOk(r) && RefsOk(r)
  {
    hide LocksOk, Shard.Ok, Sum;
    var pc := s.threads[t];
    assert PcOk(s, pc);
    var i := s.Part(pc.key);
    forall u | 0 <= u < |s.threads| && s.threads[u].PurgeDoomed? && s.threads[u].part == i
      ensures s.shards[i].arr[s.threads[u].idx] != pc.id
    {
      assert PcOk(s, s.threads[u]);
    }
    TouchStep(s, t, pc.id, r.shards[i].store[pc.id], r.threads[t], r);
  }

  lemma PcsOkAt(s: State, t: nat)
    requires PcsOk(s) && t < |s.threads|
    ensures ShardsOk(s) && PcOk(s, s.threads[t])
  {
  }

  lemma InsertEvolves(s: Shard, id: Id, e: Entry)
    requires s.Ok() && id !in s.store && e.refCount == 0
    ensures Evolves(s, s.Insert(id, e), id) && s.Insert(id, e).store.Keys == s.store.Keys + {id} &&
            s.Insert(id, e).store[id] == e
  {
  }

  lemma InsertSafe(c: Limits, s: State, t: nat, r: State)
    requires Safe(s) && t < |s.threads| && SetStep(c, s, t, Insert, r)
    ensures PcsOk(r) && RefsOk(r)
  {
    hide RefsOk, LocksOk, Shard.Ok, Evolves, Pieces, Shard.Insert;
    var pc := s.threads[t];
    assert PcOk(s, pc);
    var i := s.Part(pc.key);
    assert s.shards[i].Ok();
    assert s.nextId !in s.shards[i].store;
    InsertEvolves(s.shards[i], s.nextId, pc.entry);
    s.shards[i].InsertOk(s.nextId, pc.entry);
    ExclusiveShards(s, i, r.shards[i], r);
    ExclusiveStep(s, t, i, r.shards[i], r.threads[t], r);
  }

  lemma SetSafe(c: Limits, s: State, t: nat, a: Action, r: State)
    requires Safe(s) && t < |s.threads| && SetStep(c, s, t, a, r)
    ensures PcsOk(r) && RefsOk(r)
  {
    hide RefsOk, LocksOk, Shard.Ok, Shard.HashOk, Pieces;
    assert PcOk(s, s.threads[t]);
    if a.Insert? {
      InsertSafe(c, s, t, r);
    } else {
      LocalStep(s, t, r.threads[t], r);
    }
  }

  lemma TruncateSafe(s: State, t: nat, a: Action, r: State)
    requires Safe(s) && t < |s.threads| && TruncateStep(s, t, a, r)
    ensures PcsOk(r) && RefsOk(r)
  {
    hide RefsOk, LocksOk, Shard.Ok, Shard.HashOk;
    var pc := s.threads[t];
    assert PcOk(s, pc);
    if a.ClearNext? && pc.next < |s.shards| {
      ClearSafe(s, t, r);
    } else {
      LocalStep(s, t, r.threads[t], r);
    }
  }

  lemma ClearEvolves(s: Shard, nextId: Id)
    requires s.Ok()
    ensures Evolves(s, s.Clear(), nextId) && s.Clear().store.Keys == s.store.Keys
  {
  }

  lemma ClearSafe(s: State, t: nat, r: State)
    requires Safe(s) && t < |s.threads| && TruncateStep(s, t, ClearNext, r) && s.threads[t].next < |s.shards|
    ensures PcsOk(r) && RefsOk(r)
  {
    hide RefsOk, LocksOk, Shard.Ok, Evolves, Shard.Clear;
    var pc := s.threads[t];
    assert PcOk(s, pc);
    var i := pc.next;
    assert s.shards[i].Ok();
    ClearEvolves(s.shards[i], s.nextId);
    s.shards[i].ClearOk();
    ExclusiveShards(s, i, r.shards[i], r);
    ExclusiveStep(s, t, i, r.shards[i], r.threads[t], r);
  }

  lemma PurgeSafe(s: State, t: nat, a: Action, r: State)
    requires Safe(s) && t < |s.threads| && PurgeStep(s, t, a, r)
    ensures PcsOk(r) && RefsOk(r)
  {
    hide RefsOk, LocksOk, Shard.Ok, Pieces;
    var pc := s.threads[t];
    assert PcOk(s, pc);
    if a.Expire? {
      ExpireSafe(s, t, a.idx, r);
    } else if a.Reclaim? {
      ReclaimSafe(s, t, r);
    } else {
      LocalStep(s, t, r.threads[t], r);
    }
  }

  lemma ExpireEvolves(s: Shard, idx: nat, now: int, nextId: Id)
    requires s.Ok() && idx < |s.arr|
    ensures Evolves(s, QueryCache.Expire(s, idx, now), nextId) &&
            QueryCache.Expire(s, idx, now).store.Keys == s.store.Keys
  {
    assert s.arr[idx] in s.store;
  }

  lemma ExpireSafe(s: State, t: nat, idx: nat, r: State)
    requires Safe(s) && t < |s.threads| && PurgeStep(s, t, Action.Expire(idx), r)
    ensures PcsOk(r) && RefsOk(r)
  {
    hide RefsOk, LocksOk, Shard.Ok, Evolves, QueryCache.Expire, SameAnswers;
    var pc := s.threads[t];
    assert PcOk(s, pc);
    var i := pc.part;
    ExpireEvolves(s.shards[i], idx, s.now, s.nextId);
    ExpireOk(s.shards[i], idx, s.now);
    ExclusiveShards(s, i, r.shards[i], r);
    ExclusiveStep(s, t, i, r.shards[i], r.threads[t], r);
  }

  lemma FreeEvolves(s: Shard, idx: nat, nextId: Id)
    requires s.Ok() && idx < |s.arr| && s.store[s.arr[idx]].refCount == 0
    ensures Evolves(s, s.Free(idx), nextId) && s.Free(idx).store.Keys <= s.store.Keys
  {
  }

  lemma ReclaimSafe(s: State, t: nat, r: State)
    requires Safe(s) && t < |s.threads| && PurgeStep(s, t, Reclaim, r)
    ensures PcsOk(r) && RefsOk(r)
  {
    hide RefsOk, LocksOk, Shard.Ok, Evolves, Shard.Free;
    var pc := s.threads[t];
    assert PcOk(s, pc);
    var i := pc.part;
    assert s.shards[i].Ok();
    FreeEvolves(s.shards[i], pc.idx, s.nextId);
    s.shards[i].FreeOk(pc.idx);
    ExclusiveShards(s, i, r.shards[i], r);
    ExclusiveStep(s, t, i, r.shards[i], r.threads[t], r);
  }

  /** Every step of every thread keeps locks exclusive, references counted and held entries alive. */
  lemma SafeStep(c: Limits, s: State, t: nat, a: Action, r: State)
    requires Safe(s) && Next(c, s, t, a, r)
    ensures Safe(r)
  {
    hide GetStep, SetStep, TruncateStep, PurgeStep, RefsOk, LocksOk, PcsOk;
    LocksKept(c, s, t, a, r);
    if a.Tick? {
      TickSafe(s, r);
    } else if GetStep(s, t, a, r) {
      GetSafe(s, t, a, r);
    } else if SetStep(c, s, t, a, r) {
      SetSafe(c, s, t, a, r);
    } else if TruncateStep(s, t, a, r) {
      TruncateSafe(s, t, a, r);
    } else {
      PurgeSafe(s, t, a, r);
    }
  }

  lemma TickSafe(s: State, r: State)
    requires PcsOk(s) && RefsOk(s) && r == s.(now := r.now)
    ensures PcsOk(r) && RefsOk(r)
  {
    hide Shard.Ok;
    forall u | 0 <= u < |r.threads|
      ensures PcOk(r, r.threads[u])
    {
      assert PcOk(s, r.threads[u]);
    }
  }

  lemma InitialSafe(s: State)
    requires Initial(s)
    ensures Safe(s)
  {
  }

  lemma {:induction false} RunSafe(c: Limits, run: seq<State>, events: seq<(nat, Action)>, n: nat)
    requires Run(c, run, events) && n < |run|
    ensures Safe(run[n])
  {
    hide Safe, Next, Initial;
    if n == 0 {
      InitialSafe(run[0]);
    } else {
      RunSafe(c, run, events, n - 1);
      SafeStep(c, run[n - 1], events[n - 1].0, events[n - 1].1, run[n]);
    }
  }

  /** A step moves one thread only. */
  lemma OthersWait(c: Limits, s: State, u: nat, a: Action, r: State)
    requires Next(c, s, u, a, r)
    ensures |r.shards| == |s.shards| && |r.threads| == |s.threads|
    ensures forall t | 0 <= t < |s.threads| && (t != u || a.Tick?) :: r.threads[t] == s.threads[t]
  {
  }

  lemma HolderGets(c: Limits, s: State, t: nat, a: Action, r: State, i: nat, id: Id)
    requires Next(c, s, t, a, r) && !a.Tick? && t < |s.threads| && s.threads[t].Holds(i, id, |s.shards|)
    ensures GetStep(s, t, a, r)
  {
  }

  lemma OwnStep(s: State, t: nat, a: Action, r: State, i: nat, id: Id)
    requires ShardsOk(s) && t < |s.threads| && PcOk(s, s.threads[t]) && GetStep(s, t, a, r)
    requires i < |s.shards| && s.threads[t].Holds(i, id, |s.shards|)
    ensures id in r.shards[i].store && r.shards[i].store[id].value == s.shards[i].store[id].value
  {
    hide Shard.Ok, Shard.HashOk;
  }

  /** No entry is freed while a getter holds it: whatever thread steps next, the entry and its value remain. */
  lemma HeldNotFreed(c: Limits, s: State, u: nat, a: Action, r: State, t: nat, i: nat, id: Id)
    requires Safe(s) && Next(c, s, u, a, r) && t < |s.threads| && i < |s.shards| &&
             s.threads[t].Holds(i, id, |s.shards|)
    ensures |r.shards| == |s.shards| && id in s.shards[i].store && id in r.shards[i].store
    ensures r.shards[i].store[id].value == s.shards[i].store[id].value
  {
    hide RefsOk, LocksOk, Shard.Ok, Next, PcsOk, GetStep;
    PcsOkAt(s, t);
    OthersWait(c, s, u, a, r);
    if u != t || a.Tick? {
      SafeStep(c, s, u, a, r);
      PcsOkAt(r, t);
    } else {
      HolderGets(c, s, t, a, r, i, id);
      OwnStep(s, t, a, r, i, id);
    }
  }

  /** No freed entry is reachable: what a table or a side array refers to is allocated. */
  lemma NothingDangles(s: State, i: nat, k: Key, j: nat)
    requires Safe(s) && i < |s.shards|
    ensures k in s.shards[i].hash ==> s.shards[i].hash[k] in s.shards[i].store
    ensures j < |s.shards[i].arr| ==> s.shards[i].arr[j] in s.shards[i].store
  {
    hide RefsOk, LocksOk;
    assert s.shards[i].Ok();
  }

  predicate AfterLookup(pc: Pc, key: Key, id: Id, seen: Value) {
    && (pc.GetFound? || pc.GetHeld? || pc.GetUnlocked? || pc.GetCopied?)
    && pc.key == key && pc.id == id && pc.seen == seen
  }

  /** At state m thread t looks the key up and the table holds value v for it; the get is still going on at n. */
  ghost predicate LookedUp(run: seq<State>, events: seq<(nat, Action)>, m: nat, n: nat, t: nat, key: Key, id: Id,
                           v: Value)
    requires |run| == |events| + 1
  {
    && m < n < |run| && events[m] == (t, Lookup)
    && |run[m].shards| > 0 && t < |run[m].threads| && run[m].threads[t] == GetLocked(key)
    && Holding(run[m].shards[run[m].Part(key)], key, id, v)
    && forall q | m < q <= n :: t < |run[q].threads| && AfterLookup(run[q].threads[t], key, id, v)
  }

  predicate Holding(s: Shard, key: Key, id: Id, v: Value) {
    key in s.hash && s.hash[key] == id && id in s.store && s.store[id].value == v
  }

  lemma LookupStep(c: Limits, s: State, u: nat, a: Action, r: State, t: nat, key: Key, id: Id, v: Value)
    requires Next(c, s, u, a, r) && t < |r.threads| && AfterLookup(r.threads[t], key, id, v)
    ensures t < |s.threads|
    ensures AfterLookup(s.threads[t], key, id, v) || (u == t && a == Lookup && s.threads[t] == GetLocked(key) &&
            Holding(s.shards[s.Part(key)], key, id, v))
  {
    hide SetStep, TruncateStep, PurgeStep, GetStep;
    OthersWait(c, s, u, a, r);
    if u == t && !a.Tick? {
      if GetStep(s, t, a, r) {
        OwnLookup(s, a, r, t, key, id, v);
      } else {
        NotALookup(c, s, a, r, t);
        assert false;
      }
    }
  }

  lemma OwnLookup(s: State, a: Action, r: State, t: nat, key: Key, id: Id, v: Value)
    requires |s.shards| > 0 && t < |s.threads| && GetStep(s, t, a, r) && t < |r.threads| &&
             AfterLookup(r.threads[t], key, id, v)
    ensures AfterLookup(s.threads[t], key, id, v) || (a == Lookup && s.threads[t] == GetLocked(key) &&
            Holding(s.shards[s.Part(key)], key, id, v))
  {
  }

  lemma NotALookup(c: Limits, s: State, a: Action, r: State, t: nat)
    requires |s.shards| > 0 && t < |s.threads| && (SetStep(c, s, t, a, r) || TruncateStep(s, t, a, r) ||
             PurgeStep(s, t, a, r))
    ensures var pc := r.threads[t]; !(pc.GetFound? || pc.GetHeld? || pc.GetUnlocked? || pc.GetCopied?)
  {
  }

  lemma {:induction false} LookupFound(c: Limits, run: seq<State>, events: seq<(nat, Action)>, n: nat, t: nat, key: Key,
                                       id: Id, v: Value)
    returns (m: nat)
    requires Run(c, run, events) && n < |run| && t < |run[n].threads| && AfterLookup(run[n].threads[t], key, id, v)
    ensures LookedUp(run, events, m, n, t, key, id, v)
  {
    hide Next;
    if n == 0 {
      assert false;
    } else {
      LookupStep(c, run[n - 1], events[n - 1].0, events[n - 1].1, run[n], t, key, id, v);
      if AfterLookup(run[n - 1].threads[t], key, id, v) {
        m := LookupFound(c, run, events, n - 1, t, key, id, v);
      } else {
        m := n - 1;
        assert Next(c, run[m], events[m].0, events[m].1, run[n]);
      }
    }
  }

  /** Every hit, in every run, returns the value that the table held for the key when this get looked it up. */
  lemma HitWasCurrent(c: Limits, run: seq<State>, events: seq<(nat, Action)>, n: nat, t: nat, v: Value)
    requires Run(c, run, events) && n < |run| && t < |run[n].threads|
    requires run[n].threads[t].GetCopied? && run[n].threads[t].result == Some(v)
    ensures exists m :: LookedUp(run, events, m, n, t, run[n].threads[t].key, run[n].threads[t].id, v)
  {
    hide Next, Initial, LocksOk, RefsOk, LookedUp;
    RunSafe(c, run, events, n);
    PcsOkAt(run[n], t);
    var m := LookupFound(c, run, events, n, t, run[n].threads[t].key, run[n].threads[t].id, v);
  }

  // ----- no access fails and no wait is for ever -----

  /** A thread that waits for a lock. */
  predicate Waiting(pc: Pc, size: nat) {
    pc.SetAdmitted? || (pc.TruncLocking? && pc.next < size)
  }

  /** A thread that waits for no lock can go on: every entry its next step touches is there. */
  lemma CanStep(c: Limits, s: State, t: nat) returns (a: Action, r: State)
    requires Safe(s) && t < |s.threads| && !s.threads[t].Idle? && !Waiting(s.threads[t], |s.shards|)
    ensures Next(c, s, t, a, r)
  {
    hide LocksOk, PcsOk, Pieces, RefsOk;
    PcsOkAt(s, t);
    var pc := s.threads[t];
    if pc.GetLocked? || pc.GetFound? || pc.GetHeld? || pc.GetUnlocked? || pc.GetCopied? {
      a, r := GetCanStep(s, t);
    } else if pc.SetLocked? || pc.SetMapped? || pc.SetCounting? {
      a, r := SetCanStep(c, s, t);
    } else if pc.TruncLocking? || pc.TruncClearing? || pc.TruncUnlocking? {
      a, r := TruncateCanStep(s, t);
    } else {
      a, r := PurgeCanStep(s, t);
    }
  }

  lemma GetCanStep(s: State, t: nat) returns (a: Action, r: State)
    requires PcsOk(s) && RefsOk(s) && t < |s.threads|
    requires var pc := s.threads[t]; pc.GetLocked? || pc.GetFound? || pc.GetHeld? || pc.GetUnlocked? || pc.GetCopied?
    ensures !a.Tick? && GetStep(s, t, a, r)
  {
    hide Sum, Shard.ArrayOk, Shard.MarksOk;
    PcsOkAt(s, t);
    var pc := s.threads[t];
    var i := s.Part(pc.key);
    var shard := s.shards[i];
    if pc.GetLocked? {
      a := Lookup;
      r := s.Goto(t, if pc.key !in shard.hash then Idle
                     else GetFound(pc.key, shard.hash[pc.key], shard.store[shard.hash[pc.key]].value));
    } else if pc.GetFound? {
      var e := shard.store[pc.id];
      a, r := Reference, s.With(i, Touch(shard, pc.id, e.(refCount := e.refCount + 1))).Goto(t,
          GetHeld(pc.key, pc.id, pc.seen));
    } else if pc.GetHeld? {
      a, r := UnlockGet, s.Goto(t, GetUnlocked(pc.key, pc.id, pc.seen));
    } else if pc.GetUnlocked? {
      var e := shard.store[pc.id];
      var e' := if s.now < e.expire && e.access < s.now then e.(access := s.now) else e;
      a := Copy;
      r := s.With(i, Touch(shard, pc.id, e')).Goto(t, GetCopied(pc.key, pc.id, pc.seen,
          if s.now < e.expire then Some(e.value) else None));
    } else {
      SumAtLeast(HolderOf(i, pc.id, |s.shards|), s.threads, t);
      var e := shard.store[pc.id];
      a, r := Release, s.With(i, Touch(shard, pc.id, e.(refCount := e.refCount - 1))).Goto(t, Idle);
    }
  }

  lemma SetCanStep(c: Limits, s: State, t: nat) returns (a: Action, r: State)
    requires PcsOk(s) && t < |s.threads|
    requires var pc := s.threads[t]; pc.SetLocked? || pc.SetMapped? || pc.SetCounting?
    ensures !a.Tick? && SetStep(c, s, t, a, r)
  {
    hide Shard.Insert, Shard.ArrayOk, Shard.MarksOk, Shard.HashOk, Pieces;
    PcsOkAt(s, t);
    var pc := s.threads[t];
    if pc.SetLocked? {
      var i := s.Part(pc.key);
      s.shards[i].OkParts();
      a := Insert;
      r := s.With(i, s.shards[i].Insert(s.nextId, pc.entry)).(nextId := s.nextId + 1).Goto(t,
          SetMapped(pc.key, Pieces(pc.entry)));
    } else if pc.SetMapped? {
      a, r := UnlockSet, s.Goto(t, SetCounting(pc.left));
    } else {
      a := CountUp;
      r := if pc.left == [] then s.Goto(t, Idle)
           else s.(used := s.used + pc.left[0]).Goto(t, SetCounting(pc.left[1..]));
    }
  }

  lemma TruncateCanStep(s: State, t: nat) returns (a: Action, r: State)
    requires PcsOk(s) && t < |s.threads|
    requires var pc := s.threads[t];
             (pc.TruncLocking? && pc.next >= |s.shards|) || pc.TruncClearing? || pc.TruncUnlocking?
    ensures !a.Tick? && TruncateStep(s, t, a, r)
  {
    hide Shard.Clear, Shard.ArrayOk, Shard.MarksOk, Shard.HashOk;
    PcsOkAt(s, t);
    var pc := s.threads[t];
    if pc.TruncLocking? {
      a, r := LockNext, s.Goto(t, TruncClearing(0));
    } else if pc.TruncUnlocking? {
      a, r := UnlockNext, s.Goto(t, if pc.next >= |s.shards| then Idle else TruncUnlocking(pc.next + 1));
    } else if pc.next == |s.shards| {
      a, r := ClearNext, s.Goto(t, TruncUnlocking(0));
    } else {
      s.shards[pc.next].OkParts();
      a, r := ClearNext, s.With(pc.next, s.shards[pc.next].Clear()).Goto(t, TruncClearing(pc.next + 1));
    }
  }

  lemma PurgeCanStep(s: State, t: nat) returns (a: Action, r: State)
    requires PcsOk(s) && t < |s.threads|
    requires var pc := s.threads[t]; pc.Purging? || pc.PurgeVisited? || pc.PurgeDoomed?
    ensures !a.Tick? && PurgeStep(s, t, a, r)
  {
    hide Shard.Free, Shard.MarksOk, Shard.HashOk, Pieces, QueryCache.Expire, PcsOk, Shard.Ok;
    PcsOkAt(s, t);
    var pc := s.threads[t];
    if pc.Purging? {
      a, r := UnlockPurge, s.Goto(t, Idle);
    } else if pc.PurgeVisited? {
      s.shards[pc.part].OkParts();
      var e := s.shards[pc.part].store[s.shards[pc.part].arr[pc.idx]];
      a := Decide;
      var doomed := e.expire == EXPIRE_DROPIT && e.refCount == 0;
      r := s.Goto(t, if doomed then PurgeDoomed(pc.part, pc.idx, e.Bytes(), Pieces(e)) else Purging(pc.part));
    } else if pc.left != [] {
      a, r := CountDown, s.(used := s.used - pc.left[0]).Goto(t, PurgeDoomed(pc.part, pc.idx, pc.total, pc.left[1..]));
    } else {
      a, r := Reclaim, s.With(pc.part, s.shards[pc.part].Free(pc.idx)).Goto(t, Purging(pc.part));
    }
  }

  /** While every busy thread waits, only truncations hold locks, and the furthest one finds its next partition free. */
  lemma FurthestCanLock(s: State, t: nat)
    requires |s.shards| > 0 && t < |s.threads| && s.threads[t].TruncLocking? && s.threads[t].next < |s.shards|
    requires forall u | 0 <= u < |s.threads| :: s.threads[u].Idle? || Waiting(s.threads[u], |s.shards|)
    requires forall u | 0 <= u < |s.threads| && s.threads[u].TruncLocking? :: s.threads[u].next <= s.threads[t].next
    ensures s.NoLock(t, s.threads[t].next)
  {
  }

  lemma {:induction false} Furthest(ts: seq<Pc>, t: nat) returns (f: nat)
    requires t < |ts| && ts[t].TruncLocking?
    ensures f < |ts| && ts[f].TruncLocking? && forall u | 0 <= u < |ts| && ts[u].TruncLocking? ::
            ts[u].next <= ts[f].next
  {
    f := t;
    for n := 0 to |ts|
      invariant f < |ts| && ts[f].TruncLocking? && forall u | 0 <= u < n && ts[u].TruncLocking? ::
                ts[u].next <= ts[f].next
    {
      if ts[n].TruncLocking? && ts[n].next > ts[f].next {
        f := n;
      }
    }
  }

  /** No deadlock: in every reachable state, if some thread is busy then a busy thread can take a step. */
  lemma NoDeadlock(c: Limits, s: State, busy: nat)
    requires Safe(s) && busy < |s.threads| && !s.threads[busy].Idle?
    ensures exists t: nat, a, r :: t < |s.threads| && !s.threads[t].Idle? && Next(c, s, t, a, r)
  {
    hide PcsOk, RefsOk, LocksOk, GetStep, PurgeStep;
    PcsOkAt(s, busy);
    if t :| 0 <= t < |s.threads| && !s.threads[t].Idle? && !Waiting(s.threads[t], |s.shards|) {
      var a, r := CanStep(c, s, t);
    } else if t :| 0 <= t < |s.threads| && s.threads[t].TruncLocking? {
      var f := Furthest(s.threads, t);
      assert Waiting(s.threads[f], |s.shards|);
      FurthestCanLock(s, f);
      var r := s.Goto(f, TruncLocking(s.threads[f].next + 1));
      assert TruncateStep(s, f, LockNext, r);
      assert Next(c, s, f, LockNext, r);
    } else {
      var pc := s.threads[busy];
      assert Waiting(pc, |s.shards|);
      var r := s.Goto(busy, SetLocked(pc.key, pc.entry));
      assert s.NoLock(busy, s.Part(pc.key));
      assert SetStep(c, s, busy, LockSet, r);
      assert Next(c, s, busy, LockSet, r);
    }
  }
}
