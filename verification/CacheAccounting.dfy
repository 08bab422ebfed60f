/**
 The byte counters of the query cache over every interleaving: corrected for the updates
 still under way they are the bytes of the side arrays, and together with the bytes of the
 sets in flight they exceed the memory limit by at most one entry per other thread.
 */
module CacheAccounting {
  import opened Sequences
  import opened CacheShard
  import QueryCache
  import opened CacheProtocol

  // ----- bytes of the side arrays -----

  ghost function Size(s: Shard): int {
    if forall id | id in s.arr :: id in s.store then Bytes(s.store, s.arr) else 0
  }

  ghost function SizeOf(shards: seq<Shard>): int {
    Sum(Size, shards)
  }

  lemma SizeUpdate(shards: seq<Shard>, i: nat, n: Shard)
    requires i < |shards|
    ensures SizeOf(shards[i := n]) == SizeOf(shards) - Size(shards[i]) + Size(n)
  {
    SumUpdate(Size, shards, i, n);
  }

  // ----- what each thread has still to add, or has already taken off -----

  /** The difference a thread in the middle of its counter updates makes. */
  function Pending(pc: Pc): int {
    match pc
    case SetMapped(_, left) => Total(left)
    case SetCounting(left) => Total(left)
    case PurgeDoomed(_, _, total, left) => total - Total(left)
    case _ => 0
  }

  /** The bytes a thread has been admitted for and has not yet counted. */
  function InFlight(pc: Pc): int {
    match pc
    case SetAdmitted(_, e) => e.Bytes()
    case SetLocked(_, e) => e.Bytes()
    case SetMapped(_, left) => Total(left)
    case SetCounting(left) => Total(left)
    case _ => 0
  }

  ghost predicate Accounted(s: State) {
    s.used + Sum(Pending, s.threads) == SizeOf(s.shards)
  }

  ghost predicate Bounded(c: Limits, s: State) {
    && |s.threads| > 0
    && s.used + Sum(InFlight, s.threads) <= c.maxMemory + (|s.threads| - 1) * c.maxEntry
    && forall t | 0 <= t < |s.threads| :: InFlight(s.threads[t]) <= c.maxEntry
  }

  // ----- accounting -----

  lemma AccountStep(s: State, t: nat, pc: Pc, r: State)
    requires Accounted(s) && t < |s.threads| && r.threads == s.threads[t := pc]
    requires r.used + Pending(pc) - SizeOf(r.shards) == s.used + Pending(s.threads[t]) - SizeOf(s.shards)
    ensures Accounted(r)
  {
    SumUpdate(Pending, s.threads, t, pc);
  }

  lemma TouchSize(s: Shard, id: Id, e: Entry)
    requires s.Ok() && id in s.store && e.Bytes() == s.store[id].Bytes()
    ensures Size(Touch(s, id, e)) == Size(s)
  {
    BytesFrame(s.store, Touch(s, id, e).store, s.arr);
  }

  lemma GetAccounted(s: State, t: nat, a: Action, r: State)
    requires PcsOk(s) && Accounted(s) && t < |s.threads| && GetStep(s, t, a, r)
    ensures Accounted(r)
  {
    hide Accounted, Shard.Ok, Size, PcsOk, SizeOf;
    PcsOkAt(s, t);
    var pc := s.threads[t];
    if a.Reference? || a.Copy? || a.Release? {
      var i := s.Part(pc.key);
      TouchSize(s.shards[i], pc.id, r.shards[i].store[pc.id]);
      SizeUpdate(s.shards, i, r.shards[i]);
    }
    AccountStep(s, t, r.threads[t], r);
  }

  lemma InsertSize(s: Shard, id: Id, e: Entry)
    requires s.Ok() && id !in s.store
    ensures Size(s.Insert(id, e)) == Size(s) + e.Bytes()
  {
    BytesInsert(s, id, e);
  }

  lemma SetAccounted(c: Limits, s: State, t: nat, a: Action, r: State)
    requires PcsOk(s) && Accounted(s) && t < |s.threads| && SetStep(c, s, t, a, r)
    ensures Accounted(r)
  {
    hide Accounted, Shard.Ok, Size, PcsOk, SizeOf, Shard.Insert, PcOk;
    PcsOkAt(s, t);
    var pc := s.threads[t];
    if a.Insert? {
      var i := s.Part(pc.key);
      assert s.shards[i].Ok() && s.nextId !in s.shards[i].store;
      InsertSize(s.shards[i], s.nextId, pc.entry);
      SizeUpdate(s.shards, i, r.shards[i]);
    }
    AccountStep(s, t, r.threads[t], r);
  }

  lemma ClearSize(s: Shard)
    requires s.Ok()
    ensures Size(s.Clear()) == Size(s)
  {
    BytesClear(s);
  }

  lemma TruncateAccounted(s: State, t: nat, a: Action, r: State)
    requires PcsOk(s) && Accounted(s) && t < |s.threads| && TruncateStep(s, t, a, r)
    ensures Accounted(r)
  {
    hide Accounted, Shard.Ok, Size, PcsOk, SizeOf, Shard.Clear, PcOk;
    PcsOkAt(s, t);
    var pc := s.threads[t];
    if a.ClearNext? && pc.next < |s.shards| {
      assert s.shards[pc.next].Ok();
      ClearSize(s.shards[pc.next]);
      SizeUpdate(s.shards, pc.next, r.shards[pc.next]);
    }
    AccountStep(s, t, r.threads[t], r);
  }

  lemma ExpireSize(s: Shard, idx: nat, now: int)
    requires s.Ok() && idx < |s.arr|
    ensures Size(QueryCache.Expire(s, idx, now)) == Size(s)
  {
    QueryCache.ExpireOk(s, idx, now);
  }

  lemma FreeSize(s: Shard, idx: nat)
    requires s.Ok() && idx < |s.arr|
    ensures Size(s.Free(idx)) == Size(s) - s.store[s.arr[idx]].Bytes()
  {
    BytesFree(s, idx);
  }

  lemma PurgeAccounted(s: State, t: nat, a: Action, r: State)
    requires PcsOk(s) && Accounted(s) && t < |s.threads| && PurgeStep(s, t, a, r)
    ensures Accounted(r)
  {
    hide Accounted, Shard.Ok, Size, PcsOk, SizeOf, Shard.Free, QueryCache.Expire;
    PcsOkAt(s, t);
    var pc := s.threads[t];
    if a.Expire? {
      ExpireSize(s.shards[pc.part], a.idx, s.now);
      SizeUpdate(s.shards, pc.part, r.shards[pc.part]);
    } else if a.Reclaim? {
      assert s.shards[pc.part].Ok();
      FreeSize(s.shards[pc.part], pc.idx);
      SizeUpdate(s.shards, pc.part, r.shards[pc.part]);
    }
    AccountStep(s, t, r.threads[t], r);
  }

  lemma AccountedStep(c: Limits, s: State, t: nat, a: Action, r: State)
    requires Safe(s) && Accounted(s) && Next(c, s, t, a, r)
    ensures Accounted(r)
  {
    hide GetStep, SetStep, TruncateStep, PurgeStep, RefsOk, LocksOk, PcsOk, SizeOf;
    if a.Tick? {
    } else if GetStep(s, t, a, r) {
      GetAccounted(s, t, a, r);
    } else if SetStep(c, s, t, a, r) {
      SetAccounted(c, s, t, a, r);
    } else if TruncateStep(s, t, a, r) {
      TruncateAccounted(s, t, a, r);
    } else {
      PurgeAccounted(s, t, a, r);
    }
  }

  // ----- the memory bound -----

  /** Steps other than an admission: what is counted plus what is in flight does not grow. */
  lemma BoundStep(c: Limits, s: State, t: nat, pc: Pc, r: State)
    requires Bounded(c, s) && t < |s.threads| && r.threads == s.threads[t := pc]
    requires r.used + InFlight(pc) <= s.used + InFlight(s.threads[t]) && InFlight(pc) <= c.maxEntry
    ensures Bounded(c, r)
  {
    SumUpdate(InFlight, s.threads, t, pc);
  }

  /** An admission saw used + need within the limit; every other thread has at most one entry in flight. */
  lemma AdmitBound(c: Limits, s: State, t: nat, e: Entry, r: State)
    requires Bounded(c, s) && t < |s.threads| && s.threads[t].Idle? && r == s.Goto(t, SetAdmitted(e.key, e))
    requires e.Bytes() <= c.maxEntry && e.Bytes() <= s.FreeMemory(c.maxMemory)
    ensures Bounded(c, r)
  {
    SumBound(InFlight, r.threads, t, c.maxEntry);
  }

  lemma BoundedStep(c: Limits, s: State, t: nat, a: Action, r: State)
    requires Bounded(c, s) && Next(c, s, t, a, r)
    ensures Bounded(c, r)
  {
    hide Bounded, GetStep, SetStep, TruncateStep, PurgeStep;
    if a.Tick? {
      BoundFrame(c, s, r);
    } else if SetStep(c, s, t, a, r) {
      SetBounded(c, s, t, a, r);
    } else {
      OtherBounded(c, s, t, a, r);
    }
  }

  lemma BoundFrame(c: Limits, s: State, r: State)
    requires Bounded(c, s) && r.threads == s.threads && r.used == s.used
    ensures Bounded(c, r)
  {
  }

  lemma SetBounded(c: Limits, s: State, t: nat, a: Action, r: State)
    requires |s.shards| > 0 && Bounded(c, s) && t < |s.threads| && SetStep(c, s, t, a, r)
    ensures Bounded(c, r)
  {
    hide Bounded, Shard.Insert, Shard.HashOk;
    var pc := s.threads[t];
    InFlightAt(c, s, t);
    if a.Admit? && r.threads[t] != Idle {
      AdmitBound(c, s, t, a.entry, r);
    } else {
      BoundStep(c, s, t, r.threads[t], r);
    }
  }

  lemma InFlightAt(c: Limits, s: State, t: nat)
    requires Bounded(c, s) && t < |s.threads|
    ensures InFlight(s.threads[t]) <= c.maxEntry
  {
  }

  lemma OtherBounded(c: Limits, s: State, t: nat, a: Action, r: State)
    requires |s.shards| > 0 && Bounded(c, s) && t < |s.threads| &&
             (GetStep(s, t, a, r) || TruncateStep(s, t, a, r) || PurgeStep(s, t, a, r))
    ensures Bounded(c, r)
  {
    hide Bounded, Shard.Ok, Shard.HashOk;
    BoundStep(c, s, t, r.threads[t], r);
  }

  // ----- over whole runs -----

  lemma InitialAccounted(c: Limits, s: State)
    requires Initial(s)
    ensures Accounted(s) && Bounded(c, s)
  {
    SumZero(Pending, s.threads);
    SumZero(InFlight, s.threads);
    SumZero(Size, s.shards);
  }

  /** In every state of every run the counters are right up to updates under way, and the memory bound holds. */
  lemma {:induction false} RunAccounted(c: Limits, run: seq<State>, events: seq<(nat, Action)>, n: nat)
    requires Run(c, run, events) && n < |run|
    ensures run[n].used + Sum(Pending, run[n].threads) == SizeOf(run[n].shards)
    ensures run[n].used + Sum(InFlight, run[n].threads) <= c.maxMemory + (|run[n].threads| - 1) * c.maxEntry
  {
    RunInvariant(c, run, events, n);
  }

  lemma {:induction false} RunInvariant(c: Limits, run: seq<State>, events: seq<(nat, Action)>, n: nat)
    requires Run(c, run, events) && n < |run|
    ensures Accounted(run[n]) && Bounded(c, run[n])
  {
    hide Next, Initial, Accounted, Bounded, Safe;
    if n == 0 {
      InitialAccounted(c, run[0]);
    } else {
      RunInvariant(c, run, events, n - 1);
      RunSafe(c, run, events, n - 1);
      AccountedStep(c, run[n - 1], events[n - 1].0, events[n - 1].1, run[n]);
      BoundedStep(c, run[n - 1], events[n - 1].0, events[n - 1].1, run[n]);
    }
  }

  /** When all threads are idle, the counters are exactly the bytes in the arrays, within the bound. */
  lemma QuiescentExact(c: Limits, run: seq<State>, events: seq<(nat, Action)>, n: nat)
    requires Run(c, run, events) && n < |run| && forall t | 0 <= t < |run[n].threads| :: run[n].threads[t] == Idle
    ensures run[n].used == SizeOf(run[n].shards) <= c.maxMemory + (|run[n].threads| - 1) * c.maxEntry
  {
    RunAccounted(c, run, events, n);
    SumZero(Pending, run[n].threads);
    SumZero(InFlight, run[n].threads);
  }
}
