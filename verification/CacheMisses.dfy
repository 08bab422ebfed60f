/**
 When a get misses, over every interleaving: the key is absent at the lookup, or the entry found has expired
 by the time it is compared, or a set of the same key or a truncation has dropped it in between. The last case
 is a miss of a key that the table maps to an unexpired value all along.
 */
module CacheMisses {
  import opened Wire
  import opened Sequences
  import opened CacheShard
  import opened CacheProtocol
  import opened CacheLimit

  /** The step replaces the value of the key, or clears its partition. */
  predicate Replaces(s: State, event: (nat, Action), key: Key) {
    && |s.shards| > 0 && event.0 < |s.threads|
    && var pc := s.threads[event.0];
       || (event.1.Insert? && pc.SetLocked? && pc.key == key)
       || (event.1.ClearNext? && pc.TruncClearing? && pc.next == s.Part(key))
  }

  // ----- one step -----

  /** What a step does to the deadline of an entry that outlives it. */
  predicate DeadlineKept(before: int, after: int, replaced: bool, now: int) {
    if replaced then after == EXPIRE_DROPIT else after == before || (after == EXPIRE_DROPIT && before <= now)
  }

  ghost predicate Of(s: State, i: nat, id: Id, key: Key) {
    i < |s.shards| && id in s.shards[i].store && s.shards[i].store[id].key == key
  }

  lemma DeadlineGet(s: State, t: nat, a: Action, r: State, i: nat, id: Id, key: Key)
    requires PcsOk(s) && t < |s.threads| && GetStep(s, t, a, r) && Of(s, i, id, key)
    ensures Of(r, i, id, key) && r.shards[i].store[id].expire == s.shards[i].store[id].expire
  {
    hide Shard.Ok;
  }

  lemma InsertDeadline(s: Shard, n: Id, e: Entry, id: Id)
    requires s.Ok() && id in s.store && n !in s.store
    ensures id in s.Insert(n, e).store && s.Insert(n, e).store[id].key == s.store[id].key
    ensures s.Insert(n, e).store[id].expire == if s.store[id].key == e.key then EXPIRE_DROPIT else s.store[id].expire
  {
    hide NoDup;
    assert s.store[id].expire != EXPIRE_DROPIT <==> s.Mapped(id);
  }

  lemma ClearDeadline(s: Shard, id: Id)
    requires s.Ok() && id in s.store
    ensures id in s.Clear().store && s.Clear().store[id].key == s.store[id].key
    ensures s.Clear().store[id].expire == EXPIRE_DROPIT
  {
    hide NoDup;
    assert s.store[id].expire != EXPIRE_DROPIT <==> s.Mapped(id);
  }

  lemma DeadlineSet(c: Limits, s: State, t: nat, a: Action, r: State, i: nat, id: Id, key: Key)
    requires PcsOk(s) && t < |s.threads| && SetStep(c, s, t, a, r) && Of(s, i, id, key) && i == s.Part(key)
    ensures Of(r, i, id, key)
    ensures r.shards[i].store[id].expire ==
              if Replaces(s, (t, a), key) then EXPIRE_DROPIT else s.shards[i].store[id].expire
  {
    PcsOkAt(s, t);
    hide Shard.Ok, Pieces, Shard.Insert, PcsOk;
    if a.Insert? && s.Part(s.threads[t].key) == i {
      assert s.shards[i].Ok();
      InsertDeadline(s.shards[i], s.nextId, s.threads[t].entry, id);
    }
  }

  lemma DeadlineTruncate(s: State, t: nat, a: Action, r: State, i: nat, id: Id, key: Key)
    requires PcsOk(s) && t < |s.threads| && TruncateStep(s, t, a, r) && Of(s, i, id, key) && i == s.Part(key)
    ensures Of(r, i, id, key)
    ensures r.shards[i].store[id].expire ==
              if Replaces(s, (t, a), key) then EXPIRE_DROPIT else s.shards[i].store[id].expire
  {
    hide Shard.Ok, Shard.Clear;
    if a.ClearNext? && s.threads[t].next == i {
      assert s.shards[i].Ok();
      ClearDeadline(s.shards[i], id);
    }
  }

  lemma DeadlinePurge(s: State, t: nat, a: Action, r: State, i: nat, id: Id, key: Key)
    requires PcsOk(s) && t < |s.threads| && PurgeStep(s, t, a, r) && Of(s, i, id, key)
    requires id in r.shards[i].store
    ensures Of(r, i, id, key)
    ensures DeadlineKept(s.shards[i].store[id].expire, r.shards[i].store[id].expire, false, s.now)
  {
    hide Shard.HashOk, Shard.MarksOk, Pieces, NoDup;
  }

  lemma DeadlineStep(c: Limits, s: State, t: nat, a: Action, r: State, i: nat, id: Id, key: Key)
    requires PcsOk(s) && Next(c, s, t, a, r) && Of(s, i, id, key) && i == s.Part(key)
    requires i < |r.shards| && id in r.shards[i].store
    ensures Of(r, i, id, key) && s.now <= r.now
    ensures DeadlineKept(s.shards[i].store[id].expire, r.shards[i].store[id].expire, Replaces(s, (t, a), key), s.now)
  {
    hide GetStep, SetStep, TruncateStep, PurgeStep, PcsOk;
    if !a.Tick? {
      NowStays(c, s, t, a, r);
      if GetStep(s, t, a, r) {
        DeadlineGet(s, t, a, r, i, id, key);
        NotReplacing(s, t, a, r);
      } else if SetStep(c, s, t, a, r) {
        DeadlineSet(c, s, t, a, r, i, id, key);
      } else if TruncateStep(s, t, a, r) {
        DeadlineTruncate(s, t, a, r, i, id, key);
      } else {
        DeadlinePurge(s, t, a, r, i, id, key);
        NotReplacing(s, t, a, r);
      }
    }
  }

  lemma NowStays(c: Limits, s: State, t: nat, a: Action, r: State)
    requires |s.shards| > 0 && t < |s.threads|
    requires GetStep(s, t, a, r) || SetStep(c, s, t, a, r) || TruncateStep(s, t, a, r) || PurgeStep(s, t, a, r)
    ensures r.now == s.now
  {
  }

  lemma NotReplacing(s: State, t: nat, a: Action, r: State)
    requires |s.shards| > 0 && t < |s.threads| && (GetStep(s, t, a, r) || PurgeStep(s, t, a, r))
    ensures !a.Insert? && !a.ClearNext?
  {
  }

  // ----- from the lookup to the comparison -----

  ghost predicate ReplacedBetween(run: seq<State>, events: seq<(nat, Action)>, m: nat, n: nat, key: Key)
    requires |run| == |events| + 1 && n < |run|
  {
    exists j | m <= j < n :: Replaces(run[j], events[j], key)
  }

  /** What has become of an entry that a get found at state m, and still refers to at n. */
  ghost predicate Fate(run: seq<State>, events: seq<(nat, Action)>, m: nat, n: nat, i: nat, id: Id, key: Key)
    requires |run| == |events| + 1 && m <= n < |run|
  {
    && Of(run[m], i, id, key) && Of(run[n], i, id, key)
    && DeadlineKept(run[m].shards[i].store[id].expire, run[n].shards[i].store[id].expire,
         ReplacedBetween(run, events, m, n, key), run[n].now)
  }

  lemma FateStep(c: Limits, run: seq<State>, events: seq<(nat, Action)>, m: nat, n: nat, i: nat, id: Id, key: Key)
    requires Run(c, run, events) && m <= n < |events| && Fate(run, events, m, n, i, id, key) && i == run[n].Part(key)
    requires PcsOk(run[n]) && i < |run[n + 1].shards| && id in run[n + 1].shards[i].store
    ensures Fate(run, events, m, n + 1, i, id, key)
  {
    hide PcsOk, Next, Replaces, Initial;
    assert Next(c, run[n], events[n].0, events[n].1, run[n + 1]);
    DeadlineStep(c, run[n], events[n].0, events[n].1, run[n + 1], i, id, key);
    assert events[n] == (events[n].0, events[n].1);
    assert ReplacedBetween(run, events, m, n + 1, key) <==>
           ReplacedBetween(run, events, m, n, key) || Replaces(run[n], events[n], key) by {
      if ReplacedBetween(run, events, m, n, key) {
        var j :| m <= j < n && Replaces(run[j], events[j], key);
        assert m <= j < n + 1;
      }
    }
  }

  lemma {:induction false} FateRuns(c: Limits, run: seq<State>, events: seq<(nat, Action)>, m: nat, n: nat, t: nat,
                                    key: Key, id: Id, v: Value)
    requires Run(c, run, events) && LookedUp(run, events, m, n, t, key, id, v)
    ensures m < n && run[n].shards != [] && Fate(run, events, m, n, run[n].Part(key), id, key)
    decreases n
  {
    hide Next, Initial, LocksOk, RefsOk, Fate;
    RunSafe(c, run, events, n);
    PcsOkAt(run[n], t);
    if n == m + 1 {
      FateBegins(c, run, events, m, t, key, id, v);
    } else {
      FateRuns(c, run, events, m, n - 1, t, key, id, v);
      RunSafe(c, run, events, n - 1);
      SameParts(c, run, events, n - 1);
    }
    if n > m + 1 {
      FateStep(c, run, events, m, n - 1, run[n].Part(key), id, key);
    }
  }

  lemma SameParts(c: Limits, run: seq<State>, events: seq<(nat, Action)>, n: nat)
    requires Run(c, run, events) && n < |events|
    ensures |run[n + 1].shards| == |run[n].shards| > 0 && |run[n + 1].threads| == |run[n].threads|
  {
    hide Initial;
    assert Next(c, run[n], events[n].0, events[n].1, run[n + 1]);
    OthersWait(c, run[n], events[n].0, events[n].1, run[n + 1]);
  }

  lemma FateBegins(c: Limits, run: seq<State>, events: seq<(nat, Action)>, m: nat, t: nat, key: Key, id: Id, v: Value)
    requires Run(c, run, events) && LookedUp(run, events, m, m + 1, t, key, id, v) && run[m + 1].shards != []
    ensures Fate(run, events, m, m + 1, run[m + 1].Part(key), id, key)
  {
    hide Initial, LocksOk, RefsOk, SetStep, TruncateStep, PurgeStep;
    RunSafe(c, run, events, m);
    assert Next(c, run[m], events[m].0, events[m].1, run[m + 1]);
    NotOtherLookup(c, run[m], t, run[m + 1]);
    var i := run[m].Part(key);
    assert run[m].shards[i].Ok();
    assert run[m + 1].shards == run[m].shards;
    assert !ReplacedBetween(run, events, m, m + 1, key);
  }

  lemma NotOtherLookup(c: Limits, s: State, t: nat, r: State)
    requires Next(c, s, t, Lookup, r)
    ensures t < |s.threads| && GetStep(s, t, Lookup, r)
  {
  }

  lemma {:induction false} ClockRuns(c: Limits, run: seq<State>, events: seq<(nat, Action)>, n: nat)
    requires Run(c, run, events) && n < |run|
    ensures run[n].now >= 0
  {
    hide GetStep, SetStep, TruncateStep, PurgeStep;
    if n > 0 {
      ClockRuns(c, run, events, n - 1);
      assert Next(c, run[n - 1], events[n - 1].0, events[n - 1].1, run[n]);
      if !events[n - 1].1.Tick? {
        NowStays(c, run[n - 1], events[n - 1].0, events[n - 1].1, run[n]);
      }
    }
  }

  /** The other way to miss: a get goes back empty from its lookup exactly when the table has no such key then. */
  lemma AbsentIff(c: Limits, run: seq<State>, events: seq<(nat, Action)>, q: nat, t: nat)
    requires Run(c, run, events) && q < |events| && events[q] == (t, Lookup)
    ensures run[q].shards != [] && t < |run[q].threads| && t < |run[q + 1].threads| && run[q].threads[t].GetLocked?
    ensures var key, pc := run[q].threads[t].key, run[q + 1].threads[t];
            if key in run[q].shards[run[q].Part(key)].hash
            then pc.GetFound? && LookedUp(run, events, q, q + 1, t, key, pc.id, pc.seen)
            else pc == Idle
  {
    hide Initial, SetStep, TruncateStep, PurgeStep;
    assert Next(c, run[q], t, Lookup, run[q + 1]);
    NotOtherLookup(c, run[q], t, run[q + 1]);
  }

  /**
   The outcome of every get that found an entry, in every run. It misses exactly when the entry has expired by
   the comparison, or the key was set again or its partition truncated since the lookup.
   */
  lemma MissIff(c: Limits, run: seq<State>, events: seq<(nat, Action)>, q: nat, t: nat) returns (m: nat)
    requires Run(c, run, events) && q < |events| && events[q] == (t, Copy)
    ensures t < |run[q].threads| && t < |run[q + 1].threads| && run[q].threads[t].GetUnlocked?
    ensures var pc := run[q].threads[t];
            && LookedUp(run, events, m, q, t, pc.key, pc.id, pc.seen)
            && var expired := run[m].shards[run[m].Part(pc.key)].store[pc.id].expire <= run[q].now;
               run[q + 1].threads[t] == GetCopied(pc.key, pc.id, pc.seen,
                 if expired || ReplacedBetween(run, events, m, q, pc.key) then None else Some(pc.seen))
  {
    hide Initial, Fate, ReplacedBetween, LookedUp;
    assert Next(c, run[q], t, Copy, run[q + 1]);
    NotOtherCopy(c, run[q], t, run[q + 1]);
    var pc := run[q].threads[t];
    hide Next;
    m := LookupFound(c, run, events, q, t, pc.key, pc.id, pc.seen);
    FateRuns(c, run, events, m, q, t, pc.key, pc.id, pc.seen);
    FateParts(c, run, events, m, q);
    RunSafe(c, run, events, q);
    PcsOkAt(run[q], t);
    ClockRuns(c, run, events, q);
    Outcome(run, events, m, q, run[q].Part(pc.key), pc.id, pc.key);
  }

  lemma NotOtherCopy(c: Limits, s: State, t: nat, r: State)
    requires Next(c, s, t, Copy, r)
    ensures t < |s.threads| && GetStep(s, t, Copy, r)
  {
  }

  lemma {:induction false} FateParts(c: Limits, run: seq<State>, events: seq<(nat, Action)>, m: nat, n: nat)
    requires Run(c, run, events) && m <= n < |run|
    ensures |run[n].shards| == |run[m].shards|
  {
    hide Next, Initial;
    if m < n {
      FateParts(c, run, events, m, n - 1);
      SameParts(c, run, events, n - 1);
    }
  }

  lemma Outcome(run: seq<State>, events: seq<(nat, Action)>, m: nat, q: nat, i: nat, id: Id, key: Key)
    requires |run| == |events| + 1 && m <= q < |run| && Fate(run, events, m, q, i, id, key) && run[q].now >= 0
    ensures Of(run[m], i, id, key) && Of(run[q], i, id, key)
    ensures run[q].shards[i].store[id].expire <= run[q].now <==>
            run[m].shards[i].store[id].expire <= run[q].now || ReplacedBetween(run, events, m, q, key)
  {
    hide ReplacedBetween;
  }

  // ----- a miss of a key that is there all along -----

  /** The table maps the key to a value that has not expired. */
  predicate Current(s: State, key: Key) {
    && |s.shards| > 0
    && var shard := s.shards[s.Part(key)];
       key in shard.hash && shard.hash[key] in shard.store && shard.store[shard.hash[key]].expire > s.now
  }

  function Setter(e: Entry, n: int): Pc {
    if n <= 0 then Idle
    else if n == 1 then SetAdmitted(e.key, e)
    else if n == 2 then SetLocked(e.key, e)
    else if n == 3 then SetMapped(e.key, Pieces(e))
    else SetCounting(Pieces(e))
  }

  function Getter(e: Entry, n: int): Pc {
    if n <= 4 then Idle
    else if n == 5 then GetLocked(e.key)
    else if n == 6 then GetFound(e.key, 0, e.value)
    else if n == 7 then GetHeld(e.key, 0, e.value)
    else if n <= 11 then GetUnlocked(e.key, 0, e.value)
    else GetCopied(e.key, 0, e.value, None)
  }

  function Table(e: Entry, f: Entry, n: int): Shard {
    if n < 3 then Shard(map[], [], map[])
    else if n < 7 then Shard(map[e.key := 0], [0], map[0 := e])
    else if n < 11 then Shard(map[e.key := 0], [0], map[0 := e.(refCount := 1)])
    else Shard(map[e.key := 1], [0, 1], map[0 := e.(refCount := 1, expire := EXPIRE_DROPIT), 1 := f])
  }

  /**
   Thread 0 sets the key; thread 1 looks it up and takes its reference; thread 2 sets the key again;
   thread 1 compares.
   */
  function Scene(e: Entry, f: Entry, n: int): State {
    State([Table(e, f, n)], [Setter(e, n), Getter(e, n), Setter(f, if n < 11 then n - 8 else 3)], 0, 0,
          if n < 3 then 0 else if n < 11 then 1 else 2)
  }

  function Script(e: Entry, f: Entry): seq<(nat, Action)> {
    [(0, Admit(e)), (0, LockSet), (0, Action.Insert), (0, UnlockSet),
     (1, LockGet(e.key)), (1, Lookup), (1, Reference), (1, UnlockGet),
     (2, Admit(f)), (2, LockSet), (2, Action.Insert), (1, Copy)]
  }

  lemma SceneSet(c: Limits, e: Entry, f: Entry, n: nat)
    requires Fits(c, e) && Fits(c, f) && e.key == f.key && n < 4
    ensures Next(c, Scene(e, f, n), Script(e, f)[n].0, Script(e, f)[n].1, Scene(e, f, n + 1))
  {
    hide Pieces;
    var s := Scene(e, f, n);
    assert Scene(e, f, n + 1).threads == s.threads[0 := Setter(e, n + 1)];
    if n == 2 {
      assert s.shards[0].Insert(0, e) == Table(e, f, 3);
    }
    SetNext(c, s, 0, Script(e, f)[n].1, Scene(e, f, n + 1));
  }

  lemma SceneSetAgain(c: Limits, e: Entry, f: Entry, n: nat)
    requires Fits(c, e) && Fits(c, f) && e.key == f.key && 8 <= n < 11
    ensures Next(c, Scene(e, f, n), Script(e, f)[n].0, Script(e, f)[n].1, Scene(e, f, n + 1))
  {
    hide Pieces;
    var s := Scene(e, f, n);
    assert Scene(e, f, n + 1).threads == s.threads[2 := Setter(f, n + 1 - 8)];
    if n == 10 {
      assert s.shards[0].Insert(1, f) == Table(e, f, 11);
    }
    SetNext(c, s, 2, Script(e, f)[n].1, Scene(e, f, n + 1));
  }

  lemma SceneGet(c: Limits, e: Entry, f: Entry, n: nat)
    requires Fits(c, e) && Fits(c, f) && e.key == f.key && (4 <= n < 8 || n == 11)
    ensures Next(c, Scene(e, f, n), Script(e, f)[n].0, Script(e, f)[n].1, Scene(e, f, n + 1))
  {
    hide Pieces;
    var s := Scene(e, f, n);
    assert Scene(e, f, n + 1).threads == s.threads[1 := Getter(e, n + 1)];
    if n == 6 {
      assert Touch(s.shards[0], 0, e.(refCount := 1)) == Table(e, f, 7);
    } else if n == 11 {
      assert Touch(s.shards[0], 0, s.shards[0].store[0]) == Table(e, f, 12);
    }
    assert GetStep(s, 1, Script(e, f)[n].1, Scene(e, f, n + 1));
  }

  /** For any two entries of one key that fit and have a deadline ahead. */
  lemma SpuriousMiss(c: Limits, e: Entry, f: Entry) returns (run: seq<State>, events: seq<(nat, Action)>)
    requires Fits(c, e) && Fits(c, f) && e.key == f.key && e.expire > 0 && f.expire > 0
    ensures Run(c, run, events) && |events| == 12
    // the lookup at state 5 finds the key; it is there, unexpired, in every state to the end; and the get misses
    ensures LookedUp(run, events, 5, 12, 1, e.key, 0, e.value)
    ensures forall n | 5 <= n <= 12 :: Current(run[n], e.key)
    ensures run[12].threads[1].GetCopied? && run[12].threads[1].result == None
  {
    hide Next;
    events := Script(e, f);
    run := seq(13, n => Scene(e, f, n));
    forall n | 0 <= n < |events|
      ensures Next(c, run[n], events[n].0, events[n].1, run[n + 1])
    {
      if n < 4 {
        SceneSet(c, e, f, n);
      } else if 8 <= n < 11 {
        SceneSetAgain(c, e, f, n);
      } else {
        SceneGet(c, e, f, n);
      }
    }
  }
}
