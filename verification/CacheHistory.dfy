/**
 What the query cache holds and answers, over every interleaving, by the events alone: a key stands for the entry
 of its last completed set unless its partition was truncated since. Every hit returns the value of that set.
 */
module CacheHistory {
  import opened Wire
  import opened CacheShard
  import opened QueryCache
  import opened CacheProtocol
  import opened CacheMisses

  // ----- the reference -----

  /** The entry that thread u was last admitted with, before event n. */
  function Admitted(events: seq<(nat, Action)>, n: nat, u: nat): Option<Entry>
    requires n <= |events|
  {
    if n == 0 then None
    else if events[n - 1].0 == u && events[n - 1].1.Admit? then Some(events[n - 1].1.entry)
    else Admitted(events, n - 1, u)
  }

  /** What sets and truncations have left for the key before event n. */
  function Standing(run: seq<State>, events: seq<(nat, Action)>, n: nat, key: Key): Option<Entry>
    requires |run| == |events| + 1 && n <= |events|
  {
    if n == 0 then None
    else if Replaces(run[n - 1], events[n - 1], key)
    then if events[n - 1].1.Insert? then Admitted(events, n - 1, events[n - 1].0) else None
    else Standing(run, events, n - 1, key)
  }

  // ----- admissions -----

  predicate Setting(pc: Pc, e: Entry) {
    (pc.SetAdmitted? || pc.SetLocked?) && pc.entry == e && pc.key == e.key
  }

  lemma SettingStep(c: Limits, s: State, u: nat, a: Action, r: State, t: nat)
    requires Next(c, s, u, a, r) && t < |r.threads| && (r.threads[t].SetAdmitted? || r.threads[t].SetLocked?)
    ensures t < |s.threads|
    ensures var pc := r.threads[t];
            || (!(u == t && a.Admit?) && (s.threads[t].SetAdmitted? || s.threads[t].SetLocked?) &&
                s.threads[t].entry == pc.entry && s.threads[t].key == pc.key)
            || (u == t && a == Admit(pc.entry) && pc.key == pc.entry.key)
  {
    hide GetStep, TruncateStep, PurgeStep;
    OthersWait(c, s, u, a, r);
    if u == t && !a.Tick? && !SetStep(c, s, t, a, r) {
      NotSetting(s, t, a, r);
      assert false;
    }
  }

  lemma NotSetting(s: State, t: nat, a: Action, r: State)
    requires |s.shards| > 0 && t < |s.threads|
    requires GetStep(s, t, a, r) || TruncateStep(s, t, a, r) || PurgeStep(s, t, a, r)
    ensures !r.threads[t].SetAdmitted? && !r.threads[t].SetLocked?
  {
  }

  /** A thread that is about to insert does so with the entry of its last admission. */
  lemma {:induction false} AdmittedIs(c: Limits, run: seq<State>, events: seq<(nat, Action)>, n: nat, t: nat)
    requires Run(c, run, events) && n < |run| && t < |run[n].threads|
    requires run[n].threads[t].SetAdmitted? || run[n].threads[t].SetLocked?
    ensures var pc := run[n].threads[t]; pc.key == pc.entry.key && Admitted(events, n, t) == Some(pc.entry)
  {
    hide Next;
    if n == 0 {
      assert false;
    } else {
      assert Next(c, run[n - 1], events[n - 1].0, events[n - 1].1, run[n]);
      SettingStep(c, run[n - 1], events[n - 1].0, events[n - 1].1, run[n], t);
      if !(events[n - 1].0 == t && events[n - 1].1.Admit?) {
        AdmittedIs(c, run, events, n - 1, t);
      }
    }
  }

  lemma {:induction false} AdmittedAt(events: seq<(nat, Action)>, n: nat, u: nat) returns (a: nat)
    requires n <= |events| && Admitted(events, n, u).Some?
    ensures a < n && events[a] == (u, Admit(Admitted(events, n, u).value))
  {
    if events[n - 1].0 == u && events[n - 1].1.Admit? {
      a := n - 1;
    } else {
      a := AdmittedAt(events, n - 1, u);
    }
  }

  // ----- the tables -----

  ghost function Says(s: Shard, key: Key): Option<Cached>
    requires s.Ok()
  {
    if key in s.View() then Some(s.View()[key]) else None
  }

  /** What the table of its partition says about a key. */
  ghost function Held(s: State, key: Key): Option<Cached>
    requires ShardsOk(s)
  {
    Says(s.shards[s.Part(key)], key)
  }

  lemma HeldGet(s: State, t: nat, a: Action, r: State, key: Key)
    requires PcsOk(s) && ShardsOk(r) && t < |s.threads| && GetStep(s, t, a, r)
    ensures Held(r, key) == Held(s, key)
  {
    PcsOkAt(s, t);
    hide Shard.Ok, Shard.View, PcsOk, Held, ShardsOk;
    var pc := s.threads[t];
    if a.Reference? || a.Copy? || a.Release? {
      var i := s.Part(pc.key);
      HeldTouch(s, i, pc.id, r.shards[i].store[pc.id], r, key);
    } else {
      TickHolds(s, r, key);
    }
  }

  lemma HeldTouch(s: State, i: nat, id: Id, e: Entry, r: State, key: Key)
    requires ShardsOk(s) && ShardsOk(r) && i < |s.shards| && id in s.shards[i].store
    requires r.shards == s.shards[i := Touch(s.shards[i], id, e)]
    requires var was := s.shards[i].store[id]; e.key == was.key && e.value == was.value && e.expire == was.expire
    ensures Held(r, key) == Held(s, key)
  {
    hide Shard.Ok, Shard.View;
    assert s.shards[i].Ok();
    TouchOk(s.shards[i], id, e);
  }

  lemma HeldSet(c: Limits, s: State, t: nat, a: Action, r: State, key: Key)
    requires PcsOk(s) && ShardsOk(r) && t < |s.threads| && SetStep(c, s, t, a, r)
    ensures Held(r, key) ==
              if Replaces(s, (t, a), key)
              then Some(Cached(s.threads[t].entry.value, s.threads[t].entry.expire)) else Held(s, key)
  {
    PcsOkAt(s, t);
    assert forall i | 0 <= i < |s.shards| :: s.nextId !in s.shards[i].store;
    hide Shard.Ok, Shard.View, Shard.Insert, Pieces, PcsOk, Held, ShardsOk;
    if a.Insert? {
      var pc := s.threads[t];
      var i := s.Part(pc.key);
      OkShard(s, i);
      SaysInsert(s.shards[i], s.nextId, pc.entry, key);
      HeldIn(s, i, s.shards[i].Insert(s.nextId, pc.entry), r, key);
    } else {
      TickHolds(s, r, key);
    }
  }

  lemma SaysInsert(s: Shard, id: Id, e: Entry, key: Key)
    requires s.Ok() && id !in s.store && e.expire != EXPIRE_DROPIT
    ensures s.Insert(id, e).Ok()
    ensures Says(s.Insert(id, e), key) == if key == e.key then Some(Cached(e.value, e.expire)) else Says(s, key)
  {
    hide Shard.Ok, Shard.View, Shard.Insert;
    s.InsertOk(id, e);
  }

  lemma HeldTruncate(s: State, t: nat, a: Action, r: State, key: Key)
    requires PcsOk(s) && ShardsOk(r) && t < |s.threads| && TruncateStep(s, t, a, r)
    ensures Held(r, key) == if Replaces(s, (t, a), key) then None else Held(s, key)
  {
    PcsOkAt(s, t);
    hide Shard.Ok, Shard.View, Shard.Clear, PcsOk, Held;
    var pc := s.threads[t];
    if a.ClearNext? && pc.next < |s.shards| {
      OkShard(s, pc.next);
      SaysClear(s.shards[pc.next], key);
      HeldIn(s, pc.next, s.shards[pc.next].Clear(), r, key);
    } else {
      TickHolds(s, r, key);
    }
  }

  lemma SaysClear(s: Shard, key: Key)
    requires s.Ok()
    ensures s.Clear().Ok() && Says(s.Clear(), key) == None
  {
    hide Shard.Ok, Shard.View, Shard.Clear;
    s.ClearOk();
  }

  lemma HeldPurge(s: State, t: nat, a: Action, r: State, key: Key)
    requires PcsOk(s) && ShardsOk(r) && t < |s.threads| && PurgeStep(s, t, a, r)
    ensures Held(r, key) == Held(s, key) ||
            (Held(r, key) == None && Held(s, key).Some? && Held(s, key).value.expire <= s.now)
  {
    PcsOkAt(s, t);
    hide Shard.Ok, Shard.View, Shard.Free, Shard.Drop, QueryCache.Expire, Pieces, PcsOk, Held;
    var pc := s.threads[t];
    if a.Expire? {
      OkShard(s, pc.part);
      ExpireView(s.shards[pc.part], a.idx, s.now, key);
      HeldIn(s, pc.part, QueryCache.Expire(s.shards[pc.part], a.idx, s.now), r, key);
    } else if a.Reclaim? {
      OkShard(s, pc.part);
      s.shards[pc.part].FreeOk(pc.idx);
      SameSays(s.shards[pc.part], s.shards[pc.part].Free(pc.idx), key);
      HeldIn(s, pc.part, s.shards[pc.part].Free(pc.idx), r, key);
    } else {
      TickHolds(s, r, key);
    }
  }

  lemma OkShard(s: State, i: nat)
    requires ShardsOk(s) && i < |s.shards|
    ensures s.shards[i].Ok()
  {
  }

  lemma SameSays(s: Shard, t: Shard, key: Key)
    requires s.Ok() && t.Ok() && s.View() == t.View()
    ensures Says(s, key) == Says(t, key)
  {
  }

  /** A change of one partition shows only in what that partition says. */
  lemma HeldIn(s: State, i: nat, shard: Shard, r: State, key: Key)
    requires ShardsOk(s) && ShardsOk(r) && i < |s.shards| && r.shards == s.shards[i := shard] && shard.Ok()
    requires s.shards[i].Ok()
    ensures Held(s, key) == (if s.Part(key) == i then Says(s.shards[i], key) else Held(s, key))
    ensures Held(r, key) == (if s.Part(key) == i then Says(shard, key) else Held(s, key))
  {
    hide Shard.Ok, Says;
  }

  lemma ExpireView(s: Shard, i: nat, now: int, key: Key)
    requires s.Ok() && i < |s.arr|
    ensures var t := QueryCache.Expire(s, i, now);
            && t.Ok()
            && (Says(t, key) == Says(s, key) ||
                (Says(t, key) == None && Says(s, key).Some? && Says(s, key).value.expire <= now))
  {
    var id := s.arr[i];
    assert id in s.store;
    if s.store[id].expire != EXPIRE_DROPIT && s.store[id].expire <= now {
      assert s.Mapped(id);
      s.DropOk(id);
    }
  }

  /** The table changes for a key only by a set, a truncation, or the purge of an expired entry. */
  lemma HeldStep(c: Limits, s: State, t: nat, a: Action, r: State, key: Key)
    requires Safe(s) && ShardsOk(r) && Next(c, s, t, a, r)
    ensures s.now <= r.now
    ensures if !Replaces(s, (t, a), key) then
              || Held(r, key) == Held(s, key)
              || (Held(r, key) == None && Held(s, key).Some? && Held(s, key).value.expire <= s.now)
            else if a.Insert? then Held(r, key) == Some(Cached(s.threads[t].entry.value, s.threads[t].entry.expire))
            else Held(r, key) == None
  {
    hide GetStep, SetStep, TruncateStep, PurgeStep, PcsOk, RefsOk, LocksOk, Held;
    if a.Tick? {
      TickHolds(s, r, key);
    } else {
      NowStays(c, s, t, a, r);
      if GetStep(s, t, a, r) {
        HeldGet(s, t, a, r, key);
        NotReplacing(s, t, a, r);
      } else if SetStep(c, s, t, a, r) {
        HeldSet(c, s, t, a, r, key);
        SetReplaces(c, s, t, a, r, key);
      } else if TruncateStep(s, t, a, r) {
        HeldTruncate(s, t, a, r, key);
        TruncateReplaces(s, t, a, r);
      } else {
        HeldPurge(s, t, a, r, key);
        NotReplacing(s, t, a, r);
      }
    }
  }

  lemma TickHolds(s: State, r: State, key: Key)
    requires ShardsOk(s) && ShardsOk(r) && r.shards == s.shards
    ensures Held(r, key) == Held(s, key)
  {
  }

  lemma SetReplaces(c: Limits, s: State, t: nat, a: Action, r: State, key: Key)
    requires |s.shards| > 0 && t < |s.threads| && SetStep(c, s, t, a, r)
    ensures Replaces(s, (t, a), key) ==> a.Insert? && s.threads[t].SetLocked? && s.threads[t].key == key
  {
  }

  lemma TruncateReplaces(s: State, t: nat, a: Action, r: State)
    requires |s.shards| > 0 && t < |s.threads| && TruncateStep(s, t, a, r)
    ensures !a.Insert?
  {
  }

  /** The table says what stands: the value and deadline of the standing set, or nothing once that has expired. */
  predicate Agrees(held: Option<Cached>, standing: Option<Entry>, now: int) {
    match held
    case Some(c) => standing.Some? && standing.value.value == c.value && standing.value.expire == c.expire
    case None => standing.None? || standing.value.expire <= now
  }

  lemma {:induction false} TableIs(c: Limits, run: seq<State>, events: seq<(nat, Action)>, n: nat, key: Key)
    requires Run(c, run, events) && n < |run|
    ensures ShardsOk(run[n]) && Agrees(Held(run[n], key), Standing(run, events, n, key), run[n].now)
  {
    hide Next, PcsOk, RefsOk, LocksOk, Held, Replaces;
    RunShards(c, run, events, n);
    if n == 0 {
      NothingHeld(run[0], key);
    } else {
      var (u, a) := events[n - 1];
      assert events[n - 1] == (u, a);
      TableIs(c, run, events, n - 1, key);
      RunSafe(c, run, events, n - 1);
      assert Next(c, run[n - 1], u, a, run[n]);
      HeldStep(c, run[n - 1], u, a, run[n], key);
      if Replaces(run[n - 1], events[n - 1], key) && a.Insert? {
        InsertsItsOwn(run[n - 1], u, key);
        AdmittedIs(c, run, events, n - 1, u);
      }
    }
  }

  lemma RunShards(c: Limits, run: seq<State>, events: seq<(nat, Action)>, n: nat)
    requires Run(c, run, events) && n < |run|
    ensures ShardsOk(run[n])
  {
    hide Next, RefsOk, LocksOk, Initial;
    RunSafe(c, run, events, n);
  }

  lemma InsertsItsOwn(s: State, u: nat, key: Key)
    requires Replaces(s, (u, Action.Insert), key)
    ensures u < |s.threads| && s.threads[u].SetLocked?
  {
  }

  lemma NothingHeld(s: State, key: Key)
    requires Initial(s) && ShardsOk(s)
    ensures Held(s, key) == None
  {
  }

  // ----- lookups and hits -----

  /** A get that finds the key finds the standing set; one that does not finds it absent or expired. */
  lemma LookupIs(c: Limits, run: seq<State>, events: seq<(nat, Action)>, m: nat, t: nat)
    requires Run(c, run, events) && m < |events| && events[m] == (t, Lookup)
    ensures run[m].shards != [] && t < |run[m].threads| && t < |run[m + 1].threads| && run[m].threads[t].GetLocked?
    ensures var key, pc := run[m].threads[t].key, run[m + 1].threads[t];
            var standing := Standing(run, events, m, key);
            if pc == Idle then standing.None? || standing.value.expire <= run[m].now
            else
              && pc.GetFound? && pc.key == key && standing.Some? && standing.value.value == pc.seen
              && pc.id in run[m].shards[run[m].Part(key)].store
              && run[m].shards[run[m].Part(key)].store[pc.id].expire == standing.value.expire
  {
    hide Next, Initial, Standing;
    AbsentIff(c, run, events, m, t);
    var key := run[m].threads[t].key;
    TableIs(c, run, events, m, key);
  }

  /**
   The outcome of every get that found an entry, by the events alone: the value of the set that stood at its
   lookup, unless that has expired by the comparison or the key was set again or truncated in between.
   */
  lemma OutcomeIs(c: Limits, run: seq<State>, events: seq<(nat, Action)>, q: nat, t: nat) returns (m: nat)
    requires Run(c, run, events) && q < |events| && events[q] == (t, Copy)
    ensures m < q && events[m] == (t, Lookup)
    ensures t < |run[q].threads| && t < |run[q + 1].threads| && run[q].threads[t].GetUnlocked? &&
            run[q + 1].threads[t].GetCopied?
    ensures var key := run[q].threads[t].key;
            var standing := Standing(run, events, m, key);
            && standing.Some?
            && run[q + 1].threads[t].result ==
                 if standing.value.expire <= run[q].now || ReplacedBetween(run, events, m, q, key)
                 then None else Some(standing.value.value)
  {
    hide Next, Initial, Standing, ReplacedBetween;
    m := MissIff(c, run, events, q, t);
    LookupIs(c, run, events, m, t);
  }

  /** What stands was set by an event, and nothing has replaced it since. */
  lemma {:induction false} StandingAt(run: seq<State>, events: seq<(nat, Action)>, n: nat, key: Key) returns (j: nat)
    requires |run| == |events| + 1 && n <= |events| && Standing(run, events, n, key).Some?
    ensures j < n && events[j].1.Insert? && Replaces(run[j], events[j], key)
    ensures Admitted(events, j, events[j].0) == Standing(run, events, n, key)
    ensures forall k | j < k < n :: !Replaces(run[k], events[k], key)
  {
    hide Replaces;
    if Replaces(run[n - 1], events[n - 1], key) {
      j := n - 1;
    } else {
      j := StandingAt(run, events, n - 1, key);
    }
  }

  /**
   Every hit, in every run: some thread was admitted with an entry of that key and value and inserted it before
   this get's lookup, and no later event up to the comparison sets the key again or truncates its partition;
   the entry's deadline is still ahead.
   */
  lemma HitWasSet(c: Limits, run: seq<State>, events: seq<(nat, Action)>, q: nat, t: nat, v: Value)
    returns (a: nat, j: nat, m: nat)
    requires Run(c, run, events) && q < |events| && events[q] == (t, Copy)
    requires t < |run[q + 1].threads| && run[q + 1].threads[t].GetCopied? && run[q + 1].threads[t].result == Some(v)
    ensures a < j < m < q && events[m] == (t, Lookup)
    ensures t < |run[q].threads| && run[q].threads[t].GetUnlocked?
    ensures events[a].1.Admit? && events[j] == (events[a].0, Action.Insert)
    ensures var e := events[a].1.entry; e.key == run[q].threads[t].key && e.value == v && e.expire > run[q].now
    ensures forall k | j < k < q :: !Replaces(run[k], events[k], run[q].threads[t].key)
  {
    hide Next, Initial, Standing, Admitted, Replaces;
    m := OutcomeIs(c, run, events, q, t);
    var key := run[q].threads[t].key;
    j := StandingAt(run, events, m, key);
    a := AdmittedAt(events, j, events[j].0);
    assert events[j] == (events[j].0, Action.Insert);
    InsertsItsOwn(run[j], events[j].0, key);
    InsertedKey(c, run, events, j, key);
    forall k | j < k < q
      ensures !Replaces(run[k], events[k], key)
    {
      if k == m {
        LookupReplacesNothing(run[k], t, key);
      }
    }
  }

  lemma InsertedKey(c: Limits, run: seq<State>, events: seq<(nat, Action)>, j: nat, key: Key)
    requires Run(c, run, events) && j < |events| && events[j].1.Insert? && Replaces(run[j], events[j], key)
    ensures Admitted(events, j, events[j].0).Some? && Admitted(events, j, events[j].0).value.key == key
  {
    hide Next, Initial, Admitted;
    AdmittedIs(c, run, events, j, events[j].0);
  }

  lemma LookupReplacesNothing(s: State, t: nat, key: Key)
    ensures !Replaces(s, (t, Lookup), key)
  {
  }

  // ----- truncation -----

  /** A partition that a truncating thread has cleared and not yet unlocked. */
  predicate HasCleared(pc: Pc, i: nat) {
    (pc.TruncClearing? && i < pc.next) || (pc.TruncUnlocking? && pc.next <= i)
  }

  ghost predicate Cleared(s: State) {
    forall t, i | 0 <= t < |s.threads| && 0 <= i < |s.shards| && HasCleared(s.threads[t], i) ::
      s.shards[i].hash == map[]
  }

  /** While a thread has a partition locked for writing, no other thread changes its table. */
  lemma TableStays(c: Limits, s: State, u: nat, a: Action, r: State, t: nat, i: nat)
    requires Safe(s) && Next(c, s, u, a, r) && t < |s.threads| && i < |s.shards| && (t != u || a.Tick?)
    requires s.threads[t].Writes(i, |s.shards|) && i < |r.shards|
    ensures r.shards[i].hash == s.shards[i].hash
  {
    hide PcsOk, RefsOk, GetStep, SetStep, TruncateStep, PurgeStep;
    OthersWait(c, s, u, a, r);
    if !a.Tick? {
      assert !s.threads[u].Writes(i, |s.shards|);
      if GetStep(s, u, a, r) {
        GetKeepsTable(s, u, a, r, i);
      } else if SetStep(c, s, u, a, r) {
        SetKeepsTable(c, s, u, a, r, i);
      } else {
        RestKeepsTable(s, u, a, r, i);
      }
    }
  }

  lemma GetKeepsTable(s: State, u: nat, a: Action, r: State, i: nat)
    requires |s.shards| > 0 && u < |s.threads| && GetStep(s, u, a, r) && i < |s.shards| == |r.shards|
    ensures r.shards[i].hash == s.shards[i].hash
  {
  }

  lemma SetKeepsTable(c: Limits, s: State, u: nat, a: Action, r: State, i: nat)
    requires |s.shards| > 0 && u < |s.threads| && SetStep(c, s, u, a, r) && i < |s.shards| == |r.shards|
    requires !s.threads[u].Writes(i, |s.shards|)
    ensures r.shards[i].hash == s.shards[i].hash
  {
    hide Shard.Insert, Pieces;
  }

  lemma RestKeepsTable(s: State, u: nat, a: Action, r: State, i: nat)
    requires |s.shards| > 0 && u < |s.threads| && (TruncateStep(s, u, a, r) || PurgeStep(s, u, a, r))
    requires i < |s.shards| == |r.shards| && !s.threads[u].Writes(i, |s.shards|)
    ensures r.shards[i].hash == s.shards[i].hash
  {
    hide Shard.Clear, QueryCache.Expire, Shard.Free, Pieces;
  }

  lemma OwnClear(s: State, t: nat, a: Action, r: State, i: nat)
    requires PcsOk(s) && t < |s.threads| && i < |s.shards| && TruncateStep(s, t, a, r)
    requires t < |r.threads| && i < |r.shards| && HasCleared(r.threads[t], i)
    requires HasCleared(s.threads[t], i) ==> s.shards[i].hash == map[]
    ensures r.shards[i].hash == map[]
  {
    hide PcsOk;
  }

  lemma OnlyTruncates(c: Limits, s: State, t: nat, a: Action, r: State)
    requires Next(c, s, t, a, r) && !a.Tick? && t < |r.threads|
    requires r.threads[t].TruncClearing? || r.threads[t].TruncUnlocking?
    ensures t < |s.threads| && TruncateStep(s, t, a, r)
  {
  }

  lemma ClearedStep(c: Limits, s: State, u: nat, a: Action, r: State)
    requires Safe(s) && Cleared(s) && Next(c, s, u, a, r)
    ensures Cleared(r)
  {
    hide Next, PcsOk, RefsOk, LocksOk, TruncateStep;
    OthersWait(c, s, u, a, r);
    forall t, i | 0 <= t < |r.threads| && 0 <= i < |r.shards| && HasCleared(r.threads[t], i)
      ensures r.shards[i].hash == map[]
    {
      if t == u && !a.Tick? {
        OnlyTruncates(c, s, t, a, r);
        OwnClear(s, t, a, r, i);
      } else {
        assert s.threads[t].Writes(i, |s.shards|);
        TableStays(c, s, u, a, r, t, i);
      }
    }
  }

  lemma {:induction false} ClearedRuns(c: Limits, run: seq<State>, events: seq<(nat, Action)>, n: nat)
    requires Run(c, run, events) && n < |run|
    ensures Cleared(run[n])
  {
    hide Next, PcsOk, RefsOk, LocksOk;
    if n > 0 {
      ClearedRuns(c, run, events, n - 1);
      RunSafe(c, run, events, n - 1);
      assert Next(c, run[n - 1], events[n - 1].0, events[n - 1].1, run[n]);
      ClearedStep(c, run[n - 1], events[n - 1].0, events[n - 1].1, run[n]);
    }
  }

  /** When a truncation has cleared the last table and unlocked none, every table is empty, all at the same time. */
  lemma TruncatesAllAtOnce(c: Limits, run: seq<State>, events: seq<(nat, Action)>, n: nat, t: nat)
    requires Run(c, run, events) && n < |run| && t < |run[n].threads| && run[n].threads[t] == TruncUnlocking(0)
    ensures forall i | 0 <= i < |run[n].shards| :: run[n].shards[i].hash == map[]
  {
    hide Next, Initial;
    ClearedRuns(c, run, events, n);
    assert forall i | 0 <= i < |run[n].shards| :: HasCleared(run[n].threads[t], i);
  }
}
