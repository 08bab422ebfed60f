/**
 How far the query cache can exceed its memory limit: not at all with one thread, and up to one entry for
 every further thread, because the free memory is checked before the lock and counted after it.
 */
module CacheLimit {
  import opened Sequences
  import opened CacheShard
  import opened CacheProtocol
  import opened CacheAccounting

  // ----- building runs -----

  function Last(run: seq<State>): State
    requires run != []
  {
    run[|run| - 1]
  }

  /** A run goes on by one step. */
  lemma Extend(c: Limits, run: seq<State>, events: seq<(nat, Action)>, t: nat, a: Action, r: State)
    requires Run(c, run, events) && Next(c, Last(run), t, a, r)
    ensures Run(c, run + [r], events + [(t, a)])
  {
    hide Next, Initial;
    var run', events' := run + [r], events + [(t, a)];
    forall n | 0 <= n < |events'|
      ensures Next(c, run'[n], events'[n].0, events'[n].1, run'[n + 1])
    {
      if n < |events| {
        assert events'[n] == events[n] && run'[n] == run[n] && run'[n + 1] == run[n + 1];
      }
    }
    assert run'[0] == run[0];
  }

  /** No thread holds or waits inside anything: each is idle or has just been admitted. */
  predicate Calm(s: State) {
    forall u | 0 <= u < |s.threads| :: s.threads[u].Idle? || s.threads[u].SetAdmitted?
  }

  /** What the construction keeps track of: the shape, the threads and the counter. */
  predicate Follows(s: State, r: State, threads: seq<Pc>, used: int) {
    |r.shards| == |s.shards| && r.threads == threads && r.used == used
  }

  lemma SetNext(c: Limits, s: State, t: nat, a: Action, r: State)
    requires |s.shards| > 0 && t < |s.threads| && !a.Tick? && SetStep(c, s, t, a, r)
    ensures Next(c, s, t, a, r)
  {
  }

  /** An idle thread is admitted for an entry that fits. */
  lemma AdmitOne(c: Limits, run: seq<State>, events: seq<(nat, Action)>, t: nat, e: Entry)
    returns (run': seq<State>, events': seq<(nat, Action)>)
    requires Run(c, run, events) && t < |Last(run).threads| && Last(run).threads[t].Idle?
    requires e.expire != EXPIRE_DROPIT && e.refCount == 0 && e.Bytes() <= c.maxEntry &&
             Last(run).used + e.Bytes() <= c.maxMemory
    ensures run' != [] && Run(c, run', events')
    ensures Follows(Last(run), Last(run'), Last(run).threads[t := SetAdmitted(e.key, e)], Last(run).used)
  {
    hide Next, Initial;
    var s := Last(run);
    RunSafe(c, run, events, |run| - 1);
    var r := s.Goto(t, SetAdmitted(e.key, e));
    SetNext(c, s, t, Admit(e), r);
    Extend(c, run, events, t, Admit(e), r);
    run', events' := run + [r], events + [(t, Admit(e))];
  }

  /** An admitted thread takes the lock, inserts and unlocks while every other thread is calm. */
  lemma InsertOne(c: Limits, run: seq<State>, events: seq<(nat, Action)>, t: nat)
    returns (run': seq<State>, events': seq<(nat, Action)>)
    requires Run(c, run, events) && Calm(Last(run)) && t < |Last(run).threads| && Last(run).threads[t].SetAdmitted?
    ensures run' != [] && Run(c, run', events')
    ensures Follows(Last(run), Last(run'), Last(run).threads[t := SetCounting(Pieces(Last(run).threads[t].entry))],
            Last(run).used)
  {
    hide Pieces, Shard.Insert, Next, Initial, PcsOk, RefsOk, LocksOk;
    var s := Last(run);
    var pc := s.threads[t];
    RunSafe(c, run, events, |run| - 1);
    HasShards(s);
    var s1 := s.Goto(t, SetLocked(pc.key, pc.entry));
    SetNext(c, s, t, LockSet, s1);
    Extend(c, run, events, t, LockSet, s1);
    run', events' := run + [s1], events + [(t, LockSet)];
    RunSafe(c, run', events', |run'| - 1);
    var i := s1.Part(pc.key);
    OkAt(s1, i);
    var s2 := s1.With(i, s1.shards[i].Insert(s1.nextId, pc.entry)).(nextId := s1.nextId + 1).Goto(t,
        SetMapped(pc.key, Pieces(pc.entry)));
    SetNext(c, s1, t, Insert, s2);
    Extend(c, run', events', t, Insert, s2);
    run', events' := run' + [s2], events' + [(t, Insert)];
    var s3 := s2.Goto(t, SetCounting(Pieces(pc.entry)));
    SetNext(c, s2, t, UnlockSet, s3);
    Extend(c, run', events', t, UnlockSet, s3);
    run', events' := run' + [s3], events' + [(t, UnlockSet)];
    assert s3.threads == s.threads[t := SetCounting(Pieces(pc.entry))];
  }

  lemma HasShards(s: State)
    requires Safe(s)
    ensures |s.shards| > 0
  {
  }

  lemma OkAt(s: State, i: nat)
    requires Safe(s) && i < |s.shards|
    ensures s.shards[i].HashOk()
  {
    hide RefsOk, LocksOk;
    assert s.shards[i].Ok();
  }

  /** The counter updates of one set, to the end. */
  lemma {:induction false} CountAll(c: Limits, run: seq<State>, events: seq<(nat, Action)>, t: nat, left: seq<nat>)
    returns (run': seq<State>, events': seq<(nat, Action)>)
    requires Run(c, run, events) && t < |Last(run).threads| && Last(run).threads[t] == SetCounting(left)
    ensures run' != [] && Run(c, run', events')
    ensures Follows(Last(run), Last(run'), Last(run).threads[t := Idle], Last(run).used + Total(left))
    decreases |left|
  {
    hide Next, Initial;
    var s := Last(run);
    RunSafe(c, run, events, |run| - 1);
    if left == [] {
      var r := s.Goto(t, Idle);
      SetNext(c, s, t, CountUp, r);
      Extend(c, run, events, t, CountUp, r);
      run', events' := run + [r], events + [(t, CountUp)];
    } else {
      var r := s.(used := s.used + left[0]).Goto(t, SetCounting(left[1..]));
      SetNext(c, s, t, CountUp, r);
      Extend(c, run, events, t, CountUp, r);
      run', events' := CountAll(c, run + [r], events + [(t, CountUp)], t, left[1..]);
      assert s.threads[t := SetCounting(left[1..])][t := Idle] == s.threads[t := Idle];
    }
  }

  /** An admitted thread completes its set and is counted. */
  lemma CompleteOne(c: Limits, run: seq<State>, events: seq<(nat, Action)>, t: nat)
    returns (run': seq<State>, events': seq<(nat, Action)>)
    requires Run(c, run, events) && Calm(Last(run)) && t < |Last(run).threads| && Last(run).threads[t].SetAdmitted?
    ensures run' != [] && Run(c, run', events')
    ensures Follows(Last(run), Last(run'), Last(run).threads[t := Idle],
            Last(run).used + Last(run).threads[t].entry.Bytes())
  {
    hide Next, Initial, Pieces;
    var s := Last(run);
    var left := Pieces(s.threads[t].entry);
    run', events' := InsertOne(c, run, events, t);
    run', events' := CountAll(c, run', events', t, left);
    assert s.threads[t := SetCounting(left)][t := Idle] == s.threads[t := Idle];
  }

  // ----- one thread fills the cache, then all check before any is counted -----

  /** The first k of count threads have been admitted for e, the others are idle. */
  function Group(count: nat, k: nat, e: Entry): (r: seq<Pc>)
    ensures |r| == count
  {
    seq(count, j => if j < k then SetAdmitted(e.key, e) else Idle)
  }

  /** An entry that the limits let in. */
  predicate Fits(c: Limits, e: Entry) {
    e.expire != EXPIRE_DROPIT && e.refCount == 0 && e.Bytes() <= c.maxEntry && e.Bytes() <= c.maxMemory
  }

  lemma {:induction false} FillUp(c: Limits, run: seq<State>, events: seq<(nat, Action)>, count: nat, e: Entry, q: nat)
    returns (run': seq<State>, events': seq<(nat, Action)>)
    requires Run(c, run, events) && count > 0 && Last(run).threads == Group(count, 0, e) && Fits(c, e)
    requires Last(run).used + q * e.Bytes() <= c.maxMemory
    ensures run' != [] && Run(c, run', events') && Follows(Last(run), Last(run'), Group(count, 0, e),
            Last(run).used + q * e.Bytes())
    decreases q
  {
    hide Next, Initial;
    run', events' := run, events;
    if q > 0 {
      assert q * e.Bytes() == (q - 1) * e.Bytes() + e.Bytes();
      run', events' := AdmitOne(c, run, events, 0, e) by { assert (q - 1) * e.Bytes() >= 0; }
      run', events' := CompleteOne(c, run', events', 0);
      assert Last(run').threads == Group(count, 0, e);
      run', events' := FillUp(c, run', events', count, e, q - 1);
    }
  }

  lemma {:induction false} AdmitAll(c: Limits, run: seq<State>, events: seq<(nat, Action)>, count: nat, e: Entry,
                                    k: nat)
    returns (run': seq<State>, events': seq<(nat, Action)>)
    requires Run(c, run, events) && k <= count && Last(run).threads == Group(count, k, e) && Fits(c, e)
    requires Last(run).used + e.Bytes() <= c.maxMemory
    ensures run' != [] && Run(c, run', events') && Follows(Last(run), Last(run'), Group(count, count, e),
            Last(run).used)
    decreases count - k
  {
    hide Next, Initial;
    run', events' := run, events;
    if k < count {
      run', events' := AdmitOne(c, run, events, k, e);
      assert Last(run').threads == Group(count, k + 1, e);
      run', events' := AdmitAll(c, run', events', count, e, k + 1);
    }
  }

  lemma {:induction false} CompleteAll(c: Limits, run: seq<State>, events: seq<(nat, Action)>, count: nat, e: Entry,
                                       k: nat)
    returns (run': seq<State>, events': seq<(nat, Action)>)
    requires Run(c, run, events) && k <= count && Last(run).threads == Group(count, k, e)
    ensures run' != [] && Run(c, run', events') && Follows(Last(run), Last(run'), Group(count, 0, e),
            Last(run).used + k * e.Bytes())
    decreases k
  {
    hide Next, Initial;
    run', events' := run, events;
    if k > 0 {
      run', events' := CompleteOne(c, run, events, k - 1);
      assert Last(run').threads == Group(count, k - 1, e);
      run', events' := CompleteAll(c, run', events', count, e, k - 1);
      assert k * e.Bytes() == (k - 1) * e.Bytes() + e.Bytes();
    }
  }

  function Start(count: nat): State {
    State([Shard(map[], [], map[])], seq(count, _ => Idle), 0, 0, 0)
  }

  /**
   Any number of threads, any entry that fits, q of them stored one after the other and then one by every
   thread at once: when all threads rest, that many entries are in the arrays and in the counters.
   */
  lemma Reach(c: Limits, count: nat, e: Entry, q: nat) returns (run: seq<State>, events: seq<(nat, Action)>)
    requires count > 0 && Fits(c, e) && q * e.Bytes() + e.Bytes() <= c.maxMemory
    ensures run != [] && Run(c, run, events) && Last(run).threads == seq(count, _ => Idle)
    ensures Last(run).used == SizeOf(Last(run).shards) == (q + count) * e.Bytes()
  {
    hide Next;
    run, events := [Start(count)], [];
    assert Start(count).threads == Group(count, 0, e);
    run, events := FillUp(c, run, events, count, e, q);
    run, events := AdmitAll(c, run, events, count, e, 0);
    run, events := CompleteAll(c, run, events, count, e, count);
    assert Group(count, 0, e) == seq(count, _ => Idle);
    assert q * e.Bytes() + count * e.Bytes() == (q + count) * e.Bytes();
    QuiescentExact(c, run, events, |run| - 1);
  }

  /** The bound is reached, at rest and in the arrays, for every number of threads and every limit of whole entries. */
  lemma BoundIsReached(c: Limits, count: nat, e: Entry, q: nat) returns (run: seq<State>, events: seq<(nat, Action)>)
    requires count > 0 && Fits(c, e) && e.Bytes() == c.maxEntry && c.maxMemory == (q + 1) * c.maxEntry
    ensures run != [] && Run(c, run, events) && Last(run).threads == seq(count, _ => Idle)
    ensures Last(run).used == SizeOf(Last(run).shards) == c.maxMemory + (count - 1) * c.maxEntry
  {
    hide Run;
    assert (q + 1) * c.maxEntry == q * c.maxEntry + c.maxEntry;
    run, events := Reach(c, count, e, q);
    assert (q + count) * c.maxEntry == (q + 1) * c.maxEntry + (count - 1) * c.maxEntry;
  }

  // ----- when the limit is kept -----

  /** The smallest entry there is can be admitted. */
  predicate SomeFits(c: Limits) {
    c.maxEntry >= ENTRY_OVERHEAD && c.maxMemory >= ENTRY_OVERHEAD
  }

  /** No run of that many threads ever has more than the limit counted and in flight. */
  ghost predicate KeepsLimit(c: Limits, count: nat) {
    forall run: seq<State>, events, n: nat | Run(c, run, events) && n < |run| && |run[n].threads| == count ::
      run[n].used + Sum(InFlight, run[n].threads) <= c.maxMemory
  }

  /** With a second thread the limit is exceeded, at rest and in the arrays. */
  lemma LimitExceeded(c: Limits, count: nat, e: Entry) returns (run: seq<State>, events: seq<(nat, Action)>)
    requires count > 1 && Fits(c, e)
    ensures run != [] && Run(c, run, events) && Last(run).threads == seq(count, _ => Idle)
    ensures Last(run).used == SizeOf(Last(run).shards) > c.maxMemory
  {
    hide Run;
    var q := WholeEntries(c.maxMemory, e.Bytes(), count);
    run, events := Reach(c, count, e, q);
  }

  /** How many entries to store before the last round. */
  lemma WholeEntries(m: nat, s: nat, count: nat) returns (q: nat)
    requires 0 < s <= m && count > 1
    ensures q * s + s <= m < (q + count) * s
  {
    q := m / s - 1;
    assert m == (q + 1) * s + m % s;
    assert q * s + s == (q + 1) * s;
    Distribute(q + 1, count - 1, s);
  }

  lemma Distribute(x: nat, y: nat, s: nat)
    requires y >= 1
    ensures (x + y) * s >= x * s + s
  {
  }

  /** Nothing is ever admitted: the tables stay empty and no thread is in a set or at an entry. */
  ghost predicate Barren(s: State) {
    && |s.shards| > 0 && s.used == 0
    && (forall i | 0 <= i < |s.shards| :: s.shards[i] == Shard(map[], [], map[]))
    && (forall t | 0 <= t < |s.threads| :: BarrenPc(s.threads[t]))
  }

  predicate BarrenPc(pc: Pc) {
    pc.Idle? || pc.GetLocked? || pc.TruncLocking? || pc.TruncClearing? || pc.TruncUnlocking? || pc.Purging?
  }

  lemma BarrenStep(c: Limits, s: State, t: nat, a: Action, r: State)
    requires !SomeFits(c) && Barren(s) && Next(c, s, t, a, r)
    ensures Barren(r)
  {
    hide GetStep, SetStep, TruncateStep, PurgeStep;
    if !a.Tick? {
      if GetStep(s, t, a, r) {
        BarrenGet(s, t, a, r);
      } else if SetStep(c, s, t, a, r) {
        BarrenSet(c, s, t, a, r);
      } else if TruncateStep(s, t, a, r) {
        BarrenTruncate(s, t, a, r);
      } else {
        BarrenPurge(s, t, a, r);
      }
    }
  }

  lemma BarrenGet(s: State, t: nat, a: Action, r: State)
    requires Barren(s) && t < |s.threads| && GetStep(s, t, a, r)
    ensures Barren(r)
  {
    assert BarrenPc(s.threads[t]);
  }

  lemma BarrenSet(c: Limits, s: State, t: nat, a: Action, r: State)
    requires !SomeFits(c) && Barren(s) && t < |s.threads| && SetStep(c, s, t, a, r)
    ensures Barren(r)
  {
    assert BarrenPc(s.threads[t]);
  }

  lemma BarrenTruncate(s: State, t: nat, a: Action, r: State)
    requires Barren(s) && t < |s.threads| && TruncateStep(s, t, a, r)
    ensures Barren(r)
  {
    assert BarrenPc(s.threads[t]);
    if a.ClearNext? && s.threads[t].next < |s.shards| {
      assert s.shards[s.threads[t].next].Clear().store == map[];
    }
  }

  lemma BarrenPurge(s: State, t: nat, a: Action, r: State)
    requires Barren(s) && t < |s.threads| && PurgeStep(s, t, a, r)
    ensures Barren(r)
  {
    assert BarrenPc(s.threads[t]);
  }

  lemma {:induction false} RunBarren(c: Limits, run: seq<State>, events: seq<(nat, Action)>, n: nat)
    requires !SomeFits(c) && Run(c, run, events) && n < |run|
    ensures Barren(run[n])
  {
    hide Next;
    if n > 0 {
      RunBarren(c, run, events, n - 1);
      BarrenStep(c, run[n - 1], events[n - 1].0, events[n - 1].1, run[n]);
    }
  }

  /** The limit is kept in every run exactly when there is one thread, or not even the smallest entry fits. */
  lemma LimitKeptIff(c: Limits, count: nat)
    requires count > 0
    ensures KeepsLimit(c, count) <==> count == 1 || !SomeFits(c)
  {
    hide Run;
    if count == 1 || !SomeFits(c) {
      forall run: seq<State>, events, n: nat | Run(c, run, events) && n < |run| && |run[n].threads| == count
        ensures run[n].used + Sum(InFlight, run[n].threads) <= c.maxMemory
      {
        if count == 1 {
          RunAccounted(c, run, events, n);
        } else {
          RunBarren(c, run, events, n);
          SumZero(InFlight, run[n].threads);
        }
      }
    } else {
      var e := Entry(Key([]), [], 1, 0, 0);
      var run, events := LimitExceeded(c, count, e);
      SumZero(InFlight, Last(run).threads);
      assert run[|run| - 1].used + Sum(InFlight, run[|run| - 1].threads) > c.maxMemory;
    }
  }
}
