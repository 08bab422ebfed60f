/** Whole runs of the connection pools: any sequence of requests, returns and prepared statements of any threads. */
module ConnectionRuns {
  import opened Wire
  import opened Sequences
  import opened ConnectionPool

  /** cached is the pool that the backend remembers, if any. */
  datatype Op =
    | GetOp(thread: nat, cached: Option<nat>, key: Key, now: int, connects: bool)
    | DetachOp(thread: nat, cached: Option<nat>, conn: ConnId, forceClose: bool, now: int)
    | MarkOp(conn: ConnId)

  /** A thread uses its own pools, remembers one of them if any, and touches only connections in use. */
  predicate Legal(st: State, op: Op) {
    match op
    case GetOp(t, cached, _, _, _) => GLOBAL < t && st.IsRef(t, cached)
    case DetachOp(t, cached, c, _, _) => GLOBAL < t && st.IsRef(t, cached) && c in st.out && c in st.open
    case MarkOp(c) => c in st.out && c in st.open
  }

  function Apply(st: State, op: Op, wait: nat): State
    requires Legal(st, op)
  {
    match op
    case GetOp(t, cached, key, now, connects) => Get(st, t, cached, key, now, wait, connects).0
    case DetachOp(t, cached, c, forceClose, now) => Detach(st, t, cached, c, forceClose, now)
    case MarkOp(c) => MarkNotReusable(st, c)
  }

  /** mysql_connpool_init and local_mysql_connpool_init for each thread. */
  predicate Initial(st: State) {
    && |st.scopes| > 0 && (forall s | s in st.scopes :: s.pools == [])
    && st.open == map[] && st.out == {}
  }

  ghost predicate IsRun(wait: nat, run: seq<State>, ops: seq<Op>) {
    && |run| == |ops| + 1 && Initial(run[0])
    && forall n | 0 <= n < |ops| :: Legal(run[n], ops[n]) && run[n + 1] == Apply(run[n], ops[n], wait)
  }

  lemma InitialOk(st: State)
    requires Initial(st)
    ensures st.Valid() && KeysMatch(st.scopes, st.open) && NamedUnique(st)
  {
    forall id
      ensures FreeAll(st.scopes, id) == 0
    {
      NothingFree(st.scopes, id);
    }
    assert forall s | 0 <= s < |st.scopes| :: st.scopes[s] in st.scopes;
  }

  lemma NothingFree(scopes: seq<Scope>, id: ConnId)
    requires forall s | s in scopes :: s.pools == []
    ensures FreeAll(scopes, id) == 0
  {
    SumZero(FreeIn(id), scopes);
  }

  // ----- conservation -----

  lemma StepConserves(st: State, op: Op, wait: nat)
    requires st.Valid() && Legal(st, op)
    ensures Apply(st, op, wait).Valid() && KeepsPools(st.scopes, Apply(st, op, wait).scopes)
  {
    hide Get, Detach, State.Valid, ClosesBut;
    match op {
      case GetOp(t, cached, key, now, connects) => GetOk(st, t, cached, key, now, wait, connects);
      case DetachOp(t, cached, c, forceClose, now) => DetachOk(st, t, cached, c, forceClose, now);
      case MarkOp(c) => MarkOk(st, c);
    }
  }

  lemma {:induction false} RunValid(wait: nat, run: seq<State>, ops: seq<Op>, n: nat)
    requires IsRun(wait, run, ops) && n < |run|
    ensures run[n].Valid()
  {
    hide State.Valid, Apply, Initial;
    if n == 0 {
      InitialOk(run[0]);
    } else {
      RunValid(wait, run, ops, n - 1);
      StepConserves(run[n - 1], ops[n - 1], wait);
    }
  }

  /**
   In every state of every run, whatever pools are remembered, a connection ever opened is exactly one of:
   with a session, once in one free list, or closed.
   */
  lemma RunConserves(wait: nat, run: seq<State>, ops: seq<Op>, n: nat, id: ConnId)
    requires IsRun(wait, run, ops) && n < |run|
    ensures var st := run[n];
            (if id in st.out then 1 else 0) + FreeAll(st.scopes, id) + (if id !in st.open then 1 else 0) == 1
  {
    RunValid(wait, run, ops, n);
  }

  // ----- pools -----

  /** A remembered pool stays a pool with the same key for the rest of the run. */
  lemma {:induction false} RunKeepsPools(wait: nat, run: seq<State>, ops: seq<Op>, m: nat, n: nat)
    requires IsRun(wait, run, ops) && m <= n < |run|
    ensures KeepsPools(run[m].scopes, run[n].scopes)
    decreases n
  {
    hide State.Valid, Apply, Initial;
    if m < n {
      RunKeepsPools(wait, run, ops, m, n - 1);
      RunValid(wait, run, ops, n - 1);
      StepConserves(run[n - 1], ops[n - 1], wait);
      KeepsPoolsTwice(run[m].scopes, run[n - 1].scopes, run[n].scopes);
    }
  }

  // ----- matching keys -----

  /** A return puts the connection nowhere, into the pool found for its key, or into a remembered pool of its key. */
  predicate Matching(st: State, op: Op)
    requires Legal(st, op)
  {
    op.DetachOp? ==>
      || ClosesOnDetach(st, op.thread, op.conn, op.forceClose, op.now) || op.cached.None?
      || st.scopes[op.thread].pools[op.cached.value].key == st.open[op.conn].key
  }

  lemma StepMatchesIff(st: State, op: Op, wait: nat)
    requires st.Valid() && KeysMatch(st.scopes, st.open) && Legal(st, op)
    ensures var st' := Apply(st, op, wait); KeysMatch(st'.scopes, st'.open) <==> Matching(st, op)
  {
    hide Get, Detach, State.Valid, KeysMatch, HasFresh;
    match op {
      case GetOp(t, cached, key, now, connects) => GetMatches(st, t, cached, key, now, wait, connects);
      case DetachOp(t, cached, c, forceClose, now) => DetachMatchesIff(st, t, cached, c, forceClose, now);
      case MarkOp(c) => MarkOk(st, c);
    }
  }

  /** Along a run up to state n, the free lists always match their keys exactly when every return so far did. */
  lemma {:induction false} RunMatchesIff(wait: nat, run: seq<State>, ops: seq<Op>, n: nat)
    requires IsRun(wait, run, ops) && n < |run|
    ensures (forall m | 0 <= m <= n :: KeysMatch(run[m].scopes, run[m].open)) <==>
            (forall m | 0 <= m < n :: Matching(run[m], ops[m]))
  {
    hide State.Valid, Apply, Initial, KeysMatch, Matching;
    if n == 0 {
      InitialOk(run[0]);
    } else {
      RunMatchesIff(wait, run, ops, n - 1);
      RunValid(wait, run, ops, n - 1);
      if forall m | 0 <= m <= n - 1 :: KeysMatch(run[m].scopes, run[m].open) {
        StepMatchesIff(run[n - 1], ops[n - 1], wait);
        assert KeysMatch(run[n].scopes, run[n].open) <==> Matching(run[n - 1], ops[n - 1]);
      } else {
        var m :| 0 <= m <= n - 1 && !KeysMatch(run[m].scopes, run[m].open);
        var k :| 0 <= k < n - 1 && !Matching(run[k], ops[k]);
      }
    }
  }

  /**
   So a request in such a run gets the key it asked for, unless its remembered pool is of another key and has a fresh
   one.
   */
  lemma RunGetsTheKey(wait: nat, run: seq<State>, ops: seq<Op>, n: nat)
    requires IsRun(wait, run, ops) && n < |ops| && ops[n].GetOp? && forall m | 0 <= m < n :: Matching(run[m], ops[m])
    ensures var op, st := ops[n], run[n];
            var (st', r, _) := Get(st, op.thread, op.cached, op.key, op.now, wait, op.connects);
            r.Some? ==>
              && r.value in st'.open
              && (st'.open[r.value].key == op.key <==>
                  || op.cached.None? || st.scopes[op.thread].pools[op.cached.value].key == op.key
                  || !HasFresh(st.open, Candidates(st.scopes, op.thread, op.cached, op.key), op.now))
  {
    hide State.Valid, Apply, Initial, KeysMatch, Matching, Get, HasFresh;
    RunValid(wait, run, ops, n);
    RunMatchesIff(wait, run, ops, n);
    var op := ops[n];
    GetMatches(run[n], op.thread, op.cached, op.key, op.now, wait, op.connects);
  }

  /** No return names a remembered pool, as when the backend forgets it before every return. */
  predicate ReturnsForget(ops: seq<Op>) {
    forall op | op in ops && op.DetachOp? :: op.cached.None?
  }

  /** Then the lists match in every state, and a request that names no pool either gets the key it asked for. */
  lemma ForgetfulRunMatches(wait: nat, run: seq<State>, ops: seq<Op>, n: nat)
    requires IsRun(wait, run, ops) && ReturnsForget(ops) && n < |run|
    ensures KeysMatch(run[n].scopes, run[n].open)
    ensures n < |ops| && ops[n].GetOp? && ops[n].cached.None? ==>
              var op := ops[n];
              var (st', r, _) := Get(run[n], op.thread, None, op.key, op.now, wait, op.connects);
              r.Some? ==> r.value in st'.open && st'.open[r.value].key == op.key
  {
    hide Apply, Initial, KeysMatch, Get, HasFresh, Candidates;
    forall m | 0 <= m < n
      ensures Matching(run[m], ops[m])
    {
      assert ops[m] in ops;
    }
    RunMatchesIff(wait, run, ops, n);
    if n < |ops| && ops[n].GetOp? && ops[n].cached.None? {
      RunGetsTheKey(wait, run, ops, n);
    }
  }

  /**
   The condition cannot be dropped: a connection returned to a remembered pool of another key is listed under that
   key, with the clock standing still.
   */
  lemma WrongListRun(a: Key, b: Key, now: int, wait: nat) returns (run: seq<State>, ops: seq<Op>)
    requires a != b && wait > 0
    ensures IsRun(wait, run, ops) && |run| == 4 && !KeysMatch(run[3].scopes, run[3].open)
  {
    hide Get, Detach, State.Valid, KeysMatch, HasFresh, Candidates, KeepsPools, ClosesBut;
    var s0 := State([Scope(true, []), Scope(true, [])], map[], 0, {});
    var get := GetOp(1, None, a, now, true);
    InitialOk(s0);
    StepConserves(s0, get, wait);
    StepMatchesIff(s0, get, wait);
    var s1 := Apply(s0, get, wait);
    GetOk(s0, 1, None, a, now, wait, true);
    var c := Get(s0, 1, None, a, now, wait, true).1.value;
    EnabledStays(s0, s1);
    var get' := GetOp(1, None, b, now, true);
    StepConserves(s1, get', wait);
    StepMatchesIff(s1, get', wait);
    var s2 := Apply(s1, get', wait);
    GetOk(s1, 1, None, b, now, wait, true);
    var other := Get(s1, 1, None, b, now, wait, true).2;
    EnabledStays(s1, s2);
    StaysOpen(s1.open, s2.open, Get(s1, 1, None, b, now, wait, true).1, now, c);
    var back := DetachOp(1, other, c, false, now);
    StepMatchesIff(s2, back, wait);
    run, ops := [s0, s1, s2, Apply(s2, back, wait)], [get, get', back];
  }

  lemma EnabledStays(st: State, st': State)
    requires KeepsPools(st.scopes, st'.scopes) && |st.scopes| == 2 && st.scopes[1].enabled
    ensures |st'.scopes| == 2 && st'.scopes[1].enabled
  {
  }

  lemma StaysOpen(open0: map<ConnId, Conn>, open: map<ConnId, Conn>, r: Option<ConnId>, now: int, c: ConnId)
    requires ClosesBut(open0, open, r, now) && c in open0 && open0[c].expire > now && r != Some(c)
    ensures c in open && open[c] == open0[c]
  {
  }

  // ----- unique keys -----

  lemma StepUnique(st: State, op: Op, wait: nat)
    requires st.Valid() && NamedUnique(st) && Legal(st, op) && (op.GetOp? ==> op.key.db.Some?)
    ensures NamedUnique(Apply(st, op, wait))
  {
    hide Get, Detach, State.Valid;
    match op {
      case GetOp(t, cached, key, now, connects) => GetUnique(st, t, cached, key, now, wait, connects);
      case DetachOp(t, cached, c, forceClose, now) => DetachUnique(st, t, cached, c, forceClose, now);
      case MarkOp(c) =>
    }
  }

  /** If every request names a schema, then in every state of the run no two pools of a scope have one key. */
  lemma {:induction false} RunUnique(wait: nat, run: seq<State>, ops: seq<Op>, n: nat)
    requires IsRun(wait, run, ops) && n < |run| && forall m | 0 <= m < n && ops[m].GetOp? :: ops[m].key.db.Some?
    ensures NamedUnique(run[n]) && forall s | 0 <= s < |run[n].scopes| :: UniqueKeys(run[n].scopes[s].pools)
  {
    hide State.Valid, Apply, Initial, UniqueKeys;
    if n == 0 {
      InitialOk(run[0]);
    } else {
      RunUnique(wait, run, ops, n - 1);
      RunValid(wait, run, ops, n - 1);
      StepUnique(run[n - 1], ops[n - 1], wait);
    }
  }

  /** The condition cannot be dropped: two requests without a schema, and a thread has two pools of one key. */
  lemma NullSchemaRun(key: Key, now: int, wait: nat) returns (run: seq<State>, ops: seq<Op>)
    requires key.db.None?
    ensures IsRun(wait, run, ops) && |run| == 3 && |run[2].scopes| == 2 && !UniqueKeys(run[2].scopes[1].pools)
  {
    hide Get, State.Valid, UniqueKeys;
    var s0 := State([Scope(true, []), Scope(true, [])], map[], 0, {});
    var op := GetOp(1, None, key, now, false);
    InitialOk(s0);
    StepConserves(s0, op, wait);
    var s1 := Apply(s0, op, wait);
    StepConserves(s1, op, wait);
    var s2 := Apply(s1, op, wait);
    OneRequest(s0, key, now, wait);
    OneRequest(s1, key, now, wait);
    assert s2.scopes[1].pools == [] + [Pool(key, [])] + [Pool(key, [])];
    SameKeyTwice(s2.scopes[1].pools, key);
    run, ops := [s0, s1, s2], [op, op];
  }

  lemma SameKeyTwice(pools: seq<Pool>, key: Key)
    requires pools == [] + [Pool(key, [])] + [Pool(key, [])]
    ensures !UniqueKeys(pools)
  {
    assert pools[0].key == pools[1].key;
  }

  /** A request without a schema that finds nothing only appends an empty pool to both scopes. */
  lemma OneRequest(st: State, key: Key, now: int, wait: nat)
    requires key.db.None? && |st.scopes| == 2 && st.scopes[0].enabled && st.scopes[1].enabled
    ensures Get(st, 1, None, key, now, wait, false).0.scopes[1].pools == st.scopes[1].pools + [Pool(key, [])]
  {
    EmptySweep(st, 1, key, now, wait);
    var local := GetFrom(st, 1, None, key, now, wait).0;
    EmptySweep(local, 0, key, now, wait);
  }

  lemma EmptySweep(st: State, s: nat, key: Key, now: int, wait: nat)
    requires key.db.None? && s < |st.scopes| && st.scopes[s].enabled
    ensures var (st', r, _) := GetFrom(st, s, None, key, now, wait);
            && r == None && st'.scopes[s] == st.scopes[s].(pools := st.scopes[s].pools + [Pool(key, [])])
            && forall t | 0 <= t < |st.scopes| && t != s :: st'.scopes[t] == st.scopes[t]
  {
    var (located, i) := Locate(st, s, key);
    assert located.scopes[s].pools == st.scopes[s].pools + [Pool(key, [])] && i == |st.scopes[s].pools|;
    SetFreeTwice(located.scopes, s, i, [], []);
  }
}
