/**
 The backend connection pools (mysql_connpool.c): per-thread pools in front of a global one.
 Connections move between sessions and free lists; none is lost, shared or used after it is closed.
 */
module ConnectionPool {
  import opened Wire
  import opened Sequences
  import opened PtrArrays

  /** What a pool is found by. A session without a schema asks with db NULL. */
  datatype Key = Key(host: string, user: string, password: string, db: Option<string>, port: nat)

  type ConnId = nat  // the address of a mysql_cp_entry_t

  datatype Conn = Conn(key: Key, expire: int, reusable: bool)

  /** mysql_connpool; a reference to one is its position. */
  datatype Pool = Pool(key: Key, free: seq<ConnId>)

  /** myConnPools */
  datatype Scope = Scope(enabled: bool, pools: seq<Pool>)

  const GLOBAL := 0  // every other scope belongs to one thread

  // ----- finding a pool -----

  /** The search gives up at once if either name is NULL. */
  function Find(pools: seq<Pool>, key: Key): (r: Option<nat>)
    ensures r.Some? ==> r.value < |pools| && pools[r.value].key == key
  {
    FindFrom(pools, key, 0)
  }

  function FindFrom(pools: seq<Pool>, key: Key, l: nat): (r: Option<nat>)
    requires l <= |pools|
    ensures r.Some? ==> l <= r.value < |pools| && pools[r.value].key == key
    decreases |pools| - l
  {
    if l == |pools| || key.db.None? || pools[l].key.db.None? then None
    else if pools[l].key == key then Some(l)
    else FindFrom(pools, key, l + 1)
  }

  /** mysql_connpool_find */
  method FindPool(pools: seq<Pool>, key: Key) returns (r: Option<nat>)
    ensures r == Find(pools, key)
  {
    var l := 0;
    while l < |pools|
      invariant 0 <= l <= |pools| && Find(pools, key) == FindFrom(pools, key, l)
    {
      if key.db == None || pools[l].key.db == None {
        return None;
      }
      if pools[l].key == key {
        return Some(l);
      }
      l := l + 1;
    }
    return None;
  }

  /** Nothing hides position i from a search for its key: no NULL name and no equal key comes before it. */
  predicate Reachable(pools: seq<Pool>, i: nat)
    requires i < |pools|
  {
    pools[i].key.db.Some? && forall j | 0 <= j < i :: pools[j].key.db.Some? && pools[j].key != pools[i].key
  }

  /** A search finds position i exactly when i is reachable and has the key. */
  lemma FindIff(pools: seq<Pool>, key: Key, i: nat)
    requires i < |pools|
    ensures Find(pools, key) == Some(i) <==> pools[i].key == key && Reachable(pools, i)
  {
    FindFromIff(pools, key, 0, i);
  }

  lemma {:induction false} FindFromIff(pools: seq<Pool>, key: Key, l: nat, i: nat)
    requires l <= i < |pools|
    ensures FindFrom(pools, key, l) == Some(i) <==>
              pools[i].key == key && pools[i].key.db.Some? && forall j | l <= j < i ::
                  pools[j].key.db.Some? && pools[j].key != key
    decreases i - l
  {
    if l < i {
      FindFromIff(pools, key, l + 1, i);
    }
  }

  predicate UniqueKeys(pools: seq<Pool>) {
    forall i, j | 0 <= i < j < |pools| :: pools[i].key != pools[j].key
  }

  /** mysql_connpool_find_or_create */
  function FindOrCreate(pools: seq<Pool>, key: Key): (r: (seq<Pool>, nat))
    ensures r.1 < |r.0| && r.0[r.1].key == key
    ensures r.0 == pools || (r.0 == pools + [Pool(key, [])] && r.1 == |pools|)
  {
    match Find(pools, key)
    case Some(i) => (pools, i)
    case None => (pools + [Pool(key, [])], |pools|)
  }

  /** Keys stay unique exactly when the key is new, or its pool can be found. */
  lemma UniqueKeysIff(pools: seq<Pool>, key: Key)
    requires UniqueKeys(pools)
    ensures UniqueKeys(FindOrCreate(pools, key).0) <==>
            forall i | 0 <= i < |pools| && pools[i].key == key :: Reachable(pools, i)
  {
    var after := FindOrCreate(pools, key).0;
    if i :| 0 <= i < |pools| && pools[i].key == key {
      FindIff(pools, key, i);
      if !Reachable(pools, i) {
        UnreachableIsMissed(pools, key, i);
        assert after[|pools|].key == after[i].key;
      }
    }
  }

  lemma UnreachableIsMissed(pools: seq<Pool>, key: Key, i: nat)
    requires UniqueKeys(pools) && i < |pools| && pools[i].key == key && !Reachable(pools, i)
    ensures Find(pools, key) == None
  {
    if Find(pools, key).Some? {
      FindIff(pools, key, Find(pools, key).value);
    }
  }

  /** As long as every request names a schema, every pool can be found and keys are unique. */
  lemma NamedKeysStayUnique(pools: seq<Pool>, key: Key)
    requires UniqueKeys(pools) && key.db.Some? && forall p | p in pools :: p.key.db.Some?
    ensures var after := FindOrCreate(pools, key).0; UniqueKeys(after) && forall p | p in after :: p.key.db.Some?
  {
    forall i | 0 <= i < |pools| && pools[i].key == key
      ensures Reachable(pools, i)
    {
      assert forall j | 0 <= j <= i :: pools[j] in pools;
    }
    UniqueKeysIff(pools, key);
  }

  /** Two requests without a schema make two pools with one key; after that no earlier-made pool is out of danger. */
  lemma NullSchemaDuplicates(key: Key)
    requires key.db.None?
    ensures var once := FindOrCreate([], key).0; UniqueKeys(once) && !UniqueKeys(FindOrCreate(once, key).0)
  {
    var once := FindOrCreate([], key).0;
    assert once[0].key == key && !Reachable(once, 0);
    UniqueKeysIff(once, key);
  }

  // ----- conservation -----

  /** How often a connection is in the free list of a pool. */
  ghost function FreeOf(id: ConnId): Pool -> int {
    (p: Pool) => multiset(p.free)[id]
  }

  /** How often it is in the free lists of a scope. */
  ghost function FreeIn(id: ConnId): Scope -> int {
    (s: Scope) => Sum(FreeOf(id), s.pools)
  }

  ghost function FreeAll(scopes: seq<Scope>, id: ConnId): nat {
    FreeInIsNonNegative(scopes, id);
    Sum(FreeIn(id), scopes)
  }

  lemma FreeInIsNonNegative(scopes: seq<Scope>, id: ConnId)
    ensures (forall u | 0 <= u < |scopes| :: FreeIn(id)(scopes[u]) >= 0) && Sum(FreeIn(id), scopes) >= 0
  {
    forall u | 0 <= u < |scopes|
      ensures FreeIn(id)(scopes[u]) >= 0
    {
      SumNonNegative(FreeOf(id), scopes[u].pools);
    }
    SumNonNegative(FreeIn(id), scopes);
  }

  function SetPool(scopes: seq<Scope>, s: nat, i: nat, p: Pool): (r: seq<Scope>)
    requires s < |scopes| && i < |scopes[s].pools|
    ensures |r| == |scopes|
  {
    scopes[s := scopes[s].(pools := scopes[s].pools[i := p])]
  }

  function SetPools(scopes: seq<Scope>, s: nat, pools: seq<Pool>): (r: seq<Scope>)
    requires s < |scopes|
    ensures |r| == |scopes|
  {
    scopes[s := scopes[s].(pools := pools)]
  }

  lemma FreeUpdate(scopes: seq<Scope>, s: nat, i: nat, p: Pool, id: ConnId)
    requires s < |scopes| && i < |scopes[s].pools|
    ensures FreeAll(SetPool(scopes, s, i, p), id) == FreeAll(scopes, id) - multiset(scopes[s].pools[i].free)[id] +
            multiset(p.free)[id]
  {
    SumUpdate(FreeOf(id), scopes[s].pools, i, p);
    SumUpdate(FreeIn(id), scopes, s, scopes[s].(pools := scopes[s].pools[i := p]));
  }

  lemma FreeCreate(scopes: seq<Scope>, s: nat, key: Key, id: ConnId)
    requires s < |scopes|
    ensures FreeAll(SetPools(scopes, s, FindOrCreate(scopes[s].pools, key).0), id) == FreeAll(scopes, id)
  {
    var pools := scopes[s].pools;
    var after := FindOrCreate(pools, key).0;
    if after != pools {
      assert after[..|pools|] == pools;
    }
    SumUpdate(FreeIn(id), scopes, s, scopes[s].(pools := after));
  }

  /** Every open connection is exactly once either with a session or in one free list; a closed one nowhere. */
  ghost predicate Conserved(scopes: seq<Scope>, open: map<ConnId, Conn>, out: set<ConnId>) {
    forall id :: (if id in out then 1 else 0) + FreeAll(scopes, id) == if id in open then 1 else 0
  }

  /** A free list holds only open connections with the key of its pool. */
  ghost predicate KeysMatch(scopes: seq<Scope>, open: map<ConnId, Conn>) {
    forall s, i, id | 0 <= s < |scopes| && 0 <= i < |scopes[s].pools| && id in scopes[s].pools[i].free ::
      id in open && open[id].key == scopes[s].pools[i].key
  }

  lemma Listed(scopes: seq<Scope>, s: nat, i: nat, id: ConnId)
    requires s < |scopes| && i < |scopes[s].pools| && id in scopes[s].pools[i].free
    ensures FreeAll(scopes, id) >= multiset(scopes[s].pools[i].free)[id] >= 1
  {
    FreeInIsNonNegative(scopes, id);
    SumAtLeast(FreeIn(id), scopes, s);
    SumAtLeast(FreeOf(id), scopes[s].pools, i);
  }

  /** A connection in a free list is in no other list, once in this one, and with no session. */
  lemma InOnePlace(scopes: seq<Scope>, open: map<ConnId, Conn>, out: set<ConnId>, s: nat, i: nat, id: ConnId)
    requires Conserved(scopes, open, out) && s < |scopes| && i < |scopes[s].pools| && id in scopes[s].pools[i].free
    ensures id in open && id !in out && multiset(scopes[s].pools[i].free)[id] == 1
    ensures forall t, j | 0 <= t < |scopes| && 0 <= j < |scopes[t].pools| && id in scopes[t].pools[j].free ::
            t == s && j == i
  {
    Listed(scopes, s, i, id);
    forall t, j | 0 <= t < |scopes| && 0 <= j < |scopes[t].pools| && id in scopes[t].pools[j].free
      ensures t == s && j == i
    {
      if t != s || j != i {
        var rest := SetPool(scopes, s, i, Pool(scopes[s].pools[i].key, []));
        FreeUpdate(scopes, s, i, Pool(scopes[s].pools[i].key, []), id);
        Listed(rest, t, j, id);
        assert false;
      }
    }
  }

  // ----- steps that move one connection -----

  /** Taking the connection at position 0 of a free list; keep says whether it goes to a session or is closed. */
  lemma TakeConserves(scopes: seq<Scope>, open: map<ConnId, Conn>, out: set<ConnId>, s: nat, i: nat, keep: bool,
                      conn: Conn)
    requires Conserved(scopes, open, out) && s < |scopes| && i < |scopes[s].pools| && scopes[s].pools[i].free != []
    ensures var free := scopes[s].pools[i].free;
            var after := SetPool(scopes, s, i, scopes[s].pools[i].(free := free[0 := free[|free| - 1]][..|free| - 1]));
            var c := free[0];
            && c in open && c !in out
            && (if keep then Conserved(after, open[c := conn], out + {c}) else Conserved(after, open - {c}, out))
  {
    var free := scopes[s].pools[i].free;
    var c := free[0];
    var p := scopes[s].pools[i].(free := free[0 := free[|free| - 1]][..|free| - 1]);
    assert c in free;
    InOnePlace(scopes, open, out, s, i, c);
    forall id
      ensures FreeAll(SetPool(scopes, s, i, p), id) == FreeAll(scopes, id) - if id == c then 1 else 0
    {
      SwapRemoved(free, 0);
      FreeUpdate(scopes, s, i, p, id);
    }
  }

  lemma GiveConserves(scopes: seq<Scope>, open: map<ConnId, Conn>, out: set<ConnId>, s: nat, i: nat, c: ConnId)
    requires Conserved(scopes, open, out) && s < |scopes| && i < |scopes[s].pools| && c in out
    ensures Conserved(SetPool(scopes, s, i, scopes[s].pools[i].(free := scopes[s].pools[i].free + [c])), open,
            out - {c})
  {
    var p := scopes[s].pools[i].(free := scopes[s].pools[i].free + [c]);
    forall id
      ensures FreeAll(SetPool(scopes, s, i, p), id) == FreeAll(scopes, id) + if id == c then 1 else 0
    {
      FreeUpdate(scopes, s, i, p, id);
    }
  }

  lemma CloseConserves(scopes: seq<Scope>, open: map<ConnId, Conn>, out: set<ConnId>, c: ConnId)
    requires Conserved(scopes, open, out) && c in out
    ensures c in open && Conserved(scopes, open - {c}, out - {c})
  {
  }

  lemma OpenConserves(scopes: seq<Scope>, open: map<ConnId, Conn>, out: set<ConnId>, c: ConnId, conn: Conn)
    requires Conserved(scopes, open, out) && c !in open
    ensures Conserved(scopes, open[c := conn], out + {c})
  {
  }

  lemma CreateConserves(scopes: seq<Scope>, open: map<ConnId, Conn>, out: set<ConnId>, s: nat, key: Key)
    requires Conserved(scopes, open, out) && s < |scopes|
    ensures Conserved(SetPools(scopes, s, FindOrCreate(scopes[s].pools, key).0), open, out)
  {
    forall id
      ensures FreeAll(SetPools(scopes, s, FindOrCreate(scopes[s].pools, key).0), id) == FreeAll(scopes, id)
    {
      FreeCreate(scopes, s, key, id);
    }
  }

  // ----- the operations, as functions of the whole state -----

  /** out is the set of connections that sessions hold. */
  datatype State = State(scopes: seq<Scope>, open: map<ConnId, Conn>, nextId: ConnId, out: set<ConnId>)
  {
    ghost predicate Valid() {
      |scopes| > 0 && Conserved(scopes, open, out) && forall id | id in open :: id < nextId
    }

    /** A remembered pool, if any, is a pool of that scope. */
    predicate IsRef(s: nat, cached: Option<nat>) {
      s < |scopes| && (cached.Some? ==> cached.value < |scopes[s].pools|)
    }
  }

  /** g_ptr_array_remove_index_fast(free, 0) */
  function WithoutFirst(free: seq<ConnId>): (r: seq<ConnId>)
    requires free != []
    ensures |r| == |free| - 1
  {
    free[0 := free[|free| - 1]][..|free| - 1]
  }

  /** The removal loop over one free list: expired connections are closed until an unexpired one turns up. */
  function Sweep(open: map<ConnId, Conn>, free: seq<ConnId>, now: int): (map<ConnId, Conn>, seq<ConnId>, Option<ConnId>)
    decreases |free|
  {
    if free == [] then (open, [], None)
    else
      var c := free[0];
      if c in open && open[c].expire > now then (open, WithoutFirst(free), Some(c))
      else Sweep(open - {c}, WithoutFirst(free), now)
  }

  function SetFree(scopes: seq<Scope>, s: nat, i: nat, free: seq<ConnId>): (r: seq<Scope>)
    requires s < |scopes| && i < |scopes[s].pools|
    ensures |r| == |scopes|
  {
    SetPool(scopes, s, i, scopes[s].pools[i].(free := free))
  }

  /** The connection goes to a session with a new deadline. */
  function CheckOut(st: State, r: Option<ConnId>, deadline: int): State {
    if r.Some? && r.value in st.open
    then st.(open := st.open[r.value := st.open[r.value].(expire := deadline)], out := st.out + {r.value})
    else st
  }

  function TakeFree(st: State, s: nat, i: nat, now: int, wait: nat): (r: (State, Option<ConnId>))
    requires s < |st.scopes| && i < |st.scopes[s].pools|
    ensures |r.0.scopes| == |st.scopes|
  {
    var (open, free, r) := Sweep(st.open, st.scopes[s].pools[i].free, now);
    (CheckOut(st.(open := open, scopes := SetFree(st.scopes, s, i, free)), r, now + wait), r)
  }

  function Locate(st: State, s: nat, key: Key): (r: (State, nat))
    requires s < |st.scopes|
    ensures |r.0.scopes| == |st.scopes| && r.1 < |r.0.scopes[s].pools|
  {
    var (pools, i) := FindOrCreate(st.scopes[s].pools, key);
    (st.(scopes := SetPools(st.scopes, s, pools)), i)
  }

  /** One scope of mysql_connpool_get_connection: the state, the connection, and the pool that was used. */
  function GetFrom(st: State, s: nat, cached: Option<nat>, key: Key, now: int,
                   wait: nat): (r: (State, Option<ConnId>, Option<nat>))
    requires st.IsRef(s, cached)
    ensures |r.0.scopes| == |st.scopes|
  {
    if !st.scopes[s].enabled then (st, None, cached)
    else
      var (located, i) := if cached.Some? then (st, cached.value) else Locate(st, s, key);
      var (taken, r) := TakeFree(located, s, i, now, wait);
      (taken, r, Some(i))
  }

  /** create_new_mysql_connection */
  function Connect(st: State, key: Key, now: int, wait: nat): State {
    st.(open := st.open[st.nextId := Conn(key, now + wait, true)], out := st.out + {st.nextId}, nextId := st.nextId + 1)
  }

  /** mysql_connpool_get_connection: the thread's pool, then the global one, then a new connection. */
  function Get(st: State, t: nat, cached: Option<nat>, key: Key, now: int, wait: nat, connects: bool)
    : (State, Option<ConnId>, Option<nat>)
    requires st.IsRef(t, cached)
  {
    var (local, r, used) := GetFrom(st, t, cached, key, now, wait);
    if r.Some? then (local, r, used)
    else
      var (global, r', _) := GetFrom(local, GLOBAL, None, key, now, wait);
      if r'.Some? then (global, r', used)
      else if connects then (Connect(global, key, now, wait), Some(global.nextId), used)
      else (global, None, used)
  }

  function Close(st: State, c: ConnId): State {
    st.(open := st.open - {c}, out := st.out - {c})
  }

  /** When mysql_connpool_detach_connection closes instead of keeping. */
  predicate ClosesOnDetach(st: State, t: nat, c: ConnId, forceClose: bool, now: int)
    requires t < |st.scopes| && c in st.open
  {
    !st.scopes[t].enabled || !st.open[c].reusable || forceClose || st.open[c].expire <= now
  }

  /** mysql_connpool_detach_connection. An expired connection is closed only after its pool has been looked up. */
  function Detach(st: State, t: nat, cached: Option<nat>, c: ConnId, forceClose: bool, now: int): State
    requires st.IsRef(t, cached) && c in st.open
  {
    if !st.scopes[t].enabled || !st.open[c].reusable || forceClose then Close(st, c)
    else
      var (located, i) := if cached.Some? then (st, cached.value) else Locate(st, t, st.open[c].key);
      if st.open[c].expire <= now then Close(located, c)
      else located.(scopes := SetFree(located.scopes, t, i, located.scopes[t].pools[i].free + [c]),
          out := located.out - {c})
  }

  /** A prepared statement ties the connection to its session. */
  function MarkNotReusable(st: State, c: ConnId): State
    requires c in st.open
  {
    st.(open := st.open[c := st.open[c].(reusable := false)])
  }

  // ----- what is taken from a list -----

  predicate HasFresh(open: map<ConnId, Conn>, free: seq<ConnId>, now: int) {
    exists id | id in free :: id in open && open[id].expire > now
  }

  ghost function Members(s: seq<ConnId>): set<ConnId> {
    set id | id in s
  }

  /** Only expired connections disappear, and none but r is new or changed. */
  ghost predicate ClosesBut(open0: map<ConnId, Conn>, open: map<ConnId, Conn>, r: Option<ConnId>, now: int) {
    && (forall id | id in open && r != Some(id) :: id in open0 && open[id] == open0[id])
    && (forall id | id in open0 && id !in open :: open0[id].expire <= now)
  }

  lemma SwapRest(free: seq<ConnId>)
    requires free != []
    ensures forall id :: id in free <==> id == free[0] || id in WithoutFirst(free)
  {
    var n := |free| - 1;
    var rest := WithoutFirst(free);
    forall id
      ensures id in free <==> id == free[0] || id in rest
    {
      if id in free && id != free[0] {
        var k :| 0 <= k < |free| && free[k] == id;
        assert rest[if k == n then 0 else k] == id;
      }
      if id in rest {
        var k :| 0 <= k < n && rest[k] == id;
        assert id == free[if k == 0 then n else k];
      }
    }
  }

  /** A list whose members are open and listed once, as conservation makes every free list. */
  ghost predicate Proper(open: map<ConnId, Conn>, free: seq<ConnId>) {
    forall id | id in free :: id in open && multiset(free)[id] == 1
  }

  lemma ProperRest(open: map<ConnId, Conn>, free: seq<ConnId>)
    requires Proper(open, free) && free != []
    ensures free[0] in open && free[0] !in WithoutFirst(free) && Proper(open - {free[0]}, WithoutFirst(free))
  {
    var c, rest := free[0], WithoutFirst(free);
    assert c in free;
    SwapRest(free);
    SwapRemoved(free, 0);
    assert multiset(rest)[c] == 0;
    forall id | id in rest
      ensures id in open - {c} && multiset(rest)[id] == 1
    {
      assert id in free && id != c;
    }
  }

  /** The loop finds a connection exactly when the list has an unexpired one, and closes only expired ones. */
  lemma {:induction false} SweepFinds(open: map<ConnId, Conn>, free: seq<ConnId>, now: int)
    requires Proper(open, free)
    ensures var (open', free', r) := Sweep(open, free, now);
            && (r.Some? <==> HasFresh(open, free, now)) && (r.None? ==> free' == [])
            && (r.Some? ==> r.value in free && r.value in open && r.value in open' && open[r.value].expire > now)
            && ClosesBut(open, open', None, now)
    decreases |free|
  {
    if free != [] {
      var c := free[0];
      assert c in free;
      SwapRest(free);
      ProperRest(open, free);
      if open[c].expire <= now {
        SweepFinds(open - {c}, WithoutFirst(free), now);
      }
    }
  }

  /**
   Which connection the loop takes: the one at position k, if that is the first and unexpired, or if the first
   is expired and k is the last unexpired one. Exactly the first and those behind k are closed then.
   */
  lemma {:induction false} SweepTakes(open: map<ConnId, Conn>, free: seq<ConnId>, now: int, k: nat)
    requires NoDup(free) && k < |free| && free[k] in open && open[free[k]].expire > now
    requires k > 0 ==> forall j | j == 0 || k < j < |free| :: free[j] in open && open[free[j]].expire <= now
    ensures var (open', free', r) := Sweep(open, free, now);
            && r == Some(free[k])
            && open' == open - (if k == 0 then {} else {free[0]} + Members(free[k + 1..]))
            && multiset(free') == multiset(if k == 0 then free[1..] else free[1..k])
    decreases |free|
  {
    hide WithoutFirst;
    var n, rest := |free| - 1, WithoutFirst(free);
    if k == 0 {
      RestMembers(free);
    } else {
      RestShape(free);
      assert free[k] != free[0];
      SweepTakes(open - {free[0]}, rest, now, if k == n then 0 else k);
      TakenFromRest(free, k);
    }
  }

  lemma RestMembers(free: seq<ConnId>)
    requires free != []
    ensures multiset(WithoutFirst(free)) == multiset(free[1..])
  {
    SwapRemoved(free, 0);
    assert free == [free[0]] + free[1..];
  }

  lemma RestShape(free: seq<ConnId>)
    requires |free| > 1 && NoDup(free)
    ensures var n, rest := |free| - 1, WithoutFirst(free);
            && |rest| == n && rest[0] == free[n] && (forall j | 0 < j < n :: rest[j] == free[j])
            && NoDup(rest) && forall j | 0 <= j < n :: rest[j] != free[0]
  {
  }

  lemma TakenFromRest(free: seq<ConnId>, k: nat)
    requires 0 < k < |free| && NoDup(free)
    ensures var n, rest := |free| - 1, WithoutFirst(free);
            if k == n then free[k + 1..] == [] && rest[1..] == free[1..k]
            else rest[1..k] == free[1..k] && Members(free[k + 1..]) == {rest[0]} + Members(rest[k + 1..])
  {
    var n, rest := |free| - 1, WithoutFirst(free);
    RestShape(free);
    if k < n {
      assert free[k + 1..] == rest[k + 1..] + [rest[0]];
    }
  }

  /** A free list of a consistent state is proper. */
  lemma FreeIsProper(scopes: seq<Scope>, open: map<ConnId, Conn>, out: set<ConnId>, s: nat, i: nat)
    requires Conserved(scopes, open, out) && s < |scopes| && i < |scopes[s].pools|
    ensures Proper(open, scopes[s].pools[i].free)
  {
    forall id | id in scopes[s].pools[i].free
      ensures id in open && multiset(scopes[s].pools[i].free)[id] == 1
    {
      InOnePlace(scopes, open, out, s, i, id);
    }
  }

  // ----- conservation and matching keys, for one list -----

  lemma SetFreeTwice(scopes: seq<Scope>, s: nat, i: nat, free: seq<ConnId>, free': seq<ConnId>)
    requires s < |scopes| && i < |scopes[s].pools|
    ensures SetFree(SetFree(scopes, s, i, free), s, i, free') == SetFree(scopes, s, i, free')
    ensures SetFree(scopes, s, i, scopes[s].pools[i].free) == scopes
  {
    var pools, p, q := scopes[s].pools, scopes[s].pools[i].(free := free), scopes[s].pools[i].(free := free');
    assert pools[i := p][i := q] == pools[i := q];
    assert pools[i := pools[i]] == pools;
    assert scopes[s := scopes[s]] == scopes;
  }

  lemma {:induction false} SweepConserves(st: State, s: nat, i: nat, now: int, conn: Conn)
    requires Conserved(st.scopes, st.open, st.out) && s < |st.scopes| && i < |st.scopes[s].pools|
    ensures var (open, free, r) := Sweep(st.open, st.scopes[s].pools[i].free, now);
            var after := SetFree(st.scopes, s, i, free);
            if r.Some? then r.value !in st.out && Conserved(after, open[r.value := conn], st.out + {r.value})
            else Conserved(after, open, st.out)
    decreases |st.scopes[s].pools[i].free|
  {
    hide Conserved;
    var free := st.scopes[s].pools[i].free;
    SetFreeTwice(st.scopes, s, i, free, free);
    if free != [] {
      var c := free[0];
      FirstIsOpen(st, s, i);
      TakeConserves(st.scopes, st.open, st.out, s, i, st.open[c].expire > now, conn);
      if st.open[c].expire <= now {
        var next := st.(open := st.open - {c}, scopes := SetFree(st.scopes, s, i, WithoutFirst(free)));
        SweepConserves(next, s, i, now, conn);
        SetFreeTwice(st.scopes, s, i, WithoutFirst(free), Sweep(next.open, WithoutFirst(free), now).1);
      }
    }
  }

  lemma FirstIsOpen(st: State, s: nat, i: nat)
    requires Conserved(st.scopes, st.open, st.out) && s < |st.scopes| && i < |st.scopes[s].pools| &&
             st.scopes[s].pools[i].free != []
    ensures st.scopes[s].pools[i].free[0] in st.open
  {
    assert st.scopes[s].pools[i].free[0] in st.scopes[s].pools[i].free;
    InOnePlace(st.scopes, st.open, st.out, s, i, st.scopes[s].pools[i].free[0]);
  }

  /** After the first of a list is taken, closed or not, the lists still match. */
  lemma TakeMatches(scopes: seq<Scope>, open: map<ConnId, Conn>, out: set<ConnId>, s: nat, i: nat, conn: Conn)
    requires Conserved(scopes, open, out) && KeysMatch(scopes, open)
    requires s < |scopes| && i < |scopes[s].pools| && scopes[s].pools[i].free != []
    ensures var free := scopes[s].pools[i].free;
            var after := SetFree(scopes, s, i, WithoutFirst(free));
            && free[0] in open && open[free[0]].key == scopes[s].pools[i].key
            && KeysMatch(after, open - {free[0]}) && KeysMatch(after, open[free[0] := conn])
  {
    var free := scopes[s].pools[i].free;
    var c, rest := free[0], WithoutFirst(free);
    var after := SetFree(scopes, s, i, rest);
    assert c in free;
    InOnePlace(scopes, open, out, s, i, c);
    SwapRest(free);
    FreeIsProper(scopes, open, out, s, i);
    ProperRest(open, free);
    hide Conserved, Proper, WithoutFirst;
    forall t, j, id | 0 <= t < |after| && 0 <= j < |after[t].pools| && id in after[t].pools[j].free
      ensures id in open && id != c && open[id].key == after[t].pools[j].key
    {
      assert id in scopes[t].pools[j].free;
    }
  }

  lemma {:induction false} SweepMatches(st: State, s: nat, i: nat, now: int, conn: Conn)
    requires Conserved(st.scopes, st.open, st.out) && KeysMatch(st.scopes, st.open) && s < |st.scopes| &&
             i < |st.scopes[s].pools|
    ensures var (open, free, r) := Sweep(st.open, st.scopes[s].pools[i].free, now);
            var after := SetFree(st.scopes, s, i, free);
            if r.Some? then KeysMatch(after, open[r.value := conn]) && r.value in st.open &&
                st.open[r.value].key == st.scopes[s].pools[i].key
            else KeysMatch(after, open)
    decreases |st.scopes[s].pools[i].free|
  {
    hide Conserved, KeysMatch;
    var free := st.scopes[s].pools[i].free;
    SetFreeTwice(st.scopes, s, i, free, free);
    if free != [] {
      var c := free[0];
      TakeMatches(st.scopes, st.open, st.out, s, i, conn);
      if st.open[c].expire <= now {
        var next := st.(open := st.open - {c}, scopes := SetFree(st.scopes, s, i, WithoutFirst(free)));
        TakeConserves(st.scopes, st.open, st.out, s, i, false, conn);
        SweepMatches(next, s, i, now, conn);
        SetFreeTwice(st.scopes, s, i, WithoutFirst(free), Sweep(next.open, WithoutFirst(free), now).1);
      }
    }
  }

  // ----- pools are only added -----

  /** Pools stay where they are and keep their keys; new ones come behind. */
  ghost predicate KeepsPools(before: seq<Scope>, after: seq<Scope>) {
    && |after| == |before|
    && forall s | 0 <= s < |before| ::
         && after[s].enabled == before[s].enabled && |before[s].pools| <= |after[s].pools|
         && forall i | 0 <= i < |before[s].pools| :: after[s].pools[i].key == before[s].pools[i].key
  }

  lemma KeepsPoolsTwice(a: seq<Scope>, b: seq<Scope>, c: seq<Scope>)
    requires KeepsPools(a, b) && KeepsPools(b, c)
    ensures KeepsPools(a, c)
  {
  }

  // ----- what each operation promises -----

  /** r went to a session: open, unexpired and with no session before, and with a new deadline now. */
  ghost predicate Took(st: State, st': State, r: Option<ConnId>, now: int, wait: nat) {
    if r.None? then st'.out == st.out
    else
      && r.value !in st.out && st'.out == st.out + {r.value}
      && r.value in st.open && st.open[r.value].expire > now
      && r.value in st'.open && st'.open[r.value] == st.open[r.value].(expire := now + wait)
  }

  lemma TakeFreeOk(st: State, s: nat, i: nat, now: int, wait: nat)
    requires st.Valid() && s < |st.scopes| && i < |st.scopes[s].pools|
    ensures var (st', r) := TakeFree(st, s, i, now, wait);
            && st'.Valid() && st'.nextId == st.nextId && KeepsPools(st.scopes, st'.scopes)
            && (forall t | 0 <= t < |st.scopes| && t != s :: st'.scopes[t] == st.scopes[t])
            && (r.Some? <==> HasFresh(st.open, st.scopes[s].pools[i].free, now))
            && (r.Some? ==> r.value in st.scopes[s].pools[i].free)
            && ClosesBut(st.open, st'.open, r, now) && Took(st, st', r, now, wait)
  {
    hide Conserved, Sweep, HasFresh;
    FreeIsProper(st.scopes, st.open, st.out, s, i);
    SweepFinds(st.open, st.scopes[s].pools[i].free, now);
    var (open, free, r) := Sweep(st.open, st.scopes[s].pools[i].free, now);
    var conn := if r.Some? then open[r.value].(expire := now + wait) else Conn(st.scopes[s].pools[i].key, now, true);
    SweepConserves(st, s, i, now, conn);
  }

  lemma TakeFreeMatches(st: State, s: nat, i: nat, now: int, wait: nat)
    requires st.Valid() && KeysMatch(st.scopes, st.open) && s < |st.scopes| && i < |st.scopes[s].pools|
    ensures var (st', r) := TakeFree(st, s, i, now, wait);
            && KeysMatch(st'.scopes, st'.open)
            && (r.Some? ==> r.value in st'.open && st'.open[r.value].key == st.scopes[s].pools[i].key)
  {
    hide Conserved, Sweep, HasFresh, KeysMatch;
    FreeIsProper(st.scopes, st.open, st.out, s, i);
    SweepFinds(st.open, st.scopes[s].pools[i].free, now);
    var (open, free, r) := Sweep(st.open, st.scopes[s].pools[i].free, now);
    var conn := if r.Some? then open[r.value].(expire := now + wait) else Conn(st.scopes[s].pools[i].key, now, true);
    SweepMatches(st, s, i, now, conn);
  }

  lemma LocateOk(st: State, s: nat, key: Key)
    requires st.Valid() && s < |st.scopes|
    ensures var (st', i) := Locate(st, s, key);
            && st'.Valid() && st' == st.(scopes := st'.scopes) && KeepsPools(st.scopes, st'.scopes)
            && (forall t | 0 <= t < |st.scopes| && t != s :: st'.scopes[t] == st.scopes[t])
            && st'.scopes[s].pools[i].key == key
            && (KeysMatch(st.scopes, st.open) ==> KeysMatch(st'.scopes, st.open))
  {
    hide Conserved, Find;
    CreateConserves(st.scopes, st.open, st.out, s, key);
  }

  /** The free list that a request looks at in one scope. */
  function Candidates(scopes: seq<Scope>, s: nat, cached: Option<nat>, key: Key): seq<ConnId>
    requires s < |scopes| && (cached.Some? ==> cached.value < |scopes[s].pools|)
  {
    if !scopes[s].enabled then []
    else if cached.Some? then scopes[s].pools[cached.value].free
    else
      var i := Find(scopes[s].pools, key);
      if i.Some? then scopes[s].pools[i.value].free else []
  }

  lemma GetFromOk(st: State, s: nat, cached: Option<nat>, key: Key, now: int, wait: nat)
    requires st.Valid() && st.IsRef(s, cached)
    ensures var (st', r, used) := GetFrom(st, s, cached, key, now, wait);
            && st'.Valid() && st'.nextId == st.nextId && KeepsPools(st.scopes, st'.scopes) && st'.IsRef(s, used)
            && (forall t | 0 <= t < |st.scopes| && t != s :: st'.scopes[t] == st.scopes[t])
            && (st.scopes[s].enabled && cached.None? ==> used.Some? && st'.scopes[s].pools[used.value].key == key)
            && (!st.scopes[s].enabled || cached.Some? ==> used == cached)
            && (r.Some? <==> HasFresh(st.open, Candidates(st.scopes, s, cached, key), now))
            && (r.Some? ==> r.value in Candidates(st.scopes, s, cached, key))
            && ClosesBut(st.open, st'.open, r, now) && Took(st, st', r, now, wait)
  {
    hide Conserved, Find, TakeFree, ClosesBut, State.Valid;
    if !st.scopes[s].enabled {
      NoneFresh(st.open, now);
    } else if cached.Some? {
      TakeFreeOk(st, s, cached.value, now, wait);
    } else {
      var (located, i) := Locate(st, s, key);
      LocateOk(st, s, key);
      TakeFreeOk(located, s, i, now, wait);
      KeepsPoolsTwice(st.scopes, located.scopes, TakeFree(located, s, i, now, wait).0.scopes);
    }
  }

  lemma GetFromMatches(st: State, s: nat, cached: Option<nat>, key: Key, now: int, wait: nat)
    requires st.Valid() && KeysMatch(st.scopes, st.open) && st.IsRef(s, cached)
    ensures var (st', r, used) := GetFrom(st, s, cached, key, now, wait);
            && KeysMatch(st'.scopes, st'.open)
            && (r.Some? ==>
                  && r.value in st'.open
                  && st'.open[r.value].key == if cached.Some? then st.scopes[s].pools[cached.value].key else key)
  {
    hide Conserved, Find, TakeFree, KeysMatch, State.Valid;
    if st.scopes[s].enabled && cached.Some? {
      TakeFreeMatches(st, s, cached.value, now, wait);
    } else if st.scopes[s].enabled {
      var (located, i) := Locate(st, s, key);
      LocateOk(st, s, key);
      TakeFreeMatches(located, s, i, now, wait);
    }
  }

  lemma NoneFresh(open: map<ConnId, Conn>, now: int)
    ensures !HasFresh(open, [], now) && ClosesBut(open, open, None, now)
  {
  }

  lemma FreshAfterClosing(open0: map<ConnId, Conn>, open: map<ConnId, Conn>, free: seq<ConnId>, now: int)
    requires ClosesBut(open0, open, None, now)
    ensures HasFresh(open, free, now) <==> HasFresh(open0, free, now)
  {
  }

  lemma ClosesTwice(open0: map<ConnId, Conn>, open1: map<ConnId, Conn>, open: map<ConnId, Conn>, r: Option<ConnId>,
                    now: int)
    requires ClosesBut(open0, open1, None, now) && ClosesBut(open1, open, r, now)
    ensures ClosesBut(open0, open, r, now)
  {
  }

  /**
   A request of thread t. A connection of the thread's list comes back if that has an unexpired one; otherwise
   one of the global list if that has; and a new one exactly when neither has and the server accepts. It was with
   no session and is unexpired. No unexpired connection is closed, no other connection changes, and no pool moves
   or changes its key.
   */
  lemma GetOk(st: State, t: nat, cached: Option<nat>, key: Key, now: int, wait: nat, connects: bool)
    requires st.Valid() && GLOBAL < t && st.IsRef(t, cached)
    ensures var (st', r, used) := Get(st, t, cached, key, now, wait, connects);
            && st'.Valid() && KeepsPools(st.scopes, st'.scopes) && st'.IsRef(t, used)
            && (st.scopes[t].enabled && cached.None? ==> used.Some? && st'.scopes[t].pools[used.value].key == key)
            && (!st.scopes[t].enabled || cached.Some? ==> used == cached)
            && (r.Some? <==> || HasFresh(st.open, Candidates(st.scopes, t, cached, key), now)
                             || HasFresh(st.open, Candidates(st.scopes, GLOBAL, None, key), now)
                             || connects)
            && Chosen(st, st', r, Candidates(st.scopes, t, cached, key), Candidates(st.scopes, GLOBAL, None, key), now)
            && ClosesBut(st.open, st'.open, r, now)
            && (r.None? ==> st'.out == st.out)
            && (r.Some? ==> && r.value !in st.out && st'.out == st.out + {r.value}
                            && r.value in st'.open && st'.open[r.value].expire == now + wait
                            && (r.value in st.open ==> st.open[r.value].expire > now)
                            && (r.value in st.open ==> st'.open[r.value] == st.open[r.value].(expire := now + wait))
                            && (r.value !in st.open ==> st'.open[r.value] == Conn(key, now + wait, true)))
  {
    hide GetFrom, HasFresh, ClosesBut, Find, Candidates, Chosen;
    var (local, r, used) := GetFrom(st, t, cached, key, now, wait);
    GetFromOk(st, t, cached, key, now, wait);
    if r.None? {
      SameCandidates(st.scopes, local.scopes, key);
      FreshAfterClosing(st.open, local.open, Candidates(st.scopes, GLOBAL, None, key), now);
      var (global, r', _) := GetFrom(local, GLOBAL, None, key, now, wait);
      GetFromOk(local, GLOBAL, None, key, now, wait);
      KeepsPoolsTwice(st.scopes, local.scopes, global.scopes);
      if r'.None? && connects {
        ConnectOk(global, key, now, wait);
        ClosesTwice(local.open, global.open, Connect(global, key, now, wait).open, Some(global.nextId), now);
        ClosesTwice(st.open, local.open, Connect(global, key, now, wait).open, Some(global.nextId), now);
        NewIsNew(st, local, global, now);
      } else {
        ClosesTwice(st.open, local.open, global.open, r', now);
        OnlyCloses(st.open, local.open, r', now);
      }
    }
    var (st', c, _) := Get(st, t, cached, key, now, wait, connects);
    ChosenBy(st, st', c, Candidates(st.scopes, t, cached, key), Candidates(st.scopes, GLOBAL, None, key), now);
  }

  /** Where the connection comes from: the thread's list, the global list, or a new one, in this order. */
  ghost predicate Chosen(st: State, st': State, r: Option<ConnId>, local: seq<ConnId>, global: seq<ConnId>, now: int) {
    if exists id | id in local :: id in st.open && st.open[id].expire > now
    then r.Some? && r.value in local && r.value in st.open && st'.nextId == st.nextId
    else if exists id | id in global :: id in st.open && st.open[id].expire > now
    then r.Some? && r.value in global && r.value in st.open && st'.nextId == st.nextId
    else if r.Some? then r.value == st.nextId && r.value !in st.open && st'.nextId == st.nextId + 1
    else st'.nextId == st.nextId
  }

  lemma ChosenBy(st: State, st': State, r: Option<ConnId>, local: seq<ConnId>, global: seq<ConnId>, now: int)
    requires HasFresh(st.open, local, now) ==>
               r.Some? && r.value in local && r.value in st.open && st'.nextId == st.nextId
    requires !HasFresh(st.open, local, now) && HasFresh(st.open, global, now) ==>
               r.Some? && r.value in global && r.value in st.open && st'.nextId == st.nextId
    requires !HasFresh(st.open, local, now) && !HasFresh(st.open, global, now) ==>
               if r.Some? then r.value == st.nextId && r.value !in st.open && st'.nextId == st.nextId + 1
               else st'.nextId == st.nextId
    ensures Chosen(st, st', r, local, global, now)
  {
  }

  lemma SameCandidates(before: seq<Scope>, after: seq<Scope>, key: Key)
    requires |before| == |after| > 0 && after[GLOBAL] == before[GLOBAL]
    ensures Candidates(after, GLOBAL, None, key) == Candidates(before, GLOBAL, None, key)
  {
  }

  lemma OnlyCloses(open0: map<ConnId, Conn>, open: map<ConnId, Conn>, r: Option<ConnId>, now: int)
    requires ClosesBut(open0, open, None, now) && (r.Some? ==> r.value in open)
    ensures r.Some? ==> r.value in open0 && open[r.value] == open0[r.value]
  {
  }

  lemma NewIsNew(st: State, local: State, global: State, now: int)
    requires st.Valid() && local.Valid() && global.Valid() && global.nextId == local.nextId == st.nextId
    ensures st.nextId !in st.open && st.nextId !in st.out && global.nextId !in global.out
  {
    OutIsOpen(st);
    OutIsOpen(global);
  }

  lemma OutIsOpen(st: State)
    requires st.Valid()
    ensures forall id | id in st.out :: id in st.open
  {
  }

  lemma ConnectOk(st: State, key: Key, now: int, wait: nat)
    requires st.Valid()
    ensures Connect(st, key, now, wait).Valid() && ClosesBut(st.open, Connect(st, key, now, wait).open, Some(st.nextId),
            now)
    ensures KeysMatch(st.scopes, st.open) ==> KeysMatch(st.scopes, Connect(st, key, now, wait).open)
  {
    OpenConserves(st.scopes, st.open, st.out, st.nextId, Conn(key, now + wait, true));
  }

  /**
   If every free list matches its pool, it still does, and the connection has the requested key exactly when
   the remembered pool, if any, matches the request or has no unexpired connection.
   */
  lemma GetMatches(st: State, t: nat, cached: Option<nat>, key: Key, now: int, wait: nat, connects: bool)
    requires st.Valid() && KeysMatch(st.scopes, st.open) && GLOBAL < t && st.IsRef(t, cached)
    ensures var (st', r, used) := Get(st, t, cached, key, now, wait, connects);
            && KeysMatch(st'.scopes, st'.open)
            && (r.Some? ==>
                  && r.value in st'.open
                  && (st'.open[r.value].key == key <==>
                      || cached.None? || st.scopes[t].pools[cached.value].key == key
                      || !HasFresh(st.open, Candidates(st.scopes, t, cached, key), now)))
  {
    hide GetFrom, HasFresh, ClosesBut, Find, Candidates, KeysMatch, State.Valid;
    var (local, r, used) := GetFrom(st, t, cached, key, now, wait);
    GetFromOk(st, t, cached, key, now, wait);
    GetFromMatches(st, t, cached, key, now, wait);
    if r.None? {
      var (global, r', _) := GetFrom(local, GLOBAL, None, key, now, wait);
      AnyScope(local);
      GetFromOk(local, GLOBAL, None, key, now, wait);
      GetFromMatches(local, GLOBAL, None, key, now, wait);
      ConnectOk(global, key, now, wait);
    }
  }

  lemma AnyScope(st: State)
    requires st.Valid()
    ensures st.IsRef(GLOBAL, None)
  {
  }

  /** The connection is closed or put into one free list of the thread; nobody else's pools change. */
  lemma DetachOk(st: State, t: nat, cached: Option<nat>, c: ConnId, forceClose: bool, now: int)
    requires st.Valid() && st.IsRef(t, cached) && c in st.out && c in st.open
    ensures var st' := Detach(st, t, cached, c, forceClose, now);
            && st'.Valid() && st'.nextId == st.nextId && KeepsPools(st.scopes, st'.scopes) && st'.out == st.out - {c}
            && (forall s | 0 <= s < |st.scopes| && s != t :: st'.scopes[s] == st.scopes[s])
            && st'.open ==
                 (if !st.scopes[t].enabled || !st.open[c].reusable || forceClose || st.open[c].expire <= now
                  then st.open - {c} else st.open)
  {
    hide Conserved, Find, KeysMatch, Locate;
    CloseOk(st, c);
    if st.scopes[t].enabled && st.open[c].reusable && !forceClose {
      var (located, i) := if cached.Some? then (st, cached.value) else Locate(st, t, st.open[c].key);
      if cached.None? {
        LocateOk(st, t, st.open[c].key);
      }
      CloseOk(located, c);
      GiveConserves(located.scopes, located.open, located.out, t, i, c);
    }
  }

  /** One more at the end of the free list at position i, which may be a new list; every other list stays. */
  predicate GivenTo(before: seq<Pool>, after: seq<Pool>, i: nat, c: ConnId) {
    && i <= |before| && |after| == (if i == |before| then i + 1 else |before|)
    && after[i].free == (if i == |before| then [] else before[i].free) + [c]
    && forall j | 0 <= j < |before| && j != i :: after[j] == before[j]
  }

  /**
   A connection that is kept goes to the end of one list: that of the remembered pool, of the pool a search for
   its key finds, or of a new pool of its key.
   */
  lemma DetachPlaces(st: State, t: nat, cached: Option<nat>, c: ConnId, now: int)
    requires st.IsRef(t, cached) && c in st.open
    requires st.scopes[t].enabled && st.open[c].reusable && st.open[c].expire > now
    ensures var pools, pools' := st.scopes[t].pools, Detach(st, t, cached, c, false, now).scopes[t].pools;
            match cached
            case Some(i) => GivenTo(pools, pools', i, c)
            case None =>
              match Find(pools, st.open[c].key)
              case Some(i) => GivenTo(pools, pools', i, c)
              case None => GivenTo(pools, pools', |pools|, c) && pools'[|pools|].key == st.open[c].key
  {
    hide Find;
  }

  /** With every pool named, a connection put into the list of its key is found by the next request for that key. */
  lemma FoundAgain(before: seq<Pool>, after: seq<Pool>, i: nat, key: Key, c: ConnId)
    requires GivenTo(before, after, i, c) && UniqueKeys(before) && key.db.Some?
    requires forall p | p in before :: p.key.db.Some?
    requires if i < |before| then Find(before, key) == Some(i) && after[i].key == key
             else Find(before, key) == None && after[i].key == key
    ensures Find(after, key) == Some(i)
  {
    if i < |before| {
      FindIff(before, key, i);
    } else {
      forall j | 0 <= j < |before|
        ensures before[j].key.db.Some? && before[j].key != key
      {
        assert before[j] in before;
        if before[j].key == key {
          Earlier(before, j);
          FindIff(before, key, j);
        }
      }
    }
    FindIff(after, key, i);
  }

  lemma Earlier(pools: seq<Pool>, j: nat)
    requires UniqueKeys(pools) && j < |pools| && forall p | p in pools :: p.key.db.Some?
    ensures Reachable(pools, j)
  {
    assert forall k | 0 <= k <= j :: pools[k] in pools;
  }

  /**
   A returned connection serves the next request: with named schemas, a request of the same thread and key before
   the deadline gets a connection that was open, and none is opened.
   */
  lemma ReturnedIsReused(st: State, t: nat, c: ConnId, now: int, later: int, wait: nat, connects: bool)
    requires st.Valid() && NamedUnique(st) && GLOBAL < t < |st.scopes| && c in st.out && c in st.open
    requires st.scopes[t].enabled && st.open[c].reusable && now <= later < st.open[c].expire
    ensures var back := Detach(st, t, None, c, false, now);
            var (st', r, _) := Get(back, t, None, st.open[c].key, later, wait, connects);
            r.Some? && r.value in back.open && st'.nextId == st.nextId
  {
    hide Detach, Get, Find, State.Valid, HasFresh, ClosesBut, KeepsPools, UniqueKeys;
    var back, key := Detach(st, t, None, c, false, now), st.open[c].key;
    DetachOk(st, t, None, c, false, now);
    DetachPlaces(st, t, None, c, now);
    var pools := st.scopes[t].pools;
    var found := Find(pools, key);
    var i := if found.Some? then found.value else |pools|;
    KeptKey(st.scopes, back.scopes, t, i);
    GetOk(back, t, None, key, later, wait, connects);
    var pools' := back.scopes[t].pools;
    FoundAgain(pools, pools', i, key, c);
    assert Candidates(back.scopes, t, None, key) == pools'[i].free;
    assert c in pools'[i].free;
  }

  lemma KeptKey(before: seq<Scope>, after: seq<Scope>, t: nat, i: nat)
    requires KeepsPools(before, after) && t < |before| && i <= |before[t].pools|
    ensures t < |after| && after[t].enabled == before[t].enabled
    ensures i < |before[t].pools| ==> i < |after[t].pools| && after[t].pools[i].key == before[t].pools[i].key
  {
  }

  lemma CloseOk(st: State, c: ConnId)
    requires st.Valid() && c in st.out
    ensures Close(st, c).Valid() && (KeysMatch(st.scopes, st.open) ==> KeysMatch(st.scopes, Close(st, c).open))
  {
    CloseConserves(st.scopes, st.open, st.out, c);
    OutIsNotFree(st, c);
  }

  /** A connection with a session is in no free list. */
  lemma OutIsNotFree(st: State, c: ConnId)
    requires st.Valid() && c in st.out
    ensures forall s, i | 0 <= s < |st.scopes| && 0 <= i < |st.scopes[s].pools| :: c !in st.scopes[s].pools[i].free
  {
    forall s, i | 0 <= s < |st.scopes| && 0 <= i < |st.scopes[s].pools|
      ensures c !in st.scopes[s].pools[i].free
    {
      if c in st.scopes[s].pools[i].free {
        Listed(st.scopes, s, i, c);
        assert false;
      }
    }
  }

  /** The lists still match exactly when the connection is closed, no pool is remembered, or that pool has its key. */
  lemma DetachMatchesIff(st: State, t: nat, cached: Option<nat>, c: ConnId, forceClose: bool, now: int)
    requires st.Valid() && KeysMatch(st.scopes, st.open) && st.IsRef(t, cached) && c in st.out && c in st.open
    ensures var st' := Detach(st, t, cached, c, forceClose, now);
            KeysMatch(st'.scopes, st'.open) <==>
              ClosesOnDetach(st, t, c, forceClose, now) || cached.None? ||
                  st.scopes[t].pools[cached.value].key == st.open[c].key
  {
    hide Conserved, Find, KeysMatch;
    CloseOk(st, c);
    if st.scopes[t].enabled && st.open[c].reusable && !forceClose {
      var (located, i) := if cached.Some? then (st, cached.value) else Locate(st, t, st.open[c].key);
      if cached.None? {
        LocateOk(st, t, st.open[c].key);
      }
      CloseOk(located, c);
      GiveMatches(located.scopes, located.open, t, i, c);
    }
  }

  lemma GiveMatches(scopes: seq<Scope>, open: map<ConnId, Conn>, s: nat, i: nat, c: ConnId)
    requires KeysMatch(scopes, open) && s < |scopes| && i < |scopes[s].pools| && c in open
    ensures KeysMatch(SetFree(scopes, s, i, scopes[s].pools[i].free + [c]), open) <==>
            scopes[s].pools[i].key == open[c].key
  {
    var after := SetFree(scopes, s, i, scopes[s].pools[i].free + [c]);
    assert c in after[s].pools[i].free;
    if scopes[s].pools[i].key == open[c].key {
      forall t, j, id | 0 <= t < |after| && 0 <= j < |after[t].pools| && id in after[t].pools[j].free
        ensures id in open && open[id].key == after[t].pools[j].key
      {
        assert id == c || id in scopes[t].pools[j].free;
      }
    }
  }

  lemma MarkOk(st: State, c: ConnId)
    requires st.Valid() && c in st.open
    ensures MarkNotReusable(st, c).Valid()
    ensures KeysMatch(st.scopes, st.open) <==> KeysMatch(st.scopes, MarkNotReusable(st, c).open)
  {
    var open' := MarkNotReusable(st, c).open;
    assert forall id :: id in open' <==> id in st.open;
  }

  /** A connection with a prepared statement is closed when it is returned, whatever else holds. */
  lemma MarkedIsClosed(st: State, t: nat, cached: Option<nat>, c: ConnId, forceClose: bool, now: int)
    requires st.Valid() && st.IsRef(t, cached) && c in st.out && c in st.open
    ensures Detach(MarkNotReusable(st, c), t, cached, c, forceClose, now).open == st.open - {c}
    ensures Detach(MarkNotReusable(st, c), t, cached, c, forceClose, now).scopes == st.scopes
  {
    hide State.Valid;
    var open := MarkNotReusable(st, c).open;
    assert open - {c} == st.open - {c};
  }

  // ----- unique keys -----

  /** In every scope the keys are unique and name a schema, and so do the keys of all connections. */
  ghost predicate NamedUnique(st: State) {
    && (forall s | 0 <= s < |st.scopes| :: UniqueKeys(st.scopes[s].pools) && forall p | p in st.scopes[s].pools ::
      p.key.db.Some?)
    && (forall id | id in st.open :: st.open[id].key.db.Some?)
  }

  lemma LocateUnique(st: State, s: nat, key: Key)
    requires NamedUnique(st) && s < |st.scopes| && key.db.Some?
    ensures NamedUnique(Locate(st, s, key).0)
  {
    hide Find;
    NamedKeysStayUnique(st.scopes[s].pools, key);
  }

  lemma SetFreeUnique(st: State, s: nat, i: nat, free: seq<ConnId>)
    requires NamedUnique(st) && s < |st.scopes| && i < |st.scopes[s].pools|
    ensures NamedUnique(st.(scopes := SetFree(st.scopes, s, i, free)))
  {
    var pools, p := st.scopes[s].pools, st.scopes[s].pools[i].(free := free);
    assert pools[i] in pools;
    forall q | q in pools[i := p]
      ensures q.key.db.Some?
    {
      assert q == p || q in pools;
    }
  }

  lemma TakeFreeUnique(st: State, s: nat, i: nat, now: int, wait: nat)
    requires st.Valid() && NamedUnique(st) && s < |st.scopes| && i < |st.scopes[s].pools|
    ensures NamedUnique(TakeFree(st, s, i, now, wait).0)
  {
    hide Sweep, State.Valid;
    TakeFreeOk(st, s, i, now, wait);
    SetFreeUnique(st, s, i, Sweep(st.open, st.scopes[s].pools[i].free, now).1);
  }

  lemma GetFromUnique(st: State, s: nat, cached: Option<nat>, key: Key, now: int, wait: nat)
    requires st.Valid() && NamedUnique(st) && st.IsRef(s, cached) && key.db.Some?
    ensures NamedUnique(GetFrom(st, s, cached, key, now, wait).0)
  {
    hide Locate, TakeFree, NamedUnique, State.Valid;
    if st.scopes[s].enabled {
      if cached.Some? {
        TakeFreeUnique(st, s, cached.value, now, wait);
      } else {
        var (located, i) := Locate(st, s, key);
        LocateOk(st, s, key);
        LocateUnique(st, s, key);
        TakeFreeUnique(located, s, i, now, wait);
      }
    }
  }

  lemma GetUnique(st: State, t: nat, cached: Option<nat>, key: Key, now: int, wait: nat, connects: bool)
    requires st.Valid() && NamedUnique(st) && GLOBAL < t && st.IsRef(t, cached) && key.db.Some?
    ensures NamedUnique(Get(st, t, cached, key, now, wait, connects).0)
  {
    hide GetFrom, State.Valid, UniqueKeys;
    var (local, r, used) := GetFrom(st, t, cached, key, now, wait);
    GetFromOk(st, t, cached, key, now, wait);
    GetFromUnique(st, t, cached, key, now, wait);
    if r.None? {
      AnyScope(local);
      GetFromUnique(local, GLOBAL, None, key, now, wait);
    }
  }

  lemma DetachUnique(st: State, t: nat, cached: Option<nat>, c: ConnId, forceClose: bool, now: int)
    requires st.Valid() && NamedUnique(st) && st.IsRef(t, cached) && c in st.open
    ensures NamedUnique(Detach(st, t, cached, c, forceClose, now))
  {
    hide State.Valid, UniqueKeys, Locate;
    if st.scopes[t].enabled && st.open[c].reusable && !forceClose {
      var (located, i) := if cached.Some? then (st, cached.value) else Locate(st, t, st.open[c].key);
      if cached.None? {
        LocateOk(st, t, st.open[c].key);
        LocateUnique(st, t, st.open[c].key);
      }
      SetFreeUnique(located, t, i, located.scopes[t].pools[i].free + [c]);
    }
  }
}
