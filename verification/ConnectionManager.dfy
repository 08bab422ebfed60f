/** mysql_connpool.c as it changes its arrays in place; every method does what the function of the same name says. */
module ConnectionManager {
  import opened Wire
  import opened ConnectionPool
  import Runs = ConnectionRuns

  class Manager {
    const waitTimeout: nat
    var scopes: seq<Scope>
    var open: map<ConnId, Conn>
    var nextId: ConnId
    ghost var out: set<ConnId>

    ghost function AsState(): State
      reads this
    {
      State(scopes, open, nextId, out)
    }

    /** mysql_connpool_init and local_mysql_connpool_init for each thread. */
    constructor (threads: nat, enabled: bool, waitTimeout: nat)
      ensures Runs.Initial(AsState()) && AsState().Valid() && |scopes| == threads + 1 && this.waitTimeout == waitTimeout
    {
      this.waitTimeout := waitTimeout;
      scopes := seq(threads + 1, _ => Scope(enabled, []));
      open, nextId, out := map[], 0, {};
      new;
      Runs.InitialOk(AsState());
    }

    /** The removal loop of mysql_connpool_get_connection. */
    method TakeFree(s: nat, i: nat, now: int) returns (r: Option<ConnId>)
      requires AsState().Valid() && s < |scopes| && i < |scopes[s].pools|
      modifies `scopes, `open, `out
      ensures (AsState(), r) == ConnectionPool.TakeFree(old(AsState()), s, i, now, waitTimeout)
    {
      hide Conserved, SetFree;
      ghost var st := AsState();
      ghost var free0 := scopes[s].pools[i].free;
      SetFreeTwice(scopes, s, i, free0, free0);
      SetFreeShape(scopes, s, i, free0);
      while scopes[s].pools[i].free != []
        invariant AsState().Valid() && out == st.out && s < |scopes| && i < |scopes[s].pools|
        invariant scopes == SetFree(st.scopes, s, i, scopes[s].pools[i].free)
        invariant Sweep(open, scopes[s].pools[i].free, now) == Sweep(st.open, free0, now)
        decreases |scopes[s].pools[i].free|
      {
        ghost var free := scopes[s].pools[i].free;
        var c := scopes[s].pools[i].free[0];
        FirstIsOpen(AsState(), s, i);
        CloseFirstOk(AsState(), s, i);
        SetFreeTwice(st.scopes, s, i, free, WithoutFirst(free));
        SetFreeShape(st.scopes, s, i, WithoutFirst(free));
        RemoveFirst(s, i);
        if open[c].expire <= now {
          open := open - {c};
        } else {
          open := open[c := open[c].(expire := now + waitTimeout)];
          out := out + {c};
          return Some(c);
        }
      }
      return None;
    }

    /** g_ptr_array_remove_index_fast(free_conns, 0) */
    method RemoveFirst(s: nat, i: nat)
      requires s < |scopes| && i < |scopes[s].pools| && scopes[s].pools[i].free != []
      modifies `scopes
      ensures scopes == SetFree(old(scopes), s, i, WithoutFirst(old(scopes)[s].pools[i].free))
    {
      var pool := scopes[s].pools[i];
      var rest := pool.free[0 := pool.free[|pool.free| - 1]][..|pool.free| - 1];
      scopes := scopes[s := scopes[s].(pools := scopes[s].pools[i := pool.(free := rest)])];
    }

    /** mysql_connpool_find_or_create in one scope. */
    method Locate(s: nat, key: Key) returns (i: nat)
      requires s < |scopes|
      modifies `scopes
      ensures (AsState(), i) == ConnectionPool.Locate(old(AsState()), s, key)
    {
      hide Find;
      var found := FindPool(scopes[s].pools, key);
      if found.Some? {
        i := found.value;
        assert scopes[s := scopes[s].(pools := scopes[s].pools)] == scopes;
      } else {
        i := |scopes[s].pools|;
        scopes := scopes[s := scopes[s].(pools := scopes[s].pools + [Pool(key, [])])];
      }
    }

    /** One scope of mysql_connpool_get_connection. */
    method GetFrom(s: nat, cached: Option<nat>, key: Key, now: int) returns (r: Option<ConnId>, used: Option<nat>)
      requires AsState().Valid() && AsState().IsRef(s, cached)
      modifies `scopes, `open, `out
      ensures (AsState(), r, used) == ConnectionPool.GetFrom(old(AsState()), s, cached, key, now, waitTimeout)
    {
      hide ConnectionPool.TakeFree, ConnectionPool.Locate, Conserved;
      r, used := None, cached;
      if scopes[s].enabled {
        var i;
        if cached.Some? {
          i := cached.value;
        } else {
          LocateOk(AsState(), s, key);
          i := Locate(s, key);
        }
        r := TakeFree(s, i, now);
        used := Some(i);
      }
    }

    /** mysql_connpool_get_connection for the thread of scope t; connects says whether the server accepts a new one. */
    method Get(t: nat, cached: Option<nat>, key: Key, now: int, connects: bool)
      returns (r: Option<ConnId>, used: Option<nat>)
      requires AsState().Valid() && GLOBAL < t && AsState().IsRef(t, cached)
      modifies `scopes, `open, `out, `nextId
      ensures AsState().Valid()
      ensures (AsState(), r, used) == ConnectionPool.Get(old(AsState()), t, cached, key, now, waitTimeout, connects)
    {
      hide ConnectionPool.GetFrom, Conserved, ClosesBut, HasFresh;
      GetOk(AsState(), t, cached, key, now, waitTimeout, connects);
      GetFromOk(AsState(), t, cached, key, now, waitTimeout);
      r, used := GetFrom(t, cached, key, now);
      if r.None? {
        var ignored;
        r, ignored := GetFrom(GLOBAL, None, key, now);
        if r.None? && connects {
          r := Some(nextId);
          open := open[nextId := Conn(key, now + waitTimeout, true)];
          out := out + {nextId};
          nextId := nextId + 1;
        }
      }
    }

    /** mysql_connpool_detach_connection */
    method Detach(t: nat, cached: Option<nat>, c: ConnId, forceClose: bool, now: int)
      requires AsState().Valid() && AsState().IsRef(t, cached) && c in out
      modifies `scopes, `open, `out
      ensures AsState().Valid() && c in old(open)
      ensures AsState() == ConnectionPool.Detach(old(AsState()), t, cached, c, forceClose, now)
    {
      hide ConnectionPool.Locate, Conserved;
      OutIsOpen(AsState());
      DetachOk(AsState(), t, cached, c, forceClose, now);
      if !scopes[t].enabled || !open[c].reusable || forceClose {
        Close(c);
        return;
      }
      var i;
      if cached.None? {
        i := Locate(t, open[c].key);
      } else {
        i := cached.value;
      }
      if open[c].expire <= now {
        Close(c);
        return;
      }
      scopes := SetFree(scopes, t, i, scopes[t].pools[i].free + [c]);
      out := out - {c};
    }

    /** close_expired_mysql_connection */
    method Close(c: ConnId)
      modifies `open, `out
      ensures AsState() == ConnectionPool.Close(old(AsState()), c)
    {
      open := open - {c};
      out := out - {c};
    }

    /** A prepared statement makes the connection not reusable. */
    method MarkNotReusable(c: ConnId)
      requires AsState().Valid() && c in out
      modifies `open
      ensures AsState().Valid() && c in old(open) && AsState() == ConnectionPool.MarkNotReusable(old(AsState()), c)
    {
      OutIsOpen(AsState());
      MarkOk(AsState(), c);
      open := open[c := open[c].(reusable := false)];
    }
  }

  /** Closing the first of a list keeps the state consistent. */
  lemma CloseFirstOk(st: State, s: nat, i: nat)
    requires st.Valid() && s < |st.scopes| && i < |st.scopes[s].pools| && st.scopes[s].pools[i].free != []
    ensures var free := st.scopes[s].pools[i].free;
            st.(open := st.open - {free[0]}, scopes := SetFree(st.scopes, s, i, WithoutFirst(free))).Valid()
  {
    hide Conserved;
    FirstIsOpen(st, s, i);
    TakeConserves(st.scopes, st.open, st.out, s, i, false, st.open[st.scopes[s].pools[i].free[0]]);
  }

  lemma SetFreeShape(scopes: seq<Scope>, s: nat, i: nat, free: seq<ConnId>)
    requires s < |scopes| && i < |scopes[s].pools|
    ensures var after := SetFree(scopes, s, i, free);
            |after[s].pools| == |scopes[s].pools| && after[s].pools[i].free == free
  {
  }
}
