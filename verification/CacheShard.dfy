/**
 One partition of the query cache as a value: a hash table, the side array, and the entries
 both of them point to. An entry is dropped by setting expire to EXPIRE_DROPIT; it stays in
 the array until the purger frees it. The partition stands for an expiring map (View).
 */
module CacheShard {
  import opened Wire
  import opened Sequences

  /** A key string, without its terminating NUL. */
  datatype Key = Key(bytes: seq<Byte>)

  type Value = seq<Byte>
  type Id = nat  // the address of an entry

  const EXPIRE_DROPIT := 0
  const ENTRY_OVERHEAD := 72  // sizeof(fdb_hash_entry) + sizeof(fdb_hash_entry *)

  datatype Entry = Entry(key: Key, value: Value, expire: int, access: int, refCount: nat)
  {
    function Bytes(): nat {
      |key.bytes| + |value| + ENTRY_OVERHEAD
    }
  }

  /** What the map says about a key: its value and when it stops being served. */
  datatype Cached = Cached(value: Value, expire: int)

  datatype Shard = Shard(hash: map<Key, Id>, arr: seq<Id>, store: map<Id, Entry>)
  {
    /** The entries are those in the array; one is undropped exactly when the hash maps its key to it. */
    ghost predicate Ok() {
      ArrayOk() && HashOk() && MarksOk()
    }

    ghost predicate ArrayOk() {
      NoDup(arr) && forall id :: id in store <==> id in arr
    }

    ghost predicate HashOk() {
      forall k | k in hash :: hash[k] in store && store[hash[k]].key == k
    }

    ghost predicate MarksOk() {
      forall id | id in store :: store[id].expire != EXPIRE_DROPIT <==> Mapped(id)
    }

    predicate Mapped(id: Id)
      requires id in store
    {
      store[id].key in hash && hash[store[id].key] == id
    }

    ghost function View(): map<Key, Cached>
      requires HashOk()
    {
      map k | k in hash :: Cached(store[hash[k]].value, store[hash[k]].expire)
    }

    /** What fdb_get answers at time t. */
    ghost predicate Serves(k: Key, t: int, v: Value)
      requires HashOk()
    {
      k in hash && store[hash[k]].expire > t && store[hash[k]].value == v
    }

    /** g_hash_table_remove with hash_value_destroy_func. */
    function Drop(id: Id): Shard
      requires id in store
    {
      this.(hash := hash - {store[id].key}, store := store[id := store[id].(expire := EXPIRE_DROPIT)])
    }

    /** g_hash_table_replace and g_ptr_array_add for a new entry. */
    function Insert(id: Id, e: Entry): Shard
      requires HashOk()
    {
      (if e.key in hash then Drop(hash[e.key]) else this).Add(id, e)
    }

    function Add(id: Id, e: Entry): Shard {
      Shard(hash[e.key := id], arr + [id], store[id := e])
    }

    /** g_ptr_array_remove_index_fast(i) and the release of the entry. */
    function Free(i: nat): Shard
      requires i < |arr|
    {
      this.(arr := arr[i := arr[|arr| - 1]][..|arr| - 1], store := store - {arr[i]})
    }

    /** g_hash_table_remove_all */
    function Clear(): Shard
      requires HashOk()
    {
      this.(hash := map[], store := map id | id in store ::
          if Mapped(id) then store[id].(expire := EXPIRE_DROPIT) else store[id])
    }

    lemma DropOk(id: Id)
      requires Ok() && id in store && Mapped(id)
      ensures Drop(id).Ok() && Drop(id).View() == View() - {store[id].key}
    {
    }

    /** The last set wins, and no other key is affected. */
    lemma InsertOk(id: Id, e: Entry)
      requires Ok() && id !in store && e.expire != EXPIRE_DROPIT
      ensures Insert(id, e).Ok() && Insert(id, e).View() == View()[e.key := Cached(e.value, e.expire)]
    {
      hide Ok, View;
      if e.key in hash {
        MappedByHash(e.key);
        DropOk(hash[e.key]);
        Drop(hash[e.key]).AddOk(id, e);
      } else {
        AddOk(id, e);
      }
    }

    lemma ViewKeys()
      requires HashOk()
      ensures View().Keys == hash.Keys && |View()| == |hash|
    {
      assert View().Keys == hash.Keys;
    }

    lemma OkParts()
      requires Ok()
      ensures ArrayOk() && HashOk() && MarksOk()
    {
    }

    lemma MappedByHash(k: Key)
      requires Ok() && k in hash
      ensures hash[k] in store && store[hash[k]].key == k && Mapped(hash[k])
    {
    }

    lemma AddOk(id: Id, e: Entry)
      requires Ok() && id !in store && e.expire != EXPIRE_DROPIT && e.key !in hash
      ensures Add(id, e).Ok() && Add(id, e).View() == View()[e.key := Cached(e.value, e.expire)]
    {
      hide ArrayOk, HashOk, MarksOk, View, Add;
      AddArrayOk(id, e);
      AddHashOk(id, e);
      AddMarksOk(id, e);
    }

    lemma AddHashOk(id: Id, e: Entry)
      requires HashOk() && id !in store && e.key !in hash
      ensures Add(id, e).HashOk() && Add(id, e).View() == View()[e.key := Cached(e.value, e.expire)]
    {
    }

    lemma AddMarksOk(id: Id, e: Entry)
      requires HashOk() && MarksOk() && id !in store && e.expire != EXPIRE_DROPIT && e.key !in hash
      ensures Add(id, e).MarksOk()
    {
      var t := Add(id, e);
      forall j | j in t.store
        ensures t.store[j].expire != EXPIRE_DROPIT <==> t.Mapped(j)
      {
        assert j == id || (store[j].expire != EXPIRE_DROPIT <==> Mapped(j));
      }
    }

    lemma AddArrayOk(id: Id, e: Entry)
      requires ArrayOk() && id !in store
      ensures Add(id, e).ArrayOk()
    {
      var t := Add(id, e);
      forall j
        ensures j in t.store <==> j in t.arr
      {
        assert j in store <==> j in arr;
      }
    }

    /** Freeing a dropped entry does not change the map, despite the swap with the last entry. */
    lemma FreeOk(i: nat)
      requires Ok() && i < |arr| && store[arr[i]].expire == EXPIRE_DROPIT
      ensures Free(i).Ok() && Free(i).View() == View()
    {
      FreeArrayOk(i);
      assert arr[i] in store;
      FreeMarksOk(i);
    }

    lemma FreeMarksOk(i: nat)
      requires HashOk() && MarksOk() && i < |arr| && arr[i] in store && store[arr[i]].expire == EXPIRE_DROPIT
      ensures Free(i).HashOk() && Free(i).MarksOk() && Free(i).View() == View()
    {
      var t, gone := Free(i), arr[i];
      assert t.hash == hash && t.store == store - {gone} && !Mapped(gone);
      forall k | k in hash
        ensures hash[k] in t.store && t.store[hash[k]] == store[hash[k]]
      {
        assert Mapped(hash[k]);
      }
      forall id | id in t.store
        ensures t.store[id].expire != EXPIRE_DROPIT <==> t.Mapped(id)
      {
        assert store[id].expire != EXPIRE_DROPIT <==> Mapped(id);
      }
    }

    lemma FreeArrayOk(i: nat)
      requires ArrayOk() && i < |arr|
      ensures Free(i).ArrayOk()
    {
      var t, n := Free(i), |arr| - 1;
      forall id
        ensures id in t.store <==> id in t.arr
      {
        assert id in store <==> id in arr;
        if id in arr && id != arr[i] {
          var k :| 0 <= k < |arr| && arr[k] == id;
          assert t.arr[if k == n then i else k] == id;
        }
        if id in t.arr {
          var k :| 0 <= k < n && t.arr[k] == id;
          assert id == if k == i then arr[n] else arr[k];
        }
      }
    }

    lemma ClearOk()
      requires Ok()
      ensures Clear().Ok() && Clear().View() == map[]
    {
    }
  }

  // ----- bytes -----

  function Bytes(store: map<Id, Entry>, arr: seq<Id>): nat
    requires forall id | id in arr :: id in store
  {
    if arr == [] then 0 else Bytes(store, arr[..|arr| - 1]) + store[arr[|arr| - 1]].Bytes()
  }

  lemma {:induction false} BytesFrame(s: map<Id, Entry>, t: map<Id, Entry>, arr: seq<Id>)
    requires forall id | id in arr :: id in s && id in t && s[id].Bytes() == t[id].Bytes()
    ensures Bytes(s, arr) == Bytes(t, arr)
  {
    if arr != [] {
      assert arr[|arr| - 1] in arr;
      BytesFrame(s, t, arr[..|arr| - 1]);
    }
  }

  lemma {:induction false} BytesConcat(s: map<Id, Entry>, a: seq<Id>, b: seq<Id>)
    requires (forall id | id in a :: id in s) && (forall id | id in b :: id in s)
    ensures Bytes(s, a + b) == Bytes(s, a) + Bytes(s, b)
  {
    if b == [] {
      assert a + b == a;
    } else {
      assert (a + b)[..|a + b| - 1] == a + b[..|b| - 1];
      BytesConcat(s, a, b[..|b| - 1]);
    }
  }

  lemma BytesSnoc(s: map<Id, Entry>, arr: seq<Id>, id: Id)
    requires id in s && forall j | j in arr :: j in s
    ensures Bytes(s, arr + [id]) == Bytes(s, arr) + s[id].Bytes()
  {
    assert (arr + [id])[..|arr|] == arr;
  }

  lemma SwapRemoveSplit(arr: seq<Id>, i: nat)
    requires i < |arr| - 1
    ensures arr[..|arr| - 1] == arr[..i] + [arr[i]] + arr[i + 1..|arr| - 1]
    ensures arr[i := arr[|arr| - 1]][..|arr| - 1] == arr[..i] + [arr[|arr| - 1]] + arr[i + 1..|arr| - 1]
  {
  }

  /** The swap-with-last removal takes exactly the removed entry's bytes out of the sum. */
  lemma BytesSwapRemove(s: map<Id, Entry>, arr: seq<Id>, i: nat)
    requires i < |arr| && forall id | id in arr :: id in s
    ensures forall id | id in arr[i := arr[|arr| - 1]][..|arr| - 1] :: id in s
    ensures Bytes(s, arr[i := arr[|arr| - 1]][..|arr| - 1]) == Bytes(s, arr) - s[arr[i]].Bytes()
  {
    var n := |arr| - 1;
    assert arr == arr[..n] + [arr[n]];
    BytesSnoc(s, arr[..n], arr[n]);
    if i == n {
      assert arr[i := arr[n]][..n] == arr[..n];
    } else {
      SwapRemoveSplit(arr, i);
      BytesConcat(s, arr[..i] + [arr[i]], arr[i + 1..n]);
      BytesConcat(s, arr[..i] + [arr[n]], arr[i + 1..n]);
      BytesSnoc(s, arr[..i], arr[i]);
      BytesSnoc(s, arr[..i], arr[n]);
    }
  }

  lemma BytesDrop(s: Shard, id: Id)
    requires s.Ok() && id in s.store
    ensures var t := s.Drop(id);
            (forall j | j in t.arr :: j in t.store) && Bytes(t.store, t.arr) == Bytes(s.store, s.arr)
  {
    BytesFrame(s.store, s.Drop(id).store, s.arr);
  }

  lemma BytesAdd(s: Shard, id: Id, e: Entry)
    requires s.ArrayOk() && id !in s.store
    ensures var t := s.Add(id, e);
            (forall j | j in t.arr :: j in t.store) && Bytes(t.store, t.arr) == Bytes(s.store, s.arr) + e.Bytes()
  {
    var t := s.Add(id, e);
    s.AddArrayOk(id, e);
    BytesSnoc(t.store, s.arr, id);
    BytesFrame(s.store, t.store, s.arr);
  }

  lemma BytesInsert(s: Shard, id: Id, e: Entry)
    requires s.Ok() && id !in s.store
    ensures var t := s.Insert(id, e);
            (forall j | j in t.arr :: j in t.store) && Bytes(t.store, t.arr) == Bytes(s.store, s.arr) + e.Bytes()
  {
    hide Bytes, Shard.MarksOk, NoDup;
    if e.key in s.hash {
      var d := s.Drop(s.hash[e.key]);
      BytesDrop(s, s.hash[e.key]);
      BytesAdd(d, id, e);
    } else {
      BytesAdd(s, id, e);
    }
  }

  lemma BytesFree(s: Shard, i: nat)
    requires s.Ok() && i < |s.arr|
    ensures var t := s.Free(i);
            (forall j | j in t.arr :: j in t.store) && Bytes(t.store, t.arr) ==
                Bytes(s.store, s.arr) - s.store[s.arr[i]].Bytes()
  {
    hide Shard.HashOk, Shard.MarksOk, Bytes;
    var t := s.Free(i);
    s.FreeArrayOk(i);
    hide NoDup;
    BytesSwapRemove(s.store, s.arr, i);
    BytesFrame(s.store, t.store, t.arr);
  }

  lemma BytesClear(s: Shard)
    requires s.Ok()
    ensures var t := s.Clear();
            (forall j | j in t.arr :: j in t.store) && Bytes(t.store, t.arr) == Bytes(s.store, s.arr)
  {
    BytesFrame(s.store, s.Clear().store, s.arr);
  }
}
