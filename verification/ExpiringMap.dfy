/**
 The specification of the query cache: a map from keys to values with deadlines and a clock.
 Every run of gets, sets, truncations and purge rounds on the real cache answers as this map does;
 a purge round only moves the clock.
 */
module ExpiringMap {
  import opened Wire
  import opened CacheShard
  import opened QueryCache

  datatype Op =
    | GetOp(key: Key)
    | SetOp(key: Key, value: Value, expire: int)
    | TruncateOp
    | PurgeOp(clock: int, loop: nat, time: nat)

  datatype Ideal = Ideal(view: map<Key, Cached>, now: int, expireMax: nat, expireDefault: nat)
  {
    function Find(k: Key): Option<Cached> {
      if k in view then Some(view[k]) else None
    }

    /** What a get at the present time answers. */
    function Get(k: Key): Option<Value> {
      Answer(Find(k), now)
    }

    /** The clock never goes back; the purge settings are those the configuration accepts. */
    predicate Legal(op: Op) {
      op.PurgeOp? ==> now <= op.clock && 0 < op.loop <= op.time
    }

    function After(op: Op): (i: Ideal)
      requires now > 0 && Legal(op)
      ensures i.now >= now
    {
      match op
      case GetOp(_) => this
      case SetOp(k, v, expire) => this.(view := view[k := Cached(v, Deadline(expire, now, expireMax, expireDefault))])
      case TruncateOp => this.(view := map[])
      case PurgeOp(clock, _, _) => this.(now := clock)
    }

    predicate AllLegal(ops: seq<Op>)
      requires now > 0
      decreases |ops|
    {
      ops == [] || (Legal(ops[0]) && After(ops[0]).AllLegal(ops[1..]))
    }

    function Run(ops: seq<Op>): (i: Ideal)
      requires now > 0 && AllLegal(ops)
      ensures i.now >= now && i.expireMax == expireMax && i.expireDefault == expireDefault
      decreases |ops|
    {
      if ops == [] then this else After(ops[0]).Run(ops[1..])
    }

    /** What each operation of a run answers: a get its value, if any. */
    function Answers(ops: seq<Op>): (r: seq<Option<Value>>)
      requires now > 0 && AllLegal(ops)
      ensures |r| == |ops|
      decreases |ops|
    {
      if ops == [] then [] else [if ops[0].GetOp? then Get(ops[0].key) else None] + After(ops[0]).Answers(ops[1..])
    }
  }

  /** From now on every get of every key is answered alike. */
  ghost predicate Agree(g: Group, i: Ideal)
    reads g, g.parts
  {
    && g.Valid() && g.now == i.now && g.expireMax == i.expireMax && g.expireDefault == i.expireDefault
    && forall k, t | t >= g.now :: Answer(g.Lookup(k), t) == Answer(i.Find(k), t)
  }

  /** A new cache agrees with the empty map. */
  lemma EmptyAgrees(g: Group)
    requires g.Valid() && forall k :: g.Lookup(k) == None
    ensures Agree(g, Ideal(map[], g.now, g.expireMax, g.expireDefault))
  {
  }

  /** One operation of the cache against one step of the map. */
  method Perform(g: Group, op: Op, ghost i: Ideal) returns (r: Option<Value>)
    requires Agree(g, i) && i.Legal(op)
    modifies g, g.parts
    ensures Agree(g, i.After(op))
    ensures r == if op.GetOp? then i.Get(op.key) else None
  {
    hide Group.Lookup, Deadline;
    r := None;
    match op {
      case GetOp(k) =>
        r := g.Get(k);
        assert Answer(g.Lookup(k), g.now) == Answer(i.Find(k), g.now);
      case SetOp(k, v, expire) =>
        g.Set(k, v, expire);
      case TruncateOp =>
        var n := g.TruncateAll();
      case PurgeOp(clock, loop, time) =>
        var freed := g.PurgeRound(clock, loop, time);
    }
  }

  /** Any run of operations, from any state that agrees with the map: every get answers as the map does. */
  method PerformAll(g: Group, ops: seq<Op>, ghost i: Ideal) returns (answers: seq<Option<Value>>, ghost last: Ideal)
    requires Agree(g, i) && i.AllLegal(ops)
    modifies g, g.parts
    ensures last == i.Run(ops) && Agree(g, last)
    ensures answers == i.Answers(ops)
  {
    hide Agree;
    AgreeNow(g, i);
    answers, last := [], i;
    var k := 0;
    while k < |ops|
      invariant 0 <= k <= |ops| && Agree(g, last) && last.now > 0 && last.AllLegal(ops[k..])
      invariant last.Run(ops[k..]) == i.Run(ops) && answers + last.Answers(ops[k..]) == i.Answers(ops)
    {
      assert ops[k..][0] == ops[k] && ops[k..][1..] == ops[k + 1..];
      ghost var before := answers;
      var r := Perform(g, ops[k], last);
      answers := answers + [r];
      ghost var next := last.After(ops[k]);
      assert last.Answers(ops[k..]) == [r] + next.Answers(ops[k + 1..]);
      assert answers + next.Answers(ops[k + 1..]) == before + ([r] + next.Answers(ops[k + 1..]));
      last := next;
      AgreeNow(g, last);
      k := k + 1;
    }
  }

  lemma AgreeNow(g: Group, i: Ideal)
    requires Agree(g, i)
    ensures i.now > 0
  {
  }

  /** Operations that neither set a key nor clear the tables leave its entry as it was; those that clear remove it. */
  lemma {:induction false} EntryKept(i: Ideal, ops: seq<Op>, key: Key)
    requires i.now > 0 && i.AllLegal(ops) && forall op | op in ops :: op.SetOp? ==> op.key != key
    ensures i.Run(ops).Find(key) == if TruncateOp in ops then None else i.Find(key)
    decreases |ops|
  {
    if ops != [] {
      assert ops[0] in ops;
      forall op | op in ops[1..]
        ensures op in ops
      {
      }
      EntryKept(i.After(ops[0]), ops[1..], key);
      assert ops == [ops[0]] + ops[1..];
      if ops[0] == TruncateOp {
        assert i.After(ops[0]).Find(key) == None;
      }
    }
  }

  /**
   A value that is set, and then neither set again nor truncated, is served for exactly its time to live: a
   number of seconds up to the limit, until a later point in time, or for the default.
   */
  lemma ServedUntil(i: Ideal, ops: seq<Op>, key: Key, v: Value, ttl: int)
    requires i.now > 0 && i.After(SetOp(key, v, ttl)).AllLegal(ops)
    requires forall op | op in ops :: op.SetOp? ==> op.key != key
    ensures var last := i.After(SetOp(key, v, ttl)).Run(ops);
            last.Get(key) ==
              if TruncateOp !in ops &&
                 ((0 < ttl <= i.expireMax && last.now < i.now + ttl) || (ttl > i.expireMax && last.now < ttl) ||
                  (ttl <= 0 && last.now < i.now + i.expireDefault))
              then Some(v) else None
  {
    EntryKept(i.After(SetOp(key, v, ttl)), ops, key);
    DeadlineMeans(v, ttl, i.now, i.expireMax, i.expireDefault);
  }

  /** fdb_set, the passing of time, fdb_get. */
  method SetThenGet(g: Group, k: Key, v: Value, ttl: int, clock: int) returns (r: Option<Value>)
    requires g.Valid() && clock >= g.now
    modifies g, g.parts
    ensures g.Valid() && g.now == clock
    ensures r == if (0 < ttl <= g.expireMax && clock < old(g.now) + ttl) || (ttl > g.expireMax && clock < ttl) ||
                    (ttl <= 0 && clock < old(g.now) + g.expireDefault)
                 then Some(v) else None
  {
    hide Group.Valid, Deadline;
    g.Set(k, v, ttl);
    g.SetClock(clock);
    ghost var c := g.Lookup(k);
    r := g.Get(k);
    assert r == Answer(c, clock);
  }
}
