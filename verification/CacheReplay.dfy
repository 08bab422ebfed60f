/**
 The life of a cached result: relayed on a miss while it is buffered, stored, looked up after
 any other use of the cache, and replayed on a hit. The bytes that reach the client socket are
 compared end to end, for every packet sequence, buffer size and pattern of partial sends.
 */
module CacheReplay {
  import opened Wire
  import opened Framing
  import opened ServerResponse
  import opened PacketStream
  import opened CacheShard
  import opened QueryCache
  import opened ExpiringMap
  import R = ResultSetRelay

  // ----- the client socket -----

  /** Packets can be handed to the stream and it always makes progress. */
  ghost predicate Sendable(o: OutputStream)
    reads o, o.queue
  {
    o.Valid() && o.queue.buffer.Length > 0 && forall p | p in o.pkts :: p != []
  }

  /** Sends until nothing is left, however much each send() takes. */
  method SendAll(o: OutputStream) returns (wire: seq<Byte>)
    requires Sendable(o)
    modifies o.Repr()
    ensures Sendable(o) && o.Outstanding() == [] && wire == old(o.Outstanding())
  {
    wire := [];
    while o.Outstanding() != []
      invariant Sendable(o) && wire + o.Outstanding() == old(o.Outstanding())
      decreases |o.Outstanding()|
    {
      ghost var before := wire;
      var sent := o.FillAndSend(true);
      Assoc(before, sent, o.Outstanding());
      wire := wire + sent;
    }
  }

  /** Any number of sends of any size, none included. */
  method SendSome(o: OutputStream) returns (wire: seq<Byte>)
    requires Sendable(o)
    modifies o.Repr()
    ensures Sendable(o) && wire + o.Outstanding() == old(o.Outstanding())
  {
    wire := [];
    var sends: nat := *;
    while sends > 0
      invariant Sendable(o) && wire + o.Outstanding() == old(o.Outstanding())
    {
      ghost var before := wire;
      var sent := o.FillAndSend(false);
      Assoc(before, sent, o.Outstanding());
      wire := wire + sent;
      sends := sends - 1;
    }
  }

  method AddPackets(o: OutputStream, ps: seq<Packet>)
    requires Sendable(o) && forall p | p in ps :: p != []
    modifies o
    ensures Sendable(o) && o.Outstanding() == old(o.Outstanding()) + Concat(ps)
  {
    hide Concat, OutputStream.Outstanding;
    ghost var o0 := o.Outstanding();
    var i := 0;
    assert ps[..0] == [];
    ConcatNothing();
    while i < |ps|
      invariant 0 <= i <= |ps| && Sendable(o)
      invariant o.Outstanding() == o0 + Concat(ps[..i])
    {
      assert ps[..i + 1] == ps[..i] + [ps[i]];
      ConcatSnoc(ps[..i], ps[i]);
      Assoc(o0, Concat(ps[..i]), ps[i]);
      assert ps[i] in ps;
      o.AddPacket(ps[i]);
      i := i + 1;
    }
    assert ps[..i] == ps;
  }

  // ----- a miss -----

  /** What the relay has given to the client never shrinks. */
  lemma OutputGrows(limit: nat, out: seq<Packet>, toCache: bool, ps: seq<Packet>, st: R.Relay, p: Packet, st': R.Relay)
    requires R.OpenState(limit, out, toCache, ps, st)
    requires st'.out == out + (ps + [p]) || (st'.out == out && |Concat(ps + [p])| < limit)
    ensures st.out <= st'.out
  {
    ConcatSnoc(ps, p);
  }

  /**
   One server packet: relay it, hand the new output to the socket, and send as often and as much as the socket takes.
   */
  method RelayOne(session: R.Session, o: OutputStream, p: Packet, beyond: seq<Byte>, keyLength: nat, freeMemory: nat)
    returns (sent: seq<Byte>, stored: Option<seq<Byte>>)
    requires session.Valid() && session.open && HasPayload(p) && |beyond| >= SLACK && Sendable(o) &&
             session !in o.Repr()
    requires forall q | q in session.seen :: HasPayload(q)
    modifies session, o.Repr()
    ensures session.Valid() && session.out0 == old(session.out0) && session.toCache0 == old(session.toCache0) &&
            session.seen == old(session.seen) + [p]
    ensures forall q | q in session.seen :: HasPayload(q)
    ensures session.open <==> R.ProgressAfter(session.seen) != R.Completed
    ensures session.open ==> stored == None
    ensures !session.open ==> R.DoneState(R.Env(session.limit, keyLength, freeMemory), session.out0, session.toCache0,
            session.seen, session.State(), stored)
    ensures session.activeTransaction == if R.LooksFinal(p) then IsTransactionActive(p, beyond) else
            old(session.activeTransaction)
    ensures Sendable(o) && old(session.clientOut) <= session.clientOut
    ensures sent + o.Outstanding() == old(o.Outstanding()) + Concat(session.clientOut[|old(session.clientOut)|..])
  {
    hide R.ProgressAfter, R.InProgress, R.LooksFinal, IsTransactionActive, Concat;
    ghost var st, seen := session.State(), session.seen;
    var handed := |session.clientOut|;
    stored := session.RelayPacket(p, beyond, keyLength, freeMemory);
    OutputGrows(session.limit, session.out0, session.toCache0, seen, st, p, session.State());
    NewOutputSendable(session.out0, session.seen, handed, session.clientOut);
    AddPackets(o, session.clientOut[handed..]);
    sent := SendSome(o);
  }

  lemma NewOutputSendable(out: seq<Packet>, seen: seq<Packet>, n: nat, all: seq<Packet>)
    requires |out| <= n <= |all| && (all == out || all == out + seen) && forall q | q in seen :: HasPayload(q)
    ensures forall q | q in all[n..] :: q != []
  {
    forall q | q in all[n..]
      ensures q != []
    {
      var k :| n <= k < |all| && all[k] == q;
      assert seen[k - |out|] in seen;
    }
  }

  lemma ConcatFrom(shorter: seq<Packet>, longer: seq<Packet>, start: nat)
    requires start <= |shorter| && shorter <= longer
    ensures Concat(longer[start..]) == Concat(shorter[start..]) + Concat(longer[|shorter|..])
  {
    ConcatAppend(shorter[start..], longer[|shorter|..]);
    assert longer[start..] == shorter[start..] + longer[|shorter|..];
  }

  /** All packets of a response, in the order they come, with sends in between. */
  method RelayResponse(session: R.Session, o: OutputStream, ps: seq<Packet>, mems: seq<seq<Byte>>,
                       keyLength: nat, freeMemory: nat, toCache: bool)
    returns (wire: seq<Byte>, stored: Option<seq<Byte>>)
    requires session.Valid() && !session.open && R.Behind(mems, |ps|) && Sendable(o) && session !in o.Repr()
    requires (forall p | p in ps :: HasPayload(p)) && R.CompletesExactly(ps)
    modifies session, o.Repr()
    ensures session.Valid() && !session.open && Sendable(o)
    ensures wire + o.Outstanding() == old(o.Outstanding()) + Concat(ps)
    ensures stored == R.ToStore(R.Env(session.limit, keyLength, freeMemory), toCache, ps)
    ensures session.activeTransaction == R.TransactionAfter(old(session.activeTransaction), ps, mems)
  {
    hide R.ProgressAfter, R.TransactionAfter, R.LooksFinal, Classify, IsTransactionActive, Concat, R.OpenState,
        R.ToStore, OutputStream.Outstanding, HasPayload;
    session.StartQuery(toCache);
    stored, wire := None, [];
    ghost var start, o0, flag := |session.clientOut|, o.Outstanding(), session.activeTransaction;
    ConcatNothing();
    R.TransactionNone(flag, ps, mems);
    assert session.clientOut[start..] == [];
    var k := 0;
    while k < |ps|
      invariant 0 <= k <= |ps| && session.Valid() && Sendable(o) && session.toCache0 == toCache &&
                session.seen == ps[..k]
      invariant start == |session.out0| <= |session.clientOut|
      invariant (forall q | q in session.seen :: HasPayload(q)) && R.Behind(mems[..k], k)
      invariant session.activeTransaction == R.TransactionAfter(flag, session.seen, mems[..k])
      invariant k < |ps| ==> session.open
      invariant k == |ps| ==> !session.open && R.DoneState(R.Env(session.limit, keyLength, freeMemory), session.out0,
                toCache, session.seen, session.State(), stored)
      invariant wire + o.Outstanding() == o0 + Concat(session.clientOut[start..])
    {
      assert ps[..k + 1] == ps[..k] + [ps[k]];
      assert ps[k] in ps;
      assert mems[..k + 1] == mems[..k] + [mems[k]];
      R.TransactionSnoc(flag, ps[..k], mems[..k], ps[k], mems[k]);
      ghost var before, pending, out := wire, o.Outstanding(), session.clientOut;
      var sent;
      sent, stored := RelayOne(session, o, ps[k], mems[k], keyLength, freeMemory);
      ConcatFrom(out, session.clientOut, start);
      Resend(before, pending, sent, o.Outstanding(), o0, Concat(out[start..]), Concat(session.clientOut[|out|..]));
      wire := wire + sent;
      k := k + 1;
      NotYet(ps, k);
    }
    assert ps[..k] == ps && mems[..k] == mems;
    assert session.clientOut[start..] == ps;
  }

  /**
   A whole result set closed by EOF: it is relayed as it is, and the session's flag is then that of the closing EOF.
   */
  method RelayResultSet(session: R.Session, o: OutputStream, r: Response, mems: seq<seq<Byte>>,
                        keyLength: nat, freeMemory: nat, toCache: bool)
    returns (wire: seq<Byte>, stored: Option<seq<Byte>>)
    requires session.Valid() && !session.open && R.Behind(mems, |r.Packets()|) && Sendable(o) && session !in o.Repr()
    requires r.ResultSet? && r.WellFormed() && IsEof(r.last) && |r.last| == HEADER_SIZE + 5
    modifies session, o.Repr()
    ensures session.Valid() && !session.open && Sendable(o)
    ensures wire + o.Outstanding() == old(o.Outstanding()) + Concat(r.Packets())
    ensures session.activeTransaction <==> r.last[HEADER_SIZE + 3] % 2 == 1
  {
    hide R.TransactionAfter, R.CompletesExactly, Concat, OutputStream.Outstanding, R.Session.Valid;
    R.CompletionIff(r);
    R.ClosingEofDecides(session.activeTransaction, r, mems);
    wire, stored := RelayResponse(session, o, r.Packets(), mems, keyLength, freeMemory, toCache);
  }

  lemma ConcatNothing()
    ensures Concat([]) == []
  {
  }

  lemma NotYet(ps: seq<Packet>, k: nat)
    requires (forall p | p in ps :: HasPayload(p)) && R.CompletesExactly(ps) && 0 < k <= |ps|
    ensures forall p | p in ps[..k] :: HasPayload(p)
    ensures R.ProgressAfter(ps[..k]) == R.Completed <==> k == |ps|
  {
    if k < |ps| {
      assert ps[..|ps| - 1][..k] == ps[..k];
    } else {
      assert ps[..k] == ps;
    }
  }

  lemma Resend(before: seq<Byte>, pending: seq<Byte>, sent: seq<Byte>, left: seq<Byte>, start: seq<Byte>,
               done: seq<Byte>, more: seq<Byte>)
    requires before + pending == start + done && sent + left == pending + more
    ensures before + sent + left == start + (done + more)
  {
    calc {
      before + sent + left;
    == { Assoc(before, sent, left); }
      before + (pending + more);
    == { Assoc(before, pending, more); }
      start + done + more;
    == { Assoc(start, done, more); }
      start + (done + more);
    }
  }

  // ----- a hit -----

  ghost function Objects(cache: Group): set<object> {
    {cache as object} + set p: Partition | p in cache.parts :: p as object
  }

  /** get_result_from_mysql_query_cache: the cached value goes out as one packet. */
  method Hit(cache: Group, o: OutputStream, key: Key, ghost i: Ideal) returns (hit: bool, wire: seq<Byte>)
    requires Agree(cache, i) && Sendable(o) && o.Repr() !! Objects(cache)
    requires i.Get(key).Some? ==> i.Get(key).value != []
    modifies cache, cache.parts, o.Repr()
    ensures Agree(cache, i) && hit == i.Get(key).Some?
    ensures wire == if hit then old(o.Outstanding()) + i.Get(key).value else []
  {
    hide OutputStream.Outstanding, Agree;
    var r := Perform(cache, GetOp(key), i);
    hit := r.Some?;
    wire := [];
    if r.Some? {
      AddPackets(o, [r.value]);
      ConcatOne(r.value);
      wire := SendAll(o);
    }
  }

  lemma ConcatOne(p: seq<Byte>)
    ensures Concat([p]) == p
  {
    assert Concat([p]) == p + Concat([]);
  }

  /**
   A response is relayed on a miss and stored; the cache is then used in any way that does not
   store under the same key; the key is looked up again. A hit happens exactly when no truncation
   came between and the deadline has not passed, and it puts on its socket the very bytes the
   miss put on its own.
   */
  method MissThenHit(session: R.Session, cache: Group, missOut: OutputStream, hitOut: OutputStream,
                     key: Key, ps: seq<Packet>, mems: seq<seq<Byte>>, freeMemory: nat, ttl: int, ops: seq<Op>,
                         ghost i: Ideal)
    returns (cached: bool, missWire: seq<Byte>, hit: bool, hitWire: seq<Byte>)
    requires session.Valid() && !session.open && Agree(cache, i) && Sendable(missOut) && Sendable(hitOut)
    requires R.Behind(mems, |ps|)
    requires {session} !! missOut.Repr() !! hitOut.Repr() !! Objects(cache)
    requires (forall p | p in ps :: HasPayload(p)) && R.CompletesExactly(ps)
    requires i.now > 0 && i.After(SetOp(key, Concat(ps), ttl)).AllLegal(ops) && forall op | op in ops :: op.SetOp? ==>
             op.key != key
    modifies session, cache, cache.parts, missOut.Repr(), hitOut.Repr()
    ensures missWire == old(missOut.Outstanding()) + Concat(ps)
    ensures session.activeTransaction == R.TransactionAfter(old(session.activeTransaction), ps, mems)
    ensures cached <==>
            |Concat(ps)| < session.limit && |key.bytes| + |Concat(ps)| + CacheShard.ENTRY_OVERHEAD <= freeMemory
    // a number of seconds up to the limit, a later point in time, or the default
    ensures cached ==>
              var t := i.After(SetOp(key, Concat(ps), ttl)).Run(ops).now;
              hit <==> TruncateOp !in ops &&
                       ((0 < ttl <= i.expireMax && t < i.now + ttl) || (ttl > i.expireMax && t < ttl) ||
                        (ttl <= 0 && t < i.now + i.expireDefault))
    ensures hit ==> hitWire == old(hitOut.Outstanding()) + Concat(ps)
  {
    hide OutputStream.Outstanding, Agree, Concat, R.CompletesExactly, Deadline, OutputStream.Valid, R.Session.Valid,
        R.TransactionAfter;
    var wire, stored := RelayResponse(session, missOut, ps, mems, |key.bytes|, freeMemory, true);
    var rest := SendAll(missOut);
    missWire := wire + rest;
    cached := stored.Some?;
    hit, hitWire := false, [];
    if stored.Some? {
      var insert := SetOp(key, stored.value, ttl);
      var r := Perform(cache, insert, i);
      var answers, last := PerformAll(cache, ops, i.After(insert));
      ServedUntil(i, ops, key, stored.value, ttl);
      NotNothing(ps);
      hit, hitWire := Hit(cache, hitOut, key, last);
    }
  }

  lemma NotNothing(ps: seq<Packet>)
    requires (forall p | p in ps :: HasPayload(p)) && R.CompletesExactly(ps)
    ensures Concat(ps) != []
  {
    assert ps[0] in ps;
  }
}
