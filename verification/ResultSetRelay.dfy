/**
 The relay of a COM_QUERY response (server_COM_QUERY and process_server_pkts): packets are
 buffered while the result set stays below a limit, otherwise passed straight on; at the end
 of the response the buffer is flushed and, if asked for, its concatenation goes to the cache.
 */
module ResultSetRelay {
  import opened Wire
  import opened Framing
  import opened ServerResponse
  import CacheShard

  datatype Progress = Waiting | ColumnCount | ColumnDefinitions | Eof1 | Rows | Completed

  function Next(progress: Progress, kind: Kind): Progress {
    match kind
    case OkPacket => if progress == Waiting then Completed else Rows
    case ErrPacket => Completed
    case EofPacket => if progress == ColumnDefinitions then Eof1 else Completed
    case UnknownPacket =>
      match progress
      case Waiting => ColumnCount
      case ColumnCount | ColumnDefinitions => ColumnDefinitions
      case Eof1 | Rows => Rows
      case Completed => Completed
  }

  /** The progress field after a list of packets, while no completion has reset it. */
  function ProgressAfter(ps: seq<Packet>): Progress
    requires forall p | p in ps :: HasPayload(p)
  {
    if ps == [] then Waiting else Next(ProgressAfter(ps[..|ps| - 1]), Classify(ps[|ps| - 1]))
  }

  ghost predicate InProgress(ps: seq<Packet>)
    requires forall p | p in ps :: HasPayload(p)
  {
    forall k | 0 <= k <= |ps| :: ProgressAfter(ps[..k]) != Completed
  }

  /** The machine completes at the last of these packets and not before. */
  ghost predicate CompletesExactly(ps: seq<Packet>)
    requires forall p | p in ps :: HasPayload(p)
  {
    ps != [] && InProgress(ps[..|ps| - 1]) && ProgressAfter(ps) == Completed
  }

  // ----- exact completion -----

  lemma ProgressSnoc(ps: seq<Packet>, p: Packet)
    requires (forall q | q in ps :: HasPayload(q)) && HasPayload(p)
    ensures ProgressAfter(ps + [p]) == Next(ProgressAfter(ps), Classify(p))
  {
    assert (ps + [p])[..|ps|] == ps;
  }

  lemma InProgressSnoc(ps: seq<Packet>, p: Packet)
    requires (forall q | q in ps :: HasPayload(q)) && HasPayload(p) && InProgress(ps)
    requires Next(ProgressAfter(ps), Classify(p)) != Completed
    ensures InProgress(ps + [p])
  {
    forall k | 0 <= k <= |ps| + 1
      ensures ProgressAfter((ps + [p])[..k]) != Completed
    {
      if k == |ps| + 1 {
        ProgressSnoc(ps, p);
        assert (ps + [p])[..k] == ps + [p];
      } else {
        assert (ps + [p])[..k] == ps[..k];
      }
    }
  }

  /** Packets of kinds the current state only absorbs leave the response open. */
  lemma {:induction false} Absorb(ps: seq<Packet>, qs: seq<Packet>, state: Progress)
    requires (forall q | q in ps :: HasPayload(q)) && InProgress(ps) && state != Completed
    requires qs != [] ==> forall q | q in qs :: HasPayload(q)
    requires ProgressAfter(ps) == state || (qs != [] && Next(ProgressAfter(ps), Classify(qs[0])) == state)
    requires forall q | q in qs :: Next(state, Classify(q)) == state
    ensures InProgress(ps + qs) && ProgressAfter(ps + qs) == state
    decreases |qs|
  {
    hide InProgress, ProgressAfter, Classify, Next;
    if qs == [] {
      assert ps + qs == ps;
    } else {
      assert qs[0] in qs;
      InProgressSnoc(ps, qs[0]);
      ProgressSnoc(ps, qs[0]);
      assert ps + qs == (ps + [qs[0]]) + qs[1..];
      Absorb(ps + [qs[0]], qs[1..], state);
    }
  }

  lemma ResponsePayloads(r: Response)
    requires r.WellFormedUpToDefinitions()
    ensures forall p | p in r.Packets() :: HasPayload(p)
  {
  }

  lemma StartOfResponse(count: Packet)
    requires IsColumnCountOrDefinition(count)
    ensures InProgress([count]) && ProgressAfter([count]) == ColumnCount
  {
    assert InProgress([]);
    InProgressSnoc([], count);
    ProgressSnoc([], count);
    assert [] + [count] == [count];
  }

  /** Up to its closing packet, a result set with columns keeps the machine open. */
  lemma ResultSetStaysOpen(r: Response)
    requires r.ResultSet? && r.WellFormed()
    ensures var ps := [r.count] + r.definitions + [r.eof] + r.rows;
            && (forall p | p in ps :: HasPayload(p))
            && InProgress(ps) && (ProgressAfter(ps) == Eof1 || ProgressAfter(ps) == Rows)
  {
    var a := [r.count] + r.definitions;
    var b := a + [r.eof];
    StartOfResponse(r.count);
    assert r.definitions[0] in r.definitions;
    Absorb([r.count], r.definitions, ColumnDefinitions);
    InProgressSnoc(a, r.eof);
    ProgressSnoc(a, r.eof);
    if r.rows == [] {
      assert b + r.rows == b;
    } else {
      assert r.rows[0] in r.rows;
      Absorb(b, r.rows, Rows);
    }
  }

  /**
   Completion is detected at the last packet of a response and never earlier, whatever its
   rows look like, exactly when the result set has a column.
   */
  lemma CompletionIff(r: Response)
    requires r.WellFormedUpToDefinitions()
    ensures (forall p | p in r.Packets() :: HasPayload(p)) && (CompletesExactly(r.Packets()) <==> r.WellFormed())
  {
    ResponsePayloads(r);
    var ps := r.Packets();
    if !r.ResultSet? {
      assert InProgress([]) && ps[..0] == [];
      assert ProgressAfter(ps) == Next(ProgressAfter(ps[..0]), Classify(ps[0]));
    } else if r.definitions != [] {
      ResultSetStaysOpen(r);
      var qs := [r.count] + r.definitions + [r.eof] + r.rows;
      assert ps == qs + [r.last] && ps[..|ps| - 1] == qs;
      ProgressSnoc(qs, r.last);
    } else {
      NoColumnsCompletesEarly(r);
    }
  }

  lemma NoColumnsCompletesEarly(r: Response)
    requires r.ResultSet? && r.WellFormedUpToDefinitions() && r.definitions == []
    ensures forall p | p in r.Packets() :: HasPayload(p)
    ensures |r.Packets()| >= 3 && ProgressAfter(r.Packets()[..2]) == Completed && !CompletesExactly(r.Packets())
  {
    ResponsePayloads(r);
    var ps := r.Packets();
    StartOfResponse(r.count);
    ProgressSnoc([r.count], r.eof);
    assert ps[..2] == [r.count] + [r.eof];
    assert ps[..|ps| - 1][..2] == ps[..2];
  }

  /**
   Which packet ends a response that is still open after ps, by its bytes: an ERR anywhere; an OK if it is the
   first; an EOF unless a count and at least one definition, and nothing else, came before it.
   */
  predicate Ends(ps: seq<Packet>, p: Packet) {
    || IsErr(p)
    || (IsOk(p) && ps == [])
    || (IsEof(p) && !(|ps| >= 2 && forall q | q in ps :: IsColumnCountOrDefinition(q)))
  }

  /** For any packets whatever, well formed as a response or not. */
  lemma CompletesIff(ps: seq<Packet>, p: Packet)
    requires (forall q | q in ps :: HasPayload(q)) && InProgress(ps) && HasPayload(p)
    ensures ProgressAfter(ps + [p]) == Completed <==> Ends(ps, p)
  {
    hide InProgress, ProgressAfter, Classify, IsOk, IsErr, IsEof, IsColumnCountOrDefinition;
    ProgressSnoc(ps, p);
    ProgressMeans(ps);
    ClassifyIff(p);
    OneKind(p);
    Whole(ps);
  }

  lemma Whole(ps: seq<Packet>)
    requires (forall q | q in ps :: HasPayload(q)) && InProgress(ps)
    ensures ProgressAfter(ps) != Completed
  {
    assert ps[..|ps|] == ps;
  }

  lemma OneKind(p: Packet)
    requires HasPayload(p)
    ensures IsOk(p) ==> !IsErr(p) && !IsEof(p) && !IsColumnCountOrDefinition(p)
    ensures IsErr(p) ==> !IsEof(p) && !IsColumnCountOrDefinition(p)
    ensures IsEof(p) ==> !IsColumnCountOrDefinition(p)
    ensures IsOk(p) || IsErr(p) || IsEof(p) || IsColumnCountOrDefinition(p)
  {
  }

  /** What the progress of an open response says about the packets so far. */
  lemma {:induction false} ProgressMeans(ps: seq<Packet>)
    requires (forall q | q in ps :: HasPayload(q)) && InProgress(ps)
    ensures ProgressAfter(ps) == Waiting <==> ps == []
    ensures ProgressAfter(ps) == ColumnCount <==> |ps| == 1 && IsColumnCountOrDefinition(ps[0])
    ensures ProgressAfter(ps) == ColumnDefinitions <==> |ps| >= 2 && OnlyDefinitions(ps)
  {
    hide InProgress, ProgressAfter, Classify, IsOk, IsErr, IsEof, IsColumnCountOrDefinition, OnlyDefinitions;
    if ps == [] {
      StartsWaiting();
    } else {
      var front, p := ps[..|ps| - 1], ps[|ps| - 1];
      assert ps == front + [p];
      FrontInProgress(ps);
      ProgressMeans(front);
      ProgressSnoc(front, p);
      ClassifyIff(p);
      OneKind(p);
      Whole(ps);
      Whole(front);
      OnlyDefinitionsSnoc(front, p);
      if |front| == 1 {
        OnlyDefinitionsOne(front);
      }
    }
  }

  predicate OnlyDefinitions(ps: seq<Packet>) {
    forall q | q in ps :: IsColumnCountOrDefinition(q)
  }

  lemma OnlyDefinitionsSnoc(front: seq<Packet>, p: Packet)
    ensures OnlyDefinitions(front + [p]) <==> OnlyDefinitions(front) && IsColumnCountOrDefinition(p)
  {
    hide IsColumnCountOrDefinition;
    assert forall q | q in front :: q in front + [p];
    assert p in front + [p];
  }

  lemma OnlyDefinitionsOne(ps: seq<Packet>)
    requires |ps| == 1
    ensures OnlyDefinitions(ps) <==> IsColumnCountOrDefinition(ps[0])
  {
    hide IsColumnCountOrDefinition;
    assert ps[0] in ps;
  }

  lemma StartsWaiting()
    ensures ProgressAfter([]) == Waiting
  {
  }

  lemma FrontInProgress(ps: seq<Packet>)
    requires (forall q | q in ps :: HasPayload(q)) && InProgress(ps) && ps != []
    ensures InProgress(ps[..|ps| - 1])
  {
    var front := ps[..|ps| - 1];
    forall k | 0 <= k <= |front|
      ensures ProgressAfter(front[..k]) != Completed
    {
      assert front[..k] == ps[..k];
    }
  }

  // ----- the relay over values -----

  datatype Relay = Relay(progress: Progress, size: nat, buffered: seq<Packet>, out: seq<Packet>, toCache: bool)

  /** What the rest of the proxy supplies: the buffering limit, the key length, and the cache's free memory. */
  datatype Env = Env(limit: nat, keyLength: nat, freeMemory: nat)

  function Reset(out: seq<Packet>, toCache: bool): Relay {
    Relay(Waiting, 0, [], out, toCache)
  }

  /** One packet: the next state, and the value handed to the cache if any. */
  function Step(env: Env, st: Relay, p: Packet): (Relay, Option<seq<Byte>>)
    requires HasPayload(p)
  {
    var progress := Next(st.progress, Classify(p));
    var size := st.size + |p|;
    var fits := size < env.limit;
    var kept := st.(progress := progress, size := size,
                    buffered := if fits then st.buffered + [p] else [],
                    out := if fits then st.out else st.out + st.buffered + [p],
                    toCache := st.toCache && fits);
    if progress != Completed then (kept, None)
    else
      (kept.(progress := Waiting, buffered := if fits then [] else kept.buffered,
          out := if fits then kept.out + kept.buffered else kept.out),
       if kept.toCache && env.keyLength + size + CacheShard.ENTRY_OVERHEAD <= env.freeMemory then
           Some(Concat(kept.buffered)) else None)
  }

  /** All packets of one response, from the reset state. */
  function Run(env: Env, st: Relay, ps: seq<Packet>): (Relay, Option<seq<Byte>>)
    requires forall p | p in ps :: HasPayload(p)
  {
    if ps == [] then (st, None) else Step(env, Run(env, st, ps[..|ps| - 1]).0, ps[|ps| - 1])
  }

  /**
   While a response is open, client output followed by the buffer is the output before it
   followed by exactly the packets so far; the buffer is all of them or empty.
   */
  ghost predicate OpenState(limit: nat, out: seq<Packet>, toCache: bool, ps: seq<Packet>, st: Relay) {
    && (forall p | p in ps :: HasPayload(p)) && InProgress(ps)
    && st.progress == ProgressAfter(ps) && st.size == |Concat(ps)|
    && if st.size < limit then st.buffered == ps && st.out == out && st.toCache == toCache
       else st.buffered == [] && st.out == out + ps && (ps != [] ==> !st.toCache)
  }

  /** At completion everything has been relayed once, and what is cached is the whole response, byte for byte. */
  ghost predicate DoneState(env: Env, out: seq<Packet>, toCache: bool, ps: seq<Packet>, st: Relay,
                            stored: Option<seq<Byte>>) {
    && (forall p | p in ps :: HasPayload(p)) && CompletesExactly(ps)
    && st.progress == Waiting && st.size == |Concat(ps)|
    && st.out == out + ps && st.buffered == []
    && stored == ToStore(env, toCache, ps)
  }

  function ToStore(env: Env, toCache: bool, ps: seq<Packet>): Option<seq<Byte>> {
    var value := Concat(ps);
    var fits := |value| < env.limit && env.keyLength + |value| + CacheShard.ENTRY_OVERHEAD <= env.freeMemory;
    if toCache && fits then Some(value) else None
  }

  lemma StepStaysOpen(env: Env, out: seq<Packet>, toCache: bool, ps: seq<Packet>, st: Relay, p: Packet)
    requires OpenState(env.limit, out, toCache, ps, st) && HasPayload(p) && Next(st.progress, Classify(p)) != Completed
    ensures Step(env, st, p).1 == None && OpenState(env.limit, out, toCache, ps + [p], Step(env, st, p).0)
  {
    ProgressSnoc(ps, p);
    ConcatSnoc(ps, p);
    InProgressSnoc(ps, p);
    hide InProgress, ProgressAfter, Concat, Classify;
    Regroup(out, ps, p);
  }

  lemma CompletesSnoc(ps: seq<Packet>, p: Packet)
    requires (forall q | q in ps :: HasPayload(q)) && HasPayload(p) && InProgress(ps)
    requires Next(ProgressAfter(ps), Classify(p)) == Completed
    ensures (forall q | q in ps + [p] :: HasPayload(q)) && CompletesExactly(ps + [p])
  {
    ProgressSnoc(ps, p);
    assert (ps + [p])[..|ps|] == ps;
  }

  lemma StepCompletes(env: Env, out: seq<Packet>, toCache: bool, ps: seq<Packet>, st: Relay, p: Packet)
    requires OpenState(env.limit, out, toCache, ps, st) && HasPayload(p) && Next(st.progress, Classify(p)) == Completed
    ensures DoneState(env, out, toCache, ps + [p], Step(env, st, p).0, Step(env, st, p).1)
  {
    ProgressSnoc(ps, p);
    ConcatSnoc(ps, p);
    CompletesSnoc(ps, p);
    hide InProgress, ProgressAfter, Concat, Classify, CompletesExactly;
    Regroup(out, ps, p);
  }

  lemma Regroup(out: seq<Packet>, ps: seq<Packet>, p: Packet)
    ensures out + ps + [p] == out + (ps + [p]) && out + ps + [] + [p] == out + (ps + [p])
  {
  }

  lemma OpenParts(limit: nat, out: seq<Packet>, toCache: bool, ps: seq<Packet>, st: Relay)
    requires OpenState(limit, out, toCache, ps, st)
    ensures (forall p | p in ps :: HasPayload(p)) && st.progress == ProgressAfter(ps)
    ensures st.size < limit ==> st.size == |Concat(st.buffered)|
  {
  }

  lemma DoneParts(env: Env, out: seq<Packet>, toCache: bool, ps: seq<Packet>, st: Relay, stored: Option<seq<Byte>>)
    requires DoneState(env, out, toCache, ps, st, stored)
    ensures st.buffered == []
  {
  }

  lemma ResetOpen(limit: nat, out: seq<Packet>, toCache: bool)
    ensures OpenState(limit, out, toCache, [], Reset(out, toCache))
  {
    assert InProgress([]);
  }

  /** Relay transparency over every prefix of every response. */
  lemma {:induction false} OpenIsTransparent(env: Env, out: seq<Packet>, toCache: bool, ps: seq<Packet>)
    requires (forall p | p in ps :: HasPayload(p)) && InProgress(ps)
    ensures OpenState(env.limit, out, toCache, ps, Run(env, Reset(out, toCache), ps).0)
    ensures Run(env, Reset(out, toCache), ps).1 == None
    ensures var st := Run(env, Reset(out, toCache), ps).0; st.out + st.buffered == out + ps
  {
    if ps == [] {
      ResetOpen(env.limit, out, toCache);
    } else {
      var before, p := ps[..|ps| - 1], ps[|ps| - 1];
      assert ps == before + [p];
      assert InProgress(before) by {
        forall k | 0 <= k <= |before|
          ensures ProgressAfter(before[..k]) != Completed
        {
          assert before[..k] == ps[..k];
        }
      }
      assert ps[..|ps|] == ps;
      OpenIsTransparent(env, out, toCache, before);
      StepStaysOpen(env, out, toCache, before, Run(env, Reset(out, toCache), before).0, p);
    }
  }

  lemma CompletedIsTransparent(env: Env, out: seq<Packet>, toCache: bool, ps: seq<Packet>)
    requires (forall p | p in ps :: HasPayload(p)) && CompletesExactly(ps)
    ensures var (st, stored) := Run(env, Reset(out, toCache), ps);
            DoneState(env, out, toCache, ps, st, stored)
  {
    var before, p := ps[..|ps| - 1], ps[|ps| - 1];
    assert ps == before + [p];
    OpenIsTransparent(env, out, toCache, before);
    StepCompletes(env, out, toCache, before, Run(env, Reset(out, toCache), before).0, p);
  }

  // ----- active_transaction -----

  /** The memory behind each packet, as far as status_flags may read into it. */
  predicate Behind(mems: seq<seq<Byte>>, n: nat) {
    |mems| == n && forall k | 0 <= k < n :: |mems[k]| >= SLACK
  }

  predicate LooksFinal(p: Packet)
    requires HasPayload(p)
  {
    IsOk(p) || IsEof(p)
  }

  /** The flag after a list of packets: each packet that looks like OK or EOF overwrites it. */
  function TransactionAfter(flag: bool, ps: seq<Packet>, mems: seq<seq<Byte>>): bool
    requires (forall p | p in ps :: HasPayload(p)) && Behind(mems, |ps|)
  {
    if ps == [] then flag
    else
      var n := |ps| - 1;
      if LooksFinal(ps[n]) then IsTransactionActive(ps[n], mems[n]) else TransactionAfter(flag, ps[..n], mems[..n])
  }

  lemma TransactionSnoc(flag: bool, ps: seq<Packet>, mems: seq<seq<Byte>>, p: Packet, mem: seq<Byte>)
    requires (forall q | q in ps :: HasPayload(q)) && HasPayload(p) && Behind(mems, |ps|) && |mem| >= SLACK
    ensures Behind(mems + [mem], |ps| + 1)
    ensures TransactionAfter(flag, ps + [p], mems + [mem]) ==
              if LooksFinal(p) then IsTransactionActive(p, mem) else TransactionAfter(flag, ps, mems)
  {
    assert (ps + [p])[..|ps|] == ps && (mems + [mem])[..|mems|] == mems;
  }

  lemma TransactionNone(flag: bool, ps: seq<Packet>, mems: seq<seq<Byte>>)
    requires Behind(mems, |ps|)
    ensures Behind(mems[..0], 0) && TransactionAfter(flag, ps[..0], mems[..0]) == flag
  {
  }

  /** After a response closed by EOF the flag is the one that EOF carries. */
  lemma ClosingEofDecides(flag: bool, r: Response, mems: seq<seq<Byte>>)
    requires r.ResultSet? && r.WellFormed() && IsEof(r.last) && |r.last| == HEADER_SIZE + 5 &&
             Behind(mems, |r.Packets()|)
    ensures forall p | p in r.Packets() :: HasPayload(p)
    ensures TransactionAfter(flag, r.Packets(), mems) <==> r.last[HEADER_SIZE + 3] % 2 == 1
  {
    ResponsePayloads(r);
    EofStatusIsItsOwn(r.last, mems[|mems| - 1]);
  }

  /** The last of the rows that looks like an OK packet. */
  function LastLookalike(rows: seq<Packet>): (k: Option<nat>)
    requires forall p | p in rows :: HasPayload(p)
    ensures k.Some? ==> k.value < |rows| && IsOk(rows[k.value])
  {
    if rows == [] then None
    else if IsOk(rows[|rows| - 1]) then Some(|rows| - 1)
    else LastLookalike(rows[..|rows| - 1])
  }

  lemma {:induction false} NoLookalikeIff(rows: seq<Packet>)
    requires forall p | p in rows :: HasPayload(p)
    ensures LastLookalike(rows) == None <==> forall p | p in rows :: !IsOk(p)
  {
    if rows != [] {
      var n := |rows| - 1;
      assert rows == rows[..n] + [rows[n]];
      NoLookalikeIff(rows[..n]);
    }
  }

  /** Rows overwrite the flag only where they look like OK packets. */
  lemma {:induction false} RowsDecide(flag: bool, front: seq<Packet>, rows: seq<Packet>, mems: seq<seq<Byte>>)
    requires (forall p | p in front :: HasPayload(p)) && (forall p | p in rows :: IsRow(p)) &&
             Behind(mems, |front| + |rows|)
    ensures forall p | p in front + rows :: HasPayload(p)
    ensures var k := LastLookalike(rows);
            TransactionAfter(flag, front + rows, mems) ==
              if k.Some? then IsTransactionActive(rows[k.value], mems[|front| + k.value]) else
                  TransactionAfter(flag, front, mems[..|front|])
    decreases |rows|
  {
    hide TransactionAfter, IsTransactionActive, Classify;
    if rows == [] {
      assert front + rows == front && mems[..|front|] == mems;
    } else {
      var n := |rows| - 1;
      assert rows[n] in rows;
      RowsDecide(flag, front, rows[..n], mems[..|front| + n]);
      assert front + rows == (front + rows[..n]) + [rows[n]];
      assert mems == mems[..|front| + n] + [mems[|front| + n]];
      assert mems[..|front| + n][..|front|] == mems[..|front|];
      TransactionSnoc(flag, front + rows[..n], mems[..|front| + n], rows[n], mems[|front| + n]);
    }
  }

  /**
   After a response closed by ERR the flag is that of the last row that looks like an OK packet, and that
   of the EOF behind the definitions only if there is none.
   */
  lemma ErrKeepsLastLookalike(flag: bool, r: Response, mems: seq<seq<Byte>>)
    requires r.ResultSet? && r.WellFormed() && IsErr(r.last) && Behind(mems, |r.Packets()|)
    ensures forall p | p in r.Packets() :: HasPayload(p)
    ensures forall p | p in r.rows :: HasPayload(p)
    ensures var c, k := |r.definitions|, LastLookalike(r.rows);
            TransactionAfter(flag, r.Packets(), mems) ==
              if k.Some? then IsTransactionActive(r.rows[k.value], mems[c + 2 + k.value]) else
                  IsTransactionActive(r.eof, mems[c + 1])
  {
    hide TransactionAfter, IsTransactionActive, LastLookalike, Classify, Response.WellFormed;
    Parts(r);
    var front := [r.count] + r.definitions + [r.eof];
    var n := |front| + |r.rows|;
    assert mems == mems[..n] + [mems[n]];
    TransactionSnoc(flag, front + r.rows, mems[..n], r.last, mems[n]);
    RowsDecide(flag, front, r.rows, mems[..n]);
    EofDecides(flag, [r.count] + r.definitions, r.eof, mems[..n][..|front|]);
  }

  lemma Parts(r: Response)
    requires r.ResultSet? && r.WellFormed() && IsErr(r.last)
    ensures (forall p | p in r.Packets() :: HasPayload(p)) && (forall p | p in r.rows :: IsRow(p))
    ensures forall p | p in [r.count] + r.definitions + [r.eof] :: HasPayload(p)
    ensures r.Packets() == ([r.count] + r.definitions + [r.eof] + r.rows) + [r.last]
    ensures IsEof(r.eof) && HasPayload(r.last) && !LooksFinal(r.last)
  {
    ResponsePayloads(r);
    assert forall p | p in [r.count] + r.definitions + [r.eof] :: p in r.Packets();
  }

  lemma EofDecides(flag: bool, head: seq<Packet>, eof: Packet, mems: seq<seq<Byte>>)
    requires (forall p | p in head + [eof] :: HasPayload(p)) && IsEof(eof) && Behind(mems, |head| + 1)
    ensures TransactionAfter(flag, head + [eof], mems) == IsTransactionActive(eof, mems[|head|])
  {
    assert forall p | p in head :: p in head + [eof];
    assert mems == mems[..|head|] + [mems[|head|]];
    TransactionSnoc(flag, head, mems[..|head|], eof, mems[|head|]);
  }

  /**
   So the flag is that of the EOF exactly when no row looks like an OK packet, or the last that does reads the same.
   */
  lemma ErrKeepsEofFlagIff(flag: bool, r: Response, mems: seq<seq<Byte>>)
    requires r.ResultSet? && r.WellFormed() && IsErr(r.last) && Behind(mems, |r.Packets()|)
    ensures (forall p | p in r.Packets() :: HasPayload(p)) && (forall p | p in r.rows :: HasPayload(p))
    ensures var c, k := |r.definitions|, LastLookalike(r.rows);
            TransactionAfter(flag, r.Packets(), mems) == IsTransactionActive(r.eof, mems[c + 1]) <==>
              || (forall p | p in r.rows :: p[HEADER_SIZE] != 0)
              || (k.Some? && IsTransactionActive(r.rows[k.value], mems[c + 2 + k.value]) ==
                IsTransactionActive(r.eof, mems[c + 1]))
  {
    hide TransactionAfter, IsTransactionActive, LastLookalike;
    ErrKeepsLastLookalike(flag, r, mems);
    NoLookalikeIff(r.rows);
  }

  /**
   Four columns, one row of three empty texts and "A", then ERR: the EOF says no transaction, the row is read as one.
   */
  function FlippingResponse(): Response {
    var definition := [1, 0, 0, 2, 3];
    ResultSet([1, 0, 0, 1, 4], [definition, definition, definition, definition], [5, 0, 0, 6, 0xfe, 0, 0, 2, 0],
              [[5, 0, 0, 7, 0, 0, 0, 1, 0x41]], [1, 0, 0, 8, 0xff])
  }

  lemma RowFlipsTheFlag(mems: seq<seq<Byte>>)
    requires Behind(mems, |FlippingResponse().Packets()|)
    ensures var r := FlippingResponse();
            && r.WellFormed() && IsErr(r.last) && (forall p | p in r.Packets() :: HasPayload(p))
            && !IsTransactionActive(r.eof, mems[5]) && TransactionAfter(false, r.Packets(), mems)
  {
    var r := FlippingResponse();
    var row := r.rows[0];
    assert r.WellFormed() && IsErr(r.last);
    ErrKeepsLastLookalike(false, r, mems);
    assert LastLookalike(r.rows) == Some(0);
    EofStatusIsItsOwn(r.eof, mems[5]);
    var mem := row + mems[6];
    assert mem[5] == 0 && mem[6] == 0 && mem[7] == 1 && mem[8] == 0x41;
    assert OkStatusOffset(row, mems[6]) == 7;
  }

  class Session {
    const limit: nat
    var progress: Progress
    var size: nat
    var resultset: seq<Packet>
    var clientOut: seq<Packet>
    var queryToCache: bool
    var activeTransaction: bool
    // the response being relayed: the client output and cache wish it started with, and its packets so far
    ghost var open: bool
    ghost var out0: seq<Packet>
    ghost var toCache0: bool
    ghost var seen: seq<Packet>

    ghost function State(): Relay
      reads this
    {
      Relay(progress, size, resultset, clientOut, queryToCache)
    }

    ghost predicate Valid()
      reads this
    {
      && (!open ==> resultset == [])
      && (open ==> OpenState(limit, out0, toCache0, seen, State()))
    }

    constructor (limit: nat)
      ensures Valid() && !open && this.limit == limit && clientOut == []
    {
      this.limit := limit;
      progress, size, resultset, clientOut := Waiting, 0, [], [];
      queryToCache, activeTransaction := false, false;
      open, out0, toCache0, seen := false, [], false, [];
    }

    /** client_COM_QUERY on a miss: one command is outstanding at a time. */
    method StartQuery(toCache: bool)
      requires Valid() && !open
      modifies this
      ensures Valid() && open && seen == [] && out0 == clientOut == old(clientOut) && toCache0 == toCache
      ensures activeTransaction == old(activeTransaction)
    {
      progress := Waiting;
      size := 0;
      queryToCache := toCache;
      open, out0, toCache0, seen := true, clientOut, toCache, [];
      ResetOpen(limit, clientOut, toCache);
    }

    /** The part of server_COM_QUERY that moves resultset_progress. */
    method Advance(r: Kind)
      modifies `progress
      ensures progress == Next(old(progress), r)
    {
      if r == OkPacket {
        progress := if progress == Waiting then Completed else Rows;
      }
      if r == ErrPacket {
        progress := Completed;
      }
      if r == EofPacket {
        progress := if progress == ColumnDefinitions then Eof1 else Completed;
      }
      if r == UnknownPacket {
        match progress {
          case Waiting => progress := ColumnCount;
          case ColumnCount | ColumnDefinitions => progress := ColumnDefinitions;
          case Eof1 | Rows => progress := Rows;
          case Completed =>
        }
      }
    }

    /** Moves the whole buffer to the client, oldest first. */
    method Flush()
      modifies `resultset, `clientOut
      ensures resultset == [] && clientOut == old(clientOut + resultset)
    {
      while |resultset| > 0
        invariant clientOut + resultset == old(clientOut + resultset)
        decreases |resultset|
      {
        var p := resultset[0];
        assert resultset == [p] + resultset[1..];
        resultset := resultset[1..];
        clientOut := clientOut + [p];
      }
    }

    /** The value for the cache: every buffered packet copied behind the previous one. */
    method BuildValue() returns (vp: array<Byte>)
      requires size == |Concat(resultset)|
      ensures fresh(vp) && vp[..] == Concat(resultset)
    {
      vp := new Byte[size];
      var copied, i := 0, 0;
      assert resultset[..0] == [];
      while i < |resultset|
        invariant 0 <= i <= |resultset| && copied == |Concat(resultset[..i])| <= size
        invariant vp[..copied] == Concat(resultset[..i])
      {
        var p := resultset[i];
        assert resultset[..i + 1] == resultset[..i] + [p];
        ConcatSnoc(resultset[..i], p);
        ConcatAppend(resultset[..i + 1], resultset[i + 1..]);
        assert resultset == resultset[..i + 1] + resultset[i + 1..];
        ghost var done := vp[..copied];
        forall k | 0 <= k < |p| {
          vp[copied + k] := p[k];
        }
        assert vp[..copied + |p|] == done + p;
        copied := copied + |p|;
        i := i + 1;
      }
      assert resultset[..i] == resultset;
    }

    /** The copy loop and the drop loop that end a buffered response. */
    method DeliverBuffer()
      modifies `resultset, `clientOut
      ensures resultset == [] && clientOut == old(clientOut + resultset)
    {
      var i := 0;
      while i < |resultset|
        invariant 0 <= i <= |resultset| && resultset == old(resultset)
        invariant clientOut == old(clientOut) + resultset[..i]
      {
        clientOut := clientOut + [resultset[i]];
        i := i + 1;
      }
      assert resultset[..i] == resultset;
      while |resultset| > 0
        invariant clientOut == old(clientOut + resultset)
        decreases |resultset|
      {
        resultset := resultset[..|resultset| - 1];
      }
    }

    /** server_COM_QUERY */
    method ServerComQuery(p: Packet, keyLength: nat, freeMemory: nat) returns (stored: Option<seq<Byte>>)
      requires HasPayload(p)
      requires size + |p| < limit ==> size == |Concat(resultset)|
      modifies `progress, `size, `resultset, `clientOut, `queryToCache
      ensures (State(), stored) == Step(Env(limit, keyLength, freeMemory), old(State()), p)
    {
      stored := None;
      Advance(Classify(p));
      size := size + |p|;
      if size < limit {
        ConcatSnoc(resultset, p);
        resultset := resultset + [p];
      } else {
        queryToCache := false;
        Flush();
        clientOut := clientOut + [p];
      }
      if progress == Completed {
        progress := Waiting;
        if queryToCache {
          if keyLength + size + CacheShard.ENTRY_OVERHEAD > freeMemory {
            // counted as cntSetERR: not cached because the cache is full
          } else {
            var vp := BuildValue();
            stored := Some(vp[..]);
          }
        }
        if size < limit {
          DeliverBuffer();
        }
      }
    }

    /** One iteration of process_server_pkts, for a packet of the open response. */
    method RelayPacket(p: Packet, beyond: seq<Byte>, keyLength: nat, freeMemory: nat)
      returns (stored: Option<seq<Byte>>)
      requires Valid() && open && HasPayload(p) && |beyond| >= SLACK
      modifies this
      ensures Valid() && out0 == old(out0) && toCache0 == old(toCache0) && seen == old(seen) + [p]
      ensures forall q | q in seen :: HasPayload(q)
      ensures activeTransaction == if LooksFinal(p) then IsTransactionActive(p, beyond) else old(activeTransaction)
      ensures open <==> ProgressAfter(seen) != Completed
      ensures open ==> stored == None
      ensures !open ==> DoneState(Env(limit, keyLength, freeMemory), out0, toCache0, seen, State(), stored)
    {
      hide Step, Concat, LooksFinal, IsTransactionActive, ProgressAfter, InProgress, DoneState, OpenState;
      NoteStatus(p, beyond);
      stored := Forward(p, keyLength, freeMemory);
    }

    /** The transaction flag follows every packet that looks like OK or EOF. */
    method NoteStatus(p: Packet, beyond: seq<Byte>)
      requires Valid() && HasPayload(p) && |beyond| >= SLACK
      modifies `activeTransaction
      ensures Valid()
      ensures activeTransaction == if LooksFinal(p) then IsTransactionActive(p, beyond) else old(activeTransaction)
    {
      hide IsTransactionActive, OpenState, DoneState;
      ClassifyIff(p);
      var r := Classify(p);
      if r == OkPacket || r == EofPacket {
        activeTransaction := IsTransactionActive(p, beyond);
      }
    }

    method Forward(p: Packet, keyLength: nat, freeMemory: nat) returns (stored: Option<seq<Byte>>)
      requires Valid() && open && HasPayload(p)
      modifies this
      ensures Valid() && out0 == old(out0) && toCache0 == old(toCache0) && seen == old(seen) + [p]
      ensures activeTransaction == old(activeTransaction) && forall q | q in seen :: HasPayload(q)
      ensures open <==> ProgressAfter(seen) != Completed
      ensures open ==> stored == None
      ensures !open ==> DoneState(Env(limit, keyLength, freeMemory), out0, toCache0, seen, State(), stored)
    {
      hide Step, Classify, ProgressAfter, InProgress, Concat, OpenState, DoneState, Next;
      var r := Classify(p);
      OpenParts(limit, out0, toCache0, seen, State());
      ghost var env, st := Env(limit, keyLength, freeMemory), State();
      ProgressSnoc(seen, p);
      if Next(progress, r) != Completed {
        StepStaysOpen(env, out0, toCache0, seen, st, p);
      } else {
        StepCompletes(env, out0, toCache0, seen, st, p);
        DoneParts(env, out0, toCache0, seen + [p], Step(env, st, p).0, Step(env, st, p).1);
      }
      stored := ServerComQuery(p, keyLength, freeMemory);
      open := Next(st.progress, r) != Completed;
      seen := seen + [p];
    }
  }
}
