/**
 The two directions of a data stream. Input: bytes arrive in a fixed, non-circular
 queue and are cut into packets. Output: packets are flattened into such a queue and
 sent in arbitrary pieces. recv() and send() appear only through how many bytes they move.
 */
module PacketStream {
  import opened Wire
  import opened Framing

  /** The queue macros: bytes live in buffer[tail..head]; an emptied queue rewinds to 0. */
  class Queue {
    const buffer: array<Byte>
    var head: nat
    var tail: nat

    ghost predicate Valid()
      reads this
    {
      tail <= head <= buffer.Length && (tail == head ==> head == 0)
    }

    function Data(): nat
      requires tail <= head
      reads this
    {
      head - tail
    }

    function Available(): nat
      requires head <= buffer.Length
      reads this
    {
      buffer.Length - head
    }

    function Contents(): seq<Byte>
      requires Valid()
      reads this, buffer
    {
      buffer[tail..head]
    }

    constructor (size: nat)
      ensures Valid() && fresh(buffer) && buffer.Length == size && Contents() == []
    {
      buffer := new Byte[size];
      head, tail := 0, 0;
    }

    /** queue_zero: moves the pending bytes to the front (the copy is overlap-safe). */
    method Zero()
      requires Valid()
      modifies this, buffer
      ensures Valid() && tail == 0 && Contents() == old(Contents())
    {
      forall i | 0 <= i < head - tail {
        buffer[i] := buffer[tail + i];
      }
      head := head - tail;
      tail := 0;
    }

    /** queue_r */
    method Advance(s: nat)
      requires Valid() && s <= Data()
      modifies this
      ensures Valid() && Contents() == old(Contents())[s..]
    {
      tail := tail + s;
      if tail == head {
        head := 0;
        tail := 0;
      }
    }

    /** A copy to queue_w_ptr followed by queue_w. */
    method Append(bytes: seq<Byte>)
      requires Valid() && |bytes| <= Available()
      modifies this, buffer
      ensures Valid() && Contents() == old(Contents()) + bytes
      ensures tail == old(tail) && head == old(head) + |bytes|
    {
      forall i | 0 <= i < |bytes| {
        buffer[head + i] := bytes[i];
      }
      head := head + |bytes|;
    }
  }

  class InputStream {
    const queue: Queue
    var pkts: seq<seq<Byte>>
    // The packet being assembled: length == 0 until its header has been read.
    var length: nat
    var data: array<Byte>
    var partial: nat

    ghost predicate Valid()
      reads this, queue, data
    {
      && queue.Valid()
      && data != queue.buffer
      && (length > 0 ==>
            HEADER_SIZE <= partial < length == data.Length &&
                length == HEADER_SIZE + PayloadLength(data[..HEADER_SIZE]))
    }

    ghost function Repr(): set<object>
      reads this
    {
      {this, queue, queue.buffer, data}
    }

    function Assembled(): seq<Byte>
      requires Valid()
      reads this, queue, data
    {
      if length == 0 then [] else data[..partial]
    }

    /** Bytes received that are not yet part of a delivered packet. */
    function Unparsed(): seq<Byte>
      requires Valid()
      reads this, queue, queue.buffer, data
    {
      Assembled() + queue.Contents()
    }

    /** Nothing more can be cut: less than a header is queued, or the open packet took every byte. */
    ghost predicate Drained()
      requires Valid()
      reads this, queue, queue.buffer, data
    {
      if length == 0 then queue.Data() < HEADER_SIZE && queue.tail == 0 else queue.Data() == 0
    }

    constructor (size: nat)
      ensures Valid() && fresh(Repr()) && queue.buffer.Length == size
      ensures pkts == [] && Unparsed() == [] && Drained()
    {
      queue := new Queue(size);
      pkts := [];
      length, partial := 0, 0;
      data := new Byte[0];
      new;
      assert data != queue.buffer;
    }

    /** One call of buffer2array: it loses no byte, and a packet it delivers is well formed. */
    method Buffer2Array() returns (ret: nat)
      requires Valid()
      modifies this, queue, queue.buffer, data
      ensures Valid() && (data == old(data) || fresh(data))
      ensures ret == old(queue.Data()) - queue.Data()
      ensures ret == 0 ==> Drained()
      ensures
        || (pkts == old(pkts) && Unparsed() == old(Unparsed()))
        || (Delivered(old(pkts), pkts) && pkts[|old(pkts)|] + Unparsed() == old(Unparsed()))
    {
      ret := 0;
      if queue.Data() == 0 {
        return;
      }
      if length == 0 && queue.Data() < HEADER_SIZE {
        queue.Zero();
      }
      if length == 0 && queue.Data() >= HEADER_SIZE {
        ReadHeader();
        ret := HEADER_SIZE;
      }
      if length > 0 && queue.Data() > 0 {
        var b := CopyPayload();
        ret := ret + b;
      }
      if length > 0 && length == partial {
        Deliver();
      }
    }

    /** One more packet, and a well-formed one. */
    static ghost predicate Delivered(before: seq<seq<Byte>>, after: seq<seq<Byte>>) {
      |after| == |before| + 1 && after == before + [after[|before|]] && WellFormed(after[|before|])
    }

    method Deliver()
      requires Open() && partial == length
      modifies this
      ensures Valid() && data == old(data) && length == 0
      ensures Delivered(old(pkts), pkts) && pkts[|old(pkts)|] + Unparsed() == old(Complete())
    {
      ghost var p := data[..];
      assert p[..HEADER_SIZE] == data[..HEADER_SIZE];
      assert data[..partial] == p;
      pkts := pkts + [data[..]];
      length := 0;
      assert Unparsed() == queue.Contents();
    }

    /** The open packet may be momentarily complete inside Buffer2Array. */
    ghost predicate Open()
      reads this, queue, data
    {
      && queue.Valid()
      && data != queue.buffer
      && length > 0
      && HEADER_SIZE <= partial <= length == data.Length && length == HEADER_SIZE + PayloadLength(data[..HEADER_SIZE])
    }

    ghost function Complete(): seq<Byte>
      requires Open()
      reads this, queue, queue.buffer, data
    {
      data[..partial] + queue.Contents()
    }

    method ReadHeader()
      requires Valid() && length == 0 && queue.Data() >= HEADER_SIZE
      modifies this, queue
      ensures Open() && fresh(data) && Complete() == old(Unparsed()) && pkts == old(pkts) && partial == HEADER_SIZE
      ensures queue.Data() == old(queue.Data()) - HEADER_SIZE
    {
      var hdr := queue.Contents()[..HEADER_SIZE];
      queue.Advance(HEADER_SIZE);
      length := HEADER_SIZE + PayloadLength(hdr);
      data := new Byte[length];
      forall i | 0 <= i < HEADER_SIZE {
        data[i] := hdr[i];
      }
      partial := HEADER_SIZE;
      assert data[..HEADER_SIZE] == hdr;
      assert old(Unparsed()) == hdr + queue.Contents();
    }

    method CopyPayload() returns (b: nat)
      requires Open() && queue.Data() > 0
      modifies this`partial, queue, data
      ensures Open() && Complete() == old(Complete()) && queue.Data() == old(queue.Data()) - b
      ensures partial < length ==> queue.Data() == 0
      ensures old(partial) < length ==> b > 0
    {
      b := if queue.Data() > length - partial then length - partial else queue.Data();
      ghost var was, queued := data[..partial], queue.Contents();
      var bytes := queue.Contents()[..b];
      forall i | 0 <= i < b {
        data[partial + i] := bytes[i];
      }
      queue.Advance(b);
      partial := partial + b;
      assert data[..partial] == was + bytes;
      assert data[..HEADER_SIZE] == was[..HEADER_SIZE];
      SplitAt(queued, b);
      Assoc(was, bytes, queue.Contents());
    }

    /** buffer2array_2's loop: everything that can be cut is cut, exactly as the headers say. */
    method Drain()
      requires Valid()
      modifies this, queue, queue.buffer, data
      ensures Valid() && Drained() && (data == old(data) || fresh(data))
      ensures pkts == old(pkts) + Parse(old(Unparsed())).0
      ensures Unparsed() == Parse(old(Unparsed())).1
    {
      hide Parse, WellFormed, PayloadLength;
      ghost var start := Unparsed();
      ghost var done: seq<seq<Byte>> := [];
      var ret := 1;
      while ret != 0
        invariant Valid() && (data == old(data) || fresh(data))
        invariant pkts == old(pkts) + done
        invariant forall p | p in done :: WellFormed(p)
        invariant Concat(done) + Unparsed() == start
        invariant ret == 0 ==> Drained()
        decreases queue.Data() + ret
      {
        ghost var before, left := pkts, Unparsed();
        ret := Buffer2Array();
        if Delivered(before, pkts) {
          ghost var p := pkts[|before|];
          CutOne(done, p, Unparsed(), start);
          done := done + [p];
        }
      }
      DrainedIsIncomplete();
      ParseUnique(start, done, Unparsed());
    }

    lemma DrainedIsIncomplete()
      requires Valid() && Drained()
      ensures Incomplete(Unparsed())
    {
      if length > 0 {
        assert Unparsed() == data[..partial];
        assert data[..partial][..HEADER_SIZE] == data[..HEADER_SIZE];
      }
    }

    /** read_from_net: recv() put a chunk of at most the free space at the head of the queue. */
    method ReadFromNet(chunk: seq<Byte>)
      requires Valid() && |chunk| <= queue.Available()
      modifies queue, queue.buffer
      ensures Valid() && Unparsed() == old(Unparsed()) + chunk
    {
      queue.Append(chunk);
    }

    /** After draining, a queue of at least one header always has room: reading never stalls. */
    lemma RoomAfterDrain()
      requires Valid() && Drained() && queue.buffer.Length >= HEADER_SIZE
      ensures queue.Available() > 0
    {
    }

    /** Since the packet list was `base`, exactly the bytes `seen` have been received. */
    ghost predicate HasParsed(base: seq<seq<Byte>>, seen: seq<Byte>)
      requires Valid()
      reads this, queue, queue.buffer, data
    {
      Drained() && pkts == base + Parse(seen).0 && Unparsed() == Parse(seen).1
    }

    /** read_from_net followed by buffer2array_2. */
    method Receive(chunk: seq<Byte>, ghost base: seq<seq<Byte>>, ghost seen: seq<Byte>)
      requires Valid() && |chunk| <= queue.Available() && HasParsed(base, seen)
      modifies this, queue, queue.buffer, data
      ensures Valid() && HasParsed(base, seen + chunk) && (data == old(data) || fresh(data))
    {
      hide Parse, Incomplete, WellFormed;
      ParseExtend(seen, chunk);
      ReadFromNet(chunk);
      Drain();
      assert pkts == base + Parse(seen + chunk).0;
    }

    /** How much one recv() returns: any number of bytes that are there and fit, at least one to progress. */
    method PickPiece(net: seq<Byte>, progress: bool, ghost base: seq<seq<Byte>>, ghost seen: seq<Byte>)
      returns (n: nat)
      requires Valid() && HasParsed(base, seen) && queue.buffer.Length >= HEADER_SIZE
      ensures n <= |net| && n <= queue.Available() && (progress && net != [] ==> n > 0)
    {
      hide Parse, PayloadLength;
      RoomAfterDrain();
      n := PickUpTo(if progress && net != [] then 1 else 0,
          if queue.Available() < |net| then queue.Available() else |net|);
    }

    /** One recv() of any size (at least one byte when told to progress) and the cutting that follows. */
    method ReceiveSome(net: seq<Byte>, progress: bool, ghost base: seq<seq<Byte>>, ghost seen: seq<Byte>)
      returns (rest: seq<Byte>, ghost seen': seq<Byte>)
      requires Valid() && HasParsed(base, seen) && queue.buffer.Length >= HEADER_SIZE
      modifies this, queue, queue.buffer, data
      ensures Valid() && HasParsed(base, seen') && (data == old(data) || fresh(data))
      ensures seen' + rest == seen + net
      ensures |rest| <= |net| && (progress && net != [] ==> |rest| < |net|)
    {
      hide Parse, PayloadLength, HasParsed;
      var n := PickPiece(net, progress, base, seen);
      SplitAt(net, n);
      Assoc(seen, net[..n], net[n..]);
      Receive(net[..n], base, seen);
      rest, seen' := net[n..], seen + net[..n];
    }

    lemma HasParsedNothingMore()
      requires Valid() && Drained()
      ensures HasParsed(pkts, Unparsed())
    {
      DrainedIsIncomplete();
      assert Concat([]) + Unparsed() == Unparsed();
      ParseUnique(Unparsed(), [], Unparsed());
    }

    /** Whatever pieces recv() returns, the packets are those of the whole stream. */
    method ReceiveAll(net: seq<Byte>)
      requires Valid() && Drained() && queue.buffer.Length >= HEADER_SIZE
      modifies this, queue, queue.buffer, data
      ensures Valid() && Drained() && (data == old(data) || fresh(data))
      ensures pkts == old(pkts) + Parse(old(Unparsed()) + net).0
      ensures Unparsed() == Parse(old(Unparsed()) + net).1
    {
      hide Parse, Incomplete, PayloadLength;
      ghost var seen := Unparsed();
      HasParsedNothingMore();
      var rest := net;
      while rest != []
        invariant Valid() && HasParsed(old(pkts), seen) && (data == old(data) || fresh(data))
        invariant seen + rest == old(Unparsed()) + net
        decreases |rest|
      {
        rest, seen := ReceiveSome(rest, true, old(pkts), seen);
      }
      assert seen == old(Unparsed()) + net;
    }
  }

  /** Any number in a range: what a system call happens to transfer. */
  method PickUpTo(lo: nat, hi: nat) returns (n: nat)
    requires lo <= hi
    ensures lo <= n <= hi
  {
    n :| lo <= n <= hi;
  }

  class OutputStream {
    const queue: Queue
    var pkts: seq<seq<Byte>>
    // The packet being flattened; partial is how much of it is already in the queue.
    var mypkt: Option<seq<Byte>>
    var partial: nat
    var pktsSent: nat

    ghost predicate Valid()
      reads this, queue
    {
      queue.Valid() && (partial > 0 ==> mypkt.Some? && partial < |mypkt.value|)
    }

    ghost function Repr(): set<object>
      reads this
    {
      {this, queue, queue.buffer}
    }

    function RestOfCurrent(): seq<Byte>
      requires partial > 0 ==> mypkt.Some? && partial < |mypkt.value|
      reads this
    {
      if partial > 0 then mypkt.value[partial..] else []
    }

    /** Every byte accepted for sending and not sent yet, in wire order. */
    function Outstanding(): seq<Byte>
      requires Valid()
      reads this, queue, queue.buffer
    {
      queue.Contents() + RestOfCurrent() + Concat(pkts)
    }

    /** Packets finished, in hand and waiting. */
    function Packets(): nat
      reads this
    {
      pktsSent + (if partial > 0 then 1 else 0) + |pkts|
    }

    constructor (size: nat)
      ensures Valid() && fresh(Repr()) && queue.buffer.Length == size
      ensures pkts == [] && Outstanding() == [] && pktsSent == 0
    {
      queue := new Queue(size);
      pkts := [];
      mypkt := None;
      partial, pktsSent := 0, 0;
    }

    /** MY_SESS_ADD_PKT_OUT_CLIENT and its server twin. */
    method AddPacket(p: seq<Byte>)
      requires Valid()
      modifies this`pkts
      ensures Valid() && pkts == old(pkts) + [p] && Outstanding() == old(Outstanding()) + p
    {
      ConcatSnoc(pkts, p);
      pkts := pkts + [p];
    }

    /** One call of array2buffer: bytes only move forward, in order. */
    method Array2Buffer() returns (ret: nat)
      requires Valid()
      modifies this, queue, queue.buffer
      ensures Valid() && Outstanding() == old(Outstanding()) && Packets() == old(Packets())
      ensures queue.Data() == old(queue.Data()) + ret
      ensures forall p | p in pkts :: p in old(pkts)
      ensures ret == 0 && (forall p | p in old(pkts) :: p != []) ==>
                queue.Available() == 0 || (pkts == [] && partial == 0)
    {
      ret := 0;
      if queue.Available() == 0 {
        return;
      }
      if partial == 0 {
        if |pkts| == 0 {
          return;
        }
        mypkt := Some(pkts[0]);
        assert mypkt.value in old(pkts);
        pkts := pkts[1..];
      }
      assert old(Outstanding()) == queue.Contents() + mypkt.value[partial..] + Concat(pkts) by {
        if old(partial) == 0 { TakeOne(queue.Contents(), old(pkts)); }
      }
      ret := CopyOut();
      if partial == |mypkt.value| {
        mypkt := None;
        partial := 0;
        pktsSent := pktsSent + 1;
      }
    }

    /** Copies as much of the current packet as the queue can take. */
    method CopyOut() returns (b: nat)
      requires queue.Valid() && mypkt.Some? && partial <= |mypkt.value| && queue.Available() > 0
      modifies this`partial, queue, queue.buffer
      ensures queue.Valid() && partial == old(partial) + b <= |mypkt.value|
      ensures queue.Contents() + mypkt.value[partial..] == old(queue.Contents() + mypkt.value[partial..])
      ensures queue.Data() == old(queue.Data()) + b && (b == 0 ==> partial == |mypkt.value|)
    {
      b := if queue.Available() > |mypkt.value| - partial then |mypkt.value| - partial else queue.Available();
      ghost var was, rest := queue.Contents(), mypkt.value[partial..];
      var bytes := mypkt.value[partial..partial + b];
      queue.Append(bytes);
      partial := partial + b;
      assert rest == bytes + mypkt.value[partial..];
      Assoc(was, bytes, mypkt.value[partial..]);
    }

    /** array2buffer_2's loop. */
    method Fill()
      requires Valid()
      modifies this, queue, queue.buffer
      ensures Valid() && Outstanding() == old(Outstanding()) && Packets() == old(Packets())
      ensures forall p | p in pkts :: p in old(pkts)
      ensures (forall p | p in old(pkts) :: p != []) ==> queue.Available() == 0 || (pkts == [] && partial == 0)
    {
      var ret := Array2Buffer();
      while ret != 0
        invariant Valid() && Outstanding() == old(Outstanding()) && Packets() == old(Packets())
        invariant forall p | p in pkts :: p in old(pkts)
        invariant ret == 0 && (forall p | p in old(pkts) :: p != []) ==>
                    queue.Available() == 0 || (pkts == [] && partial == 0)
        decreases |Outstanding()| - queue.Data() + ret
      {
        ret := Array2Buffer();
      }
    }

    /** write_to_net: send() took the first r queued bytes. */
    method WriteToNet(r: nat) returns (sent: seq<Byte>)
      requires Valid() && r <= queue.Data()
      modifies queue
      ensures Valid() && |sent| == r && sent + Outstanding() == old(Outstanding())
    {
      sent := queue.Contents()[..r];
      queue.Advance(r);
      assert sent + queue.Contents() == old(queue.Contents());
      assert sent + Outstanding() == (sent + queue.Contents()) + RestOfCurrent() + Concat(pkts);
    }

    /** array2buffer_2, then one send() of any size (at least one byte when told to progress). */
    method FillAndSend(progress: bool) returns (sent: seq<Byte>)
      requires Valid() && queue.buffer.Length > 0 && forall p | p in pkts :: p != []
      modifies this, queue, queue.buffer
      ensures Valid() && sent + Outstanding() == old(Outstanding())
      ensures progress && old(Outstanding()) != [] ==> sent != []
      ensures forall p | p in pkts :: p != []
    {
      Fill();
      var r := PickUpTo(if progress && queue.Data() > 0 then 1 else 0, queue.Data());
      sent := WriteToNet(r);
    }
  }

  lemma TakeOne(queued: seq<Byte>, pkts: seq<seq<Byte>>)
    requires pkts != []
    ensures queued + [] + Concat(pkts) == queued + pkts[0] + Concat(pkts[1..])
  {
    Assoc(queued, pkts[0], Concat(pkts[1..]));
  }

  /**
   A sender and a receiver joined by a byte pipe, with any buffer sizes and any sizes of
   partial sends and receives: the receiver cuts exactly the packets that were flattened.
   */
  method Transfer(o: OutputStream, i: InputStream)
    requires o.Valid() && i.Valid() && i.Drained() && o.Repr() !! i.Repr()
    requires o.queue.buffer.Length > 0 && i.queue.buffer.Length >= HEADER_SIZE
    requires forall p | p in o.pkts :: p != []
    modifies o.Repr(), i.Repr()
    ensures o.Valid() && i.Valid() && o.Outstanding() == []
    ensures i.pkts == old(i.pkts) + Parse(old(i.Unparsed()) + old(o.Outstanding())).0
    ensures i.Unparsed() == Parse(old(i.Unparsed()) + old(o.Outstanding())).1
  {
    hide Parse, Incomplete, WellFormed, Concat, PayloadLength;
    ghost var all, base := o.Outstanding(), i.pkts;
    ghost var seen := i.Unparsed();
    ghost var total := seen + all;
    i.HasParsedNothingMore();
    var net: seq<Byte> := [];
    while o.Outstanding() != [] || net != []
      invariant o.Valid() && i.Valid() && i.HasParsed(base, seen) && o.Repr() !! i.Repr()
      invariant i.data == old(i.data) || fresh(i.data)
      invariant forall p | p in o.pkts :: p != []
      invariant seen + net + o.Outstanding() == total
      decreases 2 * |o.Outstanding()| + |net|
    {
      net, seen := Pump(o, i, net, base, seen);
    }
    assert seen == total;
  }

  /** Either side makes progress, in any order: a send or a receive. The pipe holds net. */
  method Pump(o: OutputStream, i: InputStream, net: seq<Byte>, ghost base: seq<seq<Byte>>, ghost seen: seq<Byte>)
    returns (net': seq<Byte>, ghost seen': seq<Byte>)
    requires o.Valid() && i.Valid() && i.HasParsed(base, seen) && o.Repr() !! i.Repr()
    requires o.queue.buffer.Length > 0 && i.queue.buffer.Length >= HEADER_SIZE
    requires (forall p | p in o.pkts :: p != []) && (o.Outstanding() != [] || net != [])
    modifies o.Repr(), i.Repr()
    ensures o.Valid() && i.Valid() && i.HasParsed(base, seen') && (i.data == old(i.data) || fresh(i.data))
    ensures forall p | p in o.pkts :: p != []
    ensures seen' + net' + o.Outstanding() == seen + net + old(o.Outstanding())
    ensures 2 * |o.Outstanding()| + |net'| < 2 * |old(o.Outstanding())| + |net|
  {
    hide Parse, Incomplete, WellFormed, Concat, PayloadLength;
    if {
      case o.Outstanding() != [] =>
        var sent := o.FillAndSend(true);
        ghost var left := o.Outstanding();
        Assoc(seen + net, sent, left);
        Assoc(seen, net, sent);
        net', seen' := net + sent, seen;
      case net != [] =>
        ghost var left := o.Outstanding();
        net', seen' := i.ReceiveSome(net, true, base, seen);
        assert o.Outstanding() == left;
    }
  }

  /** Framing undoes flattening: a fresh pair of streams delivers the very list of packets sent. */
  method TransferPackets(o: OutputStream, i: InputStream)
    requires o.Valid() && i.Valid() && i.Drained() && o.Repr() !! i.Repr()
    requires o.queue.buffer.Length > 0 && i.queue.buffer.Length >= HEADER_SIZE
    requires i.Unparsed() == [] && o.Outstanding() == Concat(o.pkts)
    requires forall p | p in o.pkts :: WellFormed(p)
    modifies o.Repr(), i.Repr()
    ensures o.Valid() && i.Valid() && o.Outstanding() == [] && i.Unparsed() == []
    ensures i.pkts == old(i.pkts) + old(o.pkts)
  {
    ParseConcat(o.pkts);
    assert [] + o.Outstanding() == Concat(o.pkts);
    Transfer(o, i);
  }
}
