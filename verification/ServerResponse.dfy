/**
 Classification of server packets (mysql_response), their status flags, and the shape of a
 COM_QUERY response (section 14.6.4.1 "COM_QUERY Response" of the MySQL Internals Manual).
 */
module ServerResponse {
  import opened Wire
  import opened Framing

  type Packet = seq<Byte>

  datatype Kind = OkPacket | ErrPacket | EofPacket | UnknownPacket

  /** The source reads the first payload byte without checking that there is one. */
  predicate HasPayload(p: Packet) {
    |p| > HEADER_SIZE
  }

  function Classify(p: Packet): Kind
    requires HasPayload(p)
  {
    var c := p[HEADER_SIZE];
    if c == 0 then OkPacket
    else if c == 0xff then ErrPacket
    else if c == 0xfe && |p| - HEADER_SIZE < 9 then EofPacket
    else UnknownPacket
  }

  // ----- the packets of a response, by their bytes -----

  predicate IsOk(p: Packet) {
    HasPayload(p) && p[HEADER_SIZE] == 0
  }

  /** Whatever its length: with a state and a message it is longer than an EOF packet ever is. */
  predicate IsErr(p: Packet) {
    HasPayload(p) && p[HEADER_SIZE] == 0xff
  }

  predicate IsEof(p: Packet) {
    HasPayload(p) && p[HEADER_SIZE] == 0xfe && |p| < HEADER_SIZE + 9
  }

  /** A count is not 0 and a definition begins with a name; one that begins with 0xfe has eight more bytes. */
  predicate IsColumnCountOrDefinition(p: Packet) {
    HasPayload(p) && 0 < p[HEADER_SIZE] < 0xff && (p[HEADER_SIZE] == 0xfe ==> |p| >= HEADER_SIZE + 9)
  }

  /** A row begins with a length or with NULL (0xfb); a length of 0 makes it look like an OK packet. */
  predicate IsRow(p: Packet) {
    HasPayload(p) && p[HEADER_SIZE] < 0xff && (p[HEADER_SIZE] == 0xfe ==> |p| >= HEADER_SIZE + 9)
  }

  /** mysql_response tells them apart by these bytes. */
  lemma ClassifyIff(p: Packet)
    requires HasPayload(p)
    ensures (Classify(p) == OkPacket <==> IsOk(p)) && (Classify(p) == ErrPacket <==> IsErr(p))
    ensures (Classify(p) == EofPacket <==> IsEof(p)) && (Classify(p) == UnknownPacket <==> IsColumnCountOrDefinition(p))
  {
  }

  // ----- status flags -----

  /** lencint */
  function LencintSize(v: nat): nat {
    if v < 251 then 1 else if v < 65536 then 3 else if v < 16777216 then 4 else 9
  }

  /** The first byte of a length-encoded integer: 0xfb and 0xff never start one. */
  predicate StartsInteger(b: Byte) {
    b != 0xfb && b != 0xff
  }

  /** Size of a length-encoded integer that starts with byte b, by the protocol. */
  function EncodedSize(b: Byte): nat {
    if b < 251 then 1 else if b == 0xfc then 3 else if b == 0xfd then 4 else 9
  }

  /**
   lencint(lencint_unknown(v)) where v starts with byte b: the byte passes through a plain
   (signed) char, which is always below 251, and is then widened to 64 bits.
   */
  function ReadSize(b: Byte): nat {
    if b < 128 then LencintSize(b) else LencintSize(0x1_0000_0000_0000_0000 - 256 + b as int)
  }

  lemma ReadSizeIs(b: Byte)
    ensures ReadSize(b) == if b < 128 then 1 else 9
  {
  }

  const SLACK := 32

  /** Where status_flags reads the status of an OK packet; beyond is the memory after the packet. */
  function OkStatusOffset(p: Packet, beyond: seq<Byte>): nat
    requires HasPayload(p) && |beyond| >= SLACK
  {
    var mem := p + beyond;
    var a := HEADER_SIZE + 1;
    var b := a + ReadSize(mem[a]);
    b + ReadSize(mem[b])
  }

  /** Where the protocol puts it: after the header byte, affected_rows and last_insert_id. */
  function TrueStatusOffset(p: Packet, beyond: seq<Byte>): nat
    requires HasPayload(p) && |beyond| >= SLACK
  {
    var mem := p + beyond;
    var a := HEADER_SIZE + 1;
    var b := a + EncodedSize(mem[a]);
    b + EncodedSize(mem[b])
  }

  /** The sizes the signed char gets right. */
  predicate SizeReadable(b: Byte) {
    b < 128 || b == 0xfe
  }

  /**
   The status of an OK packet is read at the right place exactly when both integers are in
   a readable form, or when the two mistakes happen to cancel.
   */
  lemma OkStatusOffsetIff(p: Packet, beyond: seq<Byte>)
    requires HasPayload(p) && |beyond| >= SLACK
    requires var mem := p + beyond;
             var a := HEADER_SIZE + 1;
             StartsInteger(mem[a]) && StartsInteger(mem[a + EncodedSize(mem[a])])
    ensures
      var mem := p + beyond;
      var a := HEADER_SIZE + 1;
      OkStatusOffset(p, beyond) == TrueStatusOffset(p, beyond) <==>
      || (SizeReadable(mem[a]) && SizeReadable(mem[a + EncodedSize(mem[a])]))
      || (128 <= mem[a] < 251 && mem[a + 1] == 0xfe && mem[a + 9] < 128)
  {
  }

  /** Affected rows of 200 already displace the status by eight bytes. */
  lemma OkStatusMisread(beyond: seq<Byte>)
    requires |beyond| >= SLACK
    ensures
      var p := [7, 0, 0, 1, 0, 200, 0, 2, 0, 0, 0];
      TrueStatusOffset(p, beyond) == 7 && OkStatusOffset(p, beyond) >= 15
  {
    var p: Packet := [7, 0, 0, 1, 0, 200, 0, 2, 0, 0, 0];
    var mem := p + beyond;
    assert mem[5] == 200 && mem[6] == 0;
  }

  const SERVER_STATUS_IN_TRANS := 1

  /** status_flags */
  function StatusFlags(p: Packet, beyond: seq<Byte>): nat
    requires HasPayload(p) && |beyond| >= SLACK
  {
    var mem := p + beyond;
    match Classify(p)
    case OkPacket =>
      var k := OkStatusOffset(p, beyond);
      mem[k] as int + 256 * (mem[k + 1] as int)
    case EofPacket =>
      var k := HEADER_SIZE + 3;
      mem[k] as int + 256 * (mem[k + 1] as int)
    case _ => 0
  }

  /** is_transaction_active */
  function IsTransactionActive(p: Packet, beyond: seq<Byte>): bool
    requires HasPayload(p) && |beyond| >= SLACK
  {
    StatusFlags(p, beyond) % 2 == SERVER_STATUS_IN_TRANS
  }

  /** An EOF packet of protocol 4.1 reports the low bit of its own status field, whatever follows it in memory. */
  lemma EofStatusIsItsOwn(p: Packet, beyond: seq<Byte>)
    requires HasPayload(p) && |beyond| >= SLACK && IsEof(p) && |p| == HEADER_SIZE + 5
    ensures IsTransactionActive(p, beyond) <==> p[HEADER_SIZE + 3] % 2 == 1
  {
    var mem := p + beyond;
    assert mem[7] == p[7] && mem[8] == p[8];
    var lo, hi := mem[7] as int, mem[8] as int;
    assert (lo + 256 * hi) % 2 == lo % 2;
  }

  /** An OK packet reports the low bit of the byte that the two sizes lead to. */
  lemma OkStatusBit(p: Packet, beyond: seq<Byte>)
    requires IsOk(p) && |beyond| >= SLACK
    ensures IsTransactionActive(p, beyond) <==> (p + beyond)[OkStatusOffset(p, beyond)] % 2 == 1
  {
    var mem, k := p + beyond, OkStatusOffset(p, beyond);
    var lo, hi := mem[k] as int, mem[k + 1] as int;
    assert (lo + 256 * hi) % 2 == lo % 2;
  }

  /** With affected_rows and last_insert_id below 128 that is the third byte behind the marker, its own status. */
  lemma OkStatusIsItsOwn(p: Packet, beyond: seq<Byte>)
    requires IsOk(p) && |p| >= HEADER_SIZE + 5 && |beyond| >= SLACK
    requires p[HEADER_SIZE + 1] < 128 && p[HEADER_SIZE + 2] < 128
    ensures IsTransactionActive(p, beyond) <==> p[HEADER_SIZE + 3] % 2 == 1
  {
    OkStatusBit(p, beyond);
  }

  // ----- the shape of a response -----

  datatype Response =
    | Ok(ok: Packet)
    | Err(err: Packet)
    | ResultSet(count: Packet, definitions: seq<Packet>, eof: Packet, rows: seq<Packet>, last: Packet)
  {
    predicate WellFormedUpToDefinitions() {
      match this
      case Ok(p) => IsOk(p)
      case Err(p) => IsErr(p)
      case ResultSet(count, definitions, eof, rows, last) =>
        && IsColumnCountOrDefinition(count)
        && (forall p | p in definitions :: IsColumnCountOrDefinition(p))
        && IsEof(eof)
        && (forall p | p in rows :: IsRow(p))
        && (IsEof(last) || IsErr(last))
    }

    /** A result set has at least one column. */
    predicate WellFormed() {
      WellFormedUpToDefinitions() && (ResultSet? ==> definitions != [])
    }

    function Packets(): seq<Packet> {
      match this
      case Ok(p) => [p]
      case Err(p) => [p]
      case ResultSet(count, definitions, eof, rows, last) => [count] + definitions + [eof] + rows + [last]
    }
  }
}
