/**
 How the admin interface turns a query result into packets (mysql_pkt_to_sqlite_exec): row
 buffers sized in advance and filled by offset, and column definitions put in place by an
 append followed by a swap-with-last removal.
 */
module AdminResultSet {
  import opened Wire
  import opened Framing
  import opened ServerResponse
  import opened LengthEncoding

  /** What SQLite returns for a column: NULL, or text of some number of bytes, possibly with NULs inside. */
  type Cell = Option<seq<Byte>>
  type Row = seq<Cell>

  /** mysql_hdr: a 24-bit length and an 8-bit id. */
  function Header(length: nat, id: nat): (h: seq<Byte>)
    ensures |h| == HEADER_SIZE
  {
    Le(length % 16777216, 3) + [id % 256]
  }

  // ----- the length of a row -----

  /** What the writer sees of a cell. */
  function Text(c: Cell): Cell {
    if c.None? then None else Some(CString(c.value))
  }

  /** What the first pass reserves: sqlite3_column_bytes() is 0 for NULL and for empty text. */
  function Reserved(c: Cell): nat {
    var l := if c.None? then 0 else |c.value|;
    if l == 0 then 1 else l + LencintSize(l)
  }

  function RowLength(row: Row): nat {
    if row == [] then 0 else RowLength(row[..|row| - 1]) + Reserved(row[|row| - 1])
  }

  function WrittenLength(row: Row): nat {
    if row == [] then 0 else WrittenLength(row[..|row| - 1]) + EncStrSize(Text(row[|row| - 1]))
  }

  predicate HasNul(c: Cell) {
    c.Some? && 0 in c.value
  }

  lemma ReservedIff(c: Cell)
    ensures EncStrSize(Text(c)) <= Reserved(c) && (EncStrSize(Text(c)) == Reserved(c) <==> !HasNul(c))
  {
  }

  /** The precomputed length is always enough, and is what is written exactly when no text has a NUL inside. */
  lemma {:induction false} RowLengthIff(row: Row)
    ensures WrittenLength(row) <= RowLength(row)
    ensures WrittenLength(row) == RowLength(row) <==> forall c | c in row :: !HasNul(c)
  {
    if row != [] {
      var n := |row| - 1;
      RowLengthIff(row[..n]);
      ReservedIff(row[n]);
      assert row == row[..n] + [row[n]];
    }
  }

  /** The text A, NUL, B reserves four bytes and writes two. */
  lemma NulShortensRow()
    ensures var row := [Some([0x41, 0, 0x42])]; RowLength(row) == 4 && WrittenLength(row) == 2
  {
    var c: Cell := Some([0x41, 0, 0x42]);
    assert CString([0x41, 0, 0x42]) == [0x41] + CString([0x41, 0, 0x42][1..]);
    assert [c][..0] == [];
    assert RowLength([c]) == RowLength([c][..0]) + Reserved(c);
    assert WrittenLength([c]) == WrittenLength([c][..0]) + EncStrSize(Text(c));
  }

  lemma {:induction false} RowLengthPrefix(row: Row, k: nat)
    requires k <= |row|
    ensures WrittenLength(row[..k]) <= WrittenLength(row)
    decreases |row|
  {
    if k == |row| {
      assert row[..k] == row;
    } else {
      RowLengthPrefix(row[..|row| - 1], k);
      assert row[..|row| - 1][..k] == row[..k];
    }
  }

  // ----- the bytes of a row -----

  /** The bytes written for each cell over the memory that was there. */
  function Cells(row: Row, priors: seq<seq<Byte>>, above: seq<Byte>): (cells: seq<seq<Byte>>)
    requires |priors| == |row| && |above| == 4 && forall k | 0 <= k < |row| :: |priors[k]| == EncStrSize(Text(row[k]))
    ensures |cells| == |row|
  {
    seq(|row|, k requires 0 <= k < |row| => EncStr(Text(row[k]), priors[k], above))
  }

  /** A packet for the row: its header announces the reserved length, and the cells come first in the payload. */
  ghost predicate IsRowPacket(p: Packet, row: Row, id: nat, priors: seq<seq<Byte>>, above: seq<Byte>) {
    && |priors| == |row| && |above| == 4 && (forall k | 0 <= k < |row| :: |priors[k]| == EncStrSize(Text(row[k])))
    && |p| == HEADER_SIZE + RowLength(row) && p[..HEADER_SIZE] == Header(RowLength(row), id)
    && Concat(Cells(row, priors, above)) <= p[HEADER_SIZE..]
  }

  /** The first pass over a row. */
  method SizeRow(row: Row) returns (rowlen: nat)
    ensures rowlen == RowLength(row)
  {
    rowlen := 0;
    var col := 0;
    assert row[..0] == [];
    while col < |row|
      invariant 0 <= col <= |row| && rowlen == RowLength(row[..col])
    {
      assert row[..col + 1][..col] == row[..col];
      rowlen := rowlen + Reserved(row[col]);
      col := col + 1;
    }
    assert row[..col] == row;
  }

  ghost predicate AreCells(row: Row, priors: seq<seq<Byte>>, cells: seq<seq<Byte>>, above: seq<Byte>)
    requires |above| == 4
  {
    && |priors| == |cells| == |row|
    && forall k | 0 <= k < |row| ::
      |priors[k]| == EncStrSize(Text(row[k])) && cells[k] == EncStr(Text(row[k]), priors[k], above)
  }

  lemma AreCellsSnoc(row: Row, k: nat, priors: seq<seq<Byte>>, cells: seq<seq<Byte>>, above: seq<Byte>,
                     prior: seq<Byte>)
    requires k < |row| && |above| == 4 && AreCells(row[..k], priors, cells, above) &&
             |prior| == EncStrSize(Text(row[k]))
    ensures AreCells(row[..k + 1], priors + [prior], cells + [EncStr(Text(row[k]), prior, above)], above)
  {
  }

  /** The second pass: every cell is written behind the one before. */
  method WriteRow(data: array<Byte>, row: Row, header: seq<Byte>, above: seq<Byte>)
    returns (ghost priors: seq<seq<Byte>>, ghost cells: seq<seq<Byte>>)
    requires |above| == 4 && |header| + WrittenLength(row) <= data.Length && header == data[..|header|]
    modifies data
    ensures AreCells(row, priors, cells, above) && |Concat(cells)| == WrittenLength(row)
    ensures data[..] == Overwrite(old(data[..]), |header|, Concat(cells))
  {
    hide EncStrSize, EncStr, Overwrite, Text, AreCells, Concat;
    ghost var mem := data[..];
    var i, col := |header|, 0;
    priors, cells := [], [];
    NoCells(row, mem, i, above);
    while col < |row|
      invariant 0 <= col <= |row| && AreCells(row[..col], priors, cells, above)
      invariant i == |header| + WrittenLength(row[..col]) && |Concat(cells)| == WrittenLength(row[..col])
      invariant i <= data.Length && data[..] == Overwrite(mem, |header|, Concat(cells))
    {
      RowLengthPrefix(row, col + 1);
      assert row[..col + 1][..col] == row[..col];
      ghost var size := EncStrSize(Text(row[col]));
      ghost var prior := data[i..i + size];
      var l := WriteEncStrNull(data, i, Text(row[col]), above);
      ghost var cell := EncStr(Text(row[col]), prior, above);
      OverwriteNext(mem, |header|, Concat(cells), cell);
      ConcatSnoc(cells, cell);
      AreCellsSnoc(row, col, priors, cells, above, prior);
      priors, cells := priors + [prior], cells + [cell];
      i := i + l;
      col := col + 1;
    }
    assert row[..col] == row;
  }

  lemma NoCells(row: Row, mem: seq<Byte>, i: nat, above: seq<Byte>)
    requires |above| == 4 && i <= |mem|
    ensures row[..0] == [] && AreCells(row[..0], [], [], above) && Concat([]) == [] &&
            Overwrite(mem, i, Concat([])) == mem
  {
  }

  /** A row packet: a buffer of the reserved size, allocated uninitialised, header first, then the cells. */
  method BuildRow(row: Row, id: nat, above: seq<Byte>) returns (p: Packet, ghost priors: seq<seq<Byte>>)
    requires |above| == 4
    ensures |p| == HEADER_SIZE + RowLength(row) && p[..HEADER_SIZE] == Header(RowLength(row), id)
    ensures IsRowPacket(p, row, id, priors, above)
  {
    hide EncStrSize, EncStr, Header, Text, Concat;
    var rowlen := SizeRow(row);
    RowLengthIff(row);
    var data := new Byte[HEADER_SIZE + rowlen];
    var header := Header(rowlen, id);
    CopyForward(data, 0, header);
    ghost var mem := data[..];
    assert data[..HEADER_SIZE] == header;
    ghost var cells;
    priors, cells := WriteRow(data, row, header, above);
    p := data[..];
    assert cells == Cells(row, priors, above);
  }

  // ----- reading a row back -----

  function DecodeRow(s: seq<Byte>, n: nat): Option<Row> {
    if n == 0 then Some([]) else
      var d := DecodeStr(s);
      if d.None? then None else
        var rest := DecodeRow(s[d.value.1..], n - 1);
        if rest.None? then None else Some([d.value.0] + rest.value)
  }

  function Texts(row: Row): Row {
    seq(|row|, k requires 0 <= k < |row| => Text(row[k]))
  }

  predicate LengthsWritten(row: Row, priors: seq<seq<Byte>>, above: seq<Byte>)
    requires |priors| == |row|
  {
    forall k | 0 <= k < |row| && row[k].Some? :: LengthWritten(|Text(row[k]).value|, priors[k], above)
  }

  lemma CellDecodesIff(c: Cell, prior: seq<Byte>, above: seq<Byte>, tail: seq<Byte>)
    requires |prior| == EncStrSize(Text(c)) && |above| == 4 && (c.Some? ==> |c.value| <= MAX_INT)
    ensures var d := DecodeStr(EncStr(Text(c), prior, above) + tail);
            var good := c.Some? ==> LengthWritten(|Text(c).value|, prior, above);
            && (d.Some? && d.value.0 == Text(c) <==> good)
            && (good ==> d.value.1 == EncStrSize(Text(c)))
  {
    if c.Some? {
      StringDecodesIff(Text(c).value, prior, above, tail);
    }
  }

  lemma CellsFirst(row: Row, priors: seq<seq<Byte>>, above: seq<Byte>, tail: seq<Byte>)
    requires row != [] && |priors| == |row| && |above| == 4 && forall k | 0 <= k < |row| ::
             |priors[k]| == EncStrSize(Text(row[k]))
    ensures Concat(Cells(row, priors, above)) + tail ==
            EncStr(Text(row[0]), priors[0], above) + (Concat(Cells(row[1..], priors[1..], above)) + tail)
  {
    hide EncStr;
    assert Cells(row, priors, above)[1..] == Cells(row[1..], priors[1..], above);
    Assoc(EncStr(Text(row[0]), priors[0], above), Concat(Cells(row[1..], priors[1..], above)), tail);
  }

  /** A row reads back as the texts that were written exactly when every length was written. */
  lemma {:induction false} RowDecodesIff(row: Row, priors: seq<seq<Byte>>, above: seq<Byte>, tail: seq<Byte>)
    requires |priors| == |row| && |above| == 4 && forall k | 0 <= k < |row| :: |priors[k]| == EncStrSize(Text(row[k]))
    requires forall c | c in row :: c.Some? ==> |c.value| <= MAX_INT
    ensures DecodeRow(Concat(Cells(row, priors, above)) + tail, |row|) == Some(Texts(row)) <==>
            LengthsWritten(row, priors, above)
  {
    hide EncStr, Text, DecodeStr, Cells, Concat, LengthWritten;
    if row != [] {
      var rest := Concat(Cells(row[1..], priors[1..], above)) + tail;
      var first := EncStr(Text(row[0]), priors[0], above);
      var s := first + rest;
      CellsFirst(row, priors, above, tail);
      assert row[0] in row;
      CellDecodesIff(row[0], priors[0], above, rest);
      RowDecodesIff(row[1..], priors[1..], above, tail);
      LengthsFirst(row, priors, above);
      assert Texts(row) == [Text(row[0])] + Texts(row[1..]);
      FirstDecoded(s, |row|, Text(row[0]), Texts(row[1..]), rest);
    }
  }

  lemma FirstDecoded(s: seq<Byte>, n: nat, first: Cell, others: Row, rest: seq<Byte>)
    requires n > 0 && var d := DecodeStr(s); d.Some? && d.value.0 == first ==> s[d.value.1..] == rest
    ensures DecodeRow(s, n) == Some([first] + others) <==>
              DecodeStr(s).Some? && DecodeStr(s).value.0 == first && DecodeRow(rest, n - 1) == Some(others)
  {
    hide DecodeStr;
    var d := DecodeStr(s);
    if DecodeRow(s, n) == Some([first] + others) {
      var r := DecodeRow(s[d.value.1..], n - 1).value;
      assert ([d.value.0] + r)[0] == first && ([d.value.0] + r)[1..] == r && ([first] + others)[1..] == others;
    }
  }

  lemma LengthsFirst(row: Row, priors: seq<seq<Byte>>, above: seq<Byte>)
    requires row != [] && |priors| == |row|
    ensures LengthsWritten(row, priors, above) <==>
              (row[0].Some? ==> LengthWritten(|Text(row[0]).value|, priors[0], above)) &&
                  LengthsWritten(row[1..], priors[1..], above)
  {
    hide LengthWritten;
    if LengthsWritten(row[1..], priors[1..], above) && (row[0].Some? ==>
        LengthWritten(|Text(row[0]).value|, priors[0], above)) {
      forall k | 0 <= k < |row| && row[k].Some?
        ensures LengthWritten(|Text(row[k]).value|, priors[k], above)
      {
        if k > 0 {
          assert row[1..][k - 1] == row[k] && priors[1..][k - 1] == priors[k];
        }
      }
    }
  }

  lemma ShortRowDecodes(row: Row, priors: seq<seq<Byte>>, above: seq<Byte>, tail: seq<Byte>)
    requires |priors| == |row| && |above| == 4 && forall k | 0 <= k < |row| :: |priors[k]| == EncStrSize(Text(row[k]))
    requires forall c | c in row :: c.Some? ==> |c.value| < 65536 && 0 !in c.value
    ensures DecodeRow(Concat(Cells(row, priors, above)) + tail, |row|) == Some(row)
  {
    hide Cells, Concat, DecodeRow;
    RowDecodesIff(row, priors, above, tail);
    assert forall k | 0 <= k < |row| :: row[k] in row;
    assert Texts(row) == row;
  }

  /** Rows of texts shorter than 65536 bytes without NULs come back unchanged, NULL and empty text told apart. */
  lemma RowRoundTrip(p: Packet, row: Row, id: nat, priors: seq<seq<Byte>>, above: seq<Byte>)
    requires IsRowPacket(p, row, id, priors, above)
    requires forall c | c in row :: c.Some? ==> |c.value| < 65536 && 0 !in c.value
    ensures DecodeRow(p[HEADER_SIZE..], |row|) == Some(row)
    ensures |p| == HEADER_SIZE + WrittenLength(row)
  {
    hide Cells, Concat, DecodeRow, Header, Text, EncStrSize, RowLength, WrittenLength;
    var cells := Concat(Cells(row, priors, above));
    var tail := p[HEADER_SIZE..][|cells|..];
    assert p[HEADER_SIZE..] == cells + tail;
    ShortRowDecodes(row, priors, above, tail);
    RowLengthIff(row);
  }
}
