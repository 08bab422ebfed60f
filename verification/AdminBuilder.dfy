/**
 The packets around the rows (myproto_column_count, myproto_column_def, myproto_eof) and the
 order in which mysql_pkt_to_sqlite_exec leaves all of them in the client's output array.
 */
module AdminBuilder {
  import opened Wire
  import opened Framing
  import opened ServerResponse
  import opened LengthEncoding
  import opened PtrArrays
  import opened AdminResultSet

  const MYSQL_TYPE_VARCHAR: Byte := 15
  const STATUS := 34  // SERVER_STATUS_AUTOCOMMIT | SERVER_QUERY_NO_INDEX_USED

  /** Starts with a header that announces the rest. */
  predicate Framed(p: Packet, id: nat) {
    |p| >= HEADER_SIZE && p[..HEADER_SIZE] == Header(|p| - HEADER_SIZE, id)
  }

  /** The 24-bit length field is right exactly for payloads below 16 MiB. */
  lemma FramedIff(p: Packet, id: nat)
    requires Framed(p, id)
    ensures Framing.WellFormed(p) <==> |p| - HEADER_SIZE < 16777216
    ensures p[3] == id % 256
  {
    var n := (|p| - HEADER_SIZE) % 16777216;
    Powers();
    FromLeLe(n, 3);
    var h := Le(n, 3);
    assert p[0] == p[..4][0] && p[1] == p[..4][1] && p[2] == p[..4][2] && p[3] == p[..4][3];
    assert FromLe(h) == h[0] as int + 256 * (h[1] as int + 256 * (h[2] as int)) by {
      assert h[1..][1..] == h[2..] && h[2..][1..] == [];
      assert FromLe(h[2..]) == h[2] as int;
    }
    assert PayloadLength(p) == n;
  }

  // ----- packets of fixed shape -----

  /** Writes behind what has been written; the buffer started as mem and now begins with done. */
  method Put(data: array<Byte>, i: nat, bytes: seq<Byte>, ghost mem: seq<Byte>, ghost done: seq<Byte>)
    returns (next: nat)
    requires i == |done| && i + |bytes| <= data.Length == |mem| && data[..] == Overwrite(mem, 0, done)
    modifies data
    ensures next == i + |bytes| == |done + bytes| && data[..] == Overwrite(mem, 0, done + bytes)
  {
    hide Overwrite;
    CopyForward(data, i, bytes);
    OverwriteNext(mem, 0, done, bytes);
    next := i + |bytes|;
  }

  method PutStr(data: array<Byte>, i: nat, s: seq<Byte>, above: seq<Byte>, ghost mem: seq<Byte>, ghost done: seq<Byte>)
    returns (next: nat, ghost prior: seq<Byte>)
    requires i == |done| && i + EncStrSize(Some(s)) <= data.Length == |mem| && data[..] == Overwrite(mem, 0, done) &&
             |above| == 4
    modifies data
    ensures |prior| == EncStrSize(Some(s)) && next == i + EncStrSize(Some(s)) == |done + EncStr(Some(s), prior, above)|
    ensures data[..] == Overwrite(mem, 0, done + EncStr(Some(s), prior, above))
  {
    hide Overwrite, EncStr;
    prior := data[i..i + EncStrSize(Some(s))];
    var l := WriteEncStrNull(data, i, Some(s), above);
    OverwriteNext(mem, 0, done, EncStr(Some(s), prior, above));
    next := i + l;
  }

  lemma WholeBuffer(mem: seq<Byte>, bytes: seq<Byte>)
    requires |bytes| == |mem|
    ensures Overwrite(mem, 0, bytes) == bytes
  {
  }

  lemma NothingDone(mem: seq<Byte>)
    ensures Overwrite(mem, 0, []) == mem
  {
  }

  /** myproto_column_count */
  method ColumnCount(id: nat, cnt: nat) returns (p: Packet)
    requires cnt < 0x1_0000_0000_0000_0000
    ensures p == Header(LencintSize(cnt), id) + EncInt(cnt)
  {
    hide Header, EncInt, Overwrite;
    var data := new Byte[LencintSize(cnt) + HEADER_SIZE];
    ghost var mem := data[..];
    NothingDone(mem);
    var i := Put(data, 0, Header(LencintSize(cnt), id), mem, []);
    var l := WriteEncInt(data, HEADER_SIZE, cnt);
    assert [] + Header(LencintSize(cnt), id) == Header(LencintSize(cnt), id);
    OverwriteNext(mem, 0, Header(LencintSize(cnt), id), EncInt(cnt));
    WholeBuffer(mem, Header(LencintSize(cnt), id) + EncInt(cnt));
    p := data[..];
  }

  /** myproto_eof */
  method Eof(id: nat, warnings: nat, status: nat) returns (p: Packet)
    ensures p == Header(5, id) + [0xfe] + Le(warnings, 2) + Le(status, 2)
  {
    hide Header, Le, Overwrite;
    var data := new Byte[5 + HEADER_SIZE];
    ghost var mem := data[..];
    NothingDone(mem);
    ghost var h := [] + Header(5, id);
    assert h == Header(5, id);
    var i := Put(data, 0, Header(5, id), mem, []);
    i := Put(data, i, [0xfe], mem, h);
    i := Put(data, i, Le(warnings, 2), mem, h + [0xfe]);
    i := Put(data, i, Le(status, 2), mem, h + [0xfe] + Le(warnings, 2));
    WholeBuffer(mem, h + [0xfe] + Le(warnings, 2) + Le(status, 2));
    p := data[..];
  }

  // ----- column definitions -----

  /** "def" and the five names, then the fixed part. */
  function Names(schema: seq<Byte>, table: seq<Byte>, orgTable: seq<Byte>, name: seq<Byte>,
                 orgName: seq<Byte>): (r: Row)
    ensures |r| == 5
  {
    [Some(schema), Some(table), Some(orgTable), Some(name), Some(orgName)]
  }

  function Catalog(): seq<Byte> {
    [0x03, 0x64, 0x65, 0x66]
  }

  function FixedPart(columnLength: nat, columnType: Byte, flags: nat, decimals: Byte): (s: seq<Byte>)
    ensures |s| == 13
  {
    [0x0c, 0x21, 0x00] + Le(columnLength, 4) + [columnType] + Le(flags, 2) + [decimals] + [0, 0]
  }

  /** The cells are the encodings of the names over what the memory held. */
  ghost predicate IsDefinition(p: Packet, id: nat, names: Row, priors: seq<seq<Byte>>, above: seq<Byte>,
                               fixed: seq<Byte>) {
    && |above| == 4 && |priors| == |names| && (forall k | 0 <= k < |names| :: |priors[k]| == EncStrSize(Text(names[k])))
    && Framed(p, id)
    && p[HEADER_SIZE..] == Catalog() + Concat(Cells(names, priors, above)) + fixed
  }

  lemma FiveCells(a: seq<Byte>, b: seq<Byte>, c: seq<Byte>, d: seq<Byte>, e: seq<Byte>, front: seq<Byte>)
    ensures front + a + b + c + d + e == front + Concat([a, b, c, d, e])
  {
    assert [a, b, c, d, e] == [a] + [b] + [c] + [d] + [e];
    ConcatSnoc([], a);
    ConcatSnoc([a], b);
    ConcatSnoc([a] + [b], c);
    ConcatSnoc([a] + [b] + [c], d);
    ConcatSnoc([a] + [b] + [c] + [d], e);
    assert Concat([a, b, c, d, e]) == a + b + c + d + e;
  }

  /** The five names, one behind the other. */
  method PutNames(data: array<Byte>, i: nat, n0: seq<Byte>, n1: seq<Byte>, n2: seq<Byte>, n3: seq<Byte>, n4: seq<Byte>,
                  above: seq<Byte>, ghost mem: seq<Byte>, ghost done: seq<Byte>)
    returns (next: nat, ghost priors: seq<seq<Byte>>)
    requires 0 !in n0 && 0 !in n1 && 0 !in n2 && 0 !in n3 && 0 !in n4 && |above| == 4
    requires i == |done| <= data.Length == |mem| && data[..] == Overwrite(mem, 0, done)
    requires i + EncStrSize(Some(n0)) + EncStrSize(Some(n1)) + EncStrSize(Some(n2)) + EncStrSize(Some(n3)) +
             EncStrSize(Some(n4)) <= data.Length
    modifies data
    ensures |priors| == 5 && forall k | 0 <= k < 5 :: |priors[k]| == EncStrSize(Text(Names(n0, n1, n2, n3, n4)[k]))
    ensures var cells := Concat(Cells(Names(n0, n1, n2, n3, n4), priors, above));
            next == i + |cells| <= data.Length && data[..] == Overwrite(mem, 0, done + cells)
    ensures next == i + EncStrSize(Some(n0)) + EncStrSize(Some(n1)) + EncStrSize(Some(n2)) + EncStrSize(Some(n3)) +
            EncStrSize(Some(n4))
  {
    hide Overwrite, EncStr, EncStrSize, Concat;
    var j, p0 := PutStr(data, i, n0, above, mem, done);
    ghost var d0 := done + EncStr(Some(n0), p0, above);
    ghost var p1, p2, p3, p4;
    j, p1 := PutStr(data, j, n1, above, mem, d0);
    ghost var d1 := d0 + EncStr(Some(n1), p1, above);
    j, p2 := PutStr(data, j, n2, above, mem, d1);
    ghost var d2 := d1 + EncStr(Some(n2), p2, above);
    j, p3 := PutStr(data, j, n3, above, mem, d2);
    ghost var d3 := d2 + EncStr(Some(n3), p3, above);
    j, p4 := PutStr(data, j, n4, above, mem, d3);
    next := j;
    priors := [p0, p1, p2, p3, p4];
    ghost var names := Names(n0, n1, n2, n3, n4);
    assert Text(names[0]) == Some(n0) && Text(names[1]) == Some(n1) && Text(names[2]) == Some(n2) &&
           Text(names[3]) == Some(n3) && Text(names[4]) == Some(n4);
    assert Cells(names, priors, above) == [EncStr(Some(n0), p0, above), EncStr(Some(n1), p1, above),
           EncStr(Some(n2), p2, above), EncStr(Some(n3), p3, above), EncStr(Some(n4), p4, above)];
    FiveCells(EncStr(Some(n0), p0, above), EncStr(Some(n1), p1, above), EncStr(Some(n2), p2, above),
        EncStr(Some(n3), p3, above), EncStr(Some(n4), p4, above), done);
  }

  /** myproto_column_def */
  method ColumnDef(id: nat, schema: seq<Byte>, table: seq<Byte>, orgTable: seq<Byte>, name: seq<Byte>,
                   orgName: seq<Byte>,
                   columnLength: nat, columnType: Byte, flags: nat, decimals: Byte, above: seq<Byte>)
    returns (p: Packet, ghost priors: seq<seq<Byte>>)
    requires 0 !in schema && 0 !in table && 0 !in orgTable && 0 !in name && 0 !in orgName && |above| == 4
    ensures Framed(p, id) && |p| == HEADER_SIZE + 17 + EncStrSize(Some(schema)) + EncStrSize(Some(table)) +
            EncStrSize(Some(orgTable)) + EncStrSize(Some(name)) + EncStrSize(Some(orgName))
    ensures IsDefinition(p, id, Names(schema, table, orgTable, name, orgName), priors, above,
            FixedPart(columnLength, columnType, flags, decimals))
  {
    hide Overwrite, EncStr, Header, Cells, FixedPart, Catalog, Names, Text;
    var length := 4 + (LencintSize(|schema|) + |schema|) + (LencintSize(|table|) + |table|) +
        (LencintSize(|orgTable|) + |orgTable|)
      + (LencintSize(|name|) + |name|) + (LencintSize(|orgName|) + |orgName|) + 1 + 2 + 4 + 1 + 2 + 1 + 2;
    var data := new Byte[length + HEADER_SIZE];
    ghost var mem := data[..];
    NothingDone(mem);
    ghost var h := Header(length, id);
    assert [] + h == h;
    var i := Put(data, 0, Header(length, id), mem, []);
    i := PutCatalog(data, i, mem, h);
    i, priors := PutNames(data, i, schema, table, orgTable, name, orgName, above, mem, h + Catalog());
    ghost var cells := Concat(Cells(Names(schema, table, orgTable, name, orgName), priors, above));
    i := PutFixed(data, i, columnLength, columnType, flags, decimals, mem, h + Catalog() + cells);
    ghost var fixed := FixedPart(columnLength, columnType, flags, decimals);
    WholeBuffer(mem, h + Catalog() + cells + fixed);
    p := data[..];
    assert p[HEADER_SIZE..] == Catalog() + cells + fixed;
  }

  method PutCatalog(data: array<Byte>, i: nat, ghost mem: seq<Byte>, ghost done: seq<Byte>) returns (next: nat)
    requires i == |done| && i + 4 <= data.Length == |mem| && data[..] == Overwrite(mem, 0, done)
    modifies data
    ensures next == i + 4 == |done + Catalog()| && data[..] == Overwrite(mem, 0, done + Catalog())
  {
    next := Put(data, i, Catalog(), mem, done);
  }

  method PutFixed(data: array<Byte>, i: nat, columnLength: nat, columnType: Byte, flags: nat, decimals: Byte,
                  ghost mem: seq<Byte>, ghost done: seq<Byte>)
    returns (next: nat)
    requires i == |done| && i + 13 <= data.Length == |mem| && data[..] == Overwrite(mem, 0, done)
    modifies data
    ensures next == i + 13 && data[..] == Overwrite(mem, 0, done + FixedPart(columnLength, columnType, flags, decimals))
  {
    hide Overwrite, Le;
    next := Put(data, i, [0x0c, 0x21, 0x00], mem, done);
    ghost var d := done + [0x0c, 0x21, 0x00];
    next := Put(data, next, Le(columnLength, 4), mem, d);
    next := Put(data, next, [columnType], mem, d + Le(columnLength, 4));
    next := Put(data, next, Le(flags, 2), mem, d + Le(columnLength, 4) + [columnType]);
    next := Put(data, next, [decimals], mem, d + Le(columnLength, 4) + [columnType] + Le(flags, 2));
    next := Put(data, next, [0, 0], mem, d + Le(columnLength, 4) + [columnType] + Le(flags, 2) + [decimals]);
    assert d + Le(columnLength, 4) + [columnType] + Le(flags, 2) + [decimals] + [0, 0] ==
           done + FixedPart(columnLength, columnType, flags, decimals);
  }

  /** The names of a definition read back when they are shorter than 65536 bytes. */
  lemma DefinitionRoundTrip(p: Packet, id: nat, names: Row, priors: seq<seq<Byte>>, above: seq<Byte>, fixed: seq<Byte>)
    requires IsDefinition(p, id, names, priors, above, fixed)
    requires forall c | c in names :: c.Some? && |c.value| < 65536 && 0 !in c.value
    ensures |p| >= HEADER_SIZE + 4 && DecodeRow(p[HEADER_SIZE + 4..], |names|) == Some(names)
  {
    hide Cells, Concat, DecodeRow, Header, Catalog, EncStrSize, Text;
    BehindCatalog(p, Concat(Cells(names, priors, above)), fixed);
    ShortRowDecodes(names, priors, above, fixed);
  }

  lemma BehindCatalog(p: Packet, cells: seq<Byte>, fixed: seq<Byte>)
    requires |p| >= HEADER_SIZE && p[HEADER_SIZE..] == Catalog() + cells + fixed
    ensures |p| >= HEADER_SIZE + 4 && p[HEADER_SIZE + 4..] == cells + fixed
  {
    assert p[HEADER_SIZE + 4..] == p[HEADER_SIZE..][4..];
  }

  /** The fields of a definition, each where the protocol puts it. */
  lemma DefinitionFields(p: Packet, id: nat, schema: seq<Byte>, table: seq<Byte>, orgTable: seq<Byte>, name: seq<Byte>,
                         orgName: seq<Byte>, columnLength: nat, columnType: Byte, flags: nat, decimals: Byte,
                         priors: seq<seq<Byte>>, above: seq<Byte>)
    requires IsDefinition(p, id, Names(schema, table, orgTable, name, orgName), priors, above,
               FixedPart(columnLength, columnType, flags, decimals))
    requires forall s | s in [schema, table, orgTable, name, orgName] :: |s| < 65536 && 0 !in s
    requires columnLength < 0x1_0000_0000 && flags < 65536
    ensures |p| >= HEADER_SIZE + 17
    ensures p[HEADER_SIZE..HEADER_SIZE + 4] == [3, 'd' as int, 'e' as int, 'f' as int]
    ensures DecodeRow(p[HEADER_SIZE + 4..], 5) ==
            Some([Some(schema), Some(table), Some(orgTable), Some(name), Some(orgName)])
    ensures var f := p[|p| - 13..];
            && f[0] == 12 && f[1] == 33 && f[2] == 0 && FromLe(f[3..7]) == columnLength && f[7] == columnType
            && FromLe(f[8..10]) == flags && f[10] == decimals && f[11] == 0 && f[12] == 0
  {
    var names := Names(schema, table, orgTable, name, orgName);
    var fixed := FixedPart(columnLength, columnType, flags, decimals);
    assert forall s | s in [schema, table, orgTable, name, orgName] :: |s| < 65536 && 0 !in s;
    assert names == [Some(schema), Some(table), Some(orgTable), Some(name), Some(orgName)];
    assert forall c | c in names :: c.Some? && c.value in [schema, table, orgTable, name, orgName];
    hide FixedPart, Names, Cells, Concat, EncStr, DecodeRow;
    DefinitionRoundTrip(p, id, names, priors, above, fixed);
    var payload, cells := p[HEADER_SIZE..], Concat(Cells(names, priors, above));
    Slices(p, cells, fixed);
    FixedFields(columnLength, columnType, flags, decimals);
  }

  lemma Slices(p: Packet, cells: seq<Byte>, fixed: seq<Byte>)
    requires |p| >= HEADER_SIZE && p[HEADER_SIZE..] == Catalog() + cells + fixed && |fixed| == 13
    ensures |p| >= HEADER_SIZE + 17 && p[HEADER_SIZE..HEADER_SIZE + 4] == [3, 0x64, 0x65, 0x66]
    ensures p[|p| - 13..] == fixed
  {
    var payload := p[HEADER_SIZE..];
    assert p[HEADER_SIZE..HEADER_SIZE + 4] == payload[..4];
    assert p[|p| - 13..] == payload[|payload| - 13..];
  }

  lemma FixedFields(columnLength: nat, columnType: Byte, flags: nat, decimals: Byte)
    requires columnLength < 0x1_0000_0000 && flags < 65536
    ensures var f := FixedPart(columnLength, columnType, flags, decimals);
            && f[0] == 12 && f[1] == 33 && f[2] == 0 && FromLe(f[3..7]) == columnLength && f[7] == columnType
            && FromLe(f[8..10]) == flags && f[10] == decimals && f[11] == 0 && f[12] == 0
  {
    hide Le, FromLe;
    var f := FixedPart(columnLength, columnType, flags, decimals);
    assert f[3..7] == Le(columnLength, 4) && f[8..10] == Le(flags, 2);
    Powers();
    FromLeLe(columnLength, 4);
    FromLeLe(flags, 2);
  }

  // ----- the output array -----

  /** A slot of the output array: a packet, or the NULL of an empty space. */
  type Slot = Option<Packet>

  function Full(ps: seq<Packet>): (r: seq<Slot>)
    ensures |r| == |ps|
  {
    seq(|ps|, k requires 0 <= k < |ps| => Some(ps[k]))
  }

  function Empty(n: nat): (r: seq<Slot>)
    ensures |r| == n
  {
    seq(n, _ => None)
  }

  method AddSpaces(out: PtrArray<Slot>, cols: nat)
    requires out.Valid()
    modifies out, out.pdata
    ensures out.Valid() && (out.pdata == old(out.pdata) || fresh(out.pdata)) &&
            out.Contents() == old(out.Contents()) + Empty(cols)
  {
    ghost var start := out.Contents();
    var col := 0;
    while col < cols
      invariant 0 <= col <= cols && out.Valid() && (out.pdata == old(out.pdata) || fresh(out.pdata))
      invariant out.Contents() == start + Empty(col)
    {
      out.Add(None);
      assert start + Empty(col) + [None] == start + Empty(col + 1);
      col := col + 1;
    }
  }

  ghost predicate AreRowPackets(ps: seq<Packet>, rows: seq<Row>, firstId: nat, priors: seq<seq<seq<Byte>>>,
                                above: seq<Byte>) {
    |ps| == |rows| == |priors| && forall k | 0 <= k < |rows| ::
        IsRowPacket(ps[k], rows[k], firstId + k, priors[k], above)
  }

  method AddRows(out: PtrArray<Slot>, rows: seq<Row>, cols: nat, above: seq<Byte>)
    returns (ghost ps: seq<Packet>, ghost priors: seq<seq<seq<Byte>>>)
    requires out.Valid() && |above| == 4
    modifies out, out.pdata
    ensures out.Valid() && (out.pdata == old(out.pdata) || fresh(out.pdata))
    ensures AreRowPackets(ps, rows, cols + 3, priors, above) && out.Contents() == old(out.Contents()) + Full(ps)
  {
    hide IsRowPacket;
    ghost var start := out.Contents();
    ps, priors := [], [];
    var rownum := 0;
    while rownum < |rows|
      invariant 0 <= rownum <= |rows| && out.Valid() && (out.pdata == old(out.pdata) || fresh(out.pdata))
      invariant AreRowPackets(ps, rows[..rownum], cols + 3, priors, above) && out.Contents() == start + Full(ps)
    {
      var p, prior := BuildRow(rows[rownum], cols + 3 + rownum, above);
      out.Add(Some(p));
      FullSnoc(start, ps, p);
      ps, priors := ps + [p], priors + [prior];
      rownum := rownum + 1;
    }
    assert rows[..rownum] == rows;
  }

  lemma FullSnoc(start: seq<Slot>, ps: seq<Packet>, p: Packet)
    ensures start + Full(ps) + [Some(p)] == start + Full(ps + [p])
  {
  }

  /** The definition that the builder makes for a column. */
  ghost predicate IsColumn(p: Packet, id: nat, name: seq<Byte>, priors: seq<seq<Byte>>, above: seq<Byte>) {
    IsDefinition(p, id, Names([], [], [], name, []), priors, above, FixedPart(100, MYSQL_TYPE_VARCHAR, 0, 0))
  }

  ghost predicate AreColumns(ps: seq<Packet>, names: seq<seq<Byte>>, priors: seq<seq<seq<Byte>>>, above: seq<Byte>) {
    |ps| == |names| == |priors| && forall k | 0 <= k < |names| :: IsColumn(ps[k], k + 2, names[k], priors[k], above)
  }

  /** Positions 1 .. |defs| of the array taken over by the definitions. */
  function Placed(pre: seq<Slot>, defs: seq<Packet>): (r: seq<Slot>)
    requires 1 + |defs| <= |pre|
    ensures |r| == |pre| && (defs == [] ==> r == pre)
  {
    pre[..1] + Full(defs) + pre[1 + |defs|..]
  }

  lemma PlaceOne(pre: seq<Slot>, defs: seq<Packet>, d: Packet)
    requires 2 + |defs| <= |pre|
    ensures var s := Placed(pre, defs) + [Some(d)];
            s[|defs| + 1 := s[|s| - 1]][..|s| - 1] == Placed(pre, defs + [d])
  {
  }

  /** The trick: append, then remove from the position wanted, which the appended packet takes. */
  method PlaceDefinitions(out: PtrArray<Slot>, names: seq<seq<Byte>>, above: seq<Byte>)
    returns (ghost defs: seq<Packet>, ghost priors: seq<seq<seq<Byte>>>)
    requires out.Valid() && |above| == 4 && 1 + |names| <= out.len && forall name | name in names :: 0 !in name
    modifies out, out.pdata
    ensures out.Valid() && (out.pdata == old(out.pdata) || fresh(out.pdata))
    ensures AreColumns(defs, names, priors, above) && out.Contents() == Placed(old(out.Contents()), defs)
  {
    hide IsColumn, Placed, Full, PtrArray.Contents;
    ghost var pre := out.Contents();
    defs, priors := [], [];
    var col := 0;
    while col < |names|
      invariant 0 <= col <= |names| && out.Valid() && (out.pdata == old(out.pdata) || fresh(out.pdata))
      invariant AreColumns(defs, names[..col], priors, above) && out.Contents() == Placed(pre, defs)
    {
      assert names[col] in names;
      var p, prior := BuildColumn(col + 2, names[col], above);
      out.Add(Some(p));
      PlaceOne(pre, defs, p);
      var r := out.RemoveIndexFast(col + 1);
      defs, priors := defs + [p], priors + [prior];
      col := col + 1;
    }
    assert names[..col] == names;
  }

  method BuildColumn(id: nat, name: seq<Byte>, above: seq<Byte>) returns (p: Packet, ghost priors: seq<seq<Byte>>)
    requires 0 !in name && |above| == 4
    ensures IsColumn(p, id, name, priors, above)
  {
    p, priors := ColumnDef(id, [], [], [], name, [], 100, MYSQL_TYPE_VARCHAR, 0, 0, above);
  }

  // ----- the whole result set -----

  ghost predicate IsEofPacket(p: Packet, id: nat) {
    p == Header(5, id) + [0xfe] + Le(0, 2) + Le(STATUS, 2)
  }

  /** The packets of a result: count, definitions, EOF, rows, EOF, numbered from 1. */
  ghost predicate IsResult(r: Response, names: seq<seq<Byte>>, rows: seq<Row>, above: seq<Byte>,
                           defPriors: seq<seq<seq<Byte>>>, rowPriors: seq<seq<seq<Byte>>>) {
    && r.ResultSet? && |names| < 0x1_0000_0000_0000_0000
    && r.count == Header(LencintSize(|names|), 1) + EncInt(|names|)
    && AreColumns(r.definitions, names, defPriors, above)
    && IsEofPacket(r.eof, 2 + |names|)
    && AreRowPackets(r.rows, rows, |names| + 3, rowPriors, above)
    && IsEofPacket(r.last, 3 + |names| + |rows|)
  }

  /** What the array holds at the end, whatever it held before. */
  function FinalArray(start: seq<Slot>, r: Response): seq<Slot>
    requires r.ResultSet?
  {
    Placed(start + [Some(r.count)] + Empty(|r.definitions|) + [Some(r.eof)] + Full(r.rows), r.definitions) +
        [Some(r.last)]
  }

  /** mysql_pkt_to_sqlite_exec from the column count on. */
  method Build(out: PtrArray<Slot>, names: seq<seq<Byte>>, rows: seq<Row>, above: seq<Byte>)
    returns (ghost r: Response, ghost defPriors: seq<seq<seq<Byte>>>, ghost rowPriors: seq<seq<seq<Byte>>>)
    requires out.Valid() && |above| == 4 && |names| < 0x1_0000_0000_0000_0000 && forall name | name in names ::
             0 !in name
    modifies out, out.pdata
    ensures out.Valid() && IsResult(r, names, rows, above, defPriors, rowPriors)
    ensures out.Contents() == FinalArray(old(out.Contents()), r)
  {
    hide AreColumns, AreRowPackets, Header, Placed, EncInt, Le, Full, Empty;
    var cols := |names|;
    ghost var count, eof, ps, defs;
    count, eof, ps, rowPriors := BuildFront(out, cols, rows, above);
    defs, defPriors := PlaceDefinitions(out, names, above);
    var last := Eof(3 + cols + |rows|, 0, STATUS);
    out.Add(Some(last));
    r := ResultSet(count, defs, eof, ps, last);
    Counts(r, names, defPriors, above);
  }

  /** Everything before the definitions, with empty spaces for them. */
  method BuildFront(out: PtrArray<Slot>, cols: nat, rows: seq<Row>, above: seq<Byte>)
    returns (ghost count: Packet, ghost eof: Packet, ghost ps: seq<Packet>, ghost rowPriors: seq<seq<seq<Byte>>>)
    requires out.Valid() && |above| == 4 && cols < 0x1_0000_0000_0000_0000
    modifies out, out.pdata
    ensures out.Valid() && (out.pdata == old(out.pdata) || fresh(out.pdata))
    ensures count == Header(LencintSize(cols), 1) + EncInt(cols) && IsEofPacket(eof, 2 + cols) &&
            AreRowPackets(ps, rows, cols + 3, rowPriors, above)
    ensures out.Contents() == old(out.Contents()) + [Some(count)] + Empty(cols) + [Some(eof)] + Full(ps)
  {
    hide AreRowPackets, Header, EncInt, Le, Full, Empty;
    var c := ColumnCount(1, cols);
    out.Add(Some(c));
    AddSpaces(out, cols);
    var e := Eof(2 + cols, 0, STATUS);
    out.Add(Some(e));
    ps, rowPriors := AddRows(out, rows, cols, above);
    count, eof := c, e;
  }

  lemma Counts(r: Response, names: seq<seq<Byte>>, priors: seq<seq<seq<Byte>>>, above: seq<Byte>)
    requires r.ResultSet? && AreColumns(r.definitions, names, priors, above)
    ensures |r.definitions| == |names|
  {
  }

  /** Started on an empty array, the builder leaves exactly the packets of the response, in order. */
  lemma FinalFromEmpty(r: Response)
    requires r.ResultSet?
    ensures FinalArray([], r) == Full(r.Packets())
  {
    var c := |r.definitions|;
    var pre := [] + [Some(r.count)] + Empty(c) + [Some(r.eof)] + Full(r.rows);
    assert pre[..1] == [Some(r.count)];
    assert pre[1 + c..] == [Some(r.eof)] + Full(r.rows);
    assert FinalArray([], r) == [Some(r.count)] + Full(r.definitions) + [Some(r.eof)] + Full(r.rows) + [Some(r.last)];
  }

  /** Started on an array that holds m packets, it leaves the last empty space unfilled at m + columns. */
  lemma FinalLeavesGap(start: seq<Slot>, r: Response)
    requires r.ResultSet? && start != [] && r.definitions != []
    ensures |FinalArray(start, r)| == |start| + |r.Packets()| && FinalArray(start, r)[|start| + |r.definitions|] == None
  {
    var m, c := |start|, |r.definitions|;
    var pre := start + [Some(r.count)] + Empty(c) + [Some(r.eof)] + Full(r.rows);
    assert pre[m + c] == None;
    assert FinalArray(start, r)[m + c] == pre[m + c];
  }

  /** The array ends with the response behind what was there exactly when nothing was there. */
  lemma FinalIff(start: seq<Slot>, r: Response)
    requires r.ResultSet? && r.definitions != []
    ensures FinalArray(start, r) == start + Full(r.Packets()) <==> start == []
  {
    if start == [] {
      FinalFromEmpty(r);
      assert [] + Full(r.Packets()) == Full(r.Packets());
    } else {
      FinalLeavesGap(start, r);
      var k := |start| + |r.definitions|;
      assert (start + Full(r.Packets()))[k] == Full(r.Packets())[|r.definitions|];
    }
  }

  // ----- what the client makes of it -----

  lemma EofFramed(p: Packet, id: nat)
    requires IsEofPacket(p, id)
    ensures Framed(p, id) && IsEof(p)
  {
    assert p[..HEADER_SIZE] == Header(5, id);
    assert p[HEADER_SIZE] == 0xfe;
  }

  lemma CountFramed(p: Packet, n: nat)
    requires 0 < n < 0x1_0000_0000_0000_0000 && p == Header(LencintSize(n), 1) + EncInt(n)
    ensures Framed(p, 1) && (n < 16777216 ==> IsColumnCountOrDefinition(p))
  {
    assert p[..HEADER_SIZE] == Header(LencintSize(n), 1);
    assert p[HEADER_SIZE] == EncInt(n)[0];
  }

  lemma ColumnFramed(p: Packet, id: nat, name: seq<Byte>, priors: seq<seq<Byte>>, above: seq<Byte>)
    requires IsColumn(p, id, name, priors, above)
    ensures Framed(p, id) && IsColumnCountOrDefinition(p)
  {
    assert p[HEADER_SIZE] == p[HEADER_SIZE..][0] == 0x03;
  }

  /** A cell never starts like an ERR packet, and like an EOF packet only when it is longer than one. */
  lemma CellStart(c: Cell, prior: seq<Byte>, above: seq<Byte>)
    requires |prior| == EncStrSize(Text(c)) && |above| == 4
    ensures var e := EncStr(Text(c), prior, above); e[0] != 0xff && (e[0] == 0xfe ==> |e| >= 9)
  {
    hide CString, Le;
  }

  lemma RowFramed(p: Packet, row: Row, id: nat, priors: seq<seq<Byte>>, above: seq<Byte>)
    requires IsRowPacket(p, row, id, priors, above) && row != []
    ensures Framed(p, id) && IsRow(p)
  {
    hide RowLength, Header, EncStr, Text, Cells, Concat;
    var cells := Concat(Cells(row, priors, above));
    var rest := Concat(Cells(row[1..], priors[1..], above)) + [];
    CellsFirst(row, priors, above, []);
    var first := EncStr(Text(row[0]), priors[0], above);
    assert cells == first + rest;
    CellStart(row[0], priors[0], above);
    var payload := p[HEADER_SIZE..];
    assert p[HEADER_SIZE] == payload[0] == cells[0] == first[0];
  }

  /**
   The response is well formed, so whoever relays or reads it finds its end at the last packet;
   and the packet at position k carries the id k + 1, modulo 256.
   */
  lemma ResultIsResponse(r: Response, names: seq<seq<Byte>>, rows: seq<Row>, above: seq<Byte>,
                         defPriors: seq<seq<seq<Byte>>>, rowPriors: seq<seq<seq<Byte>>>)
    requires IsResult(r, names, rows, above, defPriors, rowPriors) && 0 < |names| < 16777216
    requires forall row | row in rows :: |row| == |names|
    ensures r.WellFormed()
    ensures forall k | 0 <= k < |r.Packets()| :: Framed(r.Packets()[k], k + 1)
  {
    hide Header, EncInt, IsRowPacket, IsColumn, IsEofPacket, Framed, IsRow, IsColumnCountOrDefinition, IsEof;
    CountFramed(r.count, |names|);
    EofFramed(r.eof, 2 + |names|);
    EofFramed(r.last, 3 + |names| + |rows|);
    forall k | 0 <= k < |names|
      ensures Framed(r.definitions[k], k + 2) && IsColumnCountOrDefinition(r.definitions[k])
    {
      ColumnFramed(r.definitions[k], k + 2, names[k], defPriors[k], above);
    }
    forall k | 0 <= k < |rows|
      ensures Framed(r.rows[k], |names| + 3 + k) && IsRow(r.rows[k])
    {
      assert rows[k] in rows;
      RowFramed(r.rows[k], rows[k], |names| + 3 + k, rowPriors[k], above);
    }
    forall k | 0 <= k < |r.Packets()|
      ensures Framed(r.Packets()[k], k + 1)
    {
      PositionOf(r, k);
    }
  }

  /**
   What a client reads from the packets: the number of columns, their names, and the rows, NULL and empty text told
   apart, if no name or text has 65536 bytes or more or a NUL inside; no transaction is reported.
   */
  lemma ResultReadsBack(r: Response, names: seq<seq<Byte>>, rows: seq<Row>, above: seq<Byte>,
                        defPriors: seq<seq<seq<Byte>>>, rowPriors: seq<seq<seq<Byte>>>, k: nat)
    requires IsResult(r, names, rows, above, defPriors, rowPriors)
    requires forall s | s in names :: |s| < 65536 && 0 !in s
    requires forall row | row in rows :: forall c | c in row :: c.Some? ==> |c.value| < 65536 && 0 !in c.value
    ensures |r.count| > HEADER_SIZE && DecodeInt(r.count[HEADER_SIZE..]) == Some((|names|, |r.count| - HEADER_SIZE))
    ensures |r.definitions| == |names| && |r.rows| == |rows|
    ensures k < |names| ==> ReadsAs(r.definitions[k], 4, [Some([]), Some([]), Some([]), Some(names[k]), Some([])])
    ensures k < |names| ==> var d := r.definitions[k];
                            |d| >= 13 && FromLe(d[|d| - 13..][3..7]) == 100 && d[|d| - 13..][7] == MYSQL_TYPE_VARCHAR
    ensures k < |rows| ==> ReadsAs(r.rows[k], 0, rows[k])
    ensures r.eof[HEADER_SIZE..] == r.last[HEADER_SIZE..] == [0xfe, 0, 0, 34, 0]
  {
    hide IsRowPacket, IsColumn, IsEofPacket, EncInt, DecodeInt, Header, ReadsAs;
    CountReadsBack(r.count, |names|);
    EofPayload(r.eof, 2 + |names|);
    EofPayload(r.last, 3 + |names| + |rows|);
    if k < |names| {
      assert names[k] in names;
      ColumnReadsBack(r.definitions[k], k + 2, names[k], defPriors[k], above);
    }
    if k < |rows| {
      assert rows[k] in rows;
      RowReadsBack(r.rows[k], rows[k], |names| + 3 + k, rowPriors[k], above);
    }
  }

  /** Behind the header and so many more bytes, the packet reads as these texts. */
  predicate ReadsAs(p: Packet, skip: nat, texts: Row) {
    |p| >= HEADER_SIZE + skip && DecodeRow(p[HEADER_SIZE + skip..], |texts|) == Some(texts)
  }

  lemma CountReadsBack(p: Packet, n: nat)
    requires n < 0x1_0000_0000_0000_0000 && p == Header(LencintSize(n), 1) + EncInt(n)
    ensures |p| > HEADER_SIZE && DecodeInt(p[HEADER_SIZE..]) == Some((n, |p| - HEADER_SIZE))
  {
    hide EncInt, DecodeInt, Header;
    IntRoundTrip(n, []);
    assert p[HEADER_SIZE..] == EncInt(n) + [];
  }

  lemma RowReadsBack(p: Packet, row: Row, id: nat, priors: seq<seq<Byte>>, above: seq<Byte>)
    requires IsRowPacket(p, row, id, priors, above)
    requires forall c | c in row :: c.Some? ==> |c.value| < 65536 && 0 !in c.value
    ensures ReadsAs(p, 0, row)
  {
    RowRoundTrip(p, row, id, priors, above);
  }

  lemma ColumnReadsBack(p: Packet, id: nat, name: seq<Byte>, priors: seq<seq<Byte>>, above: seq<Byte>)
    requires IsColumn(p, id, name, priors, above) && |name| < 65536 && 0 !in name
    ensures ReadsAs(p, 4, [Some([]), Some([]), Some([]), Some(name), Some([])])
    ensures |p| >= 13 && FromLe(p[|p| - 13..][3..7]) == 100 && p[|p| - 13..][7] == MYSQL_TYPE_VARCHAR
  {
    hide FixedPart, IsDefinition, DecodeRow;
    DefinitionFields(p, id, [], [], [], name, [], 100, MYSQL_TYPE_VARCHAR, 0, 0, priors, above);
  }

  lemma EofPayload(p: Packet, id: nat)
    requires IsEofPacket(p, id)
    ensures |p| == HEADER_SIZE + 5 && p[HEADER_SIZE..] == [0xfe, 0, 0, 34, 0]
  {
    hide Header;
    assert Le(0, 2) == [0, 0] && Le(STATUS, 2) == [34, 0];
    assert p[HEADER_SIZE..] == [0xfe] + Le(0, 2) + Le(STATUS, 2);
  }

  lemma PositionOf(r: Response, k: nat)
    requires r.ResultSet? && k < |r.Packets()|
    ensures var c := |r.definitions|;
            r.Packets()[k] ==
              if k == 0 then r.count else if k <= c then r.definitions[k - 1] else if k == c + 1 then r.eof
              else if k < c + 2 + |r.rows| then r.rows[k - c - 2] else r.last
  {
  }
}
