/**
 MySQL packet framing: a 3-byte little-endian payload length, a 1-byte sequence
 id, and the payload (section 14.1.2 "MySQL Packets" of the MySQL Internals Manual).
 A byte stream has exactly one reading as packets followed by an incomplete tail.
 */
module Framing {
  import opened Wire

  const HEADER_SIZE := 4

  function PayloadLength(h: seq<Byte>): nat
    requires |h| >= 3
  {
    h[0] as int + 256 * (h[1] as int) + 65536 * (h[2] as int)
  }

  /** A packet whose header announces exactly its payload. */
  predicate WellFormed(p: seq<Byte>) {
    |p| >= HEADER_SIZE && |p| == HEADER_SIZE + PayloadLength(p)
  }

  /** A byte string that does not yet hold a whole packet. */
  predicate Incomplete(s: seq<Byte>) {
    |s| < HEADER_SIZE || |s| < HEADER_SIZE + PayloadLength(s)
  }

  predicate IsParse(s: seq<Byte>, ps: seq<seq<Byte>>, rest: seq<Byte>) {
    && Concat(ps) + rest == s
    && (forall p | p in ps :: WellFormed(p))
    && Incomplete(rest)
  }

  /** Every byte string can be read as packets and an incomplete tail. */
  function Parse(s: seq<Byte>): (r: (seq<seq<Byte>>, seq<Byte>))
    ensures IsParse(s, r.0, r.1)
    decreases |s|
  {
    if Incomplete(s) then ([], s)
    else
      var n := HEADER_SIZE + PayloadLength(s);
      var (ps, rest) := Parse(s[n..]);
      assert s == s[..n] + s[n..];
      assert s[..n] + (Concat(ps) + rest) == (s[..n] + Concat(ps)) + rest;
      assert ([s[..n]] + ps)[1..] == ps;
      ([s[..n]] + ps, rest)
  }

  /** The reading is unique: no other cut of the stream respects the headers. */
  lemma {:induction false} ParseUnique(s: seq<Byte>, ps: seq<seq<Byte>>, rest: seq<Byte>)
    requires IsParse(s, ps, rest)
    ensures Parse(s) == (ps, rest)
    decreases |ps|
  {
    if ps == [] {
      assert s == rest;
    } else {
      var p := ps[0];
      assert WellFormed(p);
      assert s == p + (Concat(ps[1..]) + rest);
      assert s[..|p|] == p && s[|p|..] == Concat(ps[1..]) + rest;
      assert PayloadLength(s) == PayloadLength(p);
      ParseUnique(s[|p|..], ps[1..], rest);
      assert ps == [p] + ps[1..];
    }
  }

  lemma Reassociate(s: seq<Byte>, t: seq<Byte>, ps: seq<seq<Byte>>, rest: seq<Byte>, qs: seq<seq<Byte>>,
                    rest': seq<Byte>)
    requires s == Concat(ps) + rest && rest + t == Concat(qs) + rest'
    ensures Concat(ps + qs) + rest' == s + t
  {
    ConcatAppend(ps, qs);
    assert s + t == Concat(ps) + (rest + t);
    assert (Concat(ps) + Concat(qs)) + rest' == Concat(ps) + (Concat(qs) + rest');
  }

  /** Parsing what is left over together with later bytes continues the parse of the whole. */
  lemma ParseExtend(s: seq<Byte>, t: seq<Byte>)
    ensures Parse(s + t) == (Parse(s).0 + Parse(Parse(s).1 + t).0, Parse(Parse(s).1 + t).1)
  {
    var (ps, rest) := Parse(s);
    var (qs, rest') := Parse(rest + t);
    Reassociate(s, t, ps, rest, qs, rest');
    ParseUnique(s + t, ps + qs, rest');
  }

  /** Framing undoes flattening. */
  lemma ParseConcat(ps: seq<seq<Byte>>)
    requires forall p | p in ps :: WellFormed(p)
    ensures Parse(Concat(ps)) == (ps, [])
  {
    assert Concat(ps) + [] == Concat(ps);
    ParseUnique(Concat(ps), ps, []);
  }
}
