/**
 Length-encoded integers and strings (section 14.1.1 "Basic Types" of the MySQL Internals
 Manual): writing them into a buffer at an offset, and reading them back.
 */
module LengthEncoding {
  import opened Wire
  import opened ServerResponse

  // ----- little-endian integers -----

  function Le(v: nat, n: nat): (s: seq<Byte>)
    ensures |s| == n
  {
    if n == 0 then [] else [v % 256] + Le(v / 256, n - 1)
  }

  function FromLe(s: seq<Byte>): nat {
    if s == [] then 0 else s[0] as int + 256 * FromLe(s[1..])
  }

  function Pow256(n: nat): nat {
    if n == 0 then 1 else 256 * Pow256(n - 1)
  }

  lemma {:induction false} FromLeLe(v: nat, n: nat)
    requires v < Pow256(n)
    ensures FromLe(Le(v, n)) == v
  {
    if n > 0 {
      FromLeLe(v / 256, n - 1);
      assert Le(v, n)[1..] == Le(v / 256, n - 1);
    }
  }

  lemma LowByte(b: Byte, high: nat)
    ensures (b as int + 256 * high) % 256 == b && (b as int + 256 * high) / 256 == high
  {
  }

  lemma {:induction false} LeFromLe(s: seq<Byte>)
    ensures Le(FromLe(s), |s|) == s && FromLe(s) < Pow256(|s|)
  {
    if s != [] {
      LeFromLe(s[1..]);
      LowByte(s[0], FromLe(s[1..]));
      assert s == [s[0]] + s[1..];
    }
  }

  lemma Powers()
    ensures Pow256(2) == 65536 && Pow256(3) == 16777216 && Pow256(4) == 0x1_0000_0000 &&
            Pow256(8) == 0x1_0000_0000_0000_0000
  {
    assert Pow256(3) == 256 * Pow256(2);
    assert Pow256(4) == 256 * Pow256(3);
    assert Pow256(6) == 256 * (256 * Pow256(4));
    assert Pow256(8) == 256 * (256 * Pow256(6));
  }

  // ----- writing into a buffer -----

  function Overwrite(mem: seq<Byte>, at: nat, bytes: seq<Byte>): (r: seq<Byte>)
    requires at + |bytes| <= |mem|
    ensures |r| == |mem|
  {
    mem[..at] + bytes + mem[at + |bytes|..]
  }

  lemma OverwriteNext(mem: seq<Byte>, at: nat, a: seq<Byte>, b: seq<Byte>)
    requires at + |a| + |b| <= |mem|
    ensures Overwrite(Overwrite(mem, at, a), at + |a|, b) == Overwrite(mem, at, a + b)
  {
  }

  lemma OverwriteSnoc(mem: seq<Byte>, at: nat, bytes: seq<Byte>, k: nat)
    requires at + |bytes| <= |mem| && k < |bytes|
    ensures Overwrite(mem, at, bytes[..k])[at + k := bytes[k]] == Overwrite(mem, at, bytes[..k + 1])
  {
  }

  /** Bytes that stay as they are may be taken for written. */
  lemma OverwriteKept(mem: seq<Byte>, at: nat, a: seq<Byte>, n: nat)
    requires at + |a| + n <= |mem|
    ensures Overwrite(mem, at, a) == Overwrite(mem, at, a + mem[at + |a|..at + |a| + n])
  {
  }

  /** MEM_COPY_FWD */
  method CopyForward(buf: array<Byte>, at: nat, bytes: seq<Byte>)
    requires at + |bytes| <= buf.Length
    modifies buf
    ensures buf[..] == Overwrite(old(buf[..]), at, bytes)
  {
    ghost var mem := buf[..];
    assert Overwrite(mem, at, bytes[..0]) == mem;
    hide Overwrite;
    var k := 0;
    while k < |bytes|
      invariant 0 <= k <= |bytes|
      invariant buf[..] == Overwrite(mem, at, bytes[..k])
    {
      ghost var before := buf[..];
      buf[at + k] := bytes[k];
      assert buf[..] == before[at + k := bytes[k]];
      OverwriteSnoc(mem, at, bytes, k);
      k := k + 1;
    }
    assert bytes[..k] == bytes;
  }

  // ----- integers -----

  function EncInt(v: nat): (s: seq<Byte>)
    requires v < 0x1_0000_0000_0000_0000
    ensures |s| == LencintSize(v)
  {
    if v < 251 then [v]
    else if v < 65536 then [0xfc] + Le(v, 2)
    else if v < 16777216 then [0xfd] + Le(v, 3)
    else [0xfe] + Le(v, 8)
  }

  /** The value and the number of bytes it takes; 0xfb and 0xff start no integer. */
  function DecodeInt(s: seq<Byte>): Option<(nat, nat)> {
    if s == [] || !StartsInteger(s[0]) || |s| < EncodedSize(s[0]) then None
    else if s[0] < 251 then Some((s[0] as int, 1))
    else Some((FromLe(s[1..EncodedSize(s[0])]), EncodedSize(s[0])))
  }

  /** writeencint */
  method WriteEncInt(buf: array<Byte>, at: nat, v: nat) returns (l: nat)
    requires v < 0x1_0000_0000_0000_0000 && at + LencintSize(v) <= buf.Length
    modifies buf
    ensures l == LencintSize(v) && buf[..] == Overwrite(old(buf[..]), at, EncInt(v))
  {
    l := LencintSize(v);
    if l == 1 {
      CopyForward(buf, at, [v]);
    } else {
      var marker: Byte := if l == 3 then 0xfc else if l == 4 then 0xfd else 0xfe;
      CopyForward(buf, at, [marker]);
      CopyForward(buf, at + 1, Le(v, l - 1));
      OverwriteNext(old(buf[..]), at, [marker], Le(v, l - 1));
    }
  }

  /** Reading undoes writing, whatever follows. */
  lemma IntRoundTrip(v: nat, tail: seq<Byte>)
    requires v < 0x1_0000_0000_0000_0000
    ensures DecodeInt(EncInt(v) + tail) == Some((v, LencintSize(v)))
  {
    Powers();
    if v >= 251 {
      var n := LencintSize(v) - 1;
      FromLeLe(v, n);
      assert (EncInt(v) + tail)[1..n + 1] == Le(v, n);
    }
  }

  lemma LeCons(v: nat, n: nat, low: Byte, high: nat)
    requires v == low as int + 256 * high
    ensures Le(v, n + 1) == [low] + Le(high, n)
  {
    LowByte(low, high);
  }

  lemma LeNone(v: nat)
    ensures Le(v, 0) == []
  {
  }

  lemma TwoBytes(v: nat, a: Byte, b: Byte)
    requires v == a as int + 256 * b as int
    ensures Le(v, 2) == [a, b]
  {
    hide Le;
    LeNone(0);
    LeCons(b, 0, b, 0);
    LeCons(v, 1, a, b);
  }

  lemma ThreeBytes(v: nat, a: Byte, b: Byte, c: Byte)
    requires v == a as int + 256 * (b as int + 256 * c as int)
    ensures Le(v, 3) == [a, b, c]
  {
    hide Le;
    TwoBytes(b as int + 256 * c as int, b, c);
    LeCons(v, 2, a, b as int + 256 * c as int);
  }

  /** At the borders of the four forms. */
  lemma IntForms()
    ensures EncInt(250) == [250] && EncInt(251) == [0xfc, 251, 0] && EncInt(65535) == [0xfc, 255, 255]
    ensures EncInt(65536) == [0xfd, 0, 0, 1] && EncInt(16777215) == [0xfd, 255, 255, 255]
    ensures |EncInt(16777216)| == 9 && EncInt(16777216)[0] == 0xfe && EncInt(16777216)[1..4] == [0, 0, 0]
  {
    hide Le;
    TwoBytes(251, 251, 0);
    TwoBytes(65535, 255, 255);
    ThreeBytes(65536, 0, 0, 1);
    ThreeBytes(16777215, 255, 255, 255);
    LeCons(65536, 6, 0, 256);
    LeCons(256, 5, 0, 1);
    LeCons(16777216, 7, 0, 65536);
    assert EncInt(16777216)[1..4] == Le(16777216, 8)[..3];
  }

  // ----- strings -----

  const MAX_INT := 0x7fff_ffff

  /** A C string: what strlen() sees of a byte string that is followed by a NUL. */
  function CString(bytes: seq<Byte>): (t: seq<Byte>)
    ensures |t| <= |bytes| && 0 !in t && (|t| == |bytes| <==> 0 !in bytes) && (0 !in bytes ==> t == bytes)
    ensures t <= bytes && (|t| < |bytes| ==> bytes[|t|] == 0)
  {
    if bytes == [] || bytes[0] == 0 then [] else
      assert bytes == [bytes[0]] + bytes[1..];
      [bytes[0]] + CString(bytes[1..])
  }

  function EncStrSize(s: Option<seq<Byte>>): (n: nat)
    ensures n >= 1
  {
    if s.None? then 1 else LencintSize(|s.value|) + |s.value|
  }

  /**
   The length bytes that writeencstrnull leaves behind. In the four-byte case it writes none, so the
   three bytes there before (prior) stay; in the nine-byte case it copies eight bytes from a
   four-byte int, so what lies above that int in memory follows.
   */
  function StrSize(l: nat, prior: seq<Byte>, above: seq<Byte>): (r: seq<Byte>)
    requires |prior| >= LencintSize(l) && |above| == 4
    ensures |r| == LencintSize(l)
  {
    if l < 251 then [l]
    else if l < 65536 then [0xfc] + Le(l, 2)
    else if l < 16777216 then [0xfd] + prior[1..4]
    else [0xfe] + (Le(l, 4) + above)
  }

  function EncStr(s: Option<seq<Byte>>, prior: seq<Byte>, above: seq<Byte>): (r: seq<Byte>)
    requires |prior| == EncStrSize(s) && |above| == 4
    ensures |r| == EncStrSize(s)
  {
    if s.None? then [0xfb] else StrSize(|s.value|, prior, above) + s.value
  }

  /** A value or NULL, and the number of bytes it takes. */
  function DecodeStr(s: seq<Byte>): (d: Option<(Option<seq<Byte>>, nat)>)
    ensures d.Some? ==> 0 < d.value.1 <= |s|
  {
    if s == [] then None
    else if s[0] == 0xfb then Some((None, 1))
    else
      var d := DecodeInt(s);
      if d.None? then None else
        var (v, l) := d.value;
        if l + v <= |s| then Some((Some(s[l..l + v]), l + v)) else None
  }

  method WriteStrSize(buf: array<Byte>, at: nat, len: nat, ghost prior: seq<Byte>, above: seq<Byte>)
    requires at + |prior| <= buf.Length && prior == buf[at..at + |prior|] && LencintSize(len) <= |prior| && |above| == 4
    modifies buf
    ensures buf[..] == Overwrite(old(buf[..]), at, StrSize(len, prior, above))
  {
    hide Le, Overwrite;
    ghost var mem := buf[..];
    assert prior == mem[at..at + |prior|];
    var el := LencintSize(len);
    if el == 1 {
      CopyForward(buf, at, [len]);
    }
    if el == 3 {
      CopyForward(buf, at, [0xfc]);
      CopyForward(buf, at + 1, Le(len, 2));
      OverwriteNext(mem, at, [0xfc], Le(len, 2));
    }
    if el == 4 {
      CopyForward(buf, at, [0xfd]);
      OverwriteKept(mem, at, [0xfd], 3);
      assert prior[1..4] == mem[at + 1..at + 4];
    }
    if el == 9 {
      CopyForward(buf, at, [0xfe]);
      CopyForward(buf, at + 1, Le(len, 4) + above);
      OverwriteNext(mem, at, [0xfe], Le(len, 4) + above);
    }
  }

  /** writeencstrnull, for the C string s or NULL. */
  method WriteEncStrNull(buf: array<Byte>, at: nat, s: Option<seq<Byte>>, above: seq<Byte>) returns (l: nat)
    requires at + EncStrSize(s) <= buf.Length && |above| == 4
    modifies buf
    ensures l == EncStrSize(s) && buf[..] == Overwrite(old(buf[..]), at,
            EncStr(s, old(buf[at..at + EncStrSize(s)]), above))
  {
    hide StrSize, Overwrite;
    if s.None? {
      CopyForward(buf, at, [0xfb]);
      return 1;
    }
    var len := |s.value|;
    var el := LencintSize(len);
    ghost var prior := buf[at..at + EncStrSize(s)];
    WriteStrSize(buf, at, len, prior, above);
    CopyForward(buf, at + el, s.value);
    OverwriteNext(old(buf[..]), at, StrSize(len, prior, above), s.value);
    l := len + el;
  }

  /** When the length of a string can be read back. */
  predicate LengthWritten(l: nat, prior: seq<Byte>, above: seq<Byte>) {
    || l < 65536
    || (l < 16777216 && |prior| >= 4 && prior[1..4] == Le(l, 3))
    || (l >= 16777216 && above == [0, 0, 0, 0])
  }

  lemma PrefixOf(a: seq<Byte>, b: seq<Byte>, tail: seq<Byte>)
    ensures (a + b + tail)[..|a|] == a && (a + b + tail)[|a|..|a| + |b|] == b
  {
  }

  /** The right string is decoded exactly when the length read is right. */
  lemma DecodesIff(size: seq<Byte>, t: seq<Byte>, tail: seq<Byte>, v: nat)
    requires size != [] && size[0] != 0xfb && DecodeInt(size) == Some((v, |size|)) &&
             DecodeInt(size + t + tail) == DecodeInt(size)
    ensures var d := DecodeStr(size + t + tail);
            && (d.Some? && d.value.0 == Some(t) <==> v == |t|)
            && (v == |t| ==> d.value.1 == |size| + |t|)
  {
    PrefixOf(size, t, tail);
    var s := size + t + tail;
    assert s[0] == size[0];
    if v != |t| && |size| + v <= |s| {
      assert |s[|size|..|size| + v]| == v;
    }
  }

  lemma IntPrefix(size: seq<Byte>, rest: seq<Byte>)
    requires size != [] && DecodeInt(size).Some? && DecodeInt(size).value.1 == |size|
    ensures DecodeInt(size + rest) == DecodeInt(size)
  {
    if size[0] >= 251 {
      assert (size + rest)[1..|size|] == size[1..];
      assert size[1..|size|] == size[1..];
    }
  }

  /**
   A written string reads back as itself exactly when its length was written: always below 65536
   bytes; from there on only if the memory happened to hold the right bytes.
   */
  lemma StringDecodesIff(t: seq<Byte>, prior: seq<Byte>, above: seq<Byte>, tail: seq<Byte>)
    requires |t| <= MAX_INT && |prior| == EncStrSize(Some(t)) && |above| == 4
    ensures var d := DecodeStr(EncStr(Some(t), prior, above) + tail);
            && (d.Some? && d.value.0 == Some(t) <==> LengthWritten(|t|, prior, above))
            && (LengthWritten(|t|, prior, above) ==> d.value.1 == EncStrSize(Some(t)))
  {
    var l := |t|;
    Powers();
    var size := StrSize(l, prior, above);
    assert EncStr(Some(t), prior, above) == size + t;
    var v := if l < 251 then l else FromLe(size[1..]);
    assert l >= 251 ==> size[1..|size|] == size[1..];
    assert DecodeInt(size) == Some((v, |size|));
    IntPrefix(size, t + tail);
    assert size + t + tail == size + (t + tail);
    DecodesIff(size, t, tail, v);
    assert v == l <==> LengthWritten(l, prior, above) by {
      if 251 <= l < 65536 {
        FromLeLe(l, 2);
      } else if 65536 <= l < 16777216 {
        FromLeLe(l, 3);
        LeFromLe(prior[1..4]);
      } else if l >= 16777216 {
        NineBytes(l, above);
      }
    }
  }

  lemma Distribute(x: nat, p: nat, y: nat)
    ensures 256 * (x + p * y) == 256 * x + 256 * p * y
  {
  }

  lemma {:induction false} FromLeAppend(a: seq<Byte>, b: seq<Byte>)
    ensures FromLe(a + b) == FromLe(a) + Pow256(|a|) * FromLe(b)
  {
    if a == [] {
      assert a + b == b;
    } else {
      assert (a + b)[1..] == a[1..] + b;
      FromLeAppend(a[1..], b);
      Distribute(FromLe(a[1..]), Pow256(|a| - 1), FromLe(b));
    }
  }

  lemma {:induction false} FromLeZero(s: seq<Byte>)
    ensures FromLe(s) == 0 <==> forall k | 0 <= k < |s| :: s[k] == 0
  {
    if s != [] {
      FromLeZero(s[1..]);
      assert s == [s[0]] + s[1..];
    }
  }

  lemma NineBytes(l: nat, above: seq<Byte>)
    requires l <= MAX_INT && |above| == 4
    ensures FromLe(Le(l, 4) + above) == l <==> above == [0, 0, 0, 0]
  {
    hide FromLe, Le;
    Powers();
    FromLeLe(l, 4);
    FromLeAppend(Le(l, 4), above);
    FromLeZero(above);
    assert (forall k | 0 <= k < 4 :: above[k] == 0) <==> above == [0, 0, 0, 0];
  }

  /** Any string of 65536 bytes written over zeroed memory is not read back. */
  lemma LongStringMisread(t: seq<Byte>, prior: seq<Byte>, tail: seq<Byte>)
    requires |t| == 65536 && |prior| == EncStrSize(Some(t)) && prior[1..4] == [0, 0, 0]
    ensures var d := DecodeStr(EncStr(Some(t), prior, [0, 0, 0, 0]) + tail); d.None? || d.value.0 != Some(t)
  {
    StringDecodesIff(t, prior, [0, 0, 0, 0], tail);
    assert Le(65536, 3)[2] == Le(256, 2)[1] == Le(1, 1)[0] == 1;
  }
}
