/** Bytes on the wire, and the flattening of a list of byte strings. */
module Wire {

  type Byte = b: int | 0 <= b < 256

  datatype Option<+T> = None | Some(value: T)

  /** The bytes of all packets, one after the other. */
  function Concat(ps: seq<seq<Byte>>): seq<Byte> {
    if ps == [] then [] else ps[0] + Concat(ps[1..])
  }

  lemma {:induction false} ConcatAppend(a: seq<seq<Byte>>, b: seq<seq<Byte>>)
    ensures Concat(a + b) == Concat(a) + Concat(b)
  {
    if a == [] {
      assert a + b == b;
    } else {
      assert (a + b)[1..] == a[1..] + b;
      ConcatAppend(a[1..], b);
    }
  }

  lemma ConcatSnoc(a: seq<seq<Byte>>, p: seq<Byte>)
    ensures Concat(a + [p]) == Concat(a) + p
  {
    ConcatAppend(a, [p]);
    assert Concat([p]) == p + Concat([]);
  }

  lemma Assoc(a: seq<Byte>, b: seq<Byte>, c: seq<Byte>)
    ensures (a + b) + c == a + (b + c)
  {
  }

  lemma SplitAt(s: seq<Byte>, n: nat)
    requires n <= |s|
    ensures s[..n] + s[n..] == s
  {
  }

  /** Cutting one more packet off the front of what is left. */
  lemma CutOne(done: seq<seq<Byte>>, p: seq<Byte>, left: seq<Byte>, all: seq<Byte>)
    requires Concat(done) + (p + left) == all
    ensures Concat(done + [p]) + left == all
  {
    ConcatSnoc(done, p);
    Assoc(Concat(done), p, left);
  }
}
