/**
 mysql_query_digest: a five-mode scanner that copies a query into an output buffer, rewinding
 it to cut comments and to replace literals by '?'. Scan is the scanner over values; the
 method Digest runs it on a buffer with indices, as the source does.
 */
module QueryDigest {

  predicate IsDigit(c: char) {
    '0' <= c <= '9'
  }

  predicate IsNormal(c: char) {
    'a' <= c <= 'z' || 'A' <= c <= 'Z' || IsDigit(c) || c == '$' || c == '_'
  }

  predicate IsToken(c: char) {
    !IsNormal(c)
  }

  predicate IsSpace(c: char) {
    c == ' ' || c == '\t' || c == '\n' || c == '\r'
  }

  predicate IsHex(c: char) {
    IsDigit(c) || 'a' <= c <= 'f' || 'A' <= c <= 'F'
  }

  /** Decimal digits, or 0x followed by hexadecimal digits. */
  predicate IsNumber(s: seq<char>) {
    || (forall k | 0 <= k < |s| :: IsDigit(s[k]))
    || (|s| >= 2 && s[0] == '0' && (s[1] == 'x' || s[1] == 'X') && forall k | 2 <= k < |s| :: IsHex(s[k]))
  }

  // flag 0, 1, 2, 3, 4
  datatype Mode = Plain | BlockComment | LineComment | Quoted | Number

  /** out is the buffer up to p_r, mark is p_r_t. */
  datatype Scanner = Scanner(out: seq<char>, mark: nat, prev: char, quote: char, mode: Mode)
  {
    /** What every reachable scanner keeps; it makes each rewind stay inside the buffer. */
    ghost predicate Ok(rest: seq<char>) {
      && mark <= |out|
      && (mode == Plain && prev == '/' ==> |out| >= 1)
      && (mode == BlockComment ==> mark >= 1)
      && (mode == Quoted ==> mark < |out| && (quote == '\'' || quote == '"'))
      && (mode == Number && mark == |out| ==> |rest| == 1)
    }

    /** The same in mode Plain, where it does not depend on what is left. */
    ghost predicate IsPlain() {
      mode == Plain && mark <= |out| && (prev == '/' ==> |out| >= 1)
    }

    /** In mode Plain the mark is dead: it is set again before it is read. */
    function Settle(): Scanner {
      if mode == Plain then this.(mark := |out|) else this
    }

    /** COPY CHAR */
    function Copy(c: char): Scanner {
      this.(out := out + [if IsSpace(c) then ' ' else c], prev := c)
    }

    /** Rewinds to the mark and writes a question mark. */
    function Question(): Scanner
      requires mark <= |out|
    {
      this.(out := out[..mark] + ['?'])
    }
  }

  const START := Scanner([], 0, '\0', '\0', Plain)

  /** One iteration of the loop: the next scanner and how many characters were consumed. */
  function Step(st: Scanner, rest: seq<char>): (Scanner, nat)
    requires rest != [] && st.Ok(rest)
  {
    var (st', n) := Iterate(st, rest);
    (st'.Settle(), n)
  }

  function Iterate(st: Scanner, rest: seq<char>): (Scanner, nat)
    requires rest != [] && st.Ok(rest)
  {
    var c, last := rest[0], |rest| == 1;
    match st.mode
    case Plain =>
      var at := st.(mark := |st.out|);
      if st.prev == '/' && c == '*' then (at.(mode := BlockComment).Copy(c), 1)
      else if c == '#' then (at.(mode := LineComment).Copy(c), 1)
      else if c == '\'' || c == '"' then (at.(mode := Quoted, quote := c).Copy(c), 1)
      else if IsToken(st.prev) && IsDigit(c) then
        if last then (at.(mode := Number), 0) else (at.(mode := Number).Copy(c), 1)
      else if IsSpace(st.prev) && IsSpace(c) then (at.(prev := ' '), 1)
      else (at.Copy(c), 1)
    case BlockComment =>
      if st.prev == '*' && c == '/' then (st.(out := st.out[..st.mark - 1], prev := ' ', mode := Plain), 1)
      else (st.Copy(c), 1)
    case LineComment =>
      if c == '\n' || c == '\r' then (st.(out := st.out[..st.mark], prev := ' ', mode := Plain), 1)
      else (st.Copy(c), 1)
    case Quoted =>
      if last then (st.Question().(mode := Plain), 1)
      else if |st.out| > st.mark + 1 && ((st.prev == '\\' && (c == '\\' || c == st.quote)) ||
          (st.prev == st.quote && c == st.quote)) then
        (st.(prev := 'X'), 1)
      else if c == st.quote && rest[1] != st.quote then (st.Question().(mode := Plain), 1)
      else (st.Copy(c), 1)
    case Number =>
      if st.mark == |st.out| then (st.Question(), 1)
      else if !(IsToken(c) || last) then (st.Copy(c), 1)
      else if !IsNumber(st.out[st.mark..]) then (st.(mode := Plain).Copy(c), 1)
      else if !last then (st.Question().(mode := Plain).Copy(c), 1)
      else (var q := st.Question(); q.(out := q.out + if IsToken(c) then [c] else []), 1)
  }

  lemma StepKeepsOk(st: Scanner, rest: seq<char>)
    requires rest != [] && st.Ok(rest)
    ensures var (st', n) := Step(st, rest);
            && n <= 1 && (|rest| > n ==> st'.Ok(rest[n..]))
            && (n == 0 ==> st.mode == Plain && st'.mode != Plain)
  {
  }

  /** The whole scan. The iteration that consumes nothing leaves mode Plain, hence the measure. */
  function Scan(st: Scanner, rest: seq<char>): seq<char>
    requires rest != [] ==> st.Ok(rest)
    decreases |rest|, if st.mode == Plain then 1 else 0
  {
    if rest == [] then st.out
    else
      StepKeepsOk(st, rest);
      var (st', n) := Step(st, rest);
      Scan(st', rest[n..])
  }

  lemma ScanStep(st: Scanner, rest: seq<char>)
    requires rest != [] && st.Ok(rest)
    ensures var (st', n) := Step(st, rest);
            n <= 1 && (|rest| > n ==> st'.Ok(rest[n..])) && Scan(st', rest[n..]) == Scan(st, rest)
  {
    StepKeepsOk(st, rest);
  }

  /** The output never grows faster than the input is read. */
  lemma {:induction false} DigestLength(st: Scanner, rest: seq<char>, read: nat)
    requires (rest != [] ==> st.Ok(rest)) && |st.out| <= read
    ensures |Scan(st, rest)| <= read + |rest|
    decreases |rest|, if st.mode == Plain then 1 else 0
  {
    if rest != [] {
      StepKeepsOk(st, rest);
      var (st', n) := Step(st, rest);
      DigestLength(st', rest[n..], read + n);
    }
  }

  /** is_digit_string over buf[from..end]. */
  method IsDigitString(buf: array<char>, from: nat, end: nat) returns (b: bool)
    requires from < end <= buf.Length
    ensures b == IsNumber(buf[from..end])
  {
    ghost var s := buf[from..end];
    var hex, i, f := false, 0, from;
    while f != end
      invariant from <= f <= end && i == f - from
      invariant hex ==> i >= 2 && s[0] == '0' && (s[1] == 'x' || s[1] == 'X') && forall k | 2 <= k < i :: IsHex(s[k])
      invariant hex || forall k | 0 <= k < i :: IsDigit(s[k])
      decreases end - f
    {
      assert buf[f] == s[i];
      if i == 1 && buf[f - 1] == '0' && (buf[f] == 'x' || buf[f] == 'X') {
        assert s[0] == '0';
        hex := true;
      } else if !hex && !IsDigit(buf[f]) {
        NotANumber(s, i);
        return false;
      } else if hex && !IsHex(buf[f]) {
        assert !IsDigit(s[1]) && !IsHex(s[i]);
        return false;
      }
      f, i := f + 1, i + 1;
    }
    b := true;
  }

  lemma NotANumber(s: seq<char>, i: nat)
    requires i < |s| && !IsDigit(s[i]) && (forall k | 0 <= k < i :: IsDigit(s[k]))
    requires !(i == 1 && s[0] == '0' && (s[1] == 'x' || s[1] == 'X'))
    ensures !IsNumber(s)
  {
    if |s| >= 2 && i > 1 {
      assert IsDigit(s[1]);
    }
  }

  lemma StartOk(query: seq<char>)
    ensures START.Ok(query) && query[0..] == query
  {
  }

  lemma ScanEnd(st: Scanner)
    ensures Scan(st, []) == st.out
  {
  }

  /** The locals of mysql_query_digest: the output buffer, p_r, p_r_t, prev_char, qutr_char and flag. */
  class Buffer {
    const r: array<char>
    var pr: nat
    var prt: nat
    var prev: char
    var quote: char
    var mode: Mode

    ghost predicate Valid()
      reads this
    {
      prt <= pr < r.Length
    }

    ghost function Current(): (st: Scanner)
      requires Valid()
      reads this, r
      ensures st.out == r[..pr]
    {
      Scanner(r[..pr], prt, prev, quote, mode).Settle()
    }

    constructor (len: nat)
      ensures Valid() && fresh(r) && r.Length == len + 1 && pr == 0 && Current() == START
    {
      r := new char[len + 1];
      pr, prt := 0, 0;
      prev, quote, mode := '\0', '\0', Plain;
    }

    /** The buffer can take what one iteration over rest writes, and mirrors the scanner. */
    ghost predicate Ready(rest: seq<char>)
      reads this, r
    {
      Valid() && pr + 1 < r.Length && rest != [] && Current().Ok(rest)
    }

    /** COPY CHAR */
    method CopyChar(c: char)
      requires Valid() && pr + 1 < r.Length
      modifies this, r
      ensures Valid() && pr == old(pr) + 1 && r[..pr] == old(r[..pr]) + [if IsSpace(c) then ' ' else c]
      ensures prt == old(prt) && prev == c && quote == old(quote) && mode == old(mode)
    {
      r[pr] := if !IsSpace(c) then c else ' ';
      prev := c;
      pr := pr + 1;
    }

    /** p_r = p_r_t; *p_r++ = '?' */
    method Question()
      requires Valid() && prt + 1 < r.Length
      modifies this`pr, r
      ensures Valid() && pr == prt + 1 && r[..pr] == old(r[..prt]) + ['?']
    {
      r[prt] := '?';
      pr := prt + 1;
    }

    /** flag == 0 */
    method PlainChar(c: char, last: bool, ghost rest: seq<char>) returns (n: nat)
      requires Ready(rest) && mode == Plain && c == rest[0] && last == (|rest| == 1)
      modifies this, r
      ensures Valid() && pr <= old(pr) + n && (Current(), n) == Step(old(Current()), rest)
      ensures n <= 1 && (n == 0 ==> mode != Plain)
    {
      prt := pr;
      if prev == '/' && c == '*' {
        mode := BlockComment;
      } else if c == '#' {
        mode := LineComment;
      } else if c == '\'' || c == '"' {
        mode := Quoted;
        quote := c;
      } else if IsToken(prev) && IsDigit(c) {
        mode := Number;
        if last {
          return 0;
        }
      } else if IsSpace(prev) && IsSpace(c) {
        prev := ' ';
        r[pr] := ' ';
        assert r[..pr] == old(r[..pr]);
        return 1;
      }
      CopyChar(c);
      n := 1;
    }

    /** flag == 1 or flag == 2 */
    method CommentChar(c: char, ghost rest: seq<char>)
      requires Ready(rest) && (mode == BlockComment || mode == LineComment) && c == rest[0]
      modifies this, r
      ensures Valid() && pr <= old(pr) + 1 && (Current(), 1) == Step(old(Current()), rest)
    {
      if (mode == BlockComment && prev == '*' && c == '/') || (mode == LineComment && (c == '\n' || c == '\r')) {
        pr := if mode == BlockComment then prt - 1 else prt;
        assert r[..pr] == old(r[..pr])[..pr];
        prt := pr;
        prev := ' ';
        mode := Plain;
      } else {
        CopyChar(c);
      }
    }

    /** flag == 3; next is the character after c, meaningful unless c is the last one. */
    method QuotedChar(c: char, next: char, last: bool, ghost rest: seq<char>)
      requires Ready(rest) && mode == Quoted && c == rest[0] && last == (|rest| == 1) && (!last ==> next == rest[1])
      modifies this, r
      ensures Valid() && pr <= old(pr) + 1 && (Current(), 1) == Step(old(Current()), rest)
    {
      assert r[..prt] == r[..pr][..prt];
      if last {
        Question();
        mode := Plain;
        return;
      }
      if pr > prt + 1 {
        if (prev == '\\' && c == '\\') || (prev == '\\' && c == quote) || (prev == quote && c == quote) {
          prev := 'X';
          return;
        }
      }
      if c == quote && next != quote {
        Question();
        mode := Plain;
        return;
      }
      CopyChar(c);
    }

    /** flag == 4; moved says whether the read pointer advances along with the count. */
    method NumberChar(c: char, last: bool, ghost rest: seq<char>) returns (moved: bool)
      requires Ready(rest) && mode == Number && c == rest[0] && last == (|rest| == 1)
      modifies this, r
      ensures Valid() && pr <= old(pr) + 1 && (Current(), 1) == Step(old(Current()), rest)
      ensures !moved ==> last
    {
      moved := false;
      assert r[..prt] == r[..pr][..prt] && r[prt..pr] == r[..pr][prt..];
      if prt == pr {
        Question();
        return;
      }
      if IsToken(c) || last {
        var isNumber := IsDigitString(r, prt, pr);
        if isNumber {
          Question();
          if last {
            ghost var q := r[..pr];
            if IsToken(c) {
              r[pr] := c;
              pr := pr + 1;
            }
            assert r[..pr] == q + if IsToken(c) then [c] else [];
            return;
          }
        }
        mode := Plain;
      }
      CopyChar(c);
      moved := true;
    }

    /** One iteration of the loop. */
    method NextChar(c: char, next: char, last: bool, ghost rest: seq<char>) returns (n: nat, moved: bool)
      requires Ready(rest) && c == rest[0] && last == (|rest| == 1) && (!last ==> next == rest[1])
      modifies this, r
      ensures Valid() && pr <= old(pr) + n && (Current(), n) == Step(old(Current()), rest)
      ensures n <= 1 && (n == 0 ==> mode != Plain && old(mode) == Plain) && (!moved ==> last && n == 1)
    {
      hide Step, Scanner.Ok, Scanner.Settle;
      n, moved := 1, true;
      match mode {
        case Plain => n := PlainChar(c, last, rest);
        case Quoted => QuotedChar(c, next, last, rest);
        case Number => moved := NumberChar(c, last, rest);
        case _ => CommentChar(c, rest);
      }
    }
  }

  /** mysql_query_digest. Every buffer access is in bounds and the loop terminates. */
  method Digest(query: seq<char>) returns (r: array<char>, n: nat)
    ensures r.Length == |query| + 1 && n <= |query|
    ensures r[..n] == Scan(START, query) && r[n] == '\0'
  {
    hide Scan, Step, Scanner.Ok, Scanner.Settle, Buffer.Current;
    var len := |query|;
    StartOk(query);
    var b := new Buffer(len);
    var s, i := 0, 0;  // the read pointer and the read count
    while i < len
      invariant fresh(b) && fresh(b.r) && b.r.Length == len + 1
      invariant b.Valid() && b.pr <= i <= len
      invariant i < len ==> s == i && b.Current().Ok(query[i..])
      invariant Scan(b.Current(), query[i..]) == Scan(START, query)
      decreases len - i, if b.mode == Plain then 1 else 0
    {
      ghost var rest := query[i..];
      ScanStep(b.Current(), rest);
      var c, last := query[s], len == i + 1;
      var k, moved := b.NextChar(c, if last then c else query[s + 1], last, rest);
      assert query[i + k..] == rest[k..];
      i := i + k;
      s := if moved then s + k else s;
    }
    assert query[i..] == [];
    ScanEnd(b.Current());
    r, n := b.r, b.pr;
    ghost var out := r[..n];
    r[n] := '\0';
    assert r[..n] == out;
  }
}
