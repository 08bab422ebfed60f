/**
 The digest as one reads it off the query, token by token and without rewinding: a comment disappears, a string or
 a number becomes a question mark, a run of spaces becomes one, everything else is copied. The scanner computes it
 for every query.
 */
module DigestReference {
  import opened Wire
  import opened QueryDigest

  function Spaced(s: seq<char>): (r: seq<char>)
    ensures |r| == |s|
  {
    if s == [] then [] else [if IsSpace(s[0]) then ' ' else s[0]] + Spaced(s[1..])
  }

  // ----- where a token ends -----

  /** What follows the first closer of a block comment; prev is the character before s. */
  function AfterBlock(prev: char, s: seq<char>): (r: Option<seq<char>>)
    ensures r.Some? ==> |r.value| < |s|
    decreases |s|
  {
    if s == [] then None
    else if prev == '*' && s[0] == '/' then Some(s[1..])
    else AfterBlock(s[0], s[1..])
  }

  /** What follows the first line end. */
  function AfterLine(s: seq<char>): (r: Option<seq<char>>)
    ensures r.Some? ==> |r.value| < |s|
  {
    if s == [] then None
    else if s[0] == '\n' || s[0] == '\r' then Some(s[1..])
    else AfterLine(s[1..])
  }

  /**
   What follows a string, and the character it leaves behind; s is what follows its opening quote. Behind the first
   character, a backslash takes a backslash or a quote with it, and a quote takes a quote. A string that does not
   end before the last character ends there.
   */
  function AfterString(quote: char, prev: char, first: bool, s: seq<char>): (r: Option<(seq<char>, char)>)
    ensures r.Some? ==> |r.value.0| < |s|
    decreases |s|
  {
    if |s| <= 1 then None
    else if !first && ((prev == '\\' && (s[0] == '\\' || s[0] == quote)) || (prev == quote && s[0] == quote))
    then AfterString(quote, 'X', false, s[1..])
    else if s[0] == quote && s[1] != quote then Some((s[1..], prev))
    else AfterString(quote, s[0], false, s[1..])
  }

  /** How many characters go by before one that no word contains. */
  function WordLength(s: seq<char>): (n: nat)
    ensures n <= |s| && (forall k | 0 <= k < n :: !IsToken(s[k])) && (n < |s| ==> IsToken(s[n]))
  {
    if s == [] || IsToken(s[0]) then 0 else 1 + WordLength(s[1..])
  }

  // ----- the reference -----

  /**
   The digest of s behind what is already written, when prev came before. The character that ends a word is
   copied, whatever it is; a word that ends the query is judged without its last character.
   */
  function Tokens(out: seq<char>, prev: char, s: seq<char>): seq<char>
    requires prev == '/' ==> out != []
    decreases |s|
  {
    if s == [] then out
    else if prev == '/' && s[0] == '*' then
      match AfterBlock('*', s[1..])
      case Some(rest) => Tokens(out[..|out| - 1], ' ', rest)
      case None => out + Spaced(s)
    else if s[0] == '#' then
      match AfterLine(s[1..])
      case Some(rest) => Tokens(out, ' ', rest)
      case None => out + Spaced(s)
    else if s[0] == '\'' || s[0] == '"' then
      if |s| == 1 then out + s
      else
        match AfterString(s[0], s[0], true, s[1..])
        case Some((rest, left)) => Tokens(out + ['?'], left, rest)
        case None => out + ['?']
    else if IsToken(prev) && IsDigit(s[0]) then
      var n := WordLength(s);
      if n == |s| then out + if IsNumber(s[..n - 1]) then ['?'] else s
      else if !IsNumber(s[..n]) then Tokens(out + s[..n] + Spaced([s[n]]), s[n], s[n + 1..])
      else if n == |s| - 1 then out + ['?', s[n]]
      else Tokens(out + ['?'] + Spaced([s[n]]), s[n], s[n + 1..])
    else if IsSpace(prev) && IsSpace(s[0]) then Tokens(out, ' ', s[1..])
    else Tokens(out + Spaced([s[0]]), s[0], s[1..])
  }

  // ----- the scanner passes over one token -----

  function Cut(out: seq<char>, quote: char): Scanner {
    Scanner(out, |out|, ' ', quote, Plain)
  }

  lemma SpacedCons(out: seq<char>, s: seq<char>)
    requires s != []
    ensures out + [if IsSpace(s[0]) then ' ' else s[0]] + Spaced(s[1..]) == out + Spaced(s)
  {
  }

  lemma {:induction false} BlockScan(st: Scanner, s: seq<char>)
    requires st.mode == BlockComment && 1 <= st.mark <= |st.out|
    ensures Scan(st, s) ==
              match AfterBlock(st.prev, s)
              case Some(rest) => Scan(Cut(st.out[..st.mark - 1], st.quote), rest)
              case None => st.out + Spaced(s)
    decreases |s|
  {
    hide Scan, IsSpace;
    if s == [] {
      ScanEnd(st);
    } else {
      ScanStep(st, s);
      if !(st.prev == '*' && s[0] == '/') {
        var st' := st.Copy(s[0]);
        assert Step(st, s) == (st', 1);
        assert st'.out[..st.mark - 1] == st.out[..st.mark - 1];
        BlockScan(st', s[1..]);
        SpacedCons(st.out, s);
      }
    }
  }

  lemma {:induction false} LineScan(st: Scanner, s: seq<char>)
    requires st.mode == LineComment && st.mark <= |st.out|
    ensures Scan(st, s) ==
              match AfterLine(s)
              case Some(rest) => Scan(Cut(st.out[..st.mark], st.quote), rest)
              case None => st.out + Spaced(s)
    decreases |s|
  {
    hide Scan, IsSpace;
    if s == [] {
      ScanEnd(st);
    } else {
      ScanStep(st, s);
      if !(s[0] == '\n' || s[0] == '\r') {
        var st' := st.Copy(s[0]);
        assert Step(st, s) == (st', 1);
        assert st'.out[..st.mark] == st.out[..st.mark];
        LineScan(st', s[1..]);
        SpacedCons(st.out, s);
      }
    }
  }

  function Closed(out: seq<char>, prev: char, quote: char): Scanner {
    Scanner(out + ['?'], |out| + 1, prev, quote, Plain)
  }

  lemma {:induction false} StringScan(st: Scanner, s: seq<char>)
    requires st.mode == Quoted && st.mark < |st.out| && (st.quote == '\'' || st.quote == '"') && s != []
    ensures Scan(st, s) ==
              match AfterString(st.quote, st.prev, |st.out| == st.mark + 1, s)
              case Some((rest, left)) => Scan(Closed(st.out[..st.mark], left, st.quote), rest)
              case None => st.out[..st.mark] + ['?']
    decreases |s|
  {
    hide Scan, IsSpace, IsToken;
    ScanStep(st, s);
    var (st', n) := Step(st, s);
    if |s| == 1 {
      assert s[1..] == [];
      ScanEnd(st');
    } else if st'.mode == Quoted {
      assert st'.out[..st.mark] == st.out[..st.mark];
      StringScan(st', s[1..]);
    }
  }

  /** What comes out when base and a word have been written and s follows: s ends the word sooner or later. */
  function WordResult(base: seq<char>, word: seq<char>, s: seq<char>, quote: char): seq<char>
    requires s != [] && (word == [] ==> WordLength(s) > 0)
  {
    var n := WordLength(s);
    if n == |s| then base + if IsNumber(word + s[..n - 1]) then ['?'] else word + s
    else if !IsNumber(word + s[..n]) then Scan(Plainly(base + (word + s[..n]), s[n], quote), s[n + 1..])
    else if n == |s| - 1 then base + ['?', s[n]]
    else Scan(Plainly(base + ['?'], s[n], quote), s[n + 1..])
  }

  lemma {:induction false} WordScan(st: Scanner, s: seq<char>)
    requires st.mode == Number && st.mark < |st.out| && s != []
    ensures Scan(st, s) == WordResult(st.out[..st.mark], st.out[st.mark..], s, st.quote)
    decreases |s|
  {
    hide Scan, IsNumber, Step;
    if IsToken(s[0]) || |s| == 1 {
      WordEnds(st, s);
    } else {
      var st' := WordGoesOn(st, s);
      WordScan(st', s[1..]);
      hide WordResult;
      WordGrows(st.out[..st.mark], st.out[st.mark..], s, st.quote);
    }
  }

  lemma WordGoesOn(st: Scanner, s: seq<char>) returns (st': Scanner)
    requires st.mode == Number && st.mark < |st.out| && |s| > 1 && !IsToken(s[0])
    ensures st'.mode == Number && st'.mark == st.mark && st'.quote == st.quote
    ensures st'.mark < |st'.out| && st'.out[..st.mark] == st.out[..st.mark]
    ensures st'.out[st.mark..] == st.out[st.mark..] + [s[0]] && Scan(st, s) == Scan(st', s[1..])
  {
    hide Scan, IsNumber;
    ScanStep(st, s);
    NoSpace(s[0]);
    st' := st.Copy(s[0]);
    assert Step(st, s) == (st', 1);
  }

  /** One more character of the word is written and one less to come. */
  lemma WordGrows(base: seq<char>, word: seq<char>, s: seq<char>, quote: char)
    requires |s| > 1 && !IsToken(s[0])
    ensures WordResult(base, word + [s[0]], s[1..], quote) == WordResult(base, word, s, quote)
  {
    var n := WordLength(s[1..]);
    assert WordLength(s) == n + 1;
    hide Scan, IsNumber, Plainly, WordLength, IsToken;
    Regroup(word, s, n);
    if n < |s| - 1 {
      assert s[1..][n] == s[n + 1] && s[1..][n + 1..] == s[n + 2..];
    } else {
      Regroup(word, s, n - 1);
      assert word + [s[0]] + s[1..] == word + s;
    }
  }

  /** The scanner in mode Plain that has just copied c. */
  function Plainly(out: seq<char>, c: char, quote: char): Scanner {
    Scanner(out + Spaced([c]), |out| + 1, c, quote, Plain)
  }

  lemma NoSpace(c: char)
    requires !IsToken(c)
    ensures !IsSpace(c) && Spaced([c]) == [c]
  {
  }

  lemma WordStep(st: Scanner, s: seq<char>)
    requires st.mode == Number && st.mark < |st.out| && s != [] && (IsToken(s[0]) || |s| == 1)
    ensures var base, c := st.out[..st.mark], s[0];
            var (st', k) := Step(st, s);
            && k == 1
            && if !IsNumber(st.out[st.mark..]) then st' == Plainly(st.out, c, st.quote)
               else if |s| == 1 then st'.out == base + ['?'] + if IsToken(c) then [c] else []
               else st' == Plainly(base + ['?'], c, st.quote)
  {
    hide IsNumber, IsToken, IsSpace;
    SpacedOne(s[0]);
  }

  lemma WordEnds(st: Scanner, s: seq<char>)
    requires st.mode == Number && st.mark < |st.out| && s != [] && (IsToken(s[0]) || |s| == 1)
    ensures Scan(st, s) == WordResult(st.out[..st.mark], st.out[st.mark..], s, st.quote)
  {
    var base, word, c := st.out[..st.mark], st.out[st.mark..], s[0];
    assert WordLength(s) == if IsToken(c) then 0 else 1 by {
      if !IsToken(c) {
        assert s[1..] == [];
      }
    }
    hide Scan, IsNumber, Step, WordLength;
    WordStep(st, s);
    ScanStep(st, s);
    assert s[..0] == [] && word + [] == word && base + word == st.out;
    if |s| == 1 {
      assert s[1..] == [] && s == [c];
      ScanEnd(Step(st, s).0);
      ScanEnd(Plainly(st.out, c, st.quote));
      LastOfWord(base, word, c);
    }
  }

  lemma LastOfWord(base: seq<char>, word: seq<char>, c: char)
    ensures base + ['?'] + [c] == base + ['?', c] && base + ['?'] + [] == base + ['?']
    ensures !IsToken(c) ==> base + word + Spaced([c]) == base + (word + [c])
  {
    if !IsToken(c) {
      NoSpace(c);
    }
  }

  lemma Regroup(a: seq<char>, s: seq<char>, n: nat)
    requires n < |s|
    ensures a + [s[0]] + s[1..][..n] == a + s[..n + 1]
  {
  }

  // ----- one token from mode Plain -----

  lemma BlockToken(st: Scanner, s: seq<char>)
    requires st.IsPlain() && s != [] && st.prev == '/' && s[0] == '*'
    ensures Scan(st, s) ==
              match AfterBlock('*', s[1..])
              case Some(rest) => Scan(Cut(st.out[..|st.out| - 1], st.quote), rest)
              case None => st.out + Spaced(s)
  {
    hide Scan;
    var st' := st.(mark := |st.out|, mode := BlockComment).Copy('*');
    ScanStep(st, s);
    assert Step(st, s) == (st', 1);
    assert st'.out[..st'.mark - 1] == st.out[..|st.out| - 1];
    BlockScan(st', s[1..]);
    SpacedCons(st.out, s);
  }

  lemma LineToken(st: Scanner, s: seq<char>)
    requires st.IsPlain() && s != [] && s[0] == '#'
    ensures Scan(st, s) ==
              match AfterLine(s[1..])
              case Some(rest) => Scan(Cut(st.out, st.quote), rest)
              case None => st.out + Spaced(s)
  {
    hide Scan;
    var st' := st.(mark := |st.out|, mode := LineComment).Copy('#');
    ScanStep(st, s);
    assert Step(st, s) == (st', 1);
    assert st'.out[..st'.mark] == st.out;
    LineScan(st', s[1..]);
    SpacedCons(st.out, s);
  }

  lemma StringToken(st: Scanner, s: seq<char>)
    requires st.IsPlain() && s != [] && (s[0] == '\'' || s[0] == '"')
    ensures Scan(st, s) ==
              if |s| == 1 then st.out + s
              else
                match AfterString(s[0], s[0], true, s[1..])
                case Some((rest, left)) => Scan(Closed(st.out, left, s[0]), rest)
                case None => st.out + ['?']
  {
    hide Scan, IsToken;
    var st' := st.(mark := |st.out|, mode := Quoted, quote := s[0]).Copy(s[0]);
    ScanStep(st, s);
    assert Step(st, s) == (st', 1);
    assert st'.out[..st'.mark] == st.out;
    if |s| == 1 {
      assert s[1..] == [] && s == [s[0]];
      ScanEnd(st');
    } else {
      StringScan(st', s[1..]);
    }
  }

  lemma WordToken(st: Scanner, s: seq<char>)
    requires st.IsPlain() && s != [] && IsToken(st.prev) && IsDigit(s[0])
    ensures WordLength(s) > 0 && Scan(st, s) == WordResult(st.out, [], s, st.quote)
  {
    hide Scan, IsNumber, IsToken;
    if |s| == 1 {
      LastDigit(st, s);
      assert [] + s[..0] == s[..0];
    } else {
      var st' := FirstDigit(st, s);
      WordScan(st', s[1..]);
      hide WordResult, WordLength;
      assert [] + [s[0]] == [s[0]];
      WordGrows(st.out, [], s, st.quote);
    }
  }

  lemma FirstDigit(st: Scanner, s: seq<char>) returns (st': Scanner)
    requires st.IsPlain() && |s| > 1 && IsToken(st.prev) && IsDigit(s[0])
    ensures st'.mode == Number && st'.mark < |st'.out| && st'.quote == st.quote && !IsToken(s[0])
    ensures st'.out[..st'.mark] == st.out && st'.out[st'.mark..] == [s[0]]
    ensures Scan(st, s) == Scan(st', s[1..]) && WordLength(s) > 0
  {
    hide Scan;
    ScanStep(st, s);
    st' := st.(mark := |st.out|, mode := Number).Copy(s[0]);
    assert Step(st, s) == (st', 1);
  }

  lemma LastDigit(st: Scanner, s: seq<char>)
    requires st.IsPlain() && |s| == 1 && IsToken(st.prev) && IsDigit(s[0])
    ensures WordLength(s) == 1 && IsNumber(s[..0]) && Scan(st, s) == st.out + ['?']
  {
    hide Scan;
    var entered := st.(mark := |st.out|, mode := Number);
    ScanStep(st, s);
    assert Step(st, s) == (entered, 0) && s[0..] == s;
    ScanStep(entered, s);
    assert s[1..] == [];
    ScanEnd(entered.Question());
    assert WordLength(s[1..]) == 0;
  }

  // ----- the whole query -----

  /** From mode Plain the scanner writes what the reference says, for every rest of a query. */
  lemma {:induction false} ScanIsTokens(st: Scanner, s: seq<char>)
    requires st.IsPlain()
    ensures Scan(st, s) == Tokens(st.out, st.prev, s)
    decreases |s|
  {
    hide Scan, AfterBlock, AfterLine, AfterString, WordLength, WordResult, IsNumber, Spaced, IsToken, IsDigit, IsSpace;
    if s == [] {
      ScanEnd(st);
    } else if st.prev == '/' && s[0] == '*' {
      BlockToken(st, s);
      var rest := AfterBlock('*', s[1..]);
      if rest.Some? {
        ScanIsTokens(Cut(st.out[..|st.out| - 1], st.quote), rest.value);
      }
    } else if s[0] == '#' {
      LineToken(st, s);
      var rest := AfterLine(s[1..]);
      if rest.Some? {
        ScanIsTokens(Cut(st.out, st.quote), rest.value);
      }
    } else if s[0] == '\'' || s[0] == '"' {
      StringToken(st, s);
      var r := AfterString(s[0], s[0], true, s[1..]);
      if |s| > 1 && r.Some? {
        ScanIsTokens(Closed(st.out, r.value.1, s[0]), r.value.0);
      }
    } else if IsToken(st.prev) && IsDigit(s[0]) {
      WordToken(st, s);
      var n := WordLength(s);
      BareWord(st.out, s, st.quote);
      if n < |s| && !IsNumber(s[..n]) {
        ScanIsTokens(Plainly(st.out + s[..n], s[n], st.quote), s[n + 1..]);
      } else if n < |s| - 1 {
        ScanIsTokens(Plainly(st.out + ['?'], s[n], st.quote), s[n + 1..]);
      }
    } else {
      PlainToken(st, s);
      if IsSpace(st.prev) && IsSpace(s[0]) {
        ScanIsTokens(st.(mark := |st.out|, prev := ' '), s[1..]);
      } else {
        ScanIsTokens(Plainly(st.out, s[0], st.quote), s[1..]);
      }
    }
  }

  lemma BareWord(out: seq<char>, s: seq<char>, quote: char)
    requires s != [] && WordLength(s) > 0
    ensures var n := WordLength(s);
            WordResult(out, [], s, quote) ==
              if n == |s| then out + if IsNumber(s[..n - 1]) then ['?'] else s
              else if !IsNumber(s[..n]) then Scan(Plainly(out + s[..n], s[n], quote), s[n + 1..])
              else if n == |s| - 1 then out + ['?', s[n]]
              else Scan(Plainly(out + ['?'], s[n], quote), s[n + 1..])
  {
    hide Scan, IsNumber, Plainly;
    var n := WordLength(s);
    assert [] + s[..n] == s[..n] && [] + s[..n - 1] == s[..n - 1] && [] + s == s;
  }

  lemma PlainToken(st: Scanner, s: seq<char>)
    requires st.IsPlain() && s != [] && !(st.prev == '/' && s[0] == '*') && s[0] != '#' && s[0] != '\'' && s[0] != '"'
    requires !(IsToken(st.prev) && IsDigit(s[0]))
    ensures Scan(st, s) ==
              if IsSpace(st.prev) && IsSpace(s[0]) then Scan(st.(mark := |st.out|, prev := ' '), s[1..])
              else Scan(Plainly(st.out, s[0], st.quote), s[1..])
  {
    hide Scan;
    ScanStep(st, s);
    SpacedOne(s[0]);
  }

  lemma SpacedOne(c: char)
    ensures Spaced([c]) == [if IsSpace(c) then ' ' else c]
  {
  }

  /** mysql_query_digest computes the reference, for every query. */
  method DigestTokens(query: seq<char>) returns (r: array<char>, n: nat)
    ensures r.Length == |query| + 1 && n <= |query| && r[..n] == Tokens([], '\0', query) && r[n] == '\0'
  {
    r, n := Digest(query);
    ScanIsTokens(START, query);
  }
}
