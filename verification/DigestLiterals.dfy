/** What the digest forgets: decimal literals, and string literals up to the class of the character left behind. */
module DigestLiterals {
  import opened Wire
  import opened QueryDigest
  import opened DigestReference

  predicate IsDecimal(s: seq<char>) {
    s != [] && forall k | 0 <= k < |s| :: s[k] in "0123456789"
  }

  predicate IsHexadecimal(s: seq<char>) {
    |s| >= 2 && s[0] == '0' && s[1] in "xX" && forall k | 2 <= k < |s| :: s[k] in "0123456789abcdefABCDEF"
  }

  predicate IsLiteral(s: seq<char>) {
    IsDecimal(s) || IsHexadecimal(s)
  }

  /** The scanner after n characters. */
  function After(st: Scanner, rest: seq<char>, n: nat): Scanner
    requires n < |rest| && st.Ok(rest)
    decreases n
  {
    if n == 0 then st
    else
      StepKeepsOk(st, rest);
      After(Step(st, rest).0, rest[1..], n - 1)
  }

  lemma AdvancesUnlessLast(st: Scanner, rest: seq<char>)
    requires |rest| > 1 && st.Ok(rest)
    ensures Step(st, rest).1 == 1
  {
  }

  lemma {:induction false} ScanAfter(st: Scanner, rest: seq<char>, n: nat)
    requires n < |rest| && st.Ok(rest)
    ensures After(st, rest, n).Ok(rest[n..])
    ensures Scan(st, rest) == Scan(After(st, rest, n), rest[n..])
    decreases n
  {
    if n == 0 {
      assert rest[0..] == rest;
    } else {
      hide Scan, Step;
      ScanStep(st, rest);
      StepKeepsOk(st, rest);
      assert Step(st, rest).1 == 1 by { AdvancesUnlessLast(st, rest); }
      ScanAfter(Step(st, rest).0, rest[1..], n - 1);
      assert rest[1..][n - 1..] == rest[n..];
    }
  }

  lemma SameStep(st: Scanner, pre: seq<char>, x: seq<char>, y: seq<char>)
    requires pre != [] && x != [] && y != [] && IsDigit(x[0]) && IsDigit(y[0]) && st.Ok(pre + x) && st.Ok(pre + y)
    ensures Step(st, pre + x) == Step(st, pre + y) && Step(st, pre + x).1 == 1
  {
    assert (pre + x)[1] == (if |pre| > 1 then pre[1] else x[0]) && (pre + y)[1] == if |pre| > 1 then pre[1] else y[0];
  }

  /** The one character of lookahead only matters when it may be a quote. */
  lemma {:induction false} AfterIgnoresWhatFollows(st: Scanner, pre: seq<char>, x: seq<char>, y: seq<char>)
    requires x != [] && y != [] && IsDigit(x[0]) && IsDigit(y[0]) && st.Ok(pre + x) && st.Ok(pre + y)
    ensures After(st, pre + x, |pre|) == After(st, pre + y, |pre|)
    decreases |pre|
  {
    if pre != [] {
      assert (pre + x)[1..] == pre[1..] + x && (pre + y)[1..] == pre[1..] + y;
      SameStep(st, pre, x, y);
      hide Step, Scanner.Ok;
      StepKeepsOk(st, pre + x);
      StepKeepsOk(st, pre + y);
      AfterIgnoresWhatFollows(Step(st, pre + x).0, pre[1..], x, y);
    }
  }

  // ----- numeric literals -----

  /** What remains to be produced once a numeric literal after `out` has become a question mark. */
  function AfterLiteral(out: seq<char>, quote: char, tail: seq<char>): seq<char> {
    if tail == [] then out + ['?']
    else if |tail| == 1 then out + ['?', tail[0]]
    else
      var shown := if IsSpace(tail[0]) then ' ' else tail[0];
      Scan(Scanner(out + ['?', shown], |out| + 2, tail[0], quote, Plain), tail[1..])
  }

  /** A literal is a number, and so is all but its last character; it has the characters of a word. */
  lemma LiteralIsNumber(lit: seq<char>)
    requires IsLiteral(lit)
    ensures lit != [] && IsNumber(lit) && IsNumber(lit[..|lit| - 1]) && IsDigit(lit[0])
    ensures forall k | 0 <= k < |lit| :: !IsToken(lit[k])
  {
    forall k | 0 <= k < |lit|
      ensures !IsToken(lit[k]) && (lit[k] in "0123456789" ==> IsDigit(lit[k]))
      ensures lit[k] in "0123456789abcdefABCDEF" ==> IsHex(lit[k])
    {
      LiteralChar(lit[k]);
      if !IsDecimal(lit) && k < 2 {
        assert lit[0] == '0' && (lit[1] == 'x' || lit[1] == 'X');
      }
    }
    hide IsDigit, IsHex, IsToken;
  }

  lemma LiteralChar(c: char)
    ensures c in "0123456789" ==> IsDigit(c) && !IsToken(c)
    ensures c in "0123456789abcdefABCDEF" ==> IsHex(c) && !IsToken(c)
  {
  }

  lemma {:induction false} LiteralWord(lit: seq<char>, tail: seq<char>)
    requires (forall k | 0 <= k < |lit| :: !IsToken(lit[k])) && (tail != [] ==> IsToken(tail[0]))
    ensures WordLength(lit + tail) == |lit|
  {
    if lit == [] {
      assert lit + tail == tail;
    } else {
      assert (lit + tail)[1..] == lit[1..] + tail;
      LiteralWord(lit[1..], tail);
    }
  }

  /** A decimal or hexadecimal literal becomes a question mark. */
  lemma LiteralBecomesQuestion(st: Scanner, lit: seq<char>, tail: seq<char>)
    requires st.mode == Plain && IsToken(st.prev) && st.Ok(lit + tail)
    requires IsLiteral(lit) && (tail != [] ==> IsToken(tail[0]))
    ensures Scan(st, lit + tail) == AfterLiteral(st.out, st.quote, tail)
  {
    hide Scan, IsToken, IsDigit, WordLength, IsNumber, IsLiteral, WordResult;
    var rest, n := lit + tail, |lit|;
    LiteralIsNumber(lit);
    LiteralWord(lit, tail);
    assert rest[0] == lit[0] && rest[..n] == lit && rest[..n - 1] == lit[..n - 1];
    WordToken(st, rest);
    BareWord(st.out, rest, st.quote);
    if tail != [] {
      assert rest[n] == tail[0] && rest[n + 1..] == tail[1..];
      SpacedOne(tail[0]);
      assert st.out + ['?'] + [if IsSpace(tail[0]) then ' ' else tail[0]] ==
             st.out + ['?', if IsSpace(tail[0]) then ' ' else tail[0]];
    }
  }

  /** Replacing a numeric literal by any other leaves the digest of the query unchanged. */
  lemma DigestIgnoresNumbers(pre: seq<char>, lit: seq<char>, lit': seq<char>, tail: seq<char>)
    requires IsLiteral(lit) && IsLiteral(lit') && (tail != [] ==> IsToken(tail[0]))
    requires var st := After(START, pre + (lit + tail), |pre|); st.mode == Plain && IsToken(st.prev)
    ensures Scan(START, pre + (lit + tail)) == Scan(START, pre + (lit' + tail))
  {
    var x, y := lit + tail, lit' + tail;
    LiteralIsNumber(lit);
    LiteralIsNumber(lit');
    AfterIgnoresWhatFollows(START, pre, x, y);
    ScanAfter(START, pre + x, |pre|);
    ScanAfter(START, pre + y, |pre|);
    assert (pre + x)[|pre|..] == x && (pre + y)[|pre|..] == y;
    LiteralBecomesQuestion(After(START, pre + x, |pre|), lit, tail);
    LiteralBecomesQuestion(After(START, pre + x, |pre|), lit', tail);
  }

  // ----- string literals -----

  /**
   Inside a string, behind its first character, a backslash takes the next backslash or quote with it, and
   a quote the next quote. The pair leaves 'X' behind as the previous character.
   */
  predicate IsEscape(prev: char, first: bool, c: char, quote: char) {
    !first && ((prev == '\\' && (c == '\\' || c == quote)) || (prev == quote && c == quote))
  }

  /** The scanner passes over the whole body and closes the string at the quote behind it. */
  predicate Encloses(body: seq<char>, prev: char, first: bool, quote: char)
    decreases |body|
  {
    if body == [] then !IsEscape(prev, first, quote, quote)
    else if IsEscape(prev, first, body[0], quote) then Encloses(body[1..], 'X', false, quote)
    else (body[0] == quote ==> |body| == 1 || body[1] == quote) && Encloses(body[1..], body[0], false, quote)
  }

  /** prev_char when a body that began after prev has been passed over. */
  function Left(body: seq<char>, prev: char, first: bool, quote: char): char
    decreases |body|
  {
    if body == [] then prev
    else Left(body[1..], if IsEscape(prev, first, body[0], quote) then 'X' else body[0], false, quote)
  }

  /** The body of a string literal as the scanner sees it, with whatever escapes and doubled quotes. */
  predicate IsBody(body: seq<char>, quote: char) {
    Encloses(body, quote, true, quote)
  }

  /** prev_char when the literal has been closed: it is not reset. */
  function LeftBehind(body: seq<char>, quote: char): char {
    Left(body, quote, true, quote)
  }

  /** One character of a body. */
  lemma BodyStep(st: Scanner, body: seq<char>, tail: seq<char>)
    requires st.mode == Quoted && body != [] && st.Ok(body + [st.quote] + tail) && tail != []
    requires Encloses(body, st.prev, |st.out| == st.mark + 1, st.quote)
    ensures Step(st, body + [st.quote] + tail) ==
              (if IsEscape(st.prev, |st.out| == st.mark + 1, body[0], st.quote) then st.(prev := 'X') else
                  st.Copy(body[0]), 1)
  {
    hide IsToken, IsSpace, IsNumber;
    var rest := body + [st.quote] + tail;
    assert rest[0] == body[0] && rest[1] == if |body| == 1 then st.quote else body[1];
  }

  lemma {:induction false} ConsumeBody(st: Scanner, body: seq<char>, tail: seq<char>)
    requires st.mode == Quoted && st.Ok(body + [st.quote] + tail) &&
             Encloses(body, st.prev, |st.out| == st.mark + 1, st.quote)
    requires tail != [] && tail[0] != st.quote
    ensures Scan(st, body + [st.quote] + tail)
         == Scan(Closed(st.out[..st.mark], Left(body, st.prev, |st.out| == st.mark + 1, st.quote), st.quote), tail)
    decreases |body|
  {
    hide Scan, IsToken, IsSpace;
    var rest := body + [st.quote] + tail;
    ScanStep(st, rest);
    if body == [] {
      assert rest == [st.quote] + tail && rest[1..] == tail;
    } else {
      BodyStep(st, body, tail);
      var st' := Step(st, rest).0;
      assert rest[1..] == body[1..] + [st.quote] + tail;
      assert st'.out[..st.mark] == st.out[..st.mark] && |st'.out| > st.mark + 1;
      ConsumeBody(st', body[1..], tail);
    }
  }

  predicate IsPlainText(text: seq<char>, quote: char) {
    forall k | 0 <= k < |text| :: text[k] != quote && text[k] != '\\'
  }

  /** Without quotes and backslashes a body leaves its last character behind. */
  lemma {:induction false} PlainBody(body: seq<char>, prev: char, first: bool, quote: char)
    requires IsPlainText(body, quote) && !IsEscape(prev, first, quote, quote)
    ensures Encloses(body, prev, first, quote)
    ensures Left(body, prev, first, quote) == if body == [] then prev else body[|body| - 1]
    decreases |body|
  {
    if body != [] {
      PlainBody(body[1..], body[0], false, quote);
    }
  }

  /**
   Behind a plain text, an escaped quote or backslash and a doubled quote are part of the body and leave 'X' behind.
   */
  lemma {:induction false} EscapeLeavesX(text: seq<char>, prev: char, first: bool, quote: char, pair: seq<char>)
    requires IsPlainText(text, quote) && text != [] && (quote == '\'' || quote == '"') && prev != '\\'
    requires pair == ['\\', quote] || pair == ['\\', '\\'] || pair == [quote, quote]
    ensures Encloses(text + pair, prev, first, quote) && Left(text + pair, prev, first, quote) == 'X'
    decreases |text|
  {
    var body := text + pair;
    assert body[0] == text[0] && body[1..] == text[1..] + pair;
    if |text| == 1 {
      assert body[1..] == pair;
      PairLeavesX(text[0], quote, pair);
    } else {
      EscapeLeavesX(text[1..], text[0], false, quote, pair);
    }
  }

  lemma PairLeavesX(prev: char, quote: char, pair: seq<char>)
    requires (quote == '\'' || quote == '"') && prev != '\\' && prev != quote
    requires pair == ['\\', quote] || pair == ['\\', '\\'] || pair == [quote, quote]
    ensures Encloses(pair, prev, false, quote) && Left(pair, prev, false, quote) == 'X'
  {
    var second := pair[1..];
    assert second == [pair[1]] && second[1..] == [];
    assert Encloses(second[1..], 'X', false, quote) && Left(second[1..], 'X', false, quote) == 'X';
    assert IsEscape(pair[0], false, second[0], quote);
    assert Encloses(second, pair[0], false, quote) && Left(second, pair[0], false, quote) == 'X';
  }

  function Literal(quote: char, body: seq<char>): seq<char> {
    [quote] + body + [quote]
  }

  lemma StringBecomesQuestion(st: Scanner, quote: char, body: seq<char>, tail: seq<char>)
    requires st.mode == Plain && st.Ok(Literal(quote, body) + tail) && (quote == '\'' || quote == '"')
    requires IsBody(body, quote) && tail != [] && tail[0] != quote
    ensures Scan(st, Literal(quote, body) + tail) == Scan(Closed(st.out, LeftBehind(body, quote), quote), tail)
  {
    hide Scan, SameClass, IsToken;
    var rest := Literal(quote, body) + tail;
    assert rest == [quote] + (body + [quote] + tail);
    ScanStep(st, rest);
    var st' := st.(mark := |st.out|, mode := Quoted, quote := quote).Copy(quote);
    assert Step(st, rest) == (st', 1);
    assert rest[1..] == body + [quote] + tail;
    assert st'.out[..st'.mark] == st.out;
    ConsumeBody(st', body, tail);
  }

  lemma {:induction false} ConsumeToEnd(st: Scanner, body: seq<char>)
    requires st.mode == Quoted && st.Ok(body + [st.quote]) && Encloses(body, st.prev, |st.out| == st.mark + 1, st.quote)
    ensures Scan(st, body + [st.quote]) == st.out[..st.mark] + ['?']
    decreases |body|
  {
    hide Scan, IsToken, IsSpace;
    var rest := body + [st.quote];
    ScanStep(st, rest);
    if body == [] {
      assert rest[1..] == [];
      ScanEnd(Step(st, rest).0);
    } else {
      EndStep(st, body);
      var st' := Step(st, rest).0;
      assert rest[1..] == body[1..] + [st.quote];
      assert st'.out[..st.mark] == st.out[..st.mark] && |st'.out| > st.mark + 1;
      ConsumeToEnd(st', body[1..]);
    }
  }

  lemma EndStep(st: Scanner, body: seq<char>)
    requires st.mode == Quoted && body != [] && st.Ok(body + [st.quote])
    requires Encloses(body, st.prev, |st.out| == st.mark + 1, st.quote)
    ensures Step(st, body + [st.quote]) ==
              (if IsEscape(st.prev, |st.out| == st.mark + 1, body[0], st.quote) then st.(prev := 'X') else
                  st.Copy(body[0]), 1)
  {
    hide IsToken, IsSpace, IsNumber;
    var rest := body + [st.quote];
    assert rest[0] == body[0] && rest[1] == if |body| == 1 then st.quote else body[1];
  }

  /** At the end of the query every string literal becomes the same question mark. */
  lemma StringAtEnd(st: Scanner, quote: char, body: seq<char>)
    requires st.mode == Plain && st.Ok(Literal(quote, body)) && (quote == '\'' || quote == '"') && IsBody(body, quote)
    ensures Scan(st, Literal(quote, body)) == st.out + ['?']
  {
    hide Scan, IsToken;
    var rest := Literal(quote, body);
    assert rest == [quote] + (body + [quote]);
    ScanStep(st, rest);
    var st' := st.(mark := |st.out|, mode := Quoted, quote := quote).Copy(quote);
    assert Step(st, rest) == (st', 1);
    assert rest[1..] == body + [quote];
    assert st'.out[..st'.mark] == st.out;
    ConsumeToEnd(st', body);
  }

  /** All that the rest of the scan can see of the character left behind. */
  predicate SameClass(a: char, b: char) {
    (a == '/' <==> b == '/') && (IsSpace(a) <==> IsSpace(b)) && (IsToken(a) <==> IsToken(b))
  }

  ghost predicate SameDigest(st: Scanner, quote: char, body: seq<char>, body': seq<char>, tail: seq<char>)
    requires st.mode == Plain && st.Ok(Literal(quote, body) + tail) && st.Ok(Literal(quote, body') + tail)
  {
    Scan(st, Literal(quote, body) + tail) == Scan(st, Literal(quote, body') + tail)
  }

  lemma SameClassSameScan(out: seq<char>, a: char, b: char, quote: char, tail: seq<char>)
    requires SameClass(a, b) && tail != []
    ensures Scan(Closed(out, a, quote), tail) == Scan(Closed(out, b, quote), tail)
  {
    hide Scan;
    var sa, sb := Closed(out, a, quote), Closed(out, b, quote);
    ScanStep(sa, tail);
    ScanStep(sb, tail);
    if |tail| == 1 && IsToken(a) && IsDigit(tail[0]) {
      var na, nb := sa.(mode := Number), sb.(mode := Number);
      assert tail[0..] == tail && tail[1..] == [];
      ScanStep(na, tail);
      ScanStep(nb, tail);
      ScanEnd(na.Question());
      ScanEnd(nb.Question());
    }
  }

  /** A tail that tells two characters of different classes apart. */
  function Witness(a: char, b: char): seq<char> {
    if IsToken(a) != IsToken(b) then ['1']
    else if IsSpace(a) != IsSpace(b) then [' ']
    else ['*', '/']
  }

  lemma WitnessDigit(out: seq<char>, a: char, quote: char)
    ensures Scan(Closed(out, a, quote), ['1']) == out + ['?', if IsToken(a) then '?' else '1']
  {
    hide Scan;
    var st := Closed(out, a, quote);
    ScanStep(st, ['1']);
    assert ['1'][0..] == ['1'] && ['1'][1..] == [];
    if IsToken(a) {
      var n := st.(mode := Number);
      ScanStep(n, ['1']);
      ScanEnd(n.Question());
    } else {
      ScanEnd(Step(st, ['1']).0);
    }
  }

  lemma WitnessSpace(out: seq<char>, a: char, quote: char)
    ensures |Scan(Closed(out, a, quote), [' '])| == |out| + if IsSpace(a) then 1 else 2
  {
    hide Scan;
    var st := Closed(out, a, quote);
    ScanStep(st, [' ']);
    assert [' '][1..] == [];
    ScanEnd(Step(st, [' ']).0);
  }

  lemma WitnessComment(out: seq<char>, a: char, quote: char)
    ensures |Scan(Closed(out, a, quote), ['*', '/'])| == |out| + if a == '/' then 0 else 3
  {
    hide Scan, IsSpace, IsDigit, IsNormal;
    var st := Closed(out, a, quote);
    var st1 := if a == '/' then st.(mode := BlockComment).Copy('*') else st.Copy('*').Settle();
    PunctuationIsPlain();
    assert Step(st, ['*', '/']) == (st1, 1);
    assert st1.out == out + ['?', '*'];
    ScanStep(st, ['*', '/']);
    assert ['*', '/'][1..] == ['/'] && ['/'][1..] == [];
    SecondStep(st1, out, a);
    ScanStep(st1, ['/']);
    ScanEnd(Step(st1, ['/']).0);
  }

  lemma PunctuationIsPlain()
    ensures !IsSpace('*') && !IsDigit('*') && !IsSpace('/') && !IsDigit('/')
  {
  }

  lemma SecondStep(st: Scanner, out: seq<char>, a: char)
    requires st.prev == '*' && st.out == out + ['?', '*'] && st.mark <= |st.out|
    requires st.mode == if a == '/' then BlockComment else Plain
    requires st.mode == BlockComment ==> st.mark == |out| + 1
    ensures |Step(st, ['/']).0.out| == |out| + if a == '/' then 0 else 3
  {
  }

  lemma WitnessTellsApart(out: seq<char>, a: char, b: char, quote: char)
    requires !SameClass(a, b)
    ensures Scan(Closed(out, a, quote), Witness(a, b)) != Scan(Closed(out, b, quote), Witness(a, b))
  {
    hide Scan;
    if IsToken(a) != IsToken(b) {
      WitnessDigit(out, a, quote);
      WitnessDigit(out, b, quote);
      assert (out + ['?', '?'])[|out| + 1] != (out + ['?', '1'])[|out| + 1];
    } else if IsSpace(a) != IsSpace(b) {
      WitnessSpace(out, a, quote);
      WitnessSpace(out, b, quote);
    } else {
      WitnessComment(out, a, quote);
      WitnessComment(out, b, quote);
    }
  }

  /**
   Two string literals are interchangeable in every query exactly when the characters they leave in prev_char
   are of one class, because the scanner does not reset prev_char after a string.
   */
  lemma DigestIgnoresStringsIff(st: Scanner, quote: char, body: seq<char>, body': seq<char>)
    requires st.IsPlain() && (quote == '\'' || quote == '"')
    requires IsBody(body, quote) && IsBody(body', quote)
    ensures (forall tail | tail != [] && tail[0] != quote :: SameDigest(st, quote, body, body', tail))
        <==> SameClass(LeftBehind(body, quote), LeftBehind(body', quote))
  {
    hide Scan;
    var a, b := LeftBehind(body, quote), LeftBehind(body', quote);
    if SameClass(a, b) {
      forall tail | tail != [] && tail[0] != quote
        ensures SameDigest(st, quote, body, body', tail)
      {
        StringBecomesQuestion(st, quote, body, tail);
        StringBecomesQuestion(st, quote, body', tail);
        SameClassSameScan(st.out, a, b, quote, tail);
      }
    } else {
      var tail := Witness(a, b);
      StringBecomesQuestion(st, quote, body, tail);
      StringBecomesQuestion(st, quote, body', tail);
      WitnessTellsApart(st.out, a, b, quote);
      assert !SameDigest(st, quote, body, body', tail);
    }
  }

  // ----- comments -----

  /** The text between the openers and the first closer; the opener's own star may close it. */
  predicate IsCommentText(text: seq<char>) {
    (text != [] ==> text[0] != '/') && HasNoCloser(text)
  }

  predicate HasNoCloser(text: seq<char>) {
    forall i, j | 0 <= i < j == i + 1 < |text| && text[i] == '*' :: text[j] != '/'
  }

  lemma {:induction false} BlockCloses(prev: char, text: seq<char>, tail: seq<char>)
    requires HasNoCloser(text) && (text != [] && prev == '*' ==> text[0] != '/')
    ensures AfterBlock(prev, text + ['*', '/'] + tail) == Some(tail)
    decreases |text|
  {
    var s := text + ['*', '/'] + tail;
    if text == [] {
      assert s[1..] == ['/'] + tail && s[1..][1..] == tail;
      assert AfterBlock('*', s[1..]) == Some(tail);
    } else {
      assert s[0] == text[0] && s[1..] == text[1..] + ['*', '/'] + tail;
      BlockCloses(text[0], text[1..], tail);
    }
  }

  /** A block comment disappears from the digest, opener included. */
  lemma CommentIsCut(st: Scanner, text: seq<char>, tail: seq<char>)
    requires st.mode == Plain && IsCommentText(text) && st.Ok(['/', '*'] + (text + ['*', '/'] + tail))
    ensures Scan(st, ['/', '*'] + (text + ['*', '/'] + tail)) == Scan(Cut(st.out, st.quote), tail)
  {
    hide Scan, AfterBlock;
    var inner := text + ['*', '/'] + tail;
    var rest := ['/', '*'] + inner;
    assert rest[1..] == ['*'] + inner && (['*'] + inner)[1..] == inner;
    PlainToken(st, rest);
    SpacedOne('/');
    var slash := Plainly(st.out, '/', st.quote);
    assert slash.out[..|slash.out| - 1] == st.out;
    BlockToken(slash, rest[1..]);
    BlockCloses('*', text, tail);
  }

  lemma {:induction false} LineEnds(text: seq<char>, end: char, tail: seq<char>)
    requires (forall k | 0 <= k < |text| :: text[k] !in "\n\r") && end in "\n\r"
    ensures AfterLine(text + [end] + tail) == Some(tail)
    decreases |text|
  {
    var s := text + [end] + tail;
    if text == [] {
      assert s[1..] == tail;
    } else {
      assert s[0] == text[0] && s[1..] == text[1..] + [end] + tail;
      LineEnds(text[1..], end, tail);
    }
  }

  /** A line comment disappears up to and including its line end. */
  lemma LineCommentIsCut(st: Scanner, text: seq<char>, end: char, tail: seq<char>)
    requires st.IsPlain() && (forall k | 0 <= k < |text| :: text[k] !in "\n\r") && end in "\n\r"
    ensures Scan(st, ['#'] + (text + [end] + tail)) == Scan(Cut(st.out, st.quote), tail)
  {
    hide Scan, AfterLine;
    var rest := ['#'] + (text + [end] + tail);
    assert rest[1..] == text + [end] + tail;
    LineToken(st, rest);
    LineEnds(text, end, tail);
  }
}
