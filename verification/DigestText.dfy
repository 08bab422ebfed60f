/**
 What the digest keeps: ordinary text, with each run of spaces reduced to one. The classes of characters are
 written out here, so that nothing depends on how the scanner tells them apart.
 */
module DigestText {
  import opened QueryDigest
  import opened DigestReference
  import opened DigestLiterals

  predicate IsWordChar(c: char) {
    'a' <= c <= 'z' || 'A' <= c <= 'Z' || '0' <= c <= '9' || c == '$' || c == '_'
  }

  predicate IsBlank(c: char) {
    c == ' ' || c == '\t' || c == '\n' || c == '\r'
  }

  lemma CharacterClasses(c: char)
    ensures (IsSpace(c) <==> IsBlank(c)) && (IsToken(c) <==> !IsWordChar(c)) && (IsDigit(c) <==> '0' <= c <= '9')
    ensures IsHex(c) <==> '0' <= c <= '9' || 'a' <= c <= 'f' || 'A' <= c <= 'F'
  {
  }

  /** No quote and no '#', no '*' behind a '/', and no digit but behind a word character. */
  predicate IsText(prev: char, s: seq<char>)
    decreases |s|
  {
    s != [] ==>
      && s[0] !in "#'\"" && !(prev == '/' && s[0] == '*') && ('0' <= s[0] <= '9' ==> IsWordChar(prev))
      && IsText(s[0], s[1..])
  }

  /** The text with each run of spaces reduced to one; prev came before it. */
  function Squeezed(prev: char, s: seq<char>): seq<char>
    decreases |s|
  {
    if s == [] then []
    else if IsBlank(s[0]) then (if IsBlank(prev) then [] else [' ']) + Squeezed(' ', s[1..])
    else [s[0]] + Squeezed(s[0], s[1..])
  }

  /** The last character of a text, as the scanner remembers it. */
  function Remembered(prev: char, s: seq<char>): char
    decreases |s|
  {
    if s == [] then prev
    else Remembered(if IsBlank(prev) && IsBlank(s[0]) then ' ' else s[0], s[1..])
  }

  lemma SqueezedCons(out: seq<char>, prev: char, s: seq<char>)
    requires s != []
    ensures out + Squeezed(prev, s) ==
              if IsBlank(prev) && IsBlank(s[0]) then out + Squeezed(' ', s[1..])
              else out + [if IsBlank(s[0]) then ' ' else s[0]] + Squeezed(s[0], s[1..])
  {
    SqueezedFirst(prev, s);
    SameSqueeze(s[0], s[1..]);
    hide Squeezed, IsBlank;
    Front(out, if IsBlank(s[0]) then ' ' else s[0], Squeezed(s[0], s[1..]));
  }

  lemma SqueezedFirst(prev: char, s: seq<char>)
    requires s != []
    ensures Squeezed(prev, s) ==
              if IsBlank(prev) && IsBlank(s[0]) then Squeezed(' ', s[1..])
              else if IsBlank(s[0]) then [' '] + Squeezed(' ', s[1..])
              else [s[0]] + Squeezed(s[0], s[1..])
  {
    hide IsBlank;
    assert [] + Squeezed(' ', s[1..]) == Squeezed(' ', s[1..]);
  }

  lemma Front(out: seq<char>, c: char, rest: seq<char>)
    ensures out + ([c] + rest) == out + [c] + rest
  {
  }

  /** All spaces are alike to what follows. */
  lemma SameSqueeze(c: char, s: seq<char>)
    ensures IsBlank(c) ==> Squeezed(c, s) == Squeezed(' ', s)
  {
  }

  lemma SameText(c: char, s: seq<char>)
    ensures IsBlank(c) && IsText(c, s) ==> IsText(' ', s)
  {
  }

  /** A text in front of anything comes out as itself, its runs of spaces reduced to one. */
  lemma {:induction false} TextGoesFirst(st: Scanner, text: seq<char>, tail: seq<char>)
    requires st.IsPlain() && IsText(st.prev, text)
    ensures Remembered(st.prev, text) == '/' ==> st.out + Squeezed(st.prev, text) != []
    ensures Scan(st, text + tail) == Tokens(st.out + Squeezed(st.prev, text), Remembered(st.prev, text), tail)
    decreases |text|
  {
    hide Scan, Squeezed, Remembered, Tokens, IsToken, IsDigit, IsSpace;
    if text == [] {
      NothingYet(st.prev);
      assert text + tail == tail && st.out + [] == st.out;
      ScanIsTokens(st, tail);
    } else {
      var c, s := text[0], text + tail;
      CharacterClasses(c);
      CharacterClasses(st.prev);
      assert s[1..] == text[1..] + tail;
      PlainToken(st, s);
      SqueezedCons(st.out, st.prev, text);
      RememberedCons(st.prev, text);
      if IsBlank(st.prev) && IsBlank(c) {
        SameText(c, text[1..]);
        TextGoesFirst(st.(mark := |st.out|, prev := ' '), text[1..], tail);
      } else {
        SpacedOne(c);
        TextGoesFirst(Plainly(st.out, c, st.quote), text[1..], tail);
      }
    }
  }

  lemma NothingYet(prev: char)
    ensures Squeezed(prev, []) == [] && Remembered(prev, []) == prev
  {
  }

  lemma RememberedCons(prev: char, s: seq<char>)
    requires s != []
    ensures Remembered(prev, s) == Remembered(if IsBlank(prev) && IsBlank(s[0]) then ' ' else s[0], s[1..])
  {
  }

  /** A query that is only text. */
  lemma TextDigest(query: seq<char>)
    requires IsText('\0', query)
    ensures Scan(START, query) == Squeezed('\0', query)
  {
    hide Scan;
    TextGoesFirst(START, query, []);
    assert query + [] == query && [] + Squeezed('\0', query) == Squeezed('\0', query);
  }

  /** A text at the end. */
  lemma TextGoesLast(st: Scanner, text: seq<char>)
    requires st.IsPlain() && IsText(st.prev, text)
    ensures Scan(st, text) == st.out + Squeezed(st.prev, text)
  {
    hide Scan;
    TextGoesFirst(st, text, []);
    assert text + [] == text;
  }

  // ----- one token between two texts, as whole queries -----

  /** The scanner behind a text. */
  function Behind(text: seq<char>): Scanner {
    var out := Squeezed('\0', text);
    Scanner(out, |out|, Remembered('\0', text), '\0', Plain)
  }

  lemma TextThen(text: seq<char>, tail: seq<char>)
    requires IsText('\0', text)
    ensures Behind(text).IsPlain() && Scan(START, text + tail) == Scan(Behind(text), tail)
  {
    hide Scan;
    TextGoesFirst(START, text, tail);
    assert [] + Squeezed('\0', text) == Squeezed('\0', text);
    ScanIsTokens(Behind(text), tail);
  }

  lemma LineCommentInText(pre: seq<char>, text: seq<char>, end: char, post: seq<char>)
    requires IsText('\0', pre) && IsText(' ', post)
    requires (forall k | 0 <= k < |text| :: text[k] !in "\n\r") && end in "\n\r"
    ensures Scan(START, pre + (['#'] + (text + [end] + post))) == Squeezed('\0', pre) + Squeezed(' ', post)
  {
    hide Scan, Squeezed;
    TextThen(pre, ['#'] + (text + [end] + post));
    LineCommentIsCut(Behind(pre), text, end, post);
    TextGoesLast(Cut(Behind(pre).out, '\0'), post);
  }

  lemma BlockCommentInText(pre: seq<char>, text: seq<char>, post: seq<char>)
    requires IsText('\0', pre) && IsText(' ', post) && IsCommentText(text)
    ensures Scan(START, pre + (['/', '*'] + (text + ['*', '/'] + post))) == Squeezed('\0', pre) + Squeezed(' ', post)
  {
    hide Scan, Squeezed;
    TextThen(pre, ['/', '*'] + (text + ['*', '/'] + post));
    CommentIsCut(Behind(pre), text, post);
    TextGoesLast(Cut(Behind(pre).out, '\0'), post);
  }

  /** A number behind anything but a word character and in front of a character c that no word contains. */
  lemma NumberInText(pre: seq<char>, lit: seq<char>, c: char, post: seq<char>)
    requires IsText('\0', pre) && !IsWordChar(Remembered('\0', pre)) && IsLiteral(lit)
    requires !IsWordChar(c) && post != [] && IsText(c, post)
    ensures Scan(START, pre + (lit + ([c] + post))) ==
              Squeezed('\0', pre) + ['?', if IsBlank(c) then ' ' else c] + Squeezed(c, post)
  {
    hide Scan, Squeezed, IsLiteral;
    var tail := [c] + post;
    TextThen(pre, lit + tail);
    CharacterClasses(c);
    CharacterClasses(Remembered('\0', pre));
    LiteralIsNumber(lit);
    LiteralBecomesQuestion(Behind(pre), lit, tail);
    assert tail[1..] == post;
    var out := Squeezed('\0', pre) + ['?', if IsBlank(c) then ' ' else c];
    TextGoesLast(Scanner(out, |out|, c, '\0', Plain), post);
  }

  lemma StringInText(pre: seq<char>, quote: char, body: seq<char>, post: seq<char>)
    requires IsText('\0', pre) && (quote == '\'' || quote == '"') && IsBody(body, quote)
    requires post != [] && post[0] != quote && IsText(LeftBehind(body, quote), post)
    ensures Scan(START, pre + (Literal(quote, body) + post)) ==
              Squeezed('\0', pre) + ['?'] + Squeezed(LeftBehind(body, quote), post)
  {
    hide Scan, Squeezed, IsBody, LeftBehind;
    TextThen(pre, Literal(quote, body) + post);
    StringBecomesQuestion(Behind(pre), quote, body, post);
    TextGoesLast(Closed(Behind(pre).out, LeftBehind(body, quote), quote), post);
  }
}
