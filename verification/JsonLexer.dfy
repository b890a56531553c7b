/** The tokens of the JSON reader, as functions of the text that is left to read. */
module JsonLexer {
  import opened CString

  datatype TokenKind =
    | EndOfStream | ObjectBegin | ObjectEnd | ArrayBegin | ArrayEnd
    | StringToken | NumberToken | TrueToken | FalseToken | NullToken
    | ArraySeparator | MemberSeparator | CommentToken | ErrorToken

  datatype Token = Token(kind: TokenKind, text: string)

  const QUOTE: char := '\"'
  const BACKSLASH: char := '\\'

  predicate IsSpace(c: char) { c == ' ' || c == '\t' || c == '\r' || c == '\n' }

  predicate IsDigit(c: char) { '0' <= c <= '9' }

  predicate IsNumberChar(c: char) {
    IsDigit(c) || c == '.' || c == 'e' || c == 'E' || c == '+' || c == '-'
  }

  /** How many characters skipSpaces advances over. */
  function SpaceLength(s: string): (n: nat)
    ensures n <= |s|
    ensures n < |s| ==> !IsSpace(s[n])
  {
    if s == "" || !IsSpace(s[0]) then 0 else 1 + SpaceLength(s[1..])
  }

  /** How many characters readNumber advances over. */
  function NumberLength(s: string): (n: nat)
    ensures n <= |s|
    ensures n < |s| ==> !IsNumberChar(s[n])
    ensures forall i :: 0 <= i < n ==> IsNumberChar(s[i])
  {
    if s == "" || !IsNumberChar(s[0]) then 0 else 1 + NumberLength(s[1..])
  }

  /** The outcome of scanning a piece of a token: how far, and whether it was well formed. */
  datatype Scan = Scan(length: nat, ok: bool)

  function Skip(n: nat, s: Scan): Scan { Scan(n + s.length, s.ok) }

  /** readString, from after the opening quote. */
  function ScanString(s: string): (r: Scan)
    ensures r.length <= |s|
    ensures r.ok ==> r.length > 0 && s[r.length - 1] == QUOTE
  {
    if s == "" then Scan(0, false)
    else if s[0] == BACKSLASH then
      (if |s| == 1 then Scan(1, false) else Skip(2, ScanString(s[2..])))
    else if s[0] == QUOTE then Scan(1, true)
    else Skip(1, ScanString(s[1..]))
  }

  /** readCStyleComment, from after the opening slash and star. */
  function ScanCStyleComment(s: string): (r: Scan)
    ensures r.length <= |s|
  {
    if s == "" then Scan(0, false)
    else if s[0] == '*' && |s| > 1 && s[1] == '/' then Scan(2, true)
    else Skip(1, ScanCStyleComment(s[1..]))
  }

  /** readCppStyleComment, from after the two slashes. */
  function CppStyleCommentLength(s: string): (n: nat)
    ensures n <= |s|
  {
    if s == "" then 0
    else if s[0] == '\r' || s[0] == '\n' then 1
    else 1 + CppStyleCommentLength(s[1..])
  }

  /** readComment, from after the opening slash. */
  function ScanComment(s: string): (r: Scan)
    ensures r.length <= |s|
  {
    if s == "" then Scan(0, false)
    else if s[0] == '*' then Skip(1, ScanCStyleComment(s[1..]))
    else if s[0] == '/' then Scan(1 + CppStyleCommentLength(s[1..]), true)
    else Scan(1, false)
  }

  /** match(): advances over the pattern, or not at all. */
  function ScanWord(s: string, word: string): (r: Scan)
    ensures r.length <= |s|
  {
    if word <= s then Scan(|word|, true) else Scan(0, false)
  }

  /** The kind and length of the token that starts at the head of s. */
  function ScanToken(s: string): (r: (TokenKind, nat))
    requires s != ""
    ensures 0 < r.1 <= |s|
  {
    var c, t := s[0], s[1..];
    if c == '{' then (ObjectBegin, 1)
    else if c == '}' then (ObjectEnd, 1)
    else if c == '[' then (ArrayBegin, 1)
    else if c == ']' then (ArrayEnd, 1)
    else if c == QUOTE then Checked(StringToken, ScanString(t))
    else if c == '/' then Checked(CommentToken, ScanComment(t))
    else if IsDigit(c) || c == '-' then (NumberToken, 1 + NumberLength(t))
    else if c == 't' then Checked(TrueToken, ScanWord(t, "rue"))
    else if c == 'f' then Checked(FalseToken, ScanWord(t, "alse"))
    else if c == 'n' then Checked(NullToken, ScanWord(t, "ull"))
    else if c == ',' then (ArraySeparator, 1)
    else if c == ':' then (MemberSeparator, 1)
    else if c == NUL then (EndOfStream, 1)
    else (ErrorToken, 1)
  }

  function Checked(kind: TokenKind, r: Scan): (TokenKind, nat) {
    (if r.ok then kind else ErrorToken, 1 + r.length)
  }

  /** Every token of the text; past its end readToken reports the end of the stream for ever. */
  function Lex(s: string): (toks: seq<Token>)
    decreases |s|
  {
    var t := s[SpaceLength(s)..];
    if t == "" then []
    else
      var (kind, n) := ScanToken(t);
      [Token(kind, t[..n])] + Lex(t[n..])
  }

  /** readToken on the list of tokens that is left. */
  function Next(toks: seq<Token>): (r: (Token, seq<Token>))
    ensures |r.1| <= |toks|
    ensures r.0.kind != EndOfStream ==> |r.1| < |toks|
  {
    if toks == [] then (Token(EndOfStream, ""), []) else (toks[0], toks[1..])
  }

  /** The first token of a text behind its leading spaces. */
  lemma NextIsScanned(s: string, kind: TokenKind, n: nat)
    requires SpaceLength(s) < |s| && ScanToken(s[SpaceLength(s)..]) == (kind, n)
    ensures var t := s[SpaceLength(s)..]; n <= |t| && Next(Lex(s)) == (Token(kind, t[..n]), Lex(t[n..]))
  {
  }

  lemma NoToken(s: string)
    requires SpaceLength(s) == |s|
    ensures Lex(s) == []
  {
  }

  lemma Slices(s: string, i: nat, j: nat)
    requires i <= j <= |s|
    ensures s[i..][..j - i] == s[i..j] && s[i..][j - i..] == s[j..]
  {
  }

  /** The same by positions in a document: reading from one position skips spaces up to start
      and leaves the text from end on. */
  lemma NextInDocument(document: string, from: nat, start: nat, end: nat, kind: TokenKind)
    requires from <= start < end <= |document|
    requires start == from + SpaceLength(document[from..])
    requires (kind, end - start) == ScanToken(document[start..])
    ensures Next(Lex(document[from..])) == (Token(kind, document[start..end]), Lex(document[end..]))
  {
    var s, t := document[from..], document[start..];
    assert s[SpaceLength(s)..] == t;
    Slices(document, start, end);
    NextIsScanned(s, kind, end - start);
  }

  lemma NulToken(t: string)
    requires t != "" && t[0] == NUL
    ensures ScanToken(t) == (EndOfStream, 1)
  {
  }

  lemma StringTokenLength(t: string)
    requires t != "" && ScanToken(t).0 == StringToken
    ensures ScanToken(t).1 >= 2
  {
  }

  lemma NothingInDocument(document: string, from: nat)
    requires from <= |document| == from + SpaceLength(document[from..])
    ensures Next(Lex(document[from..])) == (Token(EndOfStream, ""), Lex(document[|document|..]))
  {
    NoToken(document[from..]);
  }

  lemma SpaceLengthOfRest(s: string)
    ensures SpaceLength(s[SpaceLength(s)..]) == 0
  {
  }

  /** Skipping spaces by hand changes no token. */
  lemma LexSkipsSpaces(s: string)
    ensures Lex(s[SpaceLength(s)..]) == Lex(s)
  {
    var t := s[SpaceLength(s)..];
    SpaceLengthOfRest(s);
    assert t[0..] == t;
  }

  /** A text that starts with no space starts with a closing bracket exactly when its first
      token is one. */
  lemma LexStartsWithArrayEnd(s: string)
    requires SpaceLength(s) == 0
    ensures (s != "" && s[0] == ']') <==> (Lex(s) != [] && Lex(s)[0].kind == ArrayEnd)
  {
    assert s[0..] == s;
  }

  // ---------------------------------------------------------------- texts that spell tokens

  /** What may follow a number without becoming part of it. */
  predicate Boundary(rest: string) { rest == "" || !IsNumberChar(rest[0]) }

  /** Before this rest, the text s is read as the tokens toks. */
  ghost predicate SpellsBefore(s: string, toks: seq<Token>, rest: string) {
    Lex(s + rest) == toks + Lex(rest)
  }

  /** The text s spells the tokens toks, whatever text comes after it. */
  ghost predicate Closed(s: string, toks: seq<Token>) {
    forall rest :: SpellsBefore(s, toks, rest)
  }

  /** The same, but s may end in a number that more number characters would lengthen. */
  ghost predicate Spells(s: string, toks: seq<Token>) {
    forall rest :: Boundary(rest) ==> SpellsBefore(s, toks, rest)
  }

  lemma SpellsLex(s: string, toks: seq<Token>)
    requires Spells(s, toks)
    ensures Lex(s) == toks
  {
    assert SpellsBefore(s, toks, "");
    assert s + "" == s;
  }

  lemma ClosedSpells(s: string, toks: seq<Token>)
    requires Closed(s, toks)
    ensures Spells(s, toks)
  {
  }

  /** After a closed text any text can follow. */
  lemma ClosedThenSpells(a: string, ta: seq<Token>, b: string, tb: seq<Token>)
    requires Closed(a, ta) && Spells(b, tb)
    ensures Spells(a + b, ta + tb)
    ensures Closed(b, tb) ==> Closed(a + b, ta + tb)
  {
    hide Lex;
    forall rest | Boundary(rest) || Closed(b, tb)
      ensures SpellsBefore(a + b, ta + tb, rest)
    {
      assert a + b + rest == a + (b + rest);
      assert SpellsBefore(a, ta, b + rest) && SpellsBefore(b, tb, rest);
    }
  }

  /** After a text that may end in a number, one that starts with no number character. */
  lemma SpellsThenClosed(a: string, ta: seq<Token>, b: string, tb: seq<Token>)
    requires Spells(a, ta) && Closed(b, tb)
    requires b != "" && Boundary(b)
    ensures Closed(a + b, ta + tb)
  {
    hide Lex;
    forall rest
      ensures SpellsBefore(a + b, ta + tb, rest)
    {
      assert a + b + rest == a + (b + rest);
      assert SpellsBefore(a, ta, b + rest) && SpellsBefore(b, tb, rest);
    }
  }

  /** White space spells nothing. */
  lemma SpaceSpellsNothing(s: string)
    requires forall i :: 0 <= i < |s| ==> IsSpace(s[i])
    ensures Closed(s, [])
  {
    forall rest
      ensures SpellsBefore(s, [], rest)
    {
      LexAfterSpace(s, rest);
    }
  }

  lemma LexAfterSpace(s: string, rest: string)
    requires forall i :: 0 <= i < |s| ==> IsSpace(s[i])
    ensures Lex(s + rest) == Lex(rest)
  {
    SpaceLengthAfterSpace(s, rest);
    assert (s + rest)[SpaceLength(s + rest)..] == rest[SpaceLength(rest)..];
  }

  lemma {:induction false} SpaceLengthAfterSpace(s: string, rest: string)
    requires forall i :: 0 <= i < |s| ==> IsSpace(s[i])
    ensures SpaceLength(s + rest) == |s| + SpaceLength(rest)
  {
    if s == "" {
      assert s + rest == rest;
    } else {
      assert (s + rest)[1..] == s[1..] + rest;
      SpaceLengthAfterSpace(s[1..], rest);
    }
  }

  /** White space by section 2 of RFC 8259. */
  predicate IsWs(c: char) { c as int == 0x20 || c as int == 0x09 || c as int == 0x0A || c as int == 0x0D }

  predicate IsBlank(s: string) { forall i :: 0 <= i < |s| ==> IsWs(s[i]) }

  lemma BlankThenSpells(blank: string, s: string, toks: seq<Token>)
    requires IsBlank(blank) && Spells(s, toks)
    ensures Spells(blank + s, toks)
  {
    hide Closed, Spells;
    SpaceSpellsNothing(blank);
    ClosedThenSpells(blank, [], s, toks);
    assert [] + toks == toks;
  }

  lemma SpellsThenBlank(s: string, toks: seq<Token>, blank: string)
    requires IsBlank(blank) && Spells(s, toks)
    ensures Spells(s + blank, toks)
  {
    hide SpellsBefore, Closed;
    forall rest | Boundary(rest)
      ensures SpellsBefore(s + blank, toks, rest)
    {
      BlankIsBoundary(blank, rest);
      assert SpellsBefore(s, toks, blank + rest);
      BlankBeforeRest(s, toks, blank, rest);
    }
  }

  lemma BlankIsBoundary(blank: string, rest: string)
    requires IsBlank(blank) && Boundary(rest)
    ensures Boundary(blank + rest)
  {
  }

  lemma BlankBeforeRest(s: string, toks: seq<Token>, blank: string, rest: string)
    requires IsBlank(blank) && SpellsBefore(s, toks, blank + rest)
    ensures SpellsBefore(s + blank, toks, rest)
  {
    hide Lex;
    LexAfterSpace(blank, rest);
    assert s + blank + rest == s + (blank + rest);
  }

  /** A separator or bracket behind a text. */
  lemma SpellsThenFixed(s: string, toks: seq<Token>, t: Token)
    requires Spells(s, toks) && IsFixedToken(t) && t.text != "" && Boundary(t.text)
    ensures Closed(s + t.text, toks + [t])
  {
    hide Closed, Spells;
    FixedIsClosed(t);
    SpellsThenClosed(s, toks, t.text, [t]);
  }

  lemma BlankSpells(space: string)
    requires IsBlank(space)
    ensures Spells(space, [])
  {
    hide Closed, Spells;
    SpaceSpellsNothing(space);
    ClosedSpells(space, []);
  }

  /** A text that ScanToken consumes whole before this rest. */
  lemma ScannedSpellsBefore(s: string, kind: TokenKind, rest: string)
    requires s != "" && !IsSpace(s[0])
    requires ScanToken(s + rest) == (kind, |s|)
    ensures SpellsBefore(s, [Token(kind, s)], rest)
  {
    var t := s + rest;
    assert SpaceLength(t) == 0 && t[0..] == t;
    assert t[..|s|] == s && t[|s|..] == rest;
    NextIsScanned(t, kind, |s|);
    LexIsNext(t);
  }

  lemma LexIsNext(s: string)
    requires SpaceLength(s) < |s|
    ensures Lex(s) == [Next(Lex(s)).0] + Next(Lex(s)).1
  {
  }

  /** The one-character tokens and the three words. */
  predicate IsFixedToken(t: Token) {
    t == Token(ObjectBegin, "{") || t == Token(ObjectEnd, "}") || t == Token(ArrayBegin, "[") ||
    t == Token(ArrayEnd, "]") || t == Token(ArraySeparator, ",") || t == Token(MemberSeparator, ":") ||
    t == Token(TrueToken, "true") || t == Token(FalseToken, "false") || t == Token(NullToken, "null")
  }

  lemma ScanFixed(t: Token, rest: string)
    requires IsFixedToken(t)
    ensures t.text != "" && !IsSpace(t.text[0]) && ScanToken(t.text + rest) == (t.kind, |t.text|)
  {
    var s := t.text + rest;
    assert |t.text| == 4 || |t.text| == 5 ==> s[1..] == t.text[1..] + rest;
  }

  lemma FixedIsClosed(t: Token)
    requires IsFixedToken(t)
    ensures Closed(t.text, [t])
  {
    hide SpellsBefore, ScanToken;
    forall rest
      ensures SpellsBefore(t.text, [t], rest)
    {
      ScanFixed(t, rest);
      ScannedSpellsBefore(t.text, t.kind, rest);
    }
  }

  /** A digit or minus sign followed by number characters is one number token. */
  predicate IsNumberText(s: string) {
    s != "" && (IsDigit(s[0]) || s[0] == '-') && forall i :: 0 <= i < |s| ==> IsNumberChar(s[i])
  }

  lemma ScanNumber(s: string, rest: string)
    requires IsNumberText(s) && Boundary(rest)
    ensures ScanToken(s + rest) == (NumberToken, |s|)
  {
    NumberLengthIs(s[1..], rest);
    assert (s + rest)[1..] == s[1..] + rest;
  }

  lemma NumberSpells(s: string)
    requires IsNumberText(s)
    ensures Spells(s, [Token(NumberToken, s)])
  {
    hide SpellsBefore, ScanToken;
    forall rest | Boundary(rest)
      ensures SpellsBefore(s, [Token(NumberToken, s)], rest)
    {
      ScanNumber(s, rest);
      ScannedSpellsBefore(s, NumberToken, rest);
    }
  }

  lemma {:induction false} NumberLengthIs(s: string, rest: string)
    requires forall i :: 0 <= i < |s| ==> IsNumberChar(s[i])
    requires Boundary(rest)
    ensures NumberLength(s + rest) == |s|
  {
    if s != "" {
      assert (s + rest)[1..] == s[1..] + rest;
      NumberLengthIs(s[1..], rest);
    } else {
      assert s + rest == rest;
    }
  }
}
