/** How the tokens of a text are spelled and what may stand between them, told without the scanner,
    and the proof that readToken finds exactly these. */
module JsonSpelling {
  import opened CString
  import opened JsonLexer

  /** Between the quotes of a string: every quote stands behind a backslash, and something stands
      behind every backslash. */
  predicate IsQuotedBody(body: string) {
    if body == "" then true
    else if body[0] == '\\' then |body| > 1 && IsQuotedBody(body[2..])
    else body[0] != '\"' && IsQuotedBody(body[1..])
  }

  /** In body and the end mark of a comment, the mark is nowhere but at the end. */
  predicate ClosesAtEnd(body: string) {
    forall i :: 0 <= i < |body| ==> !((body + "*/")[i] == '*' && (body + "*/")[i + 1] == '/')
  }

  predicate IsNewLine(c: char) { c as int == 0x0A || c as int == 0x0D }

  /** A comment of the C style, or one of the C++ style, which ends with its line. */
  predicate IsComment(text: string) {
    (|text| >= 4 && text[..2] == "/*" && text[|text| - 2..] == "*/" && ClosesAtEnd(text[2..|text| - 2])) ||
    (|text| >= 2 && text[..2] == "//" && forall i :: 2 <= i < |text| - 1 ==> !IsNewLine(text[i]))
  }

  /** The line goes on to the end of the comment. */
  predicate IsOpenLine(text: string) {
    |text| >= 2 && text[..2] == "//" && (|text| > 2 ==> !IsNewLine(text[|text| - 1]))
  }

  predicate InNumber(c: char) { '0' <= c <= '9' || c == '.' || c == 'e' || c == 'E' || c == '+' || c == '-' }

  /** The text of a token by its kind; any text can be that of an error. */
  predicate IsProper(t: Token) {
    match t.kind
    case ObjectBegin => t.text == "{"
    case ObjectEnd => t.text == "}"
    case ArrayBegin => t.text == "["
    case ArrayEnd => t.text == "]"
    case ArraySeparator => t.text == ","
    case MemberSeparator => t.text == ":"
    case TrueToken => t.text == "true"
    case FalseToken => t.text == "false"
    case NullToken => t.text == "null"
    case StringToken =>
      |t.text| >= 2 && t.text[0] == '\"' && t.text[|t.text| - 1] == '\"' && IsQuotedBody(t.text[1..|t.text| - 1])
    case NumberToken =>
      t.text != "" && ('0' <= t.text[0] <= '9' || t.text[0] == '-') && forall i :: 0 <= i < |t.text| ==> InNumber(t.text[i])
    case CommentToken => IsComment(t.text)
    case EndOfStream => t.text == ['\0']
    case ErrorToken => true
  }

  /** A number ends in front of what is no part of one, a comment of one line with the line. */
  predicate MayEnd(t: Token, rest: string) {
    match t.kind
    case NumberToken => rest == "" || !InNumber(rest[0])
    case CommentToken => IsOpenLine(t.text) ==> rest == ""
    case _ => true
  }

  // ---------------------------------------------------------------- strings and comments

  lemma {:induction false} BodyIsScanned(body: string, rest: string)
    requires IsQuotedBody(body)
    ensures ScanString(body + ("\"" + rest)) == Scan(|body| + 1, true)
    decreases |body|
  {
    var s := body + ("\"" + rest);
    if body == "" {
      assert s == "\"" + rest;
    } else if body[0] == '\\' {
      BodyIsScanned(body[2..], rest);
      assert s[2..] == body[2..] + ("\"" + rest);
    } else {
      BodyIsScanned(body[1..], rest);
      assert s[1..] == body[1..] + ("\"" + rest);
    }
  }

  lemma {:induction false} ScannedIsBody(s: string)
    requires ScanString(s).ok
    ensures var n := ScanString(s).length; n > 0 && s[n - 1] == '\"' && IsQuotedBody(s[..n - 1])
    decreases |s|
  {
    var n := ScanString(s).length;
    if s[0] == '\\' {
      ScannedIsBody(s[2..]);
      assert s[..n - 1][2..] == s[2..][..n - 3];
    } else if s[0] != '\"' {
      ScannedIsBody(s[1..]);
      assert s[..n - 1][1..] == s[1..][..n - 2];
    }
  }

  lemma {:induction false} BlockIsScanned(body: string, rest: string)
    requires ClosesAtEnd(body)
    ensures ScanCStyleComment(body + ("*/" + rest)) == Scan(|body| + 2, true)
    decreases |body|
  {
    var s := body + ("*/" + rest);
    if body == "" {
      assert s == "*/" + rest;
    } else {
      var u, v := body + "*/", body[1..] + "*/";
      assert u[0] == s[0] && u[1] == s[1];
      forall i | 0 <= i < |body| - 1
        ensures !(v[i] == '*' && v[i + 1] == '/')
      {
        assert v[i] == u[i + 1] && v[i + 1] == u[i + 2];
      }
      BlockIsScanned(body[1..], rest);
      assert s[1..] == body[1..] + ("*/" + rest);
    }
  }

  lemma {:induction false} ScannedIsBlock(s: string)
    requires ScanCStyleComment(s).ok
    ensures var n := ScanCStyleComment(s).length; n >= 2 && s[n - 2..n] == "*/" && ClosesAtEnd(s[..n - 2])
    decreases |s|
  {
    var n := ScanCStyleComment(s).length;
    if !(s[0] == '*' && |s| > 1 && s[1] == '/') {
      ScannedIsBlock(s[1..]);
      var body, tail := s[..n - 2], s[1..][..n - 3];
      assert s[n - 2..n] == s[1..][n - 3..n - 1];
      assert body + "*/" == s[..n] && tail + "*/" == s[1..][..n - 1];
      forall i | 0 <= i < |body|
        ensures !((body + "*/")[i] == '*' && (body + "*/")[i + 1] == '/')
      {
        if i > 0 { assert !((tail + "*/")[i - 1] == '*' && (tail + "*/")[i] == '/'); }
      }
    }
  }

  lemma {:induction false} LineIsScanned(line: string, rest: string)
    requires forall i :: 0 <= i < |line| - 1 ==> !IsNewLine(line[i])
    requires line == "" || !IsNewLine(line[|line| - 1]) ==> rest == ""
    ensures CppStyleCommentLength(line + rest) == |line|
  {
    var s := line + rest;
    if line != "" {
      assert s[1..] == line[1..] + rest;
      if |line| > 1 || !IsNewLine(line[0]) { LineIsScanned(line[1..], rest); }
    }
  }

  lemma {:induction false} ScannedIsLine(s: string)
    ensures var n := CppStyleCommentLength(s);
            (forall i :: 0 <= i < n - 1 ==> !IsNewLine(s[i])) && (n == 0 || !IsNewLine(s[n - 1]) ==> n == |s|)
  {
    if s != "" && !IsNewLine(s[0]) { ScannedIsLine(s[1..]); }
  }

  lemma {:induction false} NumberIsScanned(text: string, rest: string)
    requires (forall i :: 0 <= i < |text| ==> InNumber(text[i])) && (rest == "" || !InNumber(rest[0]))
    ensures NumberLength(text + rest) == |text|
  {
    if text == "" {
      assert text + rest == rest;
    } else {
      assert (text + rest)[1..] == text[1..] + rest;
      NumberIsScanned(text[1..], rest);
    }
  }

  // ---------------------------------------------------------------- one token

  lemma CommentIsScanned(text: string, rest: string)
    requires IsComment(text) && (IsOpenLine(text) ==> rest == "")
    ensures ScanToken(text + rest) == (CommentToken, |text|)
  {
    hide ScanCStyleComment, CppStyleCommentLength, ClosesAtEnd;
    var s := text + rest;
    var t := s[1..];
    if |text| >= 4 && text[..2] == "/*" && text[|text| - 2..] == "*/" && ClosesAtEnd(text[2..|text| - 2]) {
      var body := text[2..|text| - 2];
      BlockIsScanned(body, rest);
      assert text == "/*" + body + "*/";
      assert t[1..] == body + ("*/" + rest);
      assert s[0] == '/' && t[0] == '*';
    } else {
      LineIsScanned(text[2..], rest);
      assert t[1..] == text[2..] + rest;
      assert s[0] == text[..2][0] == '/' && t[0] == text[..2][1] == '/';
    }
  }

  lemma StringIsScanned(text: string, rest: string)
    requires IsProper(Token(StringToken, text))
    ensures ScanToken(text + rest) == (StringToken, |text|)
  {
    hide ScanString, IsQuotedBody;
    var body := text[1..|text| - 1];
    BodyIsScanned(body, rest);
    assert text == "\"" + body + "\"";
    assert (text + rest)[1..] == body + ("\"" + rest);
  }

  lemma NumberTokenIsScanned(text: string, rest: string)
    requires IsProper(Token(NumberToken, text)) && MayEnd(Token(NumberToken, text), rest)
    ensures ScanToken(text + rest) == (NumberToken, |text|)
  {
    hide NumberLength, InNumber;
    NumberIsScanned(text[1..], rest);
    assert (text + rest)[1..] == text[1..] + rest && (text + rest)[0] == text[0];
  }

  lemma WordIsScanned(t: Token, rest: string)
    requires IsProper(t) && t.kind != StringToken && t.kind != NumberToken && t.kind != CommentToken && t.kind != ErrorToken
    ensures ScanToken(t.text + rest) == (t.kind, |t.text|)
  {
    var s := t.text + rest;
    assert s[0] == t.text[0];
    if t.kind == TrueToken { assert s[1..] == "rue" + rest; }
    if t.kind == FalseToken { assert s[1..] == "alse" + rest; }
    if t.kind == NullToken { assert s[1..] == "ull" + rest; }
  }

  lemma ProperStarts(t: Token)
    requires IsProper(t) && t.kind != ErrorToken
    ensures t.text != "" && !IsWs(t.text[0])
  {
    hide IsQuotedBody, ClosesAtEnd;
    if t.kind == CommentToken { assert t.text[..2][0] == t.text[0]; }
  }

  /** A properly spelled token is read whole. */
  lemma ProperIsScanned(t: Token, rest: string)
    requires IsProper(t) && MayEnd(t, rest) && t.kind != ErrorToken
    ensures t.text != "" && !IsWs(t.text[0]) && ScanToken(t.text + rest) == (t.kind, |t.text|)
  {
    hide ScanToken, IsQuotedBody, IsComment, IsWs;
    ProperStarts(t);
    match t.kind
    case StringToken => StringIsScanned(t.text, rest);
    case CommentToken => CommentIsScanned(t.text, rest);
    case NumberToken => NumberTokenIsScanned(t.text, rest);
    case _ => WordIsScanned(t, rest);
  }

  lemma ScannedIsComment(s: string)
    requires s != "" && s[0] == '/' && ScanToken(s).0 == CommentToken
    ensures var text := s[..ScanToken(s).1]; IsComment(text) && (IsOpenLine(text) ==> s[|text|..] == "")
  {
    hide ScanCStyleComment, CppStyleCommentLength, ClosesAtEnd;
    var n := ScanToken(s).1;
    var text, t := s[..n], s[2..];
    assert s[1..][1..] == t;
    if s[1] == '*' {
      ScannedIsBlock(t);
      assert text[..2] == "/*" && text[n - 2..] == t[n - 4..n - 2] && text[2..n - 2] == t[..n - 4];
    } else {
      ScannedIsLine(t);
      assert text[..2] == "//";
      assert forall i :: 2 <= i < n ==> text[i] == t[i - 2];
    }
  }

  /** Whatever is read as a token is properly spelled and ends where it may. */
  lemma ScannedIsProper(s: string)
    requires s != ""
    ensures var (kind, n) := ScanToken(s); kind != ErrorToken ==> IsProper(Token(kind, s[..n])) && MayEnd(Token(kind, s[..n]), s[n..])
  {
    hide ScanString, ScanComment, NumberLength, IsQuotedBody, IsComment, IsOpenLine;
    var (kind, n) := ScanToken(s);
    var t := s[1..];
    match kind
    case StringToken =>
      ScannedIsBody(t);
      assert s[..n][1..n - 1] == t[..n - 2];
    case CommentToken => ScannedIsComment(s);
    case NumberToken =>
      assert forall i :: 1 <= i < n ==> s[i] == t[i - 1];
    case TrueToken => assert s[..4] == "t" + t[..3];
    case FalseToken => assert s[..5] == "f" + t[..4];
    case NullToken => assert s[..4] == "n" + t[..3];
    case _ =>
  }

  /** readToken finds a token exactly if it is spelled like one and ends where it may. */
  lemma ScannedExactly(s: string, kind: TokenKind, n: nat)
    requires 0 < n <= |s| && kind != ErrorToken
    ensures ScanToken(s) == (kind, n) <==> IsProper(Token(kind, s[..n])) && MayEnd(Token(kind, s[..n]), s[n..])
  {
    hide ScanToken, IsProper, MayEnd;
    ScannedIsProper(s);
    assert s == s[..n] + s[n..];
    if IsProper(Token(kind, s[..n])) && MayEnd(Token(kind, s[..n]), s[n..]) { ProperIsScanned(Token(kind, s[..n]), s[n..]); }
  }

  // ---------------------------------------------------------------- all tokens of a text

  predicate AreProper(toks: seq<Token>) { forall i :: 0 <= i < |toks| ==> IsProper(toks[i]) }

  lemma {:induction false} LexIsProper(s: string)
    ensures AreProper(Lex(s))
    decreases |s|
  {
    hide ScanToken, IsProper, MayEnd;
    var t := s[SpaceLength(s)..];
    if t != "" {
      ScannedIsProper(t);
      var (kind, n) := ScanToken(t);
      LexIsProper(t[n..]);
      if kind == ErrorToken { ErrorIsProper(t[..n]); }
    }
  }

  lemma ErrorIsProper(text: string)
    ensures IsProper(Token(ErrorToken, text))
  {
  }

  predicate NoErrors(toks: seq<Token>) { forall i :: 0 <= i < |toks| ==> toks[i].kind != ErrorToken }

  /** The text starts with white space and the token, and goes on with t. */
  predicate StartsWith(s: string, blank: string, tok: Token, t: string) {
    IsBlank(blank) && s == blank + tok.text + t && IsProper(tok) && MayEnd(tok, t)
  }

  /** The text is made of these tokens with white space in front of each, and the rest. */
  ghost predicate Laid(s: string, toks: seq<Token>, rest: string)
    decreases |toks|
  {
    if toks == [] then s == rest
    else exists blank, t :: StartsWith(s, blank, toks[0], t) && Laid(t, toks[1..], rest)
  }

  lemma StartIsLexed(s: string, blank: string, tok: Token, t: string)
    requires StartsWith(s, blank, tok, t) && tok.kind != ErrorToken
    ensures Lex(s) == [tok] + Lex(t)
  {
    hide ScanToken, IsProper, MayEnd;
    var u := tok.text + t;
    ProperIsScanned(tok, t);
    assert s == blank + u;
    SpaceLengthAfterSpace(blank, u);
    assert SpaceLength(u) == 0;
    assert s[|blank|..] == u && u[..|tok.text|] == tok.text && u[|tok.text|..] == t;
  }

  lemma LexedStarts(s: string) returns (blank: string, t: string)
    requires Lex(s) != [] && Lex(s)[0].kind != ErrorToken
    ensures StartsWith(s, blank, Lex(s)[0], t) && Lex(t) == Lex(s)[1..]
  {
    hide ScanToken, IsProper, MayEnd, IsBlank, SpaceLength, Lex;
    var n := SpaceLength(s);
    var u := s[n..];
    HeadIsScanned(s);
    var (kind, k) := ScanToken(u);
    ScannedIsProper(u);
    blank, t := s[..n], u[k..];
    SpacesAreBlank(s);
    assert s == s[..n] + u[..k] + u[k..];
  }

  lemma HeadIsScanned(s: string)
    requires Lex(s) != []
    ensures var u := s[SpaceLength(s)..];
            u != "" && var (kind, k) := ScanToken(u); Lex(s)[0] == Token(kind, u[..k]) && Lex(s)[1..] == Lex(u[k..])
  {
    hide ScanToken;
  }

  lemma {:induction false} SpacesAreBlank(s: string)
    ensures IsBlank(s[..SpaceLength(s)])
  {
    if s != "" && IsSpace(s[0]) {
      SpacesAreBlank(s[1..]);
      assert s[..SpaceLength(s)] == [s[0]] + s[1..][..SpaceLength(s[1..])];
    }
  }

  lemma {:induction false} LaidIsLexed(s: string, toks: seq<Token>, rest: string)
    requires Laid(s, toks, rest) && NoErrors(toks)
    ensures Lex(s) == toks + Lex(rest)
    decreases |toks|
  {
    hide Lex, StartsWith;
    if toks == [] {
      assert toks + Lex(rest) == Lex(rest);
    } else {
      var blank, t :| StartsWith(s, blank, toks[0], t) && Laid(t, toks[1..], rest);
      StartIsLexed(s, blank, toks[0], t);
      LaidIsLexed(t, toks[1..], rest);
      assert toks == [toks[0]] + toks[1..];
    }
  }

  lemma {:induction false} LexedIsLaid(s: string, toks: seq<Token>, more: seq<Token>) returns (rest: string)
    requires Lex(s) == toks + more && NoErrors(toks)
    ensures Laid(s, toks, rest) && Lex(rest) == more
    decreases |toks|
  {
    hide Lex, StartsWith;
    if toks == [] {
      assert toks + more == more;
      return s;
    }
    assert Lex(s)[0] == toks[0] && Lex(s)[1..] == toks[1..] + more;
    var blank, t := LexedStarts(s);
    rest := LexedIsLaid(t, toks[1..], more);
  }
}
