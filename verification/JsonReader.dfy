/** class Reader: the character-level, stateful parser. Every method is proved against the
    functions of JsonLexer, JsonString, JsonNumber and JsonParser. */
module JsonReader {
  import opened CString
  import opened JsonValue
  import opened JsonLexer
  import opened JsonNumber
  import opened JsonString
  import opened JsonParser
  import Utf8

  /** Reader::Token: a kind and the part of the document from start up to end. */
  datatype TokenRange = TokenRange(kind: TokenKind, start: nat, end: nat)

  class Reader {
    const scan: DoubleScanner
    var features: Features
    var document: string
    var current: nat
    /** nodes_, a stack of references into the tree under construction: a member or item is
        copied onto the stack and written back to its parent when it is popped. */
    var nodes: seq<Value>
    var errors: seq<Error>

    constructor (features: Features, scan: DoubleScanner)
      ensures this.features == features && this.scan == scan && Valid()
    {
      this.features, this.scan := features, scan;
      document, current, nodes, errors := "", 0, [], [];
    }

    ghost predicate Valid()
      reads this`document, this`current
    {
      current <= |document|
    }

    /** The text between current_ and end_. */
    ghost function Left(): string
      requires Valid()
      reads this`document, this`current
    {
      document[current..]
    }

    /** The tokens that are left to read. */
    ghost function Tokens(): seq<Token>
      requires Valid()
      reads this`document, this`current
    {
      Lex(Left())
    }

    predicate InDocument(t: TokenRange)
      reads this`document
    {
      t.start <= t.end <= |document| &&
      (t.kind == NumberToken ==> t.start < t.end) && (t.kind == StringToken ==> t.start + 2 <= t.end)
    }

    function Text(t: TokenRange): Token
      requires InDocument(t)
      reads this`document
    {
      Token(t.kind, document[t.start..t.end])
    }

    ghost function Top(): Value
      requires nodes != []
      reads this`nodes
    {
      nodes[|nodes| - 1]
    }

    ghost function Below(): seq<Value>
      requires nodes != []
      reads this`nodes
    {
      nodes[..|nodes| - 1]
    }

    // -------------------------------------------------------------- characters

    /** getNextChar: NUL at the end, without moving. */
    method GetNextChar() returns (c: char)
      requires Valid()
      modifies this`current
      ensures Valid()
      ensures old(current) == |document| ==> c == NUL && current == old(current)
      ensures old(current) < |document| ==> c == document[old(current)] && current == old(current) + 1
    {
      if current == |document| { return NUL; }
      c := document[current];
      current := current + 1;
    }

    /** The character at current_; the document is NUL-terminated. */
    function Peek(): char
      reads this`document, this`current
    {
      if current < |document| then document[current] else NUL
    }

    method SkipSpaces()
      requires Valid()
      modifies this`current
      ensures Valid() && current == old(current) + SpaceLength(old(Left()))
    {
      while current != |document|
        invariant Valid() && current >= old(current)
        invariant current + SpaceLength(Left()) == old(current) + SpaceLength(old(Left()))
        decreases |document| - current
      {
        var c := document[current];
        if c == ' ' || c == '\t' || c == '\r' || c == '\n' {
          assert Left()[1..] == document[current + 1..];
          current := current + 1;
        } else {
          break;
        }
      }
    }

    method Match(pattern: string) returns (ok: bool)
      requires Valid()
      modifies this`current
      ensures Valid() && current >= old(current)
      ensures Scan(current - old(current), ok) == ScanWord(old(Left()), pattern)
    {
      if |document| - current < |pattern| { return false; }
      var index := |pattern|;
      while index > 0
        invariant 0 <= index <= |pattern| <= |Left()|
        invariant forall i :: index <= i < |pattern| ==> Left()[i] == pattern[i]
      {
        index := index - 1;
        if document[current + index] != pattern[index] {
          assert Left()[index] != pattern[index];
          return false;
        }
      }
      assert Left()[..|pattern|] == pattern;
      current := current + |pattern|;
      return true;
    }

    method ReadCStyleComment() returns (ok: bool)
      requires Valid()
      modifies this`current
      ensures Valid() && current >= old(current)
      ensures Scan(current - old(current), ok) == ScanCStyleComment(old(Left()))
    {
      while current != |document|
        invariant Valid() && current >= old(current)
        invariant Skip(current - old(current), ScanCStyleComment(Left())) == ScanCStyleComment(old(Left()))
        decreases |document| - current
      {
        ghost var left := Left();
        var c := GetNextChar();
        assert left[1..] == Left();
        if c == '*' && Peek() == '/' {
          break;
        }
      }
      var last := GetNextChar();
      return last == '/';
    }

    method ReadCppStyleComment()
      requires Valid()
      modifies this`current
      ensures Valid() && current == old(current) + CppStyleCommentLength(old(Left()))
    {
      while current != |document|
        invariant Valid()
        invariant current + CppStyleCommentLength(Left()) == old(current) + CppStyleCommentLength(old(Left()))
        decreases |document| - current
      {
        ghost var left := Left();
        var c := GetNextChar();
        assert left[1..] == Left();
        if c == '\r' || c == '\n' {
          break;
        }
      }
    }

    method ReadComment() returns (ok: bool)
      requires Valid()
      modifies this`current
      ensures Valid() && current >= old(current)
      ensures Scan(current - old(current), ok) == ScanComment(old(Left()))
    {
      ghost var left := Left();
      var c := GetNextChar();
      assert left != "" ==> left[1..] == Left();
      ok := false;
      if c == '*' {
        ok := ReadCStyleComment();
      } else if c == '/' {
        ReadCppStyleComment();
        ok := true;
      }
    }

    method ReadNumber()
      requires Valid()
      modifies this`current
      ensures Valid() && current == old(current) + NumberLength(old(Left()))
    {
      while current != |document|
        invariant Valid()
        invariant current + NumberLength(Left()) == old(current) + NumberLength(old(Left()))
        decreases |document| - current
      {
        if !IsNumberChar(document[current]) {
          break;
        }
        assert Left()[1..] == document[current + 1..];
        current := current + 1;
      }
    }

    method ReadString() returns (ok: bool)
      requires Valid()
      modifies this`current
      ensures Valid() && current >= old(current)
      ensures Scan(current - old(current), ok) == ScanString(old(Left()))
    {
      var c := NUL;
      while current != |document|
        invariant Valid() && current >= old(current)
        invariant c != QUOTE
        invariant Skip(current - old(current), ScanString(Left())) == ScanString(old(Left()))
        decreases |document| - current
      {
        ghost var left := Left();
        c := GetNextChar();
        assert left[1..] == Left();
        if c == BACKSLASH {
          var _ := GetNextChar();
          assert |left| > 1 ==> left[2..] == Left();
        } else if c == QUOTE {
          break;
        }
      }
      return c == QUOTE;
    }

    /** The switch of readToken, after its first character c, which is not NUL. */
    method ScanKind(c: char) returns (kind: TokenKind)
      requires Valid() && current > 0 && document[current - 1] == c != NUL
      modifies this`current
      ensures Valid() && current >= old(current)
      ensures (kind, current - old(current) + 1) == ScanToken(document[old(current) - 1..])
    {
      ghost var t := document[current - 1..];
      assert t[1..] == Left();
      var ok := true;
      match c {
        case '{' => kind := ObjectBegin;
        case '}' => kind := ObjectEnd;
        case '[' => kind := ArrayBegin;
        case ']' => kind := ArrayEnd;
        case '\"' => kind := StringToken; ok := ReadString();
        case '/' => kind := CommentToken; ok := ReadComment();
        case 't' => kind := TrueToken; ok := Match("rue");
        case 'f' => kind := FalseToken; ok := Match("alse");
        case 'n' => kind := NullToken; ok := Match("ull");
        case ',' => kind := ArraySeparator;
        case ':' => kind := MemberSeparator;
        case _ =>
          if IsDigit(c) || c == '-' {
            kind := NumberToken;
            ReadNumber();
          } else {
            kind := ErrorToken;
            ok := false;
          }
      }
      if !ok { kind := ErrorToken; }
    }

    /** readToken: exactly the next token of the text that is left. */
    method ReadToken() returns (token: TokenRange)
      requires Valid()
      modifies this`current
      ensures Valid() && current >= old(current) && InDocument(token)
      ensures token.kind != EndOfStream ==> current > old(current)
      ensures (Text(token), Tokens()) == Next(old(Tokens()))
    {
      hide Lex, ScanToken, SpaceLength;
      ghost var from := current;
      SkipSpaces();
      var start := current;
      var c := GetNextChar();
      var kind := EndOfStream;
      if c != NUL {
        kind := ScanKind(c);
      } else if start < |document| {
        NulToken(document[start..]);
      }
      token := TokenRange(kind, start, current);
      if start < |document| {
        NextInDocument(document, from, start, current, kind);
        if kind == StringToken { StringTokenLength(document[start..]); }
      } else {
        NothingInDocument(document, from);
        assert Text(token) == Token(EndOfStream, "");
      }
    }

    // -------------------------------------------------------------- errors and nodes

    /** Top of the node stack, error list and tokens left are those of the outcome. */
    ghost predicate Holds(o: Outcome, below: seq<Value>)
      requires Valid()
      reads this`document, this`current, this`nodes, this`errors
    {
      nodes == below + [o.value] && errors == o.errors && Tokens() == o.rest
    }

    /** The same for a container that is still being filled. */
    ghost predicate Goes(container: Value, recorded: Errors, rest: seq<Token>, below: seq<Value>)
      requires Valid()
      reads this`document, this`current, this`nodes, this`errors
    {
      nodes == below + [container] && errors == recorded && Tokens() == rest
    }

    method SetCurrentValue(v: Value)
      requires nodes != []
      modifies this`nodes
      ensures nodes == old(Below()) + [v]
    {
      nodes := nodes[..|nodes| - 1] + [v];
    }

    /** addError: always false. */
    method AddError(message: string, token: TokenRange) returns (ok: bool)
      requires InDocument(token)
      modifies this`errors
      ensures !ok && errors == old(errors) + [Error(message, Text(token))]
    {
      errors := errors + [Error(message, Text(token))];
      return false;
    }

    /** recoverFromError: skips tokens; no error recorded so far is dropped. */
    method RecoverFromError(until: TokenKind) returns (ok: bool)
      requires Valid()
      modifies this`current
      ensures Valid() && current >= old(current)
      ensures !ok && Tokens() == Recover(old(Tokens()), until)
    {
      var looking := true;
      while looking
        invariant Valid() && current >= old(current)
        invariant looking ==> Recover(Tokens(), until) == Recover(old(Tokens()), until)
        invariant !looking ==> Tokens() == Recover(old(Tokens()), until)
        decreases looking, |document| - current
      {
        var skip := ReadToken();
        looking := skip.kind != until && skip.kind != EndOfStream;
      }
      return false;
    }

    method AddErrorAndRecover(message: string, token: TokenRange, until: TokenKind) returns (ok: bool)
      requires Valid() && InDocument(token)
      modifies this`current, this`errors
      ensures Valid() && current >= old(current)
      ensures !ok && errors == old(errors) + [Error(message, Text(token))]
      ensures Tokens() == Recover(old(Tokens()), until)
    {
      var _ := AddError(message, token);
      ok := RecoverFromError(until);
    }

    // -------------------------------------------------------------- decoding tokens

    method DecodeDouble(token: TokenRange) returns (ok: bool)
      requires InDocument(token) && nodes != []
      modifies this`nodes, this`errors
      ensures nodes != [] && ok == JsonNumber.DecodeDouble(Text(token).text, scan).Number?
      ensures match JsonNumber.DecodeDouble(Text(token).text, scan)
              case Number(v) => ok && nodes == old(Below()) + [v] && errors == old(errors)
              case NotANumber(message) => !ok && nodes == old(nodes) && errors == old(errors) + [Error(message, Text(token))]
    {
      var text := document[token.start..token.end];
      match scan(text) {
        case Some(value) =>
          SetCurrentValue(Real(value));
          return true;
        case None =>
          ok := AddError("'" + text + "' is not a number.", token);
      }
    }

    /** The first loop of decodeNumber. */
    method InspectNumber(token: TokenRange) returns (isDouble: bool)
      requires InDocument(token)
      ensures isDouble <==> LooksReal(Text(token).text)
    {
      ghost var text := Text(token).text;
      isDouble := false;
      var inspect := token.start;
      while inspect != token.end
        invariant token.start <= inspect <= token.end
        invariant isDouble <==> exists i :: 0 <= i < inspect - token.start && RealMark(text, i)
        decreases token.end - inspect
      {
        var c := document[inspect];
        assert c == text[inspect - token.start];
        isDouble := isDouble || c == '.' || c == 'e' || c == 'E' || c == '+' || (c == '-' && inspect != token.start);
        assert RealMark(text, inspect - token.start) ==> isDouble;
        inspect := inspect + 1;
      }
    }

    /** The digit loop of decodeNumber, from current to the end of the token. */
    method SumDigits(token: TokenRange, current: nat, maxIntegerValue: int) returns (sum: Sum)
      requires InDocument(token) && current <= token.end && maxIntegerValue > 0
      ensures sum == AddDigits(document[current..token.end], 0, maxIntegerValue)
      ensures sum.Sum? ==> IsLargestUInt(sum.total)
    {
      var threshold := maxIntegerValue / 10;
      var lastDigitThreshold := maxIntegerValue % 10;
      var inspect, value := current, 0;
      while inspect < token.end
        invariant current <= inspect <= token.end && IsLargestUInt(value)
        invariant AddDigits(document[inspect..token.end], value, maxIntegerValue)
               == AddDigits(document[current..token.end], 0, maxIntegerValue)
      {
        var c := document[inspect];
        assert document[inspect..token.end][1..] == document[inspect + 1..token.end];
        inspect := inspect + 1;
        if c < '0' || c > '9' {
          return NotDigits;
        }
        var digit := DigitValue(c);
        if value >= threshold {
          if inspect != token.end || digit > lastDigitThreshold {
            return TooBig;
          }
        }
        value := (value * 10 + digit) % TWO_64;
      }
      return Sum(value);
    }

    /** decodeNumber */
    method DecodeNumber(token: TokenRange) returns (ok: bool)
      requires InDocument(token) && token.start < token.end && nodes != []
      modifies this`nodes, this`errors
      ensures var o := NumberOutcome(Text(token), old(Top()), old(errors), scan, []);
              ok == o.ok && nodes == old(Below()) + [o.value] && errors == o.errors
    {
      hide LooksReal, AddDigits;
      ghost var text := Text(token).text;
      assert nodes == Below() + [Top()];
      var isDouble := InspectNumber(token);
      if isDouble {
        ok := DecodeDouble(token);
        return;
      }
      var current := token.start;
      var isNegative := document[current] == '-';
      if isNegative { current := current + 1; }
      var maxIntegerValue := if isNegative then ToUnsigned(Negate(-TWO_63)) else MAX_LARGEST_UINT;
      assert document[current..token.end] == Unsigned(text);
      var sum := SumDigits(token, current, maxIntegerValue);
      match sum {
        case NotDigits => ok := AddError("'" + document[token.start..token.end] + "' is not a number.", token);
        case TooBig => ok := DecodeDouble(token);
        case Sum(value) =>
          ok := true;
          if isNegative {
            SetCurrentValue(Int(Negate(ToSigned(value))));
          } else if value <= MAX_INT {
            SetCurrentValue(Int(ToSigned(value)));
          } else {
            SetCurrentValue(UInt(value));
          }
      }
    }

    /** decodeUnicodeEscapeSequence: four hexadecimal digits from current on. */
    method DecodeUnicodeEscapeSequence(token: TokenRange, current: nat, end: nat)
      returns (ok: bool, current': nat, unicode: nat)
      requires InDocument(token) && current <= end <= |document|
      modifies this`errors
      ensures match UnicodeEscape(document[current..end])
              case CodePoint(cp, n) => ok && unicode == cp && current' == current + n && errors == old(errors)
              case BadCodePoint(message) => !ok && errors == old(errors) + [Error(message, Text(token))]
    {
      current', unicode := current, 0;
      if end - current < 4 {
        ok := AddError(FOUR_DIGITS, token);
        return;
      }
      ghost var s := document[current..end];
      for index := 0 to 4
        invariant current' == current + index && errors == old(errors)
        invariant forall i :: 0 <= i < index ==> IsHexDigit(s[i])
        invariant index == 1 ==> unicode == HexValue(s[0])
        invariant index == 2 ==> unicode == HexValue(s[0]) * 16 + HexValue(s[1])
        invariant index == 3 ==> unicode == (HexValue(s[0]) * 16 + HexValue(s[1])) * 16 + HexValue(s[2])
        invariant index == 0 ==> unicode == 0
        invariant index == 4 ==> unicode == Hex4(s)
      {
        var c := document[current'];
        assert c == s[index];
        current' := current' + 1;
        if !IsHexDigit(c) {
          ok := AddError(HEX_DIGITS, token);
          return;
        }
        unicode := unicode * 16 + HexValue(c);
      }
      ok := true;
    }

    /** decodeUnicodeCodePoint: one escape, or the two of a surrogate pair. */
    method DecodeUnicodeCodePoint(token: TokenRange, current: nat, end: nat)
      returns (ok: bool, current': nat, unicode: nat)
      requires InDocument(token) && current <= end <= |document|
      modifies this`errors
      ensures match DecodeCodePoint(document[current..end])
              case CodePoint(cp, n) => ok && unicode == cp && current' == current + n && errors == old(errors)
              case BadCodePoint(message) => !ok && errors == old(errors) + [Error(message, Text(token))]
    {
      ok, current', unicode := DecodeUnicodeEscapeSequence(token, current, end);
      if !ok { return; }
      if 0xD800 <= unicode <= 0xDBFF {
        if end - current' < 6 {
          ok := AddError(SIX_CHARACTERS, token);
          return;
        }
        assert document[current..end][6..] == document[current' + 2..end];
        var isEscape := document[current'] == BACKSLASH;
        current' := current' + 1;
        if isEscape {
          isEscape := document[current'] == 'u';
          current' := current' + 1;
        }
        if !isEscape {
          ok := AddError(SECOND_HALF, token);
          return;
        }
        var surrogatePair: nat;
        ok, current', surrogatePair := DecodeUnicodeEscapeSequence(token, current', end);
        if !ok { return; }
        unicode := 0x10000 + unicode % 1024 * 1024 + surrogatePair % 1024;
      }
    }

    /** The escape of decodeString whose backslash stands before current. */
    method DecodeEscapeSequence(token: TokenRange, current: nat, end: nat)
      returns (ok: bool, current': nat, text: string)
      requires InDocument(token) && current <= end <= |document|
      modifies this`errors
      ensures match DecodeEscape(document[current..end])
              case Piece(piece, n) => ok && text == piece && current' == current + n && errors == old(errors)
              case BadPiece(message) => !ok && errors == old(errors) + [Error(message, Text(token))]
    {
      ok, current', text := true, current, "";
      if current == end {
        ok := AddError("Empty escape sequence in string", token);
        return;
      }
      var escape := document[current'];
      current' := current' + 1;
      assert document[current..end][1..] == document[current'..end];
      match escape {
        case '\"' => text := ['\"'];
        case '/' => text := ['/'];
        case '\\' => text := ['\\'];
        case 'b' => text := ['\U{08}'];
        case 'f' => text := ['\U{0C}'];
        case 'n' => text := ['\n'];
        case 'r' => text := ['\r'];
        case 't' => text := ['\t'];
        case 'u' =>
          var unicode: nat;
          ok, current', unicode := DecodeUnicodeCodePoint(token, current', end);
          if ok { text := Utf8.CodePointToUtf8(unicode); }
        case _ =>
          ok := AddError("Bad escape sequence in string", token);
      }
    }

    /** decodeString( token, decoded ): the characters between the quotes with their escapes
        replaced. */
    method DecodeStringToken(token: TokenRange) returns (ok: bool, decoded: string)
      requires InDocument(token) && token.kind == StringToken
      modifies this`errors
      ensures match JsonString.DecodeString(Text(token).text)
              case Decoded(s) => ok && decoded == s && errors == old(errors)
              case BadString(message) => !ok && errors == old(errors) + [Error(message, Text(token))]
    {
      hide DecodeEscape, Prepend, DecodeBody, Decodes;
      ok, decoded := true, "";
      var current, end := token.start + 1, token.end - 1;
      ghost var body := Body(Text(token).text);
      assert body == document[current..end];
      DecodesAtStart(body);
      var reading := true;
      while reading && current != end
        invariant token.start < current <= end && errors == old(errors)
        invariant reading ==> Decodes(body, decoded, document[current..end])
        invariant !reading ==> DecodeBody(body) == Decoded(decoded)
        invariant ok
        decreases end - current
      {
        ghost var rest, from := document[current..end], current;
        var c := document[current];
        current := current + 1;
        assert rest[0] == c && rest[1..] == document[current..end];
        DecodesStep(body, decoded, rest);
        if c == QUOTE {
          reading := false;
        } else if c == BACKSLASH {
          var text: string;
          ok, current, text := DecodeEscapeSequence(token, current, end);
          if !ok { return; }
          assert rest[current - from..] == document[current..end];
          decoded := decoded + text;
        } else {
          decoded := decoded + [c];
        }
      }
      if reading { DecodesAtEnd(body, decoded); }
    }

    /** decodeString( token ) */
    method DecodeString(token: TokenRange) returns (ok: bool)
      requires InDocument(token) && token.kind == StringToken && nodes != []
      modifies this`nodes, this`errors
      ensures var o := StringOutcome(Text(token), old(Top()), old(errors), []);
              ok == o.ok && nodes == old(Below()) + [o.value] && errors == o.errors
    {
      assert nodes == Below() + [Top()];
      var decoded: string;
      ok, decoded := DecodeStringToken(token);
      if ok {
        SetCurrentValue(Str(CStr(decoded)));
      }
    }

    // -------------------------------------------------------------- values

    /** Reads on past comments, from a token that has been read. */
    method SkipCommentsFrom(first: TokenRange) returns (token: TokenRange)
      requires Valid() && InDocument(first)
      modifies this`current
      ensures Valid() && current >= old(current) && InDocument(token)
      ensures (Text(token), Tokens()) == SkipComments(Text(first), old(Tokens()))
      ensures first.kind == EndOfStream ==> token == first
    {
      token := first;
      while token.kind == CommentToken
        invariant Valid() && current >= old(current) && InDocument(token)
        invariant SkipComments(Text(token), Tokens()) == SkipComments(Text(first), old(Tokens()))
        invariant first.kind == EndOfStream ==> token == first
        decreases token.kind == CommentToken, |document| - current
      {
        token := ReadToken();
      }
    }

    /** skipCommentTokens */
    method SkipCommentTokens() returns (token: TokenRange)
      requires Valid()
      modifies this`current
      ensures Valid() && current >= old(current) && InDocument(token)
      ensures token.kind != EndOfStream ==> current > old(current)
      ensures (Text(token), Tokens()) == FirstToken(features, old(Tokens()))
    {
      token := ReadToken();
      if features.allowComments {
        token := SkipCommentsFrom(token);
      }
    }

    /** readValue: replaces the current value by the next value of the text. */
    method ReadValue() returns (ok: bool)
      requires Valid() && nodes != []
      modifies this`current, this`nodes, this`errors
      ensures Valid() && current >= old(current)
      ensures var o := JsonParser.ReadValue(features, scan, old(Tokens()), old(Top()), old(errors));
              ok == o.ok && Holds(o, old(Below()))
      decreases |document| - current, 1
    {
      hide Lex, SkipComments, FirstToken, ReadMembers, ReadArrayItems, JsonNumber.DecodeNumber, JsonString.DecodeString;
      assert nodes == Below() + [Top()];
      var token := SkipCommentTokens();
      ok := true;
      match token.kind {
        case ObjectBegin => ok := ReadObject();
        case ArrayBegin => ok := ReadArray();
        case NumberToken => ok := DecodeNumber(token);
        case StringToken => ok := DecodeString(token);
        case TrueToken => SetCurrentValue(Bool(true));
        case FalseToken => SetCurrentValue(Bool(false));
        case NullToken => SetCurrentValue(Null);
        case _ => ok := AddError(VALUE_EXPECTED, token);
      }
    }

    /** One turn of the loop of readArray. */
    method ReadItem() returns (done: bool, ok: bool)
      requires Valid() && nodes != [] && nodes[|nodes| - 1].Array?
      modifies this`current, this`nodes, this`errors
      ensures Valid() && current >= old(current)
      ensures !done ==> current > old(current)
      ensures match JsonParser.ReadItem(features, scan, old(Tokens()), old(Top()).items, old(errors))
              case Done(o) => done && ok == o.ok && Holds(o, old(Below()))
              case More(errors', rest, items) => !done && Goes(Array(items), errors', rest, old(Below()))
      decreases |document| - current, 3
    {
      hide Lex, SkipComments, JsonParser.ReadValue, Recover;
      assert nodes == Below() + [Top()];
      done := true;
      nodes := nodes + [Null];
      ok := ReadValue();
      var value := nodes[|nodes| - 1];
      nodes := nodes[..|nodes| - 1];
      SetCurrentValue(Array(nodes[|nodes| - 1].items + [value]));
      if !ok {
        ok := RecoverFromError(ArrayEnd);
        return;
      }
      var token := ReadToken();
      token := SkipCommentsFrom(token);
      if token.kind != ArraySeparator && token.kind != ArrayEnd {
        ok := AddErrorAndRecover(MISSING_ITEM_SEPARATOR, token, ArrayEnd);
        return;
      }
      done := token.kind == ArrayEnd;
    }

    /** readArray, after its opening bracket. */
    method ReadArray() returns (ok: bool)
      requires Valid() && nodes != []
      modifies this`current, this`nodes, this`errors
      ensures Valid() && current >= old(current)
      ensures var o := ReadArrayItems(features, scan, old(Tokens()), old(errors));
              ok == o.ok && Holds(o, old(Below()))
      decreases |document| - current, 5
    {
      hide Lex, SpaceLength, ReadItems;
      ghost var left := Left();
      SetCurrentValue(Array([]));
      SkipSpaces();
      LexSkipsSpaces(left);
      SpaceLengthOfRest(left);
      assert Left() == left[SpaceLength(left)..];
      LexStartsWithArrayEnd(Left());
      if Peek() == ']' {
        var endArray := ReadToken();
        return true;
      }
      ok := ReadItemLoop();
    }

    /** The loop of readArray. */
    method ReadItemLoop() returns (ok: bool)
      requires Valid() && nodes != [] && Top() == Array([])
      modifies this`current, this`nodes, this`errors
      ensures Valid() && current >= old(current)
      ensures var o := ReadItems(features, scan, old(Tokens()), [], old(errors));
              ok == o.ok && Holds(o, old(Below()))
      decreases |document| - current, 4
    {
      hide Lex, JsonParser.ReadItem;
      ghost var below := Below();
      ghost var target := ReadItems(features, scan, Tokens(), [], errors);
      var done := false;
      ok := true;
      while !done
        invariant Valid() && current >= old(current)
        invariant !done ==> nodes != [] && Below() == below && Top().Array?
        invariant !done ==> ReadItems(features, scan, Tokens(), Top().items, errors) == target
        invariant done ==> ok == target.ok && Holds(target, below)
        decreases !done, |document| - current
      {
        done, ok := ReadItem();
      }
    }

    /** The part of the loop of readObject after the member name. */
    method ReadMember(name: string) returns (done: bool, ok: bool)
      requires Valid() && nodes != [] && nodes[|nodes| - 1].Object?
      modifies this`current, this`nodes, this`errors
      ensures Valid() && current >= old(current)
      ensures match JsonParser.ReadMember(features, scan, old(Tokens()), name, old(Top()).members, old(errors))
              case Done(o) => done && ok == o.ok && Holds(o, old(Below()))
              case More(errors', rest, members) => !done && Goes(Object(members), errors', rest, old(Below()))
      decreases |document| - current, 3
    {
      hide Lex, SkipComments, JsonParser.ReadValue, Recover, Assign, Resolve, CStr;
      assert nodes == Below() + [Top()];
      done := true;
      var colon := ReadToken();
      if colon.kind != MemberSeparator {
        ok := AddErrorAndRecover(MISSING_COLON, colon, ObjectEnd);
        return;
      }
      ok := ReadMemberValue(CStr(name));
      if !ok {
        ok := RecoverFromError(ObjectEnd);
        return;
      }
      var comma := ReadToken();
      if comma.kind != ObjectEnd && comma.kind != ArraySeparator && comma.kind != CommentToken {
        ok := AddErrorAndRecover(MISSING_MEMBER_SEPARATOR, comma, ObjectEnd);
        return;
      }
      comma := SkipCommentsFrom(comma);
      done := comma.kind == ObjectEnd;
    }

    /** The reading of a member's value: the reference operator[] gives out is pushed, filled
        and popped. */
    method ReadMemberValue(key: string) returns (ok: bool)
      requires Valid() && nodes != [] && nodes[|nodes| - 1].Object?
      modifies this`current, this`nodes, this`errors
      ensures Valid() && current >= old(current)
      ensures var members := old(Top()).members;
              var v := JsonParser.ReadValue(features, scan, old(Tokens()), Resolve(members, key), old(errors));
              ok == v.ok && Goes(Object(Assign(members, key, v.value)), v.errors, v.rest, old(Below()))
      decreases |document| - current, 2
    {
      hide Lex, JsonParser.ReadValue, Assign, Resolve;
      var members := nodes[|nodes| - 1].members;
      var value := Resolve(members, key);
      SetCurrentValue(Object(Assign(members, key, value)));
      nodes := nodes + [value];
      ok := ReadValue();
      value := nodes[|nodes| - 1];
      nodes := nodes[..|nodes| - 1];
      AssignTwice(members, key, Resolve(members, key), value);
      SetCurrentValue(Object(Assign(nodes[|nodes| - 1].members, key, value)));
    }

    /** One turn of the loop of readObject. */
    method ReadNamedMember(name: string) returns (done: bool, ok: bool, name': string)
      requires Valid() && nodes != [] && nodes[|nodes| - 1].Object?
      modifies this`current, this`nodes, this`errors
      ensures Valid() && current >= old(current)
      ensures !done ==> current > old(current)
      ensures match JsonParser.ReadNamedMember(features, scan, old(Tokens()), name, old(Top()).members, old(errors))
              case Done(o) => done && ok == o.ok && Holds(o, old(Below()))
              case More(errors', rest, state) =>
                !done && name' == state.0 && Goes(Object(state.1), errors', rest, old(Below()))
      decreases |document| - current, 4
    {
      hide Lex, SkipComments, JsonParser.ReadMember, Recover, JsonString.DecodeString;
      assert nodes == Below() + [Top()];
      done, ok, name' := true, true, name;
      var tokenName := ReadToken();
      tokenName := SkipCommentsFrom(tokenName);
      if tokenName.kind == ObjectEnd && name == "" {
        return;
      }
      if tokenName.kind != StringToken {
        ok := AddErrorAndRecover(MISSING_MEMBER_NAME, tokenName, ObjectEnd);
        return;
      }
      ok, name' := DecodeStringToken(tokenName);
      if !ok {
        ok := RecoverFromError(ObjectEnd);
        return;
      }
      done, ok := ReadMember(name');
    }

    /** readObject, after its opening brace. */
    method ReadObject() returns (ok: bool)
      requires Valid() && nodes != []
      modifies this`current, this`nodes, this`errors
      ensures Valid() && current >= old(current)
      ensures var o := ReadMembers(features, scan, old(Tokens()), "", [], old(errors));
              ok == o.ok && Holds(o, old(Below()))
      decreases |document| - current, 5
    {
      hide Lex, JsonParser.ReadNamedMember;
      ghost var below := Below();
      SetCurrentValue(Object([]));
      var name, done := "", false;
      ghost var target := ReadMembers(features, scan, Tokens(), name, [], errors);
      ok := true;
      while !done
        invariant Valid() && current >= old(current)
        invariant !done ==> nodes != [] && Below() == below && Top().Object?
        invariant !done ==> ReadMembers(features, scan, Tokens(), name, Top().members, errors) == target
        invariant done ==> ok == target.ok && Holds(target, below)
        decreases !done, |document| - current
      {
        done, ok, name := ReadNamedMember(name);
      }
    }

    /** parse( document, root ) */
    method Parse(document: string, root: Value) returns (ok: bool, root': Value)
      modifies this
      ensures Valid() && this.document == document && features == old(features)
      ensures var o := JsonParser.Parse(features, scan, Lex(document), root, document);
              ok == o.ok && root' == o.value && errors == o.errors && Tokens() == o.rest
    {
      hide Lex, FirstToken, SkipComments, JsonParser.ReadValue;
      this.document, current, errors, nodes := document, 0, [], [root];
      assert Left() == document && Below() == [] && Top() == root;
      ghost var o := JsonParser.ReadValue(features, scan, Lex(document), root, []);
      var successful := ReadValue();
      assert nodes == [o.value] && errors == o.errors && successful == o.ok && Tokens() == o.rest;
      var token := SkipCommentTokens();
      root' := nodes[0];
      if features.strictRoot {
        if !root'.IsArray() && !root'.IsObject() {
          token := TokenRange(ErrorToken, 0, |document|);
          assert document[0..|document|] == document;
          ok := AddError(ROOT_EXPECTED, token);
          return;
        }
      }
      return successful, root';
    }
  }
}
