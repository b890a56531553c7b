/** Quoted strings: valueToQuotedString and the escapes of Reader::decodeString. */
module JsonString {
  import opened CString
  import opened JsonLexer
  import opened Utf8

  // ---------------------------------------------------------------- writing

  predicate IsControlCharacter(c: char) { '\0' < c <= '\U{1F}' }

  function HexDigit(d: int): char
    requires 0 <= d < 16
  {
    if d < 10 then ('0' as int + d) as char else ('A' as int + d - 10) as char
  }

  /** The letter after the backslash of a two-character escape. */
  function ShortEscape(c: char): char {
    if c == QUOTE then QUOTE
    else if c == BACKSLASH then BACKSLASH
    else if c == '\U{08}' then 'b'
    else if c == '\U{0C}' then 'f'
    else if c == '\n' then 'n'
    else if c == '\r' then 'r'
    else if c == '\t' then 't'
    else NUL
  }

  predicate HasShortEscape(c: char) { ShortEscape(c) != NUL }

  function EscapeChar(c: char): string {
    if HasShortEscape(c) then [BACKSLASH, ShortEscape(c)]
    else if IsControlCharacter(c) then
      [BACKSLASH, 'u', '0', '0', HexDigit(c as int / 16), HexDigit(c as int % 16)]
    else [c]
  }

  function Escape(s: string): string {
    if s == "" then "" else EscapeChar(s[0]) + Escape(s[1..])
  }

  function Quote(s: string): string { [QUOTE] + Escape(s) + [QUOTE] }

  /** A string none of whose characters needs an escape is written as it is. */
  lemma {:induction false} PlainIsNotEscaped(s: string)
    requires forall i :: 0 <= i < |s| ==> !HasShortEscape(s[i]) && !IsControlCharacter(s[i])
    ensures Escape(s) == s
  {
    if s != "" { PlainIsNotEscaped(s[1..]); }
  }

  lemma {:induction false} EscapeAppend(s: string, c: char)
    ensures Escape(s + [c]) == Escape(s) + EscapeChar(c)
  {
    if s == "" {
      assert s + [c] == [c];
      assert Escape([c][1..]) == "";
    } else {
      assert (s + [c])[1..] == s[1..] + [c];
      EscapeAppend(s[1..], c);
    }
  }

  /** The characters valueToQuotedString looks for with strpbrk. */
  predicate IsSpecial(c: char) {
    c == QUOTE || c == BACKSLASH || c == '\U{08}' || c == '\U{0C}' || c == '\n' || c == '\r' || c == '\t'
  }

  method FindsSpecial(value: string) returns (found: bool)
    ensures found <==> exists i :: 0 <= i < |value| && IsSpecial(value[i])
  {
    for i := 0 to |value|
      invariant forall j :: 0 <= j < i ==> !IsSpecial(value[j])
    {
      if IsSpecial(value[i]) { return true; }
    }
    return false;
  }

  method ContainsControlCharacter(value: string) returns (found: bool)
    ensures found <==> exists i :: 0 <= i < |value| && IsControlCharacter(value[i])
  {
    for i := 0 to |value|
      invariant forall j :: 0 <= j < i ==> !IsControlCharacter(value[j])
    {
      if IsControlCharacter(value[i]) { return true; }
    }
    return false;
  }

  /** The switch of the escaping loop. */
  method AppendEscaped(text: string, c: char) returns (result: string)
    requires c != NUL
    ensures result == text + EscapeChar(c)
  {
    result := text;
    match c {
      case '\"' => result := result + "\\\"";
      case '\\' => result := result + "\\\\";
      case '\U{08}' => result := result + "\\b";
      case '\U{0C}' => result := result + "\\f";
      case '\n' => result := result + "\\n";
      case '\r' => result := result + "\\r";
      case '\t' => result := result + "\\t";
      case _ =>
        if IsControlCharacter(c) {
          result := result + "\\u";
          result := result + ['0', '0', HexDigit(c as int / 16), HexDigit(c as int % 16)];
        } else {
          result := result + [c];
        }
    }
  }

  /** valueToQuotedString: plain strings leave early, the others go through the escaping loop;
      both paths write Quote(value). */
  method ValueToQuotedString(value: string) returns (result: string)
    requires NUL !in value
    ensures result == Quote(value)
  {
    var special := FindsSpecial(value);
    var control := ContainsControlCharacter(value);
    if !special && !control {
      PlainIsNotEscaped(value);
      return [QUOTE] + value + [QUOTE];
    }
    result := [QUOTE];
    var c := 0;
    while c < |value|
      invariant c <= |value|
      invariant result == [QUOTE] + Escape(value[..c])
    {
      EscapeAppend(value[..c], value[c]);
      assert value[..c + 1] == value[..c] + [value[c]];
      result := AppendEscaped(result, value[c]);
      c := c + 1;
    }
    assert value[..c] == value;
    result := result + [QUOTE];
  }

  // ---------------------------------------------------------------- reading

  datatype CodePoint = CodePoint(value: nat, length: nat) | BadCodePoint(message: string)

  datatype Decoded = Decoded(s: string) | BadString(message: string)

  predicate IsHexDigit(c: char) { '0' <= c <= '9' || 'a' <= c <= 'f' || 'A' <= c <= 'F' }

  function HexValue(c: char): nat
    requires IsHexDigit(c)
  {
    if c <= '9' then c as int - '0' as int
    else if c <= 'F' then c as int - 'A' as int + 10
    else c as int - 'a' as int + 10
  }

  const FOUR_DIGITS := "Bad unicode escape sequence in string: four digits expected."
  const HEX_DIGITS := "Bad unicode escape sequence in string: hexadecimal digit expected."
  const SIX_CHARACTERS := "additional six characters expected to parse unicode surrogate pair."
  const SECOND_HALF := "expecting another \\u token to begin the second half of a unicode surrogate pair"

  /** The value of four hexadecimal digits. */
  function Hex4(s: string): nat
    requires |s| >= 4 && IsHexDigit(s[0]) && IsHexDigit(s[1]) && IsHexDigit(s[2]) && IsHexDigit(s[3])
  {
    ((HexValue(s[0]) * 16 + HexValue(s[1])) * 16 + HexValue(s[2])) * 16 + HexValue(s[3])
  }

  /** decodeUnicodeEscapeSequence at the head of s. */
  function UnicodeEscape(s: string): CodePoint {
    if |s| < 4 then BadCodePoint(FOUR_DIGITS)
    else if !IsHexDigit(s[0]) then BadCodePoint(HEX_DIGITS)
    else if !IsHexDigit(s[1]) then BadCodePoint(HEX_DIGITS)
    else if !IsHexDigit(s[2]) then BadCodePoint(HEX_DIGITS)
    else if !IsHexDigit(s[3]) then BadCodePoint(HEX_DIGITS)
    else CodePoint(Hex4(s), 4)
  }

  /** decodeUnicodeCodePoint at the head of s, which is what follows a backslash and a u. */
  function DecodeCodePoint(s: string): (r: CodePoint)
    ensures r.CodePoint? ==> r.length <= |s| && r.value <= MAX_CODE_POINT
  {
    match UnicodeEscape(s)
    case BadCodePoint(message) => BadCodePoint(message)
    case CodePoint(first, _) =>
      if !IsHighSurrogate(first) then CodePoint(first, 4)
      else if |s| < 10 then BadCodePoint(SIX_CHARACTERS)
      else if s[4] != BACKSLASH then BadCodePoint(SECOND_HALF)
      else if s[5] != 'u' then BadCodePoint(SECOND_HALF)
      else
        match UnicodeEscape(s[6..])
        case BadCodePoint(message) => BadCodePoint(message)
        case CodePoint(second, _) => CodePoint(Combine(first, second), 10)
  }

  /** The character a two-character escape stands for, NUL for none. */
  function Unescape(c: char): char {
    if c == QUOTE || c == '/' || c == BACKSLASH then c
    else if c == 'b' then '\U{08}'
    else if c == 'f' then '\U{0C}'
    else if c == 'n' then '\n'
    else if c == 'r' then '\r'
    else if c == 't' then '\t'
    else NUL
  }

  function Prepend(s: string, d: Decoded): Decoded {
    if d.Decoded? then Decoded(s + d.s) else d
  }

  lemma PrependPrepend(s: string, t: string, d: Decoded)
    ensures Prepend(s, Prepend(t, d)) == Prepend(s + t, d)
    ensures Prepend("", d) == d && Prepend(s, Decoded("")) == Decoded(s)
    ensures d.BadString? ==> Prepend(s, d) == d
  {
    if d.Decoded? {
      assert s + (t + d.s) == (s + t) + d.s && "" + d.s == d.s && s + "" == s;
    }
    assert s + "" == s;
  }

  /** What an escape stands for and how many characters it takes after its backslash. */
  datatype Piece = Piece(text: string, length: nat) | BadPiece(message: string)

  /** The escape whose backslash stands before s. */
  function DecodeEscape(s: string): (p: Piece)
    ensures p.Piece? ==> 0 < p.length <= |s|
  {
    if s == "" then BadPiece("Empty escape sequence in string")
    else if Unescape(s[0]) != NUL then Piece([Unescape(s[0])], 1)
    else if s[0] != 'u' then BadPiece("Bad escape sequence in string")
    else
      match DecodeCodePoint(s[1..])
      case BadCodePoint(message) => BadPiece(message)
      case CodePoint(cp, n) => Piece(CodePointToUtf8(cp), 1 + n)
  }

  /** decodeString on what stands between the quotes. */
  function DecodeBody(s: string): Decoded {
    if s == "" || s[0] == QUOTE then Decoded("")
    else if s[0] != BACKSLASH then Prepend([s[0]], DecodeBody(s[1..]))
    else
      match DecodeEscape(s[1..])
      case BadPiece(message) => BadString(message)
      case Piece(text, n) => Prepend(text, DecodeBody(s[1 + n..]))
  }

  /** The loop of decodeString has produced the text decoded and has rest still to read. */
  ghost predicate Decodes(body: string, decoded: string, rest: string) {
    Prepend(decoded, DecodeBody(rest)) == DecodeBody(body)
  }

  lemma DecodesAtStart(body: string)
    ensures Decodes(body, "", body)
  {
    hide DecodeBody, Prepend;
    PrependPrepend("", "", DecodeBody(body));
  }

  lemma DecodesAtEnd(body: string, decoded: string)
    requires Decodes(body, decoded, "")
    ensures DecodeBody(body) == Decoded(decoded)
  {
    PrependPrepend(decoded, "", Decoded(""));
  }

  /** One turn of the loop: it stops at a quote, replaces an escape or copies a character. */
  lemma DecodesStep(body: string, decoded: string, rest: string)
    requires rest != "" && Decodes(body, decoded, rest)
    ensures rest[0] == QUOTE ==> DecodeBody(body) == Decoded(decoded)
    ensures rest[0] == BACKSLASH ==>
              match DecodeEscape(rest[1..])
              case BadPiece(message) => DecodeBody(body) == BadString(message)
              case Piece(text, n) => Decodes(body, decoded + text, rest[1 + n..])
    ensures rest[0] != QUOTE && rest[0] != BACKSLASH ==> Decodes(body, decoded + [rest[0]], rest[1..])
  {
    hide DecodeEscape, Prepend;
    if rest[0] == QUOTE {
      PrependPrepend(decoded, "", Decoded(""));
    } else if rest[0] != BACKSLASH {
      PrependPrepend(decoded, [rest[0]], DecodeBody(rest[1..]));
    } else {
      match DecodeEscape(rest[1..])
      case BadPiece(message) => PrependPrepend(decoded, "", BadString(message));
      case Piece(text, n) => PrependPrepend(decoded, text, DecodeBody(rest[1 + n..]));
    }
  }

  /** What stands between the quotes of a string token. */
  function Body(text: string): string {
    if |text| >= 2 then text[1..|text| - 1] else ""
  }

  /** Reader::decodeString on the text of a string token. */
  function DecodeString(text: string): Decoded { DecodeBody(Body(text)) }

  // ---------------------------------------------------------------- the two are inverse

  lemma DecodeControl(c: char, rest: string)
    requires IsControlCharacter(c)
    ensures DecodeCodePoint(['0', '0', HexDigit(c as int / 16), HexDigit(c as int % 16)] + rest) == CodePoint(c as int, 4)
  {
    var s := ['0', '0', HexDigit(c as int / 16), HexDigit(c as int % 16)] + rest;
    assert Hex4(s) == c as int;
  }

  lemma DecodeUnicodeControl(c: char, rest: string)
    requires IsControlCharacter(c) && !HasShortEscape(c)
    ensures DecodeEscape(EscapeChar(c)[1..] + rest) == Piece([c], 5)
  {
    var s := EscapeChar(c)[1..] + rest;
    var hex := ['0', '0', HexDigit(c as int / 16), HexDigit(c as int % 16)];
    assert s[1..] == hex + rest;
    DecodeControl(c, rest);
    assert CodePointToUtf8(c as int) == [c];
  }

  /** One escaped character is decoded to itself, whatever follows. */
  lemma DecodeEscapedChar(c: char, rest: string)
    requires c != NUL
    ensures DecodeBody(EscapeChar(c) + rest) == Prepend([c], DecodeBody(rest))
  {
    var s := EscapeChar(c) + rest;
    if HasShortEscape(c) {
      assert Unescape(ShortEscape(c)) == c;
      assert s[2..] == rest;
    } else if IsControlCharacter(c) {
      DecodeUnicodeControl(c, rest);
      assert s[1..] == EscapeChar(c)[1..] + rest && s[6..] == rest;
    } else {
      assert s[1..] == rest;
    }
  }

  /** decodeString inverts the escaping of every NUL-free string. */
  lemma {:induction false} DecodeEscaped(s: string)
    requires NUL !in s
    ensures DecodeBody(Escape(s)) == Decoded(s)
  {
    if s != "" {
      DecodeEscapedChar(s[0], Escape(s[1..]));
      DecodeEscaped(s[1..]);
    }
  }

  lemma DecodeQuoted(s: string)
    requires NUL !in s
    ensures DecodeString(Quote(s)) == Decoded(s)
  {
    DecodeEscaped(s);
    assert Body(Quote(s)) == Escape(s);
  }

  /** readString stops exactly at the closing quote of an escaped string. */
  lemma {:induction false} ScanEscaped(s: string, rest: string)
    ensures ScanString(Escape(s) + [QUOTE] + rest) == Scan(|Escape(s)| + 1, true)
  {
    if s == "" {
      assert Escape(s) + [QUOTE] + rest == [QUOTE] + rest;
    } else {
      var tail := Escape(s[1..]) + [QUOTE] + rest;
      assert Escape(s) + [QUOTE] + rest == EscapeChar(s[0]) + tail;
      ScanEscaped(s[1..], rest);
      ScanEscapedChar(s[0], tail);
    }
  }

  lemma ScanEscapedChar(c: char, tail: string)
    ensures ScanString(EscapeChar(c) + tail) == Skip(|EscapeChar(c)|, ScanString(tail))
  {
    var s := EscapeChar(c) + tail;
    if HasShortEscape(c) {
      assert s[2..] == tail;
    } else if IsControlCharacter(c) {
      ScanPlain(s[2..6], tail);
      assert s[2..] == s[2..6] + tail;
    } else {
      assert s[1..] == tail;
    }
  }

  lemma {:induction false} ScanPlain(s: string, tail: string)
    requires QUOTE !in s && BACKSLASH !in s
    ensures ScanString(s + tail) == Skip(|s|, ScanString(tail))
  {
    if s == "" {
      assert s + tail == tail;
    } else {
      assert (s + tail)[1..] == s[1..] + tail;
      ScanPlain(s[1..], tail);
    }
  }

  lemma ScanQuoted(s: string, rest: string)
    ensures ScanToken(Quote(s) + rest) == (StringToken, |Quote(s)|)
  {
    ScanEscaped(s, rest);
    assert (Quote(s) + rest)[1..] == Escape(s) + [QUOTE] + rest;
  }

  /** A written string is read back as one token. */
  lemma QuotedIsClosed(s: string)
    ensures Closed(Quote(s), [Token(StringToken, Quote(s))])
  {
    hide SpellsBefore, ScanToken;
    forall rest
      ensures SpellsBefore(Quote(s), [Token(StringToken, Quote(s))], rest)
    {
      ScanQuoted(s, rest);
      ScannedSpellsBefore(Quote(s), StringToken, rest);
    }
  }

  // ---------------------------------------------------------------- tokens and decoding agree

  /** No quote is left for decodeString to stop at: inside a scanned token every quote is
      behind a backslash, so the early exit of its loop is never taken. */
  predicate StopsEarly(s: string) {
    if s == "" then false
    else if s[0] == QUOTE then true
    else if s[0] != BACKSLASH then StopsEarly(s[1..])
    else
      match DecodeEscape(s[1..])
      case BadPiece(_) => false
      case Piece(_, n) => StopsEarly(s[1 + n..])
  }

  lemma {:induction false} DecodingReachesTheEnd(s: string)
    requires ScanString(s + [QUOTE]) == Scan(|s| + 1, true)
    ensures !StopsEarly(s)
    decreases |s|
  {
    if s != "" {
      if s[0] != BACKSLASH {
        assert (s + [QUOTE])[1..] == s[1..] + [QUOTE];
        if s[0] != QUOTE { DecodingReachesTheEnd(s[1..]); }
      } else if DecodeEscape(s[1..]).Piece? {
        ScanEscape(s, [QUOTE]);
        DecodingReachesTheEnd(s[1 + DecodeEscape(s[1..]).length..]);
      }
    }
  }

  /** readString passes over a good escape as decodeString does. */
  lemma ScanEscape(s: string, tail: string)
    requires s != "" && s[0] == BACKSLASH && DecodeEscape(s[1..]).Piece?
    ensures var n := 1 + DecodeEscape(s[1..]).length;
            ScanString(s + tail) == Skip(n, ScanString(s[n..] + tail))
  {
    hide ScanString, DecodeCodePoint, CodePointToUtf8, Unescape;
    var n := DecodeEscape(s[1..]).length;
    ScanPair(s + tail);
    assert (s + tail)[2..] == s[2..] + tail;
    if n > 1 {
      assert s[1..][1..] == s[2..];
      ScanUnicodeEscape(s, tail);
    }
  }

  lemma ScanUnicodeEscape(s: string, tail: string)
    requires |s| >= 2 && DecodeCodePoint(s[2..]).CodePoint?
    ensures var n := DecodeCodePoint(s[2..]).length;
            ScanString(s[2..] + tail) == Skip(n, ScanString(s[2 + n..] + tail))
  {
    hide ScanString, DecodeCodePoint;
    ScanCodePoint(s[2..], tail);
    assert s[2..][DecodeCodePoint(s[2..]).length..] == s[2 + DecodeCodePoint(s[2..]).length..];
  }

  lemma ScanHexDigits(s: string, tail: string)
    requires UnicodeEscape(s).CodePoint?
    ensures ScanString(s + tail) == Skip(4, ScanString(s[4..] + tail))
  {
    ScanPlain(s[..4], s[4..] + tail);
    assert s + tail == s[..4] + (s[4..] + tail);
  }

  /** readString passes over the digits of a good unicode escape as decodeString does. */
  lemma ScanCodePoint(s: string, tail: string)
    requires DecodeCodePoint(s).CodePoint?
    ensures var n := DecodeCodePoint(s).length;
            ScanString(s + tail) == Skip(n, ScanString(s[n..] + tail))
  {
    ScanHexDigits(s, tail);
    if DecodeCodePoint(s).length == 10 {
      ScanHexDigits(s[6..], tail);
      ScanPair(s[4..] + tail);
      assert (s[4..] + tail)[2..] == s[6..] + tail;
      assert s[6..][4..] == s[10..];
    }
  }

  lemma ScanPair(s: string)
    requires |s| >= 2 && s[0] == BACKSLASH
    ensures ScanString(s) == Skip(2, ScanString(s[2..]))
  {
  }
}
