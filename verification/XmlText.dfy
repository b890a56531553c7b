/** TinyXML's characters: white space, names, EncodeString, GetEntity, GetChar and ReadText.
    A pointer into the NUL-terminated text is the text from there on; the null pointer is None. */
module XmlText {
  import opened Options
  import opened Utf8

  datatype Encoding = UnknownEncoding | Utf8Encoding | LegacyEncoding

  type Pointer = Option<string>

  /** isspace in the C locale. */
  predicate IsWhiteSpace(c: char) { c == ' ' || '\t' <= c <= '\r' }

  predicate AllWhite(s: string) { forall i :: 0 <= i < |s| ==> IsWhiteSpace(s[i]) }

  predicate IsAlpha(c: char) { 'a' <= c <= 'z' || 'A' <= c <= 'Z' || c as int >= 127 }

  predicate IsAlphaNum(c: char) { IsAlpha(c) || '0' <= c <= '9' }

  predicate IsNameStart(c: char) { IsAlpha(c) || c == '_' }

  predicate IsNameChar(c: char) { IsAlphaNum(c) || c == '_' || c == '-' || c == '.' || c == ':' }

  /** A byte order mark, U+FFFE or U+FFFF in UTF-8. */
  predicate IsSkippedMark(s: string) {
    |s| >= 3 && s[0] as int == 0xEF &&
    ((s[1] as int == 0xBB && s[2] as int == 0xBF) ||
     (s[1] as int == 0xBF && (s[2] as int == 0xBE || s[2] as int == 0xBF)))
  }

  function WhiteLength(enc: Encoding, s: string): (n: nat)
    ensures n <= |s|
  {
    if s == "" then 0
    else if enc.Utf8Encoding? && IsSkippedMark(s) then 3 + WhiteLength(enc, s[3..])
    else if IsWhiteSpace(s[0]) then 1 + WhiteLength(enc, s[1..])
    else 0
  }

  /** SkipWhiteSpace: null at the end of the text, but not when the white space ends it. */
  function SkipWhiteSpace(enc: Encoding, p: Pointer): (r: Pointer)
    ensures r.Some? ==> p.Some? && |r.value| <= |p.value|
  {
    if p.None? || p.value == "" then None else Some(p.value[WhiteLength(enc, p.value)..])
  }

  function NameLength(s: string): (n: nat)
    ensures n <= |s|
    ensures forall i :: 0 <= i < n ==> IsNameChar(s[i])
    ensures n < |s| ==> !IsNameChar(s[n])
  {
    if s == "" || !IsNameChar(s[0]) then 0 else 1 + NameLength(s[1..])
  }

  /** ReadName: the name and the pointer behind it, or null where no name starts. */
  function ReadName(p: Pointer): (r: (string, Pointer))
    ensures r.1.Some? ==> p.Some? && |r.1.value| < |p.value|
  {
    if p.None? || p.value == "" || !IsNameStart(p.value[0]) then ("", None)
    else (p.value[..NameLength(p.value)], Some(p.value[NameLength(p.value)..]))
  }

  // ---------------------------------------------------------------- EncodeString

  function HexDigit(d: int): char
    requires 0 <= d < 16
  {
    if d < 10 then ('0' as int + d) as char else ('A' as int + d - 10) as char
  }

  function EncodeChar(c: char): (r: string)
    ensures r != ""
  {
    if c == '&' then "&amp;"
    else if c == '<' then "&lt;"
    else if c == '>' then "&gt;"
    else if c == '\"' then "&quot;"
    else if c == '\'' then "&apos;"
    else if c as int < 32 then "&#x" + [HexDigit(c as int / 16), HexDigit(c as int % 16)] + ";"
    else [c]
  }

  /** A hexadecimal character reference seems to start here. */
  predicate HexReference(s: string) { "&#x" <= s }

  /** How many characters of a character reference are passed through unchanged: up to its
      semicolon, or all but the last character of the string. */
  function PassLength(s: string, from: nat): (n: nat)
    requires from < |s|
    ensures from <= n < |s|
    decreases |s| - from
  {
    if from + 1 < |s| then (if s[from + 1] == ';' then from + 1 else PassLength(s, from + 1)) else from
  }

  function Encode(s: string): string {
    if s == "" then ""
    else if HexReference(s) then
      var n := PassLength(s, 0);
      s[..n] + Encode(s[n..])
    else EncodeChar(s[0]) + Encode(s[1..])
  }

  /** The strings EncodeString escapes in full. */
  predicate NoHexReference(s: string) {
    forall i :: 0 <= i < |s| ==> !HexReference(s[i..])
  }

  lemma NoHexReferenceTail(s: string, n: nat)
    requires NoHexReference(s) && n <= |s|
    ensures NoHexReference(s[n..])
  {
    forall i | 0 <= i < |s[n..]|
      ensures !HexReference(s[n..][i..])
    {
      assert s[n..][i..] == s[n + i..];
    }
  }

  // ---------------------------------------------------------------- GetEntity and GetChar

  const TWO_32 := 0x1_0000_0000

  /** The value of a digit in the given base, if it is one. */
  function DigitIn(base: nat, c: char): Option<nat> {
    if '0' <= c <= '9' then Some(c as int - '0' as int)
    else if base == 16 && 'a' <= c <= 'f' then Some(c as int - 'a' as int + 10)
    else if base == 16 && 'A' <= c <= 'F' then Some(c as int - 'A' as int + 10)
    else None
  }

  /** The digit loop of GetEntity: backwards from position q to the mark; the multiplier is a
      32-bit unsigned integer. */
  function DigitsBack(s: string, q: nat, mark: char, base: nat, mult: nat, ucs: nat): Option<nat>
    requires q < |s|
    decreases q
  {
    if s[q] == mark then Some(ucs)
    else
      match DigitIn(base, s[q])
      case None => None
      case Some(digit) =>
        if q == 0 then None
        else DigitsBack(s, q - 1, mark, base, mult * base % TWO_32, ucs + mult * digit % TWO_32)
  }

  function IndexOf(s: string, c: char): (k: nat)
    ensures k <= |s|
    ensures k < |s| ==> s[k] == c
    ensures forall i :: 0 <= i < k ==> s[i] != c
  {
    if s == "" || s[0] == c then 0 else 1 + IndexOf(s[1..], c)
  }

  /** The characters read and the pointer behind them. */
  datatype Got = Got(text: string, p: Pointer)

  /** A character of the given code: in UTF-8, or its low byte. */
  function CodeText(enc: Encoding, ucs: nat): string {
    if enc.Utf8Encoding? then (if ucs < 0x200000 then Utf32ToUtf8(ucs) else "")
    else [Byte(ucs % 256)]
  }

  /** GetEntity, numeric part: mark is 'x' or '#', at position at. */
  function NumericEntity(enc: Encoding, s: string, at: nat, mark: char, base: nat): (g: Got)
    requires at + 1 < |s| && s[at] == mark
    ensures g.p.Some? ==> |g.p.value| < |s|
  {
    var semicolon := at + 1 + IndexOf(s[at + 1..], ';');
    if semicolon == |s| then Got("", None)
    else
      match DigitsBack(s, semicolon - 1, mark, base, 1, 0)
      case None => Got("", None)
      case Some(ucs) => Got(CodeText(enc, ucs), Some(s[semicolon + 1..]))
  }

  /** GetEntity: an unrecognized entity loses its ampersand. */
  function GetEntity(enc: Encoding, s: string): (g: Got)
    requires s != "" && s[0] == '&'
    ensures g.p.Some? ==> |g.p.value| < |s|
  {
    if |s| > 2 && s[1] == '#' then
      if s[2] == 'x' then
        (if |s| == 3 then Got("", None) else NumericEntity(enc, s, 2, 'x', 16))
      else NumericEntity(enc, s, 1, '#', 10)
    else if "&amp;" <= s then Got("&", Some(s[5..]))
    else if "&lt;" <= s then Got("<", Some(s[4..]))
    else if "&gt;" <= s then Got(">", Some(s[4..]))
    else if "&quot;" <= s then Got("\"", Some(s[6..]))
    else if "&apos;" <= s then Got("'", Some(s[6..]))
    else Got("", Some(s[1..]))
  }

  /** GetChar: one character, one entity, or one UTF-8 sequence by its lead byte. */
  function GetChar(enc: Encoding, s: string): (g: Got)
    requires s != ""
    ensures g.p.Some? ==> |g.p.value| < |s|
  {
    var length := if enc.Utf8Encoding? then ByteTable(s[0]) else 1;
    if length == 1 then
      if s[0] == '&' then GetEntity(enc, s) else Got([s[0]], Some(s[1..]))
    else
      var n := if length <= |s| then length else |s|;
      Got(s[..n], Some(s[n..]))
  }

  // ---------------------------------------------------------------- ReadText

  /** The loop of ReadText that keeps all white space. */
  function KeepText(enc: Encoding, p: Pointer, end: string): (g: Got)
    ensures g.p.Some? ==> p.Some? && |g.p.value| <= |p.value|
    decreases if p.Some? then |p.value| + 1 else 0
  {
    if p.None? || p.value == "" || end <= p.value then Got("", p)
    else
      var c := GetChar(enc, p.value);
      var g := KeepText(enc, c.p, end);
      Got(c.text + g.text, g.p)
  }

  /** The loop of ReadText that condenses white space; white tells that some was just passed. */
  function CondenseText(enc: Encoding, p: Pointer, end: string, white: bool): (g: Got)
    ensures g.p.Some? ==> p.Some? && |g.p.value| <= |p.value|
    decreases if p.Some? then |p.value| + 1 else 0
  {
    if p.None? || p.value == "" || end <= p.value then Got("", p)
    else if IsWhiteSpace(p.value[0]) then CondenseText(enc, Some(p.value[1..]), end, true)
    else
      var c := GetChar(enc, p.value);
      var g := CondenseText(enc, c.p, end, false);
      Got((if white then " " else "") + c.text + g.text, g.p)
  }

  /** ReadText: the text up to the end mark and the pointer behind the mark; null when the mark
      is missing or nothing follows it. */
  function ReadText(enc: Encoding, p: Pointer, keep: bool, end: string): (g: Got)
    requires end != ""
    ensures g.p.Some? ==> p.Some? && |g.p.value| < |p.value|
    ensures g.p.Some? && p.value != "" && !(end <= p.value) ==> |g.p.value| + |end| < |p.value|
  {
    var g := if keep then KeepText(enc, p, end) else CondenseText(enc, SkipWhiteSpace(enc, p), end, false);
    if g.p.Some? && |g.p.value| > |end| then Got(g.text, Some(g.p.value[|end|..])) else Got(g.text, None)
  }

  // ---------------------------------------------------------------- encoding and reading back

  function SequenceLength(enc: Encoding, c: char): (n: nat)
    ensures 1 <= n <= 4
  {
    if enc.Utf8Encoding? then ByteTable(c) else 1
  }

  /** The text is cut into whole sequences by their lead bytes: any text at all byte by byte,
      and every well-formed text in UTF-8. */
  predicate WholeSequences(enc: Encoding, s: string) {
    s == "" ||
    var n := SequenceLength(enc, s[0]);
    n <= |s| && (forall i :: 1 <= i < n ==> s[i] as int >= 0x80) && WholeSequences(enc, s[n..])
  }

  lemma {:induction false} BytewiseIsWhole(enc: Encoding, s: string)
    requires !enc.Utf8Encoding?
    ensures WholeSequences(enc, s)
  {
    if s != "" { BytewiseIsWhole(enc, s[1..]); }
  }

  /** UTF-8 text of the given code points. */
  function Utf8Text(points: seq<nat>): string {
    if points == [] then "" else CodePointToUtf8(points[0]) + Utf8Text(points[1..])
  }

  lemma {:induction false} Utf8IsWhole(points: seq<nat>)
    requires forall i :: 0 <= i < |points| ==> points[i] <= MAX_CODE_POINT
    ensures WholeSequences(Utf8Encoding, Utf8Text(points))
  {
    if points != [] {
      var e := CodePointToUtf8(points[0]);
      TableGivesLength(points[0]);
      EncodedShape(points[0]);
      Utf8IsWhole(points[1..]);
      var s := Utf8Text(points);
      assert s[|e|..] == Utf8Text(points[1..]);
      assert s[0] == e[0];
      assert forall i :: 1 <= i < |e| ==> s[i] == e[i];
    }
  }

  lemma EntityIsRead(enc: Encoding, c: char, t: string)
    requires c == '&' || c == '<' || c == '>' || c == '\"' || c == '\''
    ensures GetEntity(enc, EncodeChar(c) + t) == Got([c], Some(t))
  {
    var s := EncodeChar(c) + t;
    assert s[|EncodeChar(c)|..] == t;
    assert s[0] == '&' && s[1] == EncodeChar(c)[1] && s[2] == EncodeChar(c)[2];
    if c == '>' { assert "&gt;" <= s; }
    if c == '&' { assert "&amp;" <= s; }
    if c == '\'' { assert "&apos;" <= s; }
    if c == '<' { assert "&lt;" <= s; }
    if c == '\"' { assert "&quot;" <= s; }
  }

  lemma HexDigitValue(d: int)
    requires 0 <= d < 16
    ensures DigitIn(16, HexDigit(d)) == Some(d) && HexDigit(d) != ';' && HexDigit(d) != 'x'
  {
  }

  lemma ControlIsRead(enc: Encoding, c: char, t: string)
    requires c as int < 32
    ensures GetEntity(enc, EncodeChar(c) + t) == Got([c], Some(t))
  {
    hide HexDigit, NumericEntity;
    var h, l := c as int / 16, c as int % 16;
    var s := EncodeChar(c) + t;
    assert s[..6] == ['&', '#', 'x', HexDigit(h), HexDigit(l), ';'];
    assert s[6..] == t;
    TwoDigitReference(enc, s, h, l);
    LowCode(enc, c);
  }

  lemma LowCode(enc: Encoding, c: char)
    requires c as int < 32
    ensures CodeText(enc, c as int) == [c]
  {
  }

  lemma TwoDigitReference(enc: Encoding, s: string, h: int, l: int)
    requires |s| >= 6 && 0 <= h < 16 && 0 <= l < 16
    requires s[..6] == ['&', '#', 'x', HexDigit(h), HexDigit(l), ';']
    ensures NumericEntity(enc, s, 2, 'x', 16) == Got(CodeText(enc, 16 * h + l), Some(s[6..]))
  {
    hide HexDigit, CodeText, DigitIn, IndexOf, DigitsBack;
    HexDigitValue(h);
    HexDigitValue(l);
    assert s[2] == 'x' && s[3] == HexDigit(h) && s[4] == HexDigit(l) && s[5] == ';';
    SemicolonThird(s[3..]);
    HexDigitStep(s, 4, 1, 0, l);
    HexDigitStep(s, 3, 16, l, h);
    DigitsEnd(s, 2, 256, l + 16 * h);
  }

  lemma HexDigitStep(s: string, q: nat, mult: nat, ucs: nat, digit: nat)
    requires 0 < q < |s| && s[q] != 'x' && DigitIn(16, s[q]) == Some(digit) && (mult == 1 || mult == 16) && digit < 16
    ensures DigitsBack(s, q, 'x', 16, mult, ucs) == DigitsBack(s, q - 1, 'x', 16, mult * 16, ucs + mult * digit)
  {
    hide DigitIn;
    assert mult * digit <= 256;
  }

  lemma DigitsEnd(s: string, q: nat, mult: nat, ucs: nat)
    requires q < |s| && s[q] == 'x'
    ensures DigitsBack(s, q, 'x', 16, mult, ucs) == Some(ucs)
  {
  }

  lemma SemicolonThird(s: string)
    requires |s| >= 3 && s[0] != ';' && s[1] != ';' && s[2] == ';'
    ensures IndexOf(s, ';') == 2
  {
  }

  /** One character that is not part of a longer sequence is read back from its encoding. */
  lemma EncodedCharIsRead(enc: Encoding, c: char, t: string)
    requires SequenceLength(enc, c) == 1
    ensures GetChar(enc, EncodeChar(c) + t) == Got([c], Some(t))
  {
    hide GetEntity;
    var s := EncodeChar(c) + t;
    if c as int < 32 {
      ControlIsRead(enc, c, t);
    } else if c == '&' || c == '<' || c == '>' || c == '\"' || c == '\'' {
      EntityIsRead(enc, c, t);
    } else {
      assert s == [c] + t && s[1..] == t;
    }
  }

  predicate IsDelimiter(c: char) { c == '\"' || c == '\'' || c == '<' }

  lemma EncodedIsNoDelimiter(c: char)
    ensures !IsDelimiter(EncodeChar(c)[0])
    ensures IsWhiteSpace(EncodeChar(c)[0]) <==> c == ' '
  {
  }

  /** What is special in a text or an attribute value: a bracket, a quote, or a control character. */
  predicate IsSpecial(c: char) { c in "<>\"'" || c as int < 32 }

  lemma EncodedCharIsSafe(c: char)
    ensures forall i :: 0 <= i < |EncodeChar(c)| ==> !IsSpecial(EncodeChar(c)[i])
    ensures forall i :: 0 < i < |EncodeChar(c)| ==> EncodeChar(c)[i] != '&'
  {
    if c as int < 32 {
      assert forall d :: 0 <= d < 16 ==> !IsSpecial(HexDigit(d)) && HexDigit(d) != '&';
      assert forall i :: 0 <= i < |EncodeChar(c)| ==> EncodeChar(c)[i] in ['&', '#', 'x', HexDigit(c as int / 16), HexDigit(c as int % 16), ';'];
    }
  }

  /** Nothing special is left in an encoded string. */
  lemma {:induction false} EncodedIsSafe(s: string)
    requires NoHexReference(s)
    ensures forall i :: 0 <= i < |Encode(s)| ==> !IsSpecial(Encode(s)[i])
  {
    hide EncodeChar, IsSpecial, HexReference, PassLength;
    if s != "" {
      NoHexReferenceHere(s);
      NoHexReferenceTail(s, 1);
      EncodedCharIsSafe(s[0]);
      EncodedIsSafe(s[1..]);
    }
  }

  /** Bytes of longer sequences are copied unchanged. */
  lemma {:induction false} HighBytesAreCopied(s: string, n: nat)
    requires n <= |s| && forall i :: 0 <= i < n ==> s[i] as int >= 0x80
    ensures Encode(s) == s[..n] + Encode(s[n..])
  {
    hide Encode;
    if n == 0 {
      assert s[0..] == s && s[..0] + Encode(s) == Encode(s);
    } else {
      HighBytesAreCopied(s[1..], n - 1);
      assert s[1..][n - 1..] == s[n..];
      HighByteIsCopied(s);
      var rest := s[1..][..n - 1];
      assert s[..n] == [s[0]] + rest;
      Associate([s[0]], rest, Encode(s[n..]));
    }
  }

  lemma HighByteIsCopied(s: string)
    requires s != "" && s[0] as int >= 0x80
    ensures Encode(s) == [s[0]] + Encode(s[1..])
  {
    hide PassLength;
    assert EncodeChar(s[0]) == [s[0]];
    assert !HexReference(s);
  }

  lemma EncodeFirst(s: string, t: string)
    requires s != "" && !HexReference(s)
    ensures Encode(s) + t == EncodeChar(s[0]) + (Encode(s[1..]) + t)
  {
    hide EncodeChar, PassLength;
    Associate(EncodeChar(s[0]), Encode(s[1..]), t);
  }

  lemma NoHexReferenceHere(s: string)
    requires NoHexReference(s)
    ensures s != "" ==> !HexReference(s)
  {
    assert s[0..] == s;
  }

  /** One step of reading an encoded string: the bytes of one sequence come back. */
  lemma SequenceIsRead(enc: Encoding, s: string, t: string)
    requires s != "" && !HexReference(s) && WholeSequences(enc, s)
    ensures var n := SequenceLength(enc, s[0]);
            n <= |s| && WholeSequences(enc, s[n..]) &&
            GetChar(enc, Encode(s) + t) == Got(s[..n], Some(Encode(s[n..]) + t))
  {
    hide GetEntity, EncodeChar, Encode, HexReference, GetChar;
    var n := SequenceLength(enc, s[0]);
    EncodeFirst(s, t);
    if n == 1 {
      EncodedCharIsRead(enc, s[0], Encode(s[1..]) + t);
      assert s[..1] == [s[0]];
    } else {
      LongSequenceIsRead(enc, s, n, t);
    }
  }

  lemma LongSequenceIsRead(enc: Encoding, s: string, n: nat, t: string)
    requires 1 < n <= |s| && n == SequenceLength(enc, s[0]) && forall i :: 1 <= i < n ==> s[i] as int >= 0x80
    ensures GetChar(enc, Encode(s) + t) == Got(s[..n], Some(Encode(s[n..]) + t))
  {
    hide Encode, GetChar, CodeText;
    assert s[0] as int >= 0xC2;
    HighBytesAreCopied(s, n);
    var a, b := s[..n], Encode(s[n..]);
    Associate(a, b, t);
    LongSequence(enc, a, b + t);
  }

  lemma Associate(a: string, b: string, c: string)
    ensures a + b + c == a + (b + c)
  {
  }

  lemma LongSequence(enc: Encoding, a: string, b: string)
    requires a != "" && |a| == SequenceLength(enc, a[0]) && |a| > 1
    ensures GetChar(enc, a + b) == Got(a, Some(b))
  {
    hide GetEntity;
    assert (a + b)[..|a|] == a && (a + b)[|a|..] == b;
  }

  /** What the encoding starts with. */
  lemma EncodedStart(enc: Encoding, s: string, t: string)
    requires s != "" && !HexReference(s)
    ensures var r := Encode(s) + t;
            r != "" && !IsDelimiter(r[0]) && (IsWhiteSpace(r[0]) <==> s[0] == ' ') &&
            (s[0] == ' ' ==> SequenceLength(enc, s[0]) == 1 && r[1..] == Encode(s[1..]) + t)
  {
    hide EncodeChar, Encode, HexReference;
    EncodeFirst(s, t);
    EncodedIsNoDelimiter(s[0]);
    SpaceIsCopied();
  }

  lemma SpaceIsCopied()
    ensures EncodeChar(' ') == " "
  {
  }

  lemma {:induction false} EncodedIsKept(enc: Encoding, s: string, end: char, rest: string)
    requires NoHexReference(s) && WholeSequences(enc, s) && IsDelimiter(end)
    ensures KeepText(enc, Some(Encode(s) + ([end] + rest)), [end]) == Got(s, Some([end] + rest))
    decreases |s|
  {
    hide GetChar, NoHexReference, HexReference, WholeSequences, Encode;
    var t := [end] + rest;
    if s == "" {
      assert Encode(s) + t == t by { EncodeOfEmpty(); }
      assert [end] <= t;
    } else {
      NoHexReferenceHere(s);
      SequenceIsRead(enc, s, t);
      EncodedStart(enc, s, t);
      var n := SequenceLength(enc, s[0]);
      NoHexReferenceTail(s, n);
      EncodedIsKept(enc, s[n..], end, rest);
      assert s == s[..n] + s[n..];
    }
  }

  lemma EncodeOfEmpty()
    ensures Encode("") == ""
  {
  }

  /** Reading without trimming undoes EncodeString and stops just behind the end quote. */
  lemma EntityRoundTrip(enc: Encoding, s: string, quote: char, rest: string)
    requires NoHexReference(s) && WholeSequences(enc, s) && IsDelimiter(quote) && rest != ""
    ensures ReadText(enc, Some(Encode(s) + ([quote] + rest)), true, [quote]) == Got(s, Some(rest))
  {
    hide KeepText, NoHexReference, WholeSequences;
    EncodedIsKept(enc, s, quote, rest);
    assert ([quote] + rest)[1..] == rest;
  }

  /** How many bytes at the start of a text SkipWhiteSpace passes in its encoding. */
  function BlankLength(enc: Encoding, s: string): (n: nat)
    ensures n <= |s|
  {
    if s == "" then 0
    else if enc.Utf8Encoding? && IsSkippedMark(s) then 3 + BlankLength(enc, s[3..])
    else if s[0] == ' ' then 1 + BlankLength(enc, s[1..])
    else 0
  }

  lemma MarkIsPassed(enc: Encoding, s: string, t: string)
    requires enc.Utf8Encoding? && IsSkippedMark(s)
    ensures IsSkippedMark(Encode(s) + t) && (Encode(s) + t)[3..] == Encode(s[3..]) + t
    ensures WholeSequences(enc, s) ==> WholeSequences(enc, s[3..])
  {
    hide Encode;
    HighBytesAreCopied(s, 3);
    Associate(s[..3], Encode(s[3..]), t);
    var r := Encode(s) + t;
    assert r[..3] == s[..3] && r[3..] == Encode(s[3..]) + t;
    assert r[0] == s[0] && r[1] == s[1] && r[2] == s[2];
  }

  lemma BlankStep(enc: Encoding, r: string, n: nat)
    requires r != "" && n <= |r|
    requires if enc.Utf8Encoding? && IsSkippedMark(r) then n == 3 else if IsWhiteSpace(r[0]) then n == 1 else n == 0
    ensures WhiteLength(enc, r) == if n == 0 then 0 else n + WhiteLength(enc, r[n..])
  {
    hide IsWhiteSpace, IsSkippedMark;
  }

  lemma ShownBehind(enc: Encoding, r: string, n: nat)
    requires r != "" && n <= |r|
    requires if enc.Utf8Encoding? && IsSkippedMark(r) then n == 3 else if IsWhiteSpace(r[0]) then n == 1 else n == 0
    requires n > 0 ==> WhiteLength(enc, r[n..]) < |r[n..]| && r[n..][WhiteLength(enc, r[n..])] != '<'
    requires n == 0 ==> r[0] != '<'
    ensures WhiteLength(enc, r) < |r| && r[WhiteLength(enc, r)] != '<'
  {
    hide IsWhiteSpace, IsSkippedMark, WhiteLength;
    BlankStep(enc, r, n);
  }

  /** A text that is not all blank shows something else than a tag behind its white space. */
  lemma {:induction false} BlanksAreSkipped(enc: Encoding, s: string, t: string)
    requires NoHexReference(s) && WholeSequences(enc, s) && BlankLength(enc, s) < |s|
    ensures var r := Encode(s) + t; WhiteLength(enc, r) < |r| && r[WhiteLength(enc, r)] != '<'
    decreases |s|
  {
    hide EncodeChar, Encode, NoHexReference, HexReference, IsSkippedMark, IsWhiteSpace, WhiteLength;
    var r := Encode(s) + t;
    NoHexReferenceHere(s);
    EncodedStart(enc, s, t);
    if enc.Utf8Encoding? && IsSkippedMark(s) {
      MarkIsLong(s);
      MarkIsPassed(enc, s, t);
      MarkIsLong(r);
      NoHexReferenceTail(s, 3);
      BlanksAreSkipped(enc, s[3..], t);
      ShownBehind(enc, r, 3);
    } else {
      if enc.Utf8Encoding? && IsSkippedMark(r) { MarkIsCopied(enc, s, t); }
      if s[0] == ' ' {
        NoHexReferenceTail(s, 1);
        BlanksAreSkipped(enc, s[1..], t);
      }
      ShownBehind(enc, r, if s[0] == ' ' then 1 else 0);
    }
  }

  lemma MarkIsLong(s: string)
    requires IsSkippedMark(s)
    ensures |s| >= 3
  {
  }

  lemma PlainSequenceIsRead(enc: Encoding, s: string, t: string)
    requires s != "" && s[0] != '&' && WholeSequences(enc, s)
    ensures var n := SequenceLength(enc, s[0]);
            n <= |s| && WholeSequences(enc, s[n..]) && GetChar(enc, s + t) == Got(s[..n], Some(s[n..] + t))
  {
    hide GetEntity, GetChar;
    var n := SequenceLength(enc, s[0]);
    assert s == s[..n] + s[n..];
    Associate(s[..n], s[n..], t);
    if n == 1 {
      PlainCharIsRead(enc, s[0], s[1..] + t);
      assert s[..1] == [s[0]];
    } else {
      LongSequence(enc, s[..n], s[n..] + t);
    }
  }

  lemma PlainCharIsRead(enc: Encoding, c: char, t: string)
    requires c != '&' && SequenceLength(enc, c) == 1
    ensures GetChar(enc, [c] + t) == Got([c], Some(t))
  {
    hide GetEntity;
    assert ([c] + t)[1..] == t;
  }

  /** Text without ampersands is kept as it is. */
  lemma {:induction false} PlainIsKept(enc: Encoding, s: string, end: char, rest: string)
    requires '&' !in s && end !in s && WholeSequences(enc, s)
    ensures KeepText(enc, Some(s + ([end] + rest)), [end]) == Got(s, Some([end] + rest))
    decreases |s|
  {
    hide GetChar, WholeSequences, SequenceLength;
    var t := [end] + rest;
    if s == "" {
      assert s + t == t && [end] <= t;
    } else {
      var n := SequenceLength(enc, s[0]);
      PlainSequenceIsRead(enc, s, t);
      PlainIsKept(enc, s[n..], end, rest);
      assert s == s[..n] + s[n..];
      assert (s + t)[0] == s[0] != end;
    }
  }

  // ---------------------------------------------------------------- condensed text

  /** No leading, trailing or doubled blank. */
  predicate Condensed(s: string) {
    s == "" || (s[0] != ' ' && CondensedRest(s))
  }

  predicate CondensedRest(s: string) {
    s != "" ==> s[|s| - 1] != ' ' && forall i :: 0 <= i < |s| - 1 ==> !(s[i] == ' ' && s[i + 1] == ' ')
  }

  lemma {:induction false} WhiteIsDropped(enc: Encoding, ws: string, rest: string, white: bool)
    requires AllWhite(ws)
    ensures CondenseText(enc, Some(ws + ("<" + rest)), "<", white) == Got("", Some("<" + rest))
    decreases |ws|
  {
    var t := ws + ("<" + rest);
    if ws == "" {
      assert t == "<" + rest;
    } else {
      WhiteIsDropped(enc, ws[1..], rest, true);
      assert t[1..] == ws[1..] + ("<" + rest);
      assert IsWhiteSpace(t[0]) && !("<" <= t);
    }
  }

  lemma CondensedTail(s: string, n: nat)
    requires CondensedRest(s) && 1 <= n <= |s|
    ensures CondensedRest(s[n..]) && (s[0] == ' ' ==> |s| > 1 && s[1] != ' ')
  {
    var r := s[n..];
    forall i | 0 <= i < |r| - 1
      ensures !(r[i] == ' ' && r[i + 1] == ' ')
    {
      assert r[i] == s[n + i] && r[i + 1] == s[n + i + 1];
    }
  }

  /** One turn of the loop that condenses white space. */
  lemma CondenseStep(enc: Encoding, s: string, end: char, white: bool)
    requires s != ""
    ensures CondenseText(enc, Some(s), [end], white) ==
              if s[0] == end then Got("", Some(s))
              else if IsWhiteSpace(s[0]) then CondenseText(enc, Some(s[1..]), [end], true)
              else
                var c := GetChar(enc, s);
                var g := CondenseText(enc, c.p, [end], false);
                Got((if white then " " else "") + c.text + g.text, g.p)
  {
    hide GetChar, IsWhiteSpace;
    assert [end] <= s <==> s[0] == end;
  }

  lemma {:induction false} EncodedIsCondensed(enc: Encoding, s: string, ws: string, rest: string, white: bool)
    requires NoHexReference(s) && WholeSequences(enc, s) && CondensedRest(s) && AllWhite(ws)
    requires white && s != "" ==> s[0] != ' '
    ensures CondenseText(enc, Some(Encode(s) + (ws + ("<" + rest))), "<", white)
         == Got(if white && s != "" then " " + s else s, Some("<" + rest))
    decreases |s|
  {
    hide GetChar, NoHexReference, HexReference, WholeSequences, Encode, CondensedRest, SequenceLength, AllWhite, IsWhiteSpace, CondenseText;
    var t := ws + ("<" + rest);
    if s == "" {
      assert Encode(s) + t == t by { EncodeOfEmpty(); }
      WhiteIsDropped(enc, ws, rest, white);
    } else {
      NoHexReferenceHere(s);
      SequenceIsRead(enc, s, t);
      EncodedStart(enc, s, t);
      var n := SequenceLength(enc, s[0]);
      NoHexReferenceTail(s, n);
      CondensedTail(s, n);
      EncodedIsCondensed(enc, s[n..], ws, rest, s[0] == ' ');
      CondenseStep(enc, Encode(s) + t, '<', white);
      Rejoined(s, n, white);
    }
  }

  /** A text of its first characters and the others, with a blank in front of it or as its first. */
  lemma Rejoined(s: string, n: nat, white: bool)
    requires s != "" && 1 <= n <= |s|
    ensures (if white then " " else "") + s[..n] + s[n..] == if white then " " + s else s
    ensures s[0] == ' ' ==> " " + s[1..] == s
  {
    assert s[..n] + s[n..] == s;
    Associate(if white then " " else "", s[..n], s[n..]);
    assert "" + s == s;
  }

  /** Text printed with its blanks and read back with white space condensed: white space behind
      it does no harm. */
  lemma CondensedRoundTrip(enc: Encoding, s: string, ws: string, rest: string)
    requires NoHexReference(s) && WholeSequences(enc, s) && Condensed(s) && AllWhite(ws)
    requires s != "" && !(enc.Utf8Encoding? && IsSkippedMark(s)) && rest != ""
    ensures ReadText(enc, Some(Encode(s) + (ws + ("<" + rest))), false, "<") == Got(s, Some(rest))
  {
    hide CondenseText, GetChar;
    var t := ws + ("<" + rest);
    NothingToSkip(enc, s, t);
    EncodedIsCondensed(enc, s, ws, rest, false);
    assert (Encode(s) + t)[0..] == Encode(s) + t;
    assert ("<" + rest)[1..] == rest;
  }

  lemma NothingToSkip(enc: Encoding, s: string, t: string)
    requires NoHexReference(s) && WholeSequences(enc, s) && s != "" && s[0] != ' '
    requires !(enc.Utf8Encoding? && IsSkippedMark(s))
    ensures Encode(s) + t != "" && WhiteLength(enc, Encode(s) + t) == 0
  {
    hide EncodeChar, Encode, NoHexReference;
    NoHexReferenceHere(s);
    EncodedStart(enc, s, t);
    if enc.Utf8Encoding? && IsSkippedMark(Encode(s) + t) {
      MarkIsCopied(enc, s, t);
    }
  }

  /** An encoding that starts with a mark encodes a text that does. */
  lemma MarkIsCopied(enc: Encoding, s: string, t: string)
    requires enc.Utf8Encoding? && WholeSequences(enc, s) && s != "" && NoHexReference(s)
    requires IsSkippedMark(Encode(s) + t)
    ensures IsSkippedMark(s)
  {
    hide EncodeChar, Encode, NoHexReference;
    var r := Encode(s) + t;
    FirstByteIsCopied(s, t);
    HighBytesAreCopied(s, 3);
    assert r[..3] == s[..3];
  }

  lemma FirstByteIsCopied(s: string, t: string)
    requires s != "" && NoHexReference(s) && Encode(s) + t != "" && (Encode(s) + t)[0] as int == 0xEF
    ensures s[0] as int == 0xEF
  {
    assert s[0..] == s;
    assert Encode(s)[0] == EncodeChar(s[0])[0];
  }
}
