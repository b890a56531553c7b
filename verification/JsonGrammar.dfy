/** The grammar of JSON texts by RFC 8259, as trees with their spelling and their meaning. It does
    not mention tokens; the reader is proved to agree with it, and the writers to write it. */
module JsonGrammar {
  import opened CString
  import opened Positional
  import opened Utf8
  import opened JsonValue
  import opened JsonLexer
  import opened JsonNumber
  import opened JsonString
  import opened JsonText

  // ---------------------------------------------------------------- section 7: strings

  /** An unescaped character, a two-character escape, or a unicode escape. */
  datatype Char = Plain(c: char) | Short(letter: char) | Unicode(hex: string)

  /** What a string may consist of for the reader: anything but a quote, a backslash, or an escape. */
  predicate IsReadable(x: Char) {
    match x
    case Plain(c) => c != '\"' && c != '\\'
    case Short(letter) => letter in "\"\\/bfnrt"
    case Unicode(hex) => |hex| == 4 && forall i :: 0 <= i < 4 ==> IsHexDigit(hex[i])
  }

  /** By the grammar, also no control character. */
  predicate IsChar(x: Char) { IsReadable(x) && (x.Plain? ==> x.c >= ' ') }

  predicate AreReadable(cs: seq<Char>) { forall i :: 0 <= i < |cs| ==> IsReadable(cs[i]) }

  predicate AreChars(cs: seq<Char>) { forall i :: 0 <= i < |cs| ==> IsChar(cs[i]) }

  function CharText(x: Char): string {
    match x
    case Plain(c) => [c]
    case Short(letter) => ['\\', letter]
    case Unicode(hex) => "\\u" + hex
  }

  function CharsText(cs: seq<Char>): string {
    if cs == [] then "" else CharText(cs[0]) + CharsText(cs[1..])
  }

  function StringText(cs: seq<Char>): string { "\"" + CharsText(cs) + "\"" }

  lemma CharsAreReadable(cs: seq<Char>)
    requires AreChars(cs)
    ensures AreReadable(cs)
  {
  }

  /** The character behind a backslash, by section 7. */
  function Escaped(letter: char): char {
    if letter == 'b' then 0x08 as char
    else if letter == 'f' then 0x0C as char
    else if letter == 'n' then 0x0A as char
    else if letter == 'r' then 0x0D as char
    else if letter == 't' then 0x09 as char
    else letter
  }

  /** The number four hexadecimal digits stand for. */
  function CodeOf(hex: string): nat { if IsChar(Unicode(hex)) then Hex4(hex) else 0 }

  /** Four digits of either case are an escape for the number they stand for, and nothing else is. */
  lemma CodeIsPositional(hex: string, ds: seq<nat>)
    requires AreDigitsOf(16, hex, ds) && |ds| == 4
    ensures IsReadable(Unicode(hex)) && CodeOf(hex) == Positioned(16, ds)
  {
    hide IsHexDigit, HexValue, IsDigitOf, Positioned;
    HexIsDigitOf(hex[0], ds[0]);
    HexIsDigitOf(hex[1], ds[1]);
    HexIsDigitOf(hex[2], ds[2]);
    HexIsDigitOf(hex[3], ds[3]);
    FourPositions(ds);
  }

  lemma HexIsDigitOf(c: char, d: nat)
    requires IsDigitOf(16, c, d)
    ensures IsHexDigit(c) && HexValue(c) == d
  {
  }

  lemma FourPositions(ds: seq<nat>)
    requires |ds| == 4
    ensures Positioned(16, ds) == ((ds[0] * 16 + ds[1]) * 16 + ds[2]) * 16 + ds[3]
  {
    var a, b, c := ds[..1], ds[..2], ds[..3];
    assert a[..0] == [] && b[..1] == a && c[..2] == b && ds[..3] == c;
    assert Positioned(16, a) == ds[0] && Positioned(16, b) == 16 * ds[0] + ds[1];
  }

  lemma EscapeHasDigits(hex: string) returns (ds: seq<nat>)
    requires IsReadable(Unicode(hex))
    ensures |ds| == 4 && AreDigitsOf(16, hex, ds)
  {
    hide IsHexDigit, HexValue, IsDigitOf;
    ds := [HexValue(hex[0]), HexValue(hex[1]), HexValue(hex[2]), HexValue(hex[3])];
    HexHasDigit(hex[0]);
    HexHasDigit(hex[1]);
    HexHasDigit(hex[2]);
    HexHasDigit(hex[3]);
  }

  lemma HexHasDigit(c: char)
    requires IsHexDigit(c)
    ensures IsDigitOf(16, c, HexValue(c))
  {
  }

  predicate IsHigh(x: Char) { x.Unicode? && IsHighSurrogate(CodeOf(x.hex)) }

  predicate IsLow(x: Char) { x.Unicode? && IsLowSurrogate(CodeOf(x.hex)) }

  /** A byte of the text, a code point, or one half of a surrogate pair by itself. */
  datatype Point = Raw(c: char) | Scalar(cp: nat) | Lone(unit: nat)

  /** The code point of a surrogate pair, by section 2.2 of RFC 2781. */
  function PairPoint(high: nat, low: nat): nat
    requires IsHighSurrogate(high) && IsLowSurrogate(low)
  {
    0x10000 + (high - 0xD800) * 0x400 + (low - 0xDC00)
  }

  /** What a string stands for by RFC 8259: two escapes are one character if they form a pair. */
  function Points(cs: seq<Char>): seq<Point> {
    if cs == [] then []
    else if |cs| > 1 && IsHigh(cs[0]) && IsLow(cs[1]) then
      [Scalar(PairPoint(CodeOf(cs[0].hex), CodeOf(cs[1].hex)))] + Points(cs[2..])
    else
      [match cs[0]
       case Plain(c) => Raw(c)
       case Short(letter) => Raw(Escaped(letter))
       case Unicode(hex) =>
         if IsHigh(cs[0]) || IsLow(cs[0]) then Lone(CodeOf(hex)) else Scalar(CodeOf(hex))] + Points(cs[1..])
  }

  /** A lone surrogate stands for no character. */
  function PointText(p: Point): string {
    match p
    case Raw(c) => [c]
    case Scalar(cp) => CodePointToUtf8(cp)
    case Lone(_) => ""
  }

  function PointsText(ps: seq<Point>): string {
    if ps == [] then "" else PointText(ps[0]) + PointsText(ps[1..])
  }

  /** The characters a string stands for, in UTF-8. */
  function CharsMeaning(cs: seq<Char>): string { PointsText(Points(cs)) }

  /** Every high surrogate is followed by a low one, and no low one stands alone. */
  predicate WellPaired(cs: seq<Char>) {
    if cs == [] then true
    else if IsHigh(cs[0]) then |cs| > 1 && IsLow(cs[1]) && WellPaired(cs[2..])
    else !IsLow(cs[0]) && WellPaired(cs[1..])
  }

  // ---------------------------------------------------------------- what the reader makes of strings

  /** Behind every high surrogate stands another unicode escape, of whatever value. */
  predicate CharsAccepted(cs: seq<Char>) {
    if cs == [] then true
    else if IsHigh(cs[0]) then |cs| > 1 && cs[1].Unicode? && CharsAccepted(cs[2..])
    else CharsAccepted(cs[1..])
  }

  /** The reader combines a high surrogate with any escape behind it. */
  function CharsRead(cs: seq<Char>): string {
    if cs == [] then ""
    else if IsHigh(cs[0]) && |cs| > 1 && cs[1].Unicode? then
      CodePointToUtf8(Combine(CodeOf(cs[0].hex), CodeOf(cs[1].hex))) + CharsRead(cs[2..])
    else
      (match cs[0]
       case Plain(c) => [c]
       case Short(letter) => [Escaped(letter)]
       case Unicode(hex) => CodePointToUtf8(CodeOf(hex))) + CharsRead(cs[1..])
  }

  // ---------------------------------------------------------------- section 6: numbers

  datatype Exponent = NoExponent | Exponent(letter: char, sign: string, digits: string)

  /** An empty fraction stands for none. */
  datatype Numeral = Numeral(minus: bool, whole: string, fraction: string, exponent: Exponent)

  predicate IsNumeral(n: Numeral) {
    n.whole != "" && AllDigits(n.whole) && (|n.whole| > 1 ==> n.whole[0] != '0') && AllDigits(n.fraction) &&
    match n.exponent
    case NoExponent => true
    case Exponent(letter, sign, digits) => letter in "eE" && sign in ["", "+", "-"] && digits != "" && AllDigits(digits)
  }

  function ExponentText(e: Exponent): string {
    match e
    case NoExponent => ""
    case Exponent(letter, sign, digits) => [letter] + sign + digits
  }

  function NumeralText(n: Numeral): string {
    (if n.minus then "-" else "") + n.whole + (if n.fraction == "" then "" else "." + n.fraction) + ExponentText(n.exponent)
  }

  /** sscanf scans every number of the grammar. */
  ghost predicate Scans(scan: DoubleScanner) {
    forall n: Numeral :: IsNumeral(n) ==> scan(NumeralText(n)).Some?
  }

  /** What decodeNumber stores for a number. */
  function NumberOf(text: string, scan: DoubleScanner): Value {
    match DecodeNumber(text, scan)
    case Number(v) => v
    case NotANumber(_) => Null
  }

  /** What a number means: an integer in the 64-bit range itself, any other number the double
      that is scanned. */
  function NumberMeaning(text: string, scan: DoubleScanner): Value {
    if IsIntegerText(text) && Decimal(Unsigned(text)) <= MaxMagnitude(IsNegative(text)) then CanonicalInteger(Denoted(text))
    else match scan(text) case Some(r) => Real(r) case None => Null
  }

  /** A way to read numbers and strings. */
  datatype Reading = Reading(number: string -> Value, chars: seq<Char> -> string)

  /** The way of the grammar. */
  function Meant(scan: DoubleScanner): Reading { Reading(text => NumberMeaning(text, scan), CharsMeaning) }

  /** The way of the reader. */
  function Read(scan: DoubleScanner): Reading { Reading(text => NumberOf(text, scan), CharsRead) }

  // ---------------------------------------------------------------- sections 2 to 5: texts

  /** Space is what stands in an empty array or object. */
  datatype Json =
    | NullText
    | TrueText
    | FalseText
    | NumberText(n: Numeral)
    | Chars(cs: seq<Char>)
    | ArrayText(space: string, items: seq<Item>)
    | ObjectText(space: string, pairs: seq<Pair>)

  /** A value with the white space around it. */
  datatype Item = Item(before: string, value: Json, after: string)

  datatype Pair = Pair(before: string, name: seq<Char>, behind: string, item: Item)

  predicate IsJson(j: Json) {
    match j
    case NumberText(n) => IsNumeral(n)
    case Chars(cs) => AreChars(cs)
    case ArrayText(space, items) => IsBlank(space) && forall i :: 0 <= i < |items| ==> IsItem(items[i])
    case ObjectText(space, pairs) => IsBlank(space) && forall i :: 0 <= i < |pairs| ==> IsPair(pairs[i])
    case _ => true
  }

  predicate IsItem(i: Item) { IsBlank(i.before) && IsJson(i.value) && IsBlank(i.after) }

  predicate IsPair(p: Pair) { IsBlank(p.before) && AreChars(p.name) && IsBlank(p.behind) && IsItem(p.item) }

  function Spelled(j: Json): string
    decreases j
  {
    match j
    case NullText => "null"
    case TrueText => "true"
    case FalseText => "false"
    case NumberText(n) => NumeralText(n)
    case Chars(cs) => StringText(cs)
    case ArrayText(space, items) => "[" + (if items == [] then space else SpelledItems(items)) + "]"
    case ObjectText(space, pairs) => "{" + (if pairs == [] then space else SpelledPairs(pairs)) + "}"
  }

  function SpelledItem(i: Item): string
    decreases i
  {
    i.before + Spelled(i.value) + i.after
  }

  function SpelledItems(items: seq<Item>): string
    requires items != []
    decreases items
  {
    SpelledItem(items[0]) + if |items| == 1 then "" else "," + SpelledItems(items[1..])
  }

  function SpelledPair(p: Pair): string
    decreases p
  {
    p.before + StringText(p.name) + p.behind + ":" + SpelledItem(p.item)
  }

  function SpelledPairs(pairs: seq<Pair>): string
    requires pairs != []
    decreases pairs
  {
    SpelledPair(pairs[0]) + if |pairs| == 1 then "" else "," + SpelledPairs(pairs[1..])
  }

  /** A JSON text is a value of any kind with white space around it. */
  ghost predicate IsJsonText(s: string) {
    exists i: Item :: IsItem(i) && SpelledItem(i) == s
  }

  /** Strings end at a NUL, as values of jsoncpp do; of equal names the last one counts. */
  function Meaning(j: Json, r: Reading): Value
    decreases j
  {
    match j
    case NullText => Null
    case TrueText => Bool(true)
    case FalseText => Bool(false)
    case NumberText(n) => r.number(NumeralText(n))
    case Chars(cs) => Str(CStr(r.chars(cs)))
    case ArrayText(_, items) => Array(ItemMeanings(items, r))
    case ObjectText(_, pairs) => Object(MembersOf(pairs, [], r))
  }

  function ItemMeanings(items: seq<Item>, r: Reading): seq<Value>
    decreases items
  {
    if items == [] then [] else [Meaning(items[0].value, r)] + ItemMeanings(items[1..], r)
  }

  /** The members once the pairs are assigned one after the other. */
  function MembersOf(pairs: seq<Pair>, ms: seq<Member>, r: Reading): seq<Member>
    decreases pairs
  {
    if pairs == [] then ms
    else
      var p := pairs[0];
      MembersOf(pairs[1..], Assign(ms, CStr(r.chars(p.name)), Meaning(p.item.value, r)), r)
  }

  /** The reader accepts all strings of the text. */
  predicate Accepted(j: Json)
    decreases j
  {
    match j
    case Chars(cs) => CharsAccepted(cs)
    case ArrayText(_, items) => forall i :: 0 <= i < |items| ==> Accepted(items[i].value)
    case ObjectText(_, pairs) => forall i :: 0 <= i < |pairs| ==> AcceptedPair(pairs[i])
    case _ => true
  }

  predicate AcceptedPair(p: Pair)
    decreases p
  {
    CharsAccepted(p.name) && Accepted(p.item.value)
  }

  /** No integer slips past the overflow guards of decodeNumber. */
  predicate NumberKept(text: string) {
    IsIntegerText(text) ==>
      var v, max := Decimal(Unsigned(text)), MaxMagnitude(IsNegative(text));
      v <= max || v / 100 >= max / 10 || v % 10 > max % 10
  }

  /** All strings are well paired and all integers are kept. */
  predicate Meaningful(j: Json)
    decreases j
  {
    match j
    case NumberText(n) => NumberKept(NumeralText(n))
    case Chars(cs) => WellPaired(cs)
    case ArrayText(_, items) => forall i :: 0 <= i < |items| ==> Meaningful(items[i].value)
    case ObjectText(_, pairs) => forall i :: 0 <= i < |pairs| ==> MeaningfulPair(pairs[i])
    case _ => true
  }

  predicate MeaningfulPair(p: Pair)
    decreases p
  {
    WellPaired(p.name) && Meaningful(p.item.value)
  }

  // ---------------------------------------------------------------- the tokens of a text

  function Tokens(j: Json): (toks: seq<Token>)
    ensures toks != [] && toks[0].kind != ArrayEnd && toks[0].kind != CommentToken
    decreases j
  {
    match j
    case NullText => [Token(NullToken, "null")]
    case TrueText => [Token(TrueToken, "true")]
    case FalseText => [Token(FalseToken, "false")]
    case NumberText(n) => [Token(NumberToken, NumeralText(n))]
    case Chars(cs) => [Token(StringToken, StringText(cs))]
    case ArrayText(_, items) => [ARRAY_BEGIN] + ItemsTokens(items) + [ARRAY_END]
    case ObjectText(_, pairs) => [OBJECT_BEGIN] + PairsTokens(pairs) + [OBJECT_END]
  }

  function ItemsTokens(items: seq<Item>): seq<Token>
    decreases items
  {
    if items == [] then []
    else Tokens(items[0].value) + if |items| == 1 then [] else [COMMA] + ItemsTokens(items[1..])
  }

  function PairTokens(p: Pair): seq<Token>
    decreases p
  {
    [Token(StringToken, StringText(p.name)), COLON] + Tokens(p.item.value)
  }

  function PairsTokens(pairs: seq<Pair>): seq<Token>
    decreases pairs
  {
    if pairs == [] then []
    else PairTokens(pairs[0]) + if |pairs| == 1 then [] else [COMMA] + PairsTokens(pairs[1..])
  }

  // ---------------------------------------------------------------- strings are scanned and decoded

  /** readString passes over one character of the grammar. */
  lemma CharIsScanned(x: Char, t: string)
    requires IsReadable(x)
    ensures ScanString(CharText(x) + t) == Skip(|CharText(x)|, ScanString(t))
  {
    hide IsHexDigit;
    var s := CharText(x) + t;
    match x
    case Plain(c) => assert s[1..] == t;
    case Short(_) => assert s[2..] == t;
    case Unicode(hex) =>
      ScanPair(s);
      assert s[2..] == hex + t;
      HexIsPlain(hex);
      ScanPlain(hex, t);
  }

  lemma HexIsPlain(hex: string)
    requires |hex| == 4 && forall i :: 0 <= i < 4 ==> IsHexDigit(hex[i])
    ensures QUOTE !in hex && BACKSLASH !in hex
  {
  }

  lemma {:induction false} CharsAreScanned(cs: seq<Char>, t: string)
    requires AreReadable(cs)
    ensures ScanString(CharsText(cs) + ("\"" + t)) == Scan(|CharsText(cs)| + 1, true)
  {
    hide IsReadable, CharText;
    if cs == [] {
      assert CharsText(cs) + ("\"" + t) == "\"" + t;
      QuoteIsScanned("\"" + t);
    } else {
      CharsAreScanned(cs[1..], t);
      CharIsScanned(cs[0], CharsText(cs[1..]) + ("\"" + t));
      assert CharsText(cs) + ("\"" + t) == CharText(cs[0]) + (CharsText(cs[1..]) + ("\"" + t));
    }
  }

  lemma QuoteIsScanned(s: string)
    requires s != "" && s[0] == QUOTE
    ensures ScanString(s) == Scan(1, true)
  {
  }

  lemma StringTextIsClosed(cs: seq<Char>)
    requires AreReadable(cs)
    ensures Closed(StringText(cs), [Token(StringToken, StringText(cs))])
  {
    hide SpellsBefore, ScanString, CharsText, AreReadable;
    var s := StringText(cs);
    forall rest
      ensures SpellsBefore(s, [Token(StringToken, s)], rest)
    {
      CharsAreScanned(cs, rest);
      assert (s + rest)[1..] == CharsText(cs) + ("\"" + rest);
      ScannedSpellsBefore(s, StringToken, rest);
    }
  }

  lemma PlainIsDecoded(x: Char, t: string)
    requires IsReadable(x) && !x.Unicode?
    ensures var piece := if x.Plain? then [x.c] else [Escaped(x.letter)];
            DecodeBody(CharText(x) + t) == Prepend(piece, DecodeBody(t))
  {
    hide DecodeCodePoint, Prepend, Escaped, Unescape;
    var s := CharText(x) + t;
    if x.Plain? {
      assert s[1..] == t;
    } else {
      LetterIsEscaped(x.letter);
      assert s[1..][0] == x.letter && s[2..] == t;
    }
  }

  lemma LetterIsEscaped(letter: char)
    requires IsReadable(Short(letter))
    ensures Unescape(letter) == Escaped(letter) != NUL
  {
  }

  lemma HexIsRead(hex: string, t: string)
    requires IsChar(Unicode(hex))
    ensures UnicodeEscape(hex + t) == CodePoint(CodeOf(hex), 4)
  {
  }

  lemma CodePointIsDecoded(s: string)
    ensures var c := DecodeCodePoint(s);
            DecodeBody("\\u" + s) ==
            if c.BadCodePoint? then BadString(c.message)
            else Prepend(CodePointToUtf8(c.value), DecodeBody(s[c.length..]))
  {
    hide DecodeCodePoint, CodePointToUtf8, Prepend;
    EscapeIsDecoded(s);
    var t := "\\u" + s;
    assert t[1..] == "u" + s;
    if DecodeCodePoint(s).CodePoint? {
      var n := DecodeCodePoint(s).length;
      assert t[2 + n..] == s[n..];
    }
  }

  lemma EscapeIsDecoded(s: string)
    ensures DecodeEscape("u" + s) ==
              match DecodeCodePoint(s)
              case BadCodePoint(message) => BadPiece(message)
              case CodePoint(cp, n) => Piece(CodePointToUtf8(cp), 1 + n)
  {
    hide DecodeCodePoint, CodePointToUtf8;
    assert ("u" + s)[1..] == s;
  }

  /** A unicode escape that is no high surrogate. */
  lemma UnicodeIsDecoded(hex: string, t: string)
    requires IsChar(Unicode(hex)) && !IsHigh(Unicode(hex))
    ensures DecodeBody(CharText(Unicode(hex)) + t) == Prepend(CodePointToUtf8(CodeOf(hex)), DecodeBody(t))
  {
    hide UnicodeEscape, CodeOf, CodePointToUtf8, DecodeBody, Prepend;
    HexIsRead(hex, t);
    CodePointIsDecoded(hex + t);
    assert "\\u" + hex + t == "\\u" + (hex + t) && (hex + t)[4..] == t;
  }

  lemma PairIsDecoded(first: string, second: string, t: string)
    requires IsChar(Unicode(first)) && IsChar(Unicode(second)) && IsHigh(Unicode(first))
    ensures DecodeBody(CharText(Unicode(first)) + (CharText(Unicode(second)) + t))
         == Prepend(CodePointToUtf8(Combine(CodeOf(first), CodeOf(second))), DecodeBody(t))
  {
    hide UnicodeEscape, CodeOf, CodePointToUtf8, DecodeBody, Prepend, DecodeCodePoint;
    var inner := CharText(Unicode(second)) + t;
    PairCode(first, second, t);
    CodePointIsDecoded(first + inner);
    assert "\\u" + first + inner == "\\u" + (first + inner) && (first + inner)[10..] == t;
  }

  lemma PairCode(first: string, second: string, t: string)
    requires IsChar(Unicode(first)) && IsChar(Unicode(second)) && IsHigh(Unicode(first))
    ensures DecodeCodePoint(first + ("\\u" + second + t)) == CodePoint(Combine(CodeOf(first), CodeOf(second)), 10)
  {
    hide UnicodeEscape, CodeOf;
    var s := first + ("\\u" + second + t);
    HexIsRead(first, "\\u" + second + t);
    HexIsRead(second, t);
    assert s[6..] == second + t;
  }

  /** A high surrogate without another unicode escape behind it. */
  lemma UnpairedIsBad(hex: string, t: string)
    requires IsChar(Unicode(hex)) && IsHigh(Unicode(hex))
    requires |t| < 6 || t[0] != BACKSLASH || t[1] != 'u'
    ensures DecodeBody(CharText(Unicode(hex)) + t).BadString?
  {
    hide DecodeBody, CodeOf, DecodeCodePoint;
    UnpairedCode(hex, t);
    CodePointIsDecoded(hex + t);
    assert "\\u" + hex + t == "\\u" + (hex + t);
  }

  lemma UnpairedCode(hex: string, t: string)
    requires IsChar(Unicode(hex)) && IsHigh(Unicode(hex))
    requires |t| < 6 || t[0] != BACKSLASH || t[1] != 'u'
    ensures DecodeCodePoint(hex + t).BadCodePoint?
  {
    hide UnicodeEscape, CodeOf;
    HexIsRead(hex, t);
    assert |t| >= 6 ==> (hex + t)[4] == t[0] && (hex + t)[5] == t[1];
  }

  lemma NoUnicodeAhead(cs: seq<Char>)
    requires AreReadable(cs) && (cs == [] || !cs[0].Unicode?)
    ensures var t := CharsText(cs); |t| < 6 || t[0] != BACKSLASH || t[1] != 'u'
  {
  }

  /** decodeString reads the characters as CharsRead says, or reports an error exactly if a high
      surrogate has no other unicode escape behind it. */
  lemma {:induction false} CharsAreDecoded(cs: seq<Char>)
    requires AreReadable(cs)
    ensures if CharsAccepted(cs) then DecodeBody(CharsText(cs)) == Decoded(CharsRead(cs)) else DecodeBody(CharsText(cs)).BadString?
    decreases |cs|
  {
    hide DecodeBody, CharText, CodePointToUtf8, CodeOf, IsReadable, Escaped;
    if cs == [] {
      NothingToDecode();
    } else if !IsHigh(cs[0]) {
      CharsAreDecoded(cs[1..]);
      if cs[0].Unicode? { UnicodeIsDecoded(cs[0].hex, CharsText(cs[1..])); } else { PlainIsDecoded(cs[0], CharsText(cs[1..])); }
    } else if |cs| > 1 && cs[1].Unicode? {
      CharsAreDecoded(cs[2..]);
      assert cs[1..][1..] == cs[2..];
      PairIsDecoded(cs[0].hex, cs[1].hex, CharsText(cs[2..]));
    } else {
      NoUnicodeAhead(cs[1..]);
      UnpairedIsBad(cs[0].hex, CharsText(cs[1..]));
    }
  }

  lemma NothingToDecode()
    ensures DecodeBody("") == Decoded("")
  {
  }

  lemma StringTextIsDecoded(cs: seq<Char>)
    requires AreReadable(cs)
    ensures if CharsAccepted(cs) then DecodeString(StringText(cs)) == Decoded(CharsRead(cs))
            else DecodeString(StringText(cs)).BadString?
  {
    hide CharsText, DecodeBody, CharsRead, CharsAccepted, AreReadable;
    CharsAreDecoded(cs);
    assert Body(StringText(cs)) == CharsText(cs);
  }

  // ---------------------------------------------------------------- when a string has its meaning

  lemma PairIsCombined(high: nat, low: nat)
    requires IsHighSurrogate(high) && IsLowSurrogate(low)
    ensures PairPoint(high, low) == Combine(high, low)
  {
  }

  lemma {:induction false} WellPairedIsAccepted(cs: seq<Char>)
    requires WellPaired(cs)
    ensures CharsAccepted(cs)
  {
    hide CodeOf;
    if cs != [] { WellPairedIsAccepted(if IsHigh(cs[0]) then cs[2..] else cs[1..]); }
  }

  lemma Utf8Length(cp: nat)
    requires cp <= MAX_CODE_POINT
    ensures |CodePointToUtf8(cp)| == if cp < 0x80 then 1 else if cp < 0x800 then 2 else if cp < 0x10000 then 3 else 4
  {
  }

  lemma CodeIsShort(hex: string)
    ensures CodeOf(hex) < 0x10000
  {
  }

  /** One step of the meaning of a string. */
  lemma MeaningStep(cs: seq<Char>)
    requires cs != []
    ensures CharsMeaning(cs) ==
              if |cs| > 1 && IsHigh(cs[0]) && IsLow(cs[1]) then
                CodePointToUtf8(PairPoint(CodeOf(cs[0].hex), CodeOf(cs[1].hex))) + CharsMeaning(cs[2..])
              else if IsHigh(cs[0]) || IsLow(cs[0]) then CharsMeaning(cs[1..])
              else
                (match cs[0]
                 case Plain(c) => [c]
                 case Short(letter) => [Escaped(letter)]
                 case Unicode(hex) => CodePointToUtf8(CodeOf(hex))) + CharsMeaning(cs[1..])
  {
    hide CodeOf, CodePointToUtf8, Escaped;
    var ps := Points(cs);
    assert PointsText(ps) == PointText(ps[0]) + PointsText(ps[1..]);
  }

  /** Whatever is badly paired makes what is read longer than what is meant. */
  lemma {:induction false} ReadIsLonger(cs: seq<Char>)
    requires CharsAccepted(cs)
    ensures WellPaired(cs) ==> CharsRead(cs) == CharsMeaning(cs)
    ensures !WellPaired(cs) ==> |CharsRead(cs)| > |CharsMeaning(cs)|
    decreases |cs|
  {
    hide CodeOf, CodePointToUtf8, Combine, PairPoint, Escaped, CharsMeaning;
    if cs == [] {
      NothingMeant();
    } else {
      MeaningStep(cs);
      if !IsHigh(cs[0]) {
        ReadIsLonger(cs[1..]);
        if IsLow(cs[0]) { LowIsLong(cs[0].hex); }
      } else {
        ReadIsLonger(cs[2..]);
        if IsLow(cs[1]) {
          PairIsCombined(CodeOf(cs[0].hex), CodeOf(cs[1].hex));
        } else {
          assert cs[1..][0] == cs[1] && cs[1..][1..] == cs[2..];
          CombinedIsLong(CodeOf(cs[0].hex), CodeOf(cs[1].hex));
          MeaningIsShort(cs[1..]);
        }
      }
    }
  }

  lemma LowIsLong(hex: string)
    ensures |CodePointToUtf8(CodeOf(hex))| > 0
  {
    CodeIsShort(hex);
    Utf8Length(CodeOf(hex));
  }

  lemma CombinedIsLong(first: nat, second: nat)
    ensures |CodePointToUtf8(Combine(first, second))| == 4
  {
    Utf8Length(Combine(first, second));
  }

  /** One escape that starts no pair adds at most three bytes to the meaning; a pair adds four
      where the reader makes at least one of the low surrogate. */
  lemma {:induction false} MeaningIsShort(cs: seq<Char>)
    requires cs != [] && cs[0].Unicode? && CharsAccepted(cs[1..])
    ensures |CharsMeaning(cs)| < 4 + |CharsRead(cs[1..])|
    decreases |cs|
  {
    hide CodeOf, CodePointToUtf8, Combine, PairPoint, Escaped, CharsMeaning;
    MeaningStep(cs);
    ReadIsLonger(cs[1..]);
    if |cs| > 1 && IsHigh(cs[0]) && IsLow(cs[1]) {
      assert cs[1..][0] == cs[1] && cs[1..][1..] == cs[2..];
      LowIsNotHigh(cs[1]);
      ReadIsLonger(cs[2..]);
      PairIsCombined(CodeOf(cs[0].hex), CodeOf(cs[1].hex));
      CombinedIsLong(CodeOf(cs[0].hex), CodeOf(cs[1].hex));
      LowIsLong(cs[1].hex);
    } else {
      CodeIsShort(cs[0].hex);
      Utf8Length(CodeOf(cs[0].hex));
    }
  }

  lemma LowIsNotHigh(x: Char)
    ensures IsLow(x) ==> !IsHigh(x)
  {
  }

  /** A string is read as what it means if and only if its surrogates are well paired. */
  lemma MeaningExactly(cs: seq<Char>)
    requires AreChars(cs)
    ensures DecodeString(StringText(cs)) == Decoded(CharsMeaning(cs)) <==> WellPaired(cs)
  {
    hide DecodeString, StringText, CharsMeaning, CharsRead, AreChars;
    CharsAreReadable(cs);
    StringTextIsDecoded(cs);
    if WellPaired(cs) { WellPairedIsAccepted(cs); }
    if CharsAccepted(cs) { ReadIsLonger(cs); }
  }

  /** The escapes D800 and 0041 are no pair, but they are read as U+10041; a lone DC00 is read as
      the three bytes of no character. */
  lemma BadlyPaired()
    ensures var cs := [Unicode("D800"), Unicode("0041")];
            !WellPaired(cs) && CharsMeaning(cs) == "A" &&
            DecodeString(StringText(cs)) == Decoded(CodePointToUtf8(0x10041))
    ensures var cs := [Unicode("DC00")];
            !WellPaired(cs) && DecodeString(StringText(cs)) == Decoded(['\U{ED}', '\U{B0}', '\U{80}'])
  {
    hide CodeOf, DecodeString, StringText, CharsText, CharsRead, CharsMeaning, CharsAccepted, IsChar;
    var a, b, l := Unicode("D800"), Unicode("0041"), Unicode("DC00");
    SomeCodes();
    TwoRead(a, b);
    TwoMean(a, b);
    OneRead(l);
    assert AreChars([a, b]) && AreChars([l]);
    CharsAreReadable([a, b]);
    CharsAreReadable([l]);
    StringTextIsDecoded([a, b]);
    StringTextIsDecoded([l]);
    assert CodePointToUtf8(0x41) == "A";
  }

  lemma SomeCodes()
    ensures IsChar(Unicode("D800")) && CodeOf("D800") == 0xD800
    ensures IsChar(Unicode("0041")) && CodeOf("0041") == 0x41
    ensures IsChar(Unicode("DC00")) && CodeOf("DC00") == 0xDC00
  {
  }

  lemma TwoRead(a: Char, b: Char)
    requires a.Unicode? && b.Unicode? && IsHigh(a)
    ensures CharsAccepted([a, b]) && CharsRead([a, b]) == CodePointToUtf8(Combine(CodeOf(a.hex), CodeOf(b.hex)))
  {
    hide CodeOf, CodePointToUtf8, Combine;
    assert [a, b][2..] == [];
  }

  lemma OneRead(l: Char)
    requires l.Unicode? && !IsHigh(l)
    ensures CharsAccepted([l]) && CharsRead([l]) == CodePointToUtf8(CodeOf(l.hex))
  {
    hide CodeOf, CodePointToUtf8;
    assert [l][1..] == [];
  }

  lemma TwoMean(a: Char, b: Char)
    requires a.Unicode? && b.Unicode? && IsHigh(a) && !IsHigh(b) && !IsLow(b)
    ensures CharsMeaning([a, b]) == CodePointToUtf8(CodeOf(b.hex))
  {
    hide CodeOf, CodePointToUtf8, CharsMeaning;
    MeaningStep([a, b]);
    assert [a, b][1..] == [b];
    MeaningStep([b]);
    assert [b][1..] == [];
    assert CharsMeaning([]) == "" by { NothingMeant(); }
  }

  lemma NothingMeant()
    ensures CharsMeaning([]) == ""
  {
  }

  // ---------------------------------------------------------------- numbers are scanned and decoded

  lemma NumeralIsScanned(n: Numeral)
    requires IsNumeral(n)
    ensures IsNumberText(NumeralText(n))
  {
    ExponentIsScanned(n.exponent);
  }

  lemma ExponentIsScanned(e: Exponent)
    requires match e case NoExponent => true
                     case Exponent(letter, sign, digits) => letter in "eE" && sign in ["", "+", "-"] && digits != "" && AllDigits(digits)
    ensures forall i :: 0 <= i < |ExponentText(e)| ==> IsNumberChar(ExponentText(e)[i])
  {
  }

  /** decodeNumber accepts every number of the grammar. */
  lemma NumeralIsDecoded(n: Numeral, scan: DoubleScanner)
    requires IsNumeral(n) && Scans(scan)
    ensures DecodeNumber(NumeralText(n), scan) == Number(NumberOf(NumeralText(n), scan))
  {
    hide DecodeNumber, IsNumeral, IntegerValue;
    var text := NumeralText(n);
    assert scan(text).Some?;
    if n.fraction == "" && n.exponent.NoExponent? {
      IntegerNumeral(n);
      DecodeIntegerText(text, scan);
    } else {
      RealNumeral(n);
      RealIsDecoded(text, scan);
    }
  }

  lemma IntegerNumeral(n: Numeral)
    requires IsNumeral(n) && n.fraction == "" && n.exponent.NoExponent?
    ensures IsIntegerText(NumeralText(n)) && IsNegative(NumeralText(n)) == n.minus && Unsigned(NumeralText(n)) == n.whole
  {
  }

  lemma RealNumeral(n: Numeral)
    requires IsNumeral(n) && (n.fraction != "" || n.exponent.Exponent?)
    ensures LooksReal(NumeralText(n))
  {
    var at := (if n.minus then 1 else 0) + |n.whole|;
    assert RealMark(NumeralText(n), at);
  }

  lemma RealIsDecoded(text: string, scan: DoubleScanner)
    requires LooksReal(text) && scan(text).Some?
    ensures DecodeNumber(text, scan).Number?
  {
  }

  /** A number is stored as what it means if and only if it is no integer that slips past the
      overflow guards. */
  lemma NumberExactly(n: Numeral, scan: DoubleScanner)
    requires IsNumeral(n) && Scans(scan)
    ensures NumberOf(NumeralText(n), scan) == NumberMeaning(NumeralText(n), scan) <==> NumberKept(NumeralText(n))
  {
    hide DecodeNumber, IsNumeral, IntegerValue, Decimal, LooksReal, ReadAsInteger;
    var text := NumeralText(n);
    assert scan(text).Some?;
    if n.fraction == "" && n.exponent.NoExponent? {
      IntegerNumeral(n);
      var v, negative := Decimal(Unsigned(text)), IsNegative(text);
      DecodeIntegerText(text, scan);
      if v <= MaxMagnitude(negative) {
        InRangeIsReadAsInteger(v, MaxMagnitude(negative));
        InRangeIsCanonical(negative, v);
      } else {
        GuardsInArithmetic(v, MaxMagnitude(negative));
        IntegerIsNotReal(negative, v % TWO_64);
      }
    } else {
      RealNumeral(n);
      RealIsNoInteger(text);
      RealIsScanned(text, scan);
    }
  }

  lemma IntegerIsNotReal(negative: bool, total: int)
    requires IsLargestUInt(total)
    ensures !IntegerValue(negative, total).Real?
  {
  }

  lemma RealIsNoInteger(text: string)
    requires LooksReal(text)
    ensures !IsIntegerText(text)
  {
    if IsIntegerText(text) { IntegerTextIsNotReal(text); }
  }

  lemma RealIsScanned(text: string, scan: DoubleScanner)
    requires LooksReal(text) && scan(text).Some?
    ensures NumberOf(text, scan) == Real(scan(text).value)
  {
  }

  /** An integer in range is stored exactly. */
  lemma IntegerIsExact(n: Numeral, scan: DoubleScanner)
    requires IsNumeral(n) && n.fraction == "" && n.exponent.NoExponent?
    requires var i := if n.minus then -Decimal(n.whole) else Decimal(n.whole); IsLargestInt(i) || IsLargestUInt(i)
    ensures NumberOf(NumeralText(n), scan) == CanonicalInteger(if n.minus then -Decimal(n.whole) else Decimal(n.whole))
  {
    hide DecodeNumber, Decimal;
    IntegerNumeral(n);
    DecodeNumberExact(NumeralText(n), scan);
  }

  // ---------------------------------------------------------------- texts spell their tokens

  lemma {:induction false} JsonSpells(j: Json)
    requires IsJson(j)
    ensures Spells(Spelled(j), Tokens(j))
    decreases j
  {
    hide Closed, Spells, AreChars, IsNumeral, StringText, NumeralText;
    match j
    case NumberText(n) => NumeralIsScanned(n); NumberSpells(NumeralText(n));
    case Chars(cs) => CharsAreReadable(cs); StringTextIsClosed(cs); ClosedSpells(StringText(cs), Tokens(j));
    case ArrayText(space, items) => ArraySpells(space, items);
    case ObjectText(space, pairs) => ObjectSpells(space, pairs);
    case _ => FixedIsClosed(Tokens(j)[0]); ClosedSpells(Spelled(j), Tokens(j));
  }

  lemma {:induction false} ArraySpells(space: string, items: seq<Item>)
    requires IsBlank(space) && forall i :: 0 <= i < |items| ==> IsItem(items[i])
    ensures Spells(Spelled(ArrayText(space, items)), Tokens(ArrayText(space, items)))
    decreases items, 1
  {
    hide Closed, Spells, SpelledItems, ItemsTokens, IsItem;
    if items == [] {
      BlankSpells(space);
      BracketsSpell(ARRAY_BEGIN, space, [], ARRAY_END);
      assert ItemsTokens([]) == [] by { NoItemsTokens(); }
    } else {
      ItemsSpell(items);
      BracketsSpell(ARRAY_BEGIN, SpelledItems(items), ItemsTokens(items), ARRAY_END);
    }
  }

  lemma NoItemsTokens()
    ensures ItemsTokens([]) == [] && PairsTokens([]) == []
  {
  }

  lemma {:induction false} ItemSpells(i: Item)
    requires IsItem(i)
    ensures Spells(SpelledItem(i), Tokens(i.value))
    decreases i
  {
    hide Closed, Spells, Spelled, Tokens, IsJson;
    JsonSpells(i.value);
    BlankThenSpells(i.before, Spelled(i.value), Tokens(i.value));
    SpellsThenBlank(i.before + Spelled(i.value), Tokens(i.value), i.after);
  }

  lemma {:induction false} ItemsSpell(items: seq<Item>)
    requires items != [] && forall i :: 0 <= i < |items| ==> IsItem(items[i])
    ensures Spells(SpelledItems(items), ItemsTokens(items))
    decreases items, 0
  {
    hide Closed, Spells, SpelledItem, Tokens, IsItem;
    var s, toks := SpelledItem(items[0]), Tokens(items[0].value);
    ItemSpells(items[0]);
    if |items| == 1 {
      assert s + "" == s && toks + [] == toks;
    } else {
      ItemsSpell(items[1..]);
      CommaSpells(s, toks, SpelledItems(items[1..]), ItemsTokens(items[1..]));
    }
  }

  lemma {:induction false} ObjectSpells(space: string, pairs: seq<Pair>)
    requires IsBlank(space) && forall i :: 0 <= i < |pairs| ==> IsPair(pairs[i])
    ensures Spells(Spelled(ObjectText(space, pairs)), Tokens(ObjectText(space, pairs)))
    decreases pairs, 1
  {
    hide Closed, Spells, SpelledPairs, PairsTokens, IsPair;
    if pairs == [] {
      BlankSpells(space);
      BracketsSpell(OBJECT_BEGIN, space, [], OBJECT_END);
      assert PairsTokens([]) == [] by { NoItemsTokens(); }
    } else {
      PairsSpell(pairs);
      BracketsSpell(OBJECT_BEGIN, SpelledPairs(pairs), PairsTokens(pairs), OBJECT_END);
    }
  }

  lemma {:induction false} PairSpells(p: Pair)
    requires IsPair(p)
    ensures Spells(SpelledPair(p), PairTokens(p))
    decreases p
  {
    hide Closed, Spells, SpelledItem, Tokens, IsItem, StringText;
    var name := Token(StringToken, StringText(p.name));
    CharsAreReadable(p.name);
    StringTextIsClosed(p.name);
    ClosedSpells(name.text, [name]);
    BlankThenSpells(p.before, name.text, [name]);
    SpellsThenBlank(p.before + name.text, [name], p.behind);
    SpellsThenFixed(p.before + name.text + p.behind, [name], COLON);
    ItemSpells(p.item);
    ClosedThenSpells(p.before + name.text + p.behind + ":", [name] + [COLON], SpelledItem(p.item), Tokens(p.item.value));
    assert [name] + [COLON] == [name, COLON];
  }

  lemma {:induction false} PairsSpell(pairs: seq<Pair>)
    requires pairs != [] && forall i :: 0 <= i < |pairs| ==> IsPair(pairs[i])
    ensures Spells(SpelledPairs(pairs), PairsTokens(pairs))
    decreases pairs, 0
  {
    hide Closed, Spells, SpelledPair, PairTokens, IsPair;
    var s, toks := SpelledPair(pairs[0]), PairTokens(pairs[0]);
    PairSpells(pairs[0]);
    if |pairs| == 1 {
      assert s + "" == s && toks + [] == toks;
    } else {
      PairsSpell(pairs[1..]);
      CommaSpells(s, toks, SpelledPairs(pairs[1..]), PairsTokens(pairs[1..]));
    }
  }

  // ---------------------------------------------------------------- when a text has its meaning

  /** Read by the reader, a text has its meaning if all its strings and numbers have theirs. */
  lemma {:induction false} MeaningAgrees(j: Json, scan: DoubleScanner)
    requires IsJson(j) && Scans(scan) && Meaningful(j)
    ensures Accepted(j) && Meaning(j, Read(scan)) == Meaning(j, Meant(scan))
    decreases j
  {
    hide IsNumeral, NumeralText, NumberKept, AreChars, WellPaired, CharsAccepted, CharsRead, CharsMeaning, NumberOf, NumberMeaning, Scans,
         ItemMeanings, MembersOf;
    match j
    case NumberText(n) => NumberExactly(n, scan);
    case Chars(cs) => WellPairedIsAccepted(cs); ReadIsLonger(cs);
    case ArrayText(_, items) => ItemsAgree(items, scan);
    case ObjectText(_, pairs) => PairsAgree(pairs, [], scan);
    case _ =>
  }

  lemma {:induction false} ItemsAgree(items: seq<Item>, scan: DoubleScanner)
    requires (forall i :: 0 <= i < |items| ==> IsItem(items[i])) && Scans(scan) && forall i :: 0 <= i < |items| ==> Meaningful(items[i].value)
    ensures forall i :: 0 <= i < |items| ==> Accepted(items[i].value)
    ensures ItemMeanings(items, Read(scan)) == ItemMeanings(items, Meant(scan))
    decreases items
  {
    hide Meaning, Accepted, Meaningful, IsJson, Scans, Read, Meant;
    if items != [] {
      assert IsItem(items[0]);
      MeaningAgrees(items[0].value, scan);
      ItemsAgree(items[1..], scan);
      assert forall i :: 1 <= i < |items| ==> items[i] == items[1..][i - 1];
    }
  }

  lemma PairAgrees(p: Pair, scan: DoubleScanner)
    requires IsPair(p) && Scans(scan) && MeaningfulPair(p)
    ensures AcceptedPair(p) && CharsRead(p.name) == CharsMeaning(p.name)
    ensures Meaning(p.item.value, Read(scan)) == Meaning(p.item.value, Meant(scan))
    decreases p
  {
    hide Meaning, Accepted, Meaningful, IsJson, Scans, Read, Meant, CharsRead, CharsMeaning, WellPaired, CharsAccepted;
    WellPairedIsAccepted(p.name);
    ReadIsLonger(p.name);
    MeaningAgrees(p.item.value, scan);
  }

  lemma {:induction false} PairsAgree(pairs: seq<Pair>, ms: seq<Member>, scan: DoubleScanner)
    requires (forall i :: 0 <= i < |pairs| ==> IsPair(pairs[i])) && Scans(scan) && forall i :: 0 <= i < |pairs| ==> MeaningfulPair(pairs[i])
    ensures forall i :: 0 <= i < |pairs| ==> AcceptedPair(pairs[i])
    ensures MembersOf(pairs, ms, Read(scan)) == MembersOf(pairs, ms, Meant(scan))
    decreases pairs
  {
    hide Meaning, AcceptedPair, MeaningfulPair, IsPair, Scans, CharsRead, CharsMeaning, Assign, CStr;
    if pairs != [] {
      var p := pairs[0];
      PairAgrees(p, scan);
      PairsAgree(pairs[1..], Assign(ms, CStr(CharsRead(p.name)), Meaning(p.item.value, Read(scan))), scan);
      assert forall i :: 1 <= i < |pairs| ==> pairs[i] == pairs[1..][i - 1];
    }
  }
}
