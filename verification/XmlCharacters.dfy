/** The characters of an XML text as they are written, told without GetEntity and GetChar, and the
    proof that GetChar reads exactly these. */
module XmlCharacters {
  import opened Options
  import opened Utf8
  import opened Positional
  import opened XmlText

  /** A character by its lead byte, one of the five entities, a character reference, or an
      ampersand that begins neither. What stands before the last mark of a reference is passed over. */
  datatype Written =
    | Plain(bytes: string)
    | Named(name: string)
    | Coded(hex: bool, passed: string, digits: string, ds: seq<nat>)
    | Stray

  /** The entities of section 4.6 of XML 1.0. */
  function EntityOf(name: string): Option<char> {
    if name == "amp" then Some('&')
    else if name == "lt" then Some('<')
    else if name == "gt" then Some('>')
    else if name == "quot" then Some('\"')
    else if name == "apos" then Some('\'')
    else None
  }

  const NAMES: seq<string> := ["amp", "lt", "gt", "quot", "apos"]

  function Base(hex: bool): (b: nat)
    ensures b == 10 || b == 16
  {
    if hex then 16 else 10
  }

  function Mark(hex: bool): char { if hex then 'x' else '#' }

  function WrittenText(w: Written): (s: string)
    ensures !w.Plain? ==> s != "" && s[0] == '&'
  {
    match w
    case Plain(bytes) => bytes
    case Named(name) => "&" + name + ";"
    case Coded(hex, passed, digits, _) => (if hex then "&#x" else "&#") + passed + digits + ";"
    case Stray => "&"
  }

  /** In front of this rest, w is a character. */
  predicate IsWritten(enc: Encoding, w: Written, rest: string) {
    match w
    case Plain(bytes) =>
      bytes != "" && bytes[0] != '&' &&
      (|bytes| == SequenceLength(enc, bytes[0]) || (rest == "" && |bytes| < SequenceLength(enc, bytes[0])))
    case Named(name) => EntityOf(name).Some?
    case Coded(hex, passed, digits, ds) =>
      AreDigitsOf(Base(hex), digits, ds) && ';' !in passed &&
      (passed != "" ==> passed[|passed| - 1] == Mark(hex) && (!hex ==> passed[0] != 'x'))
    case Stray =>
      !(|rest| >= 2 && rest[0] == '#') && forall i :: 0 <= i < |NAMES| ==> !(NAMES[i] + ";" <= rest)
  }

  /** The sum of the digits with a multiplier and products of 32 bits. */
  function Sum32(base: nat, ds: seq<nat>, mult: nat): nat {
    if ds == [] then 0
    else mult * ds[|ds| - 1] % TWO_32 + Sum32(base, ds[..|ds| - 1], mult * base % TWO_32)
  }

  /** The character of a code: in UTF-8, or its low byte. */
  function CodeValue(enc: Encoding, code: nat): string {
    if !enc.Utf8Encoding? then [Byte(code % 256)]
    else if code <= MAX_CODE_POINT then CodePointToUtf8(code)
    else CodeText(enc, code)
  }

  function WrittenValue(enc: Encoding, w: Written): string {
    match w
    case Plain(bytes) => bytes
    case Named(name) => if EntityOf(name).Some? then [EntityOf(name).value] else ""
    case Coded(hex, _, _, ds) => CodeValue(enc, Sum32(Base(hex), ds, 1))
    case Stray => ""
  }

  // ---------------------------------------------------------------- sums of digits

  lemma PositionedZero(base: nat, ds: seq<nat>)
    requires base > 0 && ds != [] && Positioned(base, ds) == 0
    ensures Positioned(base, ds[..|ds| - 1]) == 0 && ds[|ds| - 1] == 0
  {
    var p := Positioned(base, ds[..|ds| - 1]);
    assert base * p >= p;
  }

  lemma {:induction false} ZerosAddNothing(base: nat, ds: seq<nat>, mult: nat)
    requires base > 0 && Positioned(base, ds) == 0
    ensures Sum32(base, ds, mult) == 0
  {
    if ds != [] {
      var front := ds[..|ds| - 1];
      PositionedZero(base, ds);
      ZerosAddNothing(base, front, mult * base % TWO_32);
    }
  }

  lemma Product(a: nat, b: nat)
    ensures a * b >= 0 && (a > 0 ==> a * b >= b)
  {
  }

  lemma Shifted(base: nat, p: nat, d: nat, m: nat)
    ensures (base * p + d) * m == p * (m * base) + m * d
  {
    assert (base * p + d) * m == base * p * m + d * m;
    assert base * p * m == p * (m * base);
  }

  /** One digit of a sum below 2^32. */
  lemma NothingWraps(base: nat, p: nat, d: nat, m: nat)
    requires (base * p + d) * m < TWO_32
    ensures m * d % TWO_32 == m * d
    ensures p > 0 ==> m * base % TWO_32 == m * base && p * (m * base) < TWO_32
  {
    Shifted(base, p, d, m);
    var x, y := p * (m * base), m * d;
    Product(m, d);
    Product(p, m * base);
    assert 0 <= y < TWO_32 && x < TWO_32;
  }

  /** Below 2^32 nothing wraps, however many zeros lead. */
  lemma {:induction false} SumIsPositioned(base: nat, ds: seq<nat>, m: nat)
    requires base > 0 && m > 0 && Positioned(base, ds) * m < TWO_32
    ensures Sum32(base, ds, m) == Positioned(base, ds) * m
  {
    hide Positioned, Sum32;
    if ds == [] {
      NoDigits(base, m);
    } else {
      var front, d := ds[..|ds| - 1], ds[|ds| - 1];
      var p := Positioned(base, front);
      LastDigit(base, ds, m);
      NothingWraps(base, p, d, m);
      Shifted(base, p, d, m);
      if p == 0 {
        ZerosAddNothing(base, front, m * base % TWO_32);
      } else {
        Product(m, base);
        SumIsPositioned(base, front, m * base);
      }
    }
  }

  lemma NoDigits(base: nat, m: nat)
    ensures Positioned(base, []) * m == 0 && Sum32(base, [], m) == 0
  {
  }

  lemma LastDigit(base: nat, ds: seq<nat>, m: nat)
    requires ds != []
    ensures var front, d := ds[..|ds| - 1], ds[|ds| - 1];
            Positioned(base, ds) == base * Positioned(base, front) + d &&
            Sum32(base, ds, m) == m * d % TWO_32 + Sum32(base, front, m * base % TWO_32)
  {
  }

  // ---------------------------------------------------------------- the digits of a reference

  lemma DigitIsRead(base: nat, c: char, d: nat)
    requires IsDigitOf(base, c, d) && (base == 10 || base == 16)
    ensures DigitIn(base, c) == Some(d) && c != ';' && c != 'x' && c != '#'
  {
  }

  lemma ReadIsDigit(base: nat, c: char)
    requires base == 10 || base == 16
    ensures DigitIn(base, c).Some? ==> IsDigitOf(base, c, DigitIn(base, c).value)
  {
  }

  /** Backwards from position q over digits to the mark in front of them. */
  lemma {:induction false} DigitsAreAdded(s: string, at: nat, hex: bool, ds: seq<nat>, mult: nat, ucs: nat)
    requires at + |ds| < |s| && s[at] == Mark(hex) && AreDigitsOf(Base(hex), s[at + 1..at + 1 + |ds|], ds)
    ensures DigitsBack(s, at + |ds|, Mark(hex), Base(hex), mult, ucs) == Some(ucs + Sum32(Base(hex), ds, mult))
    decreases |ds|
  {
    hide IsDigitOf, DigitIn;
    if ds != [] {
      var q, front := at + |ds|, ds[..|ds| - 1];
      var text := s[at + 1..at + 1 + |ds|];
      assert text[|ds| - 1] == s[q];
      DigitIsRead(Base(hex), s[q], ds[|ds| - 1]);
      assert s[at + 1..at + 1 + |front|] == text[..|front|];
      DigitsAreAdded(s, at, hex, front, mult * Base(hex) % TWO_32, ucs + mult * ds[|ds| - 1] % TWO_32);
    }
  }

  /** If the sum comes to an end, there is a mark with nothing but digits behind it. */
  lemma {:induction false} SumHasDigits(s: string, q: nat, hex: bool, mult: nat, ucs: nat) returns (at: nat, ds: seq<nat>)
    requires q < |s| && DigitsBack(s, q, Mark(hex), Base(hex), mult, ucs).Some?
    ensures at <= q && s[at] == Mark(hex) && q == at + |ds| && AreDigitsOf(Base(hex), s[at + 1..q + 1], ds)
    decreases q
  {
    hide IsDigitOf, DigitIn;
    if s[q] == Mark(hex) {
      return q, [];
    }
    ReadIsDigit(Base(hex), s[q]);
    var d := DigitIn(Base(hex), s[q]).value;
    var front;
    at, front := SumHasDigits(s, q - 1, hex, mult * Base(hex) % TWO_32, ucs + mult * d % TWO_32);
    ds := front + [d];
    assert s[at + 1..q + 1] == s[at + 1..q] + [s[q]];
  }

  // ---------------------------------------------------------------- references

  lemma {:induction false} FirstSemicolon(a: string, t: string)
    requires ';' !in a
    ensures IndexOf(a + (";" + t), ';') == |a|
  {
    if a == "" {
      assert a + (";" + t) == ";" + t;
    } else {
      assert (a + (";" + t))[1..] == a[1..] + (";" + t);
      FirstSemicolon(a[1..], t);
    }
  }

  lemma CodeValueIs(enc: Encoding, code: nat)
    ensures CodeValue(enc, code) == CodeText(enc, code)
  {
    hide CodePointToUtf8, Utf32ToUtf8;
    if enc.Utf8Encoding? && code <= MAX_CODE_POINT { EncodersAgree(code); }
  }

  lemma DigitsHaveNoSemicolon(base: nat, digits: string, ds: seq<nat>)
    requires AreDigitsOf(base, digits, ds) && (base == 10 || base == 16)
    ensures ';' !in digits
  {
    hide IsDigitOf;
    forall i | 0 <= i < |digits|
      ensures digits[i] != ';'
    {
      assert IsDigitOf(base, digits[i], ds[i]);
      DigitIsRead(base, digits[i], ds[i]);
    }
  }

  /** The numeric part of a reference at the head of s. */
  lemma CodedIsRead(enc: Encoding, w: Written, t: string)
    requires w.Coded? && IsWritten(enc, w, t)
    ensures var s := WrittenText(w) + t;
            NumericEntity(enc, s, if w.hex then 2 else 1, Mark(w.hex), Base(w.hex)) == Got(WrittenValue(enc, w), Some(t))
  {
    hide AreDigitsOf, CodeValue, CodeText, DigitsBack, Sum32, IndexOf;
    var start: nat := if w.hex then 2 else 1;
    var s := WrittenText(w) + t;
    var body := w.passed + w.digits;
    DigitsHaveNoSemicolon(Base(w.hex), w.digits, w.ds);
    FirstSemicolon(body, t);
    assert s[start + 1..] == body + (";" + t);
    var at := start + |w.passed|;
    assert |w.digits| == |w.ds| by { SameLength(Base(w.hex), w.digits, w.ds); }
    DigitsInText(if w.hex then "&#x" else "&#", w.passed, w.digits, t);
    assert s[at] == Mark(w.hex);
    DigitsAreAdded(s, at, w.hex, w.ds, 1, 0);
    CodeValueIs(enc, Sum32(Base(w.hex), w.ds, 1));
    assert s[start + 1 + |body| + 1..] == t;
  }

  lemma DigitsInText(prefix: string, passed: string, digits: string, t: string)
    ensures var n := |prefix| + |passed|; (prefix + passed + digits + ";" + t)[n..n + |digits|] == digits
  {
  }

  lemma SameLength(base: nat, digits: string, ds: seq<nat>)
    requires AreDigitsOf(base, digits, ds)
    ensures |digits| == |ds|
  {
  }

  /** What a numeric part that is read looks like. */
  lemma ReadIsCoded(enc: Encoding, s: string, hex: bool) returns (w: Written, t: string)
    requires |s| > 2 && s[0] == '&' && s[1] == '#' && (hex <==> s[2] == 'x') && (hex ==> |s| > 3)
    requires NumericEntity(enc, s, if hex then 2 else 1, Mark(hex), Base(hex)).p.Some?
    ensures w.Coded? && w.hex == hex && IsWritten(enc, w, t) && s == WrittenText(w) + t
  {
    hide AreDigitsOf, CodeText, DigitsBack, IndexOf, IsWritten, WrittenText;
    var start: nat := if hex then 2 else 1;
    var semicolon := start + 1 + IndexOf(s[start + 1..], ';');
    SemicolonFound(s, start + 1);
    var at, ds := SumHasDigits(s, semicolon - 1, hex, 1, 0);
    MarkIsBehind(s, at, hex, start);
    w, t := CodedOf(enc, s, hex, start, at, semicolon, ds);
  }

  lemma CodedOf(enc: Encoding, s: string, hex: bool, start: nat, at: nat, semicolon: nat, ds: seq<nat>) returns (w: Written, t: string)
    requires |s| > 2 && s[0] == '&' && s[1] == '#' && (hex <==> s[2] == 'x') && start == (if hex then 2 else 1)
    requires start <= at < semicolon < |s| && s[semicolon] == ';' && s[at] == Mark(hex) && forall i :: start < i < semicolon ==> s[i] != ';'
    requires AreDigitsOf(Base(hex), s[at + 1..semicolon], ds)
    ensures w.Coded? && w.hex == hex && IsWritten(enc, w, t) && s == WrittenText(w) + t
  {
    hide AreDigitsOf;
    w, t := Coded(hex, s[start + 1..at + 1], s[at + 1..semicolon], ds), s[semicolon + 1..];
    CutReference(s, start + 1, at + 1, semicolon);
    PassedHasMark(s, start + 1, at + 1, semicolon);
    assert s[..start + 1] == if hex then "&#x" else "&#";
  }

  lemma PassedHasMark(s: string, a: nat, b: nat, c: nat)
    requires a <= b <= c < |s| && forall i :: a <= i < c ==> s[i] != ';'
    ensures ';' !in s[a..b] && (a < b ==> s[a..b][b - a - 1] == s[b - 1] && s[a..b][0] == s[a])
  {
  }

  lemma SemicolonFound(s: string, from: nat)
    requires from <= |s|
    ensures var k := from + IndexOf(s[from..], ';');
            k <= |s| && (forall i :: from <= i < k ==> s[i] != ';') && (k < |s| ==> s[k] == ';')
  {
    var t := s[from..];
    assert forall i :: from <= i < |s| ==> s[i] == t[i - from];
  }

  lemma CutReference(s: string, a: nat, b: nat, c: nat)
    requires a <= b <= c < |s| && s[c] == ';'
    ensures s == s[..a] + s[a..b] + s[b..c] + ";" + s[c + 1..]
  {
  }

  lemma MarkIsBehind(s: string, at: nat, hex: bool, start: nat)
    requires |s| > 2 && s[0] == '&' && s[1] == '#' && (hex <==> s[2] == 'x') && start == (if hex then 2 else 1)
    requires at < |s| && s[at] == Mark(hex)
    ensures at >= start
  {
  }

  // ---------------------------------------------------------------- any character

  lemma NamedIsRead(enc: Encoding, name: string, t: string)
    requires EntityOf(name).Some?
    ensures GetEntity(enc, "&" + name + ";" + t) == Got([EntityOf(name).value], Some(t))
  {
    EntityIsRead(enc, EntityOf(name).value, t);
    assert "&" + name + ";" == EncodeChar(EntityOf(name).value);
  }

  lemma StrayIsDropped(enc: Encoding, t: string)
    requires IsWritten(enc, Stray, t)
    ensures GetEntity(enc, "&" + t) == Got("", Some(t))
  {
    hide NumericEntity;
    var s := "&" + t;
    assert s[1..] == t;
    NoEntityAhead(enc, t, 0);
    NoEntityAhead(enc, t, 1);
    NoEntityAhead(enc, t, 2);
    NoEntityAhead(enc, t, 3);
    NoEntityAhead(enc, t, 4);
    assert "&" + "amp" + ";" == "&amp;" && "&" + "lt" + ";" == "&lt;" && "&" + "gt" + ";" == "&gt;" && "&" + "quot" + ";" == "&quot;" &&
           "&" + "apos" + ";" == "&apos;";
  }

  lemma NoEntityAhead(enc: Encoding, t: string, i: nat)
    requires IsWritten(enc, Stray, t) && i < |NAMES|
    ensures !("&" + NAMES[i] + ";" <= "&" + t)
  {
    var name := NAMES[i];
    assert !(name + ";" <= t);
    assert "&" + name + ";" == "&" + (name + ";");
    Behind("&", name + ";", t);
  }

  lemma Behind(a: string, b: string, t: string)
    ensures a + b <= a + t ==> b <= t
  {
    assert (a + b)[|a|..] == b && (a + t)[|a|..] == t;
  }

  /** Every written character is read as what it stands for, and nothing more. */
  lemma WrittenIsRead(enc: Encoding, w: Written, rest: string)
    requires IsWritten(enc, w, rest)
    ensures GetChar(enc, WrittenText(w) + rest) == Got(WrittenValue(enc, w), Some(rest))
  {
    hide GetEntity, AreDigitsOf, CodeValue;
    var s := WrittenText(w) + rest;
    match w
    case Plain(bytes) =>
      assert s[..|bytes|] == bytes && s[|bytes|..] == rest && s[0] == bytes[0];
    case Named(name) => NamedIsRead(enc, name, rest);
    case Coded(_, _, _, _) => ReferenceIsRead(enc, w, rest);
    case Stray => StrayIsDropped(enc, rest);
  }

  lemma ReferenceIsRead(enc: Encoding, w: Written, rest: string)
    requires w.Coded? && IsWritten(enc, w, rest)
    ensures GetEntity(enc, WrittenText(w) + rest) == Got(WrittenValue(enc, w), Some(rest))
  {
    hide NumericEntity, WrittenValue, AreDigitsOf, IsDigitOf;
    CodedIsRead(enc, w, rest);
    if !w.hex && w.passed == "" && w.ds != [] {
      FirstDigit(w.digits, w.ds);
      DigitIsRead(10, w.digits[0], w.ds[0]);
    }
    if w.ds == [] { assert w.digits == "" by { SameLength(Base(w.hex), w.digits, w.ds); } }
  }

  lemma FirstDigit(digits: string, ds: seq<nat>)
    requires AreDigitsOf(10, digits, ds) && ds != []
    ensures digits != "" && IsDigitOf(10, digits[0], ds[0])
  {
  }

  lemma Ahead(s: string, name: string, rest: string)
    requires s != "" && s[0] == '&' && rest == s[1..] && name + ";" <= rest
    ensures "&" + name + ";" <= s
  {
    assert s == "&" + rest && "&" + name + ";" == "&" + (name + ";");
    assert ("&" + rest)[..|name| + 2] == "&" + rest[..|name| + 1];
  }

  /** Whatever is read is a written character. */
  lemma ReadIsWritten(enc: Encoding, s: string) returns (w: Written, rest: string)
    requires s != "" && GetChar(enc, s).p.Some?
    ensures IsWritten(enc, w, rest) && s == WrittenText(w) + rest
    ensures GetChar(enc, s) == Got(WrittenValue(enc, w), Some(rest))
  {
    hide NumericEntity, IsWritten, WrittenText, WrittenValue;
    if s[0] != '&' {
      w, rest := BytesAreWritten(enc, s);
    } else if |s| > 2 && s[1] == '#' {
      w, rest := ReadIsCoded(enc, s, s[2] == 'x');
    } else {
      w, rest := EntityIsWritten(enc, s);
    }
    WrittenIsRead(enc, w, rest);
  }

  lemma BytesAreWritten(enc: Encoding, s: string) returns (w: Written, rest: string)
    requires s != "" && s[0] != '&'
    ensures IsWritten(enc, w, rest) && s == WrittenText(w) + rest
  {
    var n := SequenceLength(enc, s[0]);
    var k := if n <= |s| then n else |s|;
    w, rest := Plain(s[..k]), s[k..];
  }

  lemma EntityIsWritten(enc: Encoding, s: string) returns (w: Written, rest: string)
    requires s != "" && s[0] == '&' && !(|s| > 2 && s[1] == '#')
    ensures IsWritten(enc, w, rest) && s == WrittenText(w) + rest
  {
    if name :| name in NAMES && "&" + name + ";" <= s {
      w, rest := Named(name), s[|name| + 2..];
      assert s == s[..|name| + 2] + rest;
    } else {
      w, rest := Stray, s[1..];
      forall i | 0 <= i < |NAMES|
        ensures !(NAMES[i] + ";" <= rest)
      {
        if NAMES[i] + ";" <= rest { Ahead(s, NAMES[i], rest); }
      }
    }
  }

  // ---------------------------------------------------------------- character references

  /** A decimal reference is read as its character, with any number of leading zeros. */
  lemma DecimalIsRead(enc: Encoding, digits: string, ds: seq<nat>, t: string)
    requires AreDigitsOf(10, digits, ds) && Positioned(10, ds) <= MAX_CODE_POINT
    ensures var n := Positioned(10, ds);
            var character := if enc.Utf8Encoding? then CodePointToUtf8(n) else [Byte(n % 256)];
            GetEntity(enc, "&#" + digits + ";" + t) == Got(character, Some(t))
  {
    hide AreDigitsOf, GetEntity, CodePointToUtf8;
    var w := Coded(false, "", digits, ds);
    ReferenceIsRead(enc, w, t);
    SumIsPositioned(10, ds, 1);
    assert "&#" + "" + digits + ";" + t == "&#" + digits + ";" + t;
  }

  /** A hexadecimal one too, with digits of either case. */
  lemma HexadecimalIsRead(enc: Encoding, digits: string, ds: seq<nat>, t: string)
    requires AreDigitsOf(16, digits, ds) && Positioned(16, ds) <= MAX_CODE_POINT
    ensures var n := Positioned(16, ds);
            var character := if enc.Utf8Encoding? then CodePointToUtf8(n) else [Byte(n % 256)];
            GetEntity(enc, "&#x" + digits + ";" + t) == Got(character, Some(t))
  {
    hide AreDigitsOf, GetEntity, CodePointToUtf8;
    var w := Coded(true, "", digits, ds);
    ReferenceIsRead(enc, w, t);
    SumIsPositioned(16, ds, 1);
    assert "&#x" + "" + digits + ";" + t == "&#x" + digits + ";" + t;
  }

  ghost predicate IsDigitChar(base: nat, c: char) { exists d :: IsDigitOf(base, c, d) }

  lemma {:induction false} DigitsOfChars(base: nat, text: string) returns (ds: seq<nat>)
    requires forall i :: 0 <= i < |text| ==> IsDigitChar(base, text[i])
    ensures AreDigitsOf(base, text, ds)
  {
    hide IsDigitOf;
    if text == "" { return []; }
    var front := DigitsOfChars(base, text[..|text| - 1]);
    var d: nat :| IsDigitOf(base, text[|text| - 1], d);
    ds := front + [d];
  }

  lemma DigitCharsOf(base: nat, text: string, ds: seq<nat>)
    requires AreDigitsOf(base, text, ds)
    ensures forall i :: 0 <= i < |text| ==> IsDigitChar(base, text[i])
  {
    hide IsDigitOf;
    forall i | 0 <= i < |text|
      ensures IsDigitChar(base, text[i])
    {
      assert IsDigitOf(base, text[i], ds[i]);
    }
  }

  /** A reference up to its semicolon is an error exactly if one of its characters is no digit. */
  lemma ReferenceExactly(enc: Encoding, hex: bool, body: string, t: string)
    requires ';' !in body && Mark(hex) !in body && (!hex && body != "" ==> body[0] != 'x')
    ensures GetEntity(enc, (if hex then "&#x" else "&#") + body + ";" + t).p.Some? <==>
            forall i :: 0 <= i < |body| ==> IsDigitChar(Base(hex), body[i])
  {
    hide IsDigitChar, AreDigitsOf, NumericEntity, WrittenValue;
    var prefix := if hex then "&#x" else "&#";
    var s := prefix + body + ";" + t;
    if forall i :: 0 <= i < |body| ==> IsDigitChar(Base(hex), body[i]) {
      var ds := DigitsOfChars(Base(hex), body);
      assert prefix + "" + body == prefix + body;
      ReferenceIsRead(enc, Coded(hex, "", body, ds), t);
    }
    if GetEntity(enc, s).p.Some? { BodyHasDigits(enc, hex, prefix, body, t); }
  }

  lemma BodyHasDigits(enc: Encoding, hex: bool, prefix: string, body: string, t: string)
    requires ';' !in body && Mark(hex) !in body && prefix == (if hex then "&#x" else "&#")
    requires NumericEntity(enc, prefix + body + ";" + t, if hex then 2 else 1, Mark(hex), Base(hex)).p.Some?
    ensures forall i :: 0 <= i < |body| ==> IsDigitChar(Base(hex), body[i])
  {
    hide IsDigitChar, AreDigitsOf, DigitsBack, CodeText, IndexOf;
    var s, n := prefix + body + ";" + t, |prefix|;
    assert s[n..] == body + (";" + t);
    FirstSemicolon(body, t);
    var at, ds := SumHasDigits(s, n + |body| - 1, hex, 1, 0);
    assert at == n - 1 by { assert hex ==> s[0] == '&' && s[1] == '#'; }
    assert s[at + 1..n + |body|] == body;
    DigitCharsOf(Base(hex), body, ds);
  }

  /** What stands in front of a second mark is passed over: "&#x4x1;" is read as U+0001. */
  lemma SecondMark(enc: Encoding, t: string)
    ensures GetEntity(enc, "&#x4x1;" + t) == Got(['\U{01}'], Some(t))
  {
    hide GetEntity;
    var w := Coded(true, "4x", "1", [1]);
    assert IsDigitOf(16, '1', 1);
    ReferenceIsRead(enc, w, t);
    assert "&#x" + "4x" + "1" + ";" == "&#x4x1;";
    assert Positioned(16, [1]) == 1 by { assert [1][..0] == []; }
    SumIsPositioned(16, [1], 1);
  }
}
