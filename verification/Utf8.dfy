/** The two UTF-8 encoders of the bundled libraries, jsoncpp's codePointToUTF8 and TinyXML's
    ConvertUTF32ToUTF8 with its lead-byte table, against a decoder written from RFC 3629.
    Masks and shifts of the sources are remainders and quotients here. */
module Utf8 {
  import opened Options

  const MAX_CODE_POINT := 0x10FFFF

  function Byte(b: int): (c: char)
    requires 0 <= b < 256
    ensures c as int == b
  {
    b as char
  }

  /** A continuation byte: 0x80 | (0x3f & x) */
  function Tail(x: nat): (c: char)
    ensures c as int == 0x80 + x % 64
  {
    Byte(0x80 + x % 64)
  }

  /** codePointToUTF8: nothing at all beyond U+10FFFF. */
  function CodePointToUtf8(cp: nat): string {
    if cp <= 0x7F then [Byte(cp)]
    else if cp <= 0x7FF then [Byte(0xC0 + cp / 64 % 32), Tail(cp)]
    else if cp <= 0xFFFF then [Byte(0xE0 + cp / 4096 % 16), Tail(cp / 64), Tail(cp)]
    else if cp <= MAX_CODE_POINT then
      [Byte(0xF0 + cp / 262144 % 8), Tail(cp / 4096), Tail(cp / 64), Tail(cp)]
    else ""
  }

  // ---------------------------------------------------------------- RFC 3629, section 3

  predicate IsTail(c: char) { 0x80 <= c as int <= 0xBF }

  function TailBits(c: char): int { c as int - 0x80 }

  /** The code point and the length of the sequence at the head of s, if it is a well-formed,
      shortest-form sequence; the surrogates, which are no characters, are not told apart here. */
  function FirstCodePoint(s: string): Option<(nat, nat)> {
    if s == "" then None
    else
      var b := s[0] as int;
      if b <= 0x7F then Some((b, 1))
      else if 0xC0 <= b <= 0xDF && |s| >= 2 && IsTail(s[1]) then
        AtLeast(0x80, (b - 0xC0) * 64 + TailBits(s[1]), 2)
      else if 0xE0 <= b <= 0xEF && |s| >= 3 && IsTail(s[1]) && IsTail(s[2]) then
        AtLeast(0x800, (b - 0xE0) * 4096 + TailBits(s[1]) * 64 + TailBits(s[2]), 3)
      else if 0xF0 <= b <= 0xF7 && |s| >= 4 && IsTail(s[1]) && IsTail(s[2]) && IsTail(s[3]) then
        AtLeast(0x10000, (b - 0xF0) * 262144 + TailBits(s[1]) * 4096 + TailBits(s[2]) * 64 + TailBits(s[3]), 4)
      else None
  }

  function AtLeast(least: nat, cp: nat, length: nat): Option<(nat, nat)> {
    if least <= cp <= MAX_CODE_POINT then Some((cp, length)) else None
  }

  /** A code point as six-bit groups. */
  lemma Sextets(cp: nat)
    ensures cp == 64 * (cp / 64) + cp % 64
    ensures cp / 64 == 64 * (cp / 4096) + cp / 64 % 64
    ensures cp / 4096 == 64 * (cp / 262144) + cp / 4096 % 64
  {
    assert cp / 64 / 64 == cp / 4096;
    assert cp / 4096 / 64 == cp / 262144;
  }

  lemma EncodedShape(cp: nat)
    requires cp <= MAX_CODE_POINT
    ensures var e := CodePointToUtf8(cp);
            if cp <= 0x7F then |e| == 1 && e[0] as int == cp
            else if cp <= 0x7FF then |e| == 2 && e[0] as int == 0xC0 + cp / 64 && TailBits(e[1]) == cp % 64
            else if cp <= 0xFFFF then
              |e| == 3 && e[0] as int == 0xE0 + cp / 4096 && TailBits(e[1]) == cp / 64 % 64 && TailBits(e[2]) == cp % 64
            else
              |e| == 4 && e[0] as int == 0xF0 + cp / 262144 && TailBits(e[1]) == cp / 4096 % 64 &&
              TailBits(e[2]) == cp / 64 % 64 && TailBits(e[3]) == cp % 64
  {
  }

  /** There is an encoding of every code point up to U+10FFFF, and of nothing beyond. */
  lemma EncodedExactly(cp: nat)
    ensures CodePointToUtf8(cp) != "" <==> cp <= 0x10FFFF
  {
    if cp <= MAX_CODE_POINT { EncodedShape(cp); }
  }

  /** Whatever follows, an encoded code point is decoded to itself; so the encoding is
      injective and no encoding is a prefix of another. */
  lemma EncodedIsDecoded(cp: nat, rest: string)
    requires cp <= MAX_CODE_POINT
    ensures FirstCodePoint(CodePointToUtf8(cp) + rest) == Some((cp, |CodePointToUtf8(cp)|))
  {
    hide CodePointToUtf8;
    Sextets(cp);
    EncodedShape(cp);
  }

  lemma LastSextet(high: nat, low: nat, h: nat, l: nat)
    requires low < 64 && l < 64 && high * 64 + low == h * 64 + l
    ensures high == h && low == l
  {
  }

  /** Two texts that start with the same code point start with the same bytes. */
  lemma SameCodePointSameBytes(s: string, t: string, cp: nat, n: nat)
    requires FirstCodePoint(s) == Some((cp, n)) && FirstCodePoint(t) == Some((cp, n))
    ensures n <= |s| && n <= |t| && s[..n] == t[..n]
  {
    var b, c := s[0] as int, t[0] as int;
    if n == 1 {
      assert s[..1] == t[..1];
    } else if n == 2 {
      LastSextet(b - 0xC0, TailBits(s[1]), c - 0xC0, TailBits(t[1]));
    } else if n == 3 {
      LastSextet((b - 0xE0) * 64 + TailBits(s[1]), TailBits(s[2]), (c - 0xE0) * 64 + TailBits(t[1]), TailBits(t[2]));
      LastSextet(b - 0xE0, TailBits(s[1]), c - 0xE0, TailBits(t[1]));
    } else if n == 4 {
      var x, y := (b - 0xF0) * 64 + TailBits(s[1]), (c - 0xF0) * 64 + TailBits(t[1]);
      LastSextet(x * 64 + TailBits(s[2]), TailBits(s[3]), y * 64 + TailBits(t[2]), TailBits(t[3]));
      LastSextet(x, TailBits(s[2]), y, TailBits(t[2]));
      LastSextet(b - 0xF0, TailBits(s[1]), c - 0xF0, TailBits(t[1]));
    }
  }

  lemma LengthByRange(s: string, cp: nat, n: nat)
    requires FirstCodePoint(s) == Some((cp, n))
    ensures n == if cp < 0x80 then 1 else if cp < 0x800 then 2 else if cp < 0x10000 then 3 else 4
  {
  }

  /** The decoder accepts nothing but what the encoder writes. */
  lemma DecodedIsEncoded(s: string, cp: nat, n: nat)
    requires FirstCodePoint(s) == Some((cp, n))
    ensures n <= |s| && s[..n] == CodePointToUtf8(cp)
  {
    var e := CodePointToUtf8(cp);
    EncodedIsDecoded(cp, "");
    assert e + "" == e;
    LengthByRange(s, cp, n);
    LengthByRange(e, cp, |e|);
    SameCodePointSameBytes(s, e, cp, n);
  }

  /** No encoding is a proper or improper prefix of the encoding of another code point. */
  lemma PrefixFree(a: nat, b: nat)
    requires a <= MAX_CODE_POINT && b <= MAX_CODE_POINT
    requires CodePointToUtf8(a) <= CodePointToUtf8(b)
    ensures a == b
  {
    var ea, eb := CodePointToUtf8(a), CodePointToUtf8(b);
    EncodedIsDecoded(a, eb[|ea|..]);
    EncodedIsDecoded(b, "");
    assert ea + eb[|ea|..] == eb == eb + "";
  }

  // ---------------------------------------------------------------- TinyXML

  /** utf8ByteTable: the length of the sequence a lead byte starts. */
  function ByteTable(c: char): (n: nat)
    ensures 1 <= n <= 4
  {
    var b := c as int;
    if b < 0xC2 then 1
    else if b < 0xE0 then 2
    else if b < 0xF0 then 3
    else if b < 0xF5 then 4
    else 1
  }

  lemma TableGivesLength(cp: nat)
    requires cp <= MAX_CODE_POINT
    ensures CodePointToUtf8(cp) != "" && ByteTable(CodePointToUtf8(cp)[0]) == |CodePointToUtf8(cp)|
    ensures forall i :: 0 < i < |CodePointToUtf8(cp)| ==> ByteTable(CodePointToUtf8(cp)[i]) == 1
  {
  }

  /** A byte that starts no sequence of more than one byte has length 1 in the table. */
  lemma NoLeadByte(c: char)
    ensures ByteTable(c) > 1 ==> exists cp: nat :: cp <= MAX_CODE_POINT && |CodePointToUtf8(cp)| > 1 && CodePointToUtf8(cp)[0] == c
  {
    var b := c as int;
    if 0xC2 <= b < 0xE0 {
      EncodedShape((b - 0xC0) * 64);
      assert CodePointToUtf8((b - 0xC0) * 64)[0] == c;
    } else if 0xE0 <= b < 0xF0 {
      var cp := if b == 0xE0 then 0x800 else (b - 0xE0) * 4096;
      EncodedShape(cp);
      assert CodePointToUtf8(cp)[0] == c;
    } else if 0xF0 <= b < 0xF5 {
      var cp := if b == 0xF0 then 0x10000 else (b - 0xF0) * 262144;
      EncodedShape(cp);
      assert CodePointToUtf8(cp)[0] == c;
    }
  }

  /** FIRST_BYTE_MARK */
  function FirstByteMark(length: nat): nat {
    if length == 2 then 0xC0 else if length == 3 then 0xE0 else if length == 4 then 0xF0 else 0
  }

  /** input >> 6 * n */
  function Shifted(input: nat, n: nat): (r: nat)
    ensures r <= input
  {
    if n == 0 then input else Shifted(input, n - 1) / 64
  }

  lemma LeadByte(input: nat, length: nat)
    requires input < 0x200000
    requires length == if input < 0x80 then 1 else if input < 0x800 then 2 else if input < 0x10000 then 3 else 4
    ensures FirstByteMark(length) + Shifted(input, length - 1) < 256
  {
    ShiftedIs(input);
  }

  /** The bytes ConvertUTF32ToUTF8 writes, also beyond U+10FFFF. */
  function Utf32ToUtf8(input: nat): string
    requires input < 0x200000
  {
    if input < 0x80 then [Byte(input)]
    else if input < 0x800 then [Byte(0xC0 + input / 64), Tail(input)]
    else if input < 0x10000 then [Byte(0xE0 + input / 4096), Tail(input / 64), Tail(input)]
    else [Byte(0xF0 + input / 262144), Tail(input / 4096), Tail(input / 64), Tail(input)]
  }

  /** The two encoders agree on every code point. */
  lemma EncodersAgree(cp: nat)
    requires cp <= MAX_CODE_POINT
    ensures Utf32ToUtf8(cp) == CodePointToUtf8(cp)
  {
  }

  lemma ShiftedIs(input: nat)
    ensures Shifted(input, 0) == input && Shifted(input, 1) == input / 64
    ensures Shifted(input, 2) == input / 4096 && Shifted(input, 3) == input / 262144
  {
    assert Shifted(input, 1) == input / 64;
    assert Shifted(input, 2) == input / 64 / 64;
    assert Shifted(input, 3) == input / 64 / 64 / 64;
    Sextets(input);
  }

  lemma SameByte(c: char, d: char)
    requires c as int == d as int
    ensures c == d
  {
  }

  /** The bytes shifted out one by one are those of the closed form. */
  lemma Utf8ByShifts(input: nat, length: nat, bytes: string)
    requires input < 0x200000 && |bytes| == length
    requires length == if input < 0x80 then 1 else if input < 0x800 then 2 else if input < 0x10000 then 3 else 4
    requires bytes[0] as int == FirstByteMark(length) + Shifted(input, length - 1)
    requires forall i :: 1 <= i < length ==> bytes[i] == Tail(Shifted(input, length - 1 - i))
    ensures bytes == Utf32ToUtf8(input)
  {
    ShiftedIs(input);
    var e := Utf32ToUtf8(input);
    assert |e| == length;
    assert forall i :: 1 <= i < length ==> bytes[i] == e[i];
    assert bytes[0] as int == e[0] as int;
    SameByte(bytes[0], e[0]);
  }

  /** ConvertUTF32ToUTF8: fills the output from its last byte down to the lead byte. */
  method ConvertUtf32ToUtf8(input: nat, output: array<char>) returns (length: nat)
    requires output.Length >= 4
    modifies output
    ensures length <= 4
    ensures length == 0 <==> input >= 0x200000
    ensures input < 0x200000 ==> output[..length] == Utf32ToUtf8(input)
    ensures forall i :: length <= i < output.Length ==> output[i] == old(output[i])
  {
    length := if input < 0x80 then 1 else if input < 0x800 then 2
              else if input < 0x10000 then 3 else if input < 0x200000 then 4 else 0;
    if length == 0 {
      return;
    }
    LeadByte(input, length);
    var rest, at := input, length;
    while at > 1
      invariant 1 <= at <= length
      invariant rest == Shifted(input, length - at)
      invariant forall i :: at <= i < length ==> output[i] == Tail(Shifted(input, length - 1 - i))
      invariant forall i :: length <= i < output.Length ==> output[i] == old(output[i])
    {
      at := at - 1;
      output[at] := Tail(rest);
      rest := rest / 64;
    }
    output[0] := Byte(FirstByteMark(length) + rest);
    Utf8ByShifts(input, length, output[..length]);
  }

  // ---------------------------------------------------------------- RFC 2781, section 2

  predicate IsHighSurrogate(u: nat) { 0xD800 <= u <= 0xDBFF }

  predicate IsLowSurrogate(u: nat) { 0xDC00 <= u <= 0xDFFF }

  /** decodeUnicodeCodePoint on two escapes: only the low ten bits of each matter. */
  function Combine(first: nat, second: nat): (cp: nat)
    ensures 0x10000 <= cp <= MAX_CODE_POINT
  {
    0x10000 + first % 1024 * 1024 + second % 1024
  }

  /** The surrogate pair of a code point beyond U+FFFF, by section 2.1 of RFC 2781. */
  function SurrogatePair(cp: nat): (nat, nat)
    requires 0x10000 <= cp <= MAX_CODE_POINT
  {
    (0xD800 + (cp - 0x10000) / 1024, 0xDC00 + (cp - 0x10000) % 1024)
  }

  /** Combine inverts the pair of every code point, and every proper pair is the pair of one. */
  lemma CombineInvertsPair(cp: nat, first: nat, second: nat)
    ensures 0x10000 <= cp <= MAX_CODE_POINT ==>
              IsHighSurrogate(SurrogatePair(cp).0) && IsLowSurrogate(SurrogatePair(cp).1) &&
              Combine(SurrogatePair(cp).0, SurrogatePair(cp).1) == cp
    ensures IsHighSurrogate(first) && IsLowSurrogate(second) ==>
              SurrogatePair(Combine(first, second)) == (first, second)
  {
  }
}
