/** TiXmlBase: the character-level methods, with positions in the text for char pointers. */
module XmlBase {
  import opened Options
  import opened Utf8
  import opened XmlText
  import opened XmlParser

  type Position = Option<nat>

  predicate InText(text: string, p: Position) { p.Some? ==> p.value <= |text| }

  /** What a pointer shows. */
  function At(text: string, p: Position): Pointer
    requires InText(text, p)
  {
    if p.None? then None else Some(text[p.value..])
  }

  lemma SliceGrows(text: string, p: nat, end: nat)
    requires p <= end < |text|
    ensures text[p..][..end + 1 - p] == text[p..][..end - p] + [text[end]]
  {
  }

  /** !p || !*p */
  predicate Over(text: string, p: Position) { p.None? || p.value >= |text| }

  lemma EncodePassed(text: string, str: string, i: nat, n: nat)
    requires i < |str| && HexReference(str[i..]) && n == PassLength(str[i..], 0)
    ensures text + Encode(str[i..]) == text + str[i..i + n] + Encode(str[i + n..])
  {
    hide PassLength;
    assert str[i..][..n] == str[i..i + n] && str[i..][n..] == str[i + n..];
    Associate(text, str[i..i + n], Encode(str[i + n..]));
  }

  lemma EncodeStep(text: string, str: string, i: nat)
    requires i < |str| && !HexReference(str[i..])
    ensures text + Encode(str[i..]) == text + EncodeChar(str[i]) + Encode(str[i + 1..])
  {
    hide PassLength, EncodeChar;
    assert str[i..][1..] == str[i + 1..];
    Associate(text, EncodeChar(str[i]), Encode(str[i + 1..]));
  }

  lemma IsHexReference(str: string, i: nat)
    requires i < |str|
    ensures HexReference(str[i..]) <==> str[i] == '&' && i + 2 < |str| && str[i + 1] == '#' && str[i + 2] == 'x'
  {
  }

  /** EncodeString */
  method EncodeString(str: string) returns (outString: string)
    ensures outString == Encode(str)
  {
    hide PassLength, EncodeChar, Encode, HexReference;
    outString := "";
    var i := 0;
    assert str[0..] == str && "" + Encode(str) == Encode(str);
    while i < |str|
      invariant 0 <= i <= |str|
      invariant outString + Encode(str[i..]) == Encode(str)
    {
      var c := str[i];
      IsHexReference(str, i);
      if c == '&' && i < |str| - 2 && str[i + 1] == '#' && str[i + 2] == 'x' {
        EncodePassed(outString, str, i, PassLength(str[i..], 0));
        outString, i := PassThrough(str, i, outString);
      } else {
        EncodeStep(outString, str, i);
        outString := AppendEncoded(outString, c);
        i := i + 1;
      }
    }
    assert str[i..] == "";
    EncodeOfEmpty();
    assert outString + "" == outString;
  }

  /** EncodeString's inner loop. */
  method PassThrough(str: string, start: nat, before: string) returns (outString: string, i: nat)
    requires start + 1 < |str|
    ensures start < i < |str|
    ensures i - start == PassLength(str[start..], 0)
    ensures outString == before + str[start..i]
  {
    outString, i := before, start;
    assert str[i..i] == "";
    var passing := true;
    while passing && i < |str| - 1
      invariant start <= i < |str| && outString == before + str[start..i]
      invariant i == start ==> passing
      invariant PassLength(str[start..], 0) == if passing then PassLength(str[start..], i - start) else i - start
      decreases passing, |str| - i
    {
      outString := outString + [str[i]];
      assert str[start..i + 1] == str[start..i] + [str[i]];
      i := i + 1;
      passing := str[i] != ';';
    }
  }

  method AppendEncoded(text: string, c: char) returns (outString: string)
    ensures outString == text + EncodeChar(c)
  {
    if c == '&' {
      outString := text + "&amp;";
    } else if c == '<' {
      outString := text + "&lt;";
    } else if c == '>' {
      outString := text + "&gt;";
    } else if c == '\"' {
      outString := text + "&quot;";
    } else if c == '\'' {
      outString := text + "&apos;";
    } else if c as int < 32 {
      var buf := "&#x" + [HexDigit(c as int / 16), HexDigit(c as int % 16)] + ";";
      outString := text + buf;
    } else {
      outString := text + [c];
    }
  }

  // ---------------------------------------------------------------- white space and names

  predicate MarkHere(text: string, i: nat) {
    i + 2 < |text| && text[i] as int == 0xEF &&
    ((text[i + 1] as int == 0xBB && text[i + 2] as int == 0xBF) ||
     (text[i + 1] as int == 0xBF && (text[i + 2] as int == 0xBE || text[i + 2] as int == 0xBF)))
  }

  lemma SkippedMark(text: string, i: nat)
    requires MarkHere(text, i)
    ensures i + 3 <= |text| && WhiteLength(Utf8Encoding, text[i..]) == 3 + WhiteLength(Utf8Encoding, text[i + 3..])
  {
    assert text[i..][3..] == text[i + 3..];
  }

  lemma SkippedWhite(enc: Encoding, text: string, i: nat)
    requires i < |text| && IsWhiteSpace(text[i])
    ensures WhiteLength(enc, text[i..]) == 1 + WhiteLength(enc, text[i + 1..])
  {
    assert text[i..][1..] == text[i + 1..];
  }

  lemma NothingSkipped(enc: Encoding, text: string, i: nat)
    requires i <= |text| && (i < |text| ==> !IsWhiteSpace(text[i]) && !(enc.Utf8Encoding? && MarkHere(text, i)))
    ensures WhiteLength(enc, text[i..]) == 0
  {
  }

  method SkipWhiteSpace(text: string, p: Position, enc: Encoding) returns (r: Position)
    requires InText(text, p)
    ensures InText(text, r) && At(text, r) == XmlText.SkipWhiteSpace(enc, At(text, p))
    ensures r.Some? ==> p.Some? && p.value <= r.value
  {
    hide WhiteLength, IsWhiteSpace, MarkHere;
    if Over(text, p) { return None; }
    var i := p.value;
    if enc.Utf8Encoding? {
      while i < |text|
        invariant p.value <= i <= |text|
        invariant i + WhiteLength(enc, text[i..]) == p.value + WhiteLength(enc, text[p.value..])
      {
        if MarkHere(text, i) {
          SkippedMark(text, i);
          i := i + 3;
          continue;
        } else if IsWhiteSpace(text[i]) {
          SkippedWhite(enc, text, i);
          i := i + 1;
        } else {
          break;
        }
      }
    } else {
      while i < |text| && IsWhiteSpace(text[i])
        invariant p.value <= i <= |text|
        invariant i + WhiteLength(enc, text[i..]) == p.value + WhiteLength(enc, text[p.value..])
      {
        SkippedWhite(enc, text, i);
        i := i + 1;
      }
    }
    NothingSkipped(enc, text, i);
    assert text[p.value..][i - p.value..] == text[i..];
    return Some(i);
  }

  method ReadName(text: string, p: Position) returns (name: string, r: Position)
    requires InText(text, p)
    ensures InText(text, r) && (name, At(text, r)) == XmlText.ReadName(At(text, p))
    ensures r.Some? ==> p.Some? && p.value < r.value
  {
    name := "";
    if !Over(text, p) && IsNameStart(text[p.value]) {
      var i := p.value;
      while i < |text| && IsNameChar(text[i])
        invariant p.value <= i <= |text|
        invariant i == p.value ==> IsNameChar(text[i])
        invariant i + NameLength(text[i..]) == p.value + NameLength(text[p.value..])
      {
        assert text[i..][1..] == text[i + 1..];
        i := i + 1;
      }
      assert text[p.value..][..i - p.value] == text[p.value..i];
      assert text[p.value..][i - p.value..] == text[i..];
      return text[p.value..i], Some(i);
    }
    return "", None;
  }

  /** StringEqual; it asserts that the pointer is not at the end of the text. */
  method StringEqual(text: string, p: nat, tag: string, ignoreCase: bool) returns (equal: bool)
    requires p < |text| && tag != ""
    ensures equal == if ignoreCase then StartsWithIgnoringCase(text[p..], tag) else tag <= text[p..]
  {
    var i := 0;
    if ignoreCase {
      while p + i < |text| && i < |tag| && Lower(text[p + i]) == Lower(tag[i])
        invariant 0 <= i <= |tag| && p + i <= |text|
        invariant forall j :: 0 <= j < i ==> Lower(text[p..][j]) == Lower(tag[j])
      {
        i := i + 1;
      }
    } else {
      while p + i < |text| && i < |tag| && text[p + i] == tag[i]
        invariant 0 <= i <= |tag| && p + i <= |text|
        invariant forall j :: 0 <= j < i ==> text[p..][j] == tag[j]
      {
        i := i + 1;
      }
      assert i == |tag| ==> text[p..][..|tag|] == tag;
    }
    assert i < |tag| && p + i < |text| ==> text[p..][i] == text[p + i];
    return i == |tag|;
  }

  // ---------------------------------------------------------------- entities and characters

  const ENTITIES: seq<(string, char)> :=
    [("&amp;", '&'), ("&lt;", '<'), ("&gt;", '>'), ("&quot;", '\"'), ("&apos;", '\'')]

  /** strchr from position i on. */
  method FindChar(text: string, i: nat, c: char) returns (k: nat)
    requires i <= |text|
    ensures k == i + IndexOf(text[i..], c)
  {
    k := i;
    while k < |text| && text[k] != c
      invariant i <= k <= |text|
      invariant k + IndexOf(text[k..], c) == i + IndexOf(text[i..], c)
    {
      assert text[k..][1..] == text[k + 1..];
      k := k + 1;
    }
  }

  /** The digits of a character reference, read backwards from position last to the mark. */
  method ReadDigits(text: string, p: nat, last: nat, mark: char, base: nat) returns (ucs: Option<nat>)
    requires p <= last < |text|
    requires exists i :: p <= i <= last && text[i] == mark
    ensures ucs == DigitsBack(text[p..], last - p, mark, base, 1, 0)
  {
    var s := text[p..];
    var q: nat, mult: nat, value: nat := last, 1, 0;
    while text[q] != mark
      invariant p <= q <= last && exists i :: p <= i <= q && text[i] == mark
      invariant DigitsBack(s, q - p, mark, base, mult, value) == DigitsBack(s, last - p, mark, base, 1, 0)
      decreases q
    {
      assert s[q - p] == text[q];
      var digit := DigitIn(base, text[q]);
      if digit.None? { return None; }
      value := value + mult * digit.value % TWO_32;
      mult := mult * base % TWO_32;
      q := q - 1;
    }
    assert s[q - p] == text[q];
    return Some(value);
  }

  /** GetEntity behind "&#" or "&#x"; at is the position of the mark. */
  method GetReference(text: string, p: nat, at: nat, mark: char, base: nat, enc: Encoding)
    returns (value: string, r: Position)
    requires p <= at && at + 1 < |text| && text[at] == mark
    ensures InText(text, r) && Got(value, At(text, r)) == NumericEntity(enc, text[p..], at - p, mark, base)
    ensures r.Some? ==> p < r.value
  {
    hide DigitsBack, CodeText, IndexOf;
    assert text[p..][at + 1 - p..] == text[at + 1..];
    var q := FindChar(text, at + 1, ';');
    if q == |text| { return "", None; }
    var ucs := ReadDigits(text, p, q - 1, mark, base);
    if ucs.None? { return "", None; }
    assert text[p..][q + 1 - p..] == text[q + 1..];
    value := CodeToText(ucs.value, enc);
    return value, Some(q + 1);
  }

  method CodeToText(ucs: nat, enc: Encoding) returns (value: string)
    ensures value == CodeText(enc, ucs)
  {
    if enc.Utf8Encoding? {
      var buffer := new char[4](_ => '\0');
      var length := ConvertUtf32ToUtf8(ucs, buffer);
      value := buffer[..length];
    } else {
      value := [Byte(ucs % 256)];
    }
  }

  method GetEntity(text: string, p: nat, enc: Encoding) returns (value: string, r: Position)
    requires p < |text| && text[p] == '&'
    ensures InText(text, r) && Got(value, At(text, r)) == XmlText.GetEntity(enc, text[p..])
    ensures r.Some? ==> p < r.value
  {
    hide NumericEntity;
    if p + 2 < |text| && text[p + 1] == '#' {
      if text[p + 2] == 'x' {
        if p + 3 == |text| { return "", None; }
        value, r := GetReference(text, p, p + 2, 'x', 16, enc);
      } else {
        value, r := GetReference(text, p, p + 1, '#', 10, enc);
      }
      return;
    }
    value, r := GetNamedEntity(text, p);
    NamedEntities(text[p..]);
  }

  /** The characters of the five entities, and the ampersand dropped from anything else. */
  function NamedEntity(s: string, i: nat): Got
    requires i <= 5 && s != ""
    decreases 5 - i
  {
    if i == 5 then Got("", Some(s[1..]))
    else if ENTITIES[i].0 <= s then Got([ENTITIES[i].1], Some(s[|ENTITIES[i].0|..]))
    else NamedEntity(s, i + 1)
  }

  lemma NamedEntities(s: string)
    requires s != "" && s[0] == '&' && !(|s| > 2 && s[1] == '#')
    ensures NamedEntity(s, 0) == XmlText.GetEntity(LegacyEncoding, s) == XmlText.GetEntity(Utf8Encoding, s)
         == XmlText.GetEntity(UnknownEncoding, s)
  {
    assert NamedEntity(s, 5) == Got("", Some(s[1..]));
    assert NamedEntity(s, 3) == if "&quot;" <= s then Got("\"", Some(s[6..])) else NamedEntity(s, 4);
    assert NamedEntity(s, 1) == if "&lt;" <= s then Got("<", Some(s[4..])) else NamedEntity(s, 2);
  }

  method GetNamedEntity(text: string, p: nat) returns (value: string, r: Position)
    requires p < |text|
    ensures InText(text, r) && Got(value, At(text, r)) == NamedEntity(text[p..], 0)
    ensures r.Some? ==> p < r.value
  {
    var i := 0;
    while i < 5
      invariant 0 <= i <= 5 && NamedEntity(text[p..], i) == NamedEntity(text[p..], 0)
    {
      var n := |ENTITIES[i].0|;
      assert n > 1;
      if p + n <= |text| && text[p..p + n] == ENTITIES[i].0 {
        assert text[p..][..n] == text[p..p + n] && text[p..][n..] == text[p + n..];
        return [ENTITIES[i].1], Some(p + n);
      }
      assert !(ENTITIES[i].0 <= text[p..]) by {
        if p + n <= |text| { assert text[p..][..n] == text[p..p + n]; }
      }
      i := i + 1;
    }
    assert text[p..][1..] == text[p + 1..];
    return "", Some(p + 1);
  }

  method GetChar(text: string, p: nat, enc: Encoding) returns (value: string, r: Position)
    requires p < |text|
    ensures InText(text, r) && Got(value, At(text, r)) == XmlText.GetChar(enc, text[p..])
    ensures r.Some? ==> p < r.value
  {
    hide XmlText.GetEntity;
    var length := if enc.Utf8Encoding? then ByteTable(text[p]) else 1;
    if length == 1 {
      if text[p] == '&' {
        value, r := GetEntity(text, p, enc);
        return;
      }
      assert text[p..][1..] == text[p + 1..];
      return [text[p]], Some(p + 1);
    }
    value := "";
    var i := 0;
    while p + i < |text| && i < length
      invariant 0 <= i <= length && p + i <= |text| && value == text[p..p + i]
    {
      value := value + [text[p + i]];
      i := i + 1;
    }
    assert text[p..][..i] == text[p..p + i] && text[p..][i..] == text[p + i..];
    return value, Some(p + i);
  }

  // ---------------------------------------------------------------- ReadText

  /** The loop of ReadText that keeps all white space. */
  method KeepText(text: string, p: Position, endTag: string, enc: Encoding) returns (value: string, r: Position)
    requires InText(text, p) && endTag != ""
    ensures InText(text, r) && Got(value, At(text, r)) == XmlText.KeepText(enc, At(text, p), endTag)
    ensures !Over(text, r) ==> endTag <= text[r.value..]
  {
    hide XmlText.GetChar;
    value, r := "", p;
    ghost var all := XmlText.KeepText(enc, At(text, p), endTag);
    while !Over(text, r)
      invariant InText(text, r)
      invariant all == Prefixed(value, XmlText.KeepText(enc, At(text, r), endTag))
      decreases if r.Some? then |text| + 1 - r.value else 0
    {
      var atEnd := StringEqual(text, r.value, endTag, false);
      if atEnd { break; }
      var c, next := GetChar(text, r.value, enc);
      PrefixedTwice(value, c, XmlText.KeepText(enc, At(text, next), endTag));
      value, r := value + c, next;
    }
  }

  function Prefixed(text: string, g: Got): Got { Got(text + g.text, g.p) }

  lemma PrefixedTwice(a: string, b: string, g: Got)
    ensures Prefixed(a, Prefixed(b, g)) == Prefixed(a + b, g)
    ensures Prefixed("", g) == g
  {
    Associate(a, b, g.text);
    assert "" + g.text == g.text;
  }

  /** The loop of ReadText that condenses white space. */
  method CondenseText(text: string, p: Position, endTag: string, enc: Encoding) returns (value: string, r: Position)
    requires InText(text, p) && endTag != ""
    ensures InText(text, r) && Got(value, At(text, r)) == XmlText.CondenseText(enc, At(text, p), endTag, false)
    ensures !Over(text, r) ==> endTag <= text[r.value..]
  {
    hide XmlText.GetChar, IsWhiteSpace;
    var whitespace := false;
    value, r := "", p;
    ghost var all := XmlText.CondenseText(enc, At(text, p), endTag, false);
    PrefixedTwice("", "", all);
    while !Over(text, r)
      invariant InText(text, r)
      invariant all == Prefixed(value, XmlText.CondenseText(enc, At(text, r), endTag, whitespace))
      decreases if r.Some? then |text| + 1 - r.value else 0
    {
      var atEnd := StringEqual(text, r.value, endTag, false);
      if atEnd { break; }
      if IsWhiteSpace(text[r.value]) {
        assert text[r.value..][1..] == text[r.value + 1..];
        whitespace := true;
        r := Some(r.value + 1);
      } else {
        ghost var before, blank := value, if whitespace then " " else "";
        if whitespace {
          value := value + " ";
          whitespace := false;
        }
        var c, next := GetChar(text, r.value, enc);
        PrefixedTwice(before, blank + c, XmlText.CondenseText(enc, At(text, next), endTag, false));
        assert before + (blank + c) == value + c;
        value, r := value + c, next;
      }
    }
  }

  method ReadText(text: string, p: Position, trimWhiteSpace: bool, endTag: string, enc: Encoding, condense: bool)
    returns (value: string, r: Position)
    requires InText(text, p) && endTag != ""
    ensures InText(text, r)
    ensures Got(value, At(text, r)) == XmlText.ReadText(enc, At(text, p), !trimWhiteSpace || !condense, endTag)
    ensures r.Some? ==> r.value >= |endTag| && text[r.value - |endTag|..] == endTag + text[r.value..]
  {
    hide XmlText.KeepText, XmlText.CondenseText, XmlText.SkipWhiteSpace;
    if !trimWhiteSpace || !condense {
      value, r := KeepText(text, p, endTag, enc);
    } else {
      var q := SkipWhiteSpace(text, p, enc);
      value, r := CondenseText(text, q, endTag, enc);
    }
    if !Over(text, r) {
      assert text[r.value..][|endTag|..] == text[r.value + |endTag|..];
      r := Some(r.value + |endTag|);
    }
    if Over(text, r) { r := None; }
  }
}
