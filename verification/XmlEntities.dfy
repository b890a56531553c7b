/** When reading undoes EncodeString: exactly for the strings in which no hexadecimal character
    reference seems to start, because EncodeString passes such a reference through. */
module XmlEntities {
  import opened Options
  import opened XmlText

  /** "&#x41;" is written as it is and read back as "A". */
  lemma PassedReferenceIsDecoded(enc: Encoding, quote: char, rest: string)
    requires IsDelimiter(quote)
    ensures Encode("&#x41;") == "&#x41;"
    ensures GetChar(enc, Encode("&#x41;") + ([quote] + rest)) == Got("A", Some([quote] + rest))
  {
    var s := "&#x41;";
    assert PassLength(s, 0) == PassLength(s, 1) == PassLength(s, 2) == PassLength(s, 3) == PassLength(s, 4) == 5;
    assert s[..5] == "&#x41" && s[5..] == ";" && Encode(";") == EncodeChar(';') + Encode("");
    var u := s + ([quote] + rest);
    assert u[6..] == [quote] + rest;
    SemicolonThird(u[3..]);
    HexDigitStep(u, 4, 1, 0, 1);
    HexDigitStep(u, 3, 16, 1, 4);
    DigitsEnd(u, 2, 256, 65);
  }

  // ---------------------------------------------------------------- a passed reference

  lemma {:induction false} PassedUpTo(s: string, from: nat)
    requires from < |s|
    ensures var n := PassLength(s, from);
            (forall i :: from < i < n ==> s[i] != ';') && (n == from || n == |s| - 1 || s[n] == ';')
    decreases |s| - from
  {
    if from + 1 < |s| && s[from + 1] != ';' { PassedUpTo(s, from + 1); }
  }

  lemma {:induction false} FirstIndex(s: string, c: char, k: nat)
    requires k <= |s| && (forall i :: 0 <= i < k ==> s[i] != c) && (k < |s| ==> s[k] == c)
    ensures IndexOf(s, c) == k
  {
  }

  lemma CodeTextLength(enc: Encoding, ucs: nat)
    ensures |CodeText(enc, ucs)| <= 4 && (ucs < 0x80 ==> |CodeText(enc, ucs)| == 1)
  {
  }

  /** What a passed reference at the start of s is read as: nothing, a character with the pointer
      past the quote, or fewer characters than s has up to some position k. */
  ghost predicate IsShortened(enc: Encoding, s: string, t: string, g: Got) {
    g.p.None? || |g.p.value| < |t| ||
    exists k: nat :: k <= |s| && |g.text| < k && WholeSequences(enc, s[k..]) && g.p == Some(Encode(s[k..]) + t)
  }

  lemma ShortenedTo(enc: Encoding, s: string, t: string, g: Got, k: nat)
    requires k <= |s| && |g.text| < k && WholeSequences(enc, s[k..]) && g.p == Some(Encode(s[k..]) + t)
    ensures IsShortened(enc, s, t, g)
  {
  }

  lemma ReferenceIsShortened(enc: Encoding, s: string, t: string)
    requires HexReference(s) && WholeSequences(enc, s) && t != "" && IsDelimiter(t[0])
    ensures IsShortened(enc, s, t, GetChar(enc, Encode(s) + t))
  {
    hide IsShortened, WholeSequences, Encode, NumericEntity;
    var n := PassLength(s, 0);
    var u := Encode(s) + t;
    PassedUpTo(s, 0);
    PassedStart(s, t, n);
    assert GetChar(enc, u) == NumericEntity(enc, u, 2, 'x', 16);
    if s[n] == ';' {
      ClosedReference(enc, s, t, n);
    } else {
      OpenReference(enc, s, t, n);
    }
  }

  /** The encoding of s up to where the reference ends. */
  lemma PassedStart(s: string, t: string, n: nat)
    requires HexReference(s) && n == PassLength(s, 0) && t != ""
    ensures 2 <= n && Encode(s) + t == s[..n] + (Encode(s[n..]) + t)
    ensures var u := Encode(s) + t; |u| > 3 && u[0] == '&' && u[1] == '#' && u[2] == 'x'
  {
    assert PassLength(s, 0) == PassLength(s, 1);
    assert s[0] == '&' && s[1] == '#' && s[2] == 'x';
    Associate(s[..n], Encode(s[n..]), t);
    EncodeIsNotEmpty(s[n..]);
    if n == 2 { PlainFirst(s[2..]); }
  }

  lemma EncodeIsNotEmpty(s: string)
    requires s != ""
    ensures Encode(s) != ""
  {
    if HexReference(s) {
      assert PassLength(s, 0) == PassLength(s, 1);
    }
  }

  lemma PlainFirst(s: string)
    requires s != "" && s[0] == 'x'
    ensures Encode(s) != "" && Encode(s)[0] == 'x'
  {
  }

  /** A sequence boundary follows every ASCII character. */
  lemma {:induction false} WholeAfterAscii(enc: Encoding, s: string, k: nat)
    requires WholeSequences(enc, s) && 0 < k <= |s| && s[k - 1] as int < 0x80
    ensures WholeSequences(enc, s[k..])
  {
    var n := SequenceLength(enc, s[0]);
    if k > n {
      assert s[n..][k - n - 1] == s[k - 1];
      WholeAfterAscii(enc, s[n..], k - n);
      assert s[n..][k - n..] == s[k..];
    }
  }

  lemma ClosedReference(enc: Encoding, s: string, t: string, n: nat)
    requires HexReference(s) && WholeSequences(enc, s) && 2 <= n < |s| && s[n] == ';'
    requires (forall i :: 0 < i < n ==> s[i] != ';')
    requires |Encode(s) + t| > 3 && (Encode(s) + t)[2] == 'x'
    requires Encode(s) + t == s[..n] + (Encode(s[n..]) + t)
    ensures IsShortened(enc, s, t, NumericEntity(enc, Encode(s) + t, 2, 'x', 16))
  {
    hide IsShortened, WholeSequences, Encode, CodeText, DigitsBack, IndexOf;
    var u, rest := Encode(s) + t, Encode(s[n + 1..]) + t;
    SemicolonIsCopied(s[n..], t);
    assert s[n..][1..] == s[n + 1..];
    assert u == s[..n] + ([';'] + rest);
    assert s[2] == 'x' && n > 2;
    assert forall i :: 0 <= i < n - 3 ==> u[3..][i] == s[3 + i];
    FirstIndex(u[3..], ';', n - 3);
    assert u[n + 1..] == rest;
    WholeAfterAscii(enc, s, n + 1);
    var ucs := DigitsBack(u, n - 1, 'x', 16, 1, 0);
    if ucs.None? {
      NullIsShortened(enc, s, t, Got("", None));
    } else {
      CodeTextLength(enc, ucs.value);
      if n == 3 { DigitsEnd(u, 2, 1, 0); }
      ShortenedTo(enc, s, t, Got(CodeText(enc, ucs.value), Some(rest)), n + 1);
    }
  }

  lemma NullIsShortened(enc: Encoding, s: string, t: string, g: Got)
    requires g.p.None? || |g.p.value| < |t|
    ensures IsShortened(enc, s, t, g)
  {
  }

  lemma SemicolonIsCopied(s: string, t: string)
    requires s != "" && s[0] == ';'
    ensures Encode(s) + t == [';'] + (Encode(s[1..]) + t)
  {
    assert EncodeChar(';') == ";";
    Associate(";", Encode(s[1..]), t);
  }

  lemma OneChar(c: char)
    ensures Encode([c]) == EncodeChar(c)
  {
    assert [c][1..] == "";
    EncodeOfEmpty();
  }

  /** No semicolon ends the reference in s itself. */
  lemma OpenReference(enc: Encoding, s: string, t: string, n: nat)
    requires HexReference(s) && 2 <= n == |s| - 1 && t != "" && IsDelimiter(t[0])
    requires (forall i :: 0 < i <= n ==> s[i] != ';')
    requires |Encode(s) + t| > 3 && (Encode(s) + t)[2] == 'x'
    requires Encode(s) + t == s[..n] + (Encode(s[n..]) + t)
    ensures IsShortened(enc, s, t, NumericEntity(enc, Encode(s) + t, 2, 'x', 16))
  {
    hide IsShortened, Encode, CodeText, DigitsBack, IndexOf, EncodeChar;
    var u, c := Encode(s) + t, s[n];
    assert s[n..] == [c];
    OneChar(c);
    var e := EncodeChar(c);
    assert u == s[..n] + (e + t);
    if e == [c] {
      var k := IndexOf(u[3..], ';');
      assert u == s + t;
      assert forall i :: 0 <= i < |s| - 3 ==> u[3..][i] == s[3 + i];
      assert |s| >= 3 && u[3..][|s| - 3] == t[0];
      NullIsShortened(enc, s, t, NumericEntity(enc, u, 2, 'x', 16));
    } else {
      assert n > 2 by { if n == 2 { assert s[2] == 'x'; PlainX(); } }
      LastIsEscaped(enc, s, t, n, u);
    }
  }

  lemma PlainX()
    ensures EncodeChar('x') == "x"
  {
  }

  lemma EscapeShape(c: char)
    requires EncodeChar(c) != [c]
    ensures var e := EncodeChar(c);
            |e| >= 4 && e[|e| - 1] == ';' && (forall i :: 0 <= i < |e| - 1 ==> e[i] != ';') &&
            (c as int >= 32 ==> e[|e| - 2] != 'x' && DigitIn(16, e[|e| - 2]).None?) &&
            (c as int < 32 ==> |e| == 6 && e[2] == 'x' && e[3] == HexDigit(c as int / 16) && e[4] == HexDigit(c as int % 16))
  {
    if c as int < 32 {
      HexDigitValue(c as int / 16);
      HexDigitValue(c as int % 16);
    }
  }

  /** The escape of the last character ends the reference. */
  lemma LastIsEscaped(enc: Encoding, s: string, t: string, n: nat, u: string)
    requires 3 <= n == |s| - 1 && u == s[..n] + (EncodeChar(s[n]) + t) && EncodeChar(s[n]) != [s[n]]
    requires (forall i :: 0 < i <= n ==> s[i] != ';')
    requires |u| > 3 && u[2] == 'x'
    ensures IsShortened(enc, s, t, NumericEntity(enc, u, 2, 'x', 16))
  {
    hide IsShortened, CodeText, DigitsBack, IndexOf, EncodeChar, DigitIn, HexDigit;
    var c := s[n];
    var e := EncodeChar(c);
    EscapeShape(c);
    var m := n + |e| - 1;
    assert forall i :: 0 <= i < |e| ==> u[n + i] == e[i];
    assert forall i :: 0 <= i < n ==> u[i] == s[i];
    assert forall i :: 0 <= i < m - 3 ==> u[3..][i] != ';' by {
      forall i | 0 <= i < m - 3 ensures u[3..][i] != ';' {
        assert u[3..][i] == if 3 + i < n then s[3 + i] else e[3 + i - n];
      }
    }
    FirstIndex(u[3..], ';', m - 3);
    assert u[m + 1..] == t;
    assert u[m - 1] == e[|e| - 2];
    if c as int >= 32 {
      NoDigit(u, m - 1);
      NullIsShortened(enc, s, t, Got("", None));
    } else {
      var h, l := c as int / 16, c as int % 16;
      HexDigitValue(h);
      HexDigitValue(l);
      HexDigitStep(u, m - 1, 1, 0, l);
      HexDigitStep(u, m - 2, 16, l, h);
      DigitsEnd(u, m - 3, 256, l + 16 * h);
      CodeTextLength(enc, c as int);
      EncodeOfEmpty();
      assert s[|s|..] == "" && "" + t == t;
      ShortenedTo(enc, s, t, Got(CodeText(enc, c as int), Some(t)), |s|);
    }
  }

  lemma NoDigit(s: string, q: nat)
    requires q < |s| && s[q] != 'x' && DigitIn(16, s[q]).None?
    ensures DigitsBack(s, q, 'x', 16, 1, 0).None?
  {
  }

  // ---------------------------------------------------------------- the exact condition

  lemma ReferenceBehind(enc: Encoding, s: string, n: nat)
    requires s != "" && n == SequenceLength(enc, s[0]) <= |s| && WholeSequences(enc, s)
    requires !HexReference(s) && !NoHexReference(s)
    ensures !NoHexReference(s[n..])
  {
    var i :| 0 <= i < |s| && HexReference(s[i..]);
    assert s[0..] == s;
    assert s[i] == '&' && i >= n;
    assert s[n..][i - n..] == s[i..];
  }

  /** If reading stops at the quote, it returns at most the length of s, and less if a reference
      was passed through. */
  lemma {:induction false} ReadIsNoLonger(enc: Encoding, s: string, quote: char, rest: string)
    requires WholeSequences(enc, s) && IsDelimiter(quote)
    ensures var t := [quote] + rest;
            var g := KeepText(enc, Some(Encode(s) + t), [quote]);
            g.p == Some(t) ==> |g.text| <= |s| && (!NoHexReference(s) ==> |g.text| < |s|)
    decreases |s|
  {
    hide GetChar, WholeSequences, Encode, NoHexReference, HexReference, IsShortened;
    var t := [quote] + rest;
    if s == "" {
      EncodeOfEmpty();
      assert "" + t == t;
      NothingToRefer();
    } else if HexReference(s) {
      ReferenceIsShortened(enc, s, t);
      PassedStart(s, t, PassLength(s, 0));
      ReferenceIsNoLonger(enc, s, quote, rest);
    } else {
      var n := SequenceLength(enc, s[0]);
      SequenceIsRead(enc, s, t);
      EncodedStart(enc, s, t);
      ReadIsNoLonger(enc, s[n..], quote, rest);
      if !NoHexReference(s) { ReferenceBehind(enc, s, n); }
    }
  }

  lemma NothingToRefer()
    ensures NoHexReference("")
  {
  }

  lemma ReferenceIsNoLonger(enc: Encoding, s: string, quote: char, rest: string)
    requires WholeSequences(enc, s) && IsDelimiter(quote)
    requires var u := Encode(s) + ([quote] + rest);
             u != "" && u[0] == '&' && IsShortened(enc, s, [quote] + rest, GetChar(enc, u))
    ensures var t := [quote] + rest;
            var g := KeepText(enc, Some(Encode(s) + t), [quote]);
            g.p == Some(t) ==> |g.text| < |s|
    decreases |s|, 0
  {
    hide GetChar, WholeSequences, Encode, NoHexReference;
    var t := [quote] + rest;
    var c := GetChar(enc, Encode(s) + t);
    assert !([quote] <= Encode(s) + t);
    if c.p.Some? && |c.p.value| >= |t| {
      var k: nat :| k <= |s| && |c.text| < k && WholeSequences(enc, s[k..]) && c.p == Some(Encode(s[k..]) + t);
      ReadIsNoLonger(enc, s[k..], quote, rest);
    }
  }

  /** Reading without trimming undoes EncodeString, and stops just behind the quote, exactly for
      the strings without a hexadecimal reference. */
  lemma EntityRoundTripExactly(enc: Encoding, s: string, quote: char, rest: string)
    requires WholeSequences(enc, s) && IsDelimiter(quote) && rest != ""
    ensures ReadText(enc, Some(Encode(s) + ([quote] + rest)), true, [quote]) == Got(s, Some(rest))
            <==> NoHexReference(s)
  {
    hide KeepText, NoHexReference, WholeSequences, Encode;
    if NoHexReference(s) {
      EntityRoundTrip(enc, s, quote, rest);
    } else {
      ReadIsNoLonger(enc, s, quote, rest);
      var t := [quote] + rest;
      var g := KeepText(enc, Some(Encode(s) + t), [quote]);
      KeepStopsAtMark(enc, Some(Encode(s) + t), [quote]);
      if g.p.Some? && |g.p.value| > 1 && g.p.value[1..] == rest {
        assert g.p.value == t;
      }
    }
  }

  lemma {:induction false} KeepStopsAtMark(enc: Encoding, p: Pointer, end: string)
    ensures var g := KeepText(enc, p, end); g.p.Some? && g.p.value != "" ==> end <= g.p.value
    decreases if p.Some? then |p.value| + 1 else 0
  {
    hide GetChar;
    if p.Some? && p.value != "" && !(end <= p.value) {
      KeepStopsAtMark(enc, GetChar(enc, p.value).p, end);
    }
  }
}
