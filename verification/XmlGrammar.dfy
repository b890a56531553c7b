/** The texts TinyXML takes for markup, as trees with their spelling and the node they stand for.
    The trees are told apart from the parser; it is proved that the parser reads every such text as
    its node, and that it reports an error on every other text. */
module XmlGrammar {
  import opened Options
  import opened CString
  import opened XmlText
  import opened XmlParser
  import opened XmlCharacters
  import opened XmlWellFormed

  // ---------------------------------------------------------------- white space

  predicate IsWhite(c: char) { c as int == 0x20 || 9 <= c as int <= 13 }

  /** U+FEFF, U+FFFE or U+FFFF in UTF-8. */
  predicate IsBom(s: string) {
    |s| >= 3 && [s[0] as int, s[1] as int, s[2] as int] in [[0xEF, 0xBB, 0xBF], [0xEF, 0xBF, 0xBE], [0xEF, 0xBF, 0xBF]]
  }

  predicate StartsGap(enc: Encoding, s: string) {
    s != "" && (IsWhite(s[0]) || (enc.Utf8Encoding? && IsBom(s)))
  }

  /** What may stand between two parts of a markup: white space, and in UTF-8 byte order marks. */
  predicate IsGap(enc: Encoding, s: string) {
    if s == "" then true
    else if IsWhite(s[0]) then IsGap(enc, s[1..])
    else enc.Utf8Encoding? && IsBom(s) && IsGap(enc, s[3..])
  }

  lemma BomIsMark(s: string)
    ensures IsBom(s) <==> IsSkippedMark(s)
    ensures IsBom(s) ==> |s| >= 3 && s[0] as int == 0xEF && s[1] as int >= 0x80 && s[2] as int >= 0x80
  {
  }

  lemma BomAhead(s: string, t: string)
    requires IsBom(s)
    ensures IsBom(s + t)
  {
    assert (s + t)[0] == s[0] && (s + t)[1] == s[1] && (s + t)[2] == s[2];
  }

  lemma {:induction false} GapIsPassed(enc: Encoding, gap: string, rest: string)
    requires IsGap(enc, gap) && !StartsGap(enc, rest)
    ensures WhiteLength(enc, gap + rest) == |gap|
    decreases |gap|
  {
    hide IsBom, IsSkippedMark;
    var s := gap + rest;
    BomIsMark(s);
    if gap == "" {
      assert s == rest;
    } else if IsWhite(gap[0]) {
      assert s[1..] == gap[1..] + rest;
      GapIsPassed(enc, gap[1..], rest);
    } else {
      BomIsMark(gap);
      BomAhead(gap, rest);
      assert s[3..] == gap[3..] + rest;
      GapIsPassed(enc, gap[3..], rest);
    }
  }

  lemma {:induction false} PassedIsGap(enc: Encoding, s: string)
    ensures IsGap(enc, s[..WhiteLength(enc, s)]) && !StartsGap(enc, s[WhiteLength(enc, s)..])
    decreases |s|
  {
    hide IsBom, IsSkippedMark;
    BomIsMark(s);
    var n := WhiteLength(enc, s);
    if s != "" && enc.Utf8Encoding? && IsSkippedMark(s) {
      PassedIsGap(enc, s[3..]);
      var inner := s[3..][..n - 3];
      assert s[..n] == s[..3] + inner && s[..n][3..] == inner && s[n..] == s[3..][n - 3..];
      assert IsBom(s[..n]) by { BomOfPrefix(s, n); }
    } else if s != "" && IsWhiteSpace(s[0]) {
      PassedIsGap(enc, s[1..]);
      assert s[..n][1..] == s[1..][..n - 1] && s[n..] == s[1..][n - 1..];
    } else {
      assert s[..0] == "" && s[0..] == s;
    }
  }

  lemma BomOfPrefix(s: string, n: nat)
    requires IsBom(s) && 3 <= n <= |s|
    ensures IsBom(s[..n]) && !IsWhite(s[0])
  {
  }

  /** SkipWhiteSpace passes exactly a gap. */
  lemma SkipGap(enc: Encoding, gap: string, rest: string)
    requires IsGap(enc, gap) && !StartsGap(enc, rest) && gap + rest != ""
    ensures SkipWhiteSpace(enc, Some(gap + rest)) == Some(rest)
  {
    hide IsGap, StartsGap, WhiteLength;
    GapIsPassed(enc, gap, rest);
    assert (gap + rest)[|gap|..] == rest;
  }

  lemma Skipped(enc: Encoding, s: string) returns (gap: string, rest: string)
    requires s != ""
    ensures IsGap(enc, gap) && !StartsGap(enc, rest) && s == gap + rest
    ensures SkipWhiteSpace(enc, Some(s)) == Some(rest)
  {
    hide IsGap, StartsGap, WhiteLength;
    PassedIsGap(enc, s);
    gap, rest := s[..WhiteLength(enc, s)], s[WhiteLength(enc, s)..];
  }

  // ---------------------------------------------------------------- names

  predicate StartsName(c: char) { 'a' <= c <= 'z' || 'A' <= c <= 'Z' || c as int >= 127 || c == '_' }

  predicate InName(c: char) { StartsName(c) || '0' <= c <= '9' || c == '-' || c == '.' || c == ':' }

  predicate IsName(s: string) { s != "" && StartsName(s[0]) && forall i :: 0 <= i < |s| ==> InName(s[i]) }

  /** A name ends here. */
  predicate NameEnds(rest: string) { rest == "" || !InName(rest[0]) }

  lemma {:induction false} NameLengthIs(name: string, rest: string)
    requires (forall i :: 0 <= i < |name| ==> InName(name[i])) && NameEnds(rest)
    ensures NameLength(name + rest) == |name|
  {
    if name == "" {
      assert name + rest == rest;
    } else {
      assert (name + rest)[1..] == name[1..] + rest;
      NameLengthIs(name[1..], rest);
    }
  }

  lemma NameIsRead(name: string, rest: string)
    requires IsName(name) && NameEnds(rest)
    ensures ReadName(Some(name + rest)) == (name, Some(rest))
  {
    NameLengthIs(name, rest);
    assert (name + rest)[..|name|] == name && (name + rest)[|name|..] == rest;
  }

  lemma ReadIsName(s: string) returns (name: string, rest: string)
    requires ReadName(Some(s)).1.Some?
    ensures IsName(name) && NameEnds(rest) && s == name + rest && ReadName(Some(s)) == (name, Some(rest))
  {
    name, rest := s[..NameLength(s)], s[NameLength(s)..];
  }

  /** A name that starts no gap starts none with what follows it. */
  lemma NameIsNoGap(enc: Encoding, name: string, rest: string)
    requires IsName(name) && NameEnds(rest)
    ensures StartsGap(enc, name + rest) == StartsGap(enc, name)
  {
    hide IsBom;
    var s := name + rest;
    if IsBom(name) { BomAhead(name, rest); }
    if IsBom(s) {
      BomIsMark(s);
      BomIsMark(name);
      assert IsSkippedMark(name) <==> IsSkippedMark(s) by { assert s[0] == name[0] && s[1] == name[1] && s[2] == name[2]; }
    }
  }

  // ---------------------------------------------------------------- runs of characters

  function RunText(ws: seq<Written>): string {
    if ws == [] then "" else WrittenText(ws[0]) + RunText(ws[1..])
  }

  function RunValue(enc: Encoding, ws: seq<Written>): string {
    if ws == [] then "" else WrittenValue(enc, ws[0]) + RunValue(enc, ws[1..])
  }

  /** In front of this rest, characters none of which starts with the end mark. */
  predicate IsRun(enc: Encoding, ws: seq<Written>, end: char, rest: string) {
    ws == [] ||
    (WrittenText(ws[0]) != "" && WrittenText(ws[0])[0] != end && IsWritten(enc, ws[0], RunText(ws[1..]) + rest) &&
     IsRun(enc, ws[1..], end, rest))
  }

  lemma {:induction false} RunIsKept(enc: Encoding, ws: seq<Written>, end: char, rest: string)
    requires IsRun(enc, ws, end, rest) && rest != "" && rest[0] == end
    ensures KeepText(enc, Some(RunText(ws) + rest), [end]) == Got(RunValue(enc, ws), Some(rest))
    decreases |ws|
  {
    hide GetChar, WrittenText, WrittenValue, IsWritten;
    var s := RunText(ws) + rest;
    if ws == [] {
      assert s == rest && [end] <= rest;
    } else {
      var t := RunText(ws[1..]) + rest;
      assert s == WrittenText(ws[0]) + t;
      WrittenIsRead(enc, ws[0], t);
      RunIsKept(enc, ws[1..], end, rest);
    }
  }

  lemma {:induction false} KeptIsRun(enc: Encoding, s: string, end: char) returns (ws: seq<Written>, rest: string)
    requires var g := KeepText(enc, Some(s), [end]); g.p.Some? && g.p.value != ""
    ensures IsRun(enc, ws, end, rest) && s == RunText(ws) + rest && rest != "" && rest[0] == end
    decreases |s|
  {
    hide GetChar, WrittenText, WrittenValue, IsWritten, IsRun, RunText;
    if [end] <= s {
      ws, rest := [], s;
      NoRun(enc, end, rest);
    } else {
      var w, t := ReadIsWritten(enc, s);
      var more;
      more, rest := KeptIsRun(enc, t, end);
      RunOfFirst(enc, w, more, end, rest);
      ws := [w] + more;
    }
  }

  lemma NoRun(enc: Encoding, end: char, rest: string)
    ensures IsRun(enc, [], end, rest) && RunText([]) + rest == rest
  {
  }

  lemma RunOfFirst(enc: Encoding, w: Written, more: seq<Written>, end: char, rest: string)
    requires IsWritten(enc, w, RunText(more) + rest) && IsRun(enc, more, end, rest)
    requires var s := WrittenText(w) + (RunText(more) + rest); s != "" && !([end] <= s)
    ensures IsRun(enc, [w] + more, end, rest) && RunText([w] + more) + rest == WrittenText(w) + (RunText(more) + rest)
  {
    hide WrittenText, IsWritten;
    NotEmpty(enc, w, RunText(more) + rest);
    assert ([w] + more)[1..] == more;
    assert (WrittenText(w) + (RunText(more) + rest))[0] == WrittenText(w)[0];
    Associate(WrittenText(w), RunText(more), rest);
  }

  lemma NotEmpty(enc: Encoding, w: Written, t: string)
    requires IsWritten(enc, w, t)
    ensures WrittenText(w) != ""
  {
  }

  // ---------------------------------------------------------------- white space in a run

  predicate IsWhiteWritten(w: Written) { w.Plain? && |w.bytes| == 1 && IsWhite(w.bytes[0]) }

  predicate AllWhiteWritten(ws: seq<Written>) { forall i :: 0 <= i < |ws| ==> IsWhiteWritten(ws[i]) }

  /** With white space condensed: none at the ends, and one blank for every stretch between. */
  function CondensedValue(enc: Encoding, ws: seq<Written>): string
    decreases |ws|, 0
  {
    if ws == [] then ""
    else if IsWhiteWritten(ws[0]) then CondensedValue(enc, ws[1..])
    else WrittenValue(enc, ws[0]) + BehindCharacter(enc, ws[1..])
  }

  function BehindCharacter(enc: Encoding, ws: seq<Written>): string
    decreases |ws|, 1
  {
    if AllWhiteWritten(ws) then ""
    else if IsWhiteWritten(ws[0]) then " " + CondensedValue(enc, ws)
    else CondensedValue(enc, ws)
  }

  lemma WhiteIsSingle(enc: Encoding, w: Written, t: string)
    requires IsWritten(enc, w, t)
    ensures WrittenText(w) != "" && (IsWhite(WrittenText(w)[0]) <==> IsWhiteWritten(w))
  {
  }

  lemma {:induction false} RunIsCondensed(enc: Encoding, ws: seq<Written>, end: char, rest: string, white: bool)
    requires IsRun(enc, ws, end, rest) && rest != "" && rest[0] == end
    ensures var v := if !white then BehindCharacter(enc, ws) else if AllWhiteWritten(ws) then "" else " " + CondensedValue(enc, ws);
            CondenseText(enc, Some(RunText(ws) + rest), [end], white) == Got(v, Some(rest))
    decreases |ws|
  {
    hide GetChar, WrittenText, WrittenValue, IsWritten, IsWhiteWritten, AllWhiteWritten, CondenseText, CondensedValue, BehindCharacter;
    var s := RunText(ws) + rest;
    CondenseStep(enc, s, end, white);
    if ws == [] {
      assert s == rest && [end] <= rest;
      NothingIsWhite(enc);
    } else {
      var t := RunText(ws[1..]) + rest;
      assert s == WrittenText(ws[0]) + t;
      WhiteIsSingle(enc, ws[0], t);
      ValueStep(enc, ws);
      if IsWhiteWritten(ws[0]) {
        assert s[1..] == t by { WhiteText(ws[0]); }
        RunIsCondensed(enc, ws[1..], end, rest, true);
      } else {
        WrittenIsRead(enc, ws[0], t);
        RunIsCondensed(enc, ws[1..], end, rest, false);
        Associate(if white then " " else "", WrittenValue(enc, ws[0]), BehindCharacter(enc, ws[1..]));
        assert "" + CondensedValue(enc, ws) == CondensedValue(enc, ws);
      }
    }
  }

  /** The condensed value by the first character. */
  lemma ValueStep(enc: Encoding, ws: seq<Written>)
    requires ws != []
    ensures AllWhiteWritten(ws) <==> IsWhiteWritten(ws[0]) && AllWhiteWritten(ws[1..])
    ensures IsWhiteWritten(ws[0]) ==> CondensedValue(enc, ws) == CondensedValue(enc, ws[1..])
    ensures IsWhiteWritten(ws[0]) && !AllWhiteWritten(ws) ==> BehindCharacter(enc, ws) == " " + CondensedValue(enc, ws[1..])
    ensures AllWhiteWritten(ws) ==> BehindCharacter(enc, ws) == ""
    ensures !IsWhiteWritten(ws[0]) ==> CondensedValue(enc, ws) == WrittenValue(enc, ws[0]) + BehindCharacter(enc, ws[1..])
    ensures !IsWhiteWritten(ws[0]) ==> BehindCharacter(enc, ws) == CondensedValue(enc, ws)
  {
    hide IsWhiteWritten, WrittenValue;
    WhiteStep(ws);
  }

  lemma NothingIsWhite(enc: Encoding)
    ensures AllWhiteWritten([]) && BehindCharacter(enc, []) == ""
  {
  }

  lemma WhiteText(w: Written)
    requires IsWhiteWritten(w)
    ensures |WrittenText(w)| == 1
  {
  }

  lemma WhiteStep(ws: seq<Written>)
    requires ws != []
    ensures AllWhiteWritten(ws) <==> IsWhiteWritten(ws[0]) && AllWhiteWritten(ws[1..])
  {
    hide IsWhiteWritten;
    assert forall i :: 1 <= i < |ws| ==> ws[i] == ws[1..][i - 1];
  }

  lemma {:induction false} CondensedIsRun(enc: Encoding, s: string, end: char, white: bool) returns (ws: seq<Written>, rest: string)
    requires !IsWhite(end)
    requires var g := CondenseText(enc, Some(s), [end], white); g.p.Some? && g.p.value != ""
    ensures IsRun(enc, ws, end, rest) && s == RunText(ws) + rest && rest != "" && rest[0] == end
    decreases |s|
  {
    hide GetChar, WrittenValue, IsWritten, IsRun, RunText, CondenseText;
    CondenseStep(enc, s, end, white) by { NothingIsCondensed(enc, end, white); }
    if [end] <= s {
      ws, rest := [], s;
      NoRun(enc, end, rest);
    } else {
      var w, t, more;
      if IsWhiteSpace(s[0]) {
        w, t := Plain([s[0]]), s[1..];
        WhiteIsWritten(enc, s[0], t);
        more, rest := CondensedIsRun(enc, t, end, true);
      } else {
        w, t := ReadIsWritten(enc, s);
        more, rest := CondensedIsRun(enc, t, end, false);
      }
      assert s == WrittenText(w) + t;
      RunOfFirst(enc, w, more, end, rest);
      ws := [w] + more;
    }
  }

  lemma NothingIsCondensed(enc: Encoding, end: char, white: bool)
    ensures CondenseText(enc, Some(""), [end], white).p == Some("")
  {
  }

  lemma WhiteIsWritten(enc: Encoding, c: char, t: string)
    requires IsWhiteSpace(c)
    ensures IsWritten(enc, Plain([c]), t)
  {
  }

  // ---------------------------------------------------------------- texts

  function TextValue(enc: Encoding, condense: bool, before: string, ws: seq<Written>): string {
    if condense then CondensedValue(enc, ws) else before + RunValue(enc, ws)
  }

  /** Text behind a gap, and a tag behind the text. */
  predicate IsText(enc: Encoding, before: string, ws: seq<Written>, rest: string) {
    IsGap(enc, before) && ws != [] && !StartsGap(enc, RunText(ws) + rest) && IsRun(enc, ws, '<', rest) &&
    |rest| > 1 && rest[0] == '<'
  }

  /** A gap is kept character by character. */
  lemma {:induction false} GapIsKept(enc: Encoding, gap: string, s: string)
    requires IsGap(enc, gap)
    ensures var g := KeepText(enc, Some(s), "<"); KeepText(enc, Some(gap + s), "<") == Got(gap + g.text, g.p)
    decreases |gap|
  {
    hide IsBom, GetChar, KeepText;
    var g := KeepText(enc, Some(s), "<");
    BomIsMark(gap);
    if gap == "" {
      assert gap + s == s && "" + g.text == g.text;
    } else {
      var n := if IsWhite(gap[0]) then 1 else 3;
      var a, b := gap[..n], gap[n..];
      GapIsKept(enc, b, s);
      assert gap == a + b && a[0] == gap[0] && (n == 1 ==> a == [gap[0]]);
      if n == 1 { WhiteIsGot(enc, gap[0], b + s); } else { BomIsGot(enc, a, b + s); }
      assert gap + s == a + (b + s) && gap + g.text == a + (b + g.text);
      KeepStep(enc, gap + s);
    }
  }

  lemma KeepStep(enc: Encoding, s: string)
    requires s != "" && s[0] != '<'
    ensures KeepText(enc, Some(s), "<") ==
              var c := GetChar(enc, s);
              var g := KeepText(enc, c.p, "<");
              Got(c.text + g.text, g.p)
  {
    hide GetChar;
  }

  lemma WhiteIsGot(enc: Encoding, c: char, t: string)
    requires IsWhite(c)
    ensures GetChar(enc, [c] + t) == Got([c], Some(t)) && c != '<'
  {
    hide GetEntity;
    assert ([c] + t)[1..] == t;
  }

  lemma BomIsGot(enc: Encoding, b: string, t: string)
    requires enc.Utf8Encoding? && |b| == 3 && b[0] as int == 0xEF
    ensures GetChar(enc, b + t) == Got(b, Some(t))
  {
    hide GetEntity;
    assert (b + t)[..3] == b && (b + t)[3..] == t;
  }

  /** A text is read with its value, and the pointer stands at the tag. */
  lemma TextIsRead(enc: Encoding, condense: bool, before: string, ws: seq<Written>, rest: string)
    requires IsText(enc, before, ws, rest)
    ensures var q := RunText(ws) + rest;
            q != "" && q[0] != '<' && q == (before + q)[WhiteLength(enc, before + q)..] &&
            TextInElement(enc, condense, before + q, q) == (TextValue(enc, condense, before, ws), Some(rest))
  {
    hide IsGap, StartsGap, IsRun, ReadText, WhiteLength, RunText, CondensedValue, RunValue;
    var q := RunText(ws) + rest;
    FirstOfRun(enc, ws, '<', rest);
    GapIsPassed(enc, before, q);
    assert (before + q)[|before|..] == q;
    assert "<" + rest[1..] == rest;
    if condense {
      NoGap(enc);
      CondensedIsGot(enc, ws, rest);
    } else { KeptIsGot(enc, before, ws, rest); }
  }

  lemma CondensedIsGot(enc: Encoding, ws: seq<Written>, rest: string)
    requires IsText(enc, "", ws, rest)
    ensures ReadText(enc, Some(RunText(ws) + rest), false, "<") == Got(CondensedValue(enc, ws), Some(rest[1..]))
  {
    hide IsGap, StartsGap, IsRun, SkipWhiteSpace, CondenseText, RunText, CondensedValue, BehindCharacter;
    var q := RunText(ws) + rest;
    FirstOfRun(enc, ws, '<', rest);
    assert "" + q == q;
    SkipGap(enc, "", q);
    RunIsCondensed(enc, ws, '<', rest, false);
    FirstIsShown(enc, ws, rest);
  }

  lemma KeptIsGot(enc: Encoding, before: string, ws: seq<Written>, rest: string)
    requires IsText(enc, before, ws, rest)
    ensures ReadText(enc, Some(before + (RunText(ws) + rest)), true, "<") == Got(before + RunValue(enc, ws), Some(rest[1..]))
  {
    hide IsGap, StartsGap, IsRun, KeepText, RunText, RunValue;
    RunIsKept(enc, ws, '<', rest);
    GapIsKept(enc, before, RunText(ws) + rest);
  }

  lemma NoGap(enc: Encoding)
    ensures IsGap(enc, "")
  {
  }

  lemma FirstOfRun(enc: Encoding, ws: seq<Written>, end: char, rest: string)
    requires ws != [] && IsRun(enc, ws, end, rest)
    ensures RunText(ws) != "" && RunText(ws)[0] != end && RunText(ws)[0] == WrittenText(ws[0])[0]
  {
  }

  lemma FirstIsShown(enc: Encoding, ws: seq<Written>, rest: string)
    requires ws != [] && IsRun(enc, ws, '<', rest) && !StartsGap(enc, RunText(ws) + rest)
    ensures BehindCharacter(enc, ws) == CondensedValue(enc, ws)
  {
    hide CondensedValue;
    WhiteIsSingle(enc, ws[0], RunText(ws[1..]) + rest);
    FirstOfRun(enc, ws, '<', rest);
  }

  /** Whatever is read as text in front of a tag is one. */
  lemma ReadIsText(enc: Encoding, condense: bool, before: string, q: string) returns (ws: seq<Written>, rest: string)
    requires IsGap(enc, before) && !StartsGap(enc, q) && q != "" && q[0] != '<' && before + q != ""
    requires q == (before + q)[WhiteLength(enc, before + q)..]
    requires TextInElement(enc, condense, before + q, q).1.Some?
    ensures IsText(enc, before, ws, rest) && q == RunText(ws) + rest
  {
    hide IsGap, StartsGap, IsRun, KeepText, CondenseText, WhiteLength, RunText;
    if condense {
      assert "" + q == q && IsGap(enc, "") by { NoGap(enc); }
      SkipGap(enc, "", q);
      ws, rest := CondensedIsRun(enc, q, '<', false);
      RunIsCondensed(enc, ws, '<', rest, false);
    } else {
      GapIsKept(enc, before, q);
      ws, rest := KeptIsRun(enc, q, '<');
      RunIsKept(enc, ws, '<', rest);
    }
    NoRun(enc, '<', rest);
  }

  // ---------------------------------------------------------------- attributes

  /** The value of an attribute: characters in quotes, or a word. */
  datatype Quoting = Quoted(quote: char, ws: seq<Written>) | Bare(word: string)

  function QuotingText(v: Quoting): string {
    match v
    case Quoted(quote, ws) => [quote] + RunText(ws) + [quote]
    case Bare(word) => word
  }

  function QuotingValue(enc: Encoding, v: Quoting): string {
    match v
    case Quoted(_, ws) => RunValue(enc, ws)
    case Bare(word) => word
  }

  predicate IsQuote(c: char) { c == '\'' || c == '\"' }

  predicate EndsBare(c: char) { IsWhite(c) || c == '/' || c == '>' || IsQuote(c) }

  /** Something stands behind the closing quote; no quote ends a word. */
  predicate IsQuoting(enc: Encoding, v: Quoting, rest: string) {
    match v
    case Quoted(quote, ws) => IsQuote(quote) && IsRun(enc, ws, quote, [quote] + rest) && rest != ""
    case Bare(word) =>
      (forall i :: 0 <= i < |word| ==> !EndsBare(word[i])) && word + rest != "" &&
      (rest != "" ==> EndsBare(rest[0]) && !IsQuote(rest[0]))
  }

  lemma {:induction false} WordLength(word: string, rest: string)
    requires (forall i :: 0 <= i < |word| ==> !EndsBare(word[i])) && (rest != "" ==> EndsBare(rest[0]))
    ensures UnquotedLength(word + rest) == |word|
  {
    if word == "" {
      assert word + rest == rest;
    } else {
      assert (word + rest)[1..] == word[1..] + rest;
      WordLength(word[1..], rest);
    }
  }

  lemma QuotedIsRead(enc: Encoding, quote: char, ws: seq<Written>, rest: string)
    requires IsQuote(quote) && IsRun(enc, ws, quote, [quote] + rest) && rest != ""
    ensures ReadText(enc, Some(RunText(ws) + ([quote] + rest)), true, [quote]) == Got(RunValue(enc, ws), Some(rest))
  {
    hide IsRun, KeepText, RunText, RunValue;
    RunIsKept(enc, ws, quote, [quote] + rest);
    assert ([quote] + rest)[1..] == rest;
  }

  lemma QuotingIsRead(enc: Encoding, name: string, v: Quoting, rest: string, e: FirstError)
    requires IsQuoting(enc, v, rest)
    ensures QuotingText(v) + rest != ""
    ensures ParseAttributeValue(enc, name, QuotingText(v) + rest, e)
         == ParsedAttribute(Attribute(name, QuotingValue(enc, v)), Some(rest), e)
  {
    hide IsRun, ReadText, RunText, RunValue, UnquotedLength;
    var s := QuotingText(v) + rest;
    match v
    case Quoted(quote, ws) =>
      assert s == [quote] + (RunText(ws) + ([quote] + rest));
      assert s[1..] == RunText(ws) + ([quote] + rest);
      QuotedIsRead(enc, quote, ws, rest);
    case Bare(word) =>
      WordLength(word, rest);
      assert s[..|word|] == word && s[|word|..] == rest;
  }

  lemma ReadIsQuoting(enc: Encoding, name: string, s: string, e: FirstError) returns (v: Quoting, rest: string)
    requires s != "" && ParseAttributeValue(enc, name, s, e).p.Some?
    ensures IsQuoting(enc, v, rest) && s == QuotingText(v) + rest
  {
    hide IsRun, ReadText, RunText;
    if s[0] == '\'' || s[0] == '\"' {
      var ws;
      ws, rest := ReadIsQuoted(enc, s[1..], s[0]);
      v := Quoted(s[0], ws);
      assert s == [s[0]] + s[1..] && QuotingText(v) + rest == [s[0]] + (RunText(ws) + ([s[0]] + rest));
    } else {
      var n := UnquotedLength(s);
      v, rest := Bare(s[..n]), s[n..];
    }
  }

  lemma ReadIsQuoted(enc: Encoding, s: string, quote: char) returns (ws: seq<Written>, rest: string)
    requires ReadText(enc, Some(s), true, [quote]).p.Some?
    ensures IsRun(enc, ws, quote, [quote] + rest) && s == RunText(ws) + ([quote] + rest) && rest != ""
  {
    hide IsRun, KeepText, RunText;
    var t;
    ws, t := KeptIsRun(enc, s, quote);
    RunIsKept(enc, ws, quote, t);
    rest := t[1..];
    assert t == [quote] + rest;
  }

  /** An attribute with the gap in front of it and those around its equals sign. */
  datatype Field = Field(before: string, name: string, gap1: string, gap2: string, value: Quoting)

  function FieldText(f: Field): string { f.before + f.name + f.gap1 + "=" + f.gap2 + QuotingText(f.value) }

  function FieldAttribute(enc: Encoding, f: Field): Attribute { Attribute(f.name, QuotingValue(enc, f.value)) }

  predicate IsField(enc: Encoding, f: Field, rest: string) {
    IsGap(enc, f.before) && IsName(f.name) && !StartsGap(enc, f.name) && IsGap(enc, f.gap1) && NameEnds(f.gap1) &&
    IsGap(enc, f.gap2) && IsQuoting(enc, f.value, rest) && !StartsGap(enc, QuotingText(f.value) + rest)
  }

  lemma EqualsIsNoGap(enc: Encoding, t: string)
    ensures !StartsGap(enc, "=" + t) && NameEnds("=" + t)
  {
  }

  lemma NameEndsBehind(gap: string, t: string)
    requires NameEnds(gap) && NameEnds(t)
    ensures NameEnds(gap + t)
  {
    hide InName;
    if gap == "" { assert gap + t == t; }
  }

  lemma FieldIsRead(enc: Encoding, f: Field, rest: string, e: FirstError)
    requires IsField(enc, f, rest)
    ensures ParseAttribute(enc, Some(FieldText(f) + rest), e) == ParsedAttribute(FieldAttribute(enc, f), Some(rest), e)
  {
    hide IsGap, StartsGap, SkipWhiteSpace, ReadName, ParseAttributeValue, IsQuoting, IsName, NameEnds, QuotingText, QuotingValue;
    var v := QuotingText(f.value) + rest;
    var t := "=" + (f.gap2 + v);
    EqualsIsNoGap(enc, f.gap2 + v);
    NameEndsBehind(f.gap1, t);
    NameIsNoGap(enc, f.name, f.gap1 + t);
    QuotingIsRead(enc, f.name, f.value, rest, e);
    assert f.name != "" by { NameIsLong(f.name); }
    assert FieldText(f) + rest == f.before + (f.name + (f.gap1 + t));
    SkipGap(enc, f.before, f.name + (f.gap1 + t));
    NameIsRead(f.name, f.gap1 + t);
    SkipGap(enc, f.gap1, t);
    assert t[1..] == f.gap2 + v;
    SkipGap(enc, f.gap2, v);
  }

  lemma NameIsLong(name: string)
    requires IsName(name)
    ensures name != ""
  {
  }

  lemma ReadIsField(enc: Encoding, s: string, e: FirstError) returns (f: Field, rest: string)
    requires ParseAttribute(enc, Some(s), e).p.Some?
    ensures IsField(enc, f, rest) && s == FieldText(f) + rest
  {
    hide IsGap, StartsGap, SkipWhiteSpace, ReadName, ParseAttributeValue, IsQuoting, IsName, NameEnds, QuotingText;
    EndIsNotSkipped(enc);
    var before, t1 := Skipped(enc, s);
    var name, t2 := ReadIsName(t1);
    var gap1, t3 := Skipped(enc, t2);
    var gap2, t4 := Skipped(enc, t3[1..]);
    var v;
    v, rest := ReadIsQuoting(enc, name, t4, e);
    f := Field(before, name, gap1, gap2, v);
    assert t3 == "=" + t3[1..];
    EqualsIsNoGap(enc, t3[1..]);
    NameIsNoGap(enc, name, t2);
    GapEndsName(gap1, t3);
    assert s == before + (name + (gap1 + ("=" + (gap2 + (QuotingText(v) + rest)))));
  }

  lemma EndIsNotSkipped(enc: Encoding)
    ensures SkipWhiteSpace(enc, Some("")).None?
  {
  }

  lemma GapEndsName(gap: string, t: string)
    requires NameEnds(gap + t)
    ensures NameEnds(gap)
  {
    hide InName;
    if gap != "" { assert (gap + t)[0] == gap[0]; }
  }

  // ---------------------------------------------------------------- comments, CDATA and unknown tags

  /** In value + mark the mark stands at the end and nowhere before. */
  predicate MarksEnd(value: string, mark: string) {
    forall i :: 0 <= i < |value| ==> !(mark <= (value + mark)[i..])
  }

  lemma MarkWithin(value: string, mark: string, rest: string, i: nat)
    requires i <= |value|
    ensures MarkAt(value + mark + rest, mark, i) <==> mark <= (value + mark)[i..]
  {
    var s, u := value + mark + rest, value + mark;
    assert s[i..][..|mark|] == u[i..][..|mark|];
  }

  lemma MarkIsFound(value: string, mark: string, rest: string)
    requires MarksEnd(value, mark) && mark != ""
    ensures Find(value + mark + rest, mark) == |value|
  {
    var k := Find(value + mark + rest, mark);
    assert (value + mark)[|value|..] == mark;
    MarkWithin(value, mark, rest, |value|);
    MarkWithin(value, mark, rest, if k < |value| then k else |value|);
  }

  lemma FoundIsMark(s: string, mark: string) returns (value: string, rest: string)
    requires mark != "" && Find(s, mark) < |s|
    ensures MarksEnd(value, mark) && s == value + mark + rest && |value| == Find(s, mark)
  {
    hide Find;
    var k := Find(s, mark);
    assert MarkAt(s, mark, k);
    value, rest := s[..k], s[k..][|mark|..];
    CutMark(s, mark, k);
    forall i | 0 <= i < |value|
      ensures !(mark <= (value + mark)[i..])
    {
      MarkWithin(value, mark, rest, i);
      assert !MarkAt(s, mark, i);
    }
  }

  lemma CutMark(s: string, mark: string, k: nat)
    requires k <= |s| && mark <= s[k..]
    ensures s == s[..k] + mark + s[k..][|mark|..]
  {
    assert s == s[..k] + s[k..];
  }

  // ---------------------------------------------------------------- declarations

  /** The text starts with a word, in either case. */
  predicate StartsEither(s: string, lower: string, upper: string) {
    |lower| == |upper| <= |s| && forall i :: 0 <= i < |lower| ==> s[i] == lower[i] || s[i] == upper[i]
  }

  /** The same word in small letters and in capitals. */
  predicate CasePair(lower: string, upper: string) {
    |lower| == |upper| &&
    forall i :: 0 <= i < |lower| ==>
      if 'a' <= lower[i] <= 'z' then lower[i] as int == upper[i] as int + 32
      else lower[i] == upper[i] && !('A' <= lower[i] <= 'Z')
  }

  lemma EitherIsIgnoringCase(s: string, lower: string, upper: string)
    requires CasePair(lower, upper)
    ensures StartsEither(s, lower, upper) <==> StartsWithIgnoringCase(s, lower)
  {
    if |lower| <= |s| {
      forall i | 0 <= i < |lower|
        ensures Lower(s[i]) == Lower(lower[i]) <==> s[i] == lower[i] || s[i] == upper[i]
      {
      }
    }
  }

  datatype Key = VersionKey | EncodingKey | StandaloneKey | NoKey

  function KeyOf(s: string): Key {
    if StartsEither(s, "version", "VERSION") then VersionKey
    else if StartsEither(s, "encoding", "ENCODING") then EncodingKey
    else if StartsEither(s, "standalone", "STANDALONE") then StandaloneKey
    else NoKey
  }

  /** A part of a declaration: a word that is passed over, or an attribute with one of the three names. */
  datatype Part = Word(before: string, word: string) | Entry(field: Field)

  function Before(part: Part): string { match part case Word(before, _) => before case Entry(f) => f.before }

  function Behind(part: Part): string {
    match part
    case Word(_, word) => word
    case Entry(f) => f.name + f.gap1 + "=" + f.gap2 + QuotingText(f.value)
  }

  function PartsText(parts: seq<Part>): string {
    if parts == [] then "" else Before(parts[0]) + Behind(parts[0]) + PartsText(parts[1..])
  }

  predicate EndsWord(c: char) { c == '>' || IsWhite(c) }

  predicate IsPart(enc: Encoding, part: Part, rest: string) {
    match part
    case Word(before, word) =>
      IsGap(enc, before) && before + word != "" && !StartsGap(enc, word + rest) && (forall i :: 0 <= i < |word| ==> !EndsWord(word[i])) &&
      (rest != "" ==> EndsWord(rest[0])) && KeyOf(word).NoKey?
    case Entry(f) => IsField(enc, f, rest) && !KeyOf(f.name).NoKey?
  }

  predicate AreParts(enc: Encoding, parts: seq<Part>, rest: string) {
    parts == [] || (IsPart(enc, parts[0], PartsText(parts[1..]) + rest) && AreParts(enc, parts[1..], rest))
  }

  /** What a part says; of equal names the last one counts. */
  function Declare(enc: Encoding, part: Part, d: Node): (r: Node)
    requires d.Declaration?
    ensures r.Declaration?
  {
    if part.Word? then d
    else
      var value := CStr(QuotingValue(enc, part.field.value));
      match KeyOf(part.field.name)
      case VersionKey => d.(version := value)
      case EncodingKey => d.(encoding := value)
      case StandaloneKey => d.(standalone := value)
      case NoKey => d
  }

  function DeclareAll(enc: Encoding, parts: seq<Part>, d: Node): (r: Node)
    requires d.Declaration?
    ensures r.Declaration?
  {
    if parts == [] then d else DeclareAll(enc, parts[1..], Declare(enc, parts[0], d))
  }

  lemma EitherAhead(a: string, rest: string, lower: string, upper: string)
    requires CasePair(lower, upper) && forall i :: 0 <= i < |lower| ==> StartsName(lower[i]) && StartsName(upper[i])
    requires rest == "" || !StartsName(rest[0])
    ensures StartsEither(a + rest, lower, upper) <==> StartsEither(a, lower, upper)
  {
    hide StartsName, CasePair;
    assert |a| < |lower| <= |a + rest| ==> (a + rest)[|a|] == rest[0];
  }

  /** The key does not go beyond a name or word. */
  lemma KeyAhead(a: string, rest: string)
    requires rest == "" || !StartsName(rest[0])
    ensures KeyOf(a + rest) == KeyOf(a)
  {
    hide StartsEither;
    EitherAhead(a, rest, "version", "VERSION");
    EitherAhead(a, rest, "encoding", "ENCODING");
    EitherAhead(a, rest, "standalone", "STANDALONE");
  }

  /** One turn of the loop, by the key the text starts with. */
  lemma DeclaredByKey(enc: Encoding, s: string, d: Node)
    requires d.Declaration?
    ensures ReadDeclared(enc, s, d) ==
              var a := ParseAttribute(enc, Some(s), None);
              var value := CStr(a.attribute.value);
              match KeyOf(s)
              case VersionKey => (d.(version := value), a.p)
              case EncodingKey => (d.(encoding := value), a.p)
              case StandaloneKey => (d.(standalone := value), a.p)
              case NoKey => (d, Some(s[OtherLength(s)..]))
  {
    hide ParseAttribute, StartsEither, StartsWithIgnoringCase, CStr;
    EitherIsIgnoringCase(s, "version", "VERSION");
    EitherIsIgnoringCase(s, "encoding", "ENCODING");
    EitherIsIgnoringCase(s, "standalone", "STANDALONE");
  }

  lemma {:induction false} OtherLengthIs(word: string, rest: string)
    requires (forall i :: 0 <= i < |word| ==> !EndsWord(word[i])) && (rest != "" ==> EndsWord(rest[0]))
    ensures OtherLength(word + rest) == |word|
  {
    if word == "" {
      assert word + rest == rest;
    } else {
      assert (word + rest)[1..] == word[1..] + rest;
      OtherLengthIs(word[1..], rest);
    }
  }

  lemma {:induction false} OtherIsWord(s: string)
    ensures var n := OtherLength(s); (forall i :: 0 <= i < n ==> !EndsWord(s[i])) && (n < |s| ==> EndsWord(s[n]))
  {
    if s != "" && s[0] != '>' && !IsWhiteSpace(s[0]) { OtherIsWord(s[1..]); }
  }

  lemma PartStarts(enc: Encoding, part: Part, rest: string)
    requires IsPart(enc, part, rest)
    ensures IsGap(enc, Before(part)) && !StartsGap(enc, Behind(part) + rest)
    ensures var s := Before(part) + Behind(part) + rest; s != "" && s[0] != '>'
  {
    hide IsGap, StartsGap, IsField, QuotingText, KeyOf, FieldText;
    if part.Entry? {
      FieldStarts(enc, part.field, rest);
      BeforeIsGap(enc, part.field, rest);
    }
    GapStarts(enc, Before(part));
    StartsBehind(Before(part), Behind(part), rest);
    if part.Word? { WordStarts(enc, part, rest); }
  }

  lemma StartsBehind(a: string, b: string, rest: string)
    ensures var s := a + b + rest; if a != "" then s[0] == a[0] else s == b + rest
  {
  }

  lemma WordStarts(enc: Encoding, part: Part, rest: string)
    requires part.Word? && IsPart(enc, part, rest)
    ensures Before(part) + Behind(part) + rest != "" && (Before(part) == "" ==> part.word != "" && part.word[0] != '>')
  {
    hide IsGap, StartsGap, KeyOf;
  }

  lemma GapStarts(enc: Encoding, gap: string)
    requires IsGap(enc, gap)
    ensures gap != "" ==> gap[0] != '>'
  {
  }

  lemma PartIsRead(enc: Encoding, part: Part, rest: string, d: Node)
    requires IsPart(enc, part, rest) && d.Declaration?
    ensures var s := Before(part) + (Behind(part) + rest);
            s != "" && s[0] != '>' && ReadDeclared(enc, s[WhiteLength(enc, s)..], d) == (Declare(enc, part, d), Some(rest))
  {
    hide IsGap, StartsGap, IsPart, ReadDeclared, WhiteLength, Declare, Before, Behind;
    var t := Behind(part) + rest;
    assert Before(part) + t == Before(part) + Behind(part) + rest;
    PartStarts(enc, part, rest);
    GapIsPassed(enc, Before(part), t);
    assert (Before(part) + t)[|Before(part)|..] == t;
    if part.Word? { WordIsRead(enc, part, rest, d); } else { EntryIsRead(enc, part, rest, d); }
  }

  lemma WordIsRead(enc: Encoding, part: Part, rest: string, d: Node)
    requires part.Word? && IsPart(enc, part, rest) && d.Declaration?
    ensures ReadDeclared(enc, Behind(part) + rest, d) == (Declare(enc, part, d), Some(rest))
  {
    hide IsGap, StartsGap, KeyOf, ReadDeclared, OtherLength, CStr, ParseAttribute;
    var t := part.word + rest;
    DeclaredByKey(enc, t, d);
    WordEndIsNoLetter(rest);
    KeyAhead(part.word, rest);
    OtherLengthIs(part.word, rest);
    assert t[|part.word|..] == rest;
  }

  lemma EntryIsRead(enc: Encoding, part: Part, rest: string, d: Node)
    requires part.Entry? && IsPart(enc, part, rest) && d.Declaration?
    ensures ReadDeclared(enc, Behind(part) + rest, d) == (Declare(enc, part, d), Some(rest))
  {
    hide IsField, KeyOf, ReadDeclared, CStr, QuotingText, QuotingValue, ParseAttribute;
    var f, t := part.field, Behind(part) + rest;
    DeclaredByKey(enc, t, d);
    BareField(enc, f, rest);
    FieldIsRead(enc, f.(before := ""), rest, None);
    assert FieldText(f.(before := "")) + rest == t;
    KeyOfField(enc, f, rest);
  }

  lemma NameEndIsNoLetter(t: string)
    requires NameEnds(t)
    ensures t == "" || !StartsName(t[0])
  {
  }

  lemma WordEndIsNoLetter(t: string)
    requires t != "" ==> EndsWord(t[0])
    ensures t == "" || !StartsName(t[0])
  {
  }

  lemma KeyOfField(enc: Encoding, f: Field, rest: string)
    requires IsField(enc, f, rest)
    ensures KeyOf(f.name + f.gap1 + "=" + f.gap2 + QuotingText(f.value) + rest) == KeyOf(f.name)
  {
    hide KeyOf, QuotingText, IsQuoting, IsGap, StartsGap, IsName, InName, StartsName;
    var t := "=" + (f.gap2 + (QuotingText(f.value) + rest));
    EqualsIsNoGap(enc, f.gap2 + (QuotingText(f.value) + rest));
    NameEndsBehind(f.gap1, t);
    NameEndIsNoLetter(f.gap1 + t);
    KeyAhead(f.name, f.gap1 + t);
    assert f.name + f.gap1 + "=" + f.gap2 + QuotingText(f.value) + rest == f.name + (f.gap1 + t);
  }

  lemma BareField(enc: Encoding, f: Field, rest: string)
    requires IsField(enc, f, rest)
    ensures IsField(enc, f.(before := ""), rest)
  {
    NoGap(enc);
  }

  lemma {:induction false} PartsAreRead(enc: Encoding, parts: seq<Part>, rest: string, d: Node, e: FirstError)
    requires AreParts(enc, parts, ">" + rest) && d.Declaration?
    ensures ParseDeclared(enc, Some(PartsText(parts) + (">" + rest)), d, e)
         == Parsed(DeclareAll(enc, parts, d), Some(rest), e)
    decreases |parts|
  {
    hide IsPart, ReadDeclared, WhiteLength, Declare, Before, Behind;
    var end := ">" + rest;
    var s := PartsText(parts) + end;
    if parts == [] {
      assert s == end && end[1..] == rest;
    } else {
      var t := PartsText(parts[1..]) + end;
      assert s == Before(parts[0]) + (Behind(parts[0]) + t);
      PartIsRead(enc, parts[0], t, d);
      PartsAreRead(enc, parts[1..], rest, Declare(enc, parts[0], d), e);
    }
  }

  lemma {:induction false} ReadIsParts(enc: Encoding, s: string, d: Node, e: FirstError) returns (parts: seq<Part>, rest: string)
    requires d.Declaration? && ParseDeclared(enc, Some(s), d, e).p.Some?
    ensures AreParts(enc, parts, ">" + rest) && s == PartsText(parts) + (">" + rest)
    decreases |s|
  {
    hide IsPart, ReadDeclared, WhiteLength, Before, Behind;
    if s[0] == '>' {
      parts, rest := [], s[1..];
      assert PartsText(parts) + (">" + rest) == s;
    } else {
      WhiteOrOther(enc, s);
      var u := s[WhiteLength(enc, s)..];
      var (d', p) := ReadDeclared(enc, u, d);
      assert p.Some?;
      var part := ReadIsPart(enc, s, d);
      var more;
      more, rest := ReadIsParts(enc, p.value, d', e);
      parts := [part] + more;
      assert parts[1..] == more;
      assert s == Before(part) + Behind(part) + PartsText(more) + (">" + rest);
    }
  }

  lemma ReadIsPart(enc: Encoding, s: string, d: Node) returns (part: Part)
    requires s != "" && s[0] != '>' && d.Declaration?
    requires ReadDeclared(enc, s[WhiteLength(enc, s)..], d).1.Some?
    ensures var rest := ReadDeclared(enc, s[WhiteLength(enc, s)..], d).1.value;
            IsPart(enc, part, rest) && s == Before(part) + (Behind(part) + rest)
  {
    hide IsGap, StartsGap, IsField, KeyOf, ReadDeclared, WhiteLength, OtherLength, CStr, QuotingText, IsName, ParseAttribute, SkipWhiteSpace;
    PassedIsGap(enc, s);
    var before, u := s[..WhiteLength(enc, s)], s[WhiteLength(enc, s)..];
    assert s == before + u;
    DeclaredByKey(enc, u, d);
    WhiteOrOther(enc, s);
    if KeyOf(u).NoKey? { part := OtherIsPart(enc, before, u); } else { part := EntryIsPart(enc, before, u); }
  }

  lemma OtherIsPart(enc: Encoding, before: string, u: string) returns (part: Part)
    requires IsGap(enc, before) && !StartsGap(enc, u) && KeyOf(u).NoKey? && (before != "" || OtherLength(u) > 0)
    ensures var rest := u[OtherLength(u)..]; part.Word? && IsPart(enc, part, rest) && before + u == before + (Behind(part) + rest)
    ensures Before(part) == before
  {
    hide IsGap, StartsGap, KeyOf, OtherLength;
    var n := OtherLength(u);
    OtherIsWord(u);
    part := Word(before, u[..n]);
    assert u == u[..n] + u[n..];
    WordEndIsNoLetter(u[n..]);
    KeyAhead(u[..n], u[n..]);
  }

  lemma EntryIsPart(enc: Encoding, before: string, u: string) returns (part: Part)
    requires IsGap(enc, before) && !StartsGap(enc, u) && !KeyOf(u).NoKey? && ParseAttribute(enc, Some(u), None).p.Some?
    ensures var rest := ParseAttribute(enc, Some(u), None).p.value;
            part.Entry? && IsPart(enc, part, rest) && before + u == before + (Behind(part) + rest)
    ensures Before(part) == before
  {
    hide IsGap, StartsGap, IsField, KeyOf, QuotingText, ParseAttribute;
    var f, rest := ReadIsField(enc, u, None);
    FieldIsRead(enc, f, rest, None);
    NoGapAhead(enc, f, rest);
    part := Entry(f.(before := before));
    assert FieldText(f) + rest == Behind(part) + rest;
    KeyOfField(enc, f, rest);
    Rebased(enc, f, before, rest);
  }

  lemma NoGapAhead(enc: Encoding, f: Field, rest: string)
    requires IsField(enc, f, rest) && !StartsGap(enc, FieldText(f) + rest)
    ensures f.before == ""
  {
    hide IsQuoting, QuotingText, IsName, IsGap, StartsGap;
    var t := f.name + f.gap1 + "=" + f.gap2 + QuotingText(f.value) + rest;
    assert FieldText(f) + rest == f.before + t;
    if f.before != "" { GapAhead(enc, f.before, t); }
  }

  lemma GapAhead(enc: Encoding, gap: string, t: string)
    requires IsGap(enc, gap) && gap != ""
    ensures StartsGap(enc, gap + t)
  {
    hide IsBom;
    if IsBom(gap) { BomAhead(gap, t); }
  }

  lemma Rebased(enc: Encoding, f: Field, before: string, rest: string)
    requires IsField(enc, f, rest) && IsGap(enc, before)
    ensures IsField(enc, f.(before := before), rest)
  {
  }

  // ---------------------------------------------------------------- markup

  /** A tag with everything up to its end; lead is a gap in front of the name of an element. */
  datatype Markup =
    | ElementMarkup(lead: string, name: string, fields: seq<Field>, ending: Ending)
    | CommentMarkup(value: string)
    | CdataMarkup(value: string)
    | DeclarationMarkup(header: string, parts: seq<Part>)
    | UnknownMarkup(value: string)

  /** How an element ends behind its attributes: as an empty one, or with content and an end tag. */
  datatype Ending = Empty(gap: string) | Filled(gap: string, pieces: seq<Piece>, behind: string, gap2: string)

  datatype Piece = TextPiece(before: string, ws: seq<Written>) | TagPiece(before: string, markup: Markup)

  function FieldsText(fields: seq<Field>): string {
    if fields == [] then "" else FieldText(fields[0]) + FieldsText(fields[1..])
  }

  function EndTagText(name: string, gap: string): string { "</" + name + gap + ">" }

  function MarkupText(m: Markup): string
    decreases m
  {
    match m
    case ElementMarkup(lead, name, fields, ending) => "<" + (lead + (name + (FieldsText(fields) + EndingText(ending, name))))
    case CommentMarkup(value) => "<!--" + value + "-->"
    case CdataMarkup(value) => "<![CDATA[" + value + "]]>"
    case DeclarationMarkup(header, parts) => header + PartsText(parts) + ">"
    case UnknownMarkup(value) => "<" + value + ">"
  }

  function EndingText(ending: Ending, name: string): string
    decreases ending
  {
    match ending
    case Empty(gap) => gap + "/>"
    case Filled(gap, pieces, behind, gap2) => gap + (">" + (PiecesText(pieces) + (behind + EndTagText(name, gap2))))
  }

  function PieceText(p: Piece): string
    decreases p
  {
    match p
    case TextPiece(before, ws) => before + RunText(ws)
    case TagPiece(before, markup) => before + MarkupText(markup)
  }

  function PiecesText(pieces: seq<Piece>): string
    decreases pieces
  {
    if pieces == [] then "" else PieceText(pieces[0]) + PiecesText(pieces[1..])
  }

  predicate AreFields(enc: Encoding, fields: seq<Field>, rest: string) {
    fields == [] || (IsField(enc, fields[0], FieldsText(fields[1..]) + rest) && AreFields(enc, fields[1..], rest))
  }

  predicate DistinctNames(fields: seq<Field>) {
    forall i, j :: 0 <= i < j < |fields| ==> fields[i].name != fields[j].name
  }

  /** In front of this rest, m is a markup; something stands behind a CDATA section. */
  predicate IsMarkup(enc: Encoding, m: Markup, rest: string)
    decreases m
  {
    match m
    case ElementMarkup(lead, name, fields, ending) =>
      var end := EndingText(ending, name);
      IsGap(enc, lead) && IsName(name) && StartsName((lead + name)[0]) && !StartsGap(enc, name) &&
      NameEnds(FieldsText(fields) + end) && AreFields(enc, fields, end + rest) && DistinctNames(fields) &&
      IsEnding(enc, ending, name, rest)
    case CommentMarkup(value) => MarksEnd(value, "-->")
    case CdataMarkup(value) => MarksEnd(value, "]]>") && rest != ""
    case DeclarationMarkup(header, parts) =>
      |header| == 5 && StartsEither(header, "<?xml", "<?XML") && AreParts(enc, parts, ">" + rest)
    case UnknownMarkup(value) => '>' !in value && IsUnknownTag("<" + value + ">")
  }

  predicate IsUnknownTag(tag: string)
    requires |tag| > 1
  {
    !StartsEither(tag, "<?xml", "<?XML") && !("<!--" <= tag) && !("<![CDATA[" <= tag) && ("<!" <= tag || !StartsName(tag[1]))
  }

  predicate IsEnding(enc: Encoding, ending: Ending, name: string, rest: string)
    decreases ending
  {
    IsGap(enc, ending.gap) &&
    match ending
    case Empty(_) => true
    case Filled(_, pieces, behind, gap2) =>
      IsGap(enc, behind) && IsGap(enc, gap2) && ArePieces(enc, pieces, behind + EndTagText(name, gap2) + rest)
  }

  /** Content is text in front of a tag, or a tag that is no end tag. */
  predicate IsPiece(enc: Encoding, p: Piece, rest: string)
    decreases p
  {
    match p
    case TextPiece(before, ws) => IsText(enc, before, ws, rest)
    case TagPiece(before, markup) =>
      IsGap(enc, before) && IsMarkup(enc, markup, rest) && (markup.UnknownMarkup? && markup.value != "" ==> markup.value[0] != '/')
  }

  predicate ArePieces(enc: Encoding, pieces: seq<Piece>, rest: string)
    decreases pieces
  {
    pieces == [] || (IsPiece(enc, pieces[0], PiecesText(pieces[1..]) + rest) && ArePieces(enc, pieces[1..], rest))
  }

  // ---------------------------------------------------------------- what markup stands for

  function FieldAttributes(enc: Encoding, fields: seq<Field>): (r: seq<Attribute>)
    ensures |r| == |fields|
    ensures forall i :: 0 <= i < |fields| ==> r[i] == FieldAttribute(enc, fields[i])
  {
    if fields == [] then [] else [FieldAttribute(enc, fields[0])] + FieldAttributes(enc, fields[1..])
  }

  function MarkupNode(enc: Encoding, condense: bool, m: Markup): Node
    decreases m
  {
    match m
    case ElementMarkup(_, name, fields, ending) => Element(name, FieldAttributes(enc, fields), EndingNodes(enc, condense, ending))
    case CommentMarkup(value) => Comment(value)
    case CdataMarkup(value) => Cdata(value)
    case DeclarationMarkup(_, parts) => DeclareAll(enc, parts, Declaration("", "", ""))
    case UnknownMarkup(value) => Unknown(value)
  }

  function EndingNodes(enc: Encoding, condense: bool, ending: Ending): seq<Node>
    decreases ending
  {
    match ending
    case Empty(_) => []
    case Filled(_, pieces, _, _) => PieceNodes(enc, condense, pieces)
  }

  /** A text of nothing but white space is dropped. */
  function PieceNode(enc: Encoding, condense: bool, p: Piece): seq<Node>
    decreases p
  {
    match p
    case TextPiece(before, ws) =>
      var value := TextValue(enc, condense, before, ws);
      if forall i :: 0 <= i < |value| ==> IsWhite(value[i]) then [] else [Text(value)]
    case TagPiece(_, markup) => [MarkupNode(enc, condense, markup)]
  }

  function PieceNodes(enc: Encoding, condense: bool, pieces: seq<Piece>): seq<Node>
    decreases pieces
  {
    if pieces == [] then [] else PieceNode(enc, condense, pieces[0]) + PieceNodes(enc, condense, pieces[1..])
  }

  // ---------------------------------------------------------------- leaves are read

  /** What starts at a tag. */
  function KindOf(s: string): Kind
    requires |s| > 0
  {
    if StartsEither(s, "<?xml", "<?XML") then DeclarationKind
    else if "<!--" <= s then CommentKind
    else if "<![CDATA[" <= s then CdataKind
    else if "<!" <= s then UnknownKind
    else if |s| > 1 && StartsName(s[1]) then ElementKind
    else UnknownKind
  }

  lemma TagIsNoGap(enc: Encoding, s: string)
    requires s != "" && s[0] == '<'
    ensures !StartsGap(enc, s) && SkipWhiteSpace(enc, Some(s)) == Some(s)
  {
    assert s[0..] == s;
  }

  lemma IdentifyIsKind(enc: Encoding, s: string)
    requires s != "" && s[0] == '<'
    ensures Identify(enc, Some(s)) == Some(KindOf(s))
  {
    hide StartsEither, StartsWithIgnoringCase, SkipWhiteSpace, StartsGap;
    TagIsNoGap(enc, s);
    EitherIsIgnoringCase(s, "<?xml", "<?XML");
  }

  lemma CommentIsRead(enc: Encoding, value: string, rest: string, e: FirstError)
    requires MarksEnd(value, "-->")
    ensures ParseComment(enc, Some("<!--" + value + "-->" + rest), e) == Parsed(Comment(value), Some(rest), e)
  {
    hide MarksEnd, SkipWhiteSpace, StartsGap;
    var s := "<!--" + value + "-->" + rest;
    TagIsNoGap(enc, s);
    assert s[4..] == value + "-->" + rest;
    MarkIsFound(value, "-->", rest);
    assert s[4..][..|value|] == value && s[4..][|value| + 3..] == rest;
  }

  lemma CdataIsRead(enc: Encoding, value: string, rest: string, e: FirstError)
    requires MarksEnd(value, "]]>") && rest != ""
    ensures ParseCdata(enc, Some("<![CDATA[" + value + "]]>" + rest), e) == Parsed(Cdata(value), Some(rest), e)
  {
    hide MarksEnd, ReadText;
    var s := "<![CDATA[" + value + "]]>" + rest;
    assert s[9..] == value + "]]>" + rest;
    MarkIsFound(value, "]]>", rest);
    assert s[9..][..|value|] == value && s[9..][|value|..] == "]]>" + rest;
    EndIsRead(enc, rest);
  }

  lemma EndIsRead(enc: Encoding, rest: string)
    ensures ReadText(enc, Some("]]>" + rest), true, "]]>").p == if rest == "" then None else Some(rest)
  {
    assert ("]]>" + rest)[3..] == rest;
  }

  lemma UnknownIsRead(enc: Encoding, value: string, rest: string, e: FirstError)
    requires '>' !in value
    ensures ParseUnknown(enc, Some("<" + value + ">" + rest), e) == Parsed(Unknown(value), Some(rest), e)
  {
    hide SkipWhiteSpace, StartsGap, IndexOf;
    var s := "<" + value + ">" + rest;
    TagIsNoGap(enc, s);
    var t := s[1..];
    assert t == value + ">" + rest;
    IndexIs(t, '>', |value|);
    assert t[..|value|] == value && t[|value| + 1..] == rest;
  }

  lemma IndexIs(t: string, c: char, k: nat)
    requires k < |t| && t[k] == c && forall i :: 0 <= i < k ==> t[i] != c
    ensures IndexOf(t, c) == k
  {
  }

  lemma DeclarationIsRead(enc: Encoding, header: string, parts: seq<Part>, rest: string, e: FirstError)
    requires |header| == 5 && StartsEither(header, "<?xml", "<?XML") && AreParts(enc, parts, ">" + rest)
    ensures var s := header + PartsText(parts) + ">" + rest;
            StartsEither(s, "<?xml", "<?XML") &&
            ParseDeclaration(enc, Some(s), e) == Parsed(DeclareAll(enc, parts, Declaration("", "", "")), Some(rest), e)
  {
    hide AreParts, SkipWhiteSpace, StartsGap, StartsWithIgnoringCase, StartsEither, ParseDeclared, PartsText, DeclareAll;
    var t := PartsText(parts) + (">" + rest);
    var s := header + t;
    assert header + PartsText(parts) + ">" + rest == s;
    HeaderAhead(header, t);
    TagIsNoGap(enc, s);
    EitherIsIgnoringCase(s, "<?xml", "<?XML");
    PartsAreRead(enc, parts, rest, Declaration("", "", ""), e);
    assert s[5..] == t;
  }

  lemma HeaderAhead(header: string, t: string)
    requires |header| == 5 && StartsEither(header, "<?xml", "<?XML")
    ensures var s := header + t; s[0] == '<' && StartsEither(s, "<?xml", "<?XML")
  {
    var s := header + t;
    assert forall i :: 0 <= i < 5 ==> s[i] == header[i];
  }

  lemma PrefixInTag(tag: string, mark: string, rest: string)
    requires tag != "" && tag[|tag| - 1] == '>' && '>' !in mark
    ensures mark <= tag + rest <==> mark <= tag
  {
    var s := tag + rest;
    assert |mark| >= |tag| ==> s[|tag| - 1] == '>';
    if |mark| <= |tag| { assert s[..|mark|] == tag[..|mark|]; }
  }

  lemma HeaderInTag(tag: string, rest: string)
    requires tag != "" && tag[|tag| - 1] == '>'
    ensures StartsEither(tag + rest, "<?xml", "<?XML") <==> StartsEither(tag, "<?xml", "<?XML")
  {
    var s := tag + rest;
    assert forall i :: 0 <= i < |tag| ==> s[i] == tag[i];
  }

  lemma UnknownKindAhead(tag: string, rest: string)
    requires |tag| > 1 && tag[0] == '<' && tag[|tag| - 1] == '>'
    ensures KindOf(tag + rest) == KindOf(tag)
    ensures KindOf(tag) == UnknownKind <==> IsUnknownTag(tag)
  {
    hide StartsEither, StartsName;
    HeaderInTag(tag, rest);
    PrefixInTag(tag, "<!--", rest);
    PrefixInTag(tag, "<![CDATA[", rest);
    PrefixInTag(tag, "<!", rest);
  }

  /** Markup without content is identified and read. */
  lemma LeafIsRead(enc: Encoding, condense: bool, m: Markup, rest: string, e: FirstError)
    requires IsMarkup(enc, m, rest) && !m.ElementMarkup?
    ensures var s := MarkupText(m) + rest;
            s != "" && s[0] == '<' &&
            ParseNode(enc, condense, KindOf(s), s, e) == Parsed(MarkupNode(enc, condense, m), Some(rest), e)
  {
    hide ParseComment, ParseCdata, ParseUnknown, ParseDeclaration, MarksEnd, AreParts, StartsEither, PartsText, DeclareAll;
    var s := MarkupText(m) + rest;
    match m
    case CommentMarkup(value) =>
      CommentIsRead(enc, value, rest, e);
      assert s[..4] == "<!--";
      NoHeader(s);
    case CdataMarkup(value) =>
      CdataIsRead(enc, value, rest, e);
      assert s[..9] == "<![CDATA[" && s[2] == '[';
      NoHeader(s);
    case DeclarationMarkup(header, parts) =>
      DeclarationIsRead(enc, header, parts, rest, e);
      HeaderStarts(s);
    case UnknownMarkup(value) =>
      UnknownIsRead(enc, value, rest, e);
      UnknownKindAhead("<" + value + ">", rest);
  }

  lemma NoHeader(s: string)
    requires |s| > 1 && s[1] == '!'
    ensures !StartsEither(s, "<?xml", "<?XML")
  {
  }

  lemma HeaderStarts(s: string)
    requires StartsEither(s, "<?xml", "<?XML")
    ensures |s| >= 5 && s[0] == '<' && s[1] == '?'
  {
  }

  // ---------------------------------------------------------------- elements are read

  predicate NamesAreNew(attributes: seq<Attribute>, fields: seq<Field>) {
    forall i :: 0 <= i < |fields| ==> !HasAttribute(attributes, fields[i].name)
  }

  lemma FieldStarts(enc: Encoding, f: Field, t: string)
    requires IsField(enc, f, t)
    ensures var u := f.name + f.gap1 + "=" + f.gap2 + QuotingText(f.value) + t;
            !StartsGap(enc, u) && u != "" && u[0] != '/' && u[0] != '>' && FieldText(f) + t == f.before + u
  {
    hide IsGap, StartsGap, IsQuoting, QuotingText, NameEnds;
    var v := "=" + (f.gap2 + (QuotingText(f.value) + t));
    EqualsIsNoGap(enc, f.gap2 + (QuotingText(f.value) + t));
    NameEndsBehind(f.gap1, v);
    NameIsNoGap(enc, f.name, f.gap1 + v);
    var u := f.name + f.gap1 + "=" + f.gap2 + QuotingText(f.value) + t;
    assert u == f.name + (f.gap1 + v) && u[0] == f.name[0];
  }

  /** The attributes of a start tag are read one after the other. */
  lemma FieldIsAdded(enc: Encoding, condense: bool, f: Field, t: string, name: string, attributes: seq<Attribute>, e: FirstError)
    requires IsField(enc, f, t) && t != "" && !HasAttribute(attributes, f.name)
    ensures ParseInTag(enc, condense, FieldText(f) + t, name, attributes, e)
         == ParseInTag(enc, condense, t, name, attributes + [FieldAttribute(enc, f)], e)
  {
    hide IsField, IsGap, StartsGap, SkipWhiteSpace, ParseAttribute, HasAttribute, QuotingText, QuotingValue, ReadValue, ReadEndTag;
    FieldStarts(enc, f, t);
    var u := f.name + f.gap1 + "=" + f.gap2 + QuotingText(f.value) + t;
    assert IsGap(enc, f.before) by { BeforeIsGap(enc, f, t); }
    SkipGap(enc, f.before, u);
    BareField(enc, f, t);
    FieldIsRead(enc, f.(before := ""), t, e);
    assert FieldText(f.(before := "")) + t == u;
    assert FieldText(f) + t == f.before + u;
  }

  lemma BeforeIsGap(enc: Encoding, f: Field, t: string)
    requires IsField(enc, f, t)
    ensures IsGap(enc, f.before)
  {
  }

  lemma {:induction false} FieldsAreRead(enc: Encoding, condense: bool, fields: seq<Field>, t: string, name: string,
                                         attributes: seq<Attribute>, e: FirstError)
    requires AreFields(enc, fields, t) && t != "" && DistinctNames(fields) && NamesAreNew(attributes, fields)
    ensures ParseInTag(enc, condense, FieldsText(fields) + t, name, attributes, e)
         == ParseInTag(enc, condense, t, name, attributes + FieldAttributes(enc, fields), e)
    decreases |fields|
  {
    hide IsField, FieldText, ParseInTag, HasAttribute;
    if fields == [] {
      assert FieldsText(fields) + t == t && attributes + FieldAttributes(enc, fields) == attributes;
    } else {
      var f, more := fields[0], fields[1..];
      var u := FieldsText(more) + t;
      assert FieldsText(fields) + t == FieldText(f) + u;
      FieldIsAdded(enc, condense, f, u, name, attributes, e);
      var attributes' := attributes + [FieldAttribute(enc, f)];
      NamesStayNew(attributes, f, more, FieldAttribute(enc, f));
      assert forall i, j :: 0 <= i < j < |more| ==> more[i] == fields[i + 1] && more[j] == fields[j + 1];
      FieldsAreRead(enc, condense, more, t, name, attributes', e);
      assert attributes' + FieldAttributes(enc, more) == attributes + FieldAttributes(enc, fields);
    }
  }

  lemma NamesStayNew(attributes: seq<Attribute>, f: Field, more: seq<Field>, a: Attribute)
    requires NamesAreNew(attributes, [f] + more) && DistinctNames([f] + more) && a.name == f.name
    ensures NamesAreNew(attributes + [a], more)
  {
    var fields := [f] + more;
    forall i | 0 <= i < |more|
      ensures !HasAttribute(attributes + [a], more[i].name)
    {
      assert fields[i + 1] == more[i] && fields[0] == f;
    }
  }

  lemma EndTagIsRead(enc: Encoding, name: string, gap: string, rest: string, e: FirstError)
    requires IsGap(enc, gap)
    ensures ReadEndTag(enc, name, Some(EndTagText(name, gap) + rest), e) == (Some(rest), e)
  {
    hide IsGap, StartsGap, SkipWhiteSpace;
    var s := EndTagText(name, gap) + rest;
    assert s == "</" + name + (gap + (">" + rest));
    assert s[2 + |name|..] == gap + (">" + rest);
    assert !StartsGap(enc, ">" + rest) by { BracketIsNoGap(enc, rest); }
    SkipGap(enc, gap, ">" + rest);
    assert (">" + rest)[1..] == rest;
  }

  lemma BracketIsNoGap(enc: Encoding, t: string)
    ensures !StartsGap(enc, ">" + t) && !StartsGap(enc, "/>" + t)
  {
  }

  /** The loop over the content comes to the end tag. */
  lemma ContentEnds(enc: Encoding, condense: bool, behind: string, rest: string, nodes: seq<Node>, e: FirstError)
    requires IsGap(enc, behind) && "</" <= rest
    ensures ReadValue(enc, condense, Some(behind + rest), nodes, e) == ParsedNodes(nodes, Some(rest), e)
  {
    hide IsGap, StartsGap, SkipWhiteSpace, Identify, ParseNode, TextInElement, AllWhite;
    TagIsNoGap(enc, rest);
    SkipGap(enc, behind, rest);
  }

  lemma TextIsAdded(enc: Encoding, condense: bool, p: Piece, t: string, nodes: seq<Node>, e: FirstError)
    requires p.TextPiece? && IsPiece(enc, p, t)
    ensures ReadValue(enc, condense, Some(PieceText(p) + t), nodes, e)
         == ReadValue(enc, condense, Some(t), nodes + PieceNode(enc, condense, p), e)
  {
    hide IsGap, StartsGap, IsRun, SkipWhiteSpace, Identify, ParseNode, TextInElement, TextValue, RunText, WhiteLength;
    var q := RunText(p.ws) + t;
    TextIsRead(enc, condense, p.before, p.ws, t);
    SkipGap(enc, p.before, q);
    assert PieceText(p) + t == p.before + q;
    assert nodes + [] == nodes;
  }

  /** Markup of any kind is identified and read as its node, whatever follows. */
  lemma {:induction false} MarkupIsRead(enc: Encoding, condense: bool, m: Markup, rest: string, e: FirstError)
    requires IsMarkup(enc, m, rest)
    ensures var s := MarkupText(m) + rest;
            s != "" && s[0] == '<' && Identify(enc, Some(s)) == Some(KindOf(s)) &&
            ParseNode(enc, condense, KindOf(s), s, e) == Parsed(MarkupNode(enc, condense, m), Some(rest), e)
    decreases m
  {
    hide IsMarkup, MarkupText, MarkupNode, KindOf, ParseNode, Identify;
    var s := MarkupText(m) + rest;
    if m.ElementMarkup? {
      EndingIsKnown(enc, m, rest);
      EndingIsRead(enc, condense, m.ending, m.name, rest, FieldAttributes(enc, m.fields), e);
      ElementIsRead(enc, condense, m, rest, e);
    } else {
      LeafIsRead(enc, condense, m, rest, e);
    }
    IdentifyIsKind(enc, s);
  }

  lemma EndingIsKnown(enc: Encoding, m: Markup, rest: string)
    requires m.ElementMarkup? && IsMarkup(enc, m, rest)
    ensures IsEnding(enc, m.ending, m.name, rest)
  {
  }

  lemma EndingIsText(ending: Ending, name: string)
    ensures EndingText(ending, name) != ""
  {
  }

  /** An element is read up to its ending, and with it. */
  lemma ElementIsRead(enc: Encoding, condense: bool, m: Markup, rest: string, e: FirstError)
    requires m.ElementMarkup? && IsMarkup(enc, m, rest)
    requires ParseInTag(enc, condense, EndingText(m.ending, m.name) + rest, m.name, FieldAttributes(enc, m.fields), e)
          == Parsed(Element(m.name, FieldAttributes(enc, m.fields), EndingNodes(enc, condense, m.ending)), Some(rest), e)
    ensures var s := MarkupText(m) + rest;
            s != "" && s[0] == '<' &&
            ParseNode(enc, condense, KindOf(s), s, e) == Parsed(MarkupNode(enc, condense, m), Some(rest), e)
  {
    hide ParseInTag, ParseNode, KindOf, FieldsText, EndingText, AreFields, IsEnding, EndingNodes, IsGap, StartsGap, IsName, NameEnds,
         DistinctNames, StartsName;
    var t := EndingText(m.ending, m.name) + rest;
    var u := FieldsText(m.fields) + t;
    assert MarkupText(m) + rest == "<" + (m.lead + (m.name + u));
    EndingIsText(m.ending, m.name);
    EndsAhead(FieldsText(m.fields) + EndingText(m.ending, m.name), rest);
    assert FieldsText(m.fields) + EndingText(m.ending, m.name) + rest == u;
    NameIsNoGap(enc, m.name, u);
    NothingNamed(m.fields);
    FieldsAreRead(enc, condense, m.fields, t, m.name, [], e);
    assert [] + FieldAttributes(enc, m.fields) == FieldAttributes(enc, m.fields);
    TagIsOpened(enc, condense, m.lead, m.name, u, e);
  }

  /** A start tag is read up to its name. */
  lemma TagIsOpened(enc: Encoding, condense: bool, lead: string, name: string, u: string, e: FirstError)
    requires IsGap(enc, lead) && IsName(name) && StartsName((lead + name)[0]) && NameEnds(u) && !StartsGap(enc, name + u) && u != ""
    ensures var s := "<" + (lead + (name + u));
            KindOf(s) == ElementKind && ParseNode(enc, condense, KindOf(s), s, e) == ParseInTag(enc, condense, u, name, [], e)
  {
    hide IsGap, StartsGap, SkipWhiteSpace, ReadName, NameEnds, ParseInTag, KindOf, StartsName;
    var s := "<" + (lead + (name + u));
    assert s[1..] == lead + (name + u);
    assert s[1] == (lead + name)[0];
    NoOtherTag(s);
    TagIsNoGap(enc, s);
    SkipGap(enc, lead, name + u);
    NameIsRead(name, u);
  }

  lemma NothingNamed(fields: seq<Field>)
    ensures NamesAreNew([], fields)
  {
  }

  lemma EndsAhead(a: string, rest: string)
    requires a != "" && NameEnds(a)
    ensures NameEnds(a + rest)
  {
    hide InName;
  }

  lemma NoOtherTag(s: string)
    requires |s| > 1 && s[0] == '<' && StartsName(s[1])
    ensures KindOf(s) == ElementKind
  {
  }

  lemma {:induction false} EndingIsRead(enc: Encoding, condense: bool, ending: Ending, name: string, rest: string,
                                        attributes: seq<Attribute>, e: FirstError)
    requires IsEnding(enc, ending, name, rest)
    ensures ParseInTag(enc, condense, EndingText(ending, name) + rest, name, attributes, e)
         == Parsed(Element(name, attributes, EndingNodes(enc, condense, ending)), Some(rest), e)
    decreases ending
  {
    hide IsGap, StartsGap, SkipWhiteSpace, ArePieces, PiecesText, PieceNodes, EndTagText, ReadValue, ReadEndTag, ParseAttribute, HasAttribute;
    BracketIsNoGap(enc, rest);
    match ending
    case Empty(gap) =>
      assert gap + "/>" + rest == gap + ("/>" + rest);
      SkipGap(enc, gap, "/>" + rest);
      assert ("/>" + rest)[2..] == rest;
    case Filled(gap, pieces, behind, gap2) =>
      var end := EndTagText(name, gap2) + rest;
      var t := PiecesText(pieces) + (behind + end);
      assert EndingText(ending, name) + rest == gap + (">" + t);
      assert behind + EndTagText(name, gap2) + rest == behind + end;
      BracketIsNoGap(enc, t);
      SkipGap(enc, gap, ">" + t);
      assert (">" + t)[1..] == t;
      PiecesAreRead(enc, condense, pieces, behind + end, [], e);
      assert [] + PieceNodes(enc, condense, pieces) == PieceNodes(enc, condense, pieces);
      EndTagStarts(name, gap2, rest);
      ContentEnds(enc, condense, behind, end, PieceNodes(enc, condense, pieces), e);
      EndTagIsRead(enc, name, gap2, rest, e);
  }

  lemma EndTagStarts(name: string, gap: string, rest: string)
    ensures "</" <= EndTagText(name, gap) + rest
  {
  }

  /** Content is read piece by piece. */
  lemma {:induction false} PiecesAreRead(enc: Encoding, condense: bool, pieces: seq<Piece>, t: string, nodes: seq<Node>, e: FirstError)
    requires ArePieces(enc, pieces, t)
    ensures ReadValue(enc, condense, Some(PiecesText(pieces) + t), nodes, e)
         == ReadValue(enc, condense, Some(t), nodes + PieceNodes(enc, condense, pieces), e)
    decreases pieces
  {
    hide IsPiece, PieceText, PieceNode, ReadValue;
    if pieces == [] {
      assert PiecesText(pieces) + t == t && nodes + PieceNodes(enc, condense, pieces) == nodes;
    } else {
      var u := PiecesText(pieces[1..]) + t;
      assert PiecesText(pieces) + t == PieceText(pieces[0]) + u;
      PieceIsRead(enc, condense, pieces[0], u, nodes, e);
      var nodes' := nodes + PieceNode(enc, condense, pieces[0]);
      PiecesAreRead(enc, condense, pieces[1..], t, nodes', e);
      assert nodes' + PieceNodes(enc, condense, pieces[1..]) == nodes + PieceNodes(enc, condense, pieces);
    }
  }

  lemma {:induction false} PieceIsRead(enc: Encoding, condense: bool, p: Piece, t: string, nodes: seq<Node>, e: FirstError)
    requires IsPiece(enc, p, t)
    ensures ReadValue(enc, condense, Some(PieceText(p) + t), nodes, e)
         == ReadValue(enc, condense, Some(t), nodes + PieceNode(enc, condense, p), e)
    decreases p
  {
    hide IsMarkup, MarkupText, MarkupNode, KindOf, IsText, ReadValue, ParseNode, Identify, IsGap;
    if p.TextPiece? {
      TextIsAdded(enc, condense, p, t, nodes, e);
    } else {
      MarkupIsRead(enc, condense, p.markup, t, e);
      NoEndTag(enc, p.markup, t);
      assert PieceText(p) + t == p.before + (MarkupText(p.markup) + t);
      TagIsAdded(enc, condense, p.before, MarkupText(p.markup) + t, nodes, e);
    }
  }

  lemma NoEndTag(enc: Encoding, m: Markup, t: string)
    requires IsMarkup(enc, m, t) && (m.UnknownMarkup? && m.value != "" ==> m.value[0] != '/')
    ensures !("</" <= MarkupText(m) + t)
  {
    hide IsGap, IsEnding, AreFields, AreParts, EndingText, FieldsText, PartsText, IsUnknownTag, MarksEnd;
    var s := MarkupText(m) + t;
    if m.ElementMarkup? {
      NameIsLong(m.name);
      assert s[1] == (m.lead + m.name)[0];
    } else if m.DeclarationMarkup? {
      assert s[1] == m.header[1];
    } else if m.UnknownMarkup? {
      assert s[1] == (m.value + ">")[0];
    } else {
      assert s[1] == '!';
    }
  }

  /** One turn of the loop over the content, at a tag. */
  lemma TagIsAdded(enc: Encoding, condense: bool, before: string, s: string, nodes: seq<Node>, e: FirstError)
    requires IsGap(enc, before) && s != "" && s[0] == '<' && !("</" <= s) && Identify(enc, Some(s)) == Some(KindOf(s))
    ensures var r := ParseNode(enc, condense, KindOf(s), s, e);
            ReadValue(enc, condense, Some(before + s), nodes, e) == ReadValue(enc, condense, r.p, nodes + [r.node], r.error)
  {
    hide IsGap, StartsGap, SkipWhiteSpace, ParseNode, Identify, KindOf, TextInElement, AllWhite;
    TagIsNoGap(enc, s);
    SkipGap(enc, before, s);
  }

  // ---------------------------------------------------------------- what is read without an error

  lemma ReadIsComment(enc: Encoding, s: string) returns (m: Markup, rest: string)
    requires "<!--" <= s && Find(s[4..], "-->") < |s[4..]|
    ensures m.CommentMarkup? && IsMarkup(enc, m, rest) && s == MarkupText(m) + rest
  {
    hide MarksEnd;
    var value;
    value, rest := FoundIsMark(s[4..], "-->");
    m := CommentMarkup(value);
    assert s == "<!--" + s[4..] && "<!--" + (value + "-->" + rest) == MarkupText(m) + rest;
  }

  lemma ReadIsCdata(enc: Encoding, s: string) returns (m: Markup, rest: string)
    requires "<![CDATA[" <= s && ParseCdata(enc, Some(s), None).p.Some?
    ensures m.CdataMarkup? && IsMarkup(enc, m, rest) && s == MarkupText(m) + rest
  {
    hide MarksEnd, ReadText, Find, ParseCdata;
    SectionIsClosed(enc, s);
    var value;
    value, rest := FoundIsMark(s[9..], "]]>");
    m := CdataMarkup(value);
    SectionRest(enc, s, value, rest);
  }

  lemma SectionRest(enc: Encoding, s: string, value: string, rest: string)
    requires "<![CDATA[" <= s && s[9..] == value + "]]>" + rest && |value| == Find(s[9..], "]]>")
    requires ReadText(enc, Some(s[9..][|value|..]), true, "]]>").p.Some?
    ensures rest != "" && s == MarkupText(CdataMarkup(value)) + rest
  {
    hide ReadText, Find;
    var t := s[9..];
    assert t[|value|..] == "]]>" + rest;
    EndIsRead(enc, rest);
    assert s == "<![CDATA[" + t && "<![CDATA[" + (value + "]]>" + rest) == "<![CDATA[" + value + "]]>" + rest;
  }

  /** Without an end mark the pointer behind a CDATA section is null. */
  lemma SectionIsClosed(enc: Encoding, s: string)
    requires "<![CDATA[" <= s && ParseCdata(enc, Some(s), None).p.Some?
    ensures Find(s[9..], "]]>") < |s[9..]|
    ensures ReadText(enc, Some(s[9..][Find(s[9..], "]]>")..]), true, "]]>").p.Some?
  {
    hide ReadText, Find;
    NothingLeft(enc);
    var t := s[9..];
    assert t[|t|..] == "";
  }

  lemma NothingLeft(enc: Encoding)
    ensures ReadText(enc, Some(""), true, "]]>").p.None?
  {
  }

  lemma ReadIsUnknown(enc: Encoding, s: string) returns (m: Markup, rest: string)
    requires s != "" && s[0] == '<' && KindOf(s) == UnknownKind && IndexOf(s[1..], '>') < |s[1..]|
    ensures m.UnknownMarkup? && IsMarkup(enc, m, rest) && s == MarkupText(m) + rest
  {
    hide KindOf, IsUnknownTag;
    var t := s[1..];
    var k := IndexOf(t, '>');
    m, rest := UnknownMarkup(t[..k]), t[k + 1..];
    assert t == t[..k] + ">" + rest;
    assert s == MarkupText(m) + rest;
    UnknownKindAhead("<" + t[..k] + ">", rest);
  }

  lemma ReadIsDeclaration(enc: Encoding, s: string) returns (m: Markup, rest: string)
    requires StartsEither(s, "<?xml", "<?XML") && ParseDeclaration(enc, Some(s), None).p.Some?
    ensures m.DeclarationMarkup? && IsMarkup(enc, m, rest) && s == MarkupText(m) + rest
  {
    hide AreParts, SkipWhiteSpace, StartsGap, StartsWithIgnoringCase, ParseDeclared, PartsText;
    HeaderStarts(s);
    TagIsNoGap(enc, s);
    EitherIsIgnoringCase(s, "<?xml", "<?XML");
    var parts;
    parts, rest := ReadIsParts(enc, s[5..], Declaration("", "", ""), None);
    m := DeclarationMarkup(s[..5], parts);
    assert s == s[..5] + s[5..];
  }

  /** A node without content that is closed, and has something behind it. */
  lemma ReadIsLeaf(enc: Encoding, condense: bool, s: string) returns (m: Markup, rest: string)
    requires s != "" && s[0] == '<' && KindOf(s) != ElementKind
    requires var p := ParseNode(enc, condense, KindOf(s), s, None).p; p.Some? && p.value != ""
    ensures IsMarkup(enc, m, rest) && s == MarkupText(m) + rest && !m.ElementMarkup?
  {
    hide IsMarkup, MarkupText, ParseCdata, ParseDeclaration, SkipWhiteSpace, StartsGap, StartsEither, Find, IndexOf;
    TagIsNoGap(enc, s);
    match KindOf(s)
    case CommentKind => m, rest := ReadIsComment(enc, s);
    case CdataKind => m, rest := ReadIsCdata(enc, s);
    case DeclarationKind => m, rest := ReadIsDeclaration(enc, s);
    case UnknownKind => m, rest := ReadIsUnknown(enc, s);
  }

  // ---------------------------------------------------------------- elements that are read without an error

  /** Content read without an error up to something behind it: pieces, and then an end tag. */
  lemma {:induction false} ReadIsContent(enc: Encoding, condense: bool, s: string, nodes: seq<Node>)
    returns (pieces: seq<Piece>, behind: string, rest: string)
    requires var r := ReadValue(enc, condense, Some(s), nodes, None); r.error.None? && r.p.Some? && r.p.value != ""
    ensures ArePieces(enc, pieces, behind + rest) && IsGap(enc, behind) && "</" <= rest
    ensures s == PiecesText(pieces) + (behind + rest)
    decreases |s|, 5
  {
    hide IsPiece, IsGap, StartsGap, SkipWhiteSpace, ReadValue, ParseNode, PieceText;
    NoValueBehind(enc, condense, nodes);
    var before, q := Skipped(enc, s);
    ContentStep(enc, condense, before, q, nodes);
    if "</" <= q {
      pieces, behind, rest := [], before, q;
      assert PiecesText(pieces) + (behind + rest) == s;
    } else {
      var piece, t := ReadIsPiece(enc, condense, before, q, nodes);
      var nodes' := nodes + PieceNode(enc, condense, piece);
      PieceIsRead(enc, condense, piece, t, nodes, None);
      var more;
      more, behind, rest := ReadIsContent(enc, condense, t, nodes');
      pieces := [piece] + more;
      assert pieces[1..] == more;
      assert s == PieceText(piece) + PiecesText(more) + (behind + rest);
    }
  }

  /** The loop over the content fails without text, and at the end of the text it has nothing behind it. */
  lemma NoValueBehind(enc: Encoding, condense: bool, nodes: seq<Node>)
    ensures ReadValue(enc, condense, None, nodes, None).error.Some?
    ensures ReadValue(enc, condense, Some(""), nodes, None).error.Some?
  {
  }

  lemma ContentStep(enc: Encoding, condense: bool, before: string, q: string, nodes: seq<Node>)
    requires IsGap(enc, before) && !StartsGap(enc, q) && before + q != ""
    ensures q == "" ==> ReadValue(enc, condense, Some(before + q), nodes, None).p == Some("")
  {
    hide IsGap, StartsGap, SkipWhiteSpace, ParseNode, TextInElement, Identify;
    SkipGap(enc, before, q);
  }

  lemma {:induction false} ReadIsPiece(enc: Encoding, condense: bool, before: string, q: string, nodes: seq<Node>)
    returns (piece: Piece, t: string)
    requires IsGap(enc, before) && !StartsGap(enc, q) && q != "" && !("</" <= q)
    requires var r := ReadValue(enc, condense, Some(before + q), nodes, None); r.error.None? && r.p.Some? && r.p.value != ""
    ensures IsPiece(enc, piece, t) && before + q == PieceText(piece) + t && |t| < |before + q|
    decreases |before + q|, 4
  {
    hide IsGap, StartsGap, SkipWhiteSpace, ReadValue, ParseNode, TextInElement, Identify, IsText, IsMarkup, MarkupText, RunText, WhiteLength, KindOf;
    if q[0] != '<' {
      var ws;
      TextHasTag(enc, condense, before, q, nodes);
      ws, t := ReadIsText(enc, condense, before, q);
      piece := TextPiece(before, ws);
      assert before + (RunText(ws) + t) == before + RunText(ws) + t;
      RunIsLong(enc, before, ws, t);
    } else {
      NodeHasRest(enc, condense, before, q, nodes);
      var m;
      m, t := ReadIsMarkup(enc, condense, q);
      piece := TagPiece(before, m);
      assert before + (MarkupText(m) + t) == before + MarkupText(m) + t;
      MarkupIsLong(m);
      if m.UnknownMarkup? { UnknownTagStarts(m, t); }
    }
  }

  lemma RunIsLong(enc: Encoding, before: string, ws: seq<Written>, t: string)
    requires IsText(enc, before, ws, t)
    ensures RunText(ws) != ""
  {
    FirstOfRun(enc, ws, '<', t);
  }

  lemma MarkupIsLong(m: Markup)
    ensures |MarkupText(m)| > 0
  {
    hide PartsText, FieldsText, EndingText;
  }

  lemma UnknownTagStarts(m: Markup, t: string)
    requires m.UnknownMarkup?
    ensures m.value != "" && m.value[0] == '/' ==> "</" <= MarkupText(m) + t
  {
  }

  /** Text inside an element that is read without an error has a tag behind it. */
  lemma TextHasTag(enc: Encoding, condense: bool, before: string, q: string, nodes: seq<Node>)
    requires IsGap(enc, before) && !StartsGap(enc, q) && q != "" && q[0] != '<'
    requires ReadValue(enc, condense, Some(before + q), nodes, None).error.None?
    ensures q == (before + q)[WhiteLength(enc, before + q)..] && TextInElement(enc, condense, before + q, q).1.Some?
  {
    hide IsGap, StartsGap, WhiteLength, TextInElement, AllWhite;
    GapIsPassed(enc, before, q);
    assert (before + q)[|before|..] == q;
    var (value, rest) := TextInElement(enc, condense, before + q, q);
    NoValueBehind(enc, condense, if AllWhite(value) then nodes else nodes + [Text(value)]);
  }

  lemma NodeHasRest(enc: Encoding, condense: bool, before: string, q: string, nodes: seq<Node>)
    requires IsGap(enc, before) && q != "" && q[0] == '<' && !("</" <= q)
    requires ReadValue(enc, condense, Some(before + q), nodes, None).error.None?
    ensures var r := ParseNode(enc, condense, KindOf(q), q, None); r.error.None? && r.p.Some? && r.p.value != ""
  {
    hide ReadValue, ParseNode, KindOf, IsGap;
    IdentifyIsKind(enc, q);
    TagIsAdded(enc, condense, before, q, nodes, None);
    var r := ParseNode(enc, condense, KindOf(q), q, None);
    ErrorStays(enc, condense, r.p, nodes + [r.node], r.error);
    NoValueBehind(enc, condense, nodes + [r.node]);
  }

  lemma ErrorStays(enc: Encoding, condense: bool, p: Pointer, nodes: seq<Node>, e: FirstError)
    ensures e.Some? ==> ReadValue(enc, condense, p, nodes, e).error.Some?
  {
    hide ReadValue;
    if e.Some? { ContentIsWellFormed(enc, condense, p, nodes, e); }
  }

  /** A node that is read without an error, up to something behind it, is markup. */
  lemma {:induction false} ReadIsMarkup(enc: Encoding, condense: bool, s: string) returns (m: Markup, rest: string)
    requires s != "" && s[0] == '<'
    requires var r := ParseNode(enc, condense, KindOf(s), s, None); r.error.None? && r.p.Some? && (KindOf(s) == ElementKind || r.p.value != "")
    ensures IsMarkup(enc, m, rest) && s == MarkupText(m) + rest
    decreases |s|, 3
  {
    hide IsMarkup, MarkupText, KindOf, ParseElement;
    if KindOf(s) == ElementKind { m, rest := ReadIsElement(enc, condense, s); } else { m, rest := ReadIsLeaf(enc, condense, s); }
  }

  lemma {:induction false} ReadIsElement(enc: Encoding, condense: bool, s: string) returns (m: Markup, rest: string)
    requires s != "" && s[0] == '<' && KindOf(s) == ElementKind && ParseElement(enc, condense, s, None).error.None?
    ensures m.ElementMarkup? && IsMarkup(enc, m, rest) && s == MarkupText(m) + rest
    decreases |s|, 2
  {
    hide IsGap, StartsGap, SkipWhiteSpace, ReadName, IsName, NameEnds, AreFields, IsEnding, EndingText, FieldsText, ParseInTag,
         DistinctNames, StartsName;
    TagIsNoGap(enc, s);
    ElementStarts(s);
    var lead, t := Skipped(enc, s[1..]);
    var name, u := NameOfElement(enc, condense, s, lead, t);
    var fields, ending;
    fields, ending, rest := ReadIsTag(enc, condense, u, name, []);
    m := ElementMarkup(lead, name, fields, ending);
    assert FieldsText(fields) + EndingText(ending, name) + rest == u;
    ElementIsComplete(enc, lead, name, fields, ending, rest);
    assert s == "<" + (lead + (name + u)) by { assert s == "<" + s[1..]; }
    assert s[1] == (lead + (name + u))[0];
    assert FieldsText(fields) + (EndingText(ending, name) + rest) == u;
  }

  lemma ElementIsComplete(enc: Encoding, lead: string, name: string, fields: seq<Field>, ending: Ending, rest: string)
    requires var end := EndingText(ending, name);
             var u := FieldsText(fields) + (end + rest);
             IsGap(enc, lead) && IsName(name) && NameEnds(u) && !StartsGap(enc, name + u) && StartsName((lead + (name + u))[0]) &&
             AreFields(enc, fields, end + rest) && DistinctNames(fields) && IsEnding(enc, ending, name, rest)
    ensures var m := ElementMarkup(lead, name, fields, ending);
            IsMarkup(enc, m, rest) && MarkupText(m) + rest == "<" + (lead + (name + (FieldsText(fields) + (EndingText(ending, name) + rest))))
  {
    hide IsGap, StartsGap, IsName, NameEnds, AreFields, IsEnding, EndingText, FieldsText, DistinctNames, StartsName;
    var f, end := FieldsText(fields), EndingText(ending, name);
    EndingIsText(ending, name);
    Associate(f, end, rest);
    EndsBefore(f + end, rest);
    NameIsLong(name);
    NameIsNoGap(enc, name, f + (end + rest));
    assert (lead + name)[0] == (lead + (name + (f + (end + rest))))[0];
    Associate(name, f + end, rest);
    Associate(lead, name + (f + end), rest);
    Associate("<", lead + (name + (f + end)), rest);
  }

  lemma ElementStarts(s: string)
    requires s != "" && s[0] == '<' && KindOf(s) == ElementKind
    ensures |s| > 1 && StartsName(s[1])
  {
    hide StartsEither;
  }

  lemma EndsBefore(a: string, rest: string)
    requires a != "" && NameEnds(a + rest)
    ensures NameEnds(a)
  {
    hide InName;
    assert (a + rest)[0] == a[0];
  }

  lemma NameOfElement(enc: Encoding, condense: bool, s: string, lead: string, t: string) returns (name: string, u: string)
    requires s != "" && s[0] == '<' && ParseElement(enc, condense, s, None).error.None?
    requires SkipWhiteSpace(enc, Some(s)) == Some(s) && SkipWhiteSpace(enc, Some(s[1..])) == Some(t)
    ensures IsName(name) && NameEnds(u) && t == name + u && u != "" && ParseInTag(enc, condense, u, name, [], None).error.None?
  {
    hide SkipWhiteSpace, ReadName, IsName, NameEnds, ParseInTag;
    name, u := ReadIsName(t);
  }

  /** A start tag read without an error, with all of the element behind its name. */
  lemma {:induction false} ReadIsTag(enc: Encoding, condense: bool, s: string, name: string, attributes: seq<Attribute>)
    returns (fields: seq<Field>, ending: Ending, rest: string)
    requires ParseInTag(enc, condense, s, name, attributes, None).error.None?
    ensures AreFields(enc, fields, EndingText(ending, name) + rest) && DistinctNames(fields) && NamesAreNew(attributes, fields)
    ensures IsEnding(enc, ending, name, rest) && s == FieldsText(fields) + (EndingText(ending, name) + rest)
    decreases |s|, 1
  {
    hide IsField, IsEnding, EndingText, IsGap, StartsGap, ParseInTag, FieldText, HasAttribute;
    InTagIsText(enc, condense, s, name, attributes);
    var gap, q := Skipped(enc, s);
    InTagStep(enc, condense, gap, q, name, attributes);
    if q[0] == '/' || q[0] == '>' {
      if q[0] == '/' { ending, rest := EmptyIsRead(enc, condense, gap, q, name, attributes); }
      else { ending, rest := ReadIsFilled(enc, condense, gap, q, name, attributes); }
      fields := [];
      assert FieldsText(fields) + (EndingText(ending, name) + rest) == s;
    } else {
      var f, t := ReadIsNewField(enc, condense, gap, q, name, attributes);
      FieldIsAdded(enc, condense, f, t, name, attributes, None);
      var more;
      more, ending, rest := ReadIsTag(enc, condense, t, name, attributes + [FieldAttribute(enc, f)]);
      fields := [f] + more;
      assert fields[1..] == more;
      FirstNameIsNew(attributes, FieldAttribute(enc, f), f, more);
      assert s == FieldText(f) + FieldsText(more) + (EndingText(ending, name) + rest);
    }
  }

  lemma InTagIsText(enc: Encoding, condense: bool, s: string, name: string, attributes: seq<Attribute>)
    requires ParseInTag(enc, condense, s, name, attributes, None).error.None?
    ensures s != ""
  {
  }

  lemma FirstNameIsNew(attributes: seq<Attribute>, a: Attribute, f: Field, more: seq<Field>)
    requires a.name == f.name && !HasAttribute(attributes, f.name) && DistinctNames(more) && NamesAreNew(attributes + [a], more)
    ensures DistinctNames([f] + more) && NamesAreNew(attributes, [f] + more)
  {
    var fields := [f] + more;
    forall i | 0 <= i < |more|
      ensures more[i].name != f.name && !HasAttribute(attributes, more[i].name)
    {
      var all := attributes + [a];
      assert !HasAttribute(all, more[i].name);
      assert all[|attributes|] == a;
      assert forall j :: 0 <= j < |attributes| ==> all[j] == attributes[j];
    }
  }

  /** What stands behind the gap in a start tag that is read without an error. */
  lemma InTagStep(enc: Encoding, condense: bool, gap: string, q: string, name: string, attributes: seq<Attribute>)
    requires gap + q != "" && SkipWhiteSpace(enc, Some(gap + q)) == Some(q)
    requires ParseInTag(enc, condense, gap + q, name, attributes, None).error.None?
    ensures q != ""
  {
    hide SkipWhiteSpace, ParseAttribute, ReadValue, ReadEndTag, HasAttribute;
  }

  lemma EmptyIsRead(enc: Encoding, condense: bool, gap: string, q: string, name: string, attributes: seq<Attribute>)
    returns (ending: Ending, rest: string)
    requires IsGap(enc, gap) && !StartsGap(enc, q) && q != "" && q[0] == '/'
    requires ParseInTag(enc, condense, gap + q, name, attributes, None).error.None?
    ensures IsEnding(enc, ending, name, rest) && gap + q == EndingText(ending, name) + rest
  {
    hide IsGap, StartsGap, SkipWhiteSpace, ParseAttribute, ReadValue, ReadEndTag, HasAttribute;
    SkipGap(enc, gap, q);
    ending, rest := Empty(gap), q[2..];
    assert q == "/>" + rest;
  }

  lemma {:induction false} ReadIsFilled(enc: Encoding, condense: bool, gap: string, q: string, name: string, attributes: seq<Attribute>)
    returns (ending: Ending, rest: string)
    requires IsGap(enc, gap) && !StartsGap(enc, q) && q != "" && q[0] == '>'
    requires ParseInTag(enc, condense, gap + q, name, attributes, None).error.None?
    ensures IsEnding(enc, ending, name, rest) && gap + q == EndingText(ending, name) + rest
    decreases |gap + q|, 0
  {
    hide IsGap, StartsGap, ArePieces, PiecesText, ReadValue, ReadEndTag;
    var t := q[1..];
    var nodes := ContentOfElement(enc, condense, gap, q, name, attributes);
    var r := ReadValue(enc, condense, Some(t), [], None);
    var pieces, behind, end := ReadIsContent(enc, condense, t, []);
    PiecesAreRead(enc, condense, pieces, behind + end, [], None);
    ContentEnds(enc, condense, behind, end, [] + PieceNodes(enc, condense, pieces), None);
    var gap2;
    gap2, rest := ReadIsEndTag(enc, name, end);
    ending := Filled(gap, pieces, behind, gap2);
    assert q == ">" + t && end == EndTagText(name, gap2) + rest;
    assert behind + EndTagText(name, gap2) + rest == behind + end;
    assert gap + q == gap + (">" + (PiecesText(pieces) + (behind + EndTagText(name, gap2)))) + rest;
  }

  /** The content and the end tag of an element without an error have none either. */
  lemma ContentOfElement(enc: Encoding, condense: bool, gap: string, q: string, name: string, attributes: seq<Attribute>) returns (nodes: seq<Node>)
    requires IsGap(enc, gap) && !StartsGap(enc, q) && q != "" && q[0] == '>'
    requires ParseInTag(enc, condense, gap + q, name, attributes, None).error.None?
    ensures var r := ReadValue(enc, condense, Some(q[1..]), [], None);
            r.error.None? && r.p.Some? && r.p.value != "" && ReadEndTag(enc, name, r.p, None).1.None?
  {
    hide IsGap, StartsGap, SkipWhiteSpace, ParseAttribute, ReadValue, HasAttribute;
    SkipGap(enc, gap, q);
    var r := ReadValue(enc, condense, Some(q[1..]), [], None);
    EndTagKeepsError(enc, name, r.p, r.error);
    return r.nodes;
  }

  lemma ReadIsEndTag(enc: Encoding, name: string, s: string) returns (gap: string, rest: string)
    requires ReadEndTag(enc, name, Some(s), None).1.None?
    ensures IsGap(enc, gap) && s == EndTagText(name, gap) + rest
  {
    hide IsGap, StartsGap, SkipWhiteSpace;
    var t := s[2 + |name|..];
    EndIsNotSkipped(enc);
    var q;
    gap, q := Skipped(enc, t);
    rest := q[1..];
    assert s == "</" + name + t && q == ">" + rest;
  }

  lemma ReadIsNewField(enc: Encoding, condense: bool, gap: string, q: string, name: string, attributes: seq<Attribute>) returns (f: Field, t: string)
    requires IsGap(enc, gap) && !StartsGap(enc, q) && q != "" && q[0] != '/' && q[0] != '>'
    requires ParseInTag(enc, condense, gap + q, name, attributes, None).error.None?
    ensures IsField(enc, f, t) && gap + q == FieldText(f) + t && t != "" && !HasAttribute(attributes, f.name) && |t| < |gap + q|
  {
    hide IsGap, StartsGap, SkipWhiteSpace, ParseAttribute, ReadValue, ReadEndTag, HasAttribute, IsQuoting, QuotingText, QuotingValue;
    SkipGap(enc, gap, q);
    var a := ParseAttribute(enc, Some(q), None);
    var f0;
    f0, t := ReadIsField(enc, q, None);
    FieldIsRead(enc, f0, t, None);
    NoGapAhead(enc, f0, t);
    f := f0.(before := gap);
    Rebased(enc, f0, gap, t);
    assert FieldText(f) + t == gap + (FieldText(f0) + t);
  }
}
