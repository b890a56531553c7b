/** The texts that Reader accepts, as trees of tokens that are told apart from the parser: RFC 8259
    with comments, a brace behind an empty name, a loose separator behind a comment, and anything
    behind the root. It is proved that exactly these texts are accepted, with the value of the tree,
    and which error any other text is reported with. */
module JsonReadable {
  import opened Options
  import opened CString
  import opened Utf8
  import opened JsonValue
  import opened JsonLexer
  import opened JsonNumber
  import opened JsonString
  import opened JsonParser
  import opened JsonText
  import opened JsonGrammar
  import opened JsonSpelling

  // ---------------------------------------------------------------- trees

  datatype Leaf = NullLeaf | TrueLeaf | FalseLeaf | NumberLeaf(text: string) | StringLeaf(cs: seq<Char>)

  /** A value with the comments in front of it. */
  datatype Tree =
    | LeafTree(lead: seq<Token>, leaf: Leaf)
    | ListTree(lead: seq<Token>, slots: seq<Slot>)
    | RecordTree(lead: seq<Token>, entries: Entries)

  /** An item with the comments behind it. */
  datatype Slot = Slot(tree: Tree, behind: seq<Token>)

  /** A member with the comments in front of its name and behind its value. */
  datatype Entry = Entry(before: seq<Token>, name: seq<Char>, tree: Tree, behind: seq<Token>)

  /** What stands between a brace and its closing brace, which is part of it. */
  datatype Entries = Close(before: seq<Token>) | Last(entry: Entry) | Then(entry: Entry, separator: Token, more: Entries)

  function NameToken(cs: seq<Char>): Token { Token(StringToken, StringText(cs)) }

  function LeafToken(leaf: Leaf): Token {
    match leaf
    case NullLeaf => Token(NullToken, "null")
    case TrueLeaf => Token(TrueToken, "true")
    case FalseLeaf => Token(FalseToken, "false")
    case NumberLeaf(text) => Token(NumberToken, text)
    case StringLeaf(cs) => NameToken(cs)
  }

  function TreeTokens(t: Tree): seq<Token>
    decreases t
  {
    match t
    case LeafTree(lead, leaf) => lead + [LeafToken(leaf)]
    case ListTree(lead, slots) => lead + ([ARRAY_BEGIN] + (SlotsTokens(slots) + [ARRAY_END]))
    case RecordTree(lead, entries) => lead + ([OBJECT_BEGIN] + EntriesTokens(entries))
  }

  function SlotsTokens(slots: seq<Slot>): seq<Token>
    decreases slots
  {
    if slots == [] then []
    else TreeTokens(slots[0].tree) + (slots[0].behind + if |slots| == 1 then [] else [COMMA] + SlotsTokens(slots[1..]))
  }

  function EntryTokens(e: Entry): seq<Token>
    decreases e
  {
    e.before + ([NameToken(e.name), COLON] + (TreeTokens(e.tree) + e.behind))
  }

  function EntriesTokens(es: Entries): seq<Token>
    decreases es
  {
    match es
    case Close(before) => before + [OBJECT_END]
    case Last(e) => EntryTokens(e) + [OBJECT_END]
    case Then(e, separator, more) => EntryTokens(e) + ([separator] + EntriesTokens(more))
  }

  // ---------------------------------------------------------------- which trees are accepted

  predicate AreComments(toks: seq<Token>) { forall i :: 0 <= i < |toks| ==> toks[i].kind == CommentToken }

  /** In front of a value comments are a feature; anywhere else they are always skipped. */
  predicate IsLead(f: Features, lead: seq<Token>) { AreComments(lead) && (lead != [] ==> f.allowComments) }

  /** An optional sign and digits, perhaps none, that pass the overflow guards, or what sscanf scans. */
  predicate IsNumberLeaf(text: string, scan: DoubleScanner) {
    var digits := Unsigned(text);
    IsNumberText(text) &&
    (scan(text).Some? || (AllDigits(digits) && (digits == "" || ReadAsInteger(Decimal(digits), MaxMagnitude(IsNegative(text))))))
  }

  predicate IsLeaf(leaf: Leaf, scan: DoubleScanner) {
    match leaf
    case NumberLeaf(text) => IsNumberLeaf(text, scan)
    case StringLeaf(cs) => AreReadable(cs) && CharsAccepted(cs)
    case _ => true
  }

  predicate IsTree(f: Features, scan: DoubleScanner, t: Tree)
    decreases t
  {
    IsLead(f, t.lead) &&
    match t
    case LeafTree(_, leaf) => IsLeaf(leaf, scan)
    case ListTree(_, slots) => forall i :: 0 <= i < |slots| ==> IsSlot(f, scan, slots[i])
    case RecordTree(_, entries) => AreEntries(f, scan, "", entries)
  }

  predicate IsSlot(f: Features, scan: DoubleScanner, s: Slot)
    decreases s
  {
    IsTree(f, scan, s.tree) && AreComments(s.behind)
  }

  predicate IsEntry(f: Features, scan: DoubleScanner, e: Entry)
    decreases e
  {
    AreComments(e.before) && AreReadable(e.name) && CharsAccepted(e.name) && IsTree(f, scan, e.tree) && AreComments(e.behind)
  }

  /** A comma; behind a comment also any token but a brace. */
  predicate IsSeparator(behind: seq<Token>, t: Token) {
    t == COMMA || (behind != [] && t.kind != ObjectEnd && t.kind != CommentToken)
  }

  /** The brace stands behind a member; with no member before or behind an empty name and a
      separator it stands alone. */
  predicate AreEntries(f: Features, scan: DoubleScanner, held: string, es: Entries)
    decreases es
  {
    match es
    case Close(before) => AreComments(before) && held == ""
    case Last(e) => IsEntry(f, scan, e)
    case Then(e, separator, more) =>
      IsEntry(f, scan, e) && IsSeparator(e.behind, separator) && AreEntries(f, scan, CharsRead(e.name), more)
  }

  // ---------------------------------------------------------------- values of trees

  function LeafValue(leaf: Leaf, scan: DoubleScanner): Value {
    match leaf
    case NullLeaf => Null
    case TrueLeaf => Bool(true)
    case FalseLeaf => Bool(false)
    case NumberLeaf(text) => NumberOf(text, scan)
    case StringLeaf(cs) => Str(CStr(CharsRead(cs)))
  }

  /** Comments mean nothing. */
  function TreeValue(t: Tree, scan: DoubleScanner): Value
    decreases t
  {
    match t
    case LeafTree(_, leaf) => LeafValue(leaf, scan)
    case ListTree(_, slots) => Array(SlotValues(slots, scan))
    case RecordTree(_, entries) => Object(EntriesMembers(entries, [], scan))
  }

  function SlotValues(slots: seq<Slot>, scan: DoubleScanner): seq<Value>
    decreases slots
  {
    if slots == [] then [] else [TreeValue(slots[0].tree, scan)] + SlotValues(slots[1..], scan)
  }

  function EntryMembers(e: Entry, ms: seq<Member>, scan: DoubleScanner): seq<Member>
    decreases e
  {
    Assign(ms, CStr(CharsRead(e.name)), TreeValue(e.tree, scan))
  }

  function EntriesMembers(es: Entries, ms: seq<Member>, scan: DoubleScanner): seq<Member>
    decreases es
  {
    match es
    case Close(_) => ms
    case Last(e) => EntryMembers(e, ms, scan)
    case Then(e, _, more) => EntriesMembers(more, EntryMembers(e, ms, scan), scan)
  }

  // ---------------------------------------------------------------- leaves

  lemma SignedDigits(text: string)
    requires IsNumberText(text)
    ensures LooksReal(text) <==> !AllDigits(Unsigned(text))
  {
    var digits := Unsigned(text);
    var at := if IsNegative(text) then 1 else 0;
    assert forall i :: 0 <= i < |digits| ==> digits[i] == text[i + at];
    if !AllDigits(digits) {
      var i :| 0 <= i < |digits| && !IsDigit(digits[i]);
      assert IsNumberChar(text[i + at]);
      assert RealMark(text, i + at);
    }
    if LooksReal(text) {
      var i :| 0 <= i < |text| && RealMark(text, i);
      assert i >= at && !IsDigit(text[i]) && text[i] == digits[i - at];
    }
  }

  /** decodeNumber accepts exactly these number tokens. */
  lemma NumberIsAccepted(text: string, scan: DoubleScanner)
    requires IsNumberText(text)
    ensures DecodeNumber(text, scan).Number? <==> IsNumberLeaf(text, scan)
    ensures DecodeNumber(text, scan).Number? ==> DecodeNumber(text, scan) == Number(NumberOf(text, scan))
  {
    hide LooksReal, Decimal, ReadAsInteger, IsNumberText;
    SignedDigits(text);
    if AllDigits(Unsigned(text)) && Unsigned(text) != "" { DecodeIntegerText(text, scan); }
  }

  /** A minus sign alone is the number 0. */
  lemma LoneMinus(scan: DoubleScanner)
    ensures IsNumberLeaf("-", scan) && NumberOf("-", scan) == Int(0)
  {
    assert IsNumberText("-");
    SignedDigits("-");
  }

  /** The characters of a body that is decoded without an error. */
  lemma {:induction false} BodyIsChars(body: string) returns (cs: seq<Char>)
    requires !StopsEarly(body) && DecodeBody(body).Decoded?
    ensures AreReadable(cs) && CharsText(cs) == body
    decreases |body|
  {
    hide DecodeCodePoint, CodePointToUtf8;
    if body == "" { return []; }
    var front, rest;
    if body[0] != '\\' {
      front, rest := [Plain(body[0])], body[1..];
      assert CharText(front[0]) == [body[0]];
    } else {
      EscapeOfBody(body);
      rest := body[1 + DecodeEscape(body[1..]).length..];
      front := EscapeIsChars(body);
      assert body == CharsText(front) + rest;
    }
    var more := BodyIsChars(rest);
    cs := front + more;
    CharsTextConcat(front, more);
    if body[0] != '\\' { OneChar(front[0]); assert body == [body[0]] + rest; }
  }

  lemma EscapeOfBody(body: string)
    requires body != "" && body[0] == '\\' && !StopsEarly(body) && DecodeBody(body).Decoded?
    ensures DecodeEscape(body[1..]).Piece?
    ensures var rest := body[1 + DecodeEscape(body[1..]).length..]; !StopsEarly(rest) && DecodeBody(rest).Decoded?
  {
    hide DecodeEscape;
  }

  lemma OneChar(x: Char)
    ensures CharsText([x]) == CharText(x)
  {
    assert [x][1..] == [] && CharText(x) + "" == CharText(x);
  }

  lemma {:induction false} CharsTextConcat(a: seq<Char>, b: seq<Char>)
    ensures CharsText(a + b) == CharsText(a) + CharsText(b)
  {
    if a == [] {
      assert a + b == b;
    } else {
      assert (a + b)[1..] == a[1..] + b;
      CharsTextConcat(a[1..], b);
    }
  }

  /** An escape that is decoded is one of the grammar, or two that are read together. */
  lemma EscapeIsChars(body: string) returns (front: seq<Char>)
    requires body != "" && body[0] == '\\' && DecodeEscape(body[1..]).Piece?
    ensures AreReadable(front) && body == CharsText(front) + body[1 + DecodeEscape(body[1..]).length..]
  {
    hide CodePointToUtf8, DecodeCodePoint, IsHexDigit;
    var t := body[1..];
    if Unescape(t[0]) != NUL {
      front := [Short(t[0])];
      OneChar(front[0]);
      assert body == ['\\', t[0]] + body[2..];
    } else {
      front := UnicodeIsChars(t[1..]);
      assert body == "\\u" + t[1..] && t[1..][DecodeCodePoint(t[1..]).length..] == body[1 + (1 + DecodeCodePoint(t[1..]).length)..];
      assert body == CharsText(front) + t[1..][DecodeCodePoint(t[1..]).length..];
    }
  }

  lemma UnicodeIsChars(s: string) returns (front: seq<Char>)
    requires DecodeCodePoint(s).CodePoint?
    ensures AreReadable(front) && "\\u" + s == CharsText(front) + s[DecodeCodePoint(s).length..]
  {
    hide IsHexDigit, Hex4, Combine, IsHighSurrogate;
    var a := Unicode(s[..4]);
    OneChar(a);
    HexIsReadable(s);
    if DecodeCodePoint(s).length == 4 {
      front := [a];
      assert "\\u" + s == "\\u" + s[..4] + s[4..];
    } else {
      var b := Unicode(s[6..][..4]);
      HexIsReadable(s[6..]);
      OneChar(b);
      CharsTextConcat([a], [b]);
      front := [a] + [b];
      assert s[4..6] == "\\u";
      assert s == s[..4] + s[4..6] + s[6..][..4] + s[10..];
    }
  }

  lemma HexIsReadable(s: string)
    requires UnicodeEscape(s).CodePoint?
    ensures |s| >= 4 && IsReadable(Unicode(s[..4]))
  {
    hide IsHexDigit;
  }

  /** What is wrong with what stands behind a backslash. */
  function EscapeFault(t: string): string {
    if t == "" then "Empty escape sequence in string"
    else if t[0] != 'u' then "Bad escape sequence in string"
    else if !IsHex4(t[1..]) then HexFault(t[1..])
    else if |t| < 11 then "additional six characters expected to parse unicode surrogate pair."
    else if t[5..7] != "\\u" then "expecting another \\u token to begin the second half of a unicode surrogate pair"
    else HexFault(t[7..])
  }

  predicate IsHex4(t: string) { |t| >= 4 && IsReadable(Unicode(t[..4])) }

  function HexFault(t: string): string {
    if |t| < 4 then "Bad unicode escape sequence in string: four digits expected."
    else "Bad unicode escape sequence in string: hexadecimal digit expected."
  }

  lemma HexIsFault(t: string)
    ensures UnicodeEscape(t).CodePoint? <==> IsHex4(t)
    ensures UnicodeEscape(t).BadCodePoint? ==> UnicodeEscape(t).message == HexFault(t)
  {
    hide IsHexDigit, Hex4;
  }

  /** An escape that is not decoded is reported by what is wrong with it. */
  lemma EscapeIsFault(t: string)
    requires DecodeEscape(t).BadPiece?
    ensures DecodeEscape(t).message == EscapeFault(t)
  {
    hide IsHex4, HexFault, UnicodeEscape, Unescape, Combine;
    if t != "" && t[0] == 'u' && Unescape(t[0]) == NUL {
      var s := t[1..];
      HexIsFault(s);
      assert |t| >= 11 ==> (t[5..7] == "\\u" <==> s[4] == '\\' && s[5] == 'u') && s[6..] == t[7..];
      if |s| >= 10 { HexIsFault(s[6..]); }
      HexIsLong(s);
    }
  }

  lemma HexIsLong(s: string)
    ensures UnicodeEscape(s).CodePoint? ==> |s| >= 4
  {
    hide IsHexDigit, Hex4;
  }

  /** A body that is not decoded has characters up to a backslash with such a fault behind it. */
  lemma {:induction false} BodyHasFault(body: string) returns (cs: seq<Char>, t: string)
    requires !StopsEarly(body) && DecodeBody(body).BadString?
    ensures AreReadable(cs) && body == CharsText(cs) + ("\\" + t)
    ensures DecodeEscape(t).BadPiece? && DecodeBody(body) == BadString(EscapeFault(t))
    decreases |body|
  {
    hide DecodeEscape, EscapeFault, AreReadable, CharsText;
    if body[0] == '\\' && DecodeEscape(body[1..]).BadPiece? {
      EscapeIsFault(body[1..]);
      NoChars();
      assert body == "" + ("\\" + body[1..]);
      return [], body[1..];
    }
    var front, rest;
    if body[0] != '\\' {
      front, rest := [Plain(body[0])], body[1..];
      PlainIsReadable(body[0]);
      assert body == [body[0]] + rest;
    } else {
      rest := body[1 + DecodeEscape(body[1..]).length..];
      front := EscapeIsChars(body);
    }
    var more;
    more, t := BodyHasFault(rest);
    cs := front + more;
    CharsTextConcat(front, more);
    ReadableConcat(front, more);
    assert CharsText(front) + (CharsText(more) + ("\\" + t)) == CharsText(front) + CharsText(more) + ("\\" + t);
  }

  lemma NoChars()
    ensures CharsText([]) == "" && AreReadable([])
  {
  }

  lemma PlainIsReadable(c: char)
    ensures CharsText([Plain(c)]) == [c]
    ensures c != '\"' && c != '\\' ==> AreReadable([Plain(c)])
  {
    OneChar(Plain(c));
  }

  lemma ReadableConcat(a: seq<Char>, b: seq<Char>)
    requires AreReadable(a) && AreReadable(b)
    ensures AreReadable(a + b)
  {
    hide IsReadable;
  }

  /** decodeString accepts exactly the strings of these characters. */
  lemma StringIsAccepted(t: Token) returns (cs: seq<Char>)
    requires t.kind == StringToken && IsProper(t) && DecodeString(t.text).Decoded?
    ensures AreReadable(cs) && CharsAccepted(cs) && t == NameToken(cs) && DecodeString(t.text) == Decoded(CharsRead(cs))
  {
    hide DecodeBody, IsQuotedBody, AreReadable, CharsAccepted, CharsRead, CharsText, StopsEarly;
    var body := t.text[1..|t.text| - 1];
    assert t.text == "\"" + body + "\"" && Body(t.text) == body;
    BodyIsScanned(body, "");
    assert body + ("\"" + "") == body + [QUOTE];
    DecodingReachesTheEnd(body);
    cs := BodyIsChars(body);
    StringTextIsDecoded(cs);
  }

  // ---------------------------------------------------------------- comments

  lemma {:induction false} CommentsAreSkipped(comments: seq<Token>, tok: Token, rest: seq<Token>)
    requires AreComments(comments) && tok.kind != CommentToken
    ensures var (t, more) := Next(comments + ([tok] + rest)); SkipComments(t, more) == (tok, rest)
    decreases |comments|
  {
    var toks := comments + ([tok] + rest);
    if comments == [] {
      assert toks == [tok] + rest && toks[1..] == rest;
    } else {
      assert toks[1..] == comments[1..] + ([tok] + rest);
      CommentsAreSkipped(comments[1..], tok, rest);
    }
  }

  /** Comments in front of a value are passed over where they are allowed. */
  lemma LeadIsSkipped(f: Features, lead: seq<Token>, tok: Token, rest: seq<Token>)
    requires IsLead(f, lead) && tok.kind != CommentToken
    ensures FirstToken(f, lead + ([tok] + rest)) == (tok, rest)
  {
    CommentsAreSkipped(lead, tok, rest);
    if lead == [] { assert lead + ([tok] + rest) == [tok] + rest && ([tok] + rest)[1..] == rest; }
  }

  /** The comments that are skipped in front of a token. */
  lemma {:induction false} SkippedAreComments(toks: seq<Token>) returns (comments: seq<Token>)
    requires var (t, more) := Next(toks); SkipComments(t, more).0.kind != EndOfStream || SkipComments(t, more).1 != []
    ensures var (t, more) := Next(toks);
            var (tok, rest) := SkipComments(t, more);
            AreComments(comments) && toks == comments + ([tok] + rest)
    decreases |toks|
  {
    var (t, more) := Next(toks);
    assert toks == [t] + more;
    if t.kind != CommentToken { return []; }
    var behind := SkippedAreComments(more);
    comments := [t] + behind;
  }

  lemma SkippedIsLead(f: Features, toks: seq<Token>) returns (lead: seq<Token>)
    requires FirstToken(f, toks).0.kind != EndOfStream && FirstToken(f, toks).0.kind != CommentToken
    ensures var (tok, rest) := FirstToken(f, toks); IsLead(f, lead) && toks == lead + ([tok] + rest)
  {
    if f.allowComments {
      lead := SkippedAreComments(toks);
    } else {
      assert toks == [] + ([toks[0]] + toks[1..]);
      return [];
    }
  }

  /** A comment in front of a value changes nothing where comments are allowed; where they are not,
      it is the one error. */
  lemma CommentAhead(f: Features, scan: DoubleScanner, c: Token, toks: seq<Token>, cur: Value, errors: Errors)
    requires c.kind == CommentToken
    ensures ReadValue(f, scan, [c] + toks, cur, errors) ==
              if f.allowComments then ReadValue(f, scan, toks, cur, errors)
              else Outcome(false, cur, errors + [Error(VALUE_EXPECTED, c)], toks)
  {
    hide ReadMembers, ReadArrayItems, NumberOutcome, StringOutcome;
    assert ([c] + toks)[1..] == toks;
  }

  // ---------------------------------------------------------------- trees are read

  lemma LeafIsRead(f: Features, scan: DoubleScanner, leaf: Leaf, toks: seq<Token>, rest: seq<Token>, cur: Value, errors: Errors)
    requires IsLeaf(leaf, scan) && FirstToken(f, toks) == (LeafToken(leaf), rest)
    ensures ReadValue(f, scan, toks, cur, errors) == Outcome(true, LeafValue(leaf, scan), errors, rest)
  {
    hide FirstToken, DecodeNumber, DecodeString, StringText, AreReadable, CharsRead, CharsAccepted, IsNumberLeaf, NumberOf;
    match leaf
    case NumberLeaf(text) => LeafIsNumber(text, scan); NumberIsAccepted(text, scan);
    case StringLeaf(cs) => StringTextIsDecoded(cs);
    case _ =>
  }

  lemma LeafIsNumber(text: string, scan: DoubleScanner)
    requires IsNumberLeaf(text, scan)
    ensures IsNumberText(text)
  {
  }

  /** Every tree is read as its value, and exactly its tokens are consumed. */
  lemma {:induction false} TreeIsRead(f: Features, scan: DoubleScanner, t: Tree, rest: seq<Token>, cur: Value, errors: Errors)
    requires IsTree(f, scan, t)
    ensures ReadValue(f, scan, TreeTokens(t) + rest, cur, errors) == Outcome(true, TreeValue(t, scan), errors, rest)
    decreases t
  {
    hide ReadArrayItems, ReadMembers, FirstToken, IsLeaf, LeafValue, IsSlot, AreEntries, SlotsTokens, EntriesTokens, SlotValues, EntriesMembers, IsLead,
         LeafToken;
    var toks := TreeTokens(t) + rest;
    match t
    case LeafTree(lead, leaf) =>
      assert toks == lead + ([LeafToken(leaf)] + rest);
      LeafIsNoComment(leaf);
      LeadIsSkipped(f, lead, LeafToken(leaf), rest);
      LeafIsRead(f, scan, leaf, toks, rest, cur, errors);
    case ListTree(lead, slots) =>
      var inner := SlotsTokens(slots) + ([ARRAY_END] + rest);
      assert toks == lead + ([ARRAY_BEGIN] + inner);
      LeadIsSkipped(f, lead, ARRAY_BEGIN, inner);
      ListIsRead(f, scan, slots, rest, errors);
    case RecordTree(lead, entries) =>
      var inner := EntriesTokens(entries) + rest;
      assert toks == lead + ([OBJECT_BEGIN] + inner);
      LeadIsSkipped(f, lead, OBJECT_BEGIN, inner);
      EntriesAreRead(f, scan, entries, rest, "", [], errors);
  }

  lemma LeafIsNoComment(leaf: Leaf)
    ensures LeafToken(leaf).kind != CommentToken && LeafToken(leaf).kind != ArrayEnd
  {
  }

  lemma TreeStarts(t: Tree, rest: seq<Token>, f: Features, scan: DoubleScanner)
    requires IsTree(f, scan, t)
    ensures var toks := TreeTokens(t) + rest; toks != [] && toks[0].kind != ArrayEnd
  {
    hide IsLeaf, IsSlot, AreEntries, SlotsTokens, EntriesTokens;
    if t.LeafTree? { LeafIsNoComment(t.leaf); }
    if t.lead != [] { assert (TreeTokens(t) + rest)[0] == t.lead[0]; }
  }

  lemma {:induction false} ListIsRead(f: Features, scan: DoubleScanner, slots: seq<Slot>, rest: seq<Token>, errors: Errors)
    requires forall i :: 0 <= i < |slots| ==> IsSlot(f, scan, slots[i])
    ensures ReadArrayItems(f, scan, SlotsTokens(slots) + ([ARRAY_END] + rest), errors)
         == Outcome(true, Array(SlotValues(slots, scan)), errors, rest)
    decreases slots, 1
  {
    hide ReadItems, IsTree, TreeTokens, TreeValue;
    var toks := SlotsTokens(slots) + ([ARRAY_END] + rest);
    if slots == [] {
      assert toks == [ARRAY_END] + rest && toks[1..] == rest;
    } else {
      var behind := slots[0].behind + (if |slots| == 1 then [] else [COMMA] + SlotsTokens(slots[1..])) + ([ARRAY_END] + rest);
      assert IsSlot(f, scan, slots[0]);
      assert toks == TreeTokens(slots[0].tree) + behind;
      TreeStarts(slots[0].tree, behind, f, scan);
      SlotsAreRead(f, scan, slots, rest, [], errors);
      assert [] + SlotValues(slots, scan) == SlotValues(slots, scan);
    }
  }

  lemma Associates<T>(a: seq<T>, b: seq<T>, c: seq<T>)
    ensures a + b + c == a + (b + c)
  {
  }

  lemma SlotsTokensStep(slots: seq<Slot>, t: seq<Token>)
    requires slots != []
    ensures SlotsTokens(slots) + t ==
              TreeTokens(slots[0].tree) + (slots[0].behind + if |slots| == 1 then t else [COMMA] + (SlotsTokens(slots[1..]) + t))
  {
    hide TreeTokens;
    var a, b := TreeTokens(slots[0].tree), slots[0].behind;
    var c := if |slots| == 1 then [] else [COMMA] + SlotsTokens(slots[1..]);
    Associates(a, b + c, t);
    Associates(b, c, t);
    if |slots| == 1 { assert [] + t == t; } else { Associates([COMMA], SlotsTokens(slots[1..]), t); }
  }

  lemma SlotValuesStep(slots: seq<Slot>, acc: seq<Value>, scan: DoubleScanner)
    requires slots != []
    ensures acc + SlotValues(slots, scan) == acc + [TreeValue(slots[0].tree, scan)] + SlotValues(slots[1..], scan)
    ensures acc + SlotValues([], scan) == acc
  {
    hide TreeValue;
    Associates(acc, [TreeValue(slots[0].tree, scan)], SlotValues(slots[1..], scan));
  }

  /** One turn of readArray. */
  lemma {:induction false} SlotIsRead(f: Features, scan: DoubleScanner, s: Slot, tok: Token, rest: seq<Token>, acc: seq<Value>, errors: Errors)
    requires IsSlot(f, scan, s) && (tok == ARRAY_END || tok == COMMA)
    ensures var acc' := acc + [TreeValue(s.tree, scan)];
            ReadItem(f, scan, TreeTokens(s.tree) + (s.behind + ([tok] + rest)), acc, errors) ==
              if tok == ARRAY_END then Done(Outcome(true, Array(acc'), errors, rest)) else More(errors, rest, acc')
    decreases s
  {
    hide ReadValue, IsTree, TreeTokens, TreeValue, AreComments;
    TreeIsRead(f, scan, s.tree, s.behind + ([tok] + rest), Null, errors);
    CommentsAreSkipped(s.behind, tok, rest);
  }

  lemma {:induction false} SlotsAreRead(f: Features, scan: DoubleScanner, slots: seq<Slot>, rest: seq<Token>, acc: seq<Value>, errors: Errors)
    requires slots != [] && forall i :: 0 <= i < |slots| ==> IsSlot(f, scan, slots[i])
    ensures ReadItems(f, scan, SlotsTokens(slots) + ([ARRAY_END] + rest), acc, errors)
         == Outcome(true, Array(acc + SlotValues(slots, scan)), errors, rest)
    decreases slots, 0
  {
    hide ReadItem, IsSlot, TreeTokens, TreeValue, SlotsTokens, SlotValues;
    var s, v := slots[0], TreeValue(slots[0].tree, scan);
    SlotsTokensStep(slots, [ARRAY_END] + rest);
    SlotValuesStep(slots, acc, scan);
    if |slots| == 1 {
      SlotIsRead(f, scan, s, ARRAY_END, rest, acc, errors);
      assert slots[1..] == [];
      SlotValuesStep(slots, acc + [v], scan);
    } else {
      var more := SlotsTokens(slots[1..]) + ([ARRAY_END] + rest);
      SlotIsRead(f, scan, s, COMMA, more, acc, errors);
      SlotsAreRead(f, scan, slots[1..], rest, acc + [v], errors);
    }
  }

  /** One turn of readObject. */
  lemma {:induction false} EntryIsRead(f: Features, scan: DoubleScanner, e: Entry, tok: Token, rest: seq<Token>, name: string, ms: seq<Member>, errors: Errors)
    requires IsEntry(f, scan, e) && (tok == OBJECT_END || IsSeparator(e.behind, tok))
    ensures var ms' := EntryMembers(e, ms, scan);
            ReadNamedMember(f, scan, EntryTokens(e) + ([tok] + rest), name, ms, errors) ==
              if tok == OBJECT_END then Done(Outcome(true, Object(ms'), errors, rest)) else More(errors, rest, (CharsRead(e.name), ms'))
    decreases e
  {
    hide ReadMember, IsTree, TreeTokens, EntryMembers, AreComments, SkipComments, DecodeString, AreReadable, CharsRead, CharsAccepted, StringText;
    var behind := [COLON] + (TreeTokens(e.tree) + (e.behind + ([tok] + rest)));
    assert EntryTokens(e) + ([tok] + rest) == e.before + ([NameToken(e.name)] + behind);
    CommentsAreSkipped(e.before, NameToken(e.name), behind);
    StringTextIsDecoded(e.name);
    ValueOfEntryIsRead(f, scan, e, tok, rest, ms, errors);
  }

  lemma {:induction false} ValueOfEntryIsRead(f: Features, scan: DoubleScanner, e: Entry, tok: Token, rest: seq<Token>, ms: seq<Member>, errors: Errors)
    requires IsEntry(f, scan, e) && (tok == OBJECT_END || IsSeparator(e.behind, tok))
    ensures var ms' := EntryMembers(e, ms, scan);
            ReadMember(f, scan, [COLON] + (TreeTokens(e.tree) + (e.behind + ([tok] + rest))), CharsRead(e.name), ms, errors) ==
              if tok == OBJECT_END then Done(Outcome(true, Object(ms'), errors, rest)) else More(errors, rest, ms')
    decreases e, 0
  {
    hide ReadValue, IsTree, TreeTokens, TreeValue, Assign, Resolve, CharsRead, CStr, CharsAccepted, AreReadable;
    var behind := e.behind + ([tok] + rest);
    assert ([COLON] + (TreeTokens(e.tree) + behind))[1..] == TreeTokens(e.tree) + behind;
    TreeIsRead(f, scan, e.tree, behind, Resolve(ms, CStr(CharsRead(e.name))), errors);
    CommentsAreSkipped(e.behind, tok, rest);
    if e.behind != [] { assert behind[0] == e.behind[0]; } else { assert behind == [tok] + rest && behind[1..] == rest; }
  }

  lemma {:induction false} EntriesAreRead(f: Features, scan: DoubleScanner, es: Entries, rest: seq<Token>, held: string, ms: seq<Member>, errors: Errors)
    requires AreEntries(f, scan, held, es)
    ensures ReadMembers(f, scan, EntriesTokens(es) + rest, held, ms, errors)
         == Outcome(true, Object(EntriesMembers(es, ms, scan)), errors, rest)
    decreases es
  {
    hide ReadNamedMember, IsEntry, EntryTokens, EntryMembers, CharsRead, IsSeparator;
    match es
    case Close(before) =>
      assert EntriesTokens(es) + rest == before + ([OBJECT_END] + rest);
      BraceIsRead(f, scan, before, rest, ms, errors);
    case Last(e) =>
      assert EntriesTokens(es) + rest == EntryTokens(e) + ([OBJECT_END] + rest);
      EntryIsRead(f, scan, e, OBJECT_END, rest, held, ms, errors);
    case Then(e, separator, more) =>
      var behind := EntriesTokens(more) + rest;
      assert EntriesTokens(es) + rest == EntryTokens(e) + ([separator] + behind);
      SeparatorIsNoBrace(e.behind, separator);
      EntryIsRead(f, scan, e, separator, behind, held, ms, errors);
      EntriesAreRead(f, scan, more, rest, CharsRead(e.name), EntryMembers(e, ms, scan), errors);
  }

  lemma SeparatorIsNoBrace(behind: seq<Token>, t: Token)
    requires IsSeparator(behind, t)
    ensures t != OBJECT_END
  {
  }

  lemma BraceIsRead(f: Features, scan: DoubleScanner, before: seq<Token>, rest: seq<Token>, ms: seq<Member>, errors: Errors)
    requires AreComments(before)
    ensures ReadNamedMember(f, scan, before + ([OBJECT_END] + rest), "", ms, errors) == Done(Outcome(true, Object(ms), errors, rest))
  {
    hide ReadMember, DecodeString, SkipComments;
    CommentsAreSkipped(before, OBJECT_END, rest);
  }

  // ---------------------------------------------------------------- what is read is a tree

  lemma ProperRest(a: seq<Token>, b: seq<Token>)
    requires AreProper(a + b)
    ensures AreProper(a) && AreProper(b)
  {
    hide IsProper;
    assert forall i :: 0 <= i < |a| ==> a[i] == (a + b)[i];
    assert forall i :: 0 <= i < |b| ==> b[i] == (a + b)[|a| + i];
  }

  /** Whatever is read without an error is a tree, followed by what is left. */
  lemma {:induction false} ReadIsTree(f: Features, scan: DoubleScanner, toks: seq<Token>, cur: Value, errors: Errors) returns (t: Tree)
    requires AreProper(toks) && ReadValue(f, scan, toks, cur, errors).ok
    ensures IsTree(f, scan, t) && toks == TreeTokens(t) + ReadValue(f, scan, toks, cur, errors).rest
    decreases |toks|, 1
  {
    hide ReadArrayItems, ReadMembers, FirstToken, IsLeaf, IsSlot, AreEntries, SlotsTokens, EntriesTokens, IsLead, IsProper, NumberOutcome, StringOutcome,
         LeafToken;
    var (tok, rest) := FirstToken(f, toks);
    var lead := SkippedIsLead(f, toks);
    ProperRest(lead, [tok] + rest);
    ProperRest([tok], rest);
    assert IsProper([tok][0]);
    if tok.kind == ObjectBegin {
      BracketText(tok);
      var es := ReadAreEntries(f, scan, rest, "", [], errors);
      t := RecordTree(lead, es);
      assert TreeTokens(t) + ReadMembers(f, scan, rest, "", [], errors).rest == toks;
    } else if tok.kind == ArrayBegin {
      BracketText(tok);
      var slots := ReadIsList(f, scan, rest, errors);
      t := ListTree(lead, slots);
      assert TreeTokens(t) + ReadArrayItems(f, scan, rest, errors).rest == toks;
    } else {
      var leaf := ReadIsLeaf(f, scan, toks, tok, rest, cur, errors);
      t := LeafTree(lead, leaf);
      assert TreeTokens(t) + rest == toks;
    }
  }

  lemma BracketText(tok: Token)
    requires IsProper(tok)
    ensures tok.kind == ObjectBegin ==> tok == OBJECT_BEGIN
    ensures tok.kind == ArrayBegin ==> tok == ARRAY_BEGIN
    ensures tok.kind == ArrayEnd ==> tok == ARRAY_END
    ensures tok.kind == ObjectEnd ==> tok == OBJECT_END
    ensures tok.kind == ArraySeparator ==> tok == COMMA
    ensures tok.kind == MemberSeparator ==> tok == COLON
  {
  }

  lemma ReadIsLeaf(f: Features, scan: DoubleScanner, toks: seq<Token>, tok: Token, rest: seq<Token>, cur: Value, errors: Errors) returns (leaf: Leaf)
    requires IsProper(tok) && FirstToken(f, toks) == (tok, rest) && tok.kind != ObjectBegin && tok.kind != ArrayBegin
    requires ReadValue(f, scan, toks, cur, errors).ok
    ensures IsLeaf(leaf, scan) && LeafToken(leaf) == tok && ReadValue(f, scan, toks, cur, errors).rest == rest
  {
    hide FirstToken, DecodeNumber, DecodeString, StringText, AreReadable, CharsRead, CharsAccepted, IsNumberLeaf, IsQuotedBody;
    match tok.kind
    case NumberToken =>
      NumberTextIsProper(tok);
      NumberIsAccepted(tok.text, scan);
      leaf := NumberLeaf(tok.text);
    case StringToken =>
      var cs := StringIsAccepted(tok);
      leaf := StringLeaf(cs);
    case TrueToken => leaf := TrueLeaf;
    case FalseToken => leaf := FalseLeaf;
    case NullToken => leaf := NullLeaf;
  }

  lemma NumberTextIsProper(tok: Token)
    requires IsProper(tok) && tok.kind == NumberToken
    ensures IsNumberText(tok.text)
  {
  }

  lemma {:induction false} ReadIsList(f: Features, scan: DoubleScanner, toks: seq<Token>, errors: Errors) returns (slots: seq<Slot>)
    requires AreProper(toks) && ReadArrayItems(f, scan, toks, errors).ok
    ensures forall i :: 0 <= i < |slots| ==> IsSlot(f, scan, slots[i])
    ensures toks == SlotsTokens(slots) + ([ARRAY_END] + ReadArrayItems(f, scan, toks, errors).rest)
    decreases |toks|, 4
  {
    hide ReadItems, IsSlot, IsProper;
    if toks != [] && toks[0].kind == ArrayEnd {
      BracketText(toks[0]);
      assert toks == [] + ([ARRAY_END] + toks[1..]);
      return [];
    }
    slots := ReadAreSlots(f, scan, toks, [], errors);
  }

  /** One turn of readArray without an error. */
  lemma {:induction false} ReadIsSlot(f: Features, scan: DoubleScanner, toks: seq<Token>, acc: seq<Value>, errors: Errors) returns (s: Slot, tok: Token, rest: seq<Token>)
    requires AreProper(toks)
    requires var t := ReadItem(f, scan, toks, acc, errors); t.Done? ==> t.outcome.ok
    ensures IsSlot(f, scan, s) && (tok == ARRAY_END || tok == COMMA) && toks == TreeTokens(s.tree) + (s.behind + ([tok] + rest))
    decreases |toks|, 2
  {
    hide ReadValue, IsTree, TreeTokens, IsProper, SkipComments, AreComments;
    var tree := ReadIsTree(f, scan, toks, Null, errors);
    var behind := ReadValue(f, scan, toks, Null, errors).rest;
    var (t, afterItem) := Next(behind);
    tok, rest := SkipComments(t, afterItem).0, SkipComments(t, afterItem).1;
    var comments := SkippedAreComments(behind);
    s := Slot(tree, comments);
    ProperRest(TreeTokens(tree), behind);
    ProperRest(comments, [tok] + rest);
    ProperRest([tok], rest);
    assert IsProper([tok][0]);
    BracketText(tok);
  }

  lemma {:induction false} ReadAreSlots(f: Features, scan: DoubleScanner, toks: seq<Token>, acc: seq<Value>, errors: Errors) returns (slots: seq<Slot>)
    requires AreProper(toks) && ReadItems(f, scan, toks, acc, errors).ok
    ensures slots != [] && forall i :: 0 <= i < |slots| ==> IsSlot(f, scan, slots[i])
    ensures toks == SlotsTokens(slots) + ([ARRAY_END] + ReadItems(f, scan, toks, acc, errors).rest)
    decreases |toks|, 3
  {
    hide ReadItem, IsSlot, TreeTokens, TreeValue, IsProper;
    var s, tok, rest := ReadIsSlot(f, scan, toks, acc, errors);
    SlotIsRead(f, scan, s, tok, rest, acc, errors);
    if tok == ARRAY_END {
      slots := [s];
      assert toks == SlotsTokens(slots) + ([ARRAY_END] + rest);
    } else {
      ProperRest(TreeTokens(s.tree), s.behind + ([tok] + rest));
      ProperRest(s.behind, [tok] + rest);
      ProperRest([tok], rest);
      var more := ReadAreSlots(f, scan, rest, acc + [TreeValue(s.tree, scan)], errors);
      slots := [s] + more;
      assert slots[1..] == more;
      var left := ReadItems(f, scan, toks, acc, errors).rest;
      assert toks == TreeTokens(s.tree) + (s.behind + ([COMMA] + SlotsTokens(more))) + ([ARRAY_END] + left);
    }
  }

  /** Without tokens no object ends. */
  lemma NothingIsNoObject(f: Features, scan: DoubleScanner, held: string, ms: seq<Member>, errors: Errors)
    ensures !ReadMembers(f, scan, [], held, ms, errors).ok
  {
  }

  lemma {:induction false} ReadAreEntries(f: Features, scan: DoubleScanner, toks: seq<Token>, held: string, ms: seq<Member>, errors: Errors) returns (es: Entries)
    requires AreProper(toks) && ReadMembers(f, scan, toks, held, ms, errors).ok
    ensures AreEntries(f, scan, held, es) && toks == EntriesTokens(es) + ReadMembers(f, scan, toks, held, ms, errors).rest
    decreases |toks|, 3
  {
    hide ReadNamedMember, IsEntry, EntryTokens, EntryMembers, CharsRead, IsSeparator, IsProper, SkipComments, AreComments;
    var left := ReadMembers(f, scan, toks, held, ms, errors).rest;
    var (t, afterFirst) := Next(toks);
    var (tok, afterName) := SkipComments(t, afterFirst);
    if tok.kind == ObjectEnd && held == "" {
      var before := SkippedAreComments(toks);
      ProperRest(before, [tok] + afterName);
      ProperRest([tok], afterName);
      assert IsProper([tok][0]);
      BracketText(tok);
      BraceIsRead(f, scan, before, afterName, ms, errors);
      es := Close(before);
      assert toks == EntriesTokens(es) + left;
      return;
    }
    var e, separator, rest := ReadIsEntry(f, scan, toks, held, ms, errors);
    EntryIsRead(f, scan, e, separator, rest, held, ms, errors);
    if separator == OBJECT_END {
      es := Last(e);
      assert toks == EntriesTokens(es) + left;
    } else {
      ProperRest(EntryTokens(e), [separator] + rest);
      ProperRest([separator], rest);
      assert |rest| < |toks|;
      var more := ReadAreEntries(f, scan, rest, CharsRead(e.name), EntryMembers(e, ms, scan), errors);
      es := Then(e, separator, more);
      assert toks == EntriesTokens(es) + left;
    }
  }

  /** One turn of readObject without an error, at a name. */
  lemma {:induction false} ReadIsEntry(f: Features, scan: DoubleScanner, toks: seq<Token>, held: string, ms: seq<Member>, errors: Errors)
    returns (e: Entry, separator: Token, rest: seq<Token>)
    requires AreProper(toks) && ReadMembers(f, scan, toks, held, ms, errors).ok
    requires var (t, more) := Next(toks); !(SkipComments(t, more).0.kind == ObjectEnd && held == "")
    ensures IsEntry(f, scan, e) && (separator == OBJECT_END || IsSeparator(e.behind, separator))
    ensures toks == EntryTokens(e) + ([separator] + rest)
    decreases |toks|, 2
  {
    hide ReadMember, IsTree, TreeTokens, IsProper, SkipComments, AreComments, DecodeString, AreReadable, CharsRead, CharsAccepted, StringText, ReadMembers;
    MembersGoOn(f, scan, toks, held, ms, errors);
    var (t, afterFirst) := Next(toks);
    var (tok, afterName) := SkipComments(t, afterFirst);
    var before := SkippedAreComments(toks);
    ProperRest(before, [tok] + afterName);
    ProperRest([tok], afterName);
    assert IsProper([tok][0]);
    var name := StringIsAccepted(tok);
    var tree, behind;
    tree, behind, separator, rest := ReadIsMember(f, scan, afterName, CharsRead(name), ms, errors);
    e := Entry(before, name, tree, behind);
    assert toks == EntryTokens(e) + ([separator] + rest);
  }

  /** In an object that is read without an error each turn succeeds, and the last one has a token. */
  lemma MembersGoOn(f: Features, scan: DoubleScanner, toks: seq<Token>, held: string, ms: seq<Member>, errors: Errors)
    requires ReadMembers(f, scan, toks, held, ms, errors).ok
    ensures match ReadNamedMember(f, scan, toks, held, ms, errors) case Done(o) => o.ok case More(_, rest, _) => rest != []
  {
    hide ReadNamedMember;
    match ReadNamedMember(f, scan, toks, held, ms, errors)
    case Done(_) =>
    case More(errors', rest, (name', ms')) => if rest == [] { NothingIsNoObject(f, scan, name', ms', errors'); }
  }

  /** A member from behind its name. */
  lemma {:induction false} ReadIsMember(f: Features, scan: DoubleScanner, toks: seq<Token>, name: string, ms: seq<Member>, errors: Errors)
    returns (tree: Tree, behind: seq<Token>, separator: Token, rest: seq<Token>)
    requires AreProper(toks)
    requires match ReadMember(f, scan, toks, name, ms, errors) case Done(o) => o.ok case More(_, more, _) => more != []
    ensures IsTree(f, scan, tree) && AreComments(behind) && (separator == OBJECT_END || IsSeparator(behind, separator))
    ensures toks == [COLON] + (TreeTokens(tree) + (behind + ([separator] + rest)))
    decreases |toks|, 1
  {
    hide ReadValue, IsTree, TreeTokens, IsProper, Assign, Resolve, CStr;
    var (colon, afterColon) := Next(toks);
    assert toks == [colon] + afterColon && IsProper(toks[0]);
    BracketText(colon);
    ProperRest([colon], afterColon);
    var cur := Resolve(ms, CStr(name));
    tree := ReadIsTree(f, scan, afterColon, cur, errors);
    var left := ReadValue(f, scan, afterColon, cur, errors).rest;
    ProperRest(TreeTokens(tree), left);
    behind, separator, rest := ReadIsSeparator(left);
  }

  lemma ReadIsSeparator(left: seq<Token>) returns (behind: seq<Token>, separator: Token, rest: seq<Token>)
    requires AreProper(left)
    requires var (t, after) := Next(left);
             (t.kind == ObjectEnd || t.kind == ArraySeparator || t.kind == CommentToken) &&
             (SkipComments(t, after).0.kind == ObjectEnd || SkipComments(t, after).1 != [])
    ensures AreComments(behind) && (separator == OBJECT_END || IsSeparator(behind, separator)) && left == behind + ([separator] + rest)
  {
    hide IsProper;
    var (t, after) := Next(left);
    separator, rest := SkipComments(t, after).0, SkipComments(t, after).1;
    behind := SkippedAreComments(left);
    ProperRest(behind, [separator] + rest);
    ProperRest([separator], rest);
    assert IsProper([separator][0]);
    BracketText(separator);
    if behind == [] { assert left[0] == separator; }
  }

  // ---------------------------------------------------------------- documents

  /** Strict mode asks for an array, an object or null. */
  predicate MayBeRoot(f: Features, t: Tree) {
    !f.strictRoot || t.ListTree? || t.RecordTree? || t.leaf.NullLeaf?
  }

  /** The tokens of the text start with this tree. */
  ghost predicate IsReadAs(f: Features, scan: DoubleScanner, text: string, t: Tree, more: seq<Token>) {
    IsTree(f, scan, t) && MayBeRoot(f, t) && Lex(text) == TreeTokens(t) + more
  }

  lemma RootIsContainer(f: Features, scan: DoubleScanner, t: Tree)
    requires IsTree(f, scan, t)
    ensures var v := TreeValue(t, scan); MayBeRoot(f, t) <==> !f.strictRoot || v.IsArray() || v.IsObject()
  {
    hide SlotValues, EntriesMembers, NumberOf, IsNumberLeaf, CharsRead, CStr, IsSlot, AreEntries;
    if t.LeafTree? && t.leaf.NumberLeaf? {
      LeafIsNumber(t.leaf.text, scan);
      NumberIsAccepted(t.leaf.text, scan);
      NumberIsNotNull(t.leaf.text, scan);
    }
  }

  lemma ReadableIsParsed(f: Features, scan: DoubleScanner, text: string, t: Tree, more: seq<Token>, root: Value)
    requires IsTree(f, scan, t) && Lex(text) == TreeTokens(t) + more
    ensures var o := Parse(f, scan, Lex(text), root, text); (o.ok <==> MayBeRoot(f, t)) && o.value == TreeValue(t, scan)
  {
    hide ReadValue, Lex, IsTree, TreeTokens, TreeValue, MayBeRoot, FirstToken;
    TreeIsRead(f, scan, t, more, root, []);
    RootIsContainer(f, scan, t);
  }

  /** Exactly the texts whose tokens start with such a tree are accepted, and the value is that of
      the tree. */
  lemma ParsedExactly(f: Features, scan: DoubleScanner, text: string, root: Value)
    ensures Parse(f, scan, Lex(text), root, text).ok <==> exists t, more :: IsReadAs(f, scan, text, t, more)
    ensures forall t, more :: IsReadAs(f, scan, text, t, more) ==> Parse(f, scan, Lex(text), root, text).value == TreeValue(t, scan)
  {
    hide ReadValue, Parse, Lex, IsTree, TreeTokens, TreeValue, MayBeRoot, IsProper;
    forall t, more | IsReadAs(f, scan, text, t, more)
      ensures var o := Parse(f, scan, Lex(text), root, text); o.ok && o.value == TreeValue(t, scan)
    {
      ReadableIsParsed(f, scan, text, t, more, root);
    }
    if Parse(f, scan, Lex(text), root, text).ok {
      ParsedIsValue(f, scan, Lex(text), root, text);
      LexIsProper(text);
      var t := ReadIsTree(f, scan, Lex(text), root, []);
      var more := ReadValue(f, scan, Lex(text), root, []).rest;
      ReadableIsParsed(f, scan, text, t, more, root);
      assert IsReadAs(f, scan, text, t, more);
    }
  }

  lemma ParsedIsValue(f: Features, scan: DoubleScanner, toks: seq<Token>, root: Value, document: string)
    requires Parse(f, scan, toks, root, document).ok
    ensures ReadValue(f, scan, toks, root, []).ok
  {
    hide ReadValue, FirstToken;
  }

  /** The text itself: it is laid out as the tokens of the tree with white space in front of each,
      unless a separator behind a comment is no token at all. */
  lemma ReadTextIsLaid(f: Features, scan: DoubleScanner, text: string, t: Tree, more: seq<Token>) returns (rest: string)
    requires IsReadAs(f, scan, text, t, more) && NoErrors(TreeTokens(t))
    ensures Laid(text, TreeTokens(t), rest) && Lex(rest) == more
  {
    hide Lex, IsTree, TreeTokens, Laid;
    rest := LexedIsLaid(text, TreeTokens(t), more);
  }

  /** And every text that is laid out so is accepted. */
  lemma LaidTextIsParsed(f: Features, scan: DoubleScanner, text: string, t: Tree, rest: string, root: Value)
    requires IsTree(f, scan, t) && MayBeRoot(f, t) && NoErrors(TreeTokens(t)) && Laid(text, TreeTokens(t), rest)
    ensures var o := Parse(f, scan, Lex(text), root, text); o.ok && o.value == TreeValue(t, scan)
  {
    hide Lex, IsTree, TreeTokens, Laid, Parse, TreeValue, MayBeRoot;
    LaidIsLexed(text, TreeTokens(t), rest);
    ReadableIsParsed(f, scan, text, t, Lex(rest), root);
  }
}
