/** What Reader reports of the texts it does not accept: the first token that fits nowhere, with a
    message that says what was expected there. The places are told apart from the parser, as trees
    that break off; every text either is read as a tree or breaks off at exactly one of them. */
module JsonFaults {
  import opened CString
  import opened JsonValue
  import opened JsonLexer
  import opened JsonNumber
  import opened JsonString
  import opened JsonParser
  import opened JsonText
  import opened JsonGrammar
  import opened JsonSpelling
  import opened JsonReadable

  /** A value that breaks off. */
  datatype Fault =
    | NoValue(lead: seq<Token>)
    | BadLeaf(lead: seq<Token>)
    | InItem(lead: seq<Token>, slots: seq<Slot>, fault: Fault)
    | BehindItem(lead: seq<Token>, slots: seq<Slot>, last: Slot)
    | InRecord(lead: seq<Token>, gap: Gap)

  /** A list of members that breaks off. */
  datatype Gap =
    | NoName(before: seq<Token>)
    | BadName(before: seq<Token>)
    | NoColon(before: seq<Token>, name: seq<Char>)
    | InMember(before: seq<Token>, name: seq<Char>, fault: Fault)
    | BehindMember(entry: Entry)
    | BehindAll(entry: Entry)
    | Later(entry: Entry, separator: Token, gap: Gap)

  /** Items with a comma behind each. */
  function CommaTokens(slots: seq<Slot>): seq<Token> {
    if slots == [] then [] else TreeTokens(slots[0].tree) + (slots[0].behind + ([COMMA] + CommaTokens(slots[1..])))
  }

  /** The tokens in front of the one that is reported. */
  function FaultTokens(x: Fault): seq<Token>
    decreases x
  {
    match x
    case NoValue(lead) => lead
    case BadLeaf(lead) => lead
    case InItem(lead, slots, fault) => lead + ([ARRAY_BEGIN] + (CommaTokens(slots) + FaultTokens(fault)))
    case BehindItem(lead, slots, last) => lead + ([ARRAY_BEGIN] + (CommaTokens(slots) + (TreeTokens(last.tree) + last.behind)))
    case InRecord(lead, gap) => lead + ([OBJECT_BEGIN] + GapTokens(gap))
  }

  function GapTokens(g: Gap): seq<Token>
    decreases g
  {
    match g
    case NoName(before) => before
    case BadName(before) => before
    case NoColon(before, name) => before + [NameToken(name)]
    case InMember(before, name, fault) => before + ([NameToken(name), COLON] + FaultTokens(fault))
    case BehindMember(e) => EntryTokens(e)
    case BehindAll(e) => EntryTokens(e)
    case Later(e, separator, gap) => EntryTokens(e) + ([separator] + GapTokens(gap))
  }

  /** The token that is reported: the first of those that are left, or the end of the text. */
  function Reported(more: seq<Token>): Token { Next(more).0 }

  predicate StartsValue(kind: TokenKind) {
    kind == ObjectBegin || kind == ArrayBegin || kind == NumberToken || kind == StringToken || kind == TrueToken || kind == FalseToken ||
    kind == NullToken
  }

  /** A string token of which no characters are accepted. */
  ghost predicate IsBadString(t: Token) {
    t.kind == StringToken && forall cs :: AreReadable(cs) && CharsAccepted(cs) ==> t != NameToken(cs)
  }

  ghost predicate IsBadLeaf(t: Token, scan: DoubleScanner) {
    (t.kind == NumberToken && !IsNumberLeaf(t.text, scan)) || IsBadString(t)
  }

  /** The value breaks off in front of these tokens. */
  ghost predicate IsFault(f: Features, scan: DoubleScanner, x: Fault, more: seq<Token>)
    decreases x
  {
    var t := Reported(more);
    IsLead(f, x.lead) &&
    match x
    case NoValue(_) => !StartsValue(t.kind) && (f.allowComments ==> t.kind != CommentToken)
    case BadLeaf(_) => IsBadLeaf(t, scan)
    case InItem(_, slots, fault) =>
      (forall i :: 0 <= i < |slots| ==> IsSlot(f, scan, slots[i])) && IsFault(f, scan, fault, more) &&
      (slots == [] && fault == NoValue([]) ==> t.kind != ArrayEnd)
    case BehindItem(_, slots, last) =>
      (forall i :: 0 <= i < |slots| ==> IsSlot(f, scan, slots[i])) && IsSlot(f, scan, last) &&
      t.kind != ArrayEnd && t.kind != ArraySeparator && t.kind != CommentToken
    case InRecord(_, gap) => IsGap(f, scan, "", gap, more)
  }

  ghost predicate IsGap(f: Features, scan: DoubleScanner, held: string, g: Gap, more: seq<Token>)
    decreases g
  {
    var t := Reported(more);
    match g
    case NoName(before) =>
      AreComments(before) && t.kind != CommentToken && t.kind != StringToken && !(t.kind == ObjectEnd && held == "")
    case BadName(before) => AreComments(before) && IsBadString(t)
    case NoColon(before, name) => AreComments(before) && AreReadable(name) && CharsAccepted(name) && t.kind != MemberSeparator
    case InMember(before, name, fault) =>
      AreComments(before) && AreReadable(name) && CharsAccepted(name) && IsFault(f, scan, fault, more)
    case BehindMember(e) =>
      IsEntry(f, scan, e) && e.behind == [] && t.kind != ObjectEnd && t.kind != ArraySeparator && t.kind != CommentToken
    case BehindAll(e) => IsEntry(f, scan, e) && e.behind != [] && more == []
    case Later(e, separator, gap) =>
      IsEntry(f, scan, e) && IsSeparator(e.behind, separator) && IsGap(f, scan, CharsRead(e.name), gap, more)
  }

  function LeafMessage(t: Token): string {
    if t.kind == NumberToken then "'" + t.text + "' is not a number."
    else match DecodeString(t.text) case BadString(message) => message case Decoded(_) => ""
  }

  /** What the message says was expected. */
  function FaultMessage(x: Fault, t: Token): string
    decreases x
  {
    match x
    case NoValue(_) => "Syntax error: value, object or array expected."
    case BadLeaf(_) => LeafMessage(t)
    case InItem(_, _, fault) => FaultMessage(fault, t)
    case BehindItem(_, _, _) => "Missing ',' or ']' in array declaration"
    case InRecord(_, gap) => GapMessage(gap, t)
  }

  function GapMessage(g: Gap, t: Token): string
    decreases g
  {
    match g
    case NoName(_) => "Missing '}' or object member name"
    case BadName(_) => LeafMessage(t)
    case NoColon(_, _) => "Missing ':' after object member name"
    case InMember(_, _, fault) => FaultMessage(fault, t)
    case BehindMember(_) => "Missing ',' or '}' in object declaration"
    case BehindAll(_) => "Missing '}' or object member name"
    case Later(_, _, gap) => GapMessage(gap, t)
  }

  /** Reading fails with exactly this error added. */
  predicate FailsWith(ok: bool, before: Errors, after: Errors, message: string, t: Token) {
    !ok && after == before + [Error(message, t)]
  }

  // ---------------------------------------------------------------- leaves that are none

  lemma BadStringExactly(t: Token)
    requires t.kind == StringToken && IsProper(t)
    ensures IsBadString(t) <==> DecodeString(t.text).BadString?
  {
    hide DecodeString, AreReadable, CharsAccepted, CharsRead, IsProper, StringText;
    if DecodeString(t.text).Decoded? { var cs := StringIsAccepted(t); }
    if !IsBadString(t) {
      var cs :| AreReadable(cs) && CharsAccepted(cs) && t == NameToken(cs);
      StringTextIsDecoded(cs);
    }
  }

  lemma BadNumber(text: string, scan: DoubleScanner)
    requires IsNumberText(text) && !IsNumberLeaf(text, scan)
    ensures DecodeNumber(text, scan) == NotANumber("'" + text + "' is not a number.")
  {
    hide LooksReal, AddDigits;
    NumberIsAccepted(text, scan);
  }

  lemma BadLeafIsReported(f: Features, scan: DoubleScanner, toks: seq<Token>, t: Token, rest: seq<Token>, cur: Value, errors: Errors)
    requires IsProper(t) && FirstToken(f, toks) == (t, rest) && IsBadLeaf(t, scan)
    ensures var o := ReadValue(f, scan, toks, cur, errors); FailsWith(o.ok, errors, o.errors, LeafMessage(t), t)
  {
    hide FirstToken, DecodeNumber, DecodeString, IsNumberLeaf, IsBadString, IsBadLeaf;
    BadLeafIsKind(t, scan);
    if t.kind == NumberToken {
      NumberTextIsProper(t);
      BadNumber(t.text, scan);
    } else {
      BadStringExactly(t);
    }
  }

  lemma BadLeafIsKind(t: Token, scan: DoubleScanner)
    requires IsBadLeaf(t, scan)
    ensures (t.kind == NumberToken && !IsNumberLeaf(t.text, scan)) || (t.kind == StringToken && IsBadString(t))
  {
    hide IsNumberLeaf;
  }

  // ---------------------------------------------------------------- faults are reported

  /** Behind comments, whatever is left. */
  lemma {:induction false} SkippedTo(comments: seq<Token>, more: seq<Token>)
    requires AreComments(comments) && Reported(more).kind != CommentToken
    ensures var (t, rest) := Next(comments + more); SkipComments(t, rest) == Next(more)
    decreases |comments|
  {
    if comments == [] {
      assert comments + more == more;
    } else {
      assert (comments + more)[1..] == comments[1..] + more;
      SkippedTo(comments[1..], more);
    }
  }

  lemma LeadTo(f: Features, lead: seq<Token>, more: seq<Token>)
    requires IsLead(f, lead) && (f.allowComments ==> Reported(more).kind != CommentToken)
    ensures FirstToken(f, lead + more) == Next(more)
  {
    if f.allowComments { SkippedTo(lead, more); } else { assert lead + more == more; }
  }

  lemma FaultStarts(f: Features, scan: DoubleScanner, x: Fault, more: seq<Token>)
    requires IsFault(f, scan, x, more) && (x == NoValue([]) ==> Reported(more).kind != ArrayEnd)
    ensures var toks := FaultTokens(x) + more; toks == [] || toks[0].kind != ArrayEnd
  {
    hide IsGap, IsSlot, IsNumberLeaf, IsBadLeaf, GapTokens, CommaTokens;
    var toks := FaultTokens(x) + more;
    if x.lead != [] { assert toks[0] == x.lead[0]; }
    else if FaultTokens(x) != [] { assert toks[0] == FaultTokens(x)[0]; }
    else {
      assert toks == more;
      if x.BadLeaf? { BadLeafIsKind(Reported(more), scan); }
    }
  }

  lemma MoreCommas(s: Slot, slots: seq<Slot>, t: seq<Token>)
    ensures CommaTokens([s] + slots) + t == TreeTokens(s.tree) + (s.behind + ([COMMA] + (CommaTokens(slots) + t)))
    ensures CommaTokens([]) + t == t
  {
    hide TreeTokens;
    assert ([s] + slots)[1..] == slots;
    var a, b, c := TreeTokens(s.tree), s.behind, CommaTokens(slots);
    Associates(a, b + ([COMMA] + c), t);
    Associates(b, [COMMA] + c, t);
    Associates([COMMA], c, t);
  }

  /** Items with commas are read on the way. */
  lemma {:induction false} CommasAreRead(f: Features, scan: DoubleScanner, slots: seq<Slot>, t: seq<Token>, acc: seq<Value>, errors: Errors)
    requires forall i :: 0 <= i < |slots| ==> IsSlot(f, scan, slots[i])
    ensures ReadItems(f, scan, CommaTokens(slots) + t, acc, errors) == ReadItems(f, scan, t, acc + SlotValues(slots, scan), errors)
    decreases |slots|
  {
    hide ReadItem, IsSlot, TreeTokens, TreeValue, CommaTokens, SlotValues;
    if slots == [] {
      NoCommas(slots, t);
      assert SlotValues([], scan) == [] by { NoValues(scan); }
      assert acc + [] == acc;
    } else {
      var s, v := slots[0], TreeValue(slots[0].tree, scan);
      var rest := CommaTokens(slots[1..]) + t;
      assert slots == [s] + slots[1..];
      MoreCommas(s, slots[1..], t);
      SlotIsRead(f, scan, s, COMMA, rest, acc, errors);
      CommasAreRead(f, scan, slots[1..], t, acc + [v], errors);
      SlotValuesStep(slots, acc, scan);
    }
  }

  lemma NoValues(scan: DoubleScanner)
    ensures SlotValues([], scan) == []
  {
  }

  lemma ListStarts(f: Features, scan: DoubleScanner, slots: seq<Slot>, t: seq<Token>)
    requires slots != [] && IsSlot(f, scan, slots[0])
    ensures var toks := CommaTokens(slots) + t; toks != [] && toks[0].kind != ArrayEnd
  {
    hide IsTree, TreeTokens;
    var rest := slots[0].behind + ([COMMA] + CommaTokens(slots[1..])) + t;
    assert CommaTokens(slots) + t == TreeTokens(slots[0].tree) + rest;
    TreeStarts(slots[0].tree, rest, f, scan);
  }

  lemma BehindItemIsReported(f: Features, scan: DoubleScanner, last: Slot, more: seq<Token>, acc: seq<Value>, errors: Errors)
    requires IsSlot(f, scan, last)
    requires var k := Reported(more).kind; k != ArrayEnd && k != ArraySeparator && k != CommentToken
    ensures var o := ReadItems(f, scan, TreeTokens(last.tree) + (last.behind + more), acc, errors);
            FailsWith(o.ok, errors, o.errors, "Missing ',' or ']' in array declaration", Reported(more))
  {
    hide ReadValue, IsTree, TreeTokens, TreeValue, AreComments, SkipComments, Recover;
    TreeIsRead(f, scan, last.tree, last.behind + more, Null, errors);
    SkippedTo(last.behind, more);
  }

  lemma ItemFails(f: Features, scan: DoubleScanner, toks: seq<Token>, acc: seq<Value>, errors: Errors)
    requires !ReadValue(f, scan, toks, Null, errors).ok
    ensures var o := ReadItems(f, scan, toks, acc, errors); !o.ok && o.errors == ReadValue(f, scan, toks, Null, errors).errors
  {
    hide ReadValue;
  }

  /** The fault is reported with its message, at its token, as the only error. */
  lemma {:induction false} FaultIsReported(f: Features, scan: DoubleScanner, x: Fault, more: seq<Token>, cur: Value, errors: Errors)
    requires IsFault(f, scan, x, more) && AreProper(more)
    ensures var o := ReadValue(f, scan, FaultTokens(x) + more, cur, errors);
            FailsWith(o.ok, errors, o.errors, FaultMessage(x, Reported(more)), Reported(more))
    decreases x
  {
    hide ReadArrayItems, ReadMembers, FirstToken, IsGap, IsSlot, IsBadLeaf, IsLead, CommaTokens, GapTokens, TreeTokens, LeafMessage, IsProper, SlotValues,
         ReadItems, NumberOutcome, StringOutcome;
    var toks := FaultTokens(x) + more;
    match x
    case NoValue(lead) => LeadTo(f, lead, more);
    case BadLeaf(lead) =>
      BadLeafIsToken(more, scan);
      LeadTo(f, lead, more);
      BadLeafIsReported(f, scan, toks, Reported(more), more[1..], cur, errors);
    case InItem(lead, slots, fault) =>
      FaultIsReported(f, scan, fault, more, Null, errors);
      InItemIsReported(f, scan, x, more, cur, errors);
    case BehindItem(lead, slots, last) => BehindItemIsRead(f, scan, x, more, cur, errors);
    case InRecord(lead, gap) =>
      var inner := GapTokens(gap) + more;
      assert toks == lead + ([OBJECT_BEGIN] + inner);
      LeadIsSkipped(f, lead, OBJECT_BEGIN, inner);
      GapIsReported(f, scan, "", gap, more, [], errors);
  }

  /** The list is read up to the item that fails. */
  lemma InItemIsReported(f: Features, scan: DoubleScanner, x: Fault, more: seq<Token>, cur: Value, errors: Errors)
    requires x.InItem? && IsFault(f, scan, x, more)
    requires !ReadValue(f, scan, FaultTokens(x.fault) + more, Null, errors).ok
    ensures var o, o' := ReadValue(f, scan, FaultTokens(x) + more, cur, errors), ReadValue(f, scan, FaultTokens(x.fault) + more, Null, errors);
            !o.ok && o.errors == o'.errors
  {
    hide ReadArrayItems, ReadItems, FirstToken, IsGap, IsSlot, IsBadLeaf, IsLead, CommaTokens, SlotValues, ReadMembers, NumberOutcome, StringOutcome;
    var inner := FaultTokens(x.fault) + more;
    var list := CommaTokens(x.slots) + inner;
    Associates(x.lead, [ARRAY_BEGIN] + (CommaTokens(x.slots) + FaultTokens(x.fault)), more);
    Associates([ARRAY_BEGIN], CommaTokens(x.slots) + FaultTokens(x.fault), more);
    Associates(CommaTokens(x.slots), FaultTokens(x.fault), more);
    LeadIsSkipped(f, x.lead, ARRAY_BEGIN, list);
    if x.slots == [] { FaultStarts(f, scan, x.fault, more); NoCommas(x.slots, inner); } else { ListStarts(f, scan, x.slots, inner); }
    ListIsItems(f, scan, list, errors);
    CommasAreRead(f, scan, x.slots, inner, [], errors);
    ItemFails(f, scan, inner, [] + SlotValues(x.slots, scan), errors);
  }

  lemma BehindItemIsRead(f: Features, scan: DoubleScanner, x: Fault, more: seq<Token>, cur: Value, errors: Errors)
    requires x.BehindItem? && IsFault(f, scan, x, more)
    ensures var o := ReadValue(f, scan, FaultTokens(x) + more, cur, errors);
            FailsWith(o.ok, errors, o.errors, "Missing ',' or ']' in array declaration", Reported(more))
  {
    hide ReadArrayItems, ReadItems, FirstToken, IsSlot, IsLead, CommaTokens, TreeTokens, SlotValues, ReadMembers, NumberOutcome, StringOutcome;
    var t, b := TreeTokens(x.last.tree), x.last.behind;
    var inner := t + (b + more);
    var list := CommaTokens(x.slots) + inner;
    Associates(x.lead, [ARRAY_BEGIN] + (CommaTokens(x.slots) + (t + b)), more);
    Associates([ARRAY_BEGIN], CommaTokens(x.slots) + (t + b), more);
    Associates(CommaTokens(x.slots), t + b, more);
    Associates(t, b, more);
    LeadIsSkipped(f, x.lead, ARRAY_BEGIN, list);
    if x.slots == [] { LastStarts(f, scan, x.last, more); NoCommas(x.slots, inner); } else { ListStarts(f, scan, x.slots, inner); }
    ListIsItems(f, scan, list, errors);
    CommasAreRead(f, scan, x.slots, inner, [], errors);
    BehindItemIsReported(f, scan, x.last, more, [] + SlotValues(x.slots, scan), errors);
  }

  lemma BadLeafIsToken(more: seq<Token>, scan: DoubleScanner)
    requires IsBadLeaf(Reported(more), scan) && AreProper(more)
    ensures more != [] && Reported(more) == more[0] && IsProper(more[0]) && more[0].kind != CommentToken
  {
    hide IsProper;
  }

  lemma NoCommas(slots: seq<Slot>, t: seq<Token>)
    requires slots == []
    ensures CommaTokens(slots) + t == t
  {
  }

  lemma LastStarts(f: Features, scan: DoubleScanner, last: Slot, more: seq<Token>)
    requires IsSlot(f, scan, last)
    ensures var toks := TreeTokens(last.tree) + (last.behind + more); toks != [] && toks[0].kind != ArrayEnd
  {
    hide IsTree, TreeTokens;
    TreeStarts(last.tree, last.behind + more, f, scan);
  }

  lemma ListIsItems(f: Features, scan: DoubleScanner, toks: seq<Token>, errors: Errors)
    requires toks == [] || toks[0].kind != ArrayEnd
    ensures ReadArrayItems(f, scan, toks, errors) == ReadItems(f, scan, toks, [], errors)
  {
    hide ReadItems;
  }

  lemma NameIsMissing(f: Features, scan: DoubleScanner, before: seq<Token>, more: seq<Token>, held: string, ms: seq<Member>, errors: Errors)
    requires AreComments(before) && AreProper(more) && Reported(more).kind != CommentToken
    requires var t := Reported(more); (t.kind != StringToken && !(t.kind == ObjectEnd && held == "")) || IsBadString(t)
    ensures var o := ReadMembers(f, scan, before + more, held, ms, errors);
            var t := Reported(more);
            FailsWith(o.ok, errors, o.errors, if t.kind == StringToken then LeafMessage(t) else "Missing '}' or object member name", t)
  {
    hide ReadMember, SkipComments, DecodeString, IsProper, Recover, IsBadString;
    SkippedTo(before, more);
    if IsBadString(Reported(more)) {
      BadNameIsString(more);
      BadStringExactly(more[0]);
    }
  }

  lemma NameIsPassed(f: Features, scan: DoubleScanner, before: seq<Token>, name: seq<Char>, more: seq<Token>, held: string, ms: seq<Member>, errors: Errors)
    requires AreComments(before) && AreReadable(name) && CharsAccepted(name)
    ensures ReadNamedMember(f, scan, before + ([NameToken(name)] + more), held, ms, errors) ==
              match ReadMember(f, scan, more, CharsRead(name), ms, errors)
              case Done(o) => Done(o)
              case More(errors', rest, ms') => More(errors', rest, (CharsRead(name), ms'))
  {
    hide ReadMember, SkipComments, DecodeString, StringText, CharsRead, CharsAccepted, AreReadable;
    CommentsAreSkipped(before, NameToken(name), more);
    StringTextIsDecoded(name);
  }

  lemma ColonIsMissing(f: Features, scan: DoubleScanner, more: seq<Token>, name: string, ms: seq<Member>, errors: Errors)
    requires Reported(more).kind != MemberSeparator
    ensures var t := ReadMember(f, scan, more, name, ms, errors);
            t.Done? && FailsWith(t.outcome.ok, errors, t.outcome.errors, "Missing ':' after object member name", Reported(more))
  {
    hide Recover;
  }

  lemma MemberFails(f: Features, scan: DoubleScanner, toks: seq<Token>, name: string, ms: seq<Member>, errors: Errors)
    requires !ReadValue(f, scan, toks, Resolve(ms, CStr(name)), errors).ok
    ensures var t := ReadMember(f, scan, [COLON] + toks, name, ms, errors);
            t.Done? && !t.outcome.ok && t.outcome.errors == ReadValue(f, scan, toks, Resolve(ms, CStr(name)), errors).errors
  {
    hide ReadValue, Assign, Resolve, CStr;
    assert ([COLON] + toks)[1..] == toks;
  }

  /** Behind the value of a member stands neither a brace, a comma nor a comment. */
  lemma SeparatorIsMissing(f: Features, scan: DoubleScanner, e: Entry, more: seq<Token>, ms: seq<Member>, errors: Errors)
    requires IsEntry(f, scan, e) && e.behind == []
    requires var k := Reported(more).kind; k != ObjectEnd && k != ArraySeparator && k != CommentToken
    ensures var t := ReadMember(f, scan, [COLON] + (TreeTokens(e.tree) + more), CharsRead(e.name), ms, errors);
            t.Done? && FailsWith(t.outcome.ok, errors, t.outcome.errors, "Missing ',' or '}' in object declaration", Reported(more))
  {
    hide ReadValue, IsTree, TreeTokens, TreeValue, Assign, Resolve, CharsRead, CStr, CharsAccepted, AreReadable, Recover;
    assert ([COLON] + (TreeTokens(e.tree) + more))[1..] == TreeTokens(e.tree) + more;
    TreeIsRead(f, scan, e.tree, more, Resolve(ms, CStr(CharsRead(e.name))), errors);
  }

  /** Behind a comment the end of the text passes for the separator. */
  lemma EndIsSeparator(f: Features, scan: DoubleScanner, e: Entry, ms: seq<Member>, errors: Errors)
    requires IsEntry(f, scan, e) && e.behind != []
    ensures ReadMember(f, scan, [COLON] + (TreeTokens(e.tree) + e.behind), CharsRead(e.name), ms, errors)
         == More(errors, [], EntryMembers(e, ms, scan))
  {
    hide ReadValue, IsTree, TreeTokens, TreeValue, Assign, Resolve, CharsRead, CStr, CharsAccepted, AreReadable;
    assert ([COLON] + (TreeTokens(e.tree) + e.behind))[1..] == TreeTokens(e.tree) + e.behind;
    TreeIsRead(f, scan, e.tree, e.behind, Resolve(ms, CStr(CharsRead(e.name))), errors);
    assert e.behind + [] == e.behind;
    SkippedTo(e.behind, []);
  }

  lemma NothingIsReported(f: Features, scan: DoubleScanner, held: string, ms: seq<Member>, errors: Errors)
    ensures var o := ReadMembers(f, scan, [], held, ms, errors);
            FailsWith(o.ok, errors, o.errors, "Missing '}' or object member name", Reported([]))
  {
    hide Recover;
  }

  lemma TurnEnds(f: Features, scan: DoubleScanner, toks: seq<Token>, held: string, ms: seq<Member>, errors: Errors)
    ensures match ReadNamedMember(f, scan, toks, held, ms, errors)
            case Done(o) => ReadMembers(f, scan, toks, held, ms, errors) == o
            case More(errors', rest, (name', ms')) => ReadMembers(f, scan, toks, held, ms, errors) == ReadMembers(f, scan, rest, name', ms', errors')
  {
    hide ReadNamedMember;
  }

  lemma {:induction false} GapIsReported(f: Features, scan: DoubleScanner, held: string, g: Gap, more: seq<Token>, ms: seq<Member>, errors: Errors)
    requires IsGap(f, scan, held, g, more) && AreProper(more)
    ensures var o := ReadMembers(f, scan, GapTokens(g) + more, held, ms, errors);
            FailsWith(o.ok, errors, o.errors, GapMessage(g, Reported(more)), Reported(more))
    decreases g
  {
    hide ReadMembers, ReadMember, ReadNamedMember, ReadValue, AreComments, IsEntry, EntryTokens, EntryMembers, AreReadable, CharsRead, CharsAccepted, IsBadString,
         IsFault, FaultTokens, LeafMessage, IsProper, NameToken, IsSeparator, CStr, Resolve;
    var toks := GapTokens(g) + more;
    TurnEnds(f, scan, toks, held, ms, errors);
    match g
    case NoName(before) => NameIsMissing(f, scan, before, more, held, ms, errors);
    case BadName(before) =>
      BadNameIsString(more);
      NameIsMissing(f, scan, before, more, held, ms, errors);
    case NoColon(before, name) =>
      assert toks == before + ([NameToken(name)] + more);
      NameIsPassed(f, scan, before, name, more, held, ms, errors);
      ColonIsMissing(f, scan, more, CharsRead(name), ms, errors);
    case InMember(before, name, fault) =>
      var inner := FaultTokens(fault) + more;
      assert toks == before + ([NameToken(name)] + ([COLON] + inner));
      NameIsPassed(f, scan, before, name, [COLON] + inner, held, ms, errors);
      FaultIsReported(f, scan, fault, more, Resolve(ms, CStr(CharsRead(name))), errors);
      MemberFails(f, scan, inner, CharsRead(name), ms, errors);
    case BehindMember(e) =>
      var inner := [COLON] + (TreeTokens(e.tree) + more);
      EntryAhead(f, scan, e, more);
      assert e.behind + more == more;
      NameIsPassed(f, scan, e.before, e.name, inner, held, ms, errors);
      SeparatorIsMissing(f, scan, e, more, ms, errors);
    case BehindAll(e) =>
      EntryAhead(f, scan, e, more);
      assert e.behind + more == e.behind;
      NameIsPassed(f, scan, e.before, e.name, [COLON] + (TreeTokens(e.tree) + e.behind), held, ms, errors);
      EndIsSeparator(f, scan, e, ms, errors);
      NothingIsReported(f, scan, CharsRead(e.name), EntryMembers(e, ms, scan), errors);
    case Later(e, separator, gap) =>
      var rest := GapTokens(gap) + more;
      assert toks == EntryTokens(e) + ([separator] + rest);
      SeparatorIsNoBrace(e.behind, separator);
      EntryIsRead(f, scan, e, separator, rest, held, ms, errors);
      GapIsReported(f, scan, CharsRead(e.name), gap, more, EntryMembers(e, ms, scan), errors);
  }

  lemma BadNameIsString(more: seq<Token>)
    requires IsBadString(Reported(more))
    ensures Reported(more).kind == StringToken
  {
  }

  lemma EntryAhead(f: Features, scan: DoubleScanner, e: Entry, more: seq<Token>)
    requires IsEntry(f, scan, e)
    ensures EntryTokens(e) + more == e.before + ([NameToken(e.name)] + ([COLON] + (TreeTokens(e.tree) + (e.behind + more))))
    ensures AreComments(e.before) && AreReadable(e.name) && CharsAccepted(e.name)
  {
    hide IsTree, TreeTokens, AreReadable, CharsAccepted, NameToken;
  }

  // ---------------------------------------------------------------- what fails has a fault

  /** The comments at the head of a list of tokens. */
  lemma {:induction false} CommentsBefore(toks: seq<Token>) returns (comments: seq<Token>, more: seq<Token>)
    ensures AreComments(comments) && toks == comments + more && Reported(more).kind != CommentToken
    ensures var (t, rest) := Next(toks); SkipComments(t, rest) == Next(more)
    decreases |toks|
  {
    if toks == [] || toks[0].kind != CommentToken {
      assert [] + toks == toks;
      return [], toks;
    }
    comments, more := CommentsBefore(toks[1..]);
    comments := [toks[0]] + comments;
  }

  lemma LeadBefore(f: Features, toks: seq<Token>) returns (lead: seq<Token>, more: seq<Token>)
    ensures IsLead(f, lead) && toks == lead + more && Next(more) == FirstToken(f, toks)
    ensures f.allowComments ==> Reported(more).kind != CommentToken
  {
    if f.allowComments {
      lead, more := CommentsBefore(toks);
    } else {
      assert [] + toks == toks;
      return [], toks;
    }
  }

  lemma FirstOfMore(more: seq<Token>)
    requires AreProper(more) && Reported(more).kind != EndOfStream
    ensures more != [] && more == [Reported(more)] + Next(more).1 && IsProper(Reported(more)) && AreProper(Next(more).1)
  {
    hide IsProper;
    assert forall i :: 0 <= i < |more| - 1 ==> more[1..][i] == more[i + 1];
  }

  /** Whatever is not read breaks off at a fault. */
  lemma {:induction false} FailedIsFault(f: Features, scan: DoubleScanner, toks: seq<Token>, cur: Value, errors: Errors) returns (x: Fault, more: seq<Token>)
    requires AreProper(toks) && !ReadValue(f, scan, toks, cur, errors).ok
    ensures IsFault(f, scan, x, more) && toks == FaultTokens(x) + more
    decreases |toks|, 1
  {
    hide ReadArrayItems, ReadMembers, FirstToken, IsGap, IsSlot, IsBadLeaf, IsLead, CommaTokens, GapTokens, TreeTokens, IsProper, NumberOutcome, StringOutcome,
         ReadItems;
    var lead;
    lead, more := LeadBefore(f, toks);
    ProperRest(lead, more);
    var t, rest := Reported(more), Next(more).1;
    if t.kind == ObjectBegin {
      FirstOfMore(more);
      BracketText(t);
      var gap, behind := FailedIsGap(f, scan, rest, "", [], errors);
      x := InRecord(lead, gap);
      assert toks == FaultTokens(x) + behind;
      more := behind;
    } else if t.kind == ArrayBegin {
      FirstOfMore(more);
      BracketText(t);
      x, more := FailedIsList(f, scan, rest, lead, errors);
      assert toks == FaultTokens(x) + more;
    } else if t.kind == NumberToken || t.kind == StringToken {
      FirstOfMore(more);
      LeafFails(f, scan, toks, t, rest, cur, errors);
      x := BadLeaf(lead);
    } else {
      x := NoValue(lead);
    }
  }

  lemma LeafFails(f: Features, scan: DoubleScanner, toks: seq<Token>, t: Token, rest: seq<Token>, cur: Value, errors: Errors)
    requires IsProper(t) && FirstToken(f, toks) == (t, rest) && (t.kind == NumberToken || t.kind == StringToken)
    requires !ReadValue(f, scan, toks, cur, errors).ok
    ensures IsBadLeaf(t, scan)
  {
    hide FirstToken, DecodeNumber, DecodeString, IsNumberLeaf, IsBadString, IsProper;
    if t.kind == NumberToken {
      NumberTextIsProper(t);
      NumberIsAccepted(t.text, scan);
    } else {
      BadStringExactly(t);
    }
  }

  lemma {:induction false} FailedIsList(f: Features, scan: DoubleScanner, toks: seq<Token>, lead: seq<Token>, errors: Errors) returns (x: Fault, more: seq<Token>)
    requires AreProper(toks) && !ReadArrayItems(f, scan, toks, errors).ok && IsLead(f, lead)
    ensures IsFault(f, scan, x, more) && lead + ([ARRAY_BEGIN] + toks) == FaultTokens(x) + more
    decreases |toks|, 4
  {
    hide ReadItems, ReadArrayItems, IsSlot, IsFault, CommaTokens, FaultTokens, IsLead, TreeTokens;
    ListFails(f, scan, toks, errors);
    var slots, inItem, fault, last;
    slots, inItem, fault, last, more := FailedAreItems(f, scan, toks, [], errors);
    if inItem {
      x := InItem(lead, slots, fault);
      InItemIsFault(f, scan, lead, slots, fault, more);
    } else {
      x := BehindItem(lead, slots, last);
      BehindItemIsFault(f, scan, lead, slots, last, more);
    }
  }

  lemma ListFails(f: Features, scan: DoubleScanner, toks: seq<Token>, errors: Errors)
    requires !ReadArrayItems(f, scan, toks, errors).ok
    ensures !ReadItems(f, scan, toks, [], errors).ok && (toks == [] || toks[0].kind != ArrayEnd)
  {
    hide ReadItems;
  }

  lemma InItemIsFault(f: Features, scan: DoubleScanner, lead: seq<Token>, slots: seq<Slot>, fault: Fault, more: seq<Token>)
    requires IsLead(f, lead) && (forall i :: 0 <= i < |slots| ==> IsSlot(f, scan, slots[i])) && IsFault(f, scan, fault, more)
    requires var toks := CommaTokens(slots) + (FaultTokens(fault) + more); toks == [] || toks[0].kind != ArrayEnd
    ensures var x := InItem(lead, slots, fault);
            IsFault(f, scan, x, more) &&
            lead + ([ARRAY_BEGIN] + (CommaTokens(slots) + (FaultTokens(fault) + more))) == FaultTokens(x) + more
  {
    hide IsSlot, CommaTokens, IsLead, IsGap, GapTokens, IsBadLeaf;
    var c, t := CommaTokens(slots), FaultTokens(fault);
    if slots == [] && fault == NoValue([]) {
      NoCommas(slots, t + more);
      assert t == [] && t + more == more;
    }
    Associates(lead, [ARRAY_BEGIN] + (c + t), more);
    Associates([ARRAY_BEGIN], c + t, more);
    Associates(c, t, more);
  }

  lemma BehindItemIsFault(f: Features, scan: DoubleScanner, lead: seq<Token>, slots: seq<Slot>, last: Slot, more: seq<Token>)
    requires IsLead(f, lead) && (forall i :: 0 <= i < |slots| ==> IsSlot(f, scan, slots[i])) && IsSlot(f, scan, last)
    requires var k := Reported(more).kind; k != ArrayEnd && k != ArraySeparator && k != CommentToken
    ensures var x := BehindItem(lead, slots, last);
            IsFault(f, scan, x, more) &&
            lead + ([ARRAY_BEGIN] + (CommaTokens(slots) + (TreeTokens(last.tree) + (last.behind + more)))) == FaultTokens(x) + more
  {
    hide IsSlot, CommaTokens, TreeTokens, IsLead;
    var c, t, b := CommaTokens(slots), TreeTokens(last.tree), last.behind;
    Associates(lead, [ARRAY_BEGIN] + (c + (t + b)), more);
    Associates([ARRAY_BEGIN], c + (t + b), more);
    Associates(c, t + b, more);
    Associates(t, b, more);
  }

  lemma {:induction false} FailedAreItems(f: Features, scan: DoubleScanner, toks: seq<Token>, acc: seq<Value>, errors: Errors)
    returns (slots: seq<Slot>, inItem: bool, fault: Fault, last: Slot, more: seq<Token>)
    requires AreProper(toks) && !ReadItems(f, scan, toks, acc, errors).ok
    ensures forall i :: 0 <= i < |slots| ==> IsSlot(f, scan, slots[i])
    ensures inItem ==> IsFault(f, scan, fault, more) && toks == CommaTokens(slots) + (FaultTokens(fault) + more)
    ensures !inItem ==> IsSlot(f, scan, last) && toks == CommaTokens(slots) + (TreeTokens(last.tree) + (last.behind + more))
    ensures !inItem ==> var k := Reported(more).kind; k != ArrayEnd && k != ArraySeparator && k != CommentToken
    decreases |toks|, 3
  {
    hide ReadItems, IsSlot, IsFault, FaultTokens, TreeTokens, TreeValue, IsProper;
    var read;
    read, fault, last, more := ItemOrFault(f, scan, toks, errors);
    slots, inItem := [], !read;
    if !read || (Reported(more).kind != ArrayEnd && Reported(more).kind != ArraySeparator) {
      assert CommaTokens([]) + toks == toks;
      return;
    }
    var s, tok, rest := last, Reported(more), Next(more).1;
    FirstOfMore(more);
    BracketText(tok);
    ItemsGoOn(f, scan, s, tok, rest, acc, errors);
    slots, inItem, fault, last, more := FailedAreItems(f, scan, rest, acc + [TreeValue(s.tree, scan)], errors);
    MoreCommas(s, slots, if inItem then FaultTokens(fault) + more else TreeTokens(last.tree) + (last.behind + more));
    slots := [s] + slots;
  }

  /** Behind an item that is followed by a bracket or comma. */
  lemma ItemsGoOn(f: Features, scan: DoubleScanner, s: Slot, tok: Token, rest: seq<Token>, acc: seq<Value>, errors: Errors)
    requires IsSlot(f, scan, s) && (tok == ARRAY_END || tok == COMMA)
    ensures var o := ReadItems(f, scan, TreeTokens(s.tree) + (s.behind + ([tok] + rest)), acc, errors);
            if tok == ARRAY_END then o.ok else o == ReadItems(f, scan, rest, acc + [TreeValue(s.tree, scan)], errors)
  {
    hide ReadItem, IsSlot, TreeTokens, TreeValue;
    SlotIsRead(f, scan, s, tok, rest, acc, errors);
  }

  /** The head of a list is an item with the comments behind it, or breaks off. */
  lemma {:induction false} ItemOrFault(f: Features, scan: DoubleScanner, toks: seq<Token>, errors: Errors)
    returns (read: bool, fault: Fault, s: Slot, more: seq<Token>)
    requires AreProper(toks)
    ensures !read ==> IsFault(f, scan, fault, more) && toks == FaultTokens(fault) + more
    ensures read ==> IsSlot(f, scan, s) && toks == TreeTokens(s.tree) + (s.behind + more)
    ensures read ==> Reported(more).kind != CommentToken && AreProper(more)
    decreases |toks|, 2
  {
    hide ReadValue, IsTree, IsFault, FaultTokens, TreeTokens, IsProper, AreComments;
    fault, s := NoValue([]), Slot(LeafTree([], NullLeaf), []);
    var v := ReadValue(f, scan, toks, Null, errors);
    read := v.ok;
    if read {
      var tree := ReadIsTree(f, scan, toks, Null, errors);
      ProperRest(TreeTokens(tree), v.rest);
      var behind;
      behind, more := CommentsBefore(v.rest);
      ProperRest(behind, more);
      s := Slot(tree, behind);
    } else {
      fault, more := FailedIsFault(f, scan, toks, Null, errors);
    }
  }

  lemma EntryOf(f: Features, scan: DoubleScanner, before: seq<Token>, name: seq<Char>, tree: Tree, behind: seq<Token>)
    requires AreComments(before) && AreReadable(name) && CharsAccepted(name) && IsTree(f, scan, tree) && AreComments(behind)
    ensures IsEntry(f, scan, Entry(before, name, tree, behind))
  {
  }

  lemma {:induction false} FailedIsGap(f: Features, scan: DoubleScanner, toks: seq<Token>, held: string, ms: seq<Member>, errors: Errors)
    returns (g: Gap, more: seq<Token>)
    requires AreProper(toks) && !ReadMembers(f, scan, toks, held, ms, errors).ok
    ensures IsGap(f, scan, held, g, more) && toks == GapTokens(g) + more
    decreases |toks|, 3
  {
    hide ReadMembers, ReadMember, ReadNamedMember, AreComments, AreReadable, CharsRead, CharsAccepted, IsBadString, IsFault, FaultTokens, IsEntry, EntryTokens,
         IsProper, NameToken, IsSeparator, DecodeString;
    var before;
    before, more := CommentsBefore(toks);
    ProperRest(before, more);
    var t, rest := Reported(more), Next(more).1;
    if t.kind != StringToken {
      if t.kind == ObjectEnd && held == "" { BraceEnds(f, scan, before, more, ms, errors); }
      return NoName(before), more;
    }
    FirstOfMore(more);
    BadStringExactly(t);
    if DecodeString(t.text).BadString? { return BadName(before), more; }
    var name := StringIsAccepted(t);
    assert toks == before + ([NameToken(name)] + rest);
    NameIsPassed(f, scan, before, name, rest, held, ms, errors);
    TurnEnds(f, scan, toks, held, ms, errors);
    if Reported(rest).kind != MemberSeparator { return NoColon(before, name), rest; }
    FirstOfMore(rest);
    BracketText(Reported(rest));
    g, more := FailedIsMember(f, scan, Next(rest).1, before, name, held, ms, errors);
  }

  /** A brace that ends the object. */
  lemma BraceEnds(f: Features, scan: DoubleScanner, before: seq<Token>, more: seq<Token>, ms: seq<Member>, errors: Errors)
    requires AreComments(before) && AreProper(more) && Reported(more).kind == ObjectEnd
    ensures ReadMembers(f, scan, before + more, "", ms, errors).ok
  {
    hide ReadNamedMember, IsProper, AreComments;
    FirstOfMore(more);
    BracketText(Reported(more));
    BraceIsRead(f, scan, before, Next(more).1, ms, errors);
  }

  /** A member that fails behind its colon. */
  lemma {:induction false} FailedIsMember(f: Features, scan: DoubleScanner, toks: seq<Token>, before: seq<Token>, name: seq<Char>, held: string, ms: seq<Member>,
                                          errors: Errors) returns (g: Gap, more: seq<Token>)
    requires AreProper(toks) && AreComments(before) && AreReadable(name) && CharsAccepted(name)
    requires !ReadMembers(f, scan, before + ([NameToken(name)] + ([COLON] + toks)), held, ms, errors).ok
    ensures IsGap(f, scan, held, g, more) && before + ([NameToken(name)] + ([COLON] + toks)) == GapTokens(g) + more
    decreases |toks|, 4
  {
    hide ReadMembers, ReadValue, AreComments, AreReadable, CharsRead, CharsAccepted, IsFault, FaultTokens, IsEntry, EntryTokens, IsTree, TreeTokens,
         IsProper, NameToken, CStr, Resolve, SkipComments, EntryMembers;
    var cur := Resolve(ms, CStr(CharsRead(name)));
    var v := ReadValue(f, scan, toks, cur, errors);
    if !v.ok {
      var fault;
      fault, more := FailedIsFault(f, scan, toks, cur, errors);
      g := InMember(before, name, fault);
      assert before + ([NameToken(name)] + ([COLON] + toks)) == GapTokens(g) + more;
      return;
    }
    var tree := ReadIsTree(f, scan, toks, cur, errors);
    ProperRest(TreeTokens(tree), v.rest);
    var behind;
    behind, more := CommentsBefore(v.rest);
    ProperRest(behind, more);
    var e := Entry(before, name, tree, behind);
    EntryOf(f, scan, before, name, tree, behind);
    EntryAhead(f, scan, e, more);
    assert toks == TreeTokens(tree) + (behind + more);
    var t := Reported(more);
    if behind == [] && t.kind != ObjectEnd && t.kind != ArraySeparator { return BehindMember(e), more; }
    if more == [] { return BehindAll(e), more; }
    g, more := FailedIsLater(f, scan, e, more, held, ms, errors);
  }

  /** What fails behind a member fails later on. */
  lemma {:induction false} FailedIsLater(f: Features, scan: DoubleScanner, e: Entry, left: seq<Token>, held: string, ms: seq<Member>, errors: Errors)
    returns (g: Gap, more: seq<Token>)
    requires AreProper(left) && left != [] && IsEntry(f, scan, e) && left[0].kind != CommentToken
    requires e.behind != [] || left[0].kind == ObjectEnd || left[0].kind == ArraySeparator
    requires !ReadMembers(f, scan, EntryTokens(e) + left, held, ms, errors).ok
    ensures IsGap(f, scan, held, g, more) && EntryTokens(e) + left == GapTokens(g) + more
    decreases |left|, 3
  {
    hide ReadMembers, ReadNamedMember, IsEntry, EntryTokens, IsProper, EntryMembers, CharsRead;
    var separator, rest := left[0], left[1..];
    assert left == [separator] + rest;
    ProperRest([separator], rest);
    assert IsProper([separator][0]);
    BracketText(separator);
    EntryIsRead(f, scan, e, separator, rest, held, ms, errors);
    TurnEnds(f, scan, EntryTokens(e) + ([separator] + rest), held, ms, errors);
    hide IsGap, GapTokens, IsSeparator;
    var gap;
    gap, more := FailedIsGap(f, scan, rest, CharsRead(e.name), EntryMembers(e, ms, scan), errors);
    g := Later(e, separator, gap);
    LaterIsGap(f, scan, e, separator, held, gap, more);
  }

  lemma LaterIsGap(f: Features, scan: DoubleScanner, e: Entry, separator: Token, held: string, gap: Gap, more: seq<Token>)
    requires IsEntry(f, scan, e) && IsSeparator(e.behind, separator) && IsGap(f, scan, CharsRead(e.name), gap, more)
    ensures var g := Later(e, separator, gap);
            IsGap(f, scan, held, g, more) && EntryTokens(e) + ([separator] + (GapTokens(gap) + more)) == GapTokens(g) + more
  {
    hide IsEntry, EntryTokens, IsSeparator, IsFault, CharsRead;
    Associates(EntryTokens(e), [separator] + GapTokens(gap), more);
    Associates([separator], GapTokens(gap), more);
  }

  // ---------------------------------------------------------------- documents

  /** The tokens of the text break off at this fault. */
  ghost predicate BreaksOff(f: Features, scan: DoubleScanner, text: string, x: Fault, more: seq<Token>) {
    IsFault(f, scan, x, more) && Lex(text) == FaultTokens(x) + more
  }

  /** Every text that is not read as a value breaks off at a fault, and the first error is about the
      token there and says what was expected. In strict mode a second one is about a root that is
      neither array, object nor null; it is the only one if the text does not break off. */
  lemma ReportedExactly(f: Features, scan: DoubleScanner, text: string, root: Value)
    ensures forall x, more :: BreaksOff(f, scan, text, x, more) ==>
              var o := Parse(f, scan, Lex(text), root, text);
              !o.ok && [Error(FaultMessage(x, Reported(more)), Reported(more))] <= o.errors && |o.errors| <= if f.strictRoot then 2 else 1
    ensures Parse(f, scan, Lex(text), root, text).ok || (exists x, more :: BreaksOff(f, scan, text, x, more)) ||
              (f.strictRoot && Parse(f, scan, Lex(text), root, text).errors == [Error(ROOT_EXPECTED, Token(ErrorToken, text))])
  {
    hide ReadValue, Lex, IsFault, FaultTokens, FaultMessage, IsProper, FirstToken;
    LexIsProper(text);
    forall x, more | BreaksOff(f, scan, text, x, more)
      ensures var o := Parse(f, scan, Lex(text), root, text);
              !o.ok && [Error(FaultMessage(x, Reported(more)), Reported(more))] <= o.errors && |o.errors| <= if f.strictRoot then 2 else 1
    {
      ProperRest(FaultTokens(x), more);
      FaultIsReported(f, scan, x, more, root, []);
    }
    if !ReadValue(f, scan, Lex(text), root, []).ok {
      var x, more := FailedIsFault(f, scan, Lex(text), root, []);
      assert BreaksOff(f, scan, text, x, more);
    } else {
      ReadValueAccounts(f, scan, Lex(text), root, []);
    }
  }

  /** A colon in place of a comma: the error is about the colon. */
  lemma ColonInArray(f: Features, scan: DoubleScanner, root: Value)
    ensures var colon := Token(MemberSeparator, ":");
            var o := ReadValue(f, scan, [ARRAY_BEGIN, Token(TrueToken, "true"), colon, Token(FalseToken, "false"), ARRAY_END], root, []);
            !o.ok && o.errors == [Error("Missing ',' or ']' in array declaration", colon)]
  {
    hide ReadValue;
    var colon, false_ := Token(MemberSeparator, ":"), Token(FalseToken, "false");
    var item := Slot(LeafTree([], TrueLeaf), []);
    var x, more := BehindItem([], [], item), [colon, false_, ARRAY_END];
    assert IsTree(f, scan, item.tree);
    FaultIsReported(f, scan, x, more, root, []);
    assert FaultTokens(x) + more == [ARRAY_BEGIN, Token(TrueToken, "true"), colon, false_, ARRAY_END];
  }
}
