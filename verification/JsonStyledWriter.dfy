/** StyledWriter: the pretty printer, proved to write the text Pretty describes, and the proof that
    this text has the tokens of the value, with nothing but white space between them. */
module JsonStyledWriter {
  import opened CString
  import opened JsonValue
  import opened JsonLexer
  import opened JsonNumber
  import opened JsonString
  import opened JsonText
  import opened JsonWriter

  const RIGHT_MARGIN := 74
  const INDENT_SIZE := 3
  const TAB := "   "

  /** A value without lines of its own: a scalar or an empty container. */
  predicate Simple(v: Value) { v.Size() == 0 }

  function ValueText(v: Value, d: Doubles): string
    requires Storable(v, d)
  {
    Compact(Lexemes(v, d), false)
  }

  function TextLengths(items: seq<Value>, d: Doubles): nat
    requires AllStorable(items, d)
  {
    if items == [] then 0
    else TextLengths(items[..|items| - 1], d) + |ValueText(items[|items| - 1], d)|
  }

  predicate AllStorable(items: seq<Value>, d: Doubles) {
    forall i :: 0 <= i < |items| ==> Storable(items[i], d)
  }

  predicate MembersStorable(ms: seq<Member>, d: Doubles) {
    forall i :: 0 <= i < |ms| ==> NUL !in ms[i].key && Storable(ms[i].value, d)
  }

  /** The layout rule for arrays: one line each for 25 or more items, for items that are filled
      containers, and when the single line would reach the right margin. */
  predicate NeedsLines(items: seq<Value>, d: Doubles)
    requires AllStorable(items, d)
  {
    |items| * 3 >= RIGHT_MARGIN || (exists i :: 0 <= i < |items| && !Simple(items[i])) ||
    4 + (|items| - 1) * 2 + TextLengths(items, d) >= RIGHT_MARGIN
  }

  // ---------------------------------------------------------------- the layout

  /** The styled text of a value whose lines are indented: a filled object has one member a line,
      an array one item a line or all items on one. */
  function Pretty(v: Value, indent: string, d: Doubles): string
    requires Storable(v, d)
    decreases v, 1
  {
    if Simple(v) then ValueText(v, d)
    else if v.Object? then "{" + MemberLines(v.members, indent + TAB, d) + "\n" + indent + "}"
    else if NeedsLines(v.items, d) then "[" + Lines(v.items, indent + TAB, d) + "\n" + indent + "]"
    else "[ " + OneLine(v.items, d) + " ]"
  }

  function Lines(items: seq<Value>, indent: string, d: Doubles): string
    requires AllStorable(items, d)
    decreases items, 0
  {
    if items == [] then ""
    else
      var n := |items| - 1;
      Lines(items[..n], indent, d) + (if n == 0 then "" else ",") + "\n" + indent + Pretty(items[n], indent, d)
  }

  function OneLine(items: seq<Value>, d: Doubles): string
    requires AllStorable(items, d)
  {
    if items == [] then ""
    else
      var n := |items| - 1;
      OneLine(items[..n], d) + (if n == 0 then "" else ", ") + ValueText(items[n], d)
  }

  function MemberLine(m: Member, indent: string, d: Doubles): string
    requires Storable(m.value, d)
    decreases m, 0
  {
    Quote(m.key) + " : " + Pretty(m.value, indent, d)
  }

  function MemberLines(ms: seq<Member>, indent: string, d: Doubles): string
    requires MembersStorable(ms, d)
    decreases ms, 0
  {
    if ms == [] then ""
    else
      var n := |ms| - 1;
      MemberLines(ms[..n], indent, d) + (if n == 0 then "" else ",") + "\n" + indent + MemberLine(ms[n], indent, d)
  }

  // ---------------------------------------------------------------- ends of texts

  /** Text that does not end in white space. */
  predicate EndsInToken(s: string) {
    s != "" && s[|s| - 1] != ' ' && s[|s| - 1] != '\n'
  }

  lemma EndsWith(a: string, b: string)
    requires EndsInToken(b)
    ensures EndsInToken(a + b)
  {
  }

  lemma WritableEnds(t: Token)
    requires Writable(t)
    ensures EndsInToken(t.text)
  {
    hide Quote;
    if t.kind == StringToken {
      var s :| t.text == Quote(s);
      QuoteStarts(s);
    }
  }

  lemma CompactEnds(toks: seq<Token>)
    requires Separable(toks) && toks != []
    ensures EndsInToken(Compact(toks, false))
  {
    var head, last := toks[..|toks| - 1], toks[|toks| - 1];
    assert toks == head + [last];
    CompactConcat(head, [last], false);
    CompactOne(last, false);
    WritableEnds(last);
  }

  lemma PrettyEnds(v: Value, indent: string, d: Doubles)
    requires Storable(v, d)
    ensures EndsInToken(Pretty(v, indent, d))
  {
    hide Lines, MemberLines, OneLine, Lexemes, Storable, Compact;
    if Simple(v) {
      LexemesSeparable(v, d);
      CompactEnds(Lexemes(v, d));
    }
  }

  /** What writeIndent adds: nothing behind a blank, else a new line and the indentation. */
  function Break(document: string, indent: string): string {
    if document == "" || document[|document| - 1] == '\n' then indent
    else if document[|document| - 1] == ' ' then "" else "\n" + indent
  }

  /** Where a value may start: at the start of the document, or behind a blank. */
  predicate AtStart(document: string, indent: string) {
    if document == "" then indent == "" else document[|document| - 1] == ' '
  }

  predicate IsIndent(s: string) { forall i :: 0 <= i < |s| ==> s[i] == ' ' }

  class StyledWriter {
    ghost const d: Doubles
    const show: real -> string
    var childValues: seq<string>
    var document: string
    var indentString: string
    var addChildValues: bool

    constructor (ghost d: Doubles, show: real -> string)
      requires show == d.show
      ensures this.d == d && this.show == show && Valid()
    {
      this.d, this.show := d, show;
      childValues, document, indentString, addChildValues := [], "", "", false;
    }

    ghost predicate Valid()
      reads this`indentString
    {
      show == d.show && IsIndent(indentString)
    }

    // -------------------------------------------------------------- layout

    /** writeIndent: a new line and the indentation, unless something is indented already. */
    method WriteIndent()
      modifies this`document
      ensures document == old(document) + Break(old(document), indentString)
    {
      if document != "" {
        var last := document[|document| - 1];
        if last == ' ' { return; }
        if last != '\n' {
          document := document + "\n";
        }
      }
      document := document + indentString;
    }

    /** writeWithIndent */
    method WriteWithIndent(value: string)
      modifies this`document
      ensures document == old(document) + Break(old(document), indentString) + value
    {
      WriteIndent();
      document := document + value;
    }

    method Indent()
      requires Valid()
      modifies this`indentString
      ensures Valid() && indentString == old(indentString) + TAB
    {
      indentString := indentString + "   ";
    }

    method Unindent()
      requires Valid() && |indentString| >= INDENT_SIZE
      modifies this`indentString
      ensures Valid() && indentString == old(indentString)[..|old(indentString)| - INDENT_SIZE]
    {
      indentString := indentString[..|indentString| - INDENT_SIZE];
    }

    /** pushValue: the text becomes a child value or goes to the document. */
    method PushValue(value: string)
      modifies this`document, this`childValues
      ensures addChildValues ==> document == old(document) && childValues == old(childValues) + [value]
      ensures !addChildValues ==> document == old(document) + value && childValues == old(childValues)
    {
      if addChildValues {
        childValues := childValues + [value];
      } else {
        document := document + value;
      }
    }

    // -------------------------------------------------------------- values

    /** isMultineArray: decides the layout and, unless that is settled by the number and kind of
        the items alone, leaves the text of every item in childValues_. */
    method IsMultilineArray(items: seq<Value>) returns (isMultiLine: bool)
      requires Valid() && items != [] && !addChildValues && AllStorable(items, d)
      modifies this
      ensures Valid() && indentString == old(indentString) && document == old(document) && !addChildValues
      ensures isMultiLine <==> NeedsLines(items, d)
      ensures !isMultiLine ==> |childValues| == |items|
      ensures childValues != [] ==> |childValues| == |items|
      ensures childValues != [] ==> forall i :: 0 <= i < |items| ==> Simple(items[i]) && childValues[i] == ValueText(items[i], d)
      decreases items, 0
    {
      hide Lexemes, Compact, Storable, ValueText;
      var size := |items|;
      isMultiLine := size * 3 >= RIGHT_MARGIN;
      childValues := [];
      var index := 0;
      while index < size && !isMultiLine
        invariant 0 <= index <= size
        invariant !isMultiLine ==> size * 3 < RIGHT_MARGIN && forall i :: 0 <= i < index ==> Simple(items[i])
        invariant isMultiLine ==> NeedsLines(items, d)
      {
        isMultiLine := (items[index].IsArray() || items[index].IsObject()) && items[index].Size() > 0;
        index := index + 1;
      }
      if !isMultiLine {
        addChildValues := true;
        var lineLength := 4 + (size - 1) * 2;
        index := 0;
        while index < size
          invariant 0 <= index <= size && |childValues| == index
          invariant Valid() && indentString == old(indentString) && document == old(document) && addChildValues
          invariant forall i :: 0 <= i < index ==> childValues[i] == ValueText(items[i], d)
          invariant lineLength == 4 + (size - 1) * 2 + TextLengths(items[..index], d)
        {
          WriteValue(items[index]);
          lineLength := lineLength + |childValues[index]|;
          assert items[..index + 1][..index] == items[..index];
          index := index + 1;
        }
        assert items[..size] == items;
        addChildValues := false;
        isMultiLine := lineLength >= RIGHT_MARGIN;
      }
    }

    /** writeValue: the styled text of the value is added to the document, or the text of a simple
        value to the child values; indentation and mode are as before. */
    method WriteValue(value: Value)
      requires Valid() && Storable(value, d)
      requires addChildValues ==> Simple(value)
      requires !addChildValues ==> AtStart(document, indentString)
      modifies this
      ensures Valid() && indentString == old(indentString) && addChildValues == old(addChildValues)
      ensures addChildValues ==> document == old(document) && childValues == old(childValues) + [ValueText(value, d)]
      ensures !addChildValues ==> document == old(document) + Pretty(value, indentString, d)
      decreases value, 1
    {
      hide Quote, IntText, UIntText, Compact, Lexemes;
      if value.Array? {
        WriteArrayValue(value.items);
      } else if value.Object? && value.members != [] {
        WriteObjectValue(value.members);
      } else {
        var text := SimpleText(value);
        PushValue(text);
      }
    }

    /** The text of a scalar or of an empty container. */
    method SimpleText(value: Value) returns (text: string)
      requires Valid() && Storable(value, d) && Simple(value)
      ensures text == ValueText(value, d)
    {
      hide Quote, IntText, UIntText, Compact;
      CompactOne(Lexemes(value, d)[0], false);
      match value {
        case Null => return "null";
        case Bool(b) => return if b then "true" else "false";
        case Int(i) => text := IntToText(i);
        case UInt(u) => text := UIntToText(u);
        case Real(r) => return show(r);
        case Str(s) => text := ValueToQuotedString(s);
        case Array(_) => EmptyTexts(d); return "[]";
        case Object(_) => EmptyTexts(d); return "{}";
      }
    }

    static lemma EmptyTexts(d: Doubles)
      ensures ValueText(Array([]), d) == "[]" && ValueText(Object([]), d) == "{}"
    {
      hide Compact;
      CompactConcat([ARRAY_BEGIN], [ARRAY_END], false);
      CompactConcat([OBJECT_BEGIN], [OBJECT_END], false);
      CompactOne(ARRAY_BEGIN, false);
      CompactOne(ARRAY_END, false);
      CompactOne(OBJECT_BEGIN, false);
      CompactOne(OBJECT_END, false);
      assert Lexemes(Array([]), d) == [ARRAY_BEGIN] + [ARRAY_END];
      assert Lexemes(Object([]), d) == [OBJECT_BEGIN] + [OBJECT_END];
    }

    method WriteArrayValue(items: seq<Value>)
      requires Valid() && AllStorable(items, d)
      requires addChildValues ==> items == []
      requires !addChildValues ==> AtStart(document, indentString)
      modifies this
      ensures Valid() && indentString == old(indentString) && addChildValues == old(addChildValues)
      ensures addChildValues ==> document == old(document) && childValues == old(childValues) + [ValueText(Array(items), d)]
      ensures !addChildValues ==> document == old(document) + Pretty(Array(items), indentString, d)
      decreases items, 1
    {
      hide Compact, Lexemes, NeedsLines, Lines, OneLine, AtStart;
      if items == [] {
        EmptyTexts(d);
        PushValue("[]");
      } else {
        var isArrayMultiLine := IsMultilineArray(items);
        if isArrayMultiLine {
          WriteLines(items);
        } else {
          WriteLine(items);
        }
      }
    }

    /** One item a line. */
    method WriteLines(items: seq<Value>)
      requires Valid() && items != [] && !addChildValues && AllStorable(items, d) && AtStart(document, indentString)
      requires childValues != [] ==> |childValues| == |items|
      requires childValues != [] ==> forall i :: 0 <= i < |items| ==> Simple(items[i]) && childValues[i] == ValueText(items[i], d)
      modifies this
      ensures Valid() && indentString == old(indentString) && !addChildValues
      ensures document == old(document) + ("[" + Lines(items, indentString + TAB, d) + "\n" + indentString + "]")
      decreases items, 0
    {
      hide Storable, ValueText, Pretty, Break, AtStart, EndsInToken;
      StartBreak(document, indentString);
      WriteWithIndent("[");
      Indent();
      var hasChildValue := childValues != [];
      ghost var texts, start := childValues, document;
      assert start == old(document) + "[";
      BracketEnds(old(document));
      var index := 0;
      while true
        invariant 0 <= index < |items|
        invariant Valid() && indentString == old(indentString) + TAB && !addChildValues
        invariant hasChildValue ==> childValues == texts
        invariant document == start + Lines(items[..index], indentString, d) + (if index == 0 then "" else ",")
        invariant EndsInToken(document)
        decreases |items| - index
      {
        WriteItem(items[index], index, hasChildValue);
        LinesGrow(start, items, index, indentString, d);
        PrettyEnds(items[index], indentString, d);
        ItemEnds(start + Lines(items[..index + 1], indentString, d), items[..index + 1], indentString, d, start);
        index := index + 1;
        if index == |items| { break; }
        CommaEnds(document);
        document := document + ",";
      }
      assert items[..index] == items;
      Unindent();
      TokenBreak(document, indentString);
      WriteWithIndent("]");
      Bracketed(old(document), "[", Lines(items, indentString + TAB, d), indentString, "]");
    }

    /** One item on a line of its own, by its text if that is there already. */
    method WriteItem(item: Value, index: nat, hasChildValue: bool)
      requires Valid() && Storable(item, d) && !addChildValues && EndsInToken(document) && indentString != ""
      requires hasChildValue ==> index < |childValues| && Simple(item) && childValues[index] == ValueText(item, d)
      modifies this
      ensures Valid() && indentString == old(indentString) && !addChildValues
      ensures hasChildValue ==> childValues == old(childValues)
      ensures document == old(document) + ("\n" + indentString + Pretty(item, indentString, d))
      decreases item, 2
    {
      hide Lexemes, Compact, Lines, MemberLines, NeedsLines;
      TokenBreak(document, indentString);
      if hasChildValue {
        WriteWithIndent(childValues[index]);
      } else {
        WriteIndent();
        assert AtStart(document, indentString);
        WriteValue(item);
      }
    }

    /** All items on one line. */
    method WriteLine(items: seq<Value>)
      requires items != [] && AllStorable(items, d) && |childValues| == |items|
      requires forall i :: 0 <= i < |items| ==> childValues[i] == ValueText(items[i], d)
      modifies this`document
      ensures document == old(document) + ("[ " + OneLine(items, d) + " ]")
    {
      hide Storable, ValueText;
      document := document + "[ ";
      assert OneLine(items[..0], d) == "";
      for index := 0 to |items|
        invariant document == old(document) + "[ " + OneLine(items[..index], d)
      {
        assert items[..index + 1][..index] == items[..index];
        if index > 0 {
          document := document + ", ";
        }
        document := document + childValues[index];
      }
      assert items[..|items|] == items;
      document := document + " ]";
    }

    /** The members of an object, one a line. */
    method WriteObjectValue(members: seq<Member>)
      requires Valid() && members != [] && !addChildValues && MembersStorable(members, d) && AtStart(document, indentString)
      modifies this
      ensures Valid() && indentString == old(indentString) && !addChildValues
      ensures document == old(document) + ("{" + MemberLines(members, indentString + TAB, d) + "\n" + indentString + "}")
      decreases members, 0
    {
      hide Storable, MemberLine, Break, AtStart, EndsInToken;
      StartBreak(document, indentString);
      WriteWithIndent("{");
      Indent();
      ghost var start := document;
      assert start == old(document) + "{";
      BracketEnds(old(document));
      var it := 0;
      while true
        invariant 0 <= it < |members|
        invariant Valid() && indentString == old(indentString) + TAB && !addChildValues
        invariant document == start + MemberLines(members[..it], indentString, d) + (if it == 0 then "" else ",")
        invariant EndsInToken(document)
        decreases |members| - it
      {
        WriteMember(members[it]);
        MembersGrow(start, members, it, indentString, d);
        MemberLineEnds(start, members[..it + 1], indentString, d);
        it := it + 1;
        if it == |members| { break; }
        CommaEnds(document);
        document := document + ",";
      }
      assert members[..it] == members;
      Unindent();
      TokenBreak(document, indentString);
      WriteWithIndent("}");
      Bracketed(old(document), "{", MemberLines(members, indentString + TAB, d), indentString, "}");
    }

    method WriteMember(m: Member)
      requires Valid() && !addChildValues && NUL !in m.key && Storable(m.value, d)
      requires EndsInToken(document) && indentString != ""
      modifies this
      ensures Valid() && indentString == old(indentString) && !addChildValues
      ensures document == old(document) + ("\n" + indentString + MemberLine(m, indentString, d))
      decreases m, 0
    {
      hide Storable, Pretty, Quote;
      var name := ValueToQuotedString(m.key);
      TokenBreak(document, indentString);
      WriteWithIndent(name);
      document := document + " : ";
      WriteValue(m.value);
      assert document == old(document) + ("\n" + indentString) + name + " : " + Pretty(m.value, indentString, d);
    }

    /** write( root ): the styled text and a line feed, read as the tokens of the value. */
    method Write(root: Value) returns (text: string)
      requires show == d.show && Storable(root, d)
      modifies this
      ensures Valid() && indentString == "" && !addChildValues
      ensures text == Pretty(root, "", d) + "\n"
      ensures Lex(text) == Lexemes(root, d)
    {
      hide Lexemes, Lex, Spells, Pretty, Storable;
      document, addChildValues, indentString := "", false, "";
      WriteValue(root);
      PrettySpells(root, "", d);
      FinishedText(Pretty(root, "", d), root, d);
      document := document + "\n";
      text := document;
    }
  }

  // ---------------------------------------------------------------- the steps of the loops

  lemma StartBreak(document: string, indent: string)
    requires AtStart(document, indent)
    ensures Break(document, indent) == ""
  {
  }

  lemma TokenBreak(document: string, indent: string)
    requires EndsInToken(document)
    ensures Break(document, indent) == "\n" + indent
  {
  }

  lemma BracketEnds(document: string)
    ensures EndsInToken(document + "[") && EndsInToken(document + "{")
  {
  }

  lemma CommaEnds(document: string)
    ensures EndsInToken(document + ",")
  {
  }

  lemma LinesGrow(start: string, items: seq<Value>, n: nat, indent: string, d: Doubles)
    requires AllStorable(items, d) && n < |items|
    ensures start + Lines(items[..n], indent, d) + (if n == 0 then "" else ",") + ("\n" + indent + Pretty(items[n], indent, d))
         == start + Lines(items[..n + 1], indent, d)
  {
    hide Pretty, Storable;
    assert items[..n + 1][..n] == items[..n];
  }

  lemma ItemEnds(document: string, items: seq<Value>, indent: string, d: Doubles, start: string)
    requires items != [] && AllStorable(items, d) && document == start + Lines(items, indent, d)
    ensures EndsInToken(document)
  {
    hide Pretty, Storable;
    var n := |items| - 1;
    PrettyEnds(items[n], indent, d);
    EndsWith(start + (Lines(items[..n], indent, d) + (if n == 0 then "" else ",") + "\n" + indent), Pretty(items[n], indent, d));
  }

  lemma MembersGrow(start: string, ms: seq<Member>, n: nat, indent: string, d: Doubles)
    requires MembersStorable(ms, d) && n < |ms|
    ensures start + MemberLines(ms[..n], indent, d) + (if n == 0 then "" else ",") + ("\n" + indent + MemberLine(ms[n], indent, d))
         == start + MemberLines(ms[..n + 1], indent, d)
  {
    hide MemberLine, Storable;
    assert ms[..n + 1][..n] == ms[..n];
  }

  lemma MemberLineEnds(start: string, ms: seq<Member>, indent: string, d: Doubles)
    requires ms != [] && MembersStorable(ms, d)
    ensures EndsInToken(start + MemberLines(ms, indent, d))
  {
    hide Pretty, Storable, Quote;
    var n := |ms| - 1;
    PrettyEnds(ms[n].value, indent, d);
    EndsWith(start + (MemberLines(ms[..n], indent, d) + (if n == 0 then "" else ",") + "\n" + indent + (Quote(ms[n].key) + " : ")),
             Pretty(ms[n].value, indent, d));
  }

  lemma Bracketed(document: string, open: string, lines: string, indent: string, close: string)
    ensures document + open + lines + ("\n" + indent) + close == document + (open + lines + "\n" + indent + close)
  {
  }

  // ---------------------------------------------------------------- the tokens of the styled text

  lemma BreakIsBlank(indent: string)
    requires IsIndent(indent)
    ensures IsBlank("\n" + indent) && IsIndent(indent + TAB)
  {
  }

  /** Tokens between brackets, with white space in front of the closing one. */
  lemma BracketsAround(open: Token, s: string, toks: seq<Token>, blank: string, close: Token)
    requires (open == ARRAY_BEGIN && close == ARRAY_END) || (open == OBJECT_BEGIN && close == OBJECT_END)
    requires Spells(s, toks) && IsBlank(blank)
    ensures Spells(open.text + s + blank + close.text, [open] + toks + [close])
  {
    hide Spells;
    SpellsThenBlank(s, toks, blank);
    BracketsSpell(open, s + blank, toks, close);
    assert open.text + (s + blank) == open.text + s + blank;
  }

  lemma BreakGrouped(open: string, lines: string, indent: string, close: string)
    ensures open + lines + ("\n" + indent) + close == open + lines + "\n" + indent + close
  {
  }

  /** What follows behind a comma and white space, or is the first. */
  lemma NextSpells(s: string, toks: seq<Token>, blank: string, t: string, more: seq<Token>)
    requires Spells(s, toks) && IsBlank(blank) && Spells(t, more)
    ensures Spells(s + "," + blank + t, toks + [COMMA] + more)
  {
    hide Spells;
    BlankThenSpells(blank, t, more);
    CommaSpells(s, toks, blank + t, more);
    assert s + ("," + (blank + t)) == s + "," + blank + t && toks + ([COMMA] + more) == toks + [COMMA] + more;
  }

  lemma {:induction false} PrettySpells(v: Value, indent: string, d: Doubles)
    requires Storable(v, d) && IsIndent(indent)
    ensures Spells(Pretty(v, indent, d), Lexemes(v, d))
    decreases v, 2
  {
    hide Spells, Compact, Lexemes;
    if Simple(v) {
      LexemesSeparable(v, d);
      CompactSpells(Lexemes(v, d), false);
    } else if v.Object? {
      ObjectSpells(v.members, indent, d);
    } else {
      ArraySpells(v.items, indent, d);
    }
  }

  lemma {:induction false} ObjectSpells(ms: seq<Member>, indent: string, d: Doubles)
    requires ms != [] && Storable(Object(ms), d) && IsIndent(indent)
    ensures Spells(Pretty(Object(ms), indent, d), Lexemes(Object(ms), d))
    decreases ms, 1
  {
    hide Spells, Compact, MemberLines, MemberLexemes;
    BreakIsBlank(indent);
    MemberLinesSpell(ms, indent + TAB, d);
    BracketsAround(OBJECT_BEGIN, MemberLines(ms, indent + TAB, d), MemberLexemes(ms, d), "\n" + indent, OBJECT_END);
    BreakGrouped("{", MemberLines(ms, indent + TAB, d), indent, "}");
  }

  lemma {:induction false} ArraySpells(items: seq<Value>, indent: string, d: Doubles)
    requires items != [] && Storable(Array(items), d) && IsIndent(indent)
    ensures Spells(Pretty(Array(items), indent, d), Lexemes(Array(items), d))
    decreases items, 1
  {
    hide Spells, Compact, Lines, OneLine, ItemLexemes, NeedsLines;
    BreakIsBlank(indent);
    if NeedsLines(items, d) {
      LinesSpell(items, indent + TAB, d);
      BracketsAround(ARRAY_BEGIN, Lines(items, indent + TAB, d), ItemLexemes(items, d), "\n" + indent, ARRAY_END);
      BreakGrouped("[", Lines(items, indent + TAB, d), indent, "]");
    } else {
      OneLineSpells(items, d);
      BlankThenSpells(" ", OneLine(items, d), ItemLexemes(items, d));
      BracketsAround(ARRAY_BEGIN, " " + OneLine(items, d), ItemLexemes(items, d), " ", ARRAY_END);
      assert "[" + (" " + OneLine(items, d)) + " " + "]" == "[ " + OneLine(items, d) + " ]";
    }
  }

  lemma {:induction false} LinesSpell(items: seq<Value>, indent: string, d: Doubles)
    requires items != [] && AllStorable(items, d) && IsIndent(indent)
    ensures Spells(Lines(items, indent, d), ItemLexemes(items, d))
    decreases items, 0
  {
    hide Spells, Pretty, Lexemes, Storable;
    var n := |items| - 1;
    var init, last := items[..n], items[n];
    var text := Pretty(last, indent, d);
    BreakIsBlank(indent);
    PrettySpells(last, indent, d);
    assert items == init + [last];
    if n == 0 {
      BlankThenSpells("\n" + indent, text, Lexemes(last, d));
      assert Lines(items, indent, d) == "\n" + indent + text;
    } else {
      LinesSpell(init, indent, d);
      ItemLexemesAppend(init, last, d);
      NextSpells(Lines(init, indent, d), ItemLexemes(init, d), "\n" + indent, text, Lexemes(last, d));
      assert Lines(items, indent, d) == Lines(init, indent, d) + "," + ("\n" + indent) + text;
    }
  }

  lemma ValueTextSpells(v: Value, d: Doubles)
    requires Storable(v, d)
    ensures Spells(ValueText(v, d), Lexemes(v, d))
  {
    hide Spells, Compact, Lexemes, Storable;
    LexemesSeparable(v, d);
    CompactSpells(Lexemes(v, d), false);
  }

  lemma {:induction false} OneLineSpells(items: seq<Value>, d: Doubles)
    requires items != [] && AllStorable(items, d)
    ensures Spells(OneLine(items, d), ItemLexemes(items, d))
  {
    hide Spells, ValueText, Lexemes, Storable;
    var n := |items| - 1;
    var init, last := items[..n], items[n];
    ValueTextSpells(last, d);
    assert items == init + [last];
    if n == 0 {
      assert OneLine(items, d) == ValueText(last, d);
    } else {
      OneLineSpells(init, d);
      ItemLexemesAppend(init, last, d);
      NextSpells(OneLine(init, d), ItemLexemes(init, d), " ", ValueText(last, d), Lexemes(last, d));
      assert OneLine(items, d) == OneLine(init, d) + "," + " " + ValueText(last, d);
    }
  }

  lemma {:induction false} MemberLineSpells(m: Member, indent: string, d: Doubles)
    requires NUL !in m.key && Storable(m.value, d) && IsIndent(indent)
    ensures Spells(MemberLine(m, indent, d), MemberLexeme(m, d))
    decreases m, 0
  {
    hide Spells, Closed, Pretty, Lexemes, Storable, Quote;
    var name := StringLexeme(m.key);
    QuotedIsClosed(m.key);
    ClosedSpells(name.text, [name]);
    SpellsThenBlank(name.text, [name], " ");
    SpellsThenFixed(name.text + " ", [name], COLON);
    PrettySpells(m.value, indent, d);
    BlankThenSpells(" ", Pretty(m.value, indent, d), Lexemes(m.value, d));
    ClosedThenSpells(name.text + " " + ":", [name] + [COLON], " " + Pretty(m.value, indent, d), Lexemes(m.value, d));
    assert [name] + [COLON] == [name, COLON];
    assert name.text + " " + ":" + (" " + Pretty(m.value, indent, d)) == name.text + " : " + Pretty(m.value, indent, d);
  }

  lemma {:induction false} MemberLinesSpell(ms: seq<Member>, indent: string, d: Doubles)
    requires ms != [] && MembersStorable(ms, d) && IsIndent(indent)
    ensures Spells(MemberLines(ms, indent, d), MemberLexemes(ms, d))
    decreases ms, 0
  {
    hide Spells, MemberLine, MemberLexeme, Storable;
    var n := |ms| - 1;
    var init, last := ms[..n], ms[n];
    var text := MemberLine(last, indent, d);
    BreakIsBlank(indent);
    MemberLineSpells(last, indent, d);
    assert ms == init + [last];
    if n == 0 {
      BlankThenSpells("\n" + indent, text, MemberLexeme(last, d));
      assert MemberLines(ms, indent, d) == "\n" + indent + text;
    } else {
      MemberLinesSpell(init, indent, d);
      MemberLexemesAppend(init, last, d);
      NextSpells(MemberLines(init, indent, d), MemberLexemes(init, d), "\n" + indent, text, MemberLexeme(last, d));
      assert MemberLines(ms, indent, d) == MemberLines(init, indent, d) + "," + ("\n" + indent) + text;
    }
  }
}
