/** Parsing what was printed rebuilds the tree. */
module XmlRoundTrip {
  import opened Options
  import opened CString
  import opened XmlText
  import opened XmlParser
  import opened XmlPrint
  import XmlAttributes
  import XmlPrinter
  import XmlDocument

  /** How a document is read: with what encoding, whether white space is condensed, and whether
      its texts may stand between other children. */
  datatype Mode = Mode(enc: Encoding, condense: bool, mixed: bool)

  const DENSE := Layout("", "")

  predicate WhiteLayout(l: Layout) { AllWhite(l.indent) && AllWhite(l.lineBreak) }

  /** White space that is not condensed away must not come next to a text. */
  predicate Suits(m: Mode, l: Layout) { WhiteLayout(l) && (m.condense || !m.mixed || l == DENSE) }

  predicate NoMark(enc: Encoding, s: string) { !(enc.Utf8Encoding? && IsSkippedMark(s)) }

  predicate IsName(enc: Encoding, s: string) {
    s != "" && IsNameStart(s[0]) && (forall i :: 0 <= i < |s| ==> IsNameChar(s[i])) && NoMark(enc, s)
  }

  /** The strings whose encoding is read back as it was. */
  predicate Encodable(enc: Encoding, s: string) { NoHexReference(s) && WholeSequences(enc, s) }

  predicate WritableAttributes(enc: Encoding, attributes: seq<Attribute>) {
    (forall i :: 0 <= i < |attributes| ==> IsName(enc, attributes[i].name) && Encodable(enc, attributes[i].value)) &&
    forall i, j :: 0 <= i < j < |attributes| ==> attributes[i].name != attributes[j].name
  }

  /** Texts that are not blank; condensing also takes doubled, leading and trailing blanks. */
  predicate WritableText(m: Mode, s: string) {
    s != "" && !AllWhite(s) && Encodable(m.enc, s) &&
    if m.condense then Condensed(s) && NoMark(m.enc, s) else BlankLength(m.enc, s) < |s|
  }

  /** What is declared is printed without escapes. */
  predicate Declarable(enc: Encoding, s: string) {
    '&' !in s && '\"' !in s && NUL !in s && WholeSequences(enc, s)
  }

  /** The mark does not stand in s + mark before the end of s. */
  predicate EndsAtMark(s: string, mark: string) {
    NUL !in s && Find(s + mark, mark) == |s|
  }

  /** Tags the parser keeps as they are, a document type for one. */
  predicate WritableUnknown(s: string) {
    NUL !in s && '>' !in s && (s != "" ==> s[0] != '/' && !IsNameStart(s[0])) &&
    var t := "<" + s;
    !(COMMENT_START <= t) && !(CDATA_START <= t) && !StartsWithIgnoringCase(t, XML_HEADER)
  }

  predicate NoTexts(nodes: seq<Node>) { forall i :: 0 <= i < |nodes| ==> !nodes[i].Text? }

  predicate NoAdjacentTexts(nodes: seq<Node>) {
    forall i :: 0 <= i < |nodes| - 1 ==> !(nodes[i].Text? && nodes[i + 1].Text?)
  }

  predicate TextsMayStand(m: Mode, nodes: seq<Node>) {
    NoAdjacentTexts(nodes) && (m.mixed || IsSimple(nodes) || NoTexts(nodes))
  }

  /** The trees that survive printing and parsing. */
  predicate Writable(m: Mode, node: Node) {
    match node
    case Element(name, attributes, children) =>
      IsName(m.enc, name) && WritableAttributes(m.enc, attributes) &&
      TextsMayStand(m, children) && forall i :: 0 <= i < |children| ==> Writable(m, children[i])
    case Text(value) => WritableText(m, value)
    case Cdata(value) => EndsAtMark(value, CDATA_END)
    case Comment(value) => EndsAtMark(value, COMMENT_END)
    case Declaration(version, encoding, standalone) =>
      Declarable(m.enc, version) && Declarable(m.enc, encoding) && Declarable(m.enc, standalone)
    case Unknown(value) => WritableUnknown(value)
  }

  predicate WritableNodes(m: Mode, nodes: seq<Node>) {
    NoAdjacentTexts(nodes) && forall i :: 0 <= i < |nodes| ==> Writable(m, nodes[i])
  }

  lemma WritableTail(m: Mode, nodes: seq<Node>)
    requires WritableNodes(m, nodes) && nodes != []
    ensures WritableNodes(m, nodes[1..]) && Writable(m, nodes[0])
  {
    var tail := nodes[1..];
    assert forall i :: 0 <= i < |tail| ==> tail[i] == nodes[i + 1];
  }

  // ---------------------------------------------------------------- white space and names

  lemma {:induction false} WhiteIsSkipped(enc: Encoding, ws: string, s: string)
    requires AllWhite(ws) && WhiteLength(enc, s) == 0
    ensures WhiteLength(enc, ws + s) == |ws|
    ensures (ws + s)[|ws|..] == s
  {
    if ws == "" {
      assert ws + s == s;
    } else {
      WhiteIsSkipped(enc, ws[1..], s);
      assert (ws + s)[1..] == ws[1..] + s;
      assert (ws + s)[0] == ws[0] && IsWhiteSpace(ws[0]);
    }
  }

  lemma SkipTo(enc: Encoding, ws: string, s: string)
    requires AllWhite(ws) && s != "" && !IsWhiteSpace(s[0]) && s[0] as int < 0x80
    ensures SkipWhiteSpace(enc, Some(ws + s)) == Some(s)
    ensures SkipWhiteSpace(enc, Some(s)) == Some(s)
  {
    WhiteIsSkipped(enc, ws, s);
    assert s[0..] == s;
  }

  lemma SkipToName(enc: Encoding, ws: string, name: string, s: string)
    requires AllWhite(ws) && IsName(enc, name) && s != "" && s[0] as int < 0x80
    ensures SkipWhiteSpace(enc, Some(ws + (name + s))) == Some(name + s)
  {
    var t := name + s;
    WhiteIsSkipped(enc, ws, t);
  }

  lemma {:induction false} NameLengthIs(name: string, s: string)
    requires forall i :: 0 <= i < |name| ==> IsNameChar(name[i])
    requires s != "" ==> !IsNameChar(s[0])
    ensures NameLength(name + s) == |name|
  {
    if name == "" {
      assert name + s == s;
    } else {
      assert (name + s)[1..] == name[1..] + s;
      NameLengthIs(name[1..], s);
    }
  }

  lemma NameIsRead(enc: Encoding, name: string, s: string)
    requires IsName(enc, name) && (s != "" ==> !IsNameChar(s[0]))
    ensures ReadName(Some(name + s)) == (name, Some(s))
  {
    NameLengthIs(name, s);
    assert (name + s)[..|name|] == name && (name + s)[|name|..] == s;
  }

  lemma NameCharIsCopied(s: string)
    requires s != "" && IsNameChar(s[0])
    ensures Encode(s) == [s[0]] + Encode(s[1..])
  {
    hide PassLength;
    assert EncodeChar(s[0]) == [s[0]];
    assert !HexReference(s);
  }

  lemma {:induction false} NameIsCopied(name: string)
    requires forall i :: 0 <= i < |name| ==> IsNameChar(name[i])
    ensures Encode(name) == name
  {
    hide IsNameChar, EncodeChar, PassLength, HexReference;
    if name != "" {
      NameIsCopied(name[1..]);
      NameCharIsCopied(name);
      assert name == [name[0]] + name[1..];
    }
  }

  lemma NameIsEncoded(enc: Encoding, name: string)
    requires IsName(enc, name)
    ensures Encode(name) == name
  {
    NameIsCopied(name);
  }

  lemma NameIsCStr(enc: Encoding, name: string)
    requires IsName(enc, name)
    ensures CStr(name) == name
  {
    assert forall i :: 0 <= i < |name| ==> name[i] != NUL;
  }

  // ---------------------------------------------------------------- attributes

  lemma AttributeParts(enc: Encoding, a: Attribute, quote: char, rest: string)
    requires IsName(enc, a.name) && quote == if '\"' in a.value then '\'' else '\"'
    ensures PrintAttribute(a) + rest == a.name + ("=" + ([quote] + (Encode(a.value) + ([quote] + rest))))
  {
    hide Encode, IsName;
    NameIsEncoded(enc, a.name);
    Regroup4(a.name, "=", [quote], Encode(a.value), [quote], rest);
  }

  lemma AttributeIsRead(enc: Encoding, a: Attribute, ws: string, rest: string, e: FirstError)
    requires AllWhite(ws) && IsName(enc, a.name) && Encodable(enc, a.value) && rest != ""
    ensures ParseAttribute(enc, Some(ws + (PrintAttribute(a) + rest)), e) == ParsedAttribute(a, Some(rest), e)
    ensures ParseAttribute(enc, Some(PrintAttribute(a) + rest), e) == ParsedAttribute(a, Some(rest), e)
  {
    hide PrintAttribute, ReadText, Encode, NoHexReference, WholeSequences, ReadName, SkipWhiteSpace, IsName;
    var quote := if '\"' in a.value then '\'' else '\"';
    var value := Encode(a.value) + ([quote] + rest);
    var equals := "=" + ([quote] + value);
    AttributeParts(enc, a, quote, rest);
    SkipToName(enc, ws, a.name, equals);
    SkipToName(enc, "", a.name, equals);
    assert "" + (a.name + equals) == a.name + equals;
    NameIsRead(enc, a.name, equals);
    SkipTo(enc, "", equals);
    SkipTo(enc, "", [quote] + value);
    assert equals[1..] == [quote] + value;
    assert ([quote] + value)[1..] == value;
    EntityRoundTrip(enc, a.value, quote, rest);
  }

  /** The attributes of a start tag are read one by one. */
  lemma {:induction false} AttributesAreRead(enc: Encoding, condense: bool, name: string, before: seq<Attribute>,
                                             attributes: seq<Attribute>, close: string, e: FirstError)
    requires WritableAttributes(enc, before + attributes) && close != ""
    ensures ParseInTag(enc, condense, PrintAttributes(attributes) + close, name, before, e)
         == ParseInTag(enc, condense, close, name, before + attributes, e)
    decreases |attributes|
  {
    hide ParseAttribute, PrintAttribute, ReadValue, ReadEndTag, SkipWhiteSpace;
    if attributes == [] {
      assert PrintAttributes([]) + close == close;
      assert before + [] == before;
    } else {
      var a := attributes[0];
      var rest := PrintAttributes(attributes[1..]) + close;
      assert (before + attributes)[|before|] == a;
      NotYetRead(enc, before, attributes);
      assert PrintAttributes(attributes) + close == " " + (PrintAttribute(a) + rest);
      AttributeStart(enc, a, rest);
      AttributeIsRead(enc, a, "", rest, e);
      assert before + attributes == before + [a] + attributes[1..];
      AttributesAreRead(enc, condense, name, before + [a], attributes[1..], close, e);
    }
  }

  lemma NotYetRead(enc: Encoding, before: seq<Attribute>, attributes: seq<Attribute>)
    requires WritableAttributes(enc, before + attributes) && attributes != []
    ensures !HasAttribute(before, attributes[0].name)
  {
    var all := before + attributes;
    forall i | 0 <= i < |before|
      ensures before[i].name != attributes[0].name
    {
      assert all[i] == before[i] && all[|before|] == attributes[0];
    }
  }

  lemma AttributeStart(enc: Encoding, a: Attribute, rest: string)
    requires IsName(enc, a.name)
    ensures var s := PrintAttribute(a) + rest;
            SkipWhiteSpace(enc, Some(" " + s)) == Some(s) && s != "" && s[0] != '/' && s[0] != '>'
  {
    hide Encode, SkipWhiteSpace, PrintAttribute;
    var quote := if '\"' in a.value then '\'' else '\"';
    var equals := "=" + ([quote] + (Encode(a.value) + ([quote] + rest)));
    AttributeParts(enc, a, quote, rest);
    SkipToName(enc, " ", a.name, equals);
    assert IsNameStart((a.name + equals)[0]);
  }

  lemma EmptyTagIsRead(enc: Encoding, condense: bool, name: string, attributes: seq<Attribute>, t: string, e: FirstError)
    ensures ParseInTag(enc, condense, " />" + t, name, attributes, e)
         == Parsed(Element(name, attributes, []), Some(t), e)
  {
    hide SkipWhiteSpace, ReadValue, ReadEndTag, ParseAttribute;
    SkipTo(enc, " ", "/>" + t);
    assert " />" + t == " " + ("/>" + t);
    assert ("/>" + t)[2..] == t;
  }

  lemma EndTagIsRead(enc: Encoding, name: string, t: string, e: FirstError)
    requires IsName(enc, name)
    ensures ReadEndTag(enc, name, Some(EndTag(name) + t), e) == (Some(t), e)
  {
    hide SkipWhiteSpace;
    NameIsCStr(enc, name);
    var s, mark := EndTag(name) + t, "</" + name;
    SkipTo(enc, "", ">" + t);
    Associate(mark, ">", t);
    assert s[|mark|..] == ">" + t;
    assert (">" + t)[1..] == t;
  }

  lemma ElementIsIdentified(enc: Encoding, s: string)
    requires |s| > 1 && s[0] == '<' && IsNameStart(s[1])
    ensures Identify(enc, Some(s)) == Some(ElementKind)
  {
    hide SkipWhiteSpace;
    SkipTo(enc, "", s);
    assert Lower(s[1]) != Lower(XML_HEADER[1]);
    assert s[1] != COMMENT_START[1] && s[1] != CDATA_START[1] && s[1] != "<!"[1];
  }

  lemma CommentIsIdentified(enc: Encoding, s: string)
    requires COMMENT_START <= s
    ensures Identify(enc, Some(s)) == Some(CommentKind)
  {
    hide SkipWhiteSpace;
    SkipTo(enc, "", s);
    assert Lower(s[1]) != Lower(XML_HEADER[1]);
  }

  lemma CdataIsIdentified(enc: Encoding, s: string)
    requires CDATA_START <= s
    ensures Identify(enc, Some(s)) == Some(CdataKind)
  {
    hide SkipWhiteSpace;
    SkipTo(enc, "", s);
    assert Lower(s[1]) != Lower(XML_HEADER[1]);
    assert s[2] == CDATA_START[2] != COMMENT_START[2];
  }

  /** Names are not empty, so First and Next show all attributes. */
  lemma AllShown(enc: Encoding, attributes: seq<Attribute>)
    requires WritableAttributes(enc, attributes)
    ensures Shown(attributes) == attributes
  {
    XmlAttributes.NamedAreSeen(attributes);
  }

  /** Up to the attributes, an element is read from its start tag. */
  lemma StartTagIsRead(enc: Encoding, condense: bool, name: string, attributes: seq<Attribute>, close: string, e: FirstError)
    requires IsName(enc, name) && WritableAttributes(enc, attributes)
    requires close != "" && (close[0] == ' ' || close[0] == '>')
    ensures ParseElement(enc, condense, StartTag(name, attributes) + close, e)
         == ParseInTag(enc, condense, close, name, attributes, e)
    ensures Identify(enc, Some(StartTag(name, attributes) + close)) == Some(ElementKind)
  {
    hide ParseInTag, PrintAttributes, SkipWhiteSpace, ReadName, Identify, WritableAttributes;
    var rest := PrintAttributes(attributes) + close;
    NameThenRest(enc, name, attributes, close);
    assert [] + attributes == attributes;
    AttributesAreRead(enc, condense, name, [], attributes, close, e);
  }

  lemma NameThenRest(enc: Encoding, name: string, attributes: seq<Attribute>, close: string)
    requires IsName(enc, name) && WritableAttributes(enc, attributes)
    requires close != "" && (close[0] == ' ' || close[0] == '>')
    ensures var s, rest := StartTag(name, attributes) + close, PrintAttributes(attributes) + close;
            SkipWhiteSpace(enc, Some(s)) == Some(s) && s != "" && s[0] == '<' && rest != "" &&
            SkipWhiteSpace(enc, Some(s[1..])) == Some(name + rest) &&
            ReadName(Some(name + rest)) == (name, Some(rest)) &&
            Identify(enc, Some(s)) == Some(ElementKind)
  {
    hide SkipWhiteSpace, ReadName, Identify, IsName, Shown, WritableAttributes;
    NameIsCStr(enc, name);
    AllShown(enc, attributes);
    var printed := PrintAttributes(attributes);
    var rest := printed + close;
    AttributesStart(attributes, close);
    Regroup2("<", name, printed, close);
    var s := "<" + (name + rest);
    SkipTo(enc, "", s);
    NoneIsWhite();
    SkipToName(enc, "", name, rest);
    assert s[1..] == name + rest == "" + (name + rest);
    NameIsRead(enc, name, rest);
    NameStart(enc, name, rest);
    ElementIsIdentified(enc, s);
  }

  lemma NameStart(enc: Encoding, name: string, t: string)
    requires IsName(enc, name)
    ensures name + t != "" && IsNameStart((name + t)[0])
  {
  }

  lemma AttributesStart(attributes: seq<Attribute>, close: string)
    requires close != "" && (close[0] == ' ' || close[0] == '>')
    ensures var s := PrintAttributes(attributes) + close; s != "" && s[0] as int < 0x80 && !IsNameChar(s[0])
  {
  }

  // ---------------------------------------------------------------- leaves

  /** Where the mark is first found, whatever follows it. */
  lemma MarkIsFound(s: string, mark: string, t: string)
    requires Find(s + mark, mark) == |s| && mark != ""
    ensures Find(s + (mark + t), mark) == |s|
  {
    var u := s + (mark + t);
    assert u[|s|..] == mark + t;
    assert MarkAt(u, mark, |s|);
    forall i | 0 <= i < |s|
      ensures !MarkAt(u, mark, i)
    {
      assert !MarkAt(s + mark, mark, i);
      assert (s + mark)[i..][..|mark|] == u[i..][..|mark|];
    }
  }

  lemma CommentIsRead(enc: Encoding, value: string, t: string, e: FirstError)
    requires EndsAtMark(value, COMMENT_END)
    ensures var s := COMMENT_START + (value + (COMMENT_END + t));
            Identify(enc, Some(s)) == Some(CommentKind) && !("</" <= s) &&
            ParseComment(enc, Some(s), e) == Parsed(Comment(value), Some(t), e)
  {
    hide Find, SkipWhiteSpace, Identify;
    var inner := value + (COMMENT_END + t);
    var s := COMMENT_START + inner;
    CommentIsIdentified(enc, s);
    assert s[1] == COMMENT_START[1];
    SkipTo(enc, "", s);
    MarkIsFound(value, COMMENT_END, t);
    assert s[4..] == inner;
    assert inner[..|value|] == value && inner[|value| + 3..] == t;
  }

  lemma CdataIsRead(enc: Encoding, value: string, t: string, e: FirstError)
    requires EndsAtMark(value, CDATA_END)
    ensures var s := CDATA_START + (value + (CDATA_END + t));
            Identify(enc, Some(s)) == Some(CdataKind) && !("</" <= s) &&
            ParseCdata(enc, Some(s), e) == Parsed(Cdata(value), if t == "" then None else Some(t), e)
  {
    hide Find, Identify;
    var inner := value + (CDATA_END + t);
    var s := CDATA_START + inner;
    CdataIsIdentified(enc, s);
    assert s[1] == CDATA_START[1];
    MarkIsFound(value, CDATA_END, t);
    assert s[9..] == inner;
    assert inner[..|value|] == value && inner[|value|..] == CDATA_END + t;
    assert (CDATA_END + t)[3..] == t;
    assert KeepText(enc, Some(CDATA_END + t), CDATA_END) == Got("", Some(CDATA_END + t));
  }

  lemma {:induction false} IndexOfFirst(s: string, c: char, t: string)
    requires c !in s
    ensures IndexOf(s + ([c] + t), c) == |s|
  {
    if s == "" {
      assert s + ([c] + t) == [c] + t;
    } else {
      assert (s + ([c] + t))[1..] == s[1..] + ([c] + t);
      IndexOfFirst(s[1..], c, t);
    }
  }

  lemma UnknownIsIdentified(enc: Encoding, value: string, s: string)
    requires WritableUnknown(value) && |s| > |value| + 1 && s[..|value| + 1] == "<" + value && s[|value| + 1] == '>'
    ensures Identify(enc, Some(s)) == Some(UnknownKind) && !("</" <= s)
  {
    hide SkipWhiteSpace;
    var u := "<" + value;
    SkipTo(enc, "", s);
    TagStart(u, s, COMMENT_START);
    TagStart(u, s, CDATA_START);
    NoXmlHeader(u, s);
    assert s[1] == if value == "" then '>' else value[0];
  }

  lemma NoXmlHeader(u: string, s: string)
    requires |u| < |s| && s[..|u|] == u && s[|u|] == '>' && !StartsWithIgnoringCase(u, XML_HEADER)
    ensures !StartsWithIgnoringCase(s, XML_HEADER)
  {
    if |u| < 5 {
      assert |s| >= 5 ==> Lower(s[|u|]) != Lower(XML_HEADER[|u|]);
    } else {
      var i :| 0 <= i < 5 && Lower(u[i]) != Lower(XML_HEADER[i]);
      assert s[i] == u[i];
    }
  }

  lemma UnknownIsRead(enc: Encoding, value: string, t: string, e: FirstError)
    requires WritableUnknown(value)
    ensures var s := "<" + (value + (">" + t));
            Identify(enc, Some(s)) == Some(UnknownKind) && !("</" <= s) &&
            ParseUnknown(enc, Some(s), e) == Parsed(Unknown(value), Some(t), e)
  {
    hide IndexOf, SkipWhiteSpace, Identify;
    var inner := value + (">" + t);
    var s := "<" + inner;
    SkipTo(enc, "", s);
    IndexOfFirst(value, '>', t);
    assert s[1..] == inner;
    assert inner[..|value|] == value && inner[|value| + 1..] == t;
    UnknownIsIdentified(enc, value, s);
  }

  /** A mark without '>' that a text starts with lies in front of its '>'. */
  lemma TagStart(u: string, s: string, mark: string)
    requires |u| < |s| && s[..|u|] == u && s[|u|] == '>' && '>' !in mark
    requires !(mark <= u)
    ensures !(mark <= s)
  {
    assert |mark| > |u| ==> mark[|u|] != s[|u|];
  }

  // ---------------------------------------------------------------- declarations

  /** One attribute of a declaration is read, or nothing is printed for an empty one. */
  lemma DeclaredIsRead(enc: Encoding, name: string, value: string, rest: string)
    requires IsName(enc, name) && Declarable(enc, value) && value != "" && rest != ""
    ensures PrintDeclared(name, value) + rest == name + ("=\"" + (value + ("\"" + (" " + rest))))
    ensures ParseAttribute(enc, Some(PrintDeclared(name, value) + rest), None)
         == ParsedAttribute(Attribute(name, value), Some(" " + rest), None)
  {
    hide KeepText, SkipWhiteSpace, ReadName, IsName, WholeSequences;
    var inner := value + ("\"" + (" " + rest));
    var equals := "=\"" + inner;
    Regroup2(name + "=\"", value, "\" ", rest);
    Associate("\"", " ", rest);
    Associate(name, "=\"", inner);
    SkipToName(enc, "", name, equals);
    assert "" + (name + equals) == name + equals;
    NameIsRead(enc, name, equals);
    SkipTo(enc, "", equals);
    assert equals[1..] == "\"" + inner;
    SkipTo(enc, "", "\"" + inner);
    assert ("\"" + inner)[1..] == inner;
    PlainIsKept(enc, value, '\"', " " + rest);
    assert ("\"" + (" " + rest))[1..] == " " + rest;
  }

  lemma DeclarableIsCStr(enc: Encoding, value: string)
    requires Declarable(enc, value)
    ensures CStr(value) == value
  {
  }

  lemma DeclaredTurn(enc: Encoding, name: string, value: string, rest: string, d: Node)
    requires d.Declaration? && name in ["version", "encoding", "standalone"]
    requires Declarable(enc, value) && value != "" && rest != ""
    ensures var s := PrintDeclared(name, value) + rest;
            s != "" && !IsWhiteSpace(s[0]) && s[0] as int < 0x80 && s[0] != '>' &&
            ReadDeclared(enc, s, d) == (WithDeclared(d, name, value), Some(" " + rest))
  {
    hide ParseAttribute, WholeSequences, Declarable, CStr;
    NamesAreNames(enc, name);
    DeclarableIsCStr(enc, value);
    DeclaredIsRead(enc, name, value, rest);
    var s := PrintDeclared(name, value) + rest;
    assert s[..|name|] == name;
    assert s[0] == name[0];
  }

  /** One turn of the loop over a declaration, if the value is printed at all. */
  lemma DeclaredStep(enc: Encoding, name: string, value: string, rest: string, d: Node, e: FirstError)
    requires d.Declaration? && name in ["version", "encoding", "standalone"] && Declarable(enc, value) && rest != ""
    requires match name case "version" => d.version == "" case "encoding" => d.encoding == "" case _ => d.standalone == ""
    ensures ParseDeclared(enc, Some(" " + (PrintDeclared(name, value) + rest)), d, e)
         == ParseDeclared(enc, Some(" " + rest), WithDeclared(d, name, value), e)
  {
    hide ReadDeclared, WhiteLength, Declarable;
    if value == "" {
      assert PrintDeclared(name, value) + rest == rest;
    } else {
      DeclaredTurn(enc, name, value, rest, d);
      var s := PrintDeclared(name, value) + rest;
      NoWhite(enc, s);
      WhiteIsSkipped(enc, " ", s);
      assert (" " + s)[0] == ' ';
    }
  }

  function WithDeclared(d: Node, name: string, value: string): (r: Node)
    requires d.Declaration?
    ensures r.Declaration?
  {
    if name == "version" then d.(version := value)
    else if name == "encoding" then d.(encoding := value)
    else d.(standalone := value)
  }

  lemma NamesAreNames(enc: Encoding, name: string)
    requires name in ["version", "encoding", "standalone"]
    ensures IsName(enc, name)
  {
  }

  lemma DeclarationIsRead(enc: Encoding, node: Node, t: string, e: FirstError)
    requires node.Declaration?
    requires Declarable(enc, node.version) && Declarable(enc, node.encoding) && Declarable(enc, node.standalone)
    ensures var s := XML_HEADER + Declared(node, t);
            Identify(enc, Some(s)) == Some(DeclarationKind) && !("</" <= s) &&
            ParseDeclaration(enc, Some(s), e) == Parsed(node, Some(t), e)
  {
    hide ParseDeclared, SkipWhiteSpace, PrintDeclared, Declarable;
    var s := XML_HEADER + Declared(node, t);
    SkipTo(enc, "", s);
    assert s[1] == '?' && s[5..] == Declared(node, t);
    var end := "?>" + t;
    var third := PrintDeclared("standalone", node.standalone) + end;
    var second := PrintDeclared("encoding", node.encoding) + third;
    var d0 := Declaration("", "", "");
    DeclaredStart("standalone", node.standalone, end);
    DeclaredStart("encoding", node.encoding, third);
    DeclaredStep(enc, "version", node.version, second, d0, e);
    var d1 := WithDeclared(d0, "version", node.version);
    DeclaredStep(enc, "encoding", node.encoding, third, d1, e);
    var d2 := WithDeclared(d1, "encoding", node.encoding);
    DeclaredStep(enc, "standalone", node.standalone, end, d2, e);
    DeclarationEnds(enc, node, t, e);
  }

  lemma DeclaredStart(name: string, value: string, rest: string)
    requires name != "" && 'a' <= name[0] <= 'z' && rest != "" && rest[0] as int < 0x80 && !IsWhiteSpace(rest[0])
    ensures var s := PrintDeclared(name, value) + rest; s != "" && s[0] as int < 0x80 && !IsWhiteSpace(s[0])
  {
  }

  lemma NoWhite(enc: Encoding, s: string)
    requires s != "" && s[0] as int < 0x80 && !IsWhiteSpace(s[0])
    ensures WhiteLength(enc, s) == 0 && s[0..] == s
  {
  }

  /** The question mark at the end is passed over as a word of its own. */
  lemma DeclarationEnds(enc: Encoding, d: Node, t: string, e: FirstError)
    requires d.Declaration?
    ensures ParseDeclared(enc, Some(" " + ("?>" + t)), d, e) == Parsed(d, Some(t), e)
  {
    hide ParseAttribute, WhiteLength;
    var s := "?>" + t;
    NoWhite(enc, s);
    WhiteIsSkipped(enc, " ", s);
    NoWhite(enc, ">" + t);
    assert s[1..] == ">" + t && (">" + t)[1..] == t;
    assert OtherLength(s) == 1;
  }

  // ---------------------------------------------------------------- the children of an element

  lemma {:induction false} IndentationIsWhite(indent: string, depth: nat)
    requires AllWhite(indent)
    ensures AllWhite(Indentation(indent, depth))
  {
    if depth > 0 { IndentationIsWhite(indent, depth - 1); }
  }

  lemma WhiteWhite(a: string, b: string)
    requires AllWhite(a) && AllWhite(b)
    ensures AllWhite(a + b)
  {
  }

  /** Printed nodes without the indentation of the first one; w stands in front of the tail. */
  function Core(l: Layout, depth: nat, nodes: seq<Node>, w: string, tail: string): string {
    if nodes == [] then tail else Body(l, depth, nodes[0]) + (Lead(l, depth, nodes[1..], w) + Core(l, depth, nodes[1..], w, tail))
  }

  function Lead(l: Layout, depth: nat, nodes: seq<Node>, w: string): string {
    if nodes == [] then w else Indentation(l.indent, depth)
  }

  lemma {:induction false} CoreIsPrinted(l: Layout, depth: nat, nodes: seq<Node>, w: string, tail: string)
    ensures PrintNodes(l, depth, nodes) + (w + tail) == Lead(l, depth, nodes, w) + Core(l, depth, nodes, w, tail)
  {
    hide Body;
    if nodes != [] {
      CoreIsPrinted(l, depth, nodes[1..], w, tail);
      var a, b := Indentation(l.indent, depth), Body(l, depth, nodes[0]);
      Associate(a + b, PrintNodes(l, depth, nodes[1..]), w + tail);
      Associate(a, b, Lead(l, depth, nodes[1..], w) + Core(l, depth, nodes[1..], w, tail));
    } else {
      assert "" + (w + tail) == w + tail;
    }
  }

  lemma LeadIsWhite(l: Layout, depth: nat, nodes: seq<Node>, w: string)
    requires WhiteLayout(l) && AllWhite(w)
    ensures AllWhite(Lead(l, depth, nodes, w))
  {
    IndentationIsWhite(l.indent, depth);
  }

  lemma BodyStart(l: Layout, depth: nat, node: Node, t: string)
    requires !node.Text?
    ensures Body(l, depth, node) + t != "" && (Body(l, depth, node) + t)[0] == '<' && |Body(l, depth, node) + t| > 1
  {
    hide PrintNodes, PrintAttributes, Encode, EndTag;
  }

  /** Text is taken up to the next tag; condensing, without the white space around it. */
  lemma TextIsRead(m: Mode, value: string, ws: string, w: string, r: string, nodes: seq<Node>, e: FirstError)
    requires WritableText(m, value) && AllWhite(ws) && AllWhite(w) && r != ""
    requires m.condense || (ws == "" && w == "")
    ensures ReadValue(m.enc, m.condense, Some(ws + (Encode(value) + (w + ("<" + r)))), nodes, e)
         == ReadValue(m.enc, m.condense, Some("<" + r), nodes + [Text(value)], e)
  {
    if m.condense {
      TextIsCondensed(m.enc, value, ws, w, r, nodes, e);
    } else {
      var s := Encode(value) + ("<" + r);
      assert "" + ("<" + r) == "<" + r && "" + s == s;
      TextIsKept(m.enc, value, r, nodes, e);
    }
  }

  lemma TextIsCondensed(enc: Encoding, value: string, ws: string, w: string, r: string, nodes: seq<Node>, e: FirstError)
    requires WritableText(Mode(enc, true, true), value) && AllWhite(ws) && AllWhite(w) && r != ""
    ensures ReadValue(enc, true, Some(ws + (Encode(value) + (w + ("<" + r)))), nodes, e)
         == ReadValue(enc, true, Some("<" + r), nodes + [Text(value)], e)
  {
    hide Encode, ReadText, NoHexReference, WholeSequences, Condensed, ParseNode, Identify, AllWhite;
    var t := w + ("<" + r);
    var q := Encode(value) + t;
    FirstIsNoBlank(value);
    NothingToSkip(enc, value, t);
    WhiteIsSkipped(enc, ws, q);
    NoHexReferenceHere(value);
    EncodedStart(enc, value, t);
    CondensedRoundTrip(enc, value, w, r);
  }

  lemma TextIsKept(enc: Encoding, value: string, r: string, nodes: seq<Node>, e: FirstError)
    requires WritableText(Mode(enc, false, true), value) && r != ""
    ensures ReadValue(enc, false, Some(Encode(value) + ("<" + r)), nodes, e)
         == ReadValue(enc, false, Some("<" + r), nodes + [Text(value)], e)
  {
    hide Encode, ReadText, NoHexReference, WholeSequences, WhiteLength, BlankLength, ParseNode, Identify, AllWhite;
    var s := Encode(value) + ("<" + r);
    BlanksAreSkipped(enc, value, "<" + r);
    EntityRoundTrip(enc, value, '<', r);
    assert s != "";
    assert s[WhiteLength(enc, s)..][0] == s[WhiteLength(enc, s)];
  }

  lemma FirstIsNoBlank(value: string)
    requires Condensed(value) && value != ""
    ensures value[0] != ' '
  {
  }

  /** A tag among the children is handed to the node it identifies. */
  lemma TagIsHandled(m: Mode, ws: string, s: string, nodes: seq<Node>, e: FirstError)
    requires AllWhite(ws) && s != "" && s[0] == '<' && !("</" <= s) && Identify(m.enc, Some(s)).Some?
    ensures var r := ParseNode(m.enc, m.condense, Identify(m.enc, Some(s)).value, s, e);
            ReadValue(m.enc, m.condense, Some(ws + s), nodes, e) == ReadValue(m.enc, m.condense, r.p, nodes + [r.node], r.error)
  {
    hide ParseNode, Identify, SkipWhiteSpace;
    SkipTo(m.enc, ws, s);
  }

  lemma EndIsReached(m: Mode, ws: string, tail: string, nodes: seq<Node>, e: FirstError)
    requires AllWhite(ws) && "</" <= tail
    ensures ReadValue(m.enc, m.condense, Some(ws + tail), nodes, e) == ParsedNodes(nodes, Some(tail), e)
  {
    hide SkipWhiteSpace;
    SkipTo(m.enc, ws, tail);
  }

  lemma LineBreakIsWhite(l: Layout)
    requires WhiteLayout(l)
    ensures AllWhite(l.lineBreak)
  {
  }

  lemma CoreIsNotEmpty(l: Layout, depth: nat, nodes: seq<Node>, w: string, tail: string)
    requires tail != ""
    ensures Core(l, depth, nodes, w, tail) != ""
  {
    hide Body;
    if nodes != [] {
      CoreIsNotEmpty(l, depth, nodes[1..], w, tail);
    }
  }

  /** What follows a text child is a tag. */
  lemma TextThenTag(m: Mode, l: Layout, depth: nat, nodes: seq<Node>, w: string, tail: string)
    requires WritableNodes(m, nodes) && nodes != [] && nodes[0].Text? && "</" <= tail
    ensures var core := Core(l, depth, nodes[1..], w, tail); |core| > 1 && "<" + core[1..] == core
  {
    hide Body;
    var rest := nodes[1..];
    if rest != [] {
      assert rest[0] == nodes[1];
      BodyStart(l, depth, rest[0], Lead(l, depth, rest[1..], w) + Core(l, depth, rest[1..], w, tail));
    }
  }

  lemma TextBody(m: Mode, l: Layout, depth: nat, node: Node, t: string)
    requires Writable(m, node) && node.Text?
    ensures Body(l, depth, node) + t == Encode(node.value) + (l.lineBreak + t) && WritableText(m, node.value)
  {
    hide Encode, WritableText;
    Associate(Encode(node.value), l.lineBreak, t);
  }

  /** A printed node other than a text is identified and read back. */
  lemma {:induction false} NodeIsRead(m: Mode, l: Layout, depth: nat, node: Node, t: string, e: FirstError)
    requires Writable(m, node) && !node.Text? && Suits(m, l)
    ensures var s := Body(l, depth, node) + t;
            s != "" && s[0] == '<' && !("</" <= s) && Identify(m.enc, Some(s)).Some? &&
            ParseNode(m.enc, m.condense, Identify(m.enc, Some(s)).value, s, e)
              == Parsed(node, if node.Cdata? && l.lineBreak + t == "" then None else Some(l.lineBreak + t), e)
    decreases node, 1
  {
    hide Body, ParseElement, ParseComment, ParseUnknown, ParseCdata, Identify, EndsAtMark, WritableUnknown, WhiteLayout, WritableAttributes, IsName, WritableText;
    BodyStart(l, depth, node, t);
    LeafBody(l, depth, node, t);
    var behind := l.lineBreak + t;
    match node
    case Element(_, _, _) =>
      ElementIsRead(m, l, depth, node, t, e);
    case Cdata(value) =>
      UntruncatedMark(value, CDATA_END);
      CdataIsRead(m.enc, value, behind, e);
    case Comment(value) =>
      UntruncatedMark(value, COMMENT_END);
      CommentIsRead(m.enc, value, behind, e);
    case Unknown(value) =>
      UntruncatedUnknown(value);
      UnknownIsRead(m.enc, value, behind, e);
    case Declaration(version, encoding, standalone) =>
      DeclarationIsRead(m.enc, node, behind, e);
  }

  lemma LeafBody(l: Layout, depth: nat, node: Node, t: string)
    ensures var s, behind := Body(l, depth, node) + t, l.lineBreak + t;
            match node
            case Cdata(value) => s == CDATA_START + (CStr(value) + (CDATA_END + behind))
            case Comment(value) => s == COMMENT_START + (CStr(value) + (COMMENT_END + behind))
            case Unknown(value) => s == "<" + (CStr(value) + (">" + behind))
            case Declaration(_, _, _) => s == XML_HEADER + Declared(node, behind)
            case _ => true
  {
    hide PrintNodes, StartTag, EndTag, Encode, CStr;
    match node
    case Cdata(value) => Regroup3(CDATA_START, CStr(value), CDATA_END, l.lineBreak, t);
    case Comment(value) => Regroup3(COMMENT_START, CStr(value), COMMENT_END, l.lineBreak, t);
    case Unknown(value) => Regroup3("<", CStr(value), ">", l.lineBreak, t);
    case Declaration(_, _, _) => DeclarationBody(l, depth, node, t);
    case _ =>
  }

  /** What follows the header of a declaration. */
  function Declared(node: Node, behind: string): string
    requires node.Declaration?
  {
    " " + (PrintDeclared("version", node.version) + (PrintDeclared("encoding", node.encoding) +
           (PrintDeclared("standalone", node.standalone) + ("?>" + behind))))
  }

  lemma DeclarationBody(l: Layout, depth: nat, node: Node, t: string)
    requires node.Declaration?
    ensures Body(l, depth, node) + t == XML_HEADER + Declared(node, l.lineBreak + t)
  {
    hide PrintDeclared;
    var v, n, d := PrintDeclared("version", node.version), PrintDeclared("encoding", node.encoding), PrintDeclared("standalone", node.standalone);
    Associate("<?xml " + v + n + d + "?>", l.lineBreak, t);
    Regroup4("<?xml ", v, n, d, "?>", l.lineBreak + t);
    assert "<?xml " == XML_HEADER + " ";
    Associate(XML_HEADER, " ", v + (n + (d + ("?>" + (l.lineBreak + t)))));
  }

  lemma Regroup3(a: string, b: string, c: string, d: string, t: string)
    ensures a + b + c + d + t == a + (b + (c + (d + t)))
  {
    Regroup2(a, b, c, d + t);
    Associate(a + b + c, d, t);
  }

  lemma UntruncatedMark(value: string, mark: string)
    requires EndsAtMark(value, mark)
    ensures CStr(value) == value
  {
  }

  lemma UntruncatedUnknown(value: string)
    requires WritableUnknown(value)
    ensures CStr(value) == value
  {
  }

  lemma ElementIsRead(m: Mode, l: Layout, depth: nat, node: Node, t: string, e: FirstError)
    requires Writable(m, node) && node.Element? && Suits(m, l)
    ensures var s := Body(l, depth, node) + t;
            s != "" && !("</" <= s) && Identify(m.enc, Some(s)) == Some(ElementKind) &&
            ParseElement(m.enc, m.condense, s, e) == Parsed(node, Some(l.lineBreak + t), e)
    decreases node, 0
  {
    hide ParseElement, ParseInTag, Identify, Body, StartTag, EndTag, Encode, Writable, WhiteLayout;
    var Element(name, attributes, children) := node;
    var start, behind := StartTag(name, attributes), l.lineBreak + t;
    ElementParts(m, node);
    var close := Close(l, depth, node, behind);
    ClosedElement(l, depth, node, t);
    OpenTag(m.enc, name, attributes, close);
    StartTagIsRead(m.enc, m.condense, name, attributes, close, e);
    if children == [] {
      EmptyTagIsRead(m.enc, m.condense, name, attributes, behind, e);
    } else if IsSimple(children) {
      EndTagStart(name, behind);
      SimpleTextIsRead(m, children, EndTag(name) + behind, e);
      ContentIsRead(m, name, attributes, children, Encode(children[0].value) + (EndTag(name) + behind), behind, e);
    } else {
      NestedIsRead(m, l, depth, node, behind, e);
    }
  }

  lemma NestedIsRead(m: Mode, l: Layout, depth: nat, node: Node, behind: string, e: FirstError)
    requires node.Element? && IsName(m.enc, node.name) && WritableNodes(m, node.children) && Suits(m, l)
    requires TextsMayStand(m, node.children) && node.children != [] && !IsSimple(node.children)
    ensures ParseInTag(m.enc, m.condense, Close(l, depth, node, behind), node.name, node.attributes, e)
         == Parsed(node, Some(behind), e)
    decreases node.children, 1
  {
    hide ParseInTag, ReadValue, EndTag, Core, Lead, Indentation, WritableNodes, IsName, WhiteLayout, AllWhite;
    var Element(name, attributes, children) := node;
    ContentLayout(l, depth, children);
    if !m.condense && !NoTexts(children) { DenseLead(l, depth, children); DenseLead(l, depth + 1, children); }
    var w, end := Indentation(l.indent, depth), EndTag(name) + behind;
    var lead, core := Lead(l, depth + 1, children, w), Core(l, depth + 1, children, w, end);
    EndTagStart(name, behind);
    ChildrenAreRead(m, l, depth + 1, children, l.lineBreak + lead, w, end, [], e);
    assert [] + children == children;
    ContentIsRead(m, name, attributes, children, l.lineBreak + lead + core, behind, e);
  }

  /** What follows the attributes of a printed element. */
  function Close(l: Layout, depth: nat, node: Node, behind: string): (s: string)
    requires node.Element?
    ensures s != "" && (s[0] == ' ' || s[0] == '>')
  {
    var end := EndTag(node.name) + behind;
    if node.children == [] then " />" + behind
    else if IsSimple(node.children) then ">" + (Encode(node.children[0].value) + end)
    else
      var w := Indentation(l.indent, depth);
      ">" + (l.lineBreak + Lead(l, depth + 1, node.children, w) + Core(l, depth + 1, node.children, w, end))
  }

  lemma ClosedElement(l: Layout, depth: nat, node: Node, t: string)
    requires node.Element?
    ensures Body(l, depth, node) + t == StartTag(node.name, node.attributes) + Close(l, depth, node, l.lineBreak + t)
  {
    hide StartTag, EndTag, Encode, PrintNodes, Core, Lead, Indentation;
    var start, end, br := StartTag(node.name, node.attributes), EndTag(node.name), l.lineBreak;
    if node.children == [] {
      Regroup2(start, " />", br, t);
    } else if IsSimple(node.children) {
      Regroup4(start, ">", Encode(node.children[0].value), end, br, t);
    } else {
      var w, nodes := Indentation(l.indent, depth), PrintNodes(l, depth + 1, node.children);
      var lead, core := Lead(l, depth + 1, node.children, w), Core(l, depth + 1, node.children, w, end + (br + t));
      CoreIsPrinted(l, depth + 1, node.children, w, end + (br + t));
      Regroup4(start + ">" + br, nodes, w, end, br, t);
      Regroup2(start, ">", br, nodes + (w + (end + (br + t))));
      Associate(br, lead, core);
    }
  }

  lemma Regroup2(a: string, b: string, c: string, t: string)
    ensures a + b + c + t == a + (b + (c + t))
  {
  }

  lemma Regroup4(a: string, b: string, c: string, d: string, e: string, t: string)
    ensures a + b + c + d + e + t == a + (b + (c + (d + (e + t))))
  {
    Regroup2(a + b, c, d, e + t);
    Regroup2(a + b + c, d, e, t);
    Associate(a, b, c + (d + (e + t)));
  }

  lemma ContentLayout(l: Layout, depth: nat, children: seq<Node>)
    requires WhiteLayout(l)
    ensures AllWhite(Indentation(l.indent, depth))
    ensures AllWhite(l.lineBreak + Lead(l, depth + 1, children, Indentation(l.indent, depth)))
  {
    IndentationIsWhite(l.indent, depth);
    LeadIsWhite(l, depth + 1, children, Indentation(l.indent, depth));
  }

  lemma EndTagStart(name: string, t: string)
    ensures "</" <= EndTag(name) + t
  {
  }

  lemma ElementParts(m: Mode, node: Node)
    requires Writable(m, node) && node.Element?
    ensures IsName(m.enc, node.name) && WritableAttributes(m.enc, node.attributes) && WritableNodes(m, node.children) && TextsMayStand(m, node.children)
  {
  }

  lemma OpenTag(enc: Encoding, name: string, attributes: seq<Attribute>, s: string)
    requires IsName(enc, name)
    ensures var t := StartTag(name, attributes) + s; t != "" && !("</" <= t)
  {
    NameIsCStr(enc, name);
    assert (StartTag(name, attributes) + s)[1] == name[0];
  }

  lemma SimpleTextIsRead(m: Mode, children: seq<Node>, tail: string, e: FirstError)
    requires WritableNodes(m, children) && IsSimple(children) && "</" <= tail
    ensures ReadValue(m.enc, m.condense, Some(Encode(children[0].value) + tail), [], e) == ParsedNodes(children, Some(tail), e)
  {
    hide ReadValue, Encode, AllWhite;
    var value := children[0].value;
    assert Writable(m, children[0]);
    NoneIsWhite();
    TextIsRead(m, value, "", "", tail[1..], [], e);
    assert "" + (Encode(value) + ("" + ("<" + tail[1..]))) == Encode(value) + tail;
    assert "<" + tail[1..] == tail == "" + tail;
    EndIsReached(m, "", tail, [] + [Text(value)], e);
    assert [] + [Text(value)] == children;
  }

  lemma NoneIsWhite()
    ensures AllWhite("")
  {
  }

  /** The content of an element and its end tag. */
  lemma ContentIsRead(m: Mode, name: string, attributes: seq<Attribute>, children: seq<Node>, inner: string,
                      behind: string, e: FirstError)
    requires IsName(m.enc, name)
    requires ReadValue(m.enc, m.condense, Some(inner), [], e) == ParsedNodes(children, Some(EndTag(name) + behind), e)
    ensures ParseInTag(m.enc, m.condense, ">" + inner, name, attributes, e)
         == Parsed(Element(name, attributes, children), Some(behind), e)
  {
    hide ReadValue, ReadEndTag, SkipWhiteSpace, IsName;
    SkipTo(m.enc, "", ">" + inner);
    assert (">" + inner)[1..] == inner;
    EndTagIsRead(m.enc, name, behind, e);
  }

  lemma DenseLead(l: Layout, depth: nat, nodes: seq<Node>)
    requires l == DENSE
    ensures Indentation(l.indent, depth) == "" && Lead(l, depth, nodes, "") == ""
  {
    NoIndentation(depth);
  }

  lemma {:induction false} NoIndentation(depth: nat)
    ensures Indentation("", depth) == ""
  {
    if depth > 0 { NoIndentation(depth - 1); }
  }

  /** No white space that would be kept stands next to a text. */
  predicate TextsAreBare(m: Mode, l: Layout, nodes: seq<Node>, ws: string, w: string) {
    m.condense || NoTexts(nodes) || (l == DENSE && ws == "" && w == "")
  }

  lemma TailIsBare(m: Mode, l: Layout, depth: nat, nodes: seq<Node>, ws: string, w: string)
    requires nodes != [] && TextsAreBare(m, l, nodes, ws, w)
    ensures var lead := Lead(l, depth, nodes[1..], w);
            TextsAreBare(m, l, nodes[1..], l.lineBreak + lead, w) && TextsAreBare(m, l, nodes[1..], "", w) &&
            (nodes[0].Text? ==> m.condense || (ws == "" && l.lineBreak + lead == ""))
  {
    if l == DENSE && w == "" { DenseLead(l, depth, nodes[1..]); }
  }

  /** The children of an element are read back up to its end tag. */
  lemma {:induction false} ChildrenAreRead(m: Mode, l: Layout, depth: nat, nodes: seq<Node>, ws: string, w: string,
                                           tail: string, before: seq<Node>, e: FirstError)
    requires WritableNodes(m, nodes) && Suits(m, l) && TextsAreBare(m, l, nodes, ws, w)
    requires AllWhite(ws) && AllWhite(w) && "</" <= tail
    ensures ReadValue(m.enc, m.condense, Some(ws + Core(l, depth, nodes, w, tail)), before, e)
         == ParsedNodes(before + nodes, Some(tail), e)
    decreases nodes, 0
  {
    hide ReadValue, Body, WhiteLayout, Writable, WritableText, AllWhite, Identify, ParseNode, Encode, TextsAreBare;
    if nodes == [] {
      EndIsReached(m, ws, tail, before, e);
      assert before + [] == before;
    } else {
      var node, rest := nodes[0], nodes[1..];
      WritableTail(m, nodes);
      assert before + [node] + rest == before + nodes;
      var lead, core := Lead(l, depth, rest, w), Core(l, depth, rest, w, tail);
      LeadIsWhite(l, depth, rest, w);
      LineBreakIsWhite(l);
      WhiteWhite(l.lineBreak, lead);
      Associate(l.lineBreak, lead, core);
      TailIsBare(m, l, depth, nodes, ws, w);
      if node.Text? {
        TextThenTag(m, l, depth, nodes, w, tail);
        TextBody(m, l, depth, node, lead + core);
        Associate(l.lineBreak, lead, "<" + core[1..]);
        TextIsRead(m, node.value, ws, l.lineBreak + lead, core[1..], before, e);
        NoneIsWhite();
        ChildrenAreRead(m, l, depth, rest, "", w, tail, before + [node], e);
        assert "" + core == core;
      } else {
        NodeIsRead(m, l, depth, node, lead + core, e);
        TagIsHandled(m, ws, Body(l, depth, node) + (lead + core), before, e);
        CoreIsNotEmpty(l, depth, rest, w, tail);
        ChildrenAreRead(m, l, depth, rest, l.lineBreak + lead, w, tail, before + [node], e);
      }
    }
  }

  // ---------------------------------------------------------------- documents

  /** The mode behind a node: a declaration may fix the encoding. */
  function After(m: Mode, node: Node): Mode { m.(enc := EncodingAfter(m.enc, node)) }

  /** A document has no text of its own. */
  predicate WritableDocument(m: Mode, nodes: seq<Node>)
    decreases |nodes|
  {
    nodes != [] ==> Writable(m, nodes[0]) && !nodes[0].Text? && WritableDocument(After(m, nodes[0]), nodes[1..])
  }

  /** One turn of the loop over the document. */
  lemma NodeIsHandled(m: Mode, l: Layout, node: Node, t: string, ws: string, before: seq<Node>, e: FirstError)
    requires Writable(m, node) && !node.Text? && Suits(m, l) && AllWhite(ws)
    ensures var behind := if node.Cdata? && l.lineBreak + t == "" then None else Some(l.lineBreak + t);
            ParseNodes(m.enc, m.condense, SkipWhiteSpace(m.enc, Some(ws + (Body(l, 0, node) + t))), before, e)
              == ParseNodes(After(m, node).enc, m.condense, SkipWhiteSpace(After(m, node).enc, behind), before + [node], e)
  {
    hide Body, Writable, Suits, AllWhite, Identify, ParseNode, SkipWhiteSpace, EncodingAfter;
    NodeIsRead(m, l, 0, node, t, e);
    var s := Body(l, 0, node) + t;
    SkipTo(m.enc, ws, s);
  }

  lemma FirstPrinted(l: Layout, nodes: seq<Node>)
    requires nodes != []
    ensures PrintNodes(l, 0, nodes) == Body(l, 0, nodes[0]) + PrintNodes(l, 0, nodes[1..])
  {
    hide Body;
    assert "" + Body(l, 0, nodes[0]) == Body(l, 0, nodes[0]);
  }

  lemma {:induction false} NodesAreRead(m: Mode, l: Layout, nodes: seq<Node>, ws: string, before: seq<Node>, e: FirstError)
    requires WritableDocument(m, nodes) && Suits(m, l) && AllWhite(ws)
    ensures var r := ParseNodes(m.enc, m.condense, SkipWhiteSpace(m.enc, Some(ws + PrintNodes(l, 0, nodes))), before, e);
            r.nodes == before + nodes && r.error == e
    decreases |nodes|
  {
    hide Body, Writable, WhiteLayout, AllWhite, PrintNodes, ParseNodes, SkipWhiteSpace, EncodingAfter;
    if nodes == [] {
      OnlyWhite(m, l, ws, before, e);
      assert before + [] == before;
    } else {
      var node, rest := nodes[0], nodes[1..];
      var t := PrintNodes(l, 0, rest);
      FirstPrinted(l, nodes);
      NodeIsHandled(m, l, node, t, ws, before, e);
      assert before + [node] + rest == before + nodes;
      LineBreakIsWhite(l);
      if node.Cdata? && l.lineBreak + t == "" {
        OnlyTheEnd(After(m, node), l, rest);
        NothingLeft(After(m, node), before + [node], e);
        assert before + [node] == before + nodes;
      } else {
        NodesAreRead(After(m, node), l, rest, l.lineBreak, before + [node], e);
      }
    }
  }

  lemma OnlyWhite(m: Mode, l: Layout, ws: string, before: seq<Node>, e: FirstError)
    requires AllWhite(ws)
    ensures var r := ParseNodes(m.enc, m.condense, SkipWhiteSpace(m.enc, Some(ws + PrintNodes(l, 0, []))), before, e);
            r.nodes == before && r.error == e
  {
    WhiteIsSkipped(m.enc, ws, "");
  }

  lemma NothingLeft(m: Mode, before: seq<Node>, e: FirstError)
    ensures ParseNodes(m.enc, m.condense, SkipWhiteSpace(m.enc, None), before, e) == ParsedNodes(before, None, e)
  {
  }

  lemma OnlyTheEnd(m: Mode, l: Layout, nodes: seq<Node>)
    requires PrintNodes(l, 0, nodes) == "" && WritableDocument(m, nodes)
    ensures nodes == []
  {
    hide Writable;
    if nodes != [] {
      BodyStart(l, 0, nodes[0], "");
    }
  }

  lemma DocumentStart(l: Layout, nodes: seq<Node>)
    requires nodes != [] && !nodes[0].Text?
    ensures PrintNodes(l, 0, nodes) != "" && PrintNodes(l, 0, nodes)[0] == '<'
  {
    BodyStart(l, 0, nodes[0], PrintNodes(l, 0, nodes[1..]));
    assert Indentation(l.indent, 0) + Body(l, 0, nodes[0]) == Body(l, 0, nodes[0]);
  }

  /** Parsing the printed form of a document rebuilds its tree without an error: condensing white
      space, in every layout; keeping it, in every layout if each text is the only child of its
      element, and in the dense one also if it is not. */
  lemma DocumentRoundTrip(m: Mode, l: Layout, nodes: seq<Node>)
    requires WritableDocument(m, nodes) && nodes != [] && Suits(m, l)
    ensures var r := Parse(m.enc, m.condense, PrintNodes(l, 0, nodes), []);
            r.nodes == nodes && r.error == None
  {
    hide PrintNodes, ParseNodes, SkipWhiteSpace, Suits, Writable;
    var text := PrintNodes(l, 0, nodes);
    DocumentStart(l, nodes);
    NoneIsWhite();
    NodesAreRead(m, l, nodes, "", [], None);
    assert "" + text == text && [] + nodes == nodes;
  }

  // ---------------------------------------------------------------- no NUL is printed

  lemma {:induction false} EncodedIsCStr(s: string)
    requires NoHexReference(s)
    ensures NUL !in Encode(s)
  {
    if s != "" {
      NoHexReferenceTail(s, 1);
      EncodedIsCStr(s[1..]);
      assert s[0..] == s;
      NoNulInEncodedChar(s[0]);
    }
  }

  lemma NoNulInEncodedChar(c: char)
    ensures NUL !in EncodeChar(c)
  {
  }

  lemma {:induction false} AttributesAreCStr(enc: Encoding, attributes: seq<Attribute>)
    requires WritableAttributes(enc, attributes)
    ensures NUL !in PrintAttributes(attributes)
  {
    hide Encode, NoHexReference, WholeSequences, IsName;
    if attributes != [] {
      var a := attributes[0];
      assert WritableAttributes(enc, attributes[1..]);
      AttributesAreCStr(enc, attributes[1..]);
      EncodedIsCStr(a.value);
      NameIsEncoded(enc, a.name);
      NameIsCStr(enc, a.name);
    }
  }

  lemma {:induction false} WhiteIsCStr(ws: string)
    requires AllWhite(ws)
    ensures NUL !in ws
  {
  }

  lemma {:induction false} NodesAreCStr(m: Mode, l: Layout, depth: nat, nodes: seq<Node>)
    requires WhiteLayout(l) && forall i :: 0 <= i < |nodes| ==> Writable(m, nodes[i])
    ensures NUL !in PrintNodes(l, depth, nodes)
    decreases nodes, 0
  {
    hide Body, Writable;
    if nodes != [] {
      assert Writable(m, nodes[0]);
      NodeIsCStr(m, l, depth, nodes[0]);
      IndentationIsWhite(l.indent, depth);
      WhiteIsCStr(Indentation(l.indent, depth));
      NodesAreCStr(m, l, depth, nodes[1..]);
    }
  }

  lemma TagsAreCStr(enc: Encoding, name: string, attributes: seq<Attribute>)
    requires WritableAttributes(enc, attributes)
    ensures NUL !in StartTag(name, attributes) && NUL !in EndTag(name)
  {
    hide PrintAttributes, WritableAttributes, Shown;
    AllShown(enc, attributes);
    AttributesAreCStr(enc, attributes);
  }

  lemma {:induction false} ElementIsCStr(m: Mode, l: Layout, depth: nat, node: Node)
    requires Writable(m, node) && node.Element? && WhiteLayout(l)
    ensures NUL !in Body(l, depth, node)
    decreases node, 0
  {
    hide PrintNodes, Encode, StartTag, EndTag, WritableAttributes, WritableText, IsName, AllWhite;
    var children := node.children;
    ElementParts(m, node);
    WhiteIsCStr(l.lineBreak);
    TagsAreCStr(m.enc, node.name, node.attributes);
    IndentationIsWhite(l.indent, depth);
    WhiteIsCStr(Indentation(l.indent, depth));
    if IsSimple(children) {
      assert Writable(m, children[0]);
      TextIsCStr(m, children[0].value);
    } else {
      NodesAreCStr(m, l, depth + 1, children);
    }
  }

  lemma TextIsCStr(m: Mode, value: string)
    requires WritableText(m, value)
    ensures NUL !in Encode(value)
  {
    EncodedIsCStr(value);
  }

  lemma NodeIsCStr(m: Mode, l: Layout, depth: nat, node: Node)
    requires Writable(m, node) && WhiteLayout(l)
    ensures NUL !in Body(l, depth, node)
    decreases node, 1
  {
    hide Body, Writable;
    match node
    case Element(_, _, _) => ElementIsCStr(m, l, depth, node);
    case Declaration(_, _, _) => DeclarationIsCStr(m, l, depth, node);
    case _ => LeafIsCStr(m, l, depth, node);
  }

  lemma LeafIsCStr(m: Mode, l: Layout, depth: nat, node: Node)
    requires Writable(m, node) && WhiteLayout(l) && !node.Element? && !node.Declaration?
    ensures NUL !in Body(l, depth, node)
  {
    hide Encode, WritableText, AllWhite, WritableUnknown, EndsAtMark;
    WhiteIsCStr(l.lineBreak);
    if node.Text? { TextIsCStr(m, node.value); }
  }

  lemma DeclarationIsCStr(m: Mode, l: Layout, depth: nat, node: Node)
    requires Writable(m, node) && WhiteLayout(l) && node.Declaration?
    ensures NUL !in Body(l, depth, node)
  {
    hide AllWhite, WholeSequences, PrintDeclared;
    WhiteIsCStr(l.lineBreak);
    DeclaredIsCStr(m.enc, "version", node.version);
    DeclaredIsCStr(m.enc, "encoding", node.encoding);
    DeclaredIsCStr(m.enc, "standalone", node.standalone);
  }

  lemma DeclaredIsCStr(enc: Encoding, name: string, value: string)
    requires NUL !in name && Declarable(enc, value)
    ensures NUL !in PrintDeclared(name, value)
  {
  }

  /** No NUL is printed, so the text of the printer is a whole C string. */
  lemma {:induction false} DocumentIsCStr(m: Mode, l: Layout, nodes: seq<Node>)
    requires WhiteLayout(l) && WritableDocument(m, nodes)
    ensures NUL !in PrintNodes(l, 0, nodes)
    decreases |nodes|
  {
    hide Body, Writable, EncodingAfter;
    if nodes != [] {
      NodeIsCStr(m, l, 0, nodes[0]);
      FirstPrinted(l, nodes);
      DocumentIsCStr(After(m, nodes[0]), l, nodes[1..]);
    }
  }

  /** Printing a document and parsing the printed characters into a new one, for any of the
      layouts that suit the way it is read. */
  method PrintAndParse(document: XmlDocument.Document, l: Layout, m: Mode) returns (copy: XmlDocument.Document)
    requires WritableDocument(m, document.children) && document.children != [] && Suits(m, l)
    ensures fresh(copy) && copy.children == document.children && copy.error == None
  {
    hide WritableDocument, PrintNodes, Parse;
    var printer := new XmlPrinter.Printer();
    if l == DENSE { printer.SetStreamPrinting(); } else { printer.SetLayout(l); }
    printer.AcceptAll(document.children);
    assert printer.buffer == PrintNodes(l, 0, document.children);
    DocumentRoundTrip(m, l, document.children);
    DocumentIsCStr(m, l, document.children);
    copy := new XmlDocument.Document(m.condense);
    var _ := copy.Parse(Some(printer.buffer), m.enc);
  }
}
