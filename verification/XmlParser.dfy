/** What TinyXML makes of a text, as functions: the nodes, the pointer behind them and the first
    error recorded so far. The methods of module XmlDocument are proved to compute exactly this. */
module XmlParser {
  import opened Options
  import opened CString
  import opened XmlText

  datatype Attribute = Attribute(name: string, value: string)

  datatype Node =
    | Element(name: string, attributes: seq<Attribute>, children: seq<Node>)
    | Text(value: string)
    | Cdata(value: string)
    | Comment(value: string)
    | Declaration(version: string, encoding: string, standalone: string)
    | Unknown(value: string)

  datatype Error =
    | ParsingElement | FailedToReadElementName | ReadingElementValue | ReadingAttributes | ParsingEmpty
    | ReadingEndTag | ParsingUnknown | ParsingComment | ParsingDeclaration | DocumentEmpty | ParsingCdata

  /** errorId: the first error, if any. */
  type FirstError = Option<Error>

  /** SetError: only the first error is recorded. */
  function SetError(e: FirstError, id: Error): FirstError {
    if e.Some? then e else Some(id)
  }

  datatype Parsed = Parsed(node: Node, p: Pointer, error: FirstError)

  datatype ParsedNodes = ParsedNodes(nodes: seq<Node>, p: Pointer, error: FirstError)

  datatype ParsedAttribute = ParsedAttribute(attribute: Attribute, p: Pointer, error: FirstError)

  /** The null pointer, or the end of the text. */
  predicate AtEnd(p: Pointer) { p.None? || p.value == "" }

  // ---------------------------------------------------------------- strings

  function Lower(c: char): char {
    if 'A' <= c <= 'Z' then (c as int + 32) as char else c
  }

  /** StringEqual with ignoreCase: the text starts with the tag. */
  predicate StartsWithIgnoringCase(s: string, tag: string) {
    |tag| <= |s| && forall i :: 0 <= i < |tag| ==> Lower(s[i]) == Lower(tag[i])
  }

  predicate MarkAt(s: string, mark: string, i: nat)
    requires i <= |s|
  {
    mark <= s[i..]
  }

  lemma MarkInTail(s: string, mark: string, i: nat)
    requires 1 <= i <= |s|
    ensures MarkAt(s[1..], mark, i - 1) == MarkAt(s, mark, i)
  {
    assert s[1..][i - 1..] == s[i..];
  }

  /** The first position where the mark stands, or the end. */
  function Find(s: string, mark: string): (k: nat)
    ensures k <= |s|
    ensures forall i :: 0 <= i < k ==> !MarkAt(s, mark, i)
    ensures k < |s| ==> MarkAt(s, mark, k)
  {
    if s == "" || MarkAt(s, mark, 0) then 0
    else
      var k := Find(s[1..], mark);
      assert forall i :: 1 <= i <= k + 1 ==> MarkAt(s[1..], mark, i - 1) == MarkAt(s, mark, i) by {
        forall i | 1 <= i <= k + 1
          ensures MarkAt(s[1..], mark, i - 1) == MarkAt(s, mark, i)
        {
          MarkInTail(s, mark, i);
        }
      }
      1 + k
  }

  // ---------------------------------------------------------------- leaves

  /** TiXmlAttribute::Parse */
  function ParseAttribute(enc: Encoding, p: Pointer, e: FirstError): (r: ParsedAttribute)
    ensures r.p.Some? ==> p.Some? && |r.p.value| < |p.value|
  {
    var start := SkipWhiteSpace(enc, p);
    if AtEnd(start) then ParsedAttribute(Attribute("", ""), None, e)
    else
      var (name, behindName) := ReadName(start);
      var failed := ParsedAttribute(Attribute(name, ""), None, SetError(e, ReadingAttributes));
      if AtEnd(behindName) then failed
      else
        var equals := SkipWhiteSpace(enc, behindName);
        if AtEnd(equals) || equals.value[0] != '=' then failed
        else
          var quote := SkipWhiteSpace(enc, Some(equals.value[1..]));
          if AtEnd(quote) then failed
          else ParseAttributeValue(enc, name, quote.value, e)
  }

  /** The value of an attribute, with or without quotes. */
  function ParseAttributeValue(enc: Encoding, name: string, s: string, e: FirstError): (r: ParsedAttribute)
    requires s != ""
    ensures r.p.Some? ==> |r.p.value| <= |s|
  {
    if s[0] == '\'' || s[0] == '\"' then
      var g := ReadText(enc, Some(s[1..]), true, [s[0]]);
      ParsedAttribute(Attribute(name, g.text), g.p, e)
    else
      var n := UnquotedLength(s);
      var a := Attribute(name, s[..n]);
      if n < |s| && (s[n] == '\'' || s[n] == '\"') then
        ParsedAttribute(a, None, SetError(e, ReadingAttributes))
      else ParsedAttribute(a, Some(s[n..]), e)
  }

  predicate EndsUnquoted(c: char) {
    IsWhiteSpace(c) || c == '/' || c == '>' || c == '\'' || c == '\"'
  }

  function UnquotedLength(s: string): (n: nat)
    ensures n <= |s|
    ensures forall i :: 0 <= i < n ==> !EndsUnquoted(s[i])
    ensures n < |s| ==> EndsUnquoted(s[n])
  {
    if s == "" || EndsUnquoted(s[0]) then 0 else 1 + UnquotedLength(s[1..])
  }

  /** TiXmlUnknown::Parse */
  function ParseUnknown(enc: Encoding, p: Pointer, e: FirstError): (r: Parsed)
    ensures r.p.Some? ==> p.Some? && |r.p.value| < |p.value|
  {
    var start := SkipWhiteSpace(enc, p);
    if AtEnd(start) || start.value[0] != '<' then Parsed(Unknown(""), None, SetError(e, ParsingUnknown))
    else
      var s := start.value[1..];
      var k := IndexOf(s, '>');
      Parsed(Unknown(s[..k]), Some(if k < |s| then s[k + 1..] else ""), e)
  }

  const COMMENT_START := "<!--"
  const COMMENT_END := "-->"
  const CDATA_START := "<![CDATA["
  const CDATA_END := "]]>"
  const XML_HEADER := "<?xml"

  /** TiXmlComment::Parse: a comment without end extends to the end of the text. */
  function ParseComment(enc: Encoding, p: Pointer, e: FirstError): (r: Parsed)
    ensures r.p.Some? ==> p.Some? && |r.p.value| < |p.value|
  {
    var start := SkipWhiteSpace(enc, p);
    if AtEnd(start) || !(COMMENT_START <= start.value) then Parsed(Comment(""), None, SetError(e, ParsingComment))
    else
      var s := start.value[4..];
      var k := Find(s, COMMENT_END);
      Parsed(Comment(s[..k]), Some(if k < |s| then s[k + 3..] else ""), e)
  }

  /** TiXmlText::Parse of a CDATA section */
  function ParseCdata(enc: Encoding, p: Pointer, e: FirstError): (r: Parsed)
    ensures r.p.Some? ==> p.Some? && |r.p.value| < |p.value|
  {
    if AtEnd(p) || !(CDATA_START <= p.value) then Parsed(Cdata(""), None, SetError(e, ParsingCdata))
    else
      var s := p.value[9..];
      var k := Find(s, CDATA_END);
      Parsed(Cdata(s[..k]), ReadText(enc, Some(s[k..]), true, CDATA_END).p, e)
  }

  /** TiXmlText::Parse of plain text: the pointer is left at the '<' behind it. */
  function ParseText(enc: Encoding, condense: bool, p: Pointer): (r: (string, Pointer))
    ensures r.1.Some? ==> p.Some? && |r.1.value| <= |p.value|
    ensures r.1.Some? && p.value != "" && p.value[0] != '<' ==> |r.1.value| < |p.value|
  {
    var g := ReadText(enc, p, !condense, "<");
    (g.text, if AtEnd(g.p) then None else Some("<" + g.p.value))
  }

  function OtherLength(s: string): (n: nat)
    ensures n <= |s|
    ensures s != "" && s[0] != '>' && !IsWhiteSpace(s[0]) ==> n > 0
  {
    if s == "" || s[0] == '>' || IsWhiteSpace(s[0]) then 0 else 1 + OtherLength(s[1..])
  }

  /** One turn of the loop of TiXmlDeclaration::Parse, behind white space; the attributes have no
      document to report errors to, and their values are taken as C strings. */
  function ReadDeclared(enc: Encoding, s: string, d: Node): (r: (Node, Pointer))
    requires d.Declaration?
    ensures r.1.Some? ==> |r.1.value| <= |s| && (OtherLength(s) > 0 ==> |r.1.value| < |s|)
    ensures r.0.Declaration?
  {
    var a := ParseAttribute(enc, Some(s), None);
    if StartsWithIgnoringCase(s, "version") then (d.(version := CStr(a.attribute.value)), a.p)
    else if StartsWithIgnoringCase(s, "encoding") then (d.(encoding := CStr(a.attribute.value)), a.p)
    else if StartsWithIgnoringCase(s, "standalone") then (d.(standalone := CStr(a.attribute.value)), a.p)
    else (d, Some(s[OtherLength(s)..]))
  }

  /** The loop of TiXmlDeclaration::Parse */
  function ParseDeclared(enc: Encoding, p: Pointer, d: Node, e: FirstError): (r: Parsed)
    requires d.Declaration?
    ensures r.p.Some? ==> p.Some? && |r.p.value| < |p.value|
    ensures r.node.Declaration?
    decreases if p.Some? then |p.value| + 1 else 0
  {
    if AtEnd(p) then Parsed(d, None, e)
    else if p.value[0] == '>' then Parsed(d, Some(p.value[1..]), e)
    else
      WhiteOrOther(enc, p.value);
      var (d', rest) := ReadDeclared(enc, p.value[WhiteLength(enc, p.value)..], d);
      ParseDeclared(enc, rest, d', e)
  }

  /** The loop comes to a turn with nothing but white space left: there StringEqual is called at
      the end of the text, where its assertion fails. */
  predicate EndsBlank(enc: Encoding, p: Pointer)
    decreases if p.Some? then |p.value| + 1 else 0
  {
    if AtEnd(p) || p.value[0] == '>' then false
    else
      var s := p.value[WhiteLength(enc, p.value)..];
      if s == "" then true
      else
        WhiteOrOther(enc, p.value);
        EndsBlank(enc, ReadDeclared(enc, s, Declaration("", "", "")).1)
  }

  /** Only a declaration that is not closed gets there. */
  lemma {:induction false} EndsBlankIsUnclosed(enc: Encoding, p: Pointer, d: Node, e: FirstError)
    requires d.Declaration? && EndsBlank(enc, p)
    ensures ParseDeclared(enc, p, d, e).p == None
    decreases if p.Some? then |p.value| + 1 else 0
  {
    hide WhiteLength, ReadDeclared;
    WhiteOrOther(enc, p.value);
    var s := p.value[WhiteLength(enc, p.value)..];
    var (d', rest) := ReadDeclared(enc, s, d);
    SameRest(enc, s, d, Declaration("", "", ""));
    if s == "" {
      NothingDeclared(enc, d);
    } else {
      EndsBlankIsUnclosed(enc, rest, d', e);
    }
  }

  lemma SameRest(enc: Encoding, s: string, d: Node, d': Node)
    requires d.Declaration? && d'.Declaration?
    ensures ReadDeclared(enc, s, d).1 == ReadDeclared(enc, s, d').1
  {
    hide ParseAttribute;
  }

  lemma NothingDeclared(enc: Encoding, d: Node)
    requires d.Declaration?
    ensures ReadDeclared(enc, "", d) == (d, Some(""))
  {
    hide ParseAttribute;
  }

  lemma WhiteOrOther(enc: Encoding, s: string)
    requires s != "" && s[0] != '>'
    ensures WhiteLength(enc, s) > 0 || OtherLength(s[WhiteLength(enc, s)..]) > 0
  {
  }

  /** TiXmlDeclaration::Parse */
  function ParseDeclaration(enc: Encoding, p: Pointer, e: FirstError): (r: Parsed)
    ensures r.p.Some? ==> p.Some? && |r.p.value| < |p.value|
    ensures r.node.Declaration?
  {
    var start := SkipWhiteSpace(enc, p);
    var d := Declaration("", "", "");
    if AtEnd(start) || !StartsWithIgnoringCase(start.value, XML_HEADER) then
      Parsed(d, None, SetError(e, ParsingDeclaration))
    else ParseDeclared(enc, Some(start.value[5..]), d, e)
  }

  /** The declarations on which the assertion of StringEqual fails. */
  predicate DeclarationEndsBlank(enc: Encoding, p: Pointer) {
    var start := SkipWhiteSpace(enc, p);
    !AtEnd(start) && StartsWithIgnoringCase(start.value, XML_HEADER) && EndsBlank(enc, Some(start.value[5..]))
  }

  lemma HeaderAndBlank(enc: Encoding)
    ensures DeclarationEndsBlank(enc, Some("<?xml ")) && !DeclarationEndsBlank(enc, Some("<?xml"))
  {
    var s := "<?xml ";
    assert s[5..] == " " && " "[1..] == "" && "<?xml"[5..] == "";
    assert WhiteLength(enc, s) == 0 && s[0..] == s && "<?xml"[0..] == "<?xml";
  }

  // ---------------------------------------------------------------- nodes

  datatype Kind = ElementKind | CdataKind | CommentKind | DeclarationKind | UnknownKind

  /** Identify: what starts here, if anything does. */
  function Identify(enc: Encoding, p: Pointer): Option<Kind> {
    var start := SkipWhiteSpace(enc, p);
    if AtEnd(start) || start.value[0] != '<' then None
    else
      var s := start.value;
      Some(if StartsWithIgnoringCase(s, XML_HEADER) then DeclarationKind
           else if COMMENT_START <= s then CommentKind
           else if CDATA_START <= s then CdataKind
           else if "<!" <= s then UnknownKind
           else if |s| > 1 && IsNameStart(s[1]) then ElementKind
           else UnknownKind)
  }

  /** The Parse of the node that was identified. */
  function ParseNode(enc: Encoding, condense: bool, kind: Kind, s: string, e: FirstError): (r: Parsed)
    ensures r.p.Some? ==> |r.p.value| < |s|
    decreases |s|, 3
  {
    match kind
    case ElementKind => ParseElement(enc, condense, s, e)
    case CdataKind => ParseCdata(enc, Some(s), e)
    case CommentKind => ParseComment(enc, Some(s), e)
    case DeclarationKind => ParseDeclaration(enc, Some(s), e)
    case UnknownKind => ParseUnknown(enc, Some(s), e)
  }

  /** TiXmlElement::Parse */
  function ParseElement(enc: Encoding, condense: bool, s: string, e: FirstError): (r: Parsed)
    ensures r.p.Some? ==> |r.p.value| < |s|
    decreases |s|, 2
  {
    var start := SkipWhiteSpace(enc, Some(s));
    if AtEnd(start) || start.value[0] != '<' then Parsed(Element("", [], []), None, SetError(e, ParsingElement))
    else
      var (name, p) := ReadName(SkipWhiteSpace(enc, Some(start.value[1..])));
      if AtEnd(p) then Parsed(Element(name, [], []), None, SetError(e, FailedToReadElementName))
      else ParseInTag(enc, condense, p.value, name, [], e)
  }

  predicate HasAttribute(attributes: seq<Attribute>, name: string) {
    exists i :: 0 <= i < |attributes| && attributes[i].name == name
  }

  /** The attributes of a start tag, and what follows them. */
  function ParseInTag(enc: Encoding, condense: bool, s: string, name: string, attributes: seq<Attribute>, e: FirstError): (r: Parsed)
    ensures r.p.Some? ==> |r.p.value| < |s|
    decreases |s|, 1
  {
    var failed := Element(name, attributes, []);
    var p := SkipWhiteSpace(enc, Some(s));
    if AtEnd(p) then Parsed(failed, None, SetError(e, ReadingAttributes))
    else if p.value[0] == '/' then
      if |p.value| > 1 && p.value[1] == '>' then Parsed(failed, Some(p.value[2..]), e)
      else Parsed(failed, None, SetError(e, ParsingEmpty))
    else if p.value[0] == '>' then
      var r := ReadValue(enc, condense, Some(p.value[1..]), [], e);
      var end := ReadEndTag(enc, name, r.p, r.error);
      Parsed(Element(name, attributes, r.nodes), end.0, end.1)
    else
      var a := ParseAttribute(enc, p, e);
      if AtEnd(a.p) || HasAttribute(attributes, a.attribute.name) then
        Parsed(failed, None, SetError(a.error, ParsingElement))
      else ParseInTag(enc, condense, a.p.value, name, attributes + [a.attribute], a.error)
  }

  function ReadEndTag(enc: Encoding, name: string, p: Pointer, e: FirstError): (r: (Pointer, FirstError))
    ensures r.0.Some? ==> p.Some? && |r.0.value| < |p.value|
  {
    if AtEnd(p) || !("</" + name <= p.value) then (None, SetError(e, ReadingEndTag))
    else
      var end := SkipWhiteSpace(enc, Some(p.value[2 + |name|..]));
      if AtEnd(end) || end.value[0] != '>' then (None, SetError(e, ReadingEndTag))
      else (Some(end.value[1..]), e)
  }

  /** White space in front of something else than '<' does not start with '<' itself. */
  lemma WhiteThenText(enc: Encoding, s: string)
    requires s != "" && WhiteLength(enc, s) < |s| && s[WhiteLength(enc, s)] != '<'
    ensures s[0] != '<'
  {
  }

  /** The text of an element: without the white space q skips, or from p on. */
  function TextInElement(enc: Encoding, condense: bool, p: string, q: string): (r: (string, Pointer))
    requires p != "" && q == p[WhiteLength(enc, p)..] && q != "" && q[0] != '<'
    ensures r.1.Some? ==> |r.1.value| < |p|
  {
    WhiteThenText(enc, p);
    ParseText(enc, condense, Some(if condense then q else p))
  }

  /** TiXmlElement::ReadValue: the children up to an end tag. */
  function ReadValue(enc: Encoding, condense: bool, p: Pointer, nodes: seq<Node>, e: FirstError): (r: ParsedNodes)
    ensures r.p.Some? ==> p.Some? && |r.p.value| <= |p.value|
    decreases if p.Some? then |p.value| else 0, 4
  {
    var q := SkipWhiteSpace(enc, p);
    if q.None? then ParsedNodes(nodes, None, SetError(e, ReadingElementValue))
    else if q.value == "" then ParsedNodes(nodes, q, e)
    else if q.value[0] != '<' then
      var (value, rest) := TextInElement(enc, condense, p.value, q.value);
      ReadValue(enc, condense, rest, if AllWhite(value) then nodes else nodes + [Text(value)], e)
    else if "</" <= q.value then ParsedNodes(nodes, q, e)
    else
      var kind := Identify(enc, q);
      if kind.None? then ParsedNodes(nodes, None, e)
      else
        var r := ParseNode(enc, condense, kind.value, q.value, e);
        ReadValue(enc, condense, r.p, nodes + [r.node], r.error)
  }

  // ---------------------------------------------------------------- the document

  /** The encoding a declaration announces. */
  function DeclaredEncoding(name: string): Encoding {
    if name == "" || StartsWithIgnoringCase(name, "UTF-8") || StartsWithIgnoringCase(name, "UTF8")
    then Utf8Encoding else LegacyEncoding
  }

  function EncodingAfter(enc: Encoding, node: Node): Encoding {
    if enc.UnknownEncoding? && node.Declaration? then DeclaredEncoding(node.encoding) else enc
  }

  /** The loop of TiXmlDocument::Parse */
  function ParseNodes(enc: Encoding, condense: bool, p: Pointer, nodes: seq<Node>, e: FirstError): (r: ParsedNodes)
    decreases if p.Some? then |p.value| else 0
  {
    if AtEnd(p) then ParsedNodes(nodes, p, e)
    else
      var kind := Identify(enc, p);
      if kind.None? then ParsedNodes(nodes, p, e)
      else
        var r := ParseNode(enc, condense, kind.value, p.value, e);
        var after := EncodingAfter(enc, r.node);
        ParseNodes(after, condense, SkipWhiteSpace(after, r.p), nodes + [r.node], r.error)
  }

  predicate HasByteOrderMark(s: string) {
    |s| >= 3 && s[0] as int == 0xEF && s[1] as int == 0xBB && s[2] as int == 0xBF
  }

  /** TiXmlDocument::Parse of a text into a document with the given children. */
  function Parse(enc: Encoding, condense: bool, text: string, nodes: seq<Node>): ParsedNodes {
    if text == "" then ParsedNodes(nodes, None, Some(DocumentEmpty))
    else
      var start := if enc.UnknownEncoding? && HasByteOrderMark(text) then Utf8Encoding else enc;
      var r := ParseNodes(start, condense, SkipWhiteSpace(start, Some(text)), nodes, None);
      if r.nodes == [] then ParsedNodes(r.nodes, None, SetError(r.error, DocumentEmpty)) else r
  }
}
