/** The Parse methods of TiXmlDocument and its nodes, proved against the functions of XmlParser.
    A node under construction is a value that is linked to its parent when its Parse returns. */
module XmlDocument {
  import opened Options
  import opened CString
  import opened XmlText
  import opened XmlParser
  import opened XmlBase

  lemma FindStep(text: string, i: nat, mark: string)
    requires i <= |text|
    ensures Find(text[i..], mark) == if i == |text| || mark <= text[i..] then 0 else 1 + Find(text[i + 1..], mark)
  {
    assert text[i..][0..] == text[i..];
    assert i < |text| ==> text[i..][1..] == text[i + 1..];
  }

  lemma UnquotedStep(text: string, i: nat)
    requires i <= |text|
    ensures UnquotedLength(text[i..])
         == if i == |text| || EndsUnquoted(text[i]) then 0 else 1 + UnquotedLength(text[i + 1..])
  {
    assert i < |text| ==> text[i..][1..] == text[i + 1..];
  }

  // ---------------------------------------------------------------- turns of a loop

  lemma SlicesOf(text: string, start: nat, end: nat)
    requires start <= end <= |text|
    ensures text[start..][..end - start] == text[start..end] && |text[start..]| == |text| - start
    ensures if end < |text| then text[start..][end - start + 1..] == text[end + 1..] else text[end..] == ""
  {
  }

  /** TiXmlUnknown::Parse by the place of the first '>'. */
  lemma UnknownIsParsed(enc: Encoding, p: Pointer, e: FirstError)
    ensures var start := XmlText.SkipWhiteSpace(enc, p);
            XmlParser.ParseUnknown(enc, p, e) ==
            if start.None? || start.value == "" || start.value[0] != '<' then
              Parsed(Unknown(""), None, XmlParser.SetError(e, ParsingUnknown))
            else
              var s := start.value[1..];
              var k := IndexOf(s, '>');
              Parsed(Unknown(s[..k]), Some(if k < |s| then s[k + 1..] else ""), e)
  {
    hide IndexOf, XmlText.SkipWhiteSpace;
  }

  /** The loop of ReadValue ends with its text. */
  lemma EndOfValue(enc: Encoding, condense: bool, p: Pointer, nodes: seq<Node>, e: FirstError)
    requires var q := XmlText.SkipWhiteSpace(enc, p); q.None? || q.value == ""
    ensures var q := XmlText.SkipWhiteSpace(enc, p);
            XmlParser.ReadValue(enc, condense, p, nodes, e) ==
            ParsedNodes(nodes, q, if q.None? then XmlParser.SetError(e, ReadingElementValue) else e)
  {
  }

  /** One turn of the loop of ReadValue: text, an end tag, or the node of a tag. */
  lemma NextOfValue(enc: Encoding, condense: bool, s: string, nodes: seq<Node>, e: FirstError)
    requires var q := XmlText.SkipWhiteSpace(enc, Some(s)); q.Some? && q.value != ""
    ensures var q := XmlText.SkipWhiteSpace(enc, Some(s)).value;
            var all := XmlParser.ReadValue(enc, condense, Some(s), nodes, e);
            if q[0] != '<' then
              var (value, rest) := XmlParser.ParseText(enc, condense, Some(if condense then q else s));
              s != "" && s[0] != '<' &&
              all == XmlParser.ReadValue(enc, condense, rest, if AllWhite(value) then nodes else nodes + [Text(value)], e)
            else if "</" <= q then all == ParsedNodes(nodes, Some(q), e)
            else if XmlParser.Identify(enc, Some(q)).None? then all == ParsedNodes(nodes, None, e)
            else
              var r := XmlParser.ParseNode(enc, condense, XmlParser.Identify(enc, Some(q)).value, q, e);
              all == XmlParser.ReadValue(enc, condense, r.p, nodes + [r.node], r.error)
  {
    hide XmlParser.ParseNode, XmlParser.ParseText, XmlParser.Identify, XmlText.WhiteLength, AllWhite;
    if XmlText.SkipWhiteSpace(enc, Some(s)).value[0] != '<' { WhiteThenText(enc, s); }
  }

  class Document {
    /** TiXmlBase::condenseWhiteSpace */
    const condenseWhiteSpace: bool
    var error: FirstError
    var children: seq<Node>
    var useMicrosoftBom: bool

    constructor (condenseWhiteSpace: bool)
      ensures this.condenseWhiteSpace == condenseWhiteSpace
      ensures error == None && children == [] && !useMicrosoftBom
    {
      this.condenseWhiteSpace := condenseWhiteSpace;
      error, children, useMicrosoftBom := None, [], false;
    }

    method SetError(id: Error)
      modifies this`error
      ensures error == XmlParser.SetError(old(error), id)
    {
      if error.Some? { return; }
      error := Some(id);
    }

    // -------------------------------------------------------------- attributes

    /** TiXmlAttribute::Parse; an attribute without a document reports no errors. */
    method ParseAttribute(text: string, p: Position, enc: Encoding, report: bool) returns (a: Attribute, r: Position)
      requires InText(text, p)
      modifies this`error
      ensures InText(text, r)
      ensures var s := XmlParser.ParseAttribute(enc, At(text, p), old(error));
              a == s.attribute && At(text, r) == s.p && error == if report then s.error else old(error)
    {
      hide XmlText.SkipWhiteSpace, XmlText.ReadName, XmlParser.ParseAttributeValue;
      var q := XmlBase.SkipWhiteSpace(text, p, enc);
      if Over(text, q) { return Attribute("", ""), None; }
      var name;
      name, q := XmlBase.ReadName(text, q);
      if Over(text, q) {
        if report { SetError(ReadingAttributes); }
        return Attribute(name, ""), None;
      }
      q := XmlBase.SkipWhiteSpace(text, q, enc);
      if Over(text, q) || text[q.value] != '=' {
        if report { SetError(ReadingAttributes); }
        return Attribute(name, ""), None;
      }
      assert text[q.value..][1..] == text[q.value + 1..];
      q := XmlBase.SkipWhiteSpace(text, Some(q.value + 1), enc);
      if Over(text, q) {
        if report { SetError(ReadingAttributes); }
        return Attribute(name, ""), None;
      }
      a, r := ParseAttributeValue(text, q.value, name, enc, report);
    }

    method ParseAttributeValue(text: string, p: nat, name: string, enc: Encoding, report: bool)
      returns (a: Attribute, r: Position)
      requires p < |text|
      modifies this`error
      ensures InText(text, r)
      ensures var s := XmlParser.ParseAttributeValue(enc, name, text[p..], old(error));
              a == s.attribute && At(text, r) == s.p && error == if report then s.error else old(error)
    {
      hide XmlText.ReadText, UnquotedLength;
      var value;
      if text[p] == '\'' || text[p] == '\"' {
        assert text[p..][1..] == text[p + 1..];
        value, r := XmlBase.ReadText(text, Some(p + 1), false, [text[p]], enc, condenseWhiteSpace);
      } else {
        value, r := ReadUnquoted(text, p);
        if r.None? && report { SetError(ReadingAttributes); }
        assert r.Some? ==> text[p..][r.value - p..] == text[r.value..];
      }
      a := Attribute(name, value);
    }

    /** An attribute value without quotes; null at a quote that closes nothing. */
    method ReadUnquoted(text: string, p: nat) returns (value: string, r: Position)
      requires p <= |text|
      ensures InText(text, r)
      ensures var n := UnquotedLength(text[p..]);
              value == text[p..][..n] &&
              r == if p + n < |text| && (text[p + n] == '\'' || text[p + n] == '\"') then None else Some(p + n)
    {
      hide UnquotedLength;
      value := "";
      var i := p;
      while i < |text| && !IsWhiteSpace(text[i]) && text[i] != '/' && text[i] != '>'
        invariant p <= i <= |text| && value == text[p..][..i - p]
        invariant i + UnquotedLength(text[i..]) == p + UnquotedLength(text[p..])
      {
        UnquotedStep(text, i);
        if text[i] == '\'' || text[i] == '\"' { return value, None; }
        SliceGrows(text, p, i);
        value := value + [text[i]];
        i := i + 1;
      }
      UnquotedStep(text, i);
      return value, Some(i);
    }

    // -------------------------------------------------------------- leaves

    /** TiXmlUnknown::Parse */
    method ParseUnknown(text: string, p: Position, enc: Encoding) returns (node: Node, r: Position)
      requires InText(text, p)
      modifies this`error
      ensures InText(text, r)
      ensures Parsed(node, At(text, r), error) == XmlParser.ParseUnknown(enc, At(text, p), old(error))
    {
      hide XmlText.SkipWhiteSpace, IndexOf, XmlParser.ParseUnknown;
      var q := XmlBase.SkipWhiteSpace(text, p, enc);
      UnknownIsParsed(enc, At(text, p), error);
      if Over(text, q) || text[q.value] != '<' {
        SetError(ParsingUnknown);
        return Unknown(""), None;
      }
      var start := q.value + 1;
      assert text[q.value..][1..] == text[start..];
      var end := FindChar(text, start, '>');
      SlicesOf(text, start, end);
      if end < |text| { return Unknown(text[start..end]), Some(end + 1); }
      return Unknown(text[start..end]), Some(end);
    }

    /** The text up to a mark, or up to the end. */
    method ReadUntil(text: string, p: nat, mark: string) returns (value: string, end: nat)
      requires p <= |text| && mark != ""
      ensures end == p + Find(text[p..], mark) && end <= |text| && value == text[p..][..end - p]
      ensures end < |text| ==> mark <= text[end..]
    {
      hide Find;
      value, end := "", p;
      while end < |text|
        invariant p <= end <= |text| && value == text[p..][..end - p]
        invariant end + Find(text[end..], mark) == p + Find(text[p..], mark)
      {
        var atMark := StringEqual(text, end, mark, false);
        FindStep(text, end, mark);
        if atMark { break; }
        SliceGrows(text, p, end);
        value := value + [text[end]];
        end := end + 1;
      }
      if end == |text| { FindStep(text, end, mark); }
    }

    /** TiXmlComment::Parse */
    method ParseComment(text: string, p: Position, enc: Encoding) returns (node: Node, r: Position)
      requires InText(text, p)
      modifies this`error
      ensures InText(text, r)
      ensures Parsed(node, At(text, r), error) == XmlParser.ParseComment(enc, At(text, p), old(error))
    {
      hide XmlText.SkipWhiteSpace, Find;
      var q := XmlBase.SkipWhiteSpace(text, p, enc);
      var isComment := false;
      if !Over(text, q) { isComment := StringEqual(text, q.value, COMMENT_START, false); }
      if !isComment {
        SetError(ParsingComment);
        return Comment(""), None;
      }
      var start := q.value + 4;
      assert text[q.value..][4..] == text[start..];
      var value, end := ReadUntil(text, start, COMMENT_END);
      if end == |text| {
        assert text[end..] == "";
        return Comment(value), Some(end);
      }
      assert text[start..][end - start + 3..] == text[end + 3..];
      return Comment(value), Some(end + 3);
    }

    /** TiXmlText::Parse of a CDATA section */
    method ParseCdata(text: string, p: Position, enc: Encoding) returns (node: Node, r: Position)
      requires InText(text, p)
      modifies this`error
      ensures InText(text, r)
      ensures Parsed(node, At(text, r), error) == XmlParser.ParseCdata(enc, At(text, p), old(error))
    {
      hide Find, XmlText.ReadText;
      var isCdata := false;
      if !Over(text, p) { isCdata := StringEqual(text, p.value, CDATA_START, false); }
      if !isCdata {
        SetError(ParsingCdata);
        return Cdata(""), None;
      }
      var start := p.value + 9;
      assert text[p.value..][9..] == text[start..];
      var value, end := ReadUntil(text, start, CDATA_END);
      assert text[start..][end - start..] == text[end..];
      var dummy;
      dummy, r := XmlBase.ReadText(text, Some(end), false, CDATA_END, enc, condenseWhiteSpace);
      return Cdata(value), r;
    }

    /** TiXmlText::Parse of plain text; it stands in no document yet. */
    method ParseText(text: string, p: Position, enc: Encoding) returns (value: string, r: Position)
      requires InText(text, p)
      ensures InText(text, r) && (value, At(text, r)) == XmlParser.ParseText(enc, condenseWhiteSpace, At(text, p))
    {
      hide XmlText.ReadText;
      var q;
      value, q := XmlBase.ReadText(text, p, true, "<", enc, condenseWhiteSpace);
      if Over(text, q) { return value, None; }
      return value, Some(q.value - 1);
    }

    // -------------------------------------------------------------- declarations

    method SkipOther(text: string, p: nat) returns (i: nat)
      requires p <= |text|
      ensures i == p + OtherLength(text[p..])
    {
      i := p;
      while i < |text| && text[i] != '>' && !IsWhiteSpace(text[i])
        invariant p <= i <= |text|
        invariant i + OtherLength(text[i..]) == p + OtherLength(text[p..])
      {
        assert text[i..][1..] == text[i + 1..];
        i := i + 1;
      }
    }

    /** TiXmlDeclaration::Parse; failed tells that the assertion of StringEqual fails, without
        which the parsing goes on as described. */
    method ParseDeclaration(text: string, p: Position, enc: Encoding) returns (node: Node, r: Position, failed: bool)
      requires InText(text, p)
      modifies this`error
      ensures InText(text, r)
      ensures failed <==> DeclarationEndsBlank(enc, At(text, p))
      ensures Parsed(node, At(text, r), error) == XmlParser.ParseDeclaration(enc, At(text, p), old(error))
    {
      hide XmlText.SkipWhiteSpace, XmlParser.ParseDeclared, StartsWithIgnoringCase;
      node := Declaration("", "", "");
      var q := XmlBase.SkipWhiteSpace(text, p, enc);
      var isDeclaration := false;
      if !Over(text, q) { isDeclaration := StringEqual(text, q.value, XML_HEADER, true); }
      if !isDeclaration {
        SetError(ParsingDeclaration);
        return node, None, false;
      }
      HeaderFits(text[q.value..]);
      assert text[q.value..][5..] == text[q.value + 5..];
      node, r, failed := ParseDeclared(text, Some(q.value + 5), enc);
    }

    lemma HeaderFits(s: string)
      requires StartsWithIgnoringCase(s, XML_HEADER)
      ensures |s| >= 5
    {
    }

    method ParseDeclared(text: string, start: Position, enc: Encoding) returns (node: Node, r: Position, failed: bool)
      requires InText(text, start)
      modifies this`error
      ensures InText(text, r) && (failed <==> EndsBlank(enc, At(text, start)))
      ensures Parsed(node, At(text, r), error)
           == XmlParser.ParseDeclared(enc, At(text, start), Declaration("", "", ""), old(error))
    {
      hide XmlParser.ReadDeclared, OtherLength, WhiteLength, IsWhiteSpace;
      node, failed := Declaration("", "", ""), false;
      var p := start;
      while !Over(text, p)
        invariant InText(text, p) && error == old(error) && node.Declaration?
        invariant EndsBlank(enc, At(text, start)) <==> failed || EndsBlank(enc, At(text, p))
        invariant XmlParser.ParseDeclared(enc, At(text, start), Declaration("", "", ""), error)
               == XmlParser.ParseDeclared(enc, At(text, p), node, error)
        decreases if p.Some? then |text| + 1 - p.value else 0
      {
        if text[p.value] == '>' {
          assert text[p.value..][1..] == text[p.value + 1..];
          return node, Some(p.value + 1), failed;
        }
        WhiteOrOther(enc, text[p.value..]);
        var q := XmlBase.SkipWhiteSpace(text, p, enc);
        SameRest(enc, text[q.value..], node, Declaration("", "", ""));
        if q.value == |text| {
          failed := true;
          NothingDeclared(enc, node);
          assert text[q.value..] == "";
          p := q;
        } else {
          node, p := ReadDeclared(text, q.value, node, enc);
        }
      }
      return node, None, failed;
    }

    /** One turn of that loop, behind the white space. */
    method ReadDeclared(text: string, q: nat, d: Node, enc: Encoding) returns (node: Node, r: Position)
      requires q < |text| && d.Declaration?
      modifies this`error
      ensures InText(text, r) && (node, At(text, r)) == XmlParser.ReadDeclared(enc, text[q..], d)
      ensures error == old(error)
    {
      hide XmlParser.ParseAttribute, StartsWithIgnoringCase, OtherLength;
      SameWithoutReport(enc, Some(text[q..]), error);
      var isVersion := StringEqual(text, q, "version", true);
      var isEncoding := StringEqual(text, q, "encoding", true);
      var isStandalone := StringEqual(text, q, "standalone", true);
      if isVersion || isEncoding || isStandalone {
        var attrib;
        attrib, r := ParseAttribute(text, Some(q), enc, false);
        var value := CStr(attrib.value);
        node := if isVersion then d.(version := value)
                else if isEncoding then d.(encoding := value) else d.(standalone := value);
      } else {
        var i := SkipOther(text, q);
        assert text[q..][i - q..] == text[i..];
        node, r := d, Some(i);
      }
    }

    // -------------------------------------------------------------- nodes

    /** Identify */
    method Identify(text: string, p: Position, enc: Encoding) returns (kind: Option<Kind>)
      requires InText(text, p)
      ensures kind == XmlParser.Identify(enc, At(text, p))
    {
      hide XmlText.SkipWhiteSpace, StartsWithIgnoringCase;
      var q := XmlBase.SkipWhiteSpace(text, p, enc);
      if Over(text, q) || text[q.value] != '<' { return None; }
      var isHeader := StringEqual(text, q.value, XML_HEADER, true);
      if isHeader { return Some(DeclarationKind); }
      var isComment := StringEqual(text, q.value, COMMENT_START, false);
      if isComment { return Some(CommentKind); }
      var isCdata := StringEqual(text, q.value, CDATA_START, false);
      if isCdata { return Some(CdataKind); }
      var isDtd := StringEqual(text, q.value, "<!", false);
      if isDtd { return Some(UnknownKind); }
      if q.value + 1 < |text| && IsNameStart(text[q.value + 1]) { return Some(ElementKind); }
      return Some(UnknownKind);
    }

    /** The Parse of the node that was identified. */
    method ParseNode(text: string, p: nat, kind: Kind, enc: Encoding) returns (node: Node, r: Position)
      requires p <= |text|
      modifies this`error
      ensures InText(text, r)
      ensures Parsed(node, At(text, r), error)
           == XmlParser.ParseNode(enc, condenseWhiteSpace, kind, text[p..], old(error))
      decreases |text| - p, 3
    {
      hide XmlParser.ParseElement, XmlParser.ParseCdata, XmlParser.ParseComment, XmlParser.ParseDeclaration, XmlParser.ParseUnknown;
      match kind {
        case ElementKind => node, r := ParseElement(text, p, enc);
        case CdataKind => node, r := ParseCdata(text, Some(p), enc);
        case CommentKind => node, r := ParseComment(text, Some(p), enc);
        case DeclarationKind =>
          var failed;
          node, r, failed := ParseDeclaration(text, Some(p), enc);
        case UnknownKind => node, r := ParseUnknown(text, Some(p), enc);
      }
    }

    /** TiXmlElement::Parse */
    method ParseElement(text: string, p: nat, enc: Encoding) returns (node: Node, r: Position)
      requires p <= |text|
      modifies this`error
      ensures InText(text, r)
      ensures Parsed(node, At(text, r), error)
           == XmlParser.ParseElement(enc, condenseWhiteSpace, text[p..], old(error))
      decreases |text| - p, 2
    {
      hide XmlText.SkipWhiteSpace, XmlText.ReadName, XmlParser.ParseInTag;
      var q := XmlBase.SkipWhiteSpace(text, Some(p), enc);
      if Over(text, q) || text[q.value] != '<' {
        SetError(ParsingElement);
        return Element("", [], []), None;
      }
      assert text[q.value..][1..] == text[q.value + 1..];
      q := XmlBase.SkipWhiteSpace(text, Some(q.value + 1), enc);
      var name;
      name, q := XmlBase.ReadName(text, q);
      if Over(text, q) {
        SetError(FailedToReadElementName);
        return Element(name, [], []), None;
      }
      node, r := ParseInTag(text, q.value, name, enc);
    }

    /** The loop of TiXmlElement::Parse over the attributes of the start tag. */
    method ParseInTag(text: string, p: nat, name: string, enc: Encoding) returns (node: Node, r: Position)
      requires p <= |text|
      modifies this`error
      ensures InText(text, r)
      ensures Parsed(node, At(text, r), error)
           == XmlParser.ParseInTag(enc, condenseWhiteSpace, text[p..], name, [], old(error))
      decreases |text| - p, 1
    {
      hide XmlText.SkipWhiteSpace, XmlParser.ParseAttribute, XmlParser.ReadValue, XmlParser.ReadEndTag, HasAttribute;
      var attributes, i := [], p;
      while true
        invariant p <= i <= |text|
        invariant XmlParser.ParseInTag(enc, condenseWhiteSpace, text[p..], name, [], old(error))
               == XmlParser.ParseInTag(enc, condenseWhiteSpace, text[i..], name, attributes, error)
        decreases |text| - i
      {
        var q := XmlBase.SkipWhiteSpace(text, Some(i), enc);
        if Over(text, q) {
          SetError(ReadingAttributes);
          return Element(name, attributes, []), None;
        }
        if text[q.value] == '/' {
          if q.value + 1 == |text| || text[q.value + 1] != '>' {
            SetError(ParsingEmpty);
            return Element(name, attributes, []), None;
          }
          assert text[q.value..][2..] == text[q.value + 2..];
          return Element(name, attributes, []), Some(q.value + 2);
        } else if text[q.value] == '>' {
          assert text[q.value..][1..] == text[q.value + 1..];
          var children;
          children, r := ReadValue(text, Some(q.value + 1), enc);
          r := ReadEndTag(text, r, name, enc);
          return Element(name, attributes, children), r;
        } else {
          var attrib, next := ParseAttribute(text, q, enc, true);
          if Over(text, next) {
            SetError(ParsingElement);
            return Element(name, attributes, []), None;
          }
          var double := FindAttribute(attributes, attrib.name);
          if double {
            SetError(ParsingElement);
            return Element(name, attributes, []), None;
          }
          attributes, i := attributes + [attrib], next.value;
        }
      }
    }

    /** TiXmlAttributeSet::Find */
    method FindAttribute(attributes: seq<Attribute>, name: string) returns (found: bool)
      ensures found == HasAttribute(attributes, name)
    {
      for i := 0 to |attributes|
        invariant forall j :: 0 <= j < i ==> attributes[j].name != name
      {
        if attributes[i].name == name { return true; }
      }
      return false;
    }

    /** The end tag of an element, behind its content. */
    method ReadEndTag(text: string, p: Position, name: string, enc: Encoding) returns (r: Position)
      requires InText(text, p)
      modifies this`error
      ensures InText(text, r)
      ensures (At(text, r), error) == XmlParser.ReadEndTag(enc, name, At(text, p), old(error))
    {
      hide XmlText.SkipWhiteSpace;
      if Over(text, p) {
        SetError(ReadingEndTag);
        return None;
      }
      var endTag := "</" + name;
      var isEnd := StringEqual(text, p.value, endTag, false);
      if !isEnd {
        SetError(ReadingEndTag);
        return None;
      }
      assert text[p.value..][|endTag|..] == text[p.value + |endTag|..];
      var q := XmlBase.SkipWhiteSpace(text, Some(p.value + |endTag|), enc);
      if Over(text, q) || text[q.value] != '>' {
        SetError(ReadingEndTag);
        return None;
      }
      assert text[q.value..][1..] == text[q.value + 1..];
      return Some(q.value + 1);
    }

    /** TiXmlElement::ReadValue */
    method ReadValue(text: string, start: Position, enc: Encoding) returns (nodes: seq<Node>, r: Position)
      requires InText(text, start)
      modifies this`error
      ensures InText(text, r)
      ensures ParsedNodes(nodes, At(text, r), error)
           == XmlParser.ReadValue(enc, condenseWhiteSpace, At(text, start), [], old(error))
      decreases if start.Some? then |text| - start.value else 0, 4
    {
      hide XmlParser.ReadValue, XmlParser.ParseNode, XmlParser.ParseText, XmlParser.Identify, XmlText.SkipWhiteSpace, AllWhite;
      nodes := [];
      var pWithWhiteSpace := start;
      var p := XmlBase.SkipWhiteSpace(text, start, enc);
      while !Over(text, p)
        invariant InText(text, p) && InText(text, pWithWhiteSpace)
        invariant At(text, p) == XmlText.SkipWhiteSpace(enc, At(text, pWithWhiteSpace))
        invariant p.Some? ==> pWithWhiteSpace.Some? && start.Some? && start.value <= pWithWhiteSpace.value <= p.value
        invariant XmlParser.ReadValue(enc, condenseWhiteSpace, At(text, start), [], old(error))
               == XmlParser.ReadValue(enc, condenseWhiteSpace, At(text, pWithWhiteSpace), nodes, error)
        decreases if pWithWhiteSpace.Some? then |text| + 1 - pWithWhiteSpace.value else 0
      {
        NextOfValue(enc, condenseWhiteSpace, text[pWithWhiteSpace.value..], nodes, error);
        if text[p.value] != '<' {
          var value, next := ParseText(text, if condenseWhiteSpace then p else pWithWhiteSpace, enc);
          var blank := Blank(value);
          if !blank { nodes := nodes + [Text(value)]; }
          pWithWhiteSpace := next;
        } else {
          var isEnd := StringEqual(text, p.value, "</", false);
          if isEnd { return nodes, p; }
          var kind := Identify(text, p, enc);
          if kind.None? { return nodes, None; }
          var node, next := ParseNode(text, p.value, kind.value, enc);
          nodes := nodes + [node];
          pWithWhiteSpace := next;
        }
        p := XmlBase.SkipWhiteSpace(text, pWithWhiteSpace, enc);
      }
      EndOfValue(enc, condenseWhiteSpace, At(text, pWithWhiteSpace), nodes, error);
      if p.None? { SetError(ReadingElementValue); }
      return nodes, p;
    }

    /** TiXmlText::Blank */
    method Blank(value: string) returns (blank: bool)
      ensures blank == AllWhite(value)
    {
      for i := 0 to |value|
        invariant forall j :: 0 <= j < i ==> IsWhiteSpace(value[j])
      {
        if !IsWhiteSpace(value[i]) { return false; }
      }
      return true;
    }

    // -------------------------------------------------------------- the document

    /** TiXmlDocument::Parse */
    method Parse(p: Pointer, encoding: Encoding) returns (r: Pointer)
      modifies this
      ensures ParsedNodes(children, r, error)
           == XmlParser.Parse(encoding, condenseWhiteSpace, if p.None? then "" else CStr(p.value), old(children))
      ensures useMicrosoftBom <==> old(useMicrosoftBom) || (p.Some? && encoding.UnknownEncoding? && HasByteOrderMark(CStr(p.value)))
    {
      hide CStr, XmlText.SkipWhiteSpace, XmlParser.ParseNodes;
      error := None;
      if p.None? || CStr(p.value) == "" {
        SetError(DocumentEmpty);
        return None;
      }
      var text, enc := CStr(p.value), encoding;
      if enc.UnknownEncoding? && HasByteOrderMark(text) {
        enc := Utf8Encoding;
        useMicrosoftBom := true;
      }
      assert text[0..] == text;
      var q := XmlBase.SkipWhiteSpace(text, Some(0), enc);
      q := ParseNodes(text, q, enc);
      if children == [] {
        SetError(DocumentEmpty);
        return None;
      }
      return At(text, q);
    }

    /** The loop of TiXmlDocument::Parse */
    method ParseNodes(text: string, start: Position, encoding: Encoding) returns (p: Position)
      requires InText(text, start)
      modifies this`error, this`children
      ensures InText(text, p)
      ensures ParsedNodes(children, At(text, p), error)
           == XmlParser.ParseNodes(encoding, condenseWhiteSpace, At(text, start), old(children), old(error))
    {
      hide XmlText.SkipWhiteSpace, XmlParser.ParseNode, XmlParser.Identify;
      var enc := encoding;
      p := start;
      while !Over(text, p)
        invariant InText(text, p)
        invariant XmlParser.ParseNodes(encoding, condenseWhiteSpace, At(text, start), old(children), old(error))
               == XmlParser.ParseNodes(enc, condenseWhiteSpace, At(text, p), children, error)
        decreases if p.Some? then |text| + 1 - p.value else 0
      {
        var kind := Identify(text, p, enc);
        if kind.None? { break; }
        var node;
        node, p := ParseNode(text, p.value, kind.value, enc);
        children := children + [node];
        if enc.UnknownEncoding? && node.Declaration? { enc := DeclaredEncoding(node.encoding); }
        p := XmlBase.SkipWhiteSpace(text, p, enc);
      }
    }
  }

  lemma SameWithoutReport(enc: Encoding, p: Pointer, e: FirstError)
    ensures var a, b := XmlParser.ParseAttribute(enc, p, e), XmlParser.ParseAttribute(enc, p, None);
            a.attribute == b.attribute && a.p == b.p
  {
    hide XmlText.SkipWhiteSpace, XmlText.ReadName, XmlText.ReadText, UnquotedLength;
  }
}
