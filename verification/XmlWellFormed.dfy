/** What the parser guarantees of every text: the first error stays, and a tree parsed without
    an error has proper names and unique attributes throughout. */
module XmlWellFormed {
  import opened Options
  import opened XmlText
  import opened XmlParser

  predicate ProperName(s: string) {
    s != "" && IsNameStart(s[0]) && forall i :: 0 <= i < |s| ==> IsNameChar(s[i])
  }

  predicate ProperAttributes(attributes: seq<Attribute>) {
    (forall i :: 0 <= i < |attributes| ==> ProperName(attributes[i].name)) &&
    forall i, j :: 0 <= i < j < |attributes| ==> attributes[i].name != attributes[j].name
  }

  predicate WellFormed(node: Node) {
    match node
    case Element(name, attributes, children) =>
      ProperName(name) && ProperAttributes(attributes) && AllWellFormed(children)
    case Text(value) => !AllWhite(value)
    case _ => true
  }

  predicate AllWellFormed(nodes: seq<Node>) {
    forall i :: 0 <= i < |nodes| ==> WellFormed(nodes[i])
  }

  /** An error stays the one that was recorded first. */
  ghost predicate Keeps(before: FirstError, after: FirstError) {
    before.Some? ==> after == before
  }

  lemma NameIsProper(p: Pointer)
    requires ReadName(p).1.Some?
    ensures ProperName(ReadName(p).0)
  {
  }

  lemma AttributeIsProper(enc: Encoding, p: Pointer, e: FirstError)
    ensures var a := ParseAttribute(enc, p, e);
            Keeps(e, a.error) && (a.p.Some? ==> ProperName(a.attribute.name))
  {
    hide SkipWhiteSpace, ReadName, ParseAttributeValue;
    var start := SkipWhiteSpace(enc, p);
    if !AtEnd(start) && ReadName(start).1.Some? {
      NameIsProper(start);
      var quote := SkipWhiteSpace(enc, ReadName(start).1);
      if !AtEnd(quote) {
        var value := SkipWhiteSpace(enc, Some(quote.value[1..]));
        if !AtEnd(value) { ValueKeepsError(enc, ReadName(start).0, value.value, e); }
      }
    }
  }

  lemma ValueKeepsError(enc: Encoding, name: string, s: string, e: FirstError)
    requires s != ""
    ensures var a := ParseAttributeValue(enc, name, s, e); Keeps(e, a.error) && a.attribute.name == name
  {
  }

  lemma DeclaredKeepsError(enc: Encoding, p: Pointer, d: Node, e: FirstError)
    requires d.Declaration?
    ensures Keeps(e, ParseDeclared(enc, p, d, e).error)
    decreases if p.Some? then |p.value| + 1 else 0
  {
    if !AtEnd(p) && p.value[0] != '>' {
      WhiteOrOther(enc, p.value);
      var (d', rest) := ReadDeclared(enc, p.value[WhiteLength(enc, p.value)..], d);
      DeclaredKeepsError(enc, rest, d', e);
    }
  }

  lemma EndTagKeepsError(enc: Encoding, name: string, p: Pointer, e: FirstError)
    ensures Keeps(e, ReadEndTag(enc, name, p, e).1)
  {
  }

  /** Every node is parsed with the first error kept, and properly if there is none. */
  lemma {:induction false} NodeIsWellFormed(enc: Encoding, condense: bool, kind: Kind, s: string, e: FirstError)
    ensures var r := ParseNode(enc, condense, kind, s, e);
            Keeps(e, r.error) && (r.error.None? ==> WellFormed(r.node))
    decreases |s|, 3
  {
    hide ParseElement, ParseDeclared, SkipWhiteSpace, Find, IndexOf, ReadText;
    match kind
    case ElementKind => ElementIsWellFormed(enc, condense, s, e);
    case DeclarationKind =>
      var start := SkipWhiteSpace(enc, Some(s));
      if !AtEnd(start) && StartsWithIgnoringCase(start.value, XML_HEADER) {
        DeclaredKeepsError(enc, Some(start.value[5..]), Declaration("", "", ""), e);
      }
    case _ =>
  }

  lemma {:induction false} ElementIsWellFormed(enc: Encoding, condense: bool, s: string, e: FirstError)
    ensures var r := ParseElement(enc, condense, s, e);
            Keeps(e, r.error) && (r.error.None? ==> WellFormed(r.node))
    decreases |s|, 2
  {
    hide SkipWhiteSpace, ReadName, ParseInTag, WellFormed;
    var start := SkipWhiteSpace(enc, Some(s));
    if !AtEnd(start) && start.value[0] == '<' {
      var q := SkipWhiteSpace(enc, Some(start.value[1..]));
      var (name, p) := ReadName(q);
      if !AtEnd(p) {
        NameIsProper(q);
        InTagIsWellFormed(enc, condense, p.value, name, [], e);
      }
    }
  }

  lemma AddedAttribute(attributes: seq<Attribute>, a: Attribute)
    requires ProperAttributes(attributes) && ProperName(a.name) && !HasAttribute(attributes, a.name)
    ensures ProperAttributes(attributes + [a])
  {
    var all := attributes + [a];
    forall i, j | 0 <= i < j < |all|
      ensures all[i].name != all[j].name
    {
      assert all[i] == attributes[i];
    }
  }

  lemma {:induction false} InTagIsWellFormed(enc: Encoding, condense: bool, s: string, name: string,
                                             attributes: seq<Attribute>, e: FirstError)
    requires ProperName(name) && ProperAttributes(attributes)
    ensures var r := ParseInTag(enc, condense, s, name, attributes, e);
            Keeps(e, r.error) && (r.error.None? ==> WellFormed(r.node))
    decreases |s|, 1
  {
    hide SkipWhiteSpace, ParseAttribute, ReadValue, ReadEndTag, HasAttribute, ProperName, ProperAttributes;
    var p := SkipWhiteSpace(enc, Some(s));
    if !AtEnd(p) && p.value[0] == '>' {
      ContentIsWellFormed(enc, condense, Some(p.value[1..]), [], e);
      var r := ReadValue(enc, condense, Some(p.value[1..]), [], e);
      EndTagKeepsError(enc, name, r.p, r.error);
    } else if !AtEnd(p) && p.value[0] != '/' {
      var a := ParseAttribute(enc, p, e);
      AttributeIsProper(enc, p, e);
      if !AtEnd(a.p) && !HasAttribute(attributes, a.attribute.name) {
        AddedAttribute(attributes, a.attribute);
        InTagIsWellFormed(enc, condense, a.p.value, name, attributes + [a.attribute], a.error);
      }
    }
  }

  lemma {:induction false} ContentIsWellFormed(enc: Encoding, condense: bool, p: Pointer, nodes: seq<Node>, e: FirstError)
    requires e.None? ==> AllWellFormed(nodes)
    ensures var r := ReadValue(enc, condense, p, nodes, e);
            Keeps(e, r.error) && (r.error.None? ==> AllWellFormed(r.nodes))
    decreases if p.Some? then |p.value| else 0, 4
  {
    hide SkipWhiteSpace, ParseNode, TextInElement, Identify, AllWhite;
    var q := SkipWhiteSpace(enc, p);
    if !AtEnd(q) {
      if q.value[0] != '<' {
        SkippedTo(enc, p);
        var (value, rest) := TextInElement(enc, condense, p.value, q.value);
        ContentIsWellFormed(enc, condense, rest, if AllWhite(value) then nodes else nodes + [Text(value)], e);
      } else if !("</" <= q.value) && Identify(enc, q).Some? {
        var kind := Identify(enc, q).value;
        NodeIsWellFormed(enc, condense, kind, q.value, e);
        var r := ParseNode(enc, condense, kind, q.value, e);
        ContentIsWellFormed(enc, condense, r.p, nodes + [r.node], r.error);
      }
    }
  }

  lemma SkippedTo(enc: Encoding, p: Pointer)
    requires SkipWhiteSpace(enc, p).Some?
    ensures p.Some? && p.value != "" && SkipWhiteSpace(enc, p).value == p.value[WhiteLength(enc, p.value)..]
  {
  }

  lemma {:induction false} NodesAreWellFormed(enc: Encoding, condense: bool, p: Pointer, nodes: seq<Node>, e: FirstError)
    requires e.None? ==> AllWellFormed(nodes)
    ensures var r := ParseNodes(enc, condense, p, nodes, e);
            Keeps(e, r.error) && (r.error.None? ==> AllWellFormed(r.nodes))
    decreases if p.Some? then |p.value| else 0
  {
    hide SkipWhiteSpace, ParseNode, Identify;
    if !AtEnd(p) && Identify(enc, p).Some? {
      var kind := Identify(enc, p).value;
      NodeIsWellFormed(enc, condense, kind, p.value, e);
      var r := ParseNode(enc, condense, kind, p.value, e);
      var after := EncodingAfter(enc, r.node);
      NodesAreWellFormed(after, condense, SkipWhiteSpace(after, r.p), nodes + [r.node], r.error);
    }
  }

  /** Whatever the text, a document parsed without an error is not empty and well-formed. */
  lemma DocumentIsWellFormed(enc: Encoding, condense: bool, text: string)
    ensures var r := Parse(enc, condense, text, []);
            r.error.None? ==> r.nodes != [] && AllWellFormed(r.nodes)
  {
    hide SkipWhiteSpace, ParseNodes;
    if text != "" {
      var start := if enc.UnknownEncoding? && HasByteOrderMark(text) then Utf8Encoding else enc;
      NodesAreWellFormed(start, condense, SkipWhiteSpace(start, Some(text)), [], None);
    }
  }
}
