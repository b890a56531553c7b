/** What TiXmlPrinter makes of a node, as functions. */
module XmlPrint {
  import opened CString
  import opened XmlText
  import opened XmlParser
  import XmlAttributes

  datatype Layout = Layout(indent: string, lineBreak: string)

  function Indentation(indent: string, depth: nat): string {
    if depth == 0 then "" else Indentation(indent, depth - 1) + indent
  }

  /** TiXmlAttribute::Print */
  function PrintAttribute(a: Attribute): string {
    var quote := if '\"' in a.value then "'" else "\"";
    Encode(a.name) + "=" + quote + Encode(a.value) + quote
  }

  function PrintAttributes(attributes: seq<Attribute>): string {
    if attributes == [] then ""
    else " " + PrintAttribute(attributes[0]) + PrintAttributes(attributes[1..])
  }

  /** A single child of plain text stays on the line of its element. */
  predicate IsSimple(children: seq<Node>) {
    |children| == 1 && children[0].Text?
  }

  /** The attributes that First and Next show. */
  function Shown(attributes: seq<Attribute>): seq<Attribute> { attributes[..XmlAttributes.Seen(attributes)] }

  function StartTag(name: string, attributes: seq<Attribute>): string {
    "<" + CStr(name) + PrintAttributes(Shown(attributes))
  }

  function EndTag(name: string): string {
    "</" + CStr(name) + ">"
  }

  function PrintDeclared(name: string, value: string): string {
    if value == "" then "" else name + "=\"" + value + "\" "
  }

  /** What a node looks like behind its indentation. */
  function Body(l: Layout, depth: nat, node: Node): string
    decreases node, 0
  {
    match node
    case Element(name, attributes, children) =>
      if children == [] then StartTag(name, attributes) + " />" + l.lineBreak
      else if IsSimple(children) then
        StartTag(name, attributes) + ">" + Encode(children[0].value) + EndTag(name) + l.lineBreak
      else
        StartTag(name, attributes) + ">" + l.lineBreak + PrintNodes(l, depth + 1, children) +
        Indentation(l.indent, depth) + EndTag(name) + l.lineBreak
    case Text(value) => Encode(value) + l.lineBreak
    case Cdata(value) => "<![CDATA[" + CStr(value) + "]]>" + l.lineBreak
    case Comment(value) => "<!--" + CStr(value) + "-->" + l.lineBreak
    case Declaration(version, encoding, standalone) =>
      "<?xml " + PrintDeclared("version", version) + PrintDeclared("encoding", encoding) +
      PrintDeclared("standalone", standalone) + "?>" + l.lineBreak
    case Unknown(value) => "<" + CStr(value) + ">" + l.lineBreak
  }

  function PrintNode(l: Layout, depth: nat, node: Node): string
    decreases node, 1
  {
    Indentation(l.indent, depth) + Body(l, depth, node)
  }

  function PrintNodes(l: Layout, depth: nat, nodes: seq<Node>): string
    decreases nodes, 0
  {
    if nodes == [] then "" else PrintNode(l, depth, nodes[0]) + PrintNodes(l, depth, nodes[1..])
  }
}
