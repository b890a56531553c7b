/** TiXmlPrinter: the visitor, proved to append what the functions of XmlPrint say. */
module XmlPrinter {
  import opened CString
  import opened XmlText
  import opened XmlParser
  import opened XmlPrint
  import XmlAttributes
  import XmlBase

  class Printer {
    var depth: nat
    var simpleTextPrint: bool
    var buffer: string
    var indent: string
    var lineBreak: string

    constructor ()
      ensures depth == 0 && !simpleTextPrint && buffer == ""
      ensures CurrentLayout() == Layout("    ", "\n")
    {
      depth, simpleTextPrint, buffer, indent, lineBreak := 0, false, "", "    ", "\n";
    }

    function CurrentLayout(): Layout
      reads this`indent, this`lineBreak
    {
      Layout(indent, lineBreak)
    }

    method SetLayout(l: Layout)
      modifies this`indent, this`lineBreak
      ensures CurrentLayout() == l
    {
      indent, lineBreak := l.indent, l.lineBreak;
    }

    method SetStreamPrinting()
      modifies this`indent, this`lineBreak
      ensures CurrentLayout() == Layout("", "")
    {
      indent, lineBreak := "", "";
    }

    method DoIndent()
      modifies this`buffer
      ensures buffer == old(buffer) + Indentation(indent, depth)
    {
      assert buffer + "" == buffer;
      for i := 0 to depth
        invariant buffer == old(buffer) + Indentation(indent, i)
      {
        Associate(old(buffer), Indentation(indent, i), indent);
        buffer := buffer + indent;
      }
    }

    method DoLineBreak()
      modifies this`buffer
      ensures buffer == old(buffer) + lineBreak
    {
      buffer := buffer + lineBreak;
    }

    /** TiXmlAttribute::Print into the buffer */
    method PrintAttribute(a: Attribute)
      modifies this`buffer
      ensures buffer == old(buffer) + XmlPrint.PrintAttribute(a)
    {
      hide Encode;
      var n := XmlBase.EncodeString(a.name);
      var v := XmlBase.EncodeString(a.value);
      if '\"' !in a.value {
        buffer := buffer + n + "=\"" + v + "\"";
        Regroup(old(buffer), n, "=\"", v, "\"");
        Associate(n, "=", "\"");
      } else {
        buffer := buffer + n + "='" + v + "'";
        Regroup(old(buffer), n, "='", v, "'");
        Associate(n, "=", "'");
      }
    }

    /** The attributes of a start tag, as far as First and Next show them. */
    method PrintAttributes(attributes: seq<Attribute>)
      modifies this`buffer
      ensures buffer == old(buffer) + XmlPrint.PrintAttributes(Shown(attributes))
    {
      hide XmlPrint.PrintAttribute, XmlPrint.PrintAttributes, XmlAttributes.Seen;
      XmlAttributes.NoneSeen();
      var i := 0;
      NoAttributes(buffer, attributes);
      while i < |attributes| && (i == 0 || !XmlAttributes.Blank(attributes[i]))
        invariant 0 <= i <= |attributes|
        invariant buffer == old(buffer) + XmlPrint.PrintAttributes(attributes[..i])
        invariant forall j :: 1 <= j < i ==> !XmlAttributes.Blank(attributes[j])
      {
        NextAttribute(old(buffer), attributes, i);
        buffer := buffer + " ";
        PrintAttribute(attributes[i]);
        i := i + 1;
      }
      if attributes == [] { assert attributes[..i] == Shown(attributes); } else { XmlAttributes.SeenUpTo(attributes, i); }
    }

    /** VisitEnter of an element */
    method VisitEnter(element: Node)
      requires element.Element? && !simpleTextPrint
      modifies this`depth, this`simpleTextPrint, this`buffer
      ensures depth == old(depth) + 1 && simpleTextPrint == IsSimple(element.children)
      ensures buffer == old(buffer) + Indentation(indent, old(depth)) + Opening(CurrentLayout(), element)
    {
      hide Indentation, CStr, XmlPrint.PrintAttributes;
      DoIndent();
      ghost var start, tag := buffer, StartTag(element.name, element.attributes);
      buffer := buffer + "<";
      buffer := buffer + CStr(element.name);
      PrintAttributes(element.attributes);
      Regroup(start, "<", CStr(element.name), XmlPrint.PrintAttributes(Shown(element.attributes)), "");
      if element.children == [] {
        buffer := buffer + " />";
        DoLineBreak();
        Regroup(start, tag, " />", lineBreak, "");
      } else {
        buffer := buffer + ">";
        if IsSimple(element.children) {
          simpleTextPrint := true;
          Associate(start, tag, ">");
        } else {
          DoLineBreak();
          Regroup(start, tag, ">", lineBreak, "");
        }
      }
      depth := depth + 1;
    }

    /** VisitExit of an element */
    method VisitExit(element: Node)
      requires element.Element? && depth > 0 && simpleTextPrint == IsSimple(element.children)
      modifies this`depth, this`simpleTextPrint, this`buffer
      ensures depth == old(depth) - 1 && !simpleTextPrint
      ensures buffer == old(buffer) + Closing(CurrentLayout(), depth, element)
    {
      hide Indentation, CStr;
      depth := depth - 1;
      if element.children != [] {
        if simpleTextPrint {
          simpleTextPrint := false;
        } else {
          DoIndent();
        }
        ghost var start := buffer;
        buffer := buffer + "</";
        buffer := buffer + CStr(element.name);
        buffer := buffer + ">";
        DoLineBreak();
        Regroup(start, "</", CStr(element.name), ">", lineBreak);
        Associate(old(buffer), Indentation(indent, depth), EndTag(element.name) + lineBreak);
      }
    }

    method VisitText(value: string)
      modifies this`buffer
      ensures buffer == if simpleTextPrint then old(buffer) + Encode(value)
                        else old(buffer) + Indentation(indent, depth) + (Encode(value) + lineBreak)
    {
      hide Encode, Indentation;
      if simpleTextPrint {
        var str := XmlBase.EncodeString(value);
        buffer := buffer + str;
      } else {
        DoIndent();
        ghost var start := buffer;
        var str := XmlBase.EncodeString(value);
        buffer := buffer + str;
        DoLineBreak();
        Associate(start, str, lineBreak);
      }
    }

    /** CDATA sections, comments and unknown tags: the value between two marks. */
    method VisitMarked(opening: string, value: string, closing: string)
      modifies this`buffer
      ensures buffer == old(buffer) + Indentation(indent, depth) + (opening + CStr(value) + closing + lineBreak)
    {
      hide CStr, Indentation;
      DoIndent();
      ghost var start := buffer;
      buffer := buffer + opening;
      buffer := buffer + CStr(value);
      buffer := buffer + closing;
      DoLineBreak();
      Regroup(start, opening, CStr(value), closing, lineBreak);
    }

    method VisitDeclaration(declaration: Node)
      requires declaration.Declaration?
      modifies this`buffer
      ensures buffer == old(buffer) + Indentation(indent, depth) + Body(CurrentLayout(), depth, declaration)
    {
      hide Indentation, XmlPrint.PrintDeclared;
      DoIndent();
      ghost var start := buffer;
      buffer := buffer + "<?xml ";
      PrintDeclared("version", declaration.version);
      PrintDeclared("encoding", declaration.encoding);
      PrintDeclared("standalone", declaration.standalone);
      buffer := buffer + "?>";
      DoLineBreak();
      ghost var v, e, s := XmlPrint.PrintDeclared("version", declaration.version),
                           XmlPrint.PrintDeclared("encoding", declaration.encoding),
                           XmlPrint.PrintDeclared("standalone", declaration.standalone);
      Regroup(start, "<?xml ", v, e, s);
      Regroup(start, "<?xml " + v + e + s, "?>", lineBreak, "");
    }

    method PrintDeclared(name: string, value: string)
      modifies this`buffer
      ensures buffer == old(buffer) + XmlPrint.PrintDeclared(name, value)
    {
      if value != "" {
        buffer := buffer + name + "=\"" + value + "\" ";
        Regroup(old(buffer), name, "=\"", value, "\" ");
      }
      assert old(buffer) + "" == old(buffer);
    }

    /** Accept: the node and everything below it. Depth and flag are as before. */
    method Accept(node: Node)
      requires simpleTextPrint ==> node.Text?
      modifies this`depth, this`simpleTextPrint, this`buffer
      ensures depth == old(depth) && simpleTextPrint == old(simpleTextPrint)
      ensures buffer == old(buffer) + if simpleTextPrint then Encode(node.value) else PrintNode(CurrentLayout(), depth, node)
      decreases node, 1
    {
      hide Encode, Indentation, StartTag, EndTag, CStr, Body;
      ghost var start := old(buffer) + Indentation(indent, depth);
      Associate(old(buffer), Indentation(indent, depth), Body(CurrentLayout(), depth, node));
      LeafBody(CurrentLayout(), depth, node);
      match node {
        case Element(name, attributes, children) =>
          VisitEnter(node);
          ghost var opening, before := Opening(CurrentLayout(), node), buffer;
          AcceptAll(children);
          ghost var inner := Inner(CurrentLayout(), depth, children);
          VisitExit(node);
          Regroup(start, opening, inner, Closing(CurrentLayout(), depth, node), "");
          ElementBody(CurrentLayout(), depth, node);
        case Text(value) => VisitText(value);
        case Cdata(value) => VisitMarked("<![CDATA[", value, "]]>");
        case Comment(value) => VisitMarked("<!--", value, "-->");
        case Declaration(_, _, _) => VisitDeclaration(node);
        case Unknown(value) => VisitMarked("<", value, ">");
      }
    }

    /** The children of an element or a document, one after the other. */
    method AcceptAll(nodes: seq<Node>)
      requires simpleTextPrint ==> IsSimple(nodes)
      modifies this`depth, this`simpleTextPrint, this`buffer
      ensures depth == old(depth) && simpleTextPrint == old(simpleTextPrint)
      ensures buffer == old(buffer) + if simpleTextPrint then Encode(nodes[0].value) else PrintNodes(CurrentLayout(), depth, nodes)
      decreases nodes, 0
    {
      hide Encode, PrintNode;
      ghost var flag, l, start := simpleTextPrint, CurrentLayout(), buffer;
      var i := 0;
      assert nodes[0..] == nodes;
      while i < |nodes|
        invariant 0 <= i <= |nodes| && depth == old(depth) && simpleTextPrint == flag
        invariant !flag ==> buffer + PrintNodes(l, depth, nodes[i..]) == start + PrintNodes(l, depth, nodes)
        invariant flag ==> buffer == if i == 0 then start else start + Encode(nodes[0].value)
      {
        ghost var before := buffer;
        Accept(nodes[i]);
        assert nodes[i..][1..] == nodes[i + 1..];
        Associate(before, PrintNode(l, depth, nodes[i]), PrintNodes(l, depth, nodes[i + 1..]));
        i := i + 1;
      }
      assert nodes[i..] == [];
      assert buffer + "" == buffer;
    }
  }

  lemma Regroup(a: string, b: string, c: string, d: string, e: string)
    ensures a + b + c + d + e == a + (b + c + d + e)
    ensures a + b + c + d == a + (b + c + d)
  {
  }

  lemma NextAttribute(before: string, attributes: seq<Attribute>, i: nat)
    requires i < |attributes|
    ensures before + PrintAttributes(attributes[..i]) + " " + PrintAttribute(attributes[i])
         == before + PrintAttributes(attributes[..i + 1])
  {
    hide PrintAttribute, PrintAttributes;
    assert attributes[..i + 1] == attributes[..i] + [attributes[i]];
    AppendAttribute(attributes[..i], attributes[i]);
    Regroup(before, PrintAttributes(attributes[..i]), " ", PrintAttribute(attributes[i]), "");
  }

  lemma {:induction false} AppendAttribute(attributes: seq<Attribute>, a: Attribute)
    ensures PrintAttributes(attributes + [a]) == PrintAttributes(attributes) + " " + PrintAttribute(a)
  {
    hide PrintAttribute;
    if attributes == [] {
      assert [a][1..] == [];
      assert PrintAttributes([a]) == " " + PrintAttribute(a) + "";
    } else {
      assert (attributes + [a])[1..] == attributes[1..] + [a];
      AppendAttribute(attributes[1..], a);
      Regroup(" " + PrintAttribute(attributes[0]), PrintAttributes(attributes[1..]), " ", PrintAttribute(a), "");
    }
  }

  lemma NoAttributes(buffer: string, attributes: seq<Attribute>)
    ensures buffer + PrintAttributes(attributes[..0]) == buffer
  {
  }

  // ---------------------------------------------------------------- an element in three parts

  function Opening(l: Layout, element: Node): string
    requires element.Element?
  {
    StartTag(element.name, element.attributes) +
    if element.children == [] then " />" + l.lineBreak
    else if IsSimple(element.children) then ">" else ">" + l.lineBreak
  }

  function Inner(l: Layout, depth: nat, children: seq<Node>): string {
    if IsSimple(children) then Encode(children[0].value) else PrintNodes(l, depth, children)
  }

  function Closing(l: Layout, depth: nat, element: Node): string
    requires element.Element?
  {
    if element.children == [] then ""
    else (if IsSimple(element.children) then "" else Indentation(l.indent, depth)) + (EndTag(element.name) + l.lineBreak)
  }

  lemma ElementBody(l: Layout, depth: nat, element: Node)
    requires element.Element?
    ensures Body(l, depth, element)
         == Opening(l, element) + Inner(l, depth + 1, element.children) + Closing(l, depth, element)
  {
    hide StartTag, EndTag, Encode, Indentation, PrintNodes;
    var start, end := StartTag(element.name, element.attributes), EndTag(element.name);
    if element.children == [] {
      PrintsNothing(l, depth + 1);
    } else if IsSimple(element.children) {
      assert "" + (end + l.lineBreak) == end + l.lineBreak;
      Associate(start + ">" + Encode(element.children[0].value), end, l.lineBreak);
    } else {
      var inner, w := PrintNodes(l, depth + 1, element.children), Indentation(l.indent, depth);
      Associate(start, ">", l.lineBreak);
      Associate(start + ">" + l.lineBreak + inner, w, end + l.lineBreak);
      Associate(start + ">" + l.lineBreak + inner + w, end, l.lineBreak);
    }
  }

  lemma PrintsNothing(l: Layout, depth: nat)
    ensures PrintNodes(l, depth, []) == ""
  {
  }

  lemma LeafBody(l: Layout, depth: nat, node: Node)
    ensures match node
            case Text(value) => Body(l, depth, node) == Encode(value) + l.lineBreak
            case Cdata(value) => Body(l, depth, node) == "<![CDATA[" + CStr(value) + "]]>" + l.lineBreak
            case Comment(value) => Body(l, depth, node) == "<!--" + CStr(value) + "-->" + l.lineBreak
            case Unknown(value) => Body(l, depth, node) == "<" + CStr(value) + ">" + l.lineBreak
            case _ => true
  {
  }
}
