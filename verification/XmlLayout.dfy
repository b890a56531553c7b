/** The layout of TiXmlPrinter, told line by line. */
module XmlLayout {
  import opened CString
  import opened XmlText
  import opened XmlParser
  import opened XmlPrint

  datatype Line = Line(depth: nat, text: string)

  /** Every line behind its indentation, with a line break behind it. */
  function Rendered(l: Layout, lines: seq<Line>): string {
    if lines == [] then "" else Indentation(l.indent, lines[0].depth) + (lines[0].text + (l.lineBreak + Rendered(l, lines[1..])))
  }

  /** A node without children, or with nothing but one text, is one line; any other element has its
      tags on lines of their own and its children one level deeper. */
  function Outline(node: Node, depth: nat): seq<Line>
    decreases node, 1
  {
    match node
    case Element(name, attributes, children) =>
      var tag := StartTag(name, attributes);
      if children == [] then [Line(depth, tag + " />")]
      else if |children| == 1 && children[0].Text? then [Line(depth, tag + ">" + Encode(children[0].value) + EndTag(name))]
      else [Line(depth, tag + ">")] + OutlineAll(children, depth + 1) + [Line(depth, EndTag(name))]
    case Text(value) => [Line(depth, Encode(value))]
    case Cdata(value) => [Line(depth, "<![CDATA[" + CStr(value) + "]]>")]
    case Comment(value) => [Line(depth, "<!--" + CStr(value) + "-->")]
    case Declaration(version, encoding, standalone) =>
      [Line(depth, "<?xml " + PrintDeclared("version", version) + PrintDeclared("encoding", encoding) + PrintDeclared("standalone", standalone) + "?>")]
    case Unknown(value) => [Line(depth, "<" + CStr(value) + ">")]
  }

  function OutlineAll(nodes: seq<Node>, depth: nat): seq<Line>
    decreases nodes, 0
  {
    if nodes == [] then [] else Outline(nodes[0], depth) + OutlineAll(nodes[1..], depth)
  }

  /** The indentation repeats its string once for every level. */
  lemma {:induction false} IndentationIsRepeated(indent: string, a: nat, b: nat)
    ensures Indentation(indent, a + b) == Indentation(indent, a) + Indentation(indent, b)
    ensures Indentation(indent, 0) == "" && Indentation(indent, 1) == indent
  {
    if b > 0 {
      IndentationIsRepeated(indent, a, b - 1);
      Associate(Indentation(indent, a), Indentation(indent, b - 1), indent);
    } else {
      assert Indentation(indent, a) + "" == Indentation(indent, a);
    }
    assert Indentation(indent, 1) == Indentation(indent, 0) + indent;
  }

  lemma {:induction false} RenderedConcat(l: Layout, a: seq<Line>, b: seq<Line>)
    ensures Rendered(l, a + b) == Rendered(l, a) + Rendered(l, b)
  {
    hide Indentation;
    if a == [] {
      assert a + b == b;
    } else {
      assert (a + b)[1..] == a[1..] + b;
      RenderedConcat(l, a[1..], b);
      Regrouped(Indentation(l.indent, a[0].depth), a[0].text, l.lineBreak, Rendered(l, a[1..]), Rendered(l, b));
    }
  }

  lemma Regrouped(a: string, b: string, c: string, d: string, e: string)
    ensures a + (b + (c + (d + e))) == a + (b + (c + d)) + e
  {
  }

  lemma RenderedOne(l: Layout, depth: nat, text: string)
    ensures Rendered(l, [Line(depth, text)]) == Indentation(l.indent, depth) + (text + l.lineBreak)
  {
    assert [Line(depth, text)][1..] == [] && l.lineBreak + "" == l.lineBreak;
  }

  /** A printed node is its outline. */
  lemma {:induction false} PrintIsOutline(l: Layout, depth: nat, node: Node)
    ensures PrintNode(l, depth, node) == Rendered(l, Outline(node, depth))
    decreases node, 1
  {
    hide Indentation, StartTag, EndTag, Encode, CStr, PrintDeclared, PrintNodes, OutlineAll, Rendered;
    if node.Element? && node.children != [] && !IsSimple(node.children) {
      var tag, end := StartTag(node.name, node.attributes) + ">", EndTag(node.name);
      var lines := OutlineAll(node.children, depth + 1);
      PrintAllIsOutline(l, depth + 1, node.children);
      RenderedConcat(l, [Line(depth, tag)], lines);
      RenderedConcat(l, [Line(depth, tag)] + lines, [Line(depth, end)]);
      RenderedOne(l, depth, tag);
      RenderedOne(l, depth, end);
      Bracketed(Indentation(l.indent, depth), tag, l.lineBreak, Rendered(l, lines), end);
    } else {
      RenderedOne(l, depth, Outline(node, depth)[0].text);
    }
  }

  lemma Bracketed(w: string, tag: string, br: string, inner: string, end: string)
    ensures w + (tag + br + inner + w + end + br) == w + (tag + br) + inner + (w + (end + br))
  {
  }

  lemma {:induction false} PrintAllIsOutline(l: Layout, depth: nat, nodes: seq<Node>)
    ensures PrintNodes(l, depth, nodes) == Rendered(l, OutlineAll(nodes, depth))
    decreases nodes, 0
  {
    hide PrintNode, Outline;
    if nodes != [] {
      PrintIsOutline(l, depth, nodes[0]);
      PrintAllIsOutline(l, depth, nodes[1..]);
      RenderedConcat(l, Outline(nodes[0], depth), OutlineAll(nodes[1..], depth));
    }
  }
}
