/** Whole documents by the grammar of XmlGrammar: what is read, what is refused, and the errors of
    elements that are none. */
module XmlConformance {
  import opened Options
  import opened XmlText
  import opened XmlParser
  import opened XmlWellFormed
  import opened XmlGrammar

  // ---------------------------------------------------------------- encodings

  /** The encoding of a name: UTF-8 for none and for what starts with UTF-8 or UTF8 in either case. */
  function Announced(name: string): Encoding {
    if name == "" || StartsEither(name, "utf-8", "UTF-8") || StartsEither(name, "utf8", "UTF8") then Utf8Encoding
    else LegacyEncoding
  }

  lemma SameInCapitals(s: string, lower: string, upper: string)
    requires CasePair(lower, upper)
    ensures StartsWithIgnoringCase(s, upper) <==> StartsEither(s, lower, upper)
  {
    hide StartsEither;
    EitherIsIgnoringCase(s, lower, upper);
    assert forall i :: 0 <= i < |lower| ==> Lower(upper[i]) == Lower(lower[i]);
  }

  lemma DeclaredIsAnnounced(name: string)
    ensures DeclaredEncoding(name) == Announced(name)
  {
    hide StartsEither, StartsWithIgnoringCase;
    SameInCapitals(name, "utf-8", "UTF-8");
    SameInCapitals(name, "utf8", "UTF8");
  }

  /** The encoding behind a markup: a declaration decides it if nothing has. */
  function EncodingBehind(enc: Encoding, m: Markup): Encoding {
    if enc.UnknownEncoding? && m.DeclarationMarkup? then Announced(MarkupNode(enc, true, m).encoding) else enc
  }

  lemma EncodingIsBehind(enc: Encoding, condense: bool, m: Markup)
    ensures EncodingAfter(enc, MarkupNode(enc, condense, m)) == EncodingBehind(enc, m)
  {
    hide Announced, DeclaredEncoding, EndingNodes;
    if m.DeclarationMarkup? { DeclaredIsAnnounced(MarkupNode(enc, condense, m).encoding); }
  }

  // ---------------------------------------------------------------- documents

  /** A markup of a document with the gap behind it. */
  datatype Top = Top(markup: Markup, gap: string)

  function TopsText(tops: seq<Top>): string {
    if tops == [] then "" else MarkupText(tops[0].markup) + (tops[0].gap + TopsText(tops[1..]))
  }

  function LastEncoding(enc: Encoding, tops: seq<Top>): Encoding
    decreases tops
  {
    if tops == [] then enc else LastEncoding(EncodingBehind(enc, tops[0].markup), tops[1..])
  }

  predicate AreTops(enc: Encoding, tops: seq<Top>, tail: string)
    decreases tops
  {
    tops == [] ||
    var after, t := EncodingBehind(enc, tops[0].markup), TopsText(tops[1..]) + tail;
    IsMarkup(enc, tops[0].markup, tops[0].gap + t) && IsGap(after, tops[0].gap) && !StartsGap(after, t) &&
    AreTops(after, tops[1..], tail)
  }

  function TopNodes(enc: Encoding, condense: bool, tops: seq<Top>): seq<Node>
    decreases tops
  {
    if tops == [] then []
    else [MarkupNode(enc, condense, tops[0].markup)] + TopNodes(EncodingBehind(enc, tops[0].markup), condense, tops[1..])
  }

  /** Nodes and error, whatever the pointer. */
  predicate Yields(r: ParsedNodes, nodes: seq<Node>, e: FirstError) { r.nodes == nodes && r.error == e }

  /** One turn of the loop of the document. */
  lemma TopIsRead(enc: Encoding, condense: bool, top: Top, t: string, nodes: seq<Node>, e: FirstError)
    requires var after := EncodingBehind(enc, top.markup);
             IsMarkup(enc, top.markup, top.gap + t) && IsGap(after, top.gap) && !StartsGap(after, t)
    ensures var after, nodes' := EncodingBehind(enc, top.markup), nodes + [MarkupNode(enc, condense, top.markup)];
            var p := if top.gap + t == "" then None else Some(t);
            ParseNodes(enc, condense, Some(MarkupText(top.markup) + (top.gap + t)), nodes, e) == ParseNodes(after, condense, p, nodes', e)
  {
    hide IsMarkup, MarkupText, MarkupNode, KindOf, ParseNode, Identify, EncodingAfter, EncodingBehind, IsGap, StartsGap, SkipWhiteSpace;
    MarkupIsRead(enc, condense, top.markup, top.gap + t, e);
    EncodingIsBehind(enc, condense, top.markup);
    var after := EncodingBehind(enc, top.markup);
    if top.gap + t == "" { EndIsNotSkipped(after); } else { SkipGap(after, top.gap, t); }
  }

  lemma NothingMore(enc: Encoding, condense: bool, p: Pointer, nodes: seq<Node>, e: FirstError)
    requires p.None? || p.value == ""
    ensures Yields(ParseNodes(enc, condense, p, nodes, e), nodes, e)
  {
  }

  /** What does not start with a bracket is left over. */
  lemma TailIsLeft(enc: Encoding, condense: bool, tail: string, nodes: seq<Node>, e: FirstError)
    requires tail == "" || (tail[0] != '<' && !StartsGap(enc, tail))
    ensures Yields(ParseNodes(enc, condense, Some(tail), nodes, e), nodes, e)
  {
    hide SkipWhiteSpace, StartsGap, StartsWithIgnoringCase;
    if tail != "" {
      NoGap(enc);
      assert "" + tail == tail;
      SkipGap(enc, "", tail);
    }
  }

  lemma {:induction false} TopsAreRead(enc: Encoding, condense: bool, tops: seq<Top>, tail: string, nodes: seq<Node>, e: FirstError)
    requires AreTops(enc, tops, tail) && !StartsGap(enc, TopsText(tops) + tail)
    requires tail != "" ==> tail[0] != '<'
    ensures Yields(ParseNodes(enc, condense, Some(TopsText(tops) + tail), nodes, e), nodes + TopNodes(enc, condense, tops), e)
    decreases |tops|
  {
    hide IsMarkup, MarkupText, MarkupNode, EncodingBehind, IsGap, StartsGap, ParseNodes;
    var s := TopsText(tops) + tail;
    if tops == [] {
      assert s == tail && nodes + TopNodes(enc, condense, tops) == nodes;
      TailIsLeft(enc, condense, tail, nodes, e);
    } else {
      var top := tops[0];
      var after, t := EncodingBehind(enc, top.markup), TopsText(tops[1..]) + tail;
      assert s == MarkupText(top.markup) + (top.gap + t);
      TopIsRead(enc, condense, top, t, nodes, e);
      var nodes' := nodes + [MarkupNode(enc, condense, top.markup)];
      TopsAreRead(after, condense, tops[1..], tail, nodes', e);
      assert nodes' + TopNodes(after, condense, tops[1..]) == nodes + TopNodes(enc, condense, tops);
      if top.gap + t == "" {
        NoMoreTops(after, condense, tops[1..], tail);
        NothingMore(after, condense, None, nodes', e);
      }
    }
  }

  lemma NoMoreTops(enc: Encoding, condense: bool, tops: seq<Top>, tail: string)
    requires TopsText(tops) + tail == ""
    ensures TopNodes(enc, condense, tops) == []
  {
    hide MarkupText, MarkupNode;
    if tops != [] { MarkupIsLong(tops[0].markup); }
  }

  /** The encoding a document starts with. */
  function StartEncoding(enc: Encoding, text: string): Encoding {
    if enc.UnknownEncoding? && |text| >= 3 && [text[0] as int, text[1] as int, text[2] as int] == [0xEF, 0xBB, 0xBF] then Utf8Encoding
    else enc
  }

  /** A document is a gap, markups, and a tail that is no tag; of the markups there is at least one. */
  predicate IsDocument(enc: Encoding, lead: string, tops: seq<Top>, tail: string) {
    IsGap(enc, lead) && !StartsGap(enc, TopsText(tops) + tail) && AreTops(enc, tops, tail)
  }

  lemma ParseIsLoop(enc: Encoding, condense: bool, lead: string, t: string)
    requires var start := StartEncoding(enc, lead + t); IsGap(start, lead) && !StartsGap(start, t)
    requires lead + t != ""
    ensures var start := StartEncoding(enc, lead + t);
            var r, all := ParseNodes(start, condense, Some(t), [], None), Parse(enc, condense, lead + t, []);
            if r.nodes == [] then all.nodes == [] && all.error.Some? else all == r
  {
    hide IsGap, StartsGap, SkipWhiteSpace, ParseNodes;
    SkipGap(StartEncoding(enc, lead + t), lead, t);
  }

  /** Every document of the grammar is read without an error as its nodes. */
  lemma DocumentIsRead(enc: Encoding, condense: bool, lead: string, tops: seq<Top>, tail: string)
    requires var start := StartEncoding(enc, lead + (TopsText(tops) + tail)); IsDocument(start, lead, tops, tail)
    requires tops != [] && (tail != "" ==> tail[0] != '<')
    ensures var text := lead + (TopsText(tops) + tail);
            Yields(Parse(enc, condense, text, []), TopNodes(StartEncoding(enc, text), condense, tops), None)
  {
    hide IsGap, StartsGap, AreTops, StartEncoding, Parse, ParseNodes, MarkupText;
    var t := TopsText(tops) + tail;
    var start := StartEncoding(enc, lead + t);
    MarkupIsLong(tops[0].markup);
    assert t != "";
    TopsAreRead(start, condense, tops, tail, [], None);
    assert [] + TopNodes(start, condense, tops) == TopNodes(start, condense, tops) && TopNodes(start, condense, tops) != [];
    ParseIsLoop(enc, condense, lead, t);
  }

  // ---------------------------------------------------------------- what is read without an error

  predicate HasNo(s: string, mark: string) { forall i :: 0 <= i <= |s| ==> !(mark <= s[i..]) }

  /** A comment, section, declaration or unknown tag that goes on to the end of the text; a section
      counts as open when it ends there too. */
  ghost predicate IsOpen(enc: Encoding, s: string, node: Node) {
    s != "" && s[0] == '<' &&
    match KindOf(s)
    case ElementKind => false
    case CommentKind => HasNo(s[4..], "-->") && node == Comment(s[4..])
    case CdataKind =>
      (HasNo(s[9..], "]]>") && node == Cdata(s[9..])) ||
      exists value :: MarksEnd(value, "]]>") && s[9..] == value + "]]>" && node == Cdata(value)
    case UnknownKind => '>' !in s && node == Unknown(s[1..])
    case DeclarationKind =>
      node.Declaration? && forall parts, rest :: s[5..] == PartsText(parts) + (">" + rest) ==> !AreParts(enc, parts, ">" + rest)
  }

  lemma FoundNowhere(s: string, mark: string)
    requires Find(s, mark) == |s| && mark != ""
    ensures HasNo(s, mark)
  {
    forall i | 0 <= i <= |s|
      ensures !(mark <= s[i..])
    {
      if i < |s| { assert !MarkAt(s, mark, i); }
    }
  }

  /** A node that is not closed is read to the end of the text. */
  lemma OpenIsRead(enc: Encoding, condense: bool, s: string)
    requires s != "" && s[0] == '<' && KindOf(s) != ElementKind
    requires forall m, rest :: s == MarkupText(m) + rest ==> !IsMarkup(enc, m, rest)
    ensures var r := ParseNode(enc, condense, KindOf(s), s, None);
            IsOpen(enc, s, r.node) && (r.p.None? || r.p.value == "")
  {
    hide IsMarkup, MarkupText, ParseCdata, ParseDeclaration, Find, IndexOf, KindOf, SkipWhiteSpace, StartsGap, HasNo;
    TagIsNoGap(enc, s);
    match KindOf(s)
    case CommentKind => CommentStarts(s); OpenComment(enc, s);
    case CdataKind => SectionStarts(s); OpenSection(enc, s);
    case DeclarationKind => DeclarationStarts(s); OpenDeclaration(enc, s);
    case UnknownKind => OpenUnknown(enc, s);
  }

  lemma CommentStarts(s: string)
    requires s != "" && KindOf(s) == CommentKind
    ensures "<!--" <= s
  {
  }

  lemma SectionStarts(s: string)
    requires s != "" && KindOf(s) == CdataKind
    ensures "<![CDATA[" <= s
  {
  }

  lemma DeclarationStarts(s: string)
    requires s != "" && KindOf(s) == DeclarationKind
    ensures StartsEither(s, "<?xml", "<?XML") && |s| >= 5
  {
  }

  lemma OpenComment(enc: Encoding, s: string)
    requires "<!--" <= s && forall m, rest :: s == MarkupText(m) + rest ==> !IsMarkup(enc, m, rest)
    ensures HasNo(s[4..], "-->") && Find(s[4..], "-->") == |s[4..]|
  {
    hide IsMarkup, MarkupText, Find, HasNo;
    if Find(s[4..], "-->") < |s[4..]| { var m, rest := ReadIsComment(enc, s); }
    FoundNowhere(s[4..], "-->");
  }

  lemma OpenUnknown(enc: Encoding, s: string)
    requires s != "" && s[0] == '<' && KindOf(s) == UnknownKind
    requires forall m, rest :: s == MarkupText(m) + rest ==> !IsMarkup(enc, m, rest)
    ensures '>' !in s && IndexOf(s[1..], '>') == |s[1..]|
  {
    hide IsMarkup, MarkupText, KindOf;
    if IndexOf(s[1..], '>') < |s[1..]| { var m, rest := ReadIsUnknown(enc, s); }
    assert s == [s[0]] + s[1..];
  }

  lemma OpenSection(enc: Encoding, s: string)
    requires "<![CDATA[" <= s && KindOf(s) == CdataKind && forall m, rest :: s == MarkupText(m) + rest ==> !IsMarkup(enc, m, rest)
    ensures var r := ParseCdata(enc, Some(s), None); IsOpen(enc, s, r.node) && r.p.None?
  {
    hide IsMarkup, MarkupText, Find, HasNo, MarksEnd, ReadText, KindOf;
    if ParseCdata(enc, Some(s), None).p.Some? { var m, rest := ReadIsCdata(enc, s); }
    var t := s[9..];
    var k := Find(t, "]]>");
    if k == |t| {
      FoundNowhere(t, "]]>");
      assert t[..k] == t;
    } else {
      var value, rest := FoundIsMark(t, "]]>");
      assert t == value + ("]]>" + rest) && t[..k] == value && t[k..] == "]]>" + rest;
      EndIsRead(enc, rest);
      assert value + "]]>" + "" == value + "]]>";
    }
  }

  lemma OpenDeclaration(enc: Encoding, s: string)
    requires StartsEither(s, "<?xml", "<?XML") && |s| >= 5 && s[0] == '<' && KindOf(s) == DeclarationKind
    requires forall m, rest :: s == MarkupText(m) + rest ==> !IsMarkup(enc, m, rest)
    ensures var r := ParseDeclaration(enc, Some(s), None); IsOpen(enc, s, r.node) && r.p.None?
  {
    hide MarkupText, StartsEither, ParseDeclaration, AreParts, PartsText, KindOf;
    forall parts, rest | s[5..] == PartsText(parts) + (">" + rest)
      ensures !AreParts(enc, parts, ">" + rest)
    {
      var m := DeclarationMarkup(s[..5], parts);
      HeaderOf(s);
      assert s == s[..5] + s[5..];
      assert s == MarkupText(m) + rest by { DeclarationText(s[..5], parts, rest); }
    }
    if ParseDeclaration(enc, Some(s), None).p.Some? { var m, rest := ReadIsDeclaration(enc, s); }
  }

  lemma HeaderOf(s: string)
    requires StartsEither(s, "<?xml", "<?XML") && |s| >= 5
    ensures StartsEither(s[..5], "<?xml", "<?XML")
  {
  }

  lemma DeclarationText(header: string, parts: seq<Part>, rest: string)
    ensures MarkupText(DeclarationMarkup(header, parts)) + rest == header + (PartsText(parts) + (">" + rest))
  {
    hide PartsText;
  }

  /** What stands behind the markups of a document: nothing, text that is no tag, or a node that goes
      on to the end. */
  ghost predicate IsTail(enc: Encoding, tail: string, last: seq<Node>) {
    if tail == "" || tail[0] != '<' then last == []
    else |last| == 1 && IsOpen(enc, tail, last[0])
  }

  lemma LoopKeepsError(enc: Encoding, condense: bool, p: Pointer, nodes: seq<Node>, e: FirstError)
    ensures e.Some? ==> ParseNodes(enc, condense, p, nodes, e).error.Some?
  {
    hide ParseNodes, AllWellFormed;
    if e.Some? { NodesAreWellFormed(enc, condense, p, nodes, e); }
  }

  /** One turn of the loop of the document at a tag. */
  lemma LoopStep(enc: Encoding, condense: bool, s: string, nodes: seq<Node>)
    requires s != "" && s[0] == '<'
    ensures var r := ParseNode(enc, condense, KindOf(s), s, None);
            var after := EncodingAfter(enc, r.node);
            ParseNodes(enc, condense, Some(s), nodes, None)
              == ParseNodes(after, condense, SkipWhiteSpace(after, r.p), nodes + [r.node], r.error)
  {
    hide ParseNode, Identify, KindOf, EncodingAfter, SkipWhiteSpace;
    IdentifyIsKind(enc, s);
  }

  lemma NodeHasNoError(enc: Encoding, condense: bool, s: string, nodes: seq<Node>)
    requires s != "" && s[0] == '<' && ParseNodes(enc, condense, Some(s), nodes, None).error.None?
    ensures ParseNode(enc, condense, KindOf(s), s, None).error.None?
  {
    hide ParseNodes, ParseNode, KindOf, EncodingAfter, SkipWhiteSpace;
    LoopStep(enc, condense, s, nodes);
    var r := ParseNode(enc, condense, KindOf(s), s, None);
    var after := EncodingAfter(enc, r.node);
    LoopKeepsError(after, condense, SkipWhiteSpace(after, r.p), nodes + [r.node], r.error);
  }

  /** An element without an error is markup, whatever stands behind it. */
  lemma ElementIsMarkup(enc: Encoding, condense: bool, s: string) returns (m: Markup, rest: string)
    requires s != "" && s[0] == '<' && KindOf(s) == ElementKind && ParseNode(enc, condense, KindOf(s), s, None).error.None?
    ensures IsMarkup(enc, m, rest) && s == MarkupText(m) + rest
  {
    hide IsMarkup, MarkupText, KindOf, ParseElement;
    m, rest := ReadIsElement(enc, condense, s);
  }

  /** A document that is read without an error: markups, and a tail. */
  lemma {:induction false} ReadIsTops(enc: Encoding, condense: bool, s: string, nodes: seq<Node>)
    returns (tops: seq<Top>, tail: string, last: seq<Node>)
    requires !StartsGap(enc, s) && ParseNodes(enc, condense, Some(s), nodes, None).error.None?
    ensures AreTops(enc, tops, tail) && s == TopsText(tops) + tail && IsTail(LastEncoding(enc, tops), tail, last)
    ensures ParseNodes(enc, condense, Some(s), nodes, None).nodes == nodes + (TopNodes(enc, condense, tops) + last)
    decreases |s|
  {
    hide IsMarkup, MarkupText, MarkupNode, EncodingBehind, IsGap, StartsGap, ParseNodes, ParseNode, KindOf, SkipWhiteSpace, IsOpen;
    if s == "" || s[0] != '<' {
      TailIsLeft(enc, condense, s, nodes, None);
      tops, tail, last := [], s, [];
      assert TopsText(tops) + tail == s && nodes + (TopNodes(enc, condense, tops) + last) == nodes;
    } else {
      NodeHasNoError(enc, condense, s, nodes);
      if m, rest :| s == MarkupText(m) + rest && IsMarkup(enc, m, rest) {
        tops, tail, last := ReadIsTop(enc, condense, m, rest, nodes);
      } else {
        if KindOf(s) == ElementKind { var m, rest := ElementIsMarkup(enc, condense, s); }
        tops, tail := [], s;
        last := OpenIsLast(enc, condense, s, nodes);
        assert TopsText(tops) + tail == s && nodes + (TopNodes(enc, condense, tops) + last) == nodes + last;
      }
    }
  }

  lemma OpenIsLast(enc: Encoding, condense: bool, s: string, nodes: seq<Node>) returns (last: seq<Node>)
    requires s != "" && s[0] == '<' && KindOf(s) != ElementKind
    requires forall m, rest :: s == MarkupText(m) + rest ==> !IsMarkup(enc, m, rest)
    ensures IsTail(enc, s, last) && ParseNodes(enc, condense, Some(s), nodes, None).nodes == nodes + last
  {
    hide ParseNodes, ParseNode, KindOf, MarkupText, IsMarkup, IsOpen, EncodingAfter;
    OpenIsRead(enc, condense, s);
    LoopStep(enc, condense, s, nodes);
    var r := ParseNode(enc, condense, KindOf(s), s, None);
    var after := EncodingAfter(enc, r.node);
    assert SkipWhiteSpace(after, r.p).None?;
    NothingMore(after, condense, None, nodes + [r.node], r.error);
    return [r.node];
  }

  lemma {:induction false} ReadIsTop(enc: Encoding, condense: bool, m: Markup, rest: string, nodes: seq<Node>)
    returns (tops: seq<Top>, tail: string, last: seq<Node>)
    requires IsMarkup(enc, m, rest) && ParseNodes(enc, condense, Some(MarkupText(m) + rest), nodes, None).error.None?
    ensures AreTops(enc, tops, tail) && MarkupText(m) + rest == TopsText(tops) + tail && IsTail(LastEncoding(enc, tops), tail, last)
    ensures ParseNodes(enc, condense, Some(MarkupText(m) + rest), nodes, None).nodes == nodes + (TopNodes(enc, condense, tops) + last)
    decreases |MarkupText(m) + rest|, 0
  {
    hide IsMarkup, MarkupText, MarkupNode, EncodingBehind, IsGap, StartsGap, ParseNodes, SkipWhiteSpace, IsTail;
    var after := EncodingBehind(enc, m);
    var node := MarkupNode(enc, condense, m);
    var gap, t := GapBehind(after, rest);
    assert gap + t == rest;
    TopIsRead(enc, condense, Top(m, gap), t, nodes, None);
    var more: seq<Top>;
    MarkupIsLong(m);
    if rest == "" {
      more, tail, last := [], "", [];
      NothingMore(after, condense, None, nodes + [node], None);
      assert TopsText(more) + tail == t;
    } else {
      more, tail, last := ReadIsTops(after, condense, t, nodes + [node]);
    }
    tops := [Top(m, gap)] + more;
    assert tops[1..] == more;
    if rest == "" { EndIsTail(LastEncoding(enc, tops)); }
    assert MarkupText(m) + (gap + TopsText(more)) + tail == MarkupText(m) + (gap + (TopsText(more) + tail));
    assert nodes + [node] + (TopNodes(after, condense, more) + last) == nodes + ([node] + TopNodes(after, condense, more) + last);
  }

  lemma EndIsTail(enc: Encoding)
    ensures IsTail(enc, "", [])
  {
  }

  lemma GapBehind(enc: Encoding, rest: string) returns (gap: string, t: string)
    ensures IsGap(enc, gap) && !StartsGap(enc, t) && rest == gap + t
  {
    hide IsGap, StartsGap, SkipWhiteSpace;
    if rest == "" {
      NoGap(enc);
      assert !StartsGap(enc, "") by { NothingStarts(enc); }
      return "", "";
    }
    gap, t := Skipped(enc, rest);
  }

  lemma NothingStarts(enc: Encoding)
    ensures !StartsGap(enc, "")
  {
  }

  /** Every text that is read without an error is a document of the grammar: all its elements have
      their end tags. */
  lemma DocumentIsMarkup(enc: Encoding, condense: bool, text: string)
    returns (lead: string, tops: seq<Top>, tail: string, last: seq<Node>)
    requires Parse(enc, condense, text, []).error.None?
    ensures var start := StartEncoding(enc, text);
            IsDocument(start, lead, tops, tail) && text == lead + (TopsText(tops) + tail) &&
            IsTail(LastEncoding(start, tops), tail, last) &&
            Parse(enc, condense, text, []).nodes == TopNodes(start, condense, tops) + last
  {
    hide IsGap, StartsGap, ParseNodes, SkipWhiteSpace, IsTail, MarkupText, TopsText, TopNodes, LastEncoding, AreTops;
    var start := StartEncoding(enc, text);
    var t;
    lead, t := Skipped(start, text);
    ParseIsLoop(enc, condense, lead, t);
    tops, tail, last := ReadIsTops(start, condense, t, []);
    assert [] + (TopNodes(start, condense, tops) + last) == TopNodes(start, condense, tops) + last;
  }

  // ---------------------------------------------------------------- the errors of elements

  /** The start tag of an element up to where its attributes end. */
  function StartText(lead: string, name: string, fields: seq<Field>): string { "<" + lead + name + FieldsText(fields) }

  predicate IsStart(enc: Encoding, lead: string, name: string, fields: seq<Field>, t: string) {
    IsGap(enc, lead) && IsName(name) && StartsName((lead + name)[0]) && !StartsGap(enc, name) && t != "" &&
    NameEnds(FieldsText(fields) + t) && AreFields(enc, fields, t) && DistinctNames(fields)
  }

  /** Whatever stands behind its attributes, a start tag is read up to there. */
  lemma StartIsRead(enc: Encoding, condense: bool, lead: string, name: string, fields: seq<Field>, t: string, e: FirstError)
    requires IsStart(enc, lead, name, fields, t)
    ensures var s := StartText(lead, name, fields) + t;
            s != "" && s[0] == '<' && Identify(enc, Some(s)) == Some(ElementKind) &&
            ParseNode(enc, condense, ElementKind, s, e) == ParseInTag(enc, condense, t, name, FieldAttributes(enc, fields), e)
  {
    hide ParseInTag, ParseNode, KindOf, FieldsText, AreFields, IsGap, StartsGap, IsName, NameEnds, DistinctNames, StartsName, Identify;
    var u := FieldsText(fields) + t;
    var s := "<" + (lead + (name + u));
    assert StartText(lead, name, fields) + t == s;
    NameIsNoGap(enc, name, u);
    TagIsOpened(enc, condense, lead, name, u, e);
    IdentifyIsKind(enc, s);
    NothingNamed(fields);
    FieldsAreRead(enc, condense, fields, t, name, [], e);
    assert [] + FieldAttributes(enc, fields) == FieldAttributes(enc, fields);
  }

  /** The text ends behind the name. */
  lemma NameIsCutOff(enc: Encoding, condense: bool, name: string)
    requires IsName(name) && !StartsGap(enc, name)
    ensures ParseNode(enc, condense, ElementKind, "<" + name, None).error == Some(FailedToReadElementName)
  {
    hide IsName, StartsGap, SkipWhiteSpace, ReadName;
    var s := "<" + name;
    TagIsNoGap(enc, s);
    assert s[1..] == name && "" + name == name && name + "" == name;
    NameIsLong(name);
    NoGap(enc);
    SkipGap(enc, "", name);
    NameIsRead(name, "");
  }

  /** A text without any markup: nothing, or nothing but a gap in front of what is no tag. */
  lemma DocumentIsEmpty(enc: Encoding, condense: bool, lead: string, tail: string)
    requires IsGap(StartEncoding(enc, lead + tail), lead) && !StartsGap(StartEncoding(enc, lead + tail), tail)
    requires tail == "" || tail[0] != '<'
    ensures Yields(Parse(enc, condense, lead + tail, []), [], Some(DocumentEmpty))
  {
    hide IsGap, StartsGap, SkipWhiteSpace, StartEncoding, ParseNodes;
    if lead + tail != "" {
      var start := StartEncoding(enc, lead + tail);
      StartIsKnown(enc, lead + tail);
      SkipGap(start, lead, tail);
      TailIsLeft(start, condense, tail, [], None);
    }
  }

  lemma StartIsKnown(enc: Encoding, text: string)
    ensures StartEncoding(enc, text) == if enc.UnknownEncoding? && HasByteOrderMark(text) then Utf8Encoding else enc
  {
  }

  /** The text ends within the start tag. */
  lemma StartTagIsCutOff(enc: Encoding, condense: bool, gap: string, name: string, attributes: seq<Attribute>)
    requires IsGap(enc, gap) && gap != ""
    ensures ParseInTag(enc, condense, gap, name, attributes, None).error == Some(ReadingAttributes)
  {
    hide IsGap, StartsGap, SkipWhiteSpace, ReadValue, ParseAttribute, HasAttribute;
    assert gap + "" == gap && !StartsGap(enc, "") by { NothingStarts(enc); }
    SkipGap(enc, gap, "");
  }

  /** A slash without the closing bracket. */
  lemma SlashAlone(enc: Encoding, condense: bool, gap: string, t: string, name: string, attributes: seq<Attribute>)
    requires IsGap(enc, gap) && (t == "" || t[0] != '>')
    ensures ParseInTag(enc, condense, gap + ("/" + t), name, attributes, None).error == Some(ParsingEmpty)
  {
    hide IsGap, StartsGap, SkipWhiteSpace, ReadValue, ParseAttribute, HasAttribute;
    SlashIsNoGap(enc, t);
    SkipGap(enc, gap, "/" + t);
  }

  lemma SlashIsNoGap(enc: Encoding, t: string)
    ensures !StartsGap(enc, "/" + t)
  {
  }

  /** An attribute of a name that the element has already. */
  lemma AttributeTwice(enc: Encoding, condense: bool, f: Field, t: string, name: string, attributes: seq<Attribute>)
    requires IsField(enc, f, t) && t != "" && HasAttribute(attributes, f.name)
    ensures ParseInTag(enc, condense, FieldText(f) + t, name, attributes, None).error == Some(ParsingElement)
  {
    hide IsField, IsGap, StartsGap, SkipWhiteSpace, ParseAttribute, HasAttribute, QuotingText, QuotingValue, ReadValue;
    FieldStarts(enc, f, t);
    var u := f.name + f.gap1 + "=" + f.gap2 + QuotingText(f.value) + t;
    assert IsGap(enc, f.before) by { BeforeIsGap(enc, f, t); }
    SkipGap(enc, f.before, u);
    BareField(enc, f, t);
    FieldIsRead(enc, f.(before := ""), t, None);
    assert FieldText(f.(before := "")) + t == u;
    assert FieldText(f) + t == f.before + u;
  }

  /** What is no attribute with something behind it. */
  lemma NoAttribute(enc: Encoding, condense: bool, gap: string, q: string, name: string, attributes: seq<Attribute>)
    requires IsGap(enc, gap) && !StartsGap(enc, q) && q != "" && q[0] != '/' && q[0] != '>'
    requires forall f, t :: q == FieldText(f) + t && t != "" ==> !IsField(enc, f, t)
    ensures var e := ParseInTag(enc, condense, gap + q, name, attributes, None).error;
            e == Some(ReadingAttributes) || e == Some(ParsingElement)
  {
    hide IsField, FieldText, IsGap, StartsGap, SkipWhiteSpace, ReadValue, HasAttribute, ReadName, ParseAttributeValue;
    SkipGap(enc, gap, q);
    AttributeErrors(enc, q);
    var a := ParseAttribute(enc, Some(q), None);
    if !AtEnd(a.p) {
      var f, t := ReadIsField(enc, q, None);
      FieldIsRead(enc, f, t, None);
    }
  }

  lemma AttributeErrors(enc: Encoding, q: string)
    ensures var e := ParseAttribute(enc, Some(q), None).error; e == None || e == Some(ReadingAttributes)
  {
    hide SkipWhiteSpace, ReadName, ReadText, UnquotedLength;
  }

  /** The text ends within the content, with or without a gap. */
  lemma ContentIsCutOff(enc: Encoding, condense: bool, gap: string, pieces: seq<Piece>, behind: string, name: string, attributes: seq<Attribute>)
    requires IsGap(enc, gap) && IsGap(enc, behind) && ArePieces(enc, pieces, behind)
    ensures ParseInTag(enc, condense, gap + (">" + (PiecesText(pieces) + behind)), name, attributes, None).error
         == Some(if behind == "" then ReadingElementValue else ReadingEndTag)
  {
    hide IsGap, StartsGap, SkipWhiteSpace, ReadValue, ParseAttribute, HasAttribute, ArePieces, PiecesText, PieceNodes;
    var t := PiecesText(pieces) + behind;
    BracketIsNoGap(enc, t);
    SkipGap(enc, gap, ">" + t);
    assert (">" + t)[1..] == t;
    PiecesAreRead(enc, condense, pieces, behind, [], None);
    EndOfContent(enc, condense, behind, [] + PieceNodes(enc, condense, pieces));
  }

  lemma EndOfContent(enc: Encoding, condense: bool, behind: string, nodes: seq<Node>)
    requires IsGap(enc, behind)
    ensures var r := ReadValue(enc, condense, Some(behind), nodes, None);
            if behind == "" then r.error == Some(ReadingElementValue) && r.p.None? else r.error == None && r.p == Some("")
  {
    hide IsGap, StartsGap, SkipWhiteSpace;
    EndIsNotSkipped(enc);
    NothingStarts(enc);
    assert behind + "" == behind;
    if behind != "" { SkipGap(enc, behind, ""); }
  }

  /** The element is closed by anything but its own end tag: another name, or no bracket behind it. */
  lemma OtherEndTag(enc: Encoding, condense: bool, gap: string, pieces: seq<Piece>, behind: string, end: string, name: string,
                    attributes: seq<Attribute>)
    requires IsGap(enc, gap) && IsGap(enc, behind) && ArePieces(enc, pieces, behind + end) && "</" <= end
    requires forall gap2, rest :: end == EndTagText(name, gap2) + rest ==> !IsGap(enc, gap2)
    ensures ParseInTag(enc, condense, gap + (">" + (PiecesText(pieces) + (behind + end))), name, attributes, None).error
         == Some(ReadingEndTag)
  {
    hide IsGap, StartsGap, SkipWhiteSpace, ReadValue, ReadEndTag, ParseAttribute, HasAttribute, ArePieces, PiecesText, PieceNodes, EndTagText;
    var t := PiecesText(pieces) + (behind + end);
    BracketIsNoGap(enc, t);
    SkipGap(enc, gap, ">" + t);
    assert (">" + t)[1..] == t;
    PiecesAreRead(enc, condense, pieces, behind + end, [], None);
    ContentEnds(enc, condense, behind, end, [] + PieceNodes(enc, condense, pieces), None);
    EndTagErrors(enc, name, end);
    if ReadEndTag(enc, name, Some(end), None).1.None? { var gap2, rest := ReadIsEndTag(enc, name, end); }
  }

  lemma EndTagErrors(enc: Encoding, name: string, end: string)
    ensures var e := ReadEndTag(enc, name, Some(end), None).1; e == None || e == Some(ReadingEndTag)
  {
  }

  /** The element a closed by an end tag of b. */
  lemma ClosedByAnother(enc: Encoding, condense: bool)
    ensures ParseNode(enc, condense, ElementKind, "<a></b>", None).error == Some(ReadingEndTag)
  {
    hide ParseNode, ParseInTag, IsGap, StartsGap;
    NoGap(enc);
    var t := "></b>";
    assert IsStart(enc, "", "a", [], t) by { LetterIsStart(enc, t); }
    StartIsRead(enc, condense, "", "a", [], t, None);
    assert StartText("", "a", []) + t == "<a></b>";
    forall gap2, rest
      ensures "</b>" != EndTagText("a", gap2) + rest
    {
      EndTagHasName(gap2, rest);
    }
    OtherEndTag(enc, condense, "", [], "", "</b>", "a", []);
    assert PiecesText([]) == "" by { NoPieces(); }
    assert "" + (">" + ("" + ("" + "</b>"))) == t;
  }

  lemma EndTagHasName(gap: string, rest: string)
    ensures (EndTagText("a", gap) + rest)[2] == 'a'
  {
  }

  lemma LetterIsStart(enc: Encoding, t: string)
    requires t != "" && t[0] == '>'
    ensures IsStart(enc, "", "a", [], t)
  {
    assert FieldsText([]) + t == t;
  }

  lemma NoPieces()
    ensures PiecesText([]) == ""
  {
  }

  /** The first error of anything inside an element is the error of the whole. */
  lemma FirstErrorStays(enc: Encoding, condense: bool, gap: string, pieces: seq<Piece>, before: string, s: string, name: string,
                        attributes: seq<Attribute>)
    requires IsGap(enc, gap) && IsGap(enc, before) && ArePieces(enc, pieces, before + s)
    requires s != "" && s[0] == '<' && !("</" <= s) && ParseNode(enc, condense, KindOf(s), s, None).error.Some?
    ensures ParseInTag(enc, condense, gap + (">" + (PiecesText(pieces) + (before + s))), name, attributes, None).error
         == ParseNode(enc, condense, KindOf(s), s, None).error
  {
    hide IsGap, StartsGap, SkipWhiteSpace, ReadValue, ReadEndTag, ParseAttribute, HasAttribute, ArePieces, PiecesText, PieceNodes, ParseNode,
         KindOf, AllWellFormed, Identify;
    var t := PiecesText(pieces) + (before + s);
    BracketIsNoGap(enc, t);
    SkipGap(enc, gap, ">" + t);
    assert (">" + t)[1..] == t;
    PiecesAreRead(enc, condense, pieces, before + s, [], None);
    var nodes := [] + PieceNodes(enc, condense, pieces);
    IdentifyIsKind(enc, s);
    TagIsAdded(enc, condense, before, s, nodes, None);
    var r := ParseNode(enc, condense, KindOf(s), s, None);
    ContentIsWellFormed(enc, condense, r.p, nodes + [r.node], r.error);
    var c := ReadValue(enc, condense, r.p, nodes + [r.node], r.error);
    EndTagKeepsError(enc, name, c.p, c.error);
  }
}
