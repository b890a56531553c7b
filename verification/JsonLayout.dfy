/** The layout of StyledWriter, told line by line: how deep each line stands and what is on it. */
module JsonLayout {
  import opened CString
  import opened JsonValue
  import opened JsonLexer
  import opened JsonNumber
  import opened JsonString
  import opened JsonText
  import opened JsonWriter
  import opened JsonStyledWriter

  datatype Line = Line(depth: nat, text: string)

  /** Three blanks for every level. */
  function Margin(depth: nat): string { if depth == 0 then "" else Margin(depth - 1) + [' ', ' ', ' '] }

  /** Every line behind a line feed and its margin. */
  function Rendered(lines: seq<Line>): string {
    if lines == [] then "" else "\n" + Margin(lines[0].depth) + lines[0].text + Rendered(lines[1..])
  }

  /** A value stands where its first line starts. */
  function Placed(lines: seq<Line>): string
    requires lines != []
  {
    lines[0].text + Rendered(lines[1..])
  }

  function WithComma(lines: seq<Line>): seq<Line> {
    if lines == [] then []
    else
      var n := |lines| - 1;
      lines[..n] + [Line(lines[n].depth, lines[n].text + ",")]
  }

  function Headed(head: string, lines: seq<Line>): seq<Line> {
    if lines == [] then [] else [Line(lines[0].depth, head + lines[0].text)] + lines[1..]
  }

  /** A filled object is a brace, one member after the other a level deeper, and a brace; an array
      that needs lines the same with brackets; everything else is one line. */
  function Outline(v: Value, depth: nat, d: Doubles): (lines: seq<Line>)
    requires Storable(v, d)
    ensures lines != []
    decreases v, 1
  {
    if v.Object? && v.members != [] then [Line(depth, "{")] + MemberOutlines(v.members, depth + 1, d) + [Line(depth, "}")]
    else if v.Array? && v.items != [] && NeedsLines(v.items, d) then
      [Line(depth, "[")] + ItemOutlines(v.items, depth + 1, d) + [Line(depth, "]")]
    else if v.Array? && v.items != [] then [Line(depth, "[ " + OneLine(v.items, d) + " ]")]
    else [Line(depth, ValueText(v, d))]
  }

  function ItemOutlines(items: seq<Value>, depth: nat, d: Doubles): seq<Line>
    requires AllStorable(items, d)
    decreases items, 0
  {
    if items == [] then []
    else
      var n := |items| - 1;
      WithComma(ItemOutlines(items[..n], depth, d)) + Outline(items[n], depth, d)
  }

  function MemberOutlines(ms: seq<Member>, depth: nat, d: Doubles): seq<Line>
    requires MembersStorable(ms, d)
    decreases ms, 0
  {
    if ms == [] then []
    else
      var n := |ms| - 1;
      WithComma(MemberOutlines(ms[..n], depth, d)) + Headed(Quote(ms[n].key) + " : ", Outline(ms[n].value, depth, d))
  }

  // ---------------------------------------------------------------- rendering

  lemma {:induction false} RenderedConcat(a: seq<Line>, b: seq<Line>)
    ensures Rendered(a + b) == Rendered(a) + Rendered(b)
  {
    if a == [] {
      assert a + b == b;
    } else {
      assert (a + b)[1..] == a[1..] + b;
      RenderedConcat(a[1..], b);
    }
  }

  lemma RenderedOne(line: Line)
    ensures Rendered([line]) == "\n" + Margin(line.depth) + line.text
  {
    assert [line][1..] == [];
    assert "\n" + Margin(line.depth) + line.text + "" == "\n" + Margin(line.depth) + line.text;
  }

  lemma RenderedWithComma(lines: seq<Line>)
    ensures Rendered(WithComma(lines)) == Rendered(lines) + if lines == [] then "" else ","
  {
    hide Margin, Rendered;
    if lines == [] {
      assert Rendered([]) == "" by { RenderedNothing(); }
    } else {
      var n := |lines| - 1;
      var last := lines[n];
      assert lines == lines[..n] + [last];
      RenderedConcat(lines[..n], [last]);
      RenderedConcat(lines[..n], [Line(last.depth, last.text + ",")]);
      RenderedOne(last);
      RenderedOne(Line(last.depth, last.text + ","));
    }
  }

  lemma RenderedNothing()
    ensures Rendered([]) == ""
  {
  }

  lemma RenderedPlaced(lines: seq<Line>)
    requires lines != []
    ensures Rendered(lines) == "\n" + Margin(lines[0].depth) + Placed(lines)
  {
    hide Margin;
  }

  /** Lines between two brackets. */
  lemma Bracketing(open: string, lines: seq<Line>, depth: nat, close: string)
    ensures Placed([Line(depth, open)] + lines + [Line(depth, close)]) == open + Rendered(lines) + "\n" + Margin(depth) + close
  {
    hide Margin, Rendered;
    var all := [Line(depth, open)] + lines + [Line(depth, close)];
    assert all[1..] == lines + [Line(depth, close)];
    RenderedConcat(lines, [Line(depth, close)]);
    RenderedOne(Line(depth, close));
  }

  lemma OutlineStarts(v: Value, depth: nat, d: Doubles)
    requires Storable(v, d)
    ensures Outline(v, depth, d)[0].depth == depth
  {
    hide Storable, OneLine, ValueText, NeedsLines, ItemOutlines, MemberOutlines;
  }

  /** The styled text of a value is its outline. */
  lemma {:induction false} PrettyIsOutline(v: Value, depth: nat, d: Doubles)
    requires Storable(v, d)
    ensures Pretty(v, Margin(depth), d) == Placed(Outline(v, depth, d))
    decreases v, 1
  {
    hide Lines, MemberLines, OneLine, ValueText, NeedsLines, ItemOutlines, MemberOutlines, Rendered;
    RenderedNothing();
    assert TAB == [' ', ' ', ' '];
    if v.Object? && v.members != [] {
      MemberLinesAreOutlines(v.members, depth + 1, d);
      Bracketing("{", MemberOutlines(v.members, depth + 1, d), depth, "}");
    } else if v.Array? && v.items != [] && NeedsLines(v.items, d) {
      LinesAreOutlines(v.items, depth + 1, d);
      Bracketing("[", ItemOutlines(v.items, depth + 1, d), depth, "]");
    } else {
      var line := Outline(v, depth, d)[0];
      assert Outline(v, depth, d)[1..] == [] && line.text + "" == line.text;
    }
  }

  lemma {:induction false} LinesAreOutlines(items: seq<Value>, depth: nat, d: Doubles)
    requires AllStorable(items, d)
    ensures Lines(items, Margin(depth), d) == Rendered(ItemOutlines(items, depth, d))
    ensures items != [] ==> ItemOutlines(items, depth, d) != []
    decreases items, 0
  {
    hide Storable, Pretty, Outline, Margin, Rendered, Placed, WithComma;
    RenderedNothing();
    if items != [] {
      var n := |items| - 1;
      var front, last := ItemOutlines(items[..n], depth, d), Outline(items[n], depth, d);
      LinesAreOutlines(items[..n], depth, d);
      PrettyIsOutline(items[n], depth, d);
      OutlineStarts(items[n], depth, d);
      RenderedPlaced(last);
      RenderedWithComma(front);
      RenderedConcat(WithComma(front), last);
      BreakAndLine(Rendered(front) + (if n == 0 then "" else ","), Margin(depth), Pretty(items[n], Margin(depth), d));
      if n == 0 { assert items[..n] == [] && front == []; }
    }
  }

  lemma {:induction false} MemberLinesAreOutlines(ms: seq<Member>, depth: nat, d: Doubles)
    requires MembersStorable(ms, d)
    ensures MemberLines(ms, Margin(depth), d) == Rendered(MemberOutlines(ms, depth, d))
    ensures ms != [] ==> MemberOutlines(ms, depth, d) != []
    decreases ms, 0
  {
    hide Storable, Pretty, Outline, Margin, Rendered, Quote, Placed, Headed, WithComma;
    RenderedNothing();
    if ms != [] {
      var n := |ms| - 1;
      var head, lines := Quote(ms[n].key) + " : ", Outline(ms[n].value, depth, d);
      var front, last := MemberOutlines(ms[..n], depth, d), Headed(head, lines);
      MemberLinesAreOutlines(ms[..n], depth, d);
      PrettyIsOutline(ms[n].value, depth, d);
      OutlineStarts(ms[n].value, depth, d);
      HeadedIsPlaced(head, lines);
      RenderedPlaced(last);
      RenderedWithComma(front);
      RenderedConcat(WithComma(front), last);
      var comma, line := if n == 0 then "" else ",", head + Pretty(ms[n].value, Margin(depth), d);
      assert line == MemberLine(ms[n], Margin(depth), d);
      BreakAndLine(Rendered(front) + comma, Margin(depth), line);
      if n == 0 { assert ms[..n] == [] && front == []; }
    }
  }

  lemma BreakAndLine(a: string, margin: string, line: string)
    ensures a + "\n" + margin + line == a + ("\n" + margin + line)
  {
  }

  lemma HeadedIsPlaced(head: string, lines: seq<Line>)
    requires lines != []
    ensures var all := Headed(head, lines); all != [] && all[0].depth == lines[0].depth && Placed(all) == head + Placed(lines)
  {
    hide Rendered;
    assert Headed(head, lines)[1..] == lines[1..];
  }

  // ---------------------------------------------------------------- lines and brackets

  predicate Opens(text: string) { text != "" && (text[|text| - 1] == '{' || text[|text| - 1] == '[') }

  predicate Closes(text: string) { text != "" && (text[0] == '}' || text[0] == ']') }

  /** Every line stands as deep as there are brackets open, a closing bracket as deep as its line of
      the opening one; after depth come the brackets left open at the end. */
  predicate Nested(lines: seq<Line>, depth: int, end: int) {
    if lines == [] then depth == end
    else
      var at := if Closes(lines[0].text) then depth - 1 else depth;
      lines[0].depth == at && Nested(lines[1..], if Opens(lines[0].text) then at + 1 else at, end)
  }

  lemma {:induction false} NestedConcat(a: seq<Line>, b: seq<Line>, depth: int, middle: int, end: int)
    requires Nested(a, depth, middle) && Nested(b, middle, end)
    ensures Nested(a + b, depth, end)
    decreases |a|
  {
    hide Opens, Closes;
    if a == [] {
      assert a + b == b;
    } else {
      assert (a + b)[1..] == a[1..] + b;
      var at := if Closes(a[0].text) then depth - 1 else depth;
      NestedConcat(a[1..], b, if Opens(a[0].text) then at + 1 else at, middle, end);
    }
  }

  lemma NestedOne(line: Line, depth: int)
    ensures var at := if Closes(line.text) then depth - 1 else depth;
            line.depth == at ==> Nested([line], depth, if Opens(line.text) then at + 1 else at)
  {
    hide Opens, Closes;
    assert [line][1..] == [];
  }

  /** The last line of an item or member opens nothing. */
  predicate EndsShut(lines: seq<Line>) { lines != [] && lines[|lines| - 1].text != "" && !Opens(lines[|lines| - 1].text) }

  lemma {:induction false} NestedWithComma(lines: seq<Line>, depth: int, end: int)
    requires Nested(lines, depth, end) && (lines != [] ==> EndsShut(lines))
    ensures Nested(WithComma(lines), depth, end)
    decreases |lines|
  {
    if |lines| == 1 {
      CommaStaysShut(lines[0].text);
      var l := Line(lines[0].depth, lines[0].text + ",");
      assert WithComma(lines) == [l] && lines[1..] == [];
      NestedOne(l, depth);
    } else if lines != [] {
      var at := if Closes(lines[0].text) then depth - 1 else depth;
      NestedWithComma(lines[1..], if Opens(lines[0].text) then at + 1 else at, end);
      CommaIsLast(lines);
    }
  }

  lemma CommaIsLast(lines: seq<Line>)
    requires |lines| > 1
    ensures WithComma(lines)[1..] == WithComma(lines[1..]) && WithComma(lines)[0] == lines[0]
  {
    var n := |lines| - 1;
    assert lines[1..][..n - 1] == lines[..n][1..] && lines[1..][n - 1] == lines[n];
  }

  lemma CommaStaysShut(text: string)
    requires text != ""
    ensures !Opens(text + ",") && Closes(text + ",") == Closes(text)
  {
  }

  lemma NestedHeaded(head: string, lines: seq<Line>, depth: int, end: int)
    requires Nested(lines, depth, end) && lines != [] && !Closes(lines[0].text) && lines[0].text != "" && head != "" && !Closes(head)
    ensures Nested(Headed(head, lines), depth, end) && (EndsShut(lines) ==> EndsShut(Headed(head, lines)))
  {
    hide Nested;
    var all := Headed(head, lines);
    HeadIsTransparent(head, lines[0].text);
    assert all[1..] == lines[1..];
    NestedStep(all, depth, end);
    NestedStep(lines, depth, end);
    if |lines| > 1 { assert all[|all| - 1] == lines[|lines| - 1]; }
  }

  lemma NestedStep(lines: seq<Line>, depth: int, end: int)
    requires lines != []
    ensures var at := if Closes(lines[0].text) then depth - 1 else depth;
            Nested(lines, depth, end) <==> lines[0].depth == at && Nested(lines[1..], if Opens(lines[0].text) then at + 1 else at, end)
  {
    hide Opens, Closes;
  }

  lemma HeadIsTransparent(head: string, text: string)
    requires head != "" && text != ""
    ensures Opens(head + text) == Opens(text) && Closes(head + text) == Closes(head)
  {
  }

  /** The text of a simple value opens and closes nothing. */
  lemma SimpleIsShut(v: Value, d: Doubles)
    requires Storable(v, d) && Simple(v)
    ensures var text := ValueText(v, d); text != "" && !Opens(text) && !Closes(text)
  {
    hide Compact, Quote, IntText, UIntText;
    CompactOne(Lexemes(v, d)[0], false);
    match v
    case Str(s) => QuoteStarts(s);
    case Int(i) => NumberTexts(i);
    case UInt(u) => NumberTexts(u);
    case Array(_) => StyledWriter.EmptyTexts(d);
    case Object(_) => StyledWriter.EmptyTexts(d);
    case _ =>
  }

  /** In the styled text of a value every line has a margin of three blanks for each bracket that is
      open, and as many are open at its end as at its start. */
  lemma {:induction false} OutlineIsNested(v: Value, depth: nat, d: Doubles)
    requires Storable(v, d)
    ensures var lines := Outline(v, depth, d);
            Nested(lines, depth, depth) && EndsShut(lines) && lines[0].text != "" && !Closes(lines[0].text)
    decreases v, 1
  {
    hide OneLine, ValueText, NeedsLines, ItemOutlines, MemberOutlines, Nested;
    if v.Object? && v.members != [] {
      MembersAreNested(v.members, depth + 1, d);
      BracketsAreNested("{", MemberOutlines(v.members, depth + 1, d), depth, "}");
    } else if v.Array? && v.items != [] && NeedsLines(v.items, d) {
      ItemsAreNested(v.items, depth + 1, d);
      BracketsAreNested("[", ItemOutlines(v.items, depth + 1, d), depth, "]");
    } else {
      if Simple(v) { SimpleIsShut(v, d); }
      NestedOne(Outline(v, depth, d)[0], depth);
    }
  }

  lemma BracketsAreNested(open: string, lines: seq<Line>, depth: nat, close: string)
    requires (open == "{" && close == "}") || (open == "[" && close == "]")
    requires Nested(lines, depth + 1, depth + 1)
    ensures Nested([Line(depth, open)] + lines + [Line(depth, close)], depth, depth)
  {
    hide Nested;
    NestedOne(Line(depth, open), depth);
    NestedOne(Line(depth, close), depth + 1);
    NestedConcat([Line(depth, open)], lines, depth, depth + 1, depth + 1);
    NestedConcat([Line(depth, open)] + lines, [Line(depth, close)], depth, depth + 1, depth);
  }

  lemma EndsShutBehind(a: seq<Line>, b: seq<Line>)
    requires EndsShut(b)
    ensures EndsShut(a + b)
  {
    hide Opens;
  }

  lemma {:induction false} ItemsAreNested(items: seq<Value>, depth: nat, d: Doubles)
    requires AllStorable(items, d)
    ensures var lines := ItemOutlines(items, depth, d); Nested(lines, depth, depth) && (lines != [] ==> EndsShut(lines))
    decreases items, 0
  {
    hide Storable, Outline, EndsShut;
    if items != [] {
      var n := |items| - 1;
      var front, last := ItemOutlines(items[..n], depth, d), Outline(items[n], depth, d);
      ItemsAreNested(items[..n], depth, d);
      OutlineIsNested(items[n], depth, d);
      NestedWithComma(front, depth, depth);
      NestedConcat(WithComma(front), last, depth, depth, depth);
      EndsShutBehind(WithComma(front), last);
    }
  }

  lemma {:induction false} MembersAreNested(ms: seq<Member>, depth: nat, d: Doubles)
    requires MembersStorable(ms, d)
    ensures var lines := MemberOutlines(ms, depth, d); Nested(lines, depth, depth) && (lines != [] ==> EndsShut(lines))
    decreases ms, 0
  {
    hide Storable, Outline, EndsShut, Quote;
    if ms != [] {
      var n := |ms| - 1;
      var head, lines := Quote(ms[n].key) + " : ", Outline(ms[n].value, depth, d);
      var front, last := MemberOutlines(ms[..n], depth, d), Headed(head, lines);
      MembersAreNested(ms[..n], depth, d);
      OutlineIsNested(ms[n].value, depth, d);
      QuoteStarts(ms[n].key);
      NestedHeaded(head, lines, depth, depth);
      NestedWithComma(front, depth, depth);
      NestedConcat(WithComma(front), last, depth, depth, depth);
      EndsShutBehind(WithComma(front), last);
    }
  }

  // ---------------------------------------------------------------- the right margin

  lemma {:induction false} OneLineLength(items: seq<Value>, d: Doubles)
    requires AllStorable(items, d)
    ensures |OneLine(items, d)| == TextLengths(items, d) + if items == [] then 0 else 2 * (|items| - 1)
  {
    hide Storable, ValueText;
    if items != [] { OneLineLength(items[..|items| - 1], d); }
  }

  /** An array gets lines of its own if and only if it has 25 or more items, one that is a filled
      container, or would reach column 74 on a single line. */
  lemma NeedsLinesExactly(items: seq<Value>, d: Doubles)
    requires items != [] && AllStorable(items, d)
    ensures NeedsLines(items, d) <==>
            |items| >= 25 || (exists i :: 0 <= i < |items| && items[i].Size() > 0) || |"[ " + OneLine(items, d) + " ]"| >= 74
  {
    hide Storable, ValueText, OneLine, TextLengths;
    OneLineLength(items, d);
  }
}
