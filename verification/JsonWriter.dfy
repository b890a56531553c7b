/** FastWriter and StyledWriter. The compact text of a value is its tokens put side by side;
    the pretty text spells the same tokens with white space between them. */
module JsonWriter {
  import opened CString
  import opened JsonValue
  import opened JsonLexer
  import opened JsonNumber
  import opened JsonString
  import opened JsonText

  // ---------------------------------------------------------------- compact text

  /** The token as the compact writer puts it; the YAML mode has a space behind a colon. */
  function CompactToken(t: Token, yaml: bool): string {
    if yaml && t.kind == MemberSeparator then t.text + " " else t.text
  }

  function Compact(toks: seq<Token>, yaml: bool): string {
    if toks == [] then "" else CompactToken(toks[0], yaml) + Compact(toks[1..], yaml)
  }

  lemma CompactNothing(yaml: bool)
    ensures Compact([], yaml) == ""
  {
  }

  lemma {:induction false} CompactConcat(a: seq<Token>, b: seq<Token>, yaml: bool)
    ensures Compact(a + b, yaml) == Compact(a, yaml) + Compact(b, yaml)
  {
    if a == [] {
      assert a + b == b;
    } else {
      assert (a + b)[1..] == a[1..] + b;
      CompactConcat(a[1..], b, yaml);
    }
  }

  lemma CompactOne(t: Token, yaml: bool)
    ensures Compact([t], yaml) == CompactToken(t, yaml)
  {
    assert Compact([t][1..], yaml) == "";
  }

  /** A token the writers produce. */
  ghost predicate Writable(t: Token) {
    IsFixedToken(t) || (t.kind == NumberToken && IsNumberText(t.text)) ||
    (t.kind == StringToken && exists s :: t.text == Quote(s))
  }

  /** Tokens that can be written side by side: no two numbers meet. */
  ghost predicate Separable(toks: seq<Token>) {
    (forall i :: 0 <= i < |toks| ==> Writable(toks[i])) &&
    (forall i :: 0 < i < |toks| ==> toks[i - 1].kind != NumberToken || toks[i].kind != NumberToken)
  }

  lemma SeparableConcat(a: seq<Token>, b: seq<Token>)
    requires Separable(a) && Separable(b)
    requires a == [] || b == [] || a[|a| - 1].kind != NumberToken || b[0].kind != NumberToken
    ensures Separable(a + b)
  {
    var c := a + b;
    forall i | 0 < i < |c|
      ensures c[i - 1].kind != NumberToken || c[i].kind != NumberToken
    {
      if i > |a| { assert c[i - 1] == b[i - 1 - |a|] && c[i] == b[i - |a|]; }
    }
  }

  lemma WritableSpells(t: Token, yaml: bool)
    requires Writable(t)
    ensures CompactToken(t, yaml) != "" && Spells(CompactToken(t, yaml), [t])
    ensures t.kind != NumberToken ==> Closed(CompactToken(t, yaml), [t])
    ensures t.kind != NumberToken ==> Boundary(CompactToken(t, yaml))
  {
    hide Closed, Spells, Quote;
    if IsFixedToken(t) {
      FixedIsClosed(t);
      ClosedSpells(t.text, [t]);
      if yaml && t.kind == MemberSeparator {
        SpaceSpellsNothing(" ");
        ClosedThenSpace(t.text, [t]);
        ClosedSpells(t.text + " ", [t]);
      }
    } else if t.kind == NumberToken {
      NumberSpells(t.text);
    } else {
      var s :| t.text == Quote(s);
      QuotedIsClosed(s);
      ClosedSpells(t.text, [t]);
      QuoteStarts(s);
    }
  }

  lemma ClosedThenSpace(s: string, toks: seq<Token>)
    requires Closed(s, toks)
    ensures Closed(s + " ", toks)
  {
    SpaceSpellsNothing(" ");
    ClosedSpells(" ", []);
    ClosedThenSpells(s, toks, " ", []);
    assert toks + [] == toks;
  }

  lemma QuoteStarts(s: string)
    ensures Quote(s) != "" && Quote(s)[0] == QUOTE && Quote(s)[|Quote(s)| - 1] == QUOTE
  {
  }

  /** The compact text of separable tokens is read as those tokens. */
  lemma {:induction false} CompactSpells(toks: seq<Token>, yaml: bool)
    requires Separable(toks)
    ensures Spells(Compact(toks, yaml), toks)
    ensures toks != [] && toks[0].kind != NumberToken ==> Compact(toks, yaml) != "" && Boundary(Compact(toks, yaml))
    ensures toks != [] && toks[|toks| - 1].kind != NumberToken ==> Closed(Compact(toks, yaml), toks)
  {
    hide Closed, Spells, Writable;
    if toks == [] {
      SpaceSpellsNothing("");
      ClosedSpells("", []);
    } else {
      var t, rest := toks[0], toks[1..];
      assert toks == [t] + rest;
      WritableSpells(t, yaml);
      CompactSpells(rest, yaml);
      var a, b := CompactToken(t, yaml), Compact(rest, yaml);
      if rest == [] {
        assert a + b == a && [t] + rest == [t];
      } else if t.kind != NumberToken {
        ClosedThenSpells(a, [t], b, rest);
      } else {
        SpellsThenSpells(a, [t], b, rest);
      }
    }
  }

  lemma SpellsThenSpells(a: string, ta: seq<Token>, b: string, tb: seq<Token>)
    requires Spells(a, ta) && Spells(b, tb)
    requires b != "" && Boundary(b)
    ensures Spells(a + b, ta + tb)
    ensures Closed(b, tb) ==> Closed(a + b, ta + tb)
  {
    hide Lex;
    forall rest | Boundary(rest) || Closed(b, tb)
      ensures SpellsBefore(a + b, ta + tb, rest)
    {
      assert a + b + rest == a + (b + rest);
      assert SpellsBefore(a, ta, b + rest) && SpellsBefore(b, tb, rest);
    }
  }

  // ---------------------------------------------------------------- the tokens of a value

  lemma {:induction false} LexemesSeparable(v: Value, d: Doubles)
    requires Storable(v, d)
    ensures Separable(Lexemes(v, d))
    decreases v, 1
  {
    match v
    case Int(i) => NumberTexts(i);
    case UInt(u) => NumberTexts(u);
    case Real(_) =>
    case Str(s) =>
    case Array(items) =>
      ItemLexemesSeparable(items, d);
      SeparableConcat([ARRAY_BEGIN], ItemLexemes(items, d));
      SeparableConcat([ARRAY_BEGIN] + ItemLexemes(items, d), [ARRAY_END]);
    case Object(ms) =>
      MemberLexemesSeparable(ms, d);
      SeparableConcat([OBJECT_BEGIN], MemberLexemes(ms, d));
      SeparableConcat([OBJECT_BEGIN] + MemberLexemes(ms, d), [OBJECT_END]);
    case _ =>
  }

  lemma NumberTexts(n: int)
    ensures IsLargestInt(n) ==> IsNumberText(IntText(n))
    ensures IsLargestUInt(n) ==> IsNumberText(UIntText(n))
  {
    if IsLargestInt(n) { IntTextIsSignAndMagnitude(n); }
  }

  lemma {:induction false} ItemLexemesSeparable(items: seq<Value>, d: Doubles)
    requires forall i :: 0 <= i < |items| ==> Storable(items[i], d)
    ensures Separable(ItemLexemes(items, d))
    decreases items, 0
  {
    hide Writable, Lexemes;
    if items != [] {
      LexemesSeparable(items[0], d);
      if |items| > 1 {
        ItemLexemesSeparable(items[1..], d);
        CommaWritable();
        SeparableConcat(Lexemes(items[0], d), [COMMA]);
        SeparableConcat(Lexemes(items[0], d) + [COMMA], ItemLexemes(items[1..], d));
      }
    }
  }

  lemma CommaWritable()
    ensures Writable(COMMA)
  {
  }

  lemma {:induction false} MemberLexemesSeparable(ms: seq<Member>, d: Doubles)
    requires forall i :: 0 <= i < |ms| ==> Storable(ms[i].value, d)
    ensures Separable(MemberLexemes(ms, d))
    decreases ms, 0
  {
    hide Writable, Lexemes;
    if ms != [] {
      MemberLexemeSeparable(ms[0], d);
      if |ms| > 1 {
        MemberLexemesSeparable(ms[1..], d);
        CommaWritable();
        SeparableConcat(MemberLexeme(ms[0], d), [COMMA]);
        SeparableConcat(MemberLexeme(ms[0], d) + [COMMA], MemberLexemes(ms[1..], d));
      }
    }
  }

  lemma MemberLexemeSeparable(m: Member, d: Doubles)
    requires Storable(m.value, d)
    ensures Separable(MemberLexeme(m, d))
    decreases m, 0
  {
    hide Lexemes;
    LexemesSeparable(m.value, d);
    assert Writable(StringLexeme(m.key)) && Writable(COLON);
    SeparableConcat([StringLexeme(m.key), COLON], Lexemes(m.value, d));
  }

  /** The compact text of a value is read as the tokens of the value. */
  lemma CompactTextSpells(v: Value, d: Doubles, yaml: bool)
    requires Storable(v, d)
    ensures Spells(Compact(Lexemes(v, d), yaml), Lexemes(v, d))
  {
    LexemesSeparable(v, d);
    CompactSpells(Lexemes(v, d), yaml);
  }

  /** A final line feed adds no token. */
  lemma FinishedText(text: string, v: Value, d: Doubles)
    requires Storable(v, d) && Spells(text, Lexemes(v, d))
    ensures Lex(text + "\n") == Lexemes(v, d)
  {
    hide Lexemes, Lex, Storable;
    SpaceSpellsNothing("\n");
    SpellsThenClosed(text, Lexemes(v, d), "\n", []);
    SpellsLex(text + "\n", Lexemes(v, d) + []);
  }

  lemma CompactLineIsRead(v: Value, d: Doubles, yaml: bool)
    requires Storable(v, d)
    ensures Lex(Compact(Lexemes(v, d), yaml) + "\n") == Lexemes(v, d)
  {
    hide Lexemes, Lex, Storable, Compact, Spells;
    CompactTextSpells(v, d, yaml);
    FinishedText(Compact(Lexemes(v, d), yaml), v, d);
  }

  // ---------------------------------------------------------------- class FastWriter

  class FastWriter {
    ghost const d: Doubles
    const show: real -> string
    var document: string
    var yamlCompatibilityEnabled: bool

    constructor (ghost d: Doubles, show: real -> string)
      requires show == d.show
      ensures this.d == d && this.show == show && Valid() && !yamlCompatibilityEnabled
    {
      this.d, this.show := d, show;
      document, yamlCompatibilityEnabled := "", false;
    }

    ghost predicate Valid() { show == d.show }

    method EnableYAMLCompatibility()
      modifies this`yamlCompatibilityEnabled
      ensures yamlCompatibilityEnabled
    {
      yamlCompatibilityEnabled := true;
    }

    /** The document holds the text before and then the compact text of the tokens written. */
    ghost predicate Holds(before: string, written: seq<Token>)
      reads this
    {
      document == before + Compact(written, yamlCompatibilityEnabled)
    }

    /** document_ += text */
    method Put(text: string, ghost toks: seq<Token>, ghost before: string, ghost written: seq<Token>)
      requires Holds(before, written) && text == Compact(toks, yamlCompatibilityEnabled)
      modifies this`document
      ensures Holds(before, written + toks)
    {
      hide Compact;
      document := document + text;
      CompactConcat(written, toks, yamlCompatibilityEnabled);
    }

    method PutToken(text: string, ghost t: Token, ghost before: string, ghost written: seq<Token>)
      requires Holds(before, written) && text == CompactToken(t, yamlCompatibilityEnabled)
      modifies this`document
      ensures Holds(before, written + [t])
    {
      CompactOne(t, yamlCompatibilityEnabled);
      Put(text, [t], before, written);
    }

    /** Appends the compact text of the value. */
    method WriteValue(value: Value, ghost before: string, ghost written: seq<Token>)
      requires Valid() && Storable(value, d) && Holds(before, written)
      modifies this`document
      ensures Holds(before, written + Lexemes(value, d))
      decreases value, 1
    {
      hide Quote, IntText, UIntText, Compact, Holds;
      ghost var first := Lexemes(value, d)[0];
      match value {
        case Null => PutToken("null", first, before, written);
        case Bool(b) => PutToken(if b then "true" else "false", first, before, written);
        case Int(i) =>
          var text := IntToText(i);
          PutToken(text, first, before, written);
        case UInt(u) =>
          var text := UIntToText(u);
          PutToken(text, first, before, written);
        case Real(r) => PutToken(show(r), first, before, written);
        case Str(s) =>
          var text := ValueToQuotedString(s);
          PutToken(text, first, before, written);
        case Array(items) => WriteArray(items, before, written);
        case Object(members) => WriteObject(members, before, written);
      }
    }

    method WriteArray(items: seq<Value>, ghost before: string, ghost written: seq<Token>)
      requires Valid() && forall i :: 0 <= i < |items| ==> Storable(items[i], d)
      requires Holds(before, written)
      modifies this`document
      ensures Holds(before, written + ([ARRAY_BEGIN] + ItemLexemes(items, d) + [ARRAY_END]))
      decreases items, 0
    {
      hide Compact, Lexemes, Holds;
      PutToken("[", ARRAY_BEGIN, before, written);
      ghost var now := written + [ARRAY_BEGIN];
      for index := 0 to |items|
        invariant now == written + [ARRAY_BEGIN] + ItemLexemes(items[..index], d)
        invariant Holds(before, now)
      {
        assert items[..index + 1] == items[..index] + [items[index]];
        if index > 0 {
          ItemLexemesAppend(items[..index], items[index], d);
          PutToken(",", COMMA, before, now);
          now := now + [COMMA];
        }
        WriteValue(items[index], before, now);
        now := now + Lexemes(items[index], d);
      }
      assert items[..|items|] == items;
      PutToken("]", ARRAY_END, before, now);
      assert now + [ARRAY_END] == written + ([ARRAY_BEGIN] + ItemLexemes(items, d) + [ARRAY_END]);
    }

    method WriteObject(members: seq<Member>, ghost before: string, ghost written: seq<Token>)
      requires Valid() && forall i :: 0 <= i < |members| ==> NUL !in members[i].key && Storable(members[i].value, d)
      requires Holds(before, written)
      modifies this`document
      ensures Holds(before, written + ([OBJECT_BEGIN] + MemberLexemes(members, d) + [OBJECT_END]))
      decreases members, 0
    {
      hide Compact, MemberLexeme, Holds;
      PutToken("{", OBJECT_BEGIN, before, written);
      ghost var now := written + [OBJECT_BEGIN];
      for it := 0 to |members|
        invariant now == written + [OBJECT_BEGIN] + MemberLexemes(members[..it], d)
        invariant Holds(before, now)
      {
        assert members[..it + 1] == members[..it] + [members[it]];
        if it > 0 {
          MemberLexemesAppend(members[..it], members[it], d);
          PutToken(",", COMMA, before, now);
          now := now + [COMMA];
        }
        WriteMember(members[it], before, now);
        now := now + MemberLexeme(members[it], d);
      }
      assert members[..|members|] == members;
      PutToken("}", OBJECT_END, before, now);
      assert now + [OBJECT_END] == written + ([OBJECT_BEGIN] + MemberLexemes(members, d) + [OBJECT_END]);
    }

    /** A member name, a colon and the member's value. */
    method WriteMember(m: Member, ghost before: string, ghost written: seq<Token>)
      requires Valid() && NUL !in m.key && Storable(m.value, d) && Holds(before, written)
      modifies this`document
      ensures Holds(before, written + MemberLexeme(m, d))
      decreases m, 0
    {
      hide Compact, Lexemes, Holds, Quote;
      var quoted := ValueToQuotedString(m.key);
      PutToken(quoted, StringLexeme(m.key), before, written);
      ghost var now := written + [StringLexeme(m.key)];
      PutToken(if yamlCompatibilityEnabled then ": " else ":", COLON, before, now);
      WriteValue(m.value, before, now + [COLON]);
      assert now + [COLON] + Lexemes(m.value, d) == written + MemberLexeme(m, d);
    }

    /** write( root ): the compact text and a line feed, which is read as the tokens of root. */
    method Write(root: Value) returns (text: string)
      requires Valid() && Storable(root, d)
      modifies this`document
      ensures text == Compact(Lexemes(root, d), yamlCompatibilityEnabled) + "\n"
      ensures Lex(text) == Lexemes(root, d)
    {
      hide Lexemes, Compact, Storable, Lex;
      document := "";
      CompactNothing(yamlCompatibilityEnabled);
      WriteValue(root, "", []);
      assert [] + Lexemes(root, d) == Lexemes(root, d);
      document := document + "\n";
      text := document;
      CompactLineIsRead(root, d, yamlCompatibilityEnabled);
    }
  }
}
