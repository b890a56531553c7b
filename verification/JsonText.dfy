/** JSON texts of value trees: the compact text of FastWriter, the tokens any good text of a
    value has, and the proof that Reader turns those tokens back into the value. */
module JsonText {
  import opened CString
  import opened JsonValue
  import opened JsonLexer
  import opened JsonNumber
  import opened JsonString
  import opened JsonParser

  /** The C library on doubles: what sprintf prints and what sscanf makes of a text. */
  datatype Doubles = Doubles(show: real -> string, scan: DoubleScanner)

  /** What the types of the sources guarantee of a value tree, with NUL-free strings and keys;
      of a double, that it is printed as a decimal number which sscanf accepts. */
  predicate Storable(v: Value, d: Doubles) {
    match v
    case Null => true
    case Bool(_) => true
    case Int(i) => IsLargestInt(i)
    case UInt(u) => IsLargestUInt(u)
    case Real(r) => IsNumberText(d.show(r)) && LooksReal(d.show(r)) && d.scan(d.show(r)).Some?
    case Str(s) => NUL !in s
    case Array(items) => forall i :: 0 <= i < |items| ==> Storable(items[i], d)
    case Object(ms) => Sorted(ms) && forall i :: 0 <= i < |ms| ==> NUL !in ms[i].key && Storable(ms[i].value, d)
  }

  /** The value read back: integers take their canonical tag, doubles what sscanf returns. */
  function Canonical(v: Value, d: Doubles): Value
    requires Storable(v, d)
  {
    match v
    case Int(i) => CanonicalInteger(i)
    case UInt(u) => CanonicalInteger(u)
    case Real(r) => Real(d.scan(d.show(r)).value)
    case Array(items) => Array(CanonicalItems(items, d))
    case Object(ms) => Object(CanonicalMembers(ms, d))
    case _ => v
  }

  function CanonicalItems(items: seq<Value>, d: Doubles): (r: seq<Value>)
    requires forall i :: 0 <= i < |items| ==> Storable(items[i], d)
    ensures |r| == |items|
  {
    if items == [] then [] else [Canonical(items[0], d)] + CanonicalItems(items[1..], d)
  }

  function CanonicalMembers(ms: seq<Member>, d: Doubles): (r: seq<Member>)
    requires forall i :: 0 <= i < |ms| ==> Storable(ms[i].value, d)
    ensures |r| == |ms|
  {
    if ms == [] then []
    else [Member(ms[0].key, Canonical(ms[0].value, d))] + CanonicalMembers(ms[1..], d)
  }

  // ---------------------------------------------------------------- tokens of a value

  const OBJECT_BEGIN := Token(ObjectBegin, "{")
  const OBJECT_END := Token(ObjectEnd, "}")
  const ARRAY_BEGIN := Token(ArrayBegin, "[")
  const ARRAY_END := Token(ArrayEnd, "]")
  const COMMA := Token(ArraySeparator, ",")
  const COLON := Token(MemberSeparator, ":")

  function StringLexeme(s: string): Token { Token(StringToken, Quote(s)) }

  function Lexemes(v: Value, d: Doubles): (toks: seq<Token>)
    requires Storable(v, d)
    ensures toks != [] && toks[0].kind != ArrayEnd && toks[0].kind != CommentToken
  {
    match v
    case Null => [Token(NullToken, "null")]
    case Bool(b) => [if b then Token(TrueToken, "true") else Token(FalseToken, "false")]
    case Int(i) => [Token(NumberToken, IntText(i))]
    case UInt(u) => [Token(NumberToken, UIntText(u))]
    case Real(r) => [Token(NumberToken, d.show(r))]
    case Str(s) => [StringLexeme(s)]
    case Array(items) => [ARRAY_BEGIN] + ItemLexemes(items, d) + [ARRAY_END]
    case Object(ms) => [OBJECT_BEGIN] + MemberLexemes(ms, d) + [OBJECT_END]
  }

  /** Items with commas between them. */
  function ItemLexemes(items: seq<Value>, d: Doubles): seq<Token>
    requires forall i :: 0 <= i < |items| ==> Storable(items[i], d)
  {
    if items == [] then []
    else if |items| == 1 then Lexemes(items[0], d)
    else Lexemes(items[0], d) + [COMMA] + ItemLexemes(items[1..], d)
  }

  function MemberLexeme(m: Member, d: Doubles): seq<Token>
    requires Storable(m.value, d)
  {
    [StringLexeme(m.key), COLON] + Lexemes(m.value, d)
  }

  function MemberLexemes(ms: seq<Member>, d: Doubles): seq<Token>
    requires forall i :: 0 <= i < |ms| ==> Storable(ms[i].value, d)
  {
    if ms == [] then []
    else if |ms| == 1 then MemberLexeme(ms[0], d)
    else MemberLexeme(ms[0], d) + [COMMA] + MemberLexemes(ms[1..], d)
  }

  /** The loops of the writers append one item, and a comma before it, at a time. */
  lemma {:induction false} ItemLexemesAppend(items: seq<Value>, v: Value, d: Doubles)
    requires items != [] && Storable(v, d)
    requires forall i :: 0 <= i < |items| ==> Storable(items[i], d)
    ensures ItemLexemes(items + [v], d) == ItemLexemes(items, d) + [COMMA] + Lexemes(v, d)
  {
    var all := items + [v];
    if |items| > 1 {
      assert all[1..] == items[1..] + [v];
      ItemLexemesAppend(items[1..], v, d);
    } else {
      assert all[1..] == [v];
    }
  }

  lemma {:induction false} MemberLexemesAppend(ms: seq<Member>, m: Member, d: Doubles)
    requires ms != [] && Storable(m.value, d)
    requires forall i :: 0 <= i < |ms| ==> Storable(ms[i].value, d)
    ensures MemberLexemes(ms + [m], d) == MemberLexemes(ms, d) + [COMMA] + MemberLexeme(m, d)
  {
    var all := ms + [m];
    if |ms| > 1 {
      assert all[1..] == ms[1..] + [m];
      MemberLexemesAppend(ms[1..], m, d);
    } else {
      assert all[1..] == [m];
    }
  }

  // ---------------------------------------------------------------- spelling them

  /** Brackets around what spells tokens. */
  lemma BracketsSpell(open: Token, s: string, toks: seq<Token>, close: Token)
    requires (open == ARRAY_BEGIN && close == ARRAY_END) || (open == OBJECT_BEGIN && close == OBJECT_END)
    requires Spells(s, toks)
    ensures Spells(open.text + s + close.text, [open] + toks + [close])
  {
    hide Closed, Spells;
    FixedIsClosed(open);
    ClosedThenSpells(open.text, [open], s, toks);
    SpellsThenFixed(open.text + s, [open] + toks, close);
    ClosedSpells(open.text + s + close.text, [open] + toks + [close]);
  }

  lemma CommaSpells(a: string, ta: seq<Token>, b: string, tb: seq<Token>)
    requires Spells(a, ta) && Spells(b, tb)
    ensures Spells(a + ("," + b), ta + ([COMMA] + tb))
  {
    hide Closed, Spells;
    SpellsThenFixed(a, ta, COMMA);
    ClosedThenSpells(a + ",", ta + [COMMA], b, tb);
    assert a + "," + b == a + ("," + b) && ta + [COMMA] + tb == ta + ([COMMA] + tb);
  }

  // ---------------------------------------------------------------- reading them back

  /** readValue consumes exactly the tokens of a value and yields its canonical form. */
  lemma {:induction false} ReadLexemes(f: Features, d: Doubles, v: Value, rest: seq<Token>, cur: Value, errors: Errors)
    requires Storable(v, d)
    ensures ReadValue(f, d.scan, Lexemes(v, d) + rest, cur, errors) == Outcome(true, Canonical(v, d), errors, rest)
    decreases v, 1
  {
    hide ReadArrayItems, ReadMembers, FirstToken, DecodeNumber, DecodeString, CanonicalItems, CanonicalMembers, CanonicalInteger;
    var toks := Lexemes(v, d) + rest;
    FirstOfLexemes(f, toks);
    match v
    case Array(items) =>
      assert toks[1..] == ItemLexemes(items, d) + [ARRAY_END] + rest;
      ReadArrayLexemes(f, d, items, rest, errors);
    case Object(ms) =>
      assert toks[1..] == MemberLexemes(ms, d) + [OBJECT_END] + rest;
      ReadMemberLexemes(f, d, ms, rest, "", [], errors);
      assert [] + CanonicalMembers(ms, d) == CanonicalMembers(ms, d);
    case Int(i) => NumberRoundTrip(i, d.scan); assert toks[1..] == rest;
    case UInt(u) => NumberRoundTrip(u, d.scan); assert toks[1..] == rest;
    case Real(r) => DecodeReal(d.show(r), d.scan); assert toks[1..] == rest;
    case Str(s) => DecodeQuoted(s); assert toks[1..] == rest;
    case _ => assert toks[1..] == rest;
  }

  lemma DecodeReal(text: string, scan: DoubleScanner)
    requires LooksReal(text) && scan(text).Some?
    ensures DecodeNumber(text, scan) == Number(Real(scan(text).value))
  {
  }

  lemma {:induction false} ReadArrayLexemes(f: Features, d: Doubles, items: seq<Value>, rest: seq<Token>, errors: Errors)
    requires forall i :: 0 <= i < |items| ==> Storable(items[i], d)
    ensures ReadArrayItems(f, d.scan, ItemLexemes(items, d) + [ARRAY_END] + rest, errors)
         == Outcome(true, Array(CanonicalItems(items, d)), errors, rest)
    decreases items, 1
  {
    hide ReadItems;
    var toks := ItemLexemes(items, d) + [ARRAY_END] + rest;
    if items == [] {
      assert toks == [ARRAY_END] + rest && toks[1..] == rest;
    } else {
      FirstItemLexeme(items, d);
      ReadItemLexemes(f, d, items, rest, [], errors);
      assert [] + CanonicalItems(items, d) == CanonicalItems(items, d);
    }
  }

  lemma FirstOfLexemes(f: Features, toks: seq<Token>)
    requires toks != [] && toks[0].kind != CommentToken
    ensures FirstToken(f, toks) == (toks[0], toks[1..])
  {
  }

  lemma FirstItemLexeme(items: seq<Value>, d: Doubles)
    requires items != [] && forall i :: 0 <= i < |items| ==> Storable(items[i], d)
    ensures ItemLexemes(items, d) != [] && ItemLexemes(items, d)[0].kind != ArrayEnd
  {
  }

  lemma {:induction false} ReadItemLexemes(f: Features, d: Doubles, items: seq<Value>, rest: seq<Token>, acc: seq<Value>, errors: Errors)
    requires items != [] && forall i :: 0 <= i < |items| ==> Storable(items[i], d)
    ensures ReadItems(f, d.scan, ItemLexemes(items, d) + [ARRAY_END] + rest, acc, errors)
         == Outcome(true, Array(acc + CanonicalItems(items, d)), errors, rest)
    decreases items, 0
  {
    hide ReadValue, Lexemes, Canonical;
    var toks := ItemLexemes(items, d) + [ARRAY_END] + rest;
    var c := Canonical(items[0], d);
    if |items| == 1 {
      assert toks == Lexemes(items[0], d) + ([ARRAY_END] + rest);
      ReadLexemes(f, d, items[0], [ARRAY_END] + rest, Null, errors);
      assert acc + CanonicalItems(items, d) == acc + [c];
    } else {
      var tail := ItemLexemes(items[1..], d) + [ARRAY_END] + rest;
      assert toks == Lexemes(items[0], d) + ([COMMA] + tail);
      ReadLexemes(f, d, items[0], [COMMA] + tail, Null, errors);
      ReadItemLexemes(f, d, items[1..], rest, acc + [c], errors);
      assert acc + CanonicalItems(items, d) == acc + [c] + CanonicalItems(items[1..], d);
    }
  }

  lemma {:induction false} ReadMemberLexemes(f: Features, d: Doubles, ms: seq<Member>, rest: seq<Token>, name: string, acc: seq<Member>, errors: Errors)
    requires Sorted(ms)
    requires forall i :: 0 <= i < |ms| ==> NUL !in ms[i].key && Storable(ms[i].value, d)
    requires forall j, k :: 0 <= j < |acc| && 0 <= k < |ms| ==> StrLess(acc[j].key, ms[k].key)
    requires ms == [] ==> name == ""
    ensures ReadMembers(f, d.scan, MemberLexemes(ms, d) + [OBJECT_END] + rest, name, acc, errors)
         == Outcome(true, Object(acc + CanonicalMembers(ms, d)), errors, rest)
    decreases ms, 0
  {
    hide ReadNamedMember, MemberLexeme, Canonical;
    var toks := MemberLexemes(ms, d) + [OBJECT_END] + rest;
    if ms == [] {
      assert toks == [OBJECT_END] + rest;
      assert acc + CanonicalMembers(ms, d) == acc;
      ReadObjectEnd(f, d.scan, rest, acc, errors);
    } else {
      var m, c := ms[0], Canonical(ms[0].value, d);
      var acc' := acc + [Member(m.key, c)];
      var tail := if |ms| == 1 then [OBJECT_END] + rest
                  else [COMMA] + (MemberLexemes(ms[1..], d) + [OBJECT_END] + rest);
      assert toks == MemberLexeme(m, d) + tail;
      ReadMemberLexeme(f, d, m, tail, name, acc, errors);
      assert acc + CanonicalMembers(ms, d) == acc' + CanonicalMembers(ms[1..], d);
      if |ms| == 1 {
        assert tail[1..] == rest;
        assert acc' + CanonicalMembers(ms[1..], d) == acc';
      } else {
        assert tail[1..] == MemberLexemes(ms[1..], d) + [OBJECT_END] + rest;
        ReadMemberLexemes(f, d, ms[1..], rest, m.key, acc', errors);
      }
    }
  }

  lemma ReadObjectEnd(f: Features, scan: DoubleScanner, rest: seq<Token>, acc: seq<Member>, errors: Errors)
    ensures ReadNamedMember(f, scan, [OBJECT_END] + rest, "", acc, errors) == Done(Outcome(true, Object(acc), errors, rest))
  {
    assert ([OBJECT_END] + rest)[1..] == rest;
  }

  /** One turn of readObject on the tokens of a member beyond the members read so far. */
  lemma ReadMemberLexeme(f: Features, d: Doubles, m: Member, tail: seq<Token>, name: string, acc: seq<Member>, errors: Errors)
    requires NUL !in m.key && Storable(m.value, d)
    requires forall j :: 0 <= j < |acc| ==> StrLess(acc[j].key, m.key)
    requires tail != [] && (tail[0] == OBJECT_END || tail[0] == COMMA)
    ensures var acc' := acc + [Member(m.key, Canonical(m.value, d))];
            ReadNamedMember(f, d.scan, MemberLexeme(m, d) + tail, name, acc, errors) ==
              if tail[0] == OBJECT_END then Done(Outcome(true, Object(acc'), errors, tail[1..]))
              else More(errors, tail[1..], (m.key, acc'))
    decreases m, 0
  {
    hide ReadValue, Lexemes, Canonical, Assign, Resolve, DecodeString;
    var toks := MemberLexeme(m, d) + tail;
    assert toks[1..] == [COLON] + (Lexemes(m.value, d) + tail);
    assert toks[1..][1..] == Lexemes(m.value, d) + tail;
    DecodeQuoted(m.key);
    AssignAtEnd(acc, m.key, Canonical(m.value, d));
    ReadLexemes(f, d, m.value, tail, Null, errors);
  }

  /** Any text that spells the tokens of a value is parsed to that value, with no error; in
      strict mode the root has to be an array, an object or null, or the one error is about that. */
  lemma SpelledIsParsed(f: Features, d: Doubles, v: Value, text: string, root: Value)
    requires Storable(v, d)
    requires Lex(text) == Lexemes(v, d)
    ensures var o := Parse(f, d.scan, Lex(text), root, text);
            o.value == Canonical(v, d) &&
            (o.ok <==> !f.strictRoot || v.Array? || v.Object? || v.Null?) &&
            o.errors == if o.ok then [] else [Error(ROOT_EXPECTED, Token(ErrorToken, text))]
  {
    hide ReadValue, Lex, Lexemes;
    assert Lexemes(v, d) + [] == Lexemes(v, d);
    ReadLexemes(f, d, v, [], root, []);
  }
}
