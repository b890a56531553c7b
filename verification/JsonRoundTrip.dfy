/** Parsing, writing and parsing again, as jsoncpp's own test runner does with every test. */
module JsonRoundTrip {
  import opened CString
  import opened JsonValue
  import opened JsonLexer
  import opened JsonNumber
  import opened JsonString
  import opened JsonParser
  import opened JsonText
  import opened JsonWriter
  import opened JsonReader
  import opened JsonStyledWriter
  import JsonGrammar
  import JsonConformance

  /** The C library prints every double as a decimal number that it can scan again. */
  ghost predicate PrintsDoubles(d: Doubles) {
    forall r :: Storable(Real(r), d)
  }

  // ---------------------------------------------------------------- what a parse can yield

  /** Every value tree the reader builds, also on documents with errors. */
  predicate Built(v: Value) {
    match v
    case Int(i) => IsLargestInt(i)
    case UInt(u) => IsLargestUInt(u)
    case Str(s) => NUL !in s
    case Array(items) => forall i :: 0 <= i < |items| ==> Built(items[i])
    case Object(ms) => MembersBuilt(ms)
    case _ => true
  }

  predicate MembersBuilt(ms: seq<Member>) {
    Sorted(ms) && forall i :: 0 <= i < |ms| ==> NUL !in ms[i].key && Built(ms[i].value)
  }

  lemma AssignBuilt(ms: seq<Member>, key: string, v: Value)
    requires MembersBuilt(ms) && NUL !in key && Built(v)
    ensures MembersBuilt(Assign(ms, key, v)) && Built(Resolve(ms, key))
  {
    AssignSorted(ms, key, v);
    var ms' := Assign(ms, key, v);
    forall i | 0 <= i < |ms'|
      ensures NUL !in ms'[i].key && Built(ms'[i].value)
    {
      if ms'[i].key != key {
        var j := AssignComesFrom(ms, key, v, i);
      } else if i != LowerBound(ms, key) {
        LookupAt(ms', key, i);
        LookupAt(ms', key, LowerBound(ms, key));
      }
    }
  }

  /** Integers in range, strings and keys without NUL, keys sorted: every outcome has them. */
  lemma {:induction false} ReadValueBuilt(f: Features, scan: DoubleScanner, toks: seq<Token>, cur: Value, errors: Errors)
    requires Built(cur)
    ensures Built(ReadValue(f, scan, toks, cur, errors).value)
    decreases |toks|, 1
  {
    hide DecodeString, DecodeNumber, ReadMembers, ReadItems, MembersBuilt;
    var (tok, rest) := FirstToken(f, toks);
    match tok.kind
    case ObjectBegin => NothingBuilt(); ReadMembersBuilt(f, scan, rest, "", [], errors);
    case ArrayBegin => ReadItemsBuilt(f, scan, rest, [], errors);
    case NumberToken => NumberBuilt(tok.text, scan);
    case _ =>
  }

  lemma NumberBuilt(text: string, scan: DoubleScanner)
    ensures DecodeNumber(text, scan).Number? ==> Built(DecodeNumber(text, scan).value)
  {
    AddDigitsInRange(Unsigned(text), 0, MaxMagnitude(IsNegative(text)));
  }

  lemma NothingBuilt()
    ensures MembersBuilt([])
  {
  }

  lemma {:induction false} ReadItemsBuilt(f: Features, scan: DoubleScanner, toks: seq<Token>, items: seq<Value>, errors: Errors)
    requires Built(Array(items))
    ensures Built(ReadItems(f, scan, toks, items, errors).value)
    decreases |toks|, 3
  {
    hide ReadValue;
    ReadValueBuilt(f, scan, toks, Null, errors);
    var items' := items + [ReadValue(f, scan, toks, Null, errors).value];
    assert Built(Array(items'));
    match ReadItem(f, scan, toks, items, errors)
    case Done(_) =>
    case More(errors', rest, _) => ReadItemsBuilt(f, scan, rest, items', errors');
  }

  lemma {:induction false} ReadMembersBuilt(f: Features, scan: DoubleScanner, toks: seq<Token>, name: string, ms: seq<Member>, errors: Errors)
    requires MembersBuilt(ms)
    ensures Built(ReadMembers(f, scan, toks, name, ms, errors).value)
    decreases |toks|, 3
  {
    hide ReadMember, MembersBuilt, DecodeString;
    var (t, afterFirst) := Next(toks);
    var (tok, afterName) := SkipComments(t, afterFirst);
    if tok.kind == StringToken && DecodeString(tok.text).Decoded? {
      ReadMemberBuilt(f, scan, afterName, DecodeString(tok.text).s, ms, errors);
    }
    match ReadNamedMember(f, scan, toks, name, ms, errors)
    case Done(_) =>
    case More(errors', rest, (name', ms')) => ReadMembersBuilt(f, scan, rest, name', ms', errors');
  }

  lemma {:induction false} ReadMemberBuilt(f: Features, scan: DoubleScanner, toks: seq<Token>, name: string, ms: seq<Member>, errors: Errors)
    requires MembersBuilt(ms)
    ensures match ReadMember(f, scan, toks, name, ms, errors)
            case Done(o) => Built(o.value)
            case More(_, _, ms') => MembersBuilt(ms')
    decreases |toks|, 2
  {
    hide ReadValue, Assign, Resolve, MembersBuilt;
    var (colon, afterColon) := Next(toks);
    if colon.kind == MemberSeparator {
      var key := CStr(name);
      AssignBuilt(ms, key, Null);
      ReadValueBuilt(f, scan, afterColon, Resolve(ms, key), errors);
      AssignBuilt(ms, key, ReadValue(f, scan, afterColon, Resolve(ms, key), errors).value);
    }
  }

  lemma {:induction false} BuiltIsStorable(v: Value, d: Doubles)
    requires Built(v) && PrintsDoubles(d)
    ensures Storable(v, d)
  {
    match v
    case Array(items) =>
      forall i | 0 <= i < |items| ensures Storable(items[i], d) { BuiltIsStorable(items[i], d); }
    case Object(ms) =>
      forall i | 0 <= i < |ms| ensures Storable(ms[i].value, d) { BuiltIsStorable(ms[i].value, d); }
    case _ =>
  }

  // ---------------------------------------------------------------- a second round changes nothing

  /** The canonical form has the same tokens, up to the digits of doubles. */
  lemma {:induction false} CanonicalLexemes(v: Value, d: Doubles)
    requires Storable(v, d) && NoReals(v)
    ensures Storable(Canonical(v, d), d) && NoReals(Canonical(v, d))
    ensures Lexemes(Canonical(v, d), d) == Lexemes(v, d)
    ensures Canonical(Canonical(v, d), d) == Canonical(v, d)
    decreases v, 1
  {
    match v
    case Array(items) => CanonicalItemLexemes(items, d);
    case Object(ms) => CanonicalMemberLexemes(ms, d);
    case _ =>
  }

  predicate NoReals(v: Value) {
    match v
    case Real(_) => false
    case Array(items) => forall i :: 0 <= i < |items| ==> NoReals(items[i])
    case Object(ms) => forall i :: 0 <= i < |ms| ==> NoReals(ms[i].value)
    case _ => true
  }

  lemma {:induction false} CanonicalItemLexemes(items: seq<Value>, d: Doubles)
    requires forall i :: 0 <= i < |items| ==> Storable(items[i], d) && NoReals(items[i])
    ensures var cs := CanonicalItems(items, d);
            (forall i :: 0 <= i < |items| ==> Storable(cs[i], d) && NoReals(cs[i])) &&
            ItemLexemes(cs, d) == ItemLexemes(items, d) && CanonicalItems(cs, d) == cs
    decreases items, 0
  {
    hide Lexemes, Canonical;
    if items != [] {
      CanonicalLexemes(items[0], d);
      CanonicalItemLexemes(items[1..], d);
      var cs := CanonicalItems(items, d);
      assert cs[1..] == CanonicalItems(items[1..], d);
    }
  }

  lemma {:induction false} CanonicalMemberLexemes(ms: seq<Member>, d: Doubles)
    requires forall i :: 0 <= i < |ms| ==> Storable(ms[i].value, d) && NoReals(ms[i].value)
    ensures var cs := CanonicalMembers(ms, d);
            (forall i :: 0 <= i < |ms| ==> cs[i].key == ms[i].key && Storable(cs[i].value, d) && NoReals(cs[i].value)) &&
            MemberLexemes(cs, d) == MemberLexemes(ms, d) && CanonicalMembers(cs, d) == cs
    decreases ms, 0
  {
    hide Lexemes, Canonical;
    if ms != [] {
      CanonicalLexemes(ms[0].value, d);
      CanonicalMemberLexemes(ms[1..], d);
      var cs := CanonicalMembers(ms, d);
      assert cs[1..] == CanonicalMembers(ms[1..], d);
    }
  }

  // ---------------------------------------------------------------- the test runner

  /** main() of the test runner without its files: parse the input, write it with the styled
      writer, parse that. A parsed input never fails on the way back, and comes back as its
      canonical form, which is what the FastWriter text would give too. */
  method ParseRewriteParse(input: string, features: Features, d: Doubles)
    returns (parsed: bool, root: Value, rewrite: string, reparsed: bool, rewriteRoot: Value)
    requires PrintsDoubles(d)
    ensures Built(root) && Storable(root, d)
    ensures parsed == Parse(features, d.scan, Lex(input), Null, input).ok
    ensures parsed ==> reparsed && rewriteRoot == Canonical(root, d)
    ensures parsed ==> rewrite == Pretty(root, "", d) + "\n"
    ensures parsed && JsonConformance.PrintsNumerals(root, d) ==> JsonGrammar.IsJsonText(rewrite)
  {
    hide ReadValue, Lex, Lexemes, Canonical, Pretty, JsonConformance.PrintsNumerals, JsonGrammar.IsJsonText;
    var reader := new Reader(features, d.scan);
    parsed, root := reader.Parse(input, Null);
    ReadValueBuilt(features, d.scan, Lex(input), Null, []);
    BuiltIsStorable(root, d);
    rewrite, reparsed, rewriteRoot := "", false, Null;
    if parsed {
      var writer := new StyledWriter(d, d.show);
      rewrite := writer.Write(root);
      var second := new Reader(features, d.scan);
      reparsed, rewriteRoot := second.Parse(rewrite, Null);
      SpelledIsParsed(features, d, root, rewrite, Null);
      if JsonConformance.PrintsNumerals(root, d) { JsonConformance.WrittenIsJson(root, d, rewrite); }
    }
  }

  /** FastWriter, either mode, followed by Reader: the value comes back in canonical form. */
  method WriteFastAndParse(v: Value, yaml: bool, features: Features, d: Doubles)
    returns (text: string, ok: bool, root: Value, errors: Errors)
    requires Storable(v, d)
    ensures root == Canonical(v, d)
    ensures ok <==> !features.strictRoot || v.Array? || v.Object? || v.Null?
    ensures ok <==> errors == []
    ensures JsonConformance.PrintsNumerals(v, d) ==> JsonGrammar.IsJsonText(text)
  {
    hide ReadValue, Lex, Lexemes, Canonical, JsonConformance.PrintsNumerals, JsonGrammar.IsJsonText;
    var writer := new FastWriter(d, d.show);
    if yaml { writer.EnableYAMLCompatibility(); }
    text := writer.Write(v);
    var reader := new Reader(features, d.scan);
    ok, root := reader.Parse(text, Null);
    errors := reader.errors;
    SpelledIsParsed(features, d, v, text, Null);
    if JsonConformance.PrintsNumerals(v, d) { JsonConformance.WrittenIsJson(v, d, text); }
  }
}
