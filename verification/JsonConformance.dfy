/** The reader accepts the JSON texts of RFC 8259 and gives them their meaning, and whatever the
    writers write is such a text. */
module JsonConformance {
  import opened CString
  import opened JsonValue
  import opened JsonLexer
  import opened JsonNumber
  import opened JsonString
  import opened JsonParser
  import opened JsonText
  import opened JsonGrammar
  import opened JsonSpelling
  import opened JsonWriter

  // ---------------------------------------------------------------- reading

  /** Reading succeeds exactly if no surrogate is unpaired, and then gives the meaning. */
  ghost predicate Means(o: Outcome, paired: bool, value: Value, errors: Errors, rest: seq<Token>) {
    (o.ok <==> paired) && (paired ==> o == Outcome(true, value, errors, rest))
  }

  /** readValue consumes exactly the tokens of a text of the grammar. */
  lemma {:induction false} ValueIsRead(f: Features, scan: DoubleScanner, j: Json, rest: seq<Token>, cur: Value, errors: Errors)
    requires IsJson(j) && Scans(scan)
    ensures Means(ReadValue(f, scan, Tokens(j) + rest, cur, errors), Accepted(j), Meaning(j, Read(scan)), errors, rest)
    decreases j, 0
  {
    hide ReadArrayItems, ReadMembers, FirstToken, DecodeNumber, DecodeString, StringText, NumeralText, IsNumeral, Scans, AreChars,
         CharsRead, CharsAccepted, ItemsTokens, PairsTokens, ItemMeanings, MembersOf;
    var toks := Tokens(j) + rest;
    FirstOfLexemes(f, toks);
    match j
    case ArrayText(_, items) =>
      assert toks[1..] == ItemsTokens(items) + ([ARRAY_END] + rest);
      ArrayIsRead(f, scan, items, rest, errors);
    case ObjectText(_, pairs) =>
      assert toks[1..] == PairsTokens(pairs) + ([OBJECT_END] + rest);
      ObjectIsRead(f, scan, pairs, rest, errors);
    case NumberText(n) => NumeralIsDecoded(n, scan); assert toks[1..] == rest;
    case Chars(cs) => CharsAreReadable(cs); StringTextIsDecoded(cs); assert toks[1..] == rest;
    case _ => assert toks[1..] == rest;
  }

  predicate ItemsAccepted(items: seq<Item>) { forall i :: 0 <= i < |items| ==> Accepted(items[i].value) }

  predicate PairsAccepted(pairs: seq<Pair>) { forall i :: 0 <= i < |pairs| ==> AcceptedPair(pairs[i]) }

  lemma {:induction false} ArrayIsRead(f: Features, scan: DoubleScanner, items: seq<Item>, rest: seq<Token>, errors: Errors)
    requires (forall i :: 0 <= i < |items| ==> IsItem(items[i])) && Scans(scan)
    ensures Means(ReadArrayItems(f, scan, ItemsTokens(items) + ([ARRAY_END] + rest), errors), ItemsAccepted(items),
                  Array(ItemMeanings(items, Read(scan))), errors, rest)
    decreases items, 1
  {
    hide ReadItems, IsItem, Scans, ItemsAccepted;
    var toks := ItemsTokens(items) + ([ARRAY_END] + rest);
    if items == [] {
      assert toks == [ARRAY_END] + rest && toks[1..] == rest;
      assert ItemsAccepted(items) by { NothingToAccept(); }
    } else {
      assert ItemsTokens(items)[0] == Tokens(items[0].value)[0];
      ItemsAreRead(f, scan, items, rest, [], errors);
      assert [] + ItemMeanings(items, Read(scan)) == ItemMeanings(items, Read(scan));
    }
  }

  lemma NothingToAccept()
    ensures ItemsAccepted([]) && PairsAccepted([])
  {
  }

  lemma ItemsAcceptedStep(items: seq<Item>)
    requires items != []
    ensures ItemsAccepted(items) <==> Accepted(items[0].value) && ItemsAccepted(items[1..])
  {
    hide Accepted;
    assert forall i :: 1 <= i < |items| ==> items[i] == items[1..][i - 1];
  }

  lemma ItemMeaningsStep(items: seq<Item>, acc: seq<Value>, scan: DoubleScanner)
    requires items != []
    ensures acc + ItemMeanings(items, Read(scan)) == acc + [Meaning(items[0].value, Read(scan))] + ItemMeanings(items[1..], Read(scan))
    ensures |items| == 1 ==> acc + ItemMeanings(items, Read(scan)) == acc + [Meaning(items[0].value, Read(scan))]
  {
    hide Meaning, ItemMeanings;
    var m, rest := Meaning(items[0].value, Read(scan)), ItemMeanings(items[1..], Read(scan));
    MeaningsUnfold(items, scan);
    Appended(acc, m, rest);
    if |items| == 1 {
      assert items[1..] == [] && rest == [];
      assert acc + [m] + [] == acc + [m];
    }
  }

  lemma MeaningsUnfold(items: seq<Item>, scan: DoubleScanner)
    requires items != []
    ensures ItemMeanings(items, Read(scan)) == [Meaning(items[0].value, Read(scan))] + ItemMeanings(items[1..], Read(scan))
    ensures ItemMeanings([], Read(scan)) == []
  {
    hide Meaning;
  }

  lemma Appended(acc: seq<Value>, v: Value, rest: seq<Value>)
    ensures acc + ([v] + rest) == acc + [v] + rest
  {
  }

  /** One turn of readArray on an item of the grammar. */
  lemma ItemIsRead(f: Features, scan: DoubleScanner, v: Json, tail: seq<Token>, acc: seq<Value>, errors: Errors)
    requires IsJson(v) && Scans(scan) && tail != [] && (tail[0] == ARRAY_END || tail[0] == COMMA)
    ensures var t := ReadItem(f, scan, Tokens(v) + tail, acc, errors);
            if !Accepted(v) then t.Done? && !t.outcome.ok
            else if tail[0] == ARRAY_END then t == Done(Outcome(true, Array(acc + [Meaning(v, Read(scan))]), errors, tail[1..]))
            else t == More(errors, tail[1..], acc + [Meaning(v, Read(scan))])
    decreases v, 1
  {
    hide ReadValue, Tokens, Meaning, IsJson, Accepted, Scans;
    ValueIsRead(f, scan, v, tail, Null, errors);
  }

  lemma {:induction false} ItemsAreRead(f: Features, scan: DoubleScanner, items: seq<Item>, rest: seq<Token>, acc: seq<Value>, errors: Errors)
    requires items != [] && (forall i :: 0 <= i < |items| ==> IsItem(items[i])) && Scans(scan)
    ensures Means(ReadItems(f, scan, ItemsTokens(items) + ([ARRAY_END] + rest), acc, errors), ItemsAccepted(items),
                  Array(acc + ItemMeanings(items, Read(scan))), errors, rest)
    decreases items, 0
  {
    hide ReadItem, ReadValue, Tokens, Meaning, IsJson, Accepted, Scans, ItemsAccepted, ItemsTokens, ItemMeanings;
    var v := items[0].value;
    assert IsItem(items[0]);
    ItemsAcceptedStep(items);
    ItemsTokensStep(items);
    ItemMeaningsStep(items, acc, scan);
    if |items| == 1 {
      var tail := [ARRAY_END] + rest;
      assert tail[1..] == rest;
      ItemIsRead(f, scan, v, tail, acc, errors);
      assert items[1..] == [];
      NothingToAccept();
    } else {
      var more := ItemsTokens(items[1..]) + ([ARRAY_END] + rest);
      RegroupTokens(Tokens(v), ItemsTokens(items[1..]), [ARRAY_END] + rest);
      assert ([COMMA] + more)[1..] == more;
      ItemIsRead(f, scan, v, [COMMA] + more, acc, errors);
      ItemsAreRead(f, scan, items[1..], rest, acc + [Meaning(v, Read(scan))], errors);
    }
  }

  lemma {:induction false} ObjectIsRead(f: Features, scan: DoubleScanner, pairs: seq<Pair>, rest: seq<Token>, errors: Errors)
    requires (forall i :: 0 <= i < |pairs| ==> IsPair(pairs[i])) && Scans(scan)
    ensures Means(ReadMembers(f, scan, PairsTokens(pairs) + ([OBJECT_END] + rest), "", [], errors), PairsAccepted(pairs),
                  Object(MembersOf(pairs, [], Read(scan))), errors, rest)
    decreases pairs, 1
  {
    hide ReadNamedMember, IsPair, Scans, PairsAccepted;
    var toks := PairsTokens(pairs) + ([OBJECT_END] + rest);
    if pairs == [] {
      assert toks == [OBJECT_END] + rest;
      ReadObjectEnd(f, scan, rest, [], errors);
      NothingToAccept();
    } else {
      PairsAreRead(f, scan, pairs, rest, "", [], errors);
    }
  }

  lemma PairsAcceptedStep(pairs: seq<Pair>)
    requires pairs != []
    ensures PairsAccepted(pairs) <==> AcceptedPair(pairs[0]) && PairsAccepted(pairs[1..])
  {
    hide AcceptedPair;
    assert forall i :: 1 <= i < |pairs| ==> pairs[i] == pairs[1..][i - 1];
  }

  /** The members behind a pair. */
  function WithPair(ms: seq<Member>, p: Pair, scan: DoubleScanner): seq<Member> {
    Assign(ms, CStr(CharsRead(p.name)), Meaning(p.item.value, Read(scan)))
  }

  /** One turn of readObject on a pair of the grammar, a new or a repeated one. */
  lemma PairIsRead(f: Features, scan: DoubleScanner, p: Pair, tail: seq<Token>, name: string, ms: seq<Member>, errors: Errors)
    requires IsPair(p) && Scans(scan) && tail != [] && (tail[0] == OBJECT_END || tail[0] == COMMA)
    ensures var t := ReadNamedMember(f, scan, PairTokens(p) + tail, name, ms, errors);
            if !AcceptedPair(p) then t.Done? && !t.outcome.ok
            else if tail[0] == OBJECT_END then t == Done(Outcome(true, Object(WithPair(ms, p, scan)), errors, tail[1..]))
            else t == More(errors, tail[1..], (CharsRead(p.name), WithPair(ms, p, scan)))
    decreases p
  {
    hide ReadValue, Tokens, Meaning, Assign, Resolve, DecodeString, Accepted, CharsAccepted, CharsRead, AreChars, Scans, IsJson, StringText;
    var toks := PairTokens(p) + tail;
    var v := p.item.value;
    assert toks[1..] == [COLON] + (Tokens(v) + tail);
    assert toks[1..][1..] == Tokens(v) + tail;
    CharsAreReadable(p.name);
    StringTextIsDecoded(p.name);
    ValueIsRead(f, scan, v, tail, Resolve(ms, CStr(CharsRead(p.name))), errors);
  }

  lemma MembersOfStep(pairs: seq<Pair>, ms: seq<Member>, scan: DoubleScanner)
    requires pairs != []
    ensures MembersOf(pairs, ms, Read(scan)) == MembersOf(pairs[1..], WithPair(ms, pairs[0], scan), Read(scan))
    ensures MembersOf([], WithPair(ms, pairs[0], scan), Read(scan)) == WithPair(ms, pairs[0], scan)
  {
    hide Assign, CharsRead, Meaning;
  }

  lemma {:induction false} PairsAreRead(f: Features, scan: DoubleScanner, pairs: seq<Pair>, rest: seq<Token>, name: string,
                                        ms: seq<Member>, errors: Errors)
    requires pairs != [] && (forall i :: 0 <= i < |pairs| ==> IsPair(pairs[i])) && Scans(scan)
    ensures Means(ReadMembers(f, scan, PairsTokens(pairs) + ([OBJECT_END] + rest), name, ms, errors), PairsAccepted(pairs),
                  Object(MembersOf(pairs, ms, Read(scan))), errors, rest)
    decreases pairs, 0
  {
    hide ReadNamedMember, PairTokens, PairsTokens, AcceptedPair, PairsAccepted, Meaning, MembersOf, IsPair, Scans, Assign, CharsRead, WithPair;
    var p := pairs[0];
    PairsAcceptedStep(pairs);
    PairsTokensStep(pairs);
    MembersOfStep(pairs, ms, scan);
    if |pairs| == 1 {
      var tail := [OBJECT_END] + rest;
      assert tail[1..] == rest;
      PairIsRead(f, scan, p, tail, name, ms, errors);
      assert pairs[1..] == [];
      NothingToAccept();
    } else {
      var more := PairsTokens(pairs[1..]) + ([OBJECT_END] + rest);
      RegroupTokens(PairTokens(p), PairsTokens(pairs[1..]), [OBJECT_END] + rest);
      assert ([COMMA] + more)[1..] == more;
      PairIsRead(f, scan, p, [COMMA] + more, name, ms, errors);
      PairsAreRead(f, scan, pairs[1..], rest, CharsRead(p.name), WithPair(ms, p, scan), errors);
    }
  }

  /** Strict mode asks for an array, an object or null. */
  predicate RootAllowed(f: Features, j: Json) { !f.strictRoot || j.ArrayText? || j.ObjectText? || j.NullText? }

  /** Every text of the grammar, with any white space, any escapes, and names in any order and
      number, is parsed without an error if and only if every high surrogate has another escape
      behind it, and strict mode allows its root. */
  lemma JsonTextIsParsed(f: Features, scan: DoubleScanner, i: Item, root: Value)
    requires IsItem(i) && Scans(scan)
    ensures var text := SpelledItem(i);
            var o := Parse(f, scan, Lex(text), root, text);
            (o.ok <==> Accepted(i.value) && RootAllowed(f, i.value)) && (o.ok <==> o.errors == []) &&
            (Accepted(i.value) ==> o.value == Meaning(i.value, Read(scan)))
  {
    hide ReadValue, Lex, Tokens, Spells, SpelledItem, Accepted, Scans, IsJson, Meaning;
    var text := SpelledItem(i);
    ItemSpells(i);
    SpellsLex(text, Tokens(i.value));
    assert Tokens(i.value) + [] == Tokens(i.value);
    ValueIsRead(f, scan, i.value, [], root, []);
    ParseAccounts(f, scan, Lex(text), root, text);
    MeaningIsContainer(i.value, scan);
  }

  /** If all its surrogates are well paired and no integer slips past the overflow guards, the
      value is what the text means by the grammar. That this is also necessary is said of one
      string by MeaningExactly and of one number by NumberExactly. */
  lemma JsonTextHasItsMeaning(f: Features, scan: DoubleScanner, i: Item, root: Value)
    requires IsItem(i) && Scans(scan) && Meaningful(i.value)
    ensures var text := SpelledItem(i);
            var o := Parse(f, scan, Lex(text), root, text);
            (o.ok <==> RootAllowed(f, i.value)) && o.value == Meaning(i.value, Meant(scan))
  {
    hide Lex, SpelledItem, Accepted, Meaningful, Scans, IsJson, Meaning, Parse;
    MeaningAgrees(i.value, scan);
    JsonTextIsParsed(f, scan, i, root);
  }

  lemma MeaningIsContainer(j: Json, scan: DoubleScanner)
    requires IsJson(j) && Scans(scan)
    ensures var v := Meaning(j, Read(scan)); (v.IsArray() || v.IsObject()) <==> (j.ArrayText? || j.ObjectText? || j.NullText?)
  {
    hide Scans, IsNumeral, NumeralText, CharsRead, ItemMeanings, MembersOf, DecodeNumber;
    if j.NumberText? {
      NumeralIsDecoded(j.n, scan);
      NumberIsNotNull(NumeralText(j.n), scan);
    }
  }

  // ---------------------------------------------------------------- writing

  /** The first token of a text stands behind blanks. */
  lemma TakeToken(s: string, t: Token, more: seq<Token>) returns (blank: string, rest: string)
    requires Lex(s) == [t] + more
    ensures IsBlank(blank) && s == blank + t.text + rest && Lex(rest) == more
    ensures SpaceLength(s) == 0 ==> blank == ""
  {
    hide ScanToken, IsBlank;
    var n := SpaceLength(s);
    var u := s[n..];
    LexStep(s, t, more);
    var k := ScanToken(u).1;
    blank, rest := s[..n], u[k..];
    SpacesAreBlank(s);
    Rejoin(s, n, k);
  }

  lemma LexStep(s: string, t: Token, more: seq<Token>)
    requires Lex(s) == [t] + more
    ensures SpaceLength(s) < |s|
    ensures var u := s[SpaceLength(s)..]; var k := ScanToken(u).1; t.text == u[..k] && Lex(u[k..]) == more
  {
    hide ScanToken;
    assert Lex(s)[1..] == more && Lex(s)[0] == t;
  }

  lemma Rejoin(s: string, n: nat, k: nat)
    requires n + k <= |s|
    ensures s == s[..n] + s[n..][..k] + s[n..][k..]
  {
  }

  /** The blanks at the head of a text. */
  lemma TakeBlank(s: string) returns (blank: string, rest: string)
    ensures IsBlank(blank) && s == blank + rest && Lex(rest) == Lex(s) && SpaceLength(rest) == 0
  {
    hide Lex, SpaceLength, IsBlank;
    var n := SpaceLength(s);
    blank, rest := s[..n], s[n..];
    SpacesAreBlank(s);
    LexSkipsSpaces(s);
    SpaceLengthOfRest(s);
    assert s == s[..n] + s[n..];
  }

  /** A text that has the tokens of a value of the grammar is one itself: only white space can
      stand between tokens. */
  lemma {:induction false} Respaced(j: Json, s: string, more: seq<Token>) returns (before: string, r: Json, rest: string)
    requires IsJson(j) && Lex(s) == Tokens(j) + more
    ensures IsBlank(before) && IsJson(r) && s == before + Spelled(r) + rest && Lex(rest) == more
    decreases j
  {
    hide Lex, AreChars, IsNumeral, StringText, NumeralText, IsBlank, ItemsTokens, PairsTokens;
    match j
    case ArrayText(_, items) =>
      var t;
      assert Lex(s) == [ARRAY_BEGIN] + (ItemsTokens(items) + [ARRAY_END] + more);
      before, t := TakeToken(s, ARRAY_BEGIN, ItemsTokens(items) + [ARRAY_END] + more);
      r, rest := ArrayRespaced(items, t, more);
      Regroup(before, "[", t, Spelled(r)[1..], rest);
    case ObjectText(_, pairs) =>
      var t;
      assert Lex(s) == [OBJECT_BEGIN] + (PairsTokens(pairs) + [OBJECT_END] + more);
      before, t := TakeToken(s, OBJECT_BEGIN, PairsTokens(pairs) + [OBJECT_END] + more);
      r, rest := ObjectRespaced(pairs, t, more);
      Regroup(before, "{", t, Spelled(r)[1..], rest);
    case _ =>
      before, rest := TakeToken(s, Tokens(j)[0], more);
      r := j;
  }

  lemma Regroup(a: string, b: string, t: string, u: string, v: string)
    requires t == u + v
    ensures a + b + t == a + (b + u) + v
  {
  }

  lemma {:induction false} ArrayRespaced(items: seq<Item>, t: string, more: seq<Token>) returns (r: Json, rest: string)
    requires (forall i :: 0 <= i < |items| ==> IsItem(items[i])) && Lex(t) == ItemsTokens(items) + [ARRAY_END] + more
    ensures r.ArrayText? && IsJson(r) && Spelled(r) != "" && "[" + t == Spelled(r) + rest && Spelled(r)[0] == '['
    ensures t == Spelled(r)[1..] + rest && Lex(rest) == more
    decreases items, 1
  {
    hide Lex, IsItem, ItemsTokens, SpelledItems;
    if items == [] {
      NoItemsTokens();
      assert Lex(t) == [ARRAY_END] + more;
      var space;
      space, rest := TakeToken(t, ARRAY_END, more);
      r := ArrayText(space, []);
    } else {
      var items', u, blank;
      assert Lex(t) == ItemsTokens(items) + ([ARRAY_END] + more);
      items', u := ItemsRespaced(items, t, [ARRAY_END] + more);
      blank, rest := TakeToken(u, ARRAY_END, more);
      r := ArrayText("", items');
    }
    assert Spelled(r)[1..] + rest == t;
  }

  lemma {:induction false} ItemRespaced(i: Item, s: string, more: seq<Token>) returns (r: Item, rest: string)
    requires IsItem(i) && Lex(s) == Tokens(i.value) + more
    ensures IsItem(r) && s == SpelledItem(r) + rest && Lex(rest) == more && SpaceLength(rest) == 0
    decreases i
  {
    hide Lex, Tokens, Spelled, IsJson, IsBlank;
    var before, v, t := Respaced(i.value, s, more);
    var after;
    after, rest := TakeBlank(t);
    r := Item(before, v, after);
    assert before + Spelled(v) + (after + rest) == before + Spelled(v) + after + rest;
  }

  lemma ItemsTokensStep(items: seq<Item>)
    requires items != []
    ensures ItemsTokens(items) == if |items| == 1 then Tokens(items[0].value) else Tokens(items[0].value) + ([COMMA] + ItemsTokens(items[1..]))
  {
    hide Tokens, PairTokens;
    assert Tokens(items[0].value) + [] == Tokens(items[0].value);
  }

  lemma SpelledItemsStep(items: seq<Item>)
    requires items != []
    ensures SpelledItems(items) == if |items| == 1 then SpelledItem(items[0]) else SpelledItem(items[0]) + ("," + SpelledItems(items[1..]))
  {
    hide SpelledItem;
    assert SpelledItem(items[0]) + "" == SpelledItem(items[0]);
  }

  lemma {:induction false} ItemsRespaced(items: seq<Item>, s: string, more: seq<Token>) returns (r: seq<Item>, rest: string)
    requires items != [] && (forall i :: 0 <= i < |items| ==> IsItem(items[i])) && Lex(s) == ItemsTokens(items) + more
    ensures r != [] && (forall i :: 0 <= i < |r| ==> IsItem(r[i])) && s == SpelledItems(r) + rest && Lex(rest) == more
    ensures SpaceLength(rest) == 0
    decreases items, 0
  {
    hide Lex, Tokens, PairTokens, SpelledItem, SpelledPair, SpelledItems, SpelledPairs, ItemsTokens, PairsTokens, IsItem, IsPair, IsBlank, SpaceLength;
    ItemsTokensStep(items);
    if |items| == 1 {
      var i;
      i, rest := ItemRespaced(items[0], s, more);
      r := [i];
      SpelledItemsStep(r);
    } else {
      var tail := ItemsTokens(items[1..]) + more;
      RegroupTokens(Tokens(items[0].value), ItemsTokens(items[1..]), more);
      var i, t := ItemRespaced(items[0], s, [COMMA] + tail);
      var u := TakeComma(t, tail);
      var found;
      found, rest := ItemsRespaced(items[1..], u, more);
      r := [i] + found;
      assert r[1..] == found;
      SpelledItemsStep(r);
      Commas(s, SpelledItem(i), t, u, SpelledItems(found), rest);
    }
  }

  lemma RegroupTokens(a: seq<Token>, b: seq<Token>, more: seq<Token>)
    ensures a + ([COMMA] + b) + more == a + ([COMMA] + (b + more))
  {
  }

  lemma TakeComma(t: string, tail: seq<Token>) returns (u: string)
    requires Lex(t) == [COMMA] + tail && SpaceLength(t) == 0
    ensures t == "," + u && Lex(u) == tail
  {
    hide Lex, SpaceLength;
    var blank;
    blank, u := TakeToken(t, COMMA, tail);
    assert "" + "," + u == "," + u;
  }

  lemma Commas(s: string, a: string, t: string, u: string, b: string, rest: string)
    requires s == a + t && t == "," + u && u == b + rest
    ensures s == a + ("," + b) + rest
  {
  }

  lemma {:induction false} ObjectRespaced(pairs: seq<Pair>, t: string, more: seq<Token>) returns (r: Json, rest: string)
    requires (forall i :: 0 <= i < |pairs| ==> IsPair(pairs[i])) && Lex(t) == PairsTokens(pairs) + [OBJECT_END] + more
    ensures r.ObjectText? && IsJson(r) && Spelled(r) != "" && "{" + t == Spelled(r) + rest && Spelled(r)[0] == '{'
    ensures t == Spelled(r)[1..] + rest && Lex(rest) == more
    decreases pairs, 1
  {
    hide Lex, IsPair, PairsTokens, SpelledPairs;
    if pairs == [] {
      NoItemsTokens();
      assert Lex(t) == [OBJECT_END] + more;
      var space;
      space, rest := TakeToken(t, OBJECT_END, more);
      r := ObjectText(space, []);
    } else {
      var pairs', u, blank;
      assert Lex(t) == PairsTokens(pairs) + ([OBJECT_END] + more);
      pairs', u := PairsRespaced(pairs, t, [OBJECT_END] + more);
      blank, rest := TakeToken(u, OBJECT_END, more);
      r := ObjectText("", pairs');
    }
    assert Spelled(r)[1..] + rest == t;
  }

  lemma {:induction false} PairRespaced(p: Pair, s: string, more: seq<Token>) returns (r: Pair, rest: string)
    requires IsPair(p) && Lex(s) == PairTokens(p) + more
    ensures IsPair(r) && s == SpelledPair(r) + rest && Lex(rest) == more && SpaceLength(rest) == 0
    decreases p
  {
    hide Lex, Tokens, SpelledItem, StringText, IsBlank, AreChars, IsItem;
    var name := Token(StringToken, StringText(p.name));
    var tail := Tokens(p.item.value) + more;
    assert Lex(s) == [name] + ([COLON] + tail);
    var before, t := TakeToken(s, name, [COLON] + tail);
    var behind, u := TakeToken(t, COLON, tail);
    var i;
    i, rest := ItemRespaced(p.item, u, more);
    r := Pair(before, p.name, behind, i);
    assert before + name.text + (behind + ":" + (SpelledItem(i) + rest)) == before + name.text + behind + ":" + SpelledItem(i) + rest;
  }

  lemma PairsTokensStep(pairs: seq<Pair>)
    requires pairs != []
    ensures PairsTokens(pairs) == if |pairs| == 1 then PairTokens(pairs[0]) else PairTokens(pairs[0]) + ([COMMA] + PairsTokens(pairs[1..]))
  {
    hide Tokens, PairTokens;
    assert PairTokens(pairs[0]) + [] == PairTokens(pairs[0]);
  }

  lemma SpelledPairsStep(pairs: seq<Pair>)
    requires pairs != []
    ensures SpelledPairs(pairs) == if |pairs| == 1 then SpelledPair(pairs[0]) else SpelledPair(pairs[0]) + ("," + SpelledPairs(pairs[1..]))
  {
    hide SpelledPair;
    assert SpelledPair(pairs[0]) + "" == SpelledPair(pairs[0]);
  }

  lemma {:induction false} PairsRespaced(pairs: seq<Pair>, s: string, more: seq<Token>) returns (r: seq<Pair>, rest: string)
    requires pairs != [] && (forall i :: 0 <= i < |pairs| ==> IsPair(pairs[i])) && Lex(s) == PairsTokens(pairs) + more
    ensures r != [] && (forall i :: 0 <= i < |r| ==> IsPair(r[i])) && s == SpelledPairs(r) + rest && Lex(rest) == more
    ensures SpaceLength(rest) == 0
    decreases pairs, 0
  {
    hide Lex, Tokens, PairTokens, SpelledItem, SpelledPair, SpelledItems, SpelledPairs, ItemsTokens, PairsTokens, IsItem, IsPair, IsBlank, SpaceLength;
    PairsTokensStep(pairs);
    if |pairs| == 1 {
      var p;
      p, rest := PairRespaced(pairs[0], s, more);
      r := [p];
      SpelledPairsStep(r);
    } else {
      var tail := PairsTokens(pairs[1..]) + more;
      RegroupTokens(PairTokens(pairs[0]), PairsTokens(pairs[1..]), more);
      var p, t := PairRespaced(pairs[0], s, [COMMA] + tail);
      var u := TakeComma(t, tail);
      var ps;
      ps, rest := PairsRespaced(pairs[1..], u, more);
      r := [p] + ps;
      assert r[1..] == ps;
      SpelledPairsStep(r);
      Commas(s, SpelledPair(p), t, u, SpelledPairs(ps), rest);
    }
  }

  // ---------------------------------------------------------------- values as texts

  ghost predicate IsNumeralText(text: string) {
    exists n: Numeral :: IsNumeral(n) && NumeralText(n) == text
  }

  /** The C library prints the doubles of a value as numbers of the grammar. */
  ghost predicate PrintsNumerals(v: Value, d: Doubles) {
    match v
    case Real(r) => IsNumeralText(d.show(r))
    case Array(items) => forall i :: 0 <= i < |items| ==> PrintsNumerals(items[i], d)
    case Object(ms) => forall i :: 0 <= i < |ms| ==> PrintsNumerals(ms[i].value, d)
    case _ => true
  }

  /** The characters of a quoted string. */
  function CharOf(c: char): Char {
    if HasShortEscape(c) then Short(ShortEscape(c))
    else if IsControlCharacter(c) then Unicode(['0', '0', JsonString.HexDigit(c as int / 16), JsonString.HexDigit(c as int % 16)])
    else Plain(c)
  }

  function CharsOf(s: string): seq<Char> { if s == "" then [] else [CharOf(s[0])] + CharsOf(s[1..]) }

  lemma CharIsEscaped(c: char)
    requires c != NUL
    ensures IsChar(CharOf(c)) && CharText(CharOf(c)) == EscapeChar(c)
  {
    if !HasShortEscape(c) && IsControlCharacter(c) {
      HexIsDigit(c as int / 16);
      HexIsDigit(c as int % 16);
    }
  }

  lemma HexIsDigit(d: int)
    requires 0 <= d < 16
    ensures IsHexDigit(JsonString.HexDigit(d))
  {
  }

  lemma {:induction false} CharsAreEscaped(s: string)
    requires NUL !in s
    ensures AreChars(CharsOf(s)) && CharsText(CharsOf(s)) == Escape(s)
  {
    hide IsChar, CharText, CharOf, EscapeChar;
    if s != "" {
      CharIsEscaped(s[0]);
      CharsAreEscaped(s[1..]);
    }
  }

  lemma DigitsAreNumeral(minus: bool, n: nat)
    ensures IsNumeralText((if minus then "-" else "") + Digits(n))
  {
    hide Digits;
    DecimalOfDigits(n);
    DigitsOfZero();
    var r := Numeral(minus, Digits(n), "", NoExponent);
    assert IsNumeral(r) && NumeralText(r) == (if minus then "-" else "") + Digits(n);
  }

  lemma DigitsOfZero()
    ensures Digits(0) == "0"
  {
  }

  lemma IntegerIsNumeral(i: int)
    ensures IsLargestInt(i) ==> IsNumeralText(IntText(i))
    ensures IsLargestUInt(i) ==> IsNumeralText(UIntText(i))
  {
    hide Digits, IsNumeralText;
    if IsLargestInt(i) {
      var m := ToUnsigned(if i < 0 then Negate(i) else i);
      DigitsAreNumeral(i < 0, m);
      assert "" + Digits(m) == Digits(m);
    }
    if IsLargestUInt(i) {
      DigitsAreNumeral(false, i);
      assert "" + Digits(i) == Digits(i);
    }
  }

  /** A value has the tokens of some text of the grammar. */
  lemma {:induction false} ValueHasText(v: Value, d: Doubles) returns (j: Json)
    requires Storable(v, d) && PrintsNumerals(v, d)
    ensures IsJson(j) && Tokens(j) == Lexemes(v, d)
    decreases v, 1
  {
    hide IsNumeral, NumeralText, AreChars, CharsText;
    match v
    case Null => return NullText;
    case Bool(b) => return if b then TrueText else FalseText;
    case Int(i) => IntegerIsNumeral(i); j := NumberHasText(IntText(i));
    case UInt(u) => IntegerIsNumeral(u); j := NumberHasText(UIntText(u));
    case Real(r) => j := NumberHasText(d.show(r));
    case Str(s) => CharsAreEscaped(s); return Chars(CharsOf(s));
    case Array(items) => var found := ItemsHaveText(items, d); return ArrayText("", found);
    case Object(ms) => var ps := MembersHaveText(ms, d); return ObjectText("", ps);
  }

  lemma NumberHasText(text: string) returns (j: Json)
    requires IsNumeralText(text)
    ensures IsJson(j) && Tokens(j) == [Token(NumberToken, text)]
  {
    var n: Numeral :| IsNumeral(n) && NumeralText(n) == text;
    return NumberText(n);
  }

  lemma {:induction false} ItemsHaveText(items: seq<Value>, d: Doubles) returns (found: seq<Item>)
    requires forall i :: 0 <= i < |items| ==> Storable(items[i], d) && PrintsNumerals(items[i], d)
    ensures |found| == |items| && (forall i :: 0 <= i < |found| ==> IsItem(found[i])) && ItemsTokens(found) == ItemLexemes(items, d)
    decreases items, 0
  {
    hide Storable, PrintsNumerals, Lexemes, Tokens, IsJson;
    if items == [] { return []; }
    var j := ValueHasText(items[0], d);
    var rest := ItemsHaveText(items[1..], d);
    found := [Item("", j, "")] + rest;
    assert found[1..] == rest;
    assert IsItem(found[0]);
    if |items| == 1 { assert Tokens(j) + [] == Tokens(j); }
    else { assert Tokens(j) + ([COMMA] + ItemsTokens(rest)) == Tokens(j) + [COMMA] + ItemsTokens(rest); }
  }

  lemma {:induction false} MemberHasText(m: Member, d: Doubles) returns (p: Pair)
    requires NUL !in m.key && Storable(m.value, d) && PrintsNumerals(m.value, d)
    ensures IsPair(p) && PairTokens(p) == MemberLexeme(m, d)
    decreases m, 0
  {
    hide Storable, PrintsNumerals, Lexemes, Tokens, IsJson, AreChars;
    CharsAreEscaped(m.key);
    var j := ValueHasText(m.value, d);
    p := Pair("", CharsOf(m.key), "", Item("", j, ""));
  }

  lemma {:induction false} MembersHaveText(ms: seq<Member>, d: Doubles) returns (ps: seq<Pair>)
    requires forall i :: 0 <= i < |ms| ==> NUL !in ms[i].key && Storable(ms[i].value, d) && PrintsNumerals(ms[i].value, d)
    ensures |ps| == |ms| && (forall i :: 0 <= i < |ps| ==> IsPair(ps[i])) && PairsTokens(ps) == MemberLexemes(ms, d)
    decreases ms, 0
  {
    hide Storable, PrintsNumerals, MemberLexeme, PairTokens, IsPair;
    if ms == [] { return []; }
    var p := MemberHasText(ms[0], d);
    var rest := MembersHaveText(ms[1..], d);
    ps := [p] + rest;
    assert ps[1..] == rest;
    if |ms| == 1 { assert PairTokens(p) + [] == PairTokens(p); }
    else { assert PairTokens(p) + ([COMMA] + PairsTokens(rest)) == PairTokens(p) + [COMMA] + PairsTokens(rest); }
  }

  lemma NoTokenIsBlank(s: string)
    requires Lex(s) == []
    ensures IsBlank(s)
  {
    SpacesAreBlank(s);
    assert SpaceLength(s) == |s| && s[..|s|] == s;
  }

  /** Whatever a writer makes of a value is a text of the grammar: FastWriter in both modes and
      StyledWriter write texts with the tokens of the value. */
  lemma WrittenIsJson(v: Value, d: Doubles, text: string)
    requires Storable(v, d) && PrintsNumerals(v, d) && Lex(text) == Lexemes(v, d)
    ensures IsJsonText(text)
  {
    hide Lex, Lexemes, Storable, PrintsNumerals, Tokens, Spelled, IsJson, IsBlank;
    var j := ValueHasText(v, d);
    assert Tokens(j) + [] == Tokens(j);
    var before, r, after := Respaced(j, text, []);
    NoTokenIsBlank(after);
    var i := Item(before, r, after);
    assert IsItem(i) && SpelledItem(i) == text;
  }

  // ---------------------------------------------------------------- the compact text is the shortest

  function TextLength(toks: seq<Token>): nat { if toks == [] then 0 else |toks[0].text| + TextLength(toks[1..]) }

  lemma {:induction false} CompactLength(toks: seq<Token>)
    ensures |Compact(toks, false)| == TextLength(toks)
  {
    if toks != [] { CompactLength(toks[1..]); }
  }

  lemma {:induction false} LaidIsLonger(s: string, toks: seq<Token>, rest: string)
    requires Laid(s, toks, rest)
    ensures |s| >= TextLength(toks) + |rest|
    decreases |toks|
  {
    hide IsBlank, IsProper, MayEnd;
    if toks != [] {
      var blank, t :| StartsWith(s, blank, toks[0], t) && Laid(t, toks[1..], rest);
      LaidIsLonger(t, toks[1..], rest);
    }
  }

  /** No text with the tokens of a value is shorter than the one FastWriter puts in front of its line feed. */
  lemma CompactIsShortest(v: Value, d: Doubles, text: string)
    requires Storable(v, d) && Lex(text) == Lexemes(v, d)
    ensures |Compact(Lexemes(v, d), false)| <= |text|
  {
    hide Lex, Lexemes, Storable, Compact, Laid, TextLength, Writable;
    LexemesSeparable(v, d);
    var toks := Lexemes(v, d);
    assert NoErrors(toks) by { WritableIsNoError(toks); }
    assert toks + [] == toks;
    var rest := LexedIsLaid(text, toks, []);
    LaidIsLonger(text, toks, rest);
    CompactLength(toks);
  }

  lemma WritableIsNoError(toks: seq<Token>)
    requires Separable(toks)
    ensures NoErrors(toks)
  {
  }

  /** In the YAML mode one blank is added for every colon. */
  lemma {:induction false} YamlAddsBlanks(toks: seq<Token>)
    ensures |Compact(toks, true)| == |Compact(toks, false)| + |Colons(toks)|
  {
    if toks != [] { YamlAddsBlanks(toks[1..]); }
  }

  function Colons(toks: seq<Token>): seq<Token> {
    if toks == [] then [] else (if toks[0].kind == MemberSeparator then [toks[0]] else []) + Colons(toks[1..])
  }
}
