/** What Reader makes of a list of tokens, as functions: the value, the errors recorded so far
    and the tokens left. The class Reader is proved to compute exactly this. */
module JsonParser {
  import opened CString
  import opened JsonValue
  import opened JsonLexer
  import opened JsonNumber
  import opened JsonString

  datatype Features = Features(allowComments: bool, strictRoot: bool)

  /** An entry of errors_: the message and the token it is about. */
  datatype Error = Error(message: string, token: Token)

  type Errors = seq<Error>

  /** The outcome of reading one value; errors is the whole of errors_ afterwards. */
  datatype Outcome = Outcome(ok: bool, value: Value, errors: Errors, rest: seq<Token>)

  const VALUE_EXPECTED := "Syntax error: value, object or array expected."
  const MISSING_COLON := "Missing ':' after object member name"
  const MISSING_MEMBER_SEPARATOR := "Missing ',' or '}' in object declaration"
  const MISSING_MEMBER_NAME := "Missing '}' or object member name"
  const MISSING_ITEM_SEPARATOR := "Missing ',' or ']' in array declaration"
  const ROOT_EXPECTED := "A valid JSON document must be either an array or an object value."

  /** The first token from here on that is not a comment. */
  function SkipComments(tok: Token, toks: seq<Token>): (r: (Token, seq<Token>))
    ensures |r.1| <= |toks|
    ensures r.0.kind != CommentToken
    decreases |toks| + if tok.kind == CommentToken then 1 else 0
  {
    if tok.kind != CommentToken then (tok, toks)
    else
      var (t, rest) := Next(toks);
      SkipComments(t, rest)
  }

  /** skipCommentTokens */
  function FirstToken(f: Features, toks: seq<Token>): (r: (Token, seq<Token>))
    ensures |r.1| <= |toks|
    ensures r.0.kind != EndOfStream ==> |r.1| < |toks|
  {
    var (t, rest) := Next(toks);
    if f.allowComments then SkipComments(t, rest) else (t, rest)
  }

  /** recoverFromError: the tokens after the next one of the given kind. */
  function Recover(toks: seq<Token>, until: TokenKind): (rest: seq<Token>)
    ensures |rest| <= |toks|
  {
    var (t, rest) := Next(toks);
    if t.kind == until || t.kind == EndOfStream then rest else Recover(rest, until)
  }

  /** The first token of the given kind, or the end of the stream. */
  predicate StopsAt(toks: seq<Token>, until: TokenKind, k: nat) {
    k < |toks| && (toks[k].kind == until || toks[k].kind == EndOfStream) &&
    forall j :: 0 <= j < k ==> toks[j].kind != until && toks[j].kind != EndOfStream
  }

  /** Recovering drops the tokens up to there and that one, or all of them if there is none. */
  lemma {:induction false} RecoverExactly(toks: seq<Token>, until: TokenKind)
    ensures forall k :: StopsAt(toks, until, k) ==> Recover(toks, until) == toks[k + 1..]
    ensures (forall k: nat :: !StopsAt(toks, until, k)) ==> Recover(toks, until) == []
    decreases |toks|
  {
    if toks != [] {
      var rest := toks[1..];
      if toks[0].kind == until || toks[0].kind == EndOfStream {
        assert StopsAt(toks, until, 0);
      } else {
        RecoverExactly(rest, until);
        forall k: nat | StopsAt(toks, until, k)
          ensures Recover(toks, until) == toks[k + 1..]
        {
          assert StopsAt(rest, until, k - 1) && rest[k..] == toks[k + 1..];
        }
        if k: nat :| StopsAt(rest, until, k) {
          assert forall j :: 1 <= j <= k + 1 ==> toks[j] == rest[j - 1];
          assert StopsAt(toks, until, k + 1);
        }
      }
    }
  }

  function Fail(value: Value, errors: Errors, toks: seq<Token>, until: TokenKind): (o: Outcome)
    ensures |o.rest| <= |toks|
  {
    Outcome(false, value, errors, Recover(toks, until))
  }

  /** decodeNumber and decodeDouble on the current value. */
  function NumberOutcome(tok: Token, cur: Value, errors: Errors, scan: DoubleScanner, rest: seq<Token>): Outcome {
    match DecodeNumber(tok.text, scan)
    case Number(v) => Outcome(true, v, errors, rest)
    case NotANumber(message) => Outcome(false, cur, errors + [Error(message, tok)], rest)
  }

  /** decodeString on the current value, which keeps what precedes a NUL. */
  function StringOutcome(tok: Token, cur: Value, errors: Errors, rest: seq<Token>): Outcome {
    match DecodeString(tok.text)
    case Decoded(s) => Outcome(true, Str(CStr(s)), errors, rest)
    case BadString(message) => Outcome(false, cur, errors + [Error(message, tok)], rest)
  }

  /** readValue; cur is what the current value holds before. */
  function ReadValue(f: Features, scan: DoubleScanner, toks: seq<Token>, cur: Value, errors: Errors): (o: Outcome)
    ensures |o.rest| <= |toks|
    decreases |toks|, 1
  {
    var (tok, rest) := FirstToken(f, toks);
    match tok.kind
    case ObjectBegin => ReadMembers(f, scan, rest, "", [], errors)
    case ArrayBegin => ReadArrayItems(f, scan, rest, errors)
    case NumberToken => NumberOutcome(tok, cur, errors, scan, rest)
    case StringToken => StringOutcome(tok, cur, errors, rest)
    case TrueToken => Outcome(true, Bool(true), errors, rest)
    case FalseToken => Outcome(true, Bool(false), errors, rest)
    case NullToken => Outcome(true, Null, errors, rest)
    case _ => Outcome(false, cur, errors + [Error(VALUE_EXPECTED, tok)], rest)
  }

  /** readArray, after its opening bracket. */
  function ReadArrayItems(f: Features, scan: DoubleScanner, toks: seq<Token>, errors: Errors): (o: Outcome)
    ensures |o.rest| <= |toks|
    decreases |toks|, 4
  {
    if toks != [] && toks[0].kind == ArrayEnd then Outcome(true, Array([]), errors, toks[1..])
    else ReadItems(f, scan, toks, [], errors)
  }

  /** One turn of the loop of readArray or readObject: it ends the container or goes on with
      what the container holds so far. */
  datatype Turn<+T> = Done(outcome: Outcome) | More(errors: Errors, rest: seq<Token>, state: T)

  ghost predicate Within<T>(t: Turn<T>, n: nat) {
    if t.Done? then |t.outcome.rest| <= n else |t.rest| <= n
  }

  /** The loop of readArray, with the items read so far. */
  function ReadItems(f: Features, scan: DoubleScanner, toks: seq<Token>, items: seq<Value>, errors: Errors): (o: Outcome)
    ensures |o.rest| <= |toks|
    decreases |toks|, 3
  {
    match ReadItem(f, scan, toks, items, errors)
    case Done(o) => o
    case More(errors', rest, items') => ReadItems(f, scan, rest, items', errors')
  }

  /** One turn of readArray. */
  function ReadItem(f: Features, scan: DoubleScanner, toks: seq<Token>, items: seq<Value>, errors: Errors): (t: Turn<seq<Value>>)
    ensures Within(t, |toks|) && (t.More? ==> |t.rest| < |toks|)
    decreases |toks|, 2
  {
    var v := ReadValue(f, scan, toks, Null, errors);
    var items' := items + [v.value];
    if !v.ok then Done(Fail(Array(items'), v.errors, v.rest, ArrayEnd))
    else
      var (t, afterItem) := Next(v.rest);
      var (tok, rest) := SkipComments(t, afterItem);
      if tok.kind == ArrayEnd then Done(Outcome(true, Array(items'), v.errors, rest))
      else if tok.kind != ArraySeparator then
        Done(Fail(Array(items'), v.errors + [Error(MISSING_ITEM_SEPARATOR, tok)], rest, ArrayEnd))
      else More(v.errors, rest, items')
  }

  /** The loop of readObject, with the last member name and the members so far. */
  function ReadMembers(f: Features, scan: DoubleScanner, toks: seq<Token>, name: string, ms: seq<Member>, errors: Errors): (o: Outcome)
    ensures |o.rest| <= |toks|
    decreases |toks|, 3
  {
    match ReadNamedMember(f, scan, toks, name, ms, errors)
    case Done(o) => o
    case More(errors', rest, (name', ms')) => ReadMembers(f, scan, rest, name', ms', errors')
  }

  /** One turn of readObject. A closing brace ends the object only while no member name is held,
      that is before the first member or after a member with an empty name. */
  function ReadNamedMember(f: Features, scan: DoubleScanner, toks: seq<Token>, name: string, ms: seq<Member>, errors: Errors)
    : (t: Turn<(string, seq<Member>)>)
    ensures Within(t, |toks|) && (t.More? ==> |t.rest| < |toks|)
    decreases |toks|, 2
  {
    var (t, afterFirst) := Next(toks);
    var (tok, afterName) := SkipComments(t, afterFirst);
    if tok.kind == ObjectEnd && name == "" then Done(Outcome(true, Object(ms), errors, afterName))
    else if tok.kind != StringToken then
      Done(Fail(Object(ms), errors + [Error(MISSING_MEMBER_NAME, tok)], afterName, ObjectEnd))
    else
      match DecodeString(tok.text)
      case BadString(message) => Done(Fail(Object(ms), errors + [Error(message, tok)], afterName, ObjectEnd))
      case Decoded(name') =>
        match ReadMember(f, scan, afterName, name', ms, errors)
        case Done(o) => Done(o)
        case More(errors', rest, ms') => More(errors', rest, (name', ms'))
  }

  /** One turn of readObject, from after the member name. A comment behind the value lets any
      token but a closing brace pass for the separator. */
  function ReadMember(f: Features, scan: DoubleScanner, toks: seq<Token>, name: string, ms: seq<Member>, errors: Errors): (t: Turn<seq<Member>>)
    ensures Within(t, |toks|)
    decreases |toks|, 2
  {
    var (colon, afterColon) := Next(toks);
    if colon.kind != MemberSeparator then
      Done(Fail(Object(ms), errors + [Error(MISSING_COLON, colon)], afterColon, ObjectEnd))
    else
      var v := ReadValue(f, scan, afterColon, Resolve(ms, CStr(name)), errors);
      var ms' := Assign(ms, CStr(name), v.value);
      if !v.ok then Done(Fail(Object(ms'), v.errors, v.rest, ObjectEnd))
      else
        var (t, afterValue) := Next(v.rest);
        if t.kind != ObjectEnd && t.kind != ArraySeparator && t.kind != CommentToken then
          Done(Fail(Object(ms'), v.errors + [Error(MISSING_MEMBER_SEPARATOR, t)], afterValue, ObjectEnd))
        else
          var (comma, rest) := SkipComments(t, afterValue);
          if comma.kind == ObjectEnd then Done(Outcome(true, Object(ms'), v.errors, rest))
          else More(v.errors, rest, ms')
  }

  /** Reader::parse on the tokens of a document. */
  function Parse(f: Features, scan: DoubleScanner, toks: seq<Token>, root: Value, document: string): Outcome {
    var o := ReadValue(f, scan, toks, root, []);
    var rest := FirstToken(f, o.rest).1;
    if f.strictRoot && !o.value.IsArray() && !o.value.IsObject() then
      Outcome(false, o.value, o.errors + [Error(ROOT_EXPECTED, Token(ErrorToken, document))], rest)
    else o.(rest := rest)
  }

  lemma NumberIsNotNull(text: string, scan: DoubleScanner)
    ensures DecodeNumber(text, scan).Number? ==>
              var v := DecodeNumber(text, scan).value; v.Int? || v.UInt? || v.Real?
  {
    AddDigitsInRange(Unsigned(text), 0, MaxMagnitude(IsNegative(text)));
  }

  lemma ItemIsInArray(f: Features, scan: DoubleScanner, toks: seq<Token>, items: seq<Value>, errors: Errors)
    ensures var t := ReadItem(f, scan, toks, items, errors); t.Done? ==> t.outcome.value.Array?
  {
    hide ReadValue;
  }

  lemma ArrayIsArray(f: Features, scan: DoubleScanner, toks: seq<Token>, errors: Errors)
    ensures ReadArrayItems(f, scan, toks, errors).value.Array?
  {
    hide ReadItems;
    ItemsAreArray(f, scan, toks, [], errors);
  }

  lemma {:induction false} ItemsAreArray(f: Features, scan: DoubleScanner, toks: seq<Token>, items: seq<Value>, errors: Errors)
    ensures ReadItems(f, scan, toks, items, errors).value.Array?
    decreases |toks|
  {
    hide ReadItem;
    ItemIsInArray(f, scan, toks, items, errors);
    match ReadItem(f, scan, toks, items, errors)
    case Done(_) =>
    case More(errors', rest, items') => ItemsAreArray(f, scan, rest, items', errors');
  }

  lemma MemberIsInObject(f: Features, scan: DoubleScanner, toks: seq<Token>, name: string, ms: seq<Member>, errors: Errors)
    ensures var t := ReadNamedMember(f, scan, toks, name, ms, errors); t.Done? ==> t.outcome.value.Object?
  {
    hide ReadValue, Assign, Resolve, DecodeString, CStr;
  }

  lemma {:induction false} MembersAreObject(f: Features, scan: DoubleScanner, toks: seq<Token>, name: string, ms: seq<Member>, errors: Errors)
    ensures ReadMembers(f, scan, toks, name, ms, errors).value.Object?
    decreases |toks|
  {
    hide ReadNamedMember;
    MemberIsInObject(f, scan, toks, name, ms, errors);
    match ReadNamedMember(f, scan, toks, name, ms, errors)
    case Done(_) =>
    case More(errors', rest, (name', ms')) => MembersAreObject(f, scan, rest, name', ms', errors');
  }

  /** In strict mode, what a successful parse has for its root is an array or an object, as the
      error message says, if and only if the text does not start with the word null. */
  lemma StrictRootExactly(f: Features, scan: DoubleScanner, toks: seq<Token>, root: Value, document: string)
    requires f.strictRoot
    ensures var o := Parse(f, scan, toks, root, document);
            (o.ok ==> o.value.Array? || o.value.Object?) <==> FirstToken(f, toks).0.kind != NullToken
  {
    hide FirstToken, ReadMembers, ReadArrayItems, DecodeNumber, DecodeString;
    var (tok, rest) := FirstToken(f, toks);
    match tok.kind
    case ObjectBegin => MembersAreObject(f, scan, rest, "", [], []);
    case ArrayBegin => ArrayIsArray(f, scan, rest, []);
    case NumberToken => NumberIsNotNull(tok.text, scan);
    case _ =>
  }

  /** The text null is accepted in strict mode. */
  lemma StrictAcceptsNull(f: Features, scan: DoubleScanner, root: Value)
    requires f.strictRoot
    ensures var o := Parse(f, scan, Lex("null"), root, "null"); o.ok && o.value == Null && o.errors == []
  {
    hide Lex, Closed;
    var t := Token(NullToken, "null");
    FixedIsClosed(t);
    ClosedSpells("null", [t]);
    SpellsLex("null", [t]);
  }

  // ---------------------------------------------------------------- error accounting

  /** Errors are only ever added, and reading fails exactly when it adds one. */
  ghost predicate Accounts(ok: bool, before: Errors, after: Errors) {
    before <= after && (ok <==> before == after)
  }

  lemma {:induction false} ReadValueAccounts(f: Features, scan: DoubleScanner, toks: seq<Token>, cur: Value, errors: Errors)
    ensures var o := ReadValue(f, scan, toks, cur, errors); Accounts(o.ok, errors, o.errors)
    decreases |toks|, 1
  {
    var (tok, rest) := FirstToken(f, toks);
    match tok.kind
    case ObjectBegin => ReadMembersAccounts(f, scan, rest, "", [], errors);
    case ArrayBegin => ReadItemsAccounts(f, scan, rest, [], errors);
    case _ =>
  }

  ghost predicate TurnAccounts<T>(t: Turn<T>, before: Errors) {
    match t
    case Done(o) => Accounts(o.ok, before, o.errors)
    case More(after, _, _) => before == after
  }

  lemma {:induction false} ReadItemsAccounts(f: Features, scan: DoubleScanner, toks: seq<Token>, items: seq<Value>, errors: Errors)
    ensures var o := ReadItems(f, scan, toks, items, errors); Accounts(o.ok, errors, o.errors)
    decreases |toks|, 3
  {
    ReadValueAccounts(f, scan, toks, Null, errors);
    match ReadItem(f, scan, toks, items, errors)
    case Done(_) =>
    case More(errors', rest, items') => ReadItemsAccounts(f, scan, rest, items', errors');
  }

  lemma {:induction false} ReadMembersAccounts(f: Features, scan: DoubleScanner, toks: seq<Token>, name: string, ms: seq<Member>, errors: Errors)
    ensures var o := ReadMembers(f, scan, toks, name, ms, errors); Accounts(o.ok, errors, o.errors)
    decreases |toks|, 3
  {
    var (t, afterFirst) := Next(toks);
    var (tok, afterName) := SkipComments(t, afterFirst);
    if tok.kind == StringToken && DecodeString(tok.text).Decoded? {
      ReadMemberAccounts(f, scan, afterName, DecodeString(tok.text).s, ms, errors);
    }
    match ReadNamedMember(f, scan, toks, name, ms, errors)
    case Done(_) =>
    case More(errors', rest, (name', ms')) => ReadMembersAccounts(f, scan, rest, name', ms', errors');
  }

  lemma {:induction false} ReadMemberAccounts(f: Features, scan: DoubleScanner, toks: seq<Token>, name: string, ms: seq<Member>, errors: Errors)
    ensures TurnAccounts(ReadMember(f, scan, toks, name, ms, errors), errors)
    decreases |toks|, 2
  {
    var (colon, afterColon) := Next(toks);
    if colon.kind == MemberSeparator {
      ReadValueAccounts(f, scan, afterColon, Resolve(ms, CStr(name)), errors);
    }
  }

  /** For every document and feature set, parse succeeds exactly when no error is recorded. */
  lemma ParseAccounts(f: Features, scan: DoubleScanner, toks: seq<Token>, root: Value, document: string)
    ensures var o := Parse(f, scan, toks, root, document); o.ok <==> o.errors == []
  {
    ReadValueAccounts(f, scan, toks, root, []);
  }
}
