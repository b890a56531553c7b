/** The value tree of jsoncpp (Json::Value): its storage invariants, the member map of an
    object and the ordering of values. A C++ char is a Dafny char. */
module JsonValue {
  import opened CString

  datatype Member = Member(key: string, value: Value)

  /** One constructor per ValueType, in the order of the enumeration. An object keeps its
      members the way std::map does, sorted by key; arrays are dense. */
  datatype Value =
    | Null
    | Int(i: int)
    | UInt(u: int)
    | Real(r: real)
    | Str(s: string)
    | Bool(b: bool)
    | Array(items: seq<Value>)
    | Object(members: seq<Member>)
  {
    function Rank(): (r: nat) {
      match this
      case Null => 0 case Int(_) => 1 case UInt(_) => 2 case Real(_) => 3
      case Str(_) => 4 case Bool(_) => 5 case Array(_) => 6 case Object(_) => 7
    }

    /** isArray and isObject: null is taken for an empty one of either kind. */
    predicate IsArray() { Null? || Array? }

    predicate IsObject() { Null? || Object? }

    function Size(): nat {
      match this
      case Array(items) => |items|
      case Object(members) => |members|
      case _ => 0
    }
  }

  const MAX_INT := 0x7FFF_FFFF
  const MAX_LARGEST_INT := 0x7FFF_FFFF_FFFF_FFFF
  const MAX_LARGEST_UINT := 0xFFFF_FFFF_FFFF_FFFF
  const TWO_64 := 0x1_0000_0000_0000_0000
  const TWO_63 := 0x8000_0000_0000_0000

  // ---------------------------------------------------------------- the member map

  /** std::map keeps its keys in strictly increasing order. */
  predicate Sorted(ms: seq<Member>) {
    forall j, k :: 0 <= j < k < |ms| ==> StrLess(ms[j].key, ms[k].key)
  }

  /** map::lower_bound: how many members come before the key. */
  function LowerBound(ms: seq<Member>, key: string): (p: nat)
    ensures p <= |ms|
    ensures forall j :: 0 <= j < p ==> StrLess(ms[j].key, key)
    ensures p < |ms| ==> !StrLess(ms[p].key, key)
  {
    if ms == [] || !StrLess(ms[0].key, key) then 0
    else
      var q := LowerBound(ms[1..], key);
      assert forall j :: 0 < j < q + 1 ==> ms[j] == ms[1..][j - 1];
      q + 1
  }

  predicate IsMember(ms: seq<Member>, key: string) {
    var p := LowerBound(ms, key);
    p < |ms| && ms[p].key == key
  }

  /** The value that operator[] refers to; a missing member is created as null. */
  function Resolve(ms: seq<Member>, key: string): Value {
    var p := LowerBound(ms, key);
    if p < |ms| && ms[p].key == key then ms[p].value else Null
  }

  /** The members after assigning through the reference operator[] gives out. */
  function Assign(ms: seq<Member>, key: string, v: Value): seq<Member> {
    var p := LowerBound(ms, key);
    ms[..p] + [Member(key, v)] + (if p < |ms| && ms[p].key == key then ms[p + 1..] else ms[p..])
  }

  ghost predicate HasKey(ms: seq<Member>, key: string) {
    exists k :: 0 <= k < |ms| && ms[k].key == key
  }

  lemma IsMemberIsHasKey(ms: seq<Member>, key: string)
    requires Sorted(ms)
    ensures IsMember(ms, key) <==> HasKey(ms, key)
  {
    if k :| 0 <= k < |ms| && ms[k].key == key {
      LookupAt(ms, key, k);
    }
  }

  /** Assigning a member keeps the map sorted, sets exactly that key and touches no other. */
  lemma AssignIsMapUpdate(ms: seq<Member>, key: string, v: Value, other: string)
    requires Sorted(ms)
    ensures Sorted(Assign(ms, key, v))
    ensures IsMember(Assign(ms, key, v), key) && Resolve(Assign(ms, key, v), key) == v
    ensures other != key ==> IsMember(Assign(ms, key, v), other) == IsMember(ms, other)
    ensures other != key ==> Resolve(Assign(ms, key, v), other) == Resolve(ms, other)
  {
    var ms' := Assign(ms, key, v);
    AssignSorted(ms, key, v);
    LookupAt(ms', key, LowerBound(ms, key));
    if other != key {
      IsMemberIsHasKey(ms, other);
      IsMemberIsHasKey(ms', other);
      if k :| 0 <= k < |ms| && ms[k].key == other {
        LookupAt(ms, other, k);
        var k' := AssignMoves(ms, key, v, k);
        LookupAt(ms', other, k');
      } else if k :| 0 <= k < |ms'| && ms'[k].key == other {
        var j := AssignComesFrom(ms, key, v, k);
      }
    }
  }

  lemma AssignMoves(ms: seq<Member>, key: string, v: Value, k: nat) returns (k': nat)
    requires k < |ms| && ms[k].key != key
    ensures k' < |Assign(ms, key, v)| && Assign(ms, key, v)[k'] == ms[k]
  {
    var p := LowerBound(ms, key);
    k' := if k < p then k else if ms[p].key == key then k else k + 1;
  }

  lemma AssignComesFrom(ms: seq<Member>, key: string, v: Value, k': nat) returns (k: nat)
    requires k' < |Assign(ms, key, v)| && Assign(ms, key, v)[k'].key != key
    ensures k < |ms| && Assign(ms, key, v)[k'] == ms[k]
  {
    var p := LowerBound(ms, key);
    k := if k' < p then k' else if p < |ms| && ms[p].key == key then k' else k' - 1;
  }

  lemma KeyBeforeTail(ms: seq<Member>, key: string, k: nat)
    requires Sorted(ms) && LowerBound(ms, key) <= k < |ms| && ms[k].key != key
    ensures StrLess(key, ms[k].key)
  {
    var p := LowerBound(ms, key);
    StrLessTotal(key, ms[p].key);
    if p < k && ms[p].key != key { StrLessTransitive(key, ms[p].key, ms[k].key); }
  }

  lemma AssignSorted(ms: seq<Member>, key: string, v: Value)
    requires Sorted(ms)
    ensures Sorted(Assign(ms, key, v))
  {
    var p := LowerBound(ms, key);
    var ms' := Assign(ms, key, v);
    var shift := if p < |ms| && ms[p].key == key then 0 else 1;
    StrLessIrreflexive(key);
    forall k | p < k < |ms'|
      ensures ms'[k] == ms[k - shift] && StrLess(key, ms'[k].key)
    {
      KeyBeforeTail(ms, key, k - shift);
    }
  }

  lemma LookupAt(ms: seq<Member>, key: string, k: nat)
    requires Sorted(ms) && k < |ms| && ms[k].key == key
    ensures LowerBound(ms, key) == k
    ensures IsMember(ms, key) && Resolve(ms, key) == ms[k].value
  {
    var p := LowerBound(ms, key);
    StrLessIrreflexive(key);
  }

  /** A key beyond every present one is added at the end, and was null before. */
  lemma AssignAtEnd(ms: seq<Member>, key: string, v: Value)
    requires forall j :: 0 <= j < |ms| ==> StrLess(ms[j].key, key)
    ensures Resolve(ms, key) == Null
    ensures Assign(ms, key, v) == ms + [Member(key, v)]
  {
    assert LowerBound(ms, key) == |ms|;
  }

  lemma {:induction false} LowerBoundIs(ms: seq<Member>, key: string, p: nat)
    requires p <= |ms|
    requires forall j :: 0 <= j < p ==> StrLess(ms[j].key, key)
    requires p < |ms| ==> !StrLess(ms[p].key, key)
    ensures LowerBound(ms, key) == p
  {
  }

  /** A second assignment to a key replaces the first. */
  lemma AssignTwice(ms: seq<Member>, key: string, v: Value, w: Value)
    ensures Resolve(Assign(ms, key, v), key) == v
    ensures Assign(Assign(ms, key, v), key, w) == Assign(ms, key, w)
  {
    var p, ms' := LowerBound(ms, key), Assign(ms, key, v);
    StrLessIrreflexive(key);
    LowerBoundIs(ms', key, p);
    assert ms'[..p] == ms[..p];
    assert ms'[p + 1..] == if p < |ms| && ms[p].key == key then ms[p + 1..] else ms[p..];
  }
}
