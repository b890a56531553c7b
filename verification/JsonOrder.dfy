/** Value::operator<, operator== and compare: the ordering of value trees. */
module JsonOrder {
  import opened CString
  import opened JsonValue

  ghost function Weight(v: Value): (w: nat)
    ensures w > 0
  {
    match v
    case Array(items) => 1 + ItemsWeight(items)
    case Object(members) => 1 + MembersWeight(members)
    case _ => 1
  }

  ghost function ItemsWeight(vs: seq<Value>): nat {
    if vs == [] then 0 else Weight(vs[0]) + ItemsWeight(vs[1..])
  }

  ghost function MembersWeight(ms: seq<Member>): nat {
    if ms == [] then 0 else Weight(ms[0].value) + MembersWeight(ms[1..])
  }

  /** operator<: by type, then by payload; containers by size and then as std::map does,
      that is lexicographically over the (key, value) pairs. */
  predicate Less(a: Value, b: Value)
    decreases Weight(a) + Weight(b), 0
  {
    if a.Rank() != b.Rank() then a.Rank() < b.Rank()
    else match a
      case Null => false
      case Int(i) => i < b.i
      case UInt(u) => u < b.u
      case Real(r) => r < b.r
      case Str(s) => StrLess(s, b.s)
      case Bool(p) => !p && b.b
      case Array(items) =>
        if |items| != |b.items| then |items| < |b.items| else ItemsLess(items, b.items)
      case Object(members) =>
        if |members| != |b.members| then |members| < |b.members| else MembersLess(members, b.members)
  }

  predicate ItemsLess(xs: seq<Value>, ys: seq<Value>)
    decreases ItemsWeight(xs) + ItemsWeight(ys), 1
  {
    ys != [] && (xs == [] || Less(xs[0], ys[0]) || (!Less(ys[0], xs[0]) && ItemsLess(xs[1..], ys[1..])))
  }

  /** operator< of std::pair: the key first, the value when neither key is less. */
  predicate MemberLess(x: Member, y: Member)
    decreases Weight(x.value) + Weight(y.value), 1
  {
    StrLess(x.key, y.key) || (!StrLess(y.key, x.key) && Less(x.value, y.value))
  }

  predicate MembersLess(xs: seq<Member>, ys: seq<Member>)
    decreases MembersWeight(xs) + MembersWeight(ys), 2
  {
    ys != [] && (xs == [] || MemberLess(xs[0], ys[0]) || (!MemberLess(ys[0], xs[0]) && MembersLess(xs[1..], ys[1..])))
  }

  /** operator== */
  predicate Equal(a: Value, b: Value)
    decreases a, 0
  {
    a.Rank() == b.Rank() &&
    match a
    case Null => true
    case Int(i) => i == b.i
    case UInt(u) => u == b.u
    case Real(r) => r == b.r
    case Str(s) => s == b.s
    case Bool(p) => p == b.b
    case Array(items) => |items| == |b.items| && ItemsEqual(items, b.items)
    case Object(members) => |members| == |b.members| && MembersEqual(members, b.members)
  }

  predicate ItemsEqual(xs: seq<Value>, ys: seq<Value>)
    requires |xs| == |ys|
    decreases xs, 1
  {
    xs == [] || (Equal(xs[0], ys[0]) && ItemsEqual(xs[1..], ys[1..]))
  }

  predicate MembersEqual(xs: seq<Member>, ys: seq<Member>)
    requires |xs| == |ys|
    decreases xs, 1
  {
    xs == [] || (xs[0].key == ys[0].key && Equal(xs[0].value, ys[0].value) && MembersEqual(xs[1..], ys[1..]))
  }

  /** Value::compare */
  function Compare(a: Value, b: Value): int {
    if Less(a, b) then -1 else if Less(b, a) then 1 else 0
  }

  // ---------------------------------------------------------------- equality is identity

  lemma {:induction false} EqualIsIdentity(a: Value, b: Value)
    ensures Equal(a, b) <==> a == b
    decreases a, 0
  {
    match a
    case Array(items) =>
      if b.Array? && |items| == |b.items| { ItemsEqualIsIdentity(items, b.items); }
    case Object(members) =>
      if b.Object? && |members| == |b.members| { MembersEqualIsIdentity(members, b.members); }
    case _ =>
  }

  lemma {:induction false} ItemsEqualIsIdentity(xs: seq<Value>, ys: seq<Value>)
    requires |xs| == |ys|
    ensures ItemsEqual(xs, ys) <==> xs == ys
    decreases xs, 1
  {
    if xs != [] {
      EqualIsIdentity(xs[0], ys[0]);
      ItemsEqualIsIdentity(xs[1..], ys[1..]);
      assert xs == [xs[0]] + xs[1..] && ys == [ys[0]] + ys[1..];
    }
  }

  lemma {:induction false} MembersEqualIsIdentity(xs: seq<Member>, ys: seq<Member>)
    requires |xs| == |ys|
    ensures MembersEqual(xs, ys) <==> xs == ys
    decreases xs, 1
  {
    if xs != [] {
      EqualIsIdentity(xs[0].value, ys[0].value);
      MembersEqualIsIdentity(xs[1..], ys[1..]);
      assert xs == [xs[0]] + xs[1..] && ys == [ys[0]] + ys[1..];
    }
  }

  // ---------------------------------------------------------------- irreflexive

  lemma {:induction false} LessIrreflexive(a: Value)
    ensures !Less(a, a)
    decreases a, 0
  {
    match a
    case Str(s) => StrLessIrreflexive(s);
    case Array(items) => ItemsLessIrreflexive(items);
    case Object(members) => MembersLessIrreflexive(members);
    case _ =>
  }

  lemma {:induction false} ItemsLessIrreflexive(xs: seq<Value>)
    ensures !ItemsLess(xs, xs)
    decreases xs, 1
  {
    if xs != [] { LessIrreflexive(xs[0]); ItemsLessIrreflexive(xs[1..]); }
  }

  lemma {:induction false} MembersLessIrreflexive(xs: seq<Member>)
    ensures !MembersLess(xs, xs)
    decreases xs, 1
  {
    if xs != [] {
      StrLessIrreflexive(xs[0].key);
      LessIrreflexive(xs[0].value);
      MembersLessIrreflexive(xs[1..]);
    }
  }

  // ---------------------------------------------------------------- total

  lemma {:induction false} LessTotal(a: Value, b: Value)
    ensures Less(a, b) || Less(b, a) || a == b
    decreases a, 0
  {
    if a.Rank() == b.Rank() {
      match a
      case Str(s) => StrLessTotal(s, b.s);
      case Array(items) => if |items| == |b.items| { ItemsLessTotal(items, b.items); }
      case Object(members) => if |members| == |b.members| { MembersLessTotal(members, b.members); }
      case _ =>
    }
  }

  lemma {:induction false} ItemsLessTotal(xs: seq<Value>, ys: seq<Value>)
    ensures ItemsLess(xs, ys) || ItemsLess(ys, xs) || xs == ys
    decreases xs, 1
  {
    if xs != [] && ys != [] {
      LessTotal(xs[0], ys[0]);
      ItemsLessTotal(xs[1..], ys[1..]);
      assert xs == [xs[0]] + xs[1..] && ys == [ys[0]] + ys[1..];
    }
  }

  lemma {:induction false} MembersLessTotal(xs: seq<Member>, ys: seq<Member>)
    ensures MembersLess(xs, ys) || MembersLess(ys, xs) || xs == ys
    decreases xs, 1
  {
    if xs != [] && ys != [] {
      StrLessTotal(xs[0].key, ys[0].key);
      LessTotal(xs[0].value, ys[0].value);
      MembersLessTotal(xs[1..], ys[1..]);
      assert xs == [xs[0]] + xs[1..] && ys == [ys[0]] + ys[1..];
    }
  }

  // ---------------------------------------------------------------- transitive

  lemma {:induction false} LessTransitive(a: Value, b: Value, c: Value)
    requires Less(a, b) && Less(b, c)
    ensures Less(a, c)
    decreases a, 0
  {
    if a.Rank() == b.Rank() == c.Rank() {
      match a
      case Str(s) => StrLessTransitive(s, b.s, c.s);
      case Array(items) =>
        if |items| == |c.items| { ItemsLessTransitive(items, b.items, c.items); }
      case Object(members) =>
        if |members| == |c.members| { MembersLessTransitive(members, b.members, c.members); }
      case _ =>
    }
  }

  lemma {:induction false} ItemsLessTransitive(xs: seq<Value>, ys: seq<Value>, zs: seq<Value>)
    requires ItemsLess(xs, ys) && ItemsLess(ys, zs)
    ensures ItemsLess(xs, zs)
    decreases xs, 1
  {
    if xs != [] {
      var x, y, z := xs[0], ys[0], zs[0];
      LessTotal(x, y);
      LessTotal(y, z);
      if Less(x, y) && Less(y, z) {
        LessTransitive(x, y, z);
      } else if !Less(x, y) && !Less(y, z) {
        ItemsLessTransitive(xs[1..], ys[1..], zs[1..]);
      }
    }
  }

  lemma {:induction false} MembersLessTransitive(xs: seq<Member>, ys: seq<Member>, zs: seq<Member>)
    requires MembersLess(xs, ys) && MembersLess(ys, zs)
    ensures MembersLess(xs, zs)
    decreases xs, 2
  {
    if xs != [] {
      var x, y, z := xs[0], ys[0], zs[0];
      MemberLessTotal(x, y);
      MemberLessTotal(y, z);
      if MemberLess(x, y) && MemberLess(y, z) {
        MemberLessTransitive(x, y, z);
      } else if !MemberLess(x, y) && !MemberLess(y, z) {
        MembersLessTransitive(xs[1..], ys[1..], zs[1..]);
      }
    }
  }

  lemma MemberLessTotal(x: Member, y: Member)
    ensures MemberLess(x, y) || MemberLess(y, x) || x == y
  {
    StrLessTotal(x.key, y.key);
    LessTotal(x.value, y.value);
  }

  lemma MemberLessTransitive(x: Member, y: Member, z: Member)
    requires MemberLess(x, y) && MemberLess(y, z)
    ensures MemberLess(x, z)
    decreases x, 1
  {
    StrLessTotal(x.key, y.key);
    StrLessTotal(y.key, z.key);
    StrLessIrreflexive(x.key);
    if StrLess(x.key, y.key) && StrLess(y.key, z.key) {
      StrLessTransitive(x.key, y.key, z.key);
    } else if x.key == y.key == z.key {
      LessTransitive(x.value, y.value, z.value);
    }
    if StrLess(z.key, x.key) { StrLessTransitive(x.key, z.key, x.key); }
  }

  // ---------------------------------------------------------------- which order it is

  /** The kinds of values in the order of ValueType. */
  predicate KindBelow(a: Value, b: Value) {
    match a
    case Null => !b.Null?
    case Int(_) => !b.Null? && !b.Int?
    case UInt(_) => b.Real? || b.Str? || b.Bool? || b.Array? || b.Object?
    case Real(_) => b.Str? || b.Bool? || b.Array? || b.Object?
    case Str(_) => b.Bool? || b.Array? || b.Object?
    case Bool(_) => b.Array? || b.Object?
    case Array(_) => b.Object?
    case Object(_) => false
  }

  /** The order of values, told without operator<: kinds by the enumeration, numbers by size, false
      below true, strings by the first byte that differs, containers by size and then by the first
      item or member that differs. */
  ghost predicate Precedes(a: Value, b: Value)
    decreases a, 0
  {
    KindBelow(a, b) ||
    match a
    case Null => false
    case Int(i) => b.Int? && i < b.i
    case UInt(u) => b.UInt? && u < b.u
    case Real(r) => b.Real? && r < b.r
    case Str(s) => b.Str? && exists p :: DecidesAt(s, b.s, p)
    case Bool(p) => b.Bool? && !p && b.b
    case Array(xs) =>
      b.Array? && (|xs| < |b.items| || (|xs| == |b.items| && ItemsPrecede(xs, b.items)))
    case Object(xs) =>
      b.Object? && (|xs| < |b.members| || (|xs| == |b.members| && MembersPrecede(xs, b.members)))
  }

  ghost predicate ItemsPrecede(xs: seq<Value>, ys: seq<Value>)
    decreases xs, 2
  {
    exists p :: ItemDecides(xs, ys, p)
  }

  ghost predicate MembersPrecede(xs: seq<Member>, ys: seq<Member>)
    decreases xs, 2
  {
    exists p :: MemberDecides(xs, ys, p)
  }

  /** The arrays agree up to position p; there the first one ends or has the smaller item. */
  ghost predicate ItemDecides(xs: seq<Value>, ys: seq<Value>, p: nat)
    decreases xs, 1
  {
    p <= |xs| && p < |ys| && xs[..p] == ys[..p] && (p < |xs| ==> Precedes(xs[p], ys[p]))
  }

  /** The same for members: by the key, and by the value where the keys are equal. */
  ghost predicate MemberDecides(xs: seq<Member>, ys: seq<Member>, p: nat)
    decreases xs, 1
  {
    p <= |xs| && p < |ys| && xs[..p] == ys[..p] && (p < |xs| ==> MemberPrecedes(xs[p], ys[p]))
  }

  ghost predicate MemberPrecedes(x: Member, y: Member)
    decreases x, 0
  {
    (exists p :: DecidesAt(x.key, y.key, p)) || (x.key == y.key && Precedes(x.value, y.value))
  }

  /** operator< is this order. */
  lemma {:induction false} LessExactly(a: Value, b: Value)
    ensures Less(a, b) <==> Precedes(a, b)
    decreases a, 0
  {
    hide DecidesAt, ItemsPrecede, MembersPrecede, ItemsLess, MembersLess, StrLess;
    match a
    case Str(s) => if b.Str? { StrLessExactly(s, b.s); }
    case Array(xs) => if b.Array? { ItemsLessExactly(xs, b.items); }
    case Object(xs) => if b.Object? { MembersLessExactly(xs, b.members); }
    case _ =>
  }

  lemma ItemDecidesLater(xs: seq<Value>, ys: seq<Value>, p: nat)
    requires xs != [] && ys != [] && xs[0] == ys[0] && ItemDecides(xs[1..], ys[1..], p)
    ensures ItemDecides(xs, ys, p + 1)
  {
    hide Precedes;
    assert xs[..p + 1] == [xs[0]] + xs[1..][..p] && ys[..p + 1] == [ys[0]] + ys[1..][..p];
  }

  lemma ItemDecidesBehind(xs: seq<Value>, ys: seq<Value>, p: nat)
    requires xs != [] && p > 0 && ItemDecides(xs, ys, p)
    ensures xs[0] == ys[0] && ItemDecides(xs[1..], ys[1..], p - 1)
  {
    hide Precedes;
    assert xs[..p][0] == ys[..p][0];
    assert xs[1..][..p - 1] == xs[..p][1..] && ys[1..][..p - 1] == ys[..p][1..];
  }

  lemma ItemDecidesFirst(xs: seq<Value>, ys: seq<Value>)
    requires xs != [] && ys != []
    ensures ItemDecides(xs, ys, 0) <==> Precedes(xs[0], ys[0])
  {
    hide Precedes;
  }

  lemma ItemDecidesStep(xs: seq<Value>, ys: seq<Value>)
    requires xs != [] && ys != []
    ensures ItemsPrecede(xs, ys) <==>
            Precedes(xs[0], ys[0]) || (xs[0] == ys[0] && ItemsPrecede(xs[1..], ys[1..]))
  {
    hide Precedes, ItemDecides;
    ItemDecidesFirst(xs, ys);
    if p: nat :| ItemDecides(xs[1..], ys[1..], p) && xs[0] == ys[0] { ItemDecidesLater(xs, ys, p); }
    if q: nat :| ItemDecides(xs, ys, q) && q > 0 { ItemDecidesBehind(xs, ys, q); }
  }

  lemma {:induction false} ItemsLessExactly(xs: seq<Value>, ys: seq<Value>)
    ensures ItemsLess(xs, ys) <==> ItemsPrecede(xs, ys)
    decreases xs, 1
  {
    hide Less, Precedes;
    if ys != [] && xs == [] {
      assert ItemDecides(xs, ys, 0);
    } else if ys != [] {
      hide ItemsPrecede;
      LessExactly(xs[0], ys[0]);
      LessTotal(xs[0], ys[0]);
      LessIrreflexive(xs[0]);
      LessAntisymmetric(xs[0], ys[0]);
      ItemsLessExactly(xs[1..], ys[1..]);
      ItemDecidesStep(xs, ys);
    }
  }

  lemma LessAntisymmetric(a: Value, b: Value)
    ensures !(Less(a, b) && Less(b, a))
  {
    LessIrreflexive(a);
    if Less(a, b) && Less(b, a) { LessTransitive(a, b, a); }
  }

  lemma MemberLessExactly(x: Member, y: Member)
    ensures MemberLess(x, y) <==> MemberPrecedes(x, y)
    decreases x, 0
  {
    hide DecidesAt, StrLess, Less, Precedes;
    StrLessExactly(x.key, y.key);
    StrLessTotal(x.key, y.key);
    StrLessIrreflexive(x.key);
    LessExactly(x.value, y.value);
  }

  lemma MemberLessIrreflexive(x: Member)
    ensures !MemberLess(x, x)
  {
    StrLessIrreflexive(x.key);
    LessIrreflexive(x.value);
  }

  lemma MemberDecidesLater(xs: seq<Member>, ys: seq<Member>, p: nat)
    requires xs != [] && ys != [] && xs[0] == ys[0] && MemberDecides(xs[1..], ys[1..], p)
    ensures MemberDecides(xs, ys, p + 1)
  {
    hide MemberPrecedes;
    assert xs[..p + 1] == [xs[0]] + xs[1..][..p] && ys[..p + 1] == [ys[0]] + ys[1..][..p];
  }

  lemma MemberDecidesBehind(xs: seq<Member>, ys: seq<Member>, p: nat)
    requires xs != [] && p > 0 && MemberDecides(xs, ys, p)
    ensures xs[0] == ys[0] && MemberDecides(xs[1..], ys[1..], p - 1)
  {
    hide MemberPrecedes;
    assert xs[..p][0] == ys[..p][0];
    assert xs[1..][..p - 1] == xs[..p][1..] && ys[1..][..p - 1] == ys[..p][1..];
  }

  lemma MemberDecidesFirst(xs: seq<Member>, ys: seq<Member>)
    requires xs != [] && ys != []
    ensures MemberDecides(xs, ys, 0) <==> MemberPrecedes(xs[0], ys[0])
  {
    hide MemberPrecedes;
  }

  lemma MemberDecidesStep(xs: seq<Member>, ys: seq<Member>)
    requires xs != [] && ys != []
    ensures MembersPrecede(xs, ys) <==>
            MemberPrecedes(xs[0], ys[0]) || (xs[0] == ys[0] && MembersPrecede(xs[1..], ys[1..]))
  {
    hide MemberPrecedes, MemberDecides;
    MemberDecidesFirst(xs, ys);
    if p: nat :| MemberDecides(xs[1..], ys[1..], p) && xs[0] == ys[0] { MemberDecidesLater(xs, ys, p); }
    if q: nat :| MemberDecides(xs, ys, q) && q > 0 { MemberDecidesBehind(xs, ys, q); }
  }

  lemma {:induction false} MembersLessExactly(xs: seq<Member>, ys: seq<Member>)
    ensures MembersLess(xs, ys) <==> MembersPrecede(xs, ys)
    decreases xs, 1
  {
    hide MemberLess, MemberPrecedes;
    if ys != [] && xs == [] {
      assert MemberDecides(xs, ys, 0);
    } else if ys != [] {
      hide MembersPrecede;
      MemberLessExactly(xs[0], ys[0]);
      MemberLessTotal(xs[0], ys[0]);
      MemberLessIrreflexive(xs[0]);
      MemberLessAntisymmetric(xs[0], ys[0]);
      MembersLessExactly(xs[1..], ys[1..]);
      MemberDecidesStep(xs, ys);
    }
  }

  lemma MemberLessAntisymmetric(x: Member, y: Member)
    ensures !(MemberLess(x, y) && MemberLess(y, x))
  {
    hide MemberLess;
    MemberLessIrreflexive(x);
    if MemberLess(x, y) && MemberLess(y, x) { MemberLessTransitive(x, y, x); }
  }

  // ---------------------------------------------------------------- the order as a whole

  /** operator< is a strict total order, operator== is its equivalence, compare agrees with
      both, and all three follow the order told above. */
  lemma StrictTotalOrder(a: Value, b: Value, c: Value)
    ensures !Less(a, a)
    ensures Less(a, b) && Less(b, c) ==> Less(a, c)
    ensures Equal(a, b) <==> !Less(a, b) && !Less(b, a)
    ensures !(Less(a, b) && Less(b, a))
    ensures (Compare(a, b) < 0 <==> Less(a, b)) && (Compare(a, b) == 0 <==> Equal(a, b))
    ensures Compare(b, a) == -Compare(a, b)
    ensures Less(a, b) <==> Precedes(a, b)
  {
    hide Precedes;
    LessIrreflexive(a);
    LessExactly(a, b);
    LessTotal(a, b);
    EqualIsIdentity(a, b);
    if Less(a, b) && Less(b, a) { LessTransitive(a, b, a); }
    if Less(a, b) && Less(b, c) { LessTransitive(a, b, c); }
  }
}
