/** TiXmlAttributeSet: a ring of attributes closed by a sentinel, updated in place. */
module XmlAttributes {
  import opened XmlParser

  class LinkedAttribute {
    var name: string
    var value: string
    var prev: LinkedAttribute?
    var next: LinkedAttribute?

    constructor ()
      ensures name == "" && value == "" && prev == null && next == null
    {
      name, value, prev, next := "", "", null, null;
    }

    /** What Next and Previous take for the sentinel. */
    predicate IsBlank()
      reads this`name, this`value
    {
      name == "" && value == ""
    }

    method Next() returns (r: LinkedAttribute?)
      requires next != null
      ensures r == if next.IsBlank() then null else next
    {
      if next.value == "" && next.name == "" { return null; }
      return next;
    }

    method Previous() returns (r: LinkedAttribute?)
      requires prev != null
      ensures r == if prev.IsBlank() then null else prev
    {
      if prev.value == "" && prev.name == "" { return null; }
      return prev;
    }
  }

  predicate UniqueNames(attributes: seq<Attribute>) {
    forall i, j :: 0 <= i < j < |attributes| ==> attributes[i].name != attributes[j].name
  }

  predicate Named(attributes: seq<Attribute>) {
    forall i :: 0 <= i < |attributes| ==> attributes[i].name != ""
  }

  predicate HasName(attributes: seq<Attribute>, name: string) {
    exists i :: 0 <= i < |attributes| && attributes[i].name == name
  }

  class AttributeSet {
    const sentinel: LinkedAttribute
    /** The attributes in the order of the ring. */
    ghost var list: seq<LinkedAttribute>

    /** The attribute at a position of the ring; the sentinel closes it at both ends. */
    ghost function At(i: int): LinkedAttribute
      reads this`list
    {
      if 0 <= i < |list| then list[i] else sentinel
    }

    ghost predicate Linked(i: int)
      reads this`list, At(i)`next, At(i + 1)`prev
    {
      At(i).next == At(i + 1) && At(i + 1).prev == At(i)
    }

    ghost predicate Valid()
      reads this`list, sentinel, list
    {
      sentinel !in list && sentinel.IsBlank() &&
      (forall i, j :: 0 <= i < j < |list| ==> list[i] != list[j]) &&
      forall i :: -1 <= i < |list| ==> Linked(i)
    }

    /** The names and values in order. */
    ghost function Entries(): (r: seq<Attribute>)
      reads this, list
      ensures |r| == |list| && forall i :: 0 <= i < |r| ==> r[i] == Attribute(list[i].name, list[i].value)
    {
      seq(|list|, i requires 0 <= i < |list| reads this, list => Attribute(list[i].name, list[i].value))
    }

    constructor ()
      ensures Valid() && Entries() == [] && fresh(sentinel)
    {
      sentinel := new LinkedAttribute();
      list := [];
      new;
      sentinel.next := sentinel;
      sentinel.prev := sentinel;
    }

    method Add(addMe: LinkedAttribute)
      requires Valid() && addMe != sentinel && addMe !in list
      requires forall i :: 0 <= i < |list| ==> list[i].name != addMe.name
      modifies this`list, addMe`prev, addMe`next, sentinel`prev, At(|list| - 1)`next
      ensures Valid() && list == old(list) + [addMe]
    {
      addMe.next := sentinel;
      addMe.prev := sentinel.prev;
      assert Linked(|list| - 1);
      sentinel.prev.next := addMe;
      sentinel.prev := addMe;
      list := list + [addMe];
      forall i | -1 <= i < |list|
        ensures Linked(i)
      {
        assert i < |list| - 2 ==> old(Linked(i));
      }
    }

    /** Nothing happens (but an assertion fails) when the attribute is not in the set. */
    method Remove(removeMe: LinkedAttribute) returns (ok: bool)
      requires Valid()
      modifies this`list, sentinel`prev, sentinel`next, list`prev, list`next
      ensures Valid() && (ok <==> removeMe in old(list))
      ensures ok ==> removeMe.prev == null && removeMe.next == null && list == Dropped(old(list), removeMe)
      ensures !ok ==> list == old(list)
    {
      ghost var i := 0;
      assert Linked(-1);
      var node := sentinel.next;
      while node != sentinel
        invariant 0 <= i <= |list| && node == At(i) && Valid() && list == old(list)
        invariant removeMe !in list[..i]
        decreases |list| - i
      {
        assert Linked(i) && Linked(i - 1);
        if node == removeMe {
          DroppedAt(list, i);
          Unlink(node, i);
          return true;
        }
        node := node.next;
        i := i + 1;
      }
      assert list[..i] == list;
      return false;
    }

    /** The assignments of Remove. */
    method Unlink(node: LinkedAttribute, ghost i: nat)
      requires Valid() && i < |list| && node == list[i]
      modifies this`list, sentinel`prev, sentinel`next, list`prev, list`next
      ensures Valid() && node.prev == null && node.next == null
      ensures list == old(list)[..i] + old(list)[i + 1..]
    {
      assert Linked(i) && Linked(i - 1);
      node.prev.next := node.next;
      node.next.prev := node.prev;
      node.next := null;
      node.prev := null;
      list := list[..i] + list[i + 1..];
      forall j | -1 <= j < |list|
        ensures Linked(j)
      {
        assert old(Linked(if j < i then j else j + 1));
      }
    }

    /** Find */
    method Find(name: string) returns (r: LinkedAttribute?)
      requires Valid()
      ensures r == null ==> forall i :: 0 <= i < |list| ==> list[i].name != name
      ensures r != null ==> r in list && r.name == name
    {
      ghost var i := 0;
      assert Linked(-1);
      var node := sentinel.next;
      while node != sentinel
        invariant 0 <= i <= |list| && node == At(i)
        invariant forall j :: 0 <= j < i ==> list[j].name != name
        decreases |list| - i
      {
        assert Linked(i);
        if node.name == name { return node; }
        node := node.next;
        i := i + 1;
      }
      return null;
    }

    /** A new attribute is added before it has its name, so Add asserts that none is unnamed. */
    method FindOrCreate(name: string) returns (r: LinkedAttribute)
      requires Valid() && (Named(Entries()) || HasName(Entries(), name))
      modifies this`list, sentinel`prev, At(|list| - 1)`next
      ensures Valid() && r in list && r.name == name
      ensures if r in old(list) then list == old(list) else fresh(r) && r.value == "" && list == old(list) + [r]
      ensures r !in old(list) ==> forall i :: 0 <= i < |old(list)| ==> old(list)[i].name != name
    {
      var attrib := Find(name);
      if attrib == null {
        assert forall i :: 0 <= i < |list| ==> list[i].name == Entries()[i].name;
        attrib := new LinkedAttribute();
        assert forall i :: 0 <= i < |list| ==> list[i].name == Entries()[i].name;
        Add(attrib);
        attrib.name := name;
        assert forall i :: -1 <= i < |list| ==> Linked(i);
      }
      return attrib;
    }

    /** SetAttribute of an element */
    method SetAttribute(name: string, value: string)
      requires Valid() && UniqueNames(Entries()) && (Named(Entries()) || HasName(Entries(), name))
      modifies this`list, sentinel`prev, At(|list| - 1)`next, list`value
      ensures Valid() && UniqueNames(Entries())
      ensures Entries() == WithAttribute(old(Entries()), name, value)
      ensures old(Named(Entries())) && name != "" ==> Named(Entries())
      ensures forall n :: n in list && n !in old(list) ==> fresh(n)
    {
      hide WithAttribute, UniqueNames, Named, HasName;
      ghost var before := Entries();
      var attrib := FindOrCreate(name);
      SetValue(attrib, value);
      if attrib in old(list) {
        ghost var i :| 0 <= i < |list| && list[i] == attrib;
        assert before[i].name == name;
        assert Entries() == before[i := Attribute(name, value)];
      } else {
        assert forall i :: 0 <= i < |before| ==> before[i].name == old(list)[i].name;
        assert Entries() == before + [Attribute(name, value)];
      }
      SetIs(before, name, value, Entries());
    }

    method SetValue(attrib: LinkedAttribute, value: string)
      requires Valid() && attrib in list
      modifies attrib`value
      ensures Valid() && attrib.value == value
    {
      attrib.value := value;
      assert forall i :: -1 <= i < |list| ==> Linked(i);
    }

    // -------------------------------------------------------------- enumeration

    method First() returns (r: LinkedAttribute?)
      requires Valid()
      ensures r == if list == [] then null else list[0]
    {
      assert Linked(-1);
      if sentinel.next == sentinel { return null; }
      return sentinel.next;
    }

    method Last() returns (r: LinkedAttribute?)
      requires Valid()
      ensures r == if list == [] then null else list[|list| - 1]
    {
      assert Linked(|list| - 1);
      if sentinel.prev == sentinel { return null; }
      return sentinel.prev;
    }

    /** Next of the attribute at a position. */
    method NextOf(node: LinkedAttribute, ghost i: nat) returns (r: LinkedAttribute?)
      requires Valid() && i < |list| && node == list[i]
      ensures r == if i + 1 < |list| && !Blank(Entries()[i + 1]) then list[i + 1] else null
    {
      assert Linked(i);
      r := node.Next();
    }

    /** The attributes in order, the way the printer and CopyTo go through them: up to the first
        one, after the very first, that looks like the sentinel. */
    method Forward() returns (visited: seq<LinkedAttribute>)
      requires Valid()
      ensures |visited| == Seen(Entries()) && visited == list[..|visited|]
      ensures Named(Entries()) ==> visited == list
    {
      hide Seen, Named, UniqueNames, Valid;
      ghost var e := Entries();
      NamedAreSeen(e);
      NoneSeen();
      visited := [];
      var node := First();
      while node != null
        invariant |visited| <= |list| && visited == list[..|visited|]
        invariant if node == null then |visited| == Seen(e) else |visited| < |list| && node == list[|visited|]
        invariant forall i :: 1 <= i < |visited| ==> !Blank(e[i])
        invariant node != null && |visited| > 0 ==> !Blank(e[|visited|])
        decreases |list| - |visited|
      {
        visited := visited + [node];
        node := NextOf(node, |visited| - 1);
        if node == null { SeenUpTo(e, |visited|); }
      }
    }

    /** Previous of the attribute at a position. */
    method PreviousOf(node: LinkedAttribute, ghost i: nat) returns (r: LinkedAttribute?)
      requires Valid() && i < |list| && node == list[i]
      ensures r == if i > 0 && !Blank(Entries()[i - 1]) then list[i - 1] else null
    {
      assert Linked(i - 1);
      r := node.Previous();
    }

    /** And backwards, up to the first one from the end that looks like the sentinel. */
    method Backward() returns (visited: seq<LinkedAttribute>)
      requires Valid()
      ensures |visited| == Seen(Reversed(Entries())) && visited == Reversed(list)[..|visited|]
      ensures Named(Entries()) ==> visited == Reversed(list)
    {
      hide Seen, Named, UniqueNames, Reversed, Valid;
      ghost var entries := Entries();
      ghost var e, back := Reversed(entries), Reversed(list);
      ReversedNamed(entries);
      NamedAreSeen(e);
      if list != [] { ReversedAt(list, 0); }
      NoneSeen();
      visited := [];
      var node := Last();
      while node != null
        invariant |visited| <= |list| && visited == back[..|visited|] && |e| == |list| == |back|
        invariant if node == null then |visited| == Seen(e)
                  else |visited| < |list| && node == back[|visited|] && node == list[|list| - 1 - |visited|]
        invariant forall i :: 1 <= i < |visited| ==> !Blank(e[i])
        invariant node != null && |visited| > 0 ==> !Blank(e[|visited|])
        decreases |list| - |visited|
      {
        visited := visited + [node];
        node := PreviousOf(node, |list| - |visited|);
        if |visited| < |list| {
          ReversedAt(list, |visited|);
          ReversedAt(entries, |visited|);
        }
        if node == null { SeenUpTo(e, |visited|); }
      }
    }
  }

  predicate Blank(a: Attribute) { a.name == "" && a.value == "" }

  /** How many attributes First and Next show. */
  function Seen(attributes: seq<Attribute>): (n: nat)
    ensures n <= |attributes|
  {
    if |attributes| <= 1 || Blank(attributes[1]) then (if attributes == [] then 0 else 1) else 1 + Seen(attributes[1..])
  }

  lemma NoneSeen()
    ensures Seen([]) == 0
  {
  }

  lemma {:induction false} SeenUpTo(attributes: seq<Attribute>, n: nat)
    requires 1 <= n <= |attributes| && forall i :: 1 <= i < n ==> !Blank(attributes[i])
    requires n < |attributes| ==> Blank(attributes[n])
    ensures Seen(attributes) == n
  {
    if n > 1 {
      var rest := attributes[1..];
      assert forall i :: 0 <= i < |rest| ==> rest[i] == attributes[i + 1];
      SeenUpTo(rest, n - 1);
    }
  }

  /** All are shown exactly when only the first one may be blank; proper names are enough. */
  lemma {:induction false} NamedAreSeen(attributes: seq<Attribute>)
    ensures Seen(attributes) == |attributes| <==> forall i :: 1 <= i < |attributes| ==> !Blank(attributes[i])
    ensures Named(attributes) ==> Seen(attributes) == |attributes|
  {
    if |attributes| > 1 {
      var rest := attributes[1..];
      assert forall i :: 0 <= i < |rest| ==> rest[i] == attributes[i + 1];
      NamedAreSeen(rest);
      if (forall i :: 1 <= i < |rest| ==> !Blank(rest[i])) && !Blank(attributes[1]) {
        forall i | 1 <= i < |attributes| ensures !Blank(attributes[i]) { assert attributes[i] == rest[i - 1]; }
      }
    }
  }

  lemma {:induction false} ReversedAt<T>(s: seq<T>, i: nat)
    requires i < |s|
    ensures Reversed(s)[i] == s[|s| - 1 - i]
  {
    if i < |s| - 1 { ReversedAt(s[1..], i); }
  }

  lemma ReversedNamed(attributes: seq<Attribute>)
    ensures Named(attributes) ==> Named(Reversed(attributes))
  {
    hide Reversed;
    forall i | 0 <= i < |attributes|
      ensures Reversed(attributes)[i] == attributes[|attributes| - 1 - i]
    {
      ReversedAt(attributes, i);
    }
  }

  /** SetAttribute accepts an empty name with an empty value. */
  method SetBlank() returns (ring: AttributeSet)
    ensures ring.Valid() && ring.Entries() == [Attribute("b", "2"), Attribute("", "")]
  {
    ring := new AttributeSet();
    assert |ring.Entries()| == |ring.list|;
    ring.SetAttribute("b", "2");
    assert ring.Entries() == [Attribute("b", "2")];
    assert |ring.Entries()| == |ring.list| && ring.list[0] in ring.list;
    ring.SetAttribute("", "");
  }

  /** First and Next do not show the blank attribute behind another one; Last and Previous do. */
  method HiddenAttribute() returns (ring: AttributeSet, forward: seq<LinkedAttribute>, backward: seq<LinkedAttribute>)
    ensures ring.Valid() && ring.Entries() == [Attribute("b", "2"), Attribute("", "")]
    ensures forward == [ring.list[0]] && backward == [ring.list[1], ring.list[0]]
  {
    hide AttributeSet.Valid, Reversed, Seen, Named;
    ring := SetBlank();
    forward := ring.Forward();
    backward := ring.Backward();
    BlankIsHidden();
    TwoReversed(ring.list);
  }

  lemma BlankIsHidden()
    ensures Seen([Attribute("b", "2"), Attribute("", "")]) == 1
    ensures Seen(Reversed([Attribute("b", "2"), Attribute("", "")])) == 2
  {
    TwoReversed([Attribute("b", "2"), Attribute("", "")]);
  }

  lemma TwoReversed<T>(s: seq<T>)
    requires |s| == 2
    ensures Reversed(s) == [s[1], s[0]]
  {
    ReversedAt(s, 0);
    ReversedAt(s, 1);
  }

  // ---------------------------------------------------------------- the sequence of attributes

  function Reversed<T>(s: seq<T>): (r: seq<T>)
    ensures |r| == |s|
  {
    if s == [] then [] else Reversed(s[1..]) + [s[0]]
  }

  function Dropped<T(==)>(s: seq<T>, x: T): seq<T> {
    if s == [] then [] else if s[0] == x then s[1..] else [s[0]] + Dropped(s[1..], x)
  }

  lemma {:induction false} DroppedAt<T>(s: seq<T>, i: nat)
    requires i < |s| && s[i] !in s[..i]
    ensures Dropped(s, s[i]) == s[..i] + s[i + 1..]
  {
    if i > 0 {
      assert s[0] == s[..i][0];
      assert s[1..][..i - 1] == s[..i][1..];
      DroppedAt(s[1..], i - 1);
      assert s[1..][i..] == s[i + 1..];
    }
  }

  /** SetAttribute: the attribute of that name, or a new one at the end. */
  function WithAttribute(attributes: seq<Attribute>, name: string, value: string): seq<Attribute> {
    if attributes == [] then [Attribute(name, value)]
    else if attributes[0].name == name then [Attribute(name, value)] + attributes[1..]
    else [attributes[0]] + WithAttribute(attributes[1..], name, value)
  }

  lemma {:induction false} WithAttributeIs(attributes: seq<Attribute>, name: string, value: string)
    ensures var r := WithAttribute(attributes, name, value);
            if forall i :: 0 <= i < |attributes| ==> attributes[i].name != name then r == attributes + [Attribute(name, value)]
            else |r| == |attributes|
  {
    if attributes != [] && attributes[0].name != name {
      WithAttributeIs(attributes[1..], name, value);
      assert forall i :: 0 <= i < |attributes| - 1 ==> attributes[1..][i] == attributes[i + 1];
      if i :| 0 <= i < |attributes| && attributes[i].name == name {
        assert attributes[1..][i - 1].name == name;
      }
      assert [attributes[0]] + (attributes[1..] + [Attribute(name, value)]) == attributes + [Attribute(name, value)];
    }
  }

  lemma {:induction false} WithAttributeAt(attributes: seq<Attribute>, name: string, value: string, i: nat)
    requires i < |attributes| && attributes[i].name == name && UniqueNames(attributes)
    ensures WithAttribute(attributes, name, value) == attributes[i := Attribute(name, value)]
  {
    if i > 0 {
      assert attributes[0].name != name;
      WithAttributeAt(attributes[1..], name, value, i - 1);
      assert attributes == [attributes[0]] + attributes[1..];
    }
  }

  /** What SetAttribute leaves is the old sequence with one attribute set. */
  lemma SetIs(before: seq<Attribute>, name: string, value: string, after: seq<Attribute>)
    requires UniqueNames(before)
    requires (after == before + [Attribute(name, value)] && forall i :: 0 <= i < |before| ==> before[i].name != name) ||
             exists i :: 0 <= i < |before| && before[i].name == name && after == before[i := Attribute(name, value)]
    ensures after == WithAttribute(before, name, value) && UniqueNames(after)
    ensures Named(before) && name != "" ==> Named(after)
  {
    if i :| 0 <= i < |before| && before[i].name == name && after == before[i := Attribute(name, value)] {
      WithAttributeAt(before, name, value, i);
    } else {
      WithAttributeIs(before, name, value);
    }
  }

  /** The value of a name, if it has one. */
  function LookUp(attributes: seq<Attribute>, name: string): (r: seq<string>) {
    if attributes == [] then []
    else if attributes[0].name == name then [attributes[0].value]
    else LookUp(attributes[1..], name)
  }

  /** As a map: one name gets the value, all others keep theirs; a new name comes last. */
  lemma {:induction false} WithAttributeIsMapUpdate(attributes: seq<Attribute>, name: string, value: string, other: string)
    ensures LookUp(WithAttribute(attributes, name, value), other) == if other == name then [value] else LookUp(attributes, other)
  {
    if attributes != [] {
      WithAttributeIsMapUpdate(attributes[1..], name, value, other);
    }
  }
}
