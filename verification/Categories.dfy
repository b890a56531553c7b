/** log4cpp's categories: HierarchyMaintainer creates them on demand, with all their parents;
    priorities and events travel up the chain of parents. */
module Categories {

  const NOTSET := 800
  const INFO := 600

  type Event = nat

  class Appender {
    var received: seq<Event>
    var deleted: bool

    method DoAppend(event: Event)
      modifies this`received
      ensures received == old(received) + [event]
    {
      received := received + [event];
    }
  }

  datatype Outcome = Done | InvalidArgument

  // ---------------------------------------------------------------- names

  /** find_last_of('.'), or the length of the name. */
  function LastDot(name: string): (k: nat)
    ensures k <= |name|
    ensures k < |name| ==> name[k] == '.'
    ensures forall i :: 0 <= i < |name| && name[i] == '.' ==> i <= k < |name|
  {
    if name == "" then 0
    else if name[|name| - 1] == '.' then |name| - 1
    else
      var k := LastDot(name[..|name| - 1]);
      if k == |name| - 1 then |name| else k
  }

  function ParentName(name: string): (r: string)
    requires name != ""
    ensures |r| < |name| && r <= name
    ensures if '.' in name then name[|r|] == '.' && '.' !in name[|r| + 1..] else r == ""
  {
    if |name| <= LastDot(name) then "" else name[..LastDot(name)]
  }

  /** The name and those of all its ancestors, up to the root. */
  function Ancestry(name: string): (r: seq<string>)
    ensures r != [] && r[0] == name && r[|r| - 1] == ""
    decreases |name|
  {
    if name == "" then [name] else [name] + Ancestry(ParentName(name))
  }

  // ---------------------------------------------------------------- categories

  class Category {
    const name: string
    const parent: Category?
    /** The parent, its parent, and so on. */
    ghost const above: seq<Category>
    var priority: int
    var isAdditive: bool
    var appenders: set<Appender>
    var ownsAppender: map<Appender, bool>

    constructor (name: string, parent: Category?, priority: int)
      ensures this.name == name && this.parent == parent && this.priority == priority
      ensures above == if parent == null then [] else [parent] + parent.above
      ensures isAdditive && appenders == {} && ownsAppender == map[]
    {
      this.name, this.parent, this.priority := name, parent, priority;
      above := if parent == null then [] else [parent] + parent.above;
      isAdditive, appenders, ownsAppender := true, {}, map[];
    }

    /** This category and its ancestors. */
    ghost function Chain(): seq<Category> { [this] + above }

    /** The chain follows the parents, with ever shorter names, up to the root category. */
    ghost predicate Rooted()
      decreases |name|
    {
      if parent == null then name == "" && above == []
      else |parent.name| < |name| && above == parent.Chain() && parent.Rooted()
    }

    method SetPriority(priority: int) returns (r: Outcome)
      modifies this`priority
      ensures r == if priority >= NOTSET && parent == null then InvalidArgument else Done
      ensures this.priority == if r.Done? then priority else old(this.priority)
    {
      if priority < NOTSET || parent != null {
        this.priority := priority;
        return Done;
      }
      return InvalidArgument;
    }

    /** The priority of the nearest category of the chain that has one set. */
    method GetChainedPriority() returns (r: int)
      requires Rooted() && Chain()[|Chain()| - 1].priority < NOTSET
      ensures r < NOTSET
      ensures exists k :: 0 <= k < |Chain()| && NearestSet(Chain(), k) && r == Chain()[k].priority
    {
      var c := this;
      ghost var k := 0;
      while c.priority >= NOTSET
        invariant 0 <= k < |Chain()| && c == Chain()[k] && c.Rooted() && Chain()[k..] == c.Chain()
        invariant forall j :: 0 <= j < k ==> Chain()[j].priority >= NOTSET
        decreases |c.name|
      {
        assert |c.Chain()| == |Chain()| - k;
        c := c.parent;
        k := k + 1;
      }
      assert NearestSet(Chain(), k);
      return c.priority;
    }

    // -------------------------------------------------------------- appenders

    /** all are the appenders there are: each gets the event once for every category it is attached
        to, from this one up to the first that is not additive. */
    method CallAppenders(event: Event, ghost all: set<Appender>)
      requires Rooted() && Reached(Chain()) <= all
      modifies all`received
      ensures forall a :: a in all ==> a.received == old(a.received) + Repeat(event, Times(Chain(), a))
      decreases |name|
    {
      hide Repeat;
      assert Chain()[1..] == above;
      CallOwn(event);
      if isAdditive && parent != null {
        parent.CallAppenders(event, all);
      }
      forall a | a in all
        ensures a.received == old(a.received) + Repeat(event, Times(Chain(), a))
      {
        RepeatMore(event, if isAdditive then Times(above, a) else 0, old(a.received));
      }
    }

    method CallOwn(event: Event)
      modifies appenders`received
      ensures forall a :: a in appenders ==> a.received == old(a.received) + [event]
    {
      var todo := appenders;
      while todo != {}
        invariant todo <= appenders
        invariant forall a :: a in todo ==> a.received == old(a.received)
        invariant forall a :: a in appenders && a !in todo ==> a.received == old(a.received) + [event]
        decreases |todo|
      {
        var a :| a in todo;
        a.DoAppend(event);
        todo := todo - {a};
      }
    }

    /** addAppender: the first call decides who owns the appender. */
    method AddAppender(appender: Appender?, own: bool) returns (r: Outcome)
      modifies this`appenders, this`ownsAppender
      ensures r == if appender == null && own then InvalidArgument else Done
      ensures if appender == null || appender in old(appenders) then appenders == old(appenders) && ownsAppender == old(ownsAppender)
              else appenders == old(appenders) + {appender} && ownsAppender == old(ownsAppender)[appender := own]
    {
      if appender == null { return if own then InvalidArgument else Done; }
      if appender !in appenders {
        appenders := appenders + {appender};
        ownsAppender := ownsAppender[appender := own];
      }
      return Done;
    }

    predicate Owns(appender: Appender)
      reads this`ownsAppender
    {
      appender in ownsAppender && ownsAppender[appender]
    }

    /** removeAppender deletes the appender if the category owns it. */
    method RemoveAppender(appender: Appender)
      modifies this`appenders, this`ownsAppender, appender`deleted
      ensures appenders == old(appenders) - {appender}
      ensures appender in old(appenders) && old(Owns(appender)) ==> appender.deleted && ownsAppender == old(ownsAppender) - {appender}
      ensures !(appender in old(appenders) && old(Owns(appender))) ==>
                appender.deleted == old(appender.deleted) && ownsAppender == old(ownsAppender)
    {
      if appender in appenders {
        if Owns(appender) {
          ownsAppender := ownsAppender - {appender};
          appender.deleted := true;
        }
        appenders := appenders - {appender};
      }
    }

    /** removeAllAppenders deletes exactly the appenders the category owns. */
    method RemoveAllAppenders()
      modifies this`appenders, this`ownsAppender, appenders`deleted
      ensures appenders == {} && ownsAppender == map[]
      ensures forall a :: a in old(appenders) ==> a.deleted == (old(a.deleted) || old(Owns(a)))
    {
      var todo := appenders;
      while todo != {}
        invariant todo <= appenders == old(appenders) && ownsAppender == old(ownsAppender)
        invariant forall a :: a in appenders ==> a.deleted == (old(a.deleted) || (a !in todo && old(Owns(a))))
        decreases |todo|
      {
        var a :| a in todo;
        if Owns(a) { a.deleted := true; }
        todo := todo - {a};
      }
      ownsAppender := map[];
      appenders := {};
    }
  }

  lemma RepeatMore(e: Event, n: nat, s: seq<Event>)
    ensures [e] + Repeat(e, n) == Repeat(e, n + 1)
    ensures s + [e] + Repeat(e, n) == s + Repeat(e, n + 1)
    ensures s + Repeat(e, 0) == s
  {
    assert s + [e] + Repeat(e, n) == s + ([e] + Repeat(e, n));
  }

  function Repeat(e: Event, n: nat): seq<Event> { if n == 0 then [] else [e] + Repeat(e, n - 1) }

  /** How often an event reaches an appender on its way up the chain. */
  ghost function Times(chain: seq<Category>, a: Appender): nat
    reads chain
  {
    if chain == [] then 0
    else (if a in chain[0].appenders then 1 else 0) + if chain[0].isAdditive then Times(chain[1..], a) else 0
  }

  ghost function Reached(chain: seq<Category>): set<Appender>
    reads chain
  {
    if chain == [] then {} else chain[0].appenders + if chain[0].isAdditive then Reached(chain[1..]) else {}
  }

  /** Up to the first category that is not additive, and no further. */
  ghost predicate Additive(chain: seq<Category>, i: nat)
    reads chain
  {
    i < |chain| && forall j :: 0 <= j < i ==> chain[j].isAdditive
  }

  /** An appender is reached exactly if it is attached to a category of the chain that only
      additive ones precede. */
  lemma {:induction false} ReachedExactly(chain: seq<Category>, a: Appender)
    ensures Times(chain, a) > 0 <==> a in Reached(chain)
    ensures a in Reached(chain) <==> exists i :: 0 <= i < |chain| && Additive(chain, i) && a in chain[i].appenders
  {
    if chain != [] {
      var rest := chain[1..];
      ReachedExactly(rest, a);
      if i :| 0 <= i < |chain| && Additive(chain, i) && a in chain[i].appenders {
        if i > 0 {
          assert chain[0].isAdditive && rest[i - 1] == chain[i] && Additive(rest, i - 1);
        }
      }
      if a in chain[0].appenders {
        assert Additive(chain, 0);
      } else if i :| 0 <= i < |rest| && Additive(rest, i) && a in rest[i].appenders && chain[0].isAdditive {
        assert Additive(chain, i + 1) && chain[i + 1] == rest[i];
      }
    }
  }

  /** The k-th category is the first of the chain with a priority. */
  ghost predicate NearestSet(chain: seq<Category>, k: nat)
    reads chain
  {
    k < |chain| && chain[k].priority < NOTSET && forall j :: 0 <= j < k ==> chain[j].priority >= NOTSET
  }

  // ---------------------------------------------------------------- the maintainer

  method FindLastDot(name: string) returns (dotIndex: nat)
    ensures dotIndex == LastDot(name)
  {
    dotIndex := |name|;
    assert name[..|name|] == name;
    while dotIndex > 0
      invariant 0 <= dotIndex <= |name|
      invariant LastDot(name) == if LastDot(name[..dotIndex]) == dotIndex then |name| else LastDot(name[..dotIndex])
    {
      assert name[..dotIndex][..dotIndex - 1] == name[..dotIndex - 1];
      if name[dotIndex - 1] == '.' { return dotIndex - 1; }
      dotIndex := dotIndex - 1;
    }
    return |name|;
  }

  // ---------------------------------------------------------------- the category map

  /** A category is entered under its name, and its parent under the parent's name. */
  ghost predicate EntryFits(m: map<string, Category>, name: string)
    requires name in m
  {
    m[name].name == name && m[name].Rooted() &&
    if name == "" then m[name].parent == null else ParentName(name) in m && m[name].parent == m[ParentName(name)]
  }

  ghost predicate Closed(m: map<string, Category>) {
    forall name {:trigger EntryFits(m, name)} :: name in m ==> EntryFits(m, name)
  }

  lemma ClosedWith(m: map<string, Category>, name: string, c: Category)
    requires Closed(m) && name !in m && c.name == name && c.Rooted()
    requires if name == "" then c.parent == null else ParentName(name) in m && c.parent == m[ParentName(name)]
    ensures Closed(m[name := c])
  {
    hide ParentName, Ancestry;
    var m' := m[name := c];
    forall n | n in m'
      ensures EntryFits(m', n)
    {
      if n != name { assert EntryFits(m, n); }
    }
  }

  /** With a name all names of its ancestry are there. */
  lemma {:induction false} ClosedUnderParents(m: map<string, Category>, name: string)
    requires Closed(m) && name in m
    ensures forall n :: n in Ancestry(name) ==> n in m
    decreases |name|
  {
    hide ParentName;
    assert EntryFits(m, name);
    if name != "" { ClosedUnderParents(m, ParentName(name)); }
  }

  /** The chain of a category is made of the categories of its ancestry, and ends at the root. */
  ghost predicate ChainFits(m: map<string, Category>, name: string, names: seq<string>)
    requires name in m
  {
    |m[name].Chain()| == |names| && forall i :: 0 <= i < |names| ==> names[i] in m && m[name].Chain()[i] == m[names[i]]
  }

  lemma {:induction false} ChainIsAncestry(m: map<string, Category>, name: string)
    requires Closed(m) && name in m
    ensures "" in m && ChainFits(m, name, Ancestry(name))
    decreases |name|
  {
    hide ParentName, Ancestry, Closed;
    ParentIs(name);
    Fits(m, name);
    if name != "" {
      var above := ParentName(name);
      ChainIsAncestry(m, above);
      var names := [name] + Ancestry(above);
      forall i | 0 <= i < |names|
        ensures names[i] in m && m[name].Chain()[i] == m[names[i]]
      {
        if i > 0 { assert names[i] == Ancestry(above)[i - 1] && m[name].Chain()[i] == m[above].Chain()[i - 1]; }
      }
    }
  }

  lemma Fits(m: map<string, Category>, name: string)
    requires Closed(m) && name in m
    ensures EntryFits(m, name) && m[name].Chain()[0] == m[name]
    ensures if m[name].parent == null then m[name].Chain() == [m[name]]
            else m[name].Chain() == [m[name]] + m[name].parent.Chain()
  {
    assert EntryFits(m, name);
  }

  class HierarchyMaintainer {
    var categoryMap: map<string, Category>

    constructor ()
      ensures categoryMap == map[] && Valid()
    {
      categoryMap := map[];
    }

    ghost predicate RootIsSet()
      reads this`categoryMap, if "" in categoryMap then {categoryMap[""]} else {}
    {
      "" in categoryMap ==> categoryMap[""].priority < NOTSET
    }

    /** Closed under parents, and the root category has a priority. */
    ghost predicate Valid()
      reads this`categoryMap, if "" in categoryMap then {categoryMap[""]} else {}
    {
      Closed(categoryMap) && RootIsSet()
    }

    function GetExistingInstance(name: string): Category?
      reads this`categoryMap
    {
      if name in categoryMap then categoryMap[name] else null
    }

    /** The category of that name, created with the missing ones of its ancestors if need be. */
    method GetInstance(name: string) returns (result: Category)
      requires Valid()
      modifies this`categoryMap
      ensures Valid() && name in categoryMap && result == categoryMap[name]
      ensures Extends(old(categoryMap), name)
      ensures forall n :: n in categoryMap && n !in old(categoryMap) ==> IsNew(n)
      decreases |name|, 1
    {
      hide Closed, Ancestry;
      var existing := GetExistingInstance(name);
      if existing == null {
        result := Create(name);
      } else {
        result := existing;
        ClosedUnderParents(categoryMap, name);
      }
    }

    method Create(name: string) returns (result: Category)
      requires Valid() && name !in categoryMap
      modifies this`categoryMap
      ensures Valid() && name in categoryMap && result == categoryMap[name]
      ensures Extends(old(categoryMap), name)
      ensures forall n :: n in categoryMap && n !in old(categoryMap) ==> IsNew(n)
      decreases |name|, 0
    {
      hide Closed, ParentName, Ancestry, LastDot;
      ParentIs(name);
      if name == "" {
        result := new Category(name, null, INFO);
      } else {
        var dotIndex := FindLastDot(name);
        var parentName := if |name| <= dotIndex then "" else name[..dotIndex];
        var parent := GetInstance(parentName);
        FitsEntry(categoryMap, parentName);
        ShorterNames(parentName, name);
        result := new Category(name, parent, NOTSET);
      }
      ClosedWith(categoryMap, name, result);
      categoryMap := categoryMap[name := result];
    }

    /** The old entries are unchanged, and the new ones are those of the ancestry of the name. */
    ghost predicate Extends(before: map<string, Category>, name: string)
      reads this`categoryMap
    {
      (forall n :: n in before ==> n in categoryMap && categoryMap[n] == before[n]) &&
      forall n :: n in categoryMap <==> n in before || n in Ancestry(name)
    }

    /** What a new category is like. */
    twostate predicate IsNew(n: string)
      requires n in categoryMap
      reads this, categoryMap[n]
    {
      fresh(categoryMap[n]) && categoryMap[n].isAdditive && categoryMap[n].appenders == {} &&
      categoryMap[n].priority == if n == "" then INFO else NOTSET
    }

    /** setPriority on a category of the hierarchy keeps the root category set. */
    method SetPriority(name: string, priority: int) returns (r: Outcome)
      requires Valid() && name in categoryMap
      modifies {categoryMap[name]}`priority
      ensures Valid()
      ensures r == if priority >= NOTSET && name == "" then InvalidArgument else Done
      ensures categoryMap[name].priority == if r.Done? then priority else old(categoryMap[name].priority)
    {
      assert EntryFits(categoryMap, name);
      if "" in categoryMap { assert EntryFits(categoryMap, ""); }
      r := categoryMap[name].SetPriority(priority);
    }

    /** In a hierarchy the walk up the chain always ends: the priority is that of the nearest
        ancestor that has one. */
    method GetChainedPriority(name: string) returns (r: int)
      requires Valid() && name in categoryMap
      ensures r < NOTSET
      ensures exists k: nat :: NearestName(name, k) && r == PriorityAt(name, k)
    {
      hide Closed, ParentName, Ancestry, LastDot, NearestSet, NearestName, PriorityAt;
      ChainIsAncestry(categoryMap, name);
      FitsEntry(categoryMap, name);
      var c := categoryMap[name];
      r := c.GetChainedPriority();
      ghost var k :| 0 <= k < |c.Chain()| && NearestSet(c.Chain(), k) && r == c.Chain()[k].priority;
      NearestByName(name, k);
    }

    lemma NearestByName(name: string, k: nat)
      requires Valid() && name in categoryMap && NearestSet(categoryMap[name].Chain(), k)
      ensures NearestName(name, k) && PriorityAt(name, k) == categoryMap[name].Chain()[k].priority
    {
      hide Closed, ParentName, Ancestry, LastDot;
      ClosedUnderParents(categoryMap, name);
      ChainIsAncestry(categoryMap, name);
      var chain, names := categoryMap[name].Chain(), Ancestry(name);
      assert ChainFits(categoryMap, name, names);
      forall j | 0 <= j < k
        ensures categoryMap[names[j]].priority >= NOTSET
      {
        assert chain[j] == categoryMap[names[j]];
      }
    }

    ghost function PriorityAt(name: string, k: nat): int
      reads this`categoryMap, categoryMap.Values
    {
      if k < |Ancestry(name)| && Ancestry(name)[k] in categoryMap then categoryMap[Ancestry(name)[k]].priority else NOTSET
    }

    /** The k-th name of the ancestry is the first whose category has a priority. */
    ghost predicate NearestName(name: string, k: nat)
      reads this`categoryMap, categoryMap.Values
    {
      k < |Ancestry(name)| && Ancestry(name)[k] in categoryMap && categoryMap[Ancestry(name)[k]].priority < NOTSET &&
      forall j :: 0 <= j < k ==> Ancestry(name)[j] in categoryMap && categoryMap[Ancestry(name)[j]].priority >= NOTSET
    }
  }

  lemma {:induction false} ShorterNames(name: string, n: string)
    ensures n in Ancestry(name) ==> |n| <= |name|
    decreases |name|
  {
    hide LastDot;
    if name != "" { ShorterNames(ParentName(name), n); }
  }

  lemma FitsEntry(m: map<string, Category>, name: string)
    requires Closed(m) && name in m
    ensures m[name].name == name && m[name].Rooted()
  {
    assert EntryFits(m, name);
  }

  lemma ParentIs(name: string)
    ensures name != "" ==> ParentName(name) == (if |name| <= LastDot(name) then "" else name[..LastDot(name)])
    ensures Ancestry(name) == if name == "" then [name] else [name] + Ancestry(ParentName(name))
  {
  }
}
