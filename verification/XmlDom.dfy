/** The child lists of TiXmlNode: intrusive, doubly linked and updated in place. A forest says
    which sequence of children every node has; it is valid when first, last, prev, next and
    parent of all its nodes stand for exactly these sequences. */
module XmlDom {
  import opened CString
  import opened XmlParser
  import opened XmlAttributes

  datatype NodeType = DocumentNode | ElementNode | CommentNode | UnknownNode | TextNode | DeclarationNode

  /** What a node holds besides its links. */
  /** What texts and declarations have besides a value. */
  datatype Details = NoDetails | TextDetails(cdata: bool) | DeclarationDetails(version: string, encoding: string, standalone: string)

  datatype Content = Content(kind: NodeType, value: string, attributes: seq<Attribute>, details: Details)

  datatype Tree = Tree(content: Content, children: seq<Tree>)

  /** rank decreases from a parent to its children, so there are no cycles. */
  datatype Forest = Forest(kids: map<Node, seq<Node>>, rank: map<Node, nat>, contents: map<Node, Content>)

  class Node {
    const kind: NodeType
    var value: string
    var attributes: seq<Attribute>
    var details: Details
    var parent: Node?
    var firstChild: Node?
    var lastChild: Node?
    var prev: Node?
    var next: Node?
    ghost var deleted: bool

    constructor (kind: NodeType, value: string)
      ensures GetContent() == Content(kind, value, [], NoDetails) && !deleted
      ensures parent == null && firstChild == null && lastChild == null && prev == null && next == null
    {
      this.kind, this.value, attributes, details := kind, value, [], NoDetails;
      parent, firstChild, lastChild, prev, next := null, null, null, null, null;
      deleted := false;
    }

    /** The pointers the destructor follows; a deleted node has none to follow. */
    function FirstOfLiving(): Node?
      requires !deleted
      reads this`deleted, this`firstChild
    {
      firstChild
    }

    function NextOfLiving(): Node?
      requires !deleted
      reads this`deleted, this`next
    {
      next
    }

    function GetContent(): Content
      reads this`value, this`attributes, this`details
    {
      Content(kind, value, attributes, details)
    }

    // -------------------------------------------------------------- child lists

    /** node must be the root of a tree that this node is not in; its parent pointer may have been
        set to this node, as Identify does. */
    method LinkEndChild(node: Node, ghost f: Forest) returns (r: Node?, ghost g: Forest)
      requires ValidBut(f, node) && this in f.kids && node in f.kids && this !in Below(f, node)
      requires node.parent == null || node.parent == this
      modifies this`firstChild, this`lastChild, node`parent, node`prev, node`next
      modifies (set k | k in f.kids[this])`next, Below(f, node)`deleted
      ensures Valid(g)
      ensures if node.kind.DocumentNode? then r == null && g == Without(f, node)
              else r == node && g == Inserted(f, this, node, |f.kids[this]|)
    {
      hide Below, Ranked, Linked, Valid, AllHold, Inserted;
      ghost var links, at := Unparented(LinksOf(f.kids.Keys), node), |f.kids[this]|;
      LinkedIsRanked(f, links);
      if node.kind.DocumentNode? {
        g := node.DeleteRoot(f);
        return null, g;
      }
      SplicedUnparented(LinksOf(f.kids.Keys), this, node, lastChild, null);
      g := Inserted(f, this, node, at);
      SplicedIsLinked(f, links, this, node, at);
      InsertedNodes(f, this, node, at);
      SetEndLinks(node, f.kids.Keys);
      r := node;
      SameContents(f, g);
      ValidByParts(g);
    }

    /** The assignments of LinkEndChild. */
    method SetEndLinks(node: Node, ghost nodes: set<Node>)
      requires this in nodes && node in nodes && node != this
      requires lastChild == null || (lastChild in nodes && lastChild != this && lastChild != node)
      requires lastChild == null ==> firstChild == null
      modifies this`firstChild, this`lastChild, node`parent, node`prev, node`next
      modifies (if lastChild == null then {} else {lastChild})`next
      ensures LinksOf(nodes) == Spliced(old(LinksOf(nodes)), this, node, old(lastChild), null)
    {
      node.parent := this;
      node.prev := lastChild;
      node.next := null;
      if lastChild != null {
        lastChild.next := node;
      } else {
        firstChild := node;
      }
      lastChild := node;
    }

    /** Linked once more, the last child passes the assertion of the source and becomes its own
        neighbour, so that no walk over the children ends: LinkEndChild needs a node in no list. */
    method LinkLastAgain(node: Node)
      requires lastChild == node && node.parent == this && node != this
      modifies this`lastChild, node`parent, node`prev, node`next
      ensures node.prev == node && node.next == node && lastChild == node
    {
      node.parent := this;
      node.prev := lastChild;
      node.next := null;
      lastChild.next := node;
      lastChild := node;
    }

    // -------------------------------------------------------------- copying

    /** A copy of the tree in new nodes; only elements and documents copy their children. */
    method Clone(ghost f: Forest) returns (clone: Node, ghost g: Forest)
      requires Valid(f) && this in f.kids
      ensures Valid(g) && clone.parent == null && clone.kind == kind
      ensures Cloned(f, g, this, clone) && fresh(g.kids.Keys - f.kids.Keys)
      decreases RankOf(f, this), 2
    {
      hide Below, Ranked, Linked, Valid, AllHold, Holds, TreeOf, CopiedUpTo, Extends, Cloned;
      ValidIsRanked(f);
      ContentsAre(f, this);
      clone, g := CopyNode(f);
      if HasChildren(kind) {
        g := CopyChildren(clone, f, g);
      }
      EndOfCopy(f, g, this, clone);
    }

    /** A new node with the copied value and attributes. */
    method CopyNode(ghost f: Forest) returns (clone: Node, ghost g: Forest)
      requires Valid(f) && this in f.kids
      ensures Valid(g) && clone.parent == null && clone.kind == kind
      ensures CopiedUpTo(f, g, this, clone, 0) && fresh(g.kids.Keys - f.kids.Keys) && fresh(clone)
      ensures clone in g.kids && g.kids[clone] == []
    {
      hide Below, Ranked, Linked, Valid, AllHold, Holds, CopiedUpTo, CopyOfAttributes, CStr, Extends, TreeOf;
      ValidIsRanked(f);
      ContentsAre(f, this);
      clone := new Node(kind, CStr(value));
      clone.details := details;
      clone.CopyAttributes(attributes);
      g := Grown(f, clone, this, clone.GetContent());
      GrownIsValid(f, clone, this);
      ValidIsRanked(g);
      StartOfCopy(f, clone, this);
    }

    /** The children of CopyTo: each is cloned and linked to the copy. */
    method CopyChildren(clone: Node, ghost f: Forest, ghost start: Forest) returns (ghost g: Forest)
      requires Valid(f) && this in f.kids && Valid(start) && CopiedUpTo(f, start, this, clone, 0)
      requires clone.parent == null && start.kids[clone] == []
      modifies clone`firstChild, clone`lastChild
      ensures Valid(g) && CopiedUpTo(f, g, this, clone, |f.kids[this]|) && fresh(g.kids.Keys - start.kids.Keys)
      ensures clone.parent == null
      decreases RankOf(f, this), 1
    {
      hide Below, Ranked, Linked, Valid, AllHold, TreeOf, CopiedUpTo, Extends;
      ValidIsRanked(f);
      CopyIsNew(f, start, this, clone, 0);
      ghost var links, ks, i := LinksOf(f.kids.Keys), f.kids[this], 0;
      ListIs(f, links, this);
      g := start;
      var node := firstChild;
      while node != null
        invariant 0 <= i <= |ks| && node == At(ks, i)
        invariant Valid(g) && CopiedUpTo(f, g, this, clone, i) && fresh(g.kids.Keys - start.kids.Keys)
        invariant clone.parent == null && LinksOf(f.kids.Keys) == links
        invariant start.kids.Keys <= g.kids.Keys && clone in g.kids
        invariant fresh(set k | k in g.kids[clone])
        decreases |ks| - i
      {
        assert IsChildAt(links, this, ks, i) && links[node].next == node.next;
        CopyIsOf(f, g, this, clone, i);
        g := CopyChild(clone, node, f, g, i);
        node := node.next;
        i := i + 1;
      }
    }

    method CopyChild(clone: Node, node: Node, ghost f: Forest, ghost h: Forest, ghost i: nat) returns (ghost g: Forest)
      requires Valid(h) && CopiedUpTo(f, h, this, clone, i) && clone in h.kids
      requires this in f.kids && i < |f.kids[this]| && node == f.kids[this][i]
      modifies clone`firstChild, clone`lastChild, (set k | k in h.kids[clone])`next
      ensures Valid(g) && CopiedUpTo(f, g, this, clone, i + 1) && fresh(g.kids.Keys - h.kids.Keys)
      ensures h.kids.Keys <= g.kids.Keys && clone in g.kids && exists k :: fresh(k) && g.kids[clone] == h.kids[clone] + [k]
      decreases RankOf(f, this), 0
    {
      hide Below, Ranked, Linked, Valid, AllHold, TreeOf, CopiedUpTo, Extends;
      CopyIsOf(f, h, this, clone, i);
      var k;
      k, g := node.Clone(h);
      ghost var grown := g;
      ReadyToLink(f, h, grown, this, clone, node, k, i);
      ValidIsRanked(grown);
      assert LinksOf(grown.kids.Keys)[k].parent == null;
      CopyStep(f, h, grown, LinksOf(grown.kids.Keys), this, clone, k, i);
      ValidIsValidBut(grown, k);
      var linked;
      linked, g := clone.LinkEndChild(k, grown);
      assert g.kids[clone] == h.kids[clone] + [k];
    }

    /** The attributes of CopyTo, one SetAttribute after the other, as far as First and Next show
        them: they stop at a blank attribute behind the first. */
    method CopyAttributes(from: seq<Attribute>)
      requires attributes == []
      modifies this`attributes
      ensures attributes == CopyOfAttributes(from)
    {
      hide WithAttribute, Seen;
      NoneSeen();
      var i := 0;
      while i < |from| && (i == 0 || !Blank(from[i]))
        invariant 0 <= i <= |from| && attributes == AllSet(from[..i])
        invariant forall j :: 1 <= j < i ==> !Blank(from[j])
      {
        assert from[..i + 1][..i] == from[..i];
        attributes := WithAttribute(attributes, CStr(from[i].name), CStr(from[i].value));
        i := i + 1;
      }
      if from == [] { assert from[..Seen(from)] == []; } else { SeenUpTo(from, i); }
    }

    // -------------------------------------------------------------- inserting copies

    method InsertEndChild(addThis: Node, ghost f: Forest) returns (r: Node?, ghost h: Forest, ghost g: Forest)
      requires Valid(f) && this in f.kids && addThis in f.kids
      modifies f.kids.Keys
      ensures Valid(g)
      ensures addThis.kind.DocumentNode? ==> r == null && g == f && LinksOf(f.kids.Keys) == old(LinksOf(f.kids.Keys))
      ensures !addThis.kind.DocumentNode? ==>
                r != null && fresh(r) && Cloned(f, h, addThis, r) && this in h.kids && g == Inserted(h, this, r, |h.kids[this]|)
    {
      hide Below, Ranked, Linked, Valid, AllHold, TreeOf, Inserted, Cloned, Spliced, RankWith;
      ValidIsRanked(f);
      if addThis.kind.DocumentNode? { return null, f, f; }
      var node;
      node, h := addThis.Clone(f);
      CloneIsNew(f, h, addThis, node);
      ChildrenAreBelow(f, this);
      ValidIsValidBut(h, node);
      r, g := LinkEndChild(node, h);
    }

    method InsertBeforeChild(beforeThis: Node?, addThis: Node, ghost f: Forest) returns (r: Node?, ghost h: Forest, ghost g: Forest)
      requires Valid(f) && this in f.kids && addThis in f.kids && (beforeThis != null ==> beforeThis in f.kids)
      modifies f.kids.Keys
      ensures Valid(g)
      ensures r != null <==> beforeThis != null && old(beforeThis.parent) == this && !addThis.kind.DocumentNode?
      ensures r == null ==> g == f && LinksOf(f.kids.Keys) == old(LinksOf(f.kids.Keys))
      ensures r != null ==> fresh(r) && Cloned(f, h, addThis, r) && beforeThis in f.kids[this] && this in h.kids &&
                            h.kids[this] == f.kids[this] && g == Inserted(h, this, r, IndexIn(f.kids[this], beforeThis))
    {
      hide Below, Ranked, Linked, Valid, AllHold, TreeOf, Inserted, Cloned, Spliced, RankWith;
      ValidIsRanked(f);
      if beforeThis == null || beforeThis.parent != this { return null, f, f; }
      if addThis.kind.DocumentNode? { return null, f, f; }
      ListIs(f, LinksOf(f.kids.Keys), beforeThis);
      ghost var at := IndexIn(f.kids[this], beforeThis);
      var node;
      node, h := addThis.Clone(f);
      CloneIsNew(f, h, addThis, node);
      g := LinkBefore(node, beforeThis, h, at);
      r := node;
    }

    /** A root is linked as the child before another. */
    method LinkBefore(node: Node, beforeThis: Node, ghost h: Forest, ghost at: nat) returns (ghost g: Forest)
      requires Valid(h) && this in h.kids && node in h.kids && node.parent == null && this !in Below(h, node)
      requires !node.kind.DocumentNode? && at < |h.kids[this]| && h.kids[this][at] == beforeThis
      modifies h.kids.Keys
      ensures Valid(g) && g == Inserted(h, this, node, at)
    {
      hide Below, Ranked, Linked, Valid, AllHold, Inserted, Spliced, RankWith;
      ValidIsRanked(h);
      ghost var links := LinksOf(h.kids.Keys);
      assert links[node].parent == null;
      SplicedIsLinked(h, links, this, node, at);
      InsertedNodes(h, this, node, at);
      g := Inserted(h, this, node, at);
      SetBeforeLinks(node, beforeThis, h.kids.Keys);
      SameContents(h, g);
      ValidByParts(g);
    }

    /** The assignments of InsertBeforeChild. */
    method SetBeforeLinks(node: Node, beforeThis: Node, ghost nodes: set<Node>)
      requires this in nodes && node in nodes && beforeThis in nodes && node != this && beforeThis != node && beforeThis != this
      requires beforeThis.prev != null ==> beforeThis.prev in nodes && beforeThis.prev !in {this, node, beforeThis}
      requires beforeThis.prev == null ==> firstChild == beforeThis
      modifies this`firstChild, node`parent, node`prev, node`next, beforeThis`prev
      modifies (if beforeThis.prev == null then {} else {beforeThis.prev})`next
      ensures LinksOf(nodes) == Spliced(old(LinksOf(nodes)), this, node, old(beforeThis.prev), beforeThis)
    {
      node.parent := this;
      node.next := beforeThis;
      node.prev := beforeThis.prev;
      if beforeThis.prev != null {
        beforeThis.prev.next := node;
      } else {
        assert firstChild == beforeThis;
        firstChild := node;
      }
      beforeThis.prev := node;
    }

    method InsertAfterChild(afterThis: Node?, addThis: Node, ghost f: Forest) returns (r: Node?, ghost h: Forest, ghost g: Forest)
      requires Valid(f) && this in f.kids && addThis in f.kids && (afterThis != null ==> afterThis in f.kids)
      modifies f.kids.Keys
      ensures Valid(g)
      ensures r != null <==> afterThis != null && old(afterThis.parent) == this && !addThis.kind.DocumentNode?
      ensures r == null ==> g == f && LinksOf(f.kids.Keys) == old(LinksOf(f.kids.Keys))
      ensures r != null ==> fresh(r) && Cloned(f, h, addThis, r) && afterThis in f.kids[this] && this in h.kids &&
                            h.kids[this] == f.kids[this] && g == Inserted(h, this, r, IndexIn(f.kids[this], afterThis) + 1)
    {
      hide Below, Ranked, Linked, Valid, AllHold, TreeOf, Inserted, Cloned, Spliced, RankWith;
      ValidIsRanked(f);
      if afterThis == null || afterThis.parent != this { return null, f, f; }
      if addThis.kind.DocumentNode? { return null, f, f; }
      ListIs(f, LinksOf(f.kids.Keys), afterThis);
      ghost var at := IndexIn(f.kids[this], afterThis) + 1;
      var node;
      node, h := addThis.Clone(f);
      CloneIsNew(f, h, addThis, node);
      g := LinkAfter(node, afterThis, h, at);
      r := node;
    }

    /** A root is linked as the child after another. */
    method LinkAfter(node: Node, afterThis: Node, ghost h: Forest, ghost at: nat) returns (ghost g: Forest)
      requires Valid(h) && this in h.kids && node in h.kids && node.parent == null && this !in Below(h, node)
      requires !node.kind.DocumentNode? && 0 < at <= |h.kids[this]| && h.kids[this][at - 1] == afterThis
      modifies h.kids.Keys
      ensures Valid(g) && g == Inserted(h, this, node, at)
    {
      hide Below, Ranked, Linked, Valid, AllHold, Inserted, Spliced, RankWith;
      ValidIsRanked(h);
      ghost var links := LinksOf(h.kids.Keys);
      assert links[node].parent == null;
      SplicedIsLinked(h, links, this, node, at);
      InsertedNodes(h, this, node, at);
      g := Inserted(h, this, node, at);
      SetAfterLinks(node, afterThis, h.kids.Keys);
      SameContents(h, g);
      ValidByParts(g);
    }

    /** The assignments of InsertAfterChild. */
    method SetAfterLinks(node: Node, afterThis: Node, ghost nodes: set<Node>)
      requires this in nodes && node in nodes && afterThis in nodes && node != this && afterThis != node && afterThis != this
      requires afterThis.next != null ==> afterThis.next in nodes && afterThis.next !in {this, node, afterThis}
      requires afterThis.next == null ==> lastChild == afterThis
      modifies this`lastChild, node`parent, node`prev, node`next, afterThis`next
      modifies (if afterThis.next == null then {} else {afterThis.next})`prev
      ensures LinksOf(nodes) == Spliced(old(LinksOf(nodes)), this, node, afterThis, old(afterThis.next))
    {
      node.parent := this;
      node.prev := afterThis;
      node.next := afterThis.next;
      if afterThis.next != null {
        afterThis.next.prev := node;
      } else {
        assert lastChild == afterThis;
        lastChild := node;
      }
      afterThis.next := node;
    }

    /** delete of the root of a tree */
    method DeleteRoot(ghost f: Forest) returns (ghost g: Forest)
      requires ValidBut(f, this) && this in f.kids
      modifies Below(f, this)`deleted
      ensures g == Without(f, this) && Valid(g)
      ensures forall n :: n in Below(f, this) ==> n.deleted
    {
      hide Below, Ranked, Linked, Holds, Valid;
      ghost var links := Unparented(LinksOf(f.kids.Keys), this);
      LinkedIsRanked(f, links);
      AllAlive(f);
      BelowIs(f, this, this);
      Delete(f, links);
      g := Without(f, this);
      RootIsGone(f, links, this);
      assert LinksOf(g.kids.Keys) == map n | n in g.kids :: links[n];
      HoldsStill(f, g);
      ValidByParts(g);
    }

    /** The destructor */
    method Delete(ghost f: Forest, ghost links: map<Node, Links>)
      requires Linked(f, links) && this in f.kids && Intact(f, links, this)
      requires forall n :: n in Below(f, this) ==> !n.deleted
      modifies Below(f, this)`deleted
      ensures forall n :: n in Below(f, this) ==> n.deleted
      decreases RankOf(f, this), 1
    {
      hide Below, Ranked, Linked;
      LinkedIsRanked(f, links);
      DeleteChildren(f, links);
      deleted := true;
    }

    /** The loop of the destructor, and of Clear, over the children. It follows the first pointers
        of the nodes below and the next pointers of their children, which are still those of the
        given links. */
    method DeleteChildren(ghost f: Forest, ghost links: map<Node, Links>)
      requires Linked(f, links) && this in f.kids && Intact(f, links, this)
      requires forall n :: n in Below(f, this) ==> !n.deleted
      modifies (Below(f, this) - {this})`deleted
      ensures forall n :: n in Below(f, this) && n != this ==> n.deleted
      decreases RankOf(f, this), 0
    {
      hide Below, Ranked, Linked;
      LinkedIsRanked(f, links);
      ListIs(f, links, this);
      ChildrenAreBelow(f, this);
      ghost var ks, i := f.kids[this], 0;
      BelowIs(f, this, this);
      var node := FirstOfLiving();
      while node != null
        invariant 0 <= i <= |ks| && node == At(ks, i)
        invariant forall j :: 0 <= j < |ks| ==> Ended(f, ks[j], j < i)
        decreases |ks| - i
      {
        var temp := node;
        ChildIsIntact(f, links, this, i);
        OtherSiblings(f, links, this, i);
        BelowIs(f, node, node);
        node := node.NextOfLiving();
        temp.Delete(f, links);
        i := i + 1;
      }
      forall n | n in Below(f, this) && n != this
        ensures n.deleted
      {
        BelowIs(f, this, n);
      }
    }

    method Clear(ghost f: Forest) returns (ghost g: Forest)
      requires Valid(f) && this in f.kids
      modifies f.kids.Keys
      ensures Valid(g) && g == Cleared(f, this)
      ensures forall n :: n in Below(f, this) && n != this ==> n.deleted
    {
      hide Below, Ranked, Linked, Holds, Valid, AllHold;
      ValidIsRanked(f);
      ghost var links := LinksOf(f.kids.Keys);
      AllAlive(f);
      DeleteChildren(f, links);
      g := Cleared(f, this);
      ClearedIsLinked(f, links, this);
      firstChild := null;
      lastChild := null;
      assert LinksOf(g.kids.Keys) == ClearedLinks(f, links, this);
      StillAlive(f, g);
      ValidByParts(g);
    }

    // -------------------------------------------------------------- removing

    method RemoveChild(removeThis: Node?, ghost f: Forest) returns (ok: bool, ghost g: Forest)
      requires Valid(f) && this in f.kids && (removeThis != null ==> removeThis in f.kids)
      modifies f.kids.Keys
      ensures Valid(g)
      ensures ok <==> removeThis != null && old(removeThis.parent) == this
      ensures ok ==> removeThis in f.kids[this] && g == Removed(f, this, IndexIn(f.kids[this], removeThis))
      ensures ok ==> forall n :: n in Below(f, removeThis) ==> n.deleted
      ensures !ok ==> g == f && LinksOf(f.kids.Keys) == old(LinksOf(f.kids.Keys))
    {
      hide Below, Ranked, Linked, Valid, AllHold, Removed;
      ValidIsRanked(f);
      ghost var links := LinksOf(f.kids.Keys);
      if removeThis == null { return false, f; }
      if removeThis.parent != this { return false, f; }
      ListIs(f, links, removeThis);
      g := Drop(removeThis, f, IndexIn(f.kids[this], removeThis));
      return true, g;
    }

    /** A child is unlinked and deleted. */
    method Drop(removeThis: Node, ghost f: Forest, ghost at: nat) returns (ghost g: Forest)
      requires Valid(f) && this in f.kids && at < |f.kids[this]| && f.kids[this][at] == removeThis
      modifies f.kids.Keys
      ensures Valid(g) && g == Removed(f, this, at)
      ensures removeThis in f.kids && forall n :: n in Below(f, removeThis) ==> n.deleted
    {
      hide Below, Ranked, RankedAt, Linked, LinkedAt, Holds, Valid, AllHold, Removed, Unspliced, UnsplicedLinks, Intact, LowerThan;
      ValidIsRanked(f);
      ghost var links := LinksOf(f.kids.Keys);
      AllAlive(f);
      UnsplicedIsLinked(f, links, this, at);
      g := Removed(f, this, at);
      RemovedNodes(f, this, at);
      SetRemovedLinks(removeThis, f.kids.Keys);
      UnsplicedIsIntact(f, links, this, at);
      removeThis.Delete(f, links);
      StillAlive(f, g);
      ValidByParts(g);
    }

    // -------------------------------------------------------------- replacing

    method ReplaceChild(replaceThis: Node?, withThis: Node, ghost f: Forest) returns (r: Node?, ghost h: Forest, ghost g: Forest)
      requires Valid(f) && this in f.kids && withThis in f.kids && (replaceThis != null ==> replaceThis in f.kids)
      modifies f.kids.Keys
      ensures Valid(g)
      ensures r != null <==> replaceThis != null && old(replaceThis.parent) == this && !withThis.kind.DocumentNode?
      ensures r == null ==> g == f && LinksOf(f.kids.Keys) == old(LinksOf(f.kids.Keys))
      ensures r != null ==> fresh(r) && Cloned(f, h, withThis, r) && replaceThis in f.kids[this] && this in h.kids &&
                            h.kids[this] == f.kids[this] && g == Replaced(h, this, r, IndexIn(f.kids[this], replaceThis))
      ensures r != null ==> forall n :: n in Below(f, replaceThis) ==> n.deleted
    {
      hide Below, Ranked, Linked, Valid, AllHold, TreeOf, Replaced, Cloned, Spliced, RankWith;
      ValidIsRanked(f);
      if replaceThis == null || replaceThis.parent != this { return null, f, f; }
      if withThis.kind.DocumentNode? { return null, f, f; }
      ListIs(f, LinksOf(f.kids.Keys), replaceThis);
      ghost var at := IndexIn(f.kids[this], replaceThis);
      var node;
      node, h := withThis.Clone(f);
      CloneIsNew(f, h, withThis, node);
      CloneKeepsTree(f, h, withThis, node, replaceThis);
      g := Exchange(replaceThis, node, h, at);
      r := node;
    }

    /** A root takes the place of a child, which is deleted. */
    method Exchange(replaceThis: Node, node: Node, ghost h: Forest, ghost at: nat) returns (ghost g: Forest)
      requires Valid(h) && this in h.kids && node in h.kids && node.parent == null && this !in Below(h, node)
      requires !node.kind.DocumentNode? && at < |h.kids[this]| && h.kids[this][at] == replaceThis && replaceThis in h.kids
      modifies h.kids.Keys
      ensures Valid(g) && g == Replaced(h, this, node, at)
      ensures forall n :: n in Below(h, replaceThis) ==> n.deleted
    {
      hide Below, Ranked, Linked, Valid, AllHold, Holds, Inserted, Removed, UnsplicedLinks, RankWith, Replaced, Whole, InsertAt;
      ValidIsRanked(h);
      AllAlive(h);
      ghost var links := LinksOf(h.kids.Keys);
      assert links[node].parent == null;
      ReplacedIsLinked(h, links, this, node, at);
      SwapIn(replaceThis, node, h, links, at);
      g := Replaced(h, this, node, at);
      HalfIsCompleted(h, links, this, node, at);
      StillAlive(h, g);
      ValidByParts(g);
    }

    method SwapIn(replaceThis: Node, node: Node, ghost h: Forest, ghost links: map<Node, Links>, ghost at: nat)
      requires Linked(h, links) && Ranked(h) && links == LinksOf(h.kids.Keys) && this in h.kids && node in h.kids
      requires node in links && links[node].parent == null && this !in Below(h, node) && !node.kind.DocumentNode?
      requires at < |h.kids[this]| && h.kids[this][at] == replaceThis && replaceThis in h.kids
      requires forall n :: n in Below(h, replaceThis) ==> !n.deleted
      modifies this`firstChild, this`lastChild, node`prev, node`next, node`parent
      modifies (if replaceThis.next == null then {} else {replaceThis.next})`prev
      modifies (if replaceThis.prev == null then {} else {replaceThis.prev})`next
      modifies Below(h, replaceThis)`deleted
      ensures LinksOf(h.kids.Keys) == Whole(links, this, node, Before(h.kids[this], at), At(h.kids[this], at + 1))
      ensures forall n :: n in Below(h, replaceThis) ==> n.deleted
    {
      hide Below, Ranked, Linked, Inserted, Spliced, Intact, Half, Whole, LinksOf, ChildHas;
      WholeIs(links, this, node, Before(h.kids[this], at), At(h.kids[this], at + 1));
      ReadyToSwap(h, links, this, node, at);
      PutInPlace(replaceThis, node, h, links, at);
      replaceThis.Delete(Inserted(h, this, node, at), Spliced(links, this, node, Before(h.kids[this], at), replaceThis));
      Adopt(node, h.kids.Keys);
    }

    method PutInPlace(replaceThis: Node, node: Node, ghost h: Forest, ghost links: map<Node, Links>, ghost at: nat)
      requires Linked(h, links) && Ranked(h) && links == LinksOf(h.kids.Keys) && this in h.kids && node in h.kids
      requires node in links && links[node].parent == null && this !in Below(h, node) && !node.kind.DocumentNode?
      requires at < |h.kids[this]| && h.kids[this][at] == replaceThis && replaceThis in h.kids
      modifies this`firstChild, this`lastChild, node`prev, node`next
      modifies (if replaceThis.next == null then {} else {replaceThis.next})`prev
      modifies (if replaceThis.prev == null then {} else {replaceThis.prev})`next
      ensures LinksOf(h.kids.Keys) == Half(links, this, node, Before(h.kids[this], at), At(h.kids[this], at + 1))
      ensures var i, relinks := Inserted(h, this, node, at), Spliced(links, this, node, Before(h.kids[this], at), replaceThis);
              Ranked(i) && replaceThis in i.kids && relinks.Keys == i.kids.Keys && Intact(i, relinks, replaceThis)
    {
      hide Below, Ranked, Linked, Inserted, Spliced, Intact, Half;
      ReadyToSwap(h, links, this, node, at);
      SetReplacedLinks(node, replaceThis, h.kids.Keys);
      HalfIsIntact(h, links, this, node, at, Inserted(h, this, node, at),
                   Spliced(links, this, node, Before(h.kids[this], at), replaceThis));
    }

    /** The last assignment of ReplaceChild. */
    method Adopt(node: Node, ghost nodes: set<Node>)
      requires node in nodes
      modifies node`parent
      ensures LinksOf(nodes) == old(LinksOf(nodes))[node := old(LinksOf(nodes))[node].(parent := this)]
    {
      node.parent := this;
    }

    /** The assignments of ReplaceChild up to the deletion. */
    method SetReplacedLinks(node: Node, replaceThis: Node, ghost nodes: set<Node>)
      requires this in nodes && node in nodes && replaceThis in nodes && node != this && replaceThis != node && replaceThis != this
      requires replaceThis.prev != null ==> replaceThis.prev in nodes && replaceThis.prev !in {this, node, replaceThis}
      requires replaceThis.next != null ==> replaceThis.next in nodes && replaceThis.next !in {this, node, replaceThis}
      modifies this`firstChild, this`lastChild, node`prev, node`next
      modifies (if replaceThis.next == null then {} else {replaceThis.next})`prev
      modifies (if replaceThis.prev == null then {} else {replaceThis.prev})`next
      ensures LinksOf(nodes) == Half(old(LinksOf(nodes)), this, node, old(replaceThis.prev), old(replaceThis.next))
    {
      node.next := replaceThis.next;
      node.prev := replaceThis.prev;
      if replaceThis.next != null {
        replaceThis.next.prev := node;
      } else {
        lastChild := node;
      }
      if replaceThis.prev != null {
        replaceThis.prev.next := node;
      } else {
        firstChild := node;
      }
    }

    /** The assignments of RemoveChild. */
    method SetRemovedLinks(removeThis: Node, ghost nodes: set<Node>)
      requires this in nodes && removeThis in nodes && removeThis != this
      requires removeThis.next != null ==> removeThis.next in nodes && removeThis.next != this && removeThis.next != removeThis
      requires removeThis.prev != null ==> removeThis.prev in nodes && removeThis.prev != this && removeThis.prev != removeThis
      modifies nodes`prev, nodes`next, nodes`firstChild, nodes`lastChild
      ensures LinksOf(nodes) == Unspliced(old(LinksOf(nodes)), this, old(removeThis.prev), old(removeThis.next))
    {
      if removeThis.next != null {
        removeThis.next.prev := removeThis.prev;
      } else {
        lastChild := removeThis.prev;
      }
      if removeThis.prev != null {
        removeThis.prev.next := removeThis.next;
      } else {
        firstChild := removeThis.next;
      }
    }
  }

  // ---------------------------------------------------------------- links

  /** The links of one node. */
  datatype Links = Links(parent: Node?, firstChild: Node?, lastChild: Node?, prev: Node?, next: Node?)

  /** The links of all nodes at some moment. */
  ghost function LinksOf(nodes: set<Node>): map<Node, Links>
    reads nodes`parent, nodes`firstChild, nodes`lastChild, nodes`prev, nodes`next
  {
    map n | n in nodes :: Links(n.parent, n.firstChild, n.lastChild, n.prev, n.next)
  }

  /** The node in front of a position, if there is one. */
  function Before(ks: seq<Node>, i: nat): Node?
    requires i <= |ks|
  {
    if i == 0 then null else ks[i - 1]
  }

  /** The node at a position, if there is one. */
  function At(ks: seq<Node>, i: nat): Node? { if i < |ks| then ks[i] else null }

  predicate Distinct(ks: seq<Node>) {
    forall i, j :: 0 <= i < j < |ks| ==> ks[i] != ks[j]
  }

  ghost predicate IsChildAt(links: map<Node, Links>, n: Node, ks: seq<Node>, i: nat)
    requires i < |ks|
  {
    ks[i] in links &&
    links[ks[i]].parent == n &&
    links[ks[i]].prev == Before(ks, i) &&
    links[ks[i]].next == At(ks, i + 1)
  }

  /** The pointers of n and of its children stand for ks. */
  ghost predicate Listed(links: map<Node, Links>, n: Node, ks: seq<Node>)
    requires n in links
  {
    Distinct(ks) &&
    links[n].firstChild == At(ks, 0) &&
    links[n].lastChild == Before(ks, |ks|) &&
    forall i :: 0 <= i < |ks| ==> IsChildAt(links, n, ks, i)
  }

  // ---------------------------------------------------------------- forests

  ghost predicate RankedAt(f: Forest, n: Node)
    requires n in f.kids
  {
    n in f.rank && n in f.contents &&
    forall i :: 0 <= i < |f.kids[n]| ==> LowerThan(f, f.kids[n][i], n)
  }

  ghost predicate LowerThan(f: Forest, k: Node, n: Node)
    requires n in f.rank
  {
    k in f.kids && k in f.rank && f.rank[k] < f.rank[n] && !k.kind.DocumentNode?
  }

  /** There are no cycles, and no document is a child. */
  ghost predicate Ranked(f: Forest) {
    forall n {:trigger RankedAt(f, n)} :: n in f.kids ==> RankedAt(f, n)
  }

  ghost function RankOf(f: Forest, n: Node): nat { if n in f.rank then f.rank[n] else 0 }

  /** The links stand for the children the forest gives to node n, and n is one of the children
      of its parent. */
  ghost predicate LinkedAt(f: Forest, links: map<Node, Links>, n: Node)
    requires n in f.kids && n in links
  {
    Listed(links, n, f.kids[n]) &&
    (links[n].parent != null ==> links[n].parent in f.kids && n in f.kids[links[n].parent])
  }

  ghost predicate Linked(f: Forest, links: map<Node, Links>) {
    Ranked(f) && links.Keys == f.kids.Keys && forall n {:trigger LinkedAt(f, links, n)} :: n in f.kids ==> LinkedAt(f, links, n)
  }

  /** The nodes are alive and their fields show the forest. */
  ghost predicate Valid(f: Forest)
    reads f.kids.Keys
  {
    Linked(f, LinksOf(f.kids.Keys)) && AllHold(f)
  }

  /** The links with the parent pointer of one node cleared. */
  ghost function Unparented(links: map<Node, Links>, node: Node): map<Node, Links> {
    if node in links then links[node := links[node].(parent := null)] else links
  }

  /** Valid but for the parent pointer of a node that is in no list of children. */
  ghost predicate ValidBut(f: Forest, node: Node)
    reads f.kids.Keys
  {
    Linked(f, Unparented(LinksOf(f.kids.Keys), node)) && AllHold(f)
  }

  ghost predicate AllHold(f: Forest)
    reads f.kids.Keys`deleted, f.kids.Keys`value, f.kids.Keys`attributes, f.kids.Keys`details
  {
    forall n :: n in f.kids ==> Holds(f, n)
  }

  ghost predicate Holds(f: Forest, n: Node)
    reads n`deleted, n`value, n`attributes, n`details
  {
    !n.deleted && n in f.contents && n.GetContent() == f.contents[n]
  }

  ghost function Below(f: Forest, n: Node): (s: set<Node>)
    requires Ranked(f) && n in f.kids
    ensures n in s && s <= f.kids.Keys
    decreases RankOf(f, n) + 1, 0
  {
    assert RankedAt(f, n);
    {n} + BelowAll(f, f.kids[n], f.rank[n])
  }

  ghost predicate AllLower(f: Forest, ns: seq<Node>, bound: nat) {
    forall i :: 0 <= i < |ns| ==> ns[i] in f.kids && ns[i] in f.rank && f.rank[ns[i]] < bound
  }

  ghost function BelowAll(f: Forest, ns: seq<Node>, bound: nat): (s: set<Node>)
    requires Ranked(f) && AllLower(f, ns, bound)
    ensures s <= f.kids.Keys
    decreases bound, |ns|
  {
    if ns == [] then {} else Below(f, ns[0]) + BelowAll(f, ns[1..], bound)
  }

  ghost function TreeOf(f: Forest, n: Node): Tree
    requires Ranked(f) && n in f.kids
    decreases RankOf(f, n) + 1, 0
  {
    assert RankedAt(f, n);
    Tree(f.contents[n], TreesOf(f, f.kids[n], f.rank[n]))
  }

  ghost function TreesOf(f: Forest, ns: seq<Node>, bound: nat): (ts: seq<Tree>)
    requires Ranked(f) && AllLower(f, ns, bound)
    ensures |ts| == |ns|
    decreases bound, |ns|
  {
    if ns == [] then [] else [TreeOf(f, ns[0])] + TreesOf(f, ns[1..], bound)
  }

  // ---------------------------------------------------------------- the nodes below a node

  lemma {:induction false} AmongAll(f: Forest, ns: seq<Node>, bound: nat, m: Node)
    requires Ranked(f) && AllLower(f, ns, bound)
    ensures m in BelowAll(f, ns, bound) <==> exists i :: 0 <= i < |ns| && m in Below(f, ns[i])
    decreases |ns|
  {
    hide Below, RankedAt;
    if ns != [] {
      AmongAll(f, ns[1..], bound, m);
      assert forall i :: 0 <= i < |ns| - 1 ==> ns[1..][i] == ns[i + 1];
      if m in BelowAll(f, ns[1..], bound) {
        var i :| 0 <= i < |ns| - 1 && m in Below(f, ns[1..][i]);
        assert m in Below(f, ns[i + 1]);
      }
      if j :| 1 <= j < |ns| && m in Below(f, ns[j]) {
        assert m in Below(f, ns[1..][j - 1]);
      }
    }
  }

  /** Below a node are the node itself and what is below its children. */
  lemma BelowIs(f: Forest, n: Node, m: Node)
    requires Ranked(f) && n in f.kids
    ensures RankedAt(f, n) && forall i :: 0 <= i < |f.kids[n]| ==> LowerThan(f, f.kids[n][i], n)
    ensures m in Below(f, n) <==> m == n || exists i :: 0 <= i < |f.kids[n]| && m in Below(f, f.kids[n][i])
  {
    assert RankedAt(f, n);
    assert forall i :: 0 <= i < |f.kids[n]| ==> LowerThan(f, f.kids[n][i], n);
    AmongAll(f, f.kids[n], f.rank[n], m);
  }

  lemma {:induction false} BelowIsLower(f: Forest, n: Node, m: Node)
    requires Ranked(f) && n in f.kids && m in Below(f, n)
    ensures m in f.rank && n in f.rank && (m == n || f.rank[m] < f.rank[n])
    decreases RankOf(f, n)
  {
    hide Below;
    BelowIs(f, n, m);
    if m != n {
      var i :| 0 <= i < |f.kids[n]| && m in Below(f, f.kids[n][i]);
      BelowIsLower(f, f.kids[n][i], m);
    }
  }

  /** Children of what is below are below. */
  lemma {:induction false} BelowIsClosed(f: Forest, n: Node, m: Node, i: nat)
    requires Ranked(f) && n in f.kids && m in Below(f, n) && i < |f.kids[m]|
    ensures f.kids[m][i] in Below(f, n)
    decreases RankOf(f, n)
  {
    hide Below;
    BelowIs(f, n, m);
    BelowIs(f, n, f.kids[m][i]);
    if m == n {
      BelowIs(f, f.kids[m][i], f.kids[m][i]);
    } else {
      var j :| 0 <= j < |f.kids[n]| && m in Below(f, f.kids[n][j]);
      BelowIsClosed(f, f.kids[n][j], m, i);
    }
  }

  /** Nodes below another than that one itself have their parents below it too. */
  lemma {:induction false} ParentIsBelow(f: Forest, links: map<Node, Links>, n: Node, m: Node)
    requires Linked(f, links) && n in f.kids && m in Below(f, n) && m != n
    ensures links[m].parent != null && links[m].parent in Below(f, n)
    decreases RankOf(f, n)
  {
    hide Below;
    BelowIs(f, n, m);
    var i :| 0 <= i < |f.kids[n]| && m in Below(f, f.kids[n][i]);
    if m == f.kids[n][i] {
      assert LinkedAt(f, links, n) && IsChildAt(links, n, f.kids[n], i);
      BelowIs(f, n, n);
    } else {
      ParentIsBelow(f, links, f.kids[n][i], m);
      BelowIs(f, n, links[m].parent);
    }
  }

  lemma ParentIsHigher(f: Forest, links: map<Node, Links>, m: Node)
    requires Linked(f, links) && m in f.kids && links[m].parent != null
    ensures links[m].parent in f.kids && links[m].parent in f.rank && LowerThan(f, m, links[m].parent)
  {
    assert LinkedAt(f, links, m) && RankedAt(f, links[m].parent);
  }

  /** Two nodes of which neither is below the other have nothing below them in common. */
  lemma {:induction false} DisjointTrees(f: Forest, links: map<Node, Links>, a: Node, b: Node, m: Node)
    requires Linked(f, links) && a in f.kids && b in f.kids && a !in Below(f, b) && b !in Below(f, a)
    requires m in Below(f, a)
    ensures m !in Below(f, b)
    decreases RankOf(f, a) - RankOf(f, m)
  {
    hide Below;
    if m in Below(f, b) && m != a && m != b {
      BelowIsLower(f, a, m);
      ParentIsBelow(f, links, a, m);
      ParentIsBelow(f, links, b, m);
      ParentIsHigher(f, links, m);
      BelowIsLower(f, a, links[m].parent);
      DisjointTrees(f, links, a, b, links[m].parent);
    }
  }

  lemma SiblingsAreDisjoint(f: Forest, links: map<Node, Links>, n: Node, i: nat, j: nat)
    requires Linked(f, links) && n in f.kids && i < |f.kids[n]| && j < |f.kids[n]| && i != j
    ensures f.kids[n][i] in f.kids && f.kids[n][j] in f.kids && Below(f, f.kids[n][i]) !! Below(f, f.kids[n][j])
  {
    hide Below;
    var a, b := f.kids[n][i], f.kids[n][j];
    assert LinkedAt(f, links, n) && IsChildAt(links, n, f.kids[n], i) && IsChildAt(links, n, f.kids[n], j);
    assert RankedAt(f, n) && LowerThan(f, a, n) && LowerThan(f, b, n);
    NotBelowSibling(f, links, n, a, b);
    NotBelowSibling(f, links, n, b, a);
    forall m | m in Below(f, a)
      ensures m !in Below(f, b)
    {
      DisjointTrees(f, links, a, b, m);
    }
  }

  lemma NotBelowSibling(f: Forest, links: map<Node, Links>, n: Node, a: Node, b: Node)
    requires Linked(f, links) && n in f.kids && a in f.kids && n in f.rank && LowerThan(f, b, n) && a != b
    requires links[a].parent == n && links[b].parent == n
    ensures a !in Below(f, b)
  {
    hide Below;
    if a in Below(f, b) {
      ParentIsBelow(f, links, b, a);
      BelowIsLower(f, b, n);
    }
  }

  /** Trees that two forests have in common. */
  lemma {:induction false} SameTrees(f: Forest, g: Forest, ns: seq<Node>, bound: nat, limit: nat)
    requires Ranked(f) && Ranked(g) && AllLower(f, ns, bound) && AllLower(g, ns, limit)
    requires SameOn(f, g, BelowAll(f, ns, bound))
    ensures BelowAll(g, ns, limit) == BelowAll(f, ns, bound) && TreesOf(g, ns, limit) == TreesOf(f, ns, bound)
    decreases bound, |ns|
  {
    if ns != [] {
      var n := ns[0];
      assert Below(f, n) <= BelowAll(f, ns, bound) && BelowAll(f, ns[1..], bound) <= BelowAll(f, ns, bound);
      assert SameAt(f, g, n);
      assert RankedAt(f, n) && RankedAt(g, n);
      assert forall i :: 0 <= i < |f.kids[n]| ==> LowerThan(f, f.kids[n][i], n) && LowerThan(g, g.kids[n][i], n);
      SameTrees(f, g, f.kids[n], f.rank[n], g.rank[n]);
      SameTrees(f, g, ns[1..], bound, limit);
    }
  }

  ghost predicate SameOn(f: Forest, g: Forest, s: set<Node>) {
    forall n :: n in s ==> SameAt(f, g, n)
  }

  ghost predicate SameAt(f: Forest, g: Forest, n: Node) {
    n in f.kids && n in g.kids && f.kids[n] == g.kids[n] &&
    n in f.contents && n in g.contents && f.contents[n] == g.contents[n]
  }

  lemma SameTree(f: Forest, g: Forest, n: Node)
    requires Ranked(f) && Ranked(g) && n in f.kids
    requires SameOn(f, g, Below(f, n))
    ensures n in g.kids && Below(g, n) == Below(f, n) && TreeOf(g, n) == TreeOf(f, n)
  {
    assert SameAt(f, g, n);
    assert RankedAt(f, n) && RankedAt(g, n);
    assert BelowAll(f, [n], f.rank[n] + 1) == Below(f, n);
    assert BelowAll(g, [n], g.rank[n] + 1) == Below(g, n);
    SameTrees(f, g, [n], f.rank[n] + 1, g.rank[n] + 1);
    assert TreesOf(f, [n], f.rank[n] + 1)[0] == TreeOf(f, n) && TreesOf(g, [n], g.rank[n] + 1)[0] == TreeOf(g, n);
  }

  // ---------------------------------------------------------------- changes of a forest

  function InsertAt<T>(s: seq<T>, at: nat, x: T): seq<T>
    requires at <= |s|
  {
    s[..at] + [x] + s[at..]
  }

  function RemoveAt<T>(s: seq<T>, at: nat): seq<T>
    requires at < |s|
  {
    s[..at] + s[at + 1..]
  }

  /** The ranks once the tree of node hangs below p. */
  ghost function RankWith(f: Forest, p: Node, node: Node): map<Node, nat>
    requires Ranked(f) && p in f.kids && node in f.kids
  {
    assert RankedAt(f, p) && RankedAt(f, node);
    if f.rank[node] < f.rank[p] then f.rank
    else map n | n in f.kids :: RankOf(f, n) + if n in Below(f, node) then 0 else f.rank[node] + 1
  }

  /** The tree of node becomes the child of p at a position. */
  ghost function Inserted(f: Forest, p: Node, node: Node, at: nat): Forest
    requires Ranked(f) && p in f.kids && node in f.kids && at <= |f.kids[p]|
  {
    Forest(f.kids[p := InsertAt(f.kids[p], at, node)], RankWith(f, p, node), f.contents)
  }

  /** The tree of a node is gone. */
  ghost function Without(f: Forest, node: Node): Forest
    requires Ranked(f) && node in f.kids
  {
    Forest(map n | n in f.kids && n !in Below(f, node) :: f.kids[n], f.rank, f.contents)
  }

  /** The child of p at a position is gone, with its tree. */
  ghost function Removed(f: Forest, p: Node, at: nat): Forest
    requires Ranked(f) && p in f.kids && at < |f.kids[p]|
  {
    assert RankedAt(f, p) && LowerThan(f, f.kids[p][at], p);
    var g := Without(f, f.kids[p][at]);
    g.(kids := g.kids[p := RemoveAt(f.kids[p], at)])
  }

  /** The children of p are listed anew; all other lists stay. */
  ghost predicate Relisted(f: Forest, g: Forest, links: map<Node, Links>, relinks: map<Node, Links>, p: Node) {
    p in g.kids && relinks.Keys == g.kids.Keys <= f.kids.Keys == links.Keys &&
    Listed(relinks, p, g.kids[p]) &&
    forall m :: m in g.kids ==> RelistedAt(f, g, links, relinks, p, m)
  }

  ghost predicate RelistedAt(f: Forest, g: Forest, links: map<Node, Links>, relinks: map<Node, Links>, p: Node, m: Node)
    requires p in g.kids && m in g.kids && relinks.Keys == g.kids.Keys <= f.kids.Keys == links.Keys
  {
    (m != p ==> g.kids[m] == f.kids[m] && relinks[m].firstChild == links[m].firstChild && relinks[m].lastChild == links[m].lastChild) &&
    (m !in g.kids[p] ==> relinks[m].parent == links[m].parent && relinks[m].prev == links[m].prev && relinks[m].next == links[m].next) &&
    (m in g.kids[p] ==> links[m].parent == null || links[m].parent == p) &&
    (m in f.kids[p] ==> m in g.kids[p]) &&
    (links[m].parent != null ==> links[m].parent in g.kids)
  }

  lemma RelistedIsLinked(f: Forest, g: Forest, links: map<Node, Links>, relinks: map<Node, Links>, p: Node)
    requires Linked(f, links) && Ranked(g) && Relisted(f, g, links, relinks, p)
    ensures Linked(g, relinks)
  {
    hide Ranked, RankedAt;
    forall n | n in g.kids
      ensures LinkedAt(g, relinks, n)
    {
      ParentsKept(f, g, links, relinks, p, n);
      if n != p { ListKept(f, g, links, relinks, p, n); }
    }
  }

  lemma ParentsKept(f: Forest, g: Forest, links: map<Node, Links>, relinks: map<Node, Links>, p: Node, n: Node)
    requires Linked(f, links) && Relisted(f, g, links, relinks, p) && n in g.kids
    ensures relinks[n].parent != null ==> relinks[n].parent in g.kids && n in g.kids[relinks[n].parent]
  {
    assert LinkedAt(f, links, n) && RelistedAt(f, g, links, relinks, p, n);
    if n in g.kids[p] {
      var i :| 0 <= i < |g.kids[p]| && g.kids[p][i] == n;
      assert IsChildAt(relinks, p, g.kids[p], i);
    } else if links[n].parent != null {
      assert RelistedAt(f, g, links, relinks, p, links[n].parent);
    }
  }

  lemma ListKept(f: Forest, g: Forest, links: map<Node, Links>, relinks: map<Node, Links>, p: Node, n: Node)
    requires Linked(f, links) && Relisted(f, g, links, relinks, p) && Ranked(g) && n in g.kids && n != p
    ensures Listed(relinks, n, g.kids[n])
  {
    assert LinkedAt(f, links, n) && RelistedAt(f, g, links, relinks, p, n) && RankedAt(g, n);
    var ks := g.kids[n];
    forall i | 0 <= i < |ks|
      ensures IsChildAt(relinks, n, ks, i)
    {
      assert IsChildAt(links, n, ks, i) && LowerThan(g, ks[i], n);
      assert RelistedAt(f, g, links, relinks, p, ks[i]);
    }
  }

  // ---------------------------------------------------------------- inserting

  lemma InsertedNodes(f: Forest, p: Node, node: Node, at: nat)
    requires Ranked(f) && p in f.kids && node in f.kids && at <= |f.kids[p]|
    ensures Inserted(f, p, node, at).kids.Keys == f.kids.Keys && Inserted(f, p, node, at).contents == f.contents
  {
  }

  /** A child of a node outside a root's tree is outside that tree. */
  lemma OutsideTree(f: Forest, links: map<Node, Links>, node: Node, n: Node, i: nat)
    requires Linked(f, links) && node in f.kids && links[node].parent == null
    requires n in f.kids && n !in Below(f, node) && i < |f.kids[n]|
    ensures f.kids[n][i] in f.kids && f.kids[n][i] !in Below(f, node)
  {
    hide Below;
    var k := f.kids[n][i];
    assert LinkedAt(f, links, n) && IsChildAt(links, n, f.kids[n], i) && RankedAt(f, n) && LowerThan(f, k, n);
    if k in Below(f, node) && k != node { ParentIsBelow(f, links, node, k); }
  }

  lemma InsertedIsRanked(f: Forest, links: map<Node, Links>, p: Node, node: Node, at: nat)
    requires Linked(f, links) && p in f.kids && node in f.kids && at <= |f.kids[p]|
    requires p !in Below(f, node) && links[node].parent == null && !node.kind.DocumentNode?
    ensures Ranked(Inserted(f, p, node, at))
  {
    hide Below;
    var g := Inserted(f, p, node, at);
    assert RankedAt(f, p) && RankedAt(f, node);
    forall n | n in g.kids
      ensures RankedAt(g, n)
    {
      assert RankedAt(f, n);
      forall i | 0 <= i < |g.kids[n]|
        ensures LowerThan(g, g.kids[n][i], n)
      {
        InsertedIsLower(f, links, p, node, at, n, i);
      }
    }
  }

  lemma InsertedIsLower(f: Forest, links: map<Node, Links>, p: Node, node: Node, at: nat, n: Node, i: nat)
    requires Linked(f, links) && p in f.kids && node in f.kids && at <= |f.kids[p]|
    requires p !in Below(f, node) && links[node].parent == null && !node.kind.DocumentNode?
    requires n in f.kids && i < |Inserted(f, p, node, at).kids[n]| && n in Inserted(f, p, node, at).rank
    ensures var g := Inserted(f, p, node, at); LowerThan(g, g.kids[n][i], n)
  {
    hide Below, LinkedAt;
    var ks := f.kids[n];
    assert RankedAt(f, n) && RankedAt(f, p) && RankedAt(f, node);
    BelowIsLower(f, node, node);
    if n == p && i == at {
      BelowIs(f, node, node);
    } else {
      var j := if n == p && i > at then i - 1 else i;
      assert LowerThan(f, ks[j], n);
      assert RankedAt(f, ks[j]);
      if n in Below(f, node) {
        BelowIsClosed(f, node, n, j);
      } else {
        OutsideTree(f, links, node, n, j);
      }
    }
  }

  lemma {:induction false} TreesAt(f: Forest, ns: seq<Node>, bound: nat, i: nat)
    requires Ranked(f) && AllLower(f, ns, bound) && i < |ns|
    ensures TreesOf(f, ns, bound)[i] == TreeOf(f, ns[i])
    decreases |ns|
  {
    if i > 0 { TreesAt(f, ns[1..], bound, i - 1); }
  }

  lemma ChildTree(f: Forest, n: Node, i: nat)
    requires Ranked(f) && n in f.kids && i < |f.kids[n]|
    ensures RankedAt(f, n) && LowerThan(f, f.kids[n][i], n)
    ensures |TreeOf(f, n).children| == |f.kids[n]| && TreeOf(f, n).children[i] == TreeOf(f, f.kids[n][i])
    ensures n !in Below(f, f.kids[n][i])
  {
    assert RankedAt(f, n) && LowerThan(f, f.kids[n][i], n);
    TreesAt(f, f.kids[n], f.rank[n], i);
    if n in Below(f, f.kids[n][i]) { BelowIsLower(f, f.kids[n][i], n); }
  }

  lemma ChildCount(f: Forest, n: Node)
    requires Ranked(f) && n in f.kids
    ensures |TreeOf(f, n).children| == |f.kids[n]| && n in f.contents && TreeOf(f, n).content == f.contents[n]
  {
    assert RankedAt(f, n);
  }

  /** A tree in which no list was changed. */
  lemma UntouchedTree(f: Forest, g: Forest, p: Node, n: Node)
    requires Ranked(f) && Ranked(g) && n in f.kids && p !in Below(f, n)
    requires forall m :: m in f.kids && m in Below(f, n) && m != p ==> m in g.kids && g.kids[m] == f.kids[m]
    requires g.contents == f.contents
    ensures n in g.kids && Below(g, n) == Below(f, n) && TreeOf(g, n) == TreeOf(f, n)
  {
    hide Below, TreeOf;
    forall m | m in Below(f, n)
      ensures SameAt(f, g, m)
    {
      assert RankedAt(f, m);
    }
    SameTree(f, g, n);
  }

  lemma InsertedElsewhere(f: Forest, links: map<Node, Links>, p: Node, node: Node, at: nat, n: Node)
    requires Linked(f, links) && p in f.kids && node in f.kids && at <= |f.kids[p]|
    requires p !in Below(f, node) && links[node].parent == null && !node.kind.DocumentNode?
    requires n in f.kids && p !in Below(f, n)
    ensures var g := Inserted(f, p, node, at);
            Ranked(g) && Below(g, n) == Below(f, n) && TreeOf(g, n) == TreeOf(f, n)
  {
    hide Below, TreeOf, RankedAt, LinkedAt;
    InsertedIsRanked(f, links, p, node, at);
    UntouchedTree(f, Inserted(f, p, node, at), p, n);
  }

  lemma InsertedChild(f: Forest, links: map<Node, Links>, p: Node, node: Node, at: nat, i: nat)
    requires Linked(f, links) && p in f.kids && node in f.kids && at <= |f.kids[p]|
    requires p !in Below(f, node) && links[node].parent == null && !node.kind.DocumentNode?
    requires i <= |f.kids[p]|
    ensures var g := Inserted(f, p, node, at);
            Ranked(g) && |TreeOf(g, p).children| == |g.kids[p]| == |f.kids[p]| + 1 && |TreeOf(f, p).children| == |f.kids[p]| &&
            TreeOf(g, p).children[i] == InsertAt(TreeOf(f, p).children, at, TreeOf(f, node))[i]
  {
    hide Below, TreeOf, RankedAt, LinkedAt, RankWith;
    var g := Inserted(f, p, node, at);
    InsertedIsRanked(f, links, p, node, at);
    ChildCount(f, p);
    ChildTree(g, p, i);
    if i == at {
      InsertedElsewhere(f, links, p, node, at, node);
    } else {
      var j := if i < at then i else i - 1;
      ChildTree(f, p, j);
      InsertedElsewhere(f, links, p, node, at, f.kids[p][j]);
    }
  }

  /** The trees after an insertion: p has one child more; a tree without p is as before. */
  lemma InsertedTrees(f: Forest, links: map<Node, Links>, p: Node, node: Node, at: nat)
    requires Linked(f, links) && p in f.kids && node in f.kids && at <= |f.kids[p]|
    requires p !in Below(f, node) && links[node].parent == null && !node.kind.DocumentNode?
    ensures Ranked(Inserted(f, p, node, at)) && |TreeOf(f, p).children| == |f.kids[p]|
    ensures TreeOf(Inserted(f, p, node, at), p)
         == Tree(TreeOf(f, p).content, InsertAt(TreeOf(f, p).children, at, TreeOf(f, node)))
    ensures forall n :: n in f.kids && p !in Below(f, n) ==> TreeOf(Inserted(f, p, node, at), n) == TreeOf(f, n)
  {
    hide Below, TreeOf, RankedAt, LinkedAt, RankWith;
    var g := Inserted(f, p, node, at);
    InsertedIsRanked(f, links, p, node, at);
    forall n | n in f.kids && p !in Below(f, n)
      ensures TreeOf(g, n) == TreeOf(f, n)
    {
      InsertedElsewhere(f, links, p, node, at, n);
    }
    ChildCount(f, p);
    ChildCount(g, p);
    var all := InsertAt(TreeOf(f, p).children, at, TreeOf(f, node));
    forall i | 0 <= i < |all|
      ensures TreeOf(g, p).children[i] == all[i]
    {
      InsertedChild(f, links, p, node, at, i);
    }
    assert TreeOf(g, p).children == all;
  }

  // ---------------------------------------------------------------- removing

  lemma RemovedIsRanked(f: Forest, links: map<Node, Links>, p: Node, at: nat)
    requires Linked(f, links) && p in f.kids && at < |f.kids[p]|
    ensures Ranked(Removed(f, p, at)) && p in Removed(f, p, at).kids
  {
    hide Below, LinkedAt;
    var g := Removed(f, p, at);
    ChildTree(f, p, at);
    forall n | n in g.kids
      ensures RankedAt(g, n)
    {
      assert RankedAt(f, n);
      forall i | 0 <= i < |g.kids[n]|
        ensures LowerThan(g, g.kids[n][i], n)
      {
        RemovedIsLower(f, links, p, at, n, i);
      }
    }
  }

  lemma RemovedIsLower(f: Forest, links: map<Node, Links>, p: Node, at: nat, n: Node, i: nat)
    requires Linked(f, links) && p in f.kids && at < |f.kids[p]|
    requires n in Removed(f, p, at).kids && i < |Removed(f, p, at).kids[n]|
    ensures var g := Removed(f, p, at); n in g.rank && LowerThan(g, g.kids[n][i], n)
  {
    hide Below, LinkedAt;
    ChildTree(f, p, at);
    var j := if n == p && i >= at then i + 1 else i;
    assert RankedAt(f, n);
    assert LowerThan(f, f.kids[n][j], n);
    RemainingChild(f, links, p, at, n, j);
  }

  lemma RemainingChild(f: Forest, links: map<Node, Links>, p: Node, at: nat, n: Node, j: nat)
    requires Linked(f, links) && p in f.kids && at < |f.kids[p]| && f.kids[p][at] in f.kids
    requires n in f.kids && n !in Below(f, f.kids[p][at]) && j < |f.kids[n]| && (n != p || j != at)
    ensures f.kids[n][j] !in Below(f, f.kids[p][at])
  {
    hide Below;
    var gone, k := f.kids[p][at], f.kids[n][j];
    assert LinkedAt(f, links, n) && IsChildAt(links, n, f.kids[n], j);
    assert LinkedAt(f, links, p) && IsChildAt(links, p, f.kids[p], at);
    if k in Below(f, gone) && k != gone { ParentIsBelow(f, links, gone, k); }
  }

  lemma RemovedElsewhere(f: Forest, links: map<Node, Links>, p: Node, at: nat, n: Node)
    requires Linked(f, links) && p in f.kids && at < |f.kids[p]| && f.kids[p][at] in f.kids
    requires n in f.kids && p !in Below(f, n) && f.kids[p][at] !in Below(f, n) && n !in Below(f, f.kids[p][at])
    ensures var g := Removed(f, p, at);
            Ranked(g) && n in g.kids && TreeOf(g, n) == TreeOf(f, n)
  {
    hide Below, TreeOf, RankedAt, LinkedAt;
    var g, gone := Removed(f, p, at), f.kids[p][at];
    RemovedIsRanked(f, links, p, at);
    forall m | m in Below(f, n)
      ensures m in g.kids
    {
      DisjointTrees(f, links, n, gone, m);
    }
    UntouchedTree(f, g, p, n);
  }

  lemma RemainingTree(f: Forest, links: map<Node, Links>, p: Node, at: nat, i: nat)
    requires Linked(f, links) && p in f.kids && at < |f.kids[p]| && i < |f.kids[p]| - 1
    ensures var g := Removed(f, p, at);
            Ranked(g) && p in g.kids && |TreeOf(g, p).children| == |f.kids[p]| - 1 && |TreeOf(f, p).children| == |f.kids[p]| &&
            TreeOf(g, p).children[i] == RemoveAt(TreeOf(f, p).children, at)[i]
  {
    hide Below, TreeOf, RankedAt, LinkedAt;
    var g := Removed(f, p, at);
    RemovedIsRanked(f, links, p, at);
    var j := if i < at then i else i + 1;
    ChildCount(f, p);
    ChildTree(g, p, i);
    ChildTree(f, p, j);
    ChildTree(f, p, at);
    SiblingsAreDisjoint(f, links, p, at, j);
    RemovedElsewhere(f, links, p, at, f.kids[p][j]);
  }

  /** The trees after a removal: p has one child less; a tree with neither p nor the removed
      child in it is as before. */
  lemma RemovedTrees(f: Forest, links: map<Node, Links>, p: Node, at: nat)
    requires Linked(f, links) && p in f.kids && at < |f.kids[p]|
    ensures var g := Removed(f, p, at);
            Ranked(g) && p in g.kids && |TreeOf(f, p).children| == |f.kids[p]| &&
            TreeOf(g, p) == Tree(TreeOf(f, p).content, RemoveAt(TreeOf(f, p).children, at)) &&
            forall n :: n in g.kids && p !in Below(f, n) && f.kids[p][at] !in Below(f, n) ==> TreeOf(g, n) == TreeOf(f, n)
  {
    hide Below, TreeOf, RankedAt, LinkedAt;
    var g := Removed(f, p, at);
    RemovedIsRanked(f, links, p, at);
    ChildTree(f, p, at);
    forall n | n in g.kids && p !in Below(f, n) && f.kids[p][at] !in Below(f, n)
      ensures TreeOf(g, n) == TreeOf(f, n)
    {
      NotGone(f, p, at, n);
      RemovedElsewhere(f, links, p, at, n);
    }
    ChildCount(f, p);
    ChildCount(g, p);
    var rest := RemoveAt(TreeOf(f, p).children, at);
    forall i | 0 <= i < |rest|
      ensures TreeOf(g, p).children[i] == rest[i]
    {
      RemainingTree(f, links, p, at, i);
    }
    assert TreeOf(g, p).children == rest;
  }

  lemma NotGone(f: Forest, p: Node, at: nat, n: Node)
    requires Ranked(f) && p in f.kids && at < |f.kids[p]|
    requires n in f.kids && f.kids[p][at] in f.kids && n in Removed(f, p, at).kids && p !in Below(f, f.kids[p][at])
    ensures n !in Below(f, f.kids[p][at])
  {
    hide Below;
  }

  // ---------------------------------------------------------------- deleting

  /** The pointers the destructor follows below a node are still those of the links. */
  ghost predicate Intact(f: Forest, links: map<Node, Links>, top: Node)
    requires Ranked(f) && top in f.kids && links.Keys == f.kids.Keys
    reads Below(f, top)`firstChild, Below(f, top)`next
  {
    forall n :: n in Below(f, top) ==> n.firstChild == links[n].firstChild && (n != top ==> n.next == links[n].next)
  }

  /** All nodes below k are deleted, or none is. */
  ghost predicate Ended(f: Forest, k: Node, gone: bool)
    requires Ranked(f) && k in f.kids
    reads Below(f, k)`deleted
  {
    forall n :: n in Below(f, k) ==> n.deleted == gone
  }

  lemma LinkedIsRanked(f: Forest, links: map<Node, Links>)
    requires Linked(f, links)
    ensures Ranked(f) && links.Keys == f.kids.Keys
  {
  }

  lemma ChildrenAreBelow(f: Forest, n: Node)
    requires Ranked(f) && n in f.kids
    ensures forall i :: 0 <= i < |f.kids[n]| ==> f.kids[n][i] in f.kids && Below(f, f.kids[n][i]) <= Below(f, n)
    ensures forall i :: 0 <= i < |f.kids[n]| ==> n !in Below(f, f.kids[n][i]) && RankOf(f, f.kids[n][i]) < RankOf(f, n)
  {
    hide Below;
    forall i | 0 <= i < |f.kids[n]|
      ensures f.kids[n][i] in f.kids && Below(f, f.kids[n][i]) <= Below(f, n)
      ensures n !in Below(f, f.kids[n][i]) && RankOf(f, f.kids[n][i]) < RankOf(f, n)
    {
      ChildTree(f, n, i);
      forall m | m in Below(f, f.kids[n][i])
        ensures m in Below(f, n)
      {
        BelowIs(f, n, m);
      }
    }
  }

  lemma ChildIsIntact(f: Forest, links: map<Node, Links>, n: Node, i: nat)
    requires Linked(f, links) && n in f.kids && Intact(f, links, n) && i < |f.kids[n]|
    ensures f.kids[n][i] in f.kids && Intact(f, links, f.kids[n][i])
    ensures f.kids[n][i].next == At(f.kids[n], i + 1)
  {
    hide Below, LinkedAt, RankedAt;
    ChildrenAreBelow(f, n);
    ListIs(f, links, n);
    assert IsChildAt(links, n, f.kids[n], i);
    assert f.kids[n][i] in Below(f, f.kids[n][i]);
  }

  lemma OtherSiblings(f: Forest, links: map<Node, Links>, n: Node, i: nat)
    requires Linked(f, links) && n in f.kids && i < |f.kids[n]| && f.kids[n][i] in f.kids
    ensures forall j :: 0 <= j < |f.kids[n]| && j != i ==>
              f.kids[n][j] in f.kids && Below(f, f.kids[n][j]) !! Below(f, f.kids[n][i])
  {
    hide Below, LinkedAt, RankedAt;
    forall j | 0 <= j < |f.kids[n]| && j != i
      ensures f.kids[n][j] in f.kids && Below(f, f.kids[n][j]) !! Below(f, f.kids[n][i])
    {
      SiblingsAreDisjoint(f, links, n, i, j);
    }
  }

  lemma SameContents(f: Forest, g: Forest)
    requires AllHold(f) && g.kids.Keys == f.kids.Keys && g.contents == f.contents
    ensures AllHold(g)
  {
    HoldsStill(f, g);
  }

  lemma RootIsGone(f: Forest, links: map<Node, Links>, node: Node)
    requires Linked(f, links) && node in f.kids && links[node].parent == null
    ensures Linked(Without(f, node), map n | n in Without(f, node).kids :: links[n])
  {
    hide Below, LinkedAt, RankedAt, Linked;
    LinkedIsRanked(f, links);
    var g := Without(f, node);
    var relinks := map n | n in g.kids :: links[n];
    forall n | n in g.kids
      ensures RankedAt(g, n) && LinkedAt(g, relinks, n)
    {
      NodeStays(f, links, node, n);
    }
    LinkedByParts(g, relinks);
  }

  lemma LinkedByParts(f: Forest, links: map<Node, Links>)
    requires links.Keys == f.kids.Keys && forall n :: n in f.kids ==> RankedAt(f, n) && LinkedAt(f, links, n)
    ensures Ranked(f) && Linked(f, links)
  {
  }

  lemma NodeStays(f: Forest, links: map<Node, Links>, node: Node, n: Node)
    requires Linked(f, links) && node in f.kids && links[node].parent == null && n in f.kids && n !in Below(f, node)
    ensures var g := Without(f, node);
            RankedAt(g, n) && LinkedAt(g, map m | m in g.kids :: links[m], n)
  {
    hide Below, Linked, Ranked;
    LinkedIsRanked(f, links);
    ListIs(f, links, n);
    var g, ks := Without(f, node), f.kids[n];
    var relinks := map m | m in g.kids :: links[m];
    forall i | 0 <= i < |ks|
      ensures LowerThan(g, ks[i], n) && IsChildAt(relinks, n, ks, i)
    {
      assert LowerThan(f, ks[i], n) && IsChildAt(links, n, ks, i);
      OutsideTree(f, links, node, n, i);
    }
    var above := links[n].parent;
    if above != null && above in Below(f, node) {
      var i :| 0 <= i < |f.kids[above]| && f.kids[above][i] == n;
      BelowIsClosed(f, node, above, i);
    }
  }

  // ---------------------------------------------------------------- what the methods show

  lemma ListIs(f: Forest, links: map<Node, Links>, n: Node)
    requires Linked(f, links) && n in f.kids
    ensures n in links && Listed(links, n, f.kids[n]) && RankedAt(f, n)
    ensures links[n].parent != null ==> links[n].parent in f.kids && n in f.kids[links[n].parent]
  {
    hide Listed;
    assert LinkedAt(f, links, n) && RankedAt(f, n);
  }

  lemma ValidIsRanked(f: Forest)
    requires Valid(f)
    ensures Ranked(f) && Linked(f, LinksOf(f.kids.Keys)) && AllHold(f)
  {
    hide LinkedAt, RankedAt, Holds;
  }

  lemma ValidIsValidBut(f: Forest, node: Node)
    requires Valid(f) && node.parent == null
    ensures ValidBut(f, node)
  {
    hide Linked, AllHold;
    assert Unparented(LinksOf(f.kids.Keys), node) == LinksOf(f.kids.Keys);
  }

  lemma SplicedUnparented(links: map<Node, Links>, p: Node, node: Node, before: Node?, after: Node?)
    ensures Spliced(Unparented(links, node), p, node, before, after) == Spliced(links, p, node, before, after)
  {
  }

  lemma ValidByParts(f: Forest)
    requires Linked(f, LinksOf(f.kids.Keys)) && AllHold(f)
    ensures Valid(f)
  {
  }

  lemma AllAlive(f: Forest)
    requires AllHold(f)
    ensures forall n :: n in f.kids ==> !n.deleted && Holds(f, n)
  {
    assert forall n :: n in f.kids ==> Holds(f, n) ==> !n.deleted;
  }

  /** Holds is about the contents only. */
  lemma HoldsStill(f: Forest, g: Forest)
    requires g.kids.Keys <= f.kids.Keys && g.contents == f.contents && forall n :: n in g.kids ==> Holds(f, n)
    ensures AllHold(g)
  {
    forall n | n in g.kids
      ensures Holds(g, n)
    {
      assert Holds(f, n);
    }
  }

  /** The links once node stands between two neighbours among the children of p. */
  ghost function Spliced(links: map<Node, Links>, p: Node, node: Node, before: Node?, after: Node?): map<Node, Links> {
    map m | m in links ::
      Links(if m == node then p else links[m].parent,
            if m == p && before == null then node else links[m].firstChild,
            if m == p && after == null then node else links[m].lastChild,
            if m == node then before else if m == after then node else links[m].prev,
            if m == node then after else if m == before then node else links[m].next)
  }

  lemma SplicedIsLinked(f: Forest, links: map<Node, Links>, p: Node, node: Node, at: nat)
    requires Linked(f, links) && p in f.kids && node in f.kids && at <= |f.kids[p]|
    requires p !in Below(f, node) && links[node].parent == null && !node.kind.DocumentNode?
    ensures var ks := f.kids[p];
            Linked(Inserted(f, p, node, at), Spliced(links, p, node, Before(ks, at), At(ks, at)))
    ensures Neighbours(f, links, p, node, at)
  {
    hide Below, Ranked, RankWith, Linked;
    NeighboursAre(f, links, p, node, at);
    LinkedIsRanked(f, links);
    InsertedIsRanked(f, links, p, node, at);
    NewChildren(f, links, p, node, at);
    var g, ks := Inserted(f, p, node, at), f.kids[p];
    var relinks := Spliced(links, p, node, Before(ks, at), At(ks, at));
    ListIs(f, links, p);
    forall i | 0 <= i < |g.kids[p]|
      ensures IsChildAt(relinks, p, g.kids[p], i)
    {
      SplicedChild(links, p, node, ks, at, i);
    }
    forall m | m in g.kids
      ensures RelistedAt(f, g, links, relinks, p, m)
    {
      NewcomerOrChild(f, links, p, node, at, m);
    }
    RelistedIsLinked(f, g, links, relinks, p);
  }

  /** What is known about the nodes in front of and at a position among the children of p. */
  ghost predicate Neighbours(f: Forest, links: map<Node, Links>, p: Node, node: Node, at: nat)
    requires p in f.kids && p in links && links.Keys == f.kids.Keys && at <= |f.kids[p]|
  {
    var before, after := Before(f.kids[p], at), At(f.kids[p], at);
    (before == null <==> at == 0) && (after == null <==> at == |f.kids[p]|) &&
    (before == null ==> links[p].firstChild == after) && (after == null ==> links[p].lastChild == before) &&
    (before != null ==> before != after) &&
    (before != null ==> before in f.kids && before != p && before != node && links[before].next == after && links[before].parent == p) &&
    (after != null ==> after in f.kids && after != p && after != node && links[after].prev == before && links[after].parent == p)
  }

  lemma NeighboursAre(f: Forest, links: map<Node, Links>, p: Node, node: Node, at: nat)
    requires Linked(f, links) && p in f.kids && at <= |f.kids[p]|
    requires node in f.kids && links[node].parent == null
    ensures Neighbours(f, links, p, node, at)
  {
    hide Ranked, Linked;
    LinkedIsRanked(f, links);
    NewChildren(f, links, p, node, at);
    ListIs(f, links, p);
    var ks := f.kids[p];
    assert at > 0 ==> IsChildAt(links, p, ks, at - 1);
    assert at < |ks| ==> IsChildAt(links, p, ks, at);
  }

  /** The children of a node are nodes of the forest, and other nodes. */
  ghost predicate ListsOthers(f: Forest, p: Node)
    requires p in f.kids
  {
    forall i :: 0 <= i < |f.kids[p]| ==> f.kids[p][i] in f.kids && f.kids[p][i] != p
  }

  lemma SplicedChild(links: map<Node, Links>, p: Node, node: Node, ks: seq<Node>, at: nat, i: nat)
    requires p in links && node in links && Listed(links, p, ks) && node !in ks && at <= |ks| && i <= |ks|
    ensures IsChildAt(Spliced(links, p, node, Before(ks, at), At(ks, at)), p, InsertAt(ks, at, node), i)
  {
    if i < at {
      assert IsChildAt(links, p, ks, i);
    } else if i > at {
      assert IsChildAt(links, p, ks, i - 1);
    }
  }

  /** A root is none of the children; with it they are still distinct. */
  lemma NewChildren(f: Forest, links: map<Node, Links>, p: Node, node: Node, at: nat)
    requires Linked(f, links) && p in f.kids && node in f.kids && links[node].parent == null && at <= |f.kids[p]|
    ensures node !in f.kids[p] && Distinct(InsertAt(f.kids[p], at, node)) && ListsOthers(f, p)
  {
    hide Linked, Ranked;
    ListIs(f, links, p);
    var ks := f.kids[p];
    forall i | 0 <= i < |ks|
      ensures IsChildAt(links, p, ks, i) && ks[i] != node && ks[i] in f.kids && ks[i] != p
    {
      assert IsChildAt(links, p, ks, i) && LowerThan(f, ks[i], p);
    }
  }

  /** A node is among the new children when it was among the old ones or is the newcomer. */
  lemma NewcomerOrChild(f: Forest, links: map<Node, Links>, p: Node, node: Node, at: nat, m: Node)
    requires Linked(f, links) && p in f.kids && node in f.kids && links[node].parent == null && at <= |f.kids[p]|
    requires m in f.kids
    ensures var all := InsertAt(f.kids[p], at, node);
            (m in all <==> m == node || m in f.kids[p]) &&
            (m in all ==> links[m].parent == null || links[m].parent == p) &&
            (links[m].parent != null ==> links[m].parent in f.kids) &&
            (m !in all ==> m != Before(f.kids[p], at) && m != At(f.kids[p], at))
  {
    hide Linked, Ranked, RankedAt;
    var ks, all := f.kids[p], InsertAt(f.kids[p], at, node);
    ListIs(f, links, p);
    ListIs(f, links, m);
    if m in ks {
      var i :| 0 <= i < |ks| && ks[i] == m;
      assert IsChildAt(links, p, ks, i);
      assert all[if i < at then i else i + 1] == m;
    }
    assert all[at] == node;
  }

  // ---------------------------------------------------------------- what removal shows

  ghost function IndexIn(ks: seq<Node>, n: Node): (i: nat)
    requires n in ks
    ensures i < |ks| && ks[i] == n
  {
    if ks[0] == n then 0 else 1 + IndexIn(ks[1..], n)
  }

  /** The links once two neighbours are closed up among the children of p. */
  ghost function Unspliced(links: map<Node, Links>, p: Node, before: Node?, after: Node?): map<Node, Links> {
    map m | m in links ::
      Links(links[m].parent,
            if m == p && before == null then after else links[m].firstChild,
            if m == p && after == null then before else links[m].lastChild,
            if m == after then before else links[m].prev,
            if m == before then after else links[m].next)
  }

  ghost function UnsplicedLinks(f: Forest, links: map<Node, Links>, p: Node, at: nat): map<Node, Links>
    requires Ranked(f) && p in f.kids && at < |f.kids[p]| && links.Keys == f.kids.Keys
  {
    var ks, g := f.kids[p], Removed(f, p, at);
    var all := Unspliced(links, p, Before(ks, at), At(ks, at + 1));
    map m | m in g.kids && m in all :: all[m]
  }

  /** What is known about a child and its neighbours. */
  ghost predicate ChildHas(f: Forest, links: map<Node, Links>, p: Node, at: nat)
    requires links.Keys == f.kids.Keys && p in f.kids && at < |f.kids[p]|
  {
    var ks := f.kids[p];
    var n, before, after := ks[at], Before(ks, at), At(ks, at + 1);
    n in f.kids && n != p && links[n].parent == p && links[n].prev == before && links[n].next == after &&
    (before != null ==> before in f.kids && before != p && before != n) &&
    (after != null ==> after in f.kids && after != p && after != n)
  }

  lemma ChildIs(f: Forest, links: map<Node, Links>, p: Node, at: nat)
    requires Linked(f, links) && p in f.kids && at < |f.kids[p]|
    ensures links.Keys == f.kids.Keys && ChildHas(f, links, p, at)
  {
    hide Linked, Ranked;
    LinkedIsRanked(f, links);
    ListIs(f, links, p);
    var ks := f.kids[p];
    assert IsChildAt(links, p, ks, at) && LowerThan(f, ks[at], p);
    assert at > 0 ==> LowerThan(f, ks[at - 1], p);
    assert at + 1 < |ks| ==> LowerThan(f, ks[at + 1], p);
  }

  lemma UnsplicedIsLinked(f: Forest, links: map<Node, Links>, p: Node, at: nat)
    requires Linked(f, links) && p in f.kids && at < |f.kids[p]|
    ensures Ranked(f) && links.Keys == f.kids.Keys && Linked(Removed(f, p, at), UnsplicedLinks(f, links, p, at))
    ensures ChildHas(f, links, p, at)
  {
    hide Below, Ranked, Linked, IsChildAt;
    LinkedIsRanked(f, links);
    RemovedIsRanked(f, links, p, at);
    ChildIs(f, links, p, at);
    ListIs(f, links, p);
    var g, ks := Removed(f, p, at), f.kids[p];
    var relinks := UnsplicedLinks(f, links, p, at);
    RemovedNodes(f, p, at);
    assert relinks.Keys == g.kids.Keys;
    forall i | 0 <= i < |g.kids[p]|
      ensures IsChildAt(relinks, p, g.kids[p], i)
    {
      RemainingIsListed(f, links, p, at, i);
    }
    RemovedIsDistinct(ks, at);
    forall m | m in g.kids
      ensures RelistedAt(f, g, links, relinks, p, m)
    {
      RemainingIsKept(f, links, p, at, m);
    }
    RelistedIsLinked(f, g, links, relinks, p);
  }

  lemma RemovedIsDistinct(ks: seq<Node>, at: nat)
    requires Distinct(ks) && at < |ks|
    ensures Distinct(RemoveAt(ks, at))
  {
  }

  lemma RemovedNodes(f: Forest, p: Node, at: nat)
    requires Ranked(f) && p in f.kids && at < |f.kids[p]|
    ensures var g := Removed(f, p, at);
            f.kids[p][at] in f.kids && p in g.kids && g.kids[p] == RemoveAt(f.kids[p], at) && g.contents == f.contents &&
            g.kids.Keys == f.kids.Keys - Below(f, f.kids[p][at]) && forall n :: n in g.kids && n != p ==> g.kids[n] == f.kids[n]
  {
    hide Below;
    ChildTree(f, p, at);
  }

  lemma RemainingIsListed(f: Forest, links: map<Node, Links>, p: Node, at: nat, i: nat)
    requires Linked(f, links) && p in f.kids && at < |f.kids[p]| && i < |f.kids[p]| - 1
    ensures Ranked(f) && links.Keys == f.kids.Keys
    ensures IsChildAt(UnsplicedLinks(f, links, p, at), p, RemoveAt(f.kids[p], at), i)
  {
    hide Below, Ranked, Linked, Removed;
    LinkedIsRanked(f, links);
    ListIs(f, links, p);
    RemovedNodes(f, p, at);
    var ks, j := f.kids[p], if i < at then i else i + 1;
    assert IsChildAt(links, p, ks, j) && IsChildAt(links, p, ks, at) && LowerThan(f, ks[j], p);
    SiblingsAreDisjoint(f, links, p, at, j);
    assert ks[j] in Below(f, ks[j]);
    NeighbourIndices(ks, at, j);
  }

  /** A child is the neighbour of another only from the next position. */
  lemma NeighbourIndices(ks: seq<Node>, at: nat, j: nat)
    requires Distinct(ks) && at < |ks| && j < |ks| && j != at
    ensures ks[j] == Before(ks, at) <==> j + 1 == at
    ensures ks[j] == At(ks, at + 1) <==> j == at + 1
  {
  }

  lemma RemainingIsKept(f: Forest, links: map<Node, Links>, p: Node, at: nat, m: Node)
    requires Linked(f, links) && p in f.kids && at < |f.kids[p]| && Ranked(f) && links.Keys == f.kids.Keys
    requires p in Removed(f, p, at).kids && UnsplicedLinks(f, links, p, at).Keys == Removed(f, p, at).kids.Keys <= f.kids.Keys
    requires m in Removed(f, p, at).kids
    ensures RelistedAt(f, Removed(f, p, at), links, UnsplicedLinks(f, links, p, at), p, m)
  {
    hide Below, Ranked, Linked, Removed;
    RemovedNodes(f, p, at);
    ListIs(f, links, p);
    ListIs(f, links, m);
    var ks := f.kids[p];
    var rest := RemoveAt(ks, at);
    assert at > 0 ==> rest[at - 1] == ks[at - 1];
    assert at + 1 < |ks| ==> rest[at] == ks[at + 1];
    assert ks[at] in Below(f, ks[at]);
    if m in ks {
      var i :| 0 <= i < |ks| && ks[i] == m;
      assert IsChildAt(links, p, ks, i) && i != at;
      assert rest[if i < at then i else i - 1] == m;
    }
    if links[m].parent != null { ParentStays(f, links, p, at, m); }
  }

  lemma ParentStays(f: Forest, links: map<Node, Links>, p: Node, at: nat, m: Node)
    requires Linked(f, links) && p in f.kids && at < |f.kids[p]| && Ranked(f) && links.Keys == f.kids.Keys
    requires m in f.kids && f.kids[p][at] in f.kids && m !in Below(f, f.kids[p][at]) && links[m].parent != null
    ensures links[m].parent in f.kids && links[m].parent !in Below(f, f.kids[p][at])
  {
    hide Below, Ranked, Linked;
    ListIs(f, links, m);
    var above := links[m].parent;
    if above in Below(f, f.kids[p][at]) {
      var i :| 0 <= i < |f.kids[above]| && f.kids[above][i] == m;
      BelowIsClosed(f, f.kids[p][at], above, i);
    }
  }

  /** Neither p nor the neighbours of the removed child are below it. */
  lemma OutsideRemoved(f: Forest, links: map<Node, Links>, p: Node, at: nat)
    requires Linked(f, links) && p in f.kids && at < |f.kids[p]|
    ensures Ranked(f) && f.kids[p][at] in f.kids
    ensures var s, before, after := Below(f, f.kids[p][at]), Before(f.kids[p], at), At(f.kids[p], at + 1);
            p !in s && (before != null ==> before !in s) && (after != null ==> after !in s)
  {
    hide Below, Ranked, Linked;
    LinkedIsRanked(f, links);
    ChildTree(f, p, at);
    if at > 0 { SiblingsAreDisjoint(f, links, p, at, at - 1); }
    if at + 1 < |f.kids[p]| { SiblingsAreDisjoint(f, links, p, at, at + 1); }
  }

  /** Closing up the neighbours leaves the tree of the removed child as it was. */
  lemma UnsplicedIsIntact(f: Forest, links: map<Node, Links>, p: Node, at: nat)
    requires Linked(f, links) && p in f.kids && at < |f.kids[p]| && Ranked(f) && links.Keys == f.kids.Keys
    requires LinksOf(f.kids.Keys) == Unspliced(links, p, Before(f.kids[p], at), At(f.kids[p], at + 1))
    ensures f.kids[p][at] in f.kids && Intact(f, links, f.kids[p][at])
    ensures LinksOf(Removed(f, p, at).kids.Keys) == UnsplicedLinks(f, links, p, at)
  {
    hide Below, Ranked, Linked, Removed;
    OutsideRemoved(f, links, p, at);
    RemovedNodes(f, p, at);
    var now := LinksOf(f.kids.Keys);
    forall n | n in Below(f, f.kids[p][at])
      ensures n.firstChild == links[n].firstChild && n.next == links[n].next
    {
      assert now[n].firstChild == n.firstChild && now[n].next == n.next;
    }
  }

  lemma StillAlive(f: Forest, g: Forest)
    requires g.contents == f.contents && forall n :: n in g.kids ==> n in f.kids && Holds(f, n)
    ensures AllHold(g)
  {
    forall n | n in g.kids
      ensures Holds(g, n)
    {
      assert Holds(f, n);
    }
  }

  /** All children of a node are gone. */
  ghost function Cleared(f: Forest, node: Node): Forest
    requires Ranked(f) && node in f.kids
  {
    Forest(map n | n in f.kids && (n == node || n !in Below(f, node)) :: if n == node then [] else f.kids[n], f.rank, f.contents)
  }

  ghost function ClearedLinks(f: Forest, links: map<Node, Links>, node: Node): map<Node, Links>
    requires Ranked(f) && node in f.kids && links.Keys == f.kids.Keys
  {
    map n | n in Cleared(f, node).kids :: if n == node then links[n].(firstChild := null, lastChild := null) else links[n]
  }

  lemma ClearedIsLinked(f: Forest, links: map<Node, Links>, node: Node)
    requires Linked(f, links) && node in f.kids
    ensures Ranked(f) && links.Keys == f.kids.Keys && Linked(Cleared(f, node), ClearedLinks(f, links, node))
  {
    hide Below, Linked, Ranked;
    LinkedIsRanked(f, links);
    var g, relinks := Cleared(f, node), ClearedLinks(f, links, node);
    forall n | n in g.kids
      ensures RankedAt(g, n) && LinkedAt(g, relinks, n)
    {
      if n == node {
        ClearedHere(f, links, node);
      } else {
        ClearedElsewhere(f, links, node, n);
      }
    }
    LinkedByParts(g, relinks);
  }

  lemma ClearedHere(f: Forest, links: map<Node, Links>, node: Node)
    requires Linked(f, links) && node in f.kids && Ranked(f) && links.Keys == f.kids.Keys
    ensures RankedAt(Cleared(f, node), node) && LinkedAt(Cleared(f, node), ClearedLinks(f, links, node), node)
  {
    hide Below, Linked, Ranked;
    ListIs(f, links, node);
    var above := links[node].parent;
    if above != null && above in Below(f, node) {
      ParentIsHigher(f, links, node);
      BelowIsLower(f, node, above);
    }
  }

  lemma ClearedElsewhere(f: Forest, links: map<Node, Links>, node: Node, n: Node)
    requires Linked(f, links) && node in f.kids && Ranked(f) && links.Keys == f.kids.Keys
    requires n in f.kids && n !in Below(f, node)
    ensures RankedAt(Cleared(f, node), n) && LinkedAt(Cleared(f, node), ClearedLinks(f, links, node), n)
  {
    hide Below, Linked, Ranked;
    ListIs(f, links, n);
    var g, relinks, ks := Cleared(f, node), ClearedLinks(f, links, node), f.kids[n];
    assert g.kids[n] == ks;
    forall i | 0 <= i < |ks|
      ensures LowerThan(g, ks[i], n) && IsChildAt(relinks, n, ks, i)
    {
      assert LowerThan(f, ks[i], n) && IsChildAt(links, n, ks, i);
      if ks[i] in Below(f, node) && ks[i] != node { ParentIsBelow(f, links, node, ks[i]); }
    }
    var above := links[n].parent;
    if above != null && above in Below(f, node) {
      var i :| 0 <= i < |f.kids[above]| && f.kids[above][i] == n;
      BelowIsClosed(f, node, above, i);
    }
  }

  // ---------------------------------------------------------------- copies

  /** The attributes set one after the other, as C strings. */
  function AllSet(from: seq<Attribute>): seq<Attribute> {
    if from == [] then []
    else
      var last := from[|from| - 1];
      WithAttribute(AllSet(from[..|from| - 1]), CStr(last.name), CStr(last.value))
  }

  /** CopyTo copies the attributes that First and Next show. */
  function CopyOfAttributes(from: seq<Attribute>): seq<Attribute> { AllSet(from[..Seen(from)]) }

  function CopyOfContent(c: Content): Content {
    Content(c.kind, CStr(c.value), CopyOfAttributes(c.attributes), c.details)
  }

  /** Values are copied as C strings, and only elements and documents copy their children. */
  function CopyOf(t: Tree): Tree {
    Tree(CopyOfContent(t.content), if HasChildren(t.content.kind) then CopiesOf(t.children) else [])
  }

  predicate HasChildren(kind: NodeType) { kind.ElementNode? || kind.DocumentNode? }

  function CopiesOf(ts: seq<Tree>): (r: seq<Tree>)
    ensures |r| == |ts|
  {
    if ts == [] then [] else CopiesOf(ts[..|ts| - 1]) + [CopyOf(ts[|ts| - 1])]
  }

  ghost predicate Extends(f: Forest, h: Forest) {
    forall n :: n in f.kids ==> SameAt(f, h, n) && RankOf(h, n) == RankOf(f, n)
  }

  /** h is f with the new tree of c, a copy of n with its first i children. */
  ghost predicate CopiedUpTo(f: Forest, h: Forest, n: Node, c: Node, i: nat) {
    Ranked(f) && Ranked(h) && n in f.kids && Extends(f, h) && c in h.kids && c !in f.kids &&
    Below(h, c) == h.kids.Keys - f.kids.Keys && RankOf(h, c) == RankOf(f, n) && i <= |f.kids[n]| &&
    |TreeOf(f, n).children| == |f.kids[n]| &&
    TreeOf(h, c) == Tree(CopyOfContent(TreeOf(f, n).content), CopiesOf(TreeOf(f, n).children[..i]))
  }

  /** h is f with the new tree of c, a copy of the tree of n. */
  ghost predicate Cloned(f: Forest, h: Forest, n: Node, c: Node) {
    Ranked(f) && Ranked(h) && n in f.kids && Extends(f, h) && c in h.kids && c !in f.kids &&
    Below(h, c) == h.kids.Keys - f.kids.Keys && RankOf(h, c) == RankOf(f, n) &&
    TreeOf(h, c) == CopyOf(TreeOf(f, n))
  }

  /** A forest with one node more, of the rank of another. */
  ghost function Grown(f: Forest, c: Node, like: Node, content: Content): Forest {
    Forest(f.kids[c := []], f.rank[c := RankOf(f, like)], f.contents[c := content])
  }

  lemma GrownIsLinked(f: Forest, links: map<Node, Links>, c: Node, like: Node, content: Content)
    requires Linked(f, links) && like in f.kids && c !in f.kids
    ensures links.Keys == f.kids.Keys && Linked(Grown(f, c, like, content), links[c := Links(null, null, null, null, null)])
  {
    hide Linked, Ranked;
    LinkedIsRanked(f, links);
    var g, relinks := Grown(f, c, like, content), links[c := Links(null, null, null, null, null)];
    forall n | n in g.kids
      ensures RankedAt(g, n) && LinkedAt(g, relinks, n)
    {
      if n != c { GrownElsewhere(f, links, c, like, content, n); }
    }
    LinkedByParts(g, relinks);
  }

  lemma GrownElsewhere(f: Forest, links: map<Node, Links>, c: Node, like: Node, content: Content, n: Node)
    requires Linked(f, links) && like in f.kids && c !in f.kids && n in f.kids && links.Keys == f.kids.Keys
    ensures var g, relinks := Grown(f, c, like, content), links[c := Links(null, null, null, null, null)];
            RankedAt(g, n) && LinkedAt(g, relinks, n)
  {
    hide Linked, Ranked;
    ListIs(f, links, n);
    var g, relinks, ks := Grown(f, c, like, content), links[c := Links(null, null, null, null, null)], f.kids[n];
    forall i | 0 <= i < |ks|
      ensures LowerThan(g, ks[i], n) && IsChildAt(relinks, n, ks, i)
    {
      assert LowerThan(f, ks[i], n) && IsChildAt(links, n, ks, i);
    }
  }

  lemma GrownHolds(f: Forest, g: Forest, c: Node)
    requires AllHold(f) && c !in f.kids && g.kids.Keys == f.kids.Keys + {c} && !c.deleted
    requires g.contents == f.contents[c := c.GetContent()]
    ensures AllHold(g)
  {
    forall n | n in g.kids
      ensures Holds(g, n)
    {
      assert n != c ==> Holds(f, n);
    }
  }

  /** A node without links, added to the forest. */
  lemma GrownIsValid(f: Forest, c: Node, like: Node)
    requires Linked(f, LinksOf(f.kids.Keys)) && AllHold(f) && like in f.kids && c !in f.kids && !c.deleted
    requires c.parent == null && c.firstChild == null && c.lastChild == null && c.prev == null && c.next == null
    ensures Valid(Grown(f, c, like, c.GetContent()))
  {
    hide Linked, AllHold, Ranked;
    var links, g := LinksOf(f.kids.Keys), Grown(f, c, like, c.GetContent());
    GrownIsLinked(f, links, c, like, c.GetContent());
    assert LinksOf(g.kids.Keys) == links[c := Links(null, null, null, null, null)];
    GrownHolds(f, g, c);
    ValidByParts(g);
  }

  lemma ContentsAre(f: Forest, n: Node)
    requires AllHold(f) && n in f.kids
    ensures n in f.contents && f.contents[n] == n.GetContent()
  {
    assert Holds(f, n);
  }

  lemma StartOfCopy(f: Forest, c: Node, n: Node)
    requires Ranked(f) && n in f.kids && c !in f.kids && n in f.contents
    requires Ranked(Grown(f, c, n, CopyOfContent(f.contents[n])))
    ensures CopiedUpTo(f, Grown(f, c, n, CopyOfContent(f.contents[n])), n, c, 0)
  {
    hide Below, TreeOf;
    var h := Grown(f, c, n, CopyOfContent(f.contents[n]));
    assert RankedAt(h, c);
    ChildCount(f, n);
    ChildCount(h, c);
    forall m
      ensures m in Below(h, c) <==> m == c
    {
      BelowIs(h, c, m);
    }
    assert Below(h, c) == {c} == h.kids.Keys - f.kids.Keys;
    forall m | m in f.kids
      ensures SameAt(f, h, m)
    {
      assert RankedAt(f, m);
    }
  }

  lemma CopyIsNew(f: Forest, h: Forest, n: Node, c: Node, i: nat)
    requires CopiedUpTo(f, h, n, c, i)
    ensures Ranked(f) && c !in f.kids && c in h.kids && forall m :: m in f.kids ==> m in h.kids
  {
    hide Below, TreeOf, Ranked;
    assert forall m :: m in f.kids ==> SameAt(f, h, m);
  }

  lemma CopyIsOf(f: Forest, h: Forest, n: Node, c: Node, i: nat)
    requires CopiedUpTo(f, h, n, c, i) && i < |f.kids[n]|
    ensures var k := f.kids[n][i];
            Ranked(f) && k in f.kids && k in h.kids && !k.kind.DocumentNode? && RankOf(h, k) == RankOf(f, k) < RankOf(f, n)
  {
    hide Below, TreeOf;
    assert RankedAt(f, n) && LowerThan(f, f.kids[n][i], n);
    assert SameAt(f, h, f.kids[n][i]);
  }

  lemma ReadyToLink(f: Forest, h: Forest, grown: Forest, n: Node, c: Node, child: Node, k: Node, i: nat)
    requires CopiedUpTo(f, h, n, c, i) && i < |f.kids[n]| && child == f.kids[n][i] && Cloned(h, grown, child, k)
    ensures Ranked(grown) && c in grown.kids && c !in Below(grown, k) && c in h.kids && c !in f.kids
    ensures Below(grown, k) == grown.kids.Keys - h.kids.Keys && h.kids.Keys <= grown.kids.Keys && k in grown.kids && k !in h.kids
    ensures grown.kids[c] == h.kids[c]
  {
    hide Below, TreeOf, Ranked;
    assert SameAt(h, grown, c);
    assert forall m :: m in h.kids ==> SameAt(h, grown, m);
  }

  /** A tree is the same in a forest that has more. */
  lemma ExtendedTree(f: Forest, h: Forest, n: Node)
    requires Ranked(f) && Ranked(h) && Extends(f, h) && n in f.kids
    ensures n in h.kids && TreeOf(h, n) == TreeOf(f, n) && Below(h, n) == Below(f, n)
  {
    hide Below, TreeOf, Ranked;
    assert forall m :: m in Below(f, n) ==> SameAt(f, h, m);
    SameTree(f, h, n);
  }

  lemma CopyStep(f: Forest, h: Forest, grown: Forest, links: map<Node, Links>, n: Node, c: Node, k: Node, i: nat)
    requires CopiedUpTo(f, h, n, c, i) && i < |f.kids[n]| && Cloned(h, grown, f.kids[n][i], k)
    requires Linked(grown, links) && k in links && links[k].parent == null && !k.kind.DocumentNode?
    requires Ranked(grown) && c in grown.kids
    ensures CopiedUpTo(f, Inserted(grown, c, k, |grown.kids[c]|), n, c, i + 1)
  {
    hide Below, TreeOf, Ranked, Linked, Inserted, Extends;
    var child, at := f.kids[n][i], |grown.kids[c]|;
    ReadyToLink(f, h, grown, n, c, child, k, i);
    CopyIsOf(f, h, n, c, i);
    var g := Inserted(grown, c, k, at);
    InsertedTrees(grown, links, c, k, at);
    InsertedNodes(grown, c, k, at);
    ExtendedTree(h, grown, c);
    ExtendedTree(f, h, child);
    ChildTree(f, n, i);
    CopiesGrow(TreeOf(f, n).children, i);
    RanksExtend(f, h, grown, n, c, k, i);
    InsertedBelow(grown, links, c, k, at);
    CopyIsNew(f, h, n, c, i);
    assert f.kids.Keys <= h.kids.Keys;
    assert (h.kids.Keys - f.kids.Keys) + (grown.kids.Keys - h.kids.Keys) == grown.kids.Keys - f.kids.Keys;
    assert Below(g, c) == g.kids.Keys - f.kids.Keys;
    var copies := CopiesOf(TreeOf(f, n).children[..i]);
    assert |copies| == at by { ChildCount(grown, c); }
    assert InsertAt(copies, at, TreeOf(grown, k)) == copies + [TreeOf(grown, k)];
  }

  lemma CopiesGrow(ts: seq<Tree>, i: nat)
    requires i < |ts|
    ensures CopiesOf(ts[..i + 1]) == CopiesOf(ts[..i]) + [CopyOf(ts[i])]
  {
    assert ts[..i + 1][..i] == ts[..i];
  }

  lemma RanksExtend(f: Forest, h: Forest, grown: Forest, n: Node, c: Node, k: Node, i: nat)
    requires CopiedUpTo(f, h, n, c, i) && i < |f.kids[n]| && Cloned(h, grown, f.kids[n][i], k)
    requires Ranked(grown) && c in grown.kids && k in grown.kids
    ensures var g := Inserted(grown, c, k, |grown.kids[c]|);
            Extends(f, g) && RankOf(g, c) == RankOf(f, n)
  {
    hide Below, TreeOf;
    CopyIsOf(f, h, n, c, i);
    var g := Inserted(grown, c, k, |grown.kids[c]|);
    assert SameAt(h, grown, c) && RankOf(grown, c) == RankOf(h, c);
    assert RankedAt(grown, k) && RankedAt(grown, c);
    forall m | m in f.kids
      ensures SameAt(f, g, m) && RankOf(g, m) == RankOf(f, m)
    {
      assert SameAt(f, h, m);
      assert SameAt(h, grown, m);
    }
  }

  /** What is below the parent after an insertion. */
  lemma InsertedBelow(f: Forest, links: map<Node, Links>, p: Node, node: Node, at: nat)
    requires Linked(f, links) && p in f.kids && node in f.kids && at <= |f.kids[p]|
    requires Ranked(f) && p !in Below(f, node) && node in links && links[node].parent == null && !node.kind.DocumentNode?
    ensures Ranked(Inserted(f, p, node, at)) && p in Inserted(f, p, node, at).kids
    ensures Below(Inserted(f, p, node, at), p) == Below(f, p) + Below(f, node)
  {
    hide Below, TreeOf, Ranked, Linked, RankWith;
    var g := Inserted(f, p, node, at);
    InsertedIsRanked(f, links, p, node, at);
    ChildrenAreBelow(f, p);
    ChildrenAreBelow(g, p);
    InsertedElsewhere(f, links, p, node, at, node);
    assert g.kids[p][at] == node;
    forall m
      ensures m in Below(g, p) <==> m in Below(f, p) || m in Below(f, node)
    {
      BelowIs(g, p, m);
      BelowIs(f, p, m);
      if i :| 0 <= i < |g.kids[p]| && m in Below(g, g.kids[p][i]) {
        InsertedBelowChild(f, links, p, node, at, i);
      }
      if i :| 0 <= i < |f.kids[p]| && m in Below(f, f.kids[p][i]) {
        InsertedBelowChild(f, links, p, node, at, if i < at then i else i + 1);
        assert g.kids[p][if i < at then i else i + 1] == f.kids[p][i];
      }
    }
  }

  lemma InsertedBelowChild(f: Forest, links: map<Node, Links>, p: Node, node: Node, at: nat, i: nat)
    requires Linked(f, links) && p in f.kids && node in f.kids && at <= |f.kids[p]|
    requires Ranked(f) && p !in Below(f, node) && node in links && links[node].parent == null && !node.kind.DocumentNode?
    requires i <= |f.kids[p]|
    ensures var g := Inserted(f, p, node, at);
            Ranked(g) && g.kids[p][i] in g.kids && g.kids[p][i] in f.kids &&
            Below(g, g.kids[p][i]) == Below(f, g.kids[p][i])
  {
    hide Below, TreeOf, Ranked, Linked, RankWith;
    var g := Inserted(f, p, node, at);
    InsertedIsRanked(f, links, p, node, at);
    ChildrenAreBelow(f, p);
    if i == at {
      InsertedElsewhere(f, links, p, node, at, node);
    } else {
      var j := if i < at then i else i - 1;
      assert g.kids[p][i] == f.kids[p][j];
      InsertedElsewhere(f, links, p, node, at, f.kids[p][j]);
    }
  }

  lemma EndOfCopy(f: Forest, h: Forest, n: Node, c: Node)
    requires n in f.kids && n in f.contents && CopiedUpTo(f, h, n, c, if HasChildren(f.contents[n].kind) then |f.kids[n]| else 0)
    ensures Cloned(f, h, n, c)
  {
    hide Below, TreeOf, Ranked;
    ChildCount(f, n);
    var ts := TreeOf(f, n).children;
    assert ts[..|ts|] == ts && ts[..0] == [];
  }

  // ---------------------------------------------------------------- when a copy is equal

  /** No NUL in any value, attribute names unique, no blank attribute behind the first, and
      children only below elements and documents. */
  predicate Faithful(t: Tree) {
    NUL !in t.content.value && FaithfulAttributes(t.content.attributes) &&
    (HasChildren(t.content.kind) || t.children == []) && forall i :: 0 <= i < |t.children| ==> Faithful(t.children[i])
  }

  predicate FaithfulAttributes(attributes: seq<Attribute>) {
    SetAsTheyAre(attributes) && forall i :: 1 <= i < |attributes| ==> !Blank(attributes[i])
  }

  predicate SetAsTheyAre(attributes: seq<Attribute>) {
    (forall i :: 0 <= i < |attributes| ==> NUL !in attributes[i].name && NUL !in attributes[i].value) &&
    forall i, j :: 0 <= i < j < |attributes| ==> attributes[i].name != attributes[j].name
  }

  lemma {:induction false} CopyIsNoLonger(attributes: seq<Attribute>)
    ensures |AllSet(attributes)| <= |attributes|
  {
    if attributes != [] {
      var last := attributes[|attributes| - 1];
      CopyIsNoLonger(attributes[..|attributes| - 1]);
      WithAttributeIs(AllSet(attributes[..|attributes| - 1]), CStr(last.name), CStr(last.value));
    }
  }

  /** The last attribute is copied to the end as it is, or the copy differs. */
  lemma LastCopied(init: seq<Attribute>, copy: seq<Attribute>, last: Attribute)
    requires |copy| <= |init|
    ensures var r := WithAttribute(copy, CStr(last.name), CStr(last.value));
            r == init + [last] <==>
            copy == init && NUL !in last.name && NUL !in last.value && forall i :: 0 <= i < |init| ==> init[i].name != last.name
  {
    hide WithAttribute;
    WithAttributeIs(copy, CStr(last.name), CStr(last.value));
    var r, end := WithAttribute(copy, CStr(last.name), CStr(last.value)), Attribute(CStr(last.name), CStr(last.value));
    if r == init + [last] {
      assert r == copy + [end];
      assert copy == r[..|init|] == init;
      assert end == r[|init|] == last;
    }
  }

  lemma FaithfulEnd(init: seq<Attribute>, last: Attribute)
    ensures SetAsTheyAre(init + [last]) <==>
            SetAsTheyAre(init) && NUL !in last.name && NUL !in last.value && forall i :: 0 <= i < |init| ==> init[i].name != last.name
  {
    var all := init + [last];
    assert all[|init|] == last && forall i :: 0 <= i < |init| ==> all[i] == init[i];
  }

  lemma {:induction false} AttributesSetExactly(attributes: seq<Attribute>)
    ensures AllSet(attributes) == attributes <==> SetAsTheyAre(attributes)
  {
    hide WithAttribute, CStr, SetAsTheyAre;
    if attributes == [] {
      NoneIsSet();
    } else {
      var n := |attributes| - 1;
      var last, init := attributes[n], attributes[..n];
      assert attributes == init + [last];
      AttributesSetExactly(init);
      CopyIsNoLonger(init);
      LastCopied(init, AllSet(init), last);
      FaithfulEnd(init, last);
    }
  }

  lemma NoneIsSet()
    ensures SetAsTheyAre([])
  {
  }

  lemma AttributesCopiedExactly(attributes: seq<Attribute>)
    ensures CopyOfAttributes(attributes) == attributes <==> FaithfulAttributes(attributes)
  {
    hide AllSet, SetAsTheyAre, Seen;
    NamedAreSeen(attributes);
    CopyIsNoLonger(attributes[..Seen(attributes)]);
    if Seen(attributes) == |attributes| {
      assert attributes[..Seen(attributes)] == attributes;
      AttributesSetExactly(attributes);
    }
  }

  /** SetAttribute( "b", "2" ) and SetAttribute( "", "" ): the clone has only the first of them. */
  lemma BlankIsNotCopied(kind: NodeType, value: string)
    ensures var original := Tree(Content(kind, value, [Attribute("b", "2"), Attribute("", "")], NoDetails), []);
            CopyOf(original).content.attributes == [Attribute("b", "2")] && !Faithful(original)
  {
    var all := [Attribute("b", "2"), Attribute("", "")];
    assert Blank(all[1]);
    assert all[..Seen(all)] == [Attribute("b", "2")];
    assert CStr("b") == "b" && CStr("2") == "2";
    assert AllSet([Attribute("b", "2")]) == WithAttribute(AllSet([]), "b", "2");
  }

  /** A copy is equal to the original exactly when nothing in the original gets lost. */
  lemma {:induction false} CopiedExactly(t: Tree)
    ensures CopyOf(t) == t <==> Faithful(t)
    decreases t, 0
  {
    hide CopyOfAttributes, FaithfulAttributes, CStr, CopiesOf;
    AttributesCopiedExactly(t.content.attributes);
    ChildrenCopiedExactly(t.children);
    CStrIsSame(t.content.value);
  }

  lemma CStrIsSame(s: string)
    ensures CStr(s) == s <==> NUL !in s
  {
  }

  lemma {:induction false} ChildrenCopiedExactly(ts: seq<Tree>)
    ensures CopiesOf(ts) == ts <==> forall i :: 0 <= i < |ts| ==> Faithful(ts[i])
    decreases ts, 1
  {
    hide CopyOf, Faithful;
    if ts != [] {
      var n := |ts| - 1;
      ChildrenCopiedExactly(ts[..n]);
      CopiedExactly(ts[n]);
      assert ts == ts[..n] + [ts[n]];
      if CopiesOf(ts) == ts {
        assert CopiesOf(ts)[..n] == CopiesOf(ts[..n]) && CopiesOf(ts)[n] == CopyOf(ts[n]);
      }
    }
  }

  lemma CloneIsNew(f: Forest, h: Forest, n: Node, c: Node)
    requires Cloned(f, h, n, c)
    ensures Ranked(h) && c in h.kids && c !in f.kids && Below(h, c) == h.kids.Keys - f.kids.Keys
    ensures forall m :: m in f.kids ==> m in h.kids && h.kids[m] == f.kids[m] && m !in Below(h, c)
  {
    hide Below, TreeOf, Ranked;
    assert forall m :: m in f.kids ==> SameAt(f, h, m);
  }

  // ---------------------------------------------------------------- what replacing shows

  /** node takes the place of the child at a position: it is inserted, and the child removed. */
  ghost function Replaced(f: Forest, p: Node, node: Node, at: nat): Forest
    requires Ranked(f) && p in f.kids && node in f.kids && at < |f.kids[p]|
  {
    var i := Inserted(f, p, node, at);
    if Ranked(i) then Removed(i, p, at + 1) else i
  }

  /** The links of ReplaceChild before node gets its parent. */
  ghost function Half(links: map<Node, Links>, p: Node, node: Node, before: Node?, after: Node?): map<Node, Links> {
    map m | m in links ::
      Links(links[m].parent,
            if m == p && before == null then node else links[m].firstChild,
            if m == p && after == null then node else links[m].lastChild,
            if m == node then before else if m == after then node else links[m].prev,
            if m == node then after else if m == before then node else links[m].next)
  }

  /** The links of ReplaceChild in the end. */
  ghost function Whole(links: map<Node, Links>, p: Node, node: Node, before: Node?, after: Node?): map<Node, Links>
    requires node in links
  {
    var half := Half(links, p, node, before, after);
    half[node := half[node].(parent := p)]
  }

  lemma ReplacedIsLinked(f: Forest, links: map<Node, Links>, p: Node, node: Node, at: nat)
    requires Linked(f, links) && p in f.kids && node in f.kids && at < |f.kids[p]| && Ranked(f)
    requires p !in Below(f, node) && node in links && links[node].parent == null && !node.kind.DocumentNode?
    ensures var i, relinks := Inserted(f, p, node, at), Spliced(links, p, node, Before(f.kids[p], at), f.kids[p][at]);
            Ranked(i) && Linked(i, relinks) && f.kids[p][at] in i.kids && f.kids[p][at] in f.kids &&
            Below(i, f.kids[p][at]) == Below(f, f.kids[p][at]) && Replaced(f, p, node, at) == Removed(i, p, at + 1) &&
            relinks.Keys == i.kids.Keys == f.kids.Keys && i.contents == f.contents && p in i.kids &&
            at + 1 < |i.kids[p]| && i.kids[p] == InsertAt(f.kids[p], at, node) &&
            Linked(Replaced(f, p, node, at), UnsplicedLinks(i, relinks, p, at + 1))
    ensures var g := Replaced(f, p, node, at);
            g.kids.Keys == f.kids.Keys - Below(f, f.kids[p][at]) && g.contents == f.contents
    ensures links.Keys == f.kids.Keys && ChildHas(f, links, p, at) && node !in f.kids[p]
    ensures node != p && node !in Below(f, f.kids[p][at])
    ensures Before(f.kids[p], at) != node && At(f.kids[p], at + 1) != node
  {
    hide Below, Ranked, RankedAt, Linked, LinkedAt, Inserted, Spliced, UnsplicedLinks, Removed, RankWith;
    LinkedIsRanked(f, links);
    var k := f.kids[p][at];
    ChildIs(f, links, p, at);
    ChildrenAreBelow(f, p);
    NewChildren(f, links, p, node, at);
    SplicedIsLinked(f, links, p, node, at);
    var i, relinks := Inserted(f, p, node, at), Spliced(links, p, node, Before(f.kids[p], at), k);
    InsertedNodes(f, p, node, at);
    InsertedList(f, p, node, at);
    LinkedIsRanked(i, relinks);
    InsertedElsewhere(f, links, p, node, at, k);
    UnsplicedIsLinked(i, relinks, p, at + 1);
    RemovedNodes(i, p, at + 1);
    if node in Below(f, k) { ParentIsBelow(f, links, k, node); }
    assert node in Below(f, node);
  }

  lemma WholeIs(links: map<Node, Links>, p: Node, node: Node, before: Node?, after: Node?)
    requires node in links
    ensures var half := Half(links, p, node, before, after);
            node in half && Whole(links, p, node, before, after) == half[node := half[node].(parent := p)]
  {
  }

  /** What of this the pointer assignments need. */
  lemma ReadyToSwap(f: Forest, links: map<Node, Links>, p: Node, node: Node, at: nat)
    requires Linked(f, links) && p in f.kids && node in f.kids && at < |f.kids[p]| && Ranked(f)
    requires p !in Below(f, node) && node in links && links[node].parent == null && !node.kind.DocumentNode?
    ensures var i, k := Inserted(f, p, node, at), f.kids[p][at];
            Ranked(i) && Linked(i, Spliced(links, p, node, Before(f.kids[p], at), k)) && k in i.kids && k in f.kids &&
            Below(i, k) == Below(f, k) && i.kids.Keys == f.kids.Keys && links.Keys == f.kids.Keys
    ensures Spliced(links, p, node, Before(f.kids[p], at), f.kids[p][at]).Keys == f.kids.Keys
    ensures ChildHas(f, links, p, at) && f.kids[p][at] != node
    ensures node != p && node !in Below(f, f.kids[p][at])
    ensures Before(f.kids[p], at) != node && At(f.kids[p], at + 1) != node
  {
    hide Below, Ranked, RankedAt, Linked, LinkedAt, Inserted, Spliced, UnsplicedLinks, Removed, RankWith, Replaced;
    ReplacedIsLinked(f, links, p, node, at);
  }

  lemma InsertedList(f: Forest, p: Node, node: Node, at: nat)
    requires Ranked(f) && p in f.kids && node in f.kids && at < |f.kids[p]|
    ensures var ks := Inserted(f, p, node, at).kids[p];
            ks == InsertAt(f.kids[p], at, node) && ks[at + 1] == f.kids[p][at] && |ks| == |f.kids[p]| + 1 &&
            Before(ks, at + 1) == node && At(ks, at + 2) == At(f.kids[p], at + 1)
  {
  }

  lemma HalfIsIntact(f: Forest, links: map<Node, Links>, p: Node, node: Node, at: nat, i: Forest, relinks: map<Node, Links>)
    requires Linked(f, links) && Ranked(f) && links.Keys == f.kids.Keys && p in f.kids && at < |f.kids[p]| && node in f.kids
    requires var k := f.kids[p][at];
             k in f.kids && Ranked(i) && k in i.kids && Below(i, k) == Below(f, k) && node !in Below(f, k) && i.kids.Keys == f.kids.Keys &&
             relinks == Spliced(links, p, node, Before(f.kids[p], at), k) && relinks.Keys == i.kids.Keys
    requires LinksOf(f.kids.Keys) == Half(links, p, node, Before(f.kids[p], at), At(f.kids[p], at + 1))
    ensures Intact(i, relinks, f.kids[p][at])
  {
    hide Below, Ranked, Linked;
    OutsideRemoved(f, links, p, at);
    var now, k := LinksOf(f.kids.Keys), f.kids[p][at];
    forall n | n in Below(i, k)
      ensures n.firstChild == relinks[n].firstChild && (n != k ==> n.next == relinks[n].next)
    {
      assert now[n].firstChild == n.firstChild && now[n].next == n.next;
    }
  }

  lemma HalfIsCompleted(f: Forest, links: map<Node, Links>, p: Node, node: Node, at: nat)
    requires Linked(f, links) && p in f.kids && node in f.kids && at < |f.kids[p]| && Ranked(f)
    requires p !in Below(f, node) && node in links && links[node].parent == null && !node.kind.DocumentNode?
    requires LinksOf(f.kids.Keys) == Whole(links, p, node, Before(f.kids[p], at), At(f.kids[p], at + 1))
    ensures LinksOf(Replaced(f, p, node, at).kids.Keys)
         == (ReplacedIsLinked(f, links, p, node, at);
             UnsplicedLinks(Inserted(f, p, node, at), Spliced(links, p, node, Before(f.kids[p], at), f.kids[p][at]), p, at + 1))
  {
    hide Below, Ranked, RankedAt, Linked, LinkedAt, Inserted, Removed, RankWith;
    ReplacedIsLinked(f, links, p, node, at);
    InsertedList(f, p, node, at);
    assert f.kids[p][at] in Below(f, f.kids[p][at]);
  }

  lemma CloneKeepsTree(f: Forest, h: Forest, n: Node, c: Node, other: Node)
    requires Cloned(f, h, n, c) && other in f.kids
    ensures Ranked(f) && Ranked(h) && other in h.kids && Below(h, other) == Below(f, other) && TreeOf(h, other) == TreeOf(f, other)
  {
    hide Below, TreeOf, Ranked;
    ExtendedTree(f, h, other);
  }

  /** The tree after a replacement: the new tree stands where the old one stood. */
  lemma ReplacedTrees(f: Forest, links: map<Node, Links>, p: Node, node: Node, at: nat)
    requires Linked(f, links) && Ranked(f) && p in f.kids && node in f.kids && at < |f.kids[p]|
    requires p !in Below(f, node) && node in links && links[node].parent == null && !node.kind.DocumentNode?
    ensures var g := Replaced(f, p, node, at);
            Ranked(g) && p in g.kids && |TreeOf(f, p).children| == |f.kids[p]| &&
            TreeOf(g, p) == Tree(TreeOf(f, p).content, TreeOf(f, p).children[at := TreeOf(f, node)])
  {
    hide Below, TreeOf, Linked, Inserted, Removed, Replaced, Spliced, UnsplicedLinks;
    ReplacedIsLinked(f, links, p, node, at);
    var i, relinks := Inserted(f, p, node, at), Spliced(links, p, node, Before(f.kids[p], at), f.kids[p][at]);
    InsertedTrees(f, links, p, node, at);
    RemovedTrees(i, relinks, p, at + 1);
    var ts := TreeOf(f, p).children;
    assert RemoveAt(InsertAt(ts, at, TreeOf(f, node)), at + 1) == ts[at := TreeOf(f, node)];
  }

  /** The tree after Clear has no children. */
  lemma ClearedTree(f: Forest, links: map<Node, Links>, n: Node)
    requires Linked(f, links) && Ranked(f) && n in f.kids
    ensures var g := Cleared(f, n);
            Ranked(g) && n in g.kids && TreeOf(g, n) == Tree(TreeOf(f, n).content, [])
  {
    hide Below, TreeOf, Linked;
    ClearedIsLinked(f, links, n);
    LinkedIsRanked(Cleared(f, n), ClearedLinks(f, links, n));
    ChildCount(f, n);
    ChildCount(Cleared(f, n), n);
  }
}
