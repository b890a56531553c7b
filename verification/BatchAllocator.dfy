/** BatchAllocator: blocks of objects cut from batches, and a free list threaded through the
    released blocks. */
module BatchAllocator {
  import opened Options

  /** A pointer into the buffer of a batch, counted in objects. */
  datatype Address = Address(batch: BatchInfo, at: nat)

  /** The memory of one object: what the client put there, or the link of a released block. */
  datatype Cell = Data(x: int) | Link(next: Option<Address>)

  predicate IsMultiple(a: nat, k: nat) { k > 0 && a % k == 0 }

  function CellCount(k: nat, n: nat): nat { k * n }

  // ---------------------------------------------------------------- the pool as a value

  /** A block by the number of its batch. */
  datatype Block = Block(batch: nat, at: nat)

  /** Only the newest batch may have room; used is its used_. */
  datatype Pool = Pool(k: nat, n: nat, batches: nat, used: nat, free: seq<Block>, live: set<Block>)

  /** The first batch is a dummy without a page. */
  function EndOf(n: nat, batch: nat): nat { if batch == 0 then 0 else n }

  function NewPool(k: nat, n: nat): Pool { Pool(k, n, 1, 0, [], {}) }

  predicate IsFull(p: Pool)
    requires p.batches > 0
  {
    p.used == EndOf(p.n, p.batches - 1)
  }

  /** The block that allocate returns: the head of the free list, the start of a new batch when
      used_ is at end_, or the objects from used_ on. */
  function NextBlock(p: Pool): Block
    requires p.batches > 0
  {
    if p.free != [] then p.free[0]
    else if IsFull(p) then Block(p.batches, 0)
    else Block(p.batches - 1, p.used)
  }

  function Allocated(p: Pool): (r: Pool)
    requires p.batches > 0
    ensures r.batches > 0
  {
    var live := p.live + {NextBlock(p)};
    if p.free != [] then p.(free := p.free[1..], live := live)
    else if IsFull(p) then p.(batches := p.batches + 1, used := p.k, live := live)
    else p.(used := p.used + p.k, live := live)
  }

  function Released(p: Pool, b: Block): Pool { p.(free := [b] + p.free, live := p.live - {b}) }

  /** All objects of the block are in the buffer of its batch. */
  predicate Fits(p: Pool, b: Block) { b.at + p.k <= CellCount(p.k, EndOf(p.n, b.batch)) }

  class BatchInfo {
    /** Batches are numbered in the order in which they are made. */
    ghost const number: nat
    var next: BatchInfo?
    var used: nat
    const end: nat
    var buffer: seq<Cell>

    /** allocateBatch */
    constructor (objectsPerPage: nat, objectPerAllocation: nat, ghost number: nat)
      ensures next == null && used == 0 && end == objectsPerPage && this.number == number
      ensures |buffer| == CellCount(objectPerAllocation, objectsPerPage)
    {
      next, used, end, this.number := null, 0, objectsPerPage, number;
      buffer := seq(objectPerAllocation * objectsPerPage, _ => Data(0));
    }
  }

  class Allocator {
    const objectPerAllocation: nat
    const objectsPerPage: nat
    var batches: BatchInfo
    var currentBatch: BatchInfo?
    var freeHead: Option<Address>
    /** The batches from the head of the list. */
    ghost var list: seq<BatchInfo>
    /** Every block that was ever handed out. */
    ghost var blocks: set<Address>
    /** The released blocks from the head of the free list. */
    ghost var free: seq<Address>
    /** The blocks the clients hold. */
    ghost var live: set<Address>

    /** used_ is a multiple of the block size; it stays below end_ if that is one too. */
    ghost predicate ValidBatch(b: BatchInfo)
      reads b
    {
      b.end == EndOf(objectsPerPage, b.number) && |b.buffer| == CellCount(objectPerAllocation, b.end) &&
      IsMultiple(b.used, objectPerAllocation) && (IsMultiple(b.end, objectPerAllocation) ==> b.used <= b.end)
    }

    ghost predicate NextIs(i: nat)
      requires i < |list|
      reads this`list, list[i]
    {
      list[i].next == (if i + 1 < |list| then list[i + 1] else null) && list[i].number == |list| - 1 - i
    }

    /** The batches are linked; only the first one, the current one, may have room. */
    ghost predicate ValidBatches()
      reads this`list, this`batches, this`currentBatch, list
    {
      list != [] && batches == list[0] && currentBatch == batches &&
      (forall b :: b in list ==> ValidBatch(b)) &&
      (forall i :: 0 <= i < |list| ==> NextIs(i)) &&
      forall i :: 1 <= i < |list| ==> list[i] != batches && list[i].used == list[i].end
    }

    /** A block lies below used_ of its batch. */
    ghost predicate ValidBlock(a: Address)
      reads this`list, a.batch`used
    {
      a.batch in list && IsMultiple(a.at, objectPerAllocation) && a.at < a.batch.used
    }

    /** All of a block lies in the buffer of its batch. */
    ghost predicate Inside(a: Address)
      reads a.batch`buffer
    {
      a.at + objectPerAllocation <= |a.batch.buffer|
    }

    ghost predicate ValidBlocks()
      reads this`list, this`blocks, set a | a in blocks :: a.batch
    {
      forall a :: a in blocks ==> ValidBlock(a)
    }

    function After(s: seq<Address>, i: nat): Option<Address> { if i < |s| then Some(s[i]) else None }

    /** The memory of a released block links to the next one. */
    ghost predicate ValidLink(i: nat)
      requires i < |free|
      reads this`free, free[i].batch
    {
      Inside(free[i]) && free[i].at < |free[i].batch.buffer| &&
      free[i].batch.buffer[free[i].at] == Link(After(free, i + 1))
    }

    ghost predicate Linked()
      reads this`free, this`freeHead, set a | a in free :: a.batch
    {
      freeHead == After(free, 0) && forall i :: 0 <= i < |free| ==> ValidLink(i)
    }

    /** The blocks are the live ones and, each once, the released ones. */
    ghost predicate Partition()
      reads this`blocks, this`free, this`live
    {
      live <= blocks && (forall a :: a in blocks ==> (a in live <==> a !in free)) &&
      (forall a :: a in free ==> a in blocks) && forall i, j :: 0 <= i < j < |free| ==> free[i] != free[j]
    }

    ghost predicate Valid()
      reads this, list, set a | a in free :: a.batch, set a | a in blocks :: a.batch
    {
      objectPerAllocation > 0 && objectsPerPage > 0 &&
      ValidBatches() && ValidBlocks() && Linked() && Partition()
    }

    ghost function NumberOf(a: Address): Block { Block(a.batch.number, a.at) }

    ghost function Numbers(s: seq<Address>): (r: seq<Block>)
      ensures |r| == |s|
    {
      if s == [] then [] else [NumberOf(s[0])] + Numbers(s[1..])
    }

    /** The allocator as a value. */
    ghost function View(): Pool
      reads this, batches
    {
      Pool(objectPerAllocation, objectsPerPage, |list|, batches.used, Numbers(free), set a | a in live :: NumberOf(a))
    }

    lemma ViewIs()
      requires Valid()
      ensures View().batches == |list| > 0 && View().used == list[0].used
      ensures View().free == Numbers(free) && View().k == objectPerAllocation && View().n == objectsPerPage
      ensures IsFull(View()) <==> list[0].used == list[0].end
    {
      assert NextIs(0) && ValidBatch(list[0]);
    }

    /** Blocks are told apart by their numbers. */
    lemma NumbersDiffer(a: Address, b: Address)
      requires ValidBatches() && a.batch in list && b.batch in list && NumberOf(a) == NumberOf(b)
      ensures a == b
    {
      var i :| 0 <= i < |list| && list[i] == a.batch;
      var j :| 0 <= j < |list| && list[j] == b.batch;
      assert NextIs(i) && NextIs(j);
    }

    /** If the block size divides the page size, all blocks are inside. */
    lemma BlocksAreInside(a: Address)
      requires Valid() && ValidBlock(a) && IsMultiple(objectsPerPage, objectPerAllocation)
      ensures Inside(a)
    {
      assert ValidBatch(a.batch);
      ZeroIsMultiple(objectPerAllocation);
      NextMultiple(a.at, a.batch.end, objectPerAllocation);
      PageIsNoLonger(a.batch.end, objectPerAllocation);
    }

    /** Inside, in terms of the view. */
    lemma InsideIsFits(a: Address)
      requires Valid() && a.batch in list
      ensures Inside(a) <==> Fits(View(), NumberOf(a))
    {
      assert ValidBatch(a.batch);
    }

    constructor (objectPerAllocation: nat, objectsPerPage: nat)
      requires objectPerAllocation > 0 && objectsPerPage >= 16
      ensures Valid() && live == {} && free == [] && View() == NewPool(objectPerAllocation, objectsPerPage)
    {
      this.objectPerAllocation, this.objectsPerPage, freeHead := objectPerAllocation, objectsPerPage, None;
      var batch := new BatchInfo(0, objectPerAllocation, 0);
      batches, currentBatch, list, blocks, free, live := batch, batch, [batch], {}, [], {};
      new;
      assert (set a | a in live :: NumberOf(a)) == {};
    }

    method Allocate() returns (r: Address)
      requires Valid()
      modifies this`batches, this`currentBatch, this`freeHead, this`list, this`blocks, this`free, this`live, list`used
      ensures Valid() && r !in old(live) && live == old(live) + {r} && ValidBlock(r)
      ensures if old(free) != [] then r == old(free)[0] && free == old(free)[1..] && blocks == old(blocks)
              else free == [] && r !in old(blocks) && blocks == old(blocks) + {r}
      ensures NumberOf(r) == NextBlock(old(View())) && View() == Allocated(old(View()))
      ensures IsMultiple(objectsPerPage, objectPerAllocation) ==> Inside(r)
    {
      hide ValidBatches, ValidBlocks, Linked, Partition, IsMultiple, Inside;
      ViewIs();
      if freeHead.Some? {
        r := TakeFree();
      } else {
        NothingFree();
        ghost var before := View();
        if currentBatch.used == currentBatch.end {
          NextBatch();
          ViewIs();
          assert View() == before.(batches := before.batches + 1, used := 0);
        }
        r := Cut();
      }
      if IsMultiple(objectsPerPage, objectPerAllocation) { BlocksAreInside(r); }
    }

    lemma NothingFree()
      requires Valid() && freeHead == None
      ensures free == [] && currentBatch != null && currentBatch == list[0] && currentBatch in list && ValidBatch(currentBatch)
    {
    }

    /** The head of the free list. */
    method TakeFree() returns (r: Address)
      requires Valid() && freeHead.Some?
      modifies this`freeHead, this`free, this`live
      ensures Valid() && r !in old(live) && live == old(live) + {r} && ValidBlock(r)
      ensures old(free) != [] && r == old(free)[0] && free == old(free)[1..]
      ensures View() == old(View()).(free := Numbers(free), live := old(View()).live + {NumberOf(r)})
    {
      hide IsMultiple, CellCount, ValidBatches;
      r := freeHead.value;
      assert ValidLink(0);
      freeHead := r.batch.buffer[r.at].next;
      ghost var before := free;
      free := free[1..];
      live := live + {r};
      forall i | 0 <= i < |free|
        ensures ValidLink(i)
      {
        assert old(ValidLink(i + 1)) && free[i] == before[i + 1];
      }
      assert before == [r] + free;
      assert (set a | a in live :: NumberOf(a)) == old(set a | a in live :: NumberOf(a)) + {NumberOf(r)};
    }

    /** No batch has room: a new one is put at the head of the list. */
    method NextBatch()
      requires Valid() && free == [] && currentBatch != null && currentBatch.used == currentBatch.end
      modifies this`batches, this`currentBatch, this`list
      ensures Valid() && currentBatch != null && currentBatch.used == 0 < currentBatch.end && fresh(currentBatch)
      ensures list == [currentBatch] + old(list)
    {
      hide IsMultiple, CellCount;
      ZeroIsMultiple(objectPerAllocation);
      assert NextIs(0);
      currentBatch := currentBatch.next;
      ghost var i := 1;
      while currentBatch != null && currentBatch.used == currentBatch.end
        invariant 1 <= i <= |list| && currentBatch == (if i < |list| then list[i] else null)
        invariant list == old(list) && batches == old(batches)
        decreases |list| - i
      {
        assert old(NextIs(i));
        currentBatch := currentBatch.next;
        i := i + 1;
      }
      if currentBatch == null { AddBatch(); }
    }

    method AddBatch()
      requires objectPerAllocation > 0 && objectsPerPage > 0
      requires list != [] && batches == list[0] && ValidBlocks() && Linked() && Partition()
      requires forall b :: b in list ==> ValidBatch(b) && b.used == b.end
      requires forall i :: 0 <= i < |list| ==> NextIs(i)
      modifies this`batches, this`currentBatch, this`list
      ensures Valid() && currentBatch != null && currentBatch.used == 0 < currentBatch.end && fresh(currentBatch)
      ensures list == [currentBatch] + old(list)
    {
      hide IsMultiple, CellCount, Partition;
      ZeroIsMultiple(objectPerAllocation);
      currentBatch := new BatchInfo(objectsPerPage, objectPerAllocation, |list|);
      currentBatch.next := batches;
      batches := currentBatch;
      ghost var before := list;
      list := [currentBatch] + before;
      forall j | 0 <= j < |list|
        ensures NextIs(j)
      {
        if j > 0 { assert old(NextIs(j - 1)) && list[j] == before[j - 1]; }
      }
      assert forall j :: 1 <= j < |list| ==> list[j] == before[j - 1] && list[j] in before;
      forall b | b in list
        ensures ValidBatch(b)
      {
        if b != currentBatch { assert old(ValidBatch(b)); }
      }
      assert ValidBatches();
      forall a | a in blocks
        ensures ValidBlock(a)
      {
        assert old(ValidBlock(a));
      }
      assert forall i :: 0 <= i < |free| ==> old(ValidLink(i));
    }

    /** The next block of the current batch. */
    method Cut() returns (r: Address)
      requires Valid() && free == [] && currentBatch != null && currentBatch.used != currentBatch.end
      modifies currentBatch`used, this`blocks, this`live
      ensures Valid() && r !in old(live) && live == old(live) + {r} && ValidBlock(r)
      ensures r == Address(currentBatch, old(currentBatch.used)) && r !in old(blocks) && blocks == old(blocks) + {r}
      ensures View() == old(View()).(used := old(View()).used + objectPerAllocation, live := old(View()).live + {NumberOf(r)})
      ensures old(View()).batches > 0 && NumberOf(r) == Block(old(View()).batches - 1, old(View()).used)
    {
      hide IsMultiple, CellCount, Linked;
      assert NextIs(0);
      r := Address(currentBatch, currentBatch.used);
      assert ValidBatch(currentBatch);
      BlockFits(currentBatch.used, currentBatch.end, objectPerAllocation);
      assert !ValidBlock(r);
      currentBatch.used := currentBatch.used + objectPerAllocation;
      blocks := blocks + {r};
      live := live + {r};
      forall i | 0 <= i < |list|
        ensures NextIs(i)
      {
        assert old(NextIs(i));
      }
      assert forall a :: a in old(blocks) ==> old(ValidBlock(a));
      assert (set a | a in live :: NumberOf(a)) == old(set a | a in live :: NumberOf(a)) + {NumberOf(r)};
    }

    /** The link is written into the block, which must be inside for that. */
    method Release(block: Address)
      requires Valid() && block in live && Inside(block)
      modifies this`freeHead, this`free, this`live, block.batch`buffer
      ensures Valid() && live == old(live) - {block} && free == [block] + old(free) && blocks == old(blocks)
      ensures View() == Released(old(View()), NumberOf(block))
    {
      hide Valid, ValidBlock, Inside;
      LiveNumbers(block);
      PutFree(block);
      assert free[1..] == old(free);
    }

    lemma LiveNumbers(block: Address)
      requires Valid() && block in live
      ensures (set a | a in live - {block} :: NumberOf(a)) == (set a | a in live :: NumberOf(a)) - {NumberOf(block)}
    {
      hide IsMultiple, ValidBatches;
      assert forall a :: a in live ==> ValidBlock(a);
      NumbersWithout(live, block);
    }

    /** The assignments of release. */
    method PutFree(block: Address)
      requires Valid() && block in live && Inside(block)
      modifies this`freeHead, this`free, this`live, block.batch`buffer
      ensures Valid() && live == old(live) - {block} && free == [block] + old(free) && blocks == old(blocks)
    {
      hide IsMultiple, CellCount, ValidBatches;
      assert ValidBlock(block);
      FreeIsElsewhere(block, 0);
      Write(block, 0, Link(freeHead));
      freeHead := Some(block);
      free := [block] + free;
      live := live - {block};
      forall i | 0 <= i < |free|
        ensures ValidLink(i)
      {
        if i > 0 { assert old(ValidLink(i - 1)) && free[i] == old(free)[i - 1]; }
      }
    }

    lemma NumbersWithout(addresses: set<Address>, a: Address)
      requires ValidBatches() && a in addresses && forall b :: b in addresses ==> b.batch in list
      ensures (set b | b in addresses - {a} :: NumberOf(b)) == (set b | b in addresses :: NumberOf(b)) - {NumberOf(a)}
    {
      hide ValidBatches;
      forall b | b in addresses - {a}
        ensures NumberOf(b) != NumberOf(a)
      {
        if NumberOf(b) == NumberOf(a) { NumbersDiffer(a, b); }
      }
    }

    /** What a client does with the memory of a live block changes nothing. */
    method Store(block: Address, i: nat, x: int)
      requires Valid() && block in live && Inside(block) && i < objectPerAllocation
      modifies block.batch`buffer
      ensures Valid() && View() == old(View())
    {
      hide IsMultiple, CellCount, ValidBatches;
      assert ValidBlock(block);
      FreeIsElsewhere(block, i);
      Write(block, i, Data(x));
      forall j | 0 <= j < |free|
        ensures ValidLink(j)
      {
        assert old(ValidLink(j));
      }
    }

    /** A write into a block. */
    method Write(block: Address, i: nat, cell: Cell)
      requires ValidBatches() && ValidBlocks() && ValidBlock(block) && Inside(block) && i < objectPerAllocation
      modifies block.batch`buffer
      ensures ValidBatches() && ValidBlocks() && ValidBlock(block)
      ensures block.batch.buffer == old(block.batch.buffer)[block.at + i := cell]
    {
      hide IsMultiple, CellCount;
      block.batch.buffer := block.batch.buffer[block.at + i := cell];
      forall j | 0 <= j < |list|
        ensures NextIs(j)
      {
        assert old(NextIs(j));
      }
      assert forall b :: b in list ==> old(ValidBatch(b));
      assert forall a :: a in blocks ==> old(ValidBlock(a));
    }

    /** No link of the free list lies in a live block. */
    lemma FreeIsElsewhere(block: Address, i: nat)
      requires Valid() && block in live && i < objectPerAllocation
      ensures forall j :: 0 <= j < |free| ==> free[j].batch != block.batch || free[j].at != block.at + i
    {
      hide IsMultiple, CellCount, ValidBatches, Linked;
      assert ValidBlock(block);
      forall j | 0 <= j < |free| && free[j].batch == block.batch
        ensures free[j].at != block.at + i
      {
        assert free[j] in free && ValidBlock(free[j]);
        BlocksAreDisjoint(free[j], block);
      }
    }

    /** Two blocks of one batch do not overlap. */
    lemma BlocksAreDisjoint(a: Address, b: Address)
      requires objectPerAllocation > 0 && ValidBlock(a) && ValidBlock(b) && a.batch == b.batch && a != b
      ensures a.at + objectPerAllocation <= b.at || b.at + objectPerAllocation <= a.at
    {
      if a.at < b.at {
        NextMultiple(a.at, b.at, objectPerAllocation);
      } else {
        NextMultiple(b.at, a.at, objectPerAllocation);
      }
    }
  }

  // ---------------------------------------------------------------- multiples

  lemma ZeroIsMultiple(k: nat)
    requires k > 0
    ensures IsMultiple(0, k)
  {
  }

  lemma BlockFits(used: nat, end: nat, k: nat)
    requires IsMultiple(used, k)
    ensures IsMultiple(used + k, k) && (IsMultiple(end, k) && used < end ==> used + k <= end)
  {
    AddOnce(used, k);
    if IsMultiple(end, k) && used < end { NextMultiple(used, end, k); }
  }

  lemma NextMultiple(a: nat, b: nat, k: nat)
    requires k > 0 && a % k == 0 && b % k == 0 && a < b
    ensures a + k <= b && (a + k) % k == 0
  {
    var x, y := a / k, b / k;
    assert a == k * x && b == k * y;
    MulLess(x, y, k);
    MulLess(y, x + 1, k);
    assert k * (x + 1) == a + k;
    Multiple(x + 1, k);
  }

  lemma MulLess(x: nat, y: nat, k: nat)
    requires k > 0
    ensures x < y <==> k * x < k * y
  {
    if x < y {
      assert k * y == k * x + k * (y - x);
    } else {
      assert k * x == k * y + k * (x - y);
    }
  }

  lemma Multiple(x: nat, k: nat)
    requires k > 0
    ensures k * x % k == 0
  {
    if x > 0 {
      Multiple(x - 1, k);
      assert k * x == k * (x - 1) + k;
      AddOnce(k * (x - 1), k);
    }
  }

  lemma AddOnce(a: nat, k: nat)
    requires k > 0
    ensures (a + k) % k == a % k
  {
    var q := a / k;
    assert a + k == k * (q + 1) + a % k;
    Remainder(a + k, k, q + 1, a % k);
  }

  lemma Remainder(a: nat, k: nat, q: nat, r: nat)
    requires k > 0 && a == k * q + r && r < k
    ensures a % k == r && a / k == q
  {
    var p, s := a / k, a % k;
    assert k * p + s == k * q + r;
    MulLess(q, p + 1, k);
    MulLess(p, q + 1, k);
    assert k * (p + 1) == k * p + k && k * (q + 1) == k * q + k;
  }

  lemma PageIsNoLonger(end: nat, k: nat)
    requires k > 0
    ensures end <= CellCount(k, end)
  {
    assert end <= k * end;
  }

  // ---------------------------------------------------------------- when the pool is safe

  /** What a client does: it allocates, or releases a block it holds. */
  datatype Action = Allocate | Release(block: Block)

  /** The pool after the actions; None if a block is released that is not live, or that does not
      fit, since its link would be written outside. */
  function Run(p: Pool, actions: seq<Action>): (r: Option<Pool>)
    requires p.batches > 0
    ensures r.Some? ==> r.value.batches > 0
    decreases |actions|
  {
    if actions == [] then Some(p)
    else
      match actions[0]
      case Allocate => Run(Allocated(p), actions[1..])
      case Release(b) => if b in p.live && Fits(p, b) then Run(Released(p, b), actions[1..]) else None
  }

  predicate AllFit(p: Pool) { forall b :: b in p.live ==> Fits(p, b) }

  /** No run of allocate and release hands out a block that is not inside its batch. */
  ghost predicate Safe(k: nat, n: nat) {
    forall actions :: Run(NewPool(k, n), actions).Some? ==> AllFit(Run(NewPool(k, n), actions).value)
  }

  ghost predicate InStep(p: Pool, k: nat, n: nat) {
    p.batches > 0 && p.k == k && p.n == n && IsMultiple(p.used, k) && p.used <= EndOf(n, p.batches - 1) &&
    AllFit(p) && forall i :: 0 <= i < |p.free| ==> Fits(p, p.free[i])
  }

  lemma AllocateStaysInStep(p: Pool, k: nat, n: nat)
    requires k > 0 && IsMultiple(n, k) && n > 0 && InStep(p, k, n)
    ensures InStep(Allocated(p), k, n)
  {
    hide IsMultiple, CellCount;
    ZeroIsMultiple(k);
    BlockFits(p.used, EndOf(n, p.batches - 1), k);
    BlockFits(0, n, k);
    PageIsNoLonger(n, k);
    assert Fits(p, NextBlock(p));
  }

  lemma ReleaseStaysInStep(p: Pool, b: Block, k: nat, n: nat)
    requires InStep(p, k, n) && Fits(p, b)
    ensures InStep(Released(p, b), k, n)
  {
    hide IsMultiple, CellCount;
    assert forall c :: Fits(Released(p, b), c) == Fits(p, c);
  }

  lemma {:induction false} RunStaysInStep(p: Pool, k: nat, n: nat, actions: seq<Action>)
    requires k > 0 && IsMultiple(n, k) && n > 0 && InStep(p, k, n) && Run(p, actions).Some?
    ensures InStep(Run(p, actions).value, k, n)
    decreases |actions|
  {
    hide IsMultiple, Fits, Allocated, Released, AllFit;
    if actions != [] {
      match actions[0]
      case Allocate =>
        AllocateStaysInStep(p, k, n);
        RunStaysInStep(Allocated(p), k, n, actions[1..]);
      case Release(b) =>
        ReleaseStaysInStep(p, b, k, n);
        RunStaysInStep(Released(p, b), k, n, actions[1..]);
    }
  }

  function Allocations(m: nat): seq<Action> { if m == 0 then [] else Allocations(m - 1) + [Allocate] }

  lemma {:induction false} RunOneMore(p: Pool, actions: seq<Action>)
    requires p.batches > 0 && Run(p, actions).Some?
    ensures Run(p, actions + [Allocate]) == Some(Allocated(Run(p, actions).value))
    decreases |actions|
  {
    hide Allocated;
    if actions == [] {
      assert actions + [Allocate] == [Allocate];
      assert Run(p, [Allocate]) == Run(Allocated(p), [Allocate][1..]);
    } else {
      assert (actions + [Allocate])[1..] == actions[1..] + [Allocate];
      match actions[0]
      case Allocate => RunOneMore(Allocated(p), actions[1..]);
      case Release(b) => RunOneMore(Released(p, b), actions[1..]);
    }
  }

  /** If the block size does not divide the page size, used_ never meets end_: the m-th block is
      cut from the first batch with a page, m * k objects behind its start. */
  lemma {:induction false} CutForever(k: nat, n: nat, m: nat)
    requires k > 0 && n % k != 0
    ensures var r := Run(NewPool(k, n), Allocations(m + 1));
            r.Some? && r.value.k == k && r.value.n == n && r.value.batches == 2 && r.value.free == [] &&
            r.value.used == k * m + k && Block(1, k * m) in r.value.live
  {
    hide Run;
    if m == 0 {
      NoActions(NewPool(k, n));
      RunOneMore(NewPool(k, n), []);
    } else {
      CutForever(k, n, m - 1);
      RunOneMore(NewPool(k, n), Allocations(m));
      assert k * (m - 1) + k == k * m;
      Multiple(m, k);
    }
  }

  lemma NoActions(p: Pool)
    requires p.batches > 0
    ensures Run(p, []) == Some(p)
  {
  }

  /** The allocator is safe exactly when the block size divides the page size. */
  lemma SafeExactly(k: nat, n: nat)
    requires k > 0 && n > 0
    ensures Safe(k, n) <==> n % k == 0
  {
    hide Run;
    if n % k == 0 {
      ZeroIsMultiple(k);
      forall actions | Run(NewPool(k, n), actions).Some?
        ensures AllFit(Run(NewPool(k, n), actions).value)
      {
        RunStaysInStep(NewPool(k, n), k, n, actions);
      }
    } else {
      CutForever(k, n, n);
      var p := Run(NewPool(k, n), Allocations(n + 1)).value;
      assert Block(1, k * n) in p.live && !Fits(p, Block(1, k * n));
      assert !AllFit(Run(NewPool(k, n), Allocations(n + 1)).value);
    }
  }

  /** The pages of eight values of the default allocator: the block of the 256th allocate starts
      behind the buffer. */
  lemma PagesOfEight()
    ensures var r := Run(NewPool(8, 255), Allocations(256));
            r.Some? && Block(1, 8 * 255) in r.value.live && !AllFit(r.value) && !Safe(8, 255)
  {
    hide Run, Allocations;
    CutForever(8, 255, 255);
    SafeExactly(8, 255);
    assert !Fits(Run(NewPool(8, 255), Allocations(256)).value, Block(1, 8 * 255));
  }
}
