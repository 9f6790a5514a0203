/** The allocator of bootloader/stage2/memory.c over an addressed memory. Its list nodes are records
    inside the memory it hands out, so every store may destroy a record it overlaps. */
module Heap {
  import opened HeapModel
  import opened HeapInvariant
  import opened HeapRuns

  /** struct MemoryBlockNode; a pointer is an address and NULL is 0. */
  datatype Node = Node(start: nat, prev: nat, next: nat, size: nat)

  /** The node records that are intact, by address. */
  type Memory = map<nat, Node>

  /** Writing a record destroys every other record that shares a byte with it. */
  function Store(mem: Memory, a: nat, n: Node): Memory {
    (map b | b in mem && Apart(a, b) :: mem[b])[a := n]
  }

  lemma StoreTwice(mem: Memory, a: nat, m: Node, n: Node)
    ensures Store(Store(mem, a, m), a, n) == Store(mem, a, n)
  {
  }

  /** Writing one byte destroys every record that contains it. */
  function Poke(mem: Memory, x: nat): Memory {
    map b | b in mem && !(b <= x < b + HEADER) :: mem[b]
  }

  /** Byte x belongs to the record at a. */
  predicate InRecord(x: int, a: int) { a <= x < a + HEADER }

  /** What is intact after a record or a byte has been written: the record itself, and every other that
      shares no byte with what was written. */
  lemma IntactIff(mem: Memory, a: nat, n: Node, x: nat, b: nat)
    ensures a in Store(mem, a, n) && Store(mem, a, n)[a] == n
    ensures b != a ==> (b in Store(mem, a, n) <==> b in mem && !exists y :: InRecord(y, a) && InRecord(y, b))
    ensures b != a && b in Store(mem, a, n) ==> Store(mem, a, n)[b] == mem[b]
    ensures b in Poke(mem, x) <==> b in mem && !InRecord(x, b)
    ensures b in Poke(mem, x) ==> Poke(mem, x)[b] == mem[b]
  {
    if !Apart(a, b) { assert InRecord(if a <= b then b else a, a) && InRecord(if a <= b then b else a, b); }
  }

  function NodeAt(bs: seq<Block>, i: int): nat {
    if 0 <= i < |bs| then bs[i].node else 0
  }

  /** Free-list nodes are linked forwards only: prev is always NULL. */
  ghost predicate FreeCell(mem: Memory, bs: seq<Block>, i: nat)
    requires i < |bs|
  {
    bs[i].node != 0 && bs[i].node in mem &&
    mem[bs[i].node] == Node(bs[i].start, 0, NodeAt(bs, i + 1), bs[i].size)
  }

  ghost predicate UsedCell(mem: Memory, bs: seq<Block>, i: nat)
    requires i < |bs|
  {
    bs[i].node != 0 && bs[i].node in mem &&
    mem[bs[i].node] == Node(bs[i].start, NodeAt(bs, i - 1), NodeAt(bs, i + 1), bs[i].size)
  }

  ghost predicate FreeLinked(mem: Memory, head: nat, bs: seq<Block>) {
    head == NodeAt(bs, 0) && forall i | 0 <= i < |bs| :: FreeCell(mem, bs, i)
  }

  ghost predicate UsedLinked(mem: Memory, head: nat, bs: seq<Block>) {
    head == NodeAt(bs, 0) && forall i | 0 <= i < |bs| :: UsedCell(mem, bs, i)
  }

  /** No byte of the record at `a` is written by a malloc in state s. */
  ghost predicate Untouched(s: State, a: nat) {
    Clear(s.free, a) && Clear(s.used, a) &&
    forall i, x | 0 <= i < |s.free| && a <= x < a + HEADER :: !s.free[i].Has(x)
  }

  /** Every intact record that malloc has no business with is still intact in mem'. */
  ghost predicate Spares(mem: Memory, mem': Memory, s: State) {
    forall a {:trigger Untouched(s, a)} | a in mem && Untouched(s, a) :: a in mem' && mem'[a] == mem[a]
  }

  // ---------------------------------------------------------------- what one store does to a list

  lemma FreeFrame(mem: Memory, head: nat, bs: seq<Block>, a: nat, n: Node)
    requires FreeLinked(mem, head, bs) && Clear(bs, a)
    ensures FreeLinked(Store(mem, a, n), head, bs)
  {
    forall i | 0 <= i < |bs| ensures FreeCell(Store(mem, a, n), bs, i) { assert FreeCell(mem, bs, i); }
  }

  lemma UsedFrame(mem: Memory, head: nat, bs: seq<Block>, a: nat, n: Node)
    requires UsedLinked(mem, head, bs) && Clear(bs, a)
    ensures UsedLinked(Store(mem, a, n), head, bs)
  {
    forall i | 0 <= i < |bs| ensures UsedCell(Store(mem, a, n), bs, i) { assert UsedCell(mem, bs, i); }
  }

  /** Rewriting the record of free node i, and nothing but its start and size. */
  lemma FreeSet(mem: Memory, head: nat, bs: seq<Block>, i: nat, start: nat, size: nat)
    requires FreeLinked(mem, head, bs) && Spread(bs) && i < |bs|
    ensures FreeLinked(Store(mem, bs[i].node, Node(start, 0, NodeAt(bs, i + 1), size)), head,
                       bs[i := Block(bs[i].node, start, size)])
  {
    var mem' := Store(mem, bs[i].node, Node(start, 0, NodeAt(bs, i + 1), size));
    var bs' := bs[i := Block(bs[i].node, start, size)];
    assert FreeCell(mem, bs, i);
    forall k | 0 <= k < |bs'| ensures FreeCell(mem', bs', k) { assert FreeCell(mem, bs, k); }
  }

  /** A new record at a, linked in front of the free list. */
  lemma FreePush(mem: Memory, head: nat, bs: seq<Block>, a: nat, start: nat, size: nat)
    requires FreeLinked(mem, head, bs) && Clear(bs, a) && a != 0
    ensures FreeLinked(Store(mem, a, Node(start, 0, head, size)), a, [Block(a, start, size)] + bs)
  {
    var mem' := Store(mem, a, Node(start, 0, head, size));
    forall k | 0 <= k < |bs| + 1 ensures FreeCell(mem', [Block(a, start, size)] + bs, k) {
      if k > 0 { assert FreeCell(mem, bs, k - 1); }
    }
  }

  /** The two stores with which malloc puts a record at a in front of the used list. */
  function PushUsed(mem: Memory, head: nat, a: nat, size: nat): Memory {
    var mem := Store(mem, a, Node(a, 0, head, size));
    if head != 0 && head in mem then Store(mem, head, mem[head].(prev := a)) else mem
  }

  lemma UsedPush(mem: Memory, head: nat, bs: seq<Block>, a: nat, size: nat)
    requires UsedLinked(mem, head, bs) && Spread(bs) && Clear(bs, a) && a != 0
    ensures UsedLinked(PushUsed(mem, head, a, size), a, [Block(a, a, size)] + bs)
    ensures head != 0 ==> head in mem && Apart(a, head)
  {
    var mem' := PushUsed(mem, head, a, size);
    if bs != [] { assert UsedCell(mem, bs, 0); }
    forall k | 0 <= k < |bs| + 1 ensures UsedCell(mem', [Block(a, a, size)] + bs, k) {
      if k > 0 { assert UsedCell(mem, bs, k - 1); }
    }
  }

  /** The relinking with which free takes the record at a out of the used list. */
  function PullUsed(mem: Memory, a: nat): Memory {
    if a !in mem then mem else
      var prev, next := mem[a].prev, mem[a].next;
      var mem := if prev != 0 && prev in mem then Store(mem, prev, mem[prev].(next := next)) else mem;
      if next != 0 && next in mem then Store(mem, next, mem[next].(prev := prev)) else mem
  }

  lemma UsedPull(mem: Memory, head: nat, bs: seq<Block>, u: nat)
    requires UsedLinked(mem, head, bs) && Spread(bs) && u < |bs|
    ensures var mem' := PullUsed(mem, bs[u].node);
            && UsedLinked(mem', if u == 0 then NodeAt(bs, 1) else head, Without(bs, u))
            && bs[u].node in mem' && mem'[bs[u].node] == mem[bs[u].node]
  {
    var mem' := PullUsed(mem, bs[u].node);
    assert UsedCell(mem, bs, u);
    if u > 0 { assert UsedCell(mem, bs, u - 1); }
    if u + 1 < |bs| { assert UsedCell(mem, bs, u + 1); }
    forall k | 0 <= k < |bs| - 1 ensures UsedCell(mem', Without(bs, u), k) {
      PulledCell(mem, head, bs, u, k);
    }
  }

  lemma PulledCell(mem: Memory, head: nat, bs: seq<Block>, u: nat, k: nat)
    requires UsedLinked(mem, head, bs) && Spread(bs) && u < |bs| && k < |bs| - 1
    ensures UsedCell(PullUsed(mem, bs[u].node), Without(bs, u), k)
  {
    assert UsedCell(mem, bs, u);
    if u > 0 { assert UsedCell(mem, bs, u - 1); }
    if u + 1 < |bs| { assert UsedCell(mem, bs, u + 1); }
    assert UsedCell(mem, bs, if k < u then k else k + 1);
  }

  /** The memory after free has merged b into free block i. */
  function MergeMem(mem: Memory, free: seq<Block>, i: nat, b: Block): Memory
    requires i < |free|
  {
    var m := Absorb(free[i], b);
    Store(mem, free[i].node, Node(m.start, 0, NodeAt(free, i + 1), m.size))
  }

  lemma MergeLinked(mem: Memory, freeList: nat, usedList: nat, s: State, i: nat, b: Block)
    requires FreeLinked(mem, freeList, s.free) && UsedLinked(mem, usedList, s.used)
    requires i < |s.free| && Spread(s.free) && Clear(s.used, s.free[i].node)
    ensures FreeLinked(MergeMem(mem, s.free, i, b), freeList, MergeAt(s, i, b).free)
    ensures UsedLinked(MergeMem(mem, s.free, i, b), usedList, MergeAt(s, i, b).used)
  {
    var m := Absorb(s.free[i], b);
    FreeSet(mem, freeList, s.free, i, m.start, m.size);
    UsedFrame(mem, usedList, s.used, s.free[i].node, Node(m.start, 0, NodeAt(s.free, i + 1), m.size));
  }

  /** What malloc relies on when it cuts `need` bytes off free block i. */
  ghost predicate Carvable(mem: Memory, freeList: nat, usedList: nat, s: State, i: nat, need: nat) {
    && FreeLinked(mem, freeList, s.free) && UsedLinked(mem, usedList, s.used)
    && Spread(s.free) && Spread(s.used)
    && i < |s.free| && HEADER <= need <= s.free[i].size && s.free[i].start != 0
    && Clear(s.free, s.free[i].start) && Clear(s.used, s.free[i].start)
    && Clear(s.used, s.free[i].node) && (s.used != [] ==> Clear(s.free, s.used[0].node))
  }

  lemma InvCarvable(mem: Memory, freeList: nat, usedList: nat, s: State, i: nat, need: nat, root: nat, limit: nat)
    requires FreeLinked(mem, freeList, s.free) && UsedLinked(mem, usedList, s.used) && Inv(s, root, limit)
    requires i < |s.free| && HEADER <= need <= s.free[i].size
    ensures Carvable(mem, freeList, usedList, s, i, need)
  {
    NodesApart(s, root, limit);
    FreeArea(s, root, limit, i, s.free[i].start);
    assert FreeOk(s.used, s.free[i], root, limit);
  }

  /** The memory after malloc has cut `need` bytes off free block i. */
  function CarveMem(mem: Memory, usedList: nat, free: seq<Block>, i: nat, need: nat): Memory
    requires i < |free| && need <= free[i].size
  {
    Store(PushUsed(mem, usedList, free[i].start, need), free[i].node,
          Node(free[i].start + need, 0, NodeAt(free, i + 1), free[i].size - need))
  }

  lemma CarveLinked(mem: Memory, freeList: nat, usedList: nat, s: State, i: nat, need: nat)
    requires Carvable(mem, freeList, usedList, s, i, need)
    ensures var mem' := CarveMem(mem, usedList, s.free, i, need);
            && FreeLinked(mem', freeList, CarveAt(s, i, need).free)
            && UsedLinked(mem', s.free[i].start, CarveAt(s, i, need).used)
  {
    var b := s.free[i];
    var m1 := Store(mem, b.start, Node(b.start, 0, usedList, need));
    var m2 := PushUsed(mem, usedList, b.start, need);
    UsedPush(mem, usedList, s.used, b.start, need);
    FreeFrame(mem, freeList, s.free, b.start, Node(b.start, 0, usedList, need));
    if usedList != 0 {
      FreeFrame(m1, freeList, s.free, usedList, m1[usedList].(prev := b.start));
    }
    assert FreeLinked(m2, freeList, s.free);
    FreeSet(m2, freeList, s.free, i, b.start + need, b.size - need);
    var used := [Block(b.start, b.start, need)] + s.used;
    forall k | 0 <= k < |used| ensures Apart(b.node, used[k].node) {
      if k == 0 { assert Apart(b.start, s.free[i].node); } else { assert Apart(b.node, s.used[k - 1].node); }
    }
    UsedFrame(m2, b.start, used, b.node, Node(b.start + need, 0, NodeAt(s.free, i + 1), b.size - need));
  }

  lemma CarveFrame(mem: Memory, freeList: nat, usedList: nat, s: State, i: nat, need: nat)
    requires Carvable(mem, freeList, usedList, s, i, need)
    ensures var mem' := CarveMem(mem, usedList, s.free, i, need);
            Spares(mem, mem', s)
  {
    var mem' := CarveMem(mem, usedList, s.free, i, need);
    forall a | a in mem && Untouched(s, a) ensures a in mem' && mem'[a] == mem[a] {
      assert Apart(a, s.free[i].node);
      if s.used != [] { assert Apart(a, s.used[0].node); }
      var x := if a < s.free[i].start then s.free[i].start else a;
      assert !s.free[i].Has(x) || a + HEADER <= x;
      assert Apart(a, s.free[i].start);
    }
  }

  /** Everything malloc needs to know about cutting `need` bytes off free block i. */
  lemma CarveEffect(mem: Memory, freeList: nat, usedList: nat, s: State, i: nat, need: nat, root: nat, limit: nat)
    requires FreeLinked(mem, freeList, s.free) && UsedLinked(mem, usedList, s.used) && Inv(s, root, limit)
    requires i < |s.free| && HEADER <= need <= s.free[i].size
    ensures FreeCell(mem, s.free, i) && Apart(s.free[i].start, s.free[i].node)
    ensures usedList != 0 ==>
              usedList in mem && Apart(s.free[i].start, usedList) && Apart(usedList, s.free[i].node)
    ensures var mem' := CarveMem(mem, usedList, s.free, i, need);
            && FreeLinked(mem', freeList, CarveAt(s, i, need).free)
            && UsedLinked(mem', s.free[i].start, CarveAt(s, i, need).used)
            && Spares(mem, mem', s)
  {
    InvCarvable(mem, freeList, usedList, s, i, need, root, limit);
    CarveLinked(mem, freeList, usedList, s, i, need);
    CarveFrame(mem, freeList, usedList, s, i, need);
    assert FreeCell(mem, s.free, i);
    if usedList != 0 { assert UsedCell(mem, s.used, 0); }
  }

  // ---------------------------------------------------------------- what the search loops find

  lemma {:induction false} FirstFitUnique(free: seq<Block>, need: nat, i: nat)
    requires i <= |free| && forall k | 0 <= k < i :: free[k].size < need
    requires i == |free| || need <= free[i].size
    ensures FirstFit(free, need) == i
  {
    if i > 0 { FirstFitUnique(free[1..], need, i - 1); }
  }

  lemma {:induction false} FindUsedUnique(used: seq<Block>, offset: int, i: nat)
    requires i <= |used| && forall k | 0 <= k < i :: used[k].start != offset
    requires i == |used| || used[i].start == offset
    ensures FindUsed(used, offset) == i
  {
    if i > 0 { FindUsedUnique(used[1..], offset, i - 1); }
  }

  lemma {:induction false} AbsorberUnique(free: seq<Block>, b: Block, i: nat)
    requires i <= |free| && forall k | 0 <= k < i :: !Adjacent(free[k], b)
    requires i == |free| || Adjacent(free[i], b)
    ensures Absorber(free, b) == i
  {
    if i > 0 { AbsorberUnique(free[1..], b, i - 1); }
  }

  /** Once a block is unlinked its header belongs to nobody, so malloc leaves it alone. */
  lemma Unlinked(s: State, root: nat, limit: nat, u: nat)
    requires Inv(s, root, limit) && u < |s.used| && Releasable(s, s.used[u].start + HEADER)
    ensures Untouched(Detach(s, u), s.used[u].node)
  {
    var t := Detach(s, u);
    var a := s.used[u].node;
    NodesApart(s, root, limit);
    assert UsedOk(s.used[u], limit);
    forall i | 0 <= i < |t.used| ensures Apart(a, t.used[i].node) {
      assert t.used[i] == s.used[if i < u then i else i + 1];
    }
    forall i, x | 0 <= i < |t.free| && a <= x < a + HEADER ensures !t.free[i].Has(x) {
      if t.free[i].Has(x) { FreeUsedDisjoint(s, i, u, x); }
    }
  }

  /** The node that free allocates overlaps no node that was there before or was just carved. */
  lemma NewNode(s: State, root: nat, limit: nat)
    requires Inv(s, root, limit) && FirstFit(s.free, 2 * HEADER) < |s.free|
    ensures var (t, p) := HeapModel.Malloc(s, HEADER); Clear(t.free, p) && Clear(t.used, p)
  {
    var (t, p) := HeapModel.Malloc(s, HEADER);
    FreeArea(s, root, limit, FirstFit(s.free, 2 * HEADER), p);
    forall k | 0 <= k < |t.free| ensures Apart(p, t.free[k].node) {
      assert Apart(p, s.free[k].node);
    }
  }

  lemma BelowNodes(s: State, root: nat, limit: nat)
    requires Inv(s, root, limit)
    ensures Clear(s.used, 0)
  {
    forall k | 0 <= k < |s.used| ensures Apart(0, s.used[k].node) { assert UsedOk(s.used[k], limit); }
  }

  lemma BelowLimit(s: State, root: nat, limit: nat)
    requires Inv(s, root, limit)
    ensures forall k | 0 <= k < |s.free| :: s.free[k].End() < WORD
  {
    forall k | 0 <= k < |s.free| ensures s.free[k].End() < WORD { assert FreeOk(s.used, s.free[k], root, limit); }
  }

  class Heap {
    var mem: Memory
    var freeList: nat
    var usedList: nat
    ghost var s: State
    ghost const root: nat
    ghost const limit: nat

    ghost predicate Valid()
      reads this
    {
      Inv(s, root, limit) && FreeLinked(mem, freeList, s.free) && UsedLinked(mem, usedList, s.used)
    }

    /** mm_initialize */
    constructor (base: nat, length: nat)
      requires HEADER <= base && base + 512 <= length < WORD
      ensures Valid() && s == Initialize(base, length) && root == base + 256 && limit == length
    {
      s := Initialize(base, length);
      root := base + 256;
      limit := length;
      usedList := base;
      freeList := base + 16 * HEADER;
      var start := base + 16 * HEADER + 16 * HEADER;
      mem := Store(Store(map[], base, Node(base, 0, 0, HEADER)),
                   base + 16 * HEADER, Node(start, 0, 0, (length + WORD - start % WORD) % WORD));
      new;
      InitInv(base, length);
    }

    /** The search loop of malloc. */
    method FindFit(blockSize: nat) returns (memNode: nat, ghost i: nat)
      requires FreeLinked(mem, freeList, s.free)
      ensures i == FirstFit(s.free, blockSize)
      ensures memNode == NodeAt(s.free, FirstFit(s.free, blockSize))
      ensures i < |s.free| <==> memNode != 0
    {
      var biggest := 0;
      memNode, i := freeList, 0;
      while memNode != 0 && mem[memNode].size < blockSize
        invariant i <= |s.free| && memNode == NodeAt(s.free, i)
        invariant i < |s.free| ==> FreeCell(mem, s.free, i)
        invariant forall k | 0 <= k < i :: s.free[k].size < blockSize
        decreases |s.free| - i
      {
        if mem[memNode].size > biggest {
          biggest := mem[memNode].size;
        }
        memNode := mem[memNode].next;
        i := i + 1;
      }
      FirstFitUnique(s.free, blockSize, i);
    }

    /** The part of malloc that cuts the block off free node i. */
    method Carve(memNode: nat, blockSize: nat, ghost i: nat) returns (p: nat)
      requires i < |s.free| && FreeCell(mem, s.free, i) && memNode == s.free[i].node
      requires blockSize <= s.free[i].size
      requires usedList != 0 ==> usedList in mem && Apart(s.free[i].start, usedList) && Apart(usedList, memNode)
      requires Apart(s.free[i].start, memNode)
      modifies this`mem, this`usedList
      ensures p == s.free[i].start + HEADER && usedList == s.free[i].start
      ensures mem == CarveMem(old(mem), old(usedList), s.free, i, blockSize)
    {
      var usedNode := mem[memNode].start;
      mem := Store(mem, usedNode, Node(usedNode, 0, usedList, blockSize));
      if usedList != 0 {
        mem := Store(mem, usedList, mem[usedList].(prev := usedNode));
      }
      usedList := usedNode;
      ghost var m1 := mem;
      mem := Store(mem, memNode, mem[memNode].(size := mem[memNode].size - blockSize));
      mem := Store(mem, memNode, mem[memNode].(start := mem[memNode].start + blockSize));
      StoreTwice(m1, memNode, m1[memNode].(size := m1[memNode].size - blockSize), mem[memNode]);
      // A size is unsigned, so the branch that would unlink a negative one is never taken.
      p := mem[usedNode].start + HEADER;
    }

    method Malloc(n: nat) returns (p: nat)
      requires Valid() && n + HEADER < WORD
      modifies this
      ensures Valid() && (s, p) == HeapModel.Malloc(old(s), n)
      ensures Spares(old(mem), mem, old(s))
    {
      var blockSize := (n + HEADER) % WORD;
      var memNode, i := FindFit(blockSize);
      if memNode == 0 {
        return 0;
      }
      MallocInv(s, n, root, limit);
      CarveEffect(mem, freeList, usedList, s, i, blockSize, root, limit);
      p := Carve(memNode, blockSize, i);
      s := HeapModel.Malloc(s, n).0;
    }

    /** The search loop of free. */
    method Search(ptr: nat) returns (memNode: nat, ghost u: nat)
      requires Valid() && ptr < WORD
      ensures u == FindUsed(s.used, ptr - HEADER)
      ensures memNode == NodeAt(s.used, FindUsed(s.used, ptr - HEADER))
      ensures memNode == 0 <==> u == |s.used|
    {
      var offset := (ptr + WORD - HEADER) % WORD;
      memNode, u := usedList, 0;
      while memNode != 0
        invariant u <= |s.used| && memNode == NodeAt(s.used, u)
        invariant forall k | 0 <= k < u :: s.used[k].start != offset
        decreases |s.used| - u
      {
        assert UsedCell(mem, s.used, u);
        if mem[memNode].start == offset { break; }
        memNode := mem[memNode].next;
        u := u + 1;
      }
      forall k | 0 <= k < |s.used| ensures s.used[k].start == offset <==> s.used[k].start == ptr - HEADER {
        assert UsedOk(s.used[k], limit);
      }
      assert u < |s.used| ==> UsedCell(mem, s.used, u);
      FindUsedUnique(s.used, ptr - HEADER, u);
    }

    /** The part of free that takes the node out of the used list. */
    method Unlink(memNode: nat, ghost u: nat)
      requires Valid() && u < |s.used| && memNode == s.used[u].node
      requires Releasable(s, s.used[u].start + HEADER)
      modifies this
      ensures Valid() && s == Detach(old(s), u)
      ensures Untouched(s, memNode) && memNode in mem
      ensures mem[memNode].start == old(s).used[u].start && mem[memNode].size == old(s).used[u].size
    {
      NodesApart(s, root, limit);
      UnlinkInv(s, u, root, limit);
      UsedPull(mem, usedList, s.used, u);
      assert UsedCell(mem, s.used, u);
      if u > 0 { assert UsedCell(mem, s.used, u - 1); }
      if mem[memNode].prev != 0 {
        FreeFrame(mem, freeList, s.free, mem[memNode].prev, mem[mem[memNode].prev].(next := mem[memNode].next));
        mem := Store(mem, mem[memNode].prev, mem[mem[memNode].prev].(next := mem[memNode].next));
      } else {
        usedList := mem[memNode].next;
      }
      if mem[memNode].next != 0 {
        assert UsedCell(old(mem), s.used, u + 1);
        FreeFrame(mem, freeList, s.free, mem[memNode].next, mem[mem[memNode].next].(prev := mem[memNode].prev));
        mem := Store(mem, mem[memNode].next, mem[mem[memNode].next].(prev := mem[memNode].prev));
      }
      assert mem == PullUsed(old(mem), memNode);
      s := Detach(s, u);
      Unlinked(old(s), root, limit, u);
    }

    /** The loop of free that merges the detached block b into a neighbour. */
    method Merge(memNode: nat, ghost b: Block) returns (done: bool, ghost i: nat)
      requires FreeLinked(mem, freeList, s.free) && Clear(s.free, memNode) && memNode in mem
      requires mem[memNode].start == b.start && mem[memNode].size == b.size && b.End() < WORD
      requires forall k | 0 <= k < |s.free| :: s.free[k].End() < WORD
      modifies this`mem
      ensures i == Absorber(s.free, b) && (done <==> i < |s.free|)
      ensures mem == if done then MergeMem(old(mem), s.free, i, b) else old(mem)
    {
      var freeNode := freeList;
      i := 0;
      while freeNode != 0
        invariant i <= |s.free| && freeNode == NodeAt(s.free, i) && mem == old(mem)
        invariant i < |s.free| ==> FreeCell(mem, s.free, i)
        invariant forall k | 0 <= k < i :: !Adjacent(s.free[k], b)
        decreases |s.free| - i
      {
        if (mem[freeNode].start + mem[freeNode].size) % WORD == mem[memNode].start {
          AbsorberUnique(s.free, b, i);
          mem := Store(mem, freeNode, mem[freeNode].(size := mem[freeNode].size + mem[memNode].size));
          return true, i;
        } else if (mem[memNode].start + mem[memNode].size) % WORD == mem[freeNode].start {
          AbsorberUnique(s.free, b, i);
          mem := Store(mem, freeNode, mem[freeNode].(size := mem[freeNode].size + mem[memNode].size));
          mem := Store(mem, freeNode, mem[freeNode].(start := mem[memNode].start));
          StoreTwice(old(mem), freeNode, old(mem)[freeNode].(size := s.free[i].size + b.size), mem[freeNode]);
          return true, i;
        }
        freeNode := mem[freeNode].next;
        i := i + 1;
      }
      AbsorberUnique(s.free, b, i);
      done := false;
    }

    /** The part of free that describes a block without neighbours with a node of its own. When
        malloc fails the record goes to address 0, below every node of the pool. */
    method AddNode(memNode: nat, ghost b: Block)
      requires Valid() && Untouched(s, memNode) && memNode in mem
      requires mem[memNode].start == b.start && mem[memNode].size == b.size
      modifies this
      ensures UsedLinked(mem, usedList, HeapModel.AddNode(old(s), b).used)
      ensures FreeLinked(mem, freeList, HeapModel.AddNode(old(s), b).free)
    {
      ghost var rest := s;
      var freeNode := Malloc(HEADER);
      if freeNode != 0 {
        NewNode(rest, root, limit);
        FreePush(mem, freeList, s.free, freeNode, b.start, b.size);
      } else {
        BelowNodes(s, root, limit);
      }
      UsedFrame(mem, usedList, s.used, freeNode, Node(b.start, 0, freeList, b.size));
      mem := Store(mem, freeNode, Node(mem[memNode].start, 0, freeList, mem[memNode].size));
      freeList := freeNode;
    }

    method Free(ptr: nat)
      requires Valid() && ptr < WORD && (Releasable(s, ptr) || FindUsed(s.used, ptr - HEADER) == |s.used|)
      modifies this
      ensures Valid() && s == HeapModel.Free(old(s), ptr)
    {
      var memNode, u := Search(ptr);
      if memNode == 0 {
        return;
      }
      FreeInv(s, ptr, root, limit);
      assert UsedOk(s.used[u], limit);
      ghost var b := s.used[u];
      Unlink(memNode, u);
      label unlinked:
      BelowLimit(s, root, limit);
      NodesApart(s, root, limit);
      var done, i := Merge(memNode, b);
      if done {
        MergeLinked(old@unlinked(mem), freeList, usedList, s, i, b);
      } else {
        AddNode(memNode, b);
      }
      s := HeapModel.Free(old(s), ptr);
    }

    /** A client stores a byte into the payload of block u: no list notices. */
    method ClientWrite(x: nat, ghost u: nat)
      requires Valid() && u < |s.used| && Releasable(s, s.used[u].start + HEADER)
      requires s.used[u].start + HEADER <= x < s.used[u].End()
      modifies this`mem
      ensures Valid() && mem == Poke(old(mem), x)
    {
      PayloadSafe(s, u, x, root, limit);
      mem := Poke(mem, x);
      forall k | 0 <= k < |s.free| ensures FreeCell(mem, s.free, k) { assert FreeCell(old(mem), s.free, k); }
      forall k | 0 <= k < |s.used| ensures UsedCell(mem, s.used, k) { assert UsedCell(old(mem), s.used, k); }
    }

    /** mm_allocatable_free, with the sum kept in a uint32_t. */
    method AllocatableFree() returns (total: nat, biggest: nat)
      requires Valid()
      ensures total == Measure(s.free, Width()) && biggest == Biggest(s.free)
    {
      WidthNonNegative(s.used);
      total, biggest := 0, 0;
      var memNode := freeList;
      ghost var i := 0;
      while memNode != 0
        invariant i <= |s.free| && memNode == NodeAt(s.free, i)
        invariant i < |s.free| ==> FreeCell(mem, s.free, i)
        invariant total + Measure(s.free[i..], Width()) == Measure(s.free, Width())
        invariant Biggest(s.free) == if biggest < Biggest(s.free[i..]) then Biggest(s.free[i..]) else biggest
        decreases |s.free| - i
      {
        assert s.free[i..][1..] == s.free[i + 1..];
        WidthNonNegative(s.free[i + 1..]);
        total := (total + mem[memNode].size) % WORD;
        if mem[memNode].size > biggest {
          biggest := mem[memNode].size;
        }
        memNode := mem[memNode].next;
        i := i + 1;
      }
      assert s.free[i..] == [];
    }

    /** mm_allocatable_used */
    method AllocatableUsed() returns (total: nat)
      requires Valid()
      ensures total == Measure(s.used, Width())
    {
      WidthNonNegative(s.free);
      total := 0;
      var memNode := usedList;
      ghost var i := 0;
      while memNode != 0
        invariant i <= |s.used| && memNode == NodeAt(s.used, i)
        invariant i < |s.used| ==> UsedCell(mem, s.used, i)
        invariant total + Measure(s.used[i..], Width()) == Measure(s.used, Width())
        decreases |s.used| - i
      {
        assert s.used[i..][1..] == s.used[i + 1..];
        WidthNonNegative(s.used[i + 1..]);
        total := (total + mem[memNode].size) % WORD;
        memNode := mem[memNode].next;
        i := i + 1;
      }
      assert s.used[i..] == [];
    }
  }

  // ---------------------------------------------------------------- the lists in memory

  /** The node reached from `head` by following next k times. */
  function Follow(mem: Memory, head: nat, k: nat): nat {
    if k == 0 then head
    else
      var a := Follow(mem, head, k - 1);
      if a in mem then mem[a].next else 0
  }

  lemma {:induction false} FollowFree(mem: Memory, head: nat, bs: seq<Block>, k: nat)
    requires FreeLinked(mem, head, bs) && k <= |bs|
    ensures Follow(mem, head, k) == NodeAt(bs, k)
  {
    if k > 0 {
      FollowFree(mem, head, bs, k - 1);
      assert FreeCell(mem, bs, k - 1);
    }
  }

  lemma {:induction false} FollowUsed(mem: Memory, head: nat, bs: seq<Block>, k: nat)
    requires UsedLinked(mem, head, bs) && k <= |bs|
    ensures Follow(mem, head, k) == NodeAt(bs, k)
  {
    if k > 0 {
      FollowUsed(mem, head, bs, k - 1);
      assert UsedCell(mem, bs, k - 1);
    }
  }

  /** Following next from either head reaches NULL after visiting as many different nodes as the
      list has blocks: neither chain is cyclic. */
  lemma ChainsEnd(h: Heap)
    requires h.Valid()
    ensures Follow(h.mem, h.freeList, |h.s.free|) == 0 && Follow(h.mem, h.usedList, |h.s.used|) == 0
    ensures forall i, j | 0 <= i < j < |h.s.free| ::
              Follow(h.mem, h.freeList, i) != 0 && Follow(h.mem, h.freeList, i) != Follow(h.mem, h.freeList, j)
    ensures forall i, j | 0 <= i < j < |h.s.used| ::
              Follow(h.mem, h.usedList, i) != 0 && Follow(h.mem, h.usedList, i) != Follow(h.mem, h.usedList, j)
  {
    NodesApart(h.s, h.root, h.limit);
    forall k | 0 <= k <= |h.s.free| ensures Follow(h.mem, h.freeList, k) == NodeAt(h.s.free, k) {
      FollowFree(h.mem, h.freeList, h.s.free, k);
    }
    forall k | 0 <= k <= |h.s.used| ensures Follow(h.mem, h.usedList, k) == NodeAt(h.s.used, k) {
      FollowUsed(h.mem, h.usedList, h.s.used, k);
    }
    forall i, j | 0 <= i < j < |h.s.free|
      ensures Follow(h.mem, h.freeList, i) != 0 && Follow(h.mem, h.freeList, i) != Follow(h.mem, h.freeList, j)
    {
      assert FreeCell(h.mem, h.s.free, i) && Apart(h.s.free[i].node, h.s.free[j].node);
    }
    forall i, j | 0 <= i < j < |h.s.used|
      ensures Follow(h.mem, h.usedList, i) != 0 && Follow(h.mem, h.usedList, i) != Follow(h.mem, h.usedList, j)
    {
      assert UsedCell(h.mem, h.s.used, i) && Apart(h.s.used[i].node, h.s.used[j].node);
    }
  }

  /** One call of a client, carried out in memory. */
  method Perform(h: Heap, live: set<nat>, call: Call) returns (owned: set<nat>)
    requires h.Valid() && ClientInv(Client(h.s, live), h.root, h.limit) && Legal(Client(h.s, live), call)
    modifies h
    ensures h.Valid()
    ensures Client(h.s, owned) == Step(Client(old(h.s), live), call)
  {
    owned := live;
    match call {
      case Alloc(n) =>
        var p := h.Malloc(n);
        if p != 0 { owned := live + {p}; }
      case Release(ptr) =>
        assert ptr in live ==> Owned(h.s, ptr);
        h.Free(ptr);
        owned := live - {ptr};
      case Scribble(x) =>
        ghost var u: nat :| InPayload(Client(h.s, live), u, x);
        assert Owned(h.s, h.s.used[u].start + HEADER);
        h.ClientWrite(x, u);
    }
  }

  /** The allocator in memory carries out every legal run of the value-level allocator, whatever
      the client stores in its payloads. */
  method Drive(base: nat, length: nat, calls: seq<Call>) returns (h: Heap, live: set<nat>)
    requires HEADER <= base && base + 512 <= length < WORD
    requires LegalRun(Client(Initialize(base, length), {}), calls)
    ensures h.Valid() && Client(h.s, live) == Run(Client(Initialize(base, length), {}), calls)
  {
    h := new Heap(base, length);
    live := {};
    InitInv(base, length);
    for i := 0 to |calls|
      invariant fresh(h) && h.Valid() && h.root == base + 256 && h.limit == length
      invariant ClientInv(Client(h.s, live), h.root, h.limit)
      invariant LegalRun(Client(h.s, live), calls[i..])
      invariant Run(Client(h.s, live), calls[i..]) == Run(Client(Initialize(base, length), {}), calls)
    {
      StepKeepsClientInv(Client(h.s, live), calls[i], h.root, h.limit);
      assert calls[i..][1..] == calls[i + 1..];
      live := Perform(h, live, calls[i]);
    }
  }
}
