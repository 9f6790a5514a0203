/** The heap of bootloader/stage2/memory.c as values: which byte intervals are free, which are
    handed out, and where the list node that describes each of them lives. */
module HeapModel {
  const HEADER: nat := 16              // sizeof(MemoryBlockNode) on i386
  const WORD: nat := 0x1_0000_0000     // one more than the largest uint32_t

  /** A list node at address `node` describing the bytes start .. start + size. */
  datatype Block = Block(node: nat, start: nat, size: nat) {
    function End(): nat { start + size }
    predicate Has(x: int) { start <= x < End() }
  }

  /** Both lists, in list order. */
  datatype State = State(free: seq<Block>, used: seq<Block>)

  predicate Apart(a: int, b: int) { a + HEADER <= b || b + HEADER <= a }

  function Without(bs: seq<Block>, i: nat): seq<Block>
    requires i < |bs|
  {
    bs[..i] + bs[i + 1..]
  }

  // ---------------------------------------------------------------- operations

  /** Index of the first block of at least `need` bytes, |free| when there is none. */
  function FirstFit(free: seq<Block>, need: nat): (i: nat)
    ensures i <= |free|
    ensures forall k | 0 <= k < i :: free[k].size < need
    ensures i < |free| ==> need <= free[i].size
  {
    if free == [] || need <= free[0].size then 0 else 1 + FirstFit(free[1..], need)
  }

  /** Cuts `need` bytes off the front of free block i for a new used block. */
  function CarveAt(s: State, i: nat, need: nat): State
    requires i < |s.free| && need <= s.free[i].size
  {
    var f := s.free[i];
    State(s.free[i := Block(f.node, f.start + need, f.size - need)], [Block(f.start, f.start, need)] + s.used)
  }

  /** malloc: the new list contents and the returned pointer (0 is NULL). */
  function Malloc(s: State, n: nat): (State, nat) {
    var need := (n + HEADER) % WORD;
    var i := FirstFit(s.free, need);
    if i == |s.free| then (s, 0) else (CarveAt(s, i, need), s.free[i].start + HEADER)
  }

  /** Index of the used block starting at `offset`, |used| when there is none. */
  function FindUsed(used: seq<Block>, offset: int): (i: nat)
    ensures i <= |used|
    ensures forall k | 0 <= k < i :: used[k].start != offset
    ensures i < |used| ==> used[i].start == offset
  {
    if used == [] || used[0].start == offset then 0 else 1 + FindUsed(used[1..], offset)
  }

  predicate Adjacent(f: Block, b: Block) { f.End() == b.start || b.End() == f.start }

  /** Index of the first free block touching b, |free| when there is none. */
  function Absorber(free: seq<Block>, b: Block): (i: nat)
    ensures i <= |free|
    ensures forall k | 0 <= k < i :: !Adjacent(free[k], b)
    ensures i < |free| ==> Adjacent(free[i], b)
  {
    if free == [] || Adjacent(free[0], b) then 0 else 1 + Absorber(free[1..], b)
  }

  function Absorb(f: Block, b: Block): Block {
    if f.End() == b.start then Block(f.node, f.start, f.size + b.size)
    else Block(f.node, b.start, f.size + b.size)
  }

  /** Used block u leaves the used list and is on neither list for the moment. */
  function Detach(s: State, u: nat): State
    requires u < |s.used|
  {
    State(s.free, Without(s.used, u))
  }

  /** The detached block b joins free block i. */
  function MergeAt(s: State, i: nat, b: Block): State
    requires i < |s.free|
  {
    State(s.free[i := Absorb(s.free[i], b)], s.used)
  }

  /** The detached block b gets a node in a freshly allocated block. When that allocation yields
      NULL the node is written at address 0 and the free list head is set to it, so the whole free
      list is lost. */
  function AddNode(s: State, b: Block): State {
    var (t, p) := Malloc(s, HEADER);
    if p == 0 then State([], t.used) else State([Block(p, b.start, b.size)] + t.free, t.used)
  }

  /** free: merges into the first neighbour in list order, and adds a node when there is none. */
  function Free(s: State, ptr: nat): State {
    var u := FindUsed(s.used, ptr - HEADER);
    if u == |s.used| then s
    else
      var b := s.used[u];
      var i := Absorber(s.free, b);
      if i < |s.free| then MergeAt(Detach(s, u), i, b) else AddNode(Detach(s, u), b)
  }

  /** The release of ptr needs a fresh node and no free block can hold one. */
  predicate Stranded(s: State, ptr: nat) {
    var u := FindUsed(s.used, ptr - HEADER);
    && u < |s.used|
    && Absorber(s.free, s.used[u]) == |s.free|
    && FirstFit(s.free, 2 * HEADER) == |s.free|
  }

  /** mm_initialize on the pool entry (base, length): the size is the 64-bit difference cut to
      32 bits, and `pointer + sizeof` steps over 16 whole structs. */
  function Initialize(base: nat, length: nat): State {
    State([Block(base + 256, base + 512, (length + WORD - (base + 512) % WORD) % WORD)],
          [Block(base, base, HEADER)])
  }

  // ---------------------------------------------------------------- additive measures

  /** Sum over the blocks of a measure f(low, high) of their byte intervals. */
  ghost function Measure(bs: seq<Block>, f: (int, int) -> int): int {
    if bs == [] then 0 else f(bs[0].start, bs[0].End()) + Measure(bs[1..], f)
  }

  ghost predicate Additive(f: (int, int) -> int) {
    forall a, b, c | a <= b <= c :: f(a, b) + f(b, c) == f(a, c)
  }

  ghost function Weight(s: State, f: (int, int) -> int): int {
    Measure(s.free, f) + Measure(s.used, f)
  }

  ghost function Width(): (int, int) -> int { (lo, hi) => hi - lo }

  ghost function Hit(x: int): (int, int) -> int { (lo, hi) => if lo <= x < hi then 1 else 0 }

  /** How many blocks of either list contain byte x. */
  ghost function Cover(s: State, x: int): int { Weight(s, Hit(x)) }

  lemma {:induction false} MeasureUpdate(bs: seq<Block>, i: nat, b: Block, f: (int, int) -> int)
    requires i < |bs|
    ensures Measure(bs[i := b], f)
         == Measure(bs, f) - f(bs[i].start, bs[i].End()) + f(b.start, b.End())
  {
    if i == 0 {
      assert bs[i := b][1..] == bs[1..];
    } else {
      assert bs[i := b][1..] == bs[1..][i - 1 := b];
      MeasureUpdate(bs[1..], i - 1, b, f);
    }
  }

  lemma {:induction false} MeasureWithout(bs: seq<Block>, i: nat, f: (int, int) -> int)
    requires i < |bs|
    ensures Measure(Without(bs, i), f) == Measure(bs, f) - f(bs[i].start, bs[i].End())
  {
    if i == 0 {
      assert Without(bs, i) == bs[1..];
    } else {
      assert Without(bs, i)[1..] == Without(bs[1..], i - 1);
      MeasureWithout(bs[1..], i - 1, f);
    }
  }

  /** malloc moves bytes between the lists and loses none: every additive measure is kept. */
  lemma {:induction false} MallocConserves(s: State, n: nat, f: (int, int) -> int)
    requires Additive(f)
    ensures Weight(Malloc(s, n).0, f) == Weight(s, f)
  {
    var need := (n + HEADER) % WORD;
    var i := FirstFit(s.free, need);
    if i < |s.free| {
      var b := s.free[i];
      MeasureUpdate(s.free, i, Block(b.node, b.start + need, b.size - need), f);
      assert f(b.start, b.start + need) + f(b.start + need, b.End()) == f(b.start, b.End());
      assert ([Block(b.start, b.start, need)] + s.used)[1..] == s.used;
    }
  }

  lemma MergeConserves(s: State, i: nat, b: Block, f: (int, int) -> int)
    requires Additive(f) && i < |s.free| && Adjacent(s.free[i], b)
    ensures Weight(MergeAt(s, i, b), f) == Weight(s, f) + f(b.start, b.End())
  {
    var a := s.free[i];
    MeasureUpdate(s.free, i, Absorb(a, b), f);
    if a.End() == b.start {
      assert f(a.start, a.End()) + f(b.start, b.End()) == f(a.start, b.End());
    } else {
      assert f(b.start, b.End()) + f(a.start, a.End()) == f(b.start, a.End());
    }
  }

  lemma AddNodeConserves(s: State, b: Block, f: (int, int) -> int)
    requires Additive(f) && FirstFit(s.free, 2 * HEADER) < |s.free|
    ensures Weight(AddNode(s, b), f) == Weight(s, f) + f(b.start, b.End())
  {
    MallocConserves(s, HEADER, f);
    var (t, p) := Malloc(s, HEADER);
    assert ([Block(p, b.start, b.size)] + t.free)[1..] == t.free;
  }

  /** free keeps every additive measure, through both merges and the fallback node. */
  lemma FreeConserves(s: State, ptr: nat, f: (int, int) -> int)
    requires Additive(f) && !Stranded(s, ptr)
    ensures Weight(Free(s, ptr), f) == Weight(s, f)
  {
    var u := FindUsed(s.used, ptr - HEADER);
    if u < |s.used| {
      var b := s.used[u];
      MeasureWithout(s.used, u, f);
      var i := Absorber(s.free, b);
      if i < |s.free| {
        MergeConserves(Detach(s, u), i, b, f);
      } else {
        AddNodeConserves(Detach(s, u), b, f);
      }
    }
  }

  lemma WidthAdditive()
    ensures Additive(Width())
  {
  }

  lemma HitAdditive(x: int)
    ensures Additive(Hit(x))
  {
  }

  // ---------------------------------------------------------------- counting hits

  lemma {:induction false} HitsNonNegative(bs: seq<Block>, x: int)
    ensures 0 <= Measure(bs, Hit(x))
  {
    if bs != [] { HitsNonNegative(bs[1..], x); }
  }

  lemma {:induction false} OneHit(bs: seq<Block>, i: nat, x: int)
    requires i < |bs| && bs[i].Has(x)
    ensures 1 <= Measure(bs, Hit(x))
  {
    MeasureWithout(bs, i, Hit(x));
    HitsNonNegative(Without(bs, i), x);
  }

  lemma {:induction false} TwoHits(bs: seq<Block>, i: nat, j: nat, x: int)
    requires i < j < |bs| && bs[i].Has(x) && bs[j].Has(x)
    ensures 2 <= Measure(bs, Hit(x))
  {
    MeasureWithout(bs, i, Hit(x));
    assert Without(bs, i)[j - 1] == bs[j];
    OneHit(Without(bs, i), j - 1, x);
  }
}
