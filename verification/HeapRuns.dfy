/** Whole runs of malloc and free by a client that releases only what it owns. */
module HeapRuns {
  import opened HeapModel
  import opened HeapInvariant

  // ---------------------------------------------------------------- single calls

  function Biggest(free: seq<Block>): nat {
    if free == [] then 0
    else if free[0].size < Biggest(free[1..]) then Biggest(free[1..]) else free[0].size
  }

  lemma {:induction false} FirstFitFindsBiggest(free: seq<Block>, need: nat)
    requires 0 < need
    ensures FirstFit(free, need) < |free| <==> need <= Biggest(free)
  {
    if free != [] { FirstFitFindsBiggest(free[1..], need); }
  }

  /** malloc succeeds exactly when the request and its header fit the biggest free block, and then
      cuts them off the front of the first block in list order that is large enough. */
  lemma {:induction false} MallocSucceedsIff(s: State, n: nat)
    requires n + HEADER < WORD
    ensures Malloc(s, n).1 != 0 <==> n + HEADER <= Biggest(s.free)
    ensures Malloc(s, n).1 != 0 ==>
              exists i | 0 <= i < |s.free| ::
                && (forall k | 0 <= k < i :: s.free[k].size < n + HEADER)
                && s.free[i].start + HEADER == Malloc(s, n).1
                && Malloc(s, n).0.used == [Block(s.free[i].start, s.free[i].start, n + HEADER)] + s.used
  {
    FirstFitFindsBiggest(s.free, n + HEADER);
    if Malloc(s, n).1 != 0 {
      var i := FirstFit(s.free, n + HEADER);
      assert s.free[i].start + HEADER == Malloc(s, n).1;
    }
  }

  /** The request is rounded up with 32-bit addition, so the header lies inside the block that
      malloc carved exactly when that addition does not wrap. */
  lemma HeaderFitsIff(s: State, n: nat)
    requires n < WORD && Malloc(s, n).1 != 0
    ensures HEADER <= Malloc(s, n).0.used[0].size <==> n + HEADER < WORD
  {
    if WORD <= n + HEADER {
      assert (n + HEADER) % WORD == n + HEADER - WORD;
    }
  }

  /** Releasing a block keeps the byte total exactly when the fallback can find its node. */
  lemma FreeConservesIff(s: State, ptr: nat, root: nat, limit: nat)
    requires Inv(s, root, limit)
    ensures Weight(Free(s, ptr), Width()) == Weight(s, Width()) <==> !Stranded(s, ptr)
  {
    if Stranded(s, ptr) {
      var u := FindUsed(s.used, ptr - HEADER);
      MeasureWithout(s.used, u, Width());
      WidthNonNegative(s.free);
      assert UsedOk(s.used[u], limit);
    } else {
      FreeKeepsCover(s, ptr);
    }
  }

  /** What free does to the lists: every byte of the block becomes free, the other used blocks stay,
      and there is one more free block and one more used block, for the node, exactly when the block
      had no free neighbour. */
  lemma FreeReleases(s: State, ptr: nat)
    requires !Stranded(s, ptr) && FindUsed(s.used, ptr - HEADER) < |s.used|
    ensures var u := FindUsed(s.used, ptr - HEADER);
            var b, t := s.used[u], Free(s, ptr);
            && (forall x | b.Has(x) :: exists i | 0 <= i < |t.free| :: t.free[i].Has(x))
            && (if exists i | 0 <= i < |s.free| :: Adjacent(s.free[i], b) then
                  t.used == Without(s.used, u) && |t.free| == |s.free|
                else
                  && |t.used| == |s.used| && t.used[0].size == 2 * HEADER && t.used[1..] == Without(s.used, u)
                  && |t.free| == |s.free| + 1 && t.free[0].node == t.used[0].start + HEADER)
  {
    var u := FindUsed(s.used, ptr - HEADER);
    var b, t := s.used[u], Free(s, ptr);
    var i := Absorber(s.free, b);
    var k := if i < |s.free| then i else 0;
    assert forall x | b.Has(x) :: t.free[k].Has(x);
  }

  predicate Follows(f: Block, g: Block) { f.End() == g.start }

  /** Merging is one-sided: a block released between two free blocks joins the one that comes first in
      the list, and the two stay separate blocks although nothing is between them. */
  lemma OneSidedMerge(s: State, ptr: nat, i: nat, j: nat)
    requires i < |s.free| && j < |s.free| && i != j && FindUsed(s.used, ptr - HEADER) < |s.used|
    requires var b := s.used[FindUsed(s.used, ptr - HEADER)];
             Follows(s.free[i], b) && Follows(b, s.free[j]) &&
             Absorber(s.free, b) == if i < j then i else j
    ensures var t := Free(s, ptr); |t.free| == |s.free| && Follows(t.free[i], t.free[j])
  {
  }

  lemma {:induction false} AbsorberBefore(free: seq<Block>, b: Block, i: nat)
    requires i < |free| && Adjacent(free[i], b)
    ensures Absorber(free, b) <= i
  {
    if i > 0 && !Adjacent(free[0], b) { AbsorberBefore(free[1..], b, i - 1); }
  }

  /** malloc followed at once by free of its result merges the block into some free node, restores
      the used list, and leaves the set of free bytes and both totals as they were. */
  lemma MallocThenFree(s: State, n: nat)
    requires n + HEADER < WORD && Malloc(s, n).1 != 0
    ensures var (t, p) := Malloc(s, n);
            && !Stranded(t, p)
            && Free(t, p).used == s.used
            && |Free(t, p).free| == |s.free|
            && (forall x :: Measure(Free(t, p).free, Hit(x)) == Measure(s.free, Hit(x)))
            && Measure(Free(t, p).free, Width()) == Measure(s.free, Width())
  {
    var (t, p) := Malloc(s, n);
    var i := FirstFit(s.free, n + HEADER);
    assert t.free[i].start == t.used[0].End();
    AbsorberBefore(t.free, t.used[0], i);
    assert Without(t.used, 0) == s.used;
    MallocKeepsCover(s, n);
    FreeKeepsCover(t, p);
    forall x ensures Measure(Free(t, p).free, Hit(x)) == Measure(s.free, Hit(x)) {
      assert Cover(Free(t, p), x) == Cover(s, x);
    }
  }

  // ---------------------------------------------------------------- initial state

  /** The bytes mm_initialize puts on its two lists when the length reaches past them. */
  predicate Pool(base: nat, length: nat, x: int) {
    base <= x < base + HEADER || base + 512 <= x < length
  }

  lemma InitInv(base: nat, length: nat)
    requires HEADER <= base && base + 512 <= length < WORD
    ensures Inv(Initialize(base, length), base + 256, length)
    ensures forall x :: Cover(Initialize(base, length), x) == if Pool(base, length, x) then 1 else 0
  {
    var s := Initialize(base, length);
    assert s.free[0].size == length - (base + 512);
    assert s.free[1..] == [] && s.used[1..] == [];
    forall x ensures Cover(s, x) == if Pool(base, length, x) then 1 else 0 {
      assert Measure(s.free, Hit(x)) == Hit(x)(base + 512, length) + Measure(s.free[1..], Hit(x));
      assert Measure(s.used, Hit(x)) == Hit(x)(base, base + HEADER) + Measure(s.used[1..], Hit(x));
    }
    assert Measure(s.free, Width()) == Width()(base + 512, length) + Measure(s.free[1..], Width());
    assert Measure(s.used, Width()) == Width()(base, base + HEADER) + Measure(s.used[1..], Width());
  }

  /** The size is `length - start` with an absolute start address, so the free block stays inside
      the pool entry it was taken from exactly when the length reaches that address. */
  lemma InitInsidePoolIff(base: nat, length: nat)
    requires 0 < base && base + 512 < WORD && length < WORD
    ensures Initialize(base, length).free[0].End() <= base + length <==> base + 512 <= length
  {
    if length < base + 512 {
      assert (length + WORD - (base + 512)) % WORD == length + WORD - (base + 512);
    } else {
      assert (length + WORD - (base + 512)) % WORD == length - (base + 512);
    }
  }

  // ---------------------------------------------------------------- runs

  /** A request, a release, or a store to the byte at x. */
  datatype Call = Alloc(n: nat) | Release(ptr: nat) | Scribble(x: nat)

  /** The heap together with the pointers the client has received and not yet released. */
  datatype Client = Client(heap: State, live: set<nat>)

  function Step(c: Client, call: Call): Client {
    match call
    case Alloc(n) =>
      var (h, p) := Malloc(c.heap, n);
      Client(h, if p == 0 then c.live else c.live + {p})
    case Release(ptr) => Client(Free(c.heap, ptr), c.live - {ptr})
    case Scribble(_) => c
  }

  /** Byte x lies in the payload of used block u, which the client owns. */
  ghost predicate InPayload(c: Client, u: nat, x: nat) {
    u < |c.heap.used| && c.heap.used[u].start + HEADER in c.live
    && c.heap.used[u].start + HEADER <= x < c.heap.used[u].End()
  }

  /** Requests that do not wrap; releases of owned pointers, or of addresses malloc never gave; stores
      into owned payloads. */
  ghost predicate Legal(c: Client, call: Call) {
    match call
    case Alloc(n) => n + HEADER < WORD
    case Release(ptr) => ptr < WORD && (ptr in c.live || FindUsed(c.heap.used, ptr - HEADER) == |c.heap.used|)
    case Scribble(x) => exists u :: InPayload(c, u, x)
  }

  ghost predicate LegalRun(c: Client, calls: seq<Call>)
    decreases calls
  {
    calls == [] || (Legal(c, calls[0]) && LegalRun(Step(c, calls[0]), calls[1..]))
  }

  function Run(c: Client, calls: seq<Call>): Client
    decreases calls
  {
    if calls == [] then c else Run(Step(c, calls[0]), calls[1..])
  }

  /** Some release of the run has to allocate a node and cannot. */
  predicate EverStranded(c: Client, calls: seq<Call>)
    decreases calls
  {
    calls != [] &&
    ((calls[0].Release? && Stranded(c.heap, calls[0].ptr)) || EverStranded(Step(c, calls[0]), calls[1..]))
  }

  predicate Owns(s: State, i: nat, p: nat)
    requires i < |s.used|
  {
    s.used[i].start + HEADER == p
  }

  /** p is the payload of a used block and carries no list node. */
  ghost predicate Owned(s: State, p: nat) {
    Releasable(s, p) && exists i | 0 <= i < |s.used| :: Owns(s, i, p)
  }

  ghost predicate ClientInv(c: Client, root: nat, limit: nat) {
    Inv(c.heap, root, limit) && forall p | p in c.live :: Owned(c.heap, p)
  }

  lemma FreshOwned(s: State, n: nat, root: nat, limit: nat)
    requires Inv(s, root, limit) && n + HEADER < WORD && Malloc(s, n).1 != 0
    ensures Owned(Malloc(s, n).0, Malloc(s, n).1)
  {
    var (t, p) := Malloc(s, n);
    var i := FirstFit(s.free, n + HEADER);
    assert Owns(t, 0, p);
    forall k | 0 <= k < |t.free| ensures t.free[k].node != p {
      assert FreeOk(s.used, s.free[k], root, limit);
      if s.free[k].node == p {
        if p == root {
          Covered(s, root - HEADER);
        } else {
          var h :| 0 <= h < |s.used| && Hosts(s.used[h], p);
          FreeUsedDisjoint(s, i, h, s.free[i].start);
        }
      }
    }
  }

  lemma MallocKeepsOwned(s: State, n: nat, p: nat)
    requires Owned(s, p)
    ensures Owned(Malloc(s, n).0, p)
  {
    var t := Malloc(s, n).0;
    var i :| 0 <= i < |s.used| && Owns(s, i, p);
    if t != s { assert Owns(t, i + 1, p); }
    forall k | 0 <= k < |t.free| ensures t.free[k].node != p {
      assert s.free[k].node != p;
    }
  }

  lemma UnlinkKeepsOwned(s: State, u: nat, p: nat)
    requires u < |s.used| && Owned(s, p) && s.used[u].start + HEADER != p
    ensures Owned(Detach(s, u), p)
  {
    var rest := Detach(s, u);
    var i :| 0 <= i < |s.used| && Owns(s, i, p);
    assert Owns(rest, if i < u then i else i - 1, p);
  }

  /** A block carved off the free list never shares its payload address with an owned pointer. */
  lemma MallocIsFresh(s: State, n: nat, p: nat, root: nat, limit: nat)
    requires Inv(s, root, limit) && n + HEADER < WORD && Owned(s, p) && Malloc(s, n).1 != 0
    ensures Malloc(s, n).1 != p
  {
    var f := FirstFit(s.free, n + HEADER);
    var w :| 0 <= w < |s.used| && Owns(s, w, p);
    assert UsedOk(s.used[w], limit);
    if Malloc(s, n).1 == p { FreeUsedDisjoint(s, f, w, s.free[f].start); }
  }

  lemma OwnedTransfer(s: State, t: State, p: nat)
    requires Owned(s, p) && t.used == s.used && Releasable(t, p)
    ensures Owned(t, p)
  {
    var i :| 0 <= i < |s.used| && Owns(s, i, p);
    assert Owns(t, i, p);
  }

  lemma FreeKeepsOwned(s: State, ptr: nat, p: nat, root: nat, limit: nat)
    requires Inv(s, root, limit) && Releasable(s, ptr) && Owned(s, p) && p != ptr
    ensures Owned(Free(s, ptr), p)
  {
    var t := Free(s, ptr);
    var u := FindUsed(s.used, ptr - HEADER);
    if u < |s.used| {
      var rest := Detach(s, u);
      UnlinkKeepsOwned(s, u, p);
      var j := Absorber(s.free, s.used[u]);
      if j < |s.free| {
        forall k | 0 <= k < |t.free| ensures t.free[k].node != p { assert s.free[k].node != p; }
        OwnedTransfer(rest, t, p);
      } else {
        UnlinkInv(s, u, root, limit);
        MallocKeepsOwned(rest, HEADER, p);
        var (s1, q) := Malloc(rest, HEADER);
        if q != 0 { MallocIsFresh(rest, HEADER, p, root, limit); }
        forall k | 0 <= k < |t.free| ensures t.free[k].node != p {
          if k > 0 { assert t.free[k] == s1.free[k - 1]; }
        }
        OwnedTransfer(s1, t, p);
      }
    }
  }

  lemma StepKeepsClientInv(c: Client, call: Call, root: nat, limit: nat)
    requires ClientInv(c, root, limit) && Legal(c, call)
    ensures ClientInv(Step(c, call), root, limit)
  {
    match call
    case Alloc(n) =>
      MallocInv(c.heap, n, root, limit);
      var p := Malloc(c.heap, n).1;
      if p != 0 { FreshOwned(c.heap, n, root, limit); }
      forall q | q in c.live ensures Owned(Malloc(c.heap, n).0, q) { MallocKeepsOwned(c.heap, n, q); }
    case Release(ptr) =>
      if ptr in c.live {
        assert Owned(c.heap, ptr);
        FreeInv(c.heap, ptr, root, limit);
        forall q | q in c.live && q != ptr ensures Owned(Free(c.heap, ptr), q) {
          FreeKeepsOwned(c.heap, ptr, q, root, limit);
        }
      }
    case Scribble(_) =>
  }

  lemma {:induction false} RunKeepsClientInv(c: Client, calls: seq<Call>, root: nat, limit: nat)
    requires ClientInv(c, root, limit) && LegalRun(c, calls)
    ensures ClientInv(Run(c, calls), root, limit)
    decreases calls
  {
    if calls != [] {
      StepKeepsClientInv(c, calls[0], root, limit);
      RunKeepsClientInv(Step(c, calls[0]), calls[1..], root, limit);
    }
  }

  lemma {:induction false} RunConserves(c: Client, calls: seq<Call>)
    requires !EverStranded(c, calls)
    ensures forall x :: Cover(Run(c, calls).heap, x) == Cover(c.heap, x)
    ensures Weight(Run(c, calls).heap, Width()) == Weight(c.heap, Width())
    decreases calls
  {
    if calls != [] {
      match calls[0] {
        case Alloc(n) => MallocKeepsCover(c.heap, n);
        case Release(ptr) => FreeKeepsCover(c.heap, ptr);
        case Scribble(_) =>
      }
      RunConserves(Step(c, calls[0]), calls[1..]);
    }
  }

  /** The number of free blocks never falls, so neither does the number of nodes spent on them. */
  lemma {:induction false} RunNeverMerges(c: Client, calls: seq<Call>)
    requires !EverStranded(c, calls)
    ensures |c.heap.free| <= |Run(c, calls).heap.free|
    decreases calls
  {
    if calls != [] { RunNeverMerges(Step(c, calls[0]), calls[1..]); }
  }

  /** No call adds to a measure that is never negative, even when it strands a block. */
  lemma StepNeverGains(c: Client, call: Call, f: (int, int) -> int)
    requires Additive(f) && forall a, b | a <= b :: 0 <= f(a, b)
    ensures Weight(Step(c, call).heap, f) <= Weight(c.heap, f)
  {
    match call
    case Alloc(n) => MallocConserves(c.heap, n, f);
    case Release(ptr) =>
      if Stranded(c.heap, ptr) {
        var u := FindUsed(c.heap.used, ptr - HEADER);
        MeasureWithout(c.heap.used, u, f);
        MeasureNonNegative(c.heap.free, f);
        assert c.heap.used[u].start <= c.heap.used[u].End();
      } else {
        FreeConserves(c.heap, ptr, f);
      }
    case Scribble(_) =>
  }

  lemma {:induction false} MeasureNonNegative(bs: seq<Block>, f: (int, int) -> int)
    requires forall a, b | a <= b :: 0 <= f(a, b)
    ensures 0 <= Measure(bs, f)
  {
    if bs != [] {
      MeasureNonNegative(bs[1..], f);
      assert bs[0].start <= bs[0].End();
    }
  }

  lemma {:induction false} RunNeverGains(c: Client, calls: seq<Call>, f: (int, int) -> int)
    requires Additive(f) && forall a, b | a <= b :: 0 <= f(a, b)
    ensures Weight(Run(c, calls).heap, f) <= Weight(c.heap, f)
    decreases calls
  {
    if calls != [] {
      StepNeverGains(c, calls[0], f);
      RunNeverGains(Step(c, calls[0]), calls[1..], f);
    }
  }

  /** Stranding a block loses bytes, among them the first of the block. */
  lemma StrandedLoses(s: State, ptr: nat, root: nat, limit: nat) returns (x: int)
    requires Inv(s, root, limit) && Stranded(s, ptr)
    ensures Weight(Free(s, ptr), Width()) < Weight(s, Width())
    ensures Cover(Free(s, ptr), x) < Cover(s, x)
  {
    var u := FindUsed(s.used, ptr - HEADER);
    assert UsedOk(s.used[u], limit);
    x := s.used[u].start;
    MeasureWithout(s.used, u, Width());
    MeasureWithout(s.used, u, Hit(x));
    WidthNonNegative(s.free);
    HitsNonNegative(s.free, x);
  }

  lemma {:induction false} StrandedRunLoses(c: Client, calls: seq<Call>, root: nat, limit: nat) returns (x: int)
    requires ClientInv(c, root, limit) && LegalRun(c, calls) && EverStranded(c, calls)
    ensures Weight(Run(c, calls).heap, Width()) < Weight(c.heap, Width())
    ensures Cover(Run(c, calls).heap, x) < Cover(c.heap, x)
    decreases calls
  {
    var d := Step(c, calls[0]);
    WidthAdditive();
    if calls[0].Release? && Stranded(c.heap, calls[0].ptr) {
      x := StrandedLoses(c.heap, calls[0].ptr, root, limit);
      RunNeverGains(d, calls[1..], Width());
    } else {
      StepKeepsClientInv(c, calls[0], root, limit);
      StepNeverGains(c, calls[0], Width());
      x := StrandedRunLoses(d, calls[1..], root, limit);
      HitAdditive(x);
      StepNeverGains(c, calls[0], Hit(x));
      return;
    }
    HitAdditive(x);
    RunNeverGains(d, calls[1..], Hit(x));
  }

  /** No legal run gains bytes; and it keeps every byte, or the number of bytes, exactly when none of its
      releases needs a node that cannot be allocated. */
  lemma RunConservesIff(c: Client, calls: seq<Call>, root: nat, limit: nat)
    requires ClientInv(c, root, limit) && LegalRun(c, calls)
    ensures Weight(Run(c, calls).heap, Width()) <= Weight(c.heap, Width())
    ensures Weight(Run(c, calls).heap, Width()) == Weight(c.heap, Width()) <==> !EverStranded(c, calls)
    ensures (forall x :: Cover(Run(c, calls).heap, x) == Cover(c.heap, x)) <==> !EverStranded(c, calls)
  {
    if EverStranded(c, calls) {
      var x := StrandedRunLoses(c, calls, root, limit);
    } else {
      RunConserves(c, calls);
    }
  }

  /** The heap after two requests of 16 bytes in a pool with room for nothing else. */
  function Tight(): Client {
    Client(State([Block(0x10_0100, 0x10_0240, 0)],
                 [Block(0x10_0220, 0x10_0220, 32), Block(0x10_0200, 0x10_0200, 32), Block(0x10_0000, 0x10_0000, 16)]),
           {0x10_0210, 0x10_0230})
  }

  lemma ReachTight()
    ensures Step(Step(Client(Initialize(0x10_0000, 0x10_0000 + 576), {}), Alloc(16)), Alloc(16)) == Tight()
  {
    var d := Step(Client(Initialize(0x10_0000, 0x10_0000 + 576), {}), Alloc(16));
    assert d == Client(State([Block(0x10_0100, 0x10_0220, 32)],
                             [Block(0x10_0200, 0x10_0200, 32), Block(0x10_0000, 0x10_0000, 16)]), {0x10_0210});
    assert Step(d, Alloc(16)).live == Tight().live;
  }

  lemma TightIsStranded()
    ensures Stranded(Tight().heap, 0x10_0210) && Legal(Tight(), Release(0x10_0210))
    ensures Step(Tight(), Release(0x10_0210)).heap
         == State([], [Block(0x10_0220, 0x10_0220, 32), Block(0x10_0000, 0x10_0000, 16)])
  {
    var s := Tight().heap;
    assert s.used[1..][0] == s.used[1] && s.free[1..] == [];
    assert FindUsed(s.used, 0x10_0200) == 1 && FirstFit(s.free, 32) == 1;
  }

  /** A client can get there: releasing the first of the two blocks needs a node, and there is no room
      for one. The block is lost, and the free list with it. */
  lemma StrandingIsReachable()
    ensures var c := Client(Initialize(0x10_0000, 0x10_0000 + 576), {});
            var calls := [Alloc(16)] + ([Alloc(16)] + ([Release(0x10_0210)] + []));
            LegalRun(c, calls) && EverStranded(c, calls) && Run(c, calls).heap.free == []
  {
    var c := Client(Initialize(0x10_0000, 0x10_0000 + 576), {});
    var last: seq<Call> := [Release(0x10_0210)] + [];
    var two := [Alloc(16)] + last;
    var three := [Alloc(16)] + two;
    ReachTight();
    TightIsStranded();
    assert last[1..] == [] && two[1..] == last && three[1..] == two;
    assert LegalRun(Tight(), last) && EverStranded(Tight(), last) && Run(Tight(), last).heap.free == [];
    var d := Step(c, Alloc(16));
    assert LegalRun(d, two) && EverStranded(d, two) && Run(d, two) == Run(Tight(), last);
  }

  /** Byte x of a payload belongs to one block only, and no list node covers it. */
  ghost predicate PayloadByteSafe(s: State, u: nat, x: int)
    requires u < |s.used|
  {
    && (forall j | 0 <= j < |s.used| && j != u :: !s.used[j].Has(x))
    && (forall j | 0 <= j < |s.free| :: !s.free[j].Has(x))
    && (forall j | 0 <= j < |s.used| :: !(s.used[j].node <= x < s.used[j].node + HEADER))
    && (forall j | 0 <= j < |s.free| :: !(s.free[j].node <= x < s.free[j].node + HEADER))
  }

  lemma PayloadSafe(s: State, u: nat, x: int, root: nat, limit: nat)
    requires Inv(s, root, limit) && u < |s.used| && Releasable(s, s.used[u].start + HEADER)
    requires s.used[u].start + HEADER <= x < s.used[u].End()
    ensures PayloadByteSafe(s, u, x)
  {
    forall j | 0 <= j < |s.used| && j != u ensures !s.used[j].Has(x) {
      if s.used[j].Has(x) { UsedDisjoint(s, u, j, x); }
    }
    forall j | 0 <= j < |s.free| ensures !s.free[j].Has(x) {
      if s.free[j].Has(x) { FreeUsedDisjoint(s, j, u, x); }
    }
    assert forall j | 0 <= j < |s.used| :: UsedOk(s.used[j], limit);
    forall j | 0 <= j < |s.free| ensures !(s.free[j].node <= x < s.free[j].node + HEADER) {
      if s.free[j].node <= x < s.free[j].node + HEADER {
        assert FreeOk(s.used, s.free[j], root, limit);
        if s.free[j].node == root { Covered(s, x); }
      }
    }
  }

  /** Every byte of every live payload is safe after every legal run from initialisation: it lies
      in exactly one block, and in no list node. */
  lemma RunSafe(base: nat, length: nat, calls: seq<Call>, p: nat)
    requires HEADER <= base && base + 512 <= length < WORD
    requires LegalRun(Client(Initialize(base, length), {}), calls)
    requires p in Run(Client(Initialize(base, length), {}), calls).live
    ensures var s := Run(Client(Initialize(base, length), {}), calls).heap;
            exists u | 0 <= u < |s.used| :: Owns(s, u, p) &&
              forall x | p <= x < s.used[u].End() :: PayloadByteSafe(s, u, x)
  {
    InitInv(base, length);
    var c := Run(Client(Initialize(base, length), {}), calls);
    RunKeepsClientInv(Client(Initialize(base, length), {}), calls, base + 256, length);
    assert Owned(c.heap, p);
    var u :| 0 <= u < |c.heap.used| && Owns(c.heap, u, p);
    forall x | p <= x < c.heap.used[u].End() ensures PayloadByteSafe(c.heap, u, x) {
      PayloadSafe(c.heap, u, x, base + 256, length);
    }
  }

  lemma MallocKeepsBlock(s: State, n: nat, b: Block)
    requires b in s.used
    ensures b in Malloc(s, n).0.used
  {
  }

  lemma FreeKeepsBlock(s: State, ptr: nat, b: Block)
    requires b in s.used && ptr != b.start + HEADER
    ensures b in Free(s, ptr).used
  {
    var v := FindUsed(s.used, ptr - HEADER);
    if v < |s.used| {
      var u :| 0 <= u < |s.used| && s.used[u] == b;
      assert Without(s.used, v)[if u < v then u else u - 1] == b;
      MallocKeepsBlock(Detach(s, v), HEADER, b);
    }
  }

  /** A used block stays as it is until the call that releases it. */
  lemma {:induction false} RunKeepsBlock(c: Client, calls: seq<Call>, b: Block)
    requires b in c.heap.used && forall k | 0 <= k < |calls| :: calls[k] != Release(b.start + HEADER)
    ensures b in Run(c, calls).heap.used
    decreases calls
  {
    if calls != [] {
      match calls[0] {
        case Alloc(n) => MallocKeepsBlock(c.heap, n, b);
        case Release(ptr) => FreeKeepsBlock(c.heap, ptr, b);
        case Scribble(_) =>
      }
      RunKeepsBlock(Step(c, calls[0]), calls[1..], b);
    }
  }

  lemma {:induction false} RunKeepsLive(c: Client, calls: seq<Call>, p: nat)
    requires p in c.live && forall k | 0 <= k < |calls| :: calls[k] != Release(p)
    ensures p in Run(c, calls).live
    decreases calls
  {
    if calls != [] { RunKeepsLive(Step(c, calls[0]), calls[1..], p); }
  }

  lemma {:induction false} RunConcat(c: Client, a: seq<Call>, b: seq<Call>)
    ensures Run(c, a + b) == Run(Run(c, a), b)
    decreases a
  {
    if a == [] {
      assert a + b == b;
    } else {
      assert (a + b)[1..] == a[1..] + b;
      RunConcat(Step(c, a[0]), a[1..], b);
    }
  }

  /** As intervals of bytes; a used-up free block has none. */
  predicate Separate(a: Block, b: Block) {
    a.size == 0 || b.size == 0 || a.End() <= b.start || b.End() <= a.start
  }

  /** A byte of both. */
  function Shared(a: Block, b: Block): (x: nat)
    ensures !Separate(a, b) ==> a.Has(x) && b.Has(x)
  {
    if a.start <= b.start then b.start else a.start
  }

  /** No two blocks of the heap share a byte, within a list or across the lists. */
  ghost predicate AllSeparate(s: State) {
    && (forall i, j | 0 <= i < j < |s.free| :: Separate(s.free[i], s.free[j]))
    && (forall i, j | 0 <= i < j < |s.used| :: Separate(s.used[i], s.used[j]))
    && (forall i, j | 0 <= i < |s.free| && 0 <= j < |s.used| :: Separate(s.free[i], s.used[j]))
  }

  lemma InvSeparates(s: State, root: nat, limit: nat)
    requires Inv(s, root, limit)
    ensures AllSeparate(s)
  {
    forall i, j | 0 <= i < j < |s.free| ensures Separate(s.free[i], s.free[j]) {
      if !Separate(s.free[i], s.free[j]) { FreeDisjoint(s, i, j, Shared(s.free[i], s.free[j])); }
    }
    forall i, j | 0 <= i < j < |s.used| ensures Separate(s.used[i], s.used[j]) {
      if !Separate(s.used[i], s.used[j]) { UsedDisjoint(s, i, j, Shared(s.used[i], s.used[j])); }
    }
    forall i, j | 0 <= i < |s.free| && 0 <= j < |s.used| ensures Separate(s.free[i], s.used[j]) {
      if !Separate(s.free[i], s.used[j]) { FreeUsedDisjoint(s, i, j, Shared(s.free[i], s.used[j])); }
    }
  }

  /** After every legal run, stranded or not, all blocks of both lists are pairwise separate. */
  lemma RunSeparates(base: nat, length: nat, calls: seq<Call>)
    requires HEADER <= base && base + 512 <= length < WORD
    requires LegalRun(Client(Initialize(base, length), {}), calls)
    ensures AllSeparate(Run(Client(Initialize(base, length), {}), calls).heap)
  {
    InitInv(base, length);
    RunKeepsClientInv(Client(Initialize(base, length), {}), calls, base + 256, length);
    InvSeparates(Run(Client(Initialize(base, length), {}), calls).heap, base + 256, length);
  }

  /** Two used blocks never start at the same address. */
  lemma StartIsUnique(s: State, root: nat, limit: nat, u: nat, v: nat)
    requires Inv(s, root, limit) && u < |s.used| && v < |s.used| && s.used[u].start == s.used[v].start
    ensures u == v
  {
    if u != v {
      assert UsedOk(s.used[u], limit) && UsedOk(s.used[v], limit);
      UsedDisjoint(s, u, v, s.used[u].start);
    }
  }

  /** The block that malloc carves is still on the used list at the end of a run that does not
      release it. */
  lemma AllocationStays(c: Client, before: seq<Call>, n: nat, after: seq<Call>, p: nat)
    requires p == Malloc(Run(c, before).heap, n).1 != 0 && n + HEADER < WORD
    requires forall k | 0 <= k < |after| :: after[k] != Release(p)
    ensures var d := Run(c, before + [Alloc(n)] + after);
            Block(p - HEADER, p - HEADER, n + HEADER) in d.heap.used && p in d.live
  {
    var d := Step(Run(c, before), Alloc(n));
    MallocSucceedsIff(Run(c, before).heap, n);
    assert d.heap.used[0] == Block(p - HEADER, p - HEADER, n + HEADER);
    RunConcat(c, before + [Alloc(n)], after);
    RunConcat(c, before, [Alloc(n)]);
    assert Run(Run(c, before), [Alloc(n)]) == Run(d, []) == d;
    RunKeepsBlock(d, after, d.heap.used[0]);
    RunKeepsLive(d, after, p);
  }

  /** The promise of malloc over a whole run: from the call that returned p for n bytes until p is
      released, the n bytes from p are in one block, which no other block and no list node meets,
      whatever else is requested, released and stored meanwhile. */
  lemma AllocationLasts(base: nat, length: nat, before: seq<Call>, n: nat, after: seq<Call>, p: nat)
    requires HEADER <= base && base + 512 <= length < WORD
    requires LegalRun(Client(Initialize(base, length), {}), before + [Alloc(n)] + after)
    requires p == Malloc(Run(Client(Initialize(base, length), {}), before).heap, n).1 != 0 && n + HEADER < WORD
    requires forall k | 0 <= k < |after| :: after[k] != Release(p)
    ensures var s := Run(Client(Initialize(base, length), {}), before + [Alloc(n)] + after).heap;
            exists u | 0 <= u < |s.used| ::
              && s.used[u] == Block(p - HEADER, p - HEADER, n + HEADER)
              && forall x | p <= x < p + n :: PayloadByteSafe(s, u, x)
  {
    var calls := before + [Alloc(n)] + after;
    AllocationStays(Client(Initialize(base, length), {}), before, n, after, p);
    RunSafe(base, length, calls, p);
    InitInv(base, length);
    RunKeepsClientInv(Client(Initialize(base, length), {}), calls, base + 256, length);
    var s := Run(Client(Initialize(base, length), {}), calls).heap;
    var u :| 0 <= u < |s.used| && Owns(s, u, p) && forall x | p <= x < s.used[u].End() :: PayloadByteSafe(s, u, x);
    var v :| 0 <= v < |s.used| && s.used[v] == Block(p - HEADER, p - HEADER, n + HEADER);
    StartIsUnique(s, base + 256, length, u, v);
  }

  /** The blocks of both lists tile exactly the bytes of the pool in every state of every run that
      never strands a block, and the two reported totals always add up to the pool. */
  lemma RunTilesPool(base: nat, length: nat, calls: seq<Call>)
    requires HEADER <= base && base + 512 <= length < WORD
    requires !EverStranded(Client(Initialize(base, length), {}), calls)
    ensures var s := Run(Client(Initialize(base, length), {}), calls).heap;
            && (forall x :: Cover(s, x) == if Pool(base, length, x) then 1 else 0)
            && Measure(s.free, Width()) + Measure(s.used, Width()) == length - base - 512 + HEADER
  {
    InitInv(base, length);
    PoolSize(base, length);
    RunConserves(Client(Initialize(base, length), {}), calls);
  }

  /** A legal run tiles the pool, and its totals add up to the pool, exactly when it has stranded no
      block; otherwise bytes are missing. */
  lemma RunTilesPoolIff(base: nat, length: nat, calls: seq<Call>)
    requires HEADER <= base && base + 512 <= length < WORD
    requires LegalRun(Client(Initialize(base, length), {}), calls)
    ensures var c := Client(Initialize(base, length), {});
            var s, size := Run(c, calls).heap, length - base - 512 + HEADER;
            var total := Measure(s.free, Width()) + Measure(s.used, Width());
            && total <= size
            && (total == size <==> !EverStranded(c, calls))
            && ((forall x :: Cover(s, x) == if Pool(base, length, x) then 1 else 0) <==> !EverStranded(c, calls))
  {
    var c := Client(Initialize(base, length), {});
    InitInv(base, length);
    PoolSize(base, length);
    RunConservesIff(c, calls, base + 256, length);
    if EverStranded(c, calls) {
      var x := StrandedRunLoses(c, calls, base + 256, length);
    } else {
      RunTilesPool(base, length, calls);
    }
  }

  lemma PoolSize(base: nat, length: nat)
    requires HEADER <= base && base + 512 <= length < WORD
    ensures Weight(Initialize(base, length), Width()) == length - base - 512 + HEADER
  {
    var s := Initialize(base, length);
    assert s.free[0].size == length - (base + 512);
    assert s.free[1..] == [] && s.used[1..] == [];
    assert Measure(s.free, Width()) == Width()(base + 512, length) + Measure(s.free[1..], Width());
    assert Measure(s.used, Width()) == Width()(base, base + HEADER) + Measure(s.used[1..], Width());
  }
}
