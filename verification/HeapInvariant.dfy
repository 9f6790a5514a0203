/** What every malloc and free keeps: the blocks are disjoint, and no list node lies in bytes that
    belong to anyone else. */
module HeapInvariant {
  import opened HeapModel

  /** A free-list node sits in the payload of a used block of its own. */
  predicate Hosts(h: Block, a: nat) { h.start + HEADER == a && 2 * HEADER <= h.size }

  ghost predicate Hosted(used: seq<Block>, a: nat) {
    exists i | 0 <= i < |used| :: Hosts(used[i], a)
  }

  ghost predicate UsedOk(b: Block, limit: nat) {
    HEADER <= b.start && b.End() <= limit && b.node == b.start && HEADER <= b.size
  }

  ghost predicate FreeOk(used: seq<Block>, b: Block, root: nat, limit: nat) {
    HEADER <= b.start && b.End() <= limit && (b.node == root || Hosted(used, b.node))
  }

  /** No byte lies in two blocks, and no block comes within 16 bytes of the node at root. */
  ghost predicate Counted(s: State, root: nat) {
    && (forall x :: Cover(s, x) <= 1)
    && (forall x | root - HEADER <= x < root + HEADER :: Cover(s, x) == 0)
    && Weight(s, Width()) < WORD
  }

  /** root is the address of the first free-list node, limit the end of the pool. */
  ghost predicate Inv(s: State, root: nat, limit: nat) {
    && HEADER <= root && limit < WORD
    && (forall i {:trigger UsedOk(s.used[i], limit)} | 0 <= i < |s.used| :: UsedOk(s.used[i], limit))
    && (forall i {:trigger FreeOk(s.used, s.free[i], root, limit)} | 0 <= i < |s.free| ::
          FreeOk(s.used, s.free[i], root, limit))
    && (forall i, j | 0 <= i < j < |s.free| :: s.free[i].node != s.free[j].node)
    && Counted(s, root)
  }

  // ---------------------------------------------------------------- separation from counting

  lemma FreeUsedDisjoint(s: State, i: nat, j: nat, x: int)
    requires i < |s.free| && j < |s.used| && s.free[i].Has(x) && s.used[j].Has(x)
    ensures 2 <= Cover(s, x)
  {
    OneHit(s.free, i, x);
    OneHit(s.used, j, x);
  }

  lemma UsedDisjoint(s: State, i: nat, j: nat, x: int)
    requires i < |s.used| && j < |s.used| && i != j && s.used[i].Has(x) && s.used[j].Has(x)
    ensures 2 <= Cover(s, x)
  {
    TwoHits(s.used, if i < j then i else j, if i < j then j else i, x);
    HitsNonNegative(s.free, x);
  }

  lemma FreeDisjoint(s: State, i: nat, j: nat, x: int)
    requires i < |s.free| && j < |s.free| && i != j && s.free[i].Has(x) && s.free[j].Has(x)
    ensures 2 <= Cover(s, x)
  {
    TwoHits(s.free, if i < j then i else j, if i < j then j else i, x);
    HitsNonNegative(s.used, x);
  }

  lemma Covered(s: State, x: int)
    ensures forall i | 0 <= i < |s.free| && s.free[i].Has(x) :: 1 <= Cover(s, x)
    ensures forall i | 0 <= i < |s.used| && s.used[i].Has(x) :: 1 <= Cover(s, x)
  {
    HitsNonNegative(s.free, x);
    HitsNonNegative(s.used, x);
    forall i | 0 <= i < |s.free| && s.free[i].Has(x) ensures 1 <= Cover(s, x) { OneHit(s.free, i, x); }
    forall i | 0 <= i < |s.used| && s.used[i].Has(x) ensures 1 <= Cover(s, x) { OneHit(s.used, i, x); }
  }

  /** The node address a is apart from every node of the list. */
  ghost predicate Clear(bs: seq<Block>, a: nat) {
    forall i | 0 <= i < |bs| :: Apart(a, bs[i].node)
  }

  /** The nodes of one list are apart from each other. */
  ghost predicate Spread(bs: seq<Block>) {
    forall i, j | 0 <= i < |bs| && 0 <= j < |bs| && i != j :: Apart(bs[i].node, bs[j].node)
  }

  /** Sixteen bytes inside used block u are apart from every other used node and from every
      free-list node that u does not host. */
  lemma UsedArea(s: State, root: nat, limit: nat, u: nat, a: nat)
    requires Inv(s, root, limit) && u < |s.used|
    requires s.used[u].start <= a && a + HEADER <= s.used[u].End()
    ensures forall j | 0 <= j < |s.used| && j != u :: Apart(a, s.used[j].node)
    ensures forall j | 0 <= j < |s.free| :: Apart(a, s.free[j].node) || Hosts(s.used[u], s.free[j].node)
  {
    forall j | 0 <= j < |s.used| && j != u ensures Apart(a, s.used[j].node) {
      assert UsedOk(s.used[j], limit);
      if !Apart(a, s.used[j].node) {
        UsedDisjoint(s, u, j, if a < s.used[j].node then s.used[j].node else a);
      }
    }
    forall j | 0 <= j < |s.free| && !Hosts(s.used[u], s.free[j].node) ensures Apart(a, s.free[j].node) {
      var node := s.free[j].node;
      var x := if a < node then node else a;
      if !Apart(a, node) {
        assert FreeOk(s.used, s.free[j], root, limit);
        if node == root {
          Covered(s, x);
        } else {
          var h :| 0 <= h < |s.used| && Hosts(s.used[h], node);
          UsedDisjoint(s, u, h, x);
        }
      }
    }
  }

  /** Sixteen bytes inside a free block are apart from every list node. */
  lemma FreeArea(s: State, root: nat, limit: nat, i: nat, a: nat)
    requires Inv(s, root, limit) && i < |s.free|
    requires s.free[i].start <= a && a + HEADER <= s.free[i].End()
    ensures Clear(s.used, a) && Clear(s.free, a)
  {
    forall j | 0 <= j < |s.used| ensures Apart(a, s.used[j].node) {
      assert UsedOk(s.used[j], limit);
      if !Apart(a, s.used[j].node) {
        FreeUsedDisjoint(s, i, j, if a < s.used[j].node then s.used[j].node else a);
      }
    }
    forall j | 0 <= j < |s.free| ensures Apart(a, s.free[j].node) {
      var node := s.free[j].node;
      var x := if a < node then node else a;
      if !Apart(a, node) {
        assert FreeOk(s.used, s.free[j], root, limit);
        if node == root {
          Covered(s, x);
        } else {
          var h :| 0 <= h < |s.used| && Hosts(s.used[h], node);
          FreeUsedDisjoint(s, i, h, x);
        }
      }
    }
  }

  /** All list nodes are apart from each other. */
  lemma NodesApart(s: State, root: nat, limit: nat)
    requires Inv(s, root, limit)
    ensures Spread(s.used) && Spread(s.free)
    ensures forall i | 0 <= i < |s.free| :: Clear(s.used, s.free[i].node)
    ensures forall j | 0 <= j < |s.used| :: Clear(s.free, s.used[j].node)
  {
    forall j | 0 <= j < |s.used|
      ensures Clear(s.free, s.used[j].node)
      ensures forall k | 0 <= k < |s.used| && k != j :: Apart(s.used[j].node, s.used[k].node)
    {
      assert UsedOk(s.used[j], limit);
      UsedArea(s, root, limit, j, s.used[j].node);
    }
    forall i, j | 0 <= i < |s.free| && 0 <= j < |s.used| ensures Apart(s.free[i].node, s.used[j].node) {
      assert Clear(s.free, s.used[j].node);
    }
    forall i, j | 0 <= i < |s.free| && 0 <= j < |s.free| && i != j
      ensures Apart(s.free[i].node, s.free[j].node)
    {
      FreeNodesApart(s, root, limit, i, j);
    }
  }

  lemma FreeNodesApart(s: State, root: nat, limit: nat, i: nat, j: nat)
    requires Inv(s, root, limit) && i < |s.free| && j < |s.free| && i != j
    ensures Apart(s.free[i].node, s.free[j].node)
  {
    var a, b := s.free[i].node, s.free[j].node;
    assert a != b;
    assert FreeOk(s.used, s.free[i], root, limit) && FreeOk(s.used, s.free[j], root, limit);
    var h :| 0 <= h < |s.used| && Hosts(s.used[h], if a != root then a else b);
    UsedArea(s, root, limit, h, if a != root then a else b);
  }

  // ---------------------------------------------------------------- preservation

  lemma MallocKeepsCover(s: State, n: nat)
    ensures forall x :: Cover(Malloc(s, n).0, x) == Cover(s, x)
    ensures Weight(Malloc(s, n).0, Width()) == Weight(s, Width())
  {
    forall x ensures Cover(Malloc(s, n).0, x) == Cover(s, x) {
      HitAdditive(x);
      MallocConserves(s, n, Hit(x));
    }
    WidthAdditive();
    MallocConserves(s, n, Width());
  }

  lemma FreeKeepsCover(s: State, ptr: nat)
    requires !Stranded(s, ptr)
    ensures forall x :: Cover(Free(s, ptr), x) == Cover(s, x)
    ensures Weight(Free(s, ptr), Width()) == Weight(s, Width())
  {
    forall x ensures Cover(Free(s, ptr), x) == Cover(s, x) {
      HitAdditive(x);
      FreeConserves(s, ptr, Hit(x));
    }
    WidthAdditive();
    FreeConserves(s, ptr, Width());
  }

  lemma HostedGrows(used: seq<Block>, b: Block, a: nat)
    requires Hosted(used, a)
    ensures Hosted([b] + used, a)
  {
    var i :| 0 <= i < |used| && Hosts(used[i], a);
    assert ([b] + used)[i + 1] == used[i];
  }

  lemma HostedShrinks(used: seq<Block>, u: nat, a: nat)
    requires Hosted(used, a) && u < |used| && !Hosts(used[u], a)
    ensures Hosted(Without(used, u), a)
  {
    var i :| 0 <= i < |used| && Hosts(used[i], a);
    assert Without(used, u)[if i < u then i else i - 1] == used[i];
  }

  lemma CarveInv(s: State, i: nat, need: nat, root: nat, limit: nat)
    requires Inv(s, root, limit) && i < |s.free| && HEADER <= need <= s.free[i].size
    requires Counted(CarveAt(s, i, need), root)
    ensures Inv(CarveAt(s, i, need), root, limit)
  {
    var t := CarveAt(s, i, need);
    assert FreeOk(s.used, s.free[i], root, limit);
    forall k | 0 <= k < |t.used| ensures UsedOk(t.used[k], limit) {
      if k > 0 { assert UsedOk(s.used[k - 1], limit); }
    }
    forall k | 0 <= k < |t.free| ensures FreeOk(t.used, t.free[k], root, limit) {
      assert FreeOk(s.used, s.free[k], root, limit);
      if s.free[k].node != root { HostedGrows(s.used, t.used[0], s.free[k].node); }
    }
  }

  /** malloc keeps the invariant for every request whose header does not wrap. */
  lemma MallocInv(s: State, n: nat, root: nat, limit: nat)
    requires Inv(s, root, limit) && n + HEADER < WORD
    ensures Inv(Malloc(s, n).0, root, limit)
  {
    MallocKeepsCover(s, n);
    assert Counted(Malloc(s, n).0, root);
    var i := FirstFit(s.free, n + HEADER);
    if i < |s.free| { CarveInv(s, i, n + HEADER, root, limit); }
  }

  /** Only pointers that carry no free-list node may be released. */
  ghost predicate Releasable(s: State, ptr: nat) {
    forall k | 0 <= k < |s.free| :: s.free[k].node != ptr
  }

  /** Dropping used block u from the books keeps the invariant, unless it hosts a free-list node. */
  lemma UnlinkInv(s: State, u: nat, root: nat, limit: nat)
    requires Inv(s, root, limit) && u < |s.used| && Releasable(s, s.used[u].start + HEADER)
    ensures Inv(Detach(s, u), root, limit)
    ensures forall x | s.used[u].Has(x) :: Cover(Detach(s, u), x) == 0
  {
    var t := Detach(s, u);
    forall x ensures Cover(t, x) == Cover(s, x) - (if s.used[u].Has(x) then 1 else 0) && 0 <= Cover(t, x) {
      MeasureWithout(s.used, u, Hit(x));
      HitsNonNegative(t.free, x);
      HitsNonNegative(t.used, x);
    }
    MeasureWithout(s.used, u, Width());
    assert UsedOk(s.used[u], limit);
    forall k | 0 <= k < |t.used| ensures UsedOk(t.used[k], limit) {
      assert UsedOk(s.used[if k < u then k else k + 1], limit);
    }
    forall k | 0 <= k < |t.free| ensures FreeOk(t.used, t.free[k], root, limit) {
      assert FreeOk(s.used, s.free[k], root, limit);
      if s.free[k].node != root { HostedShrinks(s.used, u, s.free[k].node); }
    }
  }

  /** Merging the detached block b into its free neighbour i. */
  lemma MergeInv(s: State, i: nat, b: Block, root: nat, limit: nat)
    requires Inv(s, root, limit) && UsedOk(b, limit) && i < |s.free| && Adjacent(s.free[i], b)
    requires Counted(MergeAt(s, i, b), root)
    ensures Inv(MergeAt(s, i, b), root, limit)
  {
    var t := MergeAt(s, i, b);
    forall k | 0 <= k < |t.used| ensures UsedOk(t.used[k], limit) {
      assert UsedOk(s.used[k], limit);
    }
    forall k | 0 <= k < |t.free| ensures FreeOk(t.used, t.free[k], root, limit) {
      assert FreeOk(s.used, s.free[k], root, limit);
    }
  }

  /** Losing the whole free list removes bytes and adds none. */
  lemma StrandedInv(s: State, root: nat, limit: nat)
    requires Inv(s, root, limit)
    ensures Inv(State([], s.used), root, limit)
  {
    var t := State([], s.used);
    forall x ensures 0 <= Cover(t, x) <= Cover(s, x) {
      HitsNonNegative(s.free, x);
      HitsNonNegative(s.used, x);
    }
    WidthNonNegative(s.free);
    forall k | 0 <= k < |t.used| ensures UsedOk(t.used[k], limit) {
      assert UsedOk(s.used[k], limit);
    }
  }

  lemma {:induction false} WidthNonNegative(bs: seq<Block>)
    ensures 0 <= Measure(bs, Width())
  {
    if bs != [] { WidthNonNegative(bs[1..]); }
  }

  /** Describing the detached block b with a node in a freshly allocated block. */
  lemma AddNodeInv(s: State, b: Block, root: nat, limit: nat)
    requires Inv(s, root, limit) && UsedOk(b, limit) && FirstFit(s.free, 2 * HEADER) < |s.free|
    requires Counted(AddNode(s, b), root)
    ensures Inv(AddNode(s, b), root, limit)
  {
    MallocInv(s, HEADER, root, limit);
    var (s1, p) := Malloc(s, HEADER);
    var t := AddNode(s, b);
    FreeArea(s, root, limit, FirstFit(s.free, 2 * HEADER), p);
    forall k | 0 <= k < |t.used| ensures UsedOk(t.used[k], limit) {
      assert UsedOk(s1.used[k], limit);
    }
    forall k | 0 <= k < |t.free| ensures FreeOk(t.used, t.free[k], root, limit) {
      if k == 0 {
        assert Hosts(t.used[0], p);
      } else {
        assert FreeOk(s1.used, s1.free[k - 1], root, limit);
      }
    }
    assert forall k | 0 <= k < |s1.free| :: s1.free[k].node == s.free[k].node;
  }

  /** free keeps the invariant, even when it strands the block. */
  lemma FreeInv(s: State, ptr: nat, root: nat, limit: nat)
    requires Inv(s, root, limit) && Releasable(s, ptr)
    ensures Inv(Free(s, ptr), root, limit)
  {
    var u := FindUsed(s.used, ptr - HEADER);
    if u < |s.used| {
      var rest, b := Detach(s, u), s.used[u];
      UnlinkInv(s, u, root, limit);
      assert UsedOk(b, limit);
      var i := Absorber(s.free, b);
      if Stranded(s, ptr) {
        StrandedInv(rest, root, limit);
      } else {
        FreeKeepsCover(s, ptr);
        assert Counted(Free(s, ptr), root);
        if i < |s.free| {
          MergeInv(rest, i, b, root, limit);
        } else {
          AddNodeInv(rest, b, root, limit);
        }
      }
    }
  }
}
