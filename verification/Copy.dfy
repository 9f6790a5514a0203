/** memcpy of bootloader/stage2/memory.c, which copies upwards byte by byte. */
module Copy {
  import opened Bytes

  /** Byte after byte from src to dest within one memory. */
  function CopyUp(s: seq<byte>, dest: nat, src: nat, count: nat): (r: seq<byte>)
    requires dest + count <= |s| && src + count <= |s|
    ensures |r| == |s|
    decreases count, dest
  {
    if count == 0 then s else CopyUp(s[dest := s[src]], dest + 1, src + 1, count - 1)
  }

  method Memcpy(a: array<byte>, dest: nat, src: nat, count: nat)
    requires dest + count <= a.Length && src + count <= a.Length
    modifies a
    ensures a[..] == CopyUp(old(a[..]), dest, src, count)
  {
    var pd, ps := dest, src;
    ghost var n: nat := count;
    while pd != dest + count
      invariant dest <= pd && src <= ps && pd + n == dest + count && ps + n == src + count
      invariant CopyUp(a[..], pd, ps, n) == CopyUp(old(a[..]), dest, src, count)
      decreases n
    {
      ghost var before := a[..];
      a[pd] := a[ps];
      assert a[..] == before[pd := before[ps]];
      ps := ps + 1;
      pd := pd + 1;
      n := n - 1;
    }
  }

  /** Downwards, or between areas that do not overlap, the result is a block move. */
  lemma {:induction false} CopyUpMoves(s: seq<byte>, dest: nat, src: nat, count: nat)
    requires dest + count <= |s| && src + count <= |s| && (dest <= src || src + count <= dest)
    ensures forall i | dest <= i < dest + count :: CopyUp(s, dest, src, count)[i] == s[src + (i - dest)]
    ensures forall i | 0 <= i < |s| && !(dest <= i < dest + count) :: CopyUp(s, dest, src, count)[i] == s[i]
    decreases count
  {
    if count > 0 {
      var t := s[dest := s[src]];
      CopyUpMoves(t, dest + 1, src + 1, count - 1);
      forall i | dest < i < dest + count ensures CopyUp(s, dest, src, count)[i] == s[src + (i - dest)] {
        assert src + 1 + (i - (dest + 1)) == src + (i - dest);
      }
    }
  }

  /** Upwards into an overlapping area, the bytes before dest are repeated. */
  lemma {:induction false} CopyUpRepeats(s: seq<byte>, dest: nat, src: nat, count: nat)
    requires dest + count <= |s| && src < dest
    ensures forall i | 0 <= i < dest :: CopyUp(s, dest, src, count)[i] == s[i]
    ensures forall i | dest <= i < dest + count ::
              CopyUp(s, dest, src, count)[i] == CopyUp(s, dest, src, count)[i - (dest - src)]
    decreases count
  {
    if count > 0 {
      var t := s[dest := s[src]];
      CopyUpRepeats(t, dest + 1, src + 1, count - 1);
    }
  }

  ghost predicate Moves(s: seq<byte>, dest: nat, src: nat, count: nat)
    requires dest + count <= |s| && src + count <= |s|
  {
    forall i | dest <= i < dest + count :: CopyUp(s, dest, src, count)[i] == s[src + (i - dest)]
  }

  /** memcpy moves every content correctly exactly when the destination does not start inside the
      source. */
  lemma MovesIff(size: nat, dest: nat, src: nat, count: nat)
    requires dest + count <= size && src + count <= size
    ensures (forall s: seq<byte> | |s| == size :: Moves(s, dest, src, count))
            <==> !(src < dest < src + count)
  {
    if src < dest < src + count {
      var s: seq<byte> := seq(size, i => if i == src then 1 else 0);
      CopyUpRepeats(s, dest, src, count);
      var r := CopyUp(s, dest, src, count);
      var i := dest + (dest - src);
      assert r[dest] == r[src] && r[i] == r[dest] && r[i] == 1;
      assert s[src + (i - dest)] == 0 && !Moves(s, dest, src, count);
    } else {
      forall s: seq<byte> | |s| == size ensures Moves(s, dest, src, count) {
        CopyUpMoves(s, dest, src, count);
      }
    }
  }
}
