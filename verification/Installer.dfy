/** bootloader/install.py: splitting the sector ranges of the second stage and packing them into the
    tail of the boot sector. */
module Installer {
  import opened Bytes

  /** `count` consecutive sectors from `start`. */
  datatype Range = Range(start: nat, count: nat)

  const STAGE2_OFFSET: nat := 0x7e00

  /** 512-byte sectors between that address and the first 64K boundary. */
  const HEAD: nat := 65
  /** Sectors between two boundaries. */
  const FULL: nat := 128

  function Min(a: nat, b: nat): nat { if a <= b then a else b }

  // ---------------------------------------------------------------- splitting

  function SplitRest(start: nat, remaining: nat): seq<Range>
    decreases remaining
  {
    if remaining == 0 then []
    else
      var c := Min(FULL, remaining);
      [Range(start, c)] + SplitRest(start + c, remaining - c)
  }

  function SplitOne(r: Range): seq<Range> {
    var c := Min(HEAD, r.count);
    [Range(r.start, c)] + SplitRest(r.start + c, r.count - c)
  }

  function Split(ranges: seq<Range>): seq<Range> {
    if ranges == [] then [] else SplitOne(ranges[0]) + Split(ranges[1..])
  }

  lemma Assoc(a: seq<Range>, b: seq<Range>, c: seq<Range>)
    ensures (a + b) + c == a + (b + c)
  {
  }

  /** The body of the loop over the ranges. */
  method AppendChunks(before: seq<Range>, r: Range) returns (prepared: seq<Range>)
    ensures prepared == before + SplitOne(r)
  {
    var blocksPerBarrier: nat := 0x1_0000 / 512;
    var availableBlocks: nat := (0x1_0000 - STAGE2_OFFSET) / 512;
    var subrangeStart := r.start;
    var subrangeCount := Min(availableBlocks, r.count);
    Assoc(before, [Range(subrangeStart, subrangeCount)],
          SplitRest(subrangeStart + subrangeCount, r.count - subrangeCount));
    prepared := before + [Range(subrangeStart, subrangeCount)];
    var remaining: nat := r.count - subrangeCount;
    while remaining > 0
      invariant prepared + SplitRest(subrangeStart + subrangeCount, remaining) == before + SplitOne(r)
      decreases remaining
    {
      subrangeStart := subrangeStart + subrangeCount;
      subrangeCount := Min(blocksPerBarrier, remaining);
      Assoc(prepared, [Range(subrangeStart, subrangeCount)],
            SplitRest(subrangeStart + subrangeCount, remaining - subrangeCount));
      prepared := prepared + [Range(subrangeStart, subrangeCount)];
      remaining := remaining - subrangeCount;
    }
    assert prepared + [] == prepared;
  }

  /** _avoid_64k_boundary */
  method Avoid64kBoundary(ranges: seq<Range>) returns (prepared: seq<Range>)
    ensures prepared == Split(ranges)
  {
    prepared := [];
    for i := 0 to |ranges|
      invariant prepared + Split(ranges[i..]) == Split(ranges)
    {
      SplitStep(prepared, ranges, i);
      prepared := AppendChunks(prepared, ranges[i]);
    }
    assert ranges[|ranges|..] == [];
  }

  lemma SplitStep(prepared: seq<Range>, ranges: seq<Range>, i: nat)
    requires i < |ranges|
    ensures prepared + Split(ranges[i..]) == prepared + SplitOne(ranges[i]) + Split(ranges[i + 1..])
  {
    assert ranges[i..][1..] == ranges[i + 1..];
    Assoc(prepared, SplitOne(ranges[i]), Split(ranges[i + 1..]));
  }

  /** The numbers of the sectors of one range, and of a list of ranges, in load order. */
  function Run(r: Range): seq<nat> {
    seq(r.count, k requires 0 <= k => r.start + k)
  }

  function Sectors(ranges: seq<Range>): seq<nat> {
    if ranges == [] then [] else Run(ranges[0]) + Sectors(ranges[1..])
  }

  lemma {:induction false} SectorsConcat(a: seq<Range>, b: seq<Range>)
    ensures Sectors(a + b) == Sectors(a) + Sectors(b)
  {
    if a == [] {
      assert a + b == b;
    } else {
      assert (a + b)[1..] == a[1..] + b;
      SectorsConcat(a[1..], b);
    }
  }

  lemma {:induction false} SplitRestSectors(start: nat, remaining: nat)
    ensures Sectors(SplitRest(start, remaining)) == Run(Range(start, remaining))
    decreases remaining
  {
    if remaining > 0 {
      var c := Min(FULL, remaining);
      SplitRestSectors(start + c, remaining - c);
      assert SplitRest(start, remaining)[1..] == SplitRest(start + c, remaining - c);
    }
  }

  /** Splitting loads the same sectors in the same order. */
  lemma {:induction false} SplitKeepsSectors(ranges: seq<Range>)
    ensures Sectors(Split(ranges)) == Sectors(ranges)
  {
    if ranges != [] {
      var r := ranges[0];
      var c := Min(HEAD, r.count);
      SplitRestSectors(r.start + c, r.count - c);
      assert SplitOne(r)[1..] == SplitRest(r.start + c, r.count - c);
      assert Sectors(SplitOne(r)) == Run(r);
      SectorsConcat(SplitOne(r), Split(ranges[1..]));
      SplitKeepsSectors(ranges[1..]);
    }
  }

  ghost predicate Counted(ranges: seq<Range>) {
    forall k | 0 <= k < |ranges| :: 1 <= ranges[k].count
  }

  /** Every count fits the byte counter of the first stage. */
  ghost predicate Chunked(ranges: seq<Range>) {
    forall k | 0 <= k < |ranges| :: 1 <= ranges[k].count <= FULL
  }

  lemma {:induction false} SplitRestChunked(start: nat, remaining: nat)
    ensures Chunked(SplitRest(start, remaining))
    decreases remaining
  {
    if remaining > 0 {
      var c := Min(FULL, remaining);
      SplitRestChunked(start + c, remaining - c);
    }
  }

  lemma {:induction false} SplitChunked(ranges: seq<Range>)
    requires Counted(ranges)
    ensures Chunked(Split(ranges))
  {
    if ranges != [] {
      var r := ranges[0];
      var c := Min(HEAD, r.count);
      assert 1 <= r.count;
      SplitRestChunked(r.start + c, r.count - c);
      assert Counted(ranges[1..]);
      SplitChunked(ranges[1..]);
    }
  }

  // ---------------------------------------------------------------- 64K boundaries

  /** Sectors offset .. offset + count, loaded back to back from the second stage's address, touch
      a single 64K page. */
  predicate OnePage(offset: nat, count: nat)
    requires 1 <= count
  {
    (0x7e00 + 512 * offset) / 0x1_0000 == (0x7e00 + 512 * (offset + count) - 1) / 0x1_0000
  }

  /** No chunk of the list crosses a 64K boundary when the first is loaded at sector `offset`. */
  ghost predicate NoCrossing(chunks: seq<Range>, offset: nat)
    requires Counted(chunks)
  {
    chunks == [] || (OnePage(offset, chunks[0].count) && NoCrossing(chunks[1..], offset + chunks[0].count))
  }

  /** Sectors from load offset `offset` to the next 64K boundary, 0 on a boundary. */
  function ToBoundary(offset: nat): nat { (65 - offset) % 128 }

  lemma PageOf(offset: nat, count: nat)
    requires 1 <= count <= FULL
    ensures OnePage(offset, count) <==> ToBoundary(offset) == 0 || count <= ToBoundary(offset)
  {
    var q, d := (offset + 63) / 128, (offset + 63) % 128;
    assert 0x7e00 + 512 * offset == 0x1_0000 * q + 512 * d;
    assert (0x7e00 + 512 * offset) / 0x1_0000 == q;
    var last := 512 * d + 512 * count - 1;
    assert 0x7e00 + 512 * (offset + count) - 1 == 0x1_0000 * q + last;
    assert last < 2 * 0x1_0000;
    assert (0x1_0000 * q + last) / 0x1_0000 == if last < 0x1_0000 then q else q + 1;
    assert ToBoundary(offset) == if d == 0 then 0 else 128 - d;
  }

  /** From a boundary on, full chunks never cross. */
  lemma {:induction false} RestOnBoundary(start: nat, remaining: nat, offset: nat)
    requires ToBoundary(offset) == 0
    ensures Chunked(SplitRest(start, remaining)) && NoCrossing(SplitRest(start, remaining), offset)
    decreases remaining
  {
    SplitRestChunked(start, remaining);
    if remaining > 0 {
      var c := Min(FULL, remaining);
      PageOf(offset, c);
      assert SplitRest(start, remaining)[1..] == SplitRest(start + c, remaining - c);
      if c < remaining {
        RestOnBoundary(start + c, remaining - c, offset + c);
      }
    }
  }

  /** Off a boundary, the chunks after the first stay inside a page exactly when there is one such
      chunk and it ends before the boundary. */
  lemma RestOffBoundary(start: nat, remaining: nat, offset: nat)
    requires ToBoundary(offset) > 0 && remaining > 0
    ensures Chunked(SplitRest(start, remaining))
    ensures NoCrossing(SplitRest(start, remaining), offset) <==> remaining <= ToBoundary(offset)
  {
    SplitRestChunked(start, remaining);
    var c := Min(FULL, remaining);
    PageOf(offset, c);
    assert SplitRest(start, remaining)[1..] == SplitRest(start + c, remaining - c);
  }

  lemma LongRangeCrossesIff(r: Range, offset: nat)
    requires HEAD < r.count
    ensures Chunked(SplitOne(r))
    ensures NoCrossing(SplitOne(r), offset) <==>
              var d := ToBoundary(offset); r.count <= d || d == HEAD || (d == 0 && r.count <= FULL)
  {
    var rest := SplitRest(r.start + HEAD, r.count - HEAD);
    assert SplitOne(r) == [Range(r.start, HEAD)] + rest;
    SplitRestChunked(r.start + HEAD, r.count - HEAD);
    PageOf(offset, HEAD);
    assert SplitOne(r)[1..] == rest;
    AfterHead(offset);
    if ToBoundary(offset + HEAD) == 0 {
      RestOnBoundary(r.start + HEAD, r.count - HEAD, offset + HEAD);
    } else {
      RestOffBoundary(r.start + HEAD, r.count - HEAD, offset + HEAD);
    }
  }

  /** Every range is cut as if it were loaded first. A range loaded at sector `offset` is therefore
      free of crossings exactly when it ends before the next boundary, or that boundary is where
      the cut falls, or it starts on a boundary and fits one page. */
  lemma SplitOneCrossesIff(r: Range, offset: nat)
    requires 1 <= r.count
    ensures Chunked(SplitOne(r))
    ensures NoCrossing(SplitOne(r), offset) <==>
              var d := ToBoundary(offset); r.count <= d || d == HEAD || (d == 0 && r.count <= FULL)
  {
    if r.count <= HEAD {
      PageOf(offset, r.count);
      assert SplitOne(r) == [r];
    } else {
      LongRangeCrossesIff(r, offset);
    }
  }

  lemma AfterHead(offset: nat)
    ensures var d := ToBoundary(offset);
            ToBoundary(offset + HEAD) == if d >= HEAD then d - HEAD else d + FULL - HEAD
  {
  }

  function Total(ranges: seq<Range>): nat {
    if ranges == [] then 0 else ranges[0].count + Total(ranges[1..])
  }

  lemma {:induction false} SplitRestTotal(start: nat, remaining: nat)
    ensures Total(SplitRest(start, remaining)) == remaining
    decreases remaining
  {
    if remaining > 0 {
      var c := Min(FULL, remaining);
      SplitRestTotal(start + c, remaining - c);
      assert SplitRest(start, remaining)[1..] == SplitRest(start + c, remaining - c);
    }
  }

  lemma {:induction false} NoCrossingConcat(a: seq<Range>, b: seq<Range>, offset: nat)
    requires Counted(a) && Counted(b)
    ensures Counted(a + b)
    ensures NoCrossing(a + b, offset) <==> NoCrossing(a, offset) && NoCrossing(b, offset + Total(a))
  {
    if a == [] {
      assert a + b == b;
    } else {
      assert (a + b)[1..] == a[1..] + b;
      NoCrossingConcat(a[1..], b, offset + a[0].count);
    }
  }

  /** What a caller can check of a file's ranges before installing it. */
  predicate Fits(ranges: seq<Range>, offset: nat) {
    ranges == [] ||
    (var d, n := ToBoundary(offset), ranges[0].count;
     (n <= d || d == HEAD || (d == 0 && n <= FULL)) && Fits(ranges[1..], offset + n))
  }

  /** The table that the installer writes keeps every chunk inside a 64K page exactly when each
      range passes that check at the offset where it is loaded. */
  lemma {:induction false} SplitCrossesIff(ranges: seq<Range>, offset: nat)
    requires Counted(ranges)
    ensures Counted(Split(ranges)) && (NoCrossing(Split(ranges), offset) <==> Fits(ranges, offset))
  {
    if ranges != [] {
      var r := ranges[0];
      var c := Min(HEAD, r.count);
      assert 1 <= r.count && Counted(ranges[1..]);
      SplitCrossesIff(ranges[1..], offset + r.count);
      SplitOneCrossesIff(r, offset);
      SplitRestTotal(r.start + c, r.count - c);
      assert SplitOne(r)[1..] == SplitRest(r.start + c, r.count - c);
      NoCrossingConcat(SplitOne(r), Split(ranges[1..]), offset);
    }
  }

  /** One contiguous file, loaded at the second stage's own address, never crosses. */
  lemma SingleRangeNeverCrosses(r: Range)
    requires 1 <= r.count
    ensures Counted(Split([r])) && NoCrossing(Split([r]), 0)
  {
    SplitCrossesIff([r], 0);
    assert [r][1..] == [];
  }

  /** Two ranges can: the second is cut at 65 sectors although only 5 remain in the page. */
  lemma TwoRangesCanCross()
    ensures var ranges := [Range(100, 60), Range(300, 60)];
            Counted(Split(ranges)) && !NoCrossing(Split(ranges), 0)
  {
    var ranges := [Range(100, 60), Range(300, 60)];
    SplitCrossesIff(ranges, 0);
    assert ranges[1..] == [Range(300, 60)];
  }

  // ---------------------------------------------------------------- packing

  function Words(ranges: seq<Range>): seq<nat> {
    if ranges == [] then [] else [ranges[0].start, ranges[0].count] + Words(ranges[1..])
  }

  /** struct.pack of little-endian unsigned 16-bit words; out-of-range values raise an error. */
  function Pack(words: seq<nat>): Option<seq<byte>> {
    if words == [] then Some([])
    else if words[0] >= 0x1_0000 then None
    else match Pack(words[1..])
      case None => None
      case Some(rest) => Some([words[0] % 256, words[0] / 256] + rest)
  }

  /** The payload of install_stage1: the chunk table followed by its length. */
  function Payload(ranges: seq<Range>): Option<seq<byte>> {
    Pack(Words(Split(ranges)) + [|Split(ranges)|])
  }

  function Word(s: seq<byte>, i: nat): nat
    requires i + 1 < |s|
  {
    (s[i] as nat) + 256 * (s[i + 1] as nat)
  }

  /** Packing succeeds exactly on 16-bit values, and every word can be read back. */
  lemma {:induction false} PackWords(words: seq<nat>)
    ensures Pack(words).Some? <==> forall i | 0 <= i < |words| :: words[i] < 0x1_0000
    ensures Pack(words).Some? ==>
              |Pack(words).value| == 2 * |words| &&
              forall i | 0 <= i < |words| :: Word(Pack(words).value, 2 * i) == words[i]
  {
    if words != [] {
      PackWords(words[1..]);
      assert forall i | 0 <= i < |words| - 1 :: words[1..][i] == words[i + 1];
      if Pack(words).Some? {
        var p, q := Pack(words).value, Pack(words[1..]).value;
        forall i | 0 <= i < |words| ensures Word(p, 2 * i) == words[i] {
          if i > 0 {
            assert p[2 * i] == q[2 * (i - 1)] && p[2 * i + 1] == q[2 * (i - 1) + 1];
            assert Word(q, 2 * (i - 1)) == words[1..][i - 1];
          }
        }
      } else if words[0] < 0x1_0000 {
        var i :| 0 <= i < |words| - 1 && words[1..][i] >= 0x1_0000;
        assert words[i + 1] >= 0x1_0000;
      }
    }
  }

  lemma {:induction false} WordsAt(ranges: seq<Range>, i: nat)
    requires i < |ranges|
    ensures |Words(ranges)| == 2 * |ranges|
    ensures Words(ranges)[2 * i] == ranges[i].start && Words(ranges)[2 * i + 1] == ranges[i].count
  {
    if i > 0 {
      WordsAt(ranges[1..], i - 1);
    } else if |ranges| > 1 {
      WordsAt(ranges[1..], 0);
    }
  }

  // ---------------------------------------------------------------- the boot sector

  /** Python's s[lo:hi] for lo >= 0: a negative hi counts from the end, and bounds are clipped. */
  function Slice(s: seq<byte>, lo: nat, hi: int): seq<byte> {
    var h := if hi < 0 then (if |s| + hi < 0 then 0 else |s| + hi) else Min(hi, |s|);
    if lo < h then s[lo..h] else []
  }

  const HEADER := 62   // bytes of file system information that stay
  const MAGIC := 510   // where the 0xAA55 mark is

  /** introduce_payload */
  function Assemble(disk: seq<byte>, stage1: seq<byte>, payload: seq<byte>): seq<byte> {
    Slice(disk, 0, HEADER) + Slice(stage1, HEADER, MAGIC - |payload|) + payload + Slice(stage1, MAGIC, 512)
  }

  /** The result is one sector exactly when the payload fits between the header and the mark; it
      then ends at the mark, and the header and the mark are in place. */
  lemma AssembleIff(disk: seq<byte>, stage1: seq<byte>, payload: seq<byte>)
    requires |disk| >= HEADER && |stage1| == 512
    ensures |Assemble(disk, stage1, payload)| == 512 <==> |payload| <= MAGIC - HEADER
    ensures |payload| <= MAGIC - HEADER ==>
              var bs := Assemble(disk, stage1, payload);
              && bs[..HEADER] == disk[..HEADER]
              && bs[HEADER..MAGIC - |payload|] == stage1[HEADER..MAGIC - |payload|]
              && bs[MAGIC - |payload|..MAGIC] == payload
              && bs[MAGIC..] == stage1[MAGIC..]
  {
  }
}
