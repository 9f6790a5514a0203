/** Positions and reads of bootloader/stage2/devices/floppy/floppy.c. */
module Floppy {
  import opened Bytes
  import opened Division
  import opened Motor

  /** heads, tracks and sectors per track */
  datatype Geometry = Geometry(heads: nat, tracks: nat, spt: nat) {
    predicate Valid() { 1 <= heads && 1 <= tracks && 1 <= spt && Blocks() < 0x8000_0000 }

    function Blocks(): nat { tracks * (spt * heads) }
  }

  datatype Hcs = Hcs(head: nat, track: nat, sector: nat)

  // ---------------------------------------------------------------- coordinates

  /** fd_block2hcs */
  function BlockToHcs(g: Geometry, block: nat): Hcs
    requires g.Valid()
  {
    Positive(g);
    Hcs(Div(Mod(block, g.spt * g.heads), g.spt), Div(block, g.spt * g.heads), Mod(block, g.spt) + 1)
  }

  lemma Positive(g: Geometry)
    requires 1 <= g.heads && 1 <= g.spt
    ensures 1 <= g.spt * g.heads
  {
    Sign(g.spt, g.heads);
  }

  predicate OnDisk(g: Geometry, p: Hcs) {
    p.head < g.heads && p.track < g.tracks && 1 <= p.sector <= g.spt
  }

  function BlockOf(g: Geometry, p: Hcs): nat
    requires 1 <= p.sector
  {
    (p.track * g.heads + p.head) * g.spt + (p.sector - 1)
  }

  lemma Flatten(t: nat, h: nat, r: nat, spt: nat, heads: nat)
    ensures t * (spt * heads) + (h * spt + r) == (t * heads + h) * spt + r
  {
    assert spt * heads == heads * spt;
    assert t * (heads * spt) == t * heads * spt;
    assert (t * heads + h) * spt == t * heads * spt + h * spt;
  }

  lemma BelowFactor(h: nat, r: nat, spt: nat, heads: nat)
    requires 1 <= spt && h * spt + r < spt * heads
    ensures h < heads
  {
    if h >= heads {
      assert heads * spt == spt * heads;
      if h > heads { Scale(heads, h, spt); }
    }
  }

  /** Dividing by the cylinder size first and by the track size then. */
  lemma Nested(block: nat, spt: nat, heads: nat)
    requires 1 <= spt && 1 <= heads && 1 <= spt * heads
    ensures var t, m := Div(block, spt * heads), Mod(block, spt * heads);
            block == (t * heads + Div(m, spt)) * spt + Mod(m, spt) && Div(m, spt) < heads
  {
    var size := spt * heads;
    var t, m := Div(block, size), Mod(block, size);
    Divide(block, size);
    Divide(m, spt);
    Flatten(t, Div(m, spt), Mod(m, spt), spt, heads);
    BelowFactor(Div(m, spt), Mod(m, spt), spt, heads);
  }

  /** The coordinates are those of dividing by the track size and then by the heads, which is what the
      first stage does. */
  lemma SameAsStage1(g: Geometry, block: nat)
    requires g.Valid()
    ensures var q := Div(block, g.spt);
            BlockToHcs(g, block) == Hcs(Mod(q, g.heads), Div(q, g.heads), Mod(block, g.spt) + 1)
    ensures BlockOf(g, BlockToHcs(g, block)) == block
  {
    Positive(g);
    Nested(block, g.spt, g.heads);
    var t, m := Div(block, g.spt * g.heads), Mod(block, g.spt * g.heads);
    var h, r := Div(m, g.spt), Mod(m, g.spt);
    Unique(block, g.spt, t * g.heads + h, r);
    Unique(t * g.heads + h, g.heads, t, h);
  }

  /** A block is on the disk exactly when its number is below the number of blocks. */
  lemma OnDiskIff(g: Geometry, block: nat)
    requires g.Valid()
    ensures OnDisk(g, BlockToHcs(g, block)) <==> block < g.Blocks()
  {
    SameAsStage1(g, block);
    Positive(g);
    var size := g.spt * g.heads;
    var t := Div(block, size);
    Divide(block, size);
    Scale(t, g.tracks, size);
    Scale(g.tracks, t, size);
  }

  /** Every position of the disk is the position of one block: with the first lemma, the mapping is
      one to one from the blocks onto the positions. */
  lemma HcsOfBlock(g: Geometry, p: Hcs)
    requires g.Valid() && OnDisk(g, p)
    ensures BlockToHcs(g, BlockOf(g, p)) == p && BlockOf(g, p) < g.Blocks()
  {
    var b := BlockOf(g, p);
    Unique(b, g.spt, p.track * g.heads + p.head, p.sector - 1);
    Unique(p.track * g.heads + p.head, g.heads, p.track, p.head);
    SameAsStage1(g, b);
    OnDiskIff(g, b);
  }

  // ---------------------------------------------------------------- seeking

  datatype Whence = Set | Current | End

  /** The target in the unsigned arithmetic of fd_seek. */
  function Target(block: nat, nBlocks: nat, offset: int, whence: Whence): nat {
    var base := match whence case Set => 0 case Current => block case End => nBlocks;
    (base + offset / 512) % 0x1_0000_0000
  }

  /** fd_seek: the returned value (-1 on failure) and the new position. */
  function Seek(block: nat, nBlocks: nat, offset: int, whence: Whence): (int, nat) {
    if offset % 512 != 0 then (-1, block)
    else
      var target := Target(block, nBlocks, offset, whence);
      if block == target then (offset / 512, block)
      else if target >= nBlocks then (-1, block)
      else (target, target)
  }

  lemma Wraps(n: int)
    requires -0x8000_0000 <= n < 0x1_0000_0000
    ensures n % 0x1_0000_0000 == if n < 0 then n + 0x1_0000_0000 else n
  {
  }

  /** A seek moves to the target in ordinary arithmetic exactly when the offset is aligned and the
      target is a block of the disk or the position itself; otherwise the position stays. Negative
      targets wrap to numbers beyond every disk. */
  lemma SeekMovesIff(block: nat, nBlocks: nat, offset: int, whence: Whence)
    requires block <= nBlocks < 0x8000_0000 && Int32(offset)
    ensures var base := match whence case Set => 0 case Current => block case End => nBlocks;
            var target := base + offset / 512;
            var position := Seek(block, nBlocks, offset, whence).1;
            && position <= nBlocks
            && (if offset % 512 == 0 && (0 <= target < nBlocks || target == block) then position == target
                else Seek(block, nBlocks, offset, whence) == (-1, block))
  {
    var base := match whence case Set => 0 case Current => block case End => nBlocks;
    Wraps(base + offset / 512);
  }

  /** What a successful seek returns is the new position exactly when it has moved, or the position
      was the offset all along: staying put returns the offset that was asked for. */
  lemma SeekReturnsIff(block: nat, nBlocks: nat, offset: int, whence: Whence)
    requires block <= nBlocks < 0x8000_0000 && Int32(offset) && offset % 512 == 0
    requires Target(block, nBlocks, offset, whence) < nBlocks || Target(block, nBlocks, offset, whence) == block
    ensures var (ret, position) := Seek(block, nBlocks, offset, whence);
            ret == position <==> position != block || offset == 512 * block
  {
  }

  // ---------------------------------------------------------------- reading

  /** How one attempt at a block ends: with its data, with an error, or with a timeout, after which the
      controller is reset. */
  datatype Access = Data(data: Sector) | Error | Timeout

  /** What the controller answers at a position, by the number of attempts made there before. */
  type Medium = (Hcs, nat) -> Access

  /** There is nothing beyond the disk. */
  function Answer(g: Geometry, medium: Medium, block: nat, retry: nat): Access
    requires g.Valid()
  {
    var p := BlockToHcs(g, block);
    if OnDisk(g, p) then medium(p, retry) else Error
  }

  /** The last n of the ten attempts: an error is followed by the next one. */
  function Attempts(g: Geometry, medium: Medium, block: nat, n: nat): Access
    requires g.Valid() && n <= 10
    decreases n, block
  {
    if n == 0 then Error
    else
      var answer := Answer(g, medium, block, 10 - n);
      if answer.Error? then Attempts(g, medium, block, n - 1) else answer
  }

  /** fd_rw_block */
  function ReadBlock(g: Geometry, medium: Medium, block: nat): Access
    requires g.Valid()
  {
    Attempts(g, medium, block, 10)
  }

  lemma {:induction false} AttemptsFail(g: Geometry, medium: Medium, block: nat, n: nat, retry: nat)
    requires g.Valid() && n <= 10 && 10 - n <= retry <= 10
    requires forall k | 10 - n <= k < retry :: Answer(g, medium, block, k).Error?
    ensures Attempts(g, medium, block, n) == Attempts(g, medium, block, 10 - retry)
    decreases n
  {
    if 10 - n < retry {
      assert Answer(g, medium, block, 10 - n).Error?;
      AttemptsFail(g, medium, block, n - 1, retry);
    }
  }

  /** A block ends with data or a timeout exactly when one of ten attempts does, after nothing but errors;
      and a block beyond the disk never does. */
  lemma ReadBlockIff(g: Geometry, medium: Medium, block: nat, access: Access)
    requires g.Valid() && !access.Error?
    ensures ReadBlock(g, medium, block) == access <==>
              block < g.Blocks() && exists retry | 0 <= retry < 10 ::
                Answer(g, medium, block, retry) == access &&
                forall k | 0 <= k < retry :: Answer(g, medium, block, k).Error?
  {
    OnDiskIff(g, block);
    var retry := FirstAnswer(g, medium, block, 10);
    AttemptsFail(g, medium, block, 10, retry);
  }

  /** The same at a position, told from the medium alone: the block of a position on the disk ends with
      data or a timeout exactly when one of ten attempts at that position, and no other, does so after
      nothing but errors. */
  lemma PositionReadIff(g: Geometry, medium: Medium, p: Hcs, access: Access)
    requires g.Valid() && OnDisk(g, p) && !access.Error?
    ensures ReadBlock(g, medium, BlockOf(g, p)) == access <==>
              exists retry | 0 <= retry < 10 ::
                medium(p, retry) == access && forall k | 0 <= k < retry :: medium(p, k).Error?
  {
    var block := BlockOf(g, p);
    HcsOfBlock(g, p);
    ReadBlockIff(g, medium, block, access);
    assert forall k: nat :: Answer(g, medium, block, k) == medium(p, k);
    if exists retry | 0 <= retry < 10 ::
        medium(p, retry) == access && forall k | 0 <= k < retry :: medium(p, k).Error? {
      var retry :| 0 <= retry < 10 &&
        medium(p, retry) == access && forall k | 0 <= k < retry :: medium(p, k).Error?;
      assert Answer(g, medium, block, retry) == access;
    }
    if ReadBlock(g, medium, block) == access {
      var retry :| 0 <= retry < 10 && Answer(g, medium, block, retry) == access &&
        forall k | 0 <= k < retry :: Answer(g, medium, block, k).Error?;
      assert medium(p, retry) == access;
    }
  }

  /** The first of the last n attempts that is not an error, 10 when there is none. */
  function FirstAnswer(g: Geometry, medium: Medium, block: nat, n: nat): (retry: nat)
    requires g.Valid() && n <= 10
    ensures 10 - n <= retry <= 10
    ensures forall k | 10 - n <= k < retry :: Answer(g, medium, block, k).Error?
    ensures retry < 10 ==> !Answer(g, medium, block, retry).Error?
    decreases n, block
  {
    if n == 0 || !Answer(g, medium, block, 10 - n).Error? then 10 - n
    else FirstAnswer(g, medium, block, n - 1)
  }

  /** The loop of fd_read: the bytes read, the position, and how the last block ended. */
  datatype Progress = Progress(out: seq<byte>, block: nat, ok: bool, reset: bool)

  function ReadBlocks(g: Geometry, medium: Medium, block: nat, n: nat): Progress
    requires g.Valid()
    decreases n, block
  {
    if n == 0 then Progress([], block, true, false)
    else
      match ReadBlock(g, medium, block)
      case Data(data) =>
        var rest := ReadBlocks(g, medium, block + 1, n - 1);
        rest.(out := data + rest.out)
      case Error => Progress([], block, false, false)
      case Timeout => Progress([], block, false, true)
  }

  /** The contents of n blocks that can all be read. */
  function Contents(g: Geometry, medium: Medium, block: nat, n: nat): seq<byte>
    requires g.Valid() && forall b | block <= b < block + n :: ReadBlock(g, medium, b).Data?
    decreases n
  {
    if n == 0 then []
    else Contents(g, medium, block, n - 1) + ReadBlock(g, medium, block + n - 1).data
  }

  /** Reading n blocks and then m is reading n + m, when the first part succeeds. */
  lemma {:induction false} ReadsCompose(g: Geometry, medium: Medium, block: nat, n: nat, m: nat)
    requires g.Valid()
    ensures var a := ReadBlocks(g, medium, block, n);
            var b := ReadBlocks(g, medium, a.block, m);
            ReadBlocks(g, medium, block, n + m) == if a.ok then b.(out := a.out + b.out) else a
    decreases n
  {
    if n == 0 {
      var b := ReadBlocks(g, medium, block, m);
      assert [] + b.out == b.out;
    } else if ReadBlock(g, medium, block).Data? {
      ReadsCompose(g, medium, block + 1, n - 1, m);
      var data := ReadBlock(g, medium, block).data;
      var a := ReadBlocks(g, medium, block + 1, n - 1);
      var b := ReadBlocks(g, medium, a.block, m);
      assert (n - 1) + m == n + m - 1;
      assert ReadBlocks(g, medium, block, n) == a.(out := data + a.out);
      assert data + (a.out + b.out) == data + a.out + b.out;
    }
  }

  /** One more block. */
  lemma ReadOneMore(g: Geometry, medium: Medium, block: nat, n: nat)
    requires g.Valid()
    ensures var a := ReadBlocks(g, medium, block, n);
            var access := ReadBlock(g, medium, a.block);
            ReadBlocks(g, medium, block, n + 1) ==
              if !a.ok then a
              else if access.Data? then Progress(a.out + access.data, a.block + 1, true, false)
              else Progress(a.out, a.block, false, access.Timeout?)
  {
    var a := ReadBlocks(g, medium, block, n);
    ReadsCompose(g, medium, block, n, 1);
    assert ReadBlocks(g, medium, a.block + 1, 0) == Progress([], a.block + 1, true, false);
    var access := ReadBlock(g, medium, a.block);
    if access.Data? { assert access.data + [] == access.data; } else { assert a.out + [] == a.out; }
  }

  /** Where a round of reading leads: to the next one, or to the end. */
  lemma ReadRound(g: Geometry, medium: Medium, start: nat, n: nat, i: nat, out: seq<byte>, block: nat)
    requires g.Valid() && i < n && ReadBlocks(g, medium, start, i) == Progress(out, block, true, false)
    ensures match ReadBlock(g, medium, block)
            case Data(data) =>
              ReadBlocks(g, medium, start, i + 1) == Progress(out + data, block + 1, true, false)
            case Error => ReadBlocks(g, medium, start, n) == Progress(out, block, false, false)
            case Timeout => ReadBlocks(g, medium, start, n) == Progress(out, block, false, true)
  {
    ReadOneMore(g, medium, start, i);
    ReadsCompose(g, medium, start, i + 1, n - (i + 1));
    assert (i + 1) + (n - (i + 1)) == n;
  }

  /** A read succeeds exactly when all its blocks are on the disk and readable; it then returns their
      contents in order and the position is behind them. A failed one stops at the first block that
      cannot be read. The position never passes the end. */
  lemma {:induction false} ReadSucceedsIff(g: Geometry, medium: Medium, block: nat, n: nat)
    requires g.Valid() && block <= g.Blocks()
    ensures var r := ReadBlocks(g, medium, block, n);
            && (r.ok <==> forall b | block <= b < block + n :: ReadBlock(g, medium, b).Data?)
            && (r.ok ==> r.block == block + n && r.out == Contents(g, medium, block, n))
            && (!r.ok ==> block <= r.block < block + n && !ReadBlock(g, medium, r.block).Data?)
            && block <= r.block <= g.Blocks() && |r.out| == 512 * (r.block - block)
            && (r.reset <==> !r.ok && ReadBlock(g, medium, r.block).Timeout?)
    decreases n
  {
    if n > 0 {
      ReadSucceedsIff(g, medium, block, n - 1);
      ReadOneMore(g, medium, block, n - 1);
      var a := ReadBlocks(g, medium, block, n - 1);
      ReadBlockOnDisk(g, medium, a.block);
    }
  }

  // ---------------------------------------------------------------- runs of seeks and reads

  /** A medium without errors that holds this image: sector s of track t under head h is number
      (t * heads + h) * spt + s - 1 of it. */
  ghost predicate Holds(g: Geometry, medium: Medium, image: seq<Sector>)
    requires g.Valid()
  {
    && |image| == g.Blocks()
    && forall h: nat, t: nat, s: nat, k: nat | h < g.heads && t < g.tracks && 1 <= s <= g.spt ::
         var i := (t * g.heads + h) * g.spt + s - 1;
         0 <= i < |image| && medium(Hcs(h, t, s), k) == Data(image[i])
  }

  function Flat(sectors: seq<Sector>): seq<byte> {
    if sectors == [] then [] else sectors[0] + Flat(sectors[1..])
  }

  lemma ImageBlock(g: Geometry, medium: Medium, image: seq<Sector>, block: nat)
    requires g.Valid() && Holds(g, medium, image) && block < g.Blocks()
    ensures ReadBlock(g, medium, block) == Data(image[block])
  {
    var p := BlockToHcs(g, block);
    OnDiskIff(g, block);
    SameAsStage1(g, block);
    assert BlockOf(g, p) == block;
    PositionReadIff(g, medium, p, Data(image[block]));
    assert medium(Hcs(p.head, p.track, p.sector), 0) == Data(image[block]);
  }

  /** Reading n blocks from block b of such a disk yields exactly its sectors b, ..., b + n - 1, in order. */
  lemma {:induction false} ReadsImage(g: Geometry, medium: Medium, image: seq<Sector>, b: nat, n: nat)
    requires g.Valid() && Holds(g, medium, image) && b + n <= g.Blocks()
    ensures ReadBlocks(g, medium, b, n) == Progress(Flat(image[b..b + n]), b + n, true, false)
    decreases n
  {
    if n > 0 {
      ImageBlock(g, medium, image, b);
      ReadsImage(g, medium, image, b + 1, n - 1);
      assert image[b..b + n][1..] == image[b + 1..b + n];
      assert image[b + 1..(b + 1) + (n - 1)] == image[b + 1..b + n];
    } else {
      assert image[b..b] == [];
    }
  }

  datatype Request = SeekRequest(offset: int, whence: Whence) | ReadRequest(n: nat)

  function Perform(g: Geometry, medium: Medium, block: nat, r: Request): nat
    requires g.Valid()
  {
    match r
    case SeekRequest(offset, whence) => Seek(block, g.Blocks(), offset, whence).1
    case ReadRequest(n) => ReadBlocks(g, medium, block, n).block
  }

  function PerformAll(g: Geometry, medium: Medium, block: nat, rs: seq<Request>): nat
    requires g.Valid()
    decreases |rs|
  {
    if rs == [] then block else PerformAll(g, medium, Perform(g, medium, block, rs[0]), rs[1..])
  }

  /** Over any run the position stays on the disk or at its end. */
  lemma {:induction false} PositionBounded(g: Geometry, medium: Medium, block: nat, rs: seq<Request>)
    requires g.Valid() && block <= g.Blocks()
    requires forall i | 0 <= i < |rs| :: rs[i].SeekRequest? ==> Int32(rs[i].offset)
    ensures PerformAll(g, medium, block, rs) <= g.Blocks()
    decreases |rs|
  {
    if rs != [] {
      match rs[0] {
        case SeekRequest(offset, whence) => SeekMovesIff(block, g.Blocks(), offset, whence);
        case ReadRequest(n) => ReadSucceedsIff(g, medium, block, n);
      }
      PositionBounded(g, medium, Perform(g, medium, block, rs[0]), rs[1..]);
    }
  }

  // ---------------------------------------------------------------- the driver

  class Device {
    const geometry: Geometry
    const drive: Drive
    const controller: Controller
    const medium: Medium
    const nBlocks: nat
    var block: nat

    ghost predicate Valid()
      reads this, controller, controller.units
    {
      geometry.Valid() && nBlocks == geometry.Blocks() && block <= nBlocks && controller.Valid()
    }

    /** The part of fd_init for a drive. */
    constructor (geometry: Geometry, drive: Drive, controller: Controller, medium: Medium)
      requires geometry.Valid() && controller.Valid()
      ensures Valid() && block == 0 && this.geometry == geometry && this.drive == drive
      ensures this.controller == controller && this.medium == medium
    {
      this.geometry, this.drive, this.controller, this.medium := geometry, drive, controller, medium;
      nBlocks := geometry.tracks * (geometry.spt * geometry.heads);
      block := 0;
    }

    /** fd_seek */
    method SeekTo(offset: int, whence: Whence) returns (ret: int)
      requires Valid() && Int32(offset)
      modifies this`block
      ensures Valid() && (ret, block) == Seek(old(block), nBlocks, offset, whence)
    {
      SeekMovesIff(block, nBlocks, offset, whence);
      if offset % 512 != 0 {
        return -1;
      }
      var blockOffset := offset / 512;
      var newBlock: nat;
      match whence {
        case Set => newBlock := blockOffset % 0x1_0000_0000;
        case Current => newBlock := (block + blockOffset) % 0x1_0000_0000;
        case End => newBlock := (nBlocks + blockOffset) % 0x1_0000_0000;
      }
      if block == newBlock {
        return blockOffset;
      }
      if newBlock >= nBlocks {
        return -1;
      }
      block := newBlock;
      return block;
    }

    /** fd_activate; `changed` is the disk-change line, `calibrated` what recalibration answers. */
    method Activate(changed: bool, calibrated: bool) returns (ok: bool)
      requires Valid()
      modifies controller, controller.units
      ensures Valid() && ok == (!changed || calibrated)
      ensures controller.Abs() == if ok then Activated(old(controller.Abs()), drive)
                                  else AfterRead(old(controller.Abs()), drive, false)
    {
      controller.SelectDrive(drive);
      controller.MotorSwitch(drive, true);
      ok := true;
      if changed {
        ok := calibrated;
        if !ok {
          controller.MotorSwitch(drive, false);
        }
      }
    }

    /** fd_read. Past the alignment check the motor is left waiting on every path. */
    method Read(buffer: array<byte>, nbytes: nat, changed: bool, calibrated: bool) returns (ret: int)
      requires Valid() && nbytes < 0x8000_0000 && nbytes <= buffer.Length
      modifies this`block, controller, controller.units, buffer
      ensures Valid()
      ensures nbytes % 512 != 0 ==> ret == -1 && unchanged(this) && unchanged(controller) &&
                                    unchanged(controller.units) && unchanged(buffer)
      ensures nbytes % 512 == 0 ==>
                var reset := (!changed || calibrated) && ReadBlocks(geometry, medium, old(block), nbytes / 512).reset;
                && controller.Abs() == AfterRead(old(controller.Abs()), drive, reset)
                && controller.units[drive] == Unit(Wait, 300)
                && controller.units[1 - drive] == old(controller.units[1 - drive])
      ensures nbytes % 512 == 0 && changed && !calibrated ==> ret == -1 && unchanged(this) && unchanged(buffer)
      ensures nbytes % 512 == 0 && (!changed || calibrated) ==>
                var r := ReadBlocks(geometry, medium, old(block), nbytes / 512);
                && block == r.block && ret == (if r.ok then nbytes else -1)
                && |r.out| <= buffer.Length && buffer[..] == r.out + old(buffer[|r.out|..])
    {
      if nbytes % 512 != 0 {
        return -1;
      }
      var nblocks := nbytes / 512;
      var ok := Activate(changed, calibrated);
      if !ok {
        return -1;
      }
      SpinsAfterReadIff(controller.Abs(), drive, false);
      ret := ReadLoop(buffer, nblocks);
      controller.MotorSwitch(drive, false);
    }

    /** fd_rw_block for reading: up to ten attempts; a timeout resets the controller and ends them. */
    method RwBlock() returns (access: Access)
      requires Valid()
      modifies controller
      ensures Valid() && access == ReadBlock(geometry, medium, block)
      ensures controller.Abs() == if access.Timeout? then Reset(old(controller.Abs())) else old(controller.Abs())
    {
      access := Error;
      var retry := 0;
      while retry < 10
        invariant 0 <= retry <= 10 && access == Error
        invariant Attempts(geometry, medium, block, 10 - retry) == ReadBlock(geometry, medium, block)
        invariant controller.Valid() && controller.Abs() == old(controller.Abs())
      {
        access := Answer(geometry, medium, block, retry);
        if access.Timeout? {
          controller.ResetController();
          return;
        }
        if !access.Error? {
          break;
        }
        retry := retry + 1;
      }
    }

    /** One round of the loop of fd_read: out is what was read before, before the original buffer. */
    method Fetch(buffer: array<byte>, ghost out: seq<byte>, ghost before: seq<byte>, offset: nat) returns (ok: bool)
      requires Valid() && offset + 512 <= buffer.Length == |before| && |out| == offset
      requires buffer[..] == out + before[offset..]
      modifies this`block, controller, buffer
      ensures Valid()
      ensures var access := ReadBlock(geometry, medium, old(block));
              && ok == access.Data?
              && block == (if ok then old(block) + 1 else old(block))
              && controller.Abs() == (if access.Timeout? then Reset(old(controller.Abs())) else old(controller.Abs()))
              && buffer[..] == (if ok then out + access.data + before[offset + 512..] else old(buffer[..]))
    {
      ReadBlockOnDisk(geometry, medium, block);
      var access := RwBlock();
      ok := access.Data?;
      if ok {
        CopyIn(buffer, offset, access.data, out, before);
        block := block + 1;
      }
    }

    /** The same round as a part of the whole read. */
    method Round(buffer: array<byte>, ghost out: seq<byte>, ghost before: seq<byte>, offset: nat,
                 ghost start: nat, ghost n: nat, ghost i: nat) returns (ok: bool, ghost next: seq<byte>)
      requires Valid() && offset + 512 <= buffer.Length == |before| && |out| == offset && i < n
      requires buffer[..] == out + before[offset..]
      requires ReadBlocks(geometry, medium, start, i) == Progress(out, block, true, false)
      modifies this`block, controller, buffer
      ensures Valid()
      ensures ok ==> && ReadBlocks(geometry, medium, start, i + 1) == Progress(next, block, true, false)
                     && |next| == offset + 512 && buffer[..] == next + before[offset + 512..]
                     && controller.Abs() == old(controller.Abs())
      ensures !ok ==> var r := ReadBlocks(geometry, medium, start, n);
                      && !r.ok && block == r.block
                      && |r.out| <= buffer.Length && buffer[..] == r.out + before[|r.out|..]
                      && controller.Abs() == if r.reset then Reset(old(controller.Abs())) else old(controller.Abs())
    {
      ReadRound(geometry, medium, start, n, i, out, block);
      ghost var access := ReadBlock(geometry, medium, block);
      ok := Fetch(buffer, out, before, offset);
      next := if access.Data? then out + access.data else out;
    }

    /** The loop of fd_read. */
    method ReadLoop(buffer: array<byte>, nblocks: nat) returns (ret: int)
      requires Valid() && 512 * nblocks <= buffer.Length
      modifies this`block, controller, buffer
      ensures Valid()
      ensures var r := ReadBlocks(geometry, medium, old(block), nblocks);
              && block == r.block && ret == (if r.ok then 512 * nblocks else -1)
              && controller.Abs() == (if r.reset then Reset(old(controller.Abs())) else old(controller.Abs()))
              && |r.out| <= buffer.Length && buffer[..] == r.out + old(buffer[|r.out|..])
    {
      var offset := 0;
      var i := 0;
      ghost var before := buffer[..];
      ghost var out := [];
      while i < nblocks
        invariant 0 <= i <= nblocks && offset == 512 * i && Valid() && controller.Abs() == old(controller.Abs())
        invariant ReadBlocks(geometry, medium, old(block), i) == Progress(out, block, true, false)
        invariant |out| == offset && buffer[..] == out + before[offset..]
      {
        var ok;
        ok, out := Round(buffer, out, before, offset, old(block), nblocks, i);
        if !ok {
          return -1;
        }
        i, offset := i + 1, offset + 512;
      }
      ret := offset;
    }
  }

  lemma ReadBlockOnDisk(g: Geometry, medium: Medium, block: nat)
    requires g.Valid()
    ensures ReadBlock(g, medium, block).Data? ==> block < g.Blocks()
  {
    if ReadBlock(g, medium, block).Data? {
      ReadBlockIff(g, medium, block, ReadBlock(g, medium, block));
    }
  }

  /** The memcpy of one block behind the ones already read. */
  method CopyIn(buffer: array<byte>, offset: nat, data: Sector, ghost out: seq<byte>, ghost before: seq<byte>)
    requires offset + 512 <= buffer.Length == |before| && |out| == offset
    requires buffer[..] == out + before[offset..]
    modifies buffer
    ensures buffer[..] == out + data + before[offset + 512..]
  {
    for k := 0 to 512
      invariant forall j | 0 <= j < offset :: buffer[j] == out[j]
      invariant forall j | 0 <= j < k :: buffer[offset + j] == data[j]
      invariant forall j | offset + k <= j < buffer.Length :: buffer[j] == before[j]
    {
      buffer[offset + k] := data[k];
    }
  }
}
