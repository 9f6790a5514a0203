/** bootloader/stage1/fat1x.s: the first stage reads the table at the end of its own sector and loads
    the second stage, with 8- and 16-bit registers and BIOS reads by cylinder, head and sector. */
module Stage1 {
  import opened Bytes
  import opened Division
  import opened Installer

  /** The first 128K of memory. */
  type Ram = s: seq<byte> | |s| == 0x2_0000 witness seq(0x2_0000, _ => 0)

  const COUNT_AT: nat := 0x7dfc   // sector_range_count
  const LOAD: nat := 0x7e00       // es:0 while loading

  /** int 13h: the geometry it reports, the sectors of the disk, and which read attempts fail. */
  datatype Bios = Bios(spt: nat, heads: nat, disk: nat -> Sector, fails: nat -> bool) {
    /** What a six-bit sector count and an eight-bit last head number can express. */
    predicate Valid() { 1 <= spt <= 63 && 1 <= heads <= 256 }

    /** Reading one sector by its coordinates; None is the carry flag. */
    function Read(tries: nat, c: nat, h: nat, s: nat): Option<Sector> {
      if c < 1024 && h < heads && 1 <= s <= spt && !fails(tries)
      then Some(disk(At(c, h, s)))
      else None
    }

    /** The number of the sector with these coordinates. */
    function At(c: nat, h: nat, s: nat): nat
      requires 1 <= s
    {
      (c * heads + h) * spt + (s - 1)
    }
  }

  /** Memory as the sectors read leave it, and the number of read attempts so far. What the first stage
      stores to the bytes of its own variables is in the fields of Loader. */
  datatype State = State(ram: Ram, tries: nat)

  datatype Outcome = Jump(state: State) | ReadPanic | SelfCheckPanic

  function Put(ram: Ram, at: nat, data: Sector): Ram
    requires at + 512 <= |ram|
  {
    ram[..at] + data + ram[at + 512..]
  }

  // ---------------------------------------------------------------- what the program computes

  /** The sector that is read for logical sector `lba`: two bits of the quotient's high byte are all
      that reaches the cylinder number. */
  function Target(b: Bios, lba: nat): nat
    requires b.Valid()
  {
    var q := Div(lba, b.spt);
    b.At(Div(q, b.heads) % 1024, Mod(q, b.heads), Mod(lba, b.spt) + 1)
  }

  /** Up to n attempts at one sector: success, and the attempts made so far. */
  function Attempt(b: Bios, tries: nat, n: nat): (bool, nat)
    decreases n, tries
  {
    if n == 0 then (false, tries)
    else if b.fails(tries) then Attempt(b, tries + 1, n - 1)
    else (true, tries + 1)
  }

  ghost predicate FailsUntil(b: Bios, tries: nat, end: nat) {
    forall t: nat | tries <= t < end :: b.fails(t)
  }

  /** The first attempt that does not fail ends them. */
  lemma {:induction false} AttemptSucceeds(b: Bios, tries: nat, n: nat, t: nat)
    requires tries <= t < tries + n && !b.fails(t) && FailsUntil(b, tries, t)
    ensures Attempt(b, tries, n) == (true, t + 1)
    decreases n
  {
    if tries < t { AttemptSucceeds(b, tries + 1, n - 1, t); }
  }

  lemma {:induction false} AttemptFails(b: Bios, tries: nat, n: nat)
    requires FailsUntil(b, tries, tries + n)
    ensures Attempt(b, tries, n) == (false, tries + n)
    decreases n
  {
    if n > 0 { AttemptFails(b, tries + 1, n - 1); }
  }

  lemma {:induction false} FirstSuccess(b: Bios, tries: nat, t: nat) returns (first: nat)
    requires tries <= t && !b.fails(t)
    ensures tries <= first <= t && !b.fails(first) && FailsUntil(b, tries, first)
    decreases t - tries
  {
    first := tries;
    if b.fails(tries) { first := FirstSuccess(b, tries + 1, t); }
  }

  /** n attempts succeed exactly when one of the next n does. */
  lemma AttemptIff(b: Bios, tries: nat, n: nat)
    ensures Attempt(b, tries, n).0 <==> exists t: nat | tries <= t < tries + n :: !b.fails(t)
  {
    if t: nat :| tries <= t < tries + n && !b.fails(t) {
      var first := FirstSuccess(b, tries, t);
      AttemptSucceeds(b, tries, n, first);
    } else {
      AttemptFails(b, tries, n);
    }
  }

  /** n sectors from `lba` to es:bx; None when one of them fails three times in a row. */
  function ReadN(b: Bios, s: State, lba: nat, n: nat, bx: nat): Option<State>
    requires b.Valid() && bx < 0x1_0000
    decreases n, lba
  {
    if n == 0 then Some(s)
    else
      var (ok, tries) := Attempt(b, s.tries, 3);
      if !ok then None
      else ReadN(b, State(Put(s.ram, LOAD + bx, b.disk(Target(b, lba))), tries),
                 (lba + 1) % 0x1_0000, n - 1, (bx + 512) % 0x1_0000)
  }

  lemma ReadNStep(b: Bios, s: State, lba: nat, n: nat, bx: nat)
    requires b.Valid() && bx < 0x1_0000 && 1 <= n
    ensures var (ok, tries) := Attempt(b, s.tries, 3);
            ReadN(b, s, lba, n, bx) ==
              if ok then ReadN(b, State(Put(s.ram, LOAD + bx, b.disk(Target(b, lba))), tries),
                               (lba + 1) % 0x1_0000, n - 1, (bx + 512) % 0x1_0000)
              else None
  {
  }

  /** Decrementing %cx from the byte count: the rounds left. */
  lemma LoopInstruction(nsect: nat)
    requires nsect < 256
    ensures var cx := (nsect + 0x1_0000 - 1) % 0x1_0000;
            Rounds(nsect) - 1 == if cx == 0 then 0 else Rounds(cx % 256)
  {
  }

  /** A zero byte in %cl makes the loop instruction count 256 rounds. */
  function Rounds(cl: nat): nat { if cl == 0 then 256 else cl }

  /** The cx table entries from address si on, and the check of the final si. */
  function LoadTable(b: Bios, s: State, si: nat, cx: nat, bx: nat): Outcome
    requires b.Valid() && si < 0x1_0000 && bx < 0x1_0000 && 1 <= cx
    decreases cx, si
  {
    var count := Word(s.ram, si + 2);
    match ReadN(b, s, Word(s.ram, si), Rounds(count % 256), bx)
    case None => ReadPanic
    case Some(t) =>
      var si' := (si + 4) % 0x1_0000;
      if cx > 1 then LoadTable(b, t, si', cx - 1, (bx + 512 * count % 0x1_0000) % 0x1_0000)
      else if si' == COUNT_AT then Jump(t) else SelfCheckPanic
  }

  lemma LoadTableStep(b: Bios, s: State, si: nat, cx: nat, bx: nat)
    requires b.Valid() && si < 0x1_0000 && bx < 0x1_0000 && 1 <= cx
    ensures var count := Word(s.ram, si + 2);
            var r := ReadN(b, s, Word(s.ram, si), Rounds(count % 256), bx);
            var next := (si + 4) % 0x1_0000;
            LoadTable(b, s, si, cx, bx) ==
              if r.None? then ReadPanic
              else if cx > 1 then
                LoadTable(b, r.value, next, cx - 1, (bx + 512 * count % 0x1_0000) % 0x1_0000)
              else if next == COUNT_AT then Jump(r.value) else SelfCheckPanic
  {
  }

  function TableStart(cx: nat): nat {
    (COUNT_AT - 4 * cx % 0x1_0000) % 0x1_0000
  }

  function Boot(b: Bios, s: State): Outcome
    requires b.Valid()
  {
    var cx := Word(s.ram, COUNT_AT);
    if cx == 0 then SelfCheckPanic else LoadTable(b, s, TableStart(cx), cx, 0)
  }

  // ---------------------------------------------------------------- arithmetic of the coordinates

  /** Dividing by the track size and then by the heads gives the coordinates of the sector. */
  lemma AtDivided(b: Bios, lba: nat)
    requires b.Valid()
    ensures var q := Div(lba, b.spt); b.At(Div(q, b.heads), Mod(q, b.heads), Mod(lba, b.spt) + 1) == lba
  {
    Divide(lba, b.spt);
    Divide(Div(lba, b.spt), b.heads);
  }

  lemma AtStrict(b: Bios, c: nat, d: nat, h: nat, s: nat)
    requires b.Valid() && c < d && 1 <= s
    ensures b.At(c, h, s) < b.At(d, h, s)
  {
    Scale(c, d, b.heads);
    Scale(c * b.heads + h, d * b.heads + h, b.spt);
  }

  /** A sector is found at its own place exactly when its cylinder fits ten bits. */
  lemma TargetIff(b: Bios, lba: nat)
    requires b.Valid()
    ensures Target(b, lba) == lba <==> Div(Div(lba, b.spt), b.heads) < 1024
  {
    AtDivided(b, lba);
    var q := Div(lba, b.spt);
    var c := Div(q, b.heads);
    if c < 1024 {
      assert c % 1024 == c;
    } else {
      AtStrict(b, c % 1024, c, Mod(q, b.heads), Mod(lba, b.spt) + 1);
    }
  }

  lemma StepBack(si: nat, cx: nat)
    requires 1 <= cx
    ensures ((si + 4) % 0x1_0000 + 4 * (cx - 1)) % 0x1_0000 == (si + 4 * cx) % 0x1_0000
  {
  }

  lemma TableStartReturns(cx: nat)
    ensures (TableStart(cx) + 4 * cx) % 0x1_0000 == COUNT_AT
  {
  }

  /** Whatever the count, the loop adds back what was subtracted from %si. */
  lemma {:induction false} LoadTableChecks(b: Bios, s: State, si: nat, cx: nat, bx: nat)
    requires b.Valid() && si < 0x1_0000 && bx < 0x1_0000 && 1 <= cx
    requires (si + 4 * cx) % 0x1_0000 == COUNT_AT
    ensures LoadTable(b, s, si, cx, bx) != SelfCheckPanic
    decreases cx
  {
    var count := Word(s.ram, si + 2);
    var r := ReadN(b, s, Word(s.ram, si), Rounds(count % 256), bx);
    LoadTableStep(b, s, si, cx, bx);
    StepBack(si, cx);
    if r.Some? && cx > 1 {
      LoadTableChecks(b, r.value, (si + 4) % 0x1_0000, cx - 1, (bx + 512 * count % 0x1_0000) % 0x1_0000);
    }
  }

  /** So the self-check fails for an empty table and for no other. */
  lemma SelfCheckPanicsIffEmpty(b: Bios, s: State)
    requires b.Valid()
    ensures Boot(b, s) == SelfCheckPanic <==> Word(s.ram, COUNT_AT) == 0
  {
    var cx := Word(s.ram, COUNT_AT);
    if cx > 0 {
      TableStartReturns(cx);
      LoadTableChecks(b, s, TableStart(cx), cx, 0);
    }
  }

  // ---------------------------------------------------------------- the program

  class Loader {
    const bios: Bios
    var ram: Ram
    var tries: nat
    var bpbBytesPerSector: nat
    var bpbSectorsPerTrack: nat
    var bpbHeadsPerCylinder: nat
    var sector: nat
    var head: nat
    var cyl: nat
    var nsect: nat
    var retries: nat
    var logicalSector: nat

    predicate Ready()
      reads this
    {
      && bios.Valid() && bpbBytesPerSector == 512
      && bpbSectorsPerTrack == bios.spt && bpbHeadsPerCylinder == bios.heads
    }

    /** The boot sector has been put at 0x7c00. Its header keeps the disk's own sector size and, as
        only its low byte is overwritten later, the high byte of the sectors per track. */
    constructor (bios: Bios, ram: Ram)
      ensures this.bios == bios && this.ram == ram && tries == 0
      ensures bpbBytesPerSector == Word(ram, 0x7c0b) && bpbSectorsPerTrack == Word(ram, 0x7c18)
    {
      this.bios, this.ram, tries := bios, ram, 0;
      bpbBytesPerSector, bpbSectorsPerTrack, bpbHeadsPerCylinder :=
        Word(ram, 0x7c0b), Word(ram, 0x7c18), Word(ram, 0x7c1a);
      sector, head, cyl, nsect, retries, logicalSector := 0, 0, 0, 0, 0, 0;
    }

    /** disk_get_params: a byte is stored into the low half of the sectors per track, so the geometry is
        that of the BIOS exactly when the disk's header has nothing in the high half. */
    method GetParams()
      requires bios.Valid()
      modifies this`bpbSectorsPerTrack, this`bpbHeadsPerCylinder
      ensures bpbSectorsPerTrack == old(bpbSectorsPerTrack) / 256 * 256 + bios.spt
      ensures bpbHeadsPerCylinder == bios.heads
      ensures Ready() <==> bpbBytesPerSector == 512 && old(bpbSectorsPerTrack) < 256
    {
      var cl, dh := bios.spt, bios.heads - 1;
      bpbSectorsPerTrack := bpbSectorsPerTrack / 256 * 256 + cl;
      bpbHeadsPerCylinder := dh + 1;
    }

    /** The retry loop around int 13h. */
    method ReadOne(bx: nat, ghost c: nat, ghost h: nat, ghost s: nat) returns (ok: bool)
      requires Ready() && bx < 0x1_0000 && Located(c, h, s)
      modifies this`ram, this`tries, this`retries
      ensures (ok, tries) == Attempt(bios, old(tries), 3)
      ensures ram == if ok then Put(old(ram), LOAD + bx, bios.disk(bios.At(c, h, s))) else old(ram)
    {
      retries := 3;
      ok := false;
      while retries != 0 && !ok
        invariant 0 <= retries <= 3
        invariant if ok then (true, tries) == Attempt(bios, old(tries), 3)
                  else Attempt(bios, tries, retries) == Attempt(bios, old(tries), 3)
        invariant ram == if ok then Put(old(ram), LOAD + bx, bios.disk(bios.At(c, h, s))) else old(ram)
        decreases !ok, retries
      {
        retries := retries - 1;
        var data := bios.Read(tries, cyl + 256 * (sector / 64), head, sector % 64);
        tries := tries + 1;
        if data.Some? {
          ram := Put(ram, LOAD + bx, data.value);
          ok := true;
        }
      }
    }

    /** int 13h decodes these coordinates from the variables, and they are valid. */
    ghost predicate Located(c: nat, h: nat, s: nat)
      reads this
    {
      && c == cyl + 256 * (sector / 64) && h == head && s == sector % 64
      && c < 1024 && h < bios.heads && 1 <= s <= bios.spt
    }

    /** The cylinder goes to %ch and the top of %cl. `orb` joins two numbers that share no bit: a sector number
        below 64 and the two low bits of the cylinder's high byte moved to the top. */
    method PackCylinder(q2: nat, dx: nat)
      requires q2 < 0x1_0000 && dx < 63
      modifies this`sector, this`cyl
      ensures sector % 64 == dx + 1 && cyl + 256 * (sector / 64) == q2 % 1024
    {
      sector := dx % 256;
      sector := (sector + 1) % 256;
      cyl := q2 % 256;
      var ah := q2 / 256;
      ah := ah * 64 % 256;
      Cylinder(q2, dx);
      sector := sector + ah;
    }

    /** The divisions of read_sectors. */
    method Locate(ax: nat)
      requires Ready() && ax < 0x1_0000
      modifies this`sector, this`head, this`cyl
      ensures var q := Div(ax, bios.spt);
              Located(Div(q, bios.heads) % 1024, Mod(q, bios.heads), Mod(ax, bios.spt) + 1)
    {
      var q, dx := Div(ax, bpbSectorsPerTrack), Mod(ax, bpbSectorsPerTrack);
      var q2, dx2 := Div(q, bpbHeadsPerCylinder), Mod(q, bpbHeadsPerCylinder);
      head := dx2 % 256;
      PackCylinder(q2, dx);
    }

    /** One round of the loop of read_sectors. */
    method ReadRound(ax: nat, cl: nat, bx: nat, ghost left: nat) returns (ok: bool)
      requires Ready() && ax < 0x1_0000 && cl < 256 && bx < 0x1_0000 && 1 <= left
      modifies this
      ensures Ready() && logicalSector == ax && nsect == cl
      ensures ReadN(bios, State(old(ram), old(tries)), ax, left, bx) ==
                if ok then ReadN(bios, State(ram, tries), (ax + 1) % 0x1_0000, left - 1, (bx + 512) % 0x1_0000)
                else None
    {
      logicalSector := ax;
      nsect := cl;
      Locate(ax);
      ghost var q := Div(ax, bios.spt);
      ok := ReadOne(bx, Div(q, bios.heads) % 1024, Mod(q, bios.heads), Mod(ax, bios.spt) + 1);
      ReadNStep(bios, State(old(ram), old(tries)), ax, left, bx);
    }

    /** read_sectors: %ax, %cl and %bx; the caller's registers are restored. */
    method ReadSectors(ax0: nat, cl0: nat, bx0: nat) returns (ok: bool)
      requires Ready() && ax0 < 0x1_0000 && cl0 < 256 && bx0 < 0x1_0000
      modifies this
      ensures Ready()
      ensures var r := ReadN(bios, State(old(ram), old(tries)), ax0, Rounds(cl0), bx0);
              ok == r.Some? && (ok ==> r.value == State(ram, tries))
    {
      var ax: nat, cl: nat, bx: nat := ax0, cl0, bx0;
      ghost var goal := ReadN(bios, State(ram, tries), ax0, Rounds(cl0), bx0);
      while true
        invariant Ready() && ax < 0x1_0000 && cl < 256 && bx < 0x1_0000
        invariant ReadN(bios, State(ram, tries), ax, Rounds(cl), bx) == goal
        decreases Rounds(cl)
      {
        ok := ReadRound(ax, cl, bx, Rounds(cl));
        if !ok {
          return;
        }
        bx := (bx + bpbBytesPerSector) % 0x1_0000;
        ax := (logicalSector + 1) % 0x1_0000;
        var cx := (nsect + 0x1_0000 - 1) % 0x1_0000;
        LoopInstruction(nsect);
        if cx == 0 {
          return;
        }
        cl := cx % 256;
      }
    }

    /** One round of the table loop: the entry at si, and the offset behind what it has read. */
    method LoadEntry(si: nat, bx: nat, ghost cx: nat) returns (ok: bool, next: nat)
      requires Ready() && si < 0x1_0000 && bx < 0x1_0000 && 1 <= cx
      modifies this
      ensures Ready() && next < 0x1_0000
      ensures LoadTable(bios, State(old(ram), old(tries)), si, cx, bx) ==
                var after := (si + 4) % 0x1_0000;
                if !ok then ReadPanic
                else if cx > 1 then LoadTable(bios, State(ram, tries), after, cx - 1, next)
                else if after == COUNT_AT then Jump(State(ram, tries)) else SelfCheckPanic
    {
      LoadTableStep(bios, State(ram, tries), si, cx, bx);
      var ax, count := Word(ram, si), Word(ram, si + 2);
      ok := ReadSectors(ax, count % 256, bx);
      Times(bpbBytesPerSector, 512, count);
      ax := bpbBytesPerSector * count % 0x1_0000;
      next := (bx + ax) % 0x1_0000;
    }

    /** _load_loop: cx entries of the table from address si on. */
    method LoadLoop(cx0: nat, si0: nat) returns (ok: bool, si: nat)
      requires Ready() && 1 <= cx0 && si0 < 0x1_0000
      modifies this
      ensures LoadTable(bios, State(old(ram), old(tries)), si0, cx0, 0) ==
                if !ok then ReadPanic else if si == COUNT_AT then Jump(State(ram, tries)) else SelfCheckPanic
    {
      var cx, bx: nat := cx0, 0;
      si := si0;
      ghost var goal := LoadTable(bios, State(ram, tries), si, cx, bx);
      while cx != 0
        invariant Ready() && si < 0x1_0000 && bx < 0x1_0000
        invariant goal == if cx != 0 then LoadTable(bios, State(ram, tries), si, cx, bx)
                          else if si == COUNT_AT then Jump(State(ram, tries)) else SelfCheckPanic
      {
        ok, bx := LoadEntry(si, bx, cx);
        if !ok {
          return;
        }
        si := (si + 4) % 0x1_0000;
        cx := cx - 1;
      }
      ok := true;
    }

    /** loader2, from the disk parameters on. */
    method Load() returns (outcome: Outcome)
      requires bios.Valid() && bpbBytesPerSector == 512 && bpbSectorsPerTrack < 256
      modifies this
      ensures outcome == Boot(bios, State(old(ram), old(tries)))
    {
      GetParams();
      var cx: nat := Word(ram, COUNT_AT);
      if cx == 0 {
        return SelfCheckPanic;
      }
      var ax := 4 * cx % 0x1_0000;
      var si := (COUNT_AT - ax) % 0x1_0000;
      var ok, end := LoadLoop(cx, si);
      if !ok {
        return ReadPanic;
      }
      if COUNT_AT != end {
        return SelfCheckPanic;
      }
      return Jump(State(ram, tries));
    }
  }

  lemma Times(a: nat, b: nat, n: nat)
    requires a == b
    ensures a * n == b * n
  {
  }

  lemma TopBits(high: nat)
    ensures high * 64 % 256 == 64 * (high % 4)
  {
    var top, h := high / 4, high % 4;
    assert high * 64 == 256 * top + 64 * h;
  }

  lemma Packing(dx: nat, h: nat)
    requires dx < 63 && h < 4
    ensures (dx % 256 + 1) % 256 == dx + 1
    ensures (dx + 1 + 64 * h) % 64 == dx + 1 && (dx + 1 + 64 * h) / 64 == h
  {
  }

  lemma LowTen(q: nat)
    ensures q % 256 + 256 * (q / 256 % 4) == q % 1024
  {
    var high, low := q / 256, q % 256;
    var top, h := high / 4, high % 4;
    assert q == 1024 * top + (256 * h + low);
  }

  /** Splitting a cylinder over %ch and the top of %cl, and taking it apart again. */
  lemma Cylinder(q: nat, dx: nat)
    requires q < 0x1_0000 && dx < 63
    ensures var packed := (dx % 256 + 1) % 256 + q / 256 * 64 % 256;
            packed % 64 == dx + 1 && q % 256 + 256 * (packed / 64) == q % 1024
  {
    TopBits(q / 256);
    Packing(dx, q / 256 % 4);
    LowTen(q);
  }
}
