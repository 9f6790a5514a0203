/** Installing and then booting: what the first stage loads from the table the installer wrote. */
module BootChain {
  import opened Bytes
  import opened Division
  import opened Installer
  import opened Stage1

  /** The k-th 512-byte area from the load address. */
  function Area(ram: Ram, k: nat): seq<byte>
    requires k < FULL
  {
    ram[LOAD + 512 * k..LOAD + 512 * k + 512]
  }

  /** All areas that 16-bit offsets reach. */
  function Areas(ram: Ram): (r: seq<seq<byte>>)
    ensures |r| == FULL
  {
    seq(FULL, k requires 0 <= k < FULL => Area(ram, k))
  }

  /** The area after o; the offset register wraps behind the last one. */
  function Next(o: nat): nat { if o == 127 then 0 else o + 1 }

  function Skip(o: nat, n: nat): nat { (o + n) % 128 }

  /** The areas after the listed sectors have been put down one after the other from area o. */
  function Deposit(areas: seq<seq<byte>>, b: Bios, secs: seq<nat>, o: nat): (r: seq<seq<byte>>)
    requires |areas| == FULL && o < FULL
    ensures |r| == FULL
    decreases secs
  {
    if secs == [] then areas
    else Deposit(areas[o := b.disk(secs[0])], b, secs[1..], Next(o))
  }

  lemma PutArea(ram: Ram, k: nat, data: Sector)
    requires k < FULL
    ensures Areas(Put(ram, LOAD + 512 * k, data)) == Areas(ram)[k := data]
    ensures Put(ram, LOAD + 512 * k, data)[..LOAD] == ram[..LOAD]
  {
    var ram' := Put(ram, LOAD + 512 * k, data);
    forall j | 0 <= j < FULL ensures Area(ram', j) == if j == k then data else Area(ram, j) {
      forall i | 0 <= i < 512
        ensures ram'[LOAD + 512 * j + i] == if j == k then data[i] else ram[LOAD + 512 * j + i]
      {
      }
    }
  }

  lemma SkipNext(o: nat, n: nat)
    requires o < FULL && 1 <= n
    ensures Skip(Next(o), n - 1) == Skip(o, n) && Skip(o, 0) == o
  {
  }

  lemma {:induction false} DepositConcat(areas: seq<seq<byte>>, b: Bios, s: seq<nat>, t: seq<nat>, o: nat)
    requires |areas| == FULL && o < FULL
    ensures Deposit(areas, b, s + t, o) == Deposit(Deposit(areas, b, s, o), b, t, Skip(o, |s|))
    decreases s
  {
    if s == [] {
      assert s + t == t;
    } else {
      assert (s + t)[1..] == s[1..] + t;
      SkipNext(o, |s|);
      DepositConcat(areas[o := b.disk(s[0])], b, s[1..], t, Next(o));
    }
  }

  /** How many sectors go elsewhere before one goes to area k. */
  function Until(o: nat, k: nat): nat
    requires o < FULL && k < FULL
  {
    if o <= k then k - o else k + 128 - o
  }

  lemma {:induction false} DepositMisses(areas: seq<seq<byte>>, b: Bios, secs: seq<nat>, o: nat, k: nat)
    requires |areas| == FULL && o < FULL && k < FULL && |secs| <= Until(o, k)
    ensures Deposit(areas, b, secs, o)[k] == areas[k]
    decreases secs
  {
    if secs != [] {
      DepositMisses(areas[o := b.disk(secs[0])], b, secs[1..], Next(o), k);
    }
  }

  /** An area ends up with the last sector that was put there: sector i, when fewer than 128 more
      follow it. */
  lemma {:induction false} DepositHits(areas: seq<seq<byte>>, b: Bios, secs: seq<nat>, o: nat, i: nat)
    requires |areas| == FULL && o < FULL && i < |secs| <= i + FULL
    ensures Deposit(areas, b, secs, o)[Skip(o, i)] == b.disk(secs[i])
    decreases secs
  {
    var areas' := areas[o := b.disk(secs[0])];
    if i == 0 {
      DepositMisses(areas', b, secs[1..], Next(o), o);
    } else {
      SkipNext(o, i);
      DepositHits(areas', b, secs[1..], Next(o), i - 1);
    }
  }

  /** The largest multiple of 128 below n. */
  function LastMultiple(n: nat): (m: nat)
    requires 1 <= n
    ensures m < n <= m + 128 && Skip(0, m) == 0
  {
    (n - 1) / 128 * 128
  }

  /** The first k areas hold the first k sectors. */
  ghost predicate Placed(after: seq<seq<byte>>, b: Bios, secs: seq<nat>)
    requires |after| == FULL
  {
    forall k | 0 <= k < |secs| && k < FULL :: after[k] == b.disk(secs[k])
  }

  lemma PlacedUpTo128(areas: seq<seq<byte>>, b: Bios, secs: seq<nat>)
    requires |areas| == FULL && |secs| <= FULL
    ensures Placed(Deposit(areas, b, secs, 0), b, secs)
  {
    forall k | 0 <= k < |secs| ensures Deposit(areas, b, secs, 0)[k] == b.disk(secs[k]) {
      DepositHits(areas, b, secs, 0, k);
    }
  }

  lemma FirstIsOverwritten(areas: seq<seq<byte>>, b: Bios, secs: seq<nat>) returns (last: nat)
    requires |areas| == FULL < |secs|
    ensures 0 < last < |secs| && Deposit(areas, b, secs, 0)[0] == b.disk(secs[last])
  {
    last := LastMultiple(|secs|);
    DepositHits(areas, b, secs, 0, last);
  }

  /** Loading sectors with different contents leaves the k-th one in area k for every k exactly when
      there are at most 128 of them: the 129th goes where the first one is. */
  lemma InPlaceIff(areas: seq<seq<byte>>, b: Bios, secs: seq<nat>)
    requires |areas| == FULL
    requires forall i | 0 < i < |secs| :: b.disk(secs[i]) != b.disk(secs[0])
    ensures Placed(Deposit(areas, b, secs, 0), b, secs) <==> |secs| <= FULL
  {
    if |secs| <= FULL {
      PlacedUpTo128(areas, b, secs);
    } else {
      var last := FirstIsOverwritten(areas, b, secs);
      assert Deposit(areas, b, secs, 0)[0] != b.disk(secs[0]);
    }
  }

  // ---------------------------------------------------------------- one chunk, and the table

  /** All sectors of the range have their cylinder in ten bits. */
  ghost predicate Reachable(b: Bios, secs: seq<nat>)
    requires b.Valid()
  {
    forall i | 0 <= i < |secs| :: Div(Div(secs[i], b.spt), b.heads) < 1024
  }

  /** What the byte offset in %bx becomes after a chunk. */
  lemma OffsetAfter(o: nat, count: nat)
    requires o < FULL && count <= FULL
    ensures (512 * o + 512 * count % 0x1_0000) % 0x1_0000 == 512 * Skip(o, count)
  {
    assert 512 * count % 0x1_0000 == if count == 128 then 0 else 512 * count;
    assert Skip(o, count) == if o + count < 128 then o + count
                             else if o + count < 256 then o + count - 128 else 0;
  }

  lemma OffsetNext(o: nat)
    requires o < FULL
    ensures (512 * o + 512) % 0x1_0000 == 512 * Next(o)
  {
  }

  lemma Fits16(n: nat)
    requires n < 0x1_0000
    ensures n % 0x1_0000 == n
  {
  }

  /** The first round of a read that succeeds. */
  lemma FirstRound(b: Bios, s: State, lba: nat, n: nat, o: nat) returns (t: State)
    requires b.Valid() && lba + n <= 0x1_0000 && 1 <= n && Div(Div(lba, b.spt), b.heads) < 1024 && o < FULL
    requires ReadN(b, s, lba, n, 512 * o).Some?
    ensures ReadN(b, s, lba, n, 512 * o) == ReadN(b, t, (lba + 1) % 0x1_0000, n - 1, (512 * o + 512) % 0x1_0000)
    ensures t.ram == Put(s.ram, LOAD + 512 * o, b.disk(lba))
  {
    ReadNStep(b, s, lba, n, 512 * o);
    TargetIff(b, lba);
    t := State(Put(s.ram, LOAD + 512 * o, b.disk(lba)), Attempt(b, s.tries, 3).1);
  }

  lemma FirstDeposit(b: Bios, s: State, lba: nat, n: nat, o: nat) returns (t: State)
    requires b.Valid() && lba + n <= 0x1_0000 && 1 <= n && Div(Div(lba, b.spt), b.heads) < 1024 && o < FULL
    requires ReadN(b, s, lba, n, 512 * o).Some?
    ensures Areas(t.ram) == Areas(s.ram)[o := b.disk(lba)] && t.ram[..LOAD] == s.ram[..LOAD]
    ensures ReadN(b, s, lba, n, 512 * o) == if n == 1 then Some(t) else ReadN(b, t, lba + 1, n - 1, 512 * Next(o))
  {
    t := FirstRound(b, s, lba, n, o);
    PutArea(s.ram, o, b.disk(lba));
    OffsetNext(o);
    if n > 1 { Fits16(lba + 1); }
  }

  lemma RunStep(b: Bios, lba: nat, n: nat)
    requires b.Valid() && 1 <= n && Reachable(b, Installer.Run(Range(lba, n)))
    ensures var run := Installer.Run(Range(lba, n));
            && run[0] == lba && Div(Div(lba, b.spt), b.heads) < 1024
            && run[1..] == (if n == 1 then [] else Installer.Run(Range(lba + 1, n - 1)))
            && Reachable(b, run[1..])
  {
    var run := Installer.Run(Range(lba, n));
    assert run[0] == lba;
    assert run[1..] == if n == 1 then [] else Installer.Run(Range(lba + 1, n - 1));
    forall i | 0 <= i < |run[1..]| ensures Div(Div(run[1..][i], b.spt), b.heads) < 1024 {
      assert run[1..][i] == run[i + 1];
    }
  }

  lemma {:induction false} ReadNDeposits(b: Bios, s: State, lba: nat, n: nat, o: nat)
    requires b.Valid() && lba + n <= 0x1_0000 && Reachable(b, Installer.Run(Range(lba, n))) && o < FULL
    requires ReadN(b, s, lba, n, 512 * o).Some? && 1 <= n
    ensures var r := ReadN(b, s, lba, n, 512 * o).value;
            && Areas(r.ram) == Deposit(Areas(s.ram), b, Installer.Run(Range(lba, n)), o)
            && r.ram[..LOAD] == s.ram[..LOAD]
    decreases n
  {
    var run := Installer.Run(Range(lba, n));
    RunStep(b, lba, n);
    var t := FirstDeposit(b, s, lba, n, o);
    if n > 1 { ReadNDeposits(b, t, lba + 1, n - 1, Next(o)); }
  }

  /** The table in memory below the load address holds `chunks` from address si on. */
  ghost predicate TableHolds(ram: Ram, si: nat, chunks: seq<Range>) {
    && si + 4 * |chunks| == COUNT_AT
    && forall i | 0 <= i < |chunks| ::
         Word(ram, si + 4 * i) == chunks[i].start && Word(ram, si + 4 * i + 2) == chunks[i].count
  }

  ghost predicate Loadable(b: Bios, chunks: seq<Range>)
    requires b.Valid()
  {
    && Chunked(chunks)
    && forall i | 0 <= i < |chunks| ::
         chunks[i].start + chunks[i].count <= 0x1_0000 && Reachable(b, Installer.Run(chunks[i]))
  }

  lemma SameTable(ram: Ram, ram': Ram, si: nat, chunks: seq<Range>)
    requires TableHolds(ram, si, chunks) && ram'[..LOAD] == ram[..LOAD] && chunks != []
    ensures TableHolds(ram', si + 4, chunks[1..])
  {
    forall i | 0 <= i < |chunks| - 1
      ensures Word(ram', si + 4 + 4 * i) == chunks[1..][i].start
      ensures Word(ram', si + 4 + 4 * i + 2) == chunks[1..][i].count
    {
      var a := si + 4 * (i + 1);
      assert Word(ram, a) == chunks[i + 1].start && Word(ram, a + 2) == chunks[i + 1].count;
      assert forall j | 0 <= j < LOAD :: ram'[..LOAD][j] == ram'[j] && ram[..LOAD][j] == ram[j];
    }
  }

  /** One round of the table loop, for an entry and registers in range. */
  lemma EntryStep(b: Bios, s: State, si: nat, cx: nat, c: Range, o: nat)
    requires b.Valid() && si + 4 <= COUNT_AT && Word(s.ram, si) == c.start && Word(s.ram, si + 2) == c.count
    requires 1 <= cx && (cx == 1 <==> si + 4 == COUNT_AT) && o < FULL && 1 <= c.count <= FULL
    ensures var r := ReadN(b, s, c.start, c.count, 512 * o);
            LoadTable(b, s, si, cx, 512 * o) ==
              if r.None? then ReadPanic
              else if cx == 1 then Jump(r.value)
              else LoadTable(b, r.value, si + 4, cx - 1, 512 * Skip(o, c.count))
  {
    OffsetAfter(o, c.count);
    Fits16(si + 4);
    assert c.count % 256 == c.count;
    LoadTableStep(b, s, si, cx, 512 * o);
  }

  lemma EntryDeposits(b: Bios, s: State, c: Range, o: nat)
    requires b.Valid() && o < FULL
    requires 1 <= c.count && c.start + c.count <= 0x1_0000 && Reachable(b, Installer.Run(c))
    ensures var r := ReadN(b, s, c.start, c.count, 512 * o);
            r.Some? ==> && Areas(r.value.ram) == Deposit(Areas(s.ram), b, Installer.Run(c), o)
                        && r.value.ram[..LOAD] == s.ram[..LOAD]
  {
    if ReadN(b, s, c.start, c.count, 512 * o).Some? {
      assert c == Range(c.start, c.count);
      ReadNDeposits(b, s, c.start, c.count, o);
    }
  }

  /** The first entry is read where and as expected, and the others are still there afterwards. */
  lemma TableHead(b: Bios, ram: Ram, si: nat, chunks: seq<Range>)
    requires b.Valid() && chunks != [] && TableHolds(ram, si, chunks) && Loadable(b, chunks)
    ensures Word(ram, si) == chunks[0].start && Word(ram, si + 2) == chunks[0].count
    ensures 1 <= chunks[0].count <= FULL && chunks[0].start + chunks[0].count <= 0x1_0000
    ensures Reachable(b, Installer.Run(chunks[0])) && Loadable(b, chunks[1..])
    ensures forall ram': Ram | ram'[..LOAD] == ram[..LOAD] :: TableHolds(ram', si + 4, chunks[1..])
  {
    assert Word(ram, si + 4 * 0) == chunks[0].start && Word(ram, si + 4 * 0 + 2) == chunks[0].count;
    forall ram': Ram | ram'[..LOAD] == ram[..LOAD] ensures TableHolds(ram', si + 4, chunks[1..]) {
      SameTable(ram, ram', si, chunks);
    }
  }

  /** One entry of the table: its sectors are put down, and the rest of the table is still there. */
  lemma TableRound(b: Bios, s: State, si: nat, chunks: seq<Range>, o: nat) returns (t: State)
    requires b.Valid() && chunks != [] && TableHolds(s.ram, si, chunks) && Loadable(b, chunks) && o < FULL
    requires LoadTable(b, s, si, |chunks|, 512 * o) != ReadPanic
    ensures LoadTable(b, s, si, |chunks|, 512 * o) ==
              if |chunks| == 1 then Jump(t)
              else LoadTable(b, t, si + 4, |chunks| - 1, 512 * Skip(o, chunks[0].count))
    ensures Areas(t.ram) == Deposit(Areas(s.ram), b, Installer.Run(chunks[0]), o)
    ensures TableHolds(t.ram, si + 4, chunks[1..]) && Loadable(b, chunks[1..])
  {
    var c := chunks[0];
    TableHead(b, s.ram, si, chunks);
    EntryStep(b, s, si, |chunks|, c, o);
    EntryDeposits(b, s, c, o);
    t := ReadN(b, s, c.start, c.count, 512 * o).value;
  }

  /** Where the variables of read_sectors end in memory. */
  const VARIABLES_END: nat := 0x7ce2

  /** From any table behind the variables, which change while it is read, every sector is put down in turn;
      the total has no bound. */
  lemma {:induction false} LoadTableDeposits(b: Bios, s: State, si: nat, chunks: seq<Range>, o: nat) returns (t: State)
    requires b.Valid() && chunks != [] && TableHolds(s.ram, si, chunks) && Loadable(b, chunks) && o < FULL
    requires VARIABLES_END <= si && LoadTable(b, s, si, |chunks|, 512 * o) != ReadPanic
    ensures LoadTable(b, s, si, |chunks|, 512 * o) == Jump(t)
    ensures Areas(t.ram) == Deposit(Areas(s.ram), b, Sectors(chunks), o)
    decreases |chunks|
  {
    t := TableRound(b, s, si, chunks, o);
    var next := ChunkThenRest(Areas(s.ram), b, chunks, o, Areas(t.ram));
    if |chunks| > 1 {
      t := LoadTableDeposits(b, t, si + 4, chunks[1..], next);
    }
  }

  lemma ChunkThenRest(areas: seq<seq<byte>>, b: Bios, chunks: seq<Range>, o: nat, after: seq<seq<byte>>)
    returns (next: nat)
    requires |areas| == FULL && chunks != [] && o < FULL && after == Deposit(areas, b, Installer.Run(chunks[0]), o)
    ensures next == Skip(o, chunks[0].count)
    ensures Deposit(areas, b, Sectors(chunks), o) == Deposit(after, b, Sectors(chunks[1..]), next)
    ensures |chunks| == 1 ==> Deposit(areas, b, Sectors(chunks), o) == after
  {
    next := Skip(o, chunks[0].count);
    DepositConcat(areas, b, Installer.Run(chunks[0]), Sectors(chunks[1..]), o);
  }

  // ---------------------------------------------------------------- end to end

  lemma {:induction false} SectorOf(ranges: seq<Range>, i: nat, j: nat) returns (m: nat)
    requires i < |ranges| && j < ranges[i].count
    ensures m < |Sectors(ranges)| && Sectors(ranges)[m] == ranges[i].start + j
  {
    if i == 0 {
      m := j;
    } else {
      m := SectorOf(ranges[1..], i - 1, j);
      m := m + ranges[0].count;
    }
  }

  /** What the loader asks of the file: sector numbers of 16 bits, cylinders of 10. */
  ghost predicate Numbered(b: Bios, secs: seq<nat>)
    requires b.Valid()
  {
    Reachable(b, secs) && forall i | 0 <= i < |secs| :: secs[i] < 0x1_0000
  }

  lemma ChunkLoadable(b: Bios, chunks: seq<Range>, i: nat)
    requires b.Valid() && Numbered(b, Sectors(chunks)) && i < |chunks| && 1 <= chunks[i].count
    ensures chunks[i].start + chunks[i].count <= 0x1_0000 && Reachable(b, Installer.Run(chunks[i]))
  {
    var run := Installer.Run(chunks[i]);
    var last := SectorOf(chunks, i, chunks[i].count - 1);
    forall j | 0 <= j < |run| ensures Div(Div(run[j], b.spt), b.heads) < 1024 {
      var m := SectorOf(chunks, i, j);
      assert Sectors(chunks)[m] == run[j];
    }
  }

  lemma SplitLoadable(b: Bios, ranges: seq<Range>)
    requires b.Valid() && Counted(ranges) && Numbered(b, Sectors(ranges))
    ensures Loadable(b, Split(ranges))
  {
    var chunks := Split(ranges);
    SplitChunked(ranges);
    SplitKeepsSectors(ranges);
    forall i | 0 <= i < |chunks|
      ensures chunks[i].start + chunks[i].count <= 0x1_0000 && Reachable(b, Installer.Run(chunks[i]))
    {
      ChunkLoadable(b, chunks, i);
    }
  }

  lemma {:induction false} WordsBounded(chunks: seq<Range>)
    requires forall i | 0 <= i < |chunks| :: chunks[i].start < 0x1_0000 && chunks[i].count < 0x1_0000
    ensures |Words(chunks)| == 2 * |chunks|
    ensures forall i | 0 <= i < |Words(chunks)| :: Words(chunks)[i] < 0x1_0000
  {
    if chunks != [] {
      WordsBounded(chunks[1..]);
      var w := Words(chunks[1..]);
      forall i | 0 <= i < |Words(chunks)| ensures Words(chunks)[i] < 0x1_0000 {
        if i >= 2 { assert Words(chunks)[i] == w[i - 2]; }
      }
    }
  }

  /** The payload ends where the mark begins. */
  lemma PayloadInPlace(payload: seq<byte>, disk: seq<byte>, stage1: seq<byte>, ram: Ram)
    requires |payload| <= MAGIC - HEADER && |disk| >= HEADER && |stage1| == 512
    requires ram[0x7c00..LOAD] == Assemble(disk, stage1, payload)
    ensures forall o | 0 <= o < |payload| :: ram[0x7dfe - |payload| + o] == payload[o]
  {
    AssembleIff(disk, stage1, payload);
    var bs := Assemble(disk, stage1, payload);
    forall o | 0 <= o < |payload| ensures ram[0x7dfe - |payload| + o] == payload[o] {
      assert payload[o] == bs[MAGIC - |payload|..MAGIC][o] == bs[MAGIC - |payload| + o];
      assert bs[MAGIC - |payload| + o] == ram[0x7c00..LOAD][MAGIC - |payload| + o];
    }
  }

  lemma WordsInPlace(words: seq<nat>, payload: seq<byte>, start: nat, ram: Ram)
    requires Pack(words) == Some(payload) && start + |payload| <= |ram|
    requires forall o | 0 <= o < |payload| :: ram[start + o] == payload[o]
    ensures |payload| == 2 * |words|
    ensures forall i | 0 <= i < |words| :: Word(ram, start + 2 * i) == words[i]
  {
    PackWords(words);
    forall i | 0 <= i < |words| ensures Word(ram, start + 2 * i) == words[i] {
      assert Word(payload, 2 * i) == words[i];
      assert ram[start + 2 * i] == payload[2 * i] && ram[start + (2 * i + 1)] == payload[2 * i + 1];
    }
  }

  lemma TableFromWords(chunks: seq<Range>, start: nat, ram: Ram)
    requires start + 4 * |chunks| == COUNT_AT && |Words(chunks)| == 2 * |chunks|
    requires forall i | 0 <= i < |Words(chunks)| :: Word(ram, start + 2 * i) == Words(chunks)[i]
    ensures TableHolds(ram, start, chunks)
  {
    forall i | 0 <= i < |chunks|
      ensures Word(ram, start + 4 * i) == chunks[i].start && Word(ram, start + 4 * i + 2) == chunks[i].count
    {
      WordsAt(chunks, i);
      assert Word(ram, start + 2 * (2 * i)) == Words(chunks)[2 * i];
      assert Word(ram, start + 2 * (2 * i + 1)) == Words(chunks)[2 * i + 1];
    }
  }

  lemma WordsLength(chunks: seq<Range>)
    ensures |Words(chunks)| == 2 * |chunks|
  {
    if chunks != [] { WordsAt(chunks, 0); }
  }

  lemma WordsThenCount(ws: seq<nat>, n: nat, payload: seq<byte>, start: nat, ram: Ram)
    requires Pack(ws + [n]) == Some(payload) && start + |payload| <= |ram|
    requires forall o | 0 <= o < |payload| :: ram[start + o] == payload[o]
    ensures |payload| == 2 * |ws| + 2 && Word(ram, start + 2 * |ws|) == n
    ensures forall i | 0 <= i < |ws| :: Word(ram, start + 2 * i) == ws[i]
  {
    WordsInPlace(ws + [n], payload, start, ram);
    assert (ws + [n])[|ws|] == n;
    forall i | 0 <= i < |ws| ensures Word(ram, start + 2 * i) == ws[i] {
      assert (ws + [n])[i] == ws[i];
    }
  }

  /** In the sector the words of the payload are the table that the first stage reads. */
  lemma TableInPlace(chunks: seq<Range>, payload: seq<byte>, start: nat, ram: Ram)
    requires Pack(Words(chunks) + [|chunks|]) == Some(payload) && |Words(chunks)| == 2 * |chunks|
    requires start + |payload| <= |ram| && start + 4 * |chunks| == COUNT_AT
    requires forall o | 0 <= o < |payload| :: ram[start + o] == payload[o]
    ensures Word(ram, COUNT_AT) == |chunks| && TableHolds(ram, start, chunks)
  {
    WordsThenCount(Words(chunks), |chunks|, payload, start, ram);
    TableFromWords(chunks, start, ram);
  }

  lemma PayloadExists(b: Bios, ranges: seq<Range>)
    requires b.Valid() && Counted(ranges) && Numbered(b, Sectors(ranges)) && |Split(ranges)| <= 111
    ensures Payload(ranges).Some? && |Payload(ranges).value| == 4 * |Split(ranges)| + 2
  {
    var chunks := Split(ranges);
    SplitLoadable(b, ranges);
    forall i | 0 <= i < |chunks| ensures chunks[i].start < 0x1_0000 && chunks[i].count < 0x1_0000 {
      assert 1 <= chunks[i].count <= FULL;
    }
    WordsBounded(chunks);
    PackWords(Words(chunks) + [|chunks|]);
  }

  /** One of three attempts succeeds. */
  ghost predicate Recovers(b: Bios, tries: nat) {
    exists t: nat | tries <= t < tries + 3 :: !b.fails(t)
  }

  /** No three attempts in a row fail. */
  ghost predicate Patient(b: Bios) {
    forall tries: nat :: Recovers(b, tries)
  }

  lemma PatientAttempts(b: Bios, tries: nat)
    requires Patient(b)
    ensures Attempt(b, tries, 3).0
  {
    assert Recovers(b, tries);
    AttemptIff(b, tries, 3);
  }

  lemma {:induction false} PatientReads(b: Bios, s: State, lba: nat, n: nat, bx: nat)
    requires b.Valid() && bx < 0x1_0000 && Patient(b)
    ensures ReadN(b, s, lba, n, bx).Some?
    decreases n
  {
    if n > 0 {
      ReadNStep(b, s, lba, n, bx);
      var t := State(Put(s.ram, LOAD + bx, b.disk(Target(b, lba))), Attempt(b, s.tries, 3).1);
      PatientAttempts(b, s.tries);
      PatientReads(b, t, (lba + 1) % 0x1_0000, n - 1, (bx + 512) % 0x1_0000);
    }
  }

  lemma {:induction false} PatientLoads(b: Bios, s: State, si: nat, cx: nat, bx: nat)
    requires b.Valid() && si < 0x1_0000 && bx < 0x1_0000 && 1 <= cx && Patient(b)
    ensures LoadTable(b, s, si, cx, bx) != ReadPanic
    decreases cx
  {
    var count := Word(s.ram, si + 2);
    LoadTableStep(b, s, si, cx, bx);
    PatientReads(b, s, Word(s.ram, si), Rounds(count % 256), bx);
    if cx > 1 {
      PatientLoads(b, ReadN(b, s, Word(s.ram, si), Rounds(count % 256), bx).value,
                   (si + 4) % 0x1_0000, cx - 1, (bx + 512 * count % 0x1_0000) % 0x1_0000);
    }
  }

  lemma TableStartIs(n: nat)
    requires n <= 111
    ensures TableStart(n) == COUNT_AT - 4 * n
  {
  }

  /** The first stage finds the table of an installed sector. */
  lemma BootFindsTable(b: Bios, ranges: seq<Range>, disk: seq<byte>, stage1: seq<byte>, ram: Ram)
    requires b.Valid() && Counted(ranges) && Numbered(b, Sectors(ranges))
    requires |Split(ranges)| <= 111 && |disk| >= HEADER && |stage1| == 512
    requires Payload(ranges).Some? && ram[0x7c00..LOAD] == Assemble(disk, stage1, Payload(ranges).value)
    ensures Word(ram, COUNT_AT) == |Split(ranges)|
    ensures TableStart(|Split(ranges)|) == COUNT_AT - 4 * |Split(ranges)|
    ensures TableHolds(ram, COUNT_AT - 4 * |Split(ranges)|, Split(ranges))
  {
    var chunks := Split(ranges);
    PayloadExists(b, ranges);
    PayloadInPlace(Payload(ranges).value, disk, stage1, ram);
    WordsLength(chunks);
    TableStartIs(|chunks|);
    TableInPlace(chunks, Payload(ranges).value, COUNT_AT - 4 * |chunks|, ram);
  }

  /** No sector that is read overwrites the boot sector, whatever is read from where. */
  lemma {:induction false} ReadNSparesLow(b: Bios, s: State, lba: nat, n: nat, bx: nat)
    requires b.Valid() && bx < 0x1_0000
    ensures var r := ReadN(b, s, lba, n, bx); r.Some? ==> r.value.ram[..LOAD] == s.ram[..LOAD]
    decreases n
  {
    if n > 0 {
      ReadNStep(b, s, lba, n, bx);
      var t := State(Put(s.ram, LOAD + bx, b.disk(Target(b, lba))), Attempt(b, s.tries, 3).1);
      assert t.ram[..LOAD] == s.ram[..LOAD];
      ReadNSparesLow(b, t, (lba + 1) % 0x1_0000, n - 1, (bx + 512) % 0x1_0000);
    }
  }

  lemma EntrySparesLow(b: Bios, s: State, si: nat, bx: nat) returns (r: Option<State>)
    requires b.Valid() && si < 0x1_0000 && bx < 0x1_0000
    ensures r == ReadN(b, s, Word(s.ram, si), Rounds(Word(s.ram, si + 2) % 256), bx)
    ensures r.Some? ==> r.value.ram[..LOAD] == s.ram[..LOAD]
  {
    r := ReadN(b, s, Word(s.ram, si), Rounds(Word(s.ram, si + 2) % 256), bx);
    ReadNSparesLow(b, s, Word(s.ram, si), Rounds(Word(s.ram, si + 2) % 256), bx);
  }

  lemma {:induction false} LoadTableSparesLow(b: Bios, s: State, si: nat, cx: nat, bx: nat)
    requires b.Valid() && si < 0x1_0000 && bx < 0x1_0000 && 1 <= cx
    ensures var o := LoadTable(b, s, si, cx, bx); o.Jump? ==> o.state.ram[..LOAD] == s.ram[..LOAD]
    decreases cx
  {
    var count := Word(s.ram, si + 2);
    var r := EntrySparesLow(b, s, si, bx);
    LoadTableStep(b, s, si, cx, bx);
    if r.Some? && cx > 1 {
      LoadTableSparesLow(b, r.value, (si + 4) % 0x1_0000, cx - 1, (bx + 512 * count % 0x1_0000) % 0x1_0000);
    }
  }

  // ---------------------------------------------------------------- the program in the sector

  /** Where the first stage ends in its sector, by the lengths of its instructions: the header, loader,
      print, panic, disk_reset, read_sectors with its variables, disk_get_params, and loader2 up to and
      including its jump. */
  const LOADER_END: nat := HEADER + 16 + 16 + 7 + 13 + 112 + 34 + 83   // 0x157
  /** The jump to the last panic and the five strings follow. */
  const PROGRAM_END: nat := LOADER_END + 6 + 18 + 2 + 27 + 20 + 36     // 0x1c4

  /** The first stage is in the sector bs, from behind the header up to `end`. */
  predicate Kept(bs: seq<byte>, stage1: seq<byte>, end: nat)
    requires HEADER <= end <= 512
  {
    |bs| == |stage1| == 512 && bs[HEADER..end] == stage1[HEADER..end]
  }

  /** A payload leaves the first stage up to `end` as it was, for every disk and every first stage,
      exactly when it fits behind that place. */
  lemma KeptIff(payload: seq<byte>, end: nat)
    requires HEADER <= end <= MAGIC && |payload| <= MAGIC - HEADER
    ensures (forall disk: seq<byte>, stage1: seq<byte> | |disk| >= HEADER && |stage1| == 512 ::
               Kept(Assemble(disk, stage1, payload), stage1, end))
            <==> |payload| <= MAGIC - end
  {
    if |payload| <= MAGIC - end {
      forall disk: seq<byte>, stage1: seq<byte> | |disk| >= HEADER && |stage1| == 512
        ensures Kept(Assemble(disk, stage1, payload), stage1, end)
      {
        KeptBefore(disk, stage1, payload, end);
      }
    } else {
      var other: byte := if payload[0] == 0 then 1 else 0;
      var disk, stage1 := seq(HEADER, _ => 0), seq(512, _ => other);
      var bs := Assemble(disk, stage1, payload);
      AssembleIff(disk, stage1, payload);
      var at := MAGIC - |payload|;
      assert bs[at] == bs[at..MAGIC][0] == payload[0] != stage1[at];
      assert bs[HEADER..end][at - HEADER] == bs[at] && stage1[HEADER..end][at - HEADER] == stage1[at];
      assert !Kept(Assemble(disk, stage1, payload), stage1, end);
    }
  }

  lemma SamePrefix(s: seq<byte>, t: seq<byte>, lo: nat, mid: nat, hi: nat)
    requires lo <= mid <= hi <= |s| && hi <= |t| && s[lo..hi] == t[lo..hi]
    ensures s[lo..mid] == t[lo..mid]
  {
    forall k | lo <= k < mid ensures s[k] == t[k] {
      assert s[lo..hi][k - lo] == t[lo..hi][k - lo];
    }
  }

  lemma KeptBefore(disk: seq<byte>, stage1: seq<byte>, payload: seq<byte>, end: nat)
    requires HEADER <= end <= MAGIC && |payload| <= MAGIC - end && |disk| >= HEADER && |stage1| == 512
    ensures Kept(Assemble(disk, stage1, payload), stage1, end)
  {
    AssembleIff(disk, stage1, payload);
    var bs, at := Assemble(disk, stage1, payload), MAGIC - |payload|;
    SamePrefix(bs, stage1, HEADER, end, at);
  }

  lemma PayloadLength(ranges: seq<Range>)
    requires Payload(ranges).Some?
    ensures |Payload(ranges).value| == 4 * |Split(ranges)| + 2
  {
    WordsLength(Split(ranges));
    PackWords(Words(Split(ranges)) + [|Split(ranges)|]);
  }

  /** The table is written over the end of the first stage. For every first stage of these lengths, the
      program that loads the second stage is still there afterwards exactly when the table has at most 41
      entries, and all its messages are exactly when it has at most 14. */
  lemma ProgramSurvivesIff(ranges: seq<Range>)
    requires Payload(ranges).Some? && |Split(ranges)| <= 111
    ensures (forall disk: seq<byte>, stage1: seq<byte> | |disk| >= HEADER && |stage1| == 512 ::
               Kept(Assemble(disk, stage1, Payload(ranges).value), stage1, LOADER_END))
            <==> |Split(ranges)| <= 41
    ensures (forall disk: seq<byte>, stage1: seq<byte> | |disk| >= HEADER && |stage1| == 512 ::
               Kept(Assemble(disk, stage1, Payload(ranges).value), stage1, PROGRAM_END))
            <==> |Split(ranges)| <= 14
  {
    PayloadLength(ranges);
    KeptIff(Payload(ranges).value, LOADER_END);
    KeptIff(Payload(ranges).value, PROGRAM_END);
  }

  /** Ranges of one sector are not split. */
  lemma {:induction false} Singles(ranges: seq<Range>)
    requires forall i | 0 <= i < |ranges| :: ranges[i].count == 1
    ensures Split(ranges) == ranges && |Sectors(ranges)| == |ranges|
    ensures forall i | 0 <= i < |ranges| :: Sectors(ranges)[i] == ranges[i].start
  {
    if ranges != [] {
      Singles(ranges[1..]);
      assert SplitOne(ranges[0]) == [ranges[0]];
      assert Installer.Run(ranges[0]) == [ranges[0].start];
      forall i | 0 <= i < |ranges| ensures Sectors(ranges)[i] == ranges[i].start {
        if i > 0 { assert Sectors(ranges)[i] == Sectors(ranges[1..])[i - 1]; }
      }
    }
  }

  /** The last instruction of that program is ljmp $0x07e0,$0x0000. */
  predicate JumpsAtEnd(stage1: seq<byte>) {
    |stage1| == 512 && stage1[LOADER_END - 5..LOADER_END] == [0xEA, 0x00, 0x00, 0xE0, 0x07]
  }

  lemma JumpBytes(stage1: seq<byte>)
    requires JumpsAtEnd(stage1)
    ensures stage1[338] == 0xEA && stage1[339] == 0 && stage1[340] == 0 && stage1[341] == 0xE0 && stage1[342] == 7
  {
    var jump := stage1[LOADER_END - 5..LOADER_END];
    assert jump[0] == stage1[338] && jump[1] == stage1[339] && jump[2] == stage1[340];
    assert jump[3] == stage1[341] && jump[4] == stage1[342];
  }

  lemma PayloadWord(ranges: seq<Range>, i: nat)
    requires Payload(ranges).Some? && i < |Split(ranges)|
    ensures |Payload(ranges).value| == 4 * |Split(ranges)| + 2
    ensures Word(Payload(ranges).value, 4 * i) == Split(ranges)[i].start
    ensures Word(Payload(ranges).value, 4 * i + 2) == Split(ranges)[i].count
  {
    var chunks, payload := Split(ranges), Payload(ranges).value;
    var ws := Words(chunks);
    PayloadLength(ranges);
    WordsAt(chunks, i);
    PackWords(ws + [|chunks|]);
    assert Word(payload, 2 * (2 * i)) == (ws + [|chunks|])[2 * i] == ws[2 * i];
    assert Word(payload, 2 * (2 * i + 1)) == (ws + [|chunks|])[2 * i + 1] == ws[2 * i + 1];
  }

  lemma TableByte(disk: seq<byte>, stage1: seq<byte>, payload: seq<byte>, o: nat)
    requires |disk| >= HEADER && |stage1| == 512 && o < |payload| <= MAGIC - HEADER
    ensures |Assemble(disk, stage1, payload)| == 512
    ensures Assemble(disk, stage1, payload)[MAGIC - |payload| + o] == payload[o]
  {
    AssembleIff(disk, stage1, payload);
    assert Assemble(disk, stage1, payload)[MAGIC - |payload|..MAGIC][o] == payload[o];
  }

  /** With more than 42 entries the operation code of the jump becomes the low byte of a count, which is too
      small for it. */
  lemma LongTableDestroysJump(ranges: seq<Range>, disk: seq<byte>, stage1: seq<byte>)
    requires Counted(ranges) && Payload(ranges).Some? && 43 <= |Split(ranges)| <= 111
    requires |disk| >= HEADER && JumpsAtEnd(stage1)
    ensures !Kept(Assemble(disk, stage1, Payload(ranges).value), stage1, LOADER_END)
  {
    var n, payload := |Split(ranges)|, Payload(ranges).value;
    var bs := Assemble(disk, stage1, payload);
    PayloadWord(ranges, n - 43);
    SplitChunked(ranges);
    assert 1 <= Split(ranges)[n - 43].count <= FULL;
    TableByte(disk, stage1, payload, 4 * (n - 43) + 2);
    assert bs[338] == payload[4 * (n - 43) + 2] <= FULL;
    JumpBytes(stage1);
    assert bs[HEADER..LOADER_END][338 - HEADER] == bs[338] != stage1[HEADER..LOADER_END][338 - HEADER];
  }

  /** With 42 entries the last three bytes of the jump become the start and the count of the first. */
  lemma FirstEntryIsJumpIff(ranges: seq<Range>, disk: seq<byte>, stage1: seq<byte>)
    requires Counted(ranges) && Payload(ranges).Some? && |Split(ranges)| == 42
    requires |disk| >= HEADER && JumpsAtEnd(stage1)
    ensures Kept(Assemble(disk, stage1, Payload(ranges).value), stage1, LOADER_END)
            <==> Split(ranges)[0] == Range(0xE000, 7)
  {
    var payload := Payload(ranges).value;
    var bs := Assemble(disk, stage1, payload);
    PayloadWord(ranges, 0);
    SplitChunked(ranges);
    assert 1 <= Split(ranges)[0].count <= FULL;
    KeptBefore(disk, stage1, payload, 340);
    TableByte(disk, stage1, payload, 0);
    TableByte(disk, stage1, payload, 1);
    TableByte(disk, stage1, payload, 2);
    assert bs[340] == payload[0] && bs[341] == payload[1] && bs[342] == payload[2];
    JumpBytes(stage1);
    assert bs[HEADER..LOADER_END] == bs[HEADER..340] + [bs[340], bs[341], bs[342]];
    assert stage1[HEADER..LOADER_END] == stage1[HEADER..340] + [0, 0xE0, 7];
  }

  /** The table leaves the program alone: it has at most 41 entries, or it has 42 of which the first spells
      the three bytes that it covers. */
  predicate TableFits(ranges: seq<Range>, stage1: seq<byte>) {
    |Split(ranges)| <= 41 ||
    (|Split(ranges)| == 42 && Split(ranges)[0] == Range(0xE000, 7) && JumpsAtEnd(stage1))
  }

  /** For a first stage with the jump in its place this is exact, for each of them and each disk. */
  lemma ProgramKeptIff(ranges: seq<Range>, disk: seq<byte>, stage1: seq<byte>)
    requires Counted(ranges) && Payload(ranges).Some? && |Split(ranges)| <= 111
    requires |disk| >= HEADER && JumpsAtEnd(stage1)
    ensures Kept(Assemble(disk, stage1, Payload(ranges).value), stage1, LOADER_END) <==> TableFits(ranges, stage1)
  {
    PayloadLength(ranges);
    if |Split(ranges)| <= 41 {
      KeptBefore(disk, stage1, Payload(ranges).value, LOADER_END);
    } else if |Split(ranges)| == 42 {
      FirstEntryIsJumpIff(ranges, disk, stage1);
    } else {
      LongTableDestroysJump(ranges, disk, stage1);
    }
  }

  lemma FittingTableKeeps(ranges: seq<Range>, disk: seq<byte>, stage1: seq<byte>)
    requires Counted(ranges) && Payload(ranges).Some? && TableFits(ranges, stage1)
    requires |disk| >= HEADER && |stage1| == 512
    ensures Kept(Assemble(disk, stage1, Payload(ranges).value), stage1, LOADER_END)
  {
    if |Split(ranges)| <= 41 {
      PayloadLength(ranges);
      KeptBefore(disk, stage1, Payload(ranges).value, LOADER_END);
    } else {
      ProgramKeptIff(ranges, disk, stage1);
    }
  }

  /** A file of 42 sectors in the data area of a floppy disk, no two of them next to each other: it can be
      installed, and its table overwrites the jump to the second stage. */
  lemma FragmentedFileDestroysLoader(b: Bios, disk: seq<byte>, stage1: seq<byte>)
    requires b.Valid() && |disk| >= HEADER && JumpsAtEnd(stage1)
    ensures var ranges := seq(42, i requires 0 <= i < 42 => Range(40 + 2 * i, 1));
            && Counted(ranges) && Numbered(b, Sectors(ranges)) && |Sectors(ranges)| <= FULL
            && Payload(ranges).Some? && |Split(ranges)| == 42
            && Assemble(disk, stage1, Payload(ranges).value)[LOADER_END - 5..LOADER_END]
               == [0xEA, 0x00, 40, 0x00, 1]
  {
    var ranges := seq(42, i requires 0 <= i < 42 => Range(40 + 2 * i, 1));
    Singles(ranges);
    PayloadExists(b, ranges);
    var payload := Payload(ranges).value;
    var bs := Assemble(disk, stage1, payload);
    PayloadWord(ranges, 0);
    KeptBefore(disk, stage1, payload, 340);
    TableByte(disk, stage1, payload, 0);
    TableByte(disk, stage1, payload, 1);
    TableByte(disk, stage1, payload, 2);
    assert bs[338] == bs[HEADER..340][276] == stage1[HEADER..340][276] == stage1[338];
    assert bs[339] == bs[HEADER..340][277] == stage1[HEADER..340][277] == stage1[339];
    JumpBytes(stage1);
    assert bs[LOADER_END - 5..LOADER_END] == [bs[338], bs[339], bs[340], bs[341], bs[342]];
  }

  // ---------------------------------------------------------------- booting

  /** The bytes of its own sector that the first stage stores to: the low byte of the sectors per track,
      the heads and the drive number in the header, and the variables of read_sectors. */
  predicate Stored(at: nat) {
    at == 0x18 || at == 0x1a || at == 0x1b || at == 0x24 || VARIABLES_END - 0x7c00 - 7 <= at < VARIABLES_END - 0x7c00
  }

  /** The boot sector bs is in memory, but for the bytes that it stores to itself. */
  ghost predicate Intact(ram: Ram, bs: seq<byte>) {
    |bs| == 512 && forall at | 0 <= at < 512 && !Stored(at) :: ram[0x7c00 + at] == bs[at]
  }

  lemma SameLowIsIntact(ram: Ram, after: Ram)
    requires after[..LOAD] == ram[..LOAD]
    ensures Intact(after, ram[0x7c00..LOAD])
  {
    forall at | 0 <= at < 512 ensures after[0x7c00 + at] == ram[0x7c00..LOAD][at] {
      assert after[..LOAD][0x7c00 + at] == ram[..LOAD][0x7c00 + at];
    }
  }

  /** Booting the installed sector: the table is taken up whole, every sector of the file is put down in
      order, and at the jump the boot sector with the program and the table is still in memory. This holds
      for every total; see InPlaceIff for what it means above 128. */
  lemma BootDeposits(b: Bios, ranges: seq<Range>, disk: seq<byte>, stage1: seq<byte>, ram: Ram)
    requires b.Valid() && ranges != [] && Counted(ranges) && Numbered(b, Sectors(ranges))
    requires TableFits(ranges, stage1) && |disk| >= HEADER && |stage1| == 512
    requires Payload(ranges).Some? && ram[0x7c00..LOAD] == Assemble(disk, stage1, Payload(ranges).value)
    ensures Kept(ram[0x7c00..LOAD], stage1, LOADER_END)
    ensures var o := Boot(b, State(ram, 0));
            && (Patient(b) ==> o.Jump?)
            && (o == ReadPanic || (o.Jump? && Areas(o.state.ram) == Deposit(Areas(ram), b, Sectors(ranges), 0)))
            && (o.Jump? ==> Intact(o.state.ram, ram[0x7c00..LOAD]))
  {
    var chunks := Split(ranges);
    BootFindsTable(b, ranges, disk, stage1, ram);
    SplitLoadable(b, ranges);
    SplitKeepsSectors(ranges);
    FittingTableKeeps(ranges, disk, stage1);
    var start: nat := COUNT_AT - 4 * |chunks|;
    LoadTableSparesLow(b, State(ram, 0), start, |chunks|, 512 * 0);
    if Patient(b) { PatientLoads(b, State(ram, 0), start, |chunks|, 512 * 0); }
    if Boot(b, State(ram, 0)) != ReadPanic {
      var t := LoadTableDeposits(b, State(ram, 0), start, chunks, 0);
      SameLowIsIntact(ram, t.ram);
    }
  }

  /** Every listed sector is where the second stage expects it. */
  ghost predicate InPlace(ram: Ram, b: Bios, secs: seq<nat>) {
    |secs| <= FULL && forall k | 0 <= k < |secs| :: Area(ram, k) == b.disk(secs[k])
  }

  lemma DepositInPlace(ram: Ram, after: Ram, b: Bios, secs: seq<nat>)
    requires |secs| <= FULL && Areas(after) == Deposit(Areas(ram), b, secs, 0)
    ensures InPlace(after, b, secs)
  {
    forall k | 0 <= k < |secs| ensures Area(after, k) == b.disk(secs[k]) {
      DepositHits(Areas(ram), b, secs, 0, k);
      assert Areas(after)[k] == Area(after, k);
    }
  }

  /** install_stage1 and introduce_payload */
  method InstallStage1(ranges: seq<Range>, disk: seq<byte>, stage1: seq<byte>) returns (bs: Option<seq<byte>>)
    ensures bs == match Payload(ranges)
                  case None => None
                  case Some(payload) => Some(Assemble(disk, stage1, payload))
  {
    var chunks := Avoid64kBoundary(ranges);
    var payload := Pack(Words(chunks) + [|chunks|]);
    match payload {
      case None => bs := None;
      case Some(p) => bs := Some(Assemble(disk, stage1, p));
    }
  }

  /** Installing a file of up to 128 sectors and booting it: the boot sector is one sector and holds the
      first stage, which stays in memory but for its variables and finds its table, and the k-th sector of
      the file is at 0x7e00 + 512 * k. */
  method InstallAndBoot(b: Bios, ranges: seq<Range>, disk: seq<byte>, stage1: seq<byte>, low: Ram)
    returns (bs: seq<byte>, outcome: Outcome)
    requires b.Valid() && ranges != [] && Counted(ranges) && Numbered(b, Sectors(ranges))
    requires |Sectors(ranges)| <= FULL && TableFits(ranges, stage1)
    requires |disk| >= HEADER && |stage1| == 512 && Word(disk, 0x0b) == 512 && disk[0x19] == 0
    ensures |bs| == 512 && bs[..HEADER] == disk[..HEADER] && bs[MAGIC..] == stage1[MAGIC..]
    ensures Kept(bs, stage1, LOADER_END) && (|Split(ranges)| <= 14 ==> Kept(bs, stage1, PROGRAM_END))
    ensures outcome.Jump? ==> Intact(outcome.state.ram, bs)
    ensures Patient(b) ==> outcome.Jump?
    ensures outcome == ReadPanic || (outcome.Jump? && InPlace(outcome.state.ram, b, Sectors(ranges)))
  {
    PayloadExists(b, ranges);
    var sector := InstallStage1(ranges, disk, stage1);
    bs := sector.value;
    AssembleIff(disk, stage1, Payload(ranges).value);
    var ram: Ram := low[..0x7c00] + bs + low[LOAD..];
    assert ram[0x7c00..LOAD] == bs;
    HeaderInPlace(disk, bs, ram);
    var loader := new Loader(b, ram);
    outcome := loader.Load();
    BootDeposits(b, ranges, disk, stage1, ram);
    if |Split(ranges)| <= 14 {
      PayloadLength(ranges);
      KeptBefore(disk, stage1, Payload(ranges).value, PROGRAM_END);
    }
    if outcome.Jump? { DepositInPlace(ram, outcome.state.ram, b, Sectors(ranges)); }
  }

  lemma HeaderInPlace(disk: seq<byte>, bs: seq<byte>, ram: Ram)
    requires |disk| >= HEADER && |bs| == 512 && bs[..HEADER] == disk[..HEADER] && ram[0x7c00..LOAD] == bs
    ensures Word(ram, 0x7c0b) == Word(disk, 0x0b) && ram[0x7c19] == disk[0x19]
  {
    forall i | 0 <= i < HEADER ensures ram[0x7c00 + i] == disk[i] {
      assert ram[0x7c00..LOAD][i] == bs[i] == bs[..HEADER][i];
    }
  }
}
