/** The motors of bootloader/stage2/devices/floppy/floppy.c: a state per drive, the controller's
    digital output register, and a timer task that stops motors that have waited long enough. */
module Motor {
  import Timer

  datatype MotorState = Off | On | Wait

  datatype Unit = Unit(state: MotorState, ticks: nat)

  /** The two drives and the register: bits 4 and 5 run the motors, the low bits select a drive. */
  datatype Fdc = Fdc(units: seq<Unit>, dor: bv8) {
    predicate Valid() {
      |units| == 2 && forall d | 0 <= d < 2 :: units[d].ticks < 0x1_0000
    }
  }

  type Drive = d: nat | d < 2

  function Mask(d: Drive): bv8 { if d == 0 then 0x10 else 0x20 }

  predicate Spins(f: Fdc, d: Drive) { f.dor & Mask(d) != 0 }

  // ---------------------------------------------------------------- operations

  /** fd_motor(FD_MOTOR_ON): only a motor that is off touches the register. */
  function TurnOn(f: Fdc, d: Drive): Fdc
    requires |f.units| == 2
  {
    var u := f.units[d];
    f.(units := f.units[d := u.(state := On)], dor := if u.state.Off? then f.dor | Mask(d) else f.dor)
  }

  /** fd_motor(FD_MOTOR_OFF) */
  function Release(f: Fdc, d: Drive): Fdc
    requires |f.units| == 2
  {
    f.(units := f.units[d := Unit(Wait, 300)])
  }

  /** fd_motor_kill */
  function Kill(f: Fdc, d: Drive): Fdc
    requires |f.units| == 2
  {
    f.(units := f.units[d := f.units[d].(state := Off)], dor := f.dor & !Mask(d))
  }

  /** Subtraction in the 16 bits of motor_ticks. */
  function Sub16(a: nat, b: nat): nat
    requires b < 0x1_0000
  {
    if a < b then a + 0x1_0000 - b else a - b
  }

  /** fd_timer on one drive. */
  function WaitLess(f: Fdc, d: Drive): Fdc
    requires |f.units| == 2
  {
    var u := f.units[d];
    if !u.state.Wait? then f
    else
      var ticks := Sub16(u.ticks, 50);
      var g := f.(units := f.units[d := Unit(Wait, ticks)]);
      if ticks == 0 then Kill(g, d) else g
  }

  function FdTimer(f: Fdc): Fdc
    requires |f.units| == 2
  {
    WaitLess(WaitLess(f, 0), 1)
  }

  /** The first lines of fd_activate. */
  function Select(f: Fdc, d: Drive): Fdc {
    f.(dor := (f.dor & 0xFC) | (if d == 0 then 0 else 1))
  }

  /** fd_reset leaves the register with both motors off, and the drives' states as they are. */
  function Reset(f: Fdc): Fdc { f.(dor := 0x0c) }

  datatype Op = TurnOnOp(d: Drive) | ReleaseOp(d: Drive) | TimerOp | SelectOp(d: Drive) | ResetOp

  function Apply(f: Fdc, op: Op): Fdc
    requires |f.units| == 2
  {
    match op
    case TurnOnOp(d) => TurnOn(f, d)
    case ReleaseOp(d) => Release(f, d)
    case TimerOp => FdTimer(f)
    case SelectOp(d) => Select(f, d)
    case ResetOp => Reset(f)
  }

  function ApplyAll(f: Fdc, ops: seq<Op>): (r: Fdc)
    requires f.Valid()
    ensures r.Valid()
    decreases ops
  {
    if ops == [] then f else ApplyAll(Apply(f, ops[0]), ops[1..])
  }

  function Initial(dor: bv8): Fdc { Fdc([Unit(Off, 0), Unit(Off, 0)], dor) }

  // ---------------------------------------------------------------- what every operation keeps

  predicate Remaining(ticks: nat) {
    ticks == 50 || ticks == 100 || ticks == 150 || ticks == 200 || ticks == 250 || ticks == 300
  }

  /** A waiting motor has a positive multiple of 50 ticks left, so the subtraction never wraps; and a
      motor that is off does not spin. */
  ghost predicate InvOn(f: Fdc, d: Drive)
    requires |f.units| == 2
  {
    && (f.units[d].state.Wait? ==> Remaining(f.units[d].ticks))
    && (f.units[d].state.Off? ==> !Spins(f, d))
  }

  ghost predicate Inv(f: Fdc) {
    f.Valid() && InvOn(f, 0) && InvOn(f, 1)
  }

  lemma ApplyValid(f: Fdc, op: Op)
    requires f.Valid()
    ensures Apply(f, op).Valid()
  {
  }

  /** Whether each drive stands still although its state is not Off: a reset has stopped it behind the
      back of its state, or it was released while off. */
  type Stalls = s: seq<bool> | |s| == 2 witness [false, false]

  const NONE: Stalls := [false, false]

  function Stall(f: Fdc, op: Op, stalled: Stalls): Stalls
    requires |f.units| == 2
  {
    match op
    case ResetOp => [!f.units[0].state.Off?, !f.units[1].state.Off?]
    case TimerOp =>
      var g := FdTimer(f);
      [stalled[0] && !g.units[0].state.Off?, stalled[1] && !g.units[1].state.Off?]
    case ReleaseOp(d) => stalled[d := stalled[d] || f.units[d].state.Off?]
    case _ => stalled
  }

  function Stalled(f: Fdc, ops: seq<Op>, stalled: Stalls): Stalls
    requires f.Valid()
    decreases ops
  {
    if ops == [] then stalled
    else
      ApplyValid(f, ops[0]);
      Stalled(Apply(f, ops[0]), ops[1..], Stall(f, ops[0], stalled))
  }

  /** The register and the states agree on every drive but the stalled ones, which stand still. */
  ghost predicate AgreeOn(f: Fdc, d: Drive, stalled: bool)
    requires |f.units| == 2
  {
    && InvOn(f, d)
    && (stalled ==> !f.units[d].state.Off? && !Spins(f, d))
    && (!stalled ==> (f.units[d].state.Off? <==> !Spins(f, d)))
  }

  ghost predicate Agree(f: Fdc, stalled: Stalls) {
    f.Valid() && AgreeOn(f, 0, stalled[0]) && AgreeOn(f, 1, stalled[1])
  }

  lemma MaskApart(dor: bv8)
    ensures (dor | 0x10) & 0x10 != 0 && (dor | 0x10) & 0x20 == dor & 0x20
    ensures (dor | 0x20) & 0x20 != 0 && (dor | 0x20) & 0x10 == dor & 0x10
    ensures (dor & !0x10) & 0x10 == 0 && (dor & !0x10) & 0x20 == dor & 0x20
    ensures (dor & !0x20) & 0x20 == 0 && (dor & !0x20) & 0x10 == dor & 0x10
    ensures (dor & 0xFC) & 0x10 == dor & 0x10 && (dor & 0xFC) & 0x20 == dor & 0x20
    ensures ((dor & 0xFC) | 1) & 0x10 == dor & 0x10 && ((dor & 0xFC) | 1) & 0x20 == dor & 0x20
    ensures ((dor & 0xFC) | 0) & 0x10 == dor & 0x10 && ((dor & 0xFC) | 0) & 0x20 == dor & 0x20
    ensures 0x0c as bv8 & 0x10 == 0 && 0x0c as bv8 & 0x20 == 0
  {
  }

  lemma KillStops(f: Fdc, d: Drive)
    requires f.Valid()
    ensures forall g: Fdc | g.dor == f.dor & !Mask(d) :: !Spins(g, d) && Spins(g, 1 - d) == Spins(f, 1 - d)
  {
    MaskApart(f.dor);
  }

  lemma WaitLessSelf(f: Fdc, d: Drive, stalled: bool)
    requires f.Valid() && AgreeOn(f, d, stalled)
    ensures var g := WaitLess(f, d); g.Valid() && AgreeOn(g, d, stalled && !g.units[d].state.Off?)
  {
    KillStops(f, d);
  }

  lemma WaitLessOther(f: Fdc, d: Drive, stalled: bool)
    requires f.Valid() && AgreeOn(f, 1 - d, stalled)
    ensures var g := WaitLess(f, d); g.units[1 - d] == f.units[1 - d] && AgreeOn(g, 1 - d, stalled)
  {
    KillStops(f, d);
  }

  lemma TimerAgrees(f: Fdc, stalled: Stalls)
    requires Agree(f, stalled)
    ensures Agree(FdTimer(f), Stall(f, TimerOp, stalled))
  {
    WaitLessSelf(f, 0, stalled[0]);
    WaitLessOther(f, 0, stalled[1]);
    var g := WaitLess(f, 0);
    WaitLessSelf(g, 1, stalled[1]);
    WaitLessOther(g, 1, stalled[0] && !g.units[0].state.Off?);
  }

  lemma ApplyAgrees(f: Fdc, op: Op, stalled: Stalls)
    requires Agree(f, stalled)
    ensures Agree(Apply(f, op), Stall(f, op, stalled))
  {
    MaskApart(f.dor);
    MaskApart(0x0c);
    if op.TimerOp? { TimerAgrees(f, stalled); }
  }

  lemma {:induction false} RunAgrees(f: Fdc, ops: seq<Op>, stalled: Stalls)
    requires Agree(f, stalled)
    ensures Agree(ApplyAll(f, ops), Stalled(f, ops, stalled))
    decreases ops
  {
    if ops != [] {
      ApplyAgrees(f, ops[0], stalled);
      RunAgrees(Apply(f, ops[0]), ops[1..], Stall(f, ops[0], stalled));
    }
  }

  /** What a caller can check before each operation: no reset, and no release of a motor that is off. */
  predicate Careful(f: Fdc, ops: seq<Op>)
    requires f.Valid()
    decreases ops
  {
    ops == [] ||
    (ApplyValid(f, ops[0]);
     !ops[0].ResetOp? && (ops[0].ReleaseOp? ==> !f.units[ops[0].d].state.Off?) && Careful(Apply(f, ops[0]), ops[1..]))
  }

  lemma {:induction false} CarefulNeverStalls(f: Fdc, ops: seq<Op>)
    requires f.Valid() && Agree(f, NONE) && Careful(f, ops)
    ensures Stalled(f, ops, NONE) == NONE
    decreases ops
  {
    if ops != [] {
      ApplyAgrees(f, ops[0], NONE);
      assert Stall(f, ops[0], NONE) == NONE;
      CarefulNeverStalls(Apply(f, ops[0]), ops[1..]);
    }
  }

  /** From the start, a drive that is off never spins; one that is not off spins exactly when it has
      not been stalled; and in careful runs the register and the states agree. */
  lemma MotorMatchesState(dor: bv8, ops: seq<Op>, d: Drive)
    requires dor & 0x30 == 0
    ensures var f := ApplyAll(Initial(dor), ops);
            && (f.units[d].state.Off? ==> !Spins(f, d))
            && (!f.units[d].state.Off? ==> (Spins(f, d) <==> !Stalled(Initial(dor), ops, NONE)[d]))
            && (Careful(Initial(dor), ops) ==> (f.units[d].state.Off? <==> !Spins(f, d)))
  {
    assert dor & 0x10 == 0 && dor & 0x20 == 0;
    RunAgrees(Initial(dor), ops, NONE);
    if Careful(Initial(dor), ops) { CarefulNeverStalls(Initial(dor), ops); }
  }

  lemma ApplyMore(f: Fdc, op: Op, ops: seq<Op>)
    requires f.Valid() && Apply(f, op).Valid()
    ensures ApplyAll(f, [op] + ops) == ApplyAll(Apply(f, op), ops)
  {
    assert ([op] + ops)[1..] == ops;
  }

  lemma ApplyThree(f: Fdc, a: Op, b: Op, c: Op)
    requires f.Valid()
    ensures ApplyAll(f, [a] + ([b] + ([c] + []))) == Apply(Apply(Apply(f, a), b), c)
  {
    ApplyValid(f, a);
    ApplyValid(Apply(f, a), b);
    ApplyValid(Apply(Apply(f, a), b), c);
    ApplyMore(f, a, [b] + ([c] + []));
    ApplyMore(Apply(f, a), b, [c] + []);
    ApplyMore(Apply(Apply(f, a), b), c, []);
  }

  /** Both ways of stalling: the motor is on by its state, and stands still. */
  lemma OnButStill(d: Drive)
    ensures var f := ApplyAll(Initial(0x0c), [TurnOnOp(d)] + ([ResetOp] + ([TurnOnOp(d)] + [])));
            f.units[d].state.On? && !Spins(f, d)
    ensures var f := ApplyAll(Initial(0x0c), [SelectOp(d)] + ([ReleaseOp(d)] + ([TurnOnOp(d)] + [])));
            f.units[d].state.On? && !Spins(f, d)
  {
    var f0 := Initial(0x0c);
    MaskApart(0x0c);
    ApplyThree(f0, TurnOnOp(d), ResetOp, TurnOnOp(d));
    var g := Apply(Apply(f0, TurnOnOp(d)), ResetOp);
    assert g.units[d].state.On? && Apply(g, TurnOnOp(d)).dor == 0x0c;
    ApplyThree(f0, SelectOp(d), ReleaseOp(d), TurnOnOp(d));
    var h := Apply(Apply(f0, SelectOp(d)), ReleaseOp(d));
    assert h.units[d].state.Wait? && Apply(h, TurnOnOp(d)).dor == Select(f0, d).dor;
    assert !Spins(Select(f0, d), d);
  }

  // ---------------------------------------------------------------- one read

  /** fd_activate up to its test for a changed disk. */
  function Activated(f: Fdc, d: Drive): Fdc
    requires |f.units| == 2
  {
    TurnOn(Select(f, d), d)
  }

  /** What a read leaves of the controller; a timeout has reset it before the drive is released. */
  function AfterRead(f: Fdc, d: Drive, reset: bool): Fdc
    requires |f.units| == 2
  {
    Release(if reset then Reset(Activated(f, d)) else Activated(f, d), d)
  }

  /** The register after fd_activate, bit by bit: the drive's number in the low two, its motor bit set when it
      was off by its state, and the six others as they were. */
  lemma ActivatedRegister(f: Fdc, d: Drive)
    requires f.Valid()
    ensures var dor := Activated(f, d).dor;
            && dor & 0x03 == d as bv8 && dor & 0xCC == f.dor & 0xCC
            && dor & (0x10 << (1 - d)) == f.dor & (0x10 << (1 - d))
            && dor & (0x10 << d) == (if f.units[d].state.Off? then 0x10 << d else f.dor & (0x10 << d))
  {
    MaskApart(f.dor);
    RegisterBits(f.dor);
    if d == 0 {
      assert d as bv8 == 0 && 0x10 as bv8 << 0 == 0x10 && 0x10 as bv8 << 1 == 0x20;
    } else {
      assert d as bv8 == 1 && 0x10 as bv8 << 0 == 0x10 && 0x10 as bv8 << 1 == 0x20;
    }
  }

  lemma RegisterBits(dor: bv8)
    ensures ((dor & 0xFC) | 0) & 0x03 == 0 && ((dor & 0xFC) | 1) & 0x03 == 1
    ensures ((dor & 0xFC) | 0) & 0xCC == dor & 0xCC && ((dor & 0xFC) | 1) & 0xCC == dor & 0xCC
    ensures (((dor & 0xFC) | 0) | 0x10) & 0x03 == 0 && (((dor & 0xFC) | 1) | 0x20) & 0x03 == 1
    ensures (((dor & 0xFC) | 0) | 0x10) & 0xCC == dor & 0xCC && (((dor & 0xFC) | 1) | 0x20) & 0xCC == dor & 0xCC
    ensures (((dor & 0xFC) | 0) | 0x10) & 0x20 == dor & 0x20 && (((dor & 0xFC) | 1) | 0x20) & 0x10 == dor & 0x10
    ensures (((dor & 0xFC) | 0) | 0x10) & 0x10 == 0x10 && (((dor & 0xFC) | 1) | 0x20) & 0x20 == 0x20
  {
  }

  /** Stopping a motor clears its bit and no other, and a reset leaves both motors off and drive 0 selected. */
  lemma KilledRegister(f: Fdc, d: Drive)
    requires f.Valid()
    ensures Kill(f, d).dor == f.dor & !(0x10 << d) && Reset(f).dor == 0x0c
  {
    assert 0x10 as bv8 << 0 == 0x10 && 0x10 as bv8 << 1 == 0x20;
  }

  /** After a read the drive waits; its motor still turns exactly when nothing was reset and it turned
      before, or was off by its state. The other drive's state is what it was. */
  lemma SpinsAfterReadIff(f: Fdc, d: Drive, reset: bool)
    requires f.Valid()
    ensures var g := AfterRead(f, d, reset);
            && g.Valid() && g.units[d] == Unit(Wait, 300) && g.units[1 - d] == f.units[1 - d]
            && (Spins(g, d) <==> !reset && (Spins(f, d) || f.units[d].state.Off?))
            && (Spins(g, 1 - d) <==> !reset && Spins(f, 1 - d))
  {
    MaskApart(f.dor);
    MaskApart(Select(f, d).dor);
  }

  /** The motor of drive d stands still, n calls of fd_timer after it was released. */
  ghost predicate Still(f: Fdc, d: Drive, n: nat) {
    f.Valid() && !Spins(f, d) &&
    if n < 6 then f.units[d] == Unit(Wait, 300 - 50 * n) else f.units[d].state.Off?
  }

  /** An operation that is neither a switch nor a release of this drive. */
  predicate Leaves(op: Op, d: Drive) {
    op != TurnOnOp(d) && op != ReleaseOp(d)
  }

  function TimerCalls(ops: seq<Op>): nat {
    if ops == [] then 0 else (if ops[0].TimerOp? then 1 else 0) + TimerCalls(ops[1..])
  }

  lemma WaitLessStill(f: Fdc, d: Drive, n: nat)
    requires Still(f, d, n)
    ensures Still(WaitLess(f, d), d, n + 1)
  {
    KillStops(f, d);
    if n < 6 { assert Sub16(300 - 50 * n, 50) == 300 - 50 * (n + 1); }
  }

  lemma OtherWaitLessStill(f: Fdc, d: Drive, n: nat)
    requires Still(f, d, n)
    ensures Still(WaitLess(f, 1 - d), d, n)
  {
    var g := WaitLess(f, 1 - d);
    assert g.units[d] == f.units[d];
    KillStops(f, 1 - d);
    assert !Spins(g, d);
  }

  lemma ApplyStill(f: Fdc, op: Op, d: Drive, n: nat)
    requires Still(f, d, n) && Leaves(op, d)
    ensures Still(Apply(f, op), d, if op.TimerOp? then n + 1 else n)
  {
    MaskApart(f.dor);
    if op.TimerOp? {
      if d == 0 {
        WaitLessStill(f, 0, n);
        OtherWaitLessStill(WaitLess(f, 0), 0, n + 1);
      } else {
        OtherWaitLessStill(f, 1, n);
        WaitLessStill(WaitLess(f, 0), 1, n);
      }
    }
  }

  lemma {:induction false} ApplyAllStill(f: Fdc, ops: seq<Op>, d: Drive, n: nat)
    requires Still(f, d, n) && forall i | 0 <= i < |ops| :: Leaves(ops[i], d)
    ensures Still(ApplyAll(f, ops), d, n + TimerCalls(ops))
    decreases ops
  {
    if ops != [] {
      ApplyStill(f, ops[0], d, n);
      ApplyAllStill(Apply(f, ops[0]), ops[1..], d, if ops[0].TimerOp? then n + 1 else n);
    }
  }

  /** After a read that has timed out, whatever happens to the other drive: the next read of this one runs
      with its motor turning exactly when fd_timer was called at least six times in between. Before that, the
      state says that the motor need not be switched on. */
  lemma NextReadSpinsIff(f: Fdc, d: Drive, ops: seq<Op>)
    requires f.Valid() && forall i | 0 <= i < |ops| :: Leaves(ops[i], d)
    ensures var g := Activated(ApplyAll(AfterRead(f, d, true), ops), d);
            g.units[d].state.On? && (Spins(g, d) <==> 6 <= TimerCalls(ops))
  {
    SpinsAfterReadIff(f, d, true);
    ApplyAllStill(AfterRead(f, d, true), ops, d, 0);
    var h := ApplyAll(AfterRead(f, d, true), ops);
    MaskApart(h.dor);
    MaskApart(Select(h, d).dor);
  }

  // ---------------------------------------------------------------- together with the timer

  /** The timer's table, the slot of fd_timer in it, and the controller. */
  datatype System = System(timer: Timer.Table, slot: nat, fdc: Fdc)

  datatype Event = Tick | Other(e: Timer.Event) | Motor(op: Op)

  /** Events other than ticks, and operations that are not about drive d; fd_timer is called by ticks
      only. */
  predicate LeavesAlone(e: Event, slot: nat, d: Drive) {
    match e
    case Tick => true
    case Other(t) => !t.TickEvent? && Timer.Spares(t, slot)
    case Motor(op) => op.SelectOp? || op.ResetOp? || (op.TurnOnOp? && op.d != d) || (op.ReleaseOp? && op.d != d)
  }

  function Next(s: System, e: Event): System
    requires s.timer.Valid() && s.slot < Timer.MAX_TASKS && s.fdc.Valid()
    requires e.Other? && e.e.UnregisterEvent? ==> e.e.id < Timer.MAX_TASKS
  {
    match e
    case Tick =>
      var due := Timer.Due(s.timer.tasks[s.slot], s.timer.counter + 1);
      System(Timer.Tick(s.timer), s.slot, if due then FdTimer(s.fdc) else s.fdc)
    case Other(t) => s.(timer := Timer.Next(s.timer, t))
    case Motor(op) => s.(fdc := Apply(s.fdc, op))
  }

  /** Drive d was released at count `since`, when fd_timer had last been called at `last`; n calls
      later it is waiting with the rest of its ticks, or off after the sixth. */
  ghost predicate Waiting(s: System, d: Drive, last: nat, n: nat) {
    && Inv(s.fdc) && Timer.OnSchedule(s.timer, s.slot, last + 50 * n, 50)
    && (n < 6 ==> s.fdc.units[d] == Unit(Wait, 300 - 50 * n))
    && (n >= 6 ==> s.fdc.units[d].state.Off?)
  }

  lemma FdTimerOn(f: Fdc, d: Drive)
    requires f.Valid()
    ensures FdTimer(f).units[d] == WaitLess(f, d).units[d]
  {
  }

  lemma ApplyInv(f: Fdc, op: Op)
    requires Inv(f)
    ensures Inv(Apply(f, op))
  {
    var stalled := [!f.units[0].state.Off? && !Spins(f, 0), !f.units[1].state.Off? && !Spins(f, 1)];
    ApplyAgrees(f, op, stalled);
  }

  lemma NextWaiting(s: System, e: Event, d: Drive, last: nat, n: nat)
    requires Waiting(s, d, last, n) && LeavesAlone(e, s.slot, d)
    requires Next(s, e).timer.counter < Timer.WORD
    ensures var due := e.Tick? && s.timer.counter + 1 == last + 50 * (n + 1);
            Waiting(Next(s, e), d, last, if due then n + 1 else n)
  {
    var t := if e.Tick? then Timer.TickEvent else if e.Other? then e.e else Timer.RegisterEvent(1, 0);
    match e
    case Tick =>
      Timer.NextOnSchedule(s.timer, t, s.slot, last + 50 * n, 50);
      ApplyInv(s.fdc, TimerOp);
      FdTimerOn(s.fdc, d);
    case Other(_) => Timer.NextOnSchedule(s.timer, t, s.slot, last + 50 * n, 50);
    case Motor(op) => ApplyInv(s.fdc, op);
  }

  function Run(s: System, events: seq<Event>, d: Drive): (r: System)
    requires s.timer.Valid() && s.slot < Timer.MAX_TASKS && s.fdc.Valid()
    requires forall i | 0 <= i < |events| :: LeavesAlone(events[i], s.slot, d)
    ensures s.timer.counter <= r.timer.counter && r.fdc.Valid()
    decreases |events|
  {
    if events == [] then s
    else
      assert LeavesAlone(events[0], s.slot, d);
      Run(Next(s, events[0]), events[1..], d)
  }

  lemma {:induction false} StaysWaiting(s: System, events: seq<Event>, d: Drive, last: nat, n: nat) returns (m: nat)
    requires Waiting(s, d, last, n)
    requires forall i | 0 <= i < |events| :: LeavesAlone(events[i], s.slot, d)
    requires Run(s, events, d).timer.counter < Timer.WORD
    ensures Waiting(Run(s, events, d), d, last, m)
    decreases |events|
  {
    if events == [] {
      m := n;
    } else {
      var due := events[0].Tick? && s.timer.counter + 1 == last + 50 * (n + 1);
      NextWaiting(s, events[0], d, last, n);
      m := StaysWaiting(Next(s, events[0]), events[1..], d, last, if due then n + 1 else n);
    }
  }

  /** A motor released at count t and not touched again is still waiting at t + 250, and is off and
      still by t + 300, whatever else happens; its ticks are a positive multiple of 50 meanwhile. */
  lemma KilledInTime(s: System, events: seq<Event>, d: Drive, last: nat)
    requires Inv(s.fdc) && Timer.OnSchedule(s.timer, s.slot, last, 50)
    requires forall i | 0 <= i < |events| :: LeavesAlone(events[i], s.slot, d)
    requires Run(Next(s, Motor(ReleaseOp(d))), events, d).timer.counter < Timer.WORD
    ensures var r := Run(Next(s, Motor(ReleaseOp(d))), events, d);
            var u := r.fdc.units[d];
            && (r.timer.counter <= s.timer.counter + 250 ==>
                  u.state.Wait? && Remaining(u.ticks))
            && (s.timer.counter + 300 <= r.timer.counter ==> u.state.Off? && !Spins(r.fdc, d))
  {
    var t := Next(s, Motor(ReleaseOp(d)));
    ApplyInv(s.fdc, ReleaseOp(d));
    var n := StaysWaiting(t, events, d, last, 0);
  }

  // ---------------------------------------------------------------- the driver

  class Controller {
    const units: array<Unit>
    var dor: bv8

    ghost function Abs(): Fdc
      reads this, units
    {
      Fdc(units[..], dor)
    }

    ghost predicate Valid()
      reads this, units
    {
      units.Length == 2 && Abs().Valid()
    }

    constructor (dor: bv8)
      ensures Valid() && fresh(units) && Abs() == Initial(dor)
    {
      units := new Unit[2](_ => Unit(Off, 0));
      this.dor := dor;
      new;
      assert units[..] == [Unit(Off, 0), Unit(Off, 0)];
    }

    /** fd_motor */
    method MotorSwitch(d: Drive, on: bool)
      requires Valid()
      modifies this, units
      ensures Valid() && Abs() == if on then TurnOn(old(Abs()), d) else Release(old(Abs()), d)
    {
      var u := units[d];
      if on {
        if u.state == Off {
          var value := dor;
          value := value | Mask(d);
          dor := value;
        }
        u := u.(state := On);
      } else {
        u := u.(ticks := 300);
        u := u.(state := Wait);
      }
      units[d] := u;
      assert units[..] == old(units[..])[d := u];
    }

    /** fd_motor_kill */
    method MotorKill(d: Drive)
      requires Valid()
      modifies this, units
      ensures Valid() && Abs() == Kill(old(Abs()), d)
    {
      var value := dor;
      value := value & !Mask(d);
      dor := value;
      units[d] := units[d].(state := Off);
    }

    /** fd_timer */
    method TimerTask()
      requires Valid()
      modifies this, units
      ensures Valid() && Abs() == FdTimer(old(Abs()))
    {
      for i := 0 to 2
        invariant Valid()
        invariant Abs() == if i == 0 then old(Abs())
                           else if i == 1 then WaitLess(old(Abs()), 0)
                           else FdTimer(old(Abs()))
      {
        ghost var f := Abs();
        if units[i].state == Wait {
          units[i] := units[i].(ticks := Sub16(units[i].ticks, 50));
          if units[i].ticks <= 0 {
            MotorKill(i);
          }
        }
        assert Abs() == WaitLess(f, i);
      }
    }

    /** The selection in fd_activate. */
    method SelectDrive(d: Drive)
      requires Valid()
      modifies this`dor
      ensures Valid() && Abs() == Select(old(Abs()), d)
    {
      var value := dor;
      value := value & 0xFC;
      value := value | (if d == 0 then 0 else 1);
      dor := value;
    }

    /** fd_reset, as far as the register goes. */
    method ResetController()
      requires Valid()
      modifies this`dor
      ensures Valid() && Abs() == Reset(old(Abs()))
    {
      dor := 0x00;
      dor := 0x0c;
    }
  }
}
