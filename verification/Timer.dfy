/** bootloader/stage2/timer.c: a tick counter and a table of periodic tasks. */
module Timer {
  const MAX_TASKS: nat := 32
  const WORD: nat := 0x1_0000_0000

  /** callback 0 is NULL: the slot is free. */
  datatype Task = Task(callback: nat, period: nat, lastCall: nat)

  datatype Table = Table(counter: nat, tasks: seq<Task>) {
    predicate Valid() {
      |tasks| == MAX_TASKS &&
      forall i | 0 <= i < MAX_TASKS ::
        tasks[i].period < WORD && tasks[i].lastCall < WORD && tasks[i].lastCall <= counter
    }
  }

  // ---------------------------------------------------------------- operations

  /** Whether the task is called at this count. The counter has 64 bits, lastCall 32; as lastCall never
      exceeds the counter, the unsigned difference does not wrap. */
  predicate Due(t: Task, counter: nat) {
    t.callback != 0 && counter - t.lastCall >= t.period
  }

  function Called(t: Task, counter: nat): Task {
    if Due(t, counter) then t.(lastCall := counter % 0x1_0000_0000) else t
  }

  /** timer_handler */
  function Tick(s: Table): Table {
    Table(s.counter + 1, seq(|s.tasks|, i requires 0 <= i < |s.tasks| => Called(s.tasks[i], s.counter + 1)))
  }

  function FreeSlot(tasks: seq<Task>): (i: nat)
    ensures i <= |tasks|
    ensures forall k | 0 <= k < i :: tasks[k].callback != 0
    ensures i < |tasks| ==> tasks[i].callback == 0
  {
    if tasks == [] || tasks[0].callback == 0 then 0 else 1 + FreeSlot(tasks[1..])
  }

  /** timer_register_task */
  function Register(s: Table, callback: nat, period: nat): Table {
    var i := FreeSlot(s.tasks);
    if i == |s.tasks| then s
    else s.(tasks := s.tasks[i := Task(callback, period, s.counter % 0x1_0000_0000)])
  }

  /** timer_unregister_task */
  function Unregister(s: Table, id: nat): Table
    requires id < |s.tasks|
  {
    s.(tasks := s.tasks[id := s.tasks[id].(callback := 0)])
  }

  // ---------------------------------------------------------------- runs

  datatype Event = TickEvent | RegisterEvent(callback: nat, period: nat) | UnregisterEvent(id: nat)

  function Next(s: Table, e: Event): Table
    requires e.UnregisterEvent? ==> e.id < |s.tasks|
  {
    match e
    case TickEvent => Tick(s)
    case RegisterEvent(callback, period) => Register(s, callback, period)
    case UnregisterEvent(id) => Unregister(s, id)
  }

  /** An event that the source's types and table allow. */
  predicate Known(e: Event) {
    (e.RegisterEvent? ==> e.period < WORD) && (e.UnregisterEvent? ==> e.id < MAX_TASKS)
  }

  predicate AllKnown(events: seq<Event>) {
    forall i | 0 <= i < |events| :: Known(events[i])
  }

  /** An event that leaves the task in this slot alone. */
  predicate Spares(e: Event, slot: nat) {
    Known(e) && (e.UnregisterEvent? ==> e.id != slot)
  }

  predicate AllSpare(events: seq<Event>, slot: nat) {
    forall i | 0 <= i < |events| :: Spares(events[i], slot)
  }

  /** The counts at which the task in this slot is called. */
  function Calls(s: Table, events: seq<Event>, slot: nat): seq<nat>
    requires s.Valid() && slot < MAX_TASKS && AllKnown(events)
    decreases |events|
  {
    if events == [] then []
    else
      (if events[0].TickEvent? && Due(s.tasks[slot], s.counter + 1) then [s.counter + 1] else [])
      + Calls(Next(s, events[0]), events[1..], slot)
  }

  function Run(s: Table, events: seq<Event>): (r: Table)
    requires s.Valid() && AllKnown(events)
    ensures r.Valid()
    decreases |events|
  {
    if events == [] then s else Run(Next(s, events[0]), events[1..])
  }

  function Step(period: nat): nat { if period == 0 then 1 else period }

  /** Slot `slot` holds a task whose last call was at `last`, less than a period ago. */
  predicate OnSchedule(s: Table, slot: nat, last: nat, period: nat) {
    s.Valid() && slot < MAX_TASKS && s.tasks[slot].callback != 0 && s.tasks[slot].period == period &&
    s.tasks[slot].lastCall == last && last <= s.counter < last + Step(period)
  }

  /** The counts from + p, from + 2p, ..., n of them; and the last of from, from + p, ... */
  function Multiples(from: nat, p: nat, n: nat): (r: seq<nat>)
    ensures |r| == n
    decreases n, from
  {
    if n == 0 then [] else [from + p] + Multiples(from + p, p, n - 1)
  }

  function After(from: nat, p: nat, n: nat): nat
    decreases n, from
  {
    if n == 0 then from else After(from + p, p, n - 1)
  }

  lemma {:induction false} MultiplesAre(from: nat, p: nat, n: nat)
    ensures After(from, p, n) == from + n * p
    ensures forall j | 0 <= j < n :: Multiples(from, p, n)[j] == from + (j + 1) * p
    decreases n
  {
    if n > 0 {
      MultiplesAre(from + p, p, n - 1);
      assert p + (n - 1) * p == n * p;
      forall j | 0 <= j < n ensures Multiples(from, p, n)[j] == from + (j + 1) * p {
        if j > 0 {
          assert Multiples(from, p, n)[j] == Multiples(from + p, p, n - 1)[j - 1] == from + p + (j - 1 + 1) * p;
          assert p + j * p == (j + 1) * p;
        }
      }
    }
  }

  /** One event: the task is called exactly when a period has passed since its last call. */
  lemma NextOnSchedule(s: Table, e: Event, slot: nat, last: nat, period: nat)
    requires OnSchedule(s, slot, last, period) && Spares(e, slot) && Next(s, e).counter < WORD
    ensures var due := e.TickEvent? && s.counter + 1 == last + Step(period);
            && (e.TickEvent? ==> (Due(s.tasks[slot], s.counter + 1) <==> due))
            && OnSchedule(Next(s, e), slot, if due then last + Step(period) else last, period)
  {
  }

  lemma {:induction false} StaysOnSchedule(s: Table, events: seq<Event>, slot: nat, last: nat, period: nat)
    requires OnSchedule(s, slot, last, period) && AllSpare(events, slot)
    requires Run(s, events).counter < WORD
    ensures var calls := Calls(s, events, slot);
            && calls == Multiples(last, Step(period), |calls|)
            && OnSchedule(Run(s, events), slot, After(last, Step(period), |calls|), period)
    decreases |events|
  {
    if events != [] {
      var e := events[0];
      CounterGrows(Next(s, e), events[1..], slot);
      NextOnSchedule(s, e, slot, last, period);
      var due := e.TickEvent? && s.counter + 1 == last + Step(period);
      StaysOnSchedule(Next(s, e), events[1..], slot, if due then last + Step(period) else last, period);
    }
  }

  lemma {:induction false} CounterGrows(s: Table, events: seq<Event>, slot: nat)
    requires s.Valid() && AllSpare(events, slot)
    ensures s.counter <= Run(s, events).counter
    decreases |events|
  {
    if events != [] { CounterGrows(Next(s, events[0]), events[1..], slot); }
  }

  /** A task registered at count t is called at t + p, t + 2p, t + 3p, ... and at no other count, as
      long as it stays registered and the counter fits 32 bits; a period of 0 counts as 1. */
  lemma RegisteredIsPeriodic(s: Table, callback: nat, period: nat, events: seq<Event>)
    requires s.Valid() && s.counter < WORD && callback != 0 && period < WORD
    requires FreeSlot(s.tasks) < MAX_TASKS && AllSpare(events, FreeSlot(s.tasks))
    requires Run(Register(s, callback, period), events).counter < WORD
    ensures var slot, p := FreeSlot(s.tasks), Step(period);
            var calls := Calls(Register(s, callback, period), events, slot);
            var end := Run(Register(s, callback, period), events).counter;
            && (forall j | 0 <= j < |calls| :: calls[j] == s.counter + (j + 1) * p)
            && s.counter + |calls| * p <= end < s.counter + |calls| * p + p
  {
    var slot := FreeSlot(s.tasks);
    var r := Register(s, callback, period);
    StaysOnSchedule(r, events, slot, s.counter, period);
    MultiplesAre(s.counter, Step(period), |Calls(r, events, slot)|);
  }

  /** Once a call has been recorded at a count of more than 32 bits, the task is due at every tick,
      whatever its period. */
  lemma DueForEverAfter(t: Task, counter: nat)
    requires Due(t, counter) && WORD <= counter && t.period < WORD
    ensures Due(Called(t, counter), counter + 1)
  {
    assert counter % 0x1_0000_0000 <= counter - 0x1_0000_0000;
  }

  /** So the schedule is lost there: of n further ticks, each calls the task. */
  lemma {:induction false} CalledAtEveryTick(s: Table, events: seq<Event>, slot: nat)
    requires s.Valid() && slot < MAX_TASKS && AllSpare(events, slot) && WORD <= s.counter
    requires s.tasks[slot].callback != 0 && s.tasks[slot].lastCall == s.counter % 0x1_0000_0000
    requires forall i | 0 <= i < |events| :: events[i].TickEvent?
    ensures Calls(s, events, slot) == Multiples(s.counter, 1, |events|)
    decreases |events|
  {
    if events != [] {
      assert s.counter % 0x1_0000_0000 <= s.counter - 0x1_0000_0000;
      CalledAtEveryTick(Next(s, events[0]), events[1..], slot);
    }
  }

  // ---------------------------------------------------------------- exactly when the schedule holds

  /** One event, at any count: until a call is recorded at a count of more than 32 bits, the task is
      called exactly when a period has passed. */
  lemma AnyOnSchedule(s: Table, e: Event, slot: nat, last: nat, period: nat)
    requires OnSchedule(s, slot, last, period) && Spares(e, slot)
    ensures var due := e.TickEvent? && s.counter + 1 == last + Step(period);
            && (e.TickEvent? ==> (Due(s.tasks[slot], s.counter + 1) <==> due))
            && (!due ==> OnSchedule(Next(s, e), slot, last, period))
            && (due && last + Step(period) < WORD ==> OnSchedule(Next(s, e), slot, last + Step(period), period))
            && (due && WORD <= last + Step(period) ==> Lost(Next(s, e), slot, period))
  {
  }

  /** The last call was recorded at this count, and it has more than 32 bits. */
  predicate Lost(s: Table, slot: nat, period: nat) {
    && s.Valid() && slot < MAX_TASKS && s.tasks[slot].callback != 0 && s.tasks[slot].period == period
    && WORD <= s.counter && s.tasks[slot].lastCall <= s.counter - WORD
  }

  /** The next tick calls the task, whatever its period. */
  lemma {:induction false} LostCallsNext(s: Table, events: seq<Event>, slot: nat, period: nat)
    requires Lost(s, slot, period) && AllSpare(events, slot)
    ensures var calls, end := Calls(s, events, slot), Run(s, events).counter;
            if end == s.counter then calls == [] else calls != [] && calls[0] == s.counter + 1
    decreases |events|
  {
    if events != [] {
      CounterGrows(Next(s, events[0]), events[1..], slot);
      if !events[0].TickEvent? { LostCallsNext(Next(s, events[0]), events[1..], slot, period); }
    }
  }

  /** A task with a period of at most 1 is called at every tick, at any count. */
  lemma {:induction false} EveryTick(s: Table, events: seq<Event>, slot: nat)
    requires s.Valid() && slot < MAX_TASKS && AllSpare(events, slot)
    requires s.tasks[slot].callback != 0 && Step(s.tasks[slot].period) == 1
    ensures Periodic(Calls(s, events, slot), s.counter, 1, Run(s, events).counter)
    decreases |events|
  {
    if events != [] {
      EveryTick(Next(s, events[0]), events[1..], slot);
    }
  }

  /** Exactly the counts from + p, from + 2p, ... up to `end`. */
  predicate Periodic(calls: seq<nat>, from: nat, p: nat, end: nat) {
    calls == Multiples(from, p, |calls|) && After(from, p, |calls|) <= end < After(from, p, |calls|) + p
  }

  /** What can be told beforehand: no count of the schedule has more than 32 bits and lies before the
      last tick. */
  ghost predicate Fits32(from: nat, p: nat, end: nat) {
    forall n: nat | WORD <= After(from, p, n) :: end <= After(from, p, n)
  }

  lemma {:induction false} AfterGrows(from: nat, p: nat, n: nat)
    requires 1 <= n
    ensures from + p <= After(from, p, n)
    decreases n
  {
    if n > 1 { AfterGrows(from + p, p, n - 1); }
  }

  lemma Fits32Step(from: nat, p: nat, end: nat)
    requires from < WORD
    ensures Fits32(from, p, end) <==> Fits32(from + p, p, end)
  {
    var second := from + p;
    if Fits32(from, p, end) {
      forall n: nat | WORD <= After(second, p, n) ensures end <= After(second, p, n) {
        assert After(from, p, n + 1) == After(second, p, n);
      }
    }
    if Fits32(second, p, end) {
      forall n: nat | WORD <= After(from, p, n) ensures end <= After(from, p, n) {
        assert After(from, p, n) == After(second, p, n - 1);
      }
    }
  }

  /** A schedule none of whose counts before the end has more than 32 bits. */
  lemma Fits32Below(from: nat, p: nat, end: nat)
    requires end <= from + p && (from < WORD || end <= from)
    ensures Fits32(from, p, end)
  {
    forall n: nat | WORD <= After(from, p, n) ensures end <= After(from, p, n) {
      if n > 0 { AfterGrows(from, p, n); }
    }
  }

  lemma PeriodicStep(calls: seq<nat>, from: nat, p: nat, end: nat)
    ensures Periodic([from + p] + calls, from, p, end) <==> Periodic(calls, from + p, p, end)
  {
    var all := [from + p] + calls;
    assert all[1..] == calls;
    var n := |calls|;
    assert Multiples(from, p, n + 1) == [from + p] + Multiples(from + p, p, n);
    assert ([from + p] + Multiples(from + p, p, n))[1..] == Multiples(from + p, p, n);
  }

  /** From a call that was recorded at `from`, with more than 32 bits: only a period of 1 survives the
      next tick. */
  lemma LostIff(s: Table, events: seq<Event>, slot: nat, period: nat)
    requires Lost(s, slot, period) && AllSpare(events, slot) && Step(period) > 1
    ensures var end := Run(s, events).counter;
            Periodic(Calls(s, events, slot), s.counter, Step(period), end) <==> Fits32(s.counter, Step(period), end)
  {
    var calls, end, p := Calls(s, events, slot), Run(s, events).counter, Step(period);
    CounterGrows(s, events, slot);
    LostCallsNext(s, events, slot, period);
    if end == s.counter {
      Fits32Below(s.counter, p, end);
    } else {
      assert After(s.counter, p, 0) == s.counter;
      assert !Fits32(s.counter, p, end);
      assert Multiples(s.counter, p, |calls|)[0] == s.counter + p != calls[0];
    }
  }

  lemma {:induction false} PeriodicIff(s: Table, events: seq<Event>, slot: nat, last: nat, period: nat)
    requires OnSchedule(s, slot, last, period) && AllSpare(events, slot) && Step(period) > 1
    ensures var end := Run(s, events).counter;
            Periodic(Calls(s, events, slot), last, Step(period), end) <==> Fits32(last, Step(period), end)
    decreases |events|
  {
    var p, end := Step(period), Run(s, events).counter;
    if events == [] {
      Fits32Below(last, p, end);
    } else {
      var e, rest := events[0], events[1..];
      var t := Next(s, e);
      AnyOnSchedule(s, e, slot, last, period);
      if e.TickEvent? && s.counter + 1 == last + p {
        assert Calls(s, events, slot) == [last + p] + Calls(t, rest, slot);
        PeriodicStep(Calls(t, rest, slot), last, p, end);
        Fits32Step(last, p, end);
        if last + p < WORD {
          PeriodicIff(t, rest, slot, last + p, period);
        } else {
          LostIff(t, rest, slot, period);
        }
      } else {
        assert Calls(s, events, slot) == Calls(t, rest, slot);
        PeriodicIff(t, rest, slot, last, period);
      }
    }
  }

  /** A task registered at count t, of any size, is called exactly at t + p, t + 2p, ... until the end of
      the run if and only if p is 1, or no count of that schedule, t included, has more than 32 bits and
      lies before the last tick. */
  lemma RegisteredIsPeriodicIff(s: Table, callback: nat, period: nat, events: seq<Event>)
    requires s.Valid() && callback != 0 && period < WORD
    requires FreeSlot(s.tasks) < MAX_TASKS && AllSpare(events, FreeSlot(s.tasks))
    ensures Register(s, callback, period).Valid()
    ensures var slot, p := FreeSlot(s.tasks), Step(period);
            var r := Register(s, callback, period);
            var end := Run(r, events).counter;
            Periodic(Calls(r, events, slot), s.counter, p, end) <==> p == 1 || Fits32(s.counter, p, end)
  {
    var slot, r := FreeSlot(s.tasks), Register(s, callback, period);
    if Step(period) == 1 {
      EveryTick(r, events, slot);
    } else if s.counter < WORD {
      PeriodicIff(r, events, slot, s.counter, period);
    } else {
      LostIff(r, events, slot, period);
    }
  }

  // ---------------------------------------------------------------- unregistering

  /** No registration takes this slot. A registration takes the first free one. */
  ghost predicate StaysFree(s: Table, events: seq<Event>, slot: nat)
    requires s.Valid() && AllKnown(events)
    decreases |events|
  {
    events == [] ||
    (&& (events[0].RegisterEvent? && events[0].callback != 0 ==>
           exists k | 0 <= k < slot && k < MAX_TASKS :: s.tasks[k].callback == 0)
     && StaysFree(Next(s, events[0]), events[1..], slot))
  }

  lemma FreeSlotBefore(tasks: seq<Task>, k: nat)
    requires k < |tasks| && tasks[k].callback == 0
    ensures FreeSlot(tasks) <= k
  {
  }

  lemma FreeAfter(s: Table, e: Event, slot: nat)
    requires s.Valid() && Known(e) && slot < MAX_TASKS && s.tasks[slot].callback == 0
    requires e.RegisterEvent? && e.callback != 0 ==>
               exists k | 0 <= k < slot && k < MAX_TASKS :: s.tasks[k].callback == 0
    ensures Next(s, e).Valid() && Next(s, e).tasks[slot].callback == 0
  {
    if e.RegisterEvent? && e.callback != 0 {
      var k :| 0 <= k < slot && k < MAX_TASKS && s.tasks[k].callback == 0;
      FreeSlotBefore(s.tasks, k);
    }
  }

  lemma {:induction false} FreeIsNeverCalled(s: Table, events: seq<Event>, slot: nat)
    requires s.Valid() && AllKnown(events) && slot < MAX_TASKS
    requires s.tasks[slot].callback == 0 && StaysFree(s, events, slot)
    ensures Calls(s, events, slot) == [] && Run(s, events).tasks[slot].callback == 0
    decreases |events|
  {
    if events != [] {
      FreeAfter(s, events[0], slot);
      FreeIsNeverCalled(Next(s, events[0]), events[1..], slot);
    }
  }

  /** After a task is unregistered it is never called again, over every run in which nobody takes its slot. */
  lemma UnregisteredIsNeverCalled(s: Table, id: nat, events: seq<Event>)
    requires s.Valid() && id < MAX_TASKS && AllKnown(events) && StaysFree(Unregister(s, id), events, id)
    ensures Calls(Unregister(s, id), events, id) == []
  {
    FreeIsNeverCalled(Unregister(s, id), events, id);
  }

  /** What one event makes of a slot that it spares. */
  lemma SlotAfter(s: Table, e: Event, slot: nat)
    requires s.Valid() && slot < MAX_TASKS && Spares(e, slot) && s.tasks[slot].callback != 0
    ensures var n := Next(s, e);
            && n.Valid() && n.counter == s.counter + (if e.TickEvent? then 1 else 0)
            && n.tasks[slot] == (if e.TickEvent? then Called(s.tasks[slot], s.counter + 1) else s.tasks[slot])
            && n.tasks[slot].callback != 0
  {
  }

  /** The calls of a task depend on the count and on its own slot, and on nothing else in the table. */
  lemma {:induction false} CallsDependOnSlot(s: Table, t: Table, events: seq<Event>, slot: nat)
    requires s.Valid() && t.Valid() && slot < MAX_TASKS && AllSpare(events, slot)
    requires s.counter == t.counter && s.tasks[slot] == t.tasks[slot] && s.tasks[slot].callback != 0
    ensures Calls(s, events, slot) == Calls(t, events, slot)
    decreases |events|
  {
    if events != [] {
      SlotAfter(s, events[0], slot);
      SlotAfter(t, events[0], slot);
      CallsDependOnSlot(Next(s, events[0]), Next(t, events[0]), events[1..], slot);
    }
  }

  /** So unregistering one task does not change when another is called. */
  lemma UnregisterSparesOthers(s: Table, id: nat, events: seq<Event>, slot: nat)
    requires s.Valid() && id < MAX_TASKS && slot < MAX_TASKS && slot != id && AllSpare(events, slot)
    requires s.tasks[slot].callback != 0
    ensures Calls(Unregister(s, id), events, slot) == Calls(s, events, slot)
  {
    CallsDependOnSlot(Unregister(s, id), s, events, slot);
  }

  /** The slot can be taken again: the next task goes there unless a lower slot is free, and a full table
      takes one more task, in this slot. */
  lemma UnregisterFreesSlot(s: Table, id: nat, callback: nat, period: nat)
    requires s.Valid() && id < MAX_TASKS
    ensures var slot := FreeSlot(Unregister(s, id).tasks);
            && slot <= id && (slot == id <==> forall k | 0 <= k < id :: s.tasks[k].callback != 0)
            && Register(Unregister(s, id), callback, period).tasks[slot].callback == callback
  {
    var t := Unregister(s, id).tasks;
    FreeSlotBefore(t, id);
    assert forall k | 0 <= k < id :: t[k] == s.tasks[k];
    if FreeSlot(t) == id {
      forall k | 0 <= k < id ensures s.tasks[k].callback != 0 { assert t[k].callback != 0; }
    } else {
      assert t[FreeSlot(t)] == s.tasks[FreeSlot(t)];
    }
  }

  // ---------------------------------------------------------------- the calls of one tick

  /** The calls made at this count: one for each task that is due, in the order of the slots. */
  function Fired(tasks: seq<Task>, counter: int): seq<(int, int)> {
    if tasks == [] then []
    else
      var last := |tasks| - 1;
      var due := tasks[last].callback != 0 && counter - tasks[last].lastCall >= tasks[last].period;
      Fired(tasks[..last], counter) + if due then [(counter, last)] else []
  }

  lemma FiredNext(tasks: seq<Task>, i: nat, counter: nat)
    requires i < |tasks|
    ensures Fired(tasks[..i + 1], counter) ==
              Fired(tasks[..i], counter) + if Due(tasks[i], counter) then [(counter, i)] else []
  {
    assert tasks[..i + 1][..i] == tasks[..i];
  }

  /** Calls at this count, of slots below n in ascending order. */
  ghost predicate InOrder(f: seq<(int, int)>, counter: int, n: nat) {
    && (forall k | 0 <= k < |f| :: f[k].0 == counter && 0 <= f[k].1 < n)
    && (forall j, k | 0 <= j < k < |f| :: f[j].1 < f[k].1)
  }

  lemma AppendCall(f: seq<(int, int)>, counter: int, n: nat, i: nat)
    requires InOrder(f, counter, n) && i <= n
    ensures InOrder(f, counter, n + 1) && InOrder(f + [(counter, n)], counter, n + 1)
    ensures (counter, i) in f + [(counter, n)] <==> (counter, i) in f || i == n
    ensures (counter, i) in f ==> i < n
  {
  }

  lemma {:induction false} FiredUpTo(tasks: seq<Task>, n: nat, counter: nat) returns (f: seq<(int, int)>)
    requires n <= |tasks|
    ensures f == Fired(tasks[..n], counter) && InOrder(f, counter, n)
    ensures forall i | 0 <= i < n :: (counter, i) in f <==> Due(tasks[i], counter)
    decreases n
  {
    if n == 0 {
      f := [];
    } else {
      var g := FiredUpTo(tasks, n - 1, counter);
      FiredNext(tasks, n - 1, counter);
      f := g + if Due(tasks[n - 1], counter) then [(counter, n - 1)] else [];
      AppendCall(g, counter, n - 1, n - 1);
      forall i | 0 <= i < n ensures (counter, i) in f <==> Due(tasks[i], counter) {
        AppendCall(g, counter, n - 1, i);
      }
    }
  }

  /** Every task that is due is called, no other is, and none is called twice. */
  lemma FiredIff(tasks: seq<Task>, counter: nat)
    ensures forall i | 0 <= i < |tasks| :: (counter, i) in Fired(tasks, counter) <==> Due(tasks[i], counter)
    ensures InOrder(Fired(tasks, counter), counter, |tasks|)
  {
    var f := FiredUpTo(tasks, |tasks|, counter);
    assert tasks[..|tasks|] == tasks;
  }

  // ---------------------------------------------------------------- the driver

  class Driver {
    const taskList: array<Task>
    var counter: nat
    ghost var calls: seq<(int, int)>   // count and slot of every call made

    ghost function Abs(): Table
      reads this, taskList
    {
      Table(counter, taskList[..])
    }

    ghost predicate Valid()
      reads this, taskList
    {
      Abs().Valid()
    }

    /** timer_init */
    constructor ()
      ensures Valid() && fresh(taskList) && counter == 0 && calls == []
      ensures forall i | 0 <= i < MAX_TASKS :: taskList[i].callback == 0
    {
      taskList := new Task[MAX_TASKS](_ => Task(0, 0, 0));
      counter, calls := 0, [];
    }

    /** The body of the loop of timer_handler. */
    method CallIfDue(i: nat)
      requires i < taskList.Length
      modifies this`calls, taskList
      ensures taskList[i] == Called(old(taskList[i]), counter)
      ensures forall k | 0 <= k < taskList.Length && k != i :: taskList[k] == old(taskList[k])
      ensures calls == old(calls) + if Due(old(taskList[i]), counter) then [(counter, i)] else []
    {
      var task := taskList[i];
      if task.callback != 0 && counter - task.lastCall >= task.period {
        calls := calls + [(counter, i)];
        taskList[i] := task.(lastCall := counter % 0x1_0000_0000);
      }
    }

    /** timer_handler; calling back is recorded. */
    method Handler()
      requires Valid()
      modifies this, taskList
      ensures Valid() && Abs() == Tick(old(Abs())) && counter == old(counter) + 1
      ensures calls == old(calls) + Fired(old(taskList[..]), counter)
    {
      counter := counter + 1;
      ghost var before := taskList[..];
      for i := 0 to MAX_TASKS
        invariant counter == old(counter) + 1 && calls == old(calls) + Fired(before[..i], counter)
        invariant forall k | 0 <= k < i :: taskList[k] == Called(before[k], counter)
        invariant forall k | i <= k < MAX_TASKS :: taskList[k] == before[k]
      {
        FiredNext(before, i, counter);
        CallIfDue(i);
      }
      assert before[..MAX_TASKS] == before;
    }

    /** timer_register_task: the slot, or -1. A slot that gets NULL is still free. */
    method RegisterTask(callback: nat, ms: nat) returns (id: int)
      requires Valid() && ms < WORD
      modifies taskList
      ensures Valid() && Abs() == Register(old(Abs()), callback, ms)
      ensures var i := FreeSlot(old(taskList[..])); id == if i == MAX_TASKS then -1 else i
    {
      for i := 0 to MAX_TASKS
        invariant taskList[..] == old(taskList[..])
        invariant forall k | 0 <= k < i :: taskList[k].callback != 0
      {
        if taskList[i].callback == 0 {
          FreeSlotIs(taskList[..], i);
          taskList[i] := Task(callback, ms, counter % 0x1_0000_0000);
          return i;
        }
      }
      FreeSlotIs(taskList[..], MAX_TASKS);
      id := -1;
    }

    method UnregisterTask(id: nat)
      requires Valid() && id < MAX_TASKS
      modifies taskList
      ensures Valid() && Abs() == Unregister(old(Abs()), id)
      ensures taskList[id].callback == 0
      ensures forall k | 0 <= k < MAX_TASKS && k != id :: taskList[k] == old(taskList[k])
    {
      taskList[id] := taskList[id].(callback := 0);
    }
  }

  lemma {:induction false} FreeSlotIs(tasks: seq<Task>, i: nat)
    requires i <= |tasks| && forall k | 0 <= k < i :: tasks[k].callback != 0
    requires i == |tasks| || tasks[i].callback == 0
    ensures FreeSlot(tasks) == i
  {
    if i > 0 { FreeSlotIs(tasks[1..], i - 1); }
  }
}
