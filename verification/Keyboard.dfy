/** bootloader/stage2/devices/keyboard/keyboard.c: the interrupt handler decodes scan codes and puts
    keys into a ring of 32 slots; kb_getc takes them out. The handler runs as a whole, but may run
    between any two steps of kb_getc, which are its loads, its stores, and the halt of its wait loop. */
module Keyboard {
  import opened Bytes

  const LEN: nat := 32

  const KEY_LCONTROL: nat := 0x0200
  const KEY_LSHIFT: nat := 0x0300
  const KEY_RSHIFT: nat := 0x0400
  const KEY_CAPS: nat := 0x0500
  const KEY_LALT: nat := 0x1400
  const KEY_RCONTROL: nat := 0x1500
  const KEY_RALT: nat := 0x1700

  /** The tables of 128 keys; 0 marks a scan code without key. */
  datatype Keymaps = Keymaps(plain: seq<nat>, shift: seq<nat>, altgr: seq<nat>, escaped: seq<nat>) {
    predicate Valid() { |plain| == |shift| == |altgr| == |escaped| == 128 }
  }

  datatype Flags = Flags(shift: bool, caps: bool, lcontrol: bool, lalt: bool, rcontrol: bool, ralt: bool,
                         escaped: bool)

  // ---------------------------------------------------------------- decoding

  function Lookup(m: Keymaps, f: Flags, code: nat): nat
    requires m.Valid() && code < 128
  {
    if f.escaped then m.escaped[code]
    else if f.shift then m.shift[code]
    else if f.ralt then m.altgr[code]
    else m.plain[code]
  }

  /** A byte without its release bit. */
  function Code(c: nat): (code: nat)
    requires c < 256
    ensures code < 128
  {
    if c < 128 then c else c - 128
  }

  function SwapCase(key: nat): nat {
    if 'a' as int <= key <= 'z' as int then key - 32
    else if 'A' as int <= key <= 'Z' as int then key + 32
    else key
  }

  /** A press or a release of a key. */
  function KeyEvent(f: Flags, key: nat, down: bool): (Flags, Option<nat>) {
    var g := f.(escaped := false);
    if key == KEY_LSHIFT || key == KEY_RSHIFT then (g.(shift := down), None)
    else if key == KEY_LCONTROL then (g.(lcontrol := down), None)
    else if key == KEY_RCONTROL then (g.(rcontrol := down), None)
    else if key == KEY_LALT then (g.(lalt := down), None)
    else if key == KEY_RALT then (g.(ralt := down), None)
    else if key == KEY_CAPS then (g.(caps := down != f.caps), None)
    else if down && key != 0 then (g, Some(if f.caps then SwapCase(key) else key))
    else (g, None)
  }

  /** One byte from the controller: the new flags, and the key to queue. */
  function Decode(m: Keymaps, f: Flags, c: nat): (Flags, Option<nat>)
    requires m.Valid() && c < 256
  {
    if c == 0xE0 then (f.(escaped := true), None)
    else KeyEvent(f, Lookup(m, f, Code(c)), c < 128)
  }

  function DecodeAll(m: Keymaps, f: Flags, bytes: seq<nat>): (Flags, seq<nat>)
    requires m.Valid() && forall i | 0 <= i < |bytes| :: bytes[i] < 256
    decreases |bytes|
  {
    if bytes == [] then (f, [])
    else
      var (g, key) := Decode(m, f, bytes[0]);
      var (h, keys) := DecodeAll(m, g, bytes[1..]);
      (h, (if key.Some? then [key.value] else []) + keys)
  }

  /** Only the plain, shift and AltGr tables know the caps key, at one scan code. */
  predicate CapsAt(m: Keymaps, code: nat)
    requires m.Valid()
  {
    forall i | 0 <= i < 128 ::
      && (m.plain[i] == KEY_CAPS <==> i == code)
      && (m.shift[i] == KEY_CAPS <==> i == code)
      && (m.altgr[i] == KEY_CAPS <==> i == code)
      && m.escaped[i] != KEY_CAPS
  }

  /** Presses of the code that do not follow an escape byte. */
  function Presses(bytes: seq<nat>, escaped: bool, code: nat): nat {
    if bytes == [] then 0
    else (if bytes[0] == code && !escaped then 1 else 0) + Presses(bytes[1..], bytes[0] == 0xE0, code)
  }

  lemma DecodeCaps(m: Keymaps, f: Flags, c: nat, code: nat)
    requires m.Valid() && c < 256 && CapsAt(m, code) && code < 128
    ensures Decode(m, f, c).0.caps == (f.caps != (c == code && !f.escaped))
    ensures Decode(m, f, c).0.escaped == (c == 0xE0)
  {
    var k := Code(c);
    assert Lookup(m, f, k) == KEY_CAPS <==> k == code && !f.escaped;
  }

  /** Caps lock is the parity of the presses of its key, through repeats, releases, and whatever
      other modifiers are held. */
  lemma {:induction false} CapsIsParity(m: Keymaps, f: Flags, bytes: seq<nat>, code: nat)
    requires m.Valid() && forall i | 0 <= i < |bytes| :: bytes[i] < 256
    requires CapsAt(m, code) && code < 128
    ensures DecodeAll(m, f, bytes).0.caps == (f.caps != (Presses(bytes, f.escaped, code) % 2 == 1))
    decreases |bytes|
  {
    if bytes != [] {
      DecodeCaps(m, f, bytes[0], code);
      CapsIsParity(m, Decode(m, f, bytes[0]).0, bytes[1..], code);
    }
  }

  /** All four tables have the shift keys at these two codes, and nowhere else. */
  predicate ShiftAt(m: Keymaps, left: nat, right: nat)
    requires m.Valid()
  {
    forall i | 0 <= i < 128 ::
      && (IsShift(m.plain[i]) <==> i == left || i == right)
      && (IsShift(m.shift[i]) <==> i == left || i == right)
      && (IsShift(m.altgr[i]) <==> i == left || i == right)
      && (IsShift(m.escaped[i]) <==> i == left || i == right)
  }

  predicate IsShift(key: nat) { key == KEY_LSHIFT || key == KEY_RSHIFT }

  /** Whether the last byte of a shift key is a press; `initial` when there is none. */
  function LastShift(bytes: seq<nat>, initial: bool, left: nat, right: nat): bool {
    if bytes == [] then initial
    else
      var c := bytes[0];
      var now := if c == left || c == right then true
                 else if c != 0xE0 && (c == left + 128 || c == right + 128) then false
                 else initial;
      LastShift(bytes[1..], now, left, right)
  }

  lemma DecodeShift(m: Keymaps, f: Flags, c: nat, left: nat, right: nat)
    requires m.Valid() && c < 256 && ShiftAt(m, left, right) && left < 128 && right < 128
    ensures Decode(m, f, c).0.shift ==
              if c == left || c == right then true
              else if c != 0xE0 && (c == left + 128 || c == right + 128) then false
              else f.shift
  {
    var k := Code(c);
    assert IsShift(Lookup(m, f, k)) <==> k == left || k == right;
  }

  /** The shift state is that of the last event of either shift key: letting one go while the other is
      held ends it. */
  lemma {:induction false} ShiftIsLastEvent(m: Keymaps, f: Flags, bytes: seq<nat>, left: nat, right: nat)
    requires m.Valid() && forall i | 0 <= i < |bytes| :: bytes[i] < 256
    requires ShiftAt(m, left, right) && left < 128 && right < 128
    ensures DecodeAll(m, f, bytes).0.shift == LastShift(bytes, f.shift, left, right)
    decreases |bytes|
  {
    if bytes != [] {
      DecodeShift(m, f, bytes[0], left, right);
      ShiftIsLastEvent(m, Decode(m, f, bytes[0]).0, bytes[1..], left, right);
    }
  }

  // ---------------------------------------------------------------- the keys of a stream of bytes

  /** The modifiers that are one key each. */
  datatype Modifier = LControl | RControl | LAlt | RAlt

  function KeyOf(h: Modifier): nat {
    match h
    case LControl => KEY_LCONTROL
    case RControl => KEY_RCONTROL
    case LAlt => KEY_LALT
    case RAlt => KEY_RALT
  }

  function IsHeld(f: Flags, h: Modifier): bool {
    match h
    case LControl => f.lcontrol
    case RControl => f.rcontrol
    case LAlt => f.lalt
    case RAlt => f.ralt
  }

  /** The modifier is at one scan code, either behind an escape byte or in the three other tables. */
  predicate ModifierAt(m: Keymaps, h: Modifier, escaped: bool, code: nat)
    requires m.Valid()
  {
    forall i | 0 <= i < 128 ::
      && (m.plain[i] == KeyOf(h) <==> !escaped && i == code)
      && (m.shift[i] == KeyOf(h) <==> !escaped && i == code)
      && (m.altgr[i] == KeyOf(h) <==> !escaped && i == code)
      && (m.escaped[i] == KeyOf(h) <==> escaped && i == code)
  }

  /** Whether the last press or release of the code, behind an escape byte or not, is a press. `after` says
      that an escape byte came before the first of these bytes. */
  function LastEvent(bytes: seq<nat>, after: bool, initial: bool, escaped: bool, code: nat): bool {
    if bytes == [] then initial
    else
      var c := bytes[0];
      var now := if after == escaped && c != 0xE0 && (c == code || c == code + 128) then c == code else initial;
      LastEvent(bytes[1..], c == 0xE0, now, escaped, code)
  }

  lemma EscapedAfter(m: Keymaps, f: Flags, c: nat)
    requires m.Valid() && c < 256
    ensures Decode(m, f, c).0.escaped == (c == 0xE0)
  {
    if c != 0xE0 { EventUnescapes(f, Lookup(m, f, Code(c)), c < 128); }
  }

  lemma EventUnescapes(f: Flags, key: nat, down: bool)
    ensures !KeyEvent(f, key, down).0.escaped
  {
  }

  lemma HeldAfterEvent(f: Flags, key: nat, down: bool, h: Modifier)
    ensures IsHeld(KeyEvent(f, key, down).0, h) == if key == KeyOf(h) then down else IsHeld(f, h)
  {
  }

  lemma HeldAfter(m: Keymaps, f: Flags, c: nat, h: Modifier)
    requires m.Valid() && c < 256
    ensures Decode(m, f, c).0.escaped == (c == 0xE0)
    ensures IsHeld(Decode(m, f, c).0, h) ==
              if c != 0xE0 && Lookup(m, f, Code(c)) == KeyOf(h) then c < 128 else IsHeld(f, h)
  {
    EscapedAfter(m, f, c);
    if c != 0xE0 { HeldAfterEvent(f, Lookup(m, f, Code(c)), c < 128, h); }
  }

  lemma DecodeModifier(m: Keymaps, f: Flags, c: nat, h: Modifier, escaped: bool, code: nat)
    requires m.Valid() && c < 256 && ModifierAt(m, h, escaped, code) && code < 128
    ensures Decode(m, f, c).0.escaped == (c == 0xE0)
    ensures IsHeld(Decode(m, f, c).0, h) ==
              if f.escaped == escaped && c != 0xE0 && (c == code || c == code + 128) then c == code else IsHeld(f, h)
  {
    HeldAfter(m, f, c, h);
    FoundIff(m, f, Code(c), h, escaped, code);
  }

  lemma FoundIff(m: Keymaps, f: Flags, k: nat, h: Modifier, escaped: bool, code: nat)
    requires m.Valid() && k < 128 && ModifierAt(m, h, escaped, code)
    ensures Lookup(m, f, k) == KeyOf(h) <==> f.escaped == escaped && k == code
  {
  }

  /** Control and Alt, left and right, are held exactly as their last event says. */
  lemma {:induction false} ModifierIsLastEvent(m: Keymaps, f: Flags, bytes: seq<nat>, h: Modifier, escaped: bool,
                                               code: nat)
    requires m.Valid() && forall i | 0 <= i < |bytes| :: bytes[i] < 256
    requires ModifierAt(m, h, escaped, code) && code < 128
    ensures IsHeld(DecodeAll(m, f, bytes).0, h) == LastEvent(bytes, f.escaped, IsHeld(f, h), escaped, code)
    decreases |bytes|
  {
    if bytes != [] {
      DecodeModifier(m, f, bytes[0], h, escaped, code);
      ModifierIsLastEvent(m, Decode(m, f, bytes[0]).0, bytes[1..], h, escaped, code);
    }
  }

  const LOWER: string := "abcdefghijklmnopqrstuvwxyz"
  const UPPER: string := "ABCDEFGHIJKLMNOPQRSTUVWXYZ"

  lemma Alphabet(i: nat)
    requires i < 26
    ensures LOWER[i] as nat == 97 + i && UPPER[i] as nat == 65 + i
  {
  }

  /** Caps lock exchanges the two cases of the letters and leaves every other key alone. */
  lemma SwapCaseIs(key: nat)
    ensures forall i | 0 <= i < 26 :: key == LOWER[i] as nat ==> SwapCase(key) == UPPER[i] as nat
    ensures forall i | 0 <= i < 26 :: key == UPPER[i] as nat ==> SwapCase(key) == LOWER[i] as nat
    ensures (forall i | 0 <= i < 26 :: key != LOWER[i] as nat && key != UPPER[i] as nat) ==> SwapCase(key) == key
  {
    forall i | 0 <= i < 26
      ensures key == LOWER[i] as nat ==> SwapCase(key) == UPPER[i] as nat
      ensures key == UPPER[i] as nat ==> SwapCase(key) == LOWER[i] as nat
    {
      Alphabet(i);
    }
    if 97 <= key <= 122 { Alphabet(key - 97); }
    if 65 <= key <= 90 { Alphabet(key - 65); }
  }

  /** The scan codes of the keys that choose a table or the case. */
  datatype Layout = Layout(left: nat, right: nat, caps: nat, altgr: nat)

  ghost predicate HasLayout(m: Keymaps, l: Layout)
    requires m.Valid()
  {
    && l.left < 128 && l.right < 128 && l.caps < 128 && l.altgr < 128
    && ShiftAt(m, l.left, l.right) && CapsAt(m, l.caps) && ModifierAt(m, RAlt, true, l.altgr)
  }

  /** The table for the byte behind this history: the escape byte goes before shift, and shift before AltGr. */
  function TableAfter(m: Keymaps, before: seq<nat>, l: Layout): seq<nat> {
    if before != [] && before[|before| - 1] == 0xE0 then m.escaped
    else if LastShift(before, false, l.left, l.right) then m.shift
    else if LastEvent(before, false, false, true, l.altgr) then m.altgr
    else m.plain
  }

  predicate IsModifierKey(key: nat) {
    key in {KEY_LCONTROL, KEY_LSHIFT, KEY_RSHIFT, KEY_CAPS, KEY_LALT, KEY_RCONTROL, KEY_RALT}
  }

  /** The key that byte c types behind this history: only presses type, and neither modifiers nor codes
      without key do. */
  function KeyAfter(m: Keymaps, before: seq<nat>, c: nat, l: Layout): seq<nat>
    requires m.Valid()
  {
    if c >= 128 then []
    else
      var key := TableAfter(m, before, l)[c];
      if key == 0 || IsModifierKey(key) then []
      else [if Presses(before, false, l.caps) % 2 == 1 then SwapCase(key) else key]
  }

  function KeysTyped(m: Keymaps, bytes: seq<nat>, l: Layout): seq<nat>
    requires m.Valid()
  {
    if bytes == [] then []
    else
      var before := bytes[..|bytes| - 1];
      KeysTyped(m, before, l) + KeyAfter(m, before, bytes[|bytes| - 1], l)
  }

  const NO_FLAGS: Flags := Flags(false, false, false, false, false, false, false)

  lemma Regroup(a: seq<nat>, b: seq<nat>, c: seq<nat>)
    ensures a + (b + c) == a + b + c
  {
  }

  lemma {:induction false} DecodeAllSnoc(m: Keymaps, f: Flags, bytes: seq<nat>, c: nat)
    requires m.Valid() && c < 256 && forall i | 0 <= i < |bytes| :: bytes[i] < 256
    ensures var (g, keys) := DecodeAll(m, f, bytes);
            var (h, key) := Decode(m, g, c);
            DecodeAll(m, f, bytes + [c]) == (h, keys + if key.Some? then [key.value] else [])
    decreases |bytes|
  {
    if bytes == [] {
      assert bytes + [c] == [c] && [c][1..] == [];
      var (h, key) := Decode(m, f, c);
      var last := if key.Some? then [key.value] else [];
      assert DecodeAll(m, h, []) == (h, []);
      assert last + [] == [] + last;
    } else {
      assert (bytes + [c])[1..] == bytes[1..] + [c];
      var (e, first) := Decode(m, f, bytes[0]);
      DecodeAllSnoc(m, e, bytes[1..], c);
      var (g, keys) := DecodeAll(m, e, bytes[1..]);
      var (h, key) := Decode(m, g, c);
      Regroup(if first.Some? then [first.value] else [], keys, if key.Some? then [key.value] else []);
    }
  }

  lemma {:induction false} EscapedIsLastByte(m: Keymaps, f: Flags, bytes: seq<nat>)
    requires m.Valid() && forall i | 0 <= i < |bytes| :: bytes[i] < 256
    ensures DecodeAll(m, f, bytes).0.escaped == if bytes == [] then f.escaped else bytes[|bytes| - 1] == 0xE0
    decreases |bytes|
  {
    if bytes != [] {
      EscapedAfter(m, f, bytes[0]);
      EscapedIsLastByte(m, Decode(m, f, bytes[0]).0, bytes[1..]);
    }
  }

  lemma NextKey(m: Keymaps, before: seq<nat>, c: nat, l: Layout)
    requires m.Valid() && HasLayout(m, l) && c < 256 && forall i | 0 <= i < |before| :: before[i] < 256
    ensures var key := Decode(m, DecodeAll(m, NO_FLAGS, before).0, c).1;
            KeyAfter(m, before, c, l) == if key.Some? then [key.value] else []
  {
    CapsIsParity(m, NO_FLAGS, before, l.caps);
    ShiftIsLastEvent(m, NO_FLAGS, before, l.left, l.right);
    ModifierIsLastEvent(m, NO_FLAGS, before, RAlt, true, l.altgr);
    EscapedIsLastByte(m, NO_FLAGS, before);
    var f := DecodeAll(m, NO_FLAGS, before).0;
    if c < 128 { assert Lookup(m, f, c) == TableAfter(m, before, l)[c]; }
  }

  /** The keys that a stream of bytes types, told from the tables and the bytes alone: each press gives
      the entry of the table that the bytes before it have chosen, in the case that they have chosen. */
  lemma {:induction false} KeysFromHistory(m: Keymaps, bytes: seq<nat>, l: Layout)
    requires m.Valid() && HasLayout(m, l) && forall i | 0 <= i < |bytes| :: bytes[i] < 256
    ensures DecodeAll(m, NO_FLAGS, bytes).1 == KeysTyped(m, bytes, l)
    decreases |bytes|
  {
    if bytes != [] {
      var before, c := bytes[..|bytes| - 1], bytes[|bytes| - 1];
      assert bytes == before + [c];
      KeysFromHistory(m, before, l);
      DecodeAllSnoc(m, NO_FLAGS, before, c);
      NextKey(m, before, c, l);
    }
  }

  /** So a text typed on an untouched keyboard, with or without the releases, is read off the plain table. */
  lemma {:induction false} PlainTyping(m: Keymaps, codes: seq<nat>)
    requires m.Valid() && forall i | 0 <= i < |codes| :: codes[i] < 128
    requires forall i | 0 <= i < |codes| :: m.plain[codes[i]] != 0 && !IsModifierKey(m.plain[codes[i]])
    ensures var (f, keys) := DecodeAll(m, NO_FLAGS, codes);
            && f == NO_FLAGS && |keys| == |codes|
            && forall i | 0 <= i < |codes| :: keys[i] == m.plain[codes[i]]
    decreases |codes|
  {
    if codes != [] {
      PlainTyping(m, codes[1..]);
      assert Decode(m, NO_FLAGS, codes[0]) == (NO_FLAGS, Some(m.plain[codes[0]]));
      var rest := DecodeAll(m, NO_FLAGS, codes[1..]).1;
      assert DecodeAll(m, NO_FLAGS, codes) == (NO_FLAGS, [m.plain[codes[0]]] + rest);
      forall i | 0 <= i < |codes| ensures ([m.plain[codes[0]]] + rest)[i] == m.plain[codes[i]] {
        if i > 0 { assert codes[1..][i - 1] == codes[i]; }
      }
    }
  }

  // ---------------------------------------------------------------- the queue as a state machine

  /** Where kb_getc is: the loads of its wait loop, the halt of that loop, the loads of pop_index, its
      store, and the final read. The values are what it holds in registers. Asleep is behind the halt,
      until an interrupt has been handled. */
  datatype Pc =
    | LoadPush
    | LoadPop(push: nat)
    | Halt
    | Asleep
    | LoadIndex
    | LoadNext(index: nat)
    | StorePop(index: nat, next: nat)
    | ReadSlot(index: nat)

  /** Shared memory, the consumer, and the history of keys put in and handed out. */
  datatype System = System(slots: seq<nat>, pop: nat, push: nat, flags: Flags, pc: Pc,
                           accepted: seq<nat>, returned: seq<nat>)

  /** A byte from the keyboard, an interrupt of another device, or a step of kb_getc. */
  datatype Event = Irq(c: nat) | OtherIrq | Cpu

  predicate Shaped(s: System) {
    && |s.slots| == LEN && s.pop < LEN && s.push < LEN
    && (s.pc.ReadSlot? ==> s.pc.index < LEN)
    && (s.pc.StorePop? ==> s.pc.next < LEN && s.pc.index < LEN)
    && (s.pc.LoadNext? ==> s.pc.index < LEN)
  }

  /** The producer's half of kb_handler. */
  function Push(s: System, key: nat): (t: System)
    requires Shaped(s)
    ensures Shaped(t)
  {
    if (s.push + 1) % 32 != s.pop then
      s.(slots := s.slots[s.push := key], push := (s.push + 1) % 32, accepted := s.accepted + [key])
    else s
  }

  function Interrupt(m: Keymaps, s: System, c: nat): (t: System)
    requires m.Valid() && c < 256 && Shaped(s)
    ensures Shaped(t)
  {
    var (g, key) := Decode(m, s.flags, c);
    var t := s.(flags := g);
    match key
    case None => t
    case Some(k) => Push(t, k)
  }

  /** Any interrupt ends the sleep. */
  function Awake(s: System): (t: System)
    requires Shaped(s)
    ensures Shaped(t)
  {
    if s.pc.Asleep? then s.(pc := LoadPush) else s
  }

  /** The next step of kb_getc; there is none while it sleeps. */
  function GetcStep(s: System): (t: System)
    requires Shaped(s)
    ensures Shaped(t)
  {
    match s.pc
    case LoadPush => s.(pc := LoadPop(s.push))
    case LoadPop(push) => s.(pc := if push == s.pop then Halt else LoadIndex)
    case Halt => s.(pc := Asleep)
    case Asleep => s
    case LoadIndex => s.(pc := LoadNext(s.pop))
    case LoadNext(index) => s.(pc := StorePop(index, (s.pop + 1) % 32))
    case StorePop(index, next) => s.(pop := next, pc := ReadSlot(index))
    case ReadSlot(index) => s.(returned := s.returned + [s.slots[index]], pc := LoadPush)
  }

  function Next(m: Keymaps, s: System, e: Event): (t: System)
    requires m.Valid() && Shaped(s) && (e.Irq? ==> e.c < 256)
    ensures Shaped(t)
  {
    match e
    case Irq(c) => Awake(Interrupt(m, s, c))
    case OtherIrq => Awake(s)
    case Cpu => GetcStep(s)
  }

  function Run(m: Keymaps, s: System, events: seq<Event>): (t: System)
    requires m.Valid() && Shaped(s)
    requires forall i | 0 <= i < |events| :: events[i].Irq? ==> events[i].c < 256
    ensures Shaped(t)
    decreases |events|
  {
    if events == [] then s else Run(m, Next(m, s, events[0]), events[1..])
  }

  // ---------------------------------------------------------------- the invariant

  /** Keys whose slot the consumer has given up: one more than it has returned, while it is about to
      read the slot. */
  function Released(s: System): nat {
    |s.returned| + if s.pc.ReadSlot? then 1 else 0
  }

  predicate IndexOf(k: nat, index: nat) { index == k % 32 }

  ghost predicate Inv(s: System) {
    && Shaped(s)
    && Released(s) <= |s.accepted| <= Released(s) + 31
    && IndexOf(Released(s), s.pop) && IndexOf(|s.accepted|, s.push)
    && (forall i | |s.returned| <= i < |s.accepted| :: s.slots[i % 32] == s.accepted[i])
    && s.returned == s.accepted[..|s.returned|]
    && match s.pc
       case LoadPush => true
       case LoadPop(push) => exists k | |s.returned| <= k <= |s.accepted| :: IndexOf(k, push)
       case Halt => true
       case Asleep => true
       case LoadIndex => |s.returned| < |s.accepted|
       case LoadNext(index) => |s.returned| < |s.accepted| && IndexOf(|s.returned|, index)
       case StorePop(index, next) =>
         |s.returned| < |s.accepted| && IndexOf(|s.returned|, index) && IndexOf(|s.returned| + 1, next)
       case ReadSlot(index) => IndexOf(|s.returned|, index)
  }

  lemma NextIndex(k: nat, index: nat)
    requires IndexOf(k, index)
    ensures IndexOf(k + 1, (index + 1) % 32)
  {
  }

  /** Within 32 consecutive numbers the slot tells them apart. */
  lemma SameIndex(j: nat, k: nat)
    requires j <= k < j + 32 && j % 32 == k % 32
    ensures j == k
  {
  }

  /** A key is refused exactly when 31 keys are in slots the consumer has not given up. */
  lemma PushIff(s: System, key: nat)
    requires Inv(s)
    ensures Push(s, key).accepted == s.accepted + [key] <==> |s.accepted| - Released(s) < 31
    ensures |s.accepted| - Released(s) == 31 ==> Push(s, key) == s
  {
    FullIff(|s.accepted|, Released(s), s.push, s.pop);
  }

  lemma FullIff(accepted: nat, released: nat, push: nat, pop: nat)
    requires released <= accepted <= released + 31 && IndexOf(released, pop) && IndexOf(accepted, push)
    ensures (push + 1) % 32 == pop <==> accepted - released == 31
  {
    NextIndex(accepted, push);
    if (push + 1) % 32 == pop && accepted + 1 < released + 32 { SameIndex(released, accepted + 1); }
  }

  /** The slot the consumer is about to read survives, although pop_index has moved past it. */
  lemma PushSparesSlot(s: System, key: nat, i: nat)
    requires Inv(s) && |s.returned| <= i < |s.accepted|
    ensures Push(s, key).slots[i % 32] == s.slots[i % 32]
  {
    PushIff(s, key);
    if |s.accepted| - Released(s) < 31 && i % 32 == s.push { SameIndex(i, |s.accepted|); }
  }

  lemma PushKeepsInv(s: System, key: nat)
    requires Inv(s)
    ensures Inv(Push(s, key))
  {
    var t := Push(s, key);
    PushIff(s, key);
    NextIndex(|s.accepted|, s.push);
    forall i | |t.returned| <= i < |t.accepted| ensures t.slots[i % 32] == t.accepted[i] {
      if i < |s.accepted| { PushSparesSlot(s, key, i); }
    }
    if s.pc.LoadPop? {
      var k :| |s.returned| <= k <= |s.accepted| && IndexOf(k, s.pc.push);
      assert |t.returned| <= k <= |t.accepted| && IndexOf(k, t.pc.push);
    }
  }

  lemma GetcKeepsInv(s: System)
    requires Inv(s)
    ensures Inv(GetcStep(s))
  {
    var t := GetcStep(s);
    match s.pc
    case LoadPush => assert IndexOf(|s.accepted|, t.pc.push);
    case LoadPop(push) =>
      if push != s.pop {
        var k :| |s.returned| <= k <= |s.accepted| && IndexOf(k, push);
      }
    case Halt =>
    case Asleep =>
    case LoadIndex =>
    case LoadNext(index) => NextIndex(|s.returned|, s.pop);
    case StorePop(index, next) =>
    case ReadSlot(index) =>
      assert s.slots[|s.returned| % 32] == s.accepted[|s.returned|];
  }

  lemma InterruptKeepsInv(m: Keymaps, s: System, c: nat)
    requires m.Valid() && c < 256 && Inv(s)
    ensures Inv(Interrupt(m, s, c))
  {
    var (g, key) := Decode(m, s.flags, c);
    var t := s.(flags := g);
    if s.pc.LoadPop? {
      var k :| |s.returned| <= k <= |s.accepted| && IndexOf(k, s.pc.push);
      assert |t.returned| <= k <= |t.accepted| && IndexOf(k, t.pc.push);
    }
    assert Inv(t);
    if key.Some? { PushKeepsInv(t, key.value); }
  }

  lemma NextKeepsInv(m: Keymaps, s: System, e: Event)
    requires m.Valid() && (e.Irq? ==> e.c < 256) && Inv(s)
    ensures Inv(Next(m, s, e))
  {
    match e
    case Irq(c) => InterruptKeepsInv(m, s, c);
    case OtherIrq =>
    case Cpu => GetcKeepsInv(s);
  }

  lemma {:induction false} RunKeepsInv(m: Keymaps, s: System, events: seq<Event>)
    requires m.Valid() && Inv(s)
    requires forall i | 0 <= i < |events| :: events[i].Irq? ==> events[i].c < 256
    ensures Inv(Run(m, s, events))
    decreases |events|
  {
    if events != [] {
      NextKeepsInv(m, s, events[0]);
      RunKeepsInv(m, Next(m, s, events[0]), events[1..]);
    }
  }

  function Initial(slots: seq<nat>): System {
    System(slots, 0, 0, Flags(false, false, false, false, false, false, false), LoadPush, [], [])
  }

  /** Under every interleaving the keys handed out are a prefix of the keys put in, so none is lost,
      repeated or reordered; and at most 31 are queued. */
  lemma KeysInOrder(m: Keymaps, slots: seq<nat>, events: seq<Event>)
    requires m.Valid() && |slots| == LEN
    requires forall i | 0 <= i < |events| :: events[i].Irq? ==> events[i].c < 256
    ensures var s := Run(m, Initial(slots), events);
            s.returned <= s.accepted && |s.accepted| - Released(s) <= 31
  {
    RunKeepsInv(m, Initial(slots), events);
  }

  /** If the consumer is at its read, no interrupt changes the slot it is about to read. */
  lemma ReadIsStable(m: Keymaps, slots: seq<nat>, events: seq<Event>, c: nat)
    requires m.Valid() && |slots| == LEN && c < 256
    requires forall i | 0 <= i < |events| :: events[i].Irq? ==> events[i].c < 256
    ensures var s := Run(m, Initial(slots), events);
            s.pc.ReadSlot? ==>
              && Interrupt(m, s, c).slots[s.pc.index] == s.slots[s.pc.index]
              && |s.returned| < |s.accepted| && s.slots[s.pc.index] == s.accepted[|s.returned|]
  {
    RunKeepsInv(m, Initial(slots), events);
    var s := Run(m, Initial(slots), events);
    if s.pc.ReadSlot? {
      var (g, key) := Decode(m, s.flags, c);
      if key.Some? { PushSparesSlot(s.(flags := g), key.value, |s.returned|); }
      assert s.slots[|s.returned| % 32] == s.accepted[|s.returned|];
    }
  }

  // ---------------------------------------------------------------- what is queued

  /** The bytes that the keyboard has sent. */
  function Sent(events: seq<Event>): seq<nat> {
    if events == [] then [] else (if events[0].Irq? then [events[0].c] else []) + Sent(events[1..])
  }

  lemma {:induction false} SentAreBytes(events: seq<Event>)
    requires forall i | 0 <= i < |events| :: events[i].Irq? ==> events[i].c < 256
    ensures forall i | 0 <= i < |Sent(events)| :: Sent(events)[i] < 256
  {
    if events != [] {
      SentAreBytes(events[1..]);
      if events[0].Irq? { assert Sent(events) == [events[0].c] + Sent(events[1..]); }
    }
  }

  /** No key comes while 31 are in slots that the consumer has not given up. */
  predicate NeverRefused(m: Keymaps, s: System, events: seq<Event>)
    requires m.Valid() && Shaped(s)
    requires forall i | 0 <= i < |events| :: events[i].Irq? ==> events[i].c < 256
    decreases |events|
  {
    events == [] ||
    (&& (events[0].Irq? && Decode(m, s.flags, events[0].c).1.Some? ==> |s.accepted| - Released(s) < 31)
     && NeverRefused(m, Next(m, s, events[0]), events[1..]))
  }

  lemma SentFirst(m: Keymaps, f: Flags, events: seq<Event>)
    requires m.Valid() && events != [] && events[0].Irq? && events[0].c < 256
    requires forall i | 0 <= i < |Sent(events)| :: Sent(events)[i] < 256
    requires forall i | 0 <= i < |Sent(events[1..])| :: Sent(events[1..])[i] < 256
    ensures var (g, key) := Decode(m, f, events[0].c);
            var (h, keys) := DecodeAll(m, g, Sent(events[1..]));
            DecodeAll(m, f, Sent(events)) == (h, (if key.Some? then [key.value] else []) + keys)
  {
    assert Sent(events) == [events[0].c] + Sent(events[1..]);
    assert Sent(events)[1..] == Sent(events[1..]);
  }

  lemma OneQueued(m: Keymaps, s: System, e: Event)
    requires m.Valid() && Inv(s) && (e.Irq? ==> e.c < 256)
    ensures var t := Next(m, s, e);
            if e.Irq? then
              var (g, key) := Decode(m, s.flags, e.c);
              && t.flags == g
              && t.accepted == s.accepted + if key.Some? && |s.accepted| - Released(s) < 31 then [key.value] else []
            else t.flags == s.flags && t.accepted == s.accepted
  {
    if e.Irq? {
      var (g, key) := Decode(m, s.flags, e.c);
      if key.Some? {
        assert Inv(s.(flags := g)) by { FlagsKeepInv(s, g); }
        PushIff(s.(flags := g), key.value);
      }
    }
  }

  lemma FlagsKeepInv(s: System, g: Flags)
    requires Inv(s)
    ensures Inv(s.(flags := g))
  {
    var t := s.(flags := g);
    if s.pc.LoadPop? {
      var k :| |s.returned| <= k <= |s.accepted| && IndexOf(k, s.pc.push);
      assert |t.returned| <= k <= |t.accepted| && IndexOf(k, t.pc.push);
    }
  }

  /** Under every interleaving the keys put in are those that the bytes type, in order, exactly when none
      comes while the queue is full; otherwise there are fewer. */
  lemma {:induction false} QueuedIff(m: Keymaps, s: System, events: seq<Event>)
    requires m.Valid() && Inv(s)
    requires forall i | 0 <= i < |events| :: events[i].Irq? ==> events[i].c < 256
    requires forall i | 0 <= i < |Sent(events)| :: Sent(events)[i] < 256
    ensures var (g, keys) := DecodeAll(m, s.flags, Sent(events));
            var t := Run(m, s, events);
            && t.flags == g && |t.accepted| <= |s.accepted| + |keys|
            && (NeverRefused(m, s, events) <==> t.accepted == s.accepted + keys)
            && (NeverRefused(m, s, events) <==> |t.accepted| == |s.accepted| + |keys|)
    decreases |events|
  {
    if events != [] {
      var e, rest := events[0], events[1..];
      var t := Next(m, s, e);
      NextKeepsInv(m, s, e);
      OneQueued(m, s, e);
      SentAreBytes(rest);
      QueuedIff(m, t, rest);
      if !e.Irq? {
        assert Sent(events) == Sent(rest);
      } else {
        var key := Decode(m, s.flags, e.c).1;
        var keys := DecodeAll(m, t.flags, Sent(rest)).1;
        SentFirst(m, s.flags, events);
        Continued(s.accepted, t.accepted, if key.Some? then [key.value] else [], keys, Run(m, t, rest).accepted,
                  key.Some? && |s.accepted| - Released(s) >= 31, NeverRefused(m, t, rest));
      }
    }
  }

  /** What the first key, taken or refused, adds to what the others do. */
  lemma Continued(a: seq<nat>, b: seq<nat>, key: seq<nat>, keys: seq<nat>, end: seq<nat>, refused: bool, others: bool)
    requires b == (if refused then a else a + key) && (refused ==> |key| == 1)
    requires |end| <= |b| + |keys| && (others <==> end == b + keys) && (others <==> |end| == |b| + |keys|)
    ensures |end| <= |a| + |key + keys|
    ensures !refused && others <==> end == a + (key + keys)
    ensures !refused && others <==> |end| == |a| + |key + keys|
  {
  }

  /** From the start: what kb_getc hands out is a prefix of what the bytes type, by the tables. */
  lemma QueuedFromHistory(m: Keymaps, slots: seq<nat>, events: seq<Event>, l: Layout)
    requires m.Valid() && HasLayout(m, l) && |slots| == LEN
    requires forall i | 0 <= i < |events| :: events[i].Irq? ==> events[i].c < 256
    ensures var s := Run(m, Initial(slots), events);
            && (NeverRefused(m, Initial(slots), events) <==> s.accepted == KeysTyped(m, Sent(events), l))
            && s.returned <= s.accepted
  {
    SentAreBytes(events);
    KeysFromHistory(m, Sent(events), l);
    QueuedIff(m, Initial(slots), events);
    KeysInOrder(m, slots, events);
  }

  // ---------------------------------------------------------------- progress

  /** Steps kb_getc still needs when a key is queued, where waking up is one. Before the second load of
      its wait loop it may hold an old push_index, and then it halts and goes round once more. */
  function Rank(s: System): nat {
    match s.pc
    case LoadPush => 6
    case LoadPop(push) => if push == s.pop then 9 else 5
    case Halt => 8
    case Asleep => 7
    case LoadIndex => 4
    case LoadNext(_) => 3
    case StorePop(_, _) => 2
    case ReadSlot(_) => 1
  }

  /** While kb_getc sleeps only an interrupt takes it further, and otherwise only its own step. */
  predicate Useful(s: System, e: Event) {
    if s.pc.Asleep? then !e.Cpu? else e.Cpu?
  }

  function UsefulSteps(m: Keymaps, s: System, events: seq<Event>): nat
    requires m.Valid() && Shaped(s)
    requires forall i | 0 <= i < |events| :: events[i].Irq? ==> events[i].c < 256
    decreases |events|
  {
    if events == [] then 0
    else (if Useful(s, events[0]) then 1 else 0) + UsefulSteps(m, Next(m, s, events[0]), events[1..])
  }

  lemma RankFalls(m: Keymaps, s: System, e: Event)
    requires m.Valid() && (e.Irq? ==> e.c < 256) && Inv(s) && |s.returned| < |s.accepted|
    ensures var t := Next(m, s, e);
            && |s.accepted| <= |t.accepted|
            && (!Useful(s, e) ==> t.returned == s.returned && Rank(t) == Rank(s))
            && (Useful(s, e) && Rank(s) > 1 ==> t.returned == s.returned && Rank(t) == Rank(s) - 1)
            && (Useful(s, e) && Rank(s) == 1 ==> |t.returned| > |s.returned|)
  {
    if e.Cpu? && s.pc.LoadPush? && s.push == s.pop { SameIndex(|s.returned|, |s.accepted|); }
  }

  lemma {:induction false} ReturnedGrows(m: Keymaps, s: System, events: seq<Event>)
    requires m.Valid() && Inv(s)
    requires forall i | 0 <= i < |events| :: events[i].Irq? ==> events[i].c < 256
    ensures |s.returned| <= |Run(m, s, events).returned|
    decreases |events|
  {
    if events != [] {
      NextKeepsInv(m, s, events[0]);
      ReturnedGrows(m, Next(m, s, events[0]), events[1..]);
    }
  }

  /** With a key queued, kb_getc hands one out exactly when it gets as many useful steps as it needs,
      which are at most nine, however many interrupts come between them. */
  lemma {:induction false} GetcReturnsIff(m: Keymaps, s: System, events: seq<Event>)
    requires m.Valid() && Inv(s) && |s.returned| < |s.accepted|
    requires forall i | 0 <= i < |events| :: events[i].Irq? ==> events[i].c < 256
    ensures Rank(s) <= 9
    ensures |s.returned| < |Run(m, s, events).returned| <==> Rank(s) <= UsefulSteps(m, s, events)
    decreases |events|
  {
    if events != [] {
      var t := Next(m, s, events[0]);
      NextKeepsInv(m, s, events[0]);
      RankFalls(m, s, events[0]);
      if Useful(s, events[0]) && Rank(s) == 1 {
        ReturnedGrows(m, t, events[1..]);
      } else {
        GetcReturnsIff(m, t, events[1..]);
      }
    }
  }

  /** The wake-up can be lost: a key that comes between the comparison and the halt stays queued while
      kb_getc sleeps, for as long as no other interrupt comes. */
  lemma {:induction false} SleepsOnQueuedKey(m: Keymaps, s: System, events: seq<Event>)
    requires m.Valid() && Inv(s) && |s.returned| < |s.accepted| && (s.pc.Halt? || s.pc.Asleep?)
    requires forall i | 0 <= i < |events| :: events[i].Cpu?
    ensures var t := Run(m, s, events);
            t.returned == s.returned && t.accepted == s.accepted && (t.pc.Halt? || t.pc.Asleep?)
    decreases |events|
  {
    if events != [] {
      NextKeepsInv(m, s, events[0]);
      SleepsOnQueuedKey(m, Next(m, s, events[0]), events[1..]);
    }
  }

  /** It gets there from the start: kb_getc finds the queue empty, a key comes, kb_getc halts. */
  lemma WakeUpCanBeLost(m: Keymaps, slots: seq<nat>, c: nat)
    requires m.Valid() && |slots| == LEN && c < 256
    requires Decode(m, Initial(slots).flags, c).1.Some?
    ensures var s := Next(m, Next(m, Next(m, Next(m, Initial(slots), Cpu), Cpu), Irq(c)), Cpu);
            Inv(s) && s.pc.Asleep? && s.returned == [] && |s.accepted| == 1
  {
    var a := Next(m, Initial(slots), Cpu);
    var b := Next(m, a, Cpu);
    var d := Next(m, b, Irq(c));
    NextKeepsInv(m, Initial(slots), Cpu);
    NextKeepsInv(m, a, Cpu);
    NextKeepsInv(m, b, Irq(c));
    NextKeepsInv(m, d, Cpu);
  }

  // ---------------------------------------------------------------- the driver

  class Driver {
    const maps: Keymaps
    const key: array<nat>
    var popIndex: nat
    var pushIndex: nat
    var flags: Flags
    var pc: Pc
    ghost var accepted: seq<nat>
    ghost var returned: seq<nat>

    ghost function Abs(): System
      reads this, key
    {
      System(key[..], popIndex, pushIndex, flags, pc, accepted, returned)
    }

    ghost predicate Valid()
      reads this, key
    {
      maps.Valid() && Inv(Abs())
    }

    /** kb_init */
    constructor (maps: Keymaps)
      requires maps.Valid()
      ensures Valid() && fresh(key) && Abs() == Initial(key[..]) && this.maps == maps
    {
      this.maps := maps;
      key := new nat[LEN];
      popIndex, pushIndex := 0, 0;
      flags := Flags(false, false, false, false, false, false, false);
      pc := LoadPush;
      accepted, returned := [], [];
    }

    /** The part of kb_handler that tracks the modifiers: the key to queue, 0 for none. */
    method DecodeByte(c: nat) returns (code: nat)
      requires maps.Valid() && c < 256
      modifies this`flags
      ensures var (g, k) := Decode(maps, old(flags), c);
              flags == g && (if k.Some? then code == k.value != 0 else code == 0)
    {
      if c == 0xE0 {
        flags := flags.(escaped := true);
        return 0;
      }
      var keyDown := c < 128;
      code := Lookup(maps, flags, Code(c));
      flags := flags.(escaped := false);
      if code == KEY_LSHIFT || code == KEY_RSHIFT {
        flags := flags.(shift := keyDown);
      } else if code == KEY_LCONTROL {
        flags := flags.(lcontrol := keyDown);
      } else if code == KEY_RCONTROL {
        flags := flags.(rcontrol := keyDown);
      } else if code == KEY_LALT {
        flags := flags.(lalt := keyDown);
      } else if code == KEY_RALT {
        flags := flags.(ralt := keyDown);
      } else if code == KEY_CAPS {
        flags := flags.(caps := keyDown != flags.caps);
      } else {
        if !keyDown {
          code := 0;
        } else if flags.caps {
          code := SwapCase(code);
        }
        return;
      }
      code := 0;
    }

    /** The part of kb_handler that queues a key. */
    method Queue(code: nat)
      requires Shaped(Abs())
      modifies this`pushIndex, this`accepted, key
      ensures Abs() == Push(old(Abs()), code)
    {
      if (pushIndex + 1) % 32 != popIndex {
        key[pushIndex] := code;
        pushIndex := (pushIndex + 1) % 32;
        accepted := accepted + [code];
      }
    }

    /** kb_handler */
    method Handler(c: nat)
      requires Valid() && c < 256
      modifies this`pushIndex, this`flags, this`accepted, key
      ensures Valid() && Abs() == Interrupt(maps, old(Abs()), c)
    {
      InterruptKeepsInv(maps, Abs(), c);
      var code := DecodeByte(c);
      if code != 0 {
        Queue(code);
      }
    }

    /** The processor returns from an interrupt, of the keyboard or another device. */
    method Wake()
      requires Valid()
      modifies this`pc
      ensures Valid() && Abs() == Awake(old(Abs()))
    {
      if pc.Asleep? {
        pc := LoadPush;
      }
    }

    /** A whole keyboard interrupt. */
    method Interrupted(c: nat)
      requires Valid() && c < 256
      modifies this`pushIndex, this`flags, this`accepted, this`pc, key
      ensures Valid() && Abs() == Next(maps, old(Abs()), Irq(c))
    {
      Handler(c);
      Wake();
    }

    /** One step of kb_getc; a key when it was the last. */
    method Step() returns (r: Option<nat>)
      requires Valid()
      modifies this`popIndex, this`pc, this`returned
      ensures Valid() && Abs() == Next(maps, old(Abs()), Cpu)
      ensures returned == if r.Some? then old(returned) + [r.value] else old(returned)
      ensures r.Some? <==> old(pc).ReadSlot?
    {
      GetcKeepsInv(Abs());
      r := None;
      match pc {
        case LoadPush => pc := LoadPop(pushIndex);
        case LoadPop(push) => pc := if push == popIndex then Halt else LoadIndex;
        case Halt => pc := Asleep;
        case Asleep =>
        case LoadIndex => pc := LoadNext(popIndex);
        case LoadNext(index) => pc := StorePop(index, (popIndex + 1) % 32);
        case StorePop(index, next) =>
          popIndex := next;
          pc := ReadSlot(index);
        case ReadSlot(index) =>
          r := Some(key[index]);
          returned := returned + [key[index]];
          pc := LoadPush;
      }
    }
  }
}
