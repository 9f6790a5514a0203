/** vprintf of bootloader/stage2/stdio.c: a format and its arguments turned into the bytes written. */
module Printf {
  import opened Bytes
  import opened Numbers

  const PERCENT: byte := 37

  /** The variable arguments, by the type they are fetched with. */
  datatype Arg =
    | IntArg(i: int)
    | LongArg(l: int)
    | SizeArg(z: nat)
    | PointerArg(p: int)
    | StringArg(s: seq<byte>)

  /** The bytes written; or the scan has run past the terminator; or an argument is missing, has
      another type, or does not fit the conversion buffer. */
  datatype Result = Done(out: seq<byte>) | Overrun | Undefined

  function Prepend(out: seq<byte>, r: Result): Result {
    if r.Done? then Done(out + r.out) else r
  }

  /** What the modifiers of a directive have set. */
  datatype Mods = Mods(lcount: nat, pad: byte, limit: bool, w: nat)

  const PLAIN: Mods := Mods(0, 0, false, 0)

  predicate IsModifier(c: byte) { c == 46 || 48 <= c <= 57 || c == 108 }

  /** '.', a first '0', a digit of the width, or 'l' */
  function Modify(m: Mods, c: byte): Mods
    requires IsModifier(c)
  {
    if c == 46 then m.(limit := true)
    else if c == 108 then m.(lcount := m.lcount + 1)
    else if c == 48 && m.pad == 0 then m.(pad := 48)
    else m.(w := m.w * 10 + (c - 48))
  }

  function StrLen(s: seq<byte>): (n: nat)
    ensures n <= |s|
    ensures forall k | 0 <= k < n :: s[k] != 0
    ensures n < |s| ==> s[n] == 0
  {
    if s == [] || s[0] == 0 then 0 else 1 + StrLen(s[1..])
  }

  /** The label `string`: up to the NUL, or as many bytes as the width says. */
  function StringPart(s: seq<byte>, m: Mods): Result {
    if !m.limit then Done(s[..StrLen(s)])
    else if m.w <= |s| then Done(s[..m.w])
    else Undefined
  }

  const BUFFER: nat := 64

  function NumberPart(value: int, base: nat, pad: byte, w: int, m: Mods): Result {
    var text := Itoa(value, base, pad, w);
    if |text| < BUFFER then StringPart(text, m) else Undefined
  }

  predicate TakesArg(c: byte) { c in {99, 100, 105, 120, 88, 122, 112, 102, 115} }

  /** With a '.' strlen is not called, so the bytes of a string argument need no NUL behind them.
      One conversion: 'c', 'd', 'i', 'x', 'X', 'z', 'p', 's'; 'f' is not part of this model. */
  function Convert(c: byte, m: Mods, arg: Arg): Result {
    if c == 99 then
      if arg.IntArg? && Int32(arg.i) then Done([arg.i % 256]) else Undefined
    else if c == 100 || c == 105 || c == 120 || c == 88 then
      var base := if c == 100 || c == 105 then 10 else 16;
      if m.lcount < 2 && arg.IntArg? && Int32(arg.i) then NumberPart(arg.i, base, m.pad, m.w, m)
      else if m.lcount >= 2 && arg.LongArg? && Int64(arg.l) then NumberPart(arg.l, base, m.pad, m.w, m)
      else Undefined
    else if c == 122 then
      if arg.SizeArg? && arg.z < 0x1_0000_0000 then NumberPart(arg.z, 10, m.pad, m.w, m) else Undefined
    else if c == 112 then
      if arg.PointerArg? && Int32(arg.p) then NumberPart(arg.p, 16, 48, 8, m) else Undefined
    else if c == 115 then
      if arg.StringArg? && (m.limit || StrLen(arg.s) == |arg.s|) then StringPart(arg.s, m) else Undefined
    else Undefined
  }

  /** The length of the text before the next directive. */
  function TextLength(fmt: seq<byte>): (n: nat)
    ensures n <= |fmt|
    ensures forall k | 0 <= k < n :: fmt[k] != PERCENT
    ensures n < |fmt| ==> fmt[n] == PERCENT
  {
    if fmt == [] || fmt[0] == PERCENT then 0 else 1 + TextLength(fmt[1..])
  }

  /** The rest of the format, in text. */
  function Render(fmt: seq<byte>, args: seq<Arg>): Result
    decreases |fmt|, 1
  {
    if fmt == [] then Done([])
    else if fmt[0] == PERCENT then RenderDirective(fmt[1..], PLAIN, args)
    else
      var n := TextLength(fmt);
      Prepend(fmt[..n], Render(fmt[n..], args))
  }

  /** The rest of the format, inside a directive. The default branch writes the character itself;
      when that is the terminator, the scan goes on behind it. */
  function RenderDirective(fmt: seq<byte>, m: Mods, args: seq<Arg>): Result
    decreases |fmt|, 0
  {
    if fmt == [] then Overrun
    else
      var c := fmt[0];
      if IsModifier(c) then RenderDirective(fmt[1..], Modify(m, c), args)
      else if !TakesArg(c) then Prepend([c], Render(fmt[1..], args))
      else if args == [] then Undefined
      else
        match Convert(c, m, args[0])
        case Done(out) => Prepend(out, Render(fmt[1..], args[1..]))
        case Overrun => Overrun
        case Undefined => Undefined
  }

  lemma ConvertNeverOverruns(c: byte, m: Mods, arg: Arg)
    ensures Convert(c, m, arg) != Overrun
  {
  }

  // ---------------------------------------------------------------- well-formed formats

  /** What a caller can check: the format ends inside a directive. */
  predicate Dangling(fmt: seq<byte>, inside: bool) {
    if fmt == [] then inside
    else Dangling(fmt[1..], if inside then IsModifier(fmt[0]) else fmt[0] == PERCENT)
  }

  lemma {:induction false} DanglingText(fmt: seq<byte>, n: nat)
    requires n <= |fmt| && forall k | 0 <= k < n :: fmt[k] != PERCENT
    ensures Dangling(fmt, false) == Dangling(fmt[n..], false)
    decreases n
  {
    if n > 0 {
      DanglingText(fmt[1..], n - 1);
      assert fmt[1..][n - 1..] == fmt[n..];
    }
  }

  /** Unless an argument is wrong, the scan leaves the format exactly when it ends inside a
      directive. */
  lemma {:induction false} OverrunIff(fmt: seq<byte>, args: seq<Arg>)
    requires IsString(fmt) && Render(fmt, args) != Undefined
    ensures Render(fmt, args) == Overrun <==> Dangling(fmt, false)
    decreases |fmt|, 1
  {
    if fmt != [] {
      if fmt[0] == PERCENT {
        OverrunInsideIff(fmt[1..], PLAIN, args);
      } else {
        var n := TextLength(fmt);
        DanglingText(fmt, n);
        OverrunIff(fmt[n..], args);
      }
    }
  }

  lemma {:induction false} OverrunInsideIff(fmt: seq<byte>, m: Mods, args: seq<Arg>)
    requires IsString(fmt) && RenderDirective(fmt, m, args) != Undefined
    ensures RenderDirective(fmt, m, args) == Overrun <==> Dangling(fmt, true)
    decreases |fmt|, 0
  {
    if fmt != [] {
      var c := fmt[0];
      if IsModifier(c) {
        OverrunInsideIff(fmt[1..], Modify(m, c), args);
      } else if !TakesArg(c) {
        OverrunIff(fmt[1..], args);
      } else {
        ConvertNeverOverruns(c, m, args[0]);
        OverrunIff(fmt[1..], args[1..]);
      }
    }
  }

  // ---------------------------------------------------------------- what is printed

  /** Every '%' doubled. */
  function Escape(text: seq<byte>): seq<byte> {
    if text == [] then []
    else (if text[0] == PERCENT then [PERCENT, PERCENT] else [text[0]]) + Escape(text[1..])
  }

  /** Text is one character and the rest, whatever run it belongs to. */
  lemma RenderChar(c: byte, fmt: seq<byte>, args: seq<Arg>)
    requires c != PERCENT
    ensures Render([c] + fmt, args) == Prepend([c], Render(fmt, args))
  {
    var all := [c] + fmt;
    assert all[1..] == fmt;
    var n := TextLength(fmt);
    assert TextLength(all) == n + 1;
    assert all[n + 1..] == fmt[n..] && all[..n + 1] == [c] + fmt[..n];
    var r := Render(fmt[n..], args);
    if n == 0 {
      assert fmt[0..] == fmt && fmt[..0] == [];
    } else if r.Done? {
      assert [c] + fmt[..n] + r.out == [c] + (fmt[..n] + r.out);
    }
  }

  lemma RenderPercent(fmt: seq<byte>, args: seq<Arg>)
    ensures Render([PERCENT, PERCENT] + fmt, args) == Prepend([PERCENT], Render(fmt, args))
  {
    var all := [PERCENT, PERCENT] + fmt;
    assert all[1..] == [PERCENT] + fmt && all[1..][1..] == fmt;
  }

  /** Any text with every '%' doubled is printed as it is, whatever the arguments. */
  lemma {:induction false} EscapePrintsBack(text: seq<byte>, args: seq<Arg>)
    requires IsString(text)
    ensures IsString(Escape(text)) && Render(Escape(text), args) == Done(text)
  {
    if text != [] {
      EscapePrintsBack(text[1..], args);
      assert text == [text[0]] + text[1..];
      if text[0] == PERCENT {
        RenderPercent(Escape(text[1..]), args);
      } else {
        RenderChar(text[0], Escape(text[1..]), args);
      }
    }
  }

  /** A width without a '0' pads with NUL in front, so the number is printed exactly when it fills the
      width by itself; otherwise nothing is. */
  lemma WidthPrintsIff(value: int, base: nat, w: nat)
    ensures var text := Itoa(value, base, 0, w);
            text[..StrLen(text)] == if w <= |Body(value, base)| then Itoa(value, base, 0, 0) else []
  {
    ItoaShape(value, base, 0, w);
    ItoaShape(value, base, 0, 0);
    var text := Itoa(value, base, 0, w);
    if w <= |Body(value, base)| {
      assert text == Itoa(value, base, 0, 0);
      ItoaHasNoNul(value, base);
    } else {
      RepeatAt(0, w - |Body(value, base)|, 0);
      assert text[0] == 0;
    }
  }

  lemma {:induction false} UpHasNoNul(n: nat, hex: bool)
    ensures forall k | 0 <= k < |DigitsUp(n, hex)| :: DigitsUp(n, hex)[k] != 0
    decreases n
  {
    if Quotient(n, hex) != 0 && n != 0 { UpHasNoNul(Quotient(n, hex), hex); }
  }

  lemma ItoaHasNoNul(value: int, base: nat)
    ensures var text := Itoa(value, base, 0, 0); StrLen(text) == |text|
  {
    var text, body := Itoa(value, base, 0, 0), Body(value, base);
    UpHasNoNul(Magnitude(value, base), base == 16);
    assert body + Repeat(0, 0 - |body|) == body;
    forall k | 0 <= k < |text| ensures text[k] != 0 { ReverseAt(body, k); }
  }

  lemma Directive1(c: byte, arg: Arg)
    requires TakesArg(c) && Convert(c, PLAIN, arg).Done?
    ensures Render([PERCENT, c], [arg]) == Convert(c, PLAIN, arg)
  {
    var fmt := [PERCENT, c];
    assert fmt[1..] == [c] && [c][1..] == [] && [arg][1..] == [];
    assert Render([c][1..], [arg][1..]) == Done([]);
    var out := Convert(c, PLAIN, arg).out;
    assert out + [] == out;
  }

  /** "%d" prints the usual decimal text of an int exactly when it is not negative. */
  lemma DecimalDirectiveIff(v: int)
    requires Int32(v)
    ensures Render([PERCENT, 100], [IntArg(v)]) == Done(Decimal(v)) <==> v >= 0
  {
    ItoaHasNoNul(v, 10);
    DecimalIff(v, 0);
    BodyLength(v, 10);
    Directive1(100, IntArg(v));
    var text := Itoa(v, 10, 0, 0);
    assert text[..|text|] == text;
  }

  /** "%s" prints the string. */
  lemma StringDirective(s: seq<byte>)
    requires StrLen(s) == |s|
    ensures Render([PERCENT, 115], [StringArg(s)]) == Done(s)
  {
    Directive1(115, StringArg(s));
    assert s[..|s|] == s;
  }

  /** "%08x" prints eight digits, and strtol reads them back as the low 16 bits of the number, also for
      a negative one. */
  lemma HexDirectiveReads(v: int)
    requires Int32(v)
    ensures var r := Render([PERCENT, 48, 56, 120], [IntArg(v)]);
            r.Done? && |r.out| == 8 && Strtol(r.out, 0, 16) == (v % 0x1_0000, 8)
  {
    var fmt := [PERCENT, 48, 56, 120];
    var text := Itoa(v, 16, 48, 8);
    BodyLength(v, 16);
    PrintedReads(v, 16, 8);
    RoundTripIff(v, 16, 8);
    PaddedHasNoNul(v, 16, 8);
    assert text[..8] == text && text + [] == text;
    var m := Modify(Modify(PLAIN, 48), 56);
    assert m == Mods(0, 48, false, 8);
    assert fmt[1..] == [48, 56, 120] && [48 as byte, 56, 120][1..] == [56, 120] && [56 as byte, 120][1..] == [120];
    assert RenderDirective([56, 120], Modify(PLAIN, 48), [IntArg(v)]) == RenderDirective([120], m, [IntArg(v)]);
    assert [120 as byte][1..] == [] && [IntArg(v)][1..] == [];
    assert Render([120][1..], [IntArg(v)][1..]) == Done([]);
    assert RenderDirective([120], m, [IntArg(v)]) == Done(text);
  }

  lemma PaddedHasNoNul(v: int, base: nat, w: nat)
    ensures var text := Itoa(v, base, 48, w); StrLen(text) == |text|
  {
    var body := Body(v, base);
    var all := body + Repeat(48, w - |body|);
    UpHasNoNul(Magnitude(v, base), base == 16);
    forall k | 0 <= k < |Itoa(v, base, 48, w)| ensures Itoa(v, base, 48, w)[k] != 0 {
      ReverseAt(all, k);
      if |all| - 1 - k >= |body| { RepeatAt(48, w - |body|, |all| - 1 - k - |body|); }
    }
  }

  // ---------------------------------------------------------------- the function

  /** The `string` label on a number, through the conversion buffer. */
  method WriteNumber(value: int, base: nat, pad: byte, w: int, m: Mods) returns (r: Result)
    requires Int64(value)
    ensures r == NumberPart(value, base, pad, w, m)
  {
    if |Itoa(value, base, pad, w)| >= BUFFER {
      return Undefined;
    }
    var buffer := new byte[BUFFER];
    ItoaS(value, base, pad, w, buffer);
    var text := buffer[..|Itoa(value, base, pad, w)|];
    r := StringPart(text, m);
  }

  method WriteConversion(c: byte, m: Mods, arg: Arg) returns (r: Result)
    ensures r == Convert(c, m, arg)
  {
    r := Undefined;
    match arg {
      case IntArg(i) =>
        if !Int32(i) {
          return;
        }
        if c == 99 {
          r := Done([i % 256]);
        } else if (c == 100 || c == 105) && m.lcount < 2 {
          r := WriteNumber(i, 10, m.pad, m.w, m);
        } else if (c == 120 || c == 88) && m.lcount < 2 {
          r := WriteNumber(i, 16, m.pad, m.w, m);
        }
      case LongArg(l) =>
        if Int64(l) && (c == 100 || c == 105) && m.lcount >= 2 {
          r := WriteNumber(l, 10, m.pad, m.w, m);
        } else if Int64(l) && (c == 120 || c == 88) && m.lcount >= 2 {
          r := WriteNumber(l, 16, m.pad, m.w, m);
        }
      case SizeArg(z) =>
        if c == 122 && z < 0x1_0000_0000 {
          r := WriteNumber(z, 10, m.pad, m.w, m);
        }
      case PointerArg(p) =>
        if c == 112 && Int32(p) {
          r := WriteNumber(p, 16, 48, 8, m);
        }
      case StringArg(s) =>
        if c == 115 && (m.limit || StrLen(s) == |s|) {
          r := StringPart(s, m);
        }
    }
  }

  /** The modifiers of a directive from s0 on. */
  method ReadModifiers(fmt: seq<byte>, s0: nat, ghost args: seq<Arg>) returns (m: Mods, s: nat)
    requires s0 <= |fmt|
    ensures s0 <= s <= |fmt| && (s < |fmt| ==> !IsModifier(fmt[s]))
    ensures RenderDirective(fmt[s0..], PLAIN, args) == RenderDirective(fmt[s..], m, args)
  {
    m, s := PLAIN, s0;
    while s < |fmt| && IsModifier(fmt[s])
      invariant s0 <= s <= |fmt|
      invariant RenderDirective(fmt[s0..], PLAIN, args) == RenderDirective(fmt[s..], m, args)
    {
      assert fmt[s..][1..] == fmt[s + 1..];
      m := Modify(m, fmt[s]);
      s := s + 1;
    }
  }

  /** The scan for the next '%' or the terminator. */
  method TextEnd(fmt: seq<byte>, s: nat) returns (p: nat)
    requires s < |fmt| && fmt[s] != PERCENT
    ensures s < p <= |fmt| && p == s + TextLength(fmt[s..])
  {
    p := s + 1;
    while p < |fmt| && fmt[p] != PERCENT
      invariant s < p <= |fmt| && p <= s + TextLength(fmt[s..])
    {
      p := p + 1;
    }
  }

  /** vprintf: s is an index into the format, whose terminator is at |fmt|. */
  method VPrintf(fmt: seq<byte>, args0: seq<Arg>) returns (r: Result)
    requires IsString(fmt)
    ensures r == Render(fmt, args0)
  {
    var s := 0;
    var args := args0;
    var out := [];
    while s < |fmt|
      invariant s <= |fmt| && Render(fmt, args0) == Prepend(out, Render(fmt[s..], args))
      decreases |fmt| - s
    {
      if fmt[s] != PERCENT {
        var p := TextEnd(fmt, s);
        assert fmt[s..][..p - s] == fmt[s..p] && fmt[s..][p - s..] == fmt[p..];
        PrependTwice(out, fmt[s..p], Render(fmt[p..], args));
        out := out + fmt[s..p];
        s := p;
      } else {
        assert fmt[s..][1..] == fmt[s + 1..];
        var m;
        m, s := ReadModifiers(fmt, s + 1, args);
        if s == |fmt| {
          return Overrun;
        }
        var c := fmt[s];
        assert fmt[s..][1..] == fmt[s + 1..];
        var part := Done([c]);
        if TakesArg(c) {
          if args == [] {
            return Undefined;
          }
          part := WriteConversion(c, m, args[0]);
          ConvertNeverOverruns(c, m, args[0]);
          if part == Undefined {
            return Undefined;
          }
          args := args[1..];
        }
        PrependTwice(out, part.out, Render(fmt[s + 1..], args));
        out := out + part.out;
        s := s + 1;
      }
    }
    r := Done(out);
  }

  lemma PrependTwice(a: seq<byte>, b: seq<byte>, r: Result)
    ensures Prepend(a, Prepend(b, r)) == Prepend(a + b, r)
  {
    if r.Done? { assert a + (b + r.out) == a + b + r.out; }
  }
}
