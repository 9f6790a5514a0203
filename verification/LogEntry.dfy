/** log of bootloader/stage2/stdio.c from its format to the screen. */
module LogEntry {
  import opened Bytes
  import opened Numbers
  import opened Screen
  import opened Console
  import opened Printf

  // ---------------------------------------------------------------- formats without escapes

  /** A string argument has no escape byte, and an argument printed as a character is none. */
  ghost predicate ArgClean(c: byte, arg: Arg) {
    && (arg.StringArg? ==> EscFree(arg.s))
    && (c == 99 && arg.IntArg? ==> arg.i % 256 != ESC)
  }

  /** What a caller can check of the arguments that a format takes. */
  ghost predicate ArgsClean(fmt: seq<byte>, inside: bool, args: seq<Arg>)
    decreases |fmt|
  {
    if fmt == [] then true
    else if !inside then ArgsClean(fmt[1..], fmt[0] == PERCENT, args)
    else if IsModifier(fmt[0]) then ArgsClean(fmt[1..], true, args)
    else if !TakesArg(fmt[0]) || args == [] then ArgsClean(fmt[1..], false, args)
    else ArgClean(fmt[0], args[0]) && ArgsClean(fmt[1..], false, args[1..])
  }

  lemma {:induction false} ArgsCleanText(fmt: seq<byte>, n: nat, args: seq<Arg>)
    requires n <= |fmt| && forall k | 0 <= k < n :: fmt[k] != PERCENT
    ensures ArgsClean(fmt, false, args) == ArgsClean(fmt[n..], false, args)
    decreases n
  {
    if n > 0 {
      ArgsCleanText(fmt[1..], n - 1, args);
      assert fmt[1..][n - 1..] == fmt[n..];
    }
  }

  lemma {:induction false} DigitsEscFree(n: nat, hex: bool)
    ensures EscFree(DigitsUp(n, hex))
    decreases n
  {
    if Quotient(n, hex) != 0 && n != 0 { DigitsEscFree(Quotient(n, hex), hex); }
  }

  lemma ItoaEscFree(value: int, base: nat, pad: byte, w: int)
    requires pad != ESC
    ensures EscFree(Itoa(value, base, pad, w))
  {
    var text, body := Itoa(value, base, pad, w), Body(value, base);
    var all := body + Repeat(pad, w - |body|);
    DigitsEscFree(Magnitude(value, base), base == 16);
    forall k | 0 <= k < |text| ensures text[k] != ESC {
      ReverseAt(all, k);
      if |all| - 1 - k >= |body| { RepeatAt(pad, w - |body|, |all| - 1 - k - |body|); }
    }
  }

  lemma ConvertEscFree(c: byte, m: Mods, arg: Arg)
    requires m.pad != ESC && ArgClean(c, arg) && Convert(c, m, arg).Done?
    ensures EscFree(Convert(c, m, arg).out)
  {
    match arg {
      case IntArg(i) =>
        if c != 99 { NumberEscFree(i, if c == 100 || c == 105 then 10 else 16, m.pad, m.w, m); }
      case LongArg(l) => NumberEscFree(l, if c == 100 || c == 105 then 10 else 16, m.pad, m.w, m);
      case SizeArg(z) => NumberEscFree(z, 10, m.pad, m.w, m);
      case PointerArg(p) => NumberEscFree(p, 16, 48, 8, m);
      case StringArg(_) =>
    }
  }

  lemma NumberEscFree(value: int, base: nat, pad: byte, w: int, m: Mods)
    requires pad != ESC
    ensures NumberPart(value, base, pad, w, m).Done? ==> EscFree(NumberPart(value, base, pad, w, m).out)
  {
    ItoaEscFree(value, base, pad, w);
  }

  /** A format without escapes writes none, unless an argument brings one in. */
  lemma {:induction false} RenderEscFree(fmt: seq<byte>, args: seq<Arg>)
    requires EscFree(fmt) && ArgsClean(fmt, false, args) && Render(fmt, args).Done?
    ensures EscFree(Render(fmt, args).out)
    decreases |fmt|, 1
  {
    if fmt != [] {
      if fmt[0] == PERCENT {
        DirectiveEscFree(fmt[1..], PLAIN, args);
      } else {
        var n := TextLength(fmt);
        ArgsCleanText(fmt, n, args);
        RenderEscFree(fmt[n..], args);
      }
    }
  }

  lemma {:induction false} DirectiveEscFree(fmt: seq<byte>, m: Mods, args: seq<Arg>)
    requires EscFree(fmt) && m.pad != ESC && ArgsClean(fmt, true, args) && RenderDirective(fmt, m, args).Done?
    ensures EscFree(RenderDirective(fmt, m, args).out)
    decreases |fmt|, 0
  {
    var c := fmt[0];
    if IsModifier(c) {
      DirectiveEscFree(fmt[1..], Modify(m, c), args);
    } else if !TakesArg(c) {
      RenderEscFree(fmt[1..], args);
    } else {
      ConvertEscFree(c, m, args[0]);
      RenderEscFree(fmt[1..], args[1..]);
    }
  }

  // ---------------------------------------------------------------- the entry

  function Concat(pieces: seq<seq<byte>>): seq<byte> {
    if pieces == [] then [] else pieces[0] + Concat(pieces[1..])
  }

  /** How text without escapes is cut into writes makes no difference. */
  lemma {:induction false} PiecesAreOneText(t: Term, pieces: seq<seq<byte>>)
    requires forall k | 0 <= k < |pieces| :: EscFree(pieces[k])
    ensures WritePieces(t, pieces) == PutAll(t, Concat(pieces))
    decreases |pieces|
  {
    if pieces != [] {
      WritePlain(t, pieces[0], 0);
      assert pieces[0][0..] == pieces[0];
      PutAllConcat(t, pieces[0], Concat(pieces[1..]));
      PiecesAreOneText(PutAll(t, pieces[0]), pieces[1..]);
    }
  }

  function EntryText(func: seq<byte>, out: seq<byte>): seq<byte> {
    [91] + func + [93, 32] + out + [NEWLINE]
  }

  lemma EntryPieces(func: seq<byte>, out: seq<byte>)
    ensures Concat([[91], func, [93, 32]] + [out] + [[NEWLINE]]) == EntryText(func, out)
  {
    var all := [[91], func, [93, 32]] + [out] + [[NEWLINE]];
    assert all[1..] == [func, [93, 32], out, [NEWLINE]];
    assert all[1..][1..] == [[93, 32], out, [NEWLINE]];
    assert all[1..][1..][1..] == [out, [NEWLINE]];
    assert all[1..][1..][1..][1..] == [[NEWLINE]];
    assert Concat([[NEWLINE]]) == [NEWLINE];
    assert Concat([out, [NEWLINE]]) == out + [NEWLINE];
    assert Concat([[93, 32], out, [NEWLINE]]) == [93, 32] + (out + [NEWLINE]);
    assert Concat([func, [93, 32], out, [NEWLINE]]) == func + ([93, 32] + (out + [NEWLINE]));
    assert [91] + (func + ([93, 32] + (out + [NEWLINE]))) == EntryText(func, out);
  }

  /** log on a format whose directives are complete and match their arguments. The entry is the text of
      the rendering, in the level's attribute; the attribute is restored. */
  method LogFormat(screen: Screen, level: nat, func: seq<byte>, fmt: seq<byte>, args: seq<Arg>)
    requires screen.Valid() && EscFree(func) && EscFree(fmt) && ArgsClean(fmt, false, args)
    requires IsString(fmt) && Render(fmt, args).Done?
    modifies screen, screen.video
    ensures screen.Valid() && screen.attr == old(screen.attr)
    ensures var t := old(screen.t).(attr := LevelAttr(level, old(screen.attr)), oldattr := old(screen.attr));
            var u := PutAll(t, EntryText(func, Render(fmt, args).out));
            screen.t == u.(attr := old(screen.attr), oldattr := t.attr)
  {
    var r := VPrintf(fmt, args);
    RenderEscFree(fmt, args);
    ghost var t := screen.t.(attr := LevelAttr(level, screen.attr), oldattr := screen.attr);
    PutAllValid(t, EntryText(func, r.out));
    EntryPieces(func, r.out);
    PiecesAreOneText(t, [[91], func, [93, 32]] + [r.out] + [[NEWLINE]]);
    Log(screen, level, func, [r.out]);
  }
}
