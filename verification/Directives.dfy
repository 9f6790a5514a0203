/** What each directive of vprintf in bootloader/stage2/stdio.c prints, with its modifiers. */
module Directives {
  import opened Bytes
  import opened Numbers
  import opened Parsing
  import opened Printf

  // ---------------------------------------------------------------- modifiers

  ghost predicate AllModifiers(mods: seq<byte>) {
    forall i | 0 <= i < |mods| :: IsModifier(mods[i])
  }

  ghost function ModifyAll(m: Mods, mods: seq<byte>): Mods
    requires AllModifiers(mods)
    decreases |mods|
  {
    if mods == [] then m else ModifyAll(Modify(m, mods[0]), mods[1..])
  }

  lemma {:induction false} RenderModifiers(mods: seq<byte>, m: Mods, rest: seq<byte>, args: seq<Arg>)
    requires AllModifiers(mods)
    ensures RenderDirective(mods + rest, m, args) == RenderDirective(rest, ModifyAll(m, mods), args)
    decreases |mods|
  {
    if mods == [] {
      assert mods + rest == rest;
    } else {
      assert (mods + rest)[1..] == mods[1..] + rest;
      RenderModifiers(mods[1..], Modify(m, mods[0]), rest, args);
    }
  }

  /** A directive writes the conversion of its argument under its modifiers, and the rest follows. */
  lemma RenderOne(mods: seq<byte>, c: byte, arg: Arg, rest: seq<byte>, args: seq<Arg>)
    requires AllModifiers(mods)
    requires TakesArg(c) && Convert(c, ModifyAll(PLAIN, mods), arg).Done?
    ensures Render([PERCENT] + mods + [c] + rest, [arg] + args) ==
              Prepend(Convert(c, ModifyAll(PLAIN, mods), arg).out, Render(rest, args))
  {
    var fmt := [PERCENT] + mods + [c] + rest;
    assert fmt[1..] == mods + ([c] + rest);
    RenderModifiers(mods, PLAIN, [c] + rest, [arg] + args);
    assert ([c] + rest)[1..] == rest && ([arg] + args)[1..] == args;
  }

  /** Any other character is printed, whatever the modifiers, and takes no argument. */
  lemma OtherDirective(mods: seq<byte>, c: byte, rest: seq<byte>, args: seq<Arg>)
    requires AllModifiers(mods) && !IsModifier(c) && !TakesArg(c)
    ensures Render([PERCENT] + mods + [c] + rest, args) == Prepend([c], Render(rest, args))
  {
    var fmt := [PERCENT] + mods + [c] + rest;
    assert fmt[1..] == mods + ([c] + rest);
    RenderModifiers(mods, PLAIN, [c] + rest, args);
    assert ([c] + rest)[1..] == rest;
  }

  /** A format of one directive. */
  function OneDirective(mods: seq<byte>, c: byte): seq<byte> { [PERCENT] + mods + [c] }

  lemma RenderAlone(mods: seq<byte>, c: byte, arg: Arg, out: seq<byte>)
    requires AllModifiers(mods) && TakesArg(c) && Convert(c, ModifyAll(PLAIN, mods), arg) == Done(out)
    ensures Render(OneDirective(mods, c), [arg]) == Done(out)
  {
    RenderOne(mods, c, arg, [], []);
    assert [PERCENT] + mods + [c] + [] == OneDirective(mods, c) && [arg] + [] == [arg];
    assert out + [] == out;
  }

  lemma {:induction false} ModifyAllConcat(m: Mods, a: seq<byte>, b: seq<byte>)
    requires AllModifiers(a) && AllModifiers(b)
    ensures AllModifiers(a + b)
    ensures ModifyAll(m, a + b) == ModifyAll(ModifyAll(m, a), b)
    decreases |a|
  {
    if a == [] {
      assert a + b == b;
    } else {
      assert (a + b)[1..] == a[1..] + b;
      ModifyAllConcat(Modify(m, a[0]), a[1..], b);
    }
  }

  /** Digits are read as the width they denote when none of them is taken for the flag '0'. */
  lemma {:induction false} WidthIsRead(m: Mods, t: seq<byte>)
    requires AllDigits(t, 10) && m.w == 0 && (m.pad != 0 || ZERO !in t)
    ensures AllModifiers(t)
    ensures ModifyAll(m, t) == m.(w := Value(t, 10))
    decreases |t|
  {
    if t != [] {
      var before, d := t[..|t| - 1], t[|t| - 1];
      WidthIsRead(m, before);
      assert t == before + [d];
      ModifyAllConcat(m, before, [d]);
      assert [d][1..] == [];
      assert ModifyAll(m.(w := Value(before, 10)), [d]) == Modify(m.(w := Value(before, 10)), d);
    }
  }

  /** A '0' among the digits of a width without flag is that flag. */
  lemma {:induction false} ZeroSetsPad(m: Mods, t: seq<byte>)
    requires AllDigits(t, 10) && (m.pad == 48 || ZERO in t)
    ensures AllModifiers(t)
    ensures m.pad == 0 || m.pad == 48 ==> ModifyAll(m, t).pad == 48
    decreases |t|
  {
    if t != [] {
      assert AllDigits(t[1..], 10);
      if m.pad == 0 && t[0] != ZERO { assert ZERO in t[1..]; }
      if Modify(m, t[0]).pad == 48 || ZERO in t[1..] { ZeroSetsPad(Modify(m, t[0]), t[1..]); }
    }
  }

  lemma DecimalText(n: nat)
    ensures Decimal(n) == Text(n, 10) && AllDigits(Decimal(n), 10) && Value(Decimal(n), 10) == n
    ensures AllModifiers(Decimal(n))
  {
    DigitsAreText(n, false);
    TextDenotes(n, 10);
    forall i | 0 <= i < |Decimal(n)| ensures IsModifier(Decimal(n)[i]) { assert IsDigit(Decimal(n)[i], 10); }
  }

  /** So a width n is read as n exactly when its digits have no zero: "%10d" is "%01d". */
  lemma WidthReadsIff(n: nat)
    ensures AllModifiers(Decimal(n))
    ensures ModifyAll(PLAIN, Decimal(n)) == PLAIN.(w := n) <==> ZERO !in Decimal(n)
  {
    DecimalText(n);
    if ZERO in Decimal(n) { ZeroSetsPad(PLAIN, Decimal(n)); } else { WidthIsRead(PLAIN, Decimal(n)); }
  }

  /** Behind the flag '0' every width is read. */
  lemma ZeroWidthReads(n: nat)
    ensures AllModifiers([ZERO] + Decimal(n))
    ensures ModifyAll(PLAIN, [ZERO] + Decimal(n)) == Mods(0, 48, false, n)
  {
    DecimalText(n);
    WidthIsRead(Mods(0, 48, false, 0), Decimal(n));
    assert ([ZERO] + Decimal(n))[1..] == Decimal(n);
  }

  // ---------------------------------------------------------------- numbers

  /** What itoa_s writes of a number without sign, as padding and text. */
  lemma ItoaText(value: int, base: nat, pad: byte, w: int)
    requires base == 16 || (base == 10 && value >= 0)
    ensures var t := Text(value % 0x1_0000_0000, base);
            Itoa(value, base, pad, w) == Repeat(pad, w - |t|) + t && |Body(value, base)| == |t|
  {
    ItoaShape(value, base, pad, w);
    DigitsAreText(value % 0x1_0000_0000, base == 16);
    assert Body(value, base) == [] + DigitsUp(value % 0x1_0000_0000, base == 16);
    var t := Text(value % 0x1_0000_0000, base);
    assert Repeat(pad, w - |t|) + t + [] == Repeat(pad, w - |t|) + t;
  }

  /** A number in the conversion buffer, unpadded or padded with zeros. */
  lemma NumberPrints(value: int, base: nat, pad: byte, w: nat, m: Mods)
    requires base == 16 || (base == 10 && value >= 0)
    requires !m.limit && w < BUFFER && (pad == 48 || (pad == 0 && w == 0))
    ensures var t := Text(value % 0x1_0000_0000, base);
            NumberPart(value, base, pad, w, m) == Done(Repeat(pad, w - |t|) + t)
  {
    ItoaText(value, base, pad, w);
    BodyLength(value, base);
    var text := Itoa(value, base, pad, w);
    if pad == 48 { PaddedHasNoNul(value, base, w); } else { ItoaHasNoNul(value, base); }
    assert text[..|text|] == text;
  }

  predicate IsHex(c: byte) { c == 'x' as nat || c == 'X' as nat }
  predicate IsInt(c: byte) { c == 'd' as nat || c == 'i' as nat }

  function BaseOf(c: byte): nat { if IsHex(c) then 16 else 10 }

  /** The base and the padding with which a conversion goes through the buffer. */
  lemma ConvertsInt(v: int, c: byte, m: Mods, out: seq<byte>)
    requires Int32(v) && (IsHex(c) || IsInt(c)) && m.lcount < 2 && NumberPart(v, BaseOf(c), m.pad, m.w, m) == Done(out)
    ensures TakesArg(c) && Convert(c, m, IntArg(v)) == Done(out)
  {
  }

  lemma ConvertsLong(v: int, c: byte, m: Mods, out: seq<byte>)
    requires Int64(v) && (IsHex(c) || IsInt(c)) && m.lcount >= 2 && NumberPart(v, BaseOf(c), m.pad, m.w, m) == Done(out)
    ensures TakesArg(c) && Convert(c, m, LongArg(v)) == Done(out)
  {
  }

  lemma ConvertsSize(z: nat, m: Mods, out: seq<byte>)
    requires z < 0x1_0000_0000 && NumberPart(z, 10, m.pad, m.w, m) == Done(out)
    ensures TakesArg('z' as nat) && Convert('z' as nat, m, SizeArg(z)) == Done(out)
  {
  }

  lemma NoPadding(t: seq<byte>)
    ensures Repeat(0, 0 - |t|) + t == t
  {
  }

  /** Without modifiers, or with "l"s only, a number is not padded. */
  lemma Unpadded(value: int, base: nat, l: nat)
    requires base == 16 || (base == 10 && value >= 0)
    ensures NumberPart(value, base, 0, 0, Mods(l, 0, false, 0)) == Done(Text(value % 0x1_0000_0000, base))
  {
    NumberPrints(value, base, 0, 0, Mods(l, 0, false, 0));
    NoPadding(Text(value % 0x1_0000_0000, base));
  }

  /** "%0<w>d" and "%0<w>i" print the decimal text of a number that is not negative, padded with zeros to the
      width; "%0<w>x" and "%0<w>X" the hexadecimal text of the 32-bit pattern, in lower case. */
  lemma PaddedDirective(v: int, w: nat, c: byte)
    requires Int32(v) && w < BUFFER && (IsHex(c) || (IsInt(c) && v >= 0))
    ensures var t := Text(v % 0x1_0000_0000, BaseOf(c));
            Render(OneDirective([ZERO] + Decimal(w), c), [IntArg(v)]) == Done(Repeat(ZERO, w - |t|) + t)
  {
    var t := Text(v % 0x1_0000_0000, BaseOf(c));
    ZeroWidthReads(w);
    NumberPrints(v, BaseOf(c), 48, w, Mods(0, 48, false, w));
    ConvertsInt(v, c, Mods(0, 48, false, w), Repeat(ZERO, w - |t|) + t);
    RenderAlone([ZERO] + Decimal(w), c, IntArg(v), Repeat(ZERO, w - |t|) + t);
  }

  /** Without modifiers there is no padding. */
  lemma PlainDirective(v: int, c: byte)
    requires Int32(v) && (IsHex(c) || (IsInt(c) && v >= 0))
    ensures Render(OneDirective([], c), [IntArg(v)]) == Done(Text(v % 0x1_0000_0000, BaseOf(c)))
  {
    Unpadded(v, BaseOf(c), 0);
    ConvertsInt(v, c, PLAIN, Text(v % 0x1_0000_0000, BaseOf(c)));
    RenderAlone([], c, IntArg(v), Text(v % 0x1_0000_0000, BaseOf(c)));
  }

  /** One "l" changes nothing: the argument is an int. */
  lemma ShortDirective(v: int, c: byte)
    requires Int32(v) && (IsHex(c) || (IsInt(c) && v >= 0))
    ensures Render(OneDirective(['l' as nat], c), [IntArg(v)]) == Done(Text(v % 0x1_0000_0000, BaseOf(c)))
  {
    Unpadded(v, BaseOf(c), 1);
    assert ['l' as nat][1..] == [];
    assert ModifyAll(PLAIN, ['l' as nat]) == Mods(1, 0, false, 0);
    ConvertsInt(v, c, Mods(1, 0, false, 0), Text(v % 0x1_0000_0000, BaseOf(c)));
    RenderAlone(['l' as nat], c, IntArg(v), Text(v % 0x1_0000_0000, BaseOf(c)));
  }

  lemma SignedBody(v: int, n: nat)
    requires n == -v && 0 < n < 0x1_0000_0000
    ensures Body(v, 10) == [MINUS] + DigitsUp(n, false) && Magnitude(v, 10) == n
  {
    assert n % 0x1_0000_0000 == n;
  }

  lemma SignBehind(v: int, n: nat)
    requires n == -v && 0 < n < 0x1_0000_0000
    ensures Itoa(v, 10, 0, 0) == Text(n, 10) + [MINUS]
  {
    var body := [MINUS] + DigitsUp(n, false);
    SignedBody(v, n);
    DigitsAreText(n, false);
    assert body + Repeat(0, 0 - |body|) == body;
    assert body[1..] == DigitsUp(n, false);
  }

  lemma BufferPrints(text: seq<byte>, value: int, base: nat, m: Mods)
    requires text == Itoa(value, base, 0, 0) && |text| < BUFFER && StrLen(text) == |text| && !m.limit
    ensures NumberPart(value, base, 0, 0, m) == Done(text)
  {
    assert text[..|text|] == text;
  }

  lemma NegativePrints(v: int)
    requires Int32(v) && v < 0
    ensures NumberPart(v, 10, 0, 0, PLAIN) == Done(Text(-v, 10) + ['-' as nat])
  {
    SignBehind(v, -v);
    ItoaHasNoNul(v, 10);
    BodyLength(v, 10);
    BufferPrints(Text(-v, 10) + [MINUS], v, 10, PLAIN);
  }

  /** A negative number has its sign behind it. */
  lemma NegativeDirective(v: int, c: byte)
    requires Int32(v) && v < 0 && IsInt(c)
    ensures Render(OneDirective([], c), [IntArg(v)]) == Done(Text(-v, 10) + ['-' as nat])
  {
    NegativePrints(v);
    ConvertsInt(v, c, PLAIN, Text(-v, 10) + ['-' as nat]);
    RenderAlone([], c, IntArg(v), Text(-v, 10) + ['-' as nat]);
  }

  lemma TwoLs()
    ensures AllModifiers(['l' as nat, 'l' as nat]) && ModifyAll(PLAIN, ['l' as nat, 'l' as nat]) == Mods(2, 0, false, 0)
  {
    ModifyAllConcat(PLAIN, ['l' as nat], ['l' as nat]);
    assert ['l' as nat][1..] == [];
    assert ['l' as nat] + ['l' as nat] == ['l' as nat, 'l' as nat];
  }

  /** "%ll..." takes 64 bits and prints the low 32 of them. */
  lemma LongDirective(v: int, c: byte)
    requires Int64(v) && (IsHex(c) || (IsInt(c) && v >= 0))
    ensures Render(OneDirective(['l' as nat, 'l' as nat], c), [LongArg(v)]) ==
              Done(Text(v % 0x1_0000_0000, BaseOf(c)))
  {
    TwoLs();
    Unpadded(v, BaseOf(c), 2);
    ConvertsLong(v, c, Mods(2, 0, false, 0), Text(v % 0x1_0000_0000, BaseOf(c)));
    RenderAlone(['l' as nat, 'l' as nat], c, LongArg(v), Text(v % 0x1_0000_0000, BaseOf(c)));
  }

  lemma UnpaddedSize(z: nat)
    requires z < 0x1_0000_0000
    ensures NumberPart(z, 10, 0, 0, PLAIN) == Done(Text(z, 10))
  {
    var low := z % 0x1_0000_0000;
    assert low == z;
    Unpadded(z, 10, 0);
  }

  /** "%z" prints a size, and "%p" the eight hexadecimal digits of a pointer. */
  lemma SizeDirective(z: nat)
    requires z < 0x1_0000_0000
    ensures Render(OneDirective([], 'z' as nat), [SizeArg(z)]) == Done(Text(z, 10))
  {
    UnpaddedSize(z);
    ConvertsSize(z, PLAIN, Text(z, 10));
    RenderAlone([], 'z' as nat, SizeArg(z), Text(z, 10));
  }

  lemma ConvertsPointer(p: int, m: Mods, out: seq<byte>)
    requires Int32(p) && NumberPart(p, 16, 48, 8, m) == Done(out)
    ensures TakesArg('p' as nat) && Convert('p' as nat, m, PointerArg(p)) == Done(out)
  {
  }

  lemma PointerPrints(p: int)
    requires Int32(p)
    ensures var t := Text(p % 0x1_0000_0000, 16);
            |t| <= 8 && NumberPart(p, 16, 48, 8, PLAIN) == Done(Repeat(ZERO, 8 - |t|) + t)
  {
    ItoaText(p, 16, 48, 8);
    BodyLength(p, 16);
    NumberPrints(p, 16, 48, 8, PLAIN);
  }

  lemma PointerDirective(p: int)
    requires Int32(p)
    ensures var t := Text(p % 0x1_0000_0000, 16);
            |t| <= 8 && Render(OneDirective([], 'p' as nat), [PointerArg(p)]) == Done(Repeat(ZERO, 8 - |t|) + t)
  {
    var t := Text(p % 0x1_0000_0000, 16);
    PointerPrints(p);
    ConvertsPointer(p, PLAIN, Repeat(ZERO, 8 - |t|) + t);
    RenderAlone([], 'p' as nat, PointerArg(p), Repeat(ZERO, 8 - |t|) + t);
  }

  // ---------------------------------------------------------------- characters and strings

  /** "%c" prints the low byte. */
  lemma CharacterDirective(v: int)
    requires Int32(v)
    ensures Render(OneDirective([], 'c' as nat), [IntArg(v)]) == Done([v % 256])
  {
    RenderAlone([], 'c' as nat, IntArg(v), [v % 256]);
  }

  lemma LimitIsRead(n: nat)
    requires ZERO !in Decimal(n)
    ensures AllModifiers(['.' as nat] + Decimal(n))
    ensures ModifyAll(PLAIN, ['.' as nat] + Decimal(n)) == Mods(0, 0, true, n)
  {
    DecimalText(n);
    WidthIsRead(Mods(0, 0, true, 0), Decimal(n));
    assert (['.' as nat] + Decimal(n))[1..] == Decimal(n);
  }

  /** "%.<n>s" prints exactly the first n bytes, also past a NUL, whenever n has no zero digit. */
  lemma LimitedString(n: nat, s: seq<byte>, rest: seq<byte>, args: seq<Arg>)
    requires ZERO !in Decimal(n) && n <= |s|
    ensures Render([PERCENT] + (['.' as nat] + Decimal(n)) + ['s' as nat] + rest, [StringArg(s)] + args) ==
              Prepend(s[..n], Render(rest, args))
  {
    LimitIsRead(n);
    RenderOne(['.' as nat] + Decimal(n), 's' as nat, StringArg(s), rest, args);
  }

  lemma LimitPrints(v: int, base: nat, n: nat)
    requires (base == 16 || (base == 10 && v >= 0)) && n < BUFFER
    ensures var t := Text(v % 0x1_0000_0000, base);
            n <= |Repeat(0, n - |t|) + t|
            && NumberPart(v, base, 0, n, Mods(0, 0, true, n)) == Done((Repeat(0, n - |t|) + t)[..n])
  {
    ItoaText(v, base, 0, n);
    BodyLength(v, base);
  }

  /** "%.<n>d" and the other conversions of an int print exactly n bytes: the text with NULs in front, or
      its first n digits. */
  lemma LimitedNumber(v: int, n: nat, c: byte)
    requires Int32(v) && n < BUFFER && ZERO !in Decimal(n) && (IsHex(c) || (IsInt(c) && v >= 0))
    ensures var t := Text(v % 0x1_0000_0000, BaseOf(c));
            n <= |Repeat(0, n - |t|) + t|
            && Render(OneDirective(['.' as nat] + Decimal(n), c), [IntArg(v)]) == Done((Repeat(0, n - |t|) + t)[..n])
  {
    var t := Text(v % 0x1_0000_0000, BaseOf(c));
    LimitIsRead(n);
    LimitPrints(v, BaseOf(c), n);
    ConvertsInt(v, c, Mods(0, 0, true, n), (Repeat(0, n - |t|) + t)[..n]);
    RenderAlone(['.' as nat] + Decimal(n), c, IntArg(v), (Repeat(0, n - |t|) + t)[..n]);
  }

  lemma OneDigitText(n: nat)
    requires n < 10
    ensures Decimal(n) == [48 + n]
  {
    DecimalText(n);
    DigitCharacters(n);
  }

  /** The line that the FAT driver prints for a directory entry, "%.8s.%.3s" and a line feed: name and
      extension, which are not terminated, in full. */
  lemma DirectoryLine(name: seq<byte>, ext: seq<byte>)
    requires |name| == 8 && |ext| == 3
    ensures var tail := ['.' as nat] + ([PERCENT] + (['.' as nat] + [51 as byte]) + ['s' as nat] + [10 as byte]);
            Render([PERCENT] + (['.' as nat] + [56 as byte]) + ['s' as nat] + tail,
                   [StringArg(name)] + [StringArg(ext)])
              == Done(name + ['.' as nat] + ext + [10])
  {
    OneDigitText(8);
    OneDigitText(3);
    var last := [PERCENT] + (['.' as nat] + [51 as byte]) + ['s' as nat] + [10 as byte];
    LimitedString(3, ext, [10], []);
    assert [StringArg(ext)] + [] == [StringArg(ext)];
    RenderChar(10, [], []);
    assert [10 as byte] + [] == [10] && ext[..3] == ext && name[..8] == name;
    assert Render(last, [StringArg(ext)]) == Done(ext + [10]);
    RenderChar('.' as nat, last, [StringArg(ext)]);
    LimitedString(8, name, ['.' as nat] + last, [StringArg(ext)]);
    assert name + (['.' as nat] + (ext + [10])) == name + ['.' as nat] + ext + [10];
  }
}
