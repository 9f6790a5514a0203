/** Conversions between numbers and strings of bootloader/stage2/strings.c. */
module Numbers {
  import opened Bytes

  const ZERO: byte := 48
  const MINUS: byte := 45

  // ---------------------------------------------------------------- strtol

  /** isdigit; the bases other than 2, 8, 10 and 16 have no digits. */
  predicate IsDigit(c: byte, base: nat) {
    (base == 2 && 48 <= c <= 49) || (base == 8 && 48 <= c <= 55) || (base == 10 && 48 <= c <= 57) ||
    (base == 16 && (48 <= c <= 57 || 97 <= c <= 102 || 65 <= c <= 70))
  }

  /** What strtol adds for a digit. */
  function DigitValue(c: byte): nat {
    if 48 <= c <= 57 then c - 48
    else if 65 <= c <= 70 then c - 65 + 10
    else if 97 <= c <= 102 then c - 97 + 10
    else 0
  }

  /** The number a string of digits denotes. */
  function Value(s: seq<byte>, base: nat): nat {
    if s == [] then 0 else Value(s[..|s| - 1], base) * base + DigitValue(s[|s| - 1])
  }

  /** The end of the digits from position i on. */
  function DigitsEnd(s: seq<byte>, i: nat, base: nat): (j: nat)
    requires i <= |s|
    ensures i <= j <= |s|
    decreases |s| - i
  {
    if i < |s| && IsDigit(s[i], base) then DigitsEnd(s, i + 1, base) else i
  }

  /** Base 0 stands for the base that the prefix shows. */
  function Detect(s: seq<byte>, base: nat): (r: (nat, nat))
    ensures r.1 <= |s|
  {
    if base != 0 then (base, 0)
    else if At(s, 0) != 48 then (10, 0)
    else if At(s, 1) == 120 then (16, 2)
    else if At(s, 1) == 98 then (2, 2)
    else (8, 1)
  }

  /** The uint16_t accumulator of strtol, from this value on, over the digits from i to j. */
  function Low(s: seq<byte>, i: nat, j: nat, base: nat, value: nat): nat
    requires j <= |s|
    decreases j - i
  {
    if j <= i then value else Low(s, i + 1, j, base, (value * base % 0x1_0000 + DigitValue(s[i])) % 0x1_0000)
  }

  /** strtol from position i of s in a given base: the low 16 bits of the number, and where its
      digits end. The caller's pointer becomes NULL when that is the end of the string. */
  function Strtol(s: seq<byte>, i: nat, base: nat): (nat, nat)
    requires i <= |s|
  {
    var j := DigitsEnd(s, i, base);
    (Low(s, i, j, base, 0), j)
  }

  function EndPointer(s: seq<byte>, j: nat): Option<nat> {
    if At(s, j) != 0 then Some(j) else None
  }

  lemma Horner(v: nat, base: nat, d: nat)
    ensures ((v % 0x1_0000 * base) % 0x1_0000 + d) % 0x1_0000 == (v * base + d) % 0x1_0000
  {
    var q, r := v / 0x1_0000, v % 0x1_0000;
    assert v == 0x1_0000 * q + r;
    Distribute(q, r, base);
    var a, low := q * base, r * base;
    Multiple(a, low + d);
    AddAfter(low, d);
  }

  lemma Distribute(q: nat, r: nat, base: nat)
    ensures (0x1_0000 * q + r) * base == 0x1_0000 * (q * base) + r * base
  {
  }

  lemma AddAfter(n: nat, d: nat)
    ensures (n % 0x1_0000 + d) % 0x1_0000 == (n + d) % 0x1_0000
  {
  }

  lemma Multiple(q: nat, n: nat)
    ensures (0x1_0000 * q + n) % 0x1_0000 == n % 0x1_0000
  {
  }

  /** One more digit. */
  lemma ValueStep(s: seq<byte>, i: nat, j: nat, base: nat)
    requires i <= j < |s|
    ensures var v := Value(s[i..j], base) % 0x1_0000 * base % 0x1_0000;
            (v + DigitValue(s[j])) % 0x1_0000 == Value(s[i..j + 1], base) % 0x1_0000
  {
    Horner(Value(s[i..j], base), base, DigitValue(s[j]));
    assert s[i..j + 1][..j - i] == s[i..j];
  }

  lemma {:induction false} LowValue(s: seq<byte>, start: nat, i: nat, j: nat, base: nat)
    requires start <= i <= j <= |s|
    ensures Low(s, i, j, base, Value(s[start..i], base) % 0x1_0000) == Value(s[start..j], base) % 0x1_0000
    decreases j - i
  {
    if i < j {
      ValueStep(s, start, i, base);
      LowValue(s, start, i + 1, j, base);
    }
  }

  /** That is the number the digits denote, modulo 2^16. */
  lemma LowIsValue(s: seq<byte>, i: nat, j: nat, base: nat)
    requires i <= j <= |s|
    ensures Low(s, i, j, base, 0) == Value(s[i..j], base) % 0x1_0000
  {
    assert Value(s[i..i], base) == 0;
    LowValue(s, i, i, j, base);
  }

  /** A whole call of strtol. */
  function Parse(s: seq<byte>, base0: nat): (nat, Option<nat>) {
    var (base, i) := Detect(s, base0);
    var (v, j) := Strtol(s, i, base);
    (v, EndPointer(s, j))
  }

  /** strtol with its uint16_t accumulator. */
  method ParseNumber(s: seq<byte>, base0: nat) returns (value: nat, p: Option<nat>)
    ensures (value, p) == Parse(s, base0)
  {
    var base, i := base0, 0;
    if base == 0 {
      if At(s, 0) == 48 {
        if At(s, 1) == 120 {
          base, i := 16, 2;
        } else if At(s, 1) == 98 {
          base, i := 2, 2;
        } else {
          base, i := 8, 1;
        }
      } else {
        base := 10;
      }
    }
    ghost var start, end := i, DigitsEnd(s, i, base);
    value := 0;
    while IsDigit(At(s, i), base)
      invariant start <= i <= |s|
      invariant DigitsEnd(s, i, base) == end && Low(s, i, end, base, value) == Low(s, start, end, base, 0)
      decreases |s| - i
    {
      value := value * base % 0x1_0000;
      value := (value + DigitValue(s[i])) % 0x1_0000;
      i := i + 1;
    }
    p := if At(s, i) != 0 then Some(i) else None;
  }

  // ---------------------------------------------------------------- itoa

  function Digit(d: nat): byte
    requires d < 16
  {
    if d < 10 then 48 + d else 97 + d - 10
  }

  function Quotient(n: nat, hex: bool): (q: nat)
    ensures n > 0 ==> q < n
  {
    if hex then n / 16 else n / 10
  }

  function Remainder(n: nat, hex: bool): (r: nat)
    ensures r < if hex then 16 else 10
  {
    if hex then n % 16 else n % 10
  }

  /** The digits of n in base 16 or 10, least significant first; at least one. */
  function DigitsUp(n: nat, hex: bool): (r: seq<byte>)
    ensures r != []
    decreases n
  {
    var q := Quotient(n, hex);
    [Digit(Remainder(n, hex))] + if q == 0 || n == 0 then [] else DigitsUp(q, hex)
  }

  /** Sign and digits, the sign first and then the digits from the least significant on. */
  function Body(value: int, base: nat): seq<byte> {
    var negative := base == 10 && value < 0;
    var ud := (if negative then -value else value) % 0x1_0000_0000;
    (if negative then [MINUS] else []) + DigitsUp(ud, base == 16)
  }

  /** The string that itoa_s leaves in its buffer: padding is appended, then everything reversed. */
  function Itoa(value: int, base: nat, pad: byte, w: int): seq<byte> {
    Reverse(Body(value, base) + Repeat(pad, w - |Body(value, base)|))
  }

  /** str_reverse on buffer[..end] */
  method StrReverse(buffer: array<byte>, end: nat)
    requires end <= buffer.Length
    modifies buffer
    ensures buffer[..end] == Reverse(old(buffer[..end])) && buffer[end..] == old(buffer[end..])
  {
    var p1, p2: int := 0, end - 1;
    while p1 < p2
      invariant 0 <= p1 <= p2 + 2 && p1 + p2 == end - 1
      invariant buffer[end..] == old(buffer[end..])
      invariant forall k | 0 <= k < p1 :: buffer[k] == old(buffer[end - 1 - k])
      invariant forall k | p1 <= k <= p2 :: buffer[k] == old(buffer[k])
      invariant forall k | p2 < k < end :: buffer[k] == old(buffer[end - 1 - k])
    {
      var tmp := buffer[p1];
      buffer[p1] := buffer[p2];
      buffer[p2] := tmp;
      p1 := p1 + 1;
      p2 := p2 - 1;
    }
    ghost var was := old(buffer[..end]);
    forall k | 0 <= k < end ensures buffer[k] == Reverse(was)[k] {
      ReverseAt(was, k);
    }
  }

  /** The division loop of itoa_last. */
  method PutDigits(ud0: nat, divisor: nat, s: array<byte>, p0: nat) returns (p: nat)
    requires divisor == 10 || divisor == 16
    requires p0 + |DigitsUp(ud0, divisor == 16)| < s.Length
    modifies s
    ensures p < s.Length && s[..p] == old(s[..p0]) + DigitsUp(ud0, divisor == 16)
  {
    var ud, hex := ud0, divisor == 16;
    p := p0;
    ghost var all := s[..p] + DigitsUp(ud, hex);
    while true
      invariant p < |all| < s.Length && s[..p] == all[..p] && DigitsUp(ud, hex) == all[p..]
      decreases ud
    {
      var remainder := Remainder(ud, hex);
      assert all[p] == all[p..][0] == Digit(remainder);
      s[p] := if remainder < 10 then remainder + ZERO else remainder + 97 - 10;
      ghost var rest := all[p..][1..];
      p := p + 1;
      assert rest == all[p..];
      ud := Quotient(ud, hex);
      if ud == 0 {
        break;
      }
    }
  }

  /** itoa_last without its final reversal. */
  method ItoaLast(value: int, base: nat, s: array<byte>) returns (p: nat)
    requires -0x8000_0000_0000_0000 <= value < 0x8000_0000_0000_0000
    requires |Body(value, base)| < s.Length
    modifies s
    ensures p < s.Length && s[..p] == Body(value, base)
  {
    p := 0;
    var ud: nat := value % 0x1_0000_0000;
    var divisor: nat := 10;
    if base == 10 && value < 0 {
      s[p] := MINUS;
      p := p + 1;
      ud := -value % 0x1_0000_0000;
    } else if base == 16 {
      divisor := 16;
    }
    p := PutDigits(ud, divisor, s, p);
    s[p] := 0;
  }

  /** The padding loop of itoa_s. */
  method PutPadding(pad: byte, w: int, buffer: array<byte>, p0: nat) returns (p: nat)
    requires p0 + (if w < p0 then 0 else w - p0) < buffer.Length
    modifies buffer
    ensures p < buffer.Length && buffer[..p] == old(buffer[..p0]) + Repeat(pad, w - p0)
  {
    p := p0;
    var remaining := w - p;
    ghost var all := buffer[..p] + Repeat(pad, remaining);
    while remaining > 0
      invariant p + (if remaining < 0 then 0 else remaining) == |all|
      invariant buffer[..p] + Repeat(pad, remaining) == all
    {
      assert buffer[..p] + [pad] + Repeat(pad, remaining - 1) == all;
      buffer[p] := pad;
      p := p + 1;
      remaining := remaining - 1;
    }
  }

  /** itoa_s: the string, followed by its NUL. */
  method ItoaS(value: int, base: nat, pad: byte, w: int, buffer: array<byte>)
    requires -0x8000_0000_0000_0000 <= value < 0x8000_0000_0000_0000
    requires |Itoa(value, base, pad, w)| < buffer.Length
    modifies buffer
    ensures var text := Itoa(value, base, pad, w);
            buffer[..|text|] == text && buffer[|text|] == 0
  {
    ghost var body := Body(value, base);
    ghost var all := body + Repeat(pad, w - |body|);
    var p := ItoaLast(value, base, buffer);
    p := PutPadding(pad, w, buffer, p);
    buffer[p] := 0;
    assert buffer[..p] == all;
    StrReverse(buffer, p);
    assert buffer[p] == buffer[p..][0];
  }

  /** The low 32 bits of the number, or of its opposite when a sign is written. */
  function Magnitude(value: int, base: nat): nat {
    (if base == 10 && value < 0 then -value else value) % 0x1_0000_0000
  }

  function Power(hex: bool, k: nat): nat {
    if k == 0 then 1 else (if hex then 16 else 10) * Power(hex, k - 1)
  }

  lemma {:induction false} UpLength(n: nat, hex: bool, k: nat)
    requires 1 <= k && n < Power(hex, k)
    ensures |DigitsUp(n, hex)| <= k
    decreases k
  {
    if k > 1 {
      UpLength(Quotient(n, hex), hex, k - 1);
    } else {
      assert Power(hex, 1) == (if hex then 16 else 10) * Power(hex, 0);
    }
  }

  /** Numbers of 32 bits have at most 8 or 10 digits, and the sign is one more. */
  lemma BodyLength(value: int, base: nat)
    ensures |Body(value, base)| <= if base == 16 then 8 else 11
  {
    var n := Magnitude(value, base);
    assert Power(true, 8) == 0x1_0000_0000 && Power(false, 10) == 10_000_000_000;
    UpLength(n, base == 16, if base == 16 then 8 else 10);
  }

  // ---------------------------------------------------------------- round trips

  ghost predicate AllDigits(s: seq<byte>, base: nat) {
    forall k | 0 <= k < |s| :: IsDigit(s[k], base)
  }

  /** Putting the least significant digit behind the reversed others. */
  lemma ReverseUp(d: byte, rest: seq<byte>, base: nat)
    requires AllDigits(Reverse(rest), base) && IsDigit(d, base)
    ensures AllDigits(Reverse([d] + rest), base)
    ensures Value(Reverse([d] + rest), base) == Value(Reverse(rest), base) * base + DigitValue(d)
  {
    assert ([d] + rest)[1..] == rest;
    assert Reverse([d] + rest)[..|rest|] == Reverse(rest);
  }

  lemma DigitDenotes(d: nat)
    requires d < 16
    ensures DigitValue(Digit(d)) == d && IsDigit(Digit(d), 16) && (d < 10 ==> IsDigit(Digit(d), 10))
  {
  }

  lemma {:induction false} UpDenotesHex(n: nat)
    ensures AllDigits(Reverse(DigitsUp(n, true)), 16) && Value(Reverse(DigitsUp(n, true)), 16) == n
    decreases n
  {
    DigitDenotes(n % 16);
    if n < 16 {
      assert DigitsUp(n, true) == [Digit(n)] + [];
      ReverseUp(Digit(n), [], 16);
    } else {
      UpDenotesHex(n / 16);
      assert DigitsUp(n, true) == [Digit(n % 16)] + DigitsUp(n / 16, true);
      ReverseUp(Digit(n % 16), DigitsUp(n / 16, true), 16);
    }
  }

  lemma {:induction false} UpDenotesDecimal(n: nat)
    ensures AllDigits(Reverse(DigitsUp(n, false)), 10) && Value(Reverse(DigitsUp(n, false)), 10) == n
    decreases n
  {
    DigitDenotes(n % 10);
    if n < 10 {
      assert DigitsUp(n, false) == [Digit(n)] + [];
      ReverseUp(Digit(n), [], 10);
    } else {
      UpDenotesDecimal(n / 10);
      assert DigitsUp(n, false) == [Digit(n % 10)] + DigitsUp(n / 10, false);
      ReverseUp(Digit(n % 10), DigitsUp(n / 10, false), 10);
    }
  }

  /** The digits written denote the number. */
  lemma UpDenotes(n: nat, hex: bool)
    ensures AllDigits(Reverse(DigitsUp(n, hex)), if hex then 16 else 10)
    ensures Value(Reverse(DigitsUp(n, hex)), if hex then 16 else 10) == n
  {
    UpDenotesHex(n);
    UpDenotesDecimal(n);
  }

  lemma {:induction false} LeadingZeros(k: int, s: seq<byte>, base: nat)
    ensures Value(Repeat(ZERO, k) + s, base) == Value(s, base)
    decreases |s|, k
  {
    var z := Repeat(ZERO, k);
    if s != [] {
      assert (z + s)[..|z + s| - 1] == z + s[..|s| - 1];
      LeadingZeros(k, s[..|s| - 1], base);
    } else if k > 0 {
      RepeatAt(ZERO, k, k - 1);
      forall i | 0 <= i < k - 1 ensures z[i] == Repeat(ZERO, k - 1)[i] {
        RepeatAt(ZERO, k, i);
        RepeatAt(ZERO, k - 1, i);
      }
      assert (z + s)[..|z + s| - 1] == Repeat(ZERO, k - 1) + s;
      LeadingZeros(k - 1, s, base);
    }
  }

  lemma ReverseRepeat(c: byte, n: int)
    ensures Reverse(Repeat(c, n)) == Repeat(c, n)
  {
    forall i | 0 <= i < |Repeat(c, n)| ensures Reverse(Repeat(c, n))[i] == Repeat(c, n)[i] {
      ReverseAt(Repeat(c, n), i);
      RepeatAt(c, n, i);
      RepeatAt(c, n, |Repeat(c, n)| - 1 - i);
    }
  }

  /** The string: padding, the digits most significant first, and the sign at the end. */
  lemma ItoaShape(value: int, base: nat, pad: byte, w: int)
    ensures Itoa(value, base, pad, w) ==
              Repeat(pad, w - |Body(value, base)|) + Reverse(DigitsUp(Magnitude(value, base), base == 16))
              + (if base == 10 && value < 0 then [MINUS] else [])
  {
    var up := DigitsUp(Magnitude(value, base), base == 16);
    var sign := if base == 10 && value < 0 then [MINUS] else [];
    ReverseConcat(sign + up, Repeat(pad, w - |Body(value, base)|));
    ReverseConcat(sign, up);
    ReverseRepeat(pad, w - |Body(value, base)|);
    assert Reverse(sign) == sign;
  }

  lemma {:induction false} DigitsEndAt(s: seq<byte>, i: nat, j: nat, base: nat)
    requires i <= j <= |s| && (forall k | i <= k < j :: IsDigit(s[k], base))
    requires j == |s| || !IsDigit(s[j], base)
    ensures DigitsEnd(s, i, base) == j
    decreases j - i
  {
    if i < j { DigitsEndAt(s, i + 1, j, base); }
  }

  /** Digits, and something that is no digit. */
  lemma ReadsAll(t: seq<byte>, rest: seq<byte>, base: nat)
    requires AllDigits(t, base) && (rest == [] || !IsDigit(rest[0], base))
    ensures Strtol(t + rest, 0, base) == (Value(t, base) % 0x1_0000, |t|)
  {
    var s := t + rest;
    forall i | 0 <= i < |t| ensures IsDigit(s[i], base) {
      assert s[i] == t[i];
    }
    DigitsEndAt(s, 0, |t|, base);
    LowIsValue(s, 0, |t|, base);
    assert s[0..|t|] == t;
  }

  lemma ZerosAndDigits(k: int, digits: seq<byte>, base: nat)
    requires (base == 10 || base == 16) && AllDigits(digits, base)
    ensures AllDigits(Repeat(ZERO, k) + digits, base)
  {
    forall i | 0 <= i < |Repeat(ZERO, k)| ensures IsDigit(Repeat(ZERO, k)[i], base) { RepeatAt(ZERO, k, i); }
  }

  lemma PaddedReads(k: int, digits: seq<byte>, tail: seq<byte>, base: nat, n: nat)
    requires (base == 10 || base == 16) && AllDigits(digits, base) && Value(digits, base) == n
    requires tail == [] || tail == [MINUS]
    ensures var t := Repeat(ZERO, k) + digits;
            Strtol(t + tail, 0, base) == (n % 0x1_0000, |t|)
  {
    ZerosAndDigits(k, digits, base);
    ReadsAll(Repeat(ZERO, k) + digits, tail, base);
    LeadingZeros(k, digits, base);
  }

  /** Reading back a printed number, with zero padding of any width. */
  lemma PrintedReads(value: int, base: nat, w: int)
    requires base == 10 || base == 16
    ensures var s := Itoa(value, base, ZERO, w);
            Strtol(s, 0, base) ==
              (Magnitude(value, base) % 0x1_0000, if base == 10 && value < 0 then |s| - 1 else |s|)
  {
    ItoaShape(value, base, ZERO, w);
    UpDenotes(Magnitude(value, base), base == 16);
    var k := w - |Body(value, base)|;
    var digits := Reverse(DigitsUp(Magnitude(value, base), base == 16));
    PaddedReads(k, digits, if base == 10 && value < 0 then [MINUS] else [], base, Magnitude(value, base));
  }

  /** So a number comes back modulo 2^16 exactly in base 16, when it is not negative, or when 2^15
      divides it: a negative one comes back as its opposite. */
  lemma RoundTripIff(value: int, base: nat, w: int)
    requires base == 10 || base == 16
    ensures Strtol(Itoa(value, base, ZERO, w), 0, base).0 == value % 0x1_0000
            <==> base == 16 || value >= 0 || value % 0x8000 == 0
  {
    PrintedReads(value, base, w);
    LowBits(value);
    LowBits(-value);
    Opposite(value);
  }

  lemma LowBits(n: int)
    ensures n % 0x1_0000_0000 % 0x1_0000 == n % 0x1_0000
  {
    var a, r := n / 0x1_0000_0000, n % 0x1_0000_0000;
    var c, e := r / 0x1_0000, r % 0x1_0000;
    assert n == 0x1_0000_0000 * a + r && r == 0x1_0000 * c + e;
    Residue(n, 0x1_0000 * a + c, e);
  }

  lemma Opposite(n: int)
    ensures -n % 0x1_0000 == n % 0x1_0000 <==> n % 0x8000 == 0
  {
    var q, r := n / 0x1_0000, n % 0x1_0000;
    assert n == 0x1_0000 * q + r;
    Residue(-n, if r == 0 then -q else -q - 1, if r == 0 then 0 else 0x1_0000 - r);
    HalfResidue(n, if r < 0x8000 then 2 * q else 2 * q + 1, if r < 0x8000 then r else r - 0x8000);
  }

  lemma Residue(n: int, q: int, r: int)
    requires n == 0x1_0000 * q + r && 0 <= r < 0x1_0000
    ensures n % 0x1_0000 == r
  {
  }

  lemma HalfResidue(n: int, q: int, r: int)
    requires n == 0x8000 * q + r && 0 <= r < 0x8000
    ensures n % 0x8000 == r
  {
  }

  /** The usual decimal text of a number. */
  function Decimal(value: int): seq<byte> {
    if value < 0 then [MINUS] + Reverse(DigitsUp(-value, false)) else Reverse(DigitsUp(value, false))
  }

  lemma ItoaOfNat(value: nat, pad: byte)
    ensures Itoa(value, 10, pad, 0) == Reverse(DigitsUp(value % 0x1_0000_0000, false))
  {
    ItoaShape(value, 10, pad, 0);
    var digits := Reverse(DigitsUp(value % 0x1_0000_0000, false));
    assert Repeat(pad, 0 - |Body(value, 10)|) == [];
    assert [] + digits + [] == digits;
  }

  /** Different numbers have different digits. */
  lemma DigitsDiffer(m: nat, n: nat)
    ensures Reverse(DigitsUp(m, false)) == Reverse(DigitsUp(n, false)) <==> m == n
  {
    UpDenotesDecimal(m);
    UpDenotesDecimal(n);
  }

  lemma NotNegative(value: nat, pad: byte)
    ensures Itoa(value, 10, pad, 0) == Decimal(value) <==> value < 0x1_0000_0000
  {
    ItoaOfNat(value, pad);
    DigitsDiffer(value % 0x1_0000_0000, value);
  }

  lemma Negative(value: int, pad: byte)
    requires value < 0
    ensures Itoa(value, 10, pad, 0) != Decimal(value)
  {
    ItoaShape(value, 10, pad, 0);
    UpDenotesDecimal(Magnitude(value, 10));
    var digits := Reverse(DigitsUp(Magnitude(value, 10), false));
    assert IsDigit(digits[0], 10) && Itoa(value, 10, pad, 0)[0] == digits[0];
  }

  /** itoa_s writes that text exactly for the numbers of an unsigned 32-bit word. */
  lemma DecimalIff(value: int, pad: byte)
    ensures Itoa(value, 10, pad, 0) == Decimal(value) <==> 0 <= value < 0x1_0000_0000
  {
    if value >= 0 { NotNegative(value, pad); } else { Negative(value, pad); }
  }
}
