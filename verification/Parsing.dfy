/** What strtol of bootloader/stage2/strings.c reads, over the texts of numbers in its four bases. */
module Parsing {
  import opened Bytes
  import opened Numbers

  predicate IsBase(base: nat) { base == 2 || base == 8 || base == 10 || base == 16 }

  // ---------------------------------------------------------------- the characters

  const DIGITS: string := "0123456789abcdef"
  const UPPER_DIGITS: string := "0123456789ABCDEF"

  lemma DigitCharacters(d: nat)
    requires d < 16
    ensures DIGITS[d] as nat == (if d < 10 then 48 + d else 87 + d)
    ensures UPPER_DIGITS[d] as nat == (if d < 10 then 48 + d else 55 + d)
  {
  }

  /** The digits of a base are its first characters of either string, and no others; other bases have none. */
  lemma IsDigitIff(c: byte, base: nat)
    ensures IsDigit(c, base) <==>
              IsBase(base) && exists d | 0 <= d < base && d < 16 :: c == DIGITS[d] as nat || c == UPPER_DIGITS[d] as nat
  {
    if IsDigit(c, base) {
      var d := DigitValue(c);
      DigitCharacters(d);
      assert c == DIGITS[d] as nat || c == UPPER_DIGITS[d] as nat;
    }
    forall d | 0 <= d < base && d < 16 && IsBase(base) && (c == DIGITS[d] as nat || c == UPPER_DIGITS[d] as nat)
      ensures IsDigit(c, base)
    {
      DigitCharacters(d);
    }
  }

  /** Each stands for its place, and itoa_s writes the ones in lower case. */
  lemma DigitMeans(d: nat)
    requires d < 16
    ensures Digit(d) == DIGITS[d] as nat
    ensures DigitValue(DIGITS[d] as nat) == d && DigitValue(UPPER_DIGITS[d] as nat) == d
  {
    DigitCharacters(d);
  }

  // ---------------------------------------------------------------- the texts

  function QuotientIn(n: nat, base: nat): (q: nat)
    requires IsBase(base)
    ensures n > 0 ==> q < n
  {
    if base == 2 then n / 2 else if base == 8 then n / 8 else if base == 10 then n / 10 else n / 16
  }

  function RemainderIn(n: nat, base: nat): (r: nat)
    requires IsBase(base)
    ensures r < base
  {
    if base == 2 then n % 2 else if base == 8 then n % 8 else if base == 10 then n % 10 else n % 16
  }

  lemma DivideIn(n: nat, base: nat)
    requires IsBase(base)
    ensures QuotientIn(n, base) * base + RemainderIn(n, base) == n
  {
  }

  /** The text of a number, most significant digit first and without leading zeros. */
  function Text(n: nat, base: nat): (t: seq<byte>)
    requires IsBase(base)
    ensures t != []
    decreases n
  {
    var q := QuotientIn(n, base);
    (if q == 0 || n == 0 then [] else Text(q, base)) + [DIGITS[RemainderIn(n, base)] as nat]
  }

  lemma AppendDigit(t: seq<byte>, d: nat, base: nat)
    requires IsBase(base) && d < base && AllDigits(t, base)
    ensures AllDigits(t + [DIGITS[d] as nat], base)
    ensures Value(t + [DIGITS[d] as nat], base) == Value(t, base) * base + d
  {
    DigitMeans(d);
    DigitCharacters(d);
    assert (t + [DIGITS[d] as nat])[..|t|] == t;
  }

  lemma {:induction false} TextDenotes(n: nat, base: nat)
    requires IsBase(base)
    ensures AllDigits(Text(n, base), base) && Value(Text(n, base), base) == n
    decreases n
  {
    var q, r := QuotientIn(n, base), RemainderIn(n, base);
    var before := if q == 0 || n == 0 then [] else Text(q, base);
    DivideIn(n, base);
    if q > 0 && n > 0 { TextDenotes(q, base); }
    AppendDigit(before, r, base);
    assert Value(before, base) == q;
  }

  lemma {:induction false} TextFirst(n: nat, base: nat)
    requires IsBase(base) && n > 0
    ensures Text(n, base)[0] != ZERO
    decreases n
  {
    var q := QuotientIn(n, base);
    if q == 0 {
      DivideIn(n, base);
      DigitCharacters(RemainderIn(n, base));
    } else {
      TextFirst(q, base);
    }
  }

  /** itoa_last's digits, reversed, are that text in its two bases. */
  lemma {:induction false} DigitsAreText(n: nat, hex: bool)
    ensures Reverse(DigitsUp(n, hex)) == Text(n, if hex then 16 else 10)
    decreases n
  {
    var base := if hex then 16 else 10;
    var q, r := Quotient(n, hex), Remainder(n, hex);
    DigitMeans(r);
    if q == 0 || n == 0 {
      assert DigitsUp(n, hex) == [Digit(r)];
      assert Reverse([Digit(r)]) == [Digit(r)];
    } else {
      DigitsAreText(q, hex);
      assert DigitsUp(n, hex)[1..] == DigitsUp(q, hex);
    }
  }

  // ---------------------------------------------------------------- reading

  /** A number ends at the end of the string, or at a character that is no digit. */
  predicate Ends(rest: seq<byte>, base: nat) {
    rest == [] || (rest[0] != 0 && !IsDigit(rest[0], base))
  }

  lemma StrtolSlice(s: seq<byte>, i: nat, j: nat, t: seq<byte>, base: nat)
    requires i <= j <= |s| && s[i..j] == t && AllDigits(t, base) && (j == |s| || !IsDigit(s[j], base))
    ensures Strtol(s, i, base) == (Value(t, base) % 0x1_0000, j)
  {
    forall k | i <= k < j ensures IsDigit(s[k], base) { assert s[i..j][k - i] == s[k]; }
    DigitsEndAt(s, i, j, base);
    LowIsValue(s, i, j, base);
  }

  lemma Middle(s: seq<byte>, prefix: seq<byte>, t: seq<byte>, rest: seq<byte>)
    requires s == prefix + t + rest
    ensures s[|prefix|..|prefix| + |t|] == t && s[|prefix| + |t|..] == rest
    ensures rest != [] ==> s[|prefix| + |t|] == rest[0]
  {
  }

  lemma StrtolAt(s: seq<byte>, prefix: seq<byte>, t: seq<byte>, rest: seq<byte>, base: nat)
    requires s == prefix + t + rest && AllDigits(t, base) && Ends(rest, base)
    ensures Strtol(s, |prefix|, base) == (Value(t, base) % 0x1_0000, |prefix| + |t|)
    ensures EndPointer(s, |prefix| + |t|) == if rest == [] then None else Some(|prefix| + |t|)
  {
    Middle(s, prefix, t, rest);
    StrtolSlice(s, |prefix|, |prefix| + |t|, t, base);
  }

  /** In a given base the text of a number is read modulo 2^16, and the pointer is left behind it. */
  lemma ParseText(n: nat, base: nat, rest: seq<byte>)
    requires IsBase(base) && Ends(rest, base)
    ensures Parse(Text(n, base) + rest, base) ==
              (n % 0x1_0000, if rest == [] then None else Some(|Text(n, base)|))
  {
    var t := Text(n, base);
    var s := t + rest;
    TextDenotes(n, base);
    assert s == [] + t + rest;
    StrtolAt(s, [], t, rest, base);
  }

  /** What comes before the digits of a number so that base 0 finds their base. */
  function Prefix(base: nat): seq<byte>
    requires IsBase(base)
  {
    if base == 16 then ['0' as nat, 'x' as nat]
    else if base == 2 then ['0' as nat, 'b' as nat]
    else if base == 8 then ['0' as nat]
    else []
  }

  lemma DetectPrefix(n: nat, base: nat, rest: seq<byte>)
    requires IsBase(base) && (base == 10 ==> n > 0)
    ensures Detect(Prefix(base) + Text(n, base) + rest, 0) == (base, |Prefix(base)|)
  {
    var t := Text(n, base);
    var s := Prefix(base) + t + rest;
    TextDenotes(n, base);
    if base == 10 {
      TextFirst(n, base);
      assert s[0] == t[0];
    } else if base == 8 {
      assert s[1] == t[0] && IsDigit(t[0], base);
    }
  }

  /** With base 0, "0x", "0b" and "0" before the digits choose the bases 16, 2 and 8, and a number that starts
      with another digit is decimal; it is read modulo 2^16, and the pointer is left behind it. */
  lemma ParsePrefixed(n: nat, base: nat, rest: seq<byte>)
    requires IsBase(base) && Ends(rest, base) && (base == 10 ==> n > 0)
    ensures var s := Prefix(base) + Text(n, base);
            Parse(s + rest, 0) == (n % 0x1_0000, if rest == [] then None else Some(|s|))
  {
    TextDenotes(n, base);
    DetectPrefix(n, base, rest);
    StrtolAt(Prefix(base) + Text(n, base) + rest, Prefix(base), Text(n, base), rest, base);
  }

  /** "0" alone is zero, in base 8. */
  lemma ParseZero(rest: seq<byte>)
    requires Ends(rest, 8) && (rest != [] ==> rest[0] != 'x' as nat && rest[0] != 'b' as nat)
    ensures Parse([ZERO] + rest, 0) == (0, if rest == [] then None else Some(1))
  {
    var s := [ZERO] + rest;
    assert At(s, 1) == At(rest, 0);
    assert s == [ZERO] + [] + rest;
    StrtolAt(s, [ZERO], [], rest, 8);
  }

  /** Without digits the value is zero, and the pointer stays where it was. */
  lemma ParseNothing(s: seq<byte>, base: nat)
    requires Ends(s, if base == 0 then 10 else base)
    ensures Parse(s, base) == (0, if s == [] then None else Some(0))
  {
    assert s == [] + [] + s;
    StrtolAt(s, [], [], s, if base == 0 then 10 else base);
  }

  /** What itoa_s prints is read back with base 0 too, when it is positive and not padded. */
  lemma ParseDecimal(n: nat, rest: seq<byte>)
    requires n > 0 && Ends(rest, 10)
    ensures Parse(Decimal(n) + rest, 0) == (n % 0x1_0000, if rest == [] then None else Some(|Decimal(n)|))
  {
    DigitsAreText(n, false);
    ParsePrefixed(n, 10, rest);
    assert Prefix(10) + Text(n, 10) == Decimal(n);
  }
}
