/** What bootloader/stage2/devices/screen/screen.c makes of whole escape sequences, wherever they stand in a
    buffer, and of a carriage return. */
module Sequences {
  import opened Bytes
  import opened Numbers
  import opened Parsing
  import opened Screen

  /** The characters that are not printed. */
  lemma ControlCharacters()
    ensures NEWLINE == '\n' as nat && RETURN == '\r' as nat && TAB == '\t' as nat
    ensures BACKSPACE == 8 && ESC == 27 && BRACKET == '[' as nat && ERASE == 'J' as nat && GRAPHICS == 'm' as nat
  {
  }

  // ---------------------------------------------------------------- colours

  /** In the numbers of ECMA-48 red is 1 and blue is 4, on the adapter it is the other way round. */
  lemma ColorBits(n: nat)
    requires n < 8
    ensures Color(n) < 8
    ensures Color(n) / 4 == n % 2 && Color(n) / 2 % 2 == n / 2 % 2 && Color(n) % 2 == n / 4
  {
  }

  /** Every code: 0 goes back to the kept attribute, 1 sets the bold bit, 30 to 37 and 40 to 47 choose the
      colour of one half, and all others do nothing. */
  lemma CodeMeans(attr: byte, oldattr: byte, code: nat)
    ensures var a := ApplyAttr(attr, oldattr, code);
            if code == 0 then a == oldattr
            else if code == 1 then a == (if attr % 16 < 8 then attr + 8 else attr)
            else if 30 <= code <= 37 then a / 16 == attr / 16 && a % 16 == Color(code - 30)
            else if 40 <= code <= 47 then a / 16 == Color(code - 40) && a % 16 == attr % 16
            else a == attr
  {
    assert attr / 8 % 2 == 0 <==> attr % 16 < 8;
    if 30 <= code <= 37 { ColorBits(code - 30); }
    if 40 <= code <= 47 { ColorBits(code - 40); }
  }

  // ---------------------------------------------------------------- set-graphics

  function Texts(codes: seq<nat>): (texts: seq<seq<byte>>)
    ensures |texts| == |codes|
  {
    if codes == [] then [] else [Text(codes[0], 10)] + Texts(codes[1..])
  }

  /** Texts with ';' between them. */
  function Join(texts: seq<seq<byte>>): seq<byte> {
    if texts == [] then []
    else if |texts| == 1 then texts[0]
    else texts[0] + [';' as nat] + Join(texts[1..])
  }

  ghost predicate Inside(s: seq<byte>, at: seq<nat>) { forall k | 0 <= k < |at| :: at[k] <= |s| }

  /** Where the codes of a sequence start, from p on and as far as `limit`. */
  function Starts(s: seq<byte>, p: nat, limit: nat): (at: seq<nat>)
    requires p <= |s|
    ensures Inside(s, at)
    decreases |s| - p
  {
    var j := DigitsEnd(s, p, 10);
    [p] + if j < |s| && s[j] != 0 && j + 1 < limit then Starts(s, j + 1, limit) else []
  }

  /** The codes at these places. */
  function CodesAt(s: seq<byte>, at: seq<nat>): seq<nat>
    requires Inside(s, at)
  {
    if at == [] then [] else [Strtol(s, at[0], 10).0] + CodesAt(s, at[1..])
  }

  /** The effects of codes one after the other. */
  function ApplyCodes(attr: byte, oldattr: byte, codes: seq<nat>): byte
    decreases |codes|
  {
    if codes == [] then attr else ApplyCodes(ApplyAttr(attr, oldattr, codes[0]), oldattr, codes[1..])
  }

  lemma ApplyFirst(attr: byte, oldattr: byte, code: nat, codes: seq<nat>)
    ensures ApplyCodes(attr, oldattr, [code] + codes) == ApplyCodes(ApplyAttr(attr, oldattr, code), oldattr, codes)
  {
    assert ([code] + codes)[1..] == codes;
  }

  lemma LastGraphics(attr: byte, oldattr: byte, s: seq<byte>, p: nat, limit: nat, code: nat, j: nat)
    requires p <= j <= |s| && Strtol(s, p, 10) == (code, j) && !(j < |s| && s[j] != 0 && j + 1 < limit)
    ensures Graphics(attr, oldattr, s, p, limit) == ApplyAttr(attr, oldattr, code) && Starts(s, p, limit) == [p]
  {
  }

  lemma NextGraphics(attr: byte, oldattr: byte, s: seq<byte>, p: nat, limit: nat, code: nat, j: nat)
    requires p <= j < |s| && Strtol(s, p, 10) == (code, j) && s[j] != 0 && j + 1 < limit
    ensures Graphics(attr, oldattr, s, p, limit)
         == Graphics(ApplyAttr(attr, oldattr, code), oldattr, s, j + 1, limit)
  {
  }

  lemma NextStart(s: seq<byte>, p: nat, limit: nat, j: nat)
    requires p <= j < |s| && DigitsEnd(s, p, 10) == j && s[j] != 0 && j + 1 < limit
    ensures Starts(s, p, limit) == [p] + Starts(s, j + 1, limit)
  {
  }

  lemma CodesFirst(s: seq<byte>, p: nat, at: seq<nat>) returns (c: seq<nat>)
    requires p <= |s| && Inside(s, at)
    ensures c == CodesAt(s, [p] + at) == [Strtol(s, p, 10).0] + CodesAt(s, at)
  {
    c := [Strtol(s, p, 10).0] + CodesAt(s, at);
    assert ([p] + at)[1..] == at;
  }

  /** The loop of screen_ansi_attr applies those codes. */
  lemma {:induction false} GraphicsAppliesCodes(attr: byte, oldattr: byte, s: seq<byte>, p: nat, limit: nat)
    returns (at: seq<nat>, c: seq<nat>, g: byte)
    requires p <= |s|
    ensures at == Starts(s, p, limit) && c == CodesAt(s, at)
    ensures g == Graphics(attr, oldattr, s, p, limit) && g == ApplyCodes(attr, oldattr, c)
    decreases |s| - p
  {
    var (code, j) := Strtol(s, p, 10);
    var next := ApplyAttr(attr, oldattr, code);
    if j < |s| && s[j] != 0 && j + 1 < limit {
      at, c, g := GraphicsAppliesCodes(next, oldattr, s, j + 1, limit);
      NextGraphics(attr, oldattr, s, p, limit, code, j);
      NextStart(s, p, limit, j);
      ApplyFirst(attr, oldattr, code, c);
    } else {
      LastGraphics(attr, oldattr, s, p, limit, code, j);
      at, c, g := [], [], next;
      ApplyFirst(attr, oldattr, code, []);
    }
    c := CodesFirst(s, p, at);
    at := [p] + at;
  }

  /** strtol keeps 16 bits of each. */
  function Low16(codes: seq<nat>): seq<nat> {
    if codes == [] then [] else [codes[0] % 0x1_0000] + Low16(codes[1..])
  }

  ghost predicate DigitTexts(texts: seq<seq<byte>>) {
    forall k | 0 <= k < |texts| :: texts[k] != [] && AllDigits(texts[k], 10)
  }

  /** This text stands at p, in front of a character that is no digit. */
  ghost predicate StandsAt(s: seq<byte>, p: nat, t: seq<byte>) {
    p + |t| < |s| && s[p..p + |t|] == t && !IsDigit(s[p + |t|], 10)
  }

  lemma TextEnds(s: seq<byte>, p: nat, t: seq<byte>)
    requires StandsAt(s, p, t) && AllDigits(t, 10)
    ensures DigitsEnd(s, p, 10) == p + |t|
  {
    forall k | p <= k < p + |t| ensures IsDigit(s[k], 10) { assert s[p..p + |t|][k - p] == s[k]; }
    DigitsEndAt(s, p, p + |t|, 10);
  }

  lemma ReadDigits(s: seq<byte>, p: nat, t: seq<byte>) returns (n: nat, r: (nat, nat))
    requires StandsAt(s, p, t) && AllDigits(t, 10)
    ensures n == Value(t, 10) && r == Strtol(s, p, 10) && r == (n % 0x1_0000, p + |t|)
  {
    n, r := Value(t, 10), Strtol(s, p, 10);
    StrtolSlice(s, p, p + |t|, t, 10);
  }

  lemma ReadCode(s: seq<byte>, p: nat, code: nat, t: seq<byte>) returns (r: (nat, nat))
    requires t == Text(code, 10) && StandsAt(s, p, t)
    ensures r == Strtol(s, p, 10) && r == (code % 0x1_0000, p + |t|)
  {
    TextDenotes(code, 10);
    var n;
    n, r := ReadDigits(s, p, t);
  }

  lemma {:induction false} ReadCodes(s: seq<byte>, at: seq<nat>, codes: seq<nat>, texts: seq<seq<byte>>)
    returns (c: seq<nat>)
    requires texts == Texts(codes) && |at| == |codes| && forall k | 0 <= k < |at| :: StandsAt(s, at[k], texts[k])
    ensures Inside(s, at) && c == CodesAt(s, at) && c == Low16(codes)
    decreases |at|
  {
    if at == [] {
      c := [];
    } else {
      assert texts[1..] == Texts(codes[1..]);
      c := ReadCodes(s, at[1..], codes[1..], texts[1..]);
      var r := ReadCode(s, at[0], codes[0], texts[0]);
      c := CodesFirst(s, at[0], at[1..]);
      assert [at[0]] + at[1..] == at;
    }
  }

  lemma JoinFirst(texts: seq<seq<byte>>) returns (rest: seq<byte>)
    requires |texts| > 1 && DigitTexts(texts)
    ensures rest == Join(texts[1..]) && rest != [] && Join(texts) == texts[0] + [';' as nat] + rest
  {
    rest := Join(texts[1..]);
    assert texts[1..][0] == texts[1];
  }

  lemma Parts(s: seq<byte>, p: nat, end: nat, t: seq<byte>, rest: seq<byte>) returns (j: nat)
    requires p <= end < |s| && s[p..end] == t + [';' as nat] + rest
    ensures j == p + |t| && j + 1 + |rest| == end && s[p..j] == t && s[j] == ';' as nat && s[j + 1..end] == rest
  {
    var all := t + [';' as nat] + rest;
    j := p + |t|;
    assert s[p..j] == all[..|t|] == t;
    assert s[j] == all[|t|];
    assert s[j + 1..end] == all[|t| + 1..] == rest;
  }

  /** The first of several texts, and the others behind its ';'. */
  lemma FirstStart(s: seq<byte>, p: nat, texts: seq<seq<byte>>, end: nat) returns (j: nat, rest: seq<byte>)
    requires |texts| > 1 && DigitTexts(texts) && p <= end < |s| && s[p..end] == Join(texts)
    ensures p <= j && j + 1 < end && StandsAt(s, p, texts[0]) && rest == Join(texts[1..]) && s[j + 1..end] == rest
    ensures Starts(s, p, end) == [p] + Starts(s, j + 1, end)
  {
    rest := JoinFirst(texts);
    j := Parts(s, p, end, texts[0], rest);
    TextEnds(s, p, texts[0]);
    NextStart(s, p, end, j);
  }

  lemma LastStart(s: seq<byte>, p: nat, texts: seq<seq<byte>>, end: nat)
    requires |texts| == 1 && DigitTexts(texts) && p <= end < |s| && s[p..end] == Join(texts) && s[end] == GRAPHICS
    ensures StandsAt(s, p, texts[0]) && Starts(s, p, end) == [p]
  {
    TextEnds(s, p, texts[0]);
  }

  /** Texts joined by ';' stand where the codes of the sequence start. */
  lemma {:induction false} JoinedStarts(s: seq<byte>, p: nat, texts: seq<seq<byte>>, end: nat) returns (at: seq<nat>)
    requires texts != [] && DigitTexts(texts)
    requires p <= end < |s| && s[p..end] == Join(texts) && s[end] == GRAPHICS
    ensures at == Starts(s, p, end) && |at| == |texts|
    ensures forall k | 0 <= k < |at| :: StandsAt(s, at[k], texts[k])
    decreases |texts|
  {
    if |texts| == 1 {
      LastStart(s, p, texts, end);
      at := [p];
    } else {
      var j, rest := FirstStart(s, p, texts, end);
      at := JoinedStarts(s, j + 1, texts[1..], end);
      at := [p] + at;
    }
  }

  lemma {:induction false} JoinIsParams(texts: seq<seq<byte>>)
    requires DigitTexts(texts)
    ensures Params(Join(texts))
    decreases |texts|
  {
    if texts != [] {
      var t := texts[0];
      forall i | 0 <= i < |t| ensures t[i] != 0 && !IsCommand(t[i]) { assert IsDigit(t[i], 10); }
      if |texts| > 1 { JoinIsParams(texts[1..]); }
    }
  }

  lemma {:induction false} CodesAreDigits(codes: seq<nat>)
    ensures DigitTexts(Texts(codes))
    decreases |codes|
  {
    if codes != [] {
      CodesAreDigits(codes[1..]);
      TextDenotes(codes[0], 10);
    }
  }

  lemma SgrCodes(codes: seq<nat>, s: seq<byte>) returns (at: seq<nat>, c: seq<nat>)
    requires codes != [] && s == Sgr(Join(Texts(codes)))
    ensures at == Starts(s, 2, |s| - 1) && c == CodesAt(s, at) && c == Low16(codes)
  {
    CodesAreDigits(codes);
    assert s[2..|s| - 1] == Join(Texts(codes));
    at := JoinedStarts(s, 2, Texts(codes), |s| - 1);
    c := ReadCodes(s, at, codes, Texts(codes));
  }

  /** A set-graphics sequence applies its codes, written in decimal, in order, and keeps the attribute that
      was there before. */
  lemma SgrApplies(t: Term, codes: seq<nat>) returns (u: Term)
    requires codes != []
    ensures u == WriteFrom(t, Sgr(Join(Texts(codes))), 0)
    ensures u == t.(attr := ApplyCodes(t.attr, t.oldattr, Low16(codes)), oldattr := t.attr)
  {
    var s := Sgr(Join(Texts(codes)));
    CodesAreDigits(codes);
    JoinIsParams(Texts(codes));
    SgrEffect(t, Join(Texts(codes)));
    var at, c, g := GraphicsAppliesCodes(t.attr, t.oldattr, s, 2, |s| - 1);
    var at', d := SgrCodes(codes, s);
    u := t.(attr := g, oldattr := t.attr);
  }

  // ---------------------------------------------------------------- where writing goes on

  /** Inside a sequence there is no NUL and none of the characters behind '@' and before '~'. */
  ghost predicate Between(s: seq<byte>, p: nat, c: nat) {
    c <= |s| && forall k | p <= k < c :: s[k] != 0 && (s[k] <= '@' as nat || '~' as nat <= s[k])
  }

  lemma CommandAtBetween(s: seq<byte>, p: nat, c: nat)
    requires p <= c && Between(s, p, c)
    requires c == |s| || s[c] == 0 || '@' as nat < s[c] < '~' as nat
    ensures CommandAt(s, p) == c
  {
  }

  /** A complete sequence has the effect of its last character, which is none but for 'J' and 'm', and
      writing goes on behind it. */
  lemma CompleteSequence(t: Term, s: seq<byte>, p: nat, c: nat)
    requires p + 2 <= c < |s| && s[p] == ESC && s[p + 1] == '[' as nat
    requires Between(s, p + 2, c) && '@' as nat < s[c] < '~' as nat
    ensures WriteFrom(t, s, p) ==
              WriteFrom(if s[c] == 'J' as nat then Clear(t)
                        else if s[c] == 'm' as nat then
                          t.(attr := Graphics(t.attr, t.oldattr, s, p + 2, c), oldattr := t.attr)
                        else t,
                        s, c + 1)
  {
    CommandAtBetween(s, p + 2, c);
  }

  /** One that the buffer or a NUL cuts off has none, and writing goes on there. */
  lemma CutSequence(t: Term, s: seq<byte>, p: nat, c: nat)
    requires p + 2 <= c <= |s| && s[p] == ESC && s[p + 1] == '[' as nat
    requires Between(s, p + 2, c) && (c == |s| || s[c] == 0)
    ensures WriteFrom(t, s, p) == WriteFrom(t, s, c)
  {
    CommandAtBetween(s, p + 2, c);
  }

  /** An escape character that no '[' follows is dropped, and what follows is text. */
  lemma LoneEscape(t: Term, s: seq<byte>, p: nat)
    requires p < |s| && s[p] == ESC && (p + 1 < |s| ==> s[p + 1] != '[' as nat)
    ensures WriteFrom(t, s, p) == WriteFrom(t, s, p + 1)
  {
  }

  // ---------------------------------------------------------------- one row

  /** The cells from `first` on hold this text now, and all others are the same. */
  ghost predicate Wrote(before: seq<Cell>, after: seq<Cell>, first: nat, s: seq<byte>, attr: byte) {
    |after| == |before| &&
    forall i | 0 <= i < |before| ::
      after[i] == if first <= i < first + |s| then Cell(s[i - first], attr) else before[i]
  }

  /** Text that stays in the row overwrites it from the cursor on, and nothing else. */
  lemma {:induction false} RowText(t: Term, s: seq<byte>)
    requires t.Valid() && t.col + |s| <= 80 && Plain(s)
    ensures var u := PutAll(t, s);
            u == t.(tape := u.tape, col := t.col + |s|) && Wrote(t.tape, u.tape, 80 * t.row + t.col, s, t.attr)
    decreases |s|
  {
    if s != [] {
      RowText(PutChar(t, s[0]), s[1..]);
    }
  }

  /** A backspace blanks the cell before the cursor, which goes there, and no other; in the first column it
      does nothing. */
  lemma BackspaceErases(t: Term) returns (u: Term)
    requires t.Valid()
    ensures u == PutChar(t, BACKSPACE)
    ensures t.col == 0 ==> u == t
    ensures t.col > 0 ==> u == t.(tape := u.tape, col := t.col - 1) &&
                          Wrote(t.tape, u.tape, 80 * t.row + t.col - 1, [0], t.attr)
  {
    u := PutChar(t, BACKSPACE);
  }

  lemma WroteOver(x: seq<Cell>, y: seq<Cell>, z: seq<Cell>, first: nat, a: seq<byte>, b: seq<byte>, attr: byte)
    requires Wrote(x, y, first, a, attr) && Wrote(y, z, first, b, attr) && |b| <= |a|
    ensures Wrote(x, z, first, b + a[|b|..], attr)
  {
  }

  lemma ReturnBetween(t: Term, a: seq<byte>, b: seq<byte>)
    ensures PutAll(t, a + [RETURN] + b) == PutAll(PutAll(t, a).(col := 0), b)
  {
    PutAllConcat(t, a + [RETURN], b);
    PutAllConcat(t, a, [RETURN]);
    var u := PutAll(t, a);
    assert [RETURN][1..] == [] && PutAll(u, [RETURN]) == PutChar(u, RETURN) == u.(col := 0);
  }

  /** A carriage return goes back to the first column, so that what follows is written over the row. */
  lemma ReturnOverwrites(t: Term, a: seq<byte>, b: seq<byte>) returns (u: Term)
    requires t.Valid() && t.col == 0 && Plain(a) && Plain(b) && |b| <= |a| <= 80
    ensures u == PutAll(t, a + [RETURN] + b)
    ensures u == t.(tape := u.tape, col := |b|) && Wrote(t.tape, u.tape, 80 * t.row, b + a[|b|..], t.attr)
  {
    ReturnBetween(t, a, b);
    var v := PutAll(t, a).(col := 0);
    RowText(t, a);
    RowText(v, b);
    u := PutAll(v, b);
    WroteOver(t.tape, v.tape, u.tape, 80 * t.row, a, b, t.attr);
  }
}
