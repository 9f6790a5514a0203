/** gets and log of bootloader/stage2/stdio.c on top of the screen. */
module Console {
  import opened Bytes
  import opened Numbers
  import opened Screen

  // ---------------------------------------------------------------- the line editor

  /** Backspace takes the last character away; everything else is a character. */
  function EditStep(line: seq<byte>, c: byte): seq<byte> {
    if c != BACKSPACE then line + [c] else if line == [] then [] else line[..|line| - 1]
  }

  function Edit(keys: seq<byte>): seq<byte> {
    if keys == [] then [] else EditStep(Edit(keys[..|keys| - 1]), keys[|keys| - 1])
  }

  /** What one keystroke writes: nothing for a backspace in an empty line. */
  function EchoStep(t: Term, line: seq<byte>, c: byte): Term {
    if c == BACKSPACE && line == [] then t else WriteFrom(t, [c], 0)
  }

  function Echo(t: Term, keys: seq<byte>): Term {
    if keys == [] then t
    else
      var before := keys[..|keys| - 1];
      EchoStep(Echo(t, before), Edit(before), keys[|keys| - 1])
  }

  /** Keys that the screen takes as they are, or as a backspace. */
  predicate Typed(c: byte) { c != TAB && c != RETURN && c != NEWLINE && c != ESC }

  /** The line never grows past the last column of the row it starts in. */
  ghost predicate FitsRow(col: nat, keys: seq<byte>) {
    forall n | 0 <= n <= |keys| :: col + |Edit(keys[..n])| <= 80
  }

  /** From its start column on, the row of u shows the line; everything else is as in t, or is a
      character rubbed out. */
  ghost predicate ShowsLine(t: Term, u: Term, line: seq<byte>)
    requires t.Valid()
  {
    var start := 80 * t.row + t.col;
    && u == t.(tape := u.tape, col := t.col + |line|) && |u.tape| == |t.tape| && t.col + |line| <= 80
    && (forall i | start <= i < start + |line| :: u.tape[i] == Cell(line[i - start], t.attr))
    && (forall i | 0 <= i < |t.tape| && !(start <= i < start + |line|) ::
          u.tape[i] == t.tape[i] || (start <= i < 80 * t.row + 80 && u.tape[i] == Cell(0, t.attr)))
  }

  lemma WriteOne(t: Term, c: byte)
    requires c != ESC
    ensures WriteFrom(t, [c], 0) == PutChar(t, c)
  {
    WritePlain(t, [c], 0);
    assert [c][0..] == [c] && PutAll(t, [c]) == PutAll(PutChar(t, c), [c][1..]);
  }

  lemma EchoStepShows(t: Term, u: Term, line: seq<byte>, c: byte)
    requires t.Valid() && ShowsLine(t, u, line) && Typed(c) && t.col + |EditStep(line, c)| <= 80
    ensures ShowsLine(t, EchoStep(u, line, c), EditStep(line, c))
  {
    WriteOne(u, c);
  }

  /** After every keystroke the screen shows the line typed so far, and the cursor is behind it. */
  lemma {:induction false} EchoShowsLine(t: Term, keys: seq<byte>)
    requires t.Valid() && FitsRow(t.col, keys) && forall i | 0 <= i < |keys| :: Typed(keys[i])
    ensures ShowsLine(t, Echo(t, keys), Edit(keys))
  {
    assert keys[..|keys|] == keys;
    if keys != [] {
      var before := keys[..|keys| - 1];
      forall n | 0 <= n <= |before| ensures t.col + |Edit(before[..n])| <= 80 {
        assert before[..n] == keys[..n];
      }
      EchoShowsLine(t, before);
      EchoStepShows(t, Echo(t, before), Edit(before), keys[|keys| - 1]);
    }
  }

  /** Whatever is typed, tabs and escapes included, the cursor stays on the screen and what has scrolled
      off never changes. */
  lemma {:induction false} EchoValid(t: Term, keys: seq<byte>)
    requires t.Valid()
    ensures Echo(t, keys).Valid() && Grows(t, Echo(t, keys))
  {
    if keys != [] {
      var before := keys[..|keys| - 1];
      EchoValid(t, before);
      WriteValid(Echo(t, before), [keys[|keys| - 1]], 0);
      var u := Echo(t, before);
      assert Grows(u, Echo(t, keys));
    }
  }

  /** Typing a text without control keys and then rubbing out its tail leaves the rest. */
  lemma {:induction false} RubOut(text: seq<byte>, n: nat)
    requires n <= |text| && forall i | 0 <= i < |text| :: text[i] != BACKSPACE
    ensures Edit(text + Repeat(BACKSPACE, n)) == text[..|text| - n]
    decreases |text| + n
  {
    if n > 0 {
      var keys := text + Repeat(BACKSPACE, n);
      RepeatSnoc(BACKSPACE, n);
      assert keys[..|keys| - 1] == text + Repeat(BACKSPACE, n - 1);
      RubOut(text, n - 1);
    } else if text != [] {
      assert text + Repeat(BACKSPACE, 0) == text;
      var before := text[..|text| - 1];
      RubOut(before, 0);
      assert before + Repeat(BACKSPACE, 0) == before;
    }
  }

  lemma {:induction false} RepeatSnoc(c: byte, n: nat)
    requires n > 0
    ensures Repeat(c, n) == Repeat(c, n - 1) + [c]
  {
    if n > 1 { RepeatSnoc(c, n - 1); }
  }

  /** The array holds this string. */
  ghost predicate HoldsString(a: seq<byte>, s: seq<byte>) {
    |s| < |a| && a[..|s|] == s && a[|s|] == 0
  }

  lemma OneMoreKey(t: Term, input: seq<byte>, n: nat)
    requires n < |input|
    ensures Edit(input[..n + 1]) == EditStep(Edit(input[..n]), input[n])
    ensures Echo(t, input[..n + 1]) == EchoStep(Echo(t, input[..n]), Edit(input[..n]), input[n])
  {
    assert input[..n + 1][..n] == input[..n];
  }

  /** The switch of gets, for any key but Enter: the new length of the line. */
  method EditKey(screen: Screen, c: byte, dest: array<byte>, i0: nat) returns (i: nat)
    requires screen.Valid() && dest != screen.video && i0 < dest.Length
    modifies screen, screen.video, dest
    ensures screen.Valid() && i <= i0 + 1 <= dest.Length
    ensures dest[..i] == EditStep(old(dest[..i0]), c)
    ensures screen.t == EchoStep(old(screen.t), old(dest[..i0]), c)
  {
    i := i0;
    ghost var line := dest[..i];
    if c == BACKSPACE {
      if i > 0 {
        i := i - 1;
        dest[i] := 0;
        assert dest[..i] == line[..i];
        screen.Write([c]);
      }
    } else {
      dest[i] := c;
      i := i + 1;
      assert dest[..i] == line + [c];
      screen.Write([c]);
    }
  }

  /** One round of the loop of gets, after n keys. */
  method NextKey(screen: Screen, input: seq<byte>, dest: array<byte>, i0: nat, n: nat, ghost t: Term)
    returns (i: nat)
    requires screen.Valid() && dest != screen.video && i0 < dest.Length && n < |input|
    requires dest[..i0] == Edit(input[..n]) && screen.t == Echo(t, input[..n])
    modifies screen, screen.video, dest
    ensures screen.Valid() && i <= i0 + 1
    ensures dest[..i] == Edit(input[..n + 1]) && screen.t == Echo(t, input[..n + 1])
  {
    OneMoreKey(t, input, n);
    i := EditKey(screen, input[n], dest, i0);
  }

  /** The loop of gets up to Enter or a negative character: the length of the line. */
  method EditLine(screen: Screen, input: seq<byte>, dest: array<byte>) returns (i: nat, n: nat)
    requires screen.Valid() && dest != screen.video && |input| < dest.Length
    requires exists k | 0 <= k < |input| :: input[k] == NEWLINE || input[k] >= 128
    modifies screen, screen.video, dest
    ensures screen.Valid() && n < |input| && (input[n] == NEWLINE || input[n] >= 128)
    ensures forall k | 0 <= k < n :: input[k] != NEWLINE && input[k] < 128
    ensures i < dest.Length && dest[..i] == Edit(input[..n])
    ensures screen.t == Echo(old(screen.t), input[..n])
  {
    i, n := 0, 0;
    ghost var last :| 0 <= last < |input| && (input[last] == NEWLINE || input[last] >= 128);
    while input[n] < 128 && input[n] != NEWLINE
      invariant screen.Valid() && n <= last && i <= n
      invariant forall j | 0 <= j < n :: input[j] != NEWLINE && input[j] < 128
      invariant dest[..i] == Edit(input[..n])
      invariant screen.t == Echo(old(screen.t), input[..n])
      decreases last - n
    {
      i := NextKey(screen, input, dest, i, n, old(screen.t));
      n := n + 1;
    }
  }

  /** gets: reads keys until Enter, or gives up at a negative one. */
  method Gets(screen: Screen, input: seq<byte>, dest: array<byte>) returns (ok: bool, n: nat)
    requires screen.Valid() && dest != screen.video && |input| < 0x1_0000 && |input| < dest.Length
    requires exists k | 0 <= k < |input| :: input[k] == NEWLINE || input[k] >= 128
    modifies screen, screen.video, dest
    ensures screen.Valid() && n < |input|
    ensures forall k | 0 <= k < n :: input[k] != NEWLINE && input[k] < 128
    ensures ok <==> input[n] == NEWLINE
    ensures ok ==> HoldsString(dest[..], Edit(input[..n])) && screen.t == NextRow(Echo(old(screen.t), input[..n]))
    ensures !ok ==> input[n] >= 128 && screen.t == Echo(old(screen.t), input[..n])
    ensures Grows(old(screen.t), screen.t)
  {
    var i;
    i, n := EditLine(screen, input, dest);
    EchoValid(old(screen.t), input[..n]);
    ok := input[n] == NEWLINE;
    if ok {
      ghost var line := dest[..i];
      dest[i] := 0;
      assert dest[..i] == line;
      WriteOne(screen.t, NEWLINE);
      PutCharGrows(screen.t, NEWLINE);
      screen.Write([NEWLINE]);
    }
  }

  // ---------------------------------------------------------------- log

  const LOG_INFO: nat := 1
  const LOG_WARN: nat := 2
  const LOG_ERROR: nat := 3

  /** "31;1", "33", "36" and "37" */
  function LevelParams(level: nat): seq<byte> {
    if level == LOG_ERROR then [51, 49, 59, 49]
    else if level == LOG_WARN then [51, 51]
    else if level == LOG_INFO then [51, 54]
    else [51, 55]
  }

  /** Bright red, yellow, cyan and light grey on the current background. */
  function LevelAttr(level: nat, attr: byte): byte {
    attr / 16 * 16 + (if level == LOG_ERROR then 12 else if level == LOG_WARN then 6
                      else if level == LOG_INFO then 3 else 7)
  }

  /** Light red, yellow, cyan and light grey, by their numbers on the adapter, on the same background. */
  lemma LevelColours(level: nat, attr: byte)
    ensures LevelAttr(level, attr) / 16 == attr / 16
    ensures LevelAttr(level, attr) % 16 ==
              if level == LOG_ERROR then 12 else if level == LOG_WARN then 6 else if level == LOG_INFO then 3 else 7
  {
  }

  lemma TwoDigits(s: seq<byte>, p: nat)
    requires p + 2 < |s| && IsDigit(s[p], 10) && IsDigit(s[p + 1], 10) && !IsDigit(s[p + 2], 10)
    ensures Strtol(s, p, 10) == (10 * (s[p] - 48) + (s[p + 1] - 48), p + 2)
  {
    DigitsEndAt(s, p, p + 2, 10);
    assert Low(s, p + 2, p + 2, 10, 10 * (s[p] - 48) + (s[p + 1] - 48)) == Low(s, p + 1, p + 2, 10, s[p] - 48);
  }

  lemma OneDigit(s: seq<byte>, p: nat)
    requires p + 1 < |s| && IsDigit(s[p], 10) && !IsDigit(s[p + 1], 10)
    ensures Strtol(s, p, 10) == (s[p] - 48, p + 1)
  {
    DigitsEndAt(s, p, p + 1, 10);
    assert Low(s, p + 1, p + 1, 10, s[p] - 48) == s[p] - 48;
  }

  /** "3x" at p, the last parameter. */
  lemma LastForeground(attr: byte, oldattr: byte, s: seq<byte>, p: nat)
    requires p + 2 < |s| && s[p] == 51 && 48 <= s[p + 1] <= 55 && s[p + 2] == GRAPHICS
    ensures Graphics(attr, oldattr, s, p, p + 2) == attr / 16 * 16 + Color(s[p + 1] - 48)
  {
    TwoDigits(s, p);
  }

  /** "3x;1" at p. */
  lemma BoldForeground(attr: byte, oldattr: byte, s: seq<byte>, p: nat)
    requires p + 4 < |s| && s[p] == 51 && 48 <= s[p + 1] <= 55
    requires s[p + 2] == 59 && s[p + 3] == 49 && s[p + 4] == GRAPHICS
    ensures Graphics(attr, oldattr, s, p, p + 4) == attr / 16 * 16 + Color(s[p + 1] - 48) + 8
  {
    TwoDigits(s, p);
    OneDigit(s, p + 3);
    var a := attr / 16 * 16 + Color(s[p + 1] - 48);
    assert a / 8 % 2 == 0;
    assert Graphics(a, oldattr, s, p + 3, p + 4) == a + 8;
  }

  /** The opening sequence of every level sets exactly that attribute. */
  lemma LevelSets(t: Term, level: nat)
    ensures WriteFrom(t, Sgr(LevelParams(level)), 0) == t.(attr := LevelAttr(level, t.attr), oldattr := t.attr)
  {
    var p := LevelParams(level);
    var s := Sgr(p);
    SgrEffect(t, p);
    if level == LOG_ERROR {
      BoldForeground(t.attr, t.oldattr, s, 2);
    } else {
      LastForeground(t.attr, t.oldattr, s, 2);
    }
  }

  /** Writing pieces one after the other. */
  function WritePieces(t: Term, pieces: seq<seq<byte>>): Term
    decreases |pieces|
  {
    if pieces == [] then t else WritePieces(WriteFrom(t, pieces[0], 0), pieces[1..])
  }

  lemma {:induction false} PiecesKeepAttr(t: Term, pieces: seq<seq<byte>>)
    requires t.Valid() && forall k | 0 <= k < |pieces| :: EscFree(pieces[k])
    ensures var u := WritePieces(t, pieces); u.Valid() && u.attr == t.attr && u.oldattr == t.oldattr
    decreases |pieces|
  {
    if pieces != [] {
      WritePlain(t, pieces[0], 0);
      assert pieces[0][0..] == pieces[0];
      PutAllValid(t, pieces[0]);
      PiecesKeepAttr(WriteFrom(t, pieces[0], 0), pieces[1..]);
    }
  }

  /** log, given the pieces that its formats write. Text without escapes is written in the level's
      attribute, and the attribute is back to what it was when the entry is done. */
  method Log(screen: Screen, level: nat, func: seq<byte>, msg: seq<seq<byte>>)
    requires screen.Valid() && EscFree(func) && forall k | 0 <= k < |msg| :: EscFree(msg[k])
    modifies screen, screen.video
    ensures screen.Valid() && screen.attr == old(screen.attr)
    ensures var t := old(screen.t).(attr := LevelAttr(level, old(screen.attr)), oldattr := old(screen.attr));
            var u := WritePieces(t, [[91], func, [93, 32]] + msg + [[NEWLINE]]);
            u.attr == t.attr && screen.t == u.(attr := u.oldattr, oldattr := u.attr)
  {
    screen.Write(Sgr(LevelParams(level)));
    LevelSets(old(screen.t), level);
    ghost var t := screen.t;
    var pieces := [[91], func, [93, 32]] + msg + [[NEWLINE]];
    PiecesKeepAttr(t, pieces);
    for k := 0 to |pieces|
      invariant screen.Valid() && WritePieces(screen.t, pieces[k..]) == WritePieces(t, pieces)
    {
      assert pieces[k..][0] == pieces[k] && pieces[k..][1..] == pieces[k + 1..];
      screen.Write(pieces[k]);
    }
    ResetSwaps(screen.t);
    screen.Write(Sgr([]));
  }
}
