/** bootloader/stage2/devices/screen/screen.c: the text screen, as a window on a tape of cells that
    only grows. */
module Screen {
  import opened Bytes
  import opened Copy
  import opened Numbers

  /** A character and its attribute. */
  datatype Cell = Cell(glyph: byte, attr: byte)

  /** Rows top .. top + 25 of the tape are on the screen; row counts from the start of the tape. */
  datatype Term = Term(tape: seq<Cell>, top: nat, row: nat, col: nat, attr: byte, oldattr: byte) {
    predicate Valid() {
      |tape| == 80 * (top + 25) && top <= row < top + 25 && col <= 80
    }
  }

  const NEWLINE: byte := 10
  const RETURN: byte := 13
  const BACKSPACE: byte := 8
  const TAB: byte := 9
  const ESC: byte := 27

  // ---------------------------------------------------------------- the tape

  function Blanks(n: nat, attr: byte): (r: seq<Cell>)
    ensures |r| == n
  {
    seq(n, _ => Cell(0, attr))
  }

  /** n blank rows are appended and the window moves down with them. */
  function ScrollBy(t: Term, n: nat): Term {
    t.(tape := t.tape + Blanks(80 * n, t.attr), top := t.top + n)
  }

  /** The start of the next row; blank rows are appended only when there is none left. */
  function NextRow(t: Term): Term {
    var u := t.(row := t.row + 1, col := 0);
    if u.row < t.top + 25 then u else ScrollBy(u, 1)
  }

  /** Writes a cell at the cursor. Past the end of the tape it is lost: that cell is blanked by the
      scroll that follows. */
  function PutCell(t: Term, c: byte): Term {
    var i := 80 * t.row + t.col;
    if i < |t.tape| then t.(tape := t.tape[i := Cell(c, t.attr)]) else t
  }

  function PutPlain(t: Term, c: byte): Term {
    var u := PutCell(t, c);
    if u.col < 80 then u.(col := u.col + 1) else NextRow(u)
  }

  /** screen_putc */
  function PutChar(t: Term, c: byte): Term {
    if c == NEWLINE then NextRow(t)
    else if c == RETURN then t.(col := 0)
    else if c == BACKSPACE then
      if t.col == 0 then t else PutCell(t.(col := t.col - 1), 0)
    else if c == TAB then
      var col := (t.col / 4 + 1) * 4;
      if col <= 80 then t.(col := col) else NextRow(t)
    else PutPlain(t, c)
  }

  function PutAll(t: Term, s: seq<byte>): Term
    decreases |s|
  {
    if s == [] then t else PutAll(PutChar(t, s[0]), s[1..])
  }

  /** screen_clear: the whole window scrolls away and the cursor goes to its first cell. */
  function Clear(t: Term): Term {
    ScrollBy(t, 25).(row := t.top + 25, col := 0)
  }

  lemma PutCharValid(t: Term, c: byte)
    requires t.Valid()
    ensures PutChar(t, c).Valid()
  {
  }

  /** What has scrolled off the top of the screen never changes, and nothing is ever removed. */
  ghost predicate Grows(t: Term, u: Term) {
    && t.top <= u.top && |t.tape| <= |u.tape| && 80 * t.top <= |t.tape|
    && forall i | 0 <= i < 80 * t.top :: u.tape[i] == t.tape[i]
  }

  lemma PutCharGrows(t: Term, c: byte)
    requires t.Valid()
    ensures Grows(t, PutChar(t, c))
  {
  }

  /** For every stream of bytes the cursor stays on the screen and the tape only grows. */
  lemma {:induction false} PutAllValid(t: Term, s: seq<byte>)
    requires t.Valid()
    ensures PutAll(t, s).Valid() && Grows(t, PutAll(t, s))
    ensures PutAll(t, s).attr == t.attr && PutAll(t, s).oldattr == t.oldattr
    decreases |s|
  {
    if s != [] {
      PutCharValid(t, s[0]);
      PutCharGrows(t, s[0]);
      PutAllValid(PutChar(t, s[0]), s[1..]);
    }
  }

  lemma {:induction false} PutAllConcat(t: Term, a: seq<byte>, b: seq<byte>)
    ensures PutAll(t, a + b) == PutAll(PutAll(t, a), b)
    decreases |a|
  {
    if a == [] {
      assert a + b == b;
    } else {
      assert (a + b)[1..] == a[1..] + b;
      PutAllConcat(PutChar(t, a[0]), a[1..], b);
    }
  }

  /** Cell i of the screen. */
  function Window(t: Term, i: nat): Cell
    requires t.Valid() && i < 2000
  {
    t.tape[80 * t.top + i]
  }

  /** A line feed on the last row moves every row up by one and leaves a blank one; on any other row
      the screen stays. */
  lemma LineFeedScrolls(t: Term, i: nat)
    requires t.Valid() && i < 2000
    ensures var u := PutChar(t, NEWLINE);
            && u.Valid() && u.col == 0 && u.row == t.row + 1
            && Window(u, i) == if t.row + 1 < t.top + 25 then Window(t, i)
                               else if i < 1920 then Window(t, i + 80) else Cell(0, t.attr)
  {
    if t.row + 1 == t.top + 25 {
      assert Window(PutChar(t, NEWLINE), i) == (t.tape + Blanks(80, t.attr))[80 * t.top + (i + 80)];
    }
  }

  /** Erasing leaves 2000 blank cells and the cursor on the first. */
  lemma ClearBlanks(t: Term)
    requires t.Valid()
    ensures var u := Clear(t);
            u.Valid() && u.row == u.top && u.col == 0 && forall i: nat | i < 2000 :: Window(u, i) == Cell(0, t.attr)
  {
  }

  /** A tab goes to the next column that 4 divides, which may be the one behind the last; from there it
      goes to the next row. */
  lemma TabStops(t: Term)
    requires t.Valid()
    ensures var u := PutChar(t, TAB);
            if t.col < 80 then
              u == t.(col := u.col) && t.col < u.col <= t.col + 4 && u.col % 4 == 0
            else u == PutChar(t, NEWLINE)
  {
  }

  /** How many rows the screen has moved up after n line feeds. */
  function RowsLost(t: Term, n: nat): nat
    requires t.Valid()
  {
    if t.row - t.top + n <= 24 then 0 else t.row - t.top + n - 24
  }

  /** n line feeds from any row: the first ones only move the cursor, the others move the rows up and out,
      and blank rows come in at the bottom. From 49 on nothing is left of any screen. */
  lemma {:induction false} LineFeeds(t: Term, n: nat, i: nat)
    requires t.Valid() && i < 2000
    ensures var u, k := PutAll(t, Repeat(NEWLINE, n)), RowsLost(t, n);
            && u.Valid() && u.row == t.row + n && u.top == t.top + k && (n > 0 ==> u.col == 0) && u.attr == t.attr
            && Window(u, i) == if i + 80 * k < 2000 then Window(t, i + 80 * k) else Cell(0, t.attr)
    decreases n
  {
    if n > 0 {
      assert Repeat(NEWLINE, n)[1..] == Repeat(NEWLINE, n - 1);
      var s := PutChar(t, NEWLINE);
      LineFeedScrolls(t, i);
      LineFeeds(s, n - 1, i);
      var k := RowsLost(s, n - 1);
      if i + 80 * k < 2000 { LineFeedScrolls(t, i + 80 * k); }
    }
  }

  /** n tabs from the first column: every 21 of them a new row, as column 80 is a stop too. */
  lemma {:induction false} Tabs(t: Term, n: nat)
    requires t.Valid() && t.col % 4 == 0
    ensures var u, stop := PutAll(t, Repeat(TAB, n)), t.col / 4 + n;
            u.Valid() && u.row == t.row + stop / 21 && u.col == 4 * (stop % 21)
    decreases n
  {
    if n > 0 {
      assert Repeat(TAB, n)[1..] == Repeat(TAB, n - 1);
      TabStops(t);
      Tabs(PutChar(t, TAB), n - 1);
    }
  }

  // ---------------------------------------------------------------- plain text

  ghost predicate Plain(s: seq<byte>) {
    forall i | 0 <= i < |s| :: s[i] != NEWLINE && s[i] != RETURN && s[i] != BACKSPACE && s[i] != TAB
  }

  /** Where character i of a text goes that starts in the first column of row r. A row takes 81. */
  function Place(r: nat, i: nat): nat { 80 * (r + i / 81) + i % 81 }

  lemma PlaceNext(r: nat, i: nat)
    ensures Place(r, i + 1) == if i % 81 == 80 then Place(r, i) else Place(r, i) + 1
    ensures i % 81 == 80 ==> (i + 1) / 81 == i / 81 + 1 && (i + 1) % 81 == 0
    ensures i % 81 < 80 ==> (i + 1) / 81 == i / 81 && (i + 1) % 81 == i % 81 + 1
  {
  }

  lemma {:induction false} PlaceGrows(r: nat, i: nat, j: nat)
    requires i <= j
    ensures Place(r, i) <= Place(r, j)
    ensures i < j && i % 81 != 80 ==> Place(r, i) < Place(r, j)
    decreases j - i
  {
    if i < j {
      PlaceNext(r, i);
      PlaceGrows(r, i + 1, j);
    }
  }

  /** Where the characters of s are on the tape: each at its place, but for those at 80, 161, 242, ...,
      whose place the next one has taken. */
  ghost predicate Lies(tape: seq<Cell>, r: nat, s: seq<byte>, attr: byte) {
    forall i | 0 <= i < |s| ::
      Place(r, i) < |tape| &&
      (i % 81 != 80 ==> tape[Place(r, i)] == Cell(s[i], attr)) &&
      (i % 81 == 80 && i + 1 < |s| ==> tape[Place(r, i)] == Cell(s[i + 1], attr))
  }

  /** The cursor is behind a text of n characters that started in the first column of row r. */
  predicate Behind(t: Term, r: nat, n: nat) {
    t.Valid() && t.row == r + n / 81 && t.col == n % 81
  }

  /** One more character goes to the next place, and the cursor moves behind it. */
  lemma PlainStep(u: Term, r: nat, n: nat, c: byte)
    requires Behind(u, r, n) && Plain([c])
    ensures var v := PutChar(u, c);
            && Behind(v, r, n + 1) && Place(r, n) < |v.tape| && |u.tape| <= |v.tape|
            && (n % 81 != 80 ==> v.tape[Place(r, n)] == Cell(c, u.attr))
            && (n % 81 == 80 && Place(r, n) < |u.tape| ==> v.tape[Place(r, n)] == Cell(c, u.attr))
            && forall i | 0 <= i < |u.tape| && i != Place(r, n) :: v.tape[i] == u.tape[i]
  {
    assert [c][0] == c;
    PlaceNext(r, n);
    assert Place(r, n) == 80 * u.row + u.col;
  }

  lemma LiesStep(u: Term, r: nat, s: seq<byte>, c: byte)
    requires Behind(u, r, |s|) && Plain([c]) && Lies(u.tape, r, s, u.attr)
    ensures Lies(PutChar(u, c).tape, r, s + [c], u.attr)
  {
    var n, v, all := |s|, PutChar(u, c), s + [c];
    PlainStep(u, r, n, c);
    forall i | 0 <= i < |all|
      ensures Place(r, i) < |v.tape|
      ensures i % 81 != 80 ==> v.tape[Place(r, i)] == Cell(all[i], u.attr)
      ensures i % 81 == 80 && i + 1 < |all| ==> v.tape[Place(r, i)] == Cell(all[i + 1], u.attr)
    {
      if i < n {
        PlaceNext(r, i);
        PlaceGrows(r, i, n);
        if i + 1 < n { PlaceGrows(r, i + 1, n); }
      }
    }
  }

  /** A row wraps after the 81st character, which is written on the first cell of the next row. So
      exactly the characters at places 80, 161, 242, ... of a text are overwritten by the one after
      them; all others stay where they were put. */
  lemma {:induction false} PlainText(t: Term, s: seq<byte>)
    requires t.Valid() && t.col == 0 && Plain(s)
    ensures var u := PutAll(t, s);
            Behind(u, t.row, |s|) && u.attr == t.attr && Lies(u.tape, t.row, s, t.attr)
    decreases |s|
  {
    if s != [] {
      var n := |s| - 1;
      var a, c := s[..n], s[n];
      PlainText(t, a);
      PutAllConcat(t, a, [c]);
      assert s == a + [c];
      assert PutAll(PutAll(t, a), [c]) == PutChar(PutAll(t, a), c);
      PlainStep(PutAll(t, a), t.row, n, c);
      LiesStep(PutAll(t, a), t.row, a, c);
    }
  }

  // ---------------------------------------------------------------- escape sequences

  const BRACKET: byte := 91
  const ERASE: byte := 74       // 'J'
  const GRAPHICS: byte := 109   // 'm'

  function Color(n: nat): byte
    requires n < 8
  {
    [0, 4, 2, 6, 1, 5, 3, 7][n]
  }

  /** One parameter of a set-graphics sequence: the low four bits are the foreground, the others the
      background, and 0 goes back to the attribute kept in oldattr. */
  function ApplyAttr(attr: byte, oldattr: byte, code: nat): byte {
    if code == 0 then oldattr
    else if code == 1 then if attr / 8 % 2 == 0 then attr + 8 else attr
    else if 30 <= code <= 37 then attr / 16 * 16 + Color(code - 30)
    else if 40 <= code <= 47 then attr % 16 + 16 * Color(code - 40)
    else attr
  }

  /** Foreground codes keep the background and background codes the foreground; bold is kept by
      background codes only. */
  lemma CodesKeepOtherHalf(attr: byte, oldattr: byte, code: nat)
    ensures 30 <= code <= 37 ==>
              var a := ApplyAttr(attr, oldattr, code); a / 16 == attr / 16 && a % 16 < 8
    ensures 40 <= code <= 47 ==>
              var a := ApplyAttr(attr, oldattr, code); a % 16 == attr % 16 && a / 16 < 8
  {
  }

  /** Code 1 sets the bold bit and keeps the other seven. */
  lemma BoldKeepsColors(attr: byte, oldattr: byte)
    ensures var a := ApplyAttr(attr, oldattr, 1); a / 16 == attr / 16 && a % 8 == attr % 8 && a / 8 % 2 == 1
  {
  }

  /** screen_ansi_attr: parameters from p on, while they start before limit. */
  function Graphics(attr: byte, oldattr: byte, s: seq<byte>, p: nat, limit: nat): byte
    requires p <= |s|
    decreases |s| - p
  {
    var (code, j) := Strtol(s, p, 10);
    var a := ApplyAttr(attr, oldattr, code);
    if j < |s| && At(s, j) != 0 && j + 1 < limit then Graphics(a, oldattr, s, j + 1, limit) else a
  }

  /** The bytes that screen_handle_ansi takes for the end of a sequence. */
  predicate IsCommand(c: byte) { 64 < c < 126 }

  function CommandAt(s: seq<byte>, p: nat): (r: nat)
    requires p <= |s|
    ensures p <= r <= |s|
    ensures r < |s| ==> s[r] == 0 || IsCommand(s[r])
    ensures forall k | p <= k < r :: s[k] != 0 && !IsCommand(s[k])
    decreases |s| - p
  {
    if p < |s| && s[p] != 0 && !IsCommand(s[p]) then CommandAt(s, p + 1) else p
  }

  /** screen_handle_ansi on an escape at p: the terminal, and where to go on. */
  function Ansi(t: Term, s: seq<byte>, p: nat): (r: (Term, nat))
    requires p < |s|
    ensures p < r.1 <= |s|
  {
    var q := p + 1;
    if At(s, q) != BRACKET then (t, q)
    else
      var c := CommandAt(s, q + 1);
      if At(s, c) == 0 then (t, c)
      else if s[c] == ERASE then (Clear(t), c + 1)
      else if s[c] == GRAPHICS then
        (t.(attr := Graphics(t.attr, t.oldattr, s, q + 1, c), oldattr := t.attr), c + 1)
      else (t, c + 1)
  }

  /** screen_write of a buffer that a NUL follows. */
  function WriteFrom(t: Term, s: seq<byte>, p: nat): Term
    requires p <= |s|
    decreases |s| - p
  {
    if p == |s| then t
    else if s[p] == ESC then
      var (u, q) := Ansi(t, s, p);
      WriteFrom(u, s, q)
    else WriteFrom(PutChar(t, s[p]), s, p + 1)
  }

  ghost predicate EscFree(s: seq<byte>) {
    forall i | 0 <= i < |s| :: s[i] != ESC
  }

  lemma {:induction false} WritePlain(t: Term, s: seq<byte>, p: nat)
    requires p <= |s| && EscFree(s)
    ensures WriteFrom(t, s, p) == PutAll(t, s[p..])
    decreases |s| - p
  {
    if p < |s| {
      WritePlain(PutChar(t, s[p]), s, p + 1);
      assert s[p..][1..] == s[p + 1..];
    }
  }

  lemma {:induction false} WriteValid(t: Term, s: seq<byte>, p: nat)
    requires t.Valid() && p <= |s|
    ensures WriteFrom(t, s, p).Valid() && Grows(t, WriteFrom(t, s, p))
    decreases |s| - p
  {
    if p < |s| {
      if s[p] == ESC {
        var (u, q) := Ansi(t, s, p);
        WriteValid(u, s, q);
      } else {
        PutCharValid(t, s[p]);
        PutCharGrows(t, s[p]);
        WriteValid(PutChar(t, s[p]), s, p + 1);
      }
    }
  }

  /** A complete set-graphics sequence. */
  function Sgr(params: seq<byte>): seq<byte> {
    [ESC, BRACKET] + params + [GRAPHICS]
  }

  ghost predicate Params(s: seq<byte>) {
    forall i | 0 <= i < |s| :: s[i] != 0 && !IsCommand(s[i])
  }

  lemma CommandAtIs(s: seq<byte>, p: nat, c: nat)
    requires p <= c < |s| && IsCommand(s[c])
    requires forall k | p <= k < c :: s[k] != 0 && !IsCommand(s[k])
    ensures CommandAt(s, p) == c
  {
  }

  /** A complete erase sequence, with or without parameters, leaves 2000 blank cells in the current
      attribute and the cursor on the first; the rows before are still on the tape. */
  lemma EraseBlanks(t: Term, params: seq<byte>)
    requires t.Valid() && Params(params)
    ensures var u := WriteFrom(t, [ESC, BRACKET] + params + [ERASE], 0);
            && u.Valid() && Grows(t, u) && u.row == u.top && u.col == 0 && u.attr == t.attr
            && forall i: nat | i < 2000 :: Window(u, i) == Cell(0, t.attr)
  {
    var s := [ESC, BRACKET] + params + [ERASE];
    var c := |s| - 1;
    forall k | 2 <= k < c ensures s[k] != 0 && !IsCommand(s[k]) {
      assert s[k] == params[k - 2];
    }
    CommandAtIs(s, 2, c);
    assert Ansi(t, s, 0) == (Clear(t), |s|);
    ClearBlanks(t);
    WriteValid(t, s, 0);
  }

  /** Every parameter of the list is a foreground colour or bold. */
  predicate OnlyForeground(s: seq<byte>, p: nat, limit: nat)
    requires p <= |s|
    decreases |s| - p
  {
    var (code, j) := Strtol(s, p, 10);
    (code == 1 || 30 <= code <= 37) &&
    (j < |s| && At(s, j) != 0 && j + 1 < limit ==> OnlyForeground(s, j + 1, limit))
  }

  /** However many of them there are, the background stays. */
  lemma {:induction false} ForegroundKeepsBackground(attr: byte, oldattr: byte, s: seq<byte>, p: nat, limit: nat)
    requires p <= |s| && OnlyForeground(s, p, limit)
    ensures Graphics(attr, oldattr, s, p, limit) / 16 == attr / 16
    decreases |s| - p
  {
    var (code, j) := Strtol(s, p, 10);
    CodesKeepOtherHalf(attr, oldattr, code);
    BoldKeepsColors(attr, oldattr);
    if j < |s| && At(s, j) != 0 && j + 1 < limit {
      ForegroundKeepsBackground(ApplyAttr(attr, oldattr, code), oldattr, s, j + 1, limit);
    }
  }

  /** It changes the attribute only, and keeps the attribute before it in oldattr. */
  lemma SgrEffect(t: Term, params: seq<byte>)
    requires Params(params)
    ensures var s := Sgr(params);
            WriteFrom(t, s, 0) == t.(attr := Graphics(t.attr, t.oldattr, s, 2, |s| - 1), oldattr := t.attr)
  {
    var s := Sgr(params);
    var c := |s| - 1;
    forall k | 2 <= k < c ensures s[k] != 0 && !IsCommand(s[k]) {
      assert s[k] == params[k - 2];
    }
    CommandAtIs(s, 2, c);
    assert Ansi(t, s, 0).1 == |s|;
  }

  /** The sequence without parameters exchanges the attribute and the kept one. */
  lemma ResetSwaps(t: Term)
    ensures WriteFrom(t, Sgr([]), 0) == t.(attr := t.oldattr, oldattr := t.attr)
  {
    var s := Sgr([]);
    SgrEffect(t, []);
    assert s[2] == GRAPHICS && !IsDigit(s[2], 10);
    assert DigitsEnd(s, 2, 10) == 2;
    assert s[2..2] == [];
  }

  /** Whatever set-graphics sequence comes first, text without escapes followed by the empty sequence
      leaves the attribute as it was before. */
  lemma ColouredTextRestores(t: Term, params: seq<byte>, text: seq<byte>)
    requires t.Valid() && Params(params) && EscFree(text)
    ensures var u := WriteFrom(t, Sgr(params), 0);
            var v := WriteFrom(u, text, 0);
            WriteFrom(v, Sgr([]), 0).attr == t.attr && v.attr == u.attr
  {
    var u := WriteFrom(t, Sgr(params), 0);
    SgrEffect(t, params);
    WritePlain(u, text, 0);
    assert text[0..] == text;
    PutAllValid(u, text);
    ResetSwaps(PutAll(u, text));
  }

  // ---------------------------------------------------------------- video memory

  const VIDEO_BYTES: nat := 0x8000   // the text window of the display adapter, from 0xB8000

  /** screen_scroll(n) on the tape, for n of at most 25. */
  function Scrolled(t: Term, n: nat): Term {
    ScrollBy(t, n).(row := t.top + 25, col := 0)
  }

  /** Every cell moves up by n rows and the last n rows are blank, with the cursor on the first of them. */
  lemma ScrolledWindow(t: Term, n: nat, i: nat)
    requires t.Valid() && 1 <= n <= 25 && i < 2000
    ensures var u := Scrolled(t, n);
            && u.Valid() && u.row - u.top == 25 - n && u.col == 0
            && Window(u, i) == if i + 80 * n < 2000 then Window(t, i + 80 * n) else Cell(0, t.attr)
  {
    assert Window(Scrolled(t, n), i) == (t.tape + Blanks(80 * n, t.attr))[80 * t.top + (i + 80 * n)];
  }

  function CellAt(v: seq<byte>, i: nat): Cell
    requires 2 * i + 1 < |v|
  {
    Cell(v[2 * i], v[2 * i + 1])
  }

  /** The first 2000 cells of video memory are the window of the tape. */
  ghost predicate Shows(v: seq<byte>, t: Term) {
    && |v| == VIDEO_BYTES && |t.tape| == 80 * (t.top + 25)
    && forall i | 0 <= i < 2000 :: CellAt(v, i) == t.tape[80 * t.top + i]
  }

  lemma ShowsPut(v: seq<byte>, t: Term, i: nat, c: byte)
    requires Shows(v, t) && t.top <= t.row && i == t.col + 80 * (t.row - t.top) && i <= 2000
    ensures Shows(v[2 * i := c][2 * i + 1 := t.attr], PutCell(t, c))
  {
    var w, u := v[2 * i := c][2 * i + 1 := t.attr], PutCell(t, c);
    forall k | 0 <= k < 2000 ensures CellAt(w, k) == u.tape[80 * u.top + k] {
      assert CellAt(v, k) == t.tape[80 * t.top + k];
    }
  }

  /** Moving the rows up and blanking the last ones is moving the window down. */
  lemma ShowsScrolled(v: seq<byte>, w: seq<byte>, t: Term, n: nat)
    requires Shows(v, t) && |w| == VIDEO_BYTES && 1 <= n <= 25
    requires forall i | 0 <= i < 160 * (25 - n) :: w[i] == v[160 * n + i]
    requires forall k | 80 * (25 - n) <= k < 2000 :: CellAt(w, k) == Cell(0, t.attr)
    ensures Shows(w, Scrolled(t, n))
  {
    var u := Scrolled(t, n);
    forall k | 0 <= k < 2000 ensures CellAt(w, k) == u.tape[80 * u.top + k] {
      if k < 80 * (25 - n) {
        assert w[2 * k] == v[160 * n + 2 * k] && w[2 * k + 1] == v[160 * n + (2 * k + 1)];
        assert CellAt(v, 80 * n + k) == t.tape[80 * t.top + (80 * n + k)];
      }
    }
  }

  lemma CopiedAndWiped(v: seq<byte>, copied: seq<byte>, w: seq<byte>, t: Term, n: nat)
    requires Shows(v, t) && |w| == VIDEO_BYTES && 1 <= n <= 25
    requires copied == CopyUp(v, 0, 160 * n, 160 * (25 - n))
    requires w[..160 * (25 - n)] == copied[..160 * (25 - n)]
    requires forall k | 80 * (25 - n) <= k < 2000 :: CellAt(w, k) == Cell(0, t.attr)
    ensures Shows(w, Scrolled(t, n))
  {
    CopyUpMoves(v, 0, 160 * n, 160 * (25 - n));
    forall i | 0 <= i < 160 * (25 - n) ensures w[i] == v[160 * n + i] {
      assert w[i] == w[..160 * (25 - n)][i] == copied[..160 * (25 - n)][i];
    }
    ShowsScrolled(v, w, t, n);
  }

  /** Only the cells 0 to 2000 differ, where cell 2000 is the one behind the screen. */
  ghost predicate SameBeyond(v: seq<byte>, w: seq<byte>) {
    |v| == |w| == VIDEO_BYTES && v[4002..] == w[4002..]
  }

  class Screen {
    const video: array<byte>
    var attr: byte
    var oldattr: byte
    var posx: nat
    var posy: nat
    /** What the display adapter holds as the cursor's position. */
    var cursor: nat
    /** The tape seen so far. */
    ghost var t: Term

    ghost predicate Valid()
      reads this, video
    {
      && t.Valid() && Shows(video[..], t)
      && posx == t.col && posy == t.row - t.top && attr == t.attr && oldattr == t.oldattr
    }

    /** screen_init on a display that shows `t`. */
    constructor (video: array<byte>, attr: byte)
      requires video.Length == VIDEO_BYTES
      modifies video
      ensures Valid() && this.video == video
      ensures t == Term(Blanks(2000, attr), 0, 0, 0, attr, attr)
    {
      this.video := video;
      this.attr, oldattr, posx, posy, cursor := attr, attr, 0, 0, 0;
      t := Term(Blanks(2000, attr), 0, 0, 0, attr, attr);
      new;
      Wipe(0);
      assert forall i | 0 <= i < 2000 :: CellAt(video[..], i) == Cell(0, attr);
    }

    /** The loops of screen_clear and screen_scroll that blank the cells from `first` on. */
    method Wipe(first: nat)
      requires video.Length == VIDEO_BYTES && first <= 2000
      modifies video
      ensures video[..2 * first] == old(video[..2 * first]) && SameBeyond(video[..], old(video[..]))
      ensures forall i | first <= i < 2000 :: CellAt(video[..], i) == Cell(0, attr)
    {
      var i := first;
      while i < 2000
        invariant first <= i <= 2000
        invariant video[..2 * first] == old(video[..2 * first]) && video[4002..] == old(video[4002..])
        invariant forall j | first <= j < i :: video[2 * j] == 0 && video[2 * j + 1] == attr
      {
        video[i * 2] := 0;
        video[i * 2 + 1] := attr;
        i := i + 1;
      }
    }

    /** screen_updatecursor: the low byte and the high byte go out separately. */
    method UpdateCursor()
      requires posx + 80 * posy < 0x1_0000
      modifies this`cursor
      ensures cursor == posx + 80 * posy
    {
      var position := posx + posy * 80;
      var low := position % 256;
      cursor := low + cursor / 256 % 256 * 256;
      var high := position / 256;
      cursor := cursor % 256 + high * 256;
    }

    /** screen_clear */
    method ClearScreen()
      requires Valid()
      modifies this, video
      ensures Valid() && t == Clear(old(t)) && cursor == 0
      ensures SameBeyond(video[..], old(video[..]))
    {
      Wipe(0);
      posx, posy := 0, 0;
      UpdateCursor();
      t := Clear(t);
      ShowsScrolled(old(video[..]), video[..], old(t), 25);
    }

    /** The memcpy of screen_scroll. */
    method MoveRows(n: nat)
      requires video.Length == VIDEO_BYTES && 1 <= n <= 25
      modifies video
      ensures video[..] == CopyUp(old(video[..]), 0, 160 * n, 160 * (25 - n))
      ensures SameBeyond(video[..], old(video[..]))
    {
      Memcpy(video, 0, 80 * n * 2, (25 - n) * 80 * 2);
      CopyUpMoves(old(video[..]), 0, 160 * n, 160 * (25 - n));
    }

    /** screen_scroll */
    method Scroll(n0: byte)
      requires Shows(video[..], t) && attr == t.attr && oldattr == t.oldattr
      modifies this, video
      ensures n0 == 0 ==> unchanged(this) && unchanged(video)
      ensures n0 > 0 ==> Valid() && t == Scrolled(old(t), if n0 > 25 then 25 else n0)
      ensures SameBeyond(video[..], old(video[..]))
    {
      var n: nat := n0;
      if n > 25 {
        n := 25;
      }
      if n == 0 {
        return;
      }
      MoveRows(n);
      ghost var copied := video[..];
      Wipe((25 - n) * 80);
      posy := 25 - n;
      posx := 0;
      UpdateCursor();
      CopiedAndWiped(old(video[..]), copied, video[..], t, n);
      t := Scrolled(t, n);
    }

    /** The default branch of screen_putc, up to the cursor. */
    method Store(c: byte)
      requires Valid()
      modifies this`t, video
      ensures t == PutCell(old(t), c) && Shows(video[..], t) && SameBeyond(video[..], old(video[..]))
      ensures video[2 * (posx + 80 * posy)] == c && video[2 * (posx + 80 * posy) + 1] == attr
    {
      ghost var i := posx + 80 * posy;
      ShowsPut(video[..], t, i, c);
      video[(posx + posy * 80) * 2] := c;
      video[(posx + posy * 80) * 2 + 1] := attr;
      assert video[..] == old(video[..])[2 * i := c][2 * i + 1 := attr];
      t := PutCell(t, c);
    }

    /** The lines that screen_putc repeats to move to the next row. */
    method NewRow()
      requires Shows(video[..], t) && attr == t.attr && oldattr == t.oldattr
      requires posy == t.row - t.top && t.top <= t.row < t.top + 25
      modifies this, video
      ensures Valid() && t == NextRow(old(t)) && SameBeyond(video[..], old(video[..]))
    {
      posx := 0;
      posy := posy + 1;
      t := t.(row := t.row + 1, col := 0);
      if posy >= 25 {
        Scroll(1);
      }
    }

    /** The default branch of screen_putc. */
    method PutDefault(c: byte)
      requires Valid()
      modifies this, video
      ensures Valid() && t == PutPlain(old(t), c) && SameBeyond(video[..], old(video[..]))
    {
      Store(c);
      posx := posx + 1;
      if posx > 80 {
        NewRow();
      } else {
        t := t.(col := posx);
      }
    }

    /** screen_putc */
    method Putc(c: byte)
      requires Valid()
      modifies this, video
      ensures Valid() && t == PutChar(old(t), c) && cursor == posx + 80 * posy
      ensures SameBeyond(video[..], old(video[..]))
      decreases c == BACKSPACE
    {
      PutCharValid(t, c);
      if c == NEWLINE {
        NewRow();
      } else if c == RETURN {
        posx := 0;
        t := t.(col := 0);
      } else if c == BACKSPACE {
        if posx > 0 {
          posx := posx - 1;
          t := t.(col := t.col - 1);
          Putc(0);
          posx := posx - 1;
          t := t.(col := t.col - 1);
        }
      } else if c == TAB {
        posx := (posx / 4 + 1) * 4;
        if posx > 80 {
          NewRow();
        } else {
          t := t.(col := posx);
        }
      } else {
        PutDefault(c);
      }
      UpdateCursor();
    }

    /** The branches of screen_ansi_attr on one parameter. */
    method SetAttribute(code: nat)
      modifies this`attr
      ensures attr == ApplyAttr(old(attr), oldattr, code)
    {
      if code == 0 {
        attr := oldattr;
      } else if code == 1 {
        attr := if attr / 8 % 2 == 0 then attr + 8 else attr;
      } else if 30 <= code <= 37 {
        attr := attr / 16 * 16;
        attr := attr + Color(code - 30);
      } else if 40 <= code <= 47 {
        attr := attr % 16;
        attr := attr + 16 * Color(code - 40);
      }
    }

    /** The parameter at p: where it ends. */
    method NextParameter(s: seq<byte>, p: nat, ghost limit: nat) returns (j: nat)
      requires p <= |s|
      modifies this`attr
      ensures p <= j <= |s|
      ensures Graphics(old(attr), oldattr, s, p, limit) ==
                if j < |s| && At(s, j) != 0 && j + 1 < limit then Graphics(attr, oldattr, s, j + 1, limit) else attr
    {
      var (code, end) := Strtol(s, p, 10);
      SetAttribute(code);
      j := end;
    }

    /** The loop of screen_ansi_attr. */
    method ApplyParameters(s: seq<byte>, params: nat, len: nat)
      requires params + len <= |s|
      modifies this`attr
      ensures attr == Graphics(old(attr), oldattr, s, params, params + len)
    {
      var p := params;
      while true
        invariant p <= |s|
        invariant Graphics(attr, oldattr, s, p, params + len) == Graphics(old(attr), oldattr, s, params, params + len)
        decreases |s| - p
      {
        var j := NextParameter(s, p, params + len);
        if j == |s| || At(s, j) == 0 {
          return;
        }
        p := j + 1;
        if p - params >= len {
          return;
        }
      }
    }

    /** screen_ansi_attr */
    method SetGraphics(s: seq<byte>, params: nat, len: nat)
      requires Valid() && params + len <= |s|
      modifies this`attr, this`oldattr, this`t
      ensures Valid()
      ensures t == old(t).(attr := Graphics(old(attr), old(oldattr), s, params, params + len), oldattr := old(attr))
    {
      var before := attr;
      ApplyParameters(s, params, len);
      oldattr := before;
      t := t.(attr := attr, oldattr := oldattr);
    }

    /** The loop of screen_handle_ansi. */
    method FindCommand(s: seq<byte>, params: nat) returns (p: nat)
      requires params <= |s|
      ensures p == CommandAt(s, params)
    {
      p := params;
      while p < |s| && s[p] != 0 && !IsCommand(s[p])
        invariant params <= p <= |s| && CommandAt(s, p) == CommandAt(s, params)
      {
        p := p + 1;
      }
    }

    /** screen_handle_ansi */
    method HandleAnsi(s: seq<byte>, p0: nat) returns (p: nat)
      requires Valid() && p0 < |s|
      modifies this, video
      ensures Valid() && (t, p) == Ansi(old(t), s, p0) && SameBeyond(video[..], old(video[..]))
    {
      p := p0 + 1;
      if At(s, p) != BRACKET {
        return;
      }
      var params := p + 1;
      p := FindCommand(s, params);
      if At(s, p) == 0 {
        return;
      }
      if s[p] == ERASE {
        ClearScreen();
      } else if s[p] == GRAPHICS {
        SetGraphics(s, params, p - params);
      }
      p := p + 1;
    }

    /** screen_write */
    method Write(s: seq<byte>)
      requires Valid()
      modifies this, video
      ensures Valid() && t == WriteFrom(old(t), s, 0) && SameBeyond(video[..], old(video[..]))
    {
      var p := 0;
      while p != |s|
        invariant Valid() && p <= |s| && WriteFrom(t, s, p) == WriteFrom(old(t), s, 0)
        invariant SameBeyond(video[..], old(video[..]))
        decreases |s| - p
      {
        if s[p] == ESC {
          p := HandleAnsi(s, p);
        } else {
          Putc(s[p]);
          p := p + 1;
        }
      }
    }
  }
}
