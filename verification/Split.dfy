/** strcontains and strsplit of bootloader/stage2/strings.c. Strings hold no NUL before their end. */
module Split {
  import opened Bytes

  /** strcontains: the first index, or -1. */
  method StrContains(s: seq<byte>, c: byte) returns (i: int)
    requires IsString(s) && c != 0 && |s| < 0x8000
    ensures -1 <= i < |s|
    ensures i == -1 <==> c !in s
    ensures i >= 0 ==> s[i] == c && c !in s[..i]
  {
    i := 0;
    while At(s, i) != 0 && At(s, i) != c
      invariant 0 <= i <= |s| && c !in s[..i]
      decreases |s| - i
    {
      i := i + 1;
    }
    if At(s, i) == 0 {
      i := -1;
    }
  }

  // ---------------------------------------------------------------- the pieces

  /** The end of the piece that starts at i. */
  function PieceEnd(s: seq<byte>, seps: seq<byte>, i: nat): (j: nat)
    requires i <= |s|
    ensures i <= j <= |s|
    decreases |s| - i
  {
    if i < |s| && s[i] !in seps then PieceEnd(s, seps, i + 1) else i
  }

  /** What strsplit puts into its slots from i on: nothing follows a separator at the very end. */
  function Pieces(s: seq<byte>, seps: seq<byte>, i: nat): seq<seq<byte>>
    requires i <= |s|
    decreases |s| - i
  {
    if i == |s| then []
    else
      var j := PieceEnd(s, seps, i);
      [s[i..j]] + if j < |s| then Pieces(s, seps, j + 1) else []
  }

  /** The separators of s from i on, in order. */
  function Separators(s: seq<byte>, seps: seq<byte>, i: nat): seq<byte>
    requires i <= |s|
    decreases |s| - i
  {
    if i == |s| then [] else (if s[i] in seps then [s[i]] else []) + Separators(s, seps, i + 1)
  }

  /** Pieces and separators in turn. */
  function Weave(pieces: seq<seq<byte>>, marks: seq<byte>): seq<byte> {
    if pieces == [] then []
    else if marks == [] then pieces[0]
    else pieces[0] + [marks[0]] + Weave(pieces[1..], marks[1..])
  }

  /** The end of a piece is the first separator, or the end of the string. */
  lemma {:induction false} PieceEndIs(s: seq<byte>, seps: seq<byte>, i: nat, j: nat)
    requires i <= j <= |s|
    ensures j == PieceEnd(s, seps, i) <==> (forall k | i <= k < j :: s[k] !in seps) && (j < |s| ==> s[j] in seps)
    decreases |s| - i
  {
    if i < |s| && s[i] !in seps && i < j { PieceEndIs(s, seps, i + 1, j); }
  }

  lemma {:induction false} SeparatorsSkip(s: seq<byte>, seps: seq<byte>, i: nat, j: nat)
    requires i <= j <= |s| && forall k | i <= k < j :: s[k] !in seps
    ensures Separators(s, seps, i) == Separators(s, seps, j)
    decreases j - i
  {
    if i < j { SeparatorsSkip(s, seps, i + 1, j); }
  }

  lemma FirstPiece(s: seq<byte>, seps: seq<byte>, i: nat, j: nat)
    requires i < |s| && j == PieceEnd(s, seps, i)
    ensures Pieces(s, seps, i) == [s[i..j]] + if j < |s| then Pieces(s, seps, j + 1) else []
  {
  }

  /** The next piece starts behind the separator. */
  lemma AfterPiece(s: seq<byte>, seps: seq<byte>, i: nat, j: nat, next: nat)
    requires i < |s| && j == PieceEnd(s, seps, i) && next == if j < |s| then j + 1 else j
    ensures Pieces(s, seps, i) == [s[i..j]] + Pieces(s, seps, next)
  {
    FirstPiece(s, seps, i, j);
  }

  lemma FirstSeparator(s: seq<byte>, seps: seq<byte>, i: nat, j: nat)
    requires i <= j <= |s| && (forall k | i <= k < j :: s[k] !in seps) && (j < |s| ==> s[j] in seps)
    ensures Separators(s, seps, i) == if j < |s| then [s[j]] + Separators(s, seps, j + 1) else []
  {
    SeparatorsSkip(s, seps, i, j);
  }

  /** One round: a piece ends at the end of the string, or a separator and the rest follow it. */
  lemma Round(s: seq<byte>, seps: seq<byte>, i: nat) returns (j: nat, ps: seq<seq<byte>>, ms: seq<byte>)
    requires i < |s|
    ensures i <= j <= |s| && j == PieceEnd(s, seps, i)
    ensures (forall k | i <= k < j :: s[k] !in seps) && (j < |s| ==> s[j] in seps)
    ensures Pieces(s, seps, i) == [s[i..j]] + ps
    ensures Separators(s, seps, i) == if j < |s| then [s[j]] + ms else []
    ensures if j < |s| then ps == Pieces(s, seps, j + 1) && ms == Separators(s, seps, j + 1) else ps == []
  {
    j := PieceEnd(s, seps, i);
    PieceEndIs(s, seps, i, j);
    FirstPiece(s, seps, i, j);
    FirstSeparator(s, seps, i, j);
    ps := if j < |s| then Pieces(s, seps, j + 1) else [];
    ms := if j < |s| then Separators(s, seps, j + 1) else [];
  }

  lemma PieceCharacter(s: seq<byte>, seps: seq<byte>, i: nat, j: nat, k: nat)
    requires i <= j <= |s| && j == PieceEnd(s, seps, i) && k < j - i
    ensures s[i..j][k] !in seps
  {
    PieceEndIs(s, seps, i, j);
    assert s[i..j][k] == s[i + k];
  }

  /** Piece z is the first piece, or one of those behind the separator. */
  lemma FirstOrRest(s: seq<byte>, seps: seq<byte>, i: nat, z: nat, p: seq<byte>) returns (j: nat)
    requires i < |s| && z < |Pieces(s, seps, i)| && p == Pieces(s, seps, i)[z]
    ensures i <= j <= |s| && j == PieceEnd(s, seps, i)
    ensures if z == 0 then p == s[i..j]
            else j + 1 < |s| && z - 1 < |Pieces(s, seps, j + 1)| && p == Pieces(s, seps, j + 1)[z - 1]
  {
    j := PieceEnd(s, seps, i);
    FirstPiece(s, seps, i, j);
  }

  /** Every piece is cut out of the string as PieceEnd finds its end. */
  lemma {:induction false} PieceFrom(s: seq<byte>, seps: seq<byte>, i: nat, z: nat, p: seq<byte>)
    returns (a: nat, e: nat)
    requires i < |s| && z < |Pieces(s, seps, i)| && p == Pieces(s, seps, i)[z]
    ensures i <= a <= e <= |s| && e == PieceEnd(s, seps, a) && p == s[a..e]
    decreases z
  {
    var j := FirstOrRest(s, seps, i, z, p);
    if z == 0 {
      a, e := i, j;
    } else {
      a, e := PieceFrom(s, seps, j + 1, z - 1, p);
    }
  }

  /** No piece contains a separator. */
  lemma PiecesHaveNoSeparator(s: seq<byte>, seps: seq<byte>, i: nat, z: nat, k: nat)
    requires i <= |s| && z < |Pieces(s, seps, i)| && k < |Pieces(s, seps, i)[z]|
    ensures Pieces(s, seps, i)[z][k] !in seps
  {
    var a, e := PieceFrom(s, seps, i, z, Pieces(s, seps, i)[z]);
    PieceCharacter(s, seps, a, e, k);
  }

  lemma WeaveStep(p: seq<byte>, ps: seq<seq<byte>>, m: byte, ms: seq<byte>)
    ensures Weave([p] + ps, [m] + ms) == p + [m] + Weave(ps, ms)
    ensures Weave([p], []) == p
  {
    assert ([p] + ps)[1..] == ps && ([m] + ms)[1..] == ms;
  }

  lemma Cut(s: seq<byte>, i: nat, j: nat)
    requires i <= j < |s|
    ensures s[i..] == s[i..j] + [s[j]] + s[j + 1..]
  {
  }

  lemma {:induction false} RebuildFrom(s: seq<byte>, seps: seq<byte>, i: nat, ps: seq<seq<byte>>, ms: seq<byte>)
    requires i <= |s| && ps == Pieces(s, seps, i) && ms == Separators(s, seps, i)
    ensures Weave(ps, ms) == s[i..]
    decreases |s| - i
  {
    if i < |s| {
      var j, rest, marks := Round(s, seps, i);
      if j < |s| {
        RebuildFrom(s, seps, j + 1, rest, marks);
        WeaveStep(s[i..j], rest, s[j], marks);
        assert Weave(ps, ms) == s[i..j] + [s[j]] + s[j + 1..];
        Cut(s, i, j);
      } else {
        assert s[i..j] == s[i..] && ps == [s[i..j]] && ms == [];
        WeaveStep(s[i..j], [], 0, []);
      }
    } else {
      assert s[i..] == [];
    }
  }

  /** Pieces and separators in turn are the string. */
  lemma PiecesRebuild(s: seq<byte>, seps: seq<byte>, i: nat)
    requires i <= |s|
    ensures Weave(Pieces(s, seps, i), Separators(s, seps, i)) == s[i..]
  {
    RebuildFrom(s, seps, i, Pieces(s, seps, i), Separators(s, seps, i));
  }

  lemma {:induction false} CountFrom(s: seq<byte>, seps: seq<byte>, i: nat, ps: seq<seq<byte>>, ms: seq<byte>)
    requires i <= |s| && ps == Pieces(s, seps, i) && ms == Separators(s, seps, i)
    ensures |ps| == |ms| + if i < |s| && s[|s| - 1] !in seps then 1 else 0
    decreases |s| - i
  {
    if i < |s| {
      var j, rest, marks := Round(s, seps, i);
      if j < |s| { CountFrom(s, seps, j + 1, rest, marks); }
    }
  }

  /** There is one piece more than separators exactly when something is left and it does not end in a
      separator. */
  lemma PieceCount(s: seq<byte>, seps: seq<byte>, i: nat)
    requires i <= |s|
    ensures |Pieces(s, seps, i)| == |Separators(s, seps, i)| + if i < |s| && s[|s| - 1] !in seps then 1 else 0
  {
    CountFrom(s, seps, i, Pieces(s, seps, i), Separators(s, seps, i));
  }

  /** Row z of the slots holds this string. */
  ghost predicate SlotHolds(slots: array2<byte>, z: nat, p: seq<byte>)
    requires z < slots.Length0
    reads slots
  {
    |p| < slots.Length1 && slots[z, |p|] == 0 && forall k | 0 <= k < |p| :: slots[z, k] == p[k]
  }

  /** Every piece fits a slot, and a slot is left for the end mark. */
  ghost predicate Fit(pieces: seq<seq<byte>>, slots: array2<byte>) {
    |pieces| < slots.Length0 && 0 < slots.Length1 &&
    forall z | 0 <= z < |pieces| :: |pieces[z]| < slots.Length1
  }

  lemma DropHead<T>(all: seq<T>, n: nat, head: T, tail: seq<T>)
    requires n <= |all| && all[n..] == [head] + tail
    ensures n < |all| && all[n] == head && all[n + 1..] == tail
  {
    assert all[n..][0] == head && all[n..][1..] == tail;
  }

  method StrSplit(s: seq<byte>, slots: array2<byte>, separator: seq<byte>) returns (n: nat)
    requires IsString(s) && IsString(separator) && |s| < 0x1_0000 && |separator| < 0x8000
    requires Fit(Pieces(s, separator, 0), slots)
    modifies slots
    ensures n == |Pieces(s, separator, 0)|
    ensures forall z | 0 <= z < n :: SlotHolds(slots, z, Pieces(s, separator, 0)[z])
    ensures SlotHolds(slots, n, [])
  {
    var i := 0;
    n := 0;
    ghost var all := Pieces(s, separator, 0);
    while At(s, i) != 0
      invariant i <= |s| && n <= |all| && Pieces(s, separator, i) == all[n..]
      invariant forall z | 0 <= z < n :: SlotHolds(slots, z, all[z])
      decreases |s| - i
    {
      var j := FindSeparator(s, separator, i);
      i := CopyPiece(s, slots, n, i, j, all, separator);
      n := n + 1;
    }
    slots[n, 0] := 0;
  }

  /** The body of the loop of strsplit: slot n gets the piece from i to j. */
  method CopyPiece(s: seq<byte>, slots: array2<byte>, n: nat, i0: nat, j: nat, ghost all: seq<seq<byte>>,
                   ghost separator: seq<byte>) returns (i: nat)
    requires IsString(s) && i0 < |s| && j == PieceEnd(s, separator, i0)
    requires n <= |all| && Pieces(s, separator, i0) == all[n..] && Fit(all, slots)
    modifies slots
    ensures i0 < i <= |s| && n < |all| && Pieces(s, separator, i) == all[n + 1..]
    ensures SlotHolds(slots, n, all[n])
    ensures forall y: nat, p | y < slots.Length0 && y != n && old(SlotHolds(slots, y, p)) :: SlotHolds(slots, y, p)
  {
    i := if At(s, j) != 0 then j + 1 else j;
    AfterPiece(s, separator, i0, j, i);
    DropHead(all, n, s[i0..j], Pieces(s, separator, i));
    PutPiece(slots, n, s[i0..j]);
  }

  /** The search for the next separator. */
  method FindSeparator(s: seq<byte>, separator: seq<byte>, i: nat) returns (j: nat)
    requires IsString(s) && IsString(separator) && |separator| < 0x8000 && i <= |s|
    ensures j == PieceEnd(s, separator, i)
  {
    j := i;
    while At(s, j) != 0
      invariant i <= j <= |s|
      invariant forall k | i <= k < j :: s[k] !in separator
      decreases |s| - j
    {
      var at := StrContains(separator, s[j]);
      if at != -1 {
        break;
      }
      j := j + 1;
    }
    PieceEndIs(s, separator, i, j);
  }

  /** The memcpy of a piece into its slot, and its NUL. */
  method PutPiece(slots: array2<byte>, z: nat, piece: seq<byte>)
    requires z < slots.Length0 && |piece| < slots.Length1
    modifies slots
    ensures SlotHolds(slots, z, piece)
    ensures forall y: nat, p | y < slots.Length0 && y != z && old(SlotHolds(slots, y, p)) :: SlotHolds(slots, y, p)
  {
    for k := 0 to |piece|
      invariant forall m | 0 <= m < k :: slots[z, m] == piece[m]
      invariant forall y, m | 0 <= y < slots.Length0 && y != z && 0 <= m < slots.Length1 ::
                  slots[y, m] == old(slots[y, m])
    {
      slots[z, k] := piece[k];
    }
    slots[z, |piece|] := 0;
  }
}
