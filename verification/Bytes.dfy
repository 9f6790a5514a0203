/** C characters, machine integers, disk sectors and NUL-terminated strings. A string is the sequence of
    its bytes before the NUL. */
module Bytes {
  type byte = x: nat | x < 256

  type Sector = s: seq<byte> | |s| == 512 witness seq(512, _ => 0)

  datatype Option<+T> = None | Some(value: T)

  predicate Int32(n: int) { -0x8000_0000 <= n < 0x8000_0000 }

  predicate Int64(n: int) { -0x8000_0000_0000_0000 <= n < 0x8000_0000_0000_0000 }

  ghost predicate IsString(s: seq<byte>) {
    forall i | 0 <= i < |s| :: s[i] != 0
  }

  /** s[i] in C, for i up to the terminator. */
  function At(s: seq<byte>, i: nat): byte {
    if i < |s| then s[i] else 0
  }

  function Reverse(s: seq<byte>): (r: seq<byte>)
    ensures |r| == |s|
  {
    if s == [] then [] else Reverse(s[1..]) + [s[0]]
  }

  lemma {:induction false} ReverseAt(s: seq<byte>, k: nat)
    requires k < |s|
    ensures Reverse(s)[k] == s[|s| - 1 - k]
  {
    if k < |s| - 1 { ReverseAt(s[1..], k); }
  }

  lemma {:induction false} ReverseConcat(s: seq<byte>, t: seq<byte>)
    ensures Reverse(s + t) == Reverse(t) + Reverse(s)
  {
    if s == [] {
      assert s + t == t;
    } else {
      assert (s + t)[1..] == s[1..] + t;
      ReverseConcat(s[1..], t);
    }
  }

  function Repeat(c: byte, n: int): (r: seq<byte>)
    ensures |r| == if n < 0 then 0 else n
  {
    if n <= 0 then [] else [c] + Repeat(c, n - 1)
  }

  lemma {:induction false} RepeatAt(c: byte, n: int, i: nat)
    requires i < n
    ensures Repeat(c, n)[i] == c
  {
    if i > 0 { RepeatAt(c, n - 1, i - 1); }
  }
}
