/** Byte strings, as PHP strings hold them: `strlen` counts bytes, not characters. */
module Bytes {

  newtype byte = b: int | 0 <= b < 256

  type Bytes = seq<byte>

  predicate IsAscii(s: string) {
    forall i | 0 <= i < |s| :: s[i] as int < 128
  }

  /** The bytes of an ASCII literal, one byte per character. */
  function Ascii(s: string): (r: Bytes)
    requires IsAscii(s)
    ensures |r| == |s|
    ensures forall i | 0 <= i < |s| :: r[i] as int == s[i] as int
  {
    seq(|s|, i requires 0 <= i < |s| => s[i] as int as byte)
  }

  /** `n` copies of the byte `b` (PHP `str_repeat` of a one-byte string). */
  function Repeat(b: byte, n: nat): (r: Bytes)
    ensures |r| == n
    ensures forall i | 0 <= i < n :: r[i] == b
  {
    if n == 0 then [] else [b] + Repeat(b, n - 1)
  }

  /** `e` occurs in `s` starting at offset `i`. */
  predicate OccursAt(s: Bytes, i: nat, e: Bytes) {
    i + |e| <= |s| && s[i..i + |e|] == e
  }

  lemma OccursAtShift(a: Bytes, b: Bytes, i: nat, e: Bytes)
    requires OccursAt(b, i, e)
    ensures OccursAt(a + b, |a| + i, e)
  {
    assert (a + b)[|a| + i..|a| + i + |e|] == b[i..i + |e|];
  }

  lemma OccursAtUnshift(a: Bytes, b: Bytes, i: nat, e: Bytes)
    requires OccursAt(a + b, |a| + i, e)
    ensures OccursAt(b, i, e)
  {
    assert (a + b)[|a| + i..|a| + i + |e|] == b[i..i + |e|];
  }
}
