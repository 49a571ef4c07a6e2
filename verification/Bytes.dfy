/**
  Bytes, runs of zeros, replacing a part of a byte string, and little-endian words.
 */
module Bytes {

  type byte = x: int | 0 <= x < 256

  type Sector = seq<byte>

  const TWO_TO_THE_32: int := 0x1_0000_0000

  function Zeros(n: nat): (s: seq<byte>)
    ensures |s| == n && forall i :: 0 <= i < n ==> s[i] == 0
  {
    seq<byte>(n, _ => 0)
  }

  /** b with the bytes from i up to j replaced by c, which may be longer or shorter. */
  function Spliced(b: seq<byte>, i: nat, j: nat, c: seq<byte>): (r: seq<byte>)
    requires i <= j <= |b|
    ensures |r| == |b| - (j - i) + |c|
  {
    b[..i] + c + b[j..]
  }

  /** The word stored at offset o, least significant byte first. */
  function WordAt(b: seq<byte>, o: nat): int
    requires o + 4 <= |b|
  {
    b[o] as int + b[o + 1] as int * 0x100 + b[o + 2] as int * 0x10000 + b[o + 3] as int * 0x1000000
  }

  function Packed(v: int): (b: seq<byte>)
    requires 0 <= v < TWO_TO_THE_32
    ensures |b| == 4
  {
    [v % 0x100, v / 0x100 % 0x100, v / 0x10000 % 0x100, v / 0x1000000]
  }

  /** A word read back is the word written, wherever it was put. */
  lemma WordOfPacked(v: int, b: seq<byte>, o: nat)
    requires 0 <= v < TWO_TO_THE_32
    requires o + 4 <= |b| && b[o..o + 4] == Packed(v)
    ensures WordAt(b, o) == v
  {
    forall i | 0 <= i < 4
      ensures b[o + i] == Packed(v)[i]
    {
      assert b[o..o + 4][i] == b[o + i];
    }
    var w := v / 0x100;
    var x := w / 0x100;
    assert v / 0x10000 == x && v / 0x1000000 == x / 0x100;
    assert v == v % 0x100 + 0x100 * w && w == w % 0x100 + 0x100 * x && x == x % 0x100 + 0x100 * (x / 0x100);
  }

  /** The four bytes at offset o are those of the word v, the least significant one first. */
  predicate IsWord(b: seq<byte>, o: nat, v: int) {
    && o + 4 <= |b|
    && b[o] == v % 0x100 && b[o + 1] == v / 0x100 % 0x100
    && b[o + 2] == v / 0x10000 % 0x100 && b[o + 3] == v / 0x1000000
  }

  /** What the bytes of a word are. */
  lemma WordBytes(b: seq<byte>, o: nat)
    requires o + 4 <= |b|
    ensures IsWord(b, o, WordAt(b, o))
  {
    var x := b[o + 2] as int + 0x100 * b[o + 3] as int;
    var w := b[o + 1] as int + 0x100 * x;
    var v := b[o] as int + 0x100 * w;
    assert WordAt(b, o) == v && v / 0x100 == w && w / 0x100 == x && x / 0x100 == b[o + 3] as int;
    assert v / 0x10000 == x && v / 0x1000000 == b[o + 3] as int;
  }

  lemma SameDigits(a: byte, p: int, b: byte, q: int)
    requires a as int + 0x100 * p == b as int + 0x100 * q
    ensures a == b && p == q
  {
  }

  /** Four bytes are determined by the word they make. */
  lemma SameWord(b: seq<byte>, c: seq<byte>)
    requires |b| == |c| == 4 && WordAt(b, 0) == WordAt(c, 0)
    ensures b == c
  {
    SameDigits(b[0], b[1] as int + 0x100 * b[2] as int + 0x10000 * b[3] as int,
               c[0], c[1] as int + 0x100 * c[2] as int + 0x10000 * c[3] as int);
    SameDigits(b[1], b[2] as int + 0x100 * b[3] as int, c[1], c[2] as int + 0x100 * c[3] as int);
    SameDigits(b[2], b[3] as int, c[2], c[3] as int);
  }
}
