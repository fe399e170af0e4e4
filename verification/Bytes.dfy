/** Bytes, byte strings and the little-endian integers that USB descriptors and RIFF files are made of. */
module Bytes {

  type Byte = b: int | 0 <= b < 256

  datatype Option<+T> = None | Some(value: T)

  const TWO_32: int := 0x1_0000_0000

  /** The value of four bytes, least significant byte first. */
  function FromLe32(b: seq<Byte>): (v: nat)
    requires |b| == 4
    ensures v < TWO_32
  {
    (b[0] as int) + 0x100 * (b[1] as int) + 0x1_0000 * (b[2] as int) + 0x100_0000 * (b[3] as int)
  }

  /** The low 32 bits of `v`, least significant byte first. */
  function Le32(v: int): (b: seq<Byte>)
    ensures |b| == 4
  {
    [v % 0x100, v / 0x100 % 0x100, v / 0x1_0000 % 0x100, v / 0x100_0000 % 0x100]
  }

  lemma Le32RoundTrip(v: int)
    ensures FromLe32(Le32(v)) == v % TWO_32
  {
    var q0, q1, q2 := v / 0x100, v / 0x1_0000, v / 0x100_0000;
    assert q1 == q0 / 0x100 && q2 == q1 / 0x100;
    assert v == 0x100 * q0 + v % 0x100;
    assert q0 == 0x100 * q1 + q0 % 0x100;
    assert q1 == 0x100 * q2 + q1 % 0x100;
    assert q2 == 0x100 * (q2 / 0x100) + q2 % 0x100;
    var low := v % 0x100 + 0x100 * (q0 % 0x100) + 0x1_0000 * (q1 % 0x100) + 0x100_0000 * (q2 % 0x100);
    assert v == TWO_32 * (q2 / 0x100) + low && 0 <= low < TWO_32;
  }

  lemma Le32Injective(b: seq<Byte>)
    requires |b| == 4
    ensures Le32(FromLe32(b)) == b
  {
    var v := FromLe32(b);
    var b1: int, b2: int, b3: int := b[1], b[2], b[3];
    assert v / 0x100 == b1 + 0x100 * b2 + 0x1_0000 * b3;
    assert v / 0x1_0000 == b2 + 0x100 * b3;
    assert v / 0x100_0000 == b3;
  }

  /** memcpy: copies `n` bytes between two buffers. */
  method CopyBytes(dst: array<Byte>, at: nat, src: array<Byte>, from: nat, n: nat)
    requires dst != src
    requires at + n <= dst.Length && from + n <= src.Length
    modifies dst
    ensures dst[at..at + n] == src[from..from + n]
    ensures dst[..at] == old(dst[..at])
    ensures dst[at + n..] == old(dst[at + n..])
  {
    for i := 0 to n
      invariant dst[at..at + i] == src[from..from + i]
      invariant dst[..at] == old(dst[..at])
      invariant dst[at + i..] == old(dst[at + i..])
    {
      dst[at + i] := src[from + i];
      assert dst[at..at + i + 1] == dst[at..at + i] + [dst[at + i]];
      assert dst[at + i + 1..] == dst[at + i..][1..];
    }
  }
}
