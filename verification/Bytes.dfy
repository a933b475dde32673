/** Bytes and 32-bit big-endian numbers. */
module Bytes {
  newtype Byte = b: int | 0 <= b < 256

  const TWO32 := 0x1_0000_0000

  /** The number in four big-endian bytes. Where the source or-s shifted bytes, their bits are
      disjoint, so or-ing adds them. */
  function Uint32(b: seq<Byte>): nat
    requires |b| == 4
  {
    b[0] as int * 0x100_0000 + b[1] as int * 0x1_0000 + b[2] as int * 0x100 + b[3] as int
  }

  function BigEndian(n: nat): (r: seq<Byte>)
    requires n < TWO32
    ensures |r| == 4
  {
    [(n / 0x100_0000) as Byte, (n / 0x1_0000 % 0x100) as Byte, (n / 0x100 % 0x100) as Byte, (n % 0x100) as Byte]
  }

  lemma {:induction false} Uint32OfBigEndian(n: nat)
    requires n < TWO32
    ensures Uint32(BigEndian(n)) == n
  {
    assert n / 0x1_0000 == n / 0x100_0000 * 0x100 + n / 0x1_0000 % 0x100;
    assert n / 0x100 == n / 0x1_0000 * 0x100 + n / 0x100 % 0x100;
  }

  lemma {:induction false} BigEndianOfUint32(b: seq<Byte>)
    requires |b| == 4
    ensures Uint32(b) < TWO32
    ensures BigEndian(Uint32(b)) == b
  {
    var n := Uint32(b);
    assert n / 0x100 == b[0] as int * 0x1_0000 + b[1] as int * 0x100 + b[2] as int;
    assert n / 0x1_0000 == b[0] as int * 0x100 + b[1] as int;
    assert n / 0x100_0000 == b[0] as int;
  }

  /** The first byte is the most significant one. */
  lemma {:induction false} Uint32Means(a: Byte, b: Byte, c: Byte, d: Byte)
    ensures Uint32([a, b, c, d]) == ((a as int * 256 + b as int) * 256 + c as int) * 256 + d as int
  {
  }
}
