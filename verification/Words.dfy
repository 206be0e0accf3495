/** Fixed-width unsigned integers of the i386 target, as ranges of `int`. */
module Words {
  const TWO32: int := 0x1_0000_0000

  type Byte = b: int | 0 <= b < 256
  type Half = h: int | 0 <= h < 65536
  type Word = w: int | 0 <= w < 0x1_0000_0000

  /** The value left in a 32-bit register by an arithmetic result. */
  function Wrap(x: int): (w: Word)
    ensures 0 <= x < TWO32 ==> w == x
  {
    x % TWO32
  }

  /** Distances below 2^32 survive the wrap-around. */
  lemma WrapInjective(base: int, x: int, y: int)
    requires 0 <= x < TWO32 && 0 <= y < TWO32
    requires Wrap(base + x) == Wrap(base + y)
    ensures x == y
  {
  }

  lemma WrapAdd(x: int, y: int)
    ensures Wrap(Wrap(x) + y) == Wrap(x + y)
  {
  }

  /** Little-endian composition, as the target loads a 32-bit word. */
  function FromBytes(b0: Byte, b1: Byte, b2: Byte, b3: Byte): Word {
    b0 + 256 * b1 + 65536 * b2 + 16777216 * b3
  }

  function ByteAt(w: Word, k: nat): Byte
    requires k < 4
  {
    if k == 0 then w % 256
    else if k == 1 then w / 256 % 256
    else if k == 2 then w / 65536 % 256
    else w / 16777216 % 256
  }

  lemma BytesRoundTrip(w: Word)
    ensures FromBytes(ByteAt(w, 0), ByteAt(w, 1), ByteAt(w, 2), ByteAt(w, 3)) == w
  {
    assert w / 256 == 256 * (w / 65536) + w / 256 % 256;
    assert w / 65536 == 256 * (w / 16777216) + w / 65536 % 256;
  }

  /** The four bytes of a word are determined by it. */
  lemma BytesInjective(a0: Byte, a1: Byte, a2: Byte, a3: Byte, b0: Byte, b1: Byte, b2: Byte, b3: Byte)
    requires FromBytes(a0, a1, a2, a3) == FromBytes(b0, b1, b2, b3)
    ensures a0 == b0 && a1 == b1 && a2 == b2 && a3 == b3
  {
    var d1: int, d2: int, d3: int := b1 - a1, b2 - a2, b3 - a3;
    var k1: int, k2: int := d1 + 256 * (d2 + 256 * d3), d2 + 256 * d3;
    assert a0 - b0 == 256 * k1;
    assert k1 == 0;
    assert d1 == -256 * k2;
    assert k2 == 0;
  }

  /** The 16-bit and 32-bit values at an offset, as the little-endian target loads them. */
  function LoadHalf(b: seq<Byte>, at: nat): Half
    requires at + 2 <= |b|
  {
    var lo: int, hi: int := b[at], b[at + 1];
    lo + 256 * hi
  }

  function Load(b: seq<Byte>, at: nat): Word
    requires at + 4 <= |b|
  {
    FromBytes(b[at], b[at + 1], b[at + 2], b[at + 3])
  }
}
