/** The segment descriptor of src/gdt.cpp: eight bytes holding a 32-bit base and a limit squeezed
    to 20 bits. The shifts and masks of the source act on disjoint bit fields, so they are written
    as divisions, remainders and sums. */
module SegmentDescriptors {
  import opened Words

  /** Largest limit stored byte for byte; anything above is stored in 4 KiB pages. */
  const BYTE_GRANULAR_MAX := 65536

  /** Low twelve bits all ones: the only large limits that page granularity can express. */
  predicate EndsOnPage(limit: Word) { limit % 4096 == 4095 }

  /** The 20-bit value the constructor stores. */
  function Squeezed(limit: Word): (l: Word)
    ensures l < 0x10_0000
  {
    if limit <= BYTE_GRANULAR_MAX then limit
    else if !EndsOnPage(limit) then limit / 4096 - 1
    else limit / 4096
  }

  /** The descriptor's bytes in memory order. */
  function Encode(base: Word, limit: Word, kind: Byte): (d: seq<Byte>)
    ensures |d| == 8
  {
    var l := Squeezed(limit);
    var flags := if limit <= BYTE_GRANULAR_MAX then 0x40 else 0xC0;
    [ByteAt(l, 0), ByteAt(l, 1), ByteAt(base, 0), ByteAt(base, 1), ByteAt(base, 2),
     kind, flags + l / 65536 % 16, ByteAt(base, 3)]
  }

  function BaseOf(d: seq<Byte>): Word
    requires |d| == 8
  {
    FromBytes(d[2], d[3], d[4], d[7])
  }

  function LimitOf(d: seq<Byte>): Word
    requires |d| == 8
  {
    var r: Word := FromBytes(d[0], d[1], d[6] % 16, 0);
    if d[6] / 64 == 3 then r * 4096 + 4095 else r
  }

  class SegmentDescriptor {
    const target: array<Byte>

    constructor (base: Word, limit: Word, kind: Byte)
      ensures target.Length == 8 && fresh(target)
      ensures target[..] == Encode(base, limit, kind)
    {
      var t := new Byte[8];
      target := t;
      var l := limit;
      if l <= BYTE_GRANULAR_MAX {
        t[6] := 0x40;
      } else {
        if l % 4096 != 4095 {
          l := l / 4096 - 1;
        } else {
          l := l / 4096;
        }
        t[6] := 0xC0;
      }
      t[0] := l % 256;
      t[1] := l / 256 % 256;
      t[6] := t[6] + l / 65536 % 16;
      t[2] := base % 256;
      t[3] := base / 256 % 256;
      t[4] := base / 65536 % 256;
      t[7] := base / 16777216 % 256;
      t[5] := kind;
    }

    method Base() returns (result: Word)
      requires target.Length == 8
      ensures result == BaseOf(target[..])
    {
      result := target[7];
      result := result * 256 + target[4];
      result := result * 256 + target[3];
      result := result * 256 + target[2];
    }

    method Limit() returns (result: Word)
      requires target.Length == 8
      ensures result == LimitOf(target[..])
    {
      result := target[6] % 16;
      result := result * 256 + target[1];
      result := result * 256 + target[0];
      if target[6] / 64 == 3 {
        result := result * 4096 + 4095;
      }
    }
  }

  lemma BaseRoundTrip(base: Word, limit: Word, kind: Byte)
    ensures BaseOf(Encode(base, limit, kind)) == base
    ensures Encode(base, limit, kind)[5] == kind
  {
    BytesRoundTrip(base);
  }

  /** The encoding field by field, as the processor lays it out: the base in bytes 2, 3, 4 and 7, the limit in
      bytes 0, 1 and half of 6, in pages less one if it is not counted in bytes, the flags in the other half. */
  lemma EncodeLayout(base: Word, limit: Word, kind: Byte)
    ensures var d := Encode(base, limit, kind);
            && FieldOf(d[2], d[3], d[4], d[7]) == base && d[5] == kind
            && d[6] / 16 == (if limit <= 65536 then 4 else 12)
            && FieldOf(d[0], d[1], d[6] % 16, 0) == if limit <= 65536 then limit else (limit + 1) / 4096 - 1
  {
    BytesRoundTrip(base);
    var l: int := Squeezed(limit);
    TwentyBitsRoundTrip(l);
    var flags := if limit <= BYTE_GRANULAR_MAX then 0x40 else 0xC0;
    var hi: int := l / 65536 % 16;
    assert Encode(base, limit, kind)[6] == flags + hi;
    assert (flags + hi) / 16 == flags / 16 && (flags + hi) % 16 == hi;
    SqueezedIs(limit);
  }

  lemma SqueezedIs(limit: Word)
    ensures Squeezed(limit) == if limit <= 65536 then limit else (limit + 1) / 4096 - 1
  {
  }

  /** Decoding any eight bytes: the same fields, the limit scaled only if both high flags are set. */
  lemma DecodeLayout(d: seq<Byte>)
    requires |d| == 8
    ensures BaseOf(d) == FieldOf(d[2], d[3], d[4], d[7])
    ensures var l := FieldOf(d[0], d[1], d[6] % 16, 0);
            LimitOf(d) == if d[6] >= 192 then (l + 1) * 4096 - 1 else l
  {
  }

  /** Four bytes, least significant first. */
  function FieldOf(b0: int, b1: int, b2: int, b3: int): int { b0 + 256 * b1 + 65536 * b2 + 16777216 * b3 }

  lemma TwentyBitsRoundTrip(l: Word)
    requires l < 0x10_0000
    ensures FromBytes(ByteAt(l, 0), ByteAt(l, 1), l / 65536 % 16, 0) == l
  {
    var hi: int, rest: int := l / 65536, l % 65536;
    assert hi < 16 && l == 65536 * hi + rest;
    assert rest == rest % 256 + 256 * (rest / 256) && rest % 256 == l % 256 && rest / 256 == l / 256 % 256;
  }

  /** The granularity flag written for a limit selects the matching way of decoding it. */
  lemma LimitDecoded(base: Word, limit: Word, kind: Byte)
    ensures LimitOf(Encode(base, limit, kind)) ==
            if limit <= BYTE_GRANULAR_MAX then limit else Squeezed(limit) * 4096 + 4095
  {
    var l := Squeezed(limit);
    TwentyBitsRoundTrip(l);
    var flags := if limit <= BYTE_GRANULAR_MAX then 0x40 else 0xC0;
    var d := Encode(base, limit, kind);
    var hi := l / 65536 % 16;
    assert d[6] == flags + hi && 0 <= hi < 16;
    assert d[6] % 16 == hi;
    assert d[6] / 64 == 3 <==> limit > BYTE_GRANULAR_MAX;
    assert FromBytes(d[0], d[1], d[6] % 16, 0) == l;
  }

  /** The decoded limit: never more than asked, short by less than a page, and exact precisely for
      the limits the constructor's branches can represent. */
  lemma LimitRoundTrip(base: Word, limit: Word, kind: Byte)
    ensures var got := LimitOf(Encode(base, limit, kind));
            && got <= limit
            && limit - got <= 4095
            && (got == limit <==> limit <= BYTE_GRANULAR_MAX || EndsOnPage(limit))
  {
    LimitDecoded(base, limit, kind);
  }

  /** Decoding lands on a representable limit, so encoding again loses nothing. */
  lemma ReencodeIsStable(base: Word, limit: Word, kind: Byte)
    ensures var got := LimitOf(Encode(base, limit, kind));
            LimitOf(Encode(base, got, kind)) == got
  {
    LimitRoundTrip(base, limit, kind);
    LimitDecoded(base, limit, kind);
    var got := LimitOf(Encode(base, limit, kind));
    assert got <= BYTE_GRANULAR_MAX || EndsOnPage(got);
    LimitRoundTrip(base, got, kind);
  }

  /** Among the limits a descriptor can express, the decoded one is the greatest not above the request. */
  lemma LimitIsTightest(base: Word, limit: Word, kind: Byte, other: Word)
    requires other <= limit
    requires other <= BYTE_GRANULAR_MAX || EndsOnPage(other)
    ensures limit > BYTE_GRANULAR_MAX && other > LimitOf(Encode(base, limit, kind)) ==> other == BYTE_GRANULAR_MAX
    ensures limit <= BYTE_GRANULAR_MAX ==> other <= LimitOf(Encode(base, limit, kind))
  {
    LimitDecoded(base, limit, kind);
    if limit > BYTE_GRANULAR_MAX && EndsOnPage(other) {
      var pages: int := other / 4096;
      assert other == pages * 4096 + 4095;
    }
  }
}
