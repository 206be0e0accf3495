/** Segments as bytes: the header layout, its byte orders, and the checksum over the pseudo header. */
module TcpWire {
  import opened Words
  import opened InternetChecksums
  import opened TcpEndpoints

  const HEADER_SIZE := 24
  const PSEUDO_SIZE := 12

  /** `bigEndian32`. */
  function BigEndian32(x: Word): Word {
    FromBytes(ByteAt(x, 3), ByteAt(x, 2), ByteAt(x, 1), ByteAt(x, 0))
  }

  function Bytes32(w: Word): (b: seq<Byte>)
    ensures |b| == 4
  {
    [ByteAt(w, 0), ByteAt(w, 1), ByteAt(w, 2), ByteAt(w, 3)]
  }

  function Bytes16(h: Half): (b: seq<Byte>)
    ensures |b| == 2
  {
    [h % 256, h / 256]
  }

  /** Maximum segment size 1460, the one option written, and only with a SYN. */
  function Options(flags: bv8): Word { if flags & SYN != 0 then 0xB405_0402 else 0 }

  /** The header: ports as stored, numbers through bigEndian32, window 0xFFFF, no urgent data. */
  function Header(m: Segment, checksum: Half): (b: seq<Byte>)
    ensures |b| == HEADER_SIZE
  {
    Bytes16(m.srcPort) + Bytes16(m.dstPort) + Bytes32(BigEndian32(m.seqNo)) + Bytes32(BigEndian32(m.ackNo))
    + [HEADER_WORDS * 16, m.flags as int] + [0xFF, 0xFF] + Bytes16(checksum) + [0, 0] + Bytes32(Options(m.flags))
  }

  function PseudoHeader(m: Segment): (b: seq<Byte>)
    requires |m.payload| + HEADER_SIZE < 65536
    ensures |b| == PSEUDO_SIZE
  {
    Bytes32(m.srcIP) + Bytes32(m.dstIP) + Bytes16(0x0600) + Bytes16(SwapHalf(|m.payload| + HEADER_SIZE))
  }

  /** The checksummed buffer with a given checksum field. */
  function Summed(m: Segment, checksum: Half): (b: seq<Byte>)
    requires |m.payload| + HEADER_SIZE < 65536
    ensures |b| == PSEUDO_SIZE + HEADER_SIZE + |m.payload|
  {
    PseudoHeader(m) + Header(m, checksum) + m.payload
  }

  function ChecksumOf(m: Segment): Half
    requires |m.payload| + HEADER_SIZE < 65536
  {
    InternetChecksum(Summed(m, 0))
  }

  /** What the provider hands to IP. */
  function Wire(m: Segment): (b: seq<Byte>)
    requires |m.payload| + HEADER_SIZE < 65536
    ensures |b| == HEADER_SIZE + |m.payload|
  {
    Header(m, ChecksumOf(m)) + m.payload
  }

  /** What the provider reads out of an IP payload: only the first fourteen bytes of the header. */
  function Parse(b: seq<Byte>, srcIP: Word, dstIP: Word): Segment
    requires |b| >= 20 && b[12] / 16 * 4 <= |b|
  {
    Segment(srcIP, dstIP, LoadHalf(b, 0), LoadHalf(b, 2), BigEndian32(Load(b, 4)), BigEndian32(Load(b, 8)),
            b[12] / 16, b[13] as bv8, b[b[12] / 16 * 4..])
  }

  lemma BigEndianInvolutive(x: Word)
    ensures BigEndian32(BigEndian32(x)) == x
  {
    BytesRoundTrip(BigEndian32(x));
    BytesRoundTrip(x);
    var y := BigEndian32(x);
    BytesInjective(ByteAt(y, 0), ByteAt(y, 1), ByteAt(y, 2), ByteAt(y, 3),
                   ByteAt(x, 3), ByteAt(x, 2), ByteAt(x, 1), ByteAt(x, 0));
  }

  lemma HeaderFields(m: Segment, checksum: Half)
    ensures var h := Header(m, checksum);
            && h[0..2] == Bytes16(m.srcPort) && h[2..4] == Bytes16(m.dstPort)
            && h[4..8] == Bytes32(BigEndian32(m.seqNo)) && h[8..12] == Bytes32(BigEndian32(m.ackNo))
            && h[12] == 96 && h[13] == m.flags as int
  {
  }

  /** Parsing what was written, behind any zero padding, gives the segment back with its padding. */
  lemma WireRoundTrip(m: Segment, pad: nat)
    requires |m.payload| + HEADER_SIZE < 65536 && m.headerWords == HEADER_WORDS
    ensures var b := Wire(m) + Zeros(pad);
            && |b| >= 20 && b[12] / 16 * 4 <= |b|
            && Parse(b, m.srcIP, m.dstIP) == m.(payload := m.payload + Zeros(pad))
  {
    HeaderFields(m, ChecksumOf(m));
    ParseBehind(Header(m, ChecksumOf(m)), m, pad);
  }

  lemma ParseBehind(h: seq<Byte>, m: Segment, pad: nat)
    requires |h| == HEADER_SIZE && m.headerWords == HEADER_WORDS
    requires h[0..2] == Bytes16(m.srcPort) && h[2..4] == Bytes16(m.dstPort)
    requires h[4..8] == Bytes32(BigEndian32(m.seqNo)) && h[8..12] == Bytes32(BigEndian32(m.ackNo))
    requires h[12] == 96 && h[13] == m.flags as int
    ensures var b := h + m.payload + Zeros(pad);
            && |b| >= 20 && b[12] / 16 * 4 <= |b|
            && Parse(b, m.srcIP, m.dstIP) == m.(payload := m.payload + Zeros(pad))
  {
    var b := h + m.payload + Zeros(pad);
    FieldsRoundTrip(b, h, m);
    assert b[HEADER_SIZE..] == m.payload + Zeros(pad);
  }

  lemma FieldsRoundTrip(b: seq<Byte>, h: seq<Byte>, m: Segment)
    requires |h| == HEADER_SIZE <= |b| && forall i :: 0 <= i < HEADER_SIZE ==> b[i] == h[i]
    requires h[0..2] == Bytes16(m.srcPort) && h[2..4] == Bytes16(m.dstPort)
    requires h[4..8] == Bytes32(BigEndian32(m.seqNo)) && h[8..12] == Bytes32(BigEndian32(m.ackNo))
    requires h[12] == 96 && h[13] == m.flags as int
    ensures LoadHalf(b, 0) == m.srcPort && LoadHalf(b, 2) == m.dstPort
    ensures BigEndian32(Load(b, 4)) == m.seqNo && BigEndian32(Load(b, 8)) == m.ackNo
    ensures b[12] / 16 == HEADER_WORDS && b[13] as bv8 == m.flags
  {
    HalfFrom(b, h, 0, m.srcPort);
    HalfFrom(b, h, 2, m.dstPort);
    WordFrom(b, h, 4, BigEndian32(m.seqNo));
    WordFrom(b, h, 8, BigEndian32(m.ackNo));
    BigEndianInvolutive(m.seqNo);
    BigEndianInvolutive(m.ackNo);
    FlagsRoundTrip(m.flags);
  }

  lemma FlagsRoundTrip(f: bv8)
    ensures 0 <= f as int < 256 && (f as int) as bv8 == f
  {
  }

  lemma HalfFrom(b: seq<Byte>, h: seq<Byte>, at: nat, v: Half)
    requires at + 2 <= |h| <= |b| && (forall i :: 0 <= i < |h| ==> b[i] == h[i]) && h[at..at + 2] == Bytes16(v)
    ensures LoadHalf(b, at) == v
  {
  }

  lemma WordFrom(b: seq<Byte>, h: seq<Byte>, at: nat, w: Word)
    requires at + 4 <= |h| <= |b| && (forall i :: 0 <= i < |h| ==> b[i] == h[i]) && h[at..at + 4] == Bytes32(w)
    ensures Load(b, at) == w
  {
    var s := h[at..at + 4];
    assert b[at] == s[0] && b[at + 1] == s[1] && b[at + 2] == s[2] && b[at + 3] == s[3];
    BytesRoundTrip(w);
  }

  /** The checksum occupies bytes 16 and 17 of the header and nothing else depends on it. */
  lemma ChecksumField(m: Segment, c: Half)
    ensures var h, h0 := Header(m, c), Header(m, 0);
            && h[16] == c % 256 && h[17] == c / 256 && h0[16] == 0 && h0[17] == 0
            && h[..16] == h0[..16] && h[18..] == h0[18..]
  {
  }

  lemma StoreInMiddle(p: seq<Byte>, h0: seq<Byte>, h: seq<Byte>, d: seq<Byte>, c: Half)
    requires |p| == PSEUDO_SIZE && |h0| == |h| == HEADER_SIZE
    requires h[16] == c % 256 && h[17] == c / 256 && h[..16] == h0[..16] && h[18..] == h0[18..]
    ensures StoreHalf(p + h0 + d, 14, c) == p + h + d
  {
  }

  lemma VerifiesAround(p: seq<Byte>, h0: seq<Byte>, h: seq<Byte>, d: seq<Byte>, c: Half)
    requires |p| == PSEUDO_SIZE && |h0| == |h| == HEADER_SIZE && |d| + HEADER_SIZE < 65536
    requires c == InternetChecksum(p + h0 + d) && h0[16] == 0 && h0[17] == 0
    requires h[16] == c % 256 && h[17] == c / 256 && h[..16] == h0[..16] && h[18..] == h0[18..]
    ensures InternetChecksum(p + (h + d)) == 0
  {
    var zeroed := p + h0 + d;
    assert zeroed[28] == h0[16] && zeroed[29] == h0[17];
    SelfVerifies(zeroed, 14);
    StoreInMiddle(p, h0, h, d, c);
    assert p + (h + d) == p + h + d;
  }

  /** A receiver that sums pseudo header and segment as sent finds zero. */
  lemma WireVerifies(m: Segment)
    requires |m.payload| + HEADER_SIZE < 65536
    ensures InternetChecksum(PseudoHeader(m) + Wire(m)) == 0
  {
    ChecksumField(m, ChecksumOf(m));
    VerifiesAround(PseudoHeader(m), Header(m, 0), Header(m, ChecksumOf(m)), m.payload, ChecksumOf(m));
  }

  // ----- what is on the wire, in numbers

  /** The number in four bytes in network order. */
  function Number(b: seq<Byte>, i: nat): int
    requires i + 4 <= |b|
  {
    var b0: int, b1: int, b2: int, b3: int := b[i], b[i + 1], b[i + 2], b[i + 3];
    16777216 * b0 + 65536 * b1 + 256 * b2 + b3
  }

  /** The number in two bytes as this machine stores it, which is how a socket holds its ports. */
  function Stored(b: seq<Byte>, i: nat): int
    requires i + 2 <= |b|
  {
    var b0: int, b1: int := b[i], b[i + 1];
    b0 + 256 * b1
  }

  lemma NumberOf(b: seq<Byte>, i: nat, w: Word)
    requires i + 4 <= |b| && b[i..i + 4] == Bytes32(BigEndian32(w))
    ensures Number(b, i) == w
  {
    var x := BigEndian32(w);
    var s := b[i..i + 4];
    assert b[i] == s[0] && b[i + 1] == s[1] && b[i + 2] == s[2] && b[i + 3] == s[3];
    BytesRoundTrip(w);
    BytesRoundTrip(x);
    BytesInjective(ByteAt(x, 0), ByteAt(x, 1), ByteAt(x, 2), ByteAt(x, 3),
                   ByteAt(w, 3), ByteAt(w, 2), ByteAt(w, 1), ByteAt(w, 0));
  }

  /** The header a socket sends, byte by byte: ports as the socket holds them, its two numbers in network order,
      six words, the flags, a full window, nothing urgent, and for a SYN the option that offers segments
      of 1460 bytes; then the data. */
  lemma SegmentOnTheWire(s: Socket, flags: bv8, data: seq<Byte>)
    requires |data| + 24 < 65536
    ensures var b := Wire(Emit(s, flags, data));
            && |b| == 24 + |data| && b[24..] == data
            && Stored(b, 0) == s.localPort && Stored(b, 2) == s.remotePort
            && Number(b, 4) == s.sequenceNumber && Number(b, 8) == s.acknowledgementNumber
            && b[12] == 0x60 && b[13] == flags as int && b[14..16] == [0xFF, 0xFF] && b[18..20] == [0, 0]
            && b[20..24] == if flags & 2 != 0 then [2, 4, 1460 / 256, 1460 % 256] else [0, 0, 0, 0]
  {
    var m := Emit(s, flags, data);
    var h := Header(m, ChecksumOf(m));
    HeaderNumbers(m, ChecksumOf(m));
    HeaderConstants(m, ChecksumOf(m));
    BehindHeader(h, data);
    assert Wire(m) == h + data;
  }

  lemma BehindHeader(h: seq<Byte>, data: seq<Byte>)
    requires |h| == 24
    ensures var b := h + data;
            && b[24..] == data && (forall i :: 0 <= i < 24 ==> b[i] == h[i])
            && b[14..16] == h[14..16] && b[18..20] == h[18..20] && b[20..24] == h[20..24]
            && Stored(b, 0) == Stored(h, 0) && Stored(b, 2) == Stored(h, 2)
            && Number(b, 4) == Number(h, 4) && Number(b, 8) == Number(h, 8)
  {
  }

  lemma HeaderNumbers(m: Segment, c: Half)
    ensures var h := Header(m, c);
            && Stored(h, 0) == m.srcPort && Stored(h, 2) == m.dstPort
            && Number(h, 4) == m.seqNo && Number(h, 8) == m.ackNo
  {
    var h := Header(m, c);
    HeaderFields(m, c);
    assert h[0] == h[0..2][0] && h[1] == h[0..2][1] && h[2] == h[2..4][0] && h[3] == h[2..4][1];
    NumberOf(h, 4, m.seqNo);
    NumberOf(h, 8, m.ackNo);
  }

  lemma HeaderConstants(m: Segment, c: Half)
    ensures var h := Header(m, c);
            && h[12] == 0x60 && h[13] == m.flags as int && h[14..16] == [0xFF, 0xFF] && h[18..20] == [0, 0]
            && h[20..24] == if m.flags & 2 != 0 then [2, 4, 1460 / 256, 1460 % 256] else [0, 0, 0, 0]
  {
    HeaderFields(m, c);
    HeaderTail(m, c);
    OptionBytes(m.flags);
  }

  lemma HeaderTail(m: Segment, c: Half)
    ensures var h := Header(m, c);
            h[14..16] == [0xFF, 0xFF] && h[18..20] == [0, 0] && h[20..24] == Bytes32(Options(m.flags))
  {
  }

  lemma OptionBytes(flags: bv8)
    ensures Bytes32(Options(flags)) == if flags & 2 != 0 then [2, 4, 1460 / 256, 1460 % 256] else [0, 0, 0, 0]
  {
  }

  /** What the receive entry takes from the bytes, whoever sent them. */
  lemma ParseReads(b: seq<Byte>, srcIP: Word, dstIP: Word)
    requires |b| >= 20 && b[12] / 16 * 4 <= |b|
    ensures var m := Parse(b, srcIP, dstIP);
            && m.srcIP == srcIP && m.dstIP == dstIP
            && m.srcPort == Stored(b, 0) && m.dstPort == Stored(b, 2)
            && m.seqNo == Number(b, 4) && m.ackNo == Number(b, 8)
            && m.headerWords == b[12] / 16 && m.flags == b[13] as bv8
            && m.payload == b[b[12] / 16 * 4..]
  {
    NumberRead(b, 4);
    NumberRead(b, 8);
  }

  lemma NumberRead(b: seq<Byte>, i: nat)
    requires i + 4 <= |b|
    ensures BigEndian32(Load(b, i)) == Number(b, i)
  {
    var x := Load(b, i);
    BytesRoundTrip(x);
    BytesInjective(ByteAt(x, 0), ByteAt(x, 1), ByteAt(x, 2), ByteAt(x, 3), b[i], b[i + 1], b[i + 2], b[i + 3]);
  }

  lemma {:induction false} SumOfConcat(p: seq<Byte>, b: seq<Byte>, n: nat)
    requires |p| % 2 == 0 && 2 * n <= |b|
    ensures SumSwapped(p + b, |p| / 2 + n) == SumSwapped(p, |p| / 2) + SumSwapped(b, n)
  {
    var k := |p| / 2;
    if n == 0 {
      SumOfPrefix(p, b, k);
    } else {
      SumOfConcat(p, b, n - 1);
      assert NativeHalf(p + b, k + n - 1) == NativeHalf(b, n - 1);
    }
  }

  lemma {:induction false} SumOfPrefix(p: seq<Byte>, b: seq<Byte>, n: nat)
    requires 2 * n <= |p|
    ensures SumSwapped(p + b, n) == SumSwapped(p, n)
  {
    if n > 0 {
      SumOfPrefix(p, b, n - 1);
      assert NativeHalf(p + b, n - 1) == NativeHalf(p, n - 1);
    }
  }

  lemma PseudoSum(m: Segment)
    requires |m.payload| + 24 < 65536
    ensures SumSwapped(PseudoHeader(m), 6) ==
            SumSwapped(Bytes32(m.srcIP) + Bytes32(m.dstIP), 4) + 6 + (|m.payload| + 24)
  {
    var a, len := Bytes32(m.srcIP) + Bytes32(m.dstIP), |m.payload| + 24;
    var c := Bytes16(0x0600) + Bytes16(SwapHalf(len));
    SwapInvolutive(len);
    assert PseudoHeader(m) == a + c;
    SumOfConcat(a, c, 2);
    assert NativeHalf(c, 0) == 0x0600 && NativeHalf(c, 1) == SwapHalf(len);
    assert SumSwapped(c, 2) == SumSwapped(c, 1) + len && SumSwapped(c, 1) == SumSwapped(c, 0) + 6;
  }

  /** The receiver's check, with the pseudo header as numbers: both addresses, protocol 6 and the length in
      bytes, added to the sum of the segment, fold to all ones. */
  lemma ReceiverAccepts(s: Socket, flags: bv8, data: seq<Byte>)
    requires |data| + 36 < 65536
    ensures var b := Wire(Emit(s, flags, data));
            Folded(SumSwapped(Bytes32(s.localIP) + Bytes32(s.remoteIP), 4) + 6 + |b| + WireSum(b)) == 65535
  {
    var m := Emit(s, flags, data);
    WireVerifies(m);
    PseudoSum(m);
    AddedToSegment(PseudoHeader(m), Wire(m));
  }

  lemma AddedToSegment(p: seq<Byte>, b: seq<Byte>)
    requires |p| == 12 && |b| + 12 < 65536 && InternetChecksum(p + b) == 0
    ensures Folded(SumSwapped(p, 6) + WireSum(b)) == 65535
  {
    VerifiesWhen(p + b);
    SumOfConcat(p, b, |b| / 2);
    assert |p + b| / 2 == 6 + |b| / 2 && OddTerm(p + b) == OddTerm(b);
  }
}
