/** The two places where src/net/ipv4.cpp stamps a checksum into a header: a fresh header in `Send`
    and the in-place reply in `OnEtherFrameReceived`. */
module Ipv4Headers {
  import opened Words
  import opened Machine
  import opened InternetChecksums

  const HEADER_SIZE := 20

  /** Bytes outside [lo, hi) agree. */
  ghost predicate SameOutside(m: seq<Byte>, m': seq<Byte>, lo: int, hi: int) {
    |m| == |m'| && forall i :: 0 <= i < |m| && !(lo <= i < hi) ==> m[i] == m'[i]
  }

  /** Zero the checksum field, sum the first length bytes, store the result. If those bytes reach past the
      field they then check to zero; if they end before it, the field simply holds their checksum. */
  method StampChecksum(m: array<Byte>, length: nat)
    requires 12 <= m.Length && length <= m.Length && FitsAccumulator(length)
    modifies m
    ensures SameOutside(old(m[..]), m[..], 10, 12)
    ensures length >= 12 ==> InternetChecksum(m[..length]) == 0
    ensures length <= 10 ==> LoadHalf(m[..], 10) == InternetChecksum(m[..length])
  {
    m[10], m[11] := 0, 0;
    ghost var zeroed := m[..length];
    var sum := Checksum(m, length);
    m[10], m[11] := sum % 256, sum / 256;
    if length >= 12 {
      assert m[..length] == StoreHalf(zeroed, 5, sum);
      SelfVerifies(zeroed, 5);
    } else if length <= 10 {
      assert m[..length] == zeroed;
    }
  }

  /** The header part of `Send`: the first twenty bytes of the buffer. */
  method WriteHeader(m: array<Byte>, protocol: Byte, srcIP: Word, dstIP: Word, size: nat)
    requires m.Length == HEADER_SIZE + size
    modifies m
    ensures SameOutside(old(m[..]), m[..], 0, HEADER_SIZE)
    ensures m[..2] == [0x45, 0] && m[4..10] == [0x00, 0x01, 0x40, 0x00, 0x40, protocol]
    ensures SwapHalf(LoadHalf(m[..], 2)) == m.Length % 65536
    ensures Load(m[..], 12) == srcIP && Load(m[..], 16) == dstIP
    ensures InternetChecksum(m[..HEADER_SIZE]) == 0
  {
    m[0], m[1] := 0x45, 0;
    var totalLength: Half := (size + HEADER_SIZE) % 65536;
    totalLength := SwapHalf(totalLength);
    SwapInvolutive((size + HEADER_SIZE) % 65536);
    m[2], m[3] := totalLength % 256, totalLength / 256;
    m[4], m[5] := 0x00, 0x01;
    m[6], m[7] := 0x40, 0x00;
    m[8], m[9] := 0x40, protocol;
    assert SwapHalf(LoadHalf(m[..], 2)) == m.Length % 65536;
    StoreWord(m, 16, dstIP);
    ghost var before := m[..];
    StoreWord(m, 12, srcIP);
    assert Load(m[..], 16) == Load(before, 16);
    ghost var unstamped := m[..];
    StampChecksum(m, HEADER_SIZE);
    assert LoadHalf(m[..], 2) == NativeHalf(before, 1);
    assert Load(m[..], 16) == Load(unstamped, 16) && Load(m[..], 12) == Load(unstamped, 12);
  }

  /** The `sendBack` branch: exchange the addresses, reset the time to live, restamp. */
  method ReplyInPlace(m: array<Byte>)
    requires m.Length >= HEADER_SIZE && 4 * (m[0] % 16) <= m.Length
    modifies m
    ensures SameOutside(old(m[..]), m[..], 8, HEADER_SIZE) && m[9] == old(m[9]) && m[8] == 0x40
    ensures Load(m[..], 12) == old(Load(m[..], 16)) && Load(m[..], 16) == old(Load(m[..], 12))
    ensures var length := 4 * (m[0] % 16);
            if length >= 12 then InternetChecksum(m[..length]) == 0
            else LoadHalf(m[..], 10) == InternetChecksum(m[..length])
  {
    var src, dst := Load(m[..], 12), Load(m[..], 16);
    var length: nat := 4 * (m[0] % 16);
    StoreWord(m, 16, src);
    ghost var before := m[..];
    StoreWord(m, 12, dst);
    assert Load(m[..], 16) == Load(before, 16);
    m[8] := 0x40;
    ghost var unstamped := m[..];
    assert Load(unstamped, 12) == dst && Load(unstamped, 16) == src;
    StampChecksum(m, length);
    assert Load(m[..], 16) == Load(unstamped, 16) && Load(m[..], 12) == Load(unstamped, 12);
  }
}
