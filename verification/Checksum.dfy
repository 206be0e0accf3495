/** The Internet checksum of src/net/ipv4.cpp, and the header fields it is stored in. */
module InternetChecksums {
  import opened Words

  /** `data[i]` of the buffer seen as 16-bit words. */
  function NativeHalf(d: seq<Byte>, i: nat): Half
    requires 2 * i + 1 < |d|
  {
    LoadHalf(d, 2 * i)
  }

  /** The loop's shift-and-mask expression on the two bytes of a word. */
  function SwapLoaded(lo: int, hi: int): Half
    requires 0 <= lo < 256 && 0 <= hi < 256
  {
    lo * 256 + hi
  }

  function SwapHalf(h: Half): Half { h / 256 + h % 256 * 256 }

  /** Sum of the first n words, each swapped to network order. */
  function SumSwapped(d: seq<Byte>, n: nat): nat
    requires 2 * n <= |d|
  {
    if n == 0 then 0 else SumSwapped(d, n - 1) + SwapHalf(NativeHalf(d, n - 1))
  }

  /** The contribution of an odd last byte. The cast in the source goes through a signed char, so a
      byte of 0x80 or more is sign-extended to 16 bits before it is shifted. */
  function OddTerm(d: seq<Byte>): nat {
    if |d| % 2 == 0 then 0
    else SignExtended(d[|d| - 1]) * 256
  }

  function SignExtended(b: int): int
    requires 0 <= b < 256
    ensures 0 <= SignExtended(b) < 65536
  {
    if b < 0x80 then b else 0xFF00 + b
  }

  function WireSum(d: seq<Byte>): nat { SumSwapped(d, |d| / 2) + OddTerm(d) }

  /** One's-complement reduction to 16 bits: congruent modulo 65535, and zero only for zero. */
  function Folded(t: nat): Half { if t == 0 then 0 else (t - 1) % 65535 + 1 }

  /** The specification of `Checksum`, including the 32-bit accumulator. */
  function InternetChecksum(d: seq<Byte>): Half { SwapHalf(65535 - Folded(Wrap(WireSum(d)))) }

  method Checksum(data: array<Byte>, lengthInBytes: nat) returns (result: Half)
    requires lengthInBytes <= data.Length
    ensures result == InternetChecksum(data[..lengthInBytes])
  {
    var temp := SumWords(data, lengthInBytes);
    var folded := FoldCarries(temp);
    result := SwapHalf(65535 - folded);
  }

  /** The first loop of `Checksum`, and the odd last byte. */
  method SumWords(data: array<Byte>, lengthInBytes: nat) returns (temp: Word)
    requires lengthInBytes <= data.Length
    ensures temp == Wrap(WireSum(data[..lengthInBytes]))
  {
    temp := 0;
    ghost var d := data[..lengthInBytes];
    var i := 0;
    while i < lengthInBytes / 2
      invariant 0 <= i <= lengthInBytes / 2
      invariant temp == Wrap(SumSwapped(d, i))
    {
      var word: Half := SwapLoaded(data[2 * i], data[2 * i + 1]);
      AccumulateStep(d, i);
      temp := Wrap(temp + word);
      i := i + 1;
    }
    if lengthInBytes % 2 != 0 {
      WrapAdd(SumSwapped(d, i), OddTerm(d));
      temp := Wrap(temp + SignExtended(data[lengthInBytes - 1]) * 256);
    }
  }

  /** The second loop of `Checksum`: add the upper half to the lower until nothing is left above. */
  method FoldCarries(sum: Word) returns (temp: Half)
    ensures temp == Folded(sum)
  {
    var t := sum;
    while t / 65536 != 0
      invariant Folded(t) == Folded(sum)
      decreases t
    {
      FoldStep(t);
      t := t % 65536 + t / 65536;
    }
    FoldedUnique(t, t, 0);
    temp := t;
  }

  lemma SwapOfBytes(lo: int, hi: int)
    requires 0 <= lo < 256 && 0 <= hi < 256
    ensures SwapHalf(lo + 256 * hi) == SwapLoaded(lo, hi)
  {
  }

  lemma AccumulateStep(d: seq<Byte>, i: nat)
    requires 2 * i + 1 < |d|
    ensures Wrap(Wrap(SumSwapped(d, i)) + SwapLoaded(d[2 * i], d[2 * i + 1])) == Wrap(SumSwapped(d, i + 1))
  {
    SwapOfBytes(d[2 * i], d[2 * i + 1]);
    WrapAdd(SumSwapped(d, i), SwapHalf(NativeHalf(d, i)));
  }

  lemma FoldStep(t: Word)
    requires t / 65536 != 0
    ensures Folded(t) == Folded(t % 65536 + t / 65536)
  {
  }

  /** Folding is characterised by congruence and range, so equal residues fold alike. */
  lemma FoldedUnique(t: nat, f: Half, q: int)
    requires t == f + 65535 * q
    requires f == 0 <==> t == 0
    ensures Folded(t) == f
  {
  }

  lemma FoldedCongruent(t: nat) returns (q: nat)
    ensures t == Folded(t) + 65535 * q
    ensures Folded(t) == 0 <==> t == 0
  {
    q := if t == 0 then 0 else (t - 1) / 65535;
  }

  // ----- the accumulator

  /** Buffers whose sum fits the 32-bit accumulator whatever they contain: 65537 words, an odd last
      byte counting as 256 of them because of its sign extension. */
  predicate FitsAccumulator(length: nat) { length / 2 + length % 2 * 256 <= 65537 }

  lemma {:induction false} SumBound(d: seq<Byte>, n: nat)
    requires 2 * n <= |d|
    ensures SumSwapped(d, n) <= 65535 * n
  {
    if n > 0 { SumBound(d, n - 1); }
  }

  lemma NoOverflow(d: seq<Byte>)
    requires FitsAccumulator(|d|)
    ensures Wrap(WireSum(d)) == WireSum(d)
  {
    SumBound(d, |d| / 2);
  }

  function Repeat(n: nat): (d: seq<Byte>)
    ensures |d| == n && forall i :: 0 <= i < n ==> d[i] == 0xFF
  {
    seq(n, i => 0xFF)
  }

  lemma {:induction false} SumOfOnes(d: seq<Byte>, n: nat)
    requires 2 * n <= |d| && forall i :: 0 <= i < |d| ==> d[i] == 0xFF
    ensures SumSwapped(d, n) == 65535 * n
  {
    if n > 0 { SumOfOnes(d, n - 1); }
  }

  /** The bound is exact: for every length beyond it some buffer overflows the accumulator. */
  lemma AccumulatorBoundIsExact(length: nat)
    ensures FitsAccumulator(length) <==> forall d: seq<Byte> :: |d| == length ==> WireSum(d) < TWO32
  {
    if FitsAccumulator(length) {
      forall d: seq<Byte> | |d| == length ensures WireSum(d) < TWO32 { NoOverflow(d); SumBound(d, |d| / 2); }
    } else {
      var d := Repeat(length);
      SumOfOnes(d, length / 2);
      assert OddTerm(d) == length % 2 * 256 * 65535;
      assert WireSum(d) >= TWO32;
    }
  }

  // ----- storing the checksum

  function StoreHalf(d: seq<Byte>, k: nat, h: Half): (r: seq<Byte>)
    requires 2 * k + 1 < |d|
    ensures |r| == |d|
  {
    d[2 * k := h % 256][2 * k + 1 := h / 256]
  }

  lemma {:induction false} SumAfterStore(d: seq<Byte>, k: nat, h: Half, n: nat)
    requires 2 * k + 1 < |d| && 2 * n <= |d|
    ensures SumSwapped(StoreHalf(d, k, h), n) ==
            SumSwapped(d, n) + if k < n then SwapHalf(h) - SwapHalf(NativeHalf(d, k)) else 0
  {
    if n > 0 {
      SumAfterStore(d, k, h, n - 1);
      if k != n - 1 { assert NativeHalf(StoreHalf(d, k, h), n - 1) == NativeHalf(d, n - 1); }
      else { assert NativeHalf(StoreHalf(d, k, h), n - 1) == h; }
    }
  }

  lemma WireSumAfterStore(d: seq<Byte>, k: nat, h: Half)
    requires 2 * k + 1 < |d|
    ensures WireSum(StoreHalf(d, k, h)) == WireSum(d) + SwapHalf(h) - SwapHalf(NativeHalf(d, k))
  {
    SumAfterStore(d, k, h, |d| / 2);
  }

  lemma SwapInvolutive(h: int)
    requires 0 <= h < 65536
    ensures SwapHalf(SwapHalf(h)) == h
  {
    var q: int, r: int := h / 256, h % 256;
    assert (q + r * 256) / 256 == r && (q + r * 256) % 256 == q;
  }

  /** Storing the result in a zeroed word makes the whole buffer check to zero, odd lengths included. */
  lemma SelfVerifies(d: seq<Byte>, k: nat)
    requires FitsAccumulator(|d|)
    requires 2 * k + 1 < |d| && d[2 * k] == 0 && d[2 * k + 1] == 0
    ensures InternetChecksum(StoreHalf(d, k, InternetChecksum(d))) == 0
  {
    var r := InternetChecksum(d);
    var d' := StoreHalf(d, k, r);
    var s := WireSum(d);
    NoOverflow(d);
    VerifiesWhen(d');
    WireSumAfterStore(d, k, r);
    SwapInvolutive(65535 - Folded(s));
    assert WireSum(d') == s + 65535 - Folded(s);
    var q := FoldedCongruent(s);
    FoldedUnique(WireSum(d'), 65535, q);
  }

  lemma VerifiesWhen(d: seq<Byte>)
    requires FitsAccumulator(|d|)
    ensures InternetChecksum(d) == 0 <==> Folded(WireSum(d)) == 65535
  {
    NoOverflow(d);
    SwapInvolutive(65535 - Folded(WireSum(d)));
  }

  lemma FoldAfterDifference(s: nat, s': nat, delta: int)
    requires Folded(s) == 65535 && s' == s + delta && -65535 <= delta <= 65535
    ensures Folded(s') == 65535 <==> s' > 0 && (delta == 0 || delta == 65535 || delta == -65535)
  {
  }

  /** Replacing one word of a checked buffer goes unnoticed exactly when the two words are equal
      modulo 65535, that is unless all ones became all zeros or the reverse, in a buffer not all zero. */
  lemma SingleWordErrors(d: seq<Byte>, k: nat, h: Half)
    requires FitsAccumulator(|d|) && 2 * k + 1 < |d|
    requires InternetChecksum(d) == 0
    ensures var was := NativeHalf(d, k);
            InternetChecksum(StoreHalf(d, k, h)) == 0 <==>
            (h == was || (h == 65535 && was == 0) || (h == 0 && was == 65535 && WireSum(StoreHalf(d, k, h)) > 0))
  {
    var d' := StoreHalf(d, k, h);
    var was := NativeHalf(d, k);
    VerifiesWhen(d);
    VerifiesWhen(d');
    WireSumAfterStore(d, k, h);
    SwapInvolutive(h);
    SwapInvolutive(was);
    FoldAfterDifference(WireSum(d), WireSum(d'), SwapHalf(h) - SwapHalf(was));
  }

  // ----- byte-order independence

  /** Sum of the words as the little-endian machine loads them, with an odd last byte padded by zero. */
  function NativeSum(d: seq<Byte>, n: nat): nat
    requires 2 * n <= |d|
  {
    if n == 0 then 0 else NativeSum(d, n - 1) + NativeHalf(d, n - 1)
  }

  /** The checksum as section 2(B) of RFC 1071 defines it, with no byte swapped anywhere. */
  function ReferenceChecksum(d: seq<Byte>): Half {
    var last: nat := if |d| % 2 == 0 then 0 else d[|d| - 1];
    65535 - Folded(NativeSum(d, |d| / 2) + last)
  }

  /** A swap multiplies by 256 modulo 65535. */
  lemma {:induction false} SwappedSum(d: seq<Byte>, n: nat) returns (q: nat)
    requires 2 * n <= |d|
    ensures SumSwapped(d, n) + 65535 * q == 256 * NativeSum(d, n)
    ensures SumSwapped(d, n) == 0 <==> NativeSum(d, n) == 0
  {
    q := 0;
    if n > 0 {
      q := SwappedSum(d, n - 1);
      var h: int := NativeHalf(d, n - 1);
      assert SwapHalf(h) + 65535 * (h / 256) == 256 * h;
      q := q + h / 256;
    }
  }

  lemma SwapIsTimes256(f: int)
    requires 0 <= f < 65536
    ensures SwapHalf(f) + 65535 * (f / 256) == 256 * f
    ensures SwapHalf(f) == 0 <==> f == 0
  {
  }

  /** Folding the swapped sum swaps the folded native sum; an excess e that 65535 does not divide breaks this. */
  lemma FoldOfSwapped(s: nat, native: nat, q: int, e: nat)
    requires s + 65535 * q == 256 * native + e && e < 65535
    requires e == 0 ==> (s == 0 <==> native == 0)
    ensures Folded(s) == SwapHalf(Folded(native)) <==> e == 0
  {
    var f: int := Folded(native);
    var m: int := FoldedCongruent(native);
    SwapIsTimes256(f);
    var t: int := f / 256 + 256 * m - q;
    assert s == SwapHalf(f) + e + 65535 * t;
    if e == 0 {
      FoldedUnique(s, SwapHalf(f), t);
    } else {
      var m': int := FoldedCongruent(s);
      assert e == 65535 * (m' - t) + (Folded(s) - SwapHalf(f));
    }
  }

  /** The routine computes the standard checksum exactly when no sign extension takes place. */
  lemma StandardExactlyWhenUnsigned(d: seq<Byte>)
    requires FitsAccumulator(|d|)
    ensures InternetChecksum(d) == ReferenceChecksum(d) <==> |d| % 2 == 0 || d[|d| - 1] < 0x80
  {
    NoOverflow(d);
    var n := |d| / 2;
    var last: nat := if |d| % 2 == 0 then 0 else d[|d| - 1];
    var q: int := SwappedSum(d, n);
    var native: nat := NativeSum(d, n) + last;
    var s := WireSum(d);
    SwappedComplementsEqual(Folded(s), Folded(native));
    if |d| % 2 == 0 || last < 0x80 {
      assert s + 65535 * q == 256 * native;
      FoldOfSwapped(s, native, q, 0);
    } else {
      assert s + 65535 * (q - 255) == 256 * native + 255;
      FoldOfSwapped(s, native, q - 255, 255);
    }
  }

  /** With an odd last byte of 0x80 or more, the sign extension stands for a padding byte: the routine computes
      the standard checksum of the buffer with one byte of ones behind it. */
  lemma OddSignedIsPaddedWithOnes(d: seq<Byte>)
    requires FitsAccumulator(|d|) && |d| % 2 == 1 && d[|d| - 1] >= 0x80
    ensures InternetChecksum(d) == ReferenceChecksum(d + [0xFF])
  {
    NoOverflow(d);
    var n := |d| / 2;
    var d' := d + [0xFF];
    NativePrefix(d, d', n);
    var q: int := SwappedSum(d, n);
    var last: int := d[|d| - 1];
    var native: nat := NativeSum(d, n) + last + 0xFF00;
    assert NativeHalf(d', n) == last + 0xFF00 && NativeSum(d', n + 1) == native;
    assert WireSum(d) + 65535 * q == 256 * native;
    FoldOfSwapped(WireSum(d), native, q, 0);
    SwappedComplementsEqual(Folded(WireSum(d)), Folded(native));
  }

  lemma {:induction false} NativePrefix(d: seq<Byte>, d': seq<Byte>, n: nat)
    requires 2 * n <= |d| <= |d'| && d'[..|d|] == d
    ensures NativeSum(d', n) == NativeSum(d, n)
  {
    if n > 0 {
      NativePrefix(d, d', n - 1);
      assert d'[2 * n - 2] == d[2 * n - 2] && d'[2 * n - 1] == d[2 * n - 1];
    }
  }

  lemma SwappedComplementsEqual(f: int, g: int)
    requires 0 <= f < 65536 && 0 <= g < 65536
    ensures SwapHalf(65535 - f) == 65535 - g <==> f == SwapHalf(g)
  {
    SwapComplement(f);
    SwapInvolutive(f);
    SwapInvolutive(g);
  }

  lemma SwapComplement(f: Half)
    ensures SwapHalf(65535 - f) == 65535 - SwapHalf(f)
  {
  }
}
