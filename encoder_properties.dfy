/** What an encoded frame says: the byte at every index, the idle tail, and that the
    pixels can be read back from it (so no two strips share an encoding). */
module EncoderProperties {
  import opened Color
  import opened Encoder

  /** Channel `c` of `p` in wire order: 0 is green, 1 red, 2 blue. */
  function WireChannel(p: Rgb, c: nat): bv8
    requires c < 3
  {
    if c == 0 then p.g else if c == 1 then p.r else p.b
  }

  /** The 24 bytes of pixel `k` in the pixel data are that pixel's pattern. */
  lemma {:induction false} FrameSlice(leds: seq<Rgb>, k: nat)
    requires k < |leds|
    ensures Frame(leds)[24 * k..24 * k + 24] == PixelPattern(leds[k])
  {
    var m := |leds| - 1;
    var prefix := leds[..m];
    assert Frame(leds) == Frame(prefix) + PixelPattern(leds[m]);
    if k < m {
      FrameSlice(prefix, k);
      assert Frame(leds)[24 * k..24 * k + 24] == Frame(prefix)[24 * k..24 * k + 24];
    }
  }

  /** Byte `j` of channel slot `c` of pixel `k` is the long pulse exactly when bit `7 - j`
      of that channel is set, and the short pulse otherwise. */
  lemma EncodingAt(leds: seq<Rgb>, len: nat, k: nat, c: nat, j: nat)
    requires 24 * |leds| <= len
    requires k < |leds| && c < 3 && j < 8
    ensures Encoding(leds, len)[24 * k + 8 * c + j]
         == if BitSet(WireChannel(leds[k], c), 7 - j) then OneByte else ZeroByte
  {
    FrameSlice(leds, k);
    var s := Encoding(leds, len);
    assert s[24 * k..24 * k + 24] == PixelPattern(leds[k]);
    assert s[24 * k + 8 * c + j] == PixelPattern(leds[k])[8 * c + j];
  }

  /** Every byte after the pixel data, the reset gap included, is idle. */
  lemma EncodingTail(leds: seq<Rgb>, len: nat)
    requires 24 * |leds| <= len
    ensures forall i :: 24 * |leds| <= i < len ==> Encoding(leds, len)[i] == 0
  {
  }

  /** The pixel data holds only the two pulse bytes. */
  lemma {:induction false} FramePulses(leds: seq<Rgb>)
    ensures forall i :: 0 <= i < |Frame(leds)| ==> Frame(leds)[i] == OneByte || Frame(leds)[i] == ZeroByte
  {
    if leds != [] {
      FramePulses(leds[..|leds| - 1]);
    }
  }

  /** Inside the pixel region every byte is `0x80` or `0xF0`. */
  lemma EncodingPulses(leds: seq<Rgb>, len: nat)
    requires 24 * |leds| <= len
    ensures forall i :: 0 <= i < 24 * |leds| ==> Encoding(leds, len)[i] == OneByte || Encoding(leds, len)[i] == ZeroByte
  {
    FramePulses(leds);
  }

  /** A buffer sized by `LedSpiBitAmount` for the strip ends in exactly `ResetCount` idle bytes. */
  lemma ResetGap(leds: seq<Rgb>)
    ensures |Encoding(leds, LedSpiBitAmount(|leds|))| - 24 * |leds| == ResetCount
    ensures forall i :: 24 * |leds| <= i < LedSpiBitAmount(|leds|) ==> Encoding(leds, LedSpiBitAmount(|leds|))[i] == 0
  {
    EncodingTail(leds, LedSpiBitAmount(|leds|));
  }

  /** `1` for a long pulse, `0` otherwise. */
  function PulseValue(x: bv8): bv8 {
    if PulseBit(x) then 1 else 0
  }

  /** Reads a channel byte back from its 8 SPI bytes, most significant bit first. */
  function DecodeChannel(bits: seq<bv8>): bv8
    requires |bits| == 8
  {
    (PulseValue(bits[0]) << 7) | (PulseValue(bits[1]) << 6) | (PulseValue(bits[2]) << 5)
    | (PulseValue(bits[3]) << 4) | (PulseValue(bits[4]) << 3) | (PulseValue(bits[5]) << 2)
    | (PulseValue(bits[6]) << 1) | PulseValue(bits[7])
  }

  /** Reads a pixel back from its 24 SPI bytes (green, red, blue). */
  function DecodePixel(bytes: seq<bv8>): Rgb
    requires |bytes| == 24
  {
    Rgb(r := DecodeChannel(bytes[8..16]), g := DecodeChannel(bytes[..8]), b := DecodeChannel(bytes[16..24]))
  }

  /** Reads `n` pixels back from the start of a buffer. */
  function Decode(bytes: seq<bv8>, n: nat): (leds: seq<Rgb>)
    requires 24 * n <= |bytes|
    ensures |leds| == n
  {
    seq(n, k requires 0 <= k < n => DecodePixel(bytes[24 * k..24 * k + 24]))
  }

  lemma ChannelRoundTrip(b: bv8)
    ensures DecodeChannel(ChannelPattern(b)) == b
  {
    var s := ChannelPattern(b);
    forall j | 0 <= j < 8 ensures PulseValue(s[j]) == if MaskTest(b, j) then 1 else 0 {
    }
  }

  lemma PixelRoundTrip(p: Rgb)
    ensures DecodePixel(PixelPattern(p)) == p
  {
    var s := PixelPattern(p);
    assert s[..8] == ChannelPattern(p.g);
    assert s[8..16] == ChannelPattern(p.r);
    assert s[16..24] == ChannelPattern(p.b);
    ChannelRoundTrip(p.g);
    ChannelRoundTrip(p.r);
    ChannelRoundTrip(p.b);
  }

  /** Decoding an encoded buffer gives back the strip, whatever the buffer's length. */
  lemma RoundTrip(leds: seq<Rgb>, len: nat)
    requires 24 * |leds| <= len
    ensures Decode(Encoding(leds, len), |leds|) == leds
  {
    var s := Encoding(leds, len);
    forall k | 0 <= k < |leds| ensures Decode(s, |leds|)[k] == leds[k] {
      FrameSlice(leds, k);
      assert s[24 * k..24 * k + 24] == Frame(leds)[24 * k..24 * k + 24];
      PixelRoundTrip(leds[k]);
    }
  }

  /** Two strips of the same length with the same encoding are the same strip. */
  lemma EncodingInjective(a: seq<Rgb>, b: seq<Rgb>, len: nat)
    requires |a| == |b| && 24 * |a| <= len
    requires Encoding(a, len) == Encoding(b, len)
    ensures a == b
  {
    RoundTrip(a, len);
    RoundTrip(b, len);
  }
}
