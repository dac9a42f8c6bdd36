/** The bit-pattern encoder: every data bit of a pixel becomes one SPI byte whose
    high/low ratio, clocked out at 3 MHz, is the WS2812 pulse for a 0 or a 1. */
module Encoder {
  import opened Color

  /** Idle bytes after the pixel data: the strip's reset gap. */
  const ResetCount: nat := 20

  /** SPI byte sent for a 1 bit: long high pulse. */
  const OneByte: bv8 := 0xF0
  /** SPI byte sent for a 0 bit: short high pulse. */
  const ZeroByte: bv8 := 0x80

  /** Number of SPI bytes needed for `ledAmount` pixels: 24 per pixel and the reset gap. */
  function LedSpiBitAmount(ledAmount: nat): (n: nat)
    ensures n >= 24 * ledAmount && n - 24 * ledAmount == ResetCount
  {
    ledAmount * 24 + ResetCount
  }

  /** Bit `k` of `b`, counted from the least significant bit. */
  predicate BitSet(b: bv8, k: nat)
    requires k < 8
  {
    (b >> k) & 1 == 1
  }

  /** The test the encoder applies at step `i` of a channel: `(byte << i) & MASK == MASK`,
      which in Rust parses as `((byte << i) & MASK) == MASK`. Step `i` reads bit `7 - i`,
      so the channel goes out most significant bit first. */
  function MaskTest(b: bv8, i: nat): (isSet: bool)
    requires i < 8
    ensures isSet == BitSet(b, 7 - i)
  {
    (b << i) & 0x80 == 0x80
  }

  /** The byte a data bit is expanded to; `PulseBit` reads it back. */
  function SpiByte(value: bool): (r: bv8)
    ensures r == OneByte || r == ZeroByte
    ensures PulseBit(r) == value
  {
    if value then OneByte else ZeroByte
  }

  /** The data bit an SPI byte stands for: a long pulse is a 1, anything else a 0. */
  predicate PulseBit(x: bv8) {
    x == OneByte
  }

  /** The 8 SPI bytes of one channel byte. */
  function ChannelPattern(b: bv8): (s: seq<bv8>)
    ensures |s| == 8
  {
    seq(8, j requires 0 <= j < 8 => SpiByte(MaskTest(b, j)))
  }

  /** The 24 SPI bytes of one pixel: green, then red, then blue, as the strip expects. */
  function PixelPattern(p: Rgb): (s: seq<bv8>)
    ensures |s| == 24
  {
    ChannelPattern(p.g) + ChannelPattern(p.r) + ChannelPattern(p.b)
  }

  /** The pixel data of a frame: the pixels' patterns one after the other, in strip order. */
  function Frame(leds: seq<Rgb>): (s: seq<bv8>)
    ensures |s| == 24 * |leds|
  {
    if leds == [] then [] else Frame(leds[..|leds| - 1]) + PixelPattern(leds[|leds| - 1])
  }

  /** `n` idle bytes. */
  function Zeros(n: nat): (s: seq<bv8>)
    ensures |s| == n && forall k :: 0 <= k < n ==> s[k] == 0
  {
    seq(n, _ => 0)
  }

  /** The whole content of an output buffer of `len` bytes after encoding `leds`:
      the pixel data, then idle bytes to the end of the buffer. */
  function Encoding(leds: seq<Rgb>, len: nat): (s: seq<bv8>)
    requires 24 * |leds| <= len
    ensures |s| == len
  {
    Frame(leds) + Zeros(len - 24 * |leds|)
  }

  /** `set_spi_byte`: write the SPI byte for `value` at the start of the slice
      `target[off..]`. */
  method SetSpiByte(value: bool, target: array<bv8>, off: nat)
    requires off < target.Length
    modifies target
    ensures target[..] == old(target[..])[off := SpiByte(value)]
  {
    target[off] := if value then 0xF0 else 0x80;
  }

  /** `set_from_byte`: expand `b` into the 8 bytes of `target[off..]`, MSB first,
      advancing the slice by one byte per bit. */
  method SetFromByte(b: bv8, target: array<bv8>, off: nat)
    requires off + 8 <= target.Length
    modifies target
    ensures target[..] == old(target[..])[..off] + ChannelPattern(b) + old(target[..])[off + 8..]
  {
    var start := off;
    for i := 0 to 8
      invariant start == off + i
      invariant forall k :: 0 <= k < target.Length && !(off <= k < off + i) ==> target[k] == old(target[k])
      invariant forall j :: 0 <= j < i ==> target[off + j] == SpiByte(MaskTest(b, j))
    {
      SetSpiByte((b << i) & 0x80 == 0x80, target, start);
      start := start + 1;
    }
    assert target[..] == old(target[..])[..off] + ChannelPattern(b) + old(target[..])[off + 8..];
  }

  /** `led_spi_bit_pattern`: clear the whole buffer, then write the pattern of each pixel
      in turn, advancing the slice by 8 bytes per channel. The buffer must have room for
      the pixel data; whatever it held before does not matter. */
  method LedSpiBitPattern(leds: seq<Rgb>, output: array<bv8>)
    requires 24 * |leds| <= output.Length
    modifies output
    ensures output[..] == Encoding(leds, output.Length)
  {
    for i := 0 to output.Length
      invariant forall k :: 0 <= k < i ==> output[k] == 0
    {
      output[i] := 0;
    }
    assert output[..] == Frame(leds[..0]) + Zeros(output.Length);
    var off := 0;
    for n := 0 to |leds|
      invariant off == 24 * n
      invariant output[..] == Frame(leds[..n]) + Zeros(output.Length - 24 * n)
    {
      ghost var before := output[..];
      var led := leds[n];
      SetFromByte(led.g, output, off);
      ghost var afterG := output[..];
      off := off + 8;
      SetFromByte(led.r, output, off);
      ghost var afterR := output[..];
      off := off + 8;
      SetFromByte(led.b, output, off);
      off := off + 8;
      SpliceThree(before, afterG, afterR, output[..], off - 24, led);
      PixelStep(leds, n, before, output[..]);
    }
    assert leds[..|leds|] == leds;
  }

  /** Three channel writes at consecutive offsets write one pixel pattern. */
  lemma SpliceThree(s0: seq<bv8>, s1: seq<bv8>, s2: seq<bv8>, s3: seq<bv8>, off: nat, p: Rgb)
    requires off + 24 <= |s0|
    requires s1 == s0[..off] + ChannelPattern(p.g) + s0[off + 8..]
    requires s2 == s1[..off + 8] + ChannelPattern(p.r) + s1[off + 16..]
    requires s3 == s2[..off + 16] + ChannelPattern(p.b) + s2[off + 24..]
    ensures s3 == s0[..off] + PixelPattern(p) + s0[off + 24..]
  {
    var t := s0[..off] + PixelPattern(p) + s0[off + 24..];
    assert |s3| == |t|;
    forall k | 0 <= k < |s3| ensures s3[k] == t[k] {
      if k < off {
      } else if k < off + 8 {
      } else if k < off + 16 {
      } else if k < off + 24 {
      } else {
      }
    }
  }

  /** Writing pixel `n`'s pattern over the idle bytes after `n` encoded pixels
      gives `n + 1` encoded pixels. */
  lemma PixelStep(leds: seq<Rgb>, n: nat, before: seq<bv8>, after: seq<bv8>)
    requires n < |leds| && 24 * (n + 1) <= |before|
    requires before == Frame(leds[..n]) + Zeros(|before| - 24 * n)
    requires after == before[..24 * n] + PixelPattern(leds[n]) + before[24 * n + 24..]
    ensures after == Frame(leds[..n + 1]) + Zeros(|before| - 24 * (n + 1))
  {
    assert leds[..n + 1][..n] == leds[..n];
    assert Frame(leds[..n + 1]) == Frame(leds[..n]) + PixelPattern(leds[n]);
    assert before[..24 * n] == Frame(leds[..n]);
    assert before[24 * n + 24..] == Zeros(|before| - 24 * (n + 1));
  }
}
