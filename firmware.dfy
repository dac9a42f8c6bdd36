/** The RTIC application: the shared resources, `init`, and the periodic task `exe` that
    draws the next frame of a scrolling colour wheel and sends it. */
module Firmware {
  import opened Color
  import opened Optional
  import opened Encoder
  import opened EncoderProperties
  import opened BitContainer
  import opened Animation

  /** Cycles between two scheduled runs of `exe`. */
  const Period: nat := 100_000

  /** The scheduler runs on a 32-bit cycle counter, which wraps at this modulus. */
  const Wrap: nat := 0x1_0000_0000

  /** A reading of the cycle counter. */
  type Instant = x: int | 0 <= x < Wrap

  /** `t + cycles`: the counter wraps around at 2^32. */
  function Later(t: Instant, cycles: nat): (u: Instant)
    ensures (t + cycles - u) % Wrap == 0
  {
    (t + cycles) % Wrap
  }

  /** Waiting `a` cycles and then `b` more lands where waiting `a + b` does, across wraps. */
  lemma LaterAdd(t: Instant, a: nat, b: nat)
    ensures Later(Later(t, a), b) == Later(t, a + b)
  {
  }

  /** The scheduler's colour position for pixel `i` when `hue` frames have been drawn:
      `(current_hue + i) as u8 & 255`. */
  function HueAt(hue: nat, i: nat): bv8 {
    ((hue + i) % 256) as bv8
  }

  /** The pixels of frame number `hue`: pixel `i` shows wheel position `hue + i`. */
  function WheelFrame(hue: nat): (leds: seq<Rgb>)
    ensures |leds| == LedCount
  {
    seq(LedCount, i requires 0 <= i < LedCount => Wheel(HueAt(hue, i)))
  }

  /** From one frame to the next the colours move one pixel along the strip. */
  lemma WheelFrameScrolls(hue: nat, i: nat)
    requires i + 1 < LedCount
    ensures WheelFrame(hue + 1)[i] == WheelFrame(hue)[i + 1]
  {
  }

  /** The frame `init` sends: a short pulse for every data bit of the black strip, then
      the idle reset gap. It is not the all-zero content of the buffer installed after it. */
  lemma BlankFrame()
    ensures Encoding(seq(LedCount, _ => Black), LedSpiBitAmount(LedCount))
         == seq(24 * LedCount, _ => ZeroByte) + Zeros(ResetCount)
  {
    var blank := seq(LedCount, _ => Black);
    var sent := Encoding(blank, LedSpiBitAmount(LedCount));
    var expected := seq(24 * LedCount, _ => ZeroByte) + Zeros(ResetCount);
    forall i | 0 <= i < 24 * LedCount ensures sent[i] == expected[i] {
      var k, c, j := i / 24, (i % 24) / 8, i % 8;
      assert i == 24 * k + 8 * c + j;
      EncodingAt(blank, LedSpiBitAmount(LedCount), k, c, j);
    }
    EncodingTail(blank, LedSpiBitAmount(LedCount));
    assert sent == expected;
  }

  /** `struct Resources`: the task's resources and the entry for `exe` in the timer queue. */
  class Resources {
    var spiDma: Option<SpiDma>
    var ledBuffer: Option<SpiBitContainer>
    var pixels: Option<array<Rgb>>
    var currentHue: nat
    /** When `exe` is due to run next, if it is queued. */
    var nextRun: Option<Instant>
    /** `cx.start` of `init`: when the first `exe` is due. */
    ghost const start: Instant

    /** Between runs of `exe`: every slot filled, the arrays at their built-in sizes, and
        `exe` queued `currentHue` periods after the start, never drifting. */
    ghost predicate Valid()
      reads this
    {
      spiDma.Some? && ledBuffer.Some? && pixels.Some? &&
      pixels.value.Length == LedCount &&
      ledBuffer.value.data.Length == LedSpiBitAmount(LedCount) &&
      nextRun == Some(Later(start, currentHue * Period))
    }

    /** `init`: queue `exe` at the start time, send one blank frame from a first buffer,
        and install a second, fresh buffer; the first one is dropped. */
    constructor (start: Instant, spi: SpiDma)
      modifies spi
      ensures Valid() && this.start == start
      ensures spiDma == Some(spi) && currentHue == 0 && nextRun == Some(start)
      ensures fresh(pixels.value) && pixels.value[..] == seq(LedCount, _ => Black)
      ensures fresh(ledBuffer.value) && fresh(ledBuffer.value.data)
      ensures ledBuffer.value.data[..] == Zeros(LedSpiBitAmount(LedCount))
      ensures spi.sent == old(spi.sent) + [Encoding(seq(LedCount, _ => Black), LedSpiBitAmount(LedCount))]
    {
      this.start := start;
      nextRun := Some(start);
      var leds := new SpiBitContainer(LedCount);
      var blank := new Rgb[LedCount](_ => Black);
      LedSpiBitPattern(blank[..], leds.data);
      var _, handle := spi.WriteWait(leds);
      spiDma := Some(handle);
      var second := new SpiBitContainer(LedCount);
      ledBuffer := Some(second);
      pixels := Some(blank);
      currentHue := 0;
    }

    /** `exe`: the runtime takes the queue entry, the task takes its three resources, fills
        the pixels from the wheel, encodes and sends them, puts every resource back, moves
        the hue on by one and queues itself one period after the time it was due. */
    method Exe()
      requires Valid()
      modifies this, spiDma.value, ledBuffer.value.data, pixels.value
      ensures Valid()
      ensures spiDma == old(spiDma) && ledBuffer == old(ledBuffer) && pixels == old(pixels)
      ensures pixels.value[..] == WheelFrame(old(currentHue))
      ensures ledBuffer.value.data[..] == Encoding(pixels.value[..], LedSpiBitAmount(LedCount))
      ensures spiDma.value.sent == old(spiDma.value.sent) + [ledBuffer.value.data[..]]
      ensures currentHue == old(currentHue) + 1
      ensures nextRun == Some(Later(old(nextRun).value, Period))
    {
      var scheduled := nextRun.value;
      nextRun := None;

      var leds := ledBuffer.value;
      ledBuffer := None;
      var dma := spiDma.value;
      spiDma := None;
      var color := pixels.value;
      pixels := None;

      var hue := currentHue;
      for i := 0 to LedCount
        modifies color
        invariant forall k :: 0 <= k < i ==> color[k] == Wheel(HueAt(hue, k))
      {
        color[i] := Wheel(HueAt(hue, i));
      }
      assert color[..] == WheelFrame(hue);

      LedSpiBitPattern(color[..], leds.data);
      var ledsBack, dmaBack := dma.WriteWait(leds);

      ledBuffer := Some(ledsBack);
      spiDma := Some(dmaBack);
      pixels := Some(color);
      currentHue := hue + 1;

      LaterAdd(start, hue * Period, Period);
      nextRun := Some(Later(scheduled, Period));
    }
  }
}
