/** `Ws2812Driver`: owns the SPI/DMA handle, the pixel colours and one bit buffer. The
    handle and the buffer sit in `Option` slots that `transmit` empties and refills. */
module Ws2812 {
  import opened Color
  import opened Optional
  import opened Encoder
  import opened BitContainer

  class Ws2812Driver {
    var spi: Option<SpiDma>
    const ledData: array<Rgb>
    var bitStorage: Option<SpiBitContainer>

    /** Between calls both slots are filled and the arrays have their built-in sizes. */
    ghost predicate Valid()
      reads this
    {
      ledData.Length == LedCount &&
      spi.Some? && bitStorage.Some? &&
      bitStorage.value.data.Length == LedSpiBitAmount(LedCount)
    }

    /** `new(spi)`: all pixels black, and a fresh idle bit buffer. */
    constructor (spi: SpiDma)
      ensures Valid()
      ensures this.spi == Some(spi)
      ensures fresh(ledData) && ledData[..] == seq(LedCount, _ => Black)
      ensures fresh(bitStorage.value) && fresh(bitStorage.value.data)
      ensures bitStorage.value.data[..] == Zeros(LedSpiBitAmount(LedCount))
    {
      this.spi := Some(spi);
      ledData := new Rgb[LedCount](_ => Black);
      var storage := new SpiBitContainer(LedCount);
      bitStorage := Some(storage);
    }

    /** `prepare_color(index, color)`: set one pixel; indexing panics past the strip's end. */
    method PrepareColor(index: nat, color: Rgb)
      requires Valid() && index < LedCount
      modifies ledData
      ensures Valid()
      ensures ledData[..] == old(ledData[..])[index := color]
    {
      ledData[index] := color;
    }

    /** `transmit()`: take the handle and the buffer out of their slots, encode the pixels
        into the buffer, send it, and put both back. Exactly one frame goes out, and it is
        the encoding of the current pixels. */
    method Transmit()
      requires Valid()
      modifies this, spi.value, bitStorage.value.data
      ensures Valid()
      ensures spi == old(spi) && bitStorage == old(bitStorage)
      ensures ledData[..] == old(ledData[..])
      ensures bitStorage.value.data[..] == Encoding(ledData[..], LedSpiBitAmount(LedCount))
      ensures spi.value.sent == old(spi.value.sent) + [bitStorage.value.data[..]]
    {
      var dma := spi.value;
      spi := None;
      var bits := bitStorage.value;
      bitStorage := None;

      LedSpiBitPattern(ledData[..], bits.data);

      var bitsBack, dmaBack := dma.WriteWait(bits);

      spi := Some(dmaBack);
      bitStorage := Some(bitsBack);
    }
  }
}
