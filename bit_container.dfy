/** The fixed-size SPI output buffer (`spi_bit_container!`) and the SPI/DMA handle that
    clocks it out. */
module BitContainer {
  import opened Encoder

  /** A buffer of `LedSpiBitAmount(ledAmount)` SPI bytes; the array is never replaced,
      only its contents are rewritten. */
  class SpiBitContainer {
    const data: array<bv8>

    /** `new()`: every byte idle. */
    constructor (ledAmount: nat)
      ensures fresh(data) && data.Length == LedSpiBitAmount(ledAmount)
      ensures data[..] == Zeros(LedSpiBitAmount(ledAmount))
    {
      data := new bv8[LedSpiBitAmount(ledAmount)](_ => 0);
    }
  }

  /** The SPI peripheral with its transmit DMA channel. `sent` stands for the wire: the
      contents of every buffer it has clocked out, oldest first. */
  class SpiDma {
    var sent: seq<seq<bv8>>

    /** The handle `spi.with_tx_dma(..)` builds in `init`, before anything is sent. */
    constructor ()
      ensures sent == []
    {
      sent := [];
    }

    /** `write(buffer).wait()`: clock the whole buffer out and block until the transfer is
        done, then hand back the same buffer, unmodified, and the same handle. */
    method WriteWait(buffer: SpiBitContainer) returns (back: SpiBitContainer, handle: SpiDma)
      modifies this
      ensures back == buffer && handle == this
      ensures sent == old(sent) + [buffer.data[..]]
    {
      sent := sent + [buffer.data[..]];
      back, handle := buffer, this;
    }
  }
}
