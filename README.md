# WS2812 LED strip over SPI with DMA — a Dafny model

The firmware drives a WS2812 strip from an STM32F1 by turning every data bit of every
pixel into one SPI byte: clocked out at 3 MHz, `0b1111_0000` is the strip's long pulse
(a 1) and `0b1000_0000` its short pulse (a 0). A frame is 24 such bytes per LED, sent
green, red, blue and most significant bit first, followed by 20 idle bytes for the
strip's reset gap. A DMA transfer clocks the buffer out while the task blocks.

The model covers:

- the encoder `led_spi_bit_pattern` / `set_from_byte` / `set_spi_byte` (textually the
  same in `src/rgb.rs` and `src/main.rs`, modelled once in module `Encoder`) as methods
  over an `array<bv8>`, proved against the specification function `Encoding`; Rust's
  re-slicing `&mut output[8..]` is an offset into the same array;
- what an encoded frame says (module `EncoderProperties`): the byte at every index,
  the idle tail, only pulse bytes in the pixel region, and a decoder for which
  decode-after-encode is the identity, so no two strips share an encoding;
- the buffer size `led_spi_bit_amount` and the zeroed `spi_bit_container!` buffer
  (module `BitContainer`), with the SPI/DMA handle whose `write(..).wait()` hands back
  the same buffer and handle and records the bytes that went on the wire;
- `Ws2812Driver` (module `Ws2812`): `new`, `prepare_color`, `transmit`, with the
  invariant that both `Option` slots are filled between calls;
- `wheel` (module `Animation`) with Rust's `u8` overflow checks as preconditions of the
  arithmetic steps, so the function being well defined is the absence of overflow;
- the RTIC application (module `Firmware`): the resources, `init` and the task `exe`,
  with the invariant that every slot is filled between runs and that the `n`-th run is
  queued exactly `n` periods after the start, on the wrapping 32-bit cycle counter.

`LED_COUNT` is 50 (`src/main.rs:23`). `src/rgb.rs` reads `crate::LED_COUNT` from a crate
root that is not part of this model; the model uses the 50 of `src/main.rs` for the driver too.

Where this firmware does something a reader might not expect, the model follows the code:

- The code keeps ONE bit buffer in steady state, not two alternating ones: the driver
  and `exe` encode into the buffer they own, send it, and get the same buffer back.
- `init` encodes the blank frame into a first buffer, sends it, and drops it
  (`result.0` is never stored); the `led_buffer` resource is a second, fresh, all-zero
  buffer. `BlankFrame` states the whole frame sent, which is not that zero buffer's content.
- The clearing pass writes `0x00` into every byte, not the short-pulse byte `0x80`;
  only bytes inside the pixel region are then overwritten with pulses.
- `exe` re-arms at `scheduled + 100_000` cycles, the time it was due, not at the time
  the transfer completed.
- `transmit` takes no colours: it sends the pixels stored by `prepare_color`.

## Model

| member | source | states |
|---|---|---|
| `Encoder.LedSpiBitAmount` | src/rgb.rs:65-84 | the buffer holds 24 bytes per LED and exactly 20 more for the reset gap |
| `Encoder.MaskTest` | src/rgb.rs:157-159 | the test `((byte << i) & 0x80) == 0x80` at step `i` is bit `7 - i` of the byte, so channels go out MSB first |
| `Encoder.SpiByte` | src/rgb.rs:164-169 | a data bit becomes `0xF0` or `0x80`, and the pulse byte gives the bit back |
| `Encoder.ChannelPattern` | src/rgb.rs:156-162 | one channel byte expands to exactly 8 SPI bytes |
| `Encoder.PixelPattern` | src/rgb.rs:147-152 | one pixel expands to exactly 24 SPI bytes, green then red then blue |
| `Encoder.Frame` | src/rgb.rs:146-153 | the pixel data is exactly 24 bytes per pixel, pixels in strip order |
| `Encoder.Encoding` | src/rgb.rs:138-154 | the expected buffer contents are exactly as long as the buffer, whatever the strip |
| `Encoder.SetSpiByte` | src/rgb.rs:164-169 | writes the pulse byte for the bit at the slice start and changes nothing else |
| `Encoder.SetFromByte` | src/rgb.rs:156-162 | needs 8 bytes of slice; writes the channel's 8 pulse bytes there and changes nothing else |
| `Encoder.LedSpiBitPattern` | src/rgb.rs:138-154 | needs room for 24 bytes per pixel; afterwards the whole buffer is `Encoding` of the pixels, whatever it held before |
| `Encoder.SpliceThree` | src/rgb.rs:147-152 | the three channel writes at consecutive 8-byte offsets write one pixel pattern |
| `Encoder.PixelStep` | src/rgb.rs:146-153 | writing pixel `n` after `n` encoded pixels gives `n + 1` encoded pixels followed by idle bytes |
| `EncoderProperties.FrameSlice` | src/rgb.rs:146-153 | bytes `24k .. 24k+24` of the pixel data are pixel `k`'s pattern |
| `EncoderProperties.EncodingAt` | src/rgb.rs:146-168 | byte `24k + 8c + j` is `0xF0` if bit `7 - j` of channel `c` (0 green, 1 red, 2 blue) of pixel `k` is set, else `0x80` |
| `EncoderProperties.EncodingTail` | src/rgb.rs:142-145 | every byte from `24 * leds.len()` to the end of the buffer is `0x00` |
| `EncoderProperties.FramePulses` | src/rgb.rs:164-168 | the pixel data holds only `0xF0` and `0x80` |
| `EncoderProperties.EncodingPulses` | src/main.rs:169-174 | in an encoded buffer every byte of the pixel region is `0xF0` or `0x80` |
| `EncoderProperties.ResetGap` | src/rgb.rs:80-83 | a buffer of `led_spi_bit_amount` bytes ends in exactly 20 bytes that are all `0x00` |
| `EncoderProperties.ChannelRoundTrip` | src/main.rs:161-167 | the channel byte can be read back from its 8 pulse bytes |
| `EncoderProperties.PixelRoundTrip` | src/main.rs:151-158 | the pixel can be read back from its 24 bytes in G, R, B order |
| `EncoderProperties.RoundTrip` | src/main.rs:143-159 | decoding an encoded buffer gives back the strip, for any buffer length that fits |
| `EncoderProperties.EncodingInjective` | src/main.rs:143-159 | two strips of the same length with the same encoding are equal |
| `BitContainer.SpiBitContainer.constructor` | src/rgb.rs:51-62 | a new buffer is fresh, `led_spi_bit_amount` bytes long and all `0x00` |
| `BitContainer.SpiDma.WriteWait` | src/rgb.rs:127-128 | the blocking transfer puts the buffer's bytes on the wire once and returns the same buffer, unmodified, and the same handle |
| `Ws2812.Ws2812Driver.constructor` | src/rgb.rs:104-112 | both slots filled, all pixels black, a fresh all-zero bit buffer |
| `Ws2812.Ws2812Driver.PrepareColor` | src/rgb.rs:116-119 | needs `index < LED_COUNT`; sets that pixel, leaves the other pixels and both slots as they were |
| `Ws2812.Ws2812Driver.Transmit` | src/rgb.rs:120-133 | needs both slots filled; leaves them filled with the same handle and buffer, pixels unchanged, the buffer holding the pixels' encoding, and exactly that frame appended to the wire |
| `Animation.Sub` | src/main.rs:181-189 | a `u8` subtraction that does not underflow, exact in 16 bits |
| `Animation.Triple` | src/main.rs:183-190 | `p * 3` on `u8` is exact when `p <= 85` |
| `Animation.Wheel` | src/main.rs:180-191 | no step overflows; the three channels sum to 255 and at least one is 0 |
| `Animation.WheelIsColorWheel` | src/main.rs:178-191 | the three branches are the colour wheel red to green on [0, 85], green to blue on [85, 170], blue to red on [170, 255] |
| `Animation.WheelEnds` | src/main.rs:181-190 | `wheel(0)` and `wheel(255)` are both (255, 0, 0) |
| `Firmware.Later` | src/main.rs:135 | the next instant is the given one plus the cycles, modulo 2^32 |
| `Firmware.LaterAdd` | src/main.rs:135 | waiting `a` then `b` cycles equals waiting `a + b`, across counter wraps |
| `Firmware.WheelFrame` | src/main.rs:121-124 | the fill loop's pixels: `LED_COUNT` of them, pixel `i` is `wheel((current_hue + i) mod 256)` |
| `Firmware.WheelFrameScrolls` | src/main.rs:121-133 | after one run the colours have moved one pixel along the strip |
| `Firmware.BlankFrame` | src/main.rs:99-101 | the frame `init` sends is a short pulse `0x80` for each of the `24 * LED_COUNT` data bits, then 20 zero bytes; so it differs from the zeroed buffer installed afterwards |
| `Firmware.Resources.constructor` | src/main.rs:95-111 | `exe` queued at the start time, one blank frame on the wire, `spi_dma` the given handle, `led_buffer` a fresh all-zero buffer, `pixels` all black, `current_hue` 0 |
| `Firmware.Resources.Exe` | src/main.rs:114-136 | needs all three slots filled; refills them with the same objects, pixels from the wheel at `current_hue`, the buffer holding their encoding, exactly that frame sent, hue plus 1, next run one period after the time this run was due; the run count and the queue time stay in step |

## Left out

- Clock, RCC, GPIO, SPI and DMA configuration in `init`: hardware set-up through HAL calls; the SPI/DMA handle is a parameter of `init` and of the driver's constructor.
- The DMA engine itself: `write(..).wait()` is a blocking step that records the buffer's bytes and returns buffer and handle; transfer timing, and a stuck transfer, are not modelled. The HAL reports no transfer error, so none is modelled.
- The RTIC runtime: only the resources and the one queue entry of `exe` are modelled; the runtime taking that entry before running `exe` is the first step of `Exe`. Interrupt dispatch and the `EXTI0` binding are left out.
- `singleton!`: each use is a fresh allocation; the `None` that a second execution of the same `singleton!` would give (and the panic of its `unwrap`) is not modelled.
- The `spi_bit_container!` macro of the external `ws2812_spi_dma` crate used by `src/main.rs`: it is not part of this model; the local definition in `src/rgb.rs` gives the buffer size for both.
- The `RgbDriver` trait and the `AsSlice` impl: Dafny traits are not used; the two trait methods are methods of `Ws2812Driver`, and `WriteWait` reads the buffer's bytes directly.
- `hprintln!` output and the semihosting panic handler: I/O only.
- Overflow of `current_hue + 1` (a `usize`) after very many runs: `currentHue` is an unbounded `nat`.
- `projects/etc/tx` and `projects/etc/rx`: radio examples that only configure and call the `embedded_nrf24l01` driver.
- The empty `mod test`.
