/** Pixel colours as the driver sees them (the `RGB8` type of the `smart_leds` crate)
    and the strip length the firmware is built for. */
module Color {

  /** One pixel: three 8-bit channel intensities. */
  datatype Rgb = Rgb(r: bv8, g: bv8, b: bv8)

  /** `RGB8::new(0, 0, 0)`. */
  const Black: Rgb := Rgb(0, 0, 0)

  /** `LED_COUNT`: the number of pixels on the strip. */
  const LedCount: nat := 50
}
