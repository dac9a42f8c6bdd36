/** `wheel`: the colour wheel the animation draws from. Position 0 is red; the colour
    fades red to green, green to blue, then blue back to red. All arithmetic is on `u8`.
    Each step carries its no-overflow condition, so the model agrees with Rust whether
    overflow checks panic (debug builds) or wrap (release builds): no step ever overflows.
    Widening to 16 bits states the exact values. */
module Animation {
  import opened Color

  /** `a - b` on `u8`; the requires is its no-underflow condition. */
  function Sub(a: bv8, b: bv8): (d: bv8)
    requires b <= a
    ensures d as bv16 + b as bv16 == a as bv16
  {
    a - b
  }

  /** `a * 3` on `u8`; the requires is its no-overflow condition. */
  function Triple(a: bv8): (t: bv8)
    requires a <= 85
    ensures t as bv16 == 3 * a as bv16
  {
    a * 3
  }

  /** `wheel(wheel_pos)`. Every step is checked: the function is well defined only because
      no subtraction underflows and no product exceeds 255. */
  function Wheel(wheelPos: bv8): (c: Rgb)
    ensures c.r as bv16 + c.g as bv16 + c.b as bv16 == 255
    ensures c.r == 0 || c.g == 0 || c.b == 0
  {
    var p := Sub(255, wheelPos);
    if p < 85 then
      Rgb(Sub(255, Triple(p)), 0, Triple(p))
    else if p < 170 then
      var q := Sub(p, 85);
      Rgb(0, Triple(q), Sub(255, Triple(q)))
    else
      var q := Sub(p, 170);
      Rgb(Triple(q), Sub(255, Triple(q)), 0)
  }

  /** The colour wheel stated directly in the position `h`: on [0, 85] red falls and green
      rises by 3 per step, on [85, 170] green hands over to blue, on [170, 255] blue to red.
      At 85 and 170, where two segments meet, both formulas agree. */
  function ColorWheel(h: bv16): (bv16, bv16, bv16)
    requires h <= 255
  {
    if h <= 85 then (255 - 3 * h, 3 * h, 0)
    else if h <= 170 then (0, 510 - 3 * h, 3 * h - 255)
    else (3 * h - 510, 0, 765 - 3 * h)
  }

  lemma WheelIsColorWheel(h: bv8)
    ensures (Wheel(h).r as bv16, Wheel(h).g as bv16, Wheel(h).b as bv16) == ColorWheel(h as bv16)
  {
  }

  /** Both ends of the position range are pure red. */
  lemma WheelEnds()
    ensures Wheel(0) == Rgb(255, 0, 0) && Wheel(255) == Rgb(255, 0, 0)
  {
  }
}
