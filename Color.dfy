/**
 Colours and their RGBA8 packing: the clamp that Render applies to every
 colour, and the encoder Utils::ConvertToRGBA that turns a clamped colour into
 one 32-bit word with R in the low byte and A in the high byte.

 Channels are exact reals here; the source's single-precision floats are not
 modelled.
 */
module Color {

  /** A linear RGBA colour, one real per channel (the source's glm::vec4). */
  datatype Rgba = Rgba(r: real, g: real, b: real, a: real)

  predicate InUnit(x: real) { 0.0 <= x <= 1.0 }

  /** Every channel of the colour lies in [0, 1]. */
  predicate IsClamped(c: Rgba) {
    InUnit(c.r) && InUnit(c.g) && InUnit(c.b) && InUnit(c.a)
  }

  function Min(x: real, y: real): real { if x <= y then x else y }

  function Max(x: real, y: real): real { if x >= y then x else y }

  /** glm::clamp(x, 0, 1), which glm defines as min(max(x, 0), 1). */
  function Clamp(x: real): (y: real)
    ensures InUnit(y)
    ensures InUnit(x) ==> y == x
    ensures x < 0.0 ==> y == 0.0
    ensures 1.0 < x ==> y == 1.0
  {
    Min(Max(x, 0.0), 1.0)
  }

  /** The component-wise clamp glm::clamp(color, 0.0f, 1.0f) of a vec4. */
  function ClampColor(c: Rgba): (d: Rgba)
    ensures IsClamped(d)
    ensures IsClamped(c) ==> d == c
    ensures InUnit(c.r) ==> d.r == c.r
    ensures InUnit(c.g) ==> d.g == c.g
    ensures InUnit(c.b) ==> d.b == c.b
    ensures InUnit(c.a) ==> d.a == c.a
  {
    Rgba(Clamp(c.r), Clamp(c.g), Clamp(c.b), Clamp(c.a))
  }

  /** Clamping is a projection: clamping twice is clamping once. */
  lemma ClampColorIdempotent(c: Rgba)
    ensures ClampColor(ClampColor(c)) == ClampColor(c)
  {
  }

  /**
   The cast (uint8_t)(x * 255.0f) of one channel. For x in [0, 1] the product
   lies in [0, 255] and the cast truncates it, which for a non-negative value
   is the floor. A channel outside [0, 1] would make the cast overflow, which
   in C++ is undefined; the source only converts clamped colours.
   */
  function Quantise(x: real): (q: nat)
    requires InUnit(x)
    ensures q <= 255
    ensures q as real <= 255.0 * x < (q + 1) as real
    ensures x == 0.0 ==> q == 0
    ensures x == 1.0 ==> q == 255
  {
    (255.0 * x).Floor
  }

  /** Byte 0 (bits 0-7) of a packed word. */
  function Red(w: bv32): bv8 { (w & 0xFF) as bv8 }

  /** Byte 1 (bits 8-15) of a packed word. */
  function Green(w: bv32): bv8 { ((w >> 8) & 0xFF) as bv8 }

  /** Byte 2 (bits 16-23) of a packed word. */
  function Blue(w: bv32): bv8 { ((w >> 16) & 0xFF) as bv8 }

  /** Byte 3 (bits 24-31) of a packed word. */
  function Alpha(w: bv32): bv8 { ((w >> 24) & 0xFF) as bv8 }

  /**
   The word (a << 24) | (b << 16) | (g << 8) | r. In C++ the shifts happen on
   a promoted int and a << 24 leaves the signed range when a >= 128; the value
   that reaches the uint32_t result is the unsigned 32-bit one computed here.
   Each byte comes back out of its own position, so nothing overlaps.
   */
  function Pack(r: bv8, g: bv8, b: bv8, a: bv8): (w: bv32)
    ensures Red(w) == r && Green(w) == g && Blue(w) == b && Alpha(w) == a
  {
    ((a as bv32) << 24) | ((b as bv32) << 16) | ((g as bv32) << 8) | (r as bv32)
  }

  /** Packing is injective: a packed word determines its four bytes. */
  lemma PackInjective(r: bv8, g: bv8, b: bv8, a: bv8, r': bv8, g': bv8, b': bv8, a': bv8)
    requires Pack(r, g, b, a) == Pack(r', g', b', a')
    ensures r == r' && g == g' && b == b' && a == a'
  {
  }

  /** Utils::ConvertToRGBA: quantise each channel and pack the four bytes. */
  function ConvertToRGBA(c: Rgba): (w: bv32)
    requires IsClamped(c)
    ensures Red(w) == Quantise(c.r) as bv8 && Green(w) == Quantise(c.g) as bv8
    ensures Blue(w) == Quantise(c.b) as bv8 && Alpha(w) == Quantise(c.a) as bv8
    ensures c.a == 1.0 ==> Alpha(w) == 0xFF
  {
    Pack(Quantise(c.r) as bv8, Quantise(c.g) as bv8, Quantise(c.b) as bv8, Quantise(c.a) as bv8)
  }
}
