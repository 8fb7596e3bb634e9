# RayTracing renderer output stage, in Dafny

This project models the output stage of `RayTracing::Renderer` (`RayTracing/src/Renderer.cpp`) and proves properties of that model. There are three parts:

- **`Utils::ConvertToRGBA`.** It quantises each colour channel in [0, 1] to a byte, as floor(255·c). It then packs the four bytes into one 32-bit word as `(A<<24)|(B<<16)|(G<<8)|R`, with R in the low byte and A in the high byte.
- **`Renderer::Render`.** For each row y and each column x of the final image, it computes the pixel's normalised coordinate. It asks `PerPixel` for a colour, clamps that colour to [0, 1], and writes the packed word to slot `x + y*width` of the flat buffer `m_ImageData`. It then hands the buffer to the image with `SetData`.
- **`Renderer::OnResize`.** If an image of the requested size already exists, nothing changes. Otherwise it resizes the image, or creates it the first time. It then replaces the buffer with a fresh one of `width*height` slots.

`PerPixel` is modelled as far as its behaviour does not depend on floating point:

- Its ray starts at (0, 0, 1.5) and points along (x, y, -1). It tests that ray against a sphere of radius 0.5 at the origin, using the discriminant b² − 4ac.
- A negative discriminant gives the sky colour. Otherwise the pixel gets the lit colour of the hit.
- Alpha is 1 in both cases.
- The two colour formulas themselves are parameters (`Shading.Shaders`).

Modules:

- `Color` (`Color.dfy`): clamping, quantising, packing, and the byte extractors `Red`/`Green`/`Blue`/`Alpha`.
- `Shading` (`Shading.dfy`): the discriminant and `PerPixel`.
- `Walnut` (`Image.dfy`): the part of the foreign `Walnut::Image` that the renderer uses.
- `RayTracing` (`Renderer.dfy`): the pixel grid, the frame the renderer produces, and the `Renderer` class. The class has a one-slot-per-word `array` field for `m_ImageData` and a nullable `Image` field for `m_FinalImage`.

Arithmetic:

- Integers that are `uint32_t` in the source are `Walnut.U32`.
- The packed word is a `bv32`. In C++, `a << 24` is computed on a promoted `int` and leaves the signed range for a ≥ 128. The value that reaches the `uint32_t` result is the unsigned 32-bit one modelled here.
- `new uint32_t[width * height]` multiplies in `uint32_t`. `AllocatedSlots` therefore reduces the product modulo 2^32, and `Render` requires a pixel count below 2^32.

Two facts about the code that a reader might not expect:

- `OnResize` has no zero-area guard: `OnResize(0, 0)` resizes the image to 0×0 and allocates an empty buffer, and the model does the same.
- `Renderer.cpp` has no frame accumulation, frame index, settings or multi-sphere scan, so none is modelled.

## Model

| member | source | states |
|---|---|---|
| `Color.Clamp` | RayTracing/src/Renderer.cpp:49 | the clamped channel lies in [0, 1]; a channel already in [0, 1] is unchanged; below 0 gives 0 and above 1 gives 1 |
| `Color.ClampColor` | RayTracing/src/Renderer.cpp:49 | every component of the clamped colour is in [0, 1], and each component that was already in range is unchanged (so a clamped colour, and alpha 1, stay as they are) |
| `Color.ClampColorIdempotent` | RayTracing/src/Renderer.cpp:49 | clamping a clamped colour again changes nothing |
| `Color.Quantise` | RayTracing/src/Renderer.cpp:11-14 | a channel c in [0, 1] becomes the integer q with q ≤ 255·c < q + 1, i.e. floor(255·c), which lies in [0, 255]; 0.0 gives 0 and 1.0 gives 255 |
| `Color.Pack` | RayTracing/src/Renderer.cpp:16 | extracting bits 0–7, 8–15, 16–23 and 24–31 of the packed word gives back R, G, B and A respectively |
| `Color.PackInjective` | RayTracing/src/Renderer.cpp:16 | two byte quadruples that pack to the same word are equal |
| `Color.ConvertToRGBA` | RayTracing/src/Renderer.cpp:10-17 | for a clamped colour, each byte of the word is that channel's quantised value, at the position of the packing convention; alpha 1.0 yields alpha byte 0xFF |
| `Shading.Discriminant` | RayTracing/src/Renderer.cpp:73-79 | for a direction of positive length, b² − 4ac is negative exactly when every point of the line through the origin along that direction lies strictly outside the sphere; when it is not negative, the point of the line nearest the centre lies in or on the sphere |
| `Shading.RayDirection` | RayTracing/src/Renderer.cpp:63-64 | the unnormalised direction (x, y, -1) has squared length at least 1, so normalising it never divides by zero, and it points down the z axis towards the sphere |
| `Shading.Misses` | RayTracing/src/Renderer.cpp:81 | the test `discriminant < 0` holds exactly when no point of the ray from (0, 0, 1.5), for t ≥ 0, lies in or on the sphere |
| `Shading.DiscriminantScales` | RayTracing/src/Renderer.cpp:73-79 | scaling the ray direction by k multiplies the discriminant b² − 4ac by k² |
| `Shading.MissTestScaleInvariant` | RayTracing/src/Renderer.cpp:63-81 | for k > 0 the miss test on k·dir agrees with the test on dir, so testing the normalised direction and the raw (x, y, -1) decide alike |
| `Shading.MissIffOutsideDisc` | RayTracing/src/Renderer.cpp:62-81 | with this ray origin and sphere radius, the ray through coordinate (x, y) misses exactly when x² + y² > 1/8 (both directions) |
| `Shading.PerPixel` | RayTracing/src/Renderer.cpp:58-95 | the returned colour has alpha 1; it is the sky colour when the discriminant is negative and the lit colour otherwise |
| `Shading.PerPixelOutsideDiscIsSky` | RayTracing/src/Renderer.cpp:73-82 | every coordinate with x² + y² > 1/8 is given the sky colour, with alpha 1 |
| `RayTracing.AllocatedSlots` | RayTracing/src/Renderer.cpp:35 | the slot count fits in 32 bits and equals width·height whenever that product does |
| `RayTracing.PixelIndex` | RayTracing/src/Renderer.cpp:51 | the slot x + y·width of a pixel with x < width lies in row y's block of width slots, [y·width, y·width + width) |
| `RayTracing.PixelIndexInBounds` | RayTracing/src/Renderer.cpp:40-51 | for x < width and y < height the write index x + y·width is below width·height |
| `RayTracing.PixelIndexInverse` | RayTracing/src/Renderer.cpp:51 | for x < width the slot x + y·width gives back x as its remainder and y as its quotient by width, so distinct pixels get distinct slots |
| `RayTracing.PixelOfSlot` | RayTracing/src/Renderer.cpp:51 | every slot below width·height is the slot of a pixel of the grid, namely (i mod width, i div width) |
| `RayTracing.PixelIndexBijective` | RayTracing/src/Renderer.cpp:40-51 | (x, y) ↦ x + y·width maps the grid into [0, width·height) injectively, and every slot of that range is hit |
| `RayTracing.PixelCoord` | RayTracing/src/Renderer.cpp:44-46 | the coordinate handed to PerPixel has y in [-1, 1) and x in [-width/height, width/height) |
| `RayTracing.PixelValue` | RayTracing/src/Renderer.cpp:44-51 | the word written for every pixel has alpha byte 0xFF (PerPixel's alpha 1 survives the clamp and packs to 255) |
| `RayTracing.PixelValueShading` | RayTracing/src/Renderer.cpp:44-51 | the word of a pixel whose ray misses the sphere is the packed, clamped sky colour, and that of a pixel whose ray meets it the packed, clamped lit colour |
| `RayTracing.RowPrefix` | RayTracing/src/Renderer.cpp:42-52 | reference definition of what the inner loop has written after x = n: n words, word x being the value written for pixel (x, y) |
| `RayTracing.Rows` | RayTracing/src/Renderer.cpp:40-53 | the first n rows in fill order hold exactly n·width words |
| `RayTracing.Frame` | RayTracing/src/Renderer.cpp:40-53 | a finished frame has exactly width·height words |
| `RayTracing.RowsPixel` | RayTracing/src/Renderer.cpp:40-51 | within the first n rows, slot x + y·width holds the word of pixel (x, y) |
| `RayTracing.RowsOpaque` | RayTracing/src/Renderer.cpp:40-51 | every word of the first n rows has alpha byte 0xFF |
| `RayTracing.FramePixel` | RayTracing/src/Renderer.cpp:40-51 | after a pass, the slot of each pixel holds the packed, clamped PerPixel colour of that very pixel |
| `RayTracing.FrameSlot` | RayTracing/src/Renderer.cpp:40-51 | conversely, every slot of the frame holds the word of the pixel (i mod width, i div width) that maps to it |
| `RayTracing.FrameOpaque` | RayTracing/src/Renderer.cpp:48-51 | every word of a rendered frame has alpha byte 0xFF |
| `RayTracing.Renderer.constructor` | RayTracing/src/Renderer.h:15-25 | a new renderer has neither an image nor a buffer, which satisfies the invariant |
| `RayTracing.Renderer.OnResize` | RayTracing/src/Renderer.cpp:20-36 | keeps the invariant; with the existing image's own width and height it changes nothing (renderer fields and image unchanged); otherwise the image has the requested size and no pixels handed over, is the same object if it existed and a fresh one if not, and the buffer is a fresh array of AllocatedSlots(width, height) slots |
| `RayTracing.Renderer.Render` | RayTracing/src/Renderer.cpp:38-56 | given an image whose pixel count fits in 32 bits, keeps the invariant and the image size, leaves the buffer equal to Frame(width, height) and hands exactly that buffer to the image |
| `RayTracing.Renderer.RenderRow` | RayTracing/src/Renderer.cpp:42-52 | given finished rows 0..y-1, fills row y so that rows 0..y hold Rows(y + 1), and writes no slot after the row |
| `Walnut.Image.constructor` | RayTracing/src/Renderer.cpp:31 | a new image has the requested width and height and no pixels handed over yet |
| `Walnut.Image.Resize` | RayTracing/src/Renderer.cpp:27 | the image takes the new width and height; its storage is fresh, so it holds no pixels |
| `Walnut.Image.SetData` | RayTracing/src/Renderer.cpp:55 | the image keeps its size and holds the first width·height words of the buffer |

## Left out

- `RayTracing/src/WalnutApp.cpp` (ImGui panels, scene editing, timer, entry point) is not part of this model. It is UI code.
- Floating point: colours, coordinates and the discriminant are exact reals. Single-precision rounding, NaN and infinity are not modelled.
- Color.Quantise: floor(255·c) is taken over exact reals. In single precision, a product `c * 255.0f` whose exact value lies just below an integer can round up to that integer, which the model does not capture. It requires c in [0, 1] because the cast of an out-of-range float to `uint8_t` is undefined in C++. `Render` only converts clamped colours.
- Shading.PerPixel: the sky gradient (`Renderer.cpp:60`) and the hit shading (`Renderer.cpp:85-94`: `sqrt`, `normalize`, diffuse light, normal colouring) are uninterpreted functions in `Shading.Shaders`. Only alpha = 1 and the miss test are proved.
- The miss test in the model uses the unnormalised direction (x, y, -1), because `normalize` needs a square root. `Shading.MissTestScaleInvariant` shows that any positive rescaling, and so normalisation, gives the same answer.
- RayTracing.PixelCoord: the coordinate is computed over exact reals; float division and rounding are left out.
- RayTracing.Renderer.Render: requires width·height < 2^32. Above that, the source's `uint32_t` buffer size and the slot index `x + y*width` both wrap, and the writes leave the buffer. This is undefined behaviour, not a case the source handles.
- RayTracing.Renderer.Render: reads the image's width and height once, while the source re-reads them on each loop test. Nothing in the loop changes the image, so the two agree.
- RayTracing.Renderer.RenderRow: the inner x loop is its own method so that each loop can be proved separately. The source writes it inline in `Render`.
- `Walnut::Image` is a foreign library; its source is not part of this model. Its GPU upload is modelled as keeping a copy of the words handed to `SetData`. `Resize` is assumed to reallocate its storage, so no earlier pixels survive it.
- Manual memory (`delete[]`/`new[]`, `Renderer.cpp:34-35`) is modelled as the field getting a fresh array; the old one is simply no longer referenced.
- `Renderer.h` declares `Render(const Scene&, const Camera&)` and `TraceRay`, but the `.cpp` does not define them. Only the bodies in the `.cpp` are modelled. The `lightDir` member (`Renderer.h:27`) is not used by those bodies.
- `GetFinalImage` (`Renderer.h:20`) only returns the field; in the model, callers read `finalImage` directly.
- `Scene.h`, `Camera.h` and `Ray.h` are not used by the shown `Render`.
- There is no parallelism in the shown loop, so none is modelled.
