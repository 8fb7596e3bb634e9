/**
 The output stage of RayTracing::Renderer: OnResize keeps the final image and
 the packed pixel buffer m_ImageData at the requested size, and Render fills
 the buffer row by row with the clamped, packed colour of every pixel and
 hands it to the image.
 */
module RayTracing {
  import opened Color
  import opened Shading
  import opened Walnut

  /**
   The slot count new uint32_t[width * height] allocates: the product is
   computed in uint32_t, so it is reduced modulo 2^32.
   */
  function AllocatedSlots(width: U32, height: U32): (n: U32)
    ensures width * height < TwoTo32 ==> n == width * height
  {
    var product: nat := width * height;
    ModOfSmall(product, TwoTo32);
    product % TwoTo32
  }

  lemma ModOfSmall(n: nat, m: nat)
    requires 0 < m
    ensures n % m < m
    ensures n < m ==> n % m == n
  {
  }

  /**
   The slot x + y * width of pixel (x, y) in the row-major buffer: a pixel of
   row y lands in that row's block of width slots, which starts at y * width.
   */
  function PixelIndex(x: nat, y: nat, width: nat): (i: nat)
    ensures y * width <= i
    ensures x < width ==> i < y * width + width
  {
    x + y * width
  }

  /** Every pixel of the grid has its slot inside a buffer of width * height words. */
  lemma PixelIndexInBounds(x: nat, y: nat, width: nat, height: nat)
    requires x < width && y < height
    ensures PixelIndex(x, y, width) < width * height
  {
    calc {
      PixelIndex(x, y, width);
      < width + y * width;
      == (y + 1) * width;
      <= { assert y + 1 <= height; MulMonotone(y + 1, height, width); }
      height * width;
    }
  }

  /** The slot after the end of row y is the first slot of row y + 1. */
  lemma NextRowStart(y: nat, width: nat)
    ensures PixelIndex(width, y, width) == PixelIndex(0, y + 1, width)
  {
    assert (y + 1) * width == y * width + width;
  }

  lemma MulMonotone(a: nat, b: nat, c: nat)
    requires a <= b
    ensures a * c <= b * c
  {
  }

  /** A slot determines its pixel: column and row come back as remainder and quotient. */
  lemma PixelIndexInverse(x: nat, y: nat, width: nat)
    requires x < width
    ensures PixelIndex(x, y, width) % width == x
    ensures PixelIndex(x, y, width) / width == y
  {
    var i := PixelIndex(x, y, width);
    var q, r := i / width, i % width;
    assert i == q * width + r;
    assert (y - q) * width == r - x;
    if y - q >= 1 {
      MulMonotone(1, y - q, width);
      assert false;
    } else if q - y >= 1 {
      MulMonotone(1, q - y, width);
      assert false;
    }
  }

  /** Every slot below width * height is the slot of a pixel of the grid. */
  lemma PixelOfSlot(i: nat, width: nat, height: nat)
    requires i < width * height
    ensures 0 < width && i % width < width && i / width < height
    ensures PixelIndex(i % width, i / width, width) == i
  {
    if width == 0 {
      assert false;
    }
    if i / width >= height {
      MulMonotone(height, i / width, width);
      assert false;
    }
  }

  /**
   The map (x, y) to x + y * width is a bijection from the width-by-height grid
   onto the slots [0, width * height).
   */
  lemma PixelIndexBijective(width: nat, height: nat)
    ensures forall x: nat, y: nat :: x < width && y < height ==>
      PixelIndex(x, y, width) < width * height &&
      PixelIndex(x, y, width) % width == x && PixelIndex(x, y, width) / width == y
    ensures forall i: nat :: i < width * height ==>
      i % width < width && i / width < height && PixelIndex(i % width, i / width, width) == i
  {
    forall x: nat, y: nat | x < width && y < height
      ensures PixelIndex(x, y, width) < width * height
      ensures PixelIndex(x, y, width) % width == x && PixelIndex(x, y, width) / width == y
    {
      PixelIndexInBounds(x, y, width, height);
      PixelIndexInverse(x, y, width);
    }
    forall i: nat | i < width * height
      ensures i % width < width && i / width < height && PixelIndex(i % width, i / width, width) == i
    {
      PixelOfSlot(i, width, height);
    }
  }

  /**
   The coordinate Render passes to PerPixel: each axis mapped to [-1, 1) and x
   then stretched by the aspect ratio width / height (exact reals here).
   */
  function PixelCoord(x: nat, y: nat, width: nat, height: nat): (c: Coord)
    requires x < width && y < height
    ensures -1.0 <= c.y < 1.0
    ensures -(width as real / height as real) <= c.x < width as real / height as real
  {
    var u := x as real / width as real * 2.0 - 1.0;
    var v := y as real / height as real * 2.0 - 1.0;
    UnitFraction(x, width);
    UnitFraction(y, height);
    StretchedRange(u, width as real / height as real);
    Coord(u * (width as real / height as real), v)
  }

  lemma UnitFraction(n: nat, d: nat)
    requires n < d
    ensures 0.0 <= n as real / d as real < 1.0
  {
  }

  lemma StretchedRange(u: real, s: real)
    requires -1.0 <= u < 1.0 && 0.0 < s
    ensures -s <= u * s < s
  {
  }

  /**
   The word Render writes for pixel (x, y): PerPixel, then clamp, then
   ConvertToRGBA. It is always opaque: PerPixel's alpha 1 survives the clamp
   and packs to 0xFF.
   */
  function PixelValue(x: nat, y: nat, width: nat, height: nat, shaders: Shaders): (v: bv32)
    requires x < width && y < height
    ensures Alpha(v) == 0xFF
  {
    ConvertToRGBA(ClampColor(PerPixel(PixelCoord(x, y, width, height), shaders)))
  }

  /**
   The word of a pixel whose ray misses the sphere is the packed sky colour,
   and that of a pixel whose ray meets it the packed lit colour.
   */
  lemma PixelValueShading(x: nat, y: nat, width: nat, height: nat, shaders: Shaders)
    requires x < width && y < height
    ensures var c := PixelCoord(x, y, width, height);
      Misses(c) ==> PixelValue(x, y, width, height, shaders) == ConvertToRGBA(ClampColor(Opaque(shaders.sky(c))))
    ensures var c := PixelCoord(x, y, width, height);
      !Misses(c) ==> PixelValue(x, y, width, height, shaders) == ConvertToRGBA(ClampColor(Opaque(shaders.lit(c))))
  {
  }

  /** The words of the first n pixels of row y, left to right. */
  function RowPrefix(y: nat, n: nat, width: nat, height: nat, shaders: Shaders): (r: seq<bv32>)
    requires y < height && n <= width
    ensures |r| == n
    ensures forall x :: 0 <= x < n ==> r[x] == PixelValue(x, y, width, height, shaders)
  {
    seq(n, x requires 0 <= x < n => PixelValue(x, y, width, height, shaders))
  }

  /** Writing pixel (x, y)'s word after the first x words of row y extends that prefix by one. */
  lemma RowPrefixStep(s: seq<bv32>, k: nat, rows: seq<bv32>, y: nat, x: nat, width: nat, height: nat, shaders: Shaders)
    requires y < height && x < width && k < |s|
    requires s[..k] == rows + RowPrefix(y, x, width, height, shaders)
    requires s[k] == PixelValue(x, y, width, height, shaders)
    ensures s[..k + 1] == rows + RowPrefix(y, x + 1, width, height, shaders)
  {
    assert s[..k + 1] == s[..k] + [s[k]];
    assert RowPrefix(y, x + 1, width, height, shaders) == RowPrefix(y, x, width, height, shaders) + [s[k]];
  }

  /** The words of the first n rows, row after row: the order Render fills the buffer in. */
  function Rows(n: nat, width: nat, height: nat, shaders: Shaders): (f: seq<bv32>)
    requires n <= height
    ensures |f| == n * width
  {
    if n == 0 then []
    else Rows(n - 1, width, height, shaders) + RowPrefix(n - 1, width, width, height, shaders)
  }

  /** The whole frame Render produces. */
  function Frame(width: nat, height: nat, shaders: Shaders): (f: seq<bv32>)
    ensures |f| == width * height
  {
    Rows(height, width, height, shaders)
  }

  /** Within the first n rows, the slot of pixel (x, y) holds the word of that pixel. */
  lemma {:induction false} RowsPixel(n: nat, x: nat, y: nat, width: nat, height: nat, shaders: Shaders)
    requires n <= height && x < width && y < n
    ensures PixelIndex(x, y, width) < |Rows(n, width, height, shaders)|
    ensures Rows(n, width, height, shaders)[PixelIndex(x, y, width)] == PixelValue(x, y, width, height, shaders)
  {
    var before := Rows(n - 1, width, height, shaders);
    assert |before| == (n - 1) * width;
    if y == n - 1 {
      assert PixelIndex(x, y, width) == |before| + x;
    } else {
      RowsPixel(n - 1, x, y, width, height, shaders);
    }
  }

  /** Every slot within the first n rows is opaque. */
  lemma {:induction false} RowsOpaque(n: nat, width: nat, height: nat, shaders: Shaders)
    requires n <= height
    ensures forall i :: 0 <= i < |Rows(n, width, height, shaders)| ==> Alpha(Rows(n, width, height, shaders)[i]) == 0xFF
  {
    if n > 0 {
      RowsOpaque(n - 1, width, height, shaders);
    }
  }

  /** After a pass, the slot of every pixel holds the packed, clamped colour of that very pixel. */
  lemma FramePixel(x: nat, y: nat, width: nat, height: nat, shaders: Shaders)
    requires x < width && y < height
    ensures PixelIndex(x, y, width) < |Frame(width, height, shaders)|
    ensures Frame(width, height, shaders)[PixelIndex(x, y, width)] == PixelValue(x, y, width, height, shaders)
  {
    RowsPixel(height, x, y, width, height, shaders);
  }

  /** Conversely, every slot of the frame holds the word of the one pixel that maps to it. */
  lemma FrameSlot(i: nat, width: nat, height: nat, shaders: Shaders)
    requires i < |Frame(width, height, shaders)|
    ensures i % width < width && i / width < height
    ensures Frame(width, height, shaders)[i] == PixelValue(i % width, i / width, width, height, shaders)
  {
    PixelOfSlot(i, width, height);
    FramePixel(i % width, i / width, width, height, shaders);
  }

  /** Every slot of a frame is opaque: the alpha byte of every written word is 0xFF. */
  lemma FrameOpaque(width: nat, height: nat, shaders: Shaders)
    ensures forall i :: 0 <= i < |Frame(width, height, shaders)| ==> Alpha(Frame(width, height, shaders)[i]) == 0xFF
  {
    RowsOpaque(height, width, height, shaders);
  }

  class Renderer {
    /** m_ImageData: null until the first OnResize. */
    var imageData: array?<bv32>
    /** m_FinalImage: null until the first OnResize. */
    var finalImage: Image?
    /** The floating-point colour formulas of PerPixel. */
    const shaders: Shaders

    /** Image and buffer exist together, and the buffer has the slots OnResize allocated. */
    ghost predicate Valid()
      reads this, finalImage
    {
      (finalImage == null <==> imageData == null) &&
      (finalImage != null ==> imageData.Length == AllocatedSlots(finalImage.width, finalImage.height))
    }

    /** Renderer() = default: no image and no buffer yet. */
    constructor (shaders: Shaders)
      ensures Valid() && finalImage == null && imageData == null && this.shaders == shaders
    {
      imageData := null;
      finalImage := null;
      this.shaders := shaders;
    }

    /**
     Renderer::OnResize. The same size as the existing image changes nothing;
     otherwise the image is resized (or created, the first time) and the buffer
     is replaced by a fresh one of width * height slots.
     */
    method OnResize(width: U32, height: U32)
      requires Valid()
      modifies this, finalImage
      ensures Valid()
      ensures old(finalImage) != null && old(finalImage.width) == width && old(finalImage.height) == height ==>
        unchanged(this) && unchanged(finalImage)
      ensures !(old(finalImage) != null && old(finalImage.width) == width && old(finalImage.height) == height) ==>
        && finalImage != null
        && finalImage.width == width && finalImage.height == height
        && (old(finalImage) != null ==> finalImage == old(finalImage))
        && (old(finalImage) == null ==> fresh(finalImage))
        && finalImage.data == []
        && fresh(imageData)
        && imageData.Length == AllocatedSlots(width, height)
    {
      if finalImage != null {
        if finalImage.width == width && finalImage.height == height {
          return;
        }
        finalImage.Resize(width, height);
      } else {
        finalImage := new Image(width, height);
      }
      imageData := new bv32[AllocatedSlots(width, height)];
    }

    /**
     Renderer::Render: for y, then x, across the image, writes the packed,
     clamped PerPixel colour of (x, y) to slot x + y * width, then hands the
     buffer to the image. It needs an image (the source dereferences it), and a
     size whose pixel count fits in 32 bits (otherwise the uint32_t buffer size
     and slot index wrap and the writes leave the buffer).
     */
    method Render()
      requires Valid() && finalImage != null
      requires finalImage.width * finalImage.height < TwoTo32
      modifies imageData, finalImage
      ensures Valid()
      ensures finalImage.width == old(finalImage.width) && finalImage.height == old(finalImage.height)
      ensures imageData[..] == Frame(finalImage.width, finalImage.height, shaders)
      ensures finalImage.data == imageData[..]
    {
      var width, height := finalImage.width, finalImage.height;
      var buffer := imageData;
      var size := buffer.Length;
      assert size == width * height;
      var y := 0;
      while y < height
        modifies buffer
        invariant y <= height
        invariant PixelIndex(0, y, width) <= size
        invariant buffer[..PixelIndex(0, y, width)] == Rows(y, width, height, shaders)
      {
        RenderRow(buffer, y, width, height);
        y := y + 1;
      }
      assert PixelIndex(0, y, width) == size;
      assert buffer[..] == buffer[..PixelIndex(0, y, width)];
      finalImage.SetData(buffer);
    }

    /**
     The inner loop of Render for row y: for x across the row, writes the
     packed, clamped PerPixel colour of (x, y) to slot x + y * width. The rows
     before y keep their words and no slot after the row is touched.
     */
    method RenderRow(buffer: array<bv32>, y: nat, width: nat, height: nat)
      requires y < height && buffer.Length == width * height
      requires buffer[..PixelIndex(0, y, width)] == Rows(y, width, height, shaders)
      modifies buffer
      ensures PixelIndex(0, y + 1, width) <= buffer.Length
      ensures buffer[..PixelIndex(0, y + 1, width)] == Rows(y + 1, width, height, shaders)
      ensures forall i :: PixelIndex(0, y + 1, width) <= i < buffer.Length ==> buffer[i] == old(buffer[i])
    {
      var rowStart := PixelIndex(0, y, width);
      NextRowStart(y, width);
      MulMonotone(y + 1, height, width);
      assert rowStart + width <= buffer.Length;
      var x := 0;
      while x < width
        invariant x <= width
        invariant buffer[..rowStart + x] == Rows(y, width, height, shaders) + RowPrefix(y, x, width, height, shaders)
        invariant forall i :: rowStart + x <= i < buffer.Length ==> buffer[i] == old(buffer[i])
      {
        var coord := PixelCoord(x, y, width, height);
        var color := PerPixel(coord, shaders);
        color := ClampColor(color);
        var slot := PixelIndex(x, y, width);
        assert slot == rowStart + x;
        buffer[slot] := ConvertToRGBA(color);
        RowPrefixStep(buffer[..], slot, Rows(y, width, height, shaders), y, x, width, height, shaders);
        x := x + 1;
      }
    }
  }
}
