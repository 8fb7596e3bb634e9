/**
 The part of Walnut::Image that the renderer uses: its size, Resize, and
 SetData, which hands a buffer of packed pixels over to the image. The GPU
 upload behind SetData is modelled as keeping a copy of the words handed over.
 */
module Walnut {

  /** 2^32: one more than the largest uint32_t. */
  const TwoTo32: nat := 0x1_0000_0000

  /** An unsigned 32-bit value (uint32_t). */
  type U32 = n: nat | n < TwoTo32

  class Image {
    var width: U32
    var height: U32
    /** The pixels last handed over by SetData since the storage was (re)allocated. */
    var data: seq<bv32>

    /** Walnut::Image(width, height, ImageFormat::RGBA): fresh storage, no pixels yet. */
    constructor (width: U32, height: U32)
      ensures this.width == width && this.height == height && data == []
    {
      this.width := width;
      this.height := height;
      data := [];
    }

    /** Image::Resize: the new size, with freshly allocated (so empty) storage. */
    method Resize(width: U32, height: U32)
      modifies this
      ensures this.width == width && this.height == height && data == []
    {
      this.width := width;
      this.height := height;
      data := [];
    }

    /** Image::SetData: uploads width * height words from the buffer; the size stays. */
    method SetData(buffer: array<bv32>)
      requires width * height <= buffer.Length
      modifies this
      ensures width == old(width) && height == old(height)
      ensures data == buffer[..width * height]
    {
      data := buffer[..width * height];
    }
  }
}
