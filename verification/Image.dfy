/**
 * `DecompressedImage`: the immutable result of a decompression. Its
 * properties are get-only, so they are constant fields here; `data` is the
 * array it was given, not a copy.
 */
module Image {
  import opened Codec

  class DecompressedImage {
    const width: int
    const height: int
    const rowBytes: int
    const data: array<byte>
    const pixelFormat: PixelFormat

    constructor (width: int, height: int, rowBytes: int, data: array<byte>, pixelFormat: PixelFormat)
      ensures this.width == width && this.height == height && this.rowBytes == rowBytes
      ensures this.data == data && this.pixelFormat == pixelFormat
    {
      this.width := width;
      this.height := height;
      this.rowBytes := rowBytes;
      this.data := data;
      this.pixelFormat := pixelFormat;
    }
  }
}
