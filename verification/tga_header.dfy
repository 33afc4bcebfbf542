/**
  The 18-byte header of a Truevision TGA 2.0 file, as read by
  `Renderer::CreateTextureFromTGAMemory`: Field 1 (image ID length),
  Field 2 (color map type), Field 3 (image type), Field 4 (color map
  specification, carried but unused) and Field 5 (image specification:
  origin, width, height, pixel depth, image descriptor). The 16-bit fields
  are little-endian.
 */
module TgaHeader {

  /** An unsigned char. */
  type byte = b: int | 0 <= b < 256

  /** Size of the packed header struct. */
  const HeaderSize: nat := 18

  /** Size of Field 4, the color map specification. */
  const ColorMapSpecSize: nat := 5

  /** Image type 2: uncompressed true-colour. */
  const TrueColorImage: byte := 2

  /** Bit 5 of the image descriptor (mask 0x20): rows are stored top-to-bottom. */
  const TopToBottomMask: nat := 0x20

  datatype Header = Header(
    idLength: byte,
    colorMapType: byte,
    imageType: byte,
    colorMapSpec: seq<byte>,
    xOrigin: nat,
    yOrigin: nat,
    width: nat,
    height: nat,
    bitsPerPixel: byte,
    imageDescriptor: byte)

  /** A header that fits the packed 18-byte layout. */
  predicate ValidHeader(h: Header) {
    && |h.colorMapSpec| == ColorMapSpecSize
    && h.xOrigin < 0x1_0000
    && h.yOrigin < 0x1_0000
    && h.width < 0x1_0000
    && h.height < 0x1_0000
  }

  /** An unsigned short read from two bytes on a little-endian host. */
  function DecodeU16(lo: byte, hi: byte): (v: nat)
    ensures v < 0x1_0000
    ensures v % 256 == lo && v / 256 == hi
  {
    lo as int + 256 * hi as int
  }

  function EncodeU16(v: nat): (b: seq<byte>)
    requires v < 0x1_0000
    ensures |b| == 2
    ensures b[0] as int + 256 * b[1] as int == v
  {
    [v % 256, v / 256]
  }

  lemma U16RoundTrip(lo: byte, hi: byte)
    ensures EncodeU16(DecodeU16(lo, hi)) == [lo, hi]
  {
  }

  /** Reinterprets the first 18 bytes of the buffer as the header struct. */
  function ParseHeader(buf: seq<byte>): (h: Header)
    requires |buf| >= HeaderSize
    ensures ValidHeader(h)
    ensures h.idLength == buf[0] && h.colorMapType == buf[1] && h.imageType == buf[2]
    ensures h.colorMapSpec == buf[3..8]
    ensures h.width == buf[12] as int + 256 * buf[13] as int
    ensures h.height == buf[14] as int + 256 * buf[15] as int
    ensures h.bitsPerPixel == buf[16] && h.imageDescriptor == buf[17]
  {
    Header(
      buf[0], buf[1], buf[2], buf[3..8],
      DecodeU16(buf[8], buf[9]),
      DecodeU16(buf[10], buf[11]),
      DecodeU16(buf[12], buf[13]),
      DecodeU16(buf[14], buf[15]),
      buf[16], buf[17])
  }

  /** The packed byte image of a header; the inverse of ParseHeader. */
  function EncodeHeader(h: Header): (b: seq<byte>)
    requires ValidHeader(h)
    ensures |b| == HeaderSize
  {
    [h.idLength, h.colorMapType, h.imageType] + h.colorMapSpec
      + EncodeU16(h.xOrigin) + EncodeU16(h.yOrigin)
      + EncodeU16(h.width) + EncodeU16(h.height)
      + [h.bitsPerPixel, h.imageDescriptor]
  }

  lemma ParseEncodeHeader(h: Header)
    requires ValidHeader(h)
    ensures ParseHeader(EncodeHeader(h)) == h
  {
    var b := EncodeHeader(h);
    assert b[3..8] == h.colorMapSpec;
  }

  lemma EncodeParseHeader(buf: seq<byte>)
    requires |buf| >= HeaderSize
    ensures EncodeHeader(ParseHeader(buf)) == buf[..HeaderSize]
  {
    var h := ParseHeader(buf);
    U16RoundTrip(buf[8], buf[9]);
    U16RoundTrip(buf[10], buf[11]);
    U16RoundTrip(buf[12], buf[13]);
    U16RoundTrip(buf[14], buf[15]);
  }

  /** The only kind of image the decoder accepts: no color map, image type 2, 24 or 32 bits per pixel. */
  predicate Accepted(h: Header) {
    h.colorMapType == 0 && h.imageType == TrueColorImage && (h.bitsPerPixel == 32 || h.bitsPerPixel == 24)
  }

  /** Image-descriptor bit 5 (`image_descriptor & 0x20`) set: source row i goes to destination row height-1-i. */
  predicate Flipped(h: Header) {
    (h.imageDescriptor / TopToBottomMask) % 2 == 1
  }

  /** Source bytes per pixel: blue, green, red, and alpha only at 32 bits. */
  function BytesPerPixel(h: Header): (n: nat)
    ensures Accepted(h) ==> n == h.bitsPerPixel / 8
  {
    if h.bitsPerPixel == 32 then 4 else 3
  }

  function PixelCount(h: Header): nat {
    h.width * h.height
  }

  /** Offset of the first pixel byte: the header, then the image ID field. */
  function PixelStart(h: Header): nat {
    HeaderSize + h.idLength
  }

  /** Number of pixel bytes the decoder reads. */
  function PixelDataSize(h: Header): nat {
    PixelCount(h) * BytesPerPixel(h)
  }

  /**
    What the decoder demands of its caller: the header is present, and when the
    header is accepted, so is the whole pixel array. The decoder itself never
    checks the length.
   */
  predicate WellSized(buf: seq<byte>) {
    && |buf| >= HeaderSize
    && (Accepted(ParseHeader(buf)) ==>
          PixelStart(ParseHeader(buf)) + PixelDataSize(ParseHeader(buf)) <= |buf|)
  }
}
