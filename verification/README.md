# TGA texture decoding and vertex layout of the fpl renderer

This project models the two pieces of pure logic inside `src/renderer.cpp`
of the renderer, a thin layer over SDL and OpenGL:

1. `Renderer::CreateTextureFromTGAMemory`, which reads an uncompressed
   true-colour image (image type 2) in the Truevision TGA 2.0 format and
   converts it into a packed RGBA8 buffer. It checks the color map type,
   the image type and the pixel depth in the 18-byte header, skips the
   image-ID field, swizzles BGR(A) into
   RGBA (alpha 255 at 24 bits), and orders rows by bit 5 of the image
   descriptor. The GL upload at the end is replaced by returning the
   buffer with its width and height.
2. `Mesh::SetAttributes` and `Mesh::UnSetAttributes`, which walk a
   `kEND`-terminated vertex format and give each attribute a fixed shader
   location, a component count and type, a normalized flag and a running
   byte offset. The GL calls are replaced by the records they would
   receive and by the set of locations disabled.

Modules:

- `Wrappers` (`wrappers.dfy`): the `Option` type; `None` stands for the
  renderer's failure return, texture id 0.
- `TgaHeader` (`tga_header.dfy`): bytes, the header datatype, parsing and
  encoding of the packed 18-byte header with little-endian 16-bit fields,
  the acceptance test, and the buffer-size precondition `WellSized`.
- `TgaDecode` (`tga_decode.dfy`): `Decode`, a reference decoding that says
  for every output byte which input byte it comes from; `DecodeTga`, which
  follows the code's traversal (rows from `start_y` to `end_y` in steps of
  `y_direction`, a cursor walking the pixel data) and is proved equal to
  `Decode`; the count of bytes read and the trace of pixels written are
  ghost outputs for the proof; and lemmas on channels, row order and write order.
- `TgaAllocation` (`tga_allocation.dfy`): the size of the RGBA allocation,
  as written (signed 32-bit `int`) and corrected (64-bit `size_t`), and the
  destination offset of a pixel as written.
- `VertexLayout` (`vertex_layout.dfy`): attribute kinds, locations, sizes,
  the `SetAttributes` fold and the `UnSetAttributes` location set.

Bytes are integers in `0..255`; `Flipped` tests `image_descriptor & 0x20`
as `(image_descriptor / 0x20) % 2 == 1`.

## Model

| member | source | states |
|---|---|---|
| TgaHeader.ParseHeader | src/renderer.cpp:229-235 | the header is the first 18 bytes: id length, color map type and image type at bytes 0-2, the color map specification at 3-7, width at 12-13 and height at 14-15 little-endian, bits per pixel at 16, descriptor at 17 |
| TgaHeader.ParseEncodeHeader | src/renderer.cpp:229-235 | every header that fits the packed layout is read back unchanged from its 18-byte encoding |
| TgaHeader.EncodeParseHeader | src/renderer.cpp:229-235 | the parsed header re-encodes to exactly the first 18 bytes of the buffer, so parsing loses nothing |
| TgaHeader.BytesPerPixel | src/renderer.cpp:263-266 | the bytes consumed per pixel (three, plus one for alpha at 32 bits) equal `bpp / 8` for every accepted header |
| TgaDecode.Decode | src/renderer.cpp:240-268 | the reference decoding fails exactly when the header is rejected at 241-244; otherwise the texture has the header's width and height and `width * height * 4` bytes, byte `k` being channel `k % 4` of the file pixel that lands on pixel `k / 4` |
| TgaDecode.FlipRow | src/renderer.cpp:250-259 | source row `row` goes to destination row `height-1-row` when descriptor bit 5 is set and to row `row` otherwise, always inside the image |
| TgaDecode.FlipRowOrEndSteps | src/renderer.cpp:249-260 | the loop's `y` starts at `height-1` when descriptor bit 5 is set and at 0 otherwise, and each iteration adds -1 or 1 respectively |
| TgaDecode.DecodeTga | src/renderer.cpp:240-270 | returns None exactly when the color map type is not 0, the image type is not 2 or the depth is neither 24 nor 32; otherwise returns `width * height * 4` bytes equal to the reference decoding, consumes exactly `width * height * (bpp / 8)` pixel bytes, and writes destination pixels in the order WriteOrder |
| TgaDecode.StorePixel | src/renderer.cpp:262-266 | one pixel: destination R, G, B are source bytes 2, 1, 0 at the cursor, A is byte 3 at 32 bits and 255 otherwise, no other byte changes, and the cursor advances by the pixel size |
| TgaDecode.DecodeRow | src/renderer.cpp:261-267 | converting one source row advances the pixel count by `width`, keeps the cursor just past the pixels read, extends the write trace, and leaves every destination pixel of the rows so far holding its final bytes |
| TgaDecode.SourceOffset | src/renderer.cpp:245-246 | pixel `n` of the file starts at `18 + id_len + n * (bpp / 8)` and lies inside the pixel data, which lies inside the buffer |
| TgaDecode.DecodeChannels | src/renderer.cpp:262-266 | output pixel (row, col) has R, G, B equal to bytes 2, 1, 0 of pixel `col` of source row FlipRow(row), and A equal to its byte 3 at 32 bits and 255 at 24 bits |
| TgaDecode.DecodeRowPlacement | src/renderer.cpp:250-262 | source row `i` lands in destination row `height-1-i` when descriptor bit 5 is set and in row `i` otherwise |
| TgaDecode.MirrorPixelInvolution | src/renderer.cpp:250-259 | flipping the row of a pixel twice gives the pixel back, so destination-to-source and source-to-destination are the same map |
| TgaDecode.WriteOrderIsPermutation | src/renderer.cpp:249-262 | the pixels read from the file go to pairwise distinct destination pixels, all in range, and every destination pixel is the target of exactly one of them |
| TgaDecode.DecodeReadsOnlyExtent | src/renderer.cpp:245-266 | the result depends only on the header, the image-ID field and the `width * height * (bpp / 8)` pixel bytes: any buffer agreeing on them decodes the same |
| TgaAllocation.AllocatedBytesAsWritten | src/renderer.cpp:247-248 | as written, the allocation size is a signed 32-bit value that agrees with `width * height * 4` only modulo 2^32, and it is negative exactly when `(width * height) % 2^30 >= 2^29` |
| TgaAllocation.AllocationTooSmall | src/renderer.cpp:247-248 | as written, a 32768 x 32768 image gets a zero-byte buffer although it needs 2^32 bytes |
| TgaAllocation.AsWrittenExactForSmallImages | src/renderer.cpp:247-248 | as written, the allocation is exact while `width * height * 4` stays below 2^31 |
| TgaAllocation.DestinationOffsetAsWritten | src/renderer.cpp:262 | the `int` offset `(y * width + x) * 4` is a signed 32-bit value congruent to the true offset modulo 2^32, and equal to it whenever the true offset is below 2^31 |
| TgaDecode.DestinationOffsetFits | src/renderer.cpp:247-262 | in every image whose buffer size `width * height * 4` is at most 2^31, the `int` offset of each pixel (row `y`, column `x`) is exactly `(y * width + x) * 4` |
| TgaAllocation.AllocationNegative | src/renderer.cpp:247-248 | as written, 32768 x 16384, 40000 x 45000 and 65535 x 65535 images get a negative element count (-2^31, some negative value, and -524284) |
| TgaAllocation.DestinationOffsetWraps | src/renderer.cpp:262 | as written, the first pixel of row 16384 of a 32768-wide image is stored at offset -2^31 instead of 2^31 |
| TgaAllocation.AllocatedBytes | src/renderer.cpp:247-248 | with a 64-bit size the allocation is exactly `width * height * 4` bytes for every 16-bit width and height |
| VertexLayout.ActiveCount | src/renderer.cpp:278-306 | processing stops at the first `kEND`: the count is its position and no earlier attribute is `kEND` |
| VertexLayout.ByteSize | src/renderer.cpp:280-303 | the offset advances by the component count times the component size: 12 for Position3f and Normal3f, 8 for TexCoord2f, 4 for Color4ub |
| VertexLayout.SetAttributesFrom | src/renderer.cpp:277-306 | from a running offset, one pointer per attribute before `kEND`, each with its kind's location, components and type, and an offset equal to the start plus the sizes of the attributes before it |
| VertexLayout.SetAttributes | src/renderer.cpp:274-307 | each attribute's pointer has its kind's location, the caller's stride, and an offset equal to the sum of the sizes of the attributes before it |
| VertexLayout.OffsetsAreContiguous | src/renderer.cpp:277-303 | the first attribute is at offset 0 and each next one starts where the previous one ends |
| VertexLayout.OnlyColorIsNormalized | src/renderer.cpp:280-303 | a pointer is normalized, and of unsigned-byte type, exactly when its attribute is Color4ub |
| VertexLayout.LocationsAreDistinct | src/renderer.cpp:20-25 | the four kinds are bound to distinct locations 0 to 3 |
| VertexLayout.UnSetAttributes | src/renderer.cpp:310-329 | the disabled locations are exactly the locations of the attributes before the first `kEND` |
| VertexLayout.UnSetMatchesSet | src/renderer.cpp:274-329 | `UnSetAttributes` disables exactly the set of locations `SetAttributes` enables for the same format |
| VertexLayout.SetThenUnSetRestores | src/renderer.cpp:378-386 | enabling a format's arrays and disabling them again, as `Mesh::Render` does, leaves the other locations as they were and the format's locations disabled, so it restores the enabled-array state exactly when none of them was enabled before |

## Findings

| source | as written | input that shows it | evidently intended | confidence | as-written member | corrected member |
|---|---|---|---|---|---|---|
| src/renderer.cpp:247-248 | `int size = width * height` and `new unsigned char[size * 4]` compute the buffer size in a signed 32-bit `int` | a 24-bit image of 32768 x 32768 pixels: `size * 4` is 2^32, which wraps to 0, so a zero-byte buffer is allocated and 4 GiB are written into it; whenever `(width * height) % 2^30 >= 2^29` (32768 x 16384, 40000 x 45000 or 65535 x 65535, say) the count wraps negative and `new[]` throws `std::bad_array_new_length` instead of returning a texture | a buffer of `width * height * 4` bytes, computed in a 64-bit `size_t` | medium, not executed; signed overflow is undefined behaviour in C++, and the row is about the usual two's-complement wrap | TgaAllocation.AllocatedBytesAsWritten, shown by TgaAllocation.AllocationTooSmall and TgaAllocation.AllocationNegative | TgaAllocation.AllocatedBytes, used by TgaDecode.DecodeTga |

## Left out

- The big-endian host check (src/renderer.cpp:236-239): the model assumes a
  little-endian host and decodes the 16-bit fields from bytes; on a
  big-endian host the code always returns 0.
- TgaDecode.DecodeTga: computes the destination offset `(y * header->width + x) * 4`
  of line 262 without bound. The code computes it as `int`; that is exact
  whenever `width * height <= 2^29` (`TgaDecode.DestinationOffsetFits`), and
  wraps only for images whose allocation has already wrapped
  (`width * height > 2^29`, see `TgaAllocation.DestinationOffsetWraps`).
- TgaAllocation.AllocatedBytesAsWritten: returns the wrapped element count
  and does not model what `new unsigned char[n]` does with it; when the
  count is negative it throws `std::bad_array_new_length`. The count is
  negative exactly when `(width * height) % 2^30 >= 2^29` (the last ensures
  of `TgaAllocation.AllocatedBytesAsWritten`): the pixel counts in
  [2^29, 2^30), [3 * 2^29, 2^31), [5 * 2^29, 3 * 2^30) and [7 * 2^29, 2^32).
- TgaAllocation.AllocatedBytes: assumes a 64-bit host; where `size_t` is
  32 bits wide, `width * height * 4` still wraps from 2^32 bytes on
  (65535 x 65535, say).
- The buffer length: the code never checks it. `WellSized` makes it a
  precondition (18 header bytes, plus `id_len` and the whole pixel array
  when the header is accepted) instead of a failure mode.
- `CreateTexture` and the GL state it sets (src/renderer.cpp:203-226, 269)
  and `delete[] rgba`: the decoder returns the buffer and its size instead.
- The origin fields and the color map specification are parsed but, as in
  the code, never used.
- `glBindBuffer` and the `buffer` base pointer of `Mesh::SetAttributes`:
  offsets are relative to the start of the vertex.
- A vertex format without `kEND` (the code reads past its end) is excluded
  by the precondition `End in attrs`; values outside the attribute enum
  cannot be expressed.
- `size_t` offsets in `Mesh::SetAttributes` are unbounded; a format would
  need billions of attributes to wrap.
- SDL initialisation, the window, the GL context, the extension check,
  function-pointer loading, `AdvanceFrame`, `ShutDown` and
  `ClearFrameBuffer` (src/renderer.cpp:27-140): windowing and driver I/O.
- Shader compilation, linking, attribute binding and uniform lookup
  (src/renderer.cpp:143-201, 331-349): their behaviour lives in the GL
  driver.
- Buffer creation and deletion, `AddIndices`, and the draw calls of
  `Mesh::Render` and `Mesh::RenderArray` (src/renderer.cpp:351-395): GL
  handle management. Only the pairing of `SetAttributes` with
  `UnSetAttributes` around the draw calls is modelled.
