/**
  `Renderer::CreateTextureFromTGAMemory`: decoding of an uncompressed
  true-colour TGA image into a packed RGBA8 buffer. The GL upload at the
  end is replaced by returning the buffer with its dimensions.

  `Decode` states, byte by byte of the output, where each value comes
  from. `DecodeTga` follows the code's own traversal (rows from `start_y`
  to `end_y` in steps of `y_direction`, a cursor walking the pixel data)
  and is proved to compute the same result.
 */
module TgaDecode {
  import opened Wrappers
  import opened TgaHeader
  import TgaAllocation

  /** What `CreateTexture` receives: dimensions and `width * height * 4` RGBA bytes. */
  datatype Texture = Texture(width: nat, height: nat, rgba: seq<byte>)

  /** Number of output bytes per pixel: R, G, B, A. */
  const Channels: nat := 4

  // ---------------------------------------------------------------------
  // Row-major index arithmetic

  lemma MulLe(a: nat, b: nat, w: nat)
    requires a <= b
    ensures a * w <= b * w
  {
    assert b * w == a * w + (b - a) * w;
  }

  /** Row-major index of (row, col) in an image `width` pixels wide. */
  function PixelIndex(row: nat, col: nat, width: nat): nat {
    row * width + col
  }

  lemma RowMajor(row: nat, col: nat, width: nat)
    requires col < width
    ensures PixelIndex(row, col, width) / width == row
    ensures PixelIndex(row, col, width) % width == col
  {
    var q := PixelIndex(row, col, width);
    var d, m := q / width, q % width;
    assert q == d * width + m;
    if d < row {
      MulLe(d + 1, row, width);
    } else if d > row {
      MulLe(row + 1, d, width);
    }
  }

  lemma NextRow(row: nat, width: nat)
    ensures PixelIndex(row, width, width) == PixelIndex(row + 1, 0, width)
  {
  }

  lemma RowMajorBound(row: nat, col: nat, width: nat, height: nat)
    requires row < height && col < width
    ensures PixelIndex(row, col, width) < width * height
  {
    MulLe(row + 1, height, width);
  }

  lemma SplitIndex(q: nat, width: nat, height: nat)
    requires q < width * height
    ensures width > 0
    ensures q / width < height
    ensures q == (q / width) * width + q % width
  {
  }

  lemma ScaledBound(q: nat, n: nat, k: nat)
    requires q < n
    ensures q * k + k <= n * k
  {
    MulLe(q + 1, n, k);
  }

  // ---------------------------------------------------------------------
  // The reference decoding

  /** The header is accepted and the buffer holds all the bytes the decoder reads. */
  predicate Decodable(buf: seq<byte>, h: Header) {
    WellSized(buf) && h == ParseHeader(buf) && Accepted(h)
  }

  /**
    Row `row` seen from the other end when the image is stored flipped. It maps
    a source row to its destination row and, being its own inverse, back.
   */
  function FlipRow(h: Header, row: nat): (r: nat)
    requires row < h.height
    ensures r < h.height
    ensures Flipped(h) ==> r + row == h.height - 1
    ensures !Flipped(h) ==> r == row
  {
    if Flipped(h) then h.height - 1 - row else row
  }

  /**
    The outer loop's `y` after `rows` iterations: the destination row of
    source row `rows` while rows remain, and `end_y` (-1 or `height`) once
    all are done.
   */
  function FlipRowOrEnd(h: Header, rows: nat): (y: int)
    requires rows <= h.height
    ensures rows < h.height ==> y == FlipRow(h, rows)
    ensures rows == h.height ==> y == (if Flipped(h) then -1 else h.height)
  {
    if Flipped(h) then h.height - 1 - rows else rows
  }

  /**
    The loop header of the outer `for`: `y` starts at `start_y` and moves by
    `y_direction` each iteration.
   */
  lemma FlipRowOrEndSteps(h: Header, rows: nat)
    requires rows < h.height
    ensures FlipRowOrEnd(h, 0) == (if Flipped(h) then h.height - 1 else 0)
    ensures FlipRowOrEnd(h, rows + 1) == FlipRowOrEnd(h, rows) + (if Flipped(h) then -1 else 1)
  {
  }

  /** Pixel index `p` with its row flipped, keeping its column. */
  function MirrorPixel(h: Header, p: nat): (m: nat)
    requires p < PixelCount(h)
    ensures m < PixelCount(h)
  {
    SplitIndex(p, h.width, h.height);
    var col := p % h.width;
    RowMajorBound(FlipRow(h, p / h.width), col, h.width, h.height);
    PixelIndex(FlipRow(h, p / h.width), col, h.width)
  }

  /** Offset in the file of the first byte of the `src`-th pixel. */
  function SourceOffset(buf: seq<byte>, h: Header, src: nat): (at: nat)
    requires Decodable(buf, h)
    requires src < PixelCount(h)
    ensures PixelStart(h) <= at && at + BytesPerPixel(h) <= PixelStart(h) + PixelDataSize(h)
    ensures at + BytesPerPixel(h) <= |buf|
  {
    ScaledBound(src, PixelCount(h), BytesPerPixel(h));
    PixelStart(h) + src * BytesPerPixel(h)
  }

  /**
    Output channel `c` (0 red, 1 green, 2 blue, 3 alpha) of the `src`-th
    pixel of the file. The file stores blue, green, red and, at 32 bits,
    alpha; at 24 bits alpha is opaque.
   */
  function SourceChannel(buf: seq<byte>, h: Header, src: nat, c: nat): byte
    requires Decodable(buf, h)
    requires src < PixelCount(h) && c < Channels
  {
    var at := SourceOffset(buf, h, src);
    if c == 0 then buf[at + 2]
    else if c == 1 then buf[at + 1]
    else if c == 2 then buf[at]
    else if h.bitsPerPixel == 32 then buf[at + 3]
    else 255
  }

  /** Byte `k` of the RGBA output: a channel of the mirrored source pixel. */
  function DecodedByte(buf: seq<byte>, h: Header, k: nat): byte
    requires Decodable(buf, h)
    requires k < PixelCount(h) * Channels
  {
    SourceChannel(buf, h, MirrorPixel(h, k / Channels), k % Channels)
  }

  /**
    The texture `CreateTextureFromTGAMemory` hands to the GL upload, or None
    where it returns 0: byte `k` of the output is channel `k % 4` of the
    file pixel that lands on output pixel `k / 4`.
   */
  function Decode(buf: seq<byte>): (r: Option<Texture>)
    requires WellSized(buf)
    ensures r.Some? <==> Accepted(ParseHeader(buf))
    ensures r.Some? ==> r.value.width == ParseHeader(buf).width && r.value.height == ParseHeader(buf).height
    ensures r.Some? ==> |r.value.rgba| == r.value.width * r.value.height * Channels
  {
    var h := ParseHeader(buf);
    if !Accepted(h) then None
    else
      Some(Texture(h.width, h.height,
        seq(PixelCount(h) * Channels, k requires 0 <= k < PixelCount(h) * Channels => DecodedByte(buf, h, k))))
  }

  /** Destination pixel of the `j`-th pixel read from the file, for every `j`. */
  function WriteOrder(h: Header): seq<nat>
  {
    seq(PixelCount(h), j requires 0 <= j < PixelCount(h) => MirrorPixel(h, j))
  }

  /**
    Whenever the whole buffer size fits in a signed 32-bit `int`, the
    destination offset computed with `int` arithmetic is the exact one.
   */
  lemma DestinationOffsetFits(y: nat, x: nat, width: nat, height: nat)
    requires y < height && x < width
    requires width * height * Channels <= -TgaAllocation.Int32Min
    ensures TgaAllocation.DestinationOffsetAsWritten(y, x, width) == PixelIndex(y, x, width) * Channels
  {
    RowMajorBound(y, x, width, height);
    ScaledBound(PixelIndex(y, x, width), width * height, Channels);
  }

  // ---------------------------------------------------------------------
  // Properties of the reference decoding

  lemma {:induction false} MirrorPixelInvolution(h: Header, p: nat)
    requires p < PixelCount(h)
    ensures MirrorPixel(h, MirrorPixel(h, p)) == p
  {
    SplitIndex(p, h.width, h.height);
    var row, col := p / h.width, p % h.width;
    RowMajor(FlipRow(h, row), col, h.width);
  }

  /** Every destination pixel is written exactly once, by a unique source pixel. */
  lemma WriteOrderIsPermutation(h: Header)
    ensures |WriteOrder(h)| == PixelCount(h)
    ensures forall j :: 0 <= j < |WriteOrder(h)| ==> WriteOrder(h)[j] < PixelCount(h)
    ensures forall i, j :: 0 <= i < j < |WriteOrder(h)| ==> WriteOrder(h)[i] != WriteOrder(h)[j]
    ensures forall p :: 0 <= p < PixelCount(h) ==> WriteOrder(h)[MirrorPixel(h, p)] == p
  {
    var order := WriteOrder(h);
    forall i, j | 0 <= i < j < |order|
      ensures order[i] != order[j]
    {
      MirrorPixelInvolution(h, i);
      MirrorPixelInvolution(h, j);
    }
    forall p | 0 <= p < PixelCount(h)
      ensures order[MirrorPixel(h, p)] == p
    {
      MirrorPixelInvolution(h, p);
    }
  }

  /** Channel `c` of destination pixel `q` in the decoded buffer. */
  lemma DecodedPixel(buf: seq<byte>, h: Header, q: nat, c: nat)
    requires Decodable(buf, h)
    requires q < PixelCount(h) && c < Channels
    ensures Decode(buf).Some?
    ensures q * Channels + c < |Decode(buf).value.rgba|
    ensures Decode(buf).value.rgba[q * Channels + c] == SourceChannel(buf, h, MirrorPixel(h, q), c)
  {
    var k := q * Channels + c;
    assert k / Channels == q && k % Channels == c;
  }

  /**
    The four output bytes of destination pixel (row, col) come from pixel
    `col` of source row FlipRow(row): red, green, blue are source bytes 2, 1,
    0, and alpha is source byte 3 at 32 bits and 255 at 24 bits.
   */
  lemma DecodeChannels(buf: seq<byte>, row: nat, col: nat)
    requires WellSized(buf) && Accepted(ParseHeader(buf))
    requires row < ParseHeader(buf).height && col < ParseHeader(buf).width
    ensures var h := ParseHeader(buf);
            var out := Decode(buf).value.rgba;
            var o := PixelIndex(row, col, h.width) * Channels;
            var src := PixelIndex(FlipRow(h, row), col, h.width);
            && o + 3 < |out| && src < PixelCount(h)
            && var at := SourceOffset(buf, h, src);
            && out[o] == buf[at + 2]
            && out[o + 1] == buf[at + 1]
            && out[o + 2] == buf[at]
            && out[o + 3] == (if h.bitsPerPixel == 32 then buf[at + 3] else 255)
  {
    var h := ParseHeader(buf);
    var q := PixelIndex(row, col, h.width);
    RowMajor(row, col, h.width);
    RowMajorBound(row, col, h.width, h.height);
    RowMajorBound(FlipRow(h, row), col, h.width, h.height);
    assert MirrorPixel(h, q) == PixelIndex(FlipRow(h, row), col, h.width);
    DecodedPixel(buf, h, q, 0);
    DecodedPixel(buf, h, q, 1);
    DecodedPixel(buf, h, q, 2);
    DecodedPixel(buf, h, q, 3);
  }

  /**
    Source row `row` lands in destination row `height-1-row` when descriptor
    bit 5 is set and in row `row` otherwise, pixel for pixel.
   */
  lemma DecodeRowPlacement(buf: seq<byte>, row: nat, col: nat, c: nat)
    requires WellSized(buf) && Accepted(ParseHeader(buf))
    requires row < ParseHeader(buf).height && col < ParseHeader(buf).width && c < Channels
    ensures var h := ParseHeader(buf);
            var dest := if Flipped(h) then h.height - 1 - row else row;
            var k := PixelIndex(dest, col, h.width) * Channels + c;
            && PixelIndex(row, col, h.width) < PixelCount(h)
            && k < |Decode(buf).value.rgba|
            && Decode(buf).value.rgba[k] == SourceChannel(buf, h, PixelIndex(row, col, h.width), c)
  {
    var h := ParseHeader(buf);
    var dest := FlipRow(h, row);
    RowMajor(dest, col, h.width);
    RowMajorBound(dest, col, h.width, h.height);
    RowMajorBound(row, col, h.width, h.height);
    assert FlipRow(h, dest) == row;
    assert MirrorPixel(h, PixelIndex(dest, col, h.width)) == PixelIndex(row, col, h.width);
    DecodedPixel(buf, h, PixelIndex(dest, col, h.width), c);
  }

  /** How many bytes of the buffer the decoder looks at. */
  function ReadExtent(buf: seq<byte>): (n: nat)
    requires WellSized(buf)
    ensures HeaderSize <= n <= |buf|
  {
    var h := ParseHeader(buf);
    if Accepted(h) then PixelStart(h) + PixelDataSize(h) else HeaderSize
  }

  /** A channel depends only on the pixel bytes of the buffer. */
  lemma SourceChannelLocal(buf: seq<byte>, other: seq<byte>, h: Header, src: nat, c: nat)
    requires Decodable(buf, h) && Decodable(other, h)
    requires src < PixelCount(h) && c < Channels
    requires forall i :: PixelStart(h) <= i < PixelStart(h) + PixelDataSize(h) ==> other[i] == buf[i]
    ensures SourceChannel(other, h, src, c) == SourceChannel(buf, h, src, c)
  {
    assert SourceOffset(other, h, src) == SourceOffset(buf, h, src);
  }

  /**
    The result depends on nothing past the header, the image ID field and
    `width * height * (bpp / 8)` pixel bytes: two buffers that agree there
    decode alike.
   */
  lemma DecodeReadsOnlyExtent(buf: seq<byte>, other: seq<byte>)
    requires WellSized(buf)
    requires ReadExtent(buf) <= |other| && other[..ReadExtent(buf)] == buf[..ReadExtent(buf)]
    ensures WellSized(other) && ReadExtent(other) == ReadExtent(buf)
    ensures Decode(other) == Decode(buf)
  {
    var n := ReadExtent(buf);
    assert same: forall i :: 0 <= i < n ==> other[i] == buf[i] by {
      forall i | 0 <= i < n
        ensures other[i] == buf[i]
      {
        assert other[..n][i] == buf[..n][i];
      }
    }
    assert other[3..8] == buf[3..8];
    assert ParseHeader(other) == ParseHeader(buf);
    var h := ParseHeader(buf);
    if Accepted(h) {
      var a, b := Decode(other).value.rgba, Decode(buf).value.rgba;
      forall k | 0 <= k < |b|
        ensures a[k] == b[k]
      {
        SourceChannelLocal(buf, other, h, MirrorPixel(h, k / Channels), k % Channels);
      }
      assert a == b;
    }
  }

  // ---------------------------------------------------------------------
  // The decoder as the code runs it

  /**
    After `read` pixels of the file have been consumed, every destination
    pixel whose mirrored index is below `read` holds its final bytes.
   */
  ghost predicate Filled(buf: seq<byte>, h: Header, rgba: seq<byte>, read: nat)
    requires Decodable(buf, h)
  {
    && |rgba| == PixelCount(h) * Channels
    && forall k :: 0 <= k < |rgba| && MirrorPixel(h, k / Channels) < read ==>
         rgba[k] == DecodedByte(buf, h, k)
  }

  /** The `src`-th pixel of the file, read at row `rows` and column `x`, is stored at destination pixel `PixelIndex(y, x, width)`. */
  lemma PixelStep(buf: seq<byte>, h: Header, rows: nat, x: nat, y: nat)
    requires Decodable(buf, h)
    requires rows < h.height && x < h.width && y == FlipRow(h, rows)
    ensures PixelIndex(y, x, h.width) < PixelCount(h)
    ensures PixelIndex(rows, x, h.width) < PixelCount(h)
    ensures MirrorPixel(h, PixelIndex(y, x, h.width)) == PixelIndex(rows, x, h.width)
    ensures MirrorPixel(h, PixelIndex(rows, x, h.width)) == PixelIndex(y, x, h.width)
  {
    RowMajor(y, x, h.width);
    RowMajor(rows, x, h.width);
    RowMajorBound(y, x, h.width, h.height);
    RowMajorBound(rows, x, h.width, h.height);
  }

  /** Storing the four bytes of source pixel `src` at destination pixel `dst` extends Filled by one. */
  lemma FillStep(buf: seq<byte>, h: Header, before: seq<byte>, after: seq<byte>, dst: nat, src: nat)
    requires Decodable(buf, h)
    requires src < PixelCount(h) && dst < PixelCount(h) && MirrorPixel(h, dst) == src
    requires Filled(buf, h, before, src)
    requires |after| == |before|
    requires forall k :: 0 <= k < |after| && k / Channels != dst ==> after[k] == before[k]
    requires forall c :: 0 <= c < Channels ==> after[dst * Channels + c] == SourceChannel(buf, h, src, c)
    ensures Filled(buf, h, after, src + 1)
  {
    forall k | 0 <= k < |after| && MirrorPixel(h, k / Channels) < src + 1
      ensures after[k] == DecodedByte(buf, h, k)
    {
      var q := k / Channels;
      if q == dst {
        assert k == dst * Channels + k % Channels;
      } else {
        MirrorPixelInvolution(h, q);
        MirrorPixelInvolution(h, dst);
      }
    }
  }

  /**
    The body of the inner loop: destination pixel `dst` receives red, green,
    blue from source bytes 2, 1, 0 at the cursor and alpha from byte 3 at 32
    bits or 255 at 24 bits; the cursor moves past the pixel, which is the
    `src`-th of the file.
   */
  method StorePixel(buf: seq<byte>, h: Header, rgba: seq<byte>, pixels: nat, dst: nat, ghost src: nat)
    returns (out: seq<byte>, next: nat)
    requires Decodable(buf, h)
    requires src < PixelCount(h) && pixels == SourceOffset(buf, h, src)
    requires dst < PixelCount(h) && |rgba| == PixelCount(h) * Channels
    ensures |out| == |rgba|
    ensures forall k :: 0 <= k < |out| && k / Channels != dst ==> out[k] == rgba[k]
    ensures var p := dst * Channels;
            && out[p] == buf[pixels + 2] && out[p + 1] == buf[pixels + 1] && out[p + 2] == buf[pixels]
            && out[p + 3] == if h.bitsPerPixel == 32 then buf[pixels + 3] else 255
    ensures forall c :: 0 <= c < Channels ==> out[dst * Channels + c] == SourceChannel(buf, h, src, c)
    ensures next == pixels + BytesPerPixel(h)
  {
    var p := dst * Channels;
    next := pixels;
    out := rgba[p + 2 := buf[next]];
    next := next + 1;
    out := out[p + 1 := buf[next]];
    next := next + 1;
    out := out[p := buf[next]];
    next := next + 1;
    if h.bitsPerPixel == 32 {
      out := out[p + 3 := buf[next]];
      next := next + 1;
    } else {
      out := out[p + 3 := 255];
    }
  }

  /**
    The state of the inner loop after `x` pixels of source row `rows`: the
    pixels read so far are numbered `|written|`, the cursor is past them,
    the trace lists their destinations, and their destinations are filled.
   */
  ghost predicate RowProgress(buf: seq<byte>, h: Header, rows: nat, x: nat,
                              rgba: seq<byte>, pixels: nat, written: seq<nat>)
    requires Decodable(buf, h)
  {
    && x <= h.width
    && |written| == PixelIndex(rows, x, h.width) && |written| <= PixelCount(h)
    && pixels == PixelStart(h) + |written| * BytesPerPixel(h)
    && written == WriteOrder(h)[..|written|]
    && Filled(buf, h, rgba, |written|)
  }

  lemma CursorStep(start: nat, n: nat, size: nat)
    ensures start + (n + 1) * size == start + n * size + size
  {
  }

  /** Before storing the pixel at column `x`: the indices are in range and the cursor is at that pixel. */
  lemma BeforeStore(buf: seq<byte>, h: Header, rows: nat, x: nat, y: nat,
                    rgba: seq<byte>, pixels: nat, written: seq<nat>)
    requires Decodable(buf, h)
    requires rows < h.height && x < h.width && y == FlipRow(h, rows)
    requires RowProgress(buf, h, rows, x, rgba, pixels, written)
    ensures |written| < PixelCount(h) && PixelIndex(y, x, h.width) < PixelCount(h)
    ensures pixels == SourceOffset(buf, h, |written|)
    ensures |rgba| == PixelCount(h) * Channels
  {
    PixelStep(buf, h, rows, x, y);
  }

  /** After storing the pixel at column `x`: the loop state has advanced by one pixel. */
  lemma AfterStore(buf: seq<byte>, h: Header, rows: nat, x: nat, y: nat,
                   rgba: seq<byte>, pixels: nat, written: seq<nat>,
                   rgbaNext: seq<byte>, pixelsNext: nat)
    requires Decodable(buf, h)
    requires rows < h.height && x < h.width && y == FlipRow(h, rows)
    requires RowProgress(buf, h, rows, x, rgba, pixels, written)
    requires |written| < PixelCount(h) && PixelIndex(y, x, h.width) < PixelCount(h)
    requires |rgba| == PixelCount(h) * Channels
    requires |rgbaNext| == |rgba|
    requires forall k :: 0 <= k < |rgbaNext| && k / Channels != PixelIndex(y, x, h.width) ==> rgbaNext[k] == rgba[k]
    requires forall c :: 0 <= c < Channels ==>
               rgbaNext[(PixelIndex(y, x, h.width)) * Channels + c] == SourceChannel(buf, h, |written|, c)
    requires pixelsNext == pixels + BytesPerPixel(h)
    ensures RowProgress(buf, h, rows, x + 1, rgbaNext, pixelsNext, written + [PixelIndex(y, x, h.width)])
  {
    var src, dst := |written|, PixelIndex(y, x, h.width);
    assert MirrorPixel(h, dst) == src && MirrorPixel(h, src) == dst by {
      PixelStep(buf, h, rows, x, y);
    }
    assert Filled(buf, h, rgbaNext, src + 1) by {
      FillStep(buf, h, rgba, rgbaNext, dst, src);
    }
    assert written + [dst] == WriteOrder(h)[..src + 1] by {
      assert WriteOrder(h)[..src + 1] == WriteOrder(h)[..src] + [dst];
    }
    assert pixelsNext == PixelStart(h) + (src + 1) * BytesPerPixel(h) by {
      CursorStep(PixelStart(h), src, BytesPerPixel(h));
    }
    assert src + 1 == PixelIndex(rows, x + 1, h.width);
  }

  /**
    The inner loop: converts source row `rows` (file order), which the outer
    loop's `y` places at destination row `y`, pixel by pixel.
   */
  method DecodeRow(buf: seq<byte>, h: Header, rgba: seq<byte>, pixels: nat, y: nat,
                   ghost written: seq<nat>, ghost rows: nat)
    returns (rgbaOut: seq<byte>, pixelsOut: nat, ghost writtenOut: seq<nat>)
    requires Decodable(buf, h)
    requires rows < h.height && y == FlipRow(h, rows)
    requires RowProgress(buf, h, rows, 0, rgba, pixels, written)
    ensures RowProgress(buf, h, rows + 1, 0, rgbaOut, pixelsOut, writtenOut)
  {
    var width := h.width;
    rgbaOut, pixelsOut, writtenOut := rgba, pixels, written;
    var x := 0;
    while x < width
      invariant RowProgress(buf, h, rows, x, rgbaOut, pixelsOut, writtenOut)
    {
      BeforeStore(buf, h, rows, x, y, rgbaOut, pixelsOut, writtenOut);
      var rgbaNext, pixelsNext := StorePixel(buf, h, rgbaOut, pixelsOut, PixelIndex(y, x, width), |writtenOut|);
      AfterStore(buf, h, rows, x, y, rgbaOut, pixelsOut, writtenOut, rgbaNext, pixelsNext);
      rgbaOut, pixelsOut, writtenOut := rgbaNext, pixelsNext, writtenOut + [PixelIndex(y, x, width)];
      x := x + 1;
    }
    NextRow(rows, width);
  }

  /** Once every row has been converted, the buffer, cursor and trace are complete. */
  lemma AllRowsDone(buf: seq<byte>, h: Header, rgba: seq<byte>, pixels: nat, written: seq<nat>)
    requires Decodable(buf, h)
    requires RowProgress(buf, h, h.height, 0, rgba, pixels, written)
    ensures Decode(buf).Some? && rgba == Decode(buf).value.rgba
    ensures written == WriteOrder(h)
    ensures pixels == PixelStart(h) + PixelDataSize(h)
  {
    assert |written| == PixelCount(h);
    var out := Decode(buf).value.rgba;
    forall k | 0 <= k < |rgba|
      ensures rgba[k] == out[k]
    {
    }
    assert rgba == out;
  }

  method DecodeTga(buf: seq<byte>) returns (r: Option<Texture>, ghost consumed: nat, ghost written: seq<nat>)
    requires WellSized(buf)
    ensures r == Decode(buf)
    ensures r.Some? <==> Accepted(ParseHeader(buf))
    ensures r.Some? ==> |r.value.rgba| == PixelCount(ParseHeader(buf)) * Channels
    ensures r.Some? ==> consumed == PixelDataSize(ParseHeader(buf))
    ensures r.Some? ==> written == WriteOrder(ParseHeader(buf))
    ensures r.None? ==> consumed == 0 && written == []
  {
    var header := ParseHeader(buf);
    if header.colorMapType != 0
      || header.imageType != TrueColorImage
      || (header.bitsPerPixel != 32 && header.bitsPerPixel != 24)
    {
      return None, 0, [];
    }
    var width, height := header.width, header.height;
    var pixels: nat := PixelStart(header);
    var rgba: seq<byte> := seq(TgaAllocation.AllocatedBytes(width, height), _ => 0);
    var startY, endY, yDirection: int;
    if Flipped(header) {
      startY, endY, yDirection := height - 1, -1, -1;
    } else {
      startY, endY, yDirection := 0, height, 1;
    }
    written := [];
    ghost var rows: nat := 0;
    assert RowProgress(buf, header, 0, 0, rgba, pixels, written);
    var y := startY;
    while y != endY
      invariant rows <= height
      invariant y == FlipRowOrEnd(header, rows)
      invariant RowProgress(buf, header, rows, 0, rgba, pixels, written)
      decreases height - rows
    {
      rgba, pixels, written := DecodeRow(buf, header, rgba, pixels, y, written, rows);
      y := y + yDirection;
      rows := rows + 1;
    }
    AllRowsDone(buf, header, rgba, pixels, written);
    assert pixels >= PixelStart(header);
    r := Some(Texture(width, height, rgba));
    consumed := pixels - PixelStart(header);
  }
}
