/**
  Size arithmetic of the RGBA buffer allocated by
  `Renderer::CreateTextureFromTGAMemory`. The code computes
  `int size = width * height` and allocates `size * 4` bytes, both in a
  signed 32-bit `int`; for large images the product wraps. The decoder in
  this model allocates with the 64-bit `size_t` computation instead.
 */
module TgaAllocation {

  const Int32Modulus: int := 0x1_0000_0000
  const Int32Min: int := -0x8000_0000
  const SizeTModulus: int := 0x1_0000_0000_0000_0000

  /** A signed 32-bit result on a two's-complement machine. */
  function WrapInt32(v: int): (r: int)
    ensures Int32Min <= r < -Int32Min
    ensures (v - r) % Int32Modulus == 0
    ensures Int32Min <= v < -Int32Min ==> r == v
  {
    (v - Int32Min) % Int32Modulus + Int32Min
  }

  /**
    `new unsigned char[size * 4]` with `size` and `size * 4` computed as
    `int`: a signed 32-bit value that agrees with the true size only modulo
    2^32.
   */
  function AllocatedBytesAsWritten(width: nat, height: nat): (n: int)
    ensures Int32Min <= n < -Int32Min
    ensures (width * height * 4 - n) % Int32Modulus == 0
    ensures n < 0 <==> (width * height) % 0x4000_0000 >= 0x2000_0000
  {
    var size := WrapInt32(width * height);
    WrapCongruent(width * height, size, 4);
    CongruentTrans(width * height * 4, size * 4, WrapInt32(size * 4));
    WrappedSign(width * height, WrapInt32(size * 4));
    WrapInt32(size * 4)
  }

  /**
    A signed 32-bit value congruent to `4 * p` is negative exactly when the
    low 30 bits of `p` have bit 29 set.
   */
  lemma WrappedSign(p: nat, n: int)
    requires Int32Min <= n < -Int32Min
    requires (p * 4 - n) % Int32Modulus == 0
    ensures n < 0 <==> p % 0x4000_0000 >= 0x2000_0000
  {
    var q, low := p / 0x4000_0000, p % 0x4000_0000;
    assert p * 4 == q * Int32Modulus + low * 4;
    CongruentTrans(low * 4, p * 4, n) by {
      assert (low * 4 - p * 4) == -q * Int32Modulus;
    }
    if low < 0x2000_0000 {
      SameInRange(low * 4, n);
    } else {
      SameInRange(low * 4 - Int32Modulus, n) by {
        CongruentTrans(low * 4 - Int32Modulus, low * 4, n);
      }
    }
  }

  /** Two values less than 2^32 apart that are congruent modulo 2^32 are equal. */
  lemma SameInRange(a: int, b: int)
    requires (a - b) % Int32Modulus == 0
    requires -Int32Modulus < a - b < Int32Modulus
    ensures a == b
  {
    var q := (a - b) / Int32Modulus;
    assert a - b == q * Int32Modulus;
  }

  /** Wrapping a factor does not change a product modulo 2^32. */
  lemma WrapCongruent(v: int, w: int, k: int)
    requires (v - w) % Int32Modulus == 0
    ensures (v * k - w * k) % Int32Modulus == 0
  {
    var q := (v - w) / Int32Modulus;
    assert v - w == q * Int32Modulus;
    assert v * k - w * k == (q * k) * Int32Modulus;
  }

  /** A 32768 x 32768 image gets a zero-byte buffer and then has 4 GiB written into it. */
  lemma AllocationTooSmall()
    ensures AllocatedBytesAsWritten(32768, 32768) == 0
    ensures 32768 * 32768 * 4 == 0x1_0000_0000
  {
    assert WrapInt32(32768 * 32768) == 0x4000_0000;
  }

  /** Below 2^31 bytes the signed computation is exact. */
  lemma AsWrittenExactForSmallImages(width: nat, height: nat)
    requires width * height * 4 < -Int32Min
    ensures AllocatedBytesAsWritten(width, height) == width * height * 4
  {
  }

  /**
    The destination offset `(y * header->width + x) * 4`, each step computed
    as `int`.
   */
  function DestinationOffsetAsWritten(y: nat, x: nat, width: nat): (n: int)
    ensures Int32Min <= n < -Int32Min
    ensures ((y * width + x) * 4 - n) % Int32Modulus == 0
    ensures (y * width + x) * 4 < -Int32Min ==> n == (y * width + x) * 4
  {
    var row := WrapInt32(y * width);
    var index := WrapInt32(row + x);
    CongruentTrans(y * width + x, row + x, index);
    WrapCongruent(y * width + x, index, 4);
    CongruentTrans((y * width + x) * 4, index * 4, WrapInt32(index * 4));
    WrapInt32(index * 4)
  }

  /** Congruence modulo 2^32 is transitive. */
  lemma CongruentTrans(a: int, b: int, c: int)
    requires (a - b) % Int32Modulus == 0 && (b - c) % Int32Modulus == 0
    ensures (a - c) % Int32Modulus == 0
  {
    var p, q := (a - b) / Int32Modulus, (b - c) / Int32Modulus;
    assert a - c == (p + q) * Int32Modulus;
  }

  /**
    In a 32768 x 32768 image (the buffer of which is already too small),
    the first pixel of row 16384 is stored at offset 2^31, which the `int`
    arithmetic turns into -2^31.
   */
  lemma DestinationOffsetWraps()
    ensures (16384 * 32768 + 0) * 4 == -Int32Min
    ensures DestinationOffsetAsWritten(16384, 0, 32768) == Int32Min
  {
    assert WrapInt32(16384 * 32768) == 0x2000_0000;
  }

  /**
    Whenever `(width * height) % 2^30 >= 2^29` the wrapped element count is
    negative (the last ensures of `AllocatedBytesAsWritten`), so
    `new unsigned char[...]` throws instead of allocating. Three instances:
    32768 x 16384 (exactly 2^29 pixels), 40000 x 45000 (in the band
    [2^30 + 2^29, 2^31)) and 65535 x 65535.
   */
  lemma AllocationNegative()
    ensures AllocatedBytesAsWritten(32768, 16384) == Int32Min
    ensures AllocatedBytesAsWritten(40000, 45000) < 0
    ensures AllocatedBytesAsWritten(65535, 65535) == -0x7_FFFC
  {
    assert WrapInt32(32768 * 16384) == 0x2000_0000;
    assert WrapInt32(65535 * 65535) == -0x1_FFFF;
  }

  lemma MulBound(a: nat, b: nat, c: nat)
    requires a <= c && b <= c
    ensures a * b <= c * c
  {
    assert a * b <= a * c;
  }

  lemma ModOfSmall(x: nat, m: nat)
    requires x < m
    ensures x % m == x
  {
  }

  /**
    The corrected allocation: `size_t(width) * height * 4` with a 64-bit
    `size_t`, exact for every 16-bit width and height.
   */
  function AllocatedBytes(width: nat, height: nat): (n: nat)
    requires width < 0x1_0000 && height < 0x1_0000
    ensures n == width * height * 4
  {
    var pixels := width * height;
    MulBound(width, height, 0xFFFF);
    assert pixels <= 0xFFFE_0001;
    ModOfSmall(pixels * 4, SizeTModulus);
    (pixels * 4) % SizeTModulus
  }
}
