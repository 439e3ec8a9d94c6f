/** `ImageWriter::put_pixel`: writing one RGBA8 pixel into the raw byte
    buffer of a texture. */
module ImageWriter {
  import opened Outcomes
  import opened RowMajor

  type byte = b: int | 0 <= b < 0x100
  type u32 = n: int | 0 <= n < 0x1_0000_0000

  const U32Modulus: int := 0x1_0000_0000

  /** Bytes per pixel of the one supported format. */
  const Bpp: nat := 4

  /** The texture's pixel format; every format other than `Rgba8Unorm` is
      unsupported by the writer and is kept only by name. */
  datatype TextureFormat = Rgba8Unorm | OtherFormat(name: string)

  /** A colour already converted to its four RGBA bytes. */
  datatype Rgba = Rgba(r: byte, g: byte, b: byte, a: byte) {
    function Bytes(): (bs: seq<byte>)
      ensures |bs| == Bpp
    {
      [r, g, b, a]
    }
  }

  datatype Image = Image(width: u32, height: u32, format: TextureFormat, data: seq<byte>)

  datatype Panic = UnsupportedFormat | SliceOutOfRange(start: nat, end: nat, len: nat)

  /** A texture whose buffer holds exactly `width * height` pixels. */
  predicate WellFormed(img: Image) {
    |img.data| == img.width * img.height * Bpp
  }

  /** Where pixel `(x, y)` starts in the buffer, computed without overflow.
      An in-bounds pixel's window lies inside the byte band of its own row. */
  function ByteOffset(width: nat, x: nat, y: nat): (r: nat)
    ensures x < width ==> y * width * Bpp <= r && r + Bpp <= (y + 1) * width * Bpp
  {
    if x < width then RowBand(width, x, y); Index(width, x, y) * Bpp
    else Index(width, x, y) * Bpp
  }

  lemma RowBand(width: nat, x: nat, y: nat)
    requires x < width
    ensures y * width * Bpp <= Index(width, x, y) * Bpp
    ensures Index(width, x, y) * Bpp + Bpp <= (y + 1) * width * Bpp
  {
    assert (y + 1) * width == y * width + width;
    MulMonotone(Index(width, x, y) + 1, (y + 1) * width, Bpp);
    MulMonotone(y * width, Index(width, x, y), Bpp);
  }

  /** The offset as the program computes it: `x * 4 + y * width * 4` in `u32`
      arithmetic, which wraps modulo 2^32. It is always 4-byte aligned, and it
      is the exact offset whenever the sum does not overflow. */
  function ByteOffset32(width: u32, x: u32, y: u32): (r: u32)
    ensures r % Bpp == 0
    ensures x * Bpp + y * width * Bpp < U32Modulus ==> r == ByteOffset(width, x, y)
  {
    var n := x * Bpp + y * width * Bpp;
    assert n == Index(width, x, y) * Bpp;
    AlignedModulo(Index(width, x, y));
    n % U32Modulus
  }

  /** Reducing a multiple of 4 modulo 2^32 keeps it a multiple of 4. */
  lemma AlignedModulo(m: nat)
    ensures (m * Bpp) % U32Modulus % Bpp == 0
  {
    var q := (m * Bpp) / U32Modulus;
    var r := (m * Bpp) % U32Modulus;
    assert m * Bpp == q * U32Modulus + r;
    assert r == Bpp * (m - q * 0x4000_0000);
  }

  /** `data` with the 4 bytes starting at `i` replaced by `bs`. */
  function Splice(data: seq<byte>, i: nat, bs: seq<byte>): (d: seq<byte>)
    requires |bs| == Bpp && i + Bpp <= |data|
    ensures |d| == |data|
    ensures d[i..i + Bpp] == bs
    ensures forall k :: 0 <= k < |data| && !(i <= k < i + Bpp) ==> d[k] == data[k]
  {
    data[..i] + bs + data[i + Bpp..]
  }

  /** `put_pixel_rgba8unorm`: slice the 4-byte window at the pixel's `u32`
      offset (panicking if the buffer is too short) and overwrite it with the
      colour. */
  function PutPixelRgba8Unorm(img: Image, x: u32, y: u32, color: Rgba): (r: Run<Image, Panic>)
    ensures var i := ByteOffset32(img.width, x, y);
      if i + Bpp <= |img.data| then
        && r.status.Completed?
        && r.state.(data := img.data) == img
        && |r.state.data| == |img.data|
        && r.state.data[i..i + Bpp] == color.Bytes()
        && (forall k :: 0 <= k < |img.data| && !(i <= k < i + Bpp) ==> r.state.data[k] == img.data[k])
      else
        r == Run(img, Panicked(SliceOutOfRange(i, i + Bpp, |img.data|)))
  {
    var i := ByteOffset32(img.width, x, y);
    if i + Bpp <= |img.data| then
      Run(img.(data := Splice(img.data, i, color.Bytes())), Completed)
    else
      Run(img, Panicked(SliceOutOfRange(i, i + Bpp, |img.data|)))
  }

  /** `put_pixel`: out-of-range coordinates are ignored; in range, the format
      decides between the RGBA8 write and a panic. */
  function PutPixel(img: Image, x: u32, y: u32, color: Rgba): (r: Run<Image, Panic>)
    ensures x >= img.width || y >= img.height ==> r == Run(img, Completed)
    ensures r.status == Panicked(UnsupportedFormat) <==>
      x < img.width && y < img.height && img.format != Rgba8Unorm
    ensures r.status.Panicked? ==> r.state == img
    ensures r.state.(data := img.data) == img && |r.state.data| == |img.data|
  {
    if x >= img.width || y >= img.height then
      Run(img, Completed)
    else
      match img.format
      case Rgba8Unorm => PutPixelRgba8Unorm(img, x, y, color)
      case OtherFormat(_) => Run(img, Panicked(UnsupportedFormat))
  }

  /** In a well-formed texture the window of every in-bounds pixel lies inside the buffer. */
  lemma WindowInBuffer(img: Image, x: u32, y: u32)
    requires WellFormed(img) && x < img.width && y < img.height
    ensures ByteOffset(img.width, x, y) + Bpp <= |img.data|
  {
    IndexInRange(img.width, img.height, x, y);
    MulMonotone(Index(img.width, x, y) + 1, img.width * img.height, Bpp);
  }

  /** An in-bounds write to a well-formed RGBA8 texture completes, puts the
      colour's bytes in the pixel's window, and changes no other byte. */
  lemma PutPixelWrites(img: Image, x: u32, y: u32, color: Rgba)
    requires WellFormed(img) && |img.data| <= U32Modulus && img.format == Rgba8Unorm
    requires x < img.width && y < img.height
    ensures var r := PutPixel(img, x, y, color);
      var i := ByteOffset(img.width, x, y);
      && r.status.Completed?
      && WellFormed(r.state)
      && i + Bpp <= |r.state.data|
      && r.state.data[i..i + Bpp] == color.Bytes()
      && (forall k :: 0 <= k < |img.data| && !(i <= k < i + Bpp) ==> r.state.data[k] == img.data[k])
  {
    WindowInBuffer(img, x, y);
    ByteOffset32Agrees(img, x, y);
  }

  /** Distinct in-bounds pixels own disjoint 4-byte windows. */
  lemma WindowsDisjoint(width: nat, x1: nat, y1: nat, x2: nat, y2: nat)
    requires x1 < width && x2 < width && (x1 != x2 || y1 != y2)
    ensures ByteOffset(width, x1, y1) + Bpp <= ByteOffset(width, x2, y2)
         || ByteOffset(width, x2, y2) + Bpp <= ByteOffset(width, x1, y1)
  {
    var i1, i2 := Index(width, x1, y1), Index(width, x2, y2);
    if i1 == i2 {
      IndexInjective(width, x1, y1, x2, y2);
    } else if i1 < i2 {
      MulMonotone(i1 + 1, i2, Bpp);
    } else {
      MulMonotone(i2 + 1, i1, Bpp);
    }
  }

  /** Writing the same pixel twice with the same colour equals writing it once. */
  lemma PutPixelIdempotent(img: Image, x: u32, y: u32, color: Rgba)
    ensures PutPixel(PutPixel(img, x, y, color).state, x, y, color) == PutPixel(img, x, y, color)
  {
    var once := PutPixel(img, x, y, color);
    var twice := PutPixel(once.state, x, y, color);
    if x < img.width && y < img.height && img.format == Rgba8Unorm {
      var i := ByteOffset32(img.width, x, y);
      if i + Bpp <= |img.data| {
        assert twice.state.data == once.state.data by {
          forall k | 0 <= k < |once.state.data|
            ensures twice.state.data[k] == once.state.data[k]
          {
            if i <= k < i + Bpp {
              assert twice.state.data[k] == twice.state.data[i..i + Bpp][k - i];
              assert once.state.data[k] == once.state.data[i..i + Bpp][k - i];
            }
          }
        }
      }
    }
  }

  /** Byte `k` of a well-formed RGBA8 texture after an in-bounds write. */
  lemma ByteAfterWrite(img: Image, x: u32, y: u32, color: Rgba, k: nat)
    requires WellFormed(img) && |img.data| <= U32Modulus && img.format == Rgba8Unorm
    requires x < img.width && y < img.height && k < |img.data|
    ensures var i := ByteOffset(img.width, x, y);
      PutPixel(img, x, y, color).state.data[k]
        == if i <= k < i + Bpp then color.Bytes()[k - i] else img.data[k]
  {
    PutPixelWrites(img, x, y, color);
    var i := ByteOffset(img.width, x, y);
    var d := PutPixel(img, x, y, color).state.data;
    if i <= k < i + Bpp {
      assert d[k] == d[i..i + Bpp][k - i];
    }
  }

  /** Writes to two different pixels of a well-formed RGBA8 texture commute. */
  lemma PutPixelCommutes(img: Image, x1: u32, y1: u32, c1: Rgba, x2: u32, y2: u32, c2: Rgba)
    requires WellFormed(img) && |img.data| <= U32Modulus && img.format == Rgba8Unorm
    requires x1 < img.width && y1 < img.height && x2 < img.width && y2 < img.height
    requires x1 != x2 || y1 != y2
    ensures PutPixel(PutPixel(img, x1, y1, c1).state, x2, y2, c2)
         == PutPixel(PutPixel(img, x2, y2, c2).state, x1, y1, c1)
  {
    WindowsDisjoint(img.width, x1, y1, x2, y2);
    var one := PutPixel(img, x1, y1, c1).state;
    var two := PutPixel(img, x2, y2, c2).state;
    PutPixelWrites(img, x1, y1, c1);
    PutPixelWrites(img, x2, y2, c2);
    var a := PutPixel(one, x2, y2, c2);
    var b := PutPixel(two, x1, y1, c1);
    PutPixelWrites(one, x2, y2, c2);
    PutPixelWrites(two, x1, y1, c1);
    forall k | 0 <= k < |img.data|
      ensures a.state.data[k] == b.state.data[k]
    {
      ByteAfterWrite(img, x1, y1, c1, k);
      ByteAfterWrite(img, x2, y2, c2, k);
      ByteAfterWrite(one, x2, y2, c2, k);
      ByteAfterWrite(two, x1, y1, c1, k);
    }
    assert a.state.data == b.state.data;
  }

  /** For every texture of at most 4 GiB the wrapping `u32` offset equals the
      exact one. */
  lemma ByteOffset32Agrees(img: Image, x: u32, y: u32)
    requires WellFormed(img) && |img.data| <= U32Modulus
    requires x < img.width && y < img.height
    ensures ByteOffset32(img.width, x, y) == ByteOffset(img.width, x, y)
  {
    WindowInBuffer(img, x, y);
    assert x * Bpp + y * img.width * Bpp == ByteOffset(img.width, x, y);
  }

  /** Past 4 GiB the `u32` offset wraps: in a 65536 x 16385 texture, pixel
      (0, 16384) is sent to offset 0, the window of pixel (0, 0). */
  lemma ByteOffset32Wraps()
    ensures var img := Image(65536, 16385, Rgba8Unorm, seq(65536 * 16385 * 4, _ => 0));
      && WellFormed(img)
      && ByteOffset(img.width, 0, 16384) == U32Modulus
      && ByteOffset32(img.width, 0, 16384) == 0 == ByteOffset32(img.width, 0, 0)
  {
  }

  /** Past 4 GiB the program's writes stop commuting: in a zeroed 65536 x 16385
      texture, pixels (0, 0) and (0, 16384) share the window at offset 0, so
      whichever is written last decides byte 0. */
  lemma PutPixelCommutesFailsPast4GiB()
    ensures var img := Image(65536, 16385, Rgba8Unorm, seq(65536 * 16385 * 4, _ => 0));
      var c1, c2 := Rgba(1, 0, 0, 0), Rgba(2, 0, 0, 0);
      && WellFormed(img)
      && PutPixel(PutPixel(img, 0, 0, c1).state, 0, 16384, c2).state.data[0] == 2
      && PutPixel(PutPixel(img, 0, 16384, c2).state, 0, 0, c1).state.data[0] == 1
  {
    var img := Image(65536, 16385, Rgba8Unorm, seq(65536 * 16385 * 4, _ => 0));
    var c1, c2 := Rgba(1, 0, 0, 0), Rgba(2, 0, 0, 0);
    ByteOffset32Wraps();
    var a := PutPixel(PutPixel(img, 0, 0, c1).state, 0, 16384, c2).state.data;
    var b := PutPixel(PutPixel(img, 0, 16384, c2).state, 0, 0, c1).state.data;
    assert a[0] == a[0..Bpp][0] == c2.Bytes()[0];
    assert b[0] == b[0..Bpp][0] == c1.Bytes()[0];
  }
}
