/** Pixel data handed from GL to WebGL: the element type of the typed-array view built over the
    caller's memory (module/mpv_player.cpp, getTexBuffers and glReadPixels). */
module GlPixels {
  import opened Wrappers
  import opened GlHost

  /** Bytes per element of a typed array. */
  function ElementBytes(k: ElementKind): nat {
    match k
    case Uint8 => 1
    case Uint16 => 2
    case Uint32 => 4
    case Float32 => 4
  }

  /** The packed 16-bit pixel types of OpenGL ES 2.0. */
  predicate IsPacked16(t: GLenum) {
    t == GL_UNSIGNED_SHORT_5_6_5 || t == GL_UNSIGNED_SHORT_4_4_4_4 || t == GL_UNSIGNED_SHORT_5_5_5_1
  }

  /** The view getTexBuffers builds for a pixel type, or none for a type it does not know. */
  function TexElement(t: GLenum): (r: Option<ElementKind>)
    ensures r == Some(Uint8) <==> t == GL_UNSIGNED_BYTE
    ensures r == Some(Uint16) <==> t == GL_UNSIGNED_SHORT || IsPacked16(t) || t == GL_HALF_FLOAT
    ensures r == Some(Uint32) <==> t == GL_UNSIGNED_INT || t == GL_UNSIGNED_INT_24_8
    ensures r == Some(Float32) <==> t == GL_FLOAT
  {
    if t == GL_UNSIGNED_BYTE then Some(Uint8)
    else if t == GL_UNSIGNED_SHORT || IsPacked16(t) || t == GL_HALF_FLOAT then Some(Uint16)
    else if t == GL_UNSIGNED_INT || t == GL_UNSIGNED_INT_24_8 then Some(Uint32)
    else if t == GL_FLOAT then Some(Float32)
    else None
  }

  /** The view glReadPixels builds: the same switch without HALF_FLOAT and the 32-bit
      integer types. */
  function ReadPixelsElement(t: GLenum): (r: Option<ElementKind>)
    ensures r == Some(Uint8) <==> t == GL_UNSIGNED_BYTE
    ensures r == Some(Uint16) <==> t == GL_UNSIGNED_SHORT || IsPacked16(t)
    ensures r == Some(Float32) <==> t == GL_FLOAT
    ensures r != Some(Uint32)
  {
    if t == GL_UNSIGNED_BYTE then Some(Uint8)
    else if t == GL_UNSIGNED_SHORT || IsPacked16(t) then Some(Uint16)
    else if t == GL_FLOAT then Some(Float32)
    else None
  }

  /** The bytes one pixel component of a GL pixel type occupies, as OpenGL ES defines the
      types: 1 for GL_UNSIGNED_BYTE, 2 for the 16-bit and half-float types, 4 for the 32-bit
      ones. An independent statement of the sizes the views are meant to have. */
  function ComponentSize(t: GLenum): Option<nat> {
    if t == GL_UNSIGNED_BYTE then Some(1)
    else if t == GL_UNSIGNED_SHORT || t == GL_HALF_FLOAT || IsPacked16(t) then Some(2)
    else if t == GL_UNSIGNED_INT || t == GL_UNSIGNED_INT_24_8 || t == GL_FLOAT then Some(4)
    else None
  }

  /** The element count of the views, `static_cast<size_t>(width * height)`. The product of
      the two GLsizei is taken exactly. */
  function PixelCount(width: GLsizei, height: GLsizei): nat {
    ToSizeT(width * height)
  }

  /** The byte size of the buffers, `width * height * sizeof(T)`: the int product converted
      to size_t, then multiplied by the element size modulo 2^64. */
  function PixelBytes(width: GLsizei, height: GLsizei, k: ElementKind): nat {
    ToSizeT(PixelCount(width, height) * ElementBytes(k))
  }

  /** A product in the int range that is not negative gives exactly that many elements and
      bytes; a negative one (a negative width or height) wraps to a count of at least 2^63,
      so -1 by 1 pixels gives a view of 2^64 - 1 elements. */
  lemma PixelSizes(width: GLsizei, height: GLsizei, k: ElementKind)
    ensures 0 <= width * height < TwoTo31 ==>
      PixelCount(width, height) == width * height &&
      PixelBytes(width, height, k) == width * height * ElementBytes(k)
    ensures width * height < 0 ==> PixelCount(width, height) == TwoTo64 + width * height >= TwoTo64 / 2
    ensures PixelCount(-1, 1) == TwoTo64 - 1
  {
    ProductOfSizes(width, height);
    var n := width * height;
    if 0 <= n < TwoTo31 {
      assert n * ElementBytes(k) < 4 * TwoTo31;
    }
    assert -1 * 1 == -1;
  }

  /** Two GLsizei multiply to at most 2^62 in magnitude. */
  lemma ProductOfSizes(a: GLsizei, b: GLsizei)
    ensures -TwoTo31 * TwoTo31 <= a * b <= TwoTo31 * TwoTo31
  {
    var m: nat := if a < 0 then -(a as int) else a;
    var n: nat := if b < 0 then -(b as int) else b;
    MulMono(m, n, TwoTo31, TwoTo31);
    assert a * b == m * n || a * b == -(m * n);
  }

  /** Multiplication of naturals is monotonic in both factors. */
  lemma MulMono(a: nat, b: nat, c: nat, d: nat)
    requires a <= c && b <= d
    ensures a * b <= c * d
  {
    assert a * b <= c * b;
    assert c * b <= c * d;
  }

  /** The pair getTexBuffers returns: an ArrayBuffer over `width * height` elements of caller
      memory at `data` and a typed-array view over the whole of it; for an unknown type no
      buffer and an empty view. */
  function TexBuffers(t: GLenum, width: GLsizei, height: GLsizei, data: nat): (r: (Option<Arg>, Arg))
    ensures r.0.Some? <==> TexElement(t).Some?
    ensures r.0.None? ==> r.1 == NoView
    ensures r.0.Some? ==>
      && r.0.value == Buffer(data, PixelBytes(width, height, TexElement(t).value))
      && r.1 == View(TexElement(t).value, data, PixelCount(width, height))
  {
    match TexElement(t)
    case Some(k) => (Some(Buffer(data, PixelBytes(width, height, k))), View(k, data, PixelCount(width, height)))
    case None => (None, NoView)
  }

  /** Every view getTexBuffers builds has the element size of the pixel type: one element
      per component of that type. The view holds `width * height` elements whatever the
      format, so for a format with several components per pixel it covers only part of the
      pixels GL reads. */
  lemma TexElementSize(t: GLenum)
    ensures TexElement(t).Some? <==> ComponentSize(t).Some?
    ensures TexElement(t).Some? ==> ElementBytes(TexElement(t).value) == ComponentSize(t).value
  {
  }

  /** glReadPixels accepts a subset of the types getTexBuffers accepts and views each of
      them the same way. */
  lemma ReadPixelsAgreesWithTex(t: GLenum)
    ensures ReadPixelsElement(t).Some? ==> TexElement(t) == ReadPixelsElement(t)
    ensures TexElement(t).Some? && ReadPixelsElement(t).None? <==>
      t == GL_HALF_FLOAT || t == GL_UNSIGNED_INT || t == GL_UNSIGNED_INT_24_8
  {
  }
}
