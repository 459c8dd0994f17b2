/** The WebGL rendering context as the GL bridge sees it: the values passed to its methods,
    the calls it receives, the GL enumerants and C integer types the bridge converts. */
module GlHost {
  import opened Wrappers
  import opened Bytes
  import Js = JsValues

  /*************************************************************************************
   * C integer types of the GL entry points
   *************************************************************************************/

  const TwoTo32: int := 0x1_0000_0000
  const TwoTo31: int := 0x8000_0000
  const TwoTo64: int := 0x1_0000_0000_0000_0000

  type GLenum = x: int | 0 <= x < 0x1_0000_0000
  type GLuint = x: int | 0 <= x < 0x1_0000_0000
  type GLint = x: int | -0x8000_0000 <= x < 0x8000_0000
  type GLsizei = GLint

  /** `static_cast<GLenum>` (and `static_cast<uint32_t>`) of a wider integer: reduction modulo 2^32. */
  function ToUint32(i: int): (r: GLenum)
    ensures 0 <= i < TwoTo32 ==> r == i
    ensures (r - i) % TwoTo32 == 0
  {
    i % TwoTo32
  }

  /** `static_cast<GLint>` of a wider integer (and the int32_t parameter of Integer::New):
      two's-complement wrap-around into the signed 32-bit range. */
  function ToInt32(i: int): (r: GLint)
    ensures -TwoTo31 <= i < TwoTo31 ==> r == i
    ensures (r - i) % TwoTo32 == 0
  {
    var u := i % TwoTo32;
    if u < TwoTo31 then u else u - TwoTo32
  }

  /** `static_cast<size_t>` of an integer (and the implicit conversion of an `int` operand
      multiplied by a `size_t`): reduction modulo 2^64, so a negative value becomes a huge one. */
  function ToSizeT(i: int): (r: nat)
    ensures r < TwoTo64
    ensures 0 <= i < TwoTo64 ==> r == i
    ensures -TwoTo64 <= i < 0 ==> r == TwoTo64 + i
  {
    i % TwoTo64
  }

  /*************************************************************************************
   * GL enumerants the bridge looks at
   *************************************************************************************/

  const GL_NO_ERROR: GLenum := 0
  const GL_TEXTURE_2D: GLenum := 0x0DE1
  const GL_UNSIGNED_BYTE: GLenum := 0x1401
  const GL_UNSIGNED_SHORT: GLenum := 0x1403
  const GL_UNSIGNED_INT: GLenum := 0x1405
  const GL_FLOAT: GLenum := 0x1406
  const GL_HALF_FLOAT: GLenum := 0x140B
  const GL_UNSIGNED_SHORT_4_4_4_4: GLenum := 0x8033
  const GL_UNSIGNED_SHORT_5_5_5_1: GLenum := 0x8034
  const GL_UNSIGNED_SHORT_5_6_5: GLenum := 0x8363
  const GL_UNSIGNED_INT_24_8: GLenum := 0x84FA
  const GL_PIXEL_UNPACK_BUFFER_BINDING: GLenum := 0x88EF
  const GL_RENDERER: GLenum := 0x1F01
  const GL_VERSION: GLenum := 0x1F02
  const GL_EXTENSIONS: GLenum := 0x1F03
  const GL_SHADING_LANGUAGE_VERSION: GLenum := 0x8B8C

  /*************************************************************************************
   * Calls into the rendering context
   *************************************************************************************/

  /** The element type of a typed-array view the bridge builds over caller memory. */
  datatype ElementKind = Uint8 | Uint16 | Uint32 | Float32

  /** One argument of a WebGL method call, as the JavaScript side receives it.
      `Int(i)` is the number `i` (Integer::New, Integer::NewFromUnsigned, or Number::New of an
      integer); `Float(bits)` a GLfloat payload, kept opaque; `Object(v)` a stored WebGL object;
      `Buffer(at, size)` an ArrayBuffer over `size` bytes of caller memory at address `at`;
      `View(kind, at, length)` a typed array of `length` elements over such a buffer;
      `NoView` the empty handle getTexBuffers yields for an unsupported type. */
  datatype Arg =
    | Int(i: int)
    | Float(bits: bv32)
    | Bool(b: bool)
    | Str(utf8: seq<byte>)
    | Object(v: Js.Value)
    | Buffer(at: nat, size: int)
    | View(kind: ElementKind, at: nat, length: int)
    | NoView

  /** A call of a method of the rendering context. */
  datatype HostCall = HostCall(name: string, args: seq<Arg>)

  /** What the rendering context answers: the reply to the call made when `n` calls precede it.
      Replies are arbitrary; the model proves its properties for every host. */
  type Host = (nat, HostCall) -> Js.Value

  /** The bytes of a string literal of the bridge: each character's code, which for the
      ASCII strings the bridge uses is its UTF-8 encoding. */
  function Ascii(s: string): (r: seq<byte>)
    ensures |r| == |s|
  {
    seq(|s|, i requires 0 <= i < |s| => s[i] as int % 256)
  }
}
