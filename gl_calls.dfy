/** The WebGL calls the bridge makes for the GL entry points whose arguments it rearranges,
    each as the code writes it and as it is evidently meant, and the info-log copy. */
module GlCalls {
  import opened Wrappers
  import opened Bytes
  import opened GlHost
  import Js = JsValues

  /*************************************************************************************
   * Object kinds and the WebGL methods that create and delete them
   *************************************************************************************/

  /** The registries of MpvPlayerImpl: one per kind of WebGL object. */
  datatype Kind = Programs | Shaders | Buffers | Textures | Framebuffers | Uniforms

  /** The WebGL name of an object kind that WebGL creates with `create...`. */
  function Noun(k: Kind): string
    requires k != Uniforms
  {
    match k
    case Programs => "Program"
    case Shaders => "Shader"
    case Buffers => "Buffer"
    case Textures => "Texture"
    case Framebuffers => "Framebuffer"
  }

  /** The method that makes a new object of a kind. */
  function Creator(k: Kind): string
    requires k != Uniforms
  {
    "create" + Noun(k)
  }

  /** The method that deletes an object, paired with the one that created it. */
  function Deleter(k: Kind): string
    requires k != Uniforms
  {
    "delete" + Noun(k)
  }

  /** The method glDeleteBuffers, glDeleteTextures and glDeleteFramebuffers call, as written:
      glDeleteFramebuffers calls "deleteBuffer". */
  function DeleterAsWritten(k: Kind): string
    requires k == Buffers || k == Textures || k == Framebuffers
  {
    match k
    case Buffers => "deleteBuffer"
    case Textures => "deleteTexture"
    case Framebuffers => "deleteBuffer"
  }

  /** As written, framebuffers are handed to the buffer deleter, not to the method paired with
      the one that created them. */
  lemma FramebuffersDeletedAsBuffers()
    ensures DeleterAsWritten(Framebuffers) == Deleter(Buffers)
    ensures DeleterAsWritten(Framebuffers) != Deleter(Framebuffers)
  {
    assert Deleter(Framebuffers)[6] == 'F';
  }

  /** The corrected deleters: each kind has its own, and it names the kind its creator names. */
  lemma DeletersMatchCreators(k: Kind, k': Kind)
    requires k != Uniforms && k' != Uniforms
    ensures Deleter(k)[6..] == Creator(k)[6..] == Noun(k)
    ensures Deleter(k) == Deleter(k') ==> k == k'
  {
    if Deleter(k) == Deleter(k') {
      assert Noun(k) == Deleter(k)[6..];
      assert Noun(k') == Deleter(k')[6..];
      match k
      case Programs =>
      case Shaders => assert Noun(k)[0] == 'S';
      case Buffers => assert Noun(k)[0] == 'B';
      case Textures => assert Noun(k)[0] == 'T';
      case Framebuffers => assert Noun(k)[0] == 'F';
    }
  }

  /** The corrected deleters agree with the written ones for buffers and textures. */
  lemma DeleterAsWrittenElsewhere(k: Kind)
    requires k == Buffers || k == Textures
    ensures DeleterAsWritten(k) == Deleter(k)
  {
  }

  /*************************************************************************************
   * Uniform setters
   *************************************************************************************/

  /** The WebGL uniform setter for `n` values of element type `t` ('f' or 'i'):
      "uniform1f", "uniform3f", "uniform1i", ... */
  function UniformSetter(n: nat, t: char): (name: string)
    requires 1 <= n <= 4
    ensures |name| == 9 && name[..7] == "uniform" && name[8] == t
  {
    "uniform" + [('0' as int + n) as char] + [t]
  }

  /** The method glUniform3f calls, as written. */
  const Uniform3fAsWritten: string := "uniform3d"

  /** "uniform3d" is no uniform setter of WebGL, which has integer and float setters only; the
      corrected glUniform3f calls "uniform3f". */
  lemma Uniform3dIsNoSetter(n: nat, t: char)
    requires 1 <= n <= 4 && (t == 'f' || t == 'i')
    ensures UniformSetter(n, t) != Uniform3fAsWritten
    ensures UniformSetter(3, 'f') == "uniform3f"
  {
    assert Uniform3fAsWritten[8] == 'd';
  }

  /** The call glUniformMatrix2fv and glUniformMatrix3fv make, as written: both call
      "uniformMatrix2fv", with a view of `static_cast<size_t>(count)` floats. */
  function UniformMatrixCallAsWritten(dim: nat, location: Js.Value, count: GLsizei, transpose: bool, value: nat): HostCall {
    HostCall("uniformMatrix2fv", [Object(location), Bool(transpose), View(Float32, value, ToSizeT(count))])
  }

  /** The call glUniformMatrix{2,3}fv is meant to make: the setter for `dim` x `dim` matrices,
      with a view of the `count` matrices GL reads, `count * dim * dim` floats. */
  function UniformMatrixCall(dim: nat, location: Js.Value, count: GLsizei, transpose: bool, value: nat): (c: HostCall)
    requires dim == 2 || dim == 3
    ensures c.name == "uniformMatrix" + [('0' as int + dim) as char] + "fv"
    ensures |c.args| == 3 && c.args[0] == Object(location) && c.args[1] == Bool(transpose)
    ensures c.args[2] == View(Float32, value, count * (dim * dim))
  {
    HostCall("uniformMatrix" + [('0' as int + dim) as char] + "fv",
             [Object(location), Bool(transpose), View(Float32, value, count * (dim * dim))])
  }

  /** As written, a 3x3 upload goes to the 2x2 setter, and every upload hands the host only
      `count` floats, a quarter (2x2) or a ninth (3x3) of what GL reads. */
  lemma UniformMatrixAsWrittenDiffers(dim: nat, location: Js.Value, count: GLsizei, transpose: bool, value: nat)
    requires dim == 2 || dim == 3
    requires count >= 1
    ensures dim == 3 ==> UniformMatrixCallAsWritten(dim, location, count, transpose, value).name
                         != UniformMatrixCall(dim, location, count, transpose, value).name
    ensures UniformMatrixCallAsWritten(dim, location, count, transpose, value).args[2].length
            < UniformMatrixCall(dim, location, count, transpose, value).args[2].length
  {
    if dim == 3 {
      assert UniformMatrixCall(dim, location, count, transpose, value).name[13] == '3';
    }
  }

  /*************************************************************************************
   * Rearranged arguments
   *************************************************************************************/

  /** The arguments glTexImage2D passes before the pixel data, as written: `target` fills both
      the target and the level slot. */
  function TexImage2DArgsAsWritten(target: GLenum, level: GLint, internalFormat: GLint, width: GLsizei, height: GLsizei,
                                   border: GLint, format: GLenum, type_: GLenum): seq<Arg> {
    [Int(ToInt32(target)), Int(ToInt32(target)), Int(internalFormat), Int(width), Int(height),
     Int(border), Int(ToInt32(format)), Int(ToInt32(type_))]
  }

  /** The arguments of WebGL texImage2D in its order: target, level, internal format, width,
      height, border, format, type. */
  function TexImage2DArgs(target: GLenum, level: GLint, internalFormat: GLint, width: GLsizei, height: GLsizei,
                          border: GLint, format: GLenum, type_: GLenum): (args: seq<Arg>)
    ensures |args| == 8 && args[0] == Int(ToInt32(target)) && args[1] == Int(level)
    ensures args[2..] == [Int(internalFormat), Int(width), Int(height), Int(border), Int(ToInt32(format)), Int(ToInt32(type_))]
  {
    [Int(ToInt32(target)), Int(level), Int(internalFormat), Int(width), Int(height),
     Int(border), Int(ToInt32(format)), Int(ToInt32(type_))]
  }

  /** As written, a texture image the caller specifies for level 0 (the only level the bridge
      accepts a target for) is uploaded for level GL_TEXTURE_2D = 3553. */
  lemma TexImage2DLevelLost(level: GLint, internalFormat: GLint, width: GLsizei, height: GLsizei,
                            border: GLint, format: GLenum, type_: GLenum)
    ensures TexImage2DArgsAsWritten(GL_TEXTURE_2D, level, internalFormat, width, height, border, format, type_)[1] == Int(0x0DE1)
    ensures TexImage2DArgsAsWritten(GL_TEXTURE_2D, level, internalFormat, width, height, border, format, type_)
            == TexImage2DArgs(GL_TEXTURE_2D, level, internalFormat, width, height, border, format, type_)
            <==> level == 0x0DE1
  {
    var w := TexImage2DArgsAsWritten(GL_TEXTURE_2D, level, internalFormat, width, height, border, format, type_);
    var c := TexImage2DArgs(GL_TEXTURE_2D, level, internalFormat, width, height, border, format, type_);
    if w == c {
      assert w[1] == c[1];
    }
  }

  /** The call glBufferData makes, as written: the size sits where WebGL expects the data,
      the bytes where it expects the usage, and a fifth argument follows. */
  function BufferDataCallAsWritten(target: GLenum, size: int, data: nat, usage: GLenum): HostCall
    requires size > 0
  {
    HostCall("bufferData", [Int(ToInt32(target)), Int(ToUint32(size)), Buffer(data, size), Int(ToInt32(usage)), Int(0)])
  }

  /** The call glBufferData is meant to make: WebGL bufferData(target, srcData, usage) with
      the caller's bytes as the data. */
  function BufferDataCall(target: GLenum, size: int, data: nat, usage: GLenum): (c: HostCall)
    requires size > 0
    ensures c.name == "bufferData" && |c.args| == 3
    ensures c.args[1] == Buffer(data, size) && c.args[2] == Int(ToInt32(usage))
  {
    HostCall("bufferData", [Int(ToInt32(target)), Buffer(data, size), Int(ToInt32(usage))])
  }

  /** As written, the data slot holds the size and the bytes are passed only in the usage slot,
      so the call never is the intended upload. */
  lemma BufferDataSizeAsData(target: GLenum, size: int, data: nat, usage: GLenum)
    requires 0 < size < TwoTo32
    ensures var w := BufferDataCallAsWritten(target, size, data, usage);
      w.args[1] == Int(size) && w.args[2] == Buffer(data, size) &&
      (forall i :: 0 <= i < |w.args| && w.args[i] == Buffer(data, size) ==> i == 2) &&
      w != BufferDataCall(target, size, data, usage)
  {
    var w := BufferDataCallAsWritten(target, size, data, usage);
    assert |w.args| == 5;
  }

  /** The call glBufferSubData makes, as written: the size goes where WebGL expects the
      destination offset, and the offset is dropped. */
  function BufferSubDataCallAsWritten(target: GLenum, offset: int, size: int, data: nat): HostCall
    requires size > 0
  {
    HostCall("bufferSubData", [Int(ToInt32(target)), Int(ToUint32(size)), Buffer(data, size), Int(0)])
  }

  /** The call glBufferSubData is meant to make: WebGL bufferSubData(target, dstByteOffset,
      srcData, srcOffset) with the caller's offset as destination. */
  function BufferSubDataCall(target: GLenum, offset: int, size: int, data: nat): (c: HostCall)
    requires size > 0
    ensures c.name == "bufferSubData" && |c.args| == 4
    ensures c.args[1] == Int(offset) && c.args[2] == Buffer(data, size)
  {
    HostCall("bufferSubData", [Int(ToInt32(target)), Int(offset), Buffer(data, size), Int(0)])
  }

  /** As written, the data lands at byte offset `size` instead of `offset`: the two calls agree
      only when the offset happens to equal the size. */
  lemma BufferSubDataOffsetLost(target: GLenum, offset: int, size: int, data: nat)
    requires 0 < size < TwoTo32
    ensures BufferSubDataCallAsWritten(target, offset, size, data).args[1] == Int(size)
    ensures BufferSubDataCallAsWritten(target, offset, size, data) == BufferSubDataCall(target, offset, size, data)
            <==> offset == size
  {
    var w := BufferSubDataCallAsWritten(target, offset, size, data);
    var c := BufferSubDataCall(target, offset, size, data);
    if w == c {
      assert w.args[1] == c.args[1];
    }
  }

  /** The arguments glGetFramebufferAttachmentParameteriv passes, as written: `pname` twice. */
  function AttachmentParameterArgsAsWritten(target: GLenum, attachment: GLenum, pname: GLenum): seq<Arg> {
    [Int(ToInt32(target)), Int(ToInt32(pname)), Int(ToInt32(pname))]
  }

  /** WebGL getFramebufferAttachmentParameter(target, attachment, pname). */
  function AttachmentParameterArgs(target: GLenum, attachment: GLenum, pname: GLenum): (args: seq<Arg>)
    ensures args == [Int(ToInt32(target)), Int(ToInt32(attachment)), Int(ToInt32(pname))]
  {
    [Int(ToInt32(target)), Int(ToInt32(attachment)), Int(ToInt32(pname))]
  }

  /** As written, the attachment never reaches the host: the query asks about the attachment
      named by `pname` whatever attachment the caller named. */
  lemma AttachmentLost(target: GLenum, attachment: GLenum, attachment': GLenum, pname: GLenum)
    ensures AttachmentParameterArgsAsWritten(target, attachment, pname)
            == AttachmentParameterArgsAsWritten(target, attachment', pname)
    ensures attachment != pname && attachment < TwoTo31 && pname < TwoTo31 ==>
            AttachmentParameterArgsAsWritten(target, attachment, pname) != AttachmentParameterArgs(target, attachment, pname)
  {
    if attachment != pname && attachment < TwoTo31 && pname < TwoTo31 {
      assert AttachmentParameterArgs(target, attachment, pname)[1] == Int(attachment);
    }
  }

  /*************************************************************************************
   * Info logs (getObjectInfoLog)
   *************************************************************************************/

  /** A UTF-8 continuation byte: it never starts a character. */
  predicate IsContinuation(b: byte) {
    0x80 <= b < 0xC0
  }

  /** The number of bytes String::WriteUtf8 copies into `capacity` bytes: the longest prefix
      of the text that fits and does not end inside a character. */
  function FitLength(text: seq<byte>, capacity: nat): (n: nat)
    ensures n <= capacity && n <= |text|
    ensures n == |text| || n == 0 || !IsContinuation(text[n])
    ensures |text| <= capacity ==> n == |text|
    ensures forall m :: n < m <= capacity && m < |text| ==> IsContinuation(text[m])
  {
    if |text| <= capacity then |text|
    else if capacity == 0 || !IsContinuation(text[capacity]) then capacity
    else FitLength(text, capacity - 1)
  }

  /** Where getObjectInfoLog puts the terminator and what length it reports, as written:
      both one past the bytes it wrote. */
  function InfoLogEndAsWritten(text: seq<byte>, maxLength: GLsizei): (int, int)
    requires maxLength > 0
  {
    var written := FitLength(text, maxLength - 1);
    (written + 1, written + 1)
  }

  /** As written, a log that fills the buffer gets its terminator at index `maxLength`, one
      past the caller's buffer, and every log is reported one byte longer than the text
      written, counting the never-written byte at index `written`. */
  lemma InfoLogOffByOne(text: seq<byte>, maxLength: GLsizei)
    requires maxLength > 0
    ensures var written := FitLength(text, maxLength - 1);
            var (terminatorAt, reported) := InfoLogEndAsWritten(text, maxLength);
            reported == written + 1 && terminatorAt > written &&
            (written == maxLength - 1 ==> terminatorAt == maxLength)
    ensures |text| == maxLength - 1 || (|text| >= maxLength && !IsContinuation(text[maxLength - 1])) ==>
            InfoLogEndAsWritten(text, maxLength).0 == maxLength
  {
  }
}
