/**
 * The table that hands mpv's renderer the address of each OpenGL entry point
 * (module/mpv_player.cpp:1009, 1078-1151): a fixed map from the name
 * "gl" + Name to the wrapper web_gl + Name, built once at load time and only
 * ever searched afterwards. A wrapper's address is modelled by the
 * `GlFunction` naming it; a null pointer is `None`.
 */
module GlFuncMap {
  import opened Wrappers

  /** One constructor per entry of the table, in the table's order. */
  datatype GlFunction =
    | ActiveTexture
    | AttachShader
    | BindAttribLocation
    | BindBuffer
    | BindTexture
    | BlendFuncSeparate
    | BufferData
    | BufferSubData
    | Clear
    | ClearColor
    | CompileShader
    | CreateProgram
    | CreateShader
    | DeleteBuffers
    | DeleteProgram
    | DeleteShader
    | DeleteTextures
    | Disable
    | DisableVertexAttribArray
    | DrawArrays
    | Enable
    | EnableVertexAttribArray
    | Finish
    | Flush
    | GenBuffers
    | GenTextures
    | GetAttribLocation
    | GetError
    | GetIntegerv
    | GetProgramInfoLog
    | GetProgramiv
    | GetShaderInfoLog
    | GetShaderiv
    | GetString
    | GetUniformLocation
    | LinkProgram
    | PixelStorei
    | ReadPixels
    | Scissor
    | ShaderSource
    | TexImage2D
    | TexParameteri
    | TexSubImage2D
    | Uniform1f
    | Uniform2f
    | Uniform3f
    | Uniform1i
    | UniformMatrix2fv
    | UniformMatrix3fv
    | UseProgram
    | VertexAttribPointer
    | Viewport
    | BindFramebuffer
    | GenFramebuffers
    | DeleteFramebuffers
    | CheckFramebufferStatus
    | FramebufferTexture2D
    | GetFramebufferAttachmentParameteriv

  /** The key under which the table stores `f`: "gl" followed by its name. */
  function Symbol(f: GlFunction): string {
    match f
    case ActiveTexture => "glActiveTexture"
    case AttachShader => "glAttachShader"
    case BindAttribLocation => "glBindAttribLocation"
    case BindBuffer => "glBindBuffer"
    case BindTexture => "glBindTexture"
    case BlendFuncSeparate => "glBlendFuncSeparate"
    case BufferData => "glBufferData"
    case BufferSubData => "glBufferSubData"
    case Clear => "glClear"
    case ClearColor => "glClearColor"
    case CompileShader => "glCompileShader"
    case CreateProgram => "glCreateProgram"
    case CreateShader => "glCreateShader"
    case DeleteBuffers => "glDeleteBuffers"
    case DeleteProgram => "glDeleteProgram"
    case DeleteShader => "glDeleteShader"
    case DeleteTextures => "glDeleteTextures"
    case Disable => "glDisable"
    case DisableVertexAttribArray => "glDisableVertexAttribArray"
    case DrawArrays => "glDrawArrays"
    case Enable => "glEnable"
    case EnableVertexAttribArray => "glEnableVertexAttribArray"
    case Finish => "glFinish"
    case Flush => "glFlush"
    case GenBuffers => "glGenBuffers"
    case GenTextures => "glGenTextures"
    case GetAttribLocation => "glGetAttribLocation"
    case GetError => "glGetError"
    case GetIntegerv => "glGetIntegerv"
    case GetProgramInfoLog => "glGetProgramInfoLog"
    case GetProgramiv => "glGetProgramiv"
    case GetShaderInfoLog => "glGetShaderInfoLog"
    case GetShaderiv => "glGetShaderiv"
    case GetString => "glGetString"
    case GetUniformLocation => "glGetUniformLocation"
    case LinkProgram => "glLinkProgram"
    case PixelStorei => "glPixelStorei"
    case ReadPixels => "glReadPixels"
    case Scissor => "glScissor"
    case ShaderSource => "glShaderSource"
    case TexImage2D => "glTexImage2D"
    case TexParameteri => "glTexParameteri"
    case TexSubImage2D => "glTexSubImage2D"
    case Uniform1f => "glUniform1f"
    case Uniform2f => "glUniform2f"
    case Uniform3f => "glUniform3f"
    case Uniform1i => "glUniform1i"
    case UniformMatrix2fv => "glUniformMatrix2fv"
    case UniformMatrix3fv => "glUniformMatrix3fv"
    case UseProgram => "glUseProgram"
    case VertexAttribPointer => "glVertexAttribPointer"
    case Viewport => "glViewport"
    case BindFramebuffer => "glBindFramebuffer"
    case GenFramebuffers => "glGenFramebuffers"
    case DeleteFramebuffers => "glDeleteFramebuffers"
    case CheckFramebufferStatus => "glCheckFramebufferStatus"
    case FramebufferTexture2D => "glFramebufferTexture2D"
    case GetFramebufferAttachmentParameteriv => "glGetFramebufferAttachmentParameteriv"
  }

  /**
   * The only entry whose key can equal `name`, chosen by the name's length and
   * a few of its characters. It stands for the ordered-map search; whether
   * the key really equals `name` is checked by `GetProcAddress`.
   */
  function Candidate(name: string): GlFunction {
    if |name| < 7 then ActiveTexture
    else if |name| <= 10 then CandidateUpToTen(name)
    else if |name| <= 11 then CandidateEleven(name)
    else if |name| <= 12 then CandidateTwelve(name)
    else if |name| <= 13 then CandidateThirteen(name)
    else if |name| <= 14 then CandidateFourteen(name)
    else if |name| <= 15 then CandidateFifteen(name)
    else if |name| <= 18 then CandidateUpToEighteen(name)
    else if |name| <= 20 then CandidateUpToTwenty(name)
    else if |name| <= 24 then CandidateUpToTwentyFour(name)
    else CandidateLonger(name)
  }

  function CandidateUpToTen(name: string): GlFunction
    requires 7 <= |name| <= 10
  {
    match |name|
    case 7 =>
      if name[2] == 'C' then
        Clear
      else
        Flush
    case 8 =>
      if name[2] == 'E' then
        Enable
      else
        Finish
    case 9 =>
      if name[2] == 'D' then
        Disable
      else
        Scissor
    case _ =>
      if name[2] == 'G' then
        GetError
      else
        Viewport
  }

  function CandidateEleven(name: string): GlFunction
    requires 11 <= |name| <= 11
  {
    if name[9] == 'n' then
      GetString
    else if name[9] == '1' then
      if name[10] == 'f' then
        Uniform1f
      else
        Uniform1i
    else if name[9] == '2' then
      Uniform2f
    else
      Uniform3f
  }

  function CandidateTwelve(name: string): GlFunction
    requires 12 <= |name| <= 12
  {
    if name[10] == 'e' then
      BindBuffer
    else if name[10] == 't' then
      BufferData
    else if name[10] == 'o' then
      ClearColor
    else if name[10] == 'y' then
      DrawArrays
    else if name[10] == 'r' then
      GenBuffers
    else if name[10] == 'l' then
      ReadPixels
    else if name[10] == '2' then
      TexImage2D
    else
      UseProgram
  }

  function CandidateThirteen(name: string): GlFunction
    requires 13 <= |name| <= 13
  {
    if name[5] == 'd' then
      BindTexture
    else if name[5] == 'T' then
      GenTextures
    else if name[5] == 'I' then
      GetIntegerv
    else if name[5] == 'S' then
      GetShaderiv
    else if name[5] == 'k' then
      LinkProgram
    else
      PixelStorei
  }

  function CandidateFourteen(name: string): GlFunction
    requires 14 <= |name| <= 14
  {
    if name[2] == 'A' then
      AttachShader
    else if name[2] == 'C' then
      CreateShader
    else if name[2] == 'D' then
      DeleteShader
    else if name[2] == 'G' then
      GetProgramiv
    else
      ShaderSource
  }

  function CandidateFifteen(name: string): GlFunction
    requires 15 <= |name| <= 15
  {
    if name[5] == 'i' then
      ActiveTexture
    else if name[5] == 'f' then
      BufferSubData
    else if name[5] == 'p' then
      CompileShader
    else if name[5] == 'a' then
      CreateProgram
    else if name[5] == 'e' then
      if name[8] == 'B' then
        DeleteBuffers
      else
        DeleteProgram
    else if name[5] == 'P' then
      TexParameteri
    else
      TexSubImage2D
  }

  function CandidateUpToEighteen(name: string): GlFunction
    requires 16 <= |name| <= 18
  {
    match |name|
    case 16 =>
      DeleteTextures
    case 17 =>
      if name[2] == 'B' then
        BindFramebuffer
      else
        GenFramebuffers
    case _ =>
      if name[15] == 'L' then
        GetShaderInfoLog
      else if name[15] == '2' then
        UniformMatrix2fv
      else
        UniformMatrix3fv
  }

  function CandidateUpToTwenty(name: string): GlFunction
    requires 19 <= |name| <= 20
  {
    match |name|
    case 19 =>
      if name[5] == 'n' then
        BlendFuncSeparate
      else if name[5] == 'A' then
        GetAttribLocation
      else
        GetProgramInfoLog
    case _ =>
      if name[2] == 'B' then
        BindAttribLocation
      else if name[2] == 'G' then
        GetUniformLocation
      else
        DeleteFramebuffers
  }

  function CandidateUpToTwentyFour(name: string): GlFunction
    requires 21 <= |name| <= 24
  {
    match |name|
    case 21 =>
      VertexAttribPointer
    case 22 =>
      FramebufferTexture2D
    case _ =>
      CheckFramebufferStatus
  }

  function CandidateLonger(name: string): GlFunction
    requires 25 <= |name|
  {
    match |name|
    case 25 =>
      EnableVertexAttribArray
    case 26 =>
      DisableVertexAttribArray
    case _ =>
      GetFramebufferAttachmentParameteriv
  }

  predicate InPart1(f: GlFunction) {
    f.Clear? || f.Disable? || f.Enable? || f.Finish? || f.Flush?
  }

  lemma CandidateOfSymbolPart1(f: GlFunction)
    requires InPart1(f)
    ensures Candidate(Symbol(f)) == f
  {
    match f
    case Clear =>
    case Disable =>
    case Enable =>
    case Finish =>
    case Flush =>
    case _ => assert false;
  }

  predicate InPart2(f: GlFunction) {
    f.GetError? || f.Scissor? || f.Viewport?
  }

  lemma CandidateOfSymbolPart2(f: GlFunction)
    requires InPart2(f)
    ensures Candidate(Symbol(f)) == f
  {
    match f
    case GetError =>
    case Scissor =>
    case Viewport =>
    case _ => assert false;
  }

  predicate InPart3(f: GlFunction) {
    f.GetString? || f.Uniform1f? || f.Uniform2f? || f.Uniform3f?
  }

  lemma CandidateOfSymbolPart3(f: GlFunction)
    requires InPart3(f)
    ensures Candidate(Symbol(f)) == f
  {
    match f
    case GetString =>
    case Uniform1f =>
    case Uniform2f =>
    case Uniform3f =>
    case _ => assert false;
  }

  predicate InPart4(f: GlFunction) {
    f.Uniform1i?
  }

  lemma CandidateOfSymbolPart4(f: GlFunction)
    requires InPart4(f)
    ensures Candidate(Symbol(f)) == f
  {
    match f
    case Uniform1i =>
    case _ => assert false;
  }

  predicate InPart5(f: GlFunction) {
    f.BindBuffer? || f.BufferData? || f.ClearColor?
  }

  lemma CandidateOfSymbolPart5(f: GlFunction)
    requires InPart5(f)
    ensures Candidate(Symbol(f)) == f
  {
    match f
    case BindBuffer =>
    case BufferData =>
    case ClearColor =>
    case _ => assert false;
  }

  predicate InPart6(f: GlFunction) {
    f.DrawArrays? || f.GenBuffers? || f.ReadPixels?
  }

  lemma CandidateOfSymbolPart6(f: GlFunction)
    requires InPart6(f)
    ensures Candidate(Symbol(f)) == f
  {
    match f
    case DrawArrays =>
    case GenBuffers =>
    case ReadPixels =>
    case _ => assert false;
  }

  predicate InPart7(f: GlFunction) {
    f.TexImage2D? || f.UseProgram?
  }

  lemma CandidateOfSymbolPart7(f: GlFunction)
    requires InPart7(f)
    ensures Candidate(Symbol(f)) == f
  {
    match f
    case TexImage2D =>
    case UseProgram =>
    case _ => assert false;
  }

  predicate InPart8(f: GlFunction) {
    f.BindTexture? || f.GenTextures? || f.GetIntegerv?
  }

  lemma CandidateOfSymbolPart8(f: GlFunction)
    requires InPart8(f)
    ensures Candidate(Symbol(f)) == f
  {
    match f
    case BindTexture =>
    case GenTextures =>
    case GetIntegerv =>
    case _ => assert false;
  }

  predicate InPart9(f: GlFunction) {
    f.GetShaderiv? || f.LinkProgram? || f.PixelStorei?
  }

  lemma CandidateOfSymbolPart9(f: GlFunction)
    requires InPart9(f)
    ensures Candidate(Symbol(f)) == f
  {
    match f
    case GetShaderiv =>
    case LinkProgram =>
    case PixelStorei =>
    case _ => assert false;
  }

  predicate InPart10(f: GlFunction) {
    f.AttachShader? || f.CreateShader? || f.DeleteShader?
  }

  lemma CandidateOfSymbolPart10(f: GlFunction)
    requires InPart10(f)
    ensures Candidate(Symbol(f)) == f
  {
    match f
    case AttachShader =>
    case CreateShader =>
    case DeleteShader =>
    case _ => assert false;
  }

  predicate InPart11(f: GlFunction) {
    f.GetProgramiv? || f.ShaderSource?
  }

  lemma CandidateOfSymbolPart11(f: GlFunction)
    requires InPart11(f)
    ensures Candidate(Symbol(f)) == f
  {
    match f
    case GetProgramiv =>
    case ShaderSource =>
    case _ => assert false;
  }

  predicate InPart12(f: GlFunction) {
    f.ActiveTexture? || f.BufferSubData? || f.CompileShader?
  }

  lemma CandidateOfSymbolPart12(f: GlFunction)
    requires InPart12(f)
    ensures Candidate(Symbol(f)) == f
  {
    match f
    case ActiveTexture =>
    case BufferSubData =>
    case CompileShader =>
    case _ => assert false;
  }

  predicate InPart13(f: GlFunction) {
    f.CreateProgram? || f.DeleteBuffers? || f.DeleteProgram?
  }

  lemma CandidateOfSymbolPart13(f: GlFunction)
    requires InPart13(f)
    ensures Candidate(Symbol(f)) == f
  {
    match f
    case CreateProgram =>
    case DeleteBuffers =>
    case DeleteProgram =>
    case _ => assert false;
  }

  predicate InPart14(f: GlFunction) {
    f.TexParameteri? || f.TexSubImage2D?
  }

  lemma CandidateOfSymbolPart14(f: GlFunction)
    requires InPart14(f)
    ensures Candidate(Symbol(f)) == f
  {
    match f
    case TexParameteri =>
    case TexSubImage2D =>
    case _ => assert false;
  }

  predicate InPart15(f: GlFunction) {
    f.DeleteTextures? || f.GetShaderInfoLog?
  }

  lemma CandidateOfSymbolPart15(f: GlFunction)
    requires InPart15(f)
    ensures Candidate(Symbol(f)) == f
  {
    match f
    case DeleteTextures =>
    case GetShaderInfoLog =>
    case _ => assert false;
  }

  predicate InPart16(f: GlFunction) {
    f.UniformMatrix2fv? || f.UniformMatrix3fv?
  }

  lemma CandidateOfSymbolPart16(f: GlFunction)
    requires InPart16(f)
    ensures Candidate(Symbol(f)) == f
  {
    match f
    case UniformMatrix2fv =>
    case UniformMatrix3fv =>
    case _ => assert false;
  }

  predicate InPart17(f: GlFunction) {
    f.BindFramebuffer? || f.GenFramebuffers?
  }

  lemma CandidateOfSymbolPart17(f: GlFunction)
    requires InPart17(f)
    ensures Candidate(Symbol(f)) == f
  {
    match f
    case BindFramebuffer =>
    case GenFramebuffers =>
    case _ => assert false;
  }

  predicate InPart18(f: GlFunction) {
    f.BindAttribLocation? || f.BlendFuncSeparate?
  }

  lemma CandidateOfSymbolPart18(f: GlFunction)
    requires InPart18(f)
    ensures Candidate(Symbol(f)) == f
  {
    match f
    case BindAttribLocation =>
    case BlendFuncSeparate =>
    case _ => assert false;
  }

  predicate InPart19(f: GlFunction) {
    f.GetAttribLocation? || f.GetProgramInfoLog?
  }

  lemma CandidateOfSymbolPart19(f: GlFunction)
    requires InPart19(f)
    ensures Candidate(Symbol(f)) == f
  {
    match f
    case GetAttribLocation =>
    case GetProgramInfoLog =>
    case _ => assert false;
  }

  predicate InPart20(f: GlFunction) {
    f.GetUniformLocation? || f.DeleteFramebuffers?
  }

  lemma CandidateOfSymbolPart20(f: GlFunction)
    requires InPart20(f)
    ensures Candidate(Symbol(f)) == f
  {
    match f
    case GetUniformLocation =>
    case DeleteFramebuffers =>
    case _ => assert false;
  }

  predicate InPart21(f: GlFunction) {
    f.VertexAttribPointer? || f.CheckFramebufferStatus?
  }

  lemma CandidateOfSymbolPart21(f: GlFunction)
    requires InPart21(f)
    ensures Candidate(Symbol(f)) == f
  {
    match f
    case VertexAttribPointer =>
    case CheckFramebufferStatus =>
    case _ => assert false;
  }

  predicate InPart22(f: GlFunction) {
    f.FramebufferTexture2D?
  }

  lemma CandidateOfSymbolPart22(f: GlFunction)
    requires InPart22(f)
    ensures Candidate(Symbol(f)) == f
  {
    match f
    case FramebufferTexture2D =>
    case _ => assert false;
  }

  predicate InPart23(f: GlFunction) {
    f.DisableVertexAttribArray?
  }

  lemma CandidateOfSymbolPart23(f: GlFunction)
    requires InPart23(f)
    ensures Candidate(Symbol(f)) == f
  {
    match f
    case DisableVertexAttribArray =>
    case _ => assert false;
  }

  predicate InPart24(f: GlFunction) {
    f.EnableVertexAttribArray?
  }

  lemma CandidateOfSymbolPart24(f: GlFunction)
    requires InPart24(f)
    ensures Candidate(Symbol(f)) == f
  {
    match f
    case EnableVertexAttribArray =>
    case _ => assert false;
  }

  predicate InPart25(f: GlFunction) {
    f.GetFramebufferAttachmentParameteriv?
  }

  lemma CandidateOfSymbolPart25(f: GlFunction)
    requires InPart25(f)
    ensures Candidate(Symbol(f)) == f
  {
    match f
    case GetFramebufferAttachmentParameteriv =>
    case _ => assert false;
  }

  /** Searching for an entry's own key leads back to that entry. */
  lemma CandidateOfSymbol(f: GlFunction)
    ensures Candidate(Symbol(f)) == f
  {
    if InPart1(f) {
      CandidateOfSymbolPart1(f);
    } else if InPart2(f) {
      CandidateOfSymbolPart2(f);
    } else if InPart3(f) {
      CandidateOfSymbolPart3(f);
    } else if InPart4(f) {
      CandidateOfSymbolPart4(f);
    } else if InPart5(f) {
      CandidateOfSymbolPart5(f);
    } else if InPart6(f) {
      CandidateOfSymbolPart6(f);
    } else if InPart7(f) {
      CandidateOfSymbolPart7(f);
    } else if InPart8(f) {
      CandidateOfSymbolPart8(f);
    } else if InPart9(f) {
      CandidateOfSymbolPart9(f);
    } else if InPart10(f) {
      CandidateOfSymbolPart10(f);
    } else if InPart11(f) {
      CandidateOfSymbolPart11(f);
    } else if InPart12(f) {
      CandidateOfSymbolPart12(f);
    } else if InPart13(f) {
      CandidateOfSymbolPart13(f);
    } else if InPart14(f) {
      CandidateOfSymbolPart14(f);
    } else if InPart15(f) {
      CandidateOfSymbolPart15(f);
    } else if InPart16(f) {
      CandidateOfSymbolPart16(f);
    } else if InPart17(f) {
      CandidateOfSymbolPart17(f);
    } else if InPart18(f) {
      CandidateOfSymbolPart18(f);
    } else if InPart19(f) {
      CandidateOfSymbolPart19(f);
    } else if InPart20(f) {
      CandidateOfSymbolPart20(f);
    } else if InPart21(f) {
      CandidateOfSymbolPart21(f);
    } else if InPart22(f) {
      CandidateOfSymbolPart22(f);
    } else if InPart23(f) {
      CandidateOfSymbolPart23(f);
    } else if InPart24(f) {
      CandidateOfSymbolPart24(f);
    } else if InPart25(f) {
      CandidateOfSymbolPart25(f);
    }
  }

  /** No two entries share a key, so each wrapper can be found by its key. */
  lemma SymbolsDistinct(f: GlFunction, g: GlFunction)
    ensures Symbol(f) == Symbol(g) <==> f == g
  {
    if Symbol(f) == Symbol(g) {
      CandidateOfSymbol(f);
      CandidateOfSymbol(g);
    }
  }

  /**
   * get_proc_address: look `name` up in the table; the wrapper stored under
   * it, or null (after a message on the standard error) when there is none.
   */
  function GetProcAddress(name: string): (r: Option<GlFunction>)
    ensures r.Some? ==> Symbol(r.value) == name
  {
    var f := Candidate(name);
    if Symbol(f) == name then Some(f) else None
  }

  /** Every key in the table yields its own wrapper. */
  lemma GetProcAddressFinds(f: GlFunction)
    ensures GetProcAddress(Symbol(f)) == Some(f)
  {
    CandidateOfSymbol(f);
  }

  /** The lookup is null exactly for the names that are no key of the table. */
  lemma GetProcAddressMisses(name: string)
    ensures GetProcAddress(name) == None <==> forall f :: Symbol(f) != name
  {
    if GetProcAddress(name) == None {
      forall f | Symbol(f) == name
        ensures false
      {
        CandidateOfSymbol(f);
      }
    }
  }
}
