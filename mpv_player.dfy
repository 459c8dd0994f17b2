/** MpvPlayerImpl (module/mpv_player.cpp:30-943): the GL entry points mpv's renderer calls,
    each turned into calls of the WebGL rendering context, with the registries that map GL
    handles to WebGL objects, the handle counter, the glGetString cache and the cache of the
    context's methods. The context is the oracle `host` plus the recorded `trace`. */
module MpvPlayer {
  import opened Wrappers
  import opened Bytes
  import opened GlHost
  import opened GlSpec
  import opened GlCalls
  import opened GlPixels
  import opened MpvClient
  import Js = JsValues
  import Conv = JsConversions

  /** The part of MpvPlayerImpl's state the GL entry points read and write: the handle
      counter `_last_id`, the six registries and the string cache `gl_props`. */
  datatype Registries = Registries(lastId: int, programs: Registry, shaders: Registry, buffers: Registry,
                                   textures: Registry, framebuffers: Registry, uniforms: Registry,
                                   props: map<int, seq<byte>>)
  {
    /** The registry of a kind of object. */
    function Store(k: Kind): Registry {
      match k
      case Programs => programs
      case Shaders => shaders
      case Buffers => buffers
      case Textures => textures
      case Framebuffers => framebuffers
      case Uniforms => uniforms
    }

    /** The same state with the registry of kind `k` replaced by `s`. */
    function WithStore(k: Kind, s: Registry): (r: Registries)
      ensures r.Store(k) == s && r.lastId == lastId && r.props == props
      ensures forall k' :: k' != k ==> r.Store(k') == Store(k')
    {
      match k
      case Programs => this.(programs := s)
      case Shaders => this.(shaders := s)
      case Buffers => this.(buffers := s)
      case Textures => this.(textures := s)
      case Framebuffers => this.(framebuffers := s)
      case Uniforms => this.(uniforms := s)
    }

    /** Replacing the counter and the registry of kind `k` twice keeps only the second
        replacement. */
    lemma ReplaceTwice(k: Kind, a: int, x: Registry, b: int, y: Registry)
      ensures this.(lastId := a).WithStore(k, x).(lastId := b).WithStore(k, y) == this.(lastId := b).WithStore(k, y)
    {
    }

    /** Every handle in a registry was issued by the counter for that registry, as `owner`
        records, so handles are at least 1 and no two registries share one. */
    ghost predicate IssuedTo(owner: map<int, Kind>) {
      && lastId >= 0
      && (forall h :: h in owner ==> 1 <= h <= lastId)
      && (forall k, h :: h in Store(k) ==> h in owner && owner[h] == k)
    }
    /** The same registries under a counter no lower are issued by the same owner map. */
    lemma IssuedToSame(owner: map<int, Kind>, r: Registries)
      requires IssuedTo(owner) && r.lastId >= lastId
      requires r.programs == programs && r.shaders == shaders && r.buffers == buffers
      requires r.textures == textures && r.framebuffers == framebuffers && r.uniforms == uniforms
      ensures r.IssuedTo(owner)
    {
      forall k
        ensures r.Store(k) == Store(k)
      {
      }
    }

    /** Storing a value under the next handle: the handle is in no registry yet, and
        every handle stays issued once the owner map records it. */
    lemma StoreKeepsIssued(owner: map<int, Kind>, k: Kind, v: Js.Value)
      requires IssuedTo(owner)
      ensures forall k' :: lastId + 1 !in Store(k')
      ensures this.(lastId := lastId + 1).WithStore(k, Store(k)[lastId + 1 := v]).IssuedTo(owner[lastId + 1 := k])
    {
      var id := lastId + 1;
      var after := this.(lastId := id).WithStore(k, Store(k)[id := v]);
      forall k', h | h in Store(k')
        ensures h < id
      {
        assert h in owner;
      }
      forall k', h | h in after.Store(k')
        ensures h in owner[id := k] && owner[id := k][h] == k'
      {
        if k' == k {
          assert after.Store(k) == Store(k)[id := v];
          if h != id {
            assert h in Store(k);
          }
        } else {
          assert after.Store(k') == this.(lastId := id).Store(k') == Store(k');
        }
      }
    }
    /** Erasing a handle from a registry keeps every handle issued. */
    lemma EraseKeepsIssued(owner: map<int, Kind>, k: Kind, h: int)
      requires IssuedTo(owner)
      ensures WithStore(k, Store(k) - {h}).IssuedTo(owner)
    {
      var after := WithStore(k, Store(k) - {h});
      forall k', h' | h' in after.Store(k')
        ensures h' in owner && owner[h'] == k'
      {
        assert h' in Store(k');
      }
    }
  }

  /** The method cache holds exactly the names looked up, each looked up once, with what
      `resolve` finds. */
  ghost predicate CacheOk(methods: map<string, Js.Value>, lookups: seq<string>, resolve: string -> Js.Value) {
    && (forall n :: n in methods <==> n in lookups)
    && (forall n :: n in methods ==> methods[n] == resolve(n))
    && (forall i, j :: 0 <= i < j < |lookups| ==> lookups[i] != lookups[j])
  }

  /** One more copy of a call at the end. */
  lemma RepeatMore(t: seq<HostCall>, c: HostCall, j: nat)
    ensures t + Repeat(c, j) + [c] == t + Repeat(c, j + 1)
  {
    assert Repeat(c, j + 1) == Repeat(c, j) + [c];
  }

  /** Copy the first `n` bytes of `text` into `buf` and terminate them with a 0, leaving
      the rest of `buf` as it was. */
  method CopyFitted(buf: array<byte>, text: seq<byte>, n: nat)
    requires n <= |text| && n < buf.Length
    modifies buf
    ensures buf[..n] == text[..n] && buf[n] == 0 && buf[n + 1..] == old(buf[n + 1..])
  {
    forall i | 0 <= i < n {
      buf[i] := text[i];
    }
    buf[n] := 0;
  }

  /** `n` copies of one call. */
  function Repeat(c: HostCall, n: nat): (cs: seq<HostCall>)
    ensures |cs| == n && forall i :: 0 <= i < n ==> cs[i] == c
  {
    seq(n, _ => c)
  }

  /** After `j` rounds of the loop of glGen* for kind `k` against `host`, begun with the
      registries `s0`, the trace `t0` and the array contents `ids0`, the registries are `s`,
      the trace `t` and the array `ids`: the handles written, the registries, the counter and
      the trace are what `Generate` gives for `j` rounds, and the array from `n` on is
      untouched. */
  ghost predicate Generated(k: Kind, host: Host, j: nat, n: nat, s0: Registries, t0: seq<HostCall>, ids0: seq<int>,
                            s: Registries, t: seq<HostCall>, ids: seq<int>)
    requires k == Buffers || k == Textures || k == Framebuffers
  {
    var call := HostCall(Creator(k), []);
    var g := Generate(host, call, |t0|, j, s0.Store(k), s0.lastId);
    && j <= n <= |ids| == |ids0|
    && ids[..j] == g.ids && ids[n..] == ids0[n..]
    && s == s0.(lastId := g.last).WithStore(k, g.store)
    && t == t0 + Repeat(call, j)
  }

  /** One more round of the loop of glGen* (one call of the creator, one handle `id`
      written at `j`, the generation advanced to `next`) keeps `Generated`. */
  lemma GeneratedStep(k: Kind, host: Host, j: nat, n: nat, s0: Registries, t0: seq<HostCall>, ids0: seq<int>,
                      s: Registries, t: seq<HostCall>, ids: seq<int>, id: int, next: Generation)
    requires k == Buffers || k == Textures || k == Framebuffers
    requires j < n && Generated(k, host, j, n, s0, t0, ids0, s, t, ids)
    requires
      var call := HostCall(Creator(k), []);
      var g := Generate(host, call, |t0|, j, s0.Store(k), s0.lastId);
      next == g.Next(host(|t|, call)) && next.ids == g.ids + [id]
    ensures
      var call := HostCall(Creator(k), []);
      Generated(k, host, j + 1, n, s0, t0, ids0, s.(lastId := next.last).WithStore(k, next.store), t + [call], ids[j := id])
  {
    var call := HostCall(Creator(k), []);
    var g := Generate(host, call, |t0|, j, s0.Store(k), s0.lastId);
    GenerateNext(host, call, |t0|, j, s0.Store(k), s0.lastId);
    RepeatMore(t0, call, j);
    s0.ReplaceTwice(k, g.last, g.store, next.last, next.store);
    assert ids[j := id][..j + 1] == ids[..j] + [id];
    assert ids[j := id][n..] == ids[n..];
  }

  class MpvPlayerImpl {
    /** The rendering context's replies. */
    const host: Host
    /** The function object get_method finds under each name of the rendering context. */
    const resolve: string -> Js.Value
    /** Whether the player holds a rendering context (`_renderingContext` is not null). */
    const hasContext: bool
    /** Every call made on the rendering context, in order. */
    var trace: seq<HostCall>
    /** `_webgl_methods`: the context's methods fetched so far, by name. */
    var methods: map<string, Js.Value>
    /** The names get_method was asked for, in order. */
    var lookups: seq<string>
    /** `_last_id`, the counter every registry takes its handles from. */
    var lastId: int
    var programs: Registry
    var shaders: Registry
    var buffers: Registry
    var textures: Registry
    var framebuffers: Registry
    var uniforms: Registry
    /** `gl_props`, the glGetString cache. */
    var props: map<int, seq<byte>>
    /** `_mpv`, set by MpvPlayer::Create. */
    var mpv: MpvHandle?
    /** The registry each handle ever issued was issued for. */
    ghost var owner: map<int, Kind>

    function State(): Registries
      reads this`lastId, this`programs, this`shaders, this`buffers, this`textures, this`framebuffers,
            this`uniforms, this`props
    {
      Registries(lastId, programs, shaders, buffers, textures, framebuffers, uniforms, props)
    }

    function Store(k: Kind): (s: Registry)
      reads this`programs, this`shaders, this`buffers, this`textures, this`framebuffers, this`uniforms
      ensures s == State().Store(k)
    {
      match k
      case Programs => programs
      case Shaders => shaders
      case Buffers => buffers
      case Textures => textures
      case Framebuffers => framebuffers
      case Uniforms => uniforms
    }

    /** The registries hold only handles the counter issued, as `owner` records. */
    ghost predicate Issued()
      reads this`lastId, this`owner, this`programs, this`shaders, this`buffers, this`textures,
            this`framebuffers, this`uniforms, this`props
    {
      State().IssuedTo(owner)
    }

    /** The registries, the string cache and the method cache are well formed. */
    ghost predicate Valid()
      reads this`lastId, this`owner, this`programs, this`shaders, this`buffers, this`textures,
            this`framebuffers, this`uniforms, this`props, this`methods, this`lookups
    {
      Issued() && PropsOk(props) && CacheOk(methods, lookups, resolve)
    }

    /** Valid, with a rendering context to call. */
    ghost predicate Ready()
      reads this`lastId, this`owner, this`programs, this`shaders, this`buffers, this`textures,
            this`framebuffers, this`uniforms, this`props, this`methods, this`lookups
    {
      Valid() && hasContext
    }

    /** The calls made between the pre-state and now are `calls`, and nothing else of the
        registries, the counter or the string cache changed. */
    twostate predicate Made(calls: seq<HostCall>)
      reads this`trace, this`lastId, this`programs, this`shaders, this`buffers, this`textures,
            this`framebuffers, this`uniforms, this`props
    {
      trace == old(trace) + calls && State() == old(State())
    }

    constructor (host: Host, resolve: string -> Js.Value, hasContext: bool)
      ensures Valid() && this.host == host && this.resolve == resolve && this.hasContext == hasContext
      ensures State() == Registries(0, map[], map[], map[], map[], map[], map[], map[])
      ensures trace == [] && methods == map[] && lookups == [] && mpv == null
    {
      this.host := host;
      this.resolve := resolve;
      this.hasContext := hasContext;
      trace := [];
      methods := map[];
      lookups := [];
      lastId := 0;
      programs, shaders, buffers, textures, framebuffers, uniforms := map[], map[], map[], map[], map[], map[];
      props := map[];
      mpv := null;
      owner := map[];
    }

    /** Every registry holds only handles the counter issued. */
    lemma StoresIssued(k: Kind)
      requires Issued()
      ensures IssuedBy(Store(k), lastId)
    {
      forall h | h in Store(k)
        ensures 1 <= h <= lastId
      {
        assert h in owner;
      }
    }

    /** No handle is in two registries, and neither 0 (the GL name for "no object") nor -1
        (the "no location" answer) is ever a key, so binding 0 finds nothing. */
    lemma HandlesUnique(k: Kind, k': Kind, h: int)
      requires Issued() && h in Store(k) && h in Store(k')
      ensures k == k' && h >= 1
    {
      assert owner[h] == k;
    }

    /** method: the context's method `name`, fetched with get_method the first time and
        taken from the cache afterwards; none without a rendering context. */
    method WebGlMethod(name: string) returns (f: Option<Js.Value>)
      requires Valid()
      modifies this`methods, this`lookups
      ensures Valid()
      ensures !hasContext ==> f.None? && methods == old(methods) && lookups == old(lookups)
      ensures hasContext ==> f == Some(resolve(name)) && methods == old(methods)[name := resolve(name)]
      ensures hasContext && name in old(methods) ==> lookups == old(lookups)
      ensures hasContext && name !in old(methods) ==> lookups == old(lookups) + [name]
    {
      if !hasContext {
        return None;
      }
      if name in methods {
        return Some(methods[name]);
      }
      var m := resolve(name);
      assert forall i :: 0 <= i < |lookups| ==> lookups[i] != name;
      methods := methods[name := m];
      lookups := lookups + [name];
      f := Some(m);
    }

    /** callMethod: call the context's method `name` with `args`; the reply is the host's
        answer to the call in its place in the trace. */
    method CallMethod(name: string, args: seq<Arg>) returns (r: Js.Value)
      requires Ready()
      modifies this`methods, this`lookups, this`trace
      ensures Ready() && Made([HostCall(name, args)])
      ensures r == host(|old(trace)|, HostCall(name, args))
      ensures name in methods
    {
      var _ := WebGlMethod(name);
      r := host(|trace|, HostCall(name, args));
      trace := trace + [HostCall(name, args)];
    }

    /** newId: the next value of the shared counter, which no registry holds. */
    method NewId() returns (id: int)
      requires Issued()
      modifies this`lastId
      ensures Issued() && id == lastId == old(lastId) + 1
      ensures forall k :: id !in Store(k)
    {
      forall k
        ensures IssuedBy(Store(k), lastId)
      {
        StoresIssued(k);
      }
      ghost var before := State();
      lastId := lastId + 1;
      id := lastId;
      before.IssuedToSame(owner, State());
    }

    /** Replace the registry of kind `k`. */
    method SetStore(k: Kind, s: Registry)
      modifies this`programs, this`shaders, this`buffers, this`textures, this`framebuffers, this`uniforms
      ensures State() == old(State()).WithStore(k, s)
    {
      match k
      case Programs => programs := s;
      case Shaders => shaders := s;
      case Buffers => buffers := s;
      case Textures => textures := s;
      case Framebuffers => framebuffers := s;
      case Uniforms => uniforms := s;
    }

    /** storeObject: store `value` in the registry of kind `k` under a fresh handle from the
        shared counter, and return the handle. */
    method StoreObject(k: Kind, value: Js.Value) returns (id: int)
      requires Issued()
      modifies this`lastId, this`owner, this`programs, this`shaders, this`buffers, this`textures,
               this`framebuffers, this`uniforms
      ensures Issued()
      ensures id == old(lastId) + 1 && forall k' :: id !in old(State()).Store(k')
      ensures State() == old(State()).(lastId := id).WithStore(k, old(Store(k))[id := value])
    {
      ghost var before := State();
      before.StoreKeepsIssued(owner, k, value);
      id := NewId();
      SetStore(k, Store(k)[id := value]);
      owner := owner[id := k];
      assert State() == before.(lastId := before.lastId + 1).WithStore(k, before.Store(k)[before.lastId + 1 := value]);
    }

    /** The call a handle-taking entry point makes: `name` with the object stored under `h`
        in the registry of kind `k`, between `before` and `after`; no call for a handle the
        registry does not hold. */
    function CallOn(k: Kind, h: int, name: string, before: seq<Arg>, after: seq<Arg>): (cs: seq<HostCall>)
      reads this`programs, this`shaders, this`buffers, this`textures, this`framebuffers, this`uniforms
      ensures h !in Store(k) <==> cs == []
      ensures h in Store(k) ==> cs == [HostCall(name, before + [Object(Store(k)[h])] + after)]
    {
      if h in Store(k) then [HostCall(name, before + [Object(Store(k)[h])] + after)] else []
    }

    /*************************************************************************************
     * Programs and shaders
     *************************************************************************************/

    /** glCreateProgram: store whatever createProgram answers, even an empty reply, under a
        fresh handle. */
    method CreateProgram() returns (id: int)
      requires Ready()
      modifies this
      ensures Ready() && trace == old(trace) + [HostCall("createProgram", [])]
      ensures id == old(lastId) + 1 && forall k :: id !in old(State()).Store(k)
      ensures State() == old(State()).WithStore(Programs, old(programs)[id := host(|old(trace)|, HostCall("createProgram", []))]).(lastId := id)
    {
      var r := CallMethod("createProgram", []);
      id := StoreObject(Programs, r);
    }

    /** glCreateShader: store createShader's answer under a fresh handle; the type is passed
        as a Number, unwrapped. */
    method CreateShader(shaderType: GLenum) returns (id: int)
      requires Ready()
      modifies this
      ensures Ready() && trace == old(trace) + [HostCall("createShader", [Int(shaderType)])]
      ensures id == old(lastId) + 1 && forall k :: id !in old(State()).Store(k)
      ensures State() == old(State()).WithStore(Shaders, old(shaders)[id := host(|old(trace)|, HostCall("createShader", [Int(shaderType)]))]).(lastId := id)
    {
      var r := CallMethod("createShader", [Int(shaderType)]);
      id := StoreObject(Shaders, r);
    }

    /** glDeleteProgram: deleteProgram on a known program, which stays in the registry. */
    method DeleteProgram(program: GLuint)
      requires Ready()
      modifies this
      ensures Ready() && Made(CallOn(Programs, program, "deleteProgram", [], []))
    {
      if program in programs {
        var _ := CallMethod("deleteProgram", [] + [Object(programs[program])] + []);
      }
    }

    /** glDeleteShader: deleteShader on a known shader, which stays in the registry. */
    method DeleteShader(shader: GLuint)
      requires Ready()
      modifies this
      ensures Ready() && Made(CallOn(Shaders, shader, "deleteShader", [], []))
    {
      if shader in shaders {
        var _ := CallMethod("deleteShader", [] + [Object(shaders[shader])] + []);
      }
    }

    /** glUseProgram: useProgram on a known program; an unknown handle, 0 included, makes
        no call. */
    method UseProgram(program: GLuint)
      requires Ready()
      modifies this
      ensures Ready() && Made(CallOn(Programs, program, "useProgram", [], []))
    {
      if program in programs {
        var _ := CallMethod("useProgram", [] + [Object(programs[program])] + []);
      }
    }

    /** glLinkProgram: linkProgram on a known program. */
    method LinkProgram(program: GLuint)
      requires Ready()
      modifies this
      ensures Ready() && Made(CallOn(Programs, program, "linkProgram", [], []))
    {
      if program in programs {
        var _ := CallMethod("linkProgram", [] + [Object(programs[program])] + []);
      }
    }

    /** glCompileShader: compileShader on a known shader. */
    method CompileShader(shader: GLuint)
      requires Ready()
      modifies this
      ensures Ready() && Made(CallOn(Shaders, shader, "compileShader", [], []))
    {
      if shader in shaders {
        var _ := CallMethod("compileShader", [] + [Object(shaders[shader])] + []);
      }
    }

    /** glAttachShader: attachShader when both the program and the shader are known. */
    method AttachShader(program: GLuint, shader: GLuint)
      requires Ready()
      modifies this
      ensures Ready()
      ensures Made(if program in programs && shader in shaders
                   then [HostCall("attachShader", [Object(programs[program]), Object(shaders[shader])])]
                   else [])
    {
      if program !in programs {
        return;
      }
      if shader !in shaders {
        return;
      }
      var _ := CallMethod("attachShader", [Object(programs[program]), Object(shaders[shader])]);
    }

    /** glShaderSource: a known shader with exactly one source string gets shaderSource
        with that text; a negative count, a count of 0 and several strings make no call. */
    method ShaderSource(shader: GLuint, count: GLsizei, source: seq<byte>, length: Option<GLint>)
      requires Ready()
      requires count == 1 ==> SourceReadable(source, length)
      modifies this
      ensures Ready()
      ensures Made(if shader in shaders && count == 1
                   then [HostCall("shaderSource", [Object(shaders[shader]), Str(SourceText(source, length))])]
                   else [])
    {
      if shader !in shaders || count < 0 {
        return;
      }
      if count == 0 {
        return;
      }
      if count > 1 {
        return;
      }
      var text := SourceText(source, length);
      var _ := CallMethod("shaderSource", [Object(shaders[shader]), Str(text)]);
    }

    /** glBindAttribLocation: bindAttribLocation on a known program with the index and the
        attribute's name. */
    method BindAttribLocation(program: GLuint, index: GLuint, name: seq<byte>)
      requires Ready() && IsCString(name)
      modifies this
      ensures Ready() && Made(CallOn(Programs, program, "bindAttribLocation", [], [Signed(index), Str(CString(name))]))
    {
      if program in programs {
        var _ := CallMethod("bindAttribLocation", [] + [Object(programs[program])] + [Signed(index), Str(CString(name))]);
      }
    }

    /** getObjectiv (glGetProgramiv, glGetShaderiv): ask `webglMethod` about a known object
        and write the reply when it is a number or a boxed number. `written` is what lands in
        `*params`; none when nothing is written, and always none for a null `params`. */
    method GetObjectiv(webglMethod: string, k: Kind, handle: GLuint, pname: GLenum, hasParams: bool)
      returns (written: Option<GLint>)
      requires Ready()
      modifies this
      ensures Ready()
      ensures !hasParams ==> Made([]) && written.None?
      ensures hasParams ==> Made(CallOn(k, handle, webglMethod, [], [Signed(pname)]))
      ensures hasParams && handle in Store(k) ==>
        written == NumberReply(host(|old(trace)|, CallOn(k, handle, webglMethod, [], [Signed(pname)])[0]))
      ensures handle !in Store(k) ==> written.None?
    {
      if !hasParams {
        return None;
      }
      if handle !in Store(k) {
        return None;
      }
      var result := CallMethod(webglMethod, [] + [Object(Store(k)[handle])] + [Signed(pname)]);
      written := NumberReply(result);
    }

    /** getObjectInfoLog (glGetProgramInfoLog, glGetShaderInfoLog), corrected: the log of a
        known object is copied into `infoLog` as far as it fits in `maxLength - 1` bytes
        without splitting a character, followed by a terminator, and the length reported is
        the number of bytes copied. Nothing happens for a null buffer, a zero or negative
        `maxLength` or an unknown object. `reported` is what lands in `*length` (none for a
        null `length`). */
    method GetObjectInfoLog(webglMethod: string, k: Kind, handle: GLuint, maxLength: GLsizei,
                            infoLog: array?<byte>, hasLength: bool)
      returns (reported: Option<GLsizei>)
      requires Ready()
      requires infoLog != null && maxLength > 0 ==> maxLength <= infoLog.Length
      modifies this`methods, this`lookups, this`trace, infoLog
      ensures Ready()
      ensures infoLog == null || maxLength <= 0 || handle !in Store(k) ==>
        Made([]) && reported.None? && (infoLog != null ==> infoLog[..] == old(infoLog[..]))
      ensures infoLog != null && maxLength > 0 && handle in Store(k) ==>
        var call := HostCall(webglMethod, [Object(Store(k)[handle])]);
        var text := Conv.Text(host(|old(trace)|, call));
        var n := FitLength(text, maxLength - 1);
        && Made([call])
        && infoLog[..n] == text[..n] && infoLog[n] == 0 && infoLog[n + 1..] == old(infoLog[n + 1..])
        && reported == (if hasLength then Some(n) else None)
    {
      if infoLog == null || maxLength == 0 {
        return None;
      }
      if maxLength < 0 {
        return None;
      }
      if handle !in Store(k) {
        return None;
      }
      var result := CallMethod(webglMethod, [Object(Store(k)[handle])]);
      var text := Conv.Text(result);
      var written := FitLength(text, maxLength - 1);
      CopyFitted(infoLog, text, written);
      reported := if hasLength then Some(written) else None;
    }

    /*************************************************************************************
     * Buffers, textures and framebuffers
     *************************************************************************************/

    /** glGenBuffers: nothing for a null array or a count that is not positive; otherwise
        `n` calls of createBuffer, each answer stored under a fresh handle that is written to
        `ids`, or 0 written for an empty answer, as `Generate` describes. */
    method GenBuffers(n: GLsizei, ids: array?<int>)
      requires Ready()
      requires ids != null && n > 0 ==> n <= ids.Length
      modifies this`methods, this`lookups, this`trace, this`lastId, this`owner, this`programs,
               this`shaders, this`buffers, this`textures, this`framebuffers, this`uniforms, ids
      ensures Ready()
      ensures ids == null || n <= 0 ==> Made([]) && (ids != null ==> ids[..] == old(ids[..]))
      ensures ids != null && n > 0 ==>
        var call := HostCall(Creator(Buffers), []);
        var g := Generate(host, call, |old(trace)|, n, old(buffers), old(lastId));
        && ids[..n] == g.ids && ids[n..] == old(ids[n..])
        && State() == old(State()).(buffers := g.store, lastId := g.last)
        && trace == old(trace) + Repeat(call, n)
    {
      if ids == null || n == 0 {
        return;
      }
      if n < 0 {
        return;
      }
      ghost var s0, t0, ids0 := State(), trace, ids[..];
      var j := 0;
      while j < n
        invariant 0 <= j <= n && Ready() && Generated(Buffers, host, j, n, s0, t0, ids0, State(), trace, ids[..])
      {
        GenerateRound(Buffers, ids, j, n, s0, t0, ids0);
        j := j + 1;
      }
    }

    /** glGenTextures: nothing for a null array or a count that is not positive; otherwise
        `n` calls of createTexture, each answer stored under a fresh handle that is written to
        `ids`, or 0 written for an empty answer, as `Generate` describes. */
    method GenTextures(n: GLsizei, ids: array?<int>)
      requires Ready()
      requires ids != null && n > 0 ==> n <= ids.Length
      modifies this`methods, this`lookups, this`trace, this`lastId, this`owner, this`programs,
               this`shaders, this`buffers, this`textures, this`framebuffers, this`uniforms, ids
      ensures Ready()
      ensures ids == null || n <= 0 ==> Made([]) && (ids != null ==> ids[..] == old(ids[..]))
      ensures ids != null && n > 0 ==>
        var call := HostCall(Creator(Textures), []);
        var g := Generate(host, call, |old(trace)|, n, old(textures), old(lastId));
        && ids[..n] == g.ids && ids[n..] == old(ids[n..])
        && State() == old(State()).(textures := g.store, lastId := g.last)
        && trace == old(trace) + Repeat(call, n)
    {
      if ids == null || n == 0 {
        return;
      }
      if n < 0 {
        return;
      }
      ghost var s0, t0, ids0 := State(), trace, ids[..];
      var j := 0;
      while j < n
        invariant 0 <= j <= n && Ready() && Generated(Textures, host, j, n, s0, t0, ids0, State(), trace, ids[..])
      {
        GenerateRound(Textures, ids, j, n, s0, t0, ids0);
        j := j + 1;
      }
    }

    /** glGenFramebuffers: nothing for a null array or a count that is not positive; otherwise
        `n` calls of createFramebuffer, each answer stored under a fresh handle that is written to
        `ids`, or 0 written for an empty answer, as `Generate` describes. */
    method GenFramebuffers(n: GLsizei, ids: array?<int>)
      requires Ready()
      requires ids != null && n > 0 ==> n <= ids.Length
      modifies this`methods, this`lookups, this`trace, this`lastId, this`owner, this`programs,
               this`shaders, this`buffers, this`textures, this`framebuffers, this`uniforms, ids
      ensures Ready()
      ensures ids == null || n <= 0 ==> Made([]) && (ids != null ==> ids[..] == old(ids[..]))
      ensures ids != null && n > 0 ==>
        var call := HostCall(Creator(Framebuffers), []);
        var g := Generate(host, call, |old(trace)|, n, old(framebuffers), old(lastId));
        && ids[..n] == g.ids && ids[n..] == old(ids[n..])
        && State() == old(State()).(framebuffers := g.store, lastId := g.last)
        && trace == old(trace) + Repeat(call, n)
    {
      if ids == null || n == 0 {
        return;
      }
      if n < 0 {
        return;
      }
      ghost var s0, t0, ids0 := State(), trace, ids[..];
      var j := 0;
      while j < n
        invariant 0 <= j <= n && Ready() && Generated(Framebuffers, host, j, n, s0, t0, ids0, State(), trace, ids[..])
      {
        GenerateRound(Framebuffers, ids, j, n, s0, t0, ids0);
        j := j + 1;
      }
    }

    /** One round of the loop of glGen*: call the kind's creator, store a non-empty answer
        under a fresh handle and write that handle to `ids[j]`, or write 0 for an empty
        answer. */
    method GenerateRound(k: Kind, ids: array<int>, j: nat, n: nat, ghost s0: Registries, ghost t0: seq<HostCall>,
                         ghost ids0: seq<int>)
      requires k == Buffers || k == Textures || k == Framebuffers
      requires Ready() && j < n && Generated(k, host, j, n, s0, t0, ids0, State(), trace, ids[..])
      modifies this`methods, this`lookups, this`trace, this`lastId, this`owner, this`programs,
               this`shaders, this`buffers, this`textures, this`framebuffers, this`uniforms, ids
      ensures Ready() && Generated(k, host, j + 1, n, s0, t0, ids0, State(), trace, ids[..])
    {
      ghost var g := Generate(host, HostCall(Creator(k), []), |t0|, j, s0.Store(k), s0.lastId);
      ghost var s, t, before := State(), trace, ids[..];
      var id;
      ghost var next;
      id, next := CreateOrZero(k, g);
      ids[j] := id;
      GeneratedStep(k, host, j, n, s0, t0, ids0, s, t, before, id, next);
    }

    /** The call and the store of one round of glGen*: `id` is the handle the answer was
        stored under, or 0 for an empty answer. */
    method CreateOrZero(k: Kind, ghost g: Generation) returns (id: int, ghost next: Generation)
      requires Ready() && (k == Buffers || k == Textures || k == Framebuffers)
      requires g.store == Store(k) && g.last == lastId
      modifies this`methods, this`lookups, this`trace, this`lastId, this`owner, this`programs,
               this`shaders, this`buffers, this`textures, this`framebuffers, this`uniforms
      ensures Ready() && trace == old(trace) + [HostCall(Creator(k), [])]
      ensures next == g.Next(host(|old(trace)|, HostCall(Creator(k), [])))
      ensures next.ids == g.ids + [id]
      ensures State() == old(State()).(lastId := next.last).WithStore(k, next.store)
    {
      var r := CallMethod(Creator(k), []);
      id, next := StoreIfAny(k, r, g);
    }

    /** The store of one round of glGen*: a non-empty reply `r` is stored under a fresh
        handle `id`; an empty one leaves everything as it is and gives 0. */
    method StoreIfAny(k: Kind, r: Js.Value, ghost g: Generation) returns (id: int, ghost next: Generation)
      requires Ready() && g.store == Store(k) && g.last == lastId
      modifies this`lastId, this`owner, this`programs, this`shaders, this`buffers, this`textures,
               this`framebuffers, this`uniforms
      ensures Ready() && next == g.Next(r) && next.ids == g.ids + [id]
      ensures State() == old(State()).(lastId := next.last).WithStore(k, next.store)
    {
      id := 0;
      if !r.Empty? {
        id := StoreObject(k, r);
      }
      next := g.Next(r);
    }

    /** glGetError: the reply of getError as a GLenum. */
    method GetError() returns (code: Option<GLenum>)
      requires Ready()
      modifies this`methods, this`lookups, this`trace
      ensures Ready() && Made([GetErrorCall])
      ensures code == ErrorCode(host(|old(trace)|, GetErrorCall))
    {
      var r := CallMethod("getError", []);
      code := ErrorCode(r);
    }

    /** glDeleteBuffers: nothing for a null array or a count that is not positive; otherwise each
        listed handle the registry holds is deleted with deleteBuffer and erased when getError
        then answers GL_NO_ERROR, as `DeleteEach` describes. */
    method DeleteBuffers(n: GLsizei, handles: array?<int>)
      requires Ready()
      requires handles != null && n > 0 ==> n <= handles.Length
      modifies this`methods, this`lookups, this`trace, this`programs, this`shaders, this`buffers,
               this`textures, this`framebuffers, this`uniforms
      ensures Ready()
      ensures handles == null || n <= 0 ==> Made([])
      ensures handles != null && n > 0 ==>
        var r := DeleteEach(host, Deleter(Buffers), handles[..n], old(buffers), old(trace));
        State() == old(State()).(buffers := r.0) && trace == r.1
    {
      if handles == null || n == 0 {
        return;
      }
      if n < 0 {
        return;
      }
      var j := 0;
      while j < n
        invariant 0 <= j <= n && Ready()
        invariant (buffers, trace) == DeleteEach(host, Deleter(Buffers), handles[..j], old(buffers), old(trace))
        invariant State() == old(State()).(buffers := buffers)
      {
        DeleteEachNext(host, Deleter(Buffers), handles[..], j, old(buffers), old(trace));
        DeleteRound(Buffers, handles[j]);
        j := j + 1;
      }
    }

    /** glDeleteTextures: nothing for a null array or a count that is not positive; otherwise each
        listed handle the registry holds is deleted with deleteTexture and erased when getError
        then answers GL_NO_ERROR, as `DeleteEach` describes. */
    method DeleteTextures(n: GLsizei, handles: array?<int>)
      requires Ready()
      requires handles != null && n > 0 ==> n <= handles.Length
      modifies this`methods, this`lookups, this`trace, this`programs, this`shaders, this`buffers,
               this`textures, this`framebuffers, this`uniforms
      ensures Ready()
      ensures handles == null || n <= 0 ==> Made([])
      ensures handles != null && n > 0 ==>
        var r := DeleteEach(host, Deleter(Textures), handles[..n], old(textures), old(trace));
        State() == old(State()).(textures := r.0) && trace == r.1
    {
      if handles == null || n == 0 {
        return;
      }
      if n < 0 {
        return;
      }
      var j := 0;
      while j < n
        invariant 0 <= j <= n && Ready()
        invariant (textures, trace) == DeleteEach(host, Deleter(Textures), handles[..j], old(textures), old(trace))
        invariant State() == old(State()).(textures := textures)
      {
        DeleteEachNext(host, Deleter(Textures), handles[..], j, old(textures), old(trace));
        DeleteRound(Textures, handles[j]);
        j := j + 1;
      }
    }

    /** glDeleteFramebuffers (with the corrected deleter): nothing for a null array or a count that is not positive; otherwise each
        listed handle the registry holds is deleted with deleteFramebuffer and erased when getError
        then answers GL_NO_ERROR, as `DeleteEach` describes. */
    method DeleteFramebuffers(n: GLsizei, handles: array?<int>)
      requires Ready()
      requires handles != null && n > 0 ==> n <= handles.Length
      modifies this`methods, this`lookups, this`trace, this`programs, this`shaders, this`buffers,
               this`textures, this`framebuffers, this`uniforms
      ensures Ready()
      ensures handles == null || n <= 0 ==> Made([])
      ensures handles != null && n > 0 ==>
        var r := DeleteEach(host, Deleter(Framebuffers), handles[..n], old(framebuffers), old(trace));
        State() == old(State()).(framebuffers := r.0) && trace == r.1
    {
      if handles == null || n == 0 {
        return;
      }
      if n < 0 {
        return;
      }
      var j := 0;
      while j < n
        invariant 0 <= j <= n && Ready()
        invariant (framebuffers, trace) == DeleteEach(host, Deleter(Framebuffers), handles[..j], old(framebuffers), old(trace))
        invariant State() == old(State()).(framebuffers := framebuffers)
      {
        DeleteEachNext(host, Deleter(Framebuffers), handles[..], j, old(framebuffers), old(trace));
        DeleteRound(Framebuffers, handles[j]);
        j := j + 1;
      }
    }

    /** One round of the loop of glDelete*: a handle the registry of kind `k` holds is
        deleted on the host, then getError is asked, and the entry is erased on
        GL_NO_ERROR; any other handle makes no call. */
    method DeleteRound(k: Kind, h: int)
      requires Ready() && (k == Buffers || k == Textures || k == Framebuffers)
      modifies this`methods, this`lookups, this`trace, this`programs, this`shaders, this`buffers,
               this`textures, this`framebuffers, this`uniforms
      ensures Ready()
      ensures (Store(k), trace) == DeleteOne(host, Deleter(k), (old(Store(k)), old(trace)), h)
      ensures State() == old(State()).WithStore(k, Store(k))
    {
      if h in Store(k) {
        var err := DeleteAndCheck(Deleter(k), Store(k)[h]);
        if err == Some(GL_NO_ERROR) {
          Erase(k, h);
        }
      }
    }

    /** The calls of one deletion: `deleter` on `obj`, then getError, whose answer is
        returned. */
    method DeleteAndCheck(deleter: string, obj: Js.Value) returns (err: Option<GLenum>)
      requires Ready()
      modifies this`methods, this`lookups, this`trace
      ensures Ready() && trace == old(trace) + [HostCall(deleter, [Object(obj)])] + [GetErrorCall]
      ensures State() == old(State())
      ensures err == ErrorCode(host(|old(trace)| + 1, GetErrorCall))
    {
      var _ := CallMethod(deleter, [Object(obj)]);
      err := GetError();
    }

    /** Erase handle `h` from the registry of kind `k`. */
    method Erase(k: Kind, h: int)
      requires Issued()
      modifies this`programs, this`shaders, this`buffers, this`textures, this`framebuffers, this`uniforms
      ensures Issued() && State() == old(State()).WithStore(k, old(Store(k)) - {h})
    {
      ghost var before := State();
      before.EraseKeepsIssued(owner, k, h);
      SetStore(k, Store(k) - {h});
    }

    /** glBindBuffer: bindBuffer with a known buffer; handle 0 is unknown, so it does not
        unbind. */
    method BindBuffer(target: GLenum, buffer: GLuint)
      requires Ready()
      modifies this
      ensures Ready() && Made(CallOn(Buffers, buffer, "bindBuffer", [Signed(target)], []))
    {
      if buffer in buffers {
        var _ := CallMethod("bindBuffer", [Signed(target)] + [Object(buffers[buffer])] + []);
      }
    }

    /** glBindTexture: bindTexture with a known texture. */
    method BindTexture(target: GLenum, texture: GLuint)
      requires Ready()
      modifies this
      ensures Ready() && Made(CallOn(Textures, texture, "bindTexture", [Signed(target)], []))
    {
      if texture in textures {
        var _ := CallMethod("bindTexture", [Signed(target)] + [Object(textures[texture])] + []);
      }
    }

    /** glBindFramebuffer: bindFramebuffer with a known framebuffer. */
    method BindFramebuffer(target: GLenum, framebuffer: GLuint)
      requires Ready()
      modifies this
      ensures Ready() && Made(CallOn(Framebuffers, framebuffer, "bindFramebuffer", [Signed(target)], []))
    {
      if framebuffer in framebuffers {
        var _ := CallMethod("bindFramebuffer", [Signed(target)] + [Object(framebuffers[framebuffer])] + []);
      }
    }

    /** glFramebufferTexture2D: framebufferTexture2D with a known texture. */
    method FramebufferTexture2D(target: GLenum, attachment: GLenum, textarget: GLenum, texture: GLuint, level: GLint)
      requires Ready()
      modifies this
      ensures Ready()
      ensures Made(CallOn(Textures, texture, "framebufferTexture2D",
                          [Signed(target), Signed(attachment), Signed(textarget)], [Int(level)]))
    {
      if texture in textures {
        var _ := CallMethod("framebufferTexture2D", [Signed(target), Signed(attachment), Signed(textarget)]
                                                    + [Object(textures[texture])] + [Int(level)]);
      }
    }

    /** glBufferData, corrected: a positive size uploads an ArrayBuffer over the caller's
        `size` bytes with the usage; a size that is zero or negative makes no call. */
    method BufferData(target: GLenum, size: int, data: nat, usage: GLenum)
      requires Ready()
      modifies this
      ensures Ready()
      ensures Made(if size > 0 then [BufferDataCall(target, size, data, usage)] else [])
    {
      if size < 0 {
        return;
      }
      if size == 0 {
        return;
      }
      var c := BufferDataCall(target, size, data, usage);
      var _ := CallMethod(c.name, c.args);
    }

    /** glBufferSubData, corrected: a positive size uploads the caller's `size` bytes at
        byte `offset`; a size that is zero or negative makes no call. */
    method BufferSubData(target: GLenum, offset: int, size: int, data: nat)
      requires Ready()
      modifies this
      ensures Ready()
      ensures Made(if size > 0 then [BufferSubDataCall(target, offset, size, data)] else [])
    {
      if size < 0 {
        return;
      }
      if size == 0 {
        return;
      }
      var c := BufferSubDataCall(target, offset, size, data);
      var _ := CallMethod(c.name, c.args);
    }

    /** glGetIntegerv: getParameter, and any non-empty reply written as static_cast<GLint>
        of its IntegerValue; nothing at all for a null `params`. */
    method GetIntegerv(pname: GLenum, hasParams: bool) returns (written: Option<GLint>)
      requires Ready()
      modifies this
      ensures Ready()
      ensures !hasParams ==> Made([]) && written.None?
      ensures hasParams ==> Made([HostCall("getParameter", [Signed(pname)])])
      ensures hasParams ==> written == IntReply(host(|old(trace)|, HostCall("getParameter", [Signed(pname)])))
    {
      if !hasParams {
        return None;
      }
      var r := CallMethod("getParameter", [Signed(pname)]);
      written := if r.Empty? then None else IntReply(r);
    }

    /** glReadPixels: for a non-null destination and a pixel type it knows, readPixels with
        a typed-array view of `static_cast<size_t>(width * height)` elements over the
        destination; otherwise no call. */
    method ReadPixels(x: GLint, y: GLint, width: GLsizei, height: GLsizei, format: GLenum, type_: GLenum, data: nat)
      requires Ready()
      modifies this
      ensures Ready()
      ensures Made(if data != 0 && ReadPixelsElement(type_).Some?
                   then [HostCall("readPixels", [Int(x), Int(y), Int(width), Int(height), Signed(format), Signed(type_),
                                                 View(ReadPixelsElement(type_).value, data, PixelCount(width, height))])]
                   else [])
    {
      if data == 0 {
        return;
      }
      var kind := ReadPixelsElement(type_);
      if kind.None? {
        return;
      }
      var _ := CallMethod("readPixels", [Int(x), Int(y), Int(width), Int(height), Signed(format), Signed(type_),
                                         View(kind.value, data, PixelCount(width, height))]);
    }

    /** glTexImage2D, corrected: only GL_TEXTURE_2D is accepted; the unpack-buffer binding
        is asked for, and a reply whose IntegerValue is at least 1 stops the upload (WebGL
        answers null or a WebGLBuffer, both 0, so a browser never stops it); otherwise
        texImage2D with the level in its slot, and the pixel view when `data` is not null. */
    method TexImage2D(target: GLenum, level: GLint, internalFormat: GLint, width: GLsizei, height: GLsizei,
                      border: GLint, format: GLenum, type_: GLenum, data: nat)
      requires Ready()
      modifies this
      ensures Ready()
      ensures target != GL_TEXTURE_2D ==> Made([])
      ensures target == GL_TEXTURE_2D ==>
        var query := HostCall("getParameter", [Signed(GL_PIXEL_UNPACK_BUFFER_BINDING)]);
        var bound := IntReply(host(|old(trace)|, query));
        var args := TexImage2DArgs(target, level, internalFormat, width, height, border, format, type_);
        var upload := HostCall("texImage2D", if data == 0 then args else args + [TexBuffers(type_, width, height, data).1]);
        Made([query] + if bound.Some? && bound.value >= 1 then [] else [upload])
    {
      if target != GL_TEXTURE_2D {
        return;
      }
      var written := GetIntegerv(GL_PIXEL_UNPACK_BUFFER_BINDING, true);
      var boundBuf := if written.Some? then written.value else 0;
      if boundBuf >= 1 {
        return;
      }
      var args := TexImage2DArgs(target, level, internalFormat, width, height, border, format, type_);
      if data == 0 {
        var _ := CallMethod("texImage2D", args);
      } else {
        var bufs := TexBuffers(type_, width, height, data);
        var _ := CallMethod("texImage2D", args + [bufs.1]);
      }
    }

    /** glTexSubImage2D: texSubImage2D with the pixel view getTexBuffers builds (the empty
        view for an unknown type), whatever the target and the data pointer. */
    method TexSubImage2D(target: GLenum, level: GLint, xoffset: GLint, yoffset: GLint, width: GLsizei,
                         height: GLsizei, format: GLenum, type_: GLenum, pixels: nat)
      requires Ready()
      modifies this
      ensures Ready()
      ensures Made([HostCall("texSubImage2D", [Signed(target), Int(level), Int(xoffset), Int(yoffset), Int(width),
                                                Int(height), Signed(format), Signed(type_),
                                                TexBuffers(type_, width, height, pixels).1])])
    {
      var bufs := TexBuffers(type_, width, height, pixels);
      var _ := CallMethod("texSubImage2D", [Signed(target), Int(level), Int(xoffset), Int(yoffset), Int(width),
                                            Int(height), Signed(format), Signed(type_), bufs.1]);
    }

    /** glCheckFramebufferStatus: the reply of checkFramebufferStatus as a GLenum. */
    method CheckFramebufferStatus(target: GLenum) returns (status: Option<GLenum>)
      requires Ready()
      modifies this
      ensures Ready() && Made([HostCall("checkFramebufferStatus", [Signed(target)])])
      ensures status == ErrorCode(host(|old(trace)|, HostCall("checkFramebufferStatus", [Signed(target)])))
    {
      var r := CallMethod("checkFramebufferStatus", [Signed(target)]);
      status := ErrorCode(r);
    }

    /** glGetFramebufferAttachmentParameteriv, corrected: the query names the attachment;
        a non-null `params` gets any non-empty reply as static_cast<GLint> of its
        IntegerValue. */
    method GetFramebufferAttachmentParameteriv(target: GLenum, attachment: GLenum, pname: GLenum, hasParams: bool)
      returns (written: Option<GLint>)
      requires Ready()
      modifies this
      ensures Ready()
      ensures !hasParams ==> Made([]) && written.None?
      ensures hasParams ==>
        var call := HostCall("getFramebufferAttachmentParameter", AttachmentParameterArgs(target, attachment, pname));
        Made([call]) && written == IntReply(host(|old(trace)|, call))
    {
      if !hasParams {
        return None;
      }
      var r := CallMethod("getFramebufferAttachmentParameter", AttachmentParameterArgs(target, attachment, pname));
      written := if r.Empty? then None else IntReply(r);
    }

    /*************************************************************************************
     * Locations and uniforms
     *************************************************************************************/

    /** glGetAttribLocation: -1 for an unknown program or an empty reply, otherwise the
        reply as a GLint. */
    method GetAttribLocation(program: GLuint, name: seq<byte>) returns (location: GLint)
      requires Ready() && IsCString(name)
      modifies this
      ensures Ready() && Made(CallOn(Programs, program, "getAttribLocation", [], [Str(CString(name))]))
      ensures program !in programs ==> location == -1
      ensures program in programs ==>
        var reply := host(|old(trace)|, CallOn(Programs, program, "getAttribLocation", [], [Str(CString(name))])[0]);
        location == (if reply.Empty? then -1 else IntReply(reply).value)
    {
      if program !in programs {
        return -1;
      }
      var r := CallMethod("getAttribLocation", [] + [Object(programs[program])] + [Str(CString(name))]);
      location := if r.Empty? then -1 else IntReply(r).value;
    }

    /** glGetUniformLocation: -1 for an unknown program or an empty reply; otherwise the
        reply is stored in the uniform registry under a fresh handle, which is returned,
        even when the same name was asked for before. */
    method GetUniformLocation(program: GLuint, name: seq<byte>) returns (location: int)
      requires Ready() && IsCString(name)
      modifies this
      ensures Ready() && trace == old(trace) + old(CallOn(Programs, program, "getUniformLocation", [], [Str(CString(name))]))
      ensures program !in old(programs) ==> location == -1 && State() == old(State())
      ensures program in old(programs) ==>
        var reply := host(|old(trace)|, old(CallOn(Programs, program, "getUniformLocation", [], [Str(CString(name))]))[0]);
        && (reply.Empty? ==> location == -1 && State() == old(State()))
        && (!reply.Empty? ==>
              && location == old(lastId) + 1 && location !in old(uniforms)
              && State() == old(State()).WithStore(Uniforms, old(uniforms)[location := reply]).(lastId := location))
    {
      if program !in programs {
        return -1;
      }
      var r := CallMethod("getUniformLocation", [] + [Object(programs[program])] + [Str(CString(name))]);
      if r.Empty? {
        return -1;
      }
      location := StoreObject(Uniforms, r);
    }

    /** callLocationMethod: `webglMethod` with the uniform location stored under `location`
        put before `args`; no call for an unknown location. */
    method CallLocationMethod(webglMethod: string, location: GLint, args: seq<Arg>)
      requires Ready()
      modifies this
      ensures Ready() && Made(CallOn(Uniforms, location, webglMethod, [], args))
    {
      if location in uniforms {
        var _ := CallMethod(webglMethod, [] + [Object(uniforms[location])] + args);
      }
    }

    /** glUniform1f. */
    method Uniform1f(location: GLint, v0: bv32)
      requires Ready()
      modifies this
      ensures Ready() && Made(CallOn(Uniforms, location, UniformSetter(1, 'f'), [], [Float(v0)]))
    {
      CallLocationMethod(UniformSetter(1, 'f'), location, [Float(v0)]);
    }

    /** glUniform2f. */
    method Uniform2f(location: GLint, v0: bv32, v1: bv32)
      requires Ready()
      modifies this
      ensures Ready() && Made(CallOn(Uniforms, location, UniformSetter(2, 'f'), [], [Float(v0), Float(v1)]))
    {
      CallLocationMethod(UniformSetter(2, 'f'), location, [Float(v0), Float(v1)]);
    }

    /** glUniform3f, corrected: calls uniform3f. */
    method Uniform3f(location: GLint, v0: bv32, v1: bv32, v2: bv32)
      requires Ready()
      modifies this
      ensures Ready() && Made(CallOn(Uniforms, location, UniformSetter(3, 'f'), [], [Float(v0), Float(v1), Float(v2)]))
    {
      CallLocationMethod(UniformSetter(3, 'f'), location, [Float(v0), Float(v1), Float(v2)]);
    }

    /** glUniform1i: the integer passed as a Number. */
    method Uniform1i(location: GLint, v0: GLint)
      requires Ready()
      modifies this
      ensures Ready() && Made(CallOn(Uniforms, location, UniformSetter(1, 'i'), [], [Int(v0)]))
    {
      CallLocationMethod(UniformSetter(1, 'i'), location, [Int(v0)]);
    }

    /** uniformMatrix (glUniformMatrix2fv, glUniformMatrix3fv), corrected: the setter for
        `dim` x `dim` matrices with a view of all `count` matrices, for a known location. */
    method UniformMatrix(dim: nat, location: GLint, count: GLsizei, transpose: byte, value: nat)
      requires Ready() && (dim == 2 || dim == 3)
      modifies this
      ensures Ready()
      ensures Made(if location in uniforms then [UniformMatrixCall(dim, uniforms[location], count, transpose != 0, value)] else [])
    {
      if location !in uniforms {
        return;
      }
      var c := UniformMatrixCall(dim, uniforms[location], count, transpose != 0, value);
      var _ := CallMethod(c.name, c.args);
    }

    /*************************************************************************************
     * glGetString
     *************************************************************************************/

    /** glGetString: the answer `GlSpec.GetString` gives for the cache, and getParameter
        asked only when it says so; the result is none for the null pointer. */
    method GetString(name: GLenum) returns (result: Option<seq<byte>>)
      requires Ready()
      modifies this
      ensures Ready()
      ensures var a := GlSpec.GetString(old(props), name, host(|old(trace)|, GetParameterCall(name)));
        && result == a.result
        && State() == old(State()).(props := a.props)
        && trace == old(trace) + (if a.asked then [GetParameterCall(name)] else [])
    {
      GetStringAnswers(props, name, host(|trace|, GetParameterCall(name)));
      if name in props {
        return Some(props[name]);
      }
      var s: seq<byte>;
      match FixedString(name) {
        case Some(f) =>
          s := f;
        case None =>
          var r := CallMethod("getParameter", [Int(name)]);
          s := Conv.Text(r);
      }
      if s != [] {
        ghost var before := State();
        props := props[name := s];
        before.IssuedToSame(owner, State());
        result := Some(s);
      } else {
        result := None;
      }
    }

    /*************************************************************************************
     * Entry points that only forward their arguments
     *************************************************************************************/

    method ActiveTexture(texture: GLenum)
      requires Ready()
      modifies this
      ensures Ready() && Made([HostCall("activeTexture", [Signed(texture)])])
    {
      var _ := CallMethod("activeTexture", [Signed(texture)]);
    }

    method BlendFuncSeparate(srcRGB: GLenum, dstRGB: GLenum, srcAlpha: GLenum, dstAlpha: GLenum)
      requires Ready()
      modifies this
      ensures Ready() && Made([HostCall("blendFuncSeparate", [Signed(srcRGB), Signed(dstRGB), Signed(srcAlpha), Signed(dstAlpha)])])
    {
      var _ := CallMethod("blendFuncSeparate", [Signed(srcRGB), Signed(dstRGB), Signed(srcAlpha), Signed(dstAlpha)]);
    }

    method Clear(mask: GLenum)
      requires Ready()
      modifies this
      ensures Ready() && Made([HostCall("clear", [Signed(mask)])])
    {
      var _ := CallMethod("clear", [Signed(mask)]);
    }

    method ClearColor(red: bv32, green: bv32, blue: bv32, alpha: bv32)
      requires Ready()
      modifies this
      ensures Ready() && Made([HostCall("clearColor", [Float(red), Float(green), Float(blue), Float(alpha)])])
    {
      var _ := CallMethod("clearColor", [Float(red), Float(green), Float(blue), Float(alpha)]);
    }

    method Enable(cap: GLenum)
      requires Ready()
      modifies this
      ensures Ready() && Made([HostCall("enable", [Signed(cap)])])
    {
      var _ := CallMethod("enable", [Signed(cap)]);
    }

    method Disable(cap: GLenum)
      requires Ready()
      modifies this
      ensures Ready() && Made([HostCall("disable", [Signed(cap)])])
    {
      var _ := CallMethod("disable", [Signed(cap)]);
    }

    method DisableVertexAttribArray(index: GLuint)
      requires Ready()
      modifies this
      ensures Ready() && Made([HostCall("disableVertexAttribArray", [Signed(index)])])
    {
      var _ := CallMethod("disableVertexAttribArray", [Signed(index)]);
    }

    method EnableVertexAttribArray(index: GLuint)
      requires Ready()
      modifies this
      ensures Ready() && Made([HostCall("enableVertexAttribArray", [Signed(index)])])
    {
      var _ := CallMethod("enableVertexAttribArray", [Signed(index)]);
    }

    method DrawArrays(mode: GLenum, first: GLint, count: GLsizei)
      requires Ready()
      modifies this
      ensures Ready() && Made([HostCall("drawArrays", [Signed(mode), Int(first), Int(count)])])
    {
      var _ := CallMethod("drawArrays", [Signed(mode), Int(first), Int(count)]);
    }

    method Finish()
      requires Ready()
      modifies this
      ensures Ready() && Made([HostCall("finish", [])])
    {
      var _ := CallMethod("finish", []);
    }

    method Flush()
      requires Ready()
      modifies this
      ensures Ready() && Made([HostCall("flush", [])])
    {
      var _ := CallMethod("flush", []);
    }

    method PixelStorei(pname: GLenum, param: GLint)
      requires Ready()
      modifies this
      ensures Ready() && Made([HostCall("pixelStorei", [Signed(pname), Int(param)])])
    {
      var _ := CallMethod("pixelStorei", [Signed(pname), Int(param)]);
    }

    method Scissor(x: GLint, y: GLint, width: GLsizei, height: GLsizei)
      requires Ready()
      modifies this
      ensures Ready() && Made([HostCall("scissor", [Int(x), Int(y), Int(width), Int(height)])])
    {
      var _ := CallMethod("scissor", [Int(x), Int(y), Int(width), Int(height)]);
    }

    method TexParameteri(target: GLenum, pname: GLenum, param: GLint)
      requires Ready()
      modifies this
      ensures Ready() && Made([HostCall("texParameteri", [Signed(target), Signed(pname), Int(param)])])
    {
      var _ := CallMethod("texParameteri", [Signed(target), Signed(pname), Int(param)]);
    }

    /** glVertexAttribPointer: the offset is the pointer's low 32 bits, passed unsigned. */
    method VertexAttribPointer(index: GLuint, size: GLint, type_: GLenum, normalized: byte, stride: GLsizei, pointer: nat)
      requires Ready()
      modifies this
      ensures Ready()
      ensures Made([HostCall("vertexAttribPointer", [Signed(index), Int(size), Signed(type_), Bool(normalized != 0),
                                                      Int(stride), Int(ToUint32(pointer))])])
    {
      var lowPointer := ToUint32(pointer);
      var _ := CallMethod("vertexAttribPointer", [Signed(index), Int(size), Signed(type_), Bool(normalized != 0),
                                                  Int(stride), Int(lowPointer)]);
    }

    method Viewport(x: GLint, y: GLint, width: GLsizei, height: GLsizei)
      requires Ready()
      modifies this
      ensures Ready() && Made([HostCall("viewport", [Int(x), Int(y), Int(width), Int(height)])])
    {
      var _ := CallMethod("viewport", [Int(x), Int(y), Int(width), Int(height)]);
    }
  }

  /** An unsigned GL value passed through Integer::New, which takes an int32_t. */
  function Signed(x: int): (a: Arg)
    ensures a.Int? && -TwoTo31 <= a.i < TwoTo31 && (a.i - x) % TwoTo32 == 0
  {
    Int(ToInt32(x))
  }

  /** static_cast<GLint> of Value::IntegerValue of a reply: ToNumber, saturated to the
      int64 range, cut to its low 32 bits. None for an empty reply, which has no value. */
  function IntReply(v: Js.Value): (r: Option<GLint>)
    ensures r.None? <==> v.Empty?
    ensures r.Some? ==> r.value == ToInt32(Conv.IntegerValue(v).value)
  {
    match Conv.IntegerValue(v)
    case Some(i) => Some(ToInt32(i))
    case None => None
  }

  /** getObjectiv's reading of a reply: only a number or a boxed number is written, as
      static_cast<GLint> of its IntegerValue. */
  function NumberReply(v: Js.Value): (r: Option<GLint>)
    ensures r.Some? <==> v.Number? || v.NumberObject?
    ensures r.Some? ==> r == IntReply(v)
  {
    if v.Number? || v.NumberObject? then IntReply(v) else None
  }

  /** How the GL queries read replies: an int32 number is itself; null, undefined and a
      plain object read as 0 and true as 1 (WebGL's null or WebGLFramebuffer answer to
      FRAMEBUFFER_BINDING gives 0); a number of 2^63 or more saturates to the int64 maximum,
      whose low 32 bits read as -1. getObjectiv writes none of the non-numbers. */
  lemma IntReplyOfReplies(i: int, ps: seq<Js.Property>)
    requires Js.Int32Min <= i <= Js.Int32Max
    ensures IntReply(Js.Number(Js.Integer(i))) == Some(i) && NumberReply(Js.Number(Js.Integer(i))) == Some(i)
    ensures IntReply(Js.Null) == Some(0) && IntReply(Js.Undefined) == Some(0) && IntReply(Js.Object(ps)) == Some(0)
    ensures IntReply(Js.Boolean(true)) == Some(1)
    ensures IntReply(Js.Number(Js.Integer(TwoTo32 * TwoTo32))) == Some(-1)
    ensures NumberReply(Js.Null) == None && NumberReply(Js.Object(ps)) == None
  {
    Conv.IntegerValueOfInteger(i);
    Conv.IntegerValueOfInteger(TwoTo32 * TwoTo32);
    Conv.IntegerValueOfPrimitives([]);
    Conv.IntegerValueOfObject(ps);
  }

  /** Whether glShaderSource can read its text: `length` bytes when a nonnegative length is
      given, otherwise up to a NUL. */
  predicate SourceReadable(source: seq<byte>, length: Option<GLint>) {
    match length
    case Some(l) => if l >= 0 then l <= |source| else IsCString(source)
    case None => IsCString(source)
  }

  /** The text glShaderSource hands on (String::NewFromUtf8 with and without a length). */
  function SourceText(source: seq<byte>, length: Option<GLint>): (text: seq<byte>)
    requires SourceReadable(source, length)
    ensures length.Some? && length.value >= 0 ==> text == source[..length.value]
    ensures (length.None? || length.value < 0) ==> text == CString(source)
  {
    match length
    case Some(l) => if l >= 0 then source[..l] else CString(source)
    case None => CString(source)
  }
}
