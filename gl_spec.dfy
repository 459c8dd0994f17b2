/** What MpvPlayerImpl's batch and caching operations compute, as functions of the registry,
    the counter, the call trace and the host's replies; MpvPlayerImpl's methods are proved to
    compute exactly these (module/mpv_player.cpp). */
module GlSpec {
  import opened Wrappers
  import opened Bytes
  import opened GlHost
  import Js = JsValues
  import Conv = JsConversions

  /** A handle registry (ObjectStore): GL handle to the WebGL object stored under it. */
  type Registry = map<int, Js.Value>

  /** Every handle of the registry was issued by a counter that now stands at `last`. */
  predicate IssuedBy(store: Registry, last: int) {
    forall h :: h in store ==> 1 <= h <= last
  }

  /*************************************************************************************
   * glGenBuffers / glGenTextures / glGenFramebuffers
   *************************************************************************************/

  /** The handles written, the registry and the counter after a batch generation. */
  datatype Generation = Generation(ids: seq<int>, store: Registry, last: int)
  {
    /** One more creation call: an empty reply writes 0, any other is stored under the next handle. */
    function Next(reply: Js.Value): Generation {
      if reply.Empty? then Generation(ids + [0], store, last)
      else Generation(ids + [last + 1], store[last + 1 := reply], last + 1)
    }
  }

  /** The loop of glGen*: `n` calls `call`, the j-th answered by the host as call number
      `start + j`; an empty reply writes 0, any other reply is stored under the next counter
      value, which is written. */
  function Generate(host: Host, call: HostCall, start: nat, n: nat, store: Registry, last: int): (g: Generation)
    ensures |g.ids| == n && g.last >= last
  {
    if n == 0 then Generation([], store, last)
    else
      Generate(host, call, start, n - 1, store, last).Next(host(start + n - 1, call))
  }

  /** A batch of n + 1 creations is a batch of n followed by one more. */
  lemma GenerateNext(host: Host, call: HostCall, start: nat, n: nat, store: Registry, last: int)
    ensures Generate(host, call, start, n + 1, store, last) == Generate(host, call, start, n, store, last).Next(host(start + n, call))
  {
  }

  /** The j-th handle written is 0 exactly when the j-th reply is empty. */
  predicate ZeroForEmpty(ids: seq<int>, host: Host, call: HostCall, start: nat) {
    forall j :: 0 <= j < |ids| ==> (ids[j] == 0 <==> host(start + j, call).Empty?)
  }

  /** A batch generation writes 0 exactly for the empty replies. */
  lemma {:induction false} GenerateZeros(host: Host, call: HostCall, start: nat, n: nat, store: Registry, last: int)
    requires last >= 0
    ensures ZeroForEmpty(Generate(host, call, start, n, store, last).ids, host, call, start)
  {
    if n > 0 {
      GenerateZeros(host, call, start, n - 1, store, last);
      var prev := Generate(host, call, start, n - 1, store, last);
      var g := Generate(host, call, start, n, store, last);
      assert forall j :: 0 <= j < n - 1 ==> g.ids[j] == prev.ids[j];
    }
  }

  /** What a batch generation `g` stored, starting from `store` and `last`: each nonzero
      handle written lies above the counter's old value and holds the reply it was issued
      for; the old entries stay. */
  predicate Stored(g: Generation, host: Host, call: HostCall, start: nat, store: Registry, last: int) {
    && (forall j :: 0 <= j < |g.ids| && g.ids[j] != 0 ==>
          last < g.ids[j] <= g.last && g.ids[j] in g.store && g.store[g.ids[j]] == host(start + j, call))
    && (forall h :: h in store && h <= last ==> h in g.store && g.store[h] == store[h])
  }

  /** Every batch generation stores what `Stored` describes. */
  lemma {:induction false} GenerateStores(host: Host, call: HostCall, start: nat, n: nat, store: Registry, last: int)
    requires last >= 0
    ensures Stored(Generate(host, call, start, n, store, last), host, call, start, store, last)
  {
    if n > 0 {
      GenerateStores(host, call, start, n - 1, store, last);
      var prev := Generate(host, call, start, n - 1, store, last);
      var g := Generate(host, call, start, n, store, last);
      assert forall j :: 0 <= j < n - 1 ==> g.ids[j] == prev.ids[j];
      if !host(start + n - 1, call).Empty? {
        assert g.store == prev.store[prev.last + 1 := host(start + n - 1, call)];
      }
    }
  }

  /** The registry after a batch generation holds only handles the counter issued. */
  lemma {:induction false} GenerateIssued(host: Host, call: HostCall, start: nat, n: nat, store: Registry, last: int)
    requires IssuedBy(store, last) && last >= 0
    ensures var g := Generate(host, call, start, n, store, last); IssuedBy(g.store, g.last)
  {
    if n > 0 {
      GenerateIssued(host, call, start, n - 1, store, last);
    }
  }

  /** Each nonzero handle of `ids` lies above `low` and at most at `high`. */
  predicate WithinRange(ids: seq<int>, low: int, high: int) {
    forall j :: 0 <= j < |ids| && ids[j] != 0 ==> low < ids[j] <= high
  }

  /** Each nonzero handle a batch generation writes lies above the counter's old value and
      at most at its new one. */
  lemma {:induction false} GenerateAbove(host: Host, call: HostCall, start: nat, n: nat, store: Registry, last: int)
    ensures var g := Generate(host, call, start, n, store, last); WithinRange(g.ids, last, g.last)
  {
    if n > 0 {
      GenerateAbove(host, call, start, n - 1, store, last);
      var prev := Generate(host, call, start, n - 1, store, last);
      var g := Generate(host, call, start, n, store, last);
      assert g.ids == prev.ids + [g.ids[n - 1]];
      assert g.ids[n - 1] == 0 || g.ids[n - 1] == g.last == prev.last + 1;
    }
  }

  /** The nonzero handles of a sequence strictly increase, so no two are equal. */
  predicate NonzeroIncreasing(ids: seq<int>) {
    forall i, j :: 0 <= i < j < |ids| && ids[i] != 0 && ids[j] != 0 ==> ids[i] < ids[j]
  }

  /** The nonzero handles of a batch generation strictly increase, and none was in the
      registry before. */
  lemma {:induction false} GenerateFresh(host: Host, call: HostCall, start: nat, n: nat, store: Registry, last: int)
    requires IssuedBy(store, last) && last >= 0
    ensures NonzeroIncreasing(Generate(host, call, start, n, store, last).ids)
    ensures forall h :: h in Generate(host, call, start, n, store, last).ids && h != 0 ==> h !in store
  {
    var g := Generate(host, call, start, n, store, last);
    GenerateAbove(host, call, start, n, store, last);
    if n > 0 {
      GenerateFresh(host, call, start, n - 1, store, last);
      GenerateAbove(host, call, start, n - 1, store, last);
      var prev := Generate(host, call, start, n - 1, store, last);
      assert g.ids == prev.ids + [g.ids[n - 1]];
      assert g.ids[n - 1] == 0 || g.ids[n - 1] == prev.last + 1;
    }
  }

  /*************************************************************************************
   * glDeleteBuffers / glDeleteTextures / glDeleteFramebuffers
   *************************************************************************************/

  const GetErrorCall: HostCall := HostCall("getError", [])

  /** glGetError (and glCheckFramebufferStatus): static_cast<GLenum> of Value::IntegerValue
      of the reply. None stands for an empty reply, on which the bridge dereferences an empty
      handle. */
  function ErrorCode(reply: Js.Value): (code: Option<GLenum>)
    ensures code.None? <==> reply.Empty?
    ensures code.Some? ==> code.value == ToUint32(Conv.IntegerValue(reply).value)
  {
    match Conv.IntegerValue(reply)
    case Some(i) => Some(ToUint32(i))
    case None => None
  }

  /** What getError's reply reads as: a GLenum number is itself, and null, undefined and an
      ordinary object read as GL_NO_ERROR. */
  lemma ErrorCodeOfReplies(e: GLenum, ps: seq<Js.Property>)
    ensures ErrorCode(Js.Number(Js.Integer(e))) == Some(e)
    ensures ErrorCode(Js.Null) == Some(GL_NO_ERROR) && ErrorCode(Js.Undefined) == Some(GL_NO_ERROR)
    ensures ErrorCode(Js.Object(ps)) == Some(GL_NO_ERROR)
  {
    Conv.IntegerValueOfInteger(e);
    Conv.IntegerValueOfPrimitives([]);
    Conv.IntegerValueOfObject(ps);
  }

  /** The loop of glDelete*: for each listed handle the registry holds, call `deleter` on its
      object, then getError, and erase the entry only when getError answers GL_NO_ERROR;
      handles the registry does not hold are skipped without a call. Gives the registry and
      the trace afterwards. */
  function DeleteEach(host: Host, deleter: string, handles: seq<int>, store: Registry, trace: seq<HostCall>): (r: (Registry, seq<HostCall>))
    ensures |r.1| >= |trace|
  {
    if handles == [] then (store, trace)
    else DeleteOne(host, deleter, DeleteEach(host, deleter, handles[..|handles| - 1], store, trace), handles[|handles| - 1])
  }

  /** One round of the loop of glDelete*, from the registry and trace `prev`. */
  function DeleteOne(host: Host, deleter: string, prev: (Registry, seq<HostCall>), h: int): (r: (Registry, seq<HostCall>))
    ensures |r.1| >= |prev.1|
  {
    if h !in prev.0 then prev
    else
      var t := prev.1 + [HostCall(deleter, [Object(prev.0[h])])];
      if ErrorCode(host(|t|, GetErrorCall)) == Some(GL_NO_ERROR) then (prev.0 - {h}, t + [GetErrorCall])
      else (prev.0, t + [GetErrorCall])
  }

  /** Deleting a list one handle longer is one more round. */
  lemma DeleteEachNext(host: Host, deleter: string, handles: seq<int>, j: nat, store: Registry, trace: seq<HostCall>)
    requires j < |handles|
    ensures DeleteEach(host, deleter, handles[..j + 1], store, trace)
         == DeleteOne(host, deleter, DeleteEach(host, deleter, handles[..j], store, trace), handles[j])
  {
    assert handles[..j + 1][..j] == handles[..j];
  }

  /** A batch delete only erases: what stays keeps its object, and every handle not listed
      stays. The trace only grows, by deleter and getError calls. */
  lemma {:induction false} DeleteOnlyErasesListed(host: Host, deleter: string, handles: seq<int>, store: Registry, trace: seq<HostCall>)
    ensures var (s, t) := DeleteEach(host, deleter, handles, store, trace);
      && (forall h :: h in s ==> h in store && s[h] == store[h])
      && (forall h :: h in store && h !in handles ==> h in s)
      && t[..|trace|] == trace
      && (forall i :: |trace| <= i < |t| ==> t[i] == GetErrorCall || t[i].name == deleter)
  {
    if handles != [] {
      var front := handles[..|handles| - 1];
      DeleteOnlyErasesListed(host, deleter, front, store, trace);
      assert forall h :: h in store && h !in handles ==> h !in front;
    }
  }

  /** When getError never answers GL_NO_ERROR nothing is erased. */
  lemma {:induction false} DeleteKeepsOnError(host: Host, deleter: string, handles: seq<int>, store: Registry, trace: seq<HostCall>)
    requires forall i :: ErrorCode(host(i, GetErrorCall)) != Some(GL_NO_ERROR)
    ensures DeleteEach(host, deleter, handles, store, trace).0 == store
  {
    if handles != [] {
      DeleteKeepsOnError(host, deleter, handles[..|handles| - 1], store, trace);
    }
  }

  /** When getError always answers GL_NO_ERROR exactly the listed handles are erased. */
  lemma {:induction false} DeleteErasesOnSuccess(host: Host, deleter: string, handles: seq<int>, store: Registry, trace: seq<HostCall>)
    requires forall i :: ErrorCode(host(i, GetErrorCall)) == Some(GL_NO_ERROR)
    ensures var s := DeleteEach(host, deleter, handles, store, trace).0;
      forall h :: h in s <==> h in store && h !in handles
  {
    if handles != [] {
      var front := handles[..|handles| - 1];
      DeleteErasesOnSuccess(host, deleter, front, store, trace);
      DeleteOnlyErasesListed(host, deleter, front, store, trace);
      assert forall h :: h in handles <==> h in front || h == handles[|handles| - 1];
    }
  }

  /*************************************************************************************
   * glGetString
   *************************************************************************************/

  /** The strings glGetString answers without asking the host. */
  function FixedString(name: GLenum): (s: Option<seq<byte>>)
    ensures s.Some? ==> s.value != []
  {
    if name == GL_VERSION then Some(Ascii("OpenGL ES 2.0 Chromium"))
    else if name == GL_SHADING_LANGUAGE_VERSION then Some(Ascii("OpenGL ES GLSL ES 1.0 Chromium"))
    else if name == GL_EXTENSIONS then Some(Ascii("GL_ARB_framebuffer_object"))
    else if name == GL_RENDERER then Some(Ascii("Software Rasterizer"))
    else None
  }

  /** The getParameter call glGetString makes for a name it does not answer itself
      (Number::New: the GLenum value, not wrapped). */
  function GetParameterCall(name: GLenum): HostCall {
    HostCall("getParameter", [Int(name)])
  }

  /** The string cache (gl_props) holds only nonempty strings, and the fixed strings for
      the fixed names. */
  predicate PropsOk(props: map<int, seq<byte>>) {
    forall n :: n in props ==> props[n] != [] && (0 <= n < TwoTo32 && FixedString(n).Some? ==> props[n] == FixedString(n).value)
  }

  /** The answer to glGetString: the string (None for the null pointer), the cache
      afterwards, and whether the host was asked. */
  datatype StringAnswer = StringAnswer(result: Option<seq<byte>>, props: map<int, seq<byte>>, asked: bool)

  /** glGetString with the cache `props`, where `reply` is the host's answer should it be
      asked: a cached string, else a fixed string, else the host's getParameter text; a
      nonempty string is cached and returned, an empty one gives null. */
  function GetString(props: map<int, seq<byte>>, name: GLenum, reply: Js.Value): StringAnswer {
    if name in props then StringAnswer(Some(props[name]), props, false)
    else
      var s := match FixedString(name) case Some(f) => f case None => Conv.Text(reply);
      var asked := FixedString(name).None?;
      if s != [] then StringAnswer(Some(s), props[name := s], asked)
      else StringAnswer(None, props, asked)
  }

  /** glGetString keeps the cache well formed, answers a fixed name with its fixed string
      without asking the host, and gives null, uncached, exactly for an empty host answer. */
  lemma GetStringAnswers(props: map<int, seq<byte>>, name: GLenum, reply: Js.Value)
    requires PropsOk(props)
    ensures var a := GetString(props, name, reply);
      && PropsOk(a.props)
      && (FixedString(name).Some? ==> a.result == FixedString(name) && !a.asked)
      && (a.asked <==> name !in props && FixedString(name).None?)
      && (a.result.None? <==> a.asked && Conv.Text(reply) == [])
      && (a.result.None? ==> a.props == props)
      && (a.result.Some? ==> name in a.props && a.props[name] == a.result.value != [])
  {
  }

  /** For a name neither cached nor fixed, glGetString answers the host's text: a string
      itself, a number its decimal text and an object its tag, each cached; an empty string
      or an empty reply gives null. */
  lemma GetStringOfReplies(props: map<int, seq<byte>>, name: GLenum, s: seq<byte>, ps: seq<Js.Property>)
    requires name !in props && FixedString(name).None?
    ensures s != [] ==> GetString(props, name, Js.String(s)) == StringAnswer(Some(s), props[name := s], true)
    ensures GetString(props, name, Js.String([])) == StringAnswer(None, props, true)
    ensures GetString(props, name, Js.Empty) == StringAnswer(None, props, true)
    ensures GetString(props, name, Js.Number(Js.Integer(0))).result == Some([48])
    ensures GetString(props, name, Js.Object(ps)).result ==
      Some([91, 111, 98, 106, 101, 99, 116, 32, 79, 98, 106, 101, 99, 116, 93])
  {
    Conv.TextOfValues(s, ps, []);
    Conv.TextOfValues([], ps, []);
  }

  /** A repeated glGetString answers the same string from the cache, whatever the host would
      say, without asking it and without changing the cache. */
  lemma GetStringRepeats(props: map<int, seq<byte>>, name: GLenum, reply: Js.Value, reply': Js.Value)
    requires PropsOk(props)
    requires GetString(props, name, reply).result.Some?
    ensures var a := GetString(props, name, reply);
            GetString(a.props, name, reply') == StringAnswer(a.result, a.props, false)
  {
  }
}
