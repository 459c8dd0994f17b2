# libmpvjs core, modelled in Dafny

libmpvjs embeds the mpv media player in a JavaScript host. mpv renders through OpenGL ES 2.0
entry points, and the bridge (`MpvPlayerImpl` in `module/mpv_player.cpp`) implements each of
them by calling the host's WebGL rendering context. GL handles are small integers. The bridge
maps them to WebGL objects in six registries (programs, shaders, buffers, textures,
framebuffers and uniform locations), all fed by one counter. It also caches the context's
methods and the strings `glGetString` answers. mpv looks these entry points up by name in a
fixed table (`get_proc_address`). Outside rendering, the bridge drains mpv's event queue
(`async_wakeup_cb`) and forwards JavaScript commands to `mpv_command` (`MpvPlayer::Command`).
Values cross between the two worlds as `mpv_node` trees (`module/mpv_node.cpp`): they are
converted to host values, built from host values, and released.

The project has one module per concern:

- `Wrappers`, `Bytes`: the Option type, bytes and NUL-terminated C strings.
- `JsValues`: the host's dynamic values, with `Object::Set` semantics for properties: array
  indices enumerate first in ascending order, and a new "__proto__" sets the prototype
  instead of adding a property.
- `JsConversions`: the V8 conversions the bridge relies on: `Value::IntegerValue` (ToNumber,
  then truncation saturated to int64), the text `String::Utf8Value` gives (ToString, with
  Number::toString for numbers), `Number::New`'s NaN canonicalisation, and the UTF-8 repair
  `String::NewFromUtf8` performs.
- `GlHost`: GL integer types and their casts, GL enumerants, and the rendering context.
  The context is an oracle `host(n, call)`: the reply to `call` when `n` calls precede it.
  Every proof holds for every host.
- `GlPixels`: the typed-array views built over caller pixel memory.
- `GlCalls`: the WebGL calls whose names or arguments the bridge rearranges, each written as
  the code has it and as it is meant.
- `GlSpec`: the batch operations (`glGen*`, `glDelete*`) and `glGetString`, written as
  functions, with their properties.
- `MpvPlayer`: the class `MpvPlayerImpl`. Its fields are the registries, the counter, the
  string cache, the method cache and the call trace. Its methods are the GL entry points and
  the helpers `method`, `callMethod`, `storeObject`, `newId`, `getObjectiv`,
  `getObjectInfoLog`, `callLocationMethod` and `uniformMatrix`. Each method states its call
  trace and its new state exactly. The methods keep the invariant that every registry holds
  only handles the counter issued, so no two registries share a handle and 0 is never a key.
- `GlFuncMap`: the name-to-wrapper table and `get_proc_address`.
- `MpvClient`: the mpv handle as the bridge uses it: an event queue and a command log.
- `PlayerCallbacks`: `async_wakeup_cb` and `MpvPlayer::Command`.
- `MpvNode`: `mpv_node`, `mpv_node_to_v8_value`, `init_node` and `valid()`, with both round
  trips.
- `NodeRelease`: `free_node`, as written and as meant. Each version is a log of the delete
  expressions it evaluates, compared with the blocks `init_node` allocated.

In four places the model follows what the code does rather than what its names suggest:

- All six registries draw handles from one counter (`_last_id`, line 939), not one counter
  per category.
- Handle 0 is looked up like any other handle, so binding 0 finds nothing and makes no call.
  It does not unbind.
- A missing handle makes the entry point return silently.
- The event drain only prints log messages in debug builds. It does not dispatch to callbacks.

## Model

| member | source | states |
|---|---|---|
| Bytes.CStringIsPrefix | module/mpv_node.cpp:18-20 | the text read from a C string is the NUL-free prefix of the buffer before its first NUL |
| Bytes.Terminated | module/mpv_node.cpp:75-77 | the copied buffer is the text followed by one NUL, and so is a C string |
| Bytes.CStringOfTerminated | module/helpers.cpp:9-16 | reading back a terminated copy gives the text exactly when it has no NUL, and a strictly shorter text otherwise |
| JsValues.SetPropertyKeys | module/mpv_node.cpp:40 | Object::Set keeps names distinct and in V8's enumeration order (array indices first, ascending, then other names in insertion order); the properties afterwards are the old ones with the key bound to the new value, except that a new "__proto__" adds nothing |
| JsValues.SetPropertyAppends | module/mpv_node.cpp:40 | a new name other than "__proto__" that keeps the enumeration order (not an index, or an index above every present one) is appended as exactly that property |
| JsValues.SetPropertyIndexPlace | module/mpv_node.cpp:40 | a new array index goes right after the smaller indices and before every other property |
| GlHost.ToUint32 | module/mpv_player.cpp:474 | static_cast to GLenum is reduction modulo 2^32 and leaves values in range unchanged |
| GlHost.ToInt32 | module/mpv_player.cpp:464 | static_cast to GLint wraps into the signed 32-bit range and leaves values in range unchanged |
| JsConversions.IntegerValue | module/mpv_player.cpp:474 | IntegerValue has no value only for an empty handle, and otherwise lies in the int64 range |
| JsConversions.NumberToInt64 | module/mpv_player.cpp:486 | the result lies in the int64 range, and a finite value below 2^63 in magnitude is truncated toward zero |
| JsConversions.IntegerValueOfInteger | module/mpv_player.cpp:486 | an integral number, bare or boxed, reads as itself saturated to the int64 range |
| JsConversions.IntegerValueOfPrimitives | module/mpv_player.cpp:474 | null, undefined, false, the empty string and a Symbol read as 0, and true as 1 |
| JsConversions.IntegerValueOfObject | module/mpv_player.cpp:749 | a plain object, such as a WebGLTexture reply, reads as 0 |
| JsConversions.IntegerValueOfDecimal | module/mpv_player.cpp:464 | the decimal text of an integer below 2^53 in magnitude, with an optional minus sign, reads as that integer |
| JsConversions.TextOfValues | module/helpers.cpp:9-16 | string_to_cc gives a string's bytes, "null", "0" for zero, "[object Object]" for a plain object, and nothing for an empty handle or a Symbol |
| JsConversions.TextOfArray | module/helpers.cpp:9-16 | an array's text is its elements joined by commas, with null and undefined left empty |
| JsConversions.NewNumber | module/mpv_node.cpp:15-16 | Number::New keeps the value of a double; a NaN becomes the canonical NaN and any other encoding is kept |
| JsConversions.NewFromUtf8KeepsWellFormed | module/mpv_node.cpp:18-20 | well-formed UTF-8 passes String::NewFromUtf8 unchanged |
| JsConversions.NewFromUtf8IsWellFormed | module/mpv_node.cpp:18-20 | String::NewFromUtf8 always yields well-formed UTF-8, so a second pass changes nothing |
| JsConversions.NewFromUtf8Replaces | module/mpv_node.cpp:18-20 | a stray byte, a truncated sequence and each byte of an encoded surrogate each become one U+FFFD |
| GlPixels.TexElement | module/mpv_player.cpp:807-838 | each pixel type maps to its view element type, in both directions, as the switch lists them |
| GlPixels.ReadPixelsElement | module/mpv_player.cpp:528-554 | glReadPixels's switch: bytes, 16-bit types and floats only, never a 32-bit integer view |
| GlPixels.TexBuffers | module/mpv_player.cpp:800-841 | a known type gives a buffer of `width * height * sizeof(T)` bytes and a view of `static_cast<size_t>(width * height)` elements, both reduced modulo 2^64; an unknown type gives no buffer and an empty view |
| GlPixels.PixelSizes | module/mpv_player.cpp:534-535 | a product of width and height in the int range and not negative gives exactly that many elements and bytes; a negative one wraps to at least 2^63 elements (2^64 - 1 for -1 by 1) |
| GlPixels.TexElementSize | module/mpv_player.cpp:807-838 | every view's element size equals the byte size of one component of its GL pixel type |
| GlPixels.ReadPixelsAgreesWithTex | module/mpv_player.cpp:522-557 | glReadPixels accepts a subset of the getTexBuffers types, viewed the same way; it rejects exactly HALF_FLOAT, UNSIGNED_INT and UNSIGNED_INT_24_8 |
| GlCalls.FramebuffersDeletedAsBuffers | module/mpv_player.cpp:714 | as written, framebuffers are deleted with the buffer deleter, not their own |
| GlCalls.DeletersMatchCreators | module/mpv_player.cpp:325-373 | the corrected deleter of each kind names the same kind as its creator, and no two kinds share one |
| GlCalls.UniformSetter | module/mpv_player.cpp:613-635 | the setter name is "uniform", the value count and the element type |
| GlCalls.Uniform3dIsNoSetter | module/mpv_player.cpp:628 | "uniform3d" is no WebGL uniform setter; the corrected name is "uniform3f" |
| GlCalls.UniformMatrixCall | module/mpv_player.cpp:903-914 | the corrected call names the setter for the matrix dimension and views count*dim*dim floats |
| GlCalls.UniformMatrixAsWrittenDiffers | module/mpv_player.cpp:910-913 | as written, a 3x3 upload goes to the 2x2 setter, and every view is shorter than the floats GL reads |
| GlCalls.TexImage2DArgs | module/mpv_player.cpp:585-593 | the corrected arguments carry the level in the level slot, in WebGL's order |
| GlCalls.TexImage2DLevelLost | module/mpv_player.cpp:585-593 | as written, the level slot always holds GL_TEXTURE_2D; it agrees with the corrected call only for level 3553 |
| GlCalls.BufferDataCall | module/mpv_player.cpp:291-293 | the corrected call is bufferData(target, the caller's bytes, usage) |
| GlCalls.BufferDataSizeAsData | module/mpv_player.cpp:291-293 | as written, the size sits in the data slot and the bytes only in the usage slot, so the call never is the intended upload |
| GlCalls.BufferSubDataCall | module/mpv_player.cpp:308-310 | the corrected call passes the caller's offset as the destination offset |
| GlCalls.BufferSubDataOffsetLost | module/mpv_player.cpp:308-310 | as written, the size sits in the offset slot; it agrees with the corrected call only when offset equals size |
| GlCalls.AttachmentParameterArgs | module/mpv_player.cpp:747 | the corrected query passes target, attachment and pname |
| GlCalls.AttachmentLost | module/mpv_player.cpp:747 | as written, the query ignores the attachment and differs from the corrected one when attachment differs from pname |
| GlCalls.FitLength | module/mpv_player.cpp:884 | WriteUtf8 copies the longest prefix that fits the capacity and does not end inside a character |
| GlCalls.InfoLogOffByOne | module/mpv_player.cpp:884-888 | as written, the terminator lands one past the bytes written (at index maxLength for a full buffer) and the reported length is one too large |
| GlSpec.Generate | module/mpv_player.cpp:417-433 | a batch writes exactly n handles and never lowers the counter |
| GlSpec.GenerateNext | module/mpv_player.cpp:428-432 | a batch of n+1 creations is a batch of n followed by one more round |
| GlSpec.GenerateZeros | module/mpv_player.cpp:428-432 | glGen* writes 0 exactly for the empty replies |
| GlSpec.GenerateStores | module/mpv_player.cpp:428-432 | each nonzero handle written lies above the old counter and holds the reply it was issued for; old entries stay |
| GlSpec.GenerateAbove | module/mpv_player.cpp:428-432 | each nonzero handle of a batch lies above the counter's old value and at most at its new one |
| GlSpec.GenerateIssued | module/mpv_player.cpp:793-798 | after a batch, the registry holds only handles the counter issued |
| GlSpec.GenerateFresh | module/mpv_player.cpp:428-432 | the nonzero handles of a batch strictly increase, and none was in the registry before |
| GlSpec.ErrorCode | module/mpv_player.cpp:466-474 | glGetError gives static_cast<GLenum> of IntegerValue of the reply, and no code only for an empty reply |
| GlSpec.ErrorCodeOfReplies | module/mpv_player.cpp:466-474 | a GLenum number reads as itself; null, undefined and a plain object read as GL_NO_ERROR |
| GlSpec.DeleteEach | module/mpv_player.cpp:325-348 | a batch delete only appends to the trace |
| GlSpec.DeleteEachNext | module/mpv_player.cpp:337-347 | deleting a list one handle longer is one more round of the loop |
| GlSpec.DeleteOnlyErasesListed | module/mpv_player.cpp:325-348 | glDelete* only erases listed handles, keeps every other entry and its object, and only appends deleter and getError calls to the trace |
| GlSpec.DeleteKeepsOnError | module/mpv_player.cpp:344-346 | when getError's reply never reads as GL_NO_ERROR, nothing is erased |
| GlSpec.DeleteErasesOnSuccess | module/mpv_player.cpp:337-347 | when getError always answers GL_NO_ERROR, exactly the listed handles are erased |
| GlSpec.FixedString | module/mpv_player.cpp:68-86 | the four fixed strings of glGetString are nonempty |
| GlSpec.GetStringAnswers | module/mpv_player.cpp:58-98 | glGetString keeps the cache well formed, answers fixed names without asking the host, asks only for uncached unknown names, and returns null, uncached, exactly when the host's reply has an empty text |
| GlSpec.GetStringOfReplies | module/mpv_player.cpp:86-97 | for an unknown uncached name, a nonempty string reply is returned and cached, a number or object reply gives its text, and an empty string or empty reply gives null |
| GlSpec.GetStringRepeats | module/mpv_player.cpp:62-65 | a repeated glGetString answers the cached string without asking the host, whatever the host would say |
| GlFuncMap.SymbolsDistinct | module/mpv_player.cpp:1078-1137 | no two table entries share a name |
| GlFuncMap.GetProcAddress | module/mpv_player.cpp:1142-1151 | a wrapper found is the one stored under the requested name |
| GlFuncMap.GetProcAddressFinds | module/mpv_player.cpp:1078-1151 | every name in the table yields its own wrapper |
| GlFuncMap.GetProcAddressMisses | module/mpv_player.cpp:1145-1149 | the lookup gives null exactly for names that are no key of the table |
| MpvClient.ReadArgv | module/mpv_player.cpp:1319-1331 | mpv reads one C string per entry before the terminating NULL |
| MpvClient.MpvHandle.WaitEvent | module/mpv_player.cpp:988 | mpv_wait_event with timeout 0 takes the oldest pending event, or gives NONE on an empty queue |
| MpvClient.MpvHandle.Command | module/mpv_player.cpp:1331 | mpv_command logs the strings it reads and returns mpv's status for them |
| MpvPlayer.Registries.StoreKeepsIssued | module/mpv_player.cpp:793-798 | the next counter value is in no registry, and storing under it keeps every handle issued |
| MpvPlayer.Registries.EraseKeepsIssued | module/mpv_player.cpp:345 | erasing an entry keeps every handle issued |
| MpvPlayer.MpvPlayerImpl.constructor | module/mpv_player.cpp:32-37 | a new player has empty registries, counter 0, empty caches and no mpv handle |
| MpvPlayer.MpvPlayerImpl.StoresIssued | module/mpv_player.cpp:939-941 | every registry key lies between 1 and the counter |
| MpvPlayer.MpvPlayerImpl.HandlesUnique | module/mpv_player.cpp:933-941 | no handle is in two registries, and no registry key is below 1 |
| MpvPlayer.MpvPlayerImpl.WebGlMethod | module/mpv_player.cpp:762-778 | without a context, nothing; otherwise the method get_method resolves, looked up only the first time and cached |
| MpvPlayer.MpvPlayerImpl.CallMethod | module/mpv_player.cpp:780-791 | exactly one call is appended to the trace, the reply is the host's answer to it, and the method is cached |
| MpvPlayer.MpvPlayerImpl.NewId | module/mpv_player.cpp:941 | the counter goes up by one, and the new value is in no registry |
| MpvPlayer.MpvPlayerImpl.StoreObject | module/mpv_player.cpp:793-798 | the value is stored under a fresh handle, the counter's next value, and nothing else changes |
| MpvPlayer.MpvPlayerImpl.CreateProgram | module/mpv_player.cpp:106-110 | one createProgram call; its reply, even an empty one, is stored under a fresh handle |
| MpvPlayer.MpvPlayerImpl.CreateShader | module/mpv_player.cpp:160-164 | one createShader call with the type; its reply is stored under a fresh handle |
| MpvPlayer.MpvPlayerImpl.DeleteProgram | module/mpv_player.cpp:112-122 | deleteProgram on a known program only; the registry keeps it |
| MpvPlayer.MpvPlayerImpl.DeleteShader | module/mpv_player.cpp:166-176 | deleteShader on a known shader only; the registry keeps it |
| MpvPlayer.MpvPlayerImpl.UseProgram | module/mpv_player.cpp:136-146 | useProgram on a known program; an unknown handle, 0 included, makes no call |
| MpvPlayer.MpvPlayerImpl.LinkProgram | module/mpv_player.cpp:148-158 | linkProgram on a known program only |
| MpvPlayer.MpvPlayerImpl.CompileShader | module/mpv_player.cpp:196-206 | compileShader on a known shader only |
| MpvPlayer.MpvPlayerImpl.AttachShader | module/mpv_player.cpp:178-194 | attachShader only when both the program and the shader are known |
| MpvPlayer.MpvPlayerImpl.ShaderSource | module/mpv_player.cpp:208-234 | a known shader with count 1 gets its text, read by length or up to a NUL; any other count makes no call |
| MpvPlayer.MpvPlayerImpl.BindAttribLocation | module/mpv_player.cpp:236-247 | bindAttribLocation on a known program with the index and the name read as a C string |
| MpvPlayer.MpvPlayerImpl.GetObjectiv | module/mpv_player.cpp:843-864 | nothing without params or for an unknown object; otherwise one query, and a number or boxed-number reply is written as static_cast<GLint> of its IntegerValue; any other reply writes nothing |
| MpvPlayer.MpvPlayerImpl.GetObjectInfoLog | module/mpv_player.cpp:866-889 | corrected: the log is copied as far as it fits without splitting a character, terminated right after, the rest of the buffer untouched, and the bytes copied reported |
| MpvPlayer.MpvPlayerImpl.GenBuffers | module/mpv_player.cpp:417-433 | nothing for a null array or a count below 1; otherwise n createBuffer calls, with ids, registry and counter exactly as Generate gives them and the rest of the array untouched |
| MpvPlayer.MpvPlayerImpl.GenTextures | module/mpv_player.cpp:435-451 | the same for createTexture and the texture registry |
| MpvPlayer.MpvPlayerImpl.GenFramebuffers | module/mpv_player.cpp:678-694 | the same for createFramebuffer and the framebuffer registry |
| MpvPlayer.MpvPlayerImpl.GetError | module/mpv_player.cpp:466-474 | one getError call; the code is ErrorCode of its reply |
| MpvPlayer.MpvPlayerImpl.DeleteBuffers | module/mpv_player.cpp:325-348 | nothing for a null array or a count below 1; otherwise registry and trace exactly as DeleteEach gives them, other registries unchanged |
| MpvPlayer.MpvPlayerImpl.DeleteTextures | module/mpv_player.cpp:350-373 | the same with deleteTexture and the texture registry |
| MpvPlayer.MpvPlayerImpl.DeleteFramebuffers | module/mpv_player.cpp:696-719 | corrected: the same with deleteFramebuffer and the framebuffer registry |
| MpvPlayer.MpvPlayerImpl.BindBuffer | module/mpv_player.cpp:249-259 | bindBuffer with a known buffer; handle 0 is unknown and makes no call |
| MpvPlayer.MpvPlayerImpl.BindTexture | module/mpv_player.cpp:261-271 | bindTexture with a known texture only |
| MpvPlayer.MpvPlayerImpl.BindFramebuffer | module/mpv_player.cpp:666-676 | bindFramebuffer with a known framebuffer only |
| MpvPlayer.MpvPlayerImpl.FramebufferTexture2D | module/mpv_player.cpp:727-738 | framebufferTexture2D with a known texture only |
| MpvPlayer.MpvPlayerImpl.BufferData | module/mpv_player.cpp:279-294 | corrected: a positive size makes one bufferData call with the caller's bytes and the usage; zero or negative makes no call |
| MpvPlayer.MpvPlayerImpl.BufferSubData | module/mpv_player.cpp:296-311 | corrected: a positive size uploads the bytes at the caller's offset; zero or negative makes no call |
| MpvPlayer.MpvPlayerImpl.GetIntegerv | module/mpv_player.cpp:476-488 | nothing without params; otherwise one getParameter call, and a non-empty reply written as static_cast<GLint> of its IntegerValue |
| MpvPlayer.MpvPlayerImpl.ReadPixels | module/mpv_player.cpp:522-557 | readPixels with a view of `static_cast<size_t>(width * height)` elements for a non-null destination and a known type; otherwise no call |
| MpvPlayer.MpvPlayerImpl.TexImage2D | module/mpv_player.cpp:565-595 | corrected: only GL_TEXTURE_2D; the unpack binding is queried and a reply reading as 1 or more stops it; otherwise texImage2D with the level, plus the pixel view when data is not null |
| MpvPlayer.MpvPlayerImpl.TexSubImage2D | module/mpv_player.cpp:603-611 | texSubImage2D with getTexBuffers's view, whatever the target and the pointer |
| MpvPlayer.MpvPlayerImpl.CheckFramebufferStatus | module/mpv_player.cpp:721-725 | one checkFramebufferStatus call; the status is ErrorCode of its reply |
| MpvPlayer.MpvPlayerImpl.GetFramebufferAttachmentParameteriv | module/mpv_player.cpp:740-752 | corrected: nothing without params; otherwise a query naming the attachment, and a non-empty reply written as static_cast<GLint> of its IntegerValue |
| MpvPlayer.MpvPlayerImpl.GetAttribLocation | module/mpv_player.cpp:455-464 | -1 for an unknown program or an empty reply, else static_cast<GLint> of the reply's IntegerValue |
| MpvPlayer.MpvPlayerImpl.GetUniformLocation | module/mpv_player.cpp:502-514 | -1 and no change for an unknown program or an empty reply; otherwise the reply stored under a fresh handle, even for a name asked before |
| MpvPlayer.MpvPlayerImpl.CallLocationMethod | module/mpv_player.cpp:891-901 | the method with the stored location put before the arguments; no call for an unknown location |
| MpvPlayer.MpvPlayerImpl.Uniform1f | module/mpv_player.cpp:613-617 | uniform1f on a known location |
| MpvPlayer.MpvPlayerImpl.Uniform2f | module/mpv_player.cpp:619-623 | uniform2f on a known location |
| MpvPlayer.MpvPlayerImpl.Uniform3f | module/mpv_player.cpp:625-629 | corrected: uniform3f on a known location |
| MpvPlayer.MpvPlayerImpl.Uniform1i | module/mpv_player.cpp:631-635 | uniform1i with the integer as a number, on a known location |
| MpvPlayer.MpvPlayerImpl.UniformMatrix | module/mpv_player.cpp:637-647 | corrected: the setter for the dimension, with a view of all count matrices, on a known location |
| MpvPlayer.MpvPlayerImpl.GetString | module/mpv_player.cpp:58-98 | result, cache and trace exactly as GlSpec.GetString gives them |
| MpvPlayer.MpvPlayerImpl.ActiveTexture | module/mpv_player.cpp:100-104 | exactly one activeTexture call, state unchanged |
| MpvPlayer.MpvPlayerImpl.BlendFuncSeparate | module/mpv_player.cpp:273-277 | exactly one blendFuncSeparate call with the four factors |
| MpvPlayer.MpvPlayerImpl.Clear | module/mpv_player.cpp:313-317 | exactly one clear call |
| MpvPlayer.MpvPlayerImpl.ClearColor | module/mpv_player.cpp:319-323 | exactly one clearColor call with the four components |
| MpvPlayer.MpvPlayerImpl.Enable | module/mpv_player.cpp:375-379 | exactly one enable call |
| MpvPlayer.MpvPlayerImpl.Disable | module/mpv_player.cpp:381-385 | exactly one disable call |
| MpvPlayer.MpvPlayerImpl.DisableVertexAttribArray | module/mpv_player.cpp:387-391 | exactly one disableVertexAttribArray call |
| MpvPlayer.MpvPlayerImpl.EnableVertexAttribArray | module/mpv_player.cpp:393-397 | exactly one enableVertexAttribArray call |
| MpvPlayer.MpvPlayerImpl.DrawArrays | module/mpv_player.cpp:399-403 | exactly one drawArrays call |
| MpvPlayer.MpvPlayerImpl.Finish | module/mpv_player.cpp:405-409 | exactly one finish call |
| MpvPlayer.MpvPlayerImpl.Flush | module/mpv_player.cpp:411-415 | exactly one flush call |
| MpvPlayer.MpvPlayerImpl.PixelStorei | module/mpv_player.cpp:516-520 | exactly one pixelStorei call |
| MpvPlayer.MpvPlayerImpl.Scissor | module/mpv_player.cpp:559-563 | exactly one scissor call |
| MpvPlayer.MpvPlayerImpl.TexParameteri | module/mpv_player.cpp:597-601 | exactly one texParameteri call |
| MpvPlayer.MpvPlayerImpl.VertexAttribPointer | module/mpv_player.cpp:649-658 | exactly one vertexAttribPointer call, with the pointer's low 32 bits as offset |
| MpvPlayer.MpvPlayerImpl.Viewport | module/mpv_player.cpp:660-664 | exactly one viewport call |
| MpvPlayer.Signed | module/mpv_player.cpp:25 | Integer::New takes an int32: the value wraps into the signed range, congruent modulo 2^32 |
| MpvPlayer.IntReply | module/mpv_player.cpp:464 | static_cast<GLint> of IntegerValue: no value only for an empty reply, otherwise the saturated int64 value cut to 32 bits |
| MpvPlayer.NumberReply | module/mpv_player.cpp:856-860 | getObjectiv writes a value exactly for a number or boxed number, and then as IntReply reads it |
| MpvPlayer.IntReplyOfReplies | module/mpv_player.cpp:476-488 | an int32 number reads as itself, null, undefined and a plain object as 0, true as 1, and 2^64 as -1 after saturation; getObjectiv writes nothing for null or an object |
| MpvPlayer.SourceText | module/mpv_player.cpp:227-231 | with a length, that many bytes; without one, the text up to the first NUL |
| PlayerCallbacks.FirstStop | module/mpv_player.cpp:990-991 | the first pending NONE or SHUTDOWN event, and no earlier one |
| PlayerCallbacks.LogTextsAreLogMessages | module/mpv_player.cpp:992-995 | every log message taken is reported, and nothing else is |
| PlayerCallbacks.AsyncWakeup | module/mpv_player.cpp:985-998 | without a player nothing; otherwise events are taken up to and including the first stop, the rest stay queued, log texts are reported in order, and no command runs |
| PlayerCallbacks.ArgvOf | module/mpv_player.cpp:1319-1329 | the argument vector is one C string per argument followed by NULL |
| PlayerCallbacks.ArgvCarriesTexts | module/mpv_player.cpp:1326-1327 | mpv reads each argument exactly when it has no NUL, and a shorter text otherwise |
| PlayerCallbacks.Command | module/mpv_player.cpp:1305-1335 | throws without a handle, without arguments, or on a non-string argument, running nothing; otherwise runs one command and throws mpv's error on a non-success status |
| MpvNode.NearestDoubleExact | module/mpv_node.cpp:25-27 | an int64 below 2^53 in magnitude becomes a number of the same value |
| MpvNode.ToJs | module/mpv_node.cpp:10-55 | the value is empty exactly for an unknown format, and an error is raised exactly when the tree holds one |
| MpvNode.ToJsElements | module/mpv_node.cpp:29-35 | one element per child, with an error exactly when some child tree has an unknown format |
| MpvNode.ToJsElementsAt | module/mpv_node.cpp:31-33 | element j is the conversion of child j |
| MpvNode.ToJsObject | module/mpv_node.cpp:37-43 | an error is raised exactly when some value tree has an unknown format |
| MpvNode.ToJsObjectDistinct | module/mpv_node.cpp:37-43 | with names distinct, none "__proto__", already in enumeration order, property j is key j decoded as UTF-8 with the conversion of value j |
| MpvNode.ToJsObjectContents | module/mpv_node.cpp:37-43 | with names distinct in any order: no two properties share a name, they enumerate in V8's order, and they are exactly the entries whose name is not "__proto__" |
| MpvNode.ToJsString | module/mpv_node.cpp:18-20 | a STRING reaches the host as well-formed UTF-8, equal to its text exactly when that text is well formed |
| MpvNode.ToJsDouble | module/mpv_node.cpp:15-16 | a DOUBLE reaches the host as a number of the same value, with the same encoding unless it is a NaN |
| MpvNode.BrokenUtf8Replaced | module/mpv_node.cpp:18-20 | the STRING "\xFF" reaches the host as U+FFFD and comes back as EF BF BD |
| MpvNode.NaNCanonicalized | module/mpv_node.cpp:15-16 | a DOUBLE NaN encoded 0x7FF0000000000001 reaches the host, and comes back, as the canonical NaN |
| MpvNode.IndexKeysReordered | module/mpv_node.cpp:37-43 | a map whose first key is an ordinary ASCII name and whose second is an array index becomes an object that enumerates the index first ("b", "1" come out as "1", "b"), each bound to its converted value |
| MpvNode.ProtoKeyDropped | module/mpv_node.cpp:37-43 | a "__proto__" key adds no property, whatever node it is bound to |
| MpvNode.ToNode | module/mpv_node.cpp:65-147 | the node is well formed, and an error is raised exactly when the value holds an unsupported type |
| MpvNode.ToNodeElements | module/mpv_node.cpp:110-122 | one well-formed child per element, with an error exactly for an unsupported element |
| MpvNode.ToNodeElementsAt | module/mpv_node.cpp:120-122 | child j is the conversion of element j |
| MpvNode.ToNodeProperties | module/mpv_node.cpp:123-142 | one C-string key and one well-formed value per property, with an error exactly for an unsupported value |
| MpvNode.ToNodePropertiesAt | module/mpv_node.cpp:134-142 | key j is property j's name copied with a terminator, and value j is its value converted |
| MpvNode.CopyBytes | module/mpv_node.cpp:98-101 | a fresh array holding exactly the bytes |
| MpvNode.CopyTerminated | module/mpv_node.cpp:75-77 | a fresh array holding the text followed by one NUL |
| MpvNode.InitNode | module/mpv_node.cpp:65-147 | init_node builds exactly the node and the errors ToNode gives |
| MpvNode.InitElements | module/mpv_node.cpp:110-122 | the array loop builds exactly ToNodeElements |
| MpvNode.InitProperties | module/mpv_node.cpp:123-142 | the object loop builds exactly ToNodeProperties |
| MpvNode.HostRoundTrip | module/mpv_node.cpp:10-147 | a portable value (numbers in Number::New's encoding, strings of well-formed UTF-8 without NUL, object names well formed, none "__proto__", in enumeration order) converts without error and comes back the same, with undefined turned into null |
| MpvNode.NodeRoundTrip | module/mpv_node.cpp:10-147 | a canonical node (no unknown format; strings and keys well-formed UTF-8; no non-canonical NaN; map keys distinct, none "__proto__", in enumeration order) converts to a host value and back to itself without error |
| MpvNode.NodeRoundTripFlag | module/mpv_node.cpp:12-70 | a FLAG of 0 or 1 becomes false or true and comes back as the same FLAG |
| MpvNode.NodeRoundTripDouble | module/mpv_node.cpp:15-86 | a DOUBLE that is neither an int32 value nor a non-canonical NaN becomes a number and comes back as the same DOUBLE |
| MpvNode.NodeRoundTripString | module/mpv_node.cpp:18-80 | a STRING of well-formed UTF-8 with no NUL before its terminator becomes a string and comes back as the same terminated bytes |
| MpvNode.NodeRoundTripInt64 | module/mpv_node.cpp:25-83 | an INT64 in the int32 range becomes a number and comes back as the same INT64 |
| MpvNode.NodeRoundTripBytes | module/mpv_node.cpp:45-101 | a BYTE_ARRAY becomes an ArrayBuffer and comes back with the same bytes |
| MpvNode.NodeRoundTripMap | module/mpv_node.cpp:37-43 | the entries of a canonical map (distinct keys, none "__proto__", in enumeration order) come back in order with the same keys |
| MpvNode.ValidAfterConversion | module/mpv_node.h:14 | valid() fails exactly for empty, null, undefined, a throwing boxed string, a view without a buffer and a symbol; a symbol raises the one error |
| NodeRelease.FreeNodeAsWritten | module/mpv_node.cpp:149-180 | free_node as written evaluates exactly the deletes FreeAsWritten lists |
| NodeRelease.FreeListAsWritten | module/mpv_node.cpp:157-168 | the outer loop runs its whole body once per entry |
| NodeRelease.FreeListPassAsWritten | module/mpv_node.cpp:158-167 | one pass deletes keys, key array, children and value array |
| NodeRelease.FreeNode | module/mpv_node.cpp:149-180 | corrected free_node evaluates exactly the deletes Free lists |
| NodeRelease.FreeChildren | module/mpv_node.cpp:164-166 | the child loop frees each child in order |
| NodeRelease.FreeReleasesAllocations | module/mpv_node.cpp:65-180 | corrected free_node releases exactly the blocks init_node allocated, each with the matching delete form |
| NodeRelease.AllocationsOnce | module/mpv_node.cpp:65-147 | init_node allocates each block at most once, all under the node's own path |
| NodeRelease.FreeReleasesEachOnce | module/mpv_node.cpp:149-180 | corrected free_node releases every allocated block exactly once, and nothing else |
| NodeRelease.StringValueDeletedOnce | module/mpv_node.cpp:164-166 | corrected, the first child's string is deleted once |
| NodeRelease.ListReleasedNumTimes | module/mpv_node.cpp:157-168 | as written, a list's value array is deleted once per entry, and so is every child's release |
| NodeRelease.StringValueDeletedTwice | module/mpv_node.cpp:157-168 | as written, with two or more entries, a string child's buffer is deleted at least twice |
| NodeRelease.EmptyListLeaks | module/mpv_node.cpp:157-169 | as written, an empty list deletes only its header and leaks its value array (and key array) |
| NodeRelease.KeyArrayWrongForm | module/mpv_node.cpp:162 | as written, the key array from `new char*[num]` is released with scalar `delete` |

## Left out

- The constructor of MpvPlayer and MpvPlayerImpl's destructor, `MpvPlayer::New`, `Create`,
  the draw and resize paths, property get/set/observe, and the `web_gl*` forwarding stubs.
  Each stub only calls the singleton's method of the same name, so the stubs are covered by
  the class methods and by `GlFuncMap`.
- Threads, libuv, the isolate and persistent handles. The singleton `_singleton` is passed
  to `AsyncWakeup` as a parameter.
- Floating-point arithmetic. `GLfloat` arguments are opaque 32-bit payloads. Doubles that are
  not integers are their binary64 bit patterns, which ToNumber and ToString decode.
- DEBUG output, the standard-error message of `get_proc_address`, and the text
  `mpv_error_string` gives for a status. The outcome carries the status code instead.
- The rendering context's behaviour. The oracle `host` gives every reply, and `resolve` gives
  every method `get_method` finds.
- MpvPlayer.MpvPlayerImpl.NewId: the counter is unbounded. The source's `GLuint _last_id`
  wraps to 0 after 2^32 handles, which the model does not reach.
- GlSpec.ErrorCode: an empty getError or checkFramebufferStatus reply has no code. The source
  dereferences the empty handle and crashes; the model goes on, so MpvPlayer.MpvPlayerImpl.GetError
  and MpvPlayer.MpvPlayerImpl.CheckFramebufferStatus return None and GlSpec.DeleteEach keeps the handle.
- MpvPlayer.MpvPlayerImpl.GetObjectiv: one method stands for glGetProgramiv and glGetShaderiv.
  The caller passes the WebGL method name and the registry kind.
- MpvPlayer.MpvPlayerImpl.GetObjectInfoLog: one method stands for glGetProgramInfoLog and
  glGetShaderInfoLog. For an empty reply or a Symbol, ToString leaves an empty handle that
  the source dereferences; the model copies an empty text instead.
- MpvPlayer.MpvPlayerImpl.UniformMatrix: one method, given the dimension, stands for
  glUniformMatrix2fv and glUniformMatrix3fv.
- PlayerCallbacks.AsyncWakeup: requires an mpv handle once a player exists. The source would
  dereference a null handle there.
- A call on the context without a rendering context. Every GL entry point requires `Ready()`,
  which includes `hasContext`. Only `WebGlMethod` models the missing context.
- MpvNode.NodeRoundTrip: proved for canonical nodes only. Outside them the round trip changes
  the node, as BrokenUtf8Replaced, NaNCanonicalized, IndexKeysReordered and ProtoKeyDropped
  show; the same restrictions hold for NodeRoundTripMap, NodeRoundTripString and
  NodeRoundTripDouble.
- MpvNode.HostRoundTrip: proved for portable values only. An own "__proto__" property, names
  out of enumeration order and non-canonical NaNs do not come back unchanged.
- JsConversions.NumberText: Number::toString is defined after ECMA-262 (shortest digits that
  read back as the same double, at most 17), but no round trip with StringToNumber is proved.
- Host strings hold the UTF-8 bytes String::Utf8Value gives, so a lone surrogate in a host
  string is already U+FFFD. String arguments passed to the context are recorded as the bytes
  handed to String::NewFromUtf8, before its repair.
- GlPixels.TexBuffers: `width * height` is taken exactly. Where the product of the two
  GLsizei leaves the int range, the source's signed overflow is undefined behaviour, which
  the model does not follow. The conversion to size_t that follows is modelled.
- MpvPlayer.MpvPlayerImpl.ReadPixels: the same for its view length.
- MpvNode.ToJs: a child of unknown format inside an array or map becomes an `Empty` element or
  property value, and the conversion goes on. The source raises the same error, then hands
  the empty handle to Object::Set, which V8 dereferences; that crash is not modelled.
- MpvNode.ToJsElementsAt: element j is ToJs of child j even when that is `Empty`, for the
  reason above; MpvNode.ToJsObject likewise stores an `Empty` property value.
- The caller's memory behind pixel, buffer and matrix pointers. It is an address; the views
  record address and length.

## Findings

| source | as written | input that shows it | evidently intended | confidence | as-written member | corrected member |
|---|---|---|---|---|---|---|
| module/mpv_node.cpp:157-168 | the whole list body, including freeing every child and the value array, runs once per entry | a NODE_ARRAY holding two strings: the first string's buffer is deleted twice | each list's keys, children and arrays are released once | not executed | NodeRelease.StringValueDeletedTwice | NodeRelease.FreeReleasesEachOnce |
| module/mpv_node.cpp:162 | the key array from `new char*[num]` is released with `delete` | a NODE_MAP with one entry | `delete[]` on the key array | not executed | NodeRelease.KeyArrayWrongForm | NodeRelease.FreeReleasesAllocations |
| module/mpv_node.cpp:157-169 | a list with no entries never enters the loop, so its value array (and key array) is never deleted | an empty NODE_MAP | the arrays are released for every list | not executed | NodeRelease.EmptyListLeaks | NodeRelease.FreeReleasesEachOnce |
| module/mpv_player.cpp:884-888 | the terminator is written at `written + 1` and the length reported is `written + 1` | maxLength 4 and a 6-byte ASCII log: 3 bytes copied, the terminator at index 4 (outside the 4-byte buffer), length 4 reported | terminator at `written`, length `written` | not executed | GlCalls.InfoLogOffByOne | MpvPlayer.MpvPlayerImpl.GetObjectInfoLog |
| module/mpv_player.cpp:714 | glDeleteFramebuffers calls `deleteBuffer` | deleting any framebuffer the registry holds | `deleteFramebuffer` | not executed | GlCalls.FramebuffersDeletedAsBuffers | MpvPlayer.MpvPlayerImpl.DeleteFramebuffers |
| module/mpv_player.cpp:628 | glUniform3f calls `uniform3d` | glUniform3f on any known location | `uniform3f` | not executed | GlCalls.Uniform3dIsNoSetter | MpvPlayer.MpvPlayerImpl.Uniform3f |
| module/mpv_player.cpp:910-913 | both matrix uploads call `uniformMatrix2fv` with a view of `count` floats | glUniformMatrix3fv with count 1: the 2x2 setter gets 1 float | the setter for the dimension, with count*dim*dim floats | not executed | GlCalls.UniformMatrixAsWrittenDiffers | MpvPlayer.MpvPlayerImpl.UniformMatrix |
| module/mpv_player.cpp:585-593 | `target` is passed in the level slot | glTexImage2D(GL_TEXTURE_2D, level 0, ...): the upload is for level 3553 | the caller's level | not executed | GlCalls.TexImage2DLevelLost | MpvPlayer.MpvPlayerImpl.TexImage2D |
| module/mpv_player.cpp:291-293 | glBufferData passes the size as the data and the ArrayBuffer as the usage, plus a fifth argument | glBufferData(GL_ARRAY_BUFFER, 16, data, GL_STATIC_DRAW): WebGL gets a number as data and nothing is uploaded | bufferData(target, data, usage) | not executed | GlCalls.BufferDataSizeAsData | MpvPlayer.MpvPlayerImpl.BufferData |
| module/mpv_player.cpp:308-310 | the size is passed as the destination offset, and the offset is dropped | glBufferSubData(target, 16, 8, data): data lands at byte 8 | the caller's offset | not executed | GlCalls.BufferSubDataOffsetLost | MpvPlayer.MpvPlayerImpl.BufferSubData |
| module/mpv_player.cpp:747 | `pname` is passed twice and the attachment is dropped | attachment 0x8CE0 (COLOR_ATTACHMENT0) with pname 0x8CD0 | (target, attachment, pname) | not executed | GlCalls.AttachmentLost | MpvPlayer.MpvPlayerImpl.GetFramebufferAttachmentParameteriv |
