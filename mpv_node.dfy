/** mpv's variant tree (mpv_node) and its conversions to and from host values
    (module/mpv_node.cpp: mpv_node_to_v8_value, AutoMpvNode::init_node, valid()). */
module MpvNode {
  import opened Wrappers
  import opened Bytes
  import Js = JsValues
  import Conv = JsConversions

  /** mpv_format codes of the formats a node can carry. */
  const FormatNoneCode: int := 0
  const FormatStringCode: int := 1
  const FormatFlagCode: int := 3
  const FormatInt64Code: int := 4
  const FormatDoubleCode: int := 5
  const FormatNodeArrayCode: int := 7
  const FormatNodeMapCode: int := 8
  const FormatByteArrayCode: int := 9

  const Int64Min: int := -0x8000_0000_0000_0000
  const Int64Max: int := 0x7FFF_FFFF_FFFF_FFFF

  /** An mpv_node. A STRING holds its char buffer including the terminating NUL; a list holds
      `num` = |values| children (keys == nullptr for NODE_ARRAY, `num` key buffers for
      NODE_MAP); any other format code (OSD_STRING, NODE, garbage) is `OtherFormat`. */
  datatype Node =
    | FormatNone
    | Flag(flag: int)
    | Int64(int64: int)
    | Double(double: Js.Float64)
    | String(chars: seq<byte>)
    | ByteArray(data: seq<byte>)
    | NodeArray(values: seq<Node>)
    | NodeMap(keys: seq<seq<byte>>, values: seq<Node>)
    | OtherFormat(format: int)

  /** The node's mpv_format code. */
  function Format(n: Node): int {
    match n
    case FormatNone => FormatNoneCode
    case Flag(_) => FormatFlagCode
    case Int64(_) => FormatInt64Code
    case Double(_) => FormatDoubleCode
    case String(_) => FormatStringCode
    case ByteArray(_) => FormatByteArrayCode
    case NodeArray(_) => FormatNodeArrayCode
    case NodeMap(_, _) => FormatNodeMapCode
    case OtherFormat(f) => f
  }

  /** The shape mpv guarantees of the nodes it hands out: int64 in range, C strings
      terminated, a map's key and value arrays of the same length `num`, and an unknown
      format code really being none of the known ones. */
  predicate WellFormed(n: Node) {
    match n
    case Int64(i) => Int64Min <= i <= Int64Max
    case String(chars) => IsCString(chars)
    case NodeArray(values) => forall j :: 0 <= j < |values| ==> WellFormed(values[j])
    case NodeMap(keys, values) =>
      |keys| == |values| &&
      (forall j :: 0 <= j < |keys| ==> IsCString(keys[j])) &&
      (forall j :: 0 <= j < |values| ==> WellFormed(values[j]))
    case OtherFormat(f) =>
      f !in {FormatNoneCode, FormatStringCode, FormatFlagCode, FormatInt64Code,
             FormatDoubleCode, FormatNodeArrayCode, FormatNodeMapCode, FormatByteArrayCode}
    case _ => true
  }

  /** AutoMpvNode::valid(): the node's format is not MPV_FORMAT_NONE. */
  predicate Valid(n: Node) {
    Format(n) != FormatNoneCode
  }

  datatype ConversionError =
    | UnexpectedFormat(format: int)   // "while converting mpv_node to v8 object: unexpected format"
    | UnexpectedValueType             // "while converting v8 value to mpv_node: unexpected value type"

  /** A converted value together with the exceptions raised on the host while converting,
      in the order they were raised; the conversion itself never stops early. */
  datatype Converted<T> = Converted(value: T, errors: seq<ConversionError>)

  /*************************************************************************************
   * Numbers: Number::New(isolate, int64) rounds to the nearest double
   *************************************************************************************/

  const TwoTo53: int := 0x20_0000_0000_0000

  /** The distance between neighbouring doubles of magnitude `m`. */
  function Ulp(m: nat): (u: nat)
    ensures u >= 1
  {
    if m < TwoTo53 then 1 else 2 * Ulp(m / 2)
  }

  /** Round-to-nearest, ties-to-even, of a magnitude to the doubles. */
  function RoundMagnitude(m: nat): nat {
    var u := Ulp(m);
    var q := m / u;
    var r := m % u;
    if 2 * r < u || (2 * r == u && q % 2 == 0) then q * u else (q + 1) * u
  }

  /** The integer value of the double an int64 converts to. */
  function NearestDouble(i: int): int {
    if i >= 0 then RoundMagnitude(i) else -(RoundMagnitude(-i) as int)
  }

  /** Integers of magnitude below 2^53, in particular all int32 values, convert exactly. */
  lemma NearestDoubleExact(i: int)
    requires -TwoTo53 < i < TwoTo53
    ensures NearestDouble(i) == i
  {
  }

  /*************************************************************************************
   * mpv_node -> host value (mpv_node_to_v8_value)
   *************************************************************************************/

  /** True when some node of the tree has a format the conversion does not support. */
  predicate HasOtherFormat(n: Node)
    decreases n, 1
  {
    match n
    case OtherFormat(_) => true
    case NodeArray(values) => AnyOtherFormat(values)
    case NodeMap(_, values) => AnyOtherFormat(values)
    case _ => false
  }

  /** True when some node of some tree in the list has an unsupported format. */
  predicate AnyOtherFormat(values: seq<Node>)
    decreases values, 0
  {
    values != [] && (AnyOtherFormat(values[..|values| - 1]) || HasOtherFormat(values[|values| - 1]))
  }

  /** mpv_node_to_v8_value. An unsupported format raises an error and yields an empty value;
      an error is raised exactly when the tree holds such a node. Inside an array or map the
      empty value is stored as the element or property, where the source passes the empty
      handle on to Object::Set. */
  function ToJs(n: Node): (r: Converted<Js.Value>)
    requires WellFormed(n)
    ensures r.value.Empty? <==> n.OtherFormat?
    ensures r.errors == [] <==> !HasOtherFormat(n)
    decreases n, 1
  {
    match n
    case Flag(f) => Converted(Js.Boolean(f != 0), [])
    case Double(d) => Converted(Js.Number(Conv.NewNumber(d)), [])
    case String(chars) => Converted(Js.String(Conv.NewFromUtf8(CString(chars))), [])
    case FormatNone => Converted(Js.Null, [])
    case Int64(i) => Converted(Js.Number(Js.Integer(NearestDouble(i))), [])
    case NodeArray(values) =>
      var c := ToJsElements(values);
      Converted(Js.Array(c.value), c.errors)
    case NodeMap(keys, values) =>
      var c := ToJsObject(keys, values);
      Converted(Js.Object(c.value), c.errors)
    case ByteArray(data) => Converted(Js.ArrayBuffer(data), [])
    case OtherFormat(f) => Converted(Js.Empty, [UnexpectedFormat(f)])
  }

  /** The elements of a converted NODE_ARRAY, element j converted from values[j]. */
  function ToJsElements(values: seq<Node>): (r: Converted<seq<Js.Value>>)
    requires forall j :: 0 <= j < |values| ==> WellFormed(values[j])
    ensures |r.value| == |values|
    ensures r.errors == [] <==> !AnyOtherFormat(values)
    decreases values, 0
  {
    if values == [] then Converted([], [])
    else
      var front := ToJsElements(values[..|values| - 1]);
      var last := ToJs(values[|values| - 1]);
      Converted(front.value + [last.value], front.errors + last.errors)
  }

  /** The property name String::NewFromUtf8 makes of a C key buffer. */
  function KeyName(mem: seq<byte>): seq<byte>
    requires IsCString(mem)
  {
    Conv.NewFromUtf8(CString(mem))
  }

  /** The property names of a NODE_MAP's keys, in order. */
  function KeyNames(keys: seq<seq<byte>>): (names: seq<seq<byte>>)
    requires forall j :: 0 <= j < |keys| ==> IsCString(keys[j])
    ensures |names| == |keys| && forall j :: 0 <= j < |keys| ==> names[j] == KeyName(keys[j])
  {
    seq(|keys|, j requires 0 <= j < |keys| => KeyName(keys[j]))
  }

  /** The properties of a converted NODE_MAP: Object::Set of key j (read as a C string and
      decoded as UTF-8) to converted values[j], for j in order. */
  function ToJsObject(keys: seq<seq<byte>>, values: seq<Node>): (r: Converted<seq<Js.Property>>)
    requires |keys| == |values|
    requires forall j :: 0 <= j < |keys| ==> IsCString(keys[j])
    requires forall j :: 0 <= j < |values| ==> WellFormed(values[j])
    ensures r.errors == [] <==> !AnyOtherFormat(values)
    decreases values, 0
  {
    if values == [] then Converted([], [])
    else
      var k := |values| - 1;
      assert forall j :: 0 <= j < k ==> keys[..k][j] == keys[j] && values[..k][j] == values[j];
      var front := ToJsObject(keys[..k], values[..k]);
      assert IsCString(keys[k]);
      var last := ToJs(values[k]);
      Converted(Js.SetProperty(front.value, KeyName(keys[k]), last.value), front.errors + last.errors)
  }

  /*************************************************************************************
   * host value -> mpv_node (AutoMpvNode::init_node)
   *************************************************************************************/

  /** Value::BooleanValue(): the boolean itself, and true for every object (a boxed false too). */
  function BooleanValue(v: Js.Value): bool
    requires v.Boolean? || v.BooleanObject?
  {
    if v.Boolean? then v.b else true
  }

  /** String::Utf8Value: the UTF-8 bytes, or no buffer when the conversion throws. */
  function Utf8Value(v: Js.Value): Option<seq<byte>>
    requires v.String? || v.StringObject?
  {
    if v.String? then Some(v.utf8) else v.converted
  }

  /** Value::NumberValue(). */
  function NumberValue(v: Js.Value): Js.Float64
    requires v.Number? || v.NumberObject?
  {
    if v.Number? then v.n else v.boxedNumber
  }

  /** True when some value of the tree has a type the conversion does not support. */
  predicate HasUnsupportedType(v: Js.Value)
    decreases v, 1
  {
    match v
    case Symbol(_) => true
    case Array(es) => AnyUnsupportedType(es)
    case Object(ps) => AnyUnsupportedProperty(ps)
    case _ => false
  }

  /** True when some value of some tree in the list has an unsupported type. */
  predicate AnyUnsupportedType(es: seq<Js.Value>)
    decreases es, 0
  {
    es != [] && (AnyUnsupportedType(es[..|es| - 1]) || HasUnsupportedType(es[|es| - 1]))
  }

  /** True when some property value of the list has an unsupported type somewhere. */
  predicate AnyUnsupportedProperty(ps: seq<Js.Property>)
    decreases ps, 0
  {
    ps != [] && (AnyUnsupportedProperty(ps[..|ps| - 1]) || HasUnsupportedType(ps[|ps| - 1].value))
  }

  /** AutoMpvNode::init_node. The type checks run in the source's order and the first match
      wins (so a boxed boolean or a typed array never reaches the generic object case, and an
      array is checked before it); an unsupported type raises an error and gives NONE. */
  function ToNode(v: Js.Value): (r: Converted<Node>)
    ensures WellFormed(r.value)
    ensures r.errors == [] <==> !HasUnsupportedType(v)
    decreases v, 1
  {
    if v.Empty? || v.Null? || v.Undefined? then Converted(FormatNone, [])
    else if v.Boolean? || v.BooleanObject? then
      Converted(Flag(if BooleanValue(v) then 1 else 0), [])
    else if v.String? || v.StringObject? then
      match Utf8Value(v)
      case Some(u) => Converted(String(Terminated(u)), [])
      case None => Converted(FormatNone, [])
    else if Js.IsInt32(v) then Converted(Int64(v.n.i), [])
    else if v.Number? || v.NumberObject? then Converted(Double(NumberValue(v)), [])
    else if v.ArrayBuffer? || v.ArrayBufferView? then
      var buf := if v.ArrayBufferView? then v.buffer else Some(v.bytes);
      if buf.None? then Converted(FormatNone, []) else Converted(ByteArray(buf.value), [])
    else if v.SharedArrayBuffer? then Converted(ByteArray(v.shared), [])
    else if v.Array? then
      var c := ToNodeElements(v.elements);
      Converted(NodeArray(c.value), c.errors)
    else if Js.IsObject(v) then
      var c := ToNodeProperties(v.properties);
      Converted(NodeMap(c.value.0, c.value.1), c.errors)
    else Converted(FormatNone, [UnexpectedValueType])
  }

  /** The children of a converted array, values[j] converted from element j. */
  function ToNodeElements(es: seq<Js.Value>): (r: Converted<seq<Node>>)
    ensures |r.value| == |es|
    ensures forall j :: 0 <= j < |es| ==> WellFormed(r.value[j])
    ensures r.errors == [] <==> !AnyUnsupportedType(es)
    decreases es, 0
  {
    if es == [] then Converted([], [])
    else
      var k := |es| - 1;
      var front := ToNodeElements(es[..k]);
      var last := ToNode(es[k]);
      Converted(front.value + [last.value], front.errors + last.errors)
  }

  /** The key and value arrays of a converted object: keys[j] a terminated copy of the j-th
      own property name, values[j] its converted value. */
  function ToNodeProperties(ps: seq<Js.Property>): (r: Converted<(seq<seq<byte>>, seq<Node>)>)
    ensures |r.value.0| == |ps| == |r.value.1|
    ensures forall j :: 0 <= j < |ps| ==> IsCString(r.value.0[j])
    ensures forall j :: 0 <= j < |ps| ==> WellFormed(r.value.1[j])
    ensures r.errors == [] <==> !AnyUnsupportedProperty(ps)
    decreases ps, 0
  {
    if ps == [] then Converted(([], []), [])
    else
      var k := |ps| - 1;
      var front := ToNodeProperties(ps[..k]);
      var last := ToNode(ps[k].value);
      Converted((front.value.0 + [Terminated(ps[k].key)], front.value.1 + [last.value]),
                front.errors + last.errors)
  }

  /*************************************************************************************
   * init_node, step by step
   *************************************************************************************/

  /** `new uint8_t[len]` followed by memcpy of the bytes. */
  method CopyBytes(data: seq<byte>) returns (buf: array<byte>)
    ensures fresh(buf) && buf[..] == data
  {
    buf := new byte[|data|];
    forall k | 0 <= k < |data| {
      buf[k] := data[k];
    }
  }

  /** `new char[len + 1]`, memcpy of the text, and the terminating NUL at index len. */
  method CopyTerminated(s: seq<byte>) returns (buf: array<byte>)
    ensures fresh(buf) && buf[..] == Terminated(s)
  {
    buf := new byte[|s| + 1];
    forall k | 0 <= k < |s| {
      buf[k] := s[k];
    }
    buf[|s|] := 0;
  }

  /** AutoMpvNode::init_node as the source runs it: the type tests in order, buffers copied,
      and for arrays and objects a `values` array (and a `keys` array) of `num` entries filled
      by a loop that converts one entry per iteration. It builds exactly ToNode(v). */
  method InitNode(v: Js.Value) returns (node: Node, errors: seq<ConversionError>)
    ensures Converted(node, errors) == ToNode(v)
    decreases v, 2
  {
    if v.Empty? || v.Null? || v.Undefined? {
      return FormatNone, [];
    } else if v.Boolean? || v.BooleanObject? {
      return Flag(if BooleanValue(v) then 1 else 0), [];
    } else if v.String? || v.StringObject? {
      var val := Utf8Value(v);
      if val.None? {
        return FormatNone, [];
      }
      var chars := CopyTerminated(val.value);
      return String(chars[..]), [];
    } else if Js.IsInt32(v) {
      return Int64(v.n.i), [];
    } else if v.Number? || v.NumberObject? {
      return Double(NumberValue(v)), [];
    } else if v.ArrayBuffer? || v.ArrayBufferView? {
      var buf := if v.ArrayBufferView? then v.buffer else Some(v.bytes);
      if buf.None? {
        return FormatNone, [];
      }
      var data := CopyBytes(buf.value);
      return ByteArray(data[..]), [];
    } else if v.SharedArrayBuffer? {
      var data := CopyBytes(v.shared);
      return ByteArray(data[..]), [];
    } else if v.Array? {
      var values;
      values, errors := InitElements(v.elements);
      node := NodeArray(values);
    } else if Js.IsObject(v) {
      var keys, values;
      keys, values, errors := InitProperties(v.properties);
      node := NodeMap(keys, values);
    } else {
      return FormatNone, [UnexpectedValueType];
    }
  }

  /** The NODE_ARRAY loop of init_node: `values = new mpv_node[num]`, then values[j]
      converted from element j, for j in order. */
  method InitElements(es: seq<Js.Value>) returns (values: seq<Node>, errors: seq<ConversionError>)
    ensures Converted(values, errors) == ToNodeElements(es)
    decreases es, 1
  {
    var buf := new Node[|es|];
    errors := [];
    for j := 0 to |es|
      invariant buf[..j] == ToNodeElements(es[..j]).value
      invariant errors == ToNodeElements(es[..j]).errors
    {
      var child, childErrors := InitNode(es[j]);
      buf[j] := child;
      errors := errors + childErrors;
      assert es[..j + 1][..j] == es[..j];
    }
    assert es[..|es|] == es && buf[..|es|] == buf[..];
    values := buf[..];
  }

  /** The NODE_MAP loop of init_node: `keys = new char*[num]` and `values = new
      mpv_node[num]`, then keys[j] a terminated copy of the j-th own property name and
      values[j] its converted value, for j in order. */
  method InitProperties(ps: seq<Js.Property>)
    returns (keys: seq<seq<byte>>, values: seq<Node>, errors: seq<ConversionError>)
    ensures Converted((keys, values), errors) == ToNodeProperties(ps)
    decreases ps, 1
  {
    var keyBuf := new seq<byte>[|ps|];
    var valueBuf := new Node[|ps|];
    errors := [];
    for j := 0 to |ps|
      invariant Converted((keyBuf[..j], valueBuf[..j]), errors) == ToNodeProperties(ps[..j])
    {
      errors := InitProperty(ps, j, keyBuf, valueBuf, errors);
    }
    assert ps[..|ps|] == ps && keyBuf[..|ps|] == keyBuf[..] && valueBuf[..|ps|] == valueBuf[..];
    keys, values := keyBuf[..], valueBuf[..];
  }

  /** One pass of the NODE_MAP loop of init_node: keys[j] becomes a terminated copy of the
      j-th property name and values[j] its converted value. */
  method InitProperty(ps: seq<Js.Property>, j: nat, keyBuf: array<seq<byte>>, valueBuf: array<Node>,
                      errors: seq<ConversionError>) returns (errors': seq<ConversionError>)
    requires j < |ps| == keyBuf.Length == valueBuf.Length
    requires Converted((keyBuf[..j], valueBuf[..j]), errors) == ToNodeProperties(ps[..j])
    modifies keyBuf, valueBuf
    ensures Converted((keyBuf[..j + 1], valueBuf[..j + 1]), errors') == ToNodeProperties(ps[..j + 1])
    decreases ps, 0
  {
    var name := CopyTerminated(ps[j].key);
    var child, childErrors := InitNode(ps[j].value);
    ToNodePropertiesStep(ps, j, keyBuf[..j], valueBuf[..j], errors, child, childErrors);
    keyBuf[j] := name[..];
    valueBuf[j] := child;
    errors' := errors + childErrors;
    assert keyBuf[..j + 1] == old(keyBuf[..j]) + [name[..]];
    assert valueBuf[..j + 1] == old(valueBuf[..j]) + [child];
  }

  /*************************************************************************************
   * Shape of the converted lists
   *************************************************************************************/

  /** NODE_ARRAY to host: element j of the array is values[j] converted. */
  lemma {:induction false} ToJsElementsAt(values: seq<Node>, j: nat)
    requires forall i :: 0 <= i < |values| ==> WellFormed(values[i])
    requires j < |values|
    ensures ToJsElements(values).value[j] == ToJs(values[j]).value
    decreases |values|
  {
    var k := |values| - 1;
    assert forall i :: 0 <= i < k ==> values[..k][i] == values[i];
    if j < k {
      ToJsElementsAt(values[..k], j);
    }
  }

  /** NODE_MAP to host, when the keys read as distinct names, none "__proto__", already in
      the order V8 enumerates them: the object's properties are exactly name j with
      converted values[j], in order. */
  lemma {:induction false} ToJsObjectDistinct(keys: seq<seq<byte>>, values: seq<Node>)
    requires DistinctEntries(keys, values)
    ensures var props := ToJsObject(keys, values).value;
      |props| == |values| &&
      forall j :: 0 <= j < |values| ==> props[j] == Js.Property(KeyName(keys[j]), ToJs(values[j]).value)
    decreases |values|, 2
  {
    if values != [] {
      var k := |values| - 1;
      DistinctEntriesPrefix(keys, values);
      ToJsObjectDistinct(keys[..k], values[..k]);
      ToJsObjectSnoc(keys, values);
      PropertiesExtend(ToJsObject(keys, values).value, ToJsObject(keys[..k], values[..k]).value, keys, values);
    }
  }

  /** Extending the properties of the first |values| - 1 entries, one per entry, by the
      property of the last entry gives one property per entry. */
  lemma PropertiesExtend(props: seq<Js.Property>, front: seq<Js.Property>, keys: seq<seq<byte>>, values: seq<Node>)
    requires |keys| == |values| == |front| + 1
    requires forall j :: 0 <= j < |keys| ==> IsCString(keys[j])
    requires forall j :: 0 <= j < |values| ==> WellFormed(values[j])
    requires var k := |front|;
      forall j :: 0 <= j < k ==> front[j] == Js.Property(KeyName(keys[..k][j]), ToJs(values[..k][j]).value)
    requires props == front + [Js.Property(KeyName(keys[|front|]), ToJs(values[|front|]).value)]
    ensures |props| == |values| &&
      forall j :: 0 <= j < |values| ==> props[j] == Js.Property(KeyName(keys[j]), ToJs(values[j]).value)
  {
    var k := |front|;
    assert forall j :: 0 <= j < k ==> keys[..k][j] == keys[j] && values[..k][j] == values[j];
  }

  /** Host array to node: a NODE_ARRAY with num = the array's length, no keys, and
      values[j] converted from element j. */
  lemma {:induction false} ToNodeElementsAt(es: seq<Js.Value>, j: nat)
    requires j < |es|
    ensures ToNodeElements(es).value[j] == ToNode(es[j]).value
    decreases |es|
  {
    var k := |es| - 1;
    assert forall i :: 0 <= i < k ==> es[..k][i] == es[i];
    if j < k {
      ToNodeElementsAt(es[..k], j);
    }
  }

  /** Host object to node: a NODE_MAP with num = the number of own properties, keys[j] a
      NUL-terminated copy of the j-th property name and values[j] its converted value. */
  lemma {:induction false} ToNodePropertiesAt(ps: seq<Js.Property>, j: nat)
    requires j < |ps|
    ensures ToNodeProperties(ps).value.0[j] == Terminated(ps[j].key)
    ensures ToNodeProperties(ps).value.1[j] == ToNode(ps[j].value).value
    decreases |ps|
  {
    var k := |ps| - 1;
    assert forall i :: 0 <= i < k ==> ps[..k][i] == ps[i];
    if j < k {
      ToNodePropertiesAt(ps[..k], j);
    }
  }

  /*************************************************************************************
   * Round trips
   *************************************************************************************/

  /** Host values that survive init_node followed by mpv_node_to_v8_value: null, undefined,
      booleans, numbers other than a NaN with a non-canonical encoding, well-formed UTF-8
      strings without an embedded NUL, ArrayBuffers, and arrays and plain objects of those
      whose keys are such strings, none "__proto__", in V8's enumeration order. */
  predicate Portable(v: Js.Value) {
    match v
    case Undefined => true
    case Null => true
    case Boolean(_) => true
    case Number(d) => Conv.NewNumber(d) == d
    case String(u) => NulFree(u) && Conv.WellFormedUtf8(u)
    case ArrayBuffer(_) => true
    case Array(es) => forall j :: 0 <= j < |es| ==> Portable(es[j])
    case Object(ps) =>
      Js.DistinctKeys(ps) && CanonicalNames(Js.Keys(ps)) &&
      forall j :: 0 <= j < |ps| ==> NulFree(ps[j].key) && Portable(ps[j].value)
    case _ => false
  }

  /** Property names that an object built by Object::Set keeps as given, in the given order:
      well-formed UTF-8, none "__proto__", in V8's enumeration order. */
  predicate CanonicalNames(names: seq<seq<byte>>) {
    (forall j :: 0 <= j < |names| ==> Conv.WellFormedUtf8(names[j]) && names[j] != Js.ProtoKey) &&
    Js.InEnumerationOrder(names)
  }

  lemma CanonicalNamesPrefix(names: seq<seq<byte>>, k: nat)
    requires CanonicalNames(names) && k <= |names|
    ensures CanonicalNames(names[..k])
  {
    assert forall j :: 0 <= j < k ==> names[..k][j] == names[j];
  }

  /** The value with every undefined replaced by null. */
  function UndefinedAsNull(v: Js.Value): Js.Value
    decreases v, 1
  {
    match v
    case Undefined => Js.Null
    case Array(es) => Js.Array(UndefinedAsNullElements(es))
    case Object(ps) => Js.Object(UndefinedAsNullProperties(ps))
    case _ => v
  }

  function UndefinedAsNullElements(es: seq<Js.Value>): seq<Js.Value>
    decreases es, 0
  {
    if es == [] then []
    else UndefinedAsNullElements(es[..|es| - 1]) + [UndefinedAsNull(es[|es| - 1])]
  }

  function UndefinedAsNullProperties(ps: seq<Js.Property>): seq<Js.Property>
    decreases ps, 0
  {
    if ps == [] then []
    else
      var p := ps[|ps| - 1];
      UndefinedAsNullProperties(ps[..|ps| - 1]) + [Js.Property(p.key, UndefinedAsNull(p.value))]
  }

  /** Replacing undefined by null leaves the property names alone. */
  lemma {:induction false} UndefinedAsNullKeys(ps: seq<Js.Property>)
    ensures |UndefinedAsNullProperties(ps)| == |ps|
    ensures forall j :: 0 <= j < |ps| ==> UndefinedAsNullProperties(ps)[j].key == ps[j].key
  {
    if ps != [] {
      UndefinedAsNullKeys(ps[..|ps| - 1]);
    }
  }

  /** Host -> node -> host gives back the same value, except that undefined comes back as
      null, and raises no error. */
  lemma {:induction false} HostRoundTrip(v: Js.Value)
    requires Portable(v)
    ensures ToNode(v).errors == []
    ensures ToJs(ToNode(v).value) == Converted(UndefinedAsNull(v), [])
    decreases v, 1
  {
    match v
    case String(u) =>
      CStringOfTerminated(u);
      Conv.NewFromUtf8KeepsWellFormed(u);
    case Number(d) =>
      if Js.IsInt32(v) {
        NearestDoubleExact(d.i);
      }
    case Array(es) => HostRoundTripElements(es);
    case Object(ps) => HostRoundTripProperties(ps);
    case _ =>
  }

  /** The array case of HostRoundTrip, element by element. */
  lemma {:induction false} HostRoundTripElements(es: seq<Js.Value>)
    requires forall j :: 0 <= j < |es| ==> Portable(es[j])
    ensures !AnyUnsupportedType(es)
    ensures !AnyOtherFormat(ToNodeElements(es).value)
    ensures ToJsElements(ToNodeElements(es).value).value == UndefinedAsNullElements(es)
    decreases es, 0
  {
    if es != [] {
      var k := |es| - 1;
      var front := es[..k];
      assert forall j :: 0 <= j < k ==> front[j] == es[j];
      HostRoundTripElements(front);
      var last := es[k];
      assert Portable(last);
      HostRoundTrip(last);
      HostRoundTripSnoc(es);
    }
  }

  /** HostRoundTripElements for a list, given it for all elements but the last and
      HostRoundTrip for the last. */
  lemma HostRoundTripSnoc(es: seq<Js.Value>)
    requires es != []
    requires var front := es[..|es| - 1];
      !AnyUnsupportedType(front) && !AnyOtherFormat(ToNodeElements(front).value) &&
      ToJsElements(ToNodeElements(front).value).value == UndefinedAsNullElements(front)
    requires ToNode(es[|es| - 1]).errors == []
    requires ToJs(ToNode(es[|es| - 1]).value) == Converted(UndefinedAsNull(es[|es| - 1]), [])
    ensures !AnyUnsupportedType(es)
    ensures !AnyOtherFormat(ToNodeElements(es).value)
    ensures ToJsElements(ToNodeElements(es).value).value == UndefinedAsNullElements(es)
  {
    var k := |es| - 1;
    var front := ToNodeElements(es[..k]).value;
    var last := ToNode(es[k]).value;
    var cs := ToNodeElements(es).value;
    assert cs == front + [last];
    assert cs[..k] == front && cs[k] == last;
    assert !AnyOtherFormat(cs);
    assert ToJsElements(cs).value == ToJsElements(front).value + [ToJs(last).value];
  }

  /** The object case of HostRoundTrip, property by property. */
  lemma {:induction false} HostRoundTripProperties(ps: seq<Js.Property>)
    requires Js.DistinctKeys(ps) && CanonicalNames(Js.Keys(ps))
    requires forall j :: 0 <= j < |ps| ==> NulFree(ps[j].key) && Portable(ps[j].value)
    ensures !AnyUnsupportedProperty(ps)
    ensures var c := ToNodeProperties(ps).value;
      !AnyOtherFormat(c.1) && ToJsObject(c.0, c.1).value == UndefinedAsNullProperties(ps)
    decreases ps, 0
  {
    if ps != [] {
      var k := |ps| - 1;
      assert forall j :: 0 <= j < k ==> ps[..k][j] == ps[j];
      assert Js.Keys(ps[..k]) == Js.Keys(ps)[..k];
      CanonicalNamesPrefix(Js.Keys(ps), k);
      HostRoundTripProperties(ps[..k]);
      HostRoundTrip(ps[k].value);
      CStringOfTerminated(ps[k].key);
      Conv.NewFromUtf8KeepsWellFormed(ps[k].key);
      var front := ToNodeProperties(ps[..k]).value;
      var c := ToNodeProperties(ps).value;
      assert c.0[..k] == front.0 && c.1[..k] == front.1;
      assert KeyName(c.0[k]) == ps[k].key;
      UndefinedAsNullFreshKey(ps);
      Js.SetPropertyAppends(UndefinedAsNullProperties(ps[..k]), ps[k].key, ToJs(c.1[k]).value);
    }
  }

  /** With distinct keys, the last key is not among the earlier properties once undefined
      is replaced by null. */
  lemma UndefinedAsNullFreshKey(ps: seq<Js.Property>)
    requires Js.DistinctKeys(ps) && ps != []
    ensures var front := Js.Keys(UndefinedAsNullProperties(ps[..|ps| - 1]));
      ps[|ps| - 1].key !in front && front + [ps[|ps| - 1].key] == Js.Keys(ps)
  {
    var k := |ps| - 1;
    var frontProps := UndefinedAsNullProperties(ps[..k]);
    UndefinedAsNullKeys(ps[..k]);
    forall i | 0 <= i < k ensures Js.Keys(frontProps)[i] == ps[i].key != ps[k].key {
    }
    assert Js.Keys(frontProps) + [ps[k].key] == Js.Keys(ps);
  }

  /** A NUL-terminated buffer with no NUL before its end. */
  predicate CanonicalCString(mem: seq<byte>) {
    |mem| >= 1 && mem[|mem| - 1] == 0 && NulFree(mem[..|mem| - 1])
  }

  /** The texts of NUL-terminated key buffers, without their terminators. */
  function KeyTexts(keys: seq<seq<byte>>): (texts: seq<seq<byte>>)
    requires forall j :: 0 <= j < |keys| ==> |keys[j]| >= 1
    ensures |texts| == |keys| && forall j :: 0 <= j < |keys| ==> texts[j] == keys[j][..|keys[j]| - 1]
  {
    seq(|keys|, j requires 0 <= j < |keys| => keys[j][..|keys[j]| - 1])
  }

  /** Nodes that survive mpv_node_to_v8_value followed by init_node: flags 0 or 1, INT64
      values in the int32 range, DOUBLE values that are not int32 integers and not a NaN
      with a non-canonical encoding, strings and keys of well-formed UTF-8 with no NUL before
      their terminator, maps with distinct keys, none "__proto__", in V8's enumeration
      order, and no unknown format. */
  predicate Canonical(n: Node) {
    match n
    case FormatNone => true
    case Flag(f) => f == 0 || f == 1
    case Int64(i) => Js.Int32Min <= i <= Js.Int32Max
    case Double(d) => !(d.Integer? && Js.Int32Min <= d.i <= Js.Int32Max) && Conv.NewNumber(d) == d
    case String(chars) => CanonicalCString(chars) && Conv.WellFormedUtf8(chars[..|chars| - 1])
    case ByteArray(_) => true
    case NodeArray(values) => forall j :: 0 <= j < |values| ==> Canonical(values[j])
    case NodeMap(keys, values) =>
      |keys| == |values| &&
      (forall j :: 0 <= j < |keys| ==> CanonicalCString(keys[j])) &&
      (forall i, j :: 0 <= i < j < |keys| ==> keys[i] != keys[j]) &&
      CanonicalNames(KeyTexts(keys)) &&
      (forall j :: 0 <= j < |values| ==> Canonical(values[j]))
    case OtherFormat(_) => false
  }

  lemma CanonicalCStringRoundTrip(mem: seq<byte>)
    requires CanonicalCString(mem)
    ensures IsCString(mem) && Terminated(CString(mem)) == mem && CString(mem) == mem[..|mem| - 1]
  {
    var s := mem[..|mem| - 1];
    assert mem == Terminated(s);
    CStringOfTerminated(s);
  }

  /** Canonical key buffers read as their texts, so distinct buffers give distinct names. */
  lemma CanonicalKeysDistinct(n: Node)
    requires n.NodeMap? && Canonical(n)
    ensures forall j :: 0 <= j < |n.keys| ==> IsCString(n.keys[j]) && KeyName(n.keys[j]) == CString(n.keys[j])
    ensures KeyNames(n.keys) == KeyTexts(n.keys)
    ensures forall i, j :: 0 <= i < j < |n.keys| ==> KeyName(n.keys[i]) != KeyName(n.keys[j])
  {
    var keys := n.keys;
    forall j | 0 <= j < |keys|
      ensures IsCString(keys[j]) && Terminated(CString(keys[j])) == keys[j] && KeyName(keys[j]) == KeyTexts(keys)[j]
    {
      CanonicalCStringRoundTrip(keys[j]);
      Conv.NewFromUtf8KeepsWellFormed(KeyTexts(keys)[j]);
    }
  }

  lemma {:induction false} CanonicalIsWellFormed(n: Node)
    requires Canonical(n)
    ensures WellFormed(n)
    decreases n
  {
    match n
    case String(chars) => CanonicalCStringRoundTrip(chars);
    case NodeArray(values) =>
      forall j | 0 <= j < |values| ensures WellFormed(values[j]) {
        CanonicalIsWellFormed(values[j]);
      }
    case NodeMap(keys, values) =>
      forall j | 0 <= j < |values| ensures WellFormed(values[j]) && IsCString(keys[j]) {
        CanonicalIsWellFormed(values[j]);
        CanonicalCStringRoundTrip(keys[j]);
      }
    case _ =>
  }

  /** Node -> host -> node gives back the same node and raises no error. */
  lemma {:induction false} NodeRoundTrip(n: Node)
    requires Canonical(n)
    ensures WellFormed(n)
    ensures ToNode(ToJs(n).value) == Converted(n, [])
    decreases n, 2
  {
    CanonicalIsWellFormed(n);
    if n.NodeArray? {
      NodeRoundTripArray(n);
    } else if n.NodeMap? {
      NodeRoundTripObject(n);
    } else {
      NodeRoundTripScalar(n);
    }
  }

  /** NodeRoundTrip for the formats without children. */
  lemma NodeRoundTripScalar(n: Node)
    requires Canonical(n) && WellFormed(n) && !n.NodeArray? && !n.NodeMap?
    ensures ToNode(ToJs(n).value) == Converted(n, [])
  {
    match n
    case Int64(i) => NodeRoundTripInt64(i);
    case String(chars) => NodeRoundTripString(chars);
    case Double(d) => NodeRoundTripDouble(d);
    case Flag(f) => NodeRoundTripFlag(f);
    case ByteArray(data) => NodeRoundTripBytes(data);
    case FormatNone =>
  }

  /** NodeRoundTrip for STRING: the C string becomes a JavaScript string and comes back
      as the same terminated bytes. */
  lemma NodeRoundTripString(chars: seq<byte>)
    requires CanonicalCString(chars) && Conv.WellFormedUtf8(chars[..|chars| - 1])
    ensures ToNode(ToJs(String(chars)).value) == Converted(String(chars), [])
  {
    CanonicalCStringRoundTrip(chars);
    Conv.NewFromUtf8KeepsWellFormed(CString(chars));
    assert ToJs(String(chars)).value == Js.String(CString(chars));
  }

  /** NodeRoundTrip for DOUBLE: a double that is not an int32 comes back as DOUBLE. */
  lemma NodeRoundTripDouble(d: Js.Float64)
    requires !(d.Integer? && Js.Int32Min <= d.i <= Js.Int32Max) && Conv.NewNumber(d) == d
    ensures ToNode(ToJs(Double(d)).value) == Converted(Double(d), [])
  {
    assert ToJs(Double(d)).value == Js.Number(d);
  }

  /** NodeRoundTrip for FLAG: 0 and 1 become false and true and come back. */
  lemma NodeRoundTripFlag(f: int)
    requires f == 0 || f == 1
    ensures ToNode(ToJs(Flag(f)).value) == Converted(Flag(f), [])
  {
    assert ToJs(Flag(f)).value == Js.Boolean(f != 0);
  }

  /** NodeRoundTrip for BYTE_ARRAY: the bytes become an ArrayBuffer and come back. */
  lemma NodeRoundTripBytes(data: seq<byte>)
    ensures ToNode(ToJs(ByteArray(data)).value) == Converted(ByteArray(data), [])
  {
    assert ToJs(ByteArray(data)).value == Js.ArrayBuffer(data);
  }

  /** NodeRoundTrip for INT64: an int32 value becomes a number and comes back as INT64. */
  lemma NodeRoundTripInt64(i: int)
    requires Js.Int32Min <= i <= Js.Int32Max
    ensures ToNode(ToJs(Int64(i)).value) == Converted(Int64(i), [])
  {
    NearestDoubleExact(i);
    var v := Js.Number(Js.Integer(i));
    assert ToJs(Int64(i)).value == v;
    assert Js.IsInt32(v);
  }

  /** NodeRoundTrip for NODE_ARRAY. */
  lemma {:induction false} NodeRoundTripArray(n: Node)
    requires n.NodeArray? && Canonical(n) && WellFormed(n)
    ensures ToNode(ToJs(n).value) == Converted(n, [])
    decreases n, 1
  {
    NodeRoundTripElements(n.values);
    var xs := ToJsElements(n.values).value;
    assert ToJs(n).value == Js.Array(xs);
    var c := ToNodeElements(xs);
    assert ToNode(Js.Array(xs)) == Converted(NodeArray(c.value), c.errors);
  }

  /** NodeRoundTrip for NODE_MAP. */
  lemma {:induction false} NodeRoundTripObject(n: Node)
    requires n.NodeMap? && Canonical(n) && WellFormed(n)
    ensures ToNode(ToJs(n).value) == Converted(n, [])
    decreases n, 1
  {
    CanonicalKeysDistinct(n);
    assert CanonicalEntries(n.keys, n.values);
    NodeRoundTripMap(n.keys, n.values);
    var props := ToJsObject(n.keys, n.values).value;
    assert ToJs(n).value == Js.Object(props);
    ToNodeOfObject(props);
  }

  /** init_node of a plain object gives the map of its converted properties. */
  lemma ToNodeOfObject(props: seq<Js.Property>)
    ensures var c := ToNodeProperties(props);
      ToNode(Js.Object(props)) == Converted(NodeMap(c.value.0, c.value.1), c.errors)
  {
  }

  /** The NODE_ARRAY case of NodeRoundTrip, child by child. */
  lemma {:induction false} NodeRoundTripElements(values: seq<Node>)
    requires forall j :: 0 <= j < |values| ==> Canonical(values[j]) && WellFormed(values[j])
    ensures ToNodeElements(ToJsElements(values).value) == Converted(values, [])
    decreases values, 0
  {
    if values != [] {
      var k := |values| - 1;
      assert forall j :: 0 <= j < k ==> values[..k][j] == values[j];
      NodeRoundTripElements(values[..k]);
      NodeRoundTrip(values[k]);
      var xs := ToJsElements(values).value;
      assert xs[..k] == ToJsElements(values[..k]).value;
      assert xs[k] == ToJs(values[k]).value;
      SplitLast(values);
      assert ToNodeElements(xs) == Converted(values[..k] + [values[k]], []);
    }
  }

  /** The NODE_MAP case of NodeRoundTrip, entry by entry. */
  lemma {:induction false} NodeRoundTripMap(keys: seq<seq<byte>>, values: seq<Node>)
    requires CanonicalEntries(keys, values)
    ensures ToNodeProperties(ToJsObject(keys, values).value) == Converted((keys, values), [])
    decreases values, 0
  {
    if values != [] {
      var k := |values| - 1;
      var ks, vs := keys[..k], values[..k];
      CanonicalEntriesPrefix(keys, values);
      NodeRoundTripMap(ks, vs);
      NodeRoundTrip(values[k]);
      CanonicalCStringRoundTrip(keys[k]);
      var key := KeyName(keys[k]);
      var front := ToJsObject(ks, vs).value;
      var last := ToJs(values[k]).value;
      assert DistinctEntries(keys, values);
      ToJsObjectSnoc(keys, values);
      ToNodePropertiesSnoc(front, Js.Property(key, last));
      SplitLast(keys);
      SplitLast(values);
    }
  }

  /** With distinct keys, converting one more NODE_MAP entry appends one more property. */
  lemma ToJsObjectSnoc(keys: seq<seq<byte>>, values: seq<Node>)
    requires DistinctEntries(keys, values) && values != []
    ensures var k := |values| - 1;
      DistinctEntries(keys[..k], values[..k]) &&
      ToJsObject(keys, values).value ==
        ToJsObject(keys[..k], values[..k]).value + [Js.Property(KeyName(keys[k]), ToJs(values[k]).value)]
    decreases |values|, 1
  {
    var k := |values| - 1;
    DistinctEntriesPrefix(keys, values);
    ToJsObjectFreshKey(keys, values);
    Js.SetPropertyAppends(ToJsObject(keys[..k], values[..k]).value, KeyName(keys[k]), ToJs(values[k]).value);
  }

  /** The entries of a well-formed NODE_MAP whose keys read as distinct property names,
      none "__proto__", in V8's enumeration order. */
  predicate DistinctEntries(keys: seq<seq<byte>>, values: seq<Node>) {
    |keys| == |values| &&
    (forall j :: 0 <= j < |keys| ==> IsCString(keys[j])) &&
    (forall j :: 0 <= j < |values| ==> WellFormed(values[j])) &&
    (forall i, j :: 0 <= i < j < |keys| ==> KeyName(keys[i]) != KeyName(keys[j])) &&
    (forall j :: 0 <= j < |keys| ==> KeyName(keys[j]) != Js.ProtoKey) &&
    Js.InEnumerationOrder(KeyNames(keys))
  }

  lemma DistinctEntriesPrefix(keys: seq<seq<byte>>, values: seq<Node>)
    requires DistinctEntries(keys, values) && values != []
    ensures DistinctEntries(keys[..|keys| - 1], values[..|values| - 1])
  {
    var k := |values| - 1;
    assert forall j :: 0 <= j < k ==> keys[..k][j] == keys[j] && values[..k][j] == values[j];
    assert KeyNames(keys[..k]) == KeyNames(keys)[..k];
  }

  /** The entries of a canonical NODE_MAP. */
  predicate CanonicalEntries(keys: seq<seq<byte>>, values: seq<Node>) {
    DistinctEntries(keys, values) &&
    (forall j :: 0 <= j < |keys| ==> CanonicalCString(keys[j]) && KeyName(keys[j]) == CString(keys[j])) &&
    (forall j :: 0 <= j < |values| ==> Canonical(values[j]))
  }

  lemma CanonicalEntriesPrefix(keys: seq<seq<byte>>, values: seq<Node>)
    requires CanonicalEntries(keys, values) && values != []
    ensures CanonicalEntries(keys[..|keys| - 1], values[..|values| - 1])
  {
    var k := |values| - 1;
    DistinctEntriesPrefix(keys, values);
    assert forall j :: 0 <= j < k ==> keys[..k][j] == keys[j] && values[..k][j] == values[j];
  }

  /** A non-empty sequence is its prefix followed by its last element. */
  lemma SplitLast<T>(s: seq<T>)
    requires |s| > 0
    ensures s == s[..|s| - 1] + [s[|s| - 1]]
  {
  }

  /** With distinct keys, the last key of a NODE_MAP is not among the properties the
      earlier entries produced. */
  lemma ToJsObjectFreshKey(keys: seq<seq<byte>>, values: seq<Node>)
    requires DistinctEntries(keys, values) && values != []
    ensures var k := |values| - 1;
      var front := Js.Keys(ToJsObject(keys[..k], values[..k]).value);
      KeyName(keys[k]) !in front && front + [KeyName(keys[k])] == KeyNames(keys)
    decreases |values|, 0
  {
    var k := |values| - 1;
    var ks, vs := keys[..k], values[..k];
    DistinctEntriesPrefix(keys, values);
    ToJsObjectDistinct(ks, vs);
    NamesExtend(keys, Js.Keys(ToJsObject(ks, vs).value));
  }

  /** Names of the first |keys| - 1 keys, followed by the name of the last, are the names of
      all the keys; the last is not among the others when all are distinct. */
  lemma NamesExtend(keys: seq<seq<byte>>, front: seq<seq<byte>>)
    requires |keys| == |front| + 1
    requires forall j :: 0 <= j < |keys| ==> IsCString(keys[j])
    requires forall i, j :: 0 <= i < j < |keys| ==> KeyName(keys[i]) != KeyName(keys[j])
    requires forall j :: 0 <= j < |front| ==> front[j] == KeyName(keys[..|front|][j])
    ensures KeyName(keys[|front|]) !in front && front + [KeyName(keys[|front|])] == KeyNames(keys)
  {
    var k := |front|;
    assert forall j :: 0 <= j < k ==> keys[..k][j] == keys[j];
    assert front + [KeyName(keys[k])] == KeyNames(keys);
  }

  /** One iteration of the NODE_MAP loop of init_node extends the converted prefix by the
      next property. */
  lemma ToNodePropertiesStep(ps: seq<Js.Property>, j: nat, keys: seq<seq<byte>>, values: seq<Node>,
                             errors: seq<ConversionError>, child: Node, childErrors: seq<ConversionError>)
    requires j < |ps|
    requires Converted((keys, values), errors) == ToNodeProperties(ps[..j])
    requires Converted(child, childErrors) == ToNode(ps[j].value)
    ensures Converted((keys + [Terminated(ps[j].key)], values + [child]), errors + childErrors)
      == ToNodeProperties(ps[..j + 1])
  {
    assert ps[..j + 1] == ps[..j] + [ps[j]];
    ToNodePropertiesSnoc(ps[..j], ps[j]);
  }

  /** Converting one more property appends one more key and value. */
  lemma ToNodePropertiesSnoc(ps: seq<Js.Property>, p: Js.Property)
    ensures var f := ToNodeProperties(ps);
      ToNodeProperties(ps + [p]) ==
        Converted((f.value.0 + [Terminated(p.key)], f.value.1 + [ToNode(p.value).value]),
                  f.errors + ToNode(p.value).errors)
  {
    assert (ps + [p])[..|ps|] == ps;
  }

  /** valid() after init_node: false exactly for an empty handle, null, undefined, a boxed
      string whose conversion throws, a view whose buffer is missing, and an unsupported
      type, so every failed or unsupported conversion reports itself invalid. */
  lemma ValidAfterConversion(v: Js.Value)
    ensures Valid(ToNode(v).value) <==>
      !(v.Empty? || v.Null? || v.Undefined? || v == Js.StringObject(None) ||
        (v.ArrayBufferView? && v.buffer.None?) || v.Symbol?)
    ensures v.Symbol? ==> ToNode(v).errors == [UnexpectedValueType]
  {
  }

  /*************************************************************************************
   * NODE_MAP keys in any order, and what the host changes
   *************************************************************************************/

  /** NODE_MAP to host, for keys that read as distinct names in any order: the object has no
      two properties of the same name, lists them in V8's enumeration order, and holds
      exactly name j with converted values[j] for each entry whose name is not
      "__proto__". */
  lemma {:induction false} ToJsObjectContents(keys: seq<seq<byte>>, values: seq<Node>)
    requires |keys| == |values|
    requires forall j :: 0 <= j < |keys| ==> IsCString(keys[j])
    requires forall j :: 0 <= j < |values| ==> WellFormed(values[j])
    requires forall i, j :: 0 <= i < j < |keys| ==> KeyName(keys[i]) != KeyName(keys[j])
    ensures var props := ToJsObject(keys, values).value;
      Js.DistinctKeys(props) && Js.InEnumerationOrder(Js.Keys(props)) &&
      forall p :: p in props <==> Entry(keys, values, p)
    decreases |values|
  {
    if values != [] {
      var k := |values| - 1;
      var ks, vs := keys[..k], values[..k];
      assert forall j :: 0 <= j < k ==> ks[j] == keys[j] && vs[j] == values[j];
      ToJsObjectContents(ks, vs);
      var front := ToJsObject(ks, vs).value;
      var key, v := KeyName(keys[k]), ToJs(values[k]).value;
      forall i | 0 <= i < |front| ensures Js.Keys(front)[i] != key {
        assert front[i] in front;
        EntryName(ks, vs, front[i]);
        var j :| 0 <= j < k && front[i].key == KeyName(ks[j]);
        assert KeyName(keys[j]) != KeyName(keys[k]);
      }
      Js.SetPropertyKeys(front, key, v);
      forall p ensures p in ToJsObject(keys, values).value <==> Entry(keys, values, p) {
        EntrySnoc(keys, values, p);
      }
    }
  }

  /** `p` is the converted entry j of a NODE_MAP for some j whose name is not "__proto__". */
  predicate Entry(keys: seq<seq<byte>>, values: seq<Node>, p: Js.Property)
    requires |keys| == |values|
    requires forall j :: 0 <= j < |keys| ==> IsCString(keys[j])
    requires forall j :: 0 <= j < |values| ==> WellFormed(values[j])
  {
    exists j :: 0 <= j < |keys| && KeyName(keys[j]) != Js.ProtoKey && p == Js.Property(KeyName(keys[j]), ToJs(values[j]).value)
  }

  /** An entry's property is named after one of the keys. */
  lemma EntryName(keys: seq<seq<byte>>, values: seq<Node>, p: Js.Property)
    requires |keys| == |values|
    requires forall j :: 0 <= j < |keys| ==> IsCString(keys[j])
    requires forall j :: 0 <= j < |values| ==> WellFormed(values[j])
    requires Entry(keys, values, p)
    ensures exists j :: 0 <= j < |keys| && p.key == KeyName(keys[j])
  {
  }

  /** The entries of a NODE_MAP are those of all keys but the last, and the last one's. */
  lemma EntrySnoc(keys: seq<seq<byte>>, values: seq<Node>, p: Js.Property)
    requires |keys| == |values| > 0
    requires forall j :: 0 <= j < |keys| ==> IsCString(keys[j])
    requires forall j :: 0 <= j < |values| ==> WellFormed(values[j])
    ensures var k := |values| - 1;
      Entry(keys, values, p) <==>
        Entry(keys[..k], values[..k], p) ||
        (KeyName(keys[k]) != Js.ProtoKey && p == Js.Property(KeyName(keys[k]), ToJs(values[k]).value))
  {
    var k := |values| - 1;
    assert forall j :: 0 <= j < k ==> keys[..k][j] == keys[j] && values[..k][j] == values[j];
    if Entry(keys, values, p) {
      var j :| 0 <= j < |keys| && KeyName(keys[j]) != Js.ProtoKey && p == Js.Property(KeyName(keys[j]), ToJs(values[j]).value);
      if j < k {
        assert keys[..k][j] == keys[j] && values[..k][j] == values[j];
      }
    }
  }

  /** A STRING reaches the host as well-formed UTF-8, and as its own text exactly when that
      text is already well formed. */
  lemma ToJsString(chars: seq<byte>)
    requires IsCString(chars)
    ensures ToJs(String(chars)).value.String?
    ensures Conv.WellFormedUtf8(ToJs(String(chars)).value.utf8)
    ensures ToJs(String(chars)).value.utf8 == CString(chars) <==> Conv.WellFormedUtf8(CString(chars))
  {
    Conv.NewFromUtf8IsWellFormed(CString(chars));
    if Conv.WellFormedUtf8(CString(chars)) {
      Conv.NewFromUtf8KeepsWellFormed(CString(chars));
    }
  }

  /** A DOUBLE reaches the host as a number of the same value, with the same encoding
      unless it is a NaN. */
  lemma ToJsDouble(d: Js.Float64)
    ensures ToJs(Double(d)).value.Number?
    ensures Conv.NumberOf(ToJs(Double(d)).value.n) == Conv.NumberOf(d)
    ensures !Conv.NumberOf(d).NaN? ==> ToJs(Double(d)).value.n == d
  {
  }

  /** String::NewFromUtf8 replaces broken UTF-8: the STRING "\xFF" reaches the host as
      U+FFFD and does not come back as the same bytes. */
  lemma BrokenUtf8Replaced()
    ensures ToJs(String(Terminated([0xFF]))).value == Js.String(Conv.Replacement)
    ensures ToNode(ToJs(String(Terminated([0xFF]))).value).value == String(Terminated(Conv.Replacement))
  {
    CStringOfTerminated([0xFF]);
    assert Conv.NewFromUtf8([0xFF]) == Conv.Replacement + Conv.NewFromUtf8([]);
  }

  /** Number::New stores every NaN as the canonical quiet NaN: a DOUBLE holding another NaN
      encoding reaches the host, and comes back, with the canonical one. */
  lemma NaNCanonicalized()
    ensures ToJs(Double(Js.NonInteger(0x7FF0_0000_0000_0001))).value == Js.Number(Js.NonInteger(Conv.CanonicalNaN))
    ensures ToNode(ToJs(Double(Js.NonInteger(0x7FF0_0000_0000_0001))).value).value == Double(Js.NonInteger(Conv.CanonicalNaN))
  {
    assert 0x7FF0_0000_0000_0001 / Conv.TwoTo52 == 0x7FF;
    assert 0x7FF0_0000_0000_0001 % Conv.TwoTo52 == 1;
  }

  /** Object::Set puts array-index names first: a map whose first key is an ordinary name
      and whose second is an array index becomes an object that enumerates the index first
      (the keys "b" and "1" come out as "1", "b"). */
  lemma IndexKeysReordered(name: seq<byte>, index: seq<byte>, v: Node, w: Node)
    requires Ascii(name) && Ascii(index) && WellFormed(v) && WellFormed(w)
    requires !Js.IsArrayIndex(name) && name != Js.ProtoKey && Js.IsArrayIndex(index)
    ensures ToJs(NodeMap([Terminated(name), Terminated(index)], [v, w])).value ==
      Js.Object([Js.Property(index, ToJs(w).value), Js.Property(name, ToJs(v).value)])
  {
    var keys: seq<seq<byte>> := [Terminated(name), Terminated(index)];
    var values := [v, w];
    assert keys[..1] == [Terminated(name)] && values[..1] == [v];
    SingleEntry(name, v);
    var front := ToJsObject(keys[..1], values[..1]).value;
    assert front == [Js.Property(name, ToJs(v).value)];
    AsciiKeyName(index);
    ToJsObjectLast(keys, values);
    var obj := ToJsObject(keys, values).value;
    assert obj == Js.SetProperty(front, index, ToJs(w).value);
    IndexBeforeName(name, index, ToJs(v).value, ToJs(w).value);
    assert ToJs(NodeMap(keys, values)).value == Js.Object(obj);
  }

  /** The last entry of a NODE_MAP is set on the object built from the others. */
  lemma ToJsObjectLast(keys: seq<seq<byte>>, values: seq<Node>)
    requires |keys| == |values| > 0
    requires forall j :: 0 <= j < |keys| ==> IsCString(keys[j])
    requires forall j :: 0 <= j < |values| ==> WellFormed(values[j])
    ensures var k := |values| - 1;
      ToJsObject(keys, values).value ==
        Js.SetProperty(ToJsObject(keys[..k], values[..k]).value, KeyName(keys[k]), ToJs(values[k]).value)
  {
  }

  /** Setting an array index on an object holding one ordinary name puts it in front. */
  lemma IndexBeforeName(name: seq<byte>, index: seq<byte>, x: Js.Value, y: Js.Value)
    requires !Js.IsArrayIndex(name) && Js.IsArrayIndex(index)
    ensures Js.SetProperty([Js.Property(name, x)], index, y) == [Js.Property(index, y), Js.Property(name, x)]
  {
    var front := [Js.Property(name, x)];
    assert Js.Keys(front) == [name];
    ProtoKeyNotIndex();
    assert Js.InsertPosition(front, index) == 0;
  }

  /** "__proto__" is not an array index. */
  lemma ProtoKeyNotIndex()
    ensures !Js.IsArrayIndex(Js.ProtoKey)
  {
    assert Js.DigitValue(Js.ProtoKey[0]) == 16;
  }

  /** A "__proto__" key sets the prototype instead of adding a property, whatever it is
      bound to. */
  lemma ProtoKeyDropped(v: Node)
    requires WellFormed(v)
    ensures ToJs(NodeMap([Terminated(Js.ProtoKey)], [v])).value == Js.Object([])
  {
    SingleEntry(Js.ProtoKey, v);
  }

  /** A map of one ASCII key becomes an object with that key bound to the converted value,
      unless the key is "__proto__". */
  lemma SingleEntry(key: seq<byte>, v: Node)
    requires Ascii(key) && WellFormed(v)
    ensures ToJsObject([Terminated(key)], [v]).value ==
      if key == Js.ProtoKey then [] else [Js.Property(key, ToJs(v).value)]
  {
    AsciiKeyName(key);
    var keys: seq<seq<byte>> := [Terminated(key)];
    var values := [v];
    assert keys[..0] == [] && values[..0] == [];
  }

  /** Bytes 1 to 0x7F: ASCII without NUL. */
  predicate Ascii(s: seq<byte>) {
    forall i :: 0 <= i < |s| ==> 0 < s[i] < 0x80
  }

  /** An ASCII key without NUL names itself. */
  lemma AsciiKeyName(s: seq<byte>)
    requires Ascii(s)
    ensures KeyName(Terminated(s)) == s
  {
    CStringOfTerminated(s);
    AsciiWellFormed(s);
    Conv.NewFromUtf8KeepsWellFormed(s);
  }

  /** ASCII text is well-formed UTF-8. */
  lemma {:induction false} AsciiWellFormed(s: seq<byte>)
    requires forall i :: 0 <= i < |s| ==> s[i] < 0x80
    ensures Conv.WellFormedUtf8(s)
    decreases |s|
  {
    if s != [] {
      assert Conv.UnitLength(s) == 1;
      AsciiWellFormed(s[1..]);
    }
  }
}
