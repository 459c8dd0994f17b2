/** The host's (V8's) dynamic values, as far as the mpv_node conversions look at them. */
module JsValues {
  import opened Wrappers
  import opened Bytes

  /** A JavaScript number. `Integer(i)` is the double whose value is the integer `i`
      (not -0); every other double (fractions, NaN, infinities, -0) is kept opaque as its bits. */
  datatype Float64 = Integer(i: int) | NonInteger(bits: Bits64)

  /** A binary64 encoding: 64 bits read as an unsigned number. */
  type Bits64 = b: nat | b < 0x1_0000_0000_0000_0000

  /** The element kinds of an ArrayBufferView (typed arrays and DataView). */
  datatype ViewKind = Int8 | Uint8 | Uint8Clamped | Int16 | Uint16 | Int32 | Uint32 | Float32 | Float64View | DataView

  /** A host value. Strings are represented by their UTF-8 encoding (what String::Utf8Value
      yields and what String::NewFromUtf8 reads). An object lists its own enumerable
      properties in enumeration order. */
  datatype Value =
    | Empty                                  // an empty handle (no value at all)
    | Undefined
    | Null
    | Boolean(b: bool)
    | BooleanObject(boxed: bool)
    | Number(n: Float64)
    | NumberObject(boxedNumber: Float64)
    | String(utf8: seq<byte>)
    | StringObject(converted: Option<seq<byte>>)  // None: converting it to a string throws
    | ArrayBuffer(bytes: seq<byte>)
    | ArrayBufferView(kind: ViewKind, buffer: Option<seq<byte>>, byteOffset: nat, byteLength: nat)
    | SharedArrayBuffer(shared: seq<byte>)
    | Array(elements: seq<Value>)
    | Object(properties: seq<Property>)
    | Symbol(description: seq<byte>)

  datatype Property = Property(key: seq<byte>, value: Value)

  const Int32Min: int := -0x8000_0000
  const Int32Max: int := 0x7FFF_FFFF

  /** Value::IsInt32: a number primitive holding an integer in the 32-bit signed range. */
  predicate IsInt32(v: Value) {
    v.Number? && v.n.Integer? && Int32Min <= v.n.i <= Int32Max
  }

  /** Value::IsObject: everything that is not a primitive. */
  predicate IsObject(v: Value) {
    v.BooleanObject? || v.NumberObject? || v.StringObject? || v.ArrayBuffer? ||
    v.ArrayBufferView? || v.SharedArrayBuffer? || v.Array? || v.Object?
  }

  /** The keys of a property list, in order. */
  function Keys(props: seq<Property>): (ks: seq<seq<byte>>)
    ensures |ks| == |props|
    ensures forall j :: 0 <= j < |props| ==> ks[j] == props[j].key
  {
    seq(|props|, j requires 0 <= j < |props| => props[j].key)
  }

  /*************************************************************************************
   * Digits and array indices
   *************************************************************************************/

  /** The value of an ASCII digit ('0'-'9', 'a'-'f', 'A'-'F'), and 16 for any other byte. */
  function DigitValue(b: byte): (d: nat)
    ensures d <= 16
  {
    if 48 <= b <= 57 then b - 48
    else if 97 <= b <= 102 then b - 87
    else if 65 <= b <= 70 then b - 55
    else 16
  }

  /** Every byte of `s` is a digit of base `base`. */
  predicate AllDigits(s: seq<byte>, base: nat) {
    forall i :: 0 <= i < |s| ==> DigitValue(s[i]) < base
  }

  /** The number the digits `s` spell in base `base`, most significant first. */
  function DigitsValue(s: seq<byte>, base: nat): nat {
    if s == [] then 0 else DigitsValue(s[..|s| - 1], base) * base + DigitValue(s[|s| - 1])
  }

  /** An array index: the canonical decimal text (no sign, no leading zero) of an integer
      from 0 to 2^32 - 2. V8 keeps such keys as elements. */
  predicate IsArrayIndex(key: seq<byte>) {
    |key| >= 1 && AllDigits(key, 10) && (key[0] != 48 || |key| == 1) && DigitsValue(key, 10) <= 0xFFFF_FFFE
  }

  /** The key "__proto__", which names the prototype accessor rather than a property. */
  const ProtoKey: seq<byte> := [95, 95, 112, 114, 111, 116, 111, 95, 95]

  /*************************************************************************************
   * Object::Set
   *************************************************************************************/

  /** The order in which V8 enumerates own string keys: array indices first, in ascending
      numeric order, then every other key in the order it was added. Every index is preceded
      only by smaller indices. */
  predicate InEnumerationOrder(keys: seq<seq<byte>>) {
    forall i, j :: 0 <= i < j < |keys| && IsArrayIndex(keys[j]) ==>
      IsArrayIndex(keys[i]) && DigitsValue(keys[i], 10) < DigitsValue(keys[j], 10)
  }

  /** No two properties share a key (as an object's own properties never do). */
  predicate DistinctKeys(props: seq<Property>) {
    forall i, j :: 0 <= i < j < |props| ==> props[i].key != props[j].key
  }

  /** The number of leading properties whose keys are array indices below the index `key`:
      where a new index key is inserted. */
  function InsertPosition(props: seq<Property>, key: seq<byte>): (n: nat)
    ensures n <= |props|
  {
    if props == [] then 0
    else if IsArrayIndex(props[0].key) && DigitsValue(props[0].key, 10) < DigitsValue(key, 10) then
      1 + InsertPosition(props[1..], key)
    else 0
  }

  /** Object::Set with a string key on an ordinary object whose prototype chain holds no
      setter but Object.prototype's "__proto__" accessor. An existing property keeps its place
      and takes the new value. A new "__proto__" runs the prototype setter and adds no own
      property. A new array index goes among the indices in ascending order. Any other new key
      is appended at the end of the enumeration order. */
  function SetProperty(props: seq<Property>, key: seq<byte>, v: Value): (r: seq<Property>)
  {
    if key in Keys(props) then
      seq(|props|, j requires 0 <= j < |props| => if props[j].key == key then Property(key, v) else props[j])
    else if key == ProtoKey then props
    else if IsArrayIndex(key) then
      var n := InsertPosition(props, key);
      props[..n] + [Property(key, v)] + props[n..]
    else props + [Property(key, v)]
  }

  /** Setting a property keeps the keys distinct and in V8's enumeration order. The property
      set afterwards is the old one with `key` now bound to `v`, except that a new "__proto__"
      adds nothing. */
  lemma SetPropertyKeys(props: seq<Property>, key: seq<byte>, v: Value)
    requires DistinctKeys(props) && InEnumerationOrder(Keys(props))
    ensures var r := SetProperty(props, key, v);
      && DistinctKeys(r)
      && InEnumerationOrder(Keys(r))
      && (forall p :: p in r <==>
            (p in props && p.key != key) || (p == Property(key, v) && (key in Keys(props) || key != ProtoKey)))
  {
    if key in Keys(props) {
      SetPropertyExisting(props, key, v);
    } else if key != ProtoKey && IsArrayIndex(key) {
      SetPropertyNewIndex(props, key, v);
    } else if key != ProtoKey {
      SetPropertyNewName(props, key, v);
    }
  }

  /** SetPropertyKeys for a key the object has: only its value changes. */
  lemma SetPropertyExisting(props: seq<Property>, key: seq<byte>, v: Value)
    requires DistinctKeys(props) && InEnumerationOrder(Keys(props)) && key in Keys(props)
    ensures var r := SetProperty(props, key, v);
      && Keys(r) == Keys(props)
      && DistinctKeys(r)
      && (forall p :: p in r <==> (p in props && p.key != key) || p == Property(key, v))
  {
    var r := SetProperty(props, key, v);
    assert Keys(r) == Keys(props);
    forall p ensures p in r <==> (p in props && p.key != key) || p == Property(key, v) {
      if p == Property(key, v) {
        var j :| 0 <= j < |props| && Keys(props)[j] == key;
        assert r[j] == p;
      }
      if p in props && p.key != key {
        var j :| 0 <= j < |props| && props[j] == p;
        assert r[j] == p;
      }
    }
  }

  /** SetPropertyKeys for a new array index. */
  lemma SetPropertyNewIndex(props: seq<Property>, key: seq<byte>, v: Value)
    requires DistinctKeys(props) && InEnumerationOrder(Keys(props))
    requires IsArrayIndex(key) && key !in Keys(props) && key != ProtoKey
    ensures var r := SetProperty(props, key, v);
      && DistinctKeys(r)
      && InEnumerationOrder(Keys(r))
      && (forall p :: p in r <==> p in props || p == Property(key, v))
  {
    var n := InsertPosition(props, key);
    SetPropertyIndexPlace(props, key, v);
    Inserted(props, n, Property(key, v));
    InsertedMembers(props, n, Property(key, v));
    InsertedDistinct(props, n, Property(key, v));
    InsertedOrdered(props, n, Property(key, v));
  }

  /** The positions of a list with one property inserted at `n`. */
  lemma Inserted(props: seq<Property>, n: nat, p: Property)
    requires n <= |props|
    ensures var r := props[..n] + [p] + props[n..];
      && |r| == |props| + 1 && r[n] == p
      && (forall i :: 0 <= i < n ==> r[i] == props[i])
      && (forall i :: n < i < |r| ==> r[i] == props[i - 1])
  {
  }

  lemma InsertedMembers(props: seq<Property>, n: nat, p: Property)
    requires n <= |props|
    ensures forall q :: q in props[..n] + [p] + props[n..] <==> q in props || q == p
  {
    assert props == props[..n] + props[n..];
  }

  lemma InsertedDistinct(props: seq<Property>, n: nat, p: Property)
    requires n <= |props| && DistinctKeys(props) && p.key !in Keys(props)
    ensures DistinctKeys(props[..n] + [p] + props[n..])
  {
    var r := props[..n] + [p] + props[n..];
    Inserted(props, n, p);
    forall i, j | 0 <= i < j < |r| ensures r[i].key != r[j].key {
      var i' := if i < n then i else i - 1;
      var j' := if j < n then j else j - 1;
      if i != n && j != n {
        assert r[i] == props[i'] && r[j] == props[j'];
      } else if i == n {
        assert r[j] == props[j'] && Keys(props)[j'] == props[j'].key;
      } else {
        assert r[i] == props[i'] && Keys(props)[i'] == props[i'].key;
      }
    }
  }

  lemma InsertedOrdered(props: seq<Property>, n: nat, p: Property)
    requires n <= |props| && InEnumerationOrder(Keys(props)) && IsArrayIndex(p.key)
    requires forall i :: 0 <= i < n ==> IsArrayIndex(props[i].key) && DigitsValue(props[i].key, 10) < DigitsValue(p.key, 10)
    requires forall i :: n <= i < |props| ==> !IsArrayIndex(props[i].key) || DigitsValue(props[i].key, 10) > DigitsValue(p.key, 10)
    ensures InEnumerationOrder(Keys(props[..n] + [p] + props[n..]))
  {
    var r := props[..n] + [p] + props[n..];
    Inserted(props, n, p);
    var ks := Keys(r);
    forall i, j | 0 <= i < j < |ks| && IsArrayIndex(ks[j])
      ensures IsArrayIndex(ks[i]) && DigitsValue(ks[i], 10) < DigitsValue(ks[j], 10)
    {
      var i' := if i < n then i else i - 1;
      var j' := if j < n then j else j - 1;
      if i != n && j != n {
        assert Keys(props)[i'] == ks[i] && Keys(props)[j'] == ks[j];
      } else if i == n {
        assert ks[j] == props[j'].key;
      } else {
        assert ks[i] == props[i'].key;
      }
    }
  }

  /** SetPropertyKeys for a new key that is neither an index nor "__proto__". */
  lemma SetPropertyNewName(props: seq<Property>, key: seq<byte>, v: Value)
    requires DistinctKeys(props) && InEnumerationOrder(Keys(props))
    requires !IsArrayIndex(key) && key !in Keys(props) && key != ProtoKey
    ensures var r := SetProperty(props, key, v);
      && DistinctKeys(r)
      && InEnumerationOrder(Keys(r))
      && (forall p :: p in r <==> p in props || p == Property(key, v))
  {
    var r := props + [Property(key, v)];
    assert SetProperty(props, key, v) == r;
    assert forall j :: 0 <= j < |props| ==> Keys(r)[j] == Keys(props)[j];
  }

  /** A new array index goes right after the smaller indices and before everything else. */
  lemma {:induction false} SetPropertyIndexPlace(props: seq<Property>, key: seq<byte>, v: Value)
    requires DistinctKeys(props) && InEnumerationOrder(Keys(props))
    requires IsArrayIndex(key) && key !in Keys(props)
    ensures var n := InsertPosition(props, key);
      && SetProperty(props, key, v) == props[..n] + [Property(key, v)] + props[n..]
      && (forall i :: 0 <= i < n ==> IsArrayIndex(props[i].key) && DigitsValue(props[i].key, 10) < DigitsValue(key, 10))
      && (forall i :: n <= i < |props| ==> !IsArrayIndex(props[i].key) || DigitsValue(props[i].key, 10) > DigitsValue(key, 10))
  {
    var n := InsertPosition(props, key);
    InsertPositionBelow(props, key);
    forall i | n <= i < |props| && IsArrayIndex(props[i].key)
      ensures DigitsValue(props[i].key, 10) > DigitsValue(key, 10)
    {
      // props[n] is not a smaller index; by the order neither is anything after it.
      assert !(IsArrayIndex(props[n].key) && DigitsValue(props[n].key, 10) < DigitsValue(key, 10)) by {
        InsertPositionStops(props, key);
      }
      if i > n {
        assert Keys(props)[n] == props[n].key && Keys(props)[i] == props[i].key;
      }
      IndexKeysDiffer(props[i].key, key);
    }
  }

  /** The properties before the insert position are indices below `key`. */
  lemma {:induction false} InsertPositionBelow(props: seq<Property>, key: seq<byte>)
    ensures forall i :: 0 <= i < InsertPosition(props, key) ==>
      IsArrayIndex(props[i].key) && DigitsValue(props[i].key, 10) < DigitsValue(key, 10)
  {
    if props != [] && IsArrayIndex(props[0].key) && DigitsValue(props[0].key, 10) < DigitsValue(key, 10) {
      InsertPositionBelow(props[1..], key);
      forall i | 1 <= i < InsertPosition(props, key)
        ensures IsArrayIndex(props[i].key) && DigitsValue(props[i].key, 10) < DigitsValue(key, 10)
      {
        assert props[i] == props[1..][i - 1];
      }
    }
  }

  /** The property at the insert position, if any, is not an index below `key`. */
  lemma {:induction false} InsertPositionStops(props: seq<Property>, key: seq<byte>)
    requires InsertPosition(props, key) < |props|
    ensures var n := InsertPosition(props, key);
      !(IsArrayIndex(props[n].key) && DigitsValue(props[n].key, 10) < DigitsValue(key, 10))
  {
    if IsArrayIndex(props[0].key) && DigitsValue(props[0].key, 10) < DigitsValue(key, 10) {
      InsertPositionStops(props[1..], key);
    }
  }

  /** Two different array indices have different values. */
  lemma IndexKeysDiffer(a: seq<byte>, b: seq<byte>)
    requires IsArrayIndex(a) && IsArrayIndex(b) && a != b
    ensures DigitsValue(a, 10) != DigitsValue(b, 10)
  {
    if DigitsValue(a, 10) == DigitsValue(b, 10) {
      CanonicalDigitsUnique(a, b);
    }
  }

  /** Canonical decimal texts with the same value are the same text. */
  lemma CanonicalDigitsUnique(a: seq<byte>, b: seq<byte>)
    requires IsArrayIndex(a) && IsArrayIndex(b) && DigitsValue(a, 10) == DigitsValue(b, 10)
    ensures a == b
  {
    DigitsValueBounds(a);
    DigitsValueBounds(b);
    if |a| < |b| {
      PowTenGrows(|a|, |b|);
    } else if |b| < |a| {
      PowTenGrows(|b|, |a|);
    }
    assert |a| == |b|;
    DigitsValueInjective(a, b);
  }

  function PowTen(n: nat): (p: nat)
    ensures p >= 1
  {
    if n == 0 then 1 else 10 * PowTen(n - 1)
  }

  lemma {:induction false} PowTenGrows(m: nat, n: nat)
    requires m < n
    ensures PowTen(m) * 10 <= PowTen(n)
    decreases n
  {
    if m + 1 < n {
      PowTenGrows(m, n - 1);
    }
  }

  /** A canonical decimal text of length k lies in [10^(k-1), 10^k), or is "0". */
  lemma {:induction false} DigitsValueBounds(a: seq<byte>)
    requires IsArrayIndex(a)
    ensures DigitsValue(a, 10) < PowTen(|a|)
    ensures |a| > 1 ==> PowTen(|a| - 1) <= DigitsValue(a, 10)
  {
    DigitsValueBelow(a);
    if |a| > 1 {
      DigitsValueAbove(a);
    }
  }

  lemma {:induction false} DigitsValueBelow(a: seq<byte>)
    requires AllDigits(a, 10)
    ensures DigitsValue(a, 10) < PowTen(|a|)
  {
    if a != [] {
      DigitsValueBelow(a[..|a| - 1]);
    }
  }

  /** Digits whose first digit is not 0 are worth at least 10^(k-1). */
  lemma {:induction false} DigitsValueAbove(a: seq<byte>)
    requires |a| >= 1 && AllDigits(a, 10) && DigitValue(a[0]) >= 1
    ensures PowTen(|a| - 1) <= DigitsValue(a, 10)
  {
    if |a| > 1 {
      var f := a[..|a| - 1];
      assert f[0] == a[0];
      DigitsValueAbove(f);
    }
  }

  /** Two digit texts of the same length and value are equal. */
  lemma {:induction false} DigitsValueInjective(a: seq<byte>, b: seq<byte>)
    requires AllDigits(a, 10) && AllDigits(b, 10) && |a| == |b|
    requires DigitsValue(a, 10) == DigitsValue(b, 10)
    ensures a == b
  {
    if a != [] {
      var k := |a| - 1;
      assert DigitValue(a[k]) == DigitsValue(a, 10) % 10 == DigitValue(b[k]);
      DigitValueInjective(a[k], b[k]);
      DigitsValueInjective(a[..k], b[..k]);
      assert a == a[..k] + [a[k]] && b == b[..k] + [b[k]];
    }
  }

  lemma DigitValueInjective(x: byte, y: byte)
    requires DigitValue(x) < 10 && DigitValue(x) == DigitValue(y)
    ensures x == y
  {
  }

  /** Setting a new key that keeps the keys in enumeration order (any key that is not an
      index, or an index above every present one) appends exactly that property. */
  lemma SetPropertyAppends(props: seq<Property>, key: seq<byte>, v: Value)
    requires key !in Keys(props) && key != ProtoKey
    requires InEnumerationOrder(Keys(props) + [key])
    ensures SetProperty(props, key, v) == props + [Property(key, v)]
  {
    if IsArrayIndex(key) {
      var ks := Keys(props) + [key];
      forall i | 0 <= i < |props|
        ensures IsArrayIndex(props[i].key) && DigitsValue(props[i].key, 10) < DigitsValue(key, 10)
      {
        assert ks[i] == props[i].key && ks[|props|] == key;
      }
      InsertPositionAtEnd(props, key);
      assert props[..|props|] == props && props[|props|..] == [];
    }
  }

  /** When every property is an index below `key`, the insert position is the end. */
  lemma {:induction false} InsertPositionAtEnd(props: seq<Property>, key: seq<byte>)
    requires forall i :: 0 <= i < |props| ==>
      IsArrayIndex(props[i].key) && DigitsValue(props[i].key, 10) < DigitsValue(key, 10)
    ensures InsertPosition(props, key) == |props|
  {
    if props != [] {
      assert forall i :: 0 <= i < |props| - 1 ==> props[1..][i] == props[i + 1];
      InsertPositionAtEnd(props[1..], key);
    }
  }
}
