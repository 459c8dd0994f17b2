/** V8's conversions of host values that the bridge relies on: ToNumber and ToInteger behind
    Value::IntegerValue, ToString behind String::Utf8Value and Value::ToString, the UTF-8
    decoding of String::NewFromUtf8, and Number::New. Numbers follow the IEEE-754 binary64
    format and the algorithms of ECMA-262 (StringToNumber, section 7.1.4.1.1, and
    Number::toString, section 6.1.6.1.20). */
module JsConversions {
  import opened Wrappers
  import opened Bytes
  import opened JsValues

  /*************************************************************************************
   * Doubles by value
   *************************************************************************************/

  /** A double by its value: NaN, an infinity, or (-1)^negative * significand * 2^exponent
      (a zero keeps its sign). */
  datatype Double = NaN | Infinity(negative: bool) | Finite(negative: bool, significand: nat, exponent: int)

  const TwoTo23: nat := 0x80_0000
  const TwoTo52: nat := 0x10_0000_0000_0000
  const TwoTo53: nat := 0x20_0000_0000_0000
  const TwoTo63: nat := 0x8000_0000_0000_0000
  const Int64Min: int := -0x8000_0000_0000_0000
  const Int64Max: int := 0x7FFF_FFFF_FFFF_FFFF

  function Pow2(n: nat): (p: nat)
    ensures p >= 1
  {
    if n == 0 then 1 else 2 * Pow2(n - 1)
  }

  /** a * b, a natural number, positive when both factors are. */
  function Product(a: nat, b: nat): (r: nat)
    ensures a > 0 && b > 0 ==> r > 0
  {
    a * b
  }

  /** a / b for a positive b, a natural number. */
  function Quotient(a: nat, b: nat): (r: nat)
    requires b > 0
  {
    a / b
  }

  /** The value of the binary64 encoding `bits` (sign bit, 11 exponent bits, 52 fraction bits). */
  function DecodeDouble(bits: nat): Double {
    var negative := (bits / TwoTo63) % 2 == 1;
    var field := (bits / TwoTo52) % 0x800;
    var fraction := bits % TwoTo52;
    if field == 0x7FF then (if fraction == 0 then Infinity(negative) else NaN)
    else if field == 0 then Finite(negative, fraction, -1074)
    else Finite(negative, fraction + TwoTo52, field - 1075)
  }

  /** The value of the binary32 encoding `bits` (sign bit, 8 exponent bits, 23 fraction bits),
      which a Float32Array element converts to exactly. */
  function DecodeSingle(bits: nat): Double {
    var negative := (bits / 0x8000_0000) % 2 == 1;
    var field := (bits / TwoTo23) % 0x100;
    var fraction := bits % TwoTo23;
    if field == 0xFF then (if fraction == 0 then Infinity(negative) else NaN)
    else if field == 0 then Finite(negative, fraction, -149)
    else Finite(negative, fraction + TwoTo23, field - 150)
  }

  /** The value of a host number. */
  function NumberOf(d: Float64): Double {
    match d
    case Integer(i) => Finite(i < 0, if i < 0 then -i else i, 0)
    case NonInteger(bits) => DecodeDouble(bits)
  }

  /** The encoding Number::New stores: every NaN becomes the canonical quiet NaN
      0x7FF8000000000000, any other double is kept. */
  function NewNumber(d: Float64): (r: Float64)
    ensures NumberOf(r) == NumberOf(d)
    ensures NumberOf(d).NaN? ==> r == NonInteger(CanonicalNaN)
    ensures !NumberOf(d).NaN? ==> r == d
  {
    CanonicalNaNIsNaN();
    if NumberOf(d).NaN? then NonInteger(CanonicalNaN) else d
  }

  const CanonicalNaN: Bits64 := 0x7FF8_0000_0000_0000

  lemma CanonicalNaNIsNaN()
    ensures DecodeDouble(CanonicalNaN).NaN?
  {
    assert 0x7FF8_0000_0000_0000 / TwoTo52 == 0x7FF;
    assert 0x7FF8_0000_0000_0000 % TwoTo52 == 0x8_0000_0000_0000;
  }

  /** The magnitude of a finite double with its fraction dropped. */
  function TruncatedMagnitude(significand: nat, exponent: int): nat {
    if exponent >= 0 then Product(significand, Pow2(exponent)) else Quotient(significand, Pow2(-exponent))
  }

  /** V8's NumberToInt64: NaN gives 0, a value at or beyond the int64 range saturates, and
      any other value is truncated toward zero. */
  function NumberToInt64(d: Double): (i: int)
    ensures Int64Min <= i <= Int64Max
    ensures d.Finite? && !d.negative && TruncatedMagnitude(d.significand, d.exponent) < TwoTo63 ==>
      i == TruncatedMagnitude(d.significand, d.exponent)
    ensures d.Finite? && d.negative && TruncatedMagnitude(d.significand, d.exponent) < TwoTo63 ==>
      i == -(TruncatedMagnitude(d.significand, d.exponent) as int)
  {
    match d
    case NaN => 0
    case Infinity(negative) => if negative then Int64Min else Int64Max
    case Finite(negative, s, e) =>
      var m := TruncatedMagnitude(s, e);
      if m >= TwoTo63 then (if negative then Int64Min else Int64Max)
      else if negative then -(m as int) else m
  }

  /*************************************************************************************
   * Rounding to a double
   *************************************************************************************/

  /** floor(log2(p / q)). */
  function Log2Floor(p: nat, q: nat): int
    requires p > 0 && q > 0
    decreases if p < q then 1 else 0, if p < q then q - p else p - q
  {
    if p >= 2 * q then Log2Floor(p, 2 * q) + 1
    else if p < q then Log2Floor(2 * p, q) - 1
    else 0
  }

  /** p / q rounded to an integer, ties to the even one. */
  function RoundHalfEven(p: nat, q: nat): nat
    requires q > 0
  {
    var n := Quotient(p, q);
    var r := p % q;
    if 2 * r < q || (2 * r == q && n % 2 == 0) then n else n + 1
  }

  /** The Number value of (-1)^negative * p / q (section 6.1.6.1 of ECMA-262): the nearest
      double, ties to an even significand, and an infinity when the magnitude rounds to
      2^1024 or beyond. */
  function RoundToDouble(negative: bool, p: nat, q: nat): Double
    requires q > 0
  {
    if p == 0 then Finite(negative, 0, 0)
    else
      var e := Log2Floor(p, q);
      if e > 1023 then Infinity(negative)
      else
        var u := if e - 52 < -1074 then -1074 else e - 52;
        var m := if u >= 0 then RoundHalfEven(p, Product(q, Pow2(u))) else RoundHalfEven(Product(p, Pow2(-u)), q);
        if u == 971 && m == TwoTo53 then Infinity(negative) else Finite(negative, m, u)
  }

  /** significand * 2^exponent == p / q. */
  predicate SameValue(significand: nat, exponent: int, p: nat, q: nat) {
    if exponent >= 0 then significand * Pow2(exponent) * q == p
    else significand * q == p * Pow2(-exponent)
  }

  /*************************************************************************************
   * StringToNumber
   *************************************************************************************/

  /** The encodings of the characters StringToNumber trims: white space and line
      terminators (sections 12.2 and 12.3 of ECMA-262): TAB, LF, VT, FF, CR, SPACE,
      NO-BREAK SPACE, ZERO WIDTH NO-BREAK SPACE, LINE and PARAGRAPH SEPARATOR, and the
      space separators of Unicode category Zs. */
  predicate IsSpace(c: seq<byte>) {
    c in {[9], [10], [11], [12], [13], [32], [0xC2, 0xA0], [0xE1, 0x9A, 0x80], [0xE2, 0x80, 0xA8],
          [0xE2, 0x80, 0xA9], [0xE2, 0x80, 0xAF], [0xE2, 0x81, 0x9F], [0xE3, 0x80, 0x80], [0xEF, 0xBB, 0xBF]}
    || (|c| == 3 && c[0] == 0xE2 && c[1] == 0x80 && 0x80 <= c[2] <= 0x8A)
  }

  /** The byte length of a space character at the start of `s`, or 0. */
  function SpaceAtStart(s: seq<byte>): (n: nat)
    ensures n <= |s|
  {
    if |s| >= 1 && IsSpace(s[..1]) then 1
    else if |s| >= 2 && IsSpace(s[..2]) then 2
    else if |s| >= 3 && IsSpace(s[..3]) then 3
    else 0
  }

  /** The byte length of a space character at the end of `s`, or 0. */
  function SpaceAtEnd(s: seq<byte>): (n: nat)
    ensures n <= |s|
  {
    if |s| >= 1 && IsSpace(s[|s| - 1..]) then 1
    else if |s| >= 2 && IsSpace(s[|s| - 2..]) then 2
    else if |s| >= 3 && IsSpace(s[|s| - 3..]) then 3
    else 0
  }

  /** The text with leading and trailing space characters removed. */
  function TrimSpace(s: seq<byte>): (t: seq<byte>)
    ensures |t| <= |s|
    decreases |s|
  {
    if SpaceAtStart(s) > 0 then TrimSpace(s[SpaceAtStart(s)..])
    else if SpaceAtEnd(s) > 0 then TrimSpace(s[..|s| - SpaceAtEnd(s)])
    else s
  }

  /** The number of leading bytes of `s` that are digits of base `base`. */
  function DigitRun(s: seq<byte>, base: nat): (n: nat)
    ensures n <= |s|
    ensures AllDigits(s[..n], base)
    ensures n < |s| ==> DigitValue(s[n]) >= base
  {
    if s == [] || DigitValue(s[0]) >= base then 0
    else
      var n := DigitRun(s[1..], base);
      assert s[..n + 1] == [s[0]] + s[1..][..n];
      1 + n
  }

  /** The exponent part of a decimal literal, which ends the text: nothing (exponent 0), or
      'e' or 'E', an optional sign and at least one digit. */
  function ExponentPart(t: seq<byte>): Option<int> {
    if t == [] then Some(0)
    else if t[0] != 101 && t[0] != 69 then None
    else
      var signed := |t| > 1 && (t[1] == 43 || t[1] == 45);
      var ds := if signed then t[2..] else t[1..];
      if ds == [] || !AllDigits(ds, 10) then None
      else if signed && t[1] == 45 then Some(-(DigitsValue(ds, 10) as int))
      else Some(DigitsValue(ds, 10))
  }

  /** The value of an unsigned decimal literal (digits, an optional fraction, an optional
      exponent; at least one digit before or after the point) as a fraction p / q. */
  function UnsignedDecimal(t: seq<byte>): (r: Option<(nat, nat)>)
    ensures r.Some? ==> r.value.1 > 0
  {
    var a := DigitRun(t, 10);
    var whole := t[..a];
    var rest := t[a..];
    var fraction := if rest != [] && rest[0] == 46 then rest[1..][..DigitRun(rest[1..], 10)] else [];
    var tail := if rest != [] && rest[0] == 46 then rest[1..][DigitRun(rest[1..], 10)..] else rest;
    if |whole| + |fraction| == 0 then None
    else
      match ExponentPart(tail)
      case None => None
      case Some(x) =>
        var digits := DigitsValue(whole + fraction, 10);
        var scale := x - |fraction|;
        if scale >= 0 then Some((Product(digits, PowTen(scale)), 1)) else Some((digits, PowTen(-scale)))
  }

  const InfinityText: seq<byte> := [73, 110, 102, 105, 110, 105, 116, 121]

  /** StringToNumber: the trimmed text as a hexadecimal, octal or binary integer literal
      (no sign), as "Infinity" with an optional sign, or as a signed decimal literal, rounded
      to a double; the empty text gives +0 and anything else NaN. */
  function StringToNumber(s: seq<byte>): Double {
    var t := TrimSpace(s);
    if t == [] then Finite(false, 0, 0)
    else if |t| > 2 && t[0] == 48 && t[1] in {120, 88, 111, 79, 98, 66} then
      var base := if t[1] == 120 || t[1] == 88 then 16 else if t[1] == 111 || t[1] == 79 then 8 else 2;
      if AllDigits(t[2..], base) then RoundToDouble(false, DigitsValue(t[2..], base), 1) else NaN
    else
      var negative := t[0] == 45;
      var body := if t[0] == 43 || t[0] == 45 then t[1..] else t;
      if body == InfinityText then Infinity(negative)
      else
        match UnsignedDecimal(body)
        case Some((p, q)) => RoundToDouble(negative, p, q)
        case None => NaN
  }

  /*************************************************************************************
   * Number::toString
   *************************************************************************************/

  /** The decimal digits of `s` written with exactly `k` digits, most significant first. */
  function FixedDigits(s: nat, k: nat): (r: seq<byte>)
    ensures |r| == k
    ensures AllDigits(r, 10)
  {
    if k == 0 then [] else FixedDigits(s / 10, k - 1) + [(48 + s % 10) as byte]
  }

  /** The number of decimal digits of `n` (1 for 0). */
  function DigitCount(n: nat): (k: nat)
    ensures k >= 1
  {
    if n < 10 then 1 else 1 + DigitCount(n / 10)
  }

  /** The decimal text of a natural number. */
  function Decimal(n: nat): seq<byte> {
    FixedDigits(n, DigitCount(n))
  }

  /** floor(log10(p / q)). */
  function Log10Floor(p: nat, q: nat): int
    requires p > 0 && q > 0
    decreases if p < q then 1 else 0, if p < q then q - p else p - q
  {
    if p >= 10 * q then Log10Floor(p, 10 * q) + 1
    else if p < q then Log10Floor(10 * p, q) - 1
    else 0
  }

  /** The double nearest to s * 10^e is the positive double whose value is p / q. */
  predicate Denotes(s: nat, e: int, p: nat, q: nat)
    requires q > 0
  {
    var c := if e >= 0 then RoundToDouble(false, Product(s, PowTen(e)), 1) else RoundToDouble(false, s, PowTen(-e));
    c.Finite? && SameValue(c.significand, c.exponent, p, q)
  }

  /** Digits s that reached 10^k stand for the (k)-digit s / 10 one decimal place up. */
  function Carry(s: nat, k: nat, n: int): (nat, nat, int)
    requires k >= 1
  {
    if s == PowTen(k) then (PowTen(k - 1), k, n + 1) else (s, k, n)
  }

  /** The digits s, their count k and the decimal exponent n of the positive double of value
      p / q, as Number::toString chooses them: s * 10^(n - k) denotes the double, k is as small
      as possible, and of the candidates with k digits the one closest to p / q is taken, the
      even one on a tie. Only the two k-digit numbers next to p / q can be closest; seventeen
      digits always denote a double exactly, so the search stops there. */
  function Shortest(p: nat, q: nat, k: nat): (r: (nat, nat, int))
    requires p > 0 && q > 0 && 1 <= k <= 17
    ensures r.1 >= 1
    decreases 17 - k
  {
    var n := Log10Floor(p, q) + 1;
    var c := Candidates(p, q, k, n);
    var loOk := Denotes(c.0, n - k, p, q);
    var hiOk := Denotes(c.0 + 1, n - k, p, q);
    if loOk && hiOk then (if c.1 then (c.0, k, n) else Carry(c.0 + 1, k, n))
    else if loOk then (c.0, k, n)
    else if hiOk then Carry(c.0 + 1, k, n)
    else if k == 17 then (c.0, k, n)
    else Shortest(p, q, k + 1)
  }

  /** For the value x = p / q with 10^(n-1) <= x < 10^n: the k-digit number lo with
      lo <= x * 10^(k-n) < lo + 1, and whether lo is the closer of lo and lo + 1 (on a tie,
      whether it is even). */
  function Candidates(p: nat, q: nat, k: nat, n: int): (nat, bool)
    requires q > 0
  {
    var num := if k - n >= 0 then Product(p, PowTen(k - n)) else p;
    var den := if k - n >= 0 then q else Product(q, PowTen(n - k));
    var lo := Quotient(num, den);
    var twice := 2 * (num % den);
    (lo, twice < den || (twice == den && lo % 2 == 0))
  }

  /** `n` copies of the digit 0. */
  function Zeros(n: nat): (r: seq<byte>)
    ensures |r| == n
  {
    seq(n, _ => 48)
  }

  /** The text of a positive double with digits s (k of them) and decimal exponent n: plain
      digits when 10^-7 <= value < 10^21, exponent notation otherwise. */
  function FormatDecimal(s: nat, k: nat, n: int): seq<byte>
    requires k >= 1
  {
    var ds := FixedDigits(s, k);
    if k <= n <= 21 then ds + Zeros(n - k)
    else if 0 < n <= 21 then ds[..n] + [46] + ds[n..]
    else if -6 < n <= 0 then [48, 46] + Zeros(-n) + ds
    else
      var e := n - 1;
      var exponent := [101] + (if e >= 0 then [43] else [45]) + Decimal(if e >= 0 then e else -e);
      if k == 1 then ds + exponent else ds[..1] + [46] + ds[1..] + exponent
  }

  /** Number::toString(x) in base 10. */
  function NumberText(d: Double): seq<byte> {
    match d
    case NaN => [78, 97, 78]
    case Infinity(negative) => (if negative then [45] else []) + InfinityText
    case Finite(negative, m, u) =>
      if m == 0 then [48]
      else
        var p := if u >= 0 then Product(m, Pow2(u)) else m;
        var q := if u >= 0 then 1 else Pow2(-u);
        var r := Shortest(p, q, 1);
        (if negative then [45] else []) + FormatDecimal(r.0, r.1, r.2)
  }

  /*************************************************************************************
   * ToString and ToNumber of host values
   *************************************************************************************/

  function BoolText(b: bool): seq<byte> {
    if b then [116, 114, 117, 101] else [102, 97, 108, 115, 101]
  }

  /** The number of bytes of one element of a typed array. */
  function ElementSize(kind: ViewKind): nat
    requires kind != DataView
  {
    match kind
    case Int8 => 1
    case Uint8 => 1
    case Uint8Clamped => 1
    case Int16 => 2
    case Uint16 => 2
    case Int32 => 4
    case Uint32 => 4
    case Float32 => 4
    case Float64View => 8
  }

  function Pow256(n: nat): (p: nat)
    ensures p >= 1
  {
    if n == 0 then 1 else 256 * Pow256(n - 1)
  }

  /** The unsigned little-endian value of `bs`. */
  function LittleEndian(bs: seq<byte>): (u: nat)
    ensures u < Pow256(|bs|)
  {
    if bs == [] then 0 else bs[0] + 256 * LittleEndian(bs[1..])
  }

  /** The number a typed-array element with bytes `bs` reads as. */
  function ElementNumber(kind: ViewKind, bs: seq<byte>): Double
    requires kind != DataView
  {
    var u := LittleEndian(bs);
    if kind == Float32 then DecodeSingle(u)
    else if kind == Float64View then DecodeDouble(u)
    else
      var signed := kind == Int8 || kind == Int16 || kind == Int32;
      var half := Pow256(|bs|) / 2;
      if signed && u >= half then Finite(true, Pow256(|bs|) - u, 0) else Finite(false, u, 0)
  }

  /** The bytes a view covers: `length` bytes from `offset` of its buffer (a detached view
      covers none). */
  function ViewBytes(buffer: Option<seq<byte>>, offset: nat, length: nat): seq<byte> {
    match buffer
    case None => []
    case Some(b) => if offset + length <= |b| then b[offset..offset + length] else []
  }

  /** The texts of the elements of a typed array over `bs`, joined by commas
      (Array.prototype.join, which TypedArray.prototype.toString is). */
  function ElementTexts(kind: ViewKind, bs: seq<byte>): seq<byte>
    requires kind != DataView
    decreases |bs|
  {
    var size := ElementSize(kind);
    if |bs| < size then []
    else
      var first := NumberText(ElementNumber(kind, bs[..size]));
      if |bs| < 2 * size then first else first + [44] + ElementTexts(kind, bs[size..])
  }

  /** ToString of a host value (section 7.1.17 of ECMA-262), as the UTF-8 bytes
      String::Utf8Value yields; None when there is no value or the conversion throws (a
      Symbol, a boxed string whose conversion throws, an array holding either). Objects
      convert through Object.prototype.toString or, for arrays and typed arrays, join. */
  function ToStringText(v: Value): Option<seq<byte>>
    decreases v, 1
  {
    match v
    case Empty => None
    case Undefined => Some([117, 110, 100, 101, 102, 105, 110, 101, 100])
    case Null => Some([110, 117, 108, 108])
    case Boolean(b) => Some(BoolText(b))
    case BooleanObject(b) => Some(BoolText(b))
    case Number(d) => Some(NumberText(NumberOf(d)))
    case NumberObject(d) => Some(NumberText(NumberOf(d)))
    case String(s) => Some(s)
    case StringObject(c) => c
    case ArrayBuffer(_) => Some(ObjectTag([65, 114, 114, 97, 121, 66, 117, 102, 102, 101, 114]))
    case SharedArrayBuffer(_) =>
      Some(ObjectTag([83, 104, 97, 114, 101, 100, 65, 114, 114, 97, 121, 66, 117, 102, 102, 101, 114]))
    case ArrayBufferView(kind, buffer, offset, length) =>
      if kind == DataView then Some(ObjectTag([68, 97, 116, 97, 86, 105, 101, 119]))
      else Some(ElementTexts(kind, ViewBytes(buffer, offset, length)))
    case Array(es) => JoinElements(es)
    case Object(_) => Some(ObjectTag([79, 98, 106, 101, 99, 116]))
    case Symbol(_) => None
  }

  /** "[object " + tag + "]". */
  function ObjectTag(tag: seq<byte>): seq<byte> {
    [91, 111, 98, 106, 101, 99, 116, 32] + tag + [93]
  }

  /** Array.prototype.join with ",": undefined and null (and holes) give empty texts. */
  function JoinElements(es: seq<Value>): Option<seq<byte>>
    decreases es, 0
  {
    if es == [] then Some([])
    else
      var front := JoinElements(es[..|es| - 1]);
      var last := es[|es| - 1];
      var t := if last.Undefined? || last.Null? || last.Empty? then Some([]) else ToStringText(last);
      if front.None? || t.None? then None
      else if |es| == 1 then t
      else Some(front.value + [44] + t.value)
  }

  /** ToNumber of a host value (section 7.1.4 of ECMA-262); None when it throws. An object is
      first converted to a primitive: a boxed value gives the value it boxes, any other object
      its ToString text. */
  function ToNumber(v: Value): Option<Double>
    requires !v.Empty?
  {
    match v
    case Undefined => Some(NaN)
    case Null => Some(Finite(false, 0, 0))
    case Boolean(b) => Some(Finite(false, if b then 1 else 0, 0))
    case BooleanObject(b) => Some(Finite(false, if b then 1 else 0, 0))
    case Number(d) => Some(NumberOf(d))
    case NumberObject(d) => Some(NumberOf(d))
    case String(s) => Some(StringToNumber(s))
    case Symbol(_) => None
    case _ =>
      match ToStringText(v)
      case Some(t) => Some(StringToNumber(t))
      case None => None
  }

  /** Value::IntegerValue() as the bridge calls it on a reply: NumberToInt64 of ToNumber of
      the value, 0 when ToNumber throws, and None for an empty handle, which the bridge
      dereferences. */
  function IntegerValue(v: Value): (r: Option<int>)
    ensures r.None? <==> v.Empty?
    ensures r.Some? ==> Int64Min <= r.value <= Int64Max
  {
    if v.Empty? then None
    else
      match ToNumber(v)
      case Some(d) => Some(NumberToInt64(d))
      case None => Some(0)
  }

  /** string_to_cc: the bytes String::Utf8Value yields, and the empty string when it yields
      none (an empty handle, or a conversion that throws). */
  function Text(v: Value): seq<byte> {
    match ToStringText(v)
    case Some(t) => t
    case None => []
  }

  /*************************************************************************************
   * String::NewFromUtf8
   *************************************************************************************/

  /** The number of continuation bytes a UTF-8 lead byte announces (0 for ASCII and for a
      byte that cannot start a sequence). */
  function ContinuationCount(lead: byte): nat {
    if 0xC2 <= lead <= 0xDF then 1
    else if 0xE0 <= lead <= 0xEF then 2
    else if 0xF0 <= lead <= 0xF4 then 3
    else 0
  }

  /** Bytes that start a well-formed sequence: ASCII and C2-F4. */
  predicate IsLead(lead: byte) {
    lead < 0x80 || 0xC2 <= lead <= 0xF4
  }

  /** The byte at index i (1 <= i) may continue the sequence that `s` starts with: the
      second byte of E0, ED, F0 and F4 sequences has a narrower range (no overlong forms,
      no surrogates, nothing above U+10FFFF), every other one is 80-BF. */
  predicate ContinuesAt(s: seq<byte>, i: nat)
    requires 1 <= i < |s|
  {
    if i == 1 && s[0] == 0xE0 then 0xA0 <= s[1] <= 0xBF
    else if i == 1 && s[0] == 0xED then 0x80 <= s[1] <= 0x9F
    else if i == 1 && s[0] == 0xF0 then 0x90 <= s[1] <= 0xBF
    else if i == 1 && s[0] == 0xF4 then 0x80 <= s[1] <= 0x8F
    else 0x80 <= s[i] <= 0xBF
  }

  /** The number of bytes from index i on, up to index `last`, that continue the sequence. */
  function Continued(s: seq<byte>, i: nat, last: nat): (n: nat)
    requires 1 <= i
    ensures n <= last + 1 - i || (i > last && n == 0)
    ensures i + n <= |s| || n == 0
    decreases last + 1 - i
  {
    if i > last || i >= |s| || !ContinuesAt(s, i) then 0 else 1 + Continued(s, i + 1, last)
  }

  /** The bytes a UTF-8 decoder takes as one unit at the start of `s`: a whole well-formed
      sequence, or else the maximal subpart of an ill-formed one (at least one byte). */
  function UnitLength(s: seq<byte>): (n: nat)
    requires s != []
    ensures 1 <= n <= |s|
  {
    if !IsLead(s[0]) then 1
    else 1 + Continued(s, 1, ContinuationCount(s[0]))
  }

  /** The unit at the start of `s` is a whole well-formed sequence. */
  predicate CompleteUnit(s: seq<byte>)
    requires s != []
  {
    IsLead(s[0]) && UnitLength(s) == 1 + ContinuationCount(s[0])
  }

  /** Well-formed UTF-8 (section 3.9 of the Unicode Standard). */
  predicate WellFormedUtf8(s: seq<byte>)
    decreases |s|
  {
    s == [] || (CompleteUnit(s) && WellFormedUtf8(s[UnitLength(s)..]))
  }

  const Replacement: seq<byte> := [0xEF, 0xBF, 0xBD]

  /** The UTF-8 encoding of the string String::NewFromUtf8 makes of `s`: each ill-formed
      maximal subpart is replaced by U+FFFD, everything else is kept. */
  function NewFromUtf8(s: seq<byte>): seq<byte>
    decreases |s|
  {
    if s == [] then []
    else (if CompleteUnit(s) then s[..UnitLength(s)] else Replacement) + NewFromUtf8(s[UnitLength(s)..])
  }

  /*************************************************************************************
   * Properties of NewFromUtf8
   *************************************************************************************/

  /** Well-formed UTF-8 passes through String::NewFromUtf8 unchanged. */
  lemma {:induction false} NewFromUtf8KeepsWellFormed(s: seq<byte>)
    requires WellFormedUtf8(s)
    ensures NewFromUtf8(s) == s
    decreases |s|
  {
    if s != [] {
      NewFromUtf8KeepsWellFormed(s[UnitLength(s)..]);
      assert s == s[..UnitLength(s)] + s[UnitLength(s)..];
    }
  }

  /** Whatever the bytes, the string String::NewFromUtf8 makes is well-formed UTF-8, so a
      second pass changes nothing. */
  lemma {:induction false} NewFromUtf8IsWellFormed(s: seq<byte>)
    ensures WellFormedUtf8(NewFromUtf8(s))
    ensures NewFromUtf8(NewFromUtf8(s)) == NewFromUtf8(s)
    decreases |s|
  {
    if s != [] {
      var n := UnitLength(s);
      NewFromUtf8IsWellFormed(s[n..]);
      if CompleteUnit(s) {
        ContinuedPrefix(s[..n], s, 1, ContinuationCount(s[0]));
        UnitThenWellFormed(s[..n], NewFromUtf8(s[n..]));
      } else {
        ReplacementIsUnit();
        UnitThenWellFormed(Replacement, NewFromUtf8(s[n..]));
      }
    }
    NewFromUtf8KeepsWellFormed(NewFromUtf8(s));
  }

  /** The continuation test up to index `last` sees only the first last + 1 bytes. */
  lemma {:induction false} ContinuedPrefix(s: seq<byte>, s': seq<byte>, i: nat, last: nat)
    requires 1 <= i && last < |s| <= |s'| && s == s'[..|s|]
    ensures Continued(s, i, last) == Continued(s', i, last)
    decreases last + 1 - i
  {
    if i <= last {
      ContinuedPrefix(s, s', i + 1, last);
    }
  }

  /** U+FFFD is one complete unit. */
  lemma ReplacementIsUnit()
    ensures CompleteUnit(Replacement) && UnitLength(Replacement) == |Replacement|
  {
    assert Continued(Replacement, 3, 2) == 0;
    assert Continued(Replacement, 2, 2) == 1;
  }

  /** A complete unit followed by well-formed UTF-8 is well-formed UTF-8. */
  lemma UnitThenWellFormed(u: seq<byte>, t: seq<byte>)
    requires u != [] && CompleteUnit(u) && UnitLength(u) == |u|
    requires WellFormedUtf8(t)
    ensures WellFormedUtf8(u + t)
  {
    if IsLead(u[0]) {
      ContinuedPrefix(u, u + t, 1, ContinuationCount(u[0]));
    }
    assert (u + t)[|u|..] == t;
  }

  /** The decoder replaces each maximal ill-formed subpart by one U+FFFD: a stray byte, a
      truncated sequence, and each byte of an encoded surrogate. */
  lemma NewFromUtf8Replaces()
    ensures NewFromUtf8([0xFF, 0x41]) == Replacement + [0x41]
    ensures NewFromUtf8([0xE2, 0x82]) == Replacement
    ensures NewFromUtf8([0xED, 0xA0, 0x80]) == Replacement + Replacement + Replacement
  {
    StrayByteReplaced();
    TruncatedReplaced();
    SurrogateReplaced();
  }

  lemma StrayByteReplaced()
    ensures NewFromUtf8([0xFF, 0x41]) == Replacement + [0x41]
  {
    var a: seq<byte> := [0xFF, 0x41];
    assert a[1..] == [0x41] && [0x41][1..] == [];
    assert NewFromUtf8([0x41]) == [0x41];
  }

  lemma TruncatedReplaced()
    ensures NewFromUtf8([0xE2, 0x82]) == Replacement
  {
    var b: seq<byte> := [0xE2, 0x82];
    assert Continued(b, 2, 2) == 0;
    assert b[2..] == [];
  }

  lemma SurrogateReplaced()
    ensures NewFromUtf8([0xED, 0xA0, 0x80]) == Replacement + Replacement + Replacement
  {
    var c: seq<byte> := [0xED, 0xA0, 0x80];
    assert Continued(c, 1, 2) == 0;
    assert c[1..] == [0xA0, 0x80] && c[1..][1..] == [0x80] && [0x80 as byte][1..] == [];
    assert NewFromUtf8([0x80]) == Replacement;
    assert NewFromUtf8([0xA0, 0x80]) == Replacement + Replacement;
  }

  /*************************************************************************************
   * Properties of Text
   *************************************************************************************/

  /** What string_to_cc makes of replies: a string's bytes, "null" and "0" for null and
      zero, Object.prototype.toString's tag for a plain object, and nothing for an empty
      handle or a Symbol. */
  lemma TextOfValues(s: seq<byte>, ps: seq<Property>, sym: seq<byte>)
    ensures Text(String(s)) == s
    ensures Text(Null) == [110, 117, 108, 108] && Text(Number(Integer(0))) == [48]
    ensures Text(Object(ps)) == [91, 111, 98, 106, 101, 99, 116, 32, 79, 98, 106, 101, 99, 116, 93]
    ensures Text(Empty) == [] && Text(Symbol(sym)) == []
  {
    assert NumberText(Finite(false, 0, 0)) == [48];
  }

  /** An array reads as its elements joined by commas, null and undefined left empty. */
  lemma TextOfArray(s: seq<byte>)
    ensures Text(Array([Null, String(s), Undefined])) == [44] + s + [44]
  {
    assert [Null][..0] == [];
    assert JoinElements([Null]) == Some([]);
    JoinElementsSnoc([Null], String(s));
    assert [Null] + [String(s)] == [Null, String(s)];
    JoinElementsSnoc([Null, String(s)], Undefined);
    assert [Null, String(s)] + [Undefined] == [Null, String(s), Undefined];
    assert [] + [44] + s + [44] + [] == [44] + s + [44];
  }

  /** Joining one more element appends a comma and its text. */
  lemma JoinElementsSnoc(es: seq<Value>, v: Value)
    requires es != []
    ensures var t := if v.Undefined? || v.Null? || v.Empty? then Some([]) else ToStringText(v);
      JoinElements(es + [v]) ==
        if JoinElements(es).None? || t.None? then None else Some(JoinElements(es).value + [44] + t.value)
  {
    assert (es + [v])[..|es|] == es;
  }

  /*************************************************************************************
   * Properties of IntegerValue
   *************************************************************************************/

  /** An integral number reads as itself, saturated to the int64 range. */
  lemma IntegerValueOfInteger(i: int)
    ensures IntegerValue(Number(Integer(i))) == Some(if i < Int64Min then Int64Min else if i > Int64Max then Int64Max else i)
    ensures IntegerValue(NumberObject(Integer(i))) == IntegerValue(Number(Integer(i)))
  {
  }

  /** null, false, undefined (NaN), the empty string and a Symbol (whose conversion throws)
      read as 0, and true as 1. */
  lemma IntegerValueOfPrimitives(sym: seq<byte>)
    ensures IntegerValue(Null) == Some(0) && IntegerValue(Undefined) == Some(0)
    ensures IntegerValue(Boolean(false)) == Some(0) && IntegerValue(Boolean(true)) == Some(1)
    ensures IntegerValue(String([])) == Some(0) && IntegerValue(Symbol(sym)) == Some(0)
  {
    assert TrimSpace([]) == [];
  }

  /** An ordinary object reads as 0: its text "[object Object]" is no numeric literal. */
  lemma IntegerValueOfObject(ps: seq<Property>)
    ensures IntegerValue(Object(ps)) == Some(0)
  {
    var v := Object(ps);
    var t := ObjectTag([79, 98, 106, 101, 99, 116]);
    assert ToStringText(v) == Some(t);
    ObjectTextIsNaN();
    assert ToNumber(v) == Some(NaN);
  }

  /** "[object Object]" has no space to trim and reads as NaN. */
  lemma ObjectTextIsNaN()
    ensures StringToNumber(ObjectTag([79, 98, 106, 101, 99, 116])) == NaN
  {
    var t := ObjectTag([79, 98, 106, 101, 99, 116]);
    assert t == [91, 111, 98, 106, 101, 99, 116, 32, 79, 98, 106, 101, 99, 116, 93];
    SpaceShape(t[..1]);
    SpaceShape(t[..2]);
    SpaceShape(t[..3]);
    SpaceShape(t[|t| - 1..]);
    SpaceShape(t[|t| - 2..]);
    SpaceShape(t[|t| - 3..]);
    assert SpaceAtStart(t) == 0 && SpaceAtEnd(t) == 0;
    assert TrimSpace(t) == t;
    assert t != [] && DigitValue(t[0]) == 16;
    assert DigitRun(t, 10) == 0;
    assert UnsignedDecimal(t) == None;
  }

  /** The decimal text of an integer of magnitude below 2^53, with a minus sign when
      negative, reads back as that integer. */
  lemma IntegerValueOfDecimal(negative: bool, n: nat)
    requires n < TwoTo53
    ensures IntegerValue(String((if negative then [45] else []) + Decimal(n))) == Some(if negative then -(n as int) else n)
  {
    StringToNumberOfDecimal(negative, n);
    RoundsExactly(negative, n);
  }

  /** StringToNumber of an optional minus sign followed by digits is the nearest double. */
  lemma StringToNumberOfDecimal(negative: bool, n: nat)
    ensures StringToNumber((if negative then [45] else []) + Decimal(n)) == RoundToDouble(negative, n, 1)
  {
    var ds := Decimal(n);
    var t := (if negative then [45] else []) + ds;
    DecimalDigits(n);
    SignedDigitsShape(negative, ds);
    NotSpaceAtEnds(t);
    assert TrimSpace(t) == t;
    assert !(|t| > 2 && t[0] == 48 && t[1] in {120, 88, 111, 79, 98, 66});
    var body := if t[0] == 43 || t[0] == 45 then t[1..] else t;
    assert body == ds;
    assert body != InfinityText;
    UnsignedDecimalOfDigits(ds);
    StringToNumberOfBody(t, negative, body);
  }

  /** StringToNumber of trimmed text without a radix prefix or "Infinity" reads its body
      as an unsigned decimal literal. */
  lemma StringToNumberOfBody(t: seq<byte>, negative: bool, body: seq<byte>)
    requires t != [] && TrimSpace(t) == t
    requires !(|t| > 2 && t[0] == 48 && t[1] in {120, 88, 111, 79, 98, 66})
    requires negative == (t[0] == 45) && body == (if t[0] == 43 || t[0] == 45 then t[1..] else t)
    requires body != InfinityText
    ensures UnsignedDecimal(body).Some? ==>
      StringToNumber(t) == RoundToDouble(negative, UnsignedDecimal(body).value.0, UnsignedDecimal(body).value.1)
  {
  }

  /** An optional minus sign followed by decimal digits is made of '-' and '0'-'9'. */
  lemma SignedDigitsShape(negative: bool, ds: seq<byte>)
    requires |ds| >= 1 && AllDigits(ds, 10)
    ensures var t := (if negative then [45] else []) + ds;
      (forall i :: 0 <= i < |t| ==> t[i] == 45 || 48 <= t[i] <= 57) &&
      (t[0] == 45 <==> negative) && (|t| > 1 ==> 48 <= t[1] <= 57)
  {
    assert forall i :: 0 <= i < |ds| ==> DigitValue(ds[i]) < 10;
  }

  /** Digits alone form an unsigned decimal literal of their value. */
  lemma UnsignedDecimalOfDigits(ds: seq<byte>)
    requires |ds| >= 1 && AllDigits(ds, 10)
    ensures UnsignedDecimal(ds) == Some((DigitsValue(ds, 10), 1))
  {
    assert DigitRun(ds, 10) == |ds|;
    assert ds[..|ds|] == ds && ds[|ds|..] == [] && ds + [] == ds;
  }

  /** FixedDigits(n, DigitCount(n)) spells n. */
  lemma DecimalDigits(n: nat)
    ensures AllDigits(Decimal(n), 10) && |Decimal(n)| >= 1
    ensures DigitsValue(Decimal(n), 10) == n
  {
    DigitCountBound(n);
    FixedDigitsValue(n, DigitCount(n));
    ModUnique(n, PowTen(DigitCount(n)), 0, n);
  }

  /** A number is below 10 to the power of its digit count. */
  lemma {:induction false} DigitCountBound(n: nat)
    ensures n < PowTen(DigitCount(n))
  {
    if n >= 10 {
      DigitCountBound(n / 10);
    }
  }

  /** The k digits FixedDigits writes spell n modulo 10^k. */
  lemma {:induction false} FixedDigitsValue(n: nat, k: nat)
    ensures DigitsValue(FixedDigits(n, k), 10) == n % PowTen(k)
  {
    if k > 0 {
      var r := FixedDigits(n, k);
      FixedDigitsValue(n / 10, k - 1);
      assert r[..|r| - 1] == FixedDigits(n / 10, k - 1);
      assert DigitValue(r[|r| - 1]) == n % 10;
      ModTenSplit(n, PowTen(k - 1));
    }
  }

  /** (n / 10 mod P) * 10 + n mod 10 == n mod 10P. */
  lemma ModTenSplit(n: nat, p: nat)
    requires p > 0
    ensures (n / 10 % p) * 10 + n % 10 == n % (10 * p)
  {
    var a, b := n / 10, n % 10;
    var c, d := a / p, a % p;
    assert n == (10 * p) * c + (10 * d + b);
    ModUnique(n, 10 * p, c, 10 * d + b);
  }

  /** The remainder is the unique r with n == m * c + r and 0 <= r < m. */
  lemma ModUnique(n: nat, m: nat, c: nat, r: nat)
    requires m > 0 && r < m && n == m * c + r
    ensures n % m == r
  {
    var q := n / m;
    assert m * (c - q) == n % m - r;
    MulBounds(m, c - q);
  }

  lemma MulBounds(m: nat, c: int)
    requires m > 0
    ensures c >= 1 ==> m * c >= m
    ensures c <= -1 ==> m * c <= -(m as int)
  {
  }

  /** (a * b) / b == a. */
  lemma ExactQuotient(a: nat, b: nat)
    requires b > 0
    ensures (a * b) / b == a
  {
    var q := (a * b) / b;
    assert b * (a - q) == (a * b) % b;
    MulBounds(b, a - q);
  }

  /** No space character starts or ends a text made of an optional minus sign and digits. */
  lemma NotSpaceAtEnds(t: seq<byte>)
    requires |t| >= 1
    requires forall i :: 0 <= i < |t| ==> t[i] == 45 || 48 <= t[i] <= 57
    ensures SpaceAtStart(t) == 0 && SpaceAtEnd(t) == 0
  {
    forall c | c == t[..1] || (|t| >= 2 && c == t[..2]) || (|t| >= 3 && c == t[..3]) ||
               c == t[|t| - 1..] || (|t| >= 2 && c == t[|t| - 2..]) || (|t| >= 3 && c == t[|t| - 3..])
      ensures !IsSpace(c)
    {
      SpaceShape(c);
    }
  }

  /** A space character is a control or space byte alone, or starts with a byte of C2 or
      more. */
  lemma SpaceShape(c: seq<byte>)
    ensures IsSpace(c) ==> (|c| == 1 && (9 <= c[0] <= 13 || c[0] == 32)) || (|c| >= 2 && c[0] >= 0xC2)
  {
  }

  /** Integers of magnitude below 2^53 are doubles: rounding one gives a double of exactly
      that value, which NumberToInt64 gives back. */
  lemma RoundsExactly(negative: bool, n: nat)
    requires n < TwoTo53
    ensures var d := RoundToDouble(negative, n, 1);
      d.Finite? && d.negative == negative && TruncatedMagnitude(d.significand, d.exponent) == n &&
      NumberToInt64(d) == if negative then -(n as int) else n
  {
    if n > 0 {
      Pow2Of53();
      Log2FloorBounds(n, 1, 53);
      var e := Log2Floor(n, 1);
      if e < 52 {
        ExactQuotient(n, Pow2(52 - e));
      }
    }
  }

  lemma {:induction false} Pow2Add(a: nat, b: nat)
    ensures Pow2(a + b) == Pow2(a) * Pow2(b)
  {
    if a > 0 {
      Pow2Add(a - 1, b);
    }
  }

  lemma Pow2Of53()
    ensures Pow2(53) == TwoTo53
  {
    assert Pow2(2) == 4;
    Pow2Add(2, 2);
    assert Pow2(4) == 0x10;
    Pow2Add(4, 4);
    assert Pow2(8) == 0x100;
    Pow2Add(8, 8);
    assert Pow2(16) == 0x1_0000;
    Pow2Add(16, 16);
    assert Pow2(32) == 0x1_0000_0000;
    Pow2Add(32, 16);
    assert Pow2(48) == 0x1_0000_0000_0000;
    Pow2Add(48, 4);
    assert Pow2(52) == TwoTo52;
    Pow2Add(52, 1);
  }

  /** For q <= p < q * 2^k: 0 <= floor(log2(p / q)) < k. */
  lemma {:induction false} Log2FloorBounds(p: nat, q: nat, k: nat)
    requires 0 < q <= p < q * Pow2(k)
    ensures 0 <= Log2Floor(p, q) < k
    decreases p - q
  {
    if p >= 2 * q {
      assert q * Pow2(k) == (2 * q) * Pow2(k - 1);
      Log2FloorBounds(p, 2 * q, k - 1);
    }
  }
}
