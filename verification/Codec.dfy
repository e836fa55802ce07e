/** The Modbus wire codec: byte and word orders over buffers changed in place, two's-complement
    packing, and the scaled quantiser. */
module Codec {

  newtype byte = x: int | 0 <= x < 256

  datatype ByteOrder = BigEndian | LittleEndian | BigEndianWordSwap | LittleEndianWordSwap

  /** `Other` stands for any data type the codec does not know. */
  datatype DataType = U8 | I16 | F32 | Other

  function Width(dt: DataType): nat {
    match dt
    case U8 => 1
    case I16 => 2
    case F32 => 4
    case Other => 0
  }

  // ---- Orders ----

  function Reversed(b: seq<byte>): (r: seq<byte>)
    ensures |r| == |b| && forall i :: 0 <= i < |b| ==> r[i] == b[|b| - 1 - i]
  {
    seq(|b|, i requires 0 <= i < |b| => b[|b| - 1 - i])
  }

  function WordsSwapped(b: seq<byte>): (r: seq<byte>)
    ensures |r| == |b|
  {
    if |b| == 4 then [b[2], b[3], b[0], b[1]] else b
  }

  /** The order as two independent choices. */
  function Reverses(order: ByteOrder): bool {
    order.LittleEndian? || order.LittleEndianWordSwap?
  }

  function SwapsWords(order: ByteOrder): bool {
    order.BigEndianWordSwap? || order.LittleEndianWordSwap?
  }

  function Order(reverses: bool, swapsWords: bool): ByteOrder {
    if reverses then (if swapsWords then LittleEndianWordSwap else LittleEndian)
    else (if swapsWords then BigEndianWordSwap else BigEndian)
  }

  function Reordered(b: seq<byte>, order: ByteOrder): (r: seq<byte>)
    ensures |r| == |b|
  {
    match order
    case BigEndian => b
    case LittleEndian => Reversed(b)
    case BigEndianWordSwap => WordsSwapped(b)
    case LittleEndianWordSwap => Reversed(WordsSwapped(b))
  }

  method ReverseInPlace(b: array<byte>)
    modifies b
    ensures b[..] == Reversed(old(b[..]))
  {
    var i, j := 0, b.Length - 1;
    while i < j
      invariant 0 <= i <= b.Length && i + j == b.Length - 1 && i <= j + 1
      invariant forall k :: 0 <= k < i || j < k < b.Length ==> b[k] == old(b[b.Length - 1 - k])
      invariant forall k :: i <= k <= j ==> b[k] == old(b[k])
    {
      b[i], b[j] := b[j], b[i];
      i, j := i + 1, j - 1;
    }
  }

  method SwapWordsInPlace(b: array<byte>)
    modifies b
    ensures b[..] == WordsSwapped(old(b[..]))
  {
    if b.Length != 4 {
      return;
    }
    b[0], b[1], b[2], b[3] := b[2], b[3], b[0], b[1];
  }

  /** The argument is copied, never changed. */
  method Reorder(b: array<byte>, order: ByteOrder) returns (out: array<byte>)
    ensures fresh(out) && out[..] == Reordered(b[..], order)
  {
    out := new byte[b.Length](i requires 0 <= i < b.Length reads b => b[i]);
    assert out[..] == b[..];
    match order {
      case BigEndian =>
      case LittleEndian =>
        ReverseInPlace(out);
      case BigEndianWordSwap =>
        SwapWordsInPlace(out);
      case LittleEndianWordSwap =>
        SwapWordsInPlace(out);
        ReverseInPlace(out);
    }
  }

  lemma ReverseTwice(b: seq<byte>)
    ensures Reversed(Reversed(b)) == b
  {
  }

  lemma ReverseAndSwapCommute(b: seq<byte>)
    ensures Reversed(WordsSwapped(b)) == WordsSwapped(Reversed(b))
  {
  }

  lemma SwapTwice(b: seq<byte>)
    ensures WordsSwapped(WordsSwapped(b)) == b
  {
  }

  /** The four orders compose like pairs of bits under exclusive or, on buffers of any length. */
  lemma OrdersCompose(b: seq<byte>, p: ByteOrder, q: ByteOrder)
    ensures Reordered(Reordered(b, p), q) ==
            Reordered(b, Order(Reverses(p) != Reverses(q), SwapsWords(p) != SwapsWords(q)))
  {
    var s := if SwapsWords(p) then WordsSwapped(b) else b;
    SwapFirst(b, p);
    SwapFirst(Reordered(b, p), q);
    ReverseAndSwapCommute(s);
    ReverseTwice(if SwapsWords(q) then WordsSwapped(s) else s);
    SwapTwice(b);
  }

  lemma SwapFirst(b: seq<byte>, order: ByteOrder)
    ensures var s := if SwapsWords(order) then WordsSwapped(b) else b;
            Reordered(b, order) == if Reverses(order) then Reversed(s) else s
  {
  }

  lemma ReorderUndoesItself(b: seq<byte>, order: ByteOrder)
    ensures Reordered(Reordered(b, order), order) == b
  {
    OrdersCompose(b, order, order);
  }

  // ---- Two's complement ----

  /** A fixed-width unsigned word read as signed, and back. */
  function Signed(u: int, modulus: int): int
    requires modulus > 0
  {
    if u < modulus / 2 then u else u - modulus
  }

  function Unsigned(v: int, modulus: int): int
    requires modulus > 0
  {
    if v < 0 then v + modulus else v
  }

  predicate FitsI16(v: int) {
    -0x8000 <= v < 0x8000
  }

  predicate FitsI32(v: int) {
    -0x8000_0000 <= v < 0x8000_0000
  }

  predicate FitsU32(u: int) {
    0 <= u < 0x1_0000_0000
  }

  // ---- Native codecs ----
  // Joining bytes by shift and or, and splitting by shift and truncation, are written as
  // multiplication and division by powers of 256.

  function DecodeU8(b: seq<byte>, order: ByteOrder): byte
    requires |b| >= 1
  {
    Reordered(b, order)[0]
  }

  function EncodeU8(v: byte, order: ByteOrder): (r: seq<byte>)
    ensures |r| == Width(U8)
  {
    Reordered([v], order)
  }

  function Word16(r: seq<byte>): (u: int)
    requires |r| >= 2
    ensures 0 <= u < 0x1_0000
  {
    r[0] as int * 256 + r[1] as int
  }

  function Bytes16(u: int): (r: seq<byte>)
    requires 0 <= u < 0x1_0000
    ensures |r| == 2
  {
    [(u / 256) as byte, (u % 256) as byte]
  }

  function DecodeI16(b: seq<byte>, order: ByteOrder): (v: int)
    requires |b| >= 2
    ensures FitsI16(v)
  {
    Signed(Word16(Reordered(b, order)), 0x1_0000)
  }

  function EncodeI16(v: int, order: ByteOrder): (r: seq<byte>)
    requires FitsI16(v)
    ensures |r| == Width(I16)
  {
    Reordered(Bytes16(Unsigned(v, 0x1_0000)), order)
  }

  function Word32(r: seq<byte>): (u: int)
    requires |r| >= 4
    ensures FitsU32(u)
  {
    r[0] as int * 0x100_0000 + r[1] as int * 0x1_0000 + r[2] as int * 256 + r[3] as int
  }

  function Bytes32(u: int): (r: seq<byte>)
    requires FitsU32(u)
    ensures |r| == 4
  {
    [(u / 0x100_0000) as byte, (u / 0x1_0000 % 256) as byte, (u / 256 % 256) as byte, (u % 256) as byte]
  }

  function DecodeI32(b: seq<byte>, order: ByteOrder): (v: int)
    requires |b| >= 4
    ensures FitsI32(v)
  {
    Signed(Word32(Reordered(b, order)), 0x1_0000_0000)
  }

  function EncodeI32(v: int, order: ByteOrder): (r: seq<byte>)
    requires FitsI32(v)
    ensures |r| == 4
  {
    Reordered(Bytes32(Unsigned(v, 0x1_0000_0000)), order)
  }

  /** The bit pattern of the float on the wire. */
  function DecodeF32Bits(b: seq<byte>, order: ByteOrder): (u: int)
    requires |b| >= 4
    ensures FitsU32(u)
  {
    Word32(Reordered(b, order))
  }

  function EncodeF32Bits(bits: int, order: ByteOrder): (r: seq<byte>)
    requires FitsU32(bits)
    ensures |r| == Width(F32)
  {
    Reordered(Bytes32(bits), order)
  }

  lemma U8There(v: byte, order: ByteOrder)
    ensures DecodeU8(EncodeU8(v, order), order) == v
  {
    ReorderUndoesItself([v], order);
  }

  lemma U8RoundTrips(v: byte, b: seq<byte>, order: ByteOrder)
    requires |b| == 1
    ensures DecodeU8(EncodeU8(v, order), order) == v
    ensures EncodeU8(DecodeU8(b, order), order) == b
  {
    U8There(v, order);
    ReorderUndoesItself(b, order);
    assert [DecodeU8(b, order)] == Reordered(b, order);
  }

  lemma Word16Splits(u: int)
    requires 0 <= u < 0x1_0000
    ensures Word16(Bytes16(u)) == u
  {
  }

  lemma Word16Joins(r: seq<byte>)
    requires |r| == 2
    ensures Bytes16(Word16(r)) == r
  {
    var u := Word16(r);
    assert u / 256 == r[0] as int && u % 256 == r[1] as int;
  }

  lemma I16There(v: int, order: ByteOrder)
    requires FitsI16(v)
    ensures DecodeI16(EncodeI16(v, order), order) == v
  {
    var u := Unsigned(v, 0x1_0000);
    ReorderUndoesItself(Bytes16(u), order);
    Word16Splits(u);
  }

  lemma I16RoundTrips(v: int, b: seq<byte>, order: ByteOrder)
    requires FitsI16(v) && |b| == 2
    ensures DecodeI16(EncodeI16(v, order), order) == v
    ensures EncodeI16(DecodeI16(b, order), order) == b
  {
    I16There(v, order);
    I16Back(b, order);
  }

  lemma I16Back(b: seq<byte>, order: ByteOrder)
    requires |b| == 2
    ensures EncodeI16(DecodeI16(b, order), order) == b
  {
    var r := Reordered(b, order);
    Word16Joins(r);
    SignedUnsigned(Word16(r), 0x1_0000);
    ReorderUndoesItself(b, order);
  }

  lemma SignedUnsigned(u: int, size: nat)
    requires size > 0 && 0 <= u < size
    ensures Unsigned(Signed(u, size), size) == u
  {
  }

  lemma Word32Splits(u: int)
    requires FitsU32(u)
    ensures Word32(Bytes32(u)) == u
  {
    assert u == u / 256 * 256 + u % 256;
    assert u / 256 == u / 256 / 256 * 256 + u / 256 % 256;
    assert u / 256 / 256 == u / 0x1_0000;
    assert u / 0x1_0000 == u / 0x1_0000 / 256 * 256 + u / 0x1_0000 % 256;
    assert u / 0x1_0000 / 256 == u / 0x100_0000;
  }

  /** One more byte below a number. */
  lemma Joined(high: int, low: int)
    requires 0 <= low < 256
    ensures (high * 256 + low) / 256 == high && (high * 256 + low) % 256 == low
  {
  }

  lemma Word32Joins(r: seq<byte>)
    requires |r| == 4
    ensures Bytes32(Word32(r)) == r
  {
    var a, b, c, d := r[0] as int, r[1] as int, r[2] as int, r[3] as int;
    var ab := a * 256 + b;
    var abc := ab * 256 + c;
    var u := Word32(r);
    assert u == abc * 256 + d;
    Joined(abc, d);
    Joined(ab, c);
    Joined(a, b);
    Halved(u);
    assert a % 256 == a;
  }

  /** Dividing by powers of 256 one step at a time. */
  lemma Halved(u: int)
    requires FitsU32(u)
    ensures u / 0x1_0000 == u / 256 / 256 && u / 0x100_0000 == u / 256 / 256 / 256
  {
  }

  lemma I32RoundTrips(v: int, b: seq<byte>, order: ByteOrder)
    requires FitsI32(v) && |b| == 4
    ensures DecodeI32(EncodeI32(v, order), order) == v
    ensures EncodeI32(DecodeI32(b, order), order) == b
  {
    I32There(v, order);
    I32Back(b, order);
  }

  lemma I32There(v: int, order: ByteOrder)
    requires FitsI32(v)
    ensures DecodeI32(EncodeI32(v, order), order) == v
  {
    var u := Unsigned(v, 0x1_0000_0000);
    ReorderUndoesItself(Bytes32(u), order);
    Word32Splits(u);
  }

  lemma I32Back(b: seq<byte>, order: ByteOrder)
    requires |b| == 4
    ensures EncodeI32(DecodeI32(b, order), order) == b
  {
    var r := Reordered(b, order);
    Word32Joins(r);
    SignedUnsigned(Word32(r), 0x1_0000_0000);
    ReorderUndoesItself(b, order);
  }

  lemma F32BitsThere(bits: int, order: ByteOrder)
    requires FitsU32(bits)
    ensures DecodeF32Bits(EncodeF32Bits(bits, order), order) == bits
  {
    ReorderUndoesItself(Bytes32(bits), order);
    Word32Splits(bits);
  }

  lemma F32BitsRoundTrip(bits: int, b: seq<byte>, order: ByteOrder)
    requires FitsU32(bits) && |b| == 4
    ensures DecodeF32Bits(EncodeF32Bits(bits, order), order) == bits
    ensures EncodeF32Bits(DecodeF32Bits(b, order), order) == b
  {
    F32BitsThere(bits, order);
    ReorderUndoesItself(b, order);
    Word32Joins(Reordered(b, order));
  }

  // ---- Scaled values ----

  /** Single-precision floats as the codec uses them: a value's pattern and a pattern's value. */
  datatype FloatFormat = FloatFormat(bitsOf: real -> int, valueOf: int -> real)

  /** Rounding to the nearest integer, halves away from zero. */
  function Round(x: real): int {
    if x >= 0.0 then (x + 0.5).Floor else -((-x + 0.5).Floor)
  }

  function Raw(v: real, scale: real): real {
    if scale != 0.0 then v / scale else v
  }

  /** Out of range, the integer conversion of the rounded value is not defined. */
  predicate Encodable(v: real, dt: DataType, scale: real) {
    match dt
    case U8 => 0 <= Round(Raw(v, scale)) < 256
    case I16 => FitsI16(Round(Raw(v, scale)))
    case _ => true
  }

  function EncodeValue(f: FloatFormat, v: real, dt: DataType, scale: real, order: ByteOrder): (r: seq<byte>)
    requires Encodable(v, dt, scale)
    requires dt == F32 ==> FitsU32(f.bitsOf(Raw(v, scale)))
    ensures |r| == Width(dt)
  {
    match dt
    case U8 => EncodeU8(Round(Raw(v, scale)) as byte, order)
    case I16 => EncodeI16(Round(Raw(v, scale)), order)
    case F32 => EncodeF32Bits(f.bitsOf(Raw(v, scale)), order)
    case Other => []
  }

  function DecodeValue(f: FloatFormat, b: seq<byte>, dt: DataType, scale: real, order: ByteOrder): real
    requires |b| >= Width(dt)
  {
    match dt
    case U8 => DecodeU8(b, order) as int as real * scale
    case I16 => DecodeI16(b, order) as real * scale
    case F32 => f.valueOf(DecodeF32Bits(b, order)) * scale
    case Other => 0.0
  }

  function Abs(x: real): real {
    if x < 0.0 then -x else x
  }

  lemma RoundNear(x: real)
    ensures Abs(Round(x) as real - x) <= 0.5
  {
  }

  lemma RoundMonotone(x: real, y: real)
    requires x <= y
    ensures Round(x) <= Round(y)
  {
  }

  lemma RoundInteger(n: int)
    ensures Round(n as real) == n
  {
  }

  lemma Ordered(a: real, b: real, s: real, p: real, q: real)
    requires a <= b && s >= 0.0 && p == a * s && q == b * s
    ensures p <= q
  {
  }

  lemma StrictlyOrdered(a: real, b: real, s: real, p: real, q: real)
    requires a < b && s > 0.0 && p == a * s && q == b * s
    ensures p < q
  {
  }

  lemma Distributes(a: real, b: real, d: real, s: real, p: real, q: real, r: real)
    requires d == a - b && p == a * s && q == b * s && r == d * s
    ensures r == p - q
  {
  }

  lemma ScaleBounds(d: real, s: real, p: real)
    requires -0.5 <= d <= 0.5 && s >= 0.0 && p == d * s
    ensures -(s / 2.0) <= p <= s / 2.0
  {
    var h := s / 2.0;
    assert h == 0.5 * s && -h == (-0.5) * s;
    Ordered(d, 0.5, s, p, h);
    Ordered(-0.5, d, s, -h, p);
  }

  lemma StepError(n: real, x: real, s: real, p: real, v: real)
    requires -0.5 <= n - x <= 0.5 && s > 0.0 && v == x * s && p == n * s
    ensures -(s / 2.0) <= p - v <= s / 2.0
  {
    var d := n - x;
    var r := d * s;
    ScaleBounds(d, s, r);
    Distributes(n, x, d, s, p, v, r);
  }

  /** A rounded quotient times its divisor is within half the divisor. */
  lemma RoundedQuotient(v: real, s: real, got: real)
    requires s != 0.0 && got == Round(v / s) as real * s
    ensures Abs(got - v) <= Abs(s) / 2.0
  {
    var x, n := v / s, Round(v / s) as real;
    RoundNear(x);
    assert x * s == v;
    if s > 0.0 {
      StepError(n, x, s, got, v);
    } else {
      assert (-x) * (-s) == v && (-n) * (-s) == got;
      StepError(-n, -x, -s, got, v);
    }
  }

  /** The bytes of an integer raw value. */
  predicate Writes(n: int, dt: DataType, order: ByteOrder, b: seq<byte>) {
    match dt
    case U8 => 0 <= n < 256 && b == EncodeU8(n as byte, order)
    case I16 => FitsI16(n) && b == EncodeI16(n, order)
    case _ => false
  }

  lemma EncodeWrites(f: FloatFormat, v: real, dt: DataType, scale: real, order: ByteOrder)
    requires (dt.U8? || dt.I16?) && Encodable(v, dt, scale)
    ensures Writes(Round(Raw(v, scale)), dt, order, EncodeValue(f, v, dt, scale, order))
  {
  }

  lemma DecodeWritten(f: FloatFormat, n: int, b: seq<byte>, dt: DataType, scale: real, order: ByteOrder)
    requires Writes(n, dt, order, b)
    ensures |b| == Width(dt) && DecodeValue(f, b, dt, scale, order) == n as real * scale
  {
    if dt == U8 {
      U8There(n as byte, order);
    } else {
      I16There(n, order);
    }
  }

  /** What comes back from the wire is the rounded raw value times the scale. */
  lemma DecodeAfterEncode(f: FloatFormat, v: real, dt: DataType, scale: real, order: ByteOrder)
    requires (dt.U8? || dt.I16?) && Encodable(v, dt, scale)
    ensures DecodeValue(f, EncodeValue(f, v, dt, scale, order), dt, scale, order)
            == Round(Raw(v, scale)) as real * scale
  {
    var n, b := Round(Raw(v, scale)), EncodeValue(f, v, dt, scale, order);
    assert Writes(n, dt, order, b) by {
      EncodeWrites(f, v, dt, scale, order);
    }
    DecodeWritten(f, n, b, dt, scale, order);
  }

  /** The quantiser's error is at most half a step, except that a zero scale only carries zero. */
  lemma QuantisationErrorIff(f: FloatFormat, v: real, dt: DataType, scale: real, order: ByteOrder)
    requires (dt.U8? || dt.I16?) && Encodable(v, dt, scale)
    ensures Abs(DecodeValue(f, EncodeValue(f, v, dt, scale, order), dt, scale, order) - v) <= Abs(scale) / 2.0
            <==> scale != 0.0 || v == 0.0
  {
    DecodeAfterEncode(f, v, dt, scale, order);
    ErrorIff(v, scale, DecodeValue(f, EncodeValue(f, v, dt, scale, order), dt, scale, order));
  }

  lemma ErrorIff(v: real, scale: real, got: real)
    requires got == Round(Raw(v, scale)) as real * scale
    ensures Abs(got - v) <= Abs(scale) / 2.0 <==> scale != 0.0 || v == 0.0
  {
    if scale != 0.0 {
      RoundedQuotient(v, scale, got);
    } else {
      assert got == 0.0;
    }
  }

  /** Through the wire, order between values is kept, whatever the sign of the scale. */
  lemma QuantisationMonotone(f: FloatFormat, v: real, w: real, dt: DataType, scale: real, order: ByteOrder)
    requires (dt.U8? || dt.I16?) && Encodable(v, dt, scale) && Encodable(w, dt, scale) && v <= w
    ensures DecodeValue(f, EncodeValue(f, v, dt, scale, order), dt, scale, order)
            <= DecodeValue(f, EncodeValue(f, w, dt, scale, order), dt, scale, order)
  {
    DecodeAfterEncode(f, v, dt, scale, order);
    DecodeAfterEncode(f, w, dt, scale, order);
    RoundedOrder(v, w, scale, DecodeValue(f, EncodeValue(f, v, dt, scale, order), dt, scale, order),
                 DecodeValue(f, EncodeValue(f, w, dt, scale, order), dt, scale, order));
  }

  lemma RoundedOrder(v: real, w: real, scale: real, a: real, b: real)
    requires v <= w && a == Round(Raw(v, scale)) as real * scale && b == Round(Raw(w, scale)) as real * scale
    ensures a <= b
  {
    var x, y := Raw(v, scale), Raw(w, scale);
    if scale != 0.0 {
      Divides(v, scale);
      Divides(w, scale);
      if scale > 0.0 {
        StepOrder(v, w, scale, x, y, a, b);
      } else {
        NegativeStepOrder(v, w, scale, x, y, a, b);
      }
    } else {
      Flipped(Round(x) as real, scale, a);
      Flipped(Round(y) as real, scale, b);
    }
  }

  lemma NegativeStepOrder(v: real, w: real, s: real, x: real, y: real, a: real, b: real)
    requires v <= w && s < 0.0 && x * s == v && y * s == w
    requires a == Round(x) as real * s && b == Round(y) as real * s
    ensures a <= b
  {
    FlippedRound(v, s, x, a);
    FlippedRound(w, s, y, b);
    StepOrder(v, w, -s, -x, -y, a, b);
  }

  lemma FlippedRound(v: real, s: real, x: real, a: real)
    requires x * s == v && Round(x) as real * s == a
    ensures (-x) * (-s) == v && Round(-x) as real * (-s) == a
  {
    RoundOdd(x);
    Flipped(x, s, v);
    Flipped(Round(x) as real, s, a);
  }

  lemma Divides(v: real, s: real)
    requires s != 0.0
    ensures Raw(v, s) * s == v
  {
  }

  lemma Flipped(x: real, s: real, p: real)
    requires p == x * s
    ensures p == (-x) * (-s)
    ensures s == 0.0 ==> p == 0.0
  {
  }

  lemma RoundOdd(x: real)
    ensures Round(-x) == -Round(x)
  {
  }

  lemma StepOrder(v: real, w: real, s: real, x: real, y: real, a: real, b: real)
    requires v <= w && s > 0.0 && x * s == v && y * s == w
    requires a == Round(x) as real * s && b == Round(y) as real * s
    ensures a <= b
  {
    QuotientOrder(v, w, s, x, y);
    RoundMonotone(x, y);
    Ordered(Round(x) as real, Round(y) as real, s, a, b);
  }

  lemma QuotientOrder(v: real, w: real, s: real, x: real, y: real)
    requires v <= w && s > 0.0 && x * s == v && y * s == w
    ensures x <= y
  {
    if y < x {
      StrictlyOrdered(y, x, s, w, v);
    }
  }

  /** Decoding then encoding gives the bytes back, for every nonzero scale and exact width. */
  lemma EncodeAfterDecode(f: FloatFormat, b: seq<byte>, dt: DataType, scale: real, order: ByteOrder)
    requires (dt.U8? || dt.I16?) && |b| == Width(dt) && scale != 0.0
    ensures Encodable(DecodeValue(f, b, dt, scale, order), dt, scale)
    ensures EncodeValue(f, DecodeValue(f, b, dt, scale, order), dt, scale, order) == b
  {
    if dt == U8 {
      ScaledThere(DecodeU8(b, order) as int, scale, DecodeValue(f, b, dt, scale, order));
      U8RoundTrips(0, b, order);
    } else {
      ScaledThere(DecodeI16(b, order), scale, DecodeValue(f, b, dt, scale, order));
      I16RoundTrips(0, b, order);
    }
  }

  lemma ScaledThere(n: int, scale: real, v: real)
    requires scale != 0.0 && v == n as real * scale
    ensures Round(Raw(v, scale)) == n
  {
    assert n as real * scale / scale == n as real;
    RoundInteger(n);
  }

  /** A float point carries exactly what single precision keeps of the raw value. */
  lemma FloatValueRoundTrips(f: FloatFormat, v: real, scale: real, order: ByteOrder)
    requires FitsU32(f.bitsOf(Raw(v, scale)))
    ensures DecodeValue(f, EncodeValue(f, v, F32, scale, order), F32, scale, order)
            == f.valueOf(f.bitsOf(Raw(v, scale))) * scale
  {
    var bits := f.bitsOf(Raw(v, scale));
    F32BitsThere(bits, order);
    FloatDecodes(f, EncodeF32Bits(bits, order), bits, scale, order);
  }

  lemma FloatDecodes(f: FloatFormat, b: seq<byte>, bits: int, scale: real, order: ByteOrder)
    requires |b| == 4 && DecodeF32Bits(b, order) == bits
    ensures DecodeValue(f, b, F32, scale, order) == f.valueOf(bits) * scale
  {
  }
}
