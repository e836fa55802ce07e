/** What goes over the wire, byte by byte: where each byte stands under each order, and which whole
    number a value is rounded to. */
module CodecBytes {
  import opened Codec

  // ---- Bytes by position ----

  /** Two bytes as they stand on the wire, `hi` being the more significant. */
  function Two(hi: byte, lo: byte, order: ByteOrder): seq<byte> {
    match order
    case BigEndian => [hi, lo]
    case LittleEndian => [lo, hi]
    case BigEndianWordSwap => [hi, lo]
    case LittleEndianWordSwap => [lo, hi]
  }

  /** Four bytes as they stand on the wire, `a` being the most significant and `d` the least. */
  function Four(a: byte, b: byte, c: byte, d: byte, order: ByteOrder): seq<byte> {
    match order
    case BigEndian => [a, b, c, d]
    case LittleEndian => [d, c, b, a]
    case BigEndianWordSwap => [c, d, a, b]
    case LittleEndianWordSwap => [b, a, d, c]
  }

  lemma TwoIsReordered(hi: byte, lo: byte, order: ByteOrder)
    ensures Reordered([hi, lo], order) == Two(hi, lo, order)
    ensures Reordered(Two(hi, lo, order), order) == [hi, lo]
  {
    ReorderUndoesItself([hi, lo], order);
  }

  lemma FourIsReordered(a: byte, b: byte, c: byte, d: byte, order: ByteOrder)
    ensures Reordered([a, b, c, d], order) == Four(a, b, c, d, order)
    ensures Reordered(Four(a, b, c, d, order), order) == [a, b, c, d]
  {
    assert WordsSwapped([a, b, c, d]) == [c, d, a, b];
    assert Reversed([a, b, c, d]) == [d, c, b, a];
    assert Reversed([c, d, a, b]) == [b, a, d, c];
    ReorderUndoesItself([a, b, c, d], order);
  }

  /** The two's-complement reading of a word of the given number of values. */
  predicate Reads(v: int, u: int, values: nat) {
    0 <= u < values && 0 <= 2 * v + values < 2 * values && (v == u || v == u - values)
  }

  lemma ReadsSigned(v: int, u: int, values: nat)
    requires values % 2 == 0 && Reads(v, u, values)
    ensures values > 0 && Unsigned(v, values) == u && Signed(u, values) == v
  {
  }

  lemma NumberIsWord16(hi: byte, lo: byte)
    ensures Word16([hi, lo]) == hi as int * 256 + lo as int
    ensures Bytes16(hi as int * 256 + lo as int) == [hi, lo]
  {
    Word16Joins([hi, lo]);
  }

  lemma I16Bytes(v: int, hi: byte, lo: byte, order: ByteOrder)
    requires Reads(v, hi as int * 256 + lo as int, 65536)
    ensures FitsI16(v)
    ensures EncodeI16(v, order) == Two(hi, lo, order)
    ensures DecodeI16(Two(hi, lo, order), order) == v
  {
    var u := hi as int * 256 + lo as int;
    ReadsSigned(v, u, 65536);
    NumberIsWord16(hi, lo);
    TwoIsReordered(hi, lo, order);
  }

  function Number(a: byte, b: byte, c: byte, d: byte): (u: int)
    ensures 0 <= u < 4294967296
  {
    ((a as int * 256 + b as int) * 256 + c as int) * 256 + d as int
  }

  lemma NumberIsWord(a: byte, b: byte, c: byte, d: byte)
    ensures Word32([a, b, c, d]) == Number(a, b, c, d)
    ensures Bytes32(Number(a, b, c, d)) == [a, b, c, d]
  {
    Word32Joins([a, b, c, d]);
  }

  lemma F32Bytes(a: byte, b: byte, c: byte, d: byte, order: ByteOrder)
    ensures EncodeF32Bits(Number(a, b, c, d), order) == Four(a, b, c, d, order)
    ensures DecodeF32Bits(Four(a, b, c, d, order), order) == Number(a, b, c, d)
  {
    FourIsReordered(a, b, c, d, order);
    NumberIsWord(a, b, c, d);
  }

  /** A signed word and a float pattern of the same reading share their bytes. */
  lemma SignedSharesBytes(v: int, u: int, b: seq<byte>, order: ByteOrder)
    requires Reads(v, u, 4294967296) && |b| == 4 && DecodeF32Bits(b, order) == u
    ensures FitsI32(v) && EncodeI32(v, order) == EncodeF32Bits(u, order) && DecodeI32(b, order) == v
  {
    ReadsSigned(v, u, 4294967296);
  }

  lemma I32Bytes(v: int, a: byte, b: byte, c: byte, d: byte, order: ByteOrder)
    requires Reads(v, Number(a, b, c, d), 4294967296)
    ensures FitsI32(v)
    ensures EncodeI32(v, order) == Four(a, b, c, d, order)
    ensures DecodeI32(Four(a, b, c, d, order), order) == v
  {
    F32Bytes(a, b, c, d, order);
    SignedSharesBytes(v, Number(a, b, c, d), Four(a, b, c, d, order), order);
  }

  // ---- Rounding, read off the wire ----

  /** `n` is the whole number nearest to `x`, of two equally near the one further from zero. */
  predicate Nearest(n: int, x: real) {
    if x >= 0.0 then n as real - 0.5 <= x < n as real + 0.5 else n as real - 0.5 < x <= n as real + 0.5
  }

  lemma RoundIsNearest(n: int, x: real)
    ensures Nearest(n, x) <==> n == Round(x)
  {
  }

  /** The raw value a point carries; a scale of zero counts as one. */
  predicate IsRaw(x: real, v: real, scale: real) {
    if scale == 0.0 then x == v else x * scale == v
  }

  lemma RawIs(x: real, v: real, scale: real)
    requires IsRaw(x, v, scale)
    ensures Raw(v, scale) == x
  {
    if scale != 0.0 {
      assert x * scale / scale == x;
    }
  }

  /** An I16 point writes the two bytes of the nearest whole number. */
  lemma I16ValueBytes(f: FloatFormat, v: real, scale: real, x: real, n: int, hi: byte, lo: byte, order: ByteOrder)
    requires IsRaw(x, v, scale) && Nearest(n, x) && Reads(n, hi as int * 256 + lo as int, 65536)
    ensures Encodable(v, I16, scale) && EncodeValue(f, v, I16, scale, order) == Two(hi, lo, order)
    ensures DecodeValue(f, Two(hi, lo, order), I16, scale, order) == n as real * scale
  {
    RawIs(x, v, scale);
    RoundIsNearest(n, x);
    I16Bytes(n, hi, lo, order);
    DecodeWritten(f, n, Two(hi, lo, order), I16, scale, order);
  }

  /** A U8 point writes the nearest whole number itself. */
  lemma U8ValueByte(f: FloatFormat, v: real, scale: real, x: real, n: byte, order: ByteOrder)
    requires IsRaw(x, v, scale) && Nearest(n as int, x)
    ensures Encodable(v, U8, scale) && EncodeValue(f, v, U8, scale, order) == [n]
    ensures DecodeValue(f, [n], U8, scale, order) == n as int as real * scale
  {
    RawIs(x, v, scale);
    RoundIsNearest(n as int, x);
    ByteStays(n, order);
    assert Writes(n as int, U8, order, [n]);
    DecodeWritten(f, n as int, [n], U8, scale, order);
  }

  lemma ByteStays(n: byte, order: ByteOrder)
    ensures EncodeU8(n, order) == [n]
  {
    assert Reversed([n]) == [n];
  }

  lemma F32Encodes(f: FloatFormat, v: real, scale: real, x: real, u: int, order: ByteOrder)
    requires IsRaw(x, v, scale) && f.bitsOf(x) == u && FitsU32(u)
    ensures f.bitsOf(Raw(v, scale)) == u
    ensures EncodeValue(f, v, F32, scale, order) == EncodeF32Bits(u, order)
  {
    RawIs(x, v, scale);
  }

  /** A float point writes the four bytes of the pattern of its raw value. */
  lemma F32ValueBytes(f: FloatFormat, v: real, scale: real, x: real, a: byte, b: byte, c: byte, d: byte,
                      order: ByteOrder)
    requires IsRaw(x, v, scale) && f.bitsOf(x) == Number(a, b, c, d)
    ensures FitsU32(f.bitsOf(Raw(v, scale)))
    ensures EncodeValue(f, v, F32, scale, order) == Four(a, b, c, d, order)
    ensures DecodeValue(f, Four(a, b, c, d, order), F32, scale, order) == f.valueOf(Number(a, b, c, d)) * scale
  {
    F32Bytes(a, b, c, d, order);
    PatternCarried(f, v, scale, x, Number(a, b, c, d), Four(a, b, c, d, order), order);
  }

  lemma PatternCarried(f: FloatFormat, v: real, scale: real, x: real, u: int, b: seq<byte>, order: ByteOrder)
    requires IsRaw(x, v, scale) && f.bitsOf(x) == u && FitsU32(u)
    requires |b| == 4 && b == EncodeF32Bits(u, order) && DecodeF32Bits(b, order) == u
    ensures f.bitsOf(Raw(v, scale)) == u && EncodeValue(f, v, F32, scale, order) == b
    ensures DecodeValue(f, b, F32, scale, order) == f.valueOf(u) * scale
  {
    F32Encodes(f, v, scale, x, u, order);
    FloatDecodes(f, b, u, scale, order);
  }

  /** A half goes away from zero, to either side. */
  lemma HalfGoesUp(f: FloatFormat, n: nat, hi: byte, lo: byte, order: ByteOrder)
    requires n + 1 == hi as int * 256 + lo as int < 32768
    ensures Encodable(n as real + 0.5, I16, 1.0)
    ensures EncodeValue(f, n as real + 0.5, I16, 1.0, order) == Two(hi, lo, order)
  {
    var x := n as real + 0.5;
    assert IsRaw(x, x, 1.0) && Nearest(n + 1, x);
    I16ValueBytes(f, x, 1.0, x, n + 1, hi, lo, order);
  }

  lemma HalfGoesDown(f: FloatFormat, n: nat, hi: byte, lo: byte, order: ByteOrder)
    requires 65536 - (n + 1) == hi as int * 256 + lo as int >= 32768
    ensures Encodable(-(n as real) - 0.5, I16, 1.0)
    ensures EncodeValue(f, -(n as real) - 0.5, I16, 1.0, order) == Two(hi, lo, order)
  {
    var x := -(n as real) - 0.5;
    var m: int := -(n + 1);
    assert IsRaw(x, x, 1.0) && Nearest(m, x);
    I16ValueBytes(f, x, 1.0, x, m, hi, lo, order);
  }
}
