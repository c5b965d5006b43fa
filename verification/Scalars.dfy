/** The packable scalar types: how pb_enc_* and pb_dec_* convert between struct members
    of 1, 2, 4 or 8 bytes and the wire. */
module Scalars {
  import opened Bits
  import opened Wire
  import opened Varint
  import opened Descriptor

  predicate IntSize(size: nat) {
    size == 1 || size == 2 || size == 4 || size == 8
  }

  /** Half the number of values of an integer of this many bytes. */
  function HalfRange(size: nat): nat {
    if size == 1 then 0x80 else if size == 2 then 0x8000 else if size == 4 then TWO_31 else TWO_63
  }

  predicate FitsSigned(x: int, size: nat) {
    0 - HalfRange(size) <= x < HalfRange(size)
  }

  predicate FitsUnsigned(x: int, size: nat) {
    0 <= x < 2 * HalfRange(size)
  }

  /** Cast to a signed integer of this many bytes. */
  function ToSigned(x: int, size: nat): (r: int)
    ensures FitsSigned(r, size)
  {
    var m := x % (2 * HalfRange(size));
    if m >= HalfRange(size) then m - 2 * HalfRange(size) else m
  }

  /** Cast to an unsigned integer of this many bytes. */
  function ToUnsigned(x: int, size: nat): (r: nat)
    ensures FitsUnsigned(r, size)
  {
    x % (2 * HalfRange(size))
  }

  lemma CastsAreInverse(x: int, size: nat)
    ensures FitsSigned(x, size) ==> ToSigned(ToUnsigned(x, size), size) == x
    ensures FitsSigned(x, size) <==> ToSigned(x, size) == x
    ensures FitsUnsigned(x, size) <==> ToUnsigned(x, size) == x
  {
    var m := 2 * HalfRange(size);
    if FitsUnsigned(x, size) {
      DivModUnique(x, m, 0, x);
    }
    if FitsSigned(x, size) {
      if x < 0 {
        DivModUnique(x, m, -1, x + m);
        DivModUnique(x + m, m, 0, x + m);
      } else {
        DivModUnique(x, m, 0, x);
      }
    }
  }

  /** The ranges of 1, 2, 4 and 8 bytes. */
  lemma Ranges(x: int)
    ensures FitsSigned(x, 1) <==> -128 <= x <= 127
    ensures FitsSigned(x, 2) <==> -32768 <= x <= 32767
    ensures FitsSigned(x, 4) <==> -0x8000_0000 <= x <= 0x7FFF_FFFF
    ensures FitsSigned(x, 8) <==> -0x8000_0000_0000_0000 <= x <= 0x7FFF_FFFF_FFFF_FFFF
    ensures FitsUnsigned(x, 1) <==> 0 <= x <= 255
    ensures FitsUnsigned(x, 2) <==> 0 <= x <= 65535
    ensures FitsUnsigned(x, 4) <==> 0 <= x <= 0xFFFF_FFFF
    ensures FitsUnsigned(x, 8) <==> 0 <= x <= 0xFFFF_FFFF_FFFF_FFFF
  {
  }

  /** Casts keep the low bits: the result differs by a multiple of the range. */
  lemma CastsKeepLowBits(x: int, size: nat)
    ensures (ToSigned(x, size) - x) % (2 * HalfRange(size)) == 0
    ensures (ToUnsigned(x, size) - x) % (2 * HalfRange(size)) == 0
  {
    var m := 2 * HalfRange(size);
    var q, r := x / m, x % m;
    assert x == q * m + r;
    DivModUnique(r - x, m, -q, 0);
    MulDistrib(-q, 1, m);
    DivModUnique(r - m - x, m, -q - 1, 0);
  }

  /** pb_encode_svarint: `~((uint64_t)value << 1)` for negative values. */
  function ZigZag(x: int): (r: nat)
    ensures r < TWO_64
  {
    if x < 0 then TWO_64 - 1 - (2 * ToUnsigned(x, 8)) % TWO_64 else (2 * x) % TWO_64
  }

  /** pb_decode_svarint: `(int64_t)(~(value >> 1))` for odd values. */
  function UnZigZag(v: nat): (r: int)
    requires v < TWO_64
    ensures FitsSigned(r, 8)
  {
    if v % 2 == 1 then ToSigned(TWO_64 - 1 - v / 2, 8) else v / 2
  }

  /** Small magnitudes get small codes, whatever the sign: the shifts and complements in 64
      bits never lose a bit. */
  lemma ZigZagOrders(x: int)
    requires FitsSigned(x, 8)
    ensures ZigZag(x) == if x < 0 then -2 * x - 1 else 2 * x
  {
    Int64Range(x);
    if x < 0 {
      DivModUnique(x, TWO_64, -1, x + TWO_64);
      DivModUnique(2 * (x + TWO_64), TWO_64, 1, 2 * x + TWO_64);
    } else {
      DivModUnique(2 * x, TWO_64, 0, 2 * x);
    }
  }

  lemma UnZigZagValue(v: nat)
    requires v < TWO_64
    ensures UnZigZag(v) == if v % 2 == 1 then -1 - v / 2 else v / 2
  {
    if v % 2 == 1 {
      DivModUnique(TWO_64 - 1 - v / 2, TWO_64, 0, TWO_64 - 1 - v / 2);
    }
  }

  lemma Int64Range(x: int)
    requires FitsSigned(x, 8)
    ensures 0 - TWO_63 <= x < TWO_63
  {
  }

  /** Zigzag and its inverse are a bijection between int64 and uint64. */
  lemma ZigZagRoundTrip(x: int)
    requires FitsSigned(x, 8)
    ensures UnZigZag(ZigZag(x)) == x
  {
    hide ToUnsigned;
    hide ToSigned;
    ZigZagOrders(x);
    UnZigZagValue(ZigZag(x));
  }

  lemma UnZigZagRoundTrip(v: nat)
    requires v < TWO_64
    ensures ZigZag(UnZigZag(v)) == v
  {
    hide ToUnsigned;
    hide ToSigned;
    ZigZagOrders(UnZigZag(v));
    UnZigZagValue(v);
  }

  // -------------------------------------------------------------- the members

  /** The numbers that the C member type can hold. */
  predicate ScalarTyped(f: Field, n: int) {
    match f.ltype
    case LBool => n == 0 || n == 1
    case LVarint => FitsSigned(n, f.dataSize)
    case LSVarint => FitsSigned(n, f.dataSize)
    case LUVarint => FitsUnsigned(n, f.dataSize)
    case LFixed32 => FitsUnsigned(n, 4)
    case LFixed64 => FitsUnsigned(n, 8)
    case _ => false
  }

  function EncodeScalar(f: Field, n: int): (r: Option<bytes>)
    ensures r.Some? ==> |r.value| > 0
  {
    match f.ltype
    case LBool => Some(EncodeVarint(if n != 0 then 1 else 0))
    case LVarint => if IntSize(f.dataSize) then Some(EncodeVarint(ToUnsigned(n, 8))) else None
    case LUVarint => if IntSize(f.dataSize) then Some(EncodeVarint(ToUnsigned(n, 8))) else None
    case LSVarint => if IntSize(f.dataSize) then Some(EncodeVarint(ZigZag(n))) else None
    case LFixed32 => Some(LittleEndian(ToUnsigned(n, 4), 4))
    case LFixed64 => Some(LittleEndian(ToUnsigned(n, 8), 8))
    case _ => None
  }

  function DecodeScalar(f: Field, bs: bytes): (r: Parse<int>)
    ensures r.Ok? ==> |r.rest| < |bs|
  {
    match f.ltype
    case LBool =>
      var (v, rest) :- DecodeVarint32(bs);
      Ok(if v != 0 then 1 else 0, rest)
    case LVarint =>
      var (v, rest) :- DecodeVarint(bs);
      // Members below 64 bits go through int32 first, so the upper half is ignored.
      var s := if f.dataSize == 8 then ToSigned(v, 8) else ToSigned(v, 4);
      if IntSize(f.dataSize) && ToSigned(s, f.dataSize) == s then Ok(s, rest) else Fail
    case LUVarint =>
      var (v, rest) :- DecodeVarint(bs);
      if IntSize(f.dataSize) && ToUnsigned(v, f.dataSize) == v then Ok(v, rest) else Fail
    case LSVarint =>
      var (v, rest) :- DecodeVarint(bs);
      var s := UnZigZag(v);
      if IntSize(f.dataSize) && ToSigned(s, f.dataSize) == s then Ok(s, rest) else Fail
    case LFixed32 =>
      var (b, rest) :- Take(bs, 4);
      Ok(FromLittleEndian(b), rest)
    case LFixed64 =>
      var (b, rest) :- Take(bs, 8);
      Ok(FromLittleEndian(b), rest)
    case _ => Fail
  }

  lemma WidthFacts()
    ensures Pow256(4) == TWO_32 && Pow256(8) == TWO_64
  {
    assert Pow256(2) == 0x1_0000;
    assert Pow256(4) == 256 * (256 * Pow256(2));
    assert Pow256(6) == 256 * (256 * Pow256(4));
    assert Pow256(8) == 256 * (256 * Pow256(6));
  }

  /** Whatever a member can hold is written and read back unchanged. */
  lemma ScalarRoundTrip(f: Field, n: int, tail: bytes)
    requires ScalarTyped(f, n) && EncodeScalar(f, n).Some?
    ensures DecodeScalar(f, EncodeScalar(f, n).value + tail) == Ok(n, tail)
  {
    match f.ltype {
      case LBool =>
        var e := EncodeScalar(f, n).value;
        assert (e + tail)[0] == n && (e + tail)[1..] == tail;
      case LFixed32 => FixedRoundTrip(n, 4, tail);
      case LFixed64 => FixedRoundTrip(n, 8, tail);
      case LSVarint =>
        ZigZagRoundTrip(n);
        CastsAreInverse(n, f.dataSize);
        VarintRoundTrip(ZigZag(n), tail);
      case LVarint =>
        SignSurvives(n, f.dataSize);
        VarintRoundTrip(ToUnsigned(n, 8), tail);
      case LUVarint =>
        CastsAreInverse(n, f.dataSize);
        CastsAreInverse(n, 8);
        VarintRoundTrip(n, tail);
      case _ =>
    }
  }

  lemma FixedRoundTrip(n: int, size: nat, tail: bytes)
    requires size in {4, 8} && FitsUnsigned(n, size)
    ensures var e := LittleEndian(ToUnsigned(n, size), size);
            && Take(e + tail, size) == Ok(e, tail)
            && FromLittleEndian(e) == n
  {
    CastsAreInverse(n, size);
    WidthFacts();
    LittleEndianRoundTrip(n, size);
    var e := LittleEndian(n, size);
    assert (e + tail)[..size] == e && (e + tail)[size..] == tail;
  }

  lemma SignSurvives(n: int, size: nat)
    requires IntSize(size) && FitsSigned(n, size)
    ensures ToSigned(ToUnsigned(n, 8), if size == 8 then 8 else 4) == n
    ensures ToSigned(n, size) == n
  {
    CastsAreInverse(n, size);
    CastsAreInverse(n, 8);
    if size != 8 {
      CastsAreInverse(n, 4);
      if n < 0 {
        DivModUnique(n, TWO_64, -1, n + TWO_64);
        DivModUnique(n + TWO_64, TWO_32, TWO_32 - 1, n + TWO_32);
      }
    }
  }

  /** What the readers hand over always fits the member. */
  lemma DecodedScalarFits(f: Field, bs: bytes)
    requires DecodeScalar(f, bs).Ok?
    ensures ScalarTyped(f, DecodeScalar(f, bs).value)
  {
    WidthFacts();
    if f.ltype.LFixed32? {
      FromLittleEndianBound(bs[..4]);
    } else if f.ltype.LFixed64? {
      FromLittleEndianBound(bs[..8]);
    }
  }

  /** Reading a fixed32 or fixed64 and writing it again gives the same bytes. */
  lemma FixedReencodes(f: Field, bs: bytes)
    requires f.ltype.LFixed32? || f.ltype.LFixed64?
    requires DecodeScalar(f, bs).Ok?
    ensures var r := DecodeScalar(f, bs);
            EncodeScalar(f, r.value).Some? && EncodeScalar(f, r.value).value + r.rest == bs
  {
    var width := if f.ltype.LFixed32? then 4 else 8;
    DecodedScalarFits(f, bs);
    CastsAreInverse(DecodeScalar(f, bs).value, width);
    LittleEndianUnique(bs[..width]);
  }

  /** Unsigned and zigzag readers reject exactly what does not fit the member; the plain
      varint reader looks at the low 32 bits only, unless the member has 64. */
  lemma ScalarAcceptance(f: Field, v: nat, tail: bytes)
    requires v < TWO_64 && IntSize(f.dataSize)
    ensures var r := DecodeScalar(f, EncodeVarint(v) + tail);
            && (f.ltype.LUVarint? ==> r == if FitsUnsigned(v, f.dataSize) then Ok(v, tail) else Fail)
            && (f.ltype.LSVarint? ==>
                  r == if FitsSigned(UnZigZag(v), f.dataSize) then Ok(UnZigZag(v), tail) else Fail)
            && (f.ltype.LVarint? ==>
                  var s := ToSigned(v, if f.dataSize == 8 then 8 else 4);
                  r == if FitsSigned(s, f.dataSize) then Ok(s, tail) else Fail)
  {
    VarintRoundTrip(v, tail);
    CastsAreInverse(v, f.dataSize);
    CastsAreInverse(UnZigZag(v), f.dataSize);
    CastsAreInverse(ToSigned(v, if f.dataSize == 8 then 8 else 4), f.dataSize);
  }

  lemma ScalarExtends(f: Field, bs: bytes, tail: bytes)
    requires DecodeScalar(f, bs).Ok?
    ensures DecodeScalar(f, bs + tail) == Ok(DecodeScalar(f, bs).value, DecodeScalar(f, bs).rest + tail)
  {
    match f.ltype {
      case LBool => Varint32Extends(bs, tail);
      case LFixed32 => TakeExtends(bs, 4, tail);
      case LFixed64 => TakeExtends(bs, 8, tail);
      case LVarint | LUVarint | LSVarint => SplitExtends(bs, tail);
      case _ =>
    }
  }

  lemma TakeExtends(bs: bytes, count: nat, tail: bytes)
    requires Take(bs, count).Ok?
    ensures Take(bs + tail, count) == Ok(Take(bs, count).value, Take(bs, count).rest + tail)
  {
    assert (bs + tail)[..count] == bs[..count];
    assert (bs + tail)[count..] == bs[count..] + tail;
  }
}
