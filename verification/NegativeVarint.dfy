/** Negative numbers in a build without 64-bit integers (PB_WITHOUT_64BIT): the ten bytes
    of the 64-bit sign extension, produced from a 32-bit word. */
module NegativeVarint {
  import opened Wire
  import opened Bits
  import opened Varint
  import opened Varint32
  import opened Output

  /** The number that a 32-bit word with c one bits still to come in front of it stands for. */
  ghost function WithOnes(v: nat, c: nat): (r: nat)
    ensures r == 0 <==> v == 0 && c == 0
  {
    var ones: nat := Pow2(c) - 1;
    assert c > 0 ==> ones >= 1 by {
      Pow2Monotone(if c > 0 then 1 else 0, c);
      assert Pow2(1) == 2;
    }
    v + ones * TWO_32
  }

  /** `(0xFFu >> (8 - bits)) << 25` */
  function OnesAt25(bits: nat): nat
    requires bits <= 7
  {
    var ones: nat := 0xFF / Pow2(8 - bits);
    ones * Pow2(25)
  }

  /** Shifting out seven bits and xor-ing in the next ones at bit 25 is shifting the wide
      number. */
  lemma ShiftRefills(v: nat, c: nat)
    requires v < TWO_32 && c <= 32 && (c > 0 || v > 0)
    ensures var bits := if c > 7 then 7 else c;
            var v' := if c == 0 then v / 128 else BitXor(v / 128, OnesAt25(bits));
            && WithOnes(v, c) / 128 == WithOnes(v', c - bits)
            && WithOnes(v, c) % 128 == v % 128
            && v' < TWO_32 && (c > bits ==> v' > 0)
  {
    hide BitXor;
    hide Pow2;
    var bits: nat := if c > 7 then 7 else c;
    if c > 0 {
      ByteShifted(bits);
      Pow2At25();
      XorShifted(v / 128, Pow2(bits) - 1, 25);
    }
    SmallPowers();
    OnesBehind(v, c, bits);
  }

  lemma OnesBehind(v: nat, c: nat, bits: nat)
    requires v < TWO_32 && bits <= c && bits <= 7 && (bits == 7 || bits == c)
    ensures var v' := v / 128 + (Pow2(bits) - 1) * 0x200_0000;
            WithOnes(v, c) / 128 == WithOnes(v', c - bits) && WithOnes(v, c) % 128 == v % 128
            && 0 <= v' < TWO_32 && (c > bits ==> v' > 0)
  {
    var p, q := Pow2(bits), Pow2(c - bits);
    assert p <= 128 && (bits == 7 ==> p == 128) by {
      Pow2Monotone(bits, 7);
      Pow2Values();
    }
    Pow2Add(c - bits, bits);
    OnesSplit(q - 1, p - 1);
    ShiftOut(v, p - 1, q - 1);
  }

  lemma OnesSplit(high: nat, ones: nat)
    requires ones == 127 || high == 0
    ensures ((high + 1) * (ones + 1) - 1) * TWO_32 == 128 * (ones * 0x200_0000 + high * TWO_32)
  {
    if high == 0 {
      assert (high + 1) * (ones + 1) == ones + 1;
    }
  }

  lemma ShiftOut(v: nat, ones: nat, high: nat)
    ensures (v + 128 * (ones * 0x200_0000 + high * TWO_32)) / 128 == v / 128 + ones * 0x200_0000 + high * TWO_32
    ensures (v + 128 * (ones * 0x200_0000 + high * TWO_32)) % 128 == v % 128
  {
    var r := ones * 0x200_0000 + high * TWO_32;
    DivModUnique(v + 128 * r, 128, v / 128 + r, v % 128);
  }

  lemma SmallPowers()
    ensures Pow2(0) == 1 && Pow2(1) == 2
  {
  }

  lemma Pow2At25()
    ensures Pow2(25) == 0x200_0000
  {
    Pow2Values();
    Pow2Add(21, 4);
    assert Pow2(4) == 16;
  }

  lemma ByteShifted(bits: nat)
    requires bits <= 7
    ensures 0xFF / Pow2(8 - bits) == Pow2(bits) - 1
  {
    hide Pow2;
    Pow2Add(8 - bits, bits);
    Pow2Add(1, 7);
    Pow2Values();
    SmallPowers();
    var d := Pow2(8 - bits);
    MulDistrib(Pow2(bits), 1, d);
    DivModUnique(0xFF, d, Pow2(bits) - 1, d - 1);
  }

  /** The 64-bit two's complement of a negative number given by its low 32 bits. */
  function SignExtended(value: nat): nat {
    value + (TWO_64 - TWO_32)
  }

  /** The loop of pb_encode_negative_varint. The xor refills the word, so it is the number
      of ones still owed that ends it, and only then the word. */
  method FillNegative(buffer: array<byte>, value: nat) returns (i: nat)
    requires buffer.Length == 10 && 0 < value < TWO_32
    modifies buffer
    ensures i == 10 && buffer[..] == EncodeVarint(SignExtended(value))
  {
    hide BitXor;
    hide WithOnes;
    hide Pow2;
    hide EncodeVarint;
    var v: nat, compensation: nat := value, 32;
    i := 0;
    ghost var wide := SignExtended(value);
    ghost var w := wide;
    AllOnes(value);
    TenBytes(value);
    while v != 0
      invariant v < TWO_32 && compensation <= 32 && w == WithOnes(v, compensation)
      invariant compensation > 0 ==> v > 0
      invariant v != 0 ==> i + |EncodeVarint(w)| <= 10 && buffer[..i] + EncodeVarint(w) == EncodeVarint(wide)
      invariant v == 0 ==> 0 < i <= 10 && buffer[i - 1] >= 128
      invariant v == 0 ==> buffer[..i - 1] + [buffer[i - 1] - 128] == EncodeVarint(wide)
      decreases compensation, v
    {
      ghost var before := buffer[..i];
      ShiftRefills(v, compensation);
      NextGroup(before, w);
      buffer[i] := v % 128 + 128;
      assert buffer[..i] == before;
      assert buffer[..i + 1] == before + [w % 128 + 128];
      v := v / 128;
      if compensation != 0 {
        var bits := if compensation > 7 then 7 else compensation;
        v := BitXor(v, OnesAt25(bits));
        compensation := compensation - bits;
      }
      w := w / 128;
      i := i + 1;
    }
    ghost var before := buffer[..i - 1];
    buffer[i - 1] := buffer[i - 1] - 128;
    assert buffer[..i] == before + [buffer[i - 1]];
  }

  lemma AllOnes(value: nat)
    ensures WithOnes(value, 32) == SignExtended(value)
  {
    Pow2Values();
  }

  /** Sign-extended numbers always take ten bytes. */
  lemma TenBytes(value: nat)
    requires value < TWO_32
    ensures |EncodeVarint(SignExtended(value))| == 10
  {
    EncodedAtMostTen(SignExtended(value));
    EncodedLength(SignExtended(value), 9);
    Pow128IsPow2(9);
    Pow2Values();
  }

  /** pb_encode_negative_varint */
  method WriteNegativeVarint(stream: OStream, value: nat) returns (ok: bool)
    requires stream.Valid() && 0 < value < TWO_32
    modifies stream, stream.buf
    ensures stream.Wrote(Some(EncodeVarint(SignExtended(value))), ok)
  {
    var buffer := new byte[10];
    var i := FillNegative(buffer, value);
    ok := stream.Write(buffer[..i]);
  }

  /** pb_enc_varint of such a build: the bytes are those of a 64-bit build, for every int32. */
  method WriteInt32(stream: OStream, value: int) returns (ok: bool)
    requires stream.Valid() && 0 - TWO_31 <= value < TWO_31
    modifies stream, stream.buf
    ensures stream.Wrote(Some(EncodeVarint(value % TWO_64)), ok)
  {
    TwosComplement(value);
    if value < 0 {
      ok := WriteNegativeVarint(stream, value + TWO_32);
    } else {
      ok := WriteVarint(stream, value);
    }
  }

  /** The 32-bit reader gives back the original word exactly when it was negative as an
      int32; a word without the sign bit is refused, in spite of its leading ones. */
  lemma NegativeRecovered(value: nat, tail: bytes)
    requires 0 < value < TWO_32
    ensures DecodeVarint32(EncodeVarint(SignExtended(value)) + tail) ==
            if value >= TWO_31 then Ok(value, tail) else Fail
  {
    hide DecodeVarint32;
    var v := SignExtended(value);
    if value >= TWO_31 {
      NegativeInt32Accepted(value - TWO_32, tail);
    } else {
      Varint32OfEncoding(v, tail);
      DivModUnique(v, TWO_32, TWO_32 - 1, value);
    }
  }

  lemma TwosComplement(value: int)
    requires 0 - TWO_31 <= value < TWO_31
    ensures value % TWO_64 == if value < 0 then value + TWO_64 else value
    ensures value % TWO_32 == if value < 0 then value + TWO_32 else value
  {
    if value < 0 {
      DivModUnique(value, TWO_64, -1, value + TWO_64);
      DivModUnique(value, TWO_32, -1, value + TWO_32);
    }
  }

  /** Every int32 written by a build without 64-bit integers is read back unchanged by its
      own reader, and as the sign-extended number by a 64-bit one. */
  lemma Int32Interoperates(value: int, tail: bytes)
    requires 0 - TWO_31 <= value < TWO_31
    ensures DecodeVarint32(EncodeVarint(value % TWO_64) + tail) == Ok(value % TWO_32, tail)
    ensures DecodeVarint(EncodeVarint(value % TWO_64) + tail) == Ok(value % TWO_64, tail)
  {
    hide DecodeVarint32;
    hide DecodeVarint;
    hide EncodeVarint;
    VarintRoundTrip(value % TWO_64, tail);
    TwosComplement(value);
    if value < 0 {
      NegativeInt32Accepted(value, tail);
    } else {
      Varint32RoundTrip(value, tail);
    }
  }
}
