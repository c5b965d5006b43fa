/** How the 32-bit varint reader relates to the 64-bit one. */
module Varint32 {
  import opened Bits
  import opened Wire
  import opened Varint

  /** One step of either loop: the group at position |p| joins the number. */
  lemma GroupJoins(p: bytes, b: byte)
    requires 0 < |p| < 10
    ensures |p| < 5 ==> OrGroup(GroupsValue(p) % TWO_32, b, 7 * |p|) == GroupsValue(p + [b]) % TWO_32
    ensures |p| >= 5 ==> GroupsValue(p + [b]) % TWO_32 == GroupsValue(p) % TWO_32
  {
    ValueAppend(p, b);
    Pow128IsPow2(|p|);
    if |p| < 5 {
      ValueBound(p);
      LowGroupJoins(GroupsValue(p), b, 7 * |p|);
    } else {
      HighGroupDropped(GroupsValue(p), b, 7 * |p|);
    }
  }

  lemma LowGroupJoins(v: nat, b: byte, k: nat)
    requires v < Pow2(k) && k <= 28
    ensures OrGroup(v % TWO_32, b, k) == (v + (b % 128) * Pow2(k)) % TWO_32
  {
    assert Pow2(28) < Pow2(32) == TWO_32 by {
      Pow2Values();
    }
    Pow2Monotone(k, 28);
    assert v % TWO_32 == v by {
      DivModUnique(v, TWO_32, 0, v);
    }
    OrTruncated(v, b % 128, k, 32);
  }

  lemma HighGroupDropped(v: nat, b: byte, k: nat)
    requires k >= 32
    ensures (v + (b % 128) * Pow2(k)) % TWO_32 == v % TWO_32
  {
    Pow2Values();
    Pow2Add(k - 32, 32);
    MulAssoc(b % 128, Pow2(k - 32), Pow2(32));
    AddMultiple(v, (b % 128) * Pow2(k - 32), TWO_32);
  }

  lemma {:induction false} LoopKeepsLowBits(p: bytes, bs: bytes)
    requires 0 < |p|
    requires SplitVarint(bs).Ok? && |p| + |SplitVarint(bs).value| <= 10
    requires Varint32Loop(bs, 7 * |p|, GroupsValue(p) % TWO_32).Ok?
    ensures var r := Varint32Loop(bs, 7 * |p|, GroupsValue(p) % TWO_32);
            r == Ok(GroupsValue(p + SplitVarint(bs).value) % TWO_32, SplitVarint(bs).rest)
    decreases |bs|
  {
    hide GroupsValue;
    hide OrGroup;
    var b := bs[0];
    GroupJoins(p, b);
    if b >= 128 {
      LoopKeepsLowBits(p + [b], bs[1..]);
      assert p + [b] + SplitVarint(bs[1..]).value == p + SplitVarint(bs).value;
    }
  }

  lemma Varint32LowBits(bs: bytes)
    requires SplitVarint(bs).Ok? && |SplitVarint(bs).value| <= 10 && DecodeVarint32(bs).Ok?
    ensures DecodeVarint32(bs) == Ok(GroupsValue(SplitVarint(bs).value) % TWO_32, SplitVarint(bs).rest)
  {
    hide GroupsValue;
    hide OrGroup;
    var p := [bs[0]];
    ValueOfOne(bs[0]);
    if bs[0] >= 128 {
      LoopKeepsLowBits(p, bs[1..]);
      assert p + SplitVarint(bs[1..]).value == SplitVarint(bs).value;
    }
  }

  lemma ValueOfOne(b: byte)
    ensures GroupsValue([b]) == b % 128
  {
    assert [b][1..] == [];
  }

  /** Whenever both readers accept, they stop at the same byte and the 32-bit reader
      returns the low half of the 64-bit value. */
  lemma Varint32IsLowHalf(bs: bytes)
    requires DecodeVarint(bs).Ok? && DecodeVarint32(bs).Ok?
    ensures DecodeVarint32(bs).value == DecodeVarint(bs).value % TWO_32
    ensures DecodeVarint32(bs).rest == DecodeVarint(bs).rest
  {
    Varint32LowBits(bs);
    ModMod(GroupsValue(SplitVarint(bs).value));
  }

  lemma ModMod(x: nat)
    ensures x % TWO_64 % TWO_32 == x % TWO_32
  {
    AddMultiple(x % TWO_64, (x / TWO_64) * TWO_32, TWO_32);
  }

  // --------------------------------------------------- every varint, padded or not

  /** What pb_decode_varint32 accepts, byte by byte: the fifth byte, when it is the last, has
      four bits only; behind it there may be zero groups, and, when bit 31 is set, the
      bytes of a sign extension. */
  predicate Accepted32(g: bytes) {
    && (|g| == 5 ==> (g[4] / 16) % 8 == 0)
    && (|g| > 5 ==> forall i | 5 <= i < |g| :: PaddingByte(g[i], i, GroupsValue(g[..5]) % 0x1_0000_0000 >= 0x8000_0000))
  }

  predicate PaddingByte(b: byte, i: nat, negative: bool) {
    b % 128 == 0 || (negative && b == if i < 9 then 255 else 1)
  }

  lemma {:induction false} PaddingExactly(g: bytes, k: nat, result: nat, tail: bytes)
    requires CompleteVarint(g) && 5 <= k < |g| <= 10 && result < TWO_32
    ensures Varint32Loop(g[k..] + tail, 7 * k, result).Ok? <==>
            forall i | k <= i < |g| :: PaddingByte(g[i], i, result >= TWO_31)
    decreases |g| - k
  {
    var bs := g[k..] + tail;
    assert bs[0] == g[k] && bs[1..] == g[k + 1..] + tail;
    if k + 1 < |g| {
      PaddingExactly(g, k + 1, result, tail);
    }
  }

  lemma {:induction false} HeadExactly(g: bytes, k: nat, tail: bytes)
    requires CompleteVarint(g) && 1 <= k <= 4 && k < |g| <= 10
    ensures Varint32Loop(g[k..] + tail, 7 * k, GroupsValue(g[..k]) % TWO_32).Ok? <==> Accepted32(g)
    decreases |g| - k
  {
    hide GroupsValue;
    hide OrGroup;
    var bs := g[k..] + tail;
    assert bs[0] == g[k] && bs[1..] == g[k + 1..] + tail;
    assert g[..k] + [g[k]] == g[..k + 1];
    GroupJoins(g[..k], g[k]);
    if k + 1 < |g| {
      if k < 4 {
        HeadExactly(g, k + 1, tail);
      } else {
        PaddingExactly(g, 5, GroupsValue(g[..5]) % TWO_32, tail);
      }
    }
  }

  lemma ShortAccepted(g: bytes)
    requires |g| < 5
    ensures Accepted32(g)
  {
  }

  lemma Varint32Accepts(g: bytes, tail: bytes)
    requires CompleteVarint(g) && |g| <= 10
    ensures DecodeVarint32(g + tail).Ok? <==> Accepted32(g)
  {
    hide GroupsValue;
    hide Varint32Loop;
    hide Accepted32;
    var bs := g + tail;
    assert bs[0] == g[0];
    if |g| == 1 {
      ShortAccepted(g);
    } else {
      assert g[0] >= 128;
      assert bs[1..] == g[1..] + tail && g[..1] == [g[0]];
      ValueOfOne(g[0]);
      HeadExactly(g, 1, tail);
    }
  }

  /** pb_decode_varint32 on every complete varint of at most ten bytes, padded ones
      included. */
  lemma Varint32Exactly(g: bytes, tail: bytes)
    requires CompleteVarint(g) && |g| <= 10
    ensures DecodeVarint32(g + tail) ==
            if Accepted32(g) then Ok(GroupsValue(g) % 0x1_0000_0000, tail) else Fail
  {
    hide GroupsValue;
    hide DecodeVarint32;
    hide Accepted32;
    SplitComplete(g, tail);
    Varint32Accepts(g, tail);
    if Accepted32(g) {
      Varint32LowBits(g + tail);
    }
  }

  // ------------------------------------------------------------ what pb_encode_varint writes

  /** Bits 35 to 62 hold four groups, each all zeros or all ones; bit 31 and bit 63 are set. */
  predicate SignLike(v: nat)
  {
    && v >= TWO_63
    && v % TWO_32 >= TWO_31
    && v / 0x8_0000_0000 % 128 in {0, 127}
    && v / 0x400_0000_0000 % 128 in {0, 127}
    && v / 0x2_0000_0000_0000 % 128 in {0, 127}
    && v / 0x100_0000_0000_0000 % 128 in {0, 127}
  }

  lemma Groups(v: nat, i: nat)
    requires i < |EncodeVarint(v)|
    ensures EncodeVarint(v)[i] % 128 == v / Pow128(i) % 128
    ensures EncodeVarint(v)[i] < 128 <==> i == |EncodeVarint(v)| - 1
  {
    GroupBits(EncodeVarint(v), i);
    ValueEncoded(v);
    EncodingIsComplete(v);
  }

  lemma {:induction false} EncodingIsComplete(v: nat)
    ensures CompleteVarint(EncodeVarint(v))
  {
    if v >= 128 {
      EncodingIsComplete(v / 128);
    }
  }

  /** The fifth group is the last one: the number has 29 to 35 bits. */
  lemma FifthGroup(v: nat)
    requires |EncodeVarint(v)| == 5
    ensures Accepted32(EncodeVarint(v)) <==> v < TWO_32
  {
    hide EncodeVarint;
    Groups(v, 4);
    EncodedLength(v, 5);
    PowFacts();
  }

  /** A group behind the fifth one that is not the last. */
  lemma InnerPadding(v: nat, i: nat, negative: bool)
    requires 5 <= i < 9 && i + 1 < |EncodeVarint(v)|
    ensures PaddingByte(EncodeVarint(v)[i], i, negative) <==>
            v / Pow128(i) % 128 == 0 || (negative && v / Pow128(i) % 128 == 127)
  {
    hide EncodeVarint;
    Groups(v, i);
  }

  lemma FivePaddings(g: bytes)
    requires |g| == 10
    ensures var negative := GroupsValue(g[..5]) % 0x1_0000_0000 >= 0x8000_0000;
            Accepted32(g) <==>
            && PaddingByte(g[5], 5, negative) && PaddingByte(g[6], 6, negative) && PaddingByte(g[7], 7, negative)
            && PaddingByte(g[8], 8, negative) && PaddingByte(g[9], 9, negative)
  {
    hide GroupsValue;
    hide PaddingByte;
  }

  /** The tenth byte is 1: all that is left of 64 bits. */
  lemma TenthGroup(v: nat)
    requires v < TWO_64 && |EncodeVarint(v)| == 10
    ensures EncodeVarint(v)[9] == 1 && v >= TWO_63
  {
    hide EncodeVarint;
    Groups(v, 9);
    EncodedLength(v, 9);
    LongPowers();
    TopBit(v);
  }

  lemma TopBit(v: nat)
    requires TWO_63 <= v < TWO_64
    ensures v / 0x8000_0000_0000_0000 == 1
  {
    DivModUnique(v, TWO_63, 1, v - TWO_63);
  }

  lemma TenBytesPadding(v: nat)
    requires v < TWO_64 && |EncodeVarint(v)| == 10
    ensures Accepted32(EncodeVarint(v)) <==> SignLike(v)
  {
    hide EncodeVarint;
    hide GroupsValue;
    hide Accepted32;
    hide Pow128;
    var g := EncodeVarint(v);
    var negative := GroupsValue(g[..5]) % 0x1_0000_0000 >= 0x8000_0000;
    LowGroups(v);
    TenthGroup(v);
    FivePaddings(g);
    InnerPadding(v, 5, negative);
    InnerPadding(v, 6, negative);
    InnerPadding(v, 7, negative);
    InnerPadding(v, 8, negative);
    LongPowers();
    hide PaddingByte;
    LastPadding(g[9], negative);
  }

  lemma LastPadding(b: byte, negative: bool)
    requires b == 1
    ensures PaddingByte(b, 9, negative) <==> negative
  {
  }

  /** Behind the fifth group: the last group is not zero, so it must end a sign extension. */
  lemma PaddingOfEncoding(v: nat)
    requires v < TWO_64 && |EncodeVarint(v)| > 5
    ensures Accepted32(EncodeVarint(v)) <==> SignLike(v)
  {
    hide EncodeVarint;
    hide SignLike;
    EncodedAtMostTen(v);
    if |EncodeVarint(v)| == 10 {
      TenBytesPadding(v);
    } else {
      EncodedLength(v, 9);
      LongPowers();
      BelowIsNotSignLike(v);
      ShortPadding(v);
    }
  }

  lemma ShortPadding(v: nat)
    requires v < TWO_64 && 5 < |EncodeVarint(v)| < 10
    ensures !Accepted32(EncodeVarint(v))
  {
    hide EncodeVarint;
    hide GroupsValue;
    hide Pow128;
    var g := EncodeVarint(v);
    var last: nat := |g| - 1;
    Groups(v, last);
    TopGroup(v, last);
    assert !PaddingByte(g[last], last, true) && !PaddingByte(g[last], last, false);
  }

  lemma BelowIsNotSignLike(v: nat)
    requires v < TWO_63
    ensures !SignLike(v)
  {
  }

  lemma LongPowers()
    ensures Pow128(5) == 0x8_0000_0000 && Pow128(6) == 0x400_0000_0000 && Pow128(7) == 0x2_0000_0000_0000
    ensures Pow128(8) == 0x100_0000_0000_0000 && Pow128(9) == 0x8000_0000_0000_0000
    ensures Pow128(10) == 128 * Pow128(9)
  {
    PowFacts();
    assert Pow128(6) == 128 * Pow128(5) && Pow128(7) == 128 * Pow128(6);
    assert Pow128(8) == 128 * Pow128(7) && Pow128(9) == 128 * Pow128(8);
  }

  /** Bit 31 is among the first five groups. */
  lemma LowGroups(v: nat)
    requires |EncodeVarint(v)| > 5
    ensures GroupsValue(EncodeVarint(v)[..5]) % 0x1_0000_0000 == v % 0x1_0000_0000
  {
    hide EncodeVarint;
    var g := EncodeVarint(v);
    ValueEncoded(v);
    assert g[..5] + g[5..] == g;
    PrefixValue(g[..5], g[5..]);
  }

  lemma {:induction false} PrefixValue(p: bytes, h: bytes)
    requires |p| >= 5
    ensures GroupsValue(p + h) % 0x1_0000_0000 == GroupsValue(p) % 0x1_0000_0000
    decreases |h|
  {
    hide GroupsValue;
    if h == [] {
      assert p + h == p;
    } else {
      assert p + h == (p + [h[0]]) + h[1..];
      PrefixValue(p + [h[0]], h[1..]);
      Pow128IsPow2(|p|);
      ValueAppend(p, h[0]);
      HighGroupDropped(GroupsValue(p), h[0], 7 * |p|);
    }
  }

  /** The last group holds the top bits and is not zero. */
  lemma TopGroup(v: nat, last: nat)
    requires v < TWO_64 && last + 1 == |EncodeVarint(v)| && 5 <= last <= 9
    ensures 0 < v / Pow128(last) < 128 && v >= Pow128(last)
  {
    hide EncodeVarint;
    EncodedLength(v, last);
    EncodedLength(v, last + 1);
    LongPowers();
    var p := Pow128(last);
    assert Pow128(last + 1) == 128 * p;
    QuotientBounds(v, p);
  }

  lemma QuotientBounds(v: nat, p: nat)
    requires 0 < p <= v < 128 * p
    ensures 0 < v / p < 128
  {
    var q, r := v / p, v % p;
    assert v == q * p + r;
    if q >= 128 {
      MulGrows(128, q, p);
    }
  }

  /** pb_decode_varint32 on pb_encode_varint output for v: it accepts exactly the 32-bit
      values and the ten-byte values that look like a sign extension, and returns the
      low 32 bits. Everything else from 2^32 to 2^63 is rejected. */
  lemma Varint32OfEncoding(v: nat, tail: bytes)
    requires v < TWO_64
    ensures var r := DecodeVarint32(EncodeVarint(v) + tail);
            r == if v < TWO_32 || SignLike(v) then Ok(v % TWO_32, tail) else Fail
  {
    hide DecodeVarint32;
    hide EncodeVarint;
    hide SignLike;
    hide GroupsValue;
    hide Accepted32;
    var g := EncodeVarint(v);
    EncodedAtMostTen(v);
    EncodingIsComplete(v);
    ValueEncoded(v);
    Varint32Exactly(g, tail);
    if |g| > 5 {
      PaddingOfEncoding(v);
      EncodedLength(v, 5);
      PowFacts();
    } else {
      EncodedLength(v, 5);
      PowFacts();
      BelowIsNotSignLike(v);
      if |g| == 5 {
        FifthGroup(v);
      } else {
        EncodedLength(v, 4);
        ShortAccepted(g);
      }
    }
  }

  /** Every uint32 survives the round trip through the 32-bit reader. */
  lemma Varint32RoundTrip(v: nat, tail: bytes)
    requires v < TWO_32
    ensures DecodeVarint32(EncodeVarint(v) + tail) == Ok(v, tail)
  {
    hide SignLike;
    hide DecodeVarint32;
    Varint32OfEncoding(v, tail);
    DivModUnique(v, TWO_32, 0, v);
  }

  /** A negative int32, sign-extended to 64 bits as the wire format prescribes, is
      accepted and comes back as the same 32 bits. */
  lemma NegativeInt32Accepted(x: int, tail: bytes)
    requires 0 - TWO_31 <= x < 0
    ensures DecodeVarint32(EncodeVarint(x + TWO_64) + tail) == Ok(x + TWO_32, tail)
  {
    hide SignLike;
    hide DecodeVarint32;
    var v := x + TWO_64;
    SignExtensionIsSignLike(v);
    Varint32OfEncoding(v, tail);
    AddMultiple(x + TWO_32, TWO_32 - 1, TWO_32);
  }

  lemma SignExtensionIsSignLike(v: nat)
    requires TWO_64 - TWO_31 <= v < TWO_64
    ensures SignLike(v)
  {
    DivModUnique(v, TWO_32, 0xFFFF_FFFF, v - 0xFFFF_FFFF_0000_0000);
    assert v / 0x8_0000_0000 == 0x1FFF_FFFF;
    assert v / 0x400_0000_0000 == 0x3F_FFFF;
    assert v / 0x2_0000_0000_0000 == 0x7FFF;
    assert v / 0x100_0000_0000_0000 == 0xFF;
  }

  lemma PowFacts()
    ensures Pow128(1) == 128 && Pow128(2) == 0x4000 && Pow128(3) == 0x20_0000 && Pow128(4) == 0x1000_0000
    ensures Pow128(5) == Pow2(35) == 0x8_0000_0000
  {
    assert Pow128(1) == 128;
    assert Pow128(3) == 128 * Pow128(2);
    assert Pow128(5) == 128 * Pow128(4);
    Pow128IsPow2(5);
  }
}
