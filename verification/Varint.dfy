/** Base 128 varints: what pb_encode_varint writes and what pb_decode_varint,
    pb_decode_varint32 and pb_skip_varint accept, as functions on bytes. */
module Varint {
  import opened Bits
  import opened Wire

  // ---------------------------------------------------------------- writing

  function EncodeVarint(v: nat): (r: bytes)
    ensures |r| > 0
    decreases v
  {
    if v < 128 then [v] else [v % 128 + 128] + EncodeVarint(v / 128)
  }

  lemma FirstGroup(w: nat)
    ensures EncodeVarint(w) == if w < 128 then [w % 128] else [w % 128 + 128] + EncodeVarint(w / 128)
  {
  }

  /** One more group has been written. */
  lemma NextGroup(before: bytes, w: nat)
    ensures before + EncodeVarint(w) ==
            if w < 128 then before + [w % 128] else before + [w % 128 + 128] + EncodeVarint(w / 128)
    ensures w >= 128 ==> |EncodeVarint(w)| == 1 + |EncodeVarint(w / 128)|
  {
    hide EncodeVarint;
    FirstGroup(w);
    if w >= 128 {
      Regroup(before, [w % 128 + 128], EncodeVarint(w / 128));
    }
  }

  lemma Regroup(a: bytes, b: bytes, c: bytes)
    ensures a + (b + c) == a + b + c
  {
  }

  /** Bits needed in groups of seven: n groups hold exactly the numbers below 128^n. */
  function Pow128(n: nat): (p: nat)
    ensures p > 0
  {
    if n == 0 then 1 else 128 * Pow128(n - 1)
  }

  lemma {:induction false} Pow128IsPow2(n: nat)
    ensures Pow128(n) == Pow2(7 * n)
  {
    if n > 0 {
      Pow128IsPow2(n - 1);
      Pow2Add(7, 7 * (n - 1));
      Pow2Values();
    }
  }

  // ---------------------------------------------------------------- reading

  /** The bytes of one varint: everything up to and including the first byte without
      the continuation bit. */
  function SplitVarint(bs: bytes): (r: Parse<bytes>)
    ensures r.Ok? ==> r.value != [] && bs == r.value + r.rest
    decreases |bs|
  {
    if bs == [] then Fail
    else if bs[0] < 128 then Ok([bs[0]], bs[1..])
    else
      var (g, rest) :- SplitVarint(bs[1..]);
      Ok([bs[0]] + g, rest)
  }

  /** The number that the seven-bit groups stand for, without any width limit. */
  function GroupsValue(g: bytes): nat
  {
    if g == [] then 0 else g[0] % 128 + 128 * GroupsValue(g[1..])
  }

  /** pb_decode_varint: at most ten bytes, truncated to 64 bits. */
  function DecodeVarint(bs: bytes): (r: Parse<nat>)
    ensures r.Ok? ==> r.value < TWO_64 && |r.rest| < |bs|
  {
    var (g, rest) :- SplitVarint(bs);
    if |g| > 10 then Fail else Ok(GroupsValue(g) % TWO_64, rest)
  }

  /** The do-while loop of pb_decode_varint32_eof, entered with the next byte unread.
      `bitpos` is an 8-bit counter and wraps. */
  function Varint32Loop(bs: bytes, bitpos: nat, result: nat): (r: Parse<nat>)
    requires result < TWO_32
    ensures r.Ok? ==> r.value < TWO_32 && |r.rest| < |bs|
    decreases |bs|
  {
    if bs == [] then Fail
    else
      var b := bs[0];
      if bitpos >= 32 && b % 128 != 0 && (result / TWO_31 == 0 || b != SignExtension(bitpos)) then Fail
      else
        var next := if bitpos >= 32 then result else OrGroup(result, b, bitpos);
        var bitpos' := (bitpos + 7) % 256;
        if b >= 128 then Varint32Loop(bs[1..], bitpos', next)
        else if bitpos' == 35 && (b / 16) % 8 != 0 then Fail
        else Ok(next, bs[1..])
  }

  function SignExtension(bitpos: nat): byte
  {
    if bitpos < 63 then 0xFF else 0x01
  }

  /** `result |= (uint32_t)(byte & 0x7F) << bitpos` */
  function OrGroup(result: nat, b: byte, bitpos: nat): (r: nat)
    requires result < TWO_32
    ensures r < TWO_32
  {
    Pow2Values();
    OrBelow(result, ((b % 128) * Pow2(bitpos)) % TWO_32, 32);
    BitOr(result, ((b % 128) * Pow2(bitpos)) % TWO_32)
  }

  function DecodeVarint32(bs: bytes): (r: Parse<nat>)
    ensures r.Ok? ==> r.value < TWO_32 && |r.rest| < |bs|
  {
    if bs == [] then Fail
    else if bs[0] < 128 then Ok(bs[0], bs[1..])
    else Varint32Loop(bs[1..], 7, bs[0] % 128)
  }

  // ---------------------------------------------------------- round trips

  /** What was written is read back, whatever follows it in the stream. */
  lemma {:induction false} SplitEncoded(v: nat, tail: bytes)
    ensures SplitVarint(EncodeVarint(v) + tail) == Ok(EncodeVarint(v), tail)
    decreases v
  {
    var e := EncodeVarint(v);
    assert (e + tail)[0] == e[0];
    if v < 128 {
      assert (e + tail)[1..] == tail;
    } else {
      SplitEncoded(v / 128, tail);
      assert (e + tail)[1..] == EncodeVarint(v / 128) + tail;
    }
  }

  lemma {:induction false} ValueEncoded(v: nat)
    ensures GroupsValue(EncodeVarint(v)) == v
    decreases v
  {
    if v >= 128 {
      ValueEncoded(v / 128);
      assert EncodeVarint(v)[1..] == EncodeVarint(v / 128);
    }
  }

  /** Exactly the numbers below 128^n fit in n bytes. */
  lemma {:induction false} EncodedLength(v: nat, n: nat)
    requires n > 0
    ensures |EncodeVarint(v)| <= n <==> v < Pow128(n)
    decreases n
  {
    if n == 1 {
      assert Pow128(1) == 128;
      if v >= 128 {
        assert |EncodeVarint(v / 128)| >= 1;
      }
    } else if v < 128 {
      assert Pow128(n) == 128 * Pow128(n - 1);
    } else {
      EncodedLength(v / 128, n - 1);
    }
  }

  /** A 64-bit value takes one to ten bytes. */
  lemma EncodedAtMostTen(v: nat)
    requires v < TWO_64
    ensures 1 <= |EncodeVarint(v)| <= 10
  {
    EncodedLength(v, 10);
    Pow128IsPow2(10);
    Pow2Values();
    Pow2Add(64, 6);
    MulAtLeast(Pow2(6), Pow2(64));
  }

  /** No varint that stands for the same number is shorter. */
  lemma {:induction false} EncodedIsMinimal(g: bytes)
    requires g != []
    ensures |EncodeVarint(GroupsValue(g))| <= |g|
  {
    ValueBound(g);
    EncodedLength(GroupsValue(g), |g|);
  }

  lemma {:induction false} ValueBound(g: bytes)
    ensures GroupsValue(g) < Pow128(|g|)
  {
    if g != [] {
      ValueBound(g[1..]);
    }
  }

  /** pb_decode_varint undoes pb_encode_varint for every uint64. */
  lemma VarintRoundTrip(v: nat, tail: bytes)
    requires v < TWO_64
    ensures DecodeVarint(EncodeVarint(v) + tail) == Ok(v, tail)
  {
    SplitEncoded(v, tail);
    ValueEncoded(v);
    EncodedAtMostTen(v);
  }

  lemma {:induction false} ValueAppend(g: bytes, b: byte)
    ensures GroupsValue(g + [b]) == GroupsValue(g) + (b % 128) * Pow128(|g|)
  {
    if g == [] {
      assert g + [b] == [b];
    } else {
      ValueAppend(g[1..], b);
      assert (g + [b])[1..] == g[1..] + [b];
      var p := Pow128(|g| - 1);
      assert 128 * ((b % 128) * p) == (b % 128) * (128 * p) by {
        MulAssoc(b % 128, 128, p);
      }
    }
  }

  /** Continuation bytes followed by a byte below 128. */
  predicate CompleteVarint(g: bytes) {
    g != [] && g[|g| - 1] < 128 && forall i | 0 <= i < |g| - 1 :: g[i] >= 128
  }

  lemma {:induction false} SplitComplete(g: bytes, tail: bytes)
    requires CompleteVarint(g)
    ensures SplitVarint(g + tail) == Ok(g, tail)
  {
    assert (g + tail)[0] == g[0] && (g + tail)[1..] == g[1..] + tail;
    assert [g[0]] + g[1..] == g;
    if |g| == 1 {
      assert g[1..] + tail == tail;
    } else {
      SplitComplete(g[1..], tail);
    }
  }

  lemma {:induction false} SplitUnfinished(g: bytes)
    requires forall i | 0 <= i < |g| :: g[i] >= 128
    ensures SplitVarint(g).Fail?
  {
    if g != [] {
      SplitUnfinished(g[1..]);
    }
  }

  /** pb_decode_varint on every complete varint, padded ones included: up to ten bytes are
      accepted and give the low 64 bits of what the groups stand for, longer ones are
      refused; so is a varint that ends within its bytes. */
  lemma VarintExactly(g: bytes, tail: bytes)
    ensures CompleteVarint(g) ==>
              DecodeVarint(g + tail) ==
              if |g| <= 10 then Ok(GroupsValue(g) % 0x1_0000_0000_0000_0000, tail) else Fail
    ensures (forall i | 0 <= i < |g| :: g[i] >= 128) ==> DecodeVarint(g).Fail?
  {
    if CompleteVarint(g) {
      SplitComplete(g, tail);
    }
    if forall i | 0 <= i < |g| :: g[i] >= 128 {
      SplitUnfinished(g);
    }
  }

  /** What the groups stand for: seven bits each, the lowest first. */
  lemma {:induction false} GroupBits(g: bytes, k: nat)
    requires k < |g|
    ensures GroupsValue(g) / Pow128(k) % 128 == g[k] % 128
  {
    FirstBits(g);
    if k > 0 {
      hide GroupsValue;
      GroupBits(g[1..], k - 1);
      DivDiv(GroupsValue(g), 128, Pow128(k - 1));
    }
  }

  lemma FirstBits(g: bytes)
    requires g != []
    ensures GroupsValue(g) / 128 == GroupsValue(g[1..]) && GroupsValue(g) / Pow128(0) % 128 == g[0] % 128
  {
    DivModUnique(GroupsValue(g), 128, GroupsValue(g[1..]), g[0] % 128);
  }

  lemma DivDiv(x: nat, a: nat, b: nat)
    requires a > 0 && b > 0
    ensures a * b > 0 && x / a / b == x / (a * b)
  {
    MulAtLeast(a, b);
    var q, r := x / a, x % a;
    var q2, r2 := q / b, q % b;
    assert q == q2 * b + r2 && x == q * a + r;
    MulDistrib(q2 * b, r2, a);
    MulAssoc(q2, b, a);
    MulDistrib(b, r2 + 1, a);
    MulDistrib(r2, 1, a);
    MulGrows(r2 + 1, b, a);
    assert b * a == a * b;
    DivModUnique(x, a * b, q2, r2 * a + r);
  }

  // ------------------------------------------- reading more bytes than needed

  lemma {:induction false} SplitExtends(bs: bytes, tail: bytes)
    requires SplitVarint(bs).Ok?
    ensures SplitVarint(bs + tail) == Ok(SplitVarint(bs).value, SplitVarint(bs).rest + tail)
    decreases |bs|
  {
    assert (bs + tail)[0] == bs[0];
    assert (bs + tail)[1..] == bs[1..] + tail;
    if bs[0] >= 128 {
      SplitExtends(bs[1..], tail);
    }
  }

  lemma {:induction false} Varint32LoopExtends(bs: bytes, bitpos: nat, result: nat, tail: bytes)
    requires result < TWO_32
    requires Varint32Loop(bs, bitpos, result).Ok?
    ensures var r := Varint32Loop(bs, bitpos, result);
            Varint32Loop(bs + tail, bitpos, result) == Ok(r.value, r.rest + tail)
    decreases |bs|
  {
    assert (bs + tail)[0] == bs[0];
    assert (bs + tail)[1..] == bs[1..] + tail;
    if bs[0] >= 128 {
      var next := if bitpos >= 32 then result else OrGroup(result, bs[0], bitpos);
      Varint32LoopExtends(bs[1..], (bitpos + 7) % 256, next, tail);
    }
  }

  lemma Varint32Extends(bs: bytes, tail: bytes)
    requires DecodeVarint32(bs).Ok?
    ensures DecodeVarint32(bs + tail) == Ok(DecodeVarint32(bs).value, DecodeVarint32(bs).rest + tail)
  {
    assert (bs + tail)[0] == bs[0];
    assert (bs + tail)[1..] == bs[1..] + tail;
    if bs[0] >= 128 {
      Varint32LoopExtends(bs[1..], 7, bs[0] % 128, tail);
    }
  }
}
