/** Bytes and the shape of every reader in this model: a reader takes the bytes left in
    the stream and either fails or returns a value with the bytes it left unread. */
module Wire {

  type byte = x: int | 0 <= x < 256

  type bytes = seq<byte>

  datatype Parse<+T> = Fail | Ok(value: T, rest: bytes) {
    predicate IsFailure() {
      Fail?
    }

    function PropagateFailure<U>(): Parse<U>
      requires Fail?
    {
      Fail
    }

    function Extract(): (T, bytes)
      requires Ok?
    {
      (value, rest)
    }
  }

  datatype Option<+T> = None | Some(value: T) {
    predicate IsFailure() {
      None?
    }

    function PropagateFailure<U>(): Option<U>
      requires None?
    {
      None
    }

    function Extract(): T
      requires Some?
    {
      value
    }
  }

  /** What pb_read does to the remaining bytes. */
  function Take(bs: bytes, count: nat): (r: Parse<bytes>)
    ensures r.Ok? <==> count <= |bs|
    ensures r.Ok? ==> |r.value| == count && bs == r.value + r.rest
  {
    if |bs| < count then Fail else Ok(bs[..count], bs[count..])
  }

  /** `width` little-endian bytes of an unsigned number. */
  function LittleEndian(v: nat, width: nat): (r: bytes)
    ensures |r| == width
  {
    if width == 0 then [] else [v % 256] + LittleEndian(v / 256, width - 1)
  }

  function FromLittleEndian(bs: bytes): nat
  {
    if bs == [] then 0 else bs[0] + 256 * FromLittleEndian(bs[1..])
  }

  lemma FourBytes(v: nat)
    ensures LittleEndian(v, 4) == [v % 256, v / 0x100 % 256, v / 0x1_0000 % 256, v / 0x100_0000 % 256]
  {
    var w := v / 0x1_0000;
    assert w == v / 256 / 256;
    assert v / 0x100_0000 == w / 256;
    assert LittleEndian(w, 2) == [w % 256, w / 256 % 256];
    assert LittleEndian(v, 4) == [v % 256] + ([v / 256 % 256] + LittleEndian(w, 2));
  }

  lemma EightBytes(v: nat)
    ensures LittleEndian(v, 8) == LittleEndian(v, 4) + LittleEndian(v / 0x1_0000_0000, 4)
  {
    var w2 := v / 0x1_0000;
    var w4 := v / 0x1_0000_0000;
    assert w2 == v / 256 / 256 && w4 == w2 / 256 / 256;
    assert LittleEndian(v, 8) == [v % 256] + ([v / 256 % 256] + LittleEndian(w2, 6));
    assert LittleEndian(w2, 6) == [w2 % 256] + ([w2 / 256 % 256] + LittleEndian(w4, 4));
    assert LittleEndian(v, 4) == [v % 256] + ([v / 256 % 256] + LittleEndian(w2, 2));
    assert LittleEndian(w2, 2) == [w2 % 256] + ([w2 / 256 % 256] + LittleEndian(w4, 0));
  }

  lemma {:induction false} LittleEndianRoundTrip(v: nat, width: nat)
    requires v < Pow256(width)
    ensures FromLittleEndian(LittleEndian(v, width)) == v
  {
    if width > 0 {
      LittleEndianRoundTrip(v / 256, width - 1);
      assert LittleEndian(v, width)[1..] == LittleEndian(v / 256, width - 1);
    }
  }

  function Pow256(n: nat): nat
  {
    if n == 0 then 1 else 256 * Pow256(n - 1)
  }

  lemma {:induction false} FromLittleEndianBound(bs: bytes)
    ensures FromLittleEndian(bs) < Pow256(|bs|)
  {
    if bs != [] {
      FromLittleEndianBound(bs[1..]);
    }
  }

  lemma {:induction false} LittleEndianUnique(bs: bytes)
    ensures LittleEndian(FromLittleEndian(bs), |bs|) == bs
  {
    if bs != [] {
      LittleEndianUnique(bs[1..]);
      var v := FromLittleEndian(bs);
      assert v % 256 == bs[0] && v / 256 == FromLittleEndian(bs[1..]);
      assert bs == [bs[0]] + bs[1..];
    }
  }

  /** Four bytes shifted to their places. */
  function Word(b0: nat, b1: nat, b2: nat, b3: nat): nat {
    b0 + b1 * 0x100 + b2 * 0x1_0000 + b3 * 0x100_0000
  }

  lemma FourBytesValue(b: bytes)
    requires |b| == 4
    ensures FromLittleEndian(b) == Word(b[0], b[1], b[2], b[3])
  {
    assert b[1..][1..] == b[2..];
    assert b[2..][1..] == b[3..];
    assert b[3..][1..] == [];
    assert FromLittleEndian(b[3..]) == b[3];
    assert FromLittleEndian(b[1..]) == b[1] + 256 * FromLittleEndian(b[2..]);
  }

  lemma {:induction false} LittleEndianConcat(a: bytes, b: bytes)
    ensures FromLittleEndian(a + b) == FromLittleEndian(a) + Shifted(FromLittleEndian(b), |a|)
  {
    if a == [] {
      assert a + b == b;
    } else {
      assert (a + b)[1..] == a[1..] + b;
      LittleEndianConcat(a[1..], b);
    }
  }

  /** Moved up by n bytes. */
  function Shifted(x: nat, n: nat): nat {
    if n == 0 then x else 256 * Shifted(x, n - 1)
  }

  lemma ShiftedByFour(x: nat)
    ensures Shifted(x, 4) == x * 0x1_0000_0000
  {
    assert Shifted(x, 1) == 256 * x;
    assert Shifted(x, 3) == 256 * (256 * Shifted(x, 1));
  }

  lemma EightBytesValue(b: bytes)
    requires |b| == 8
    ensures FromLittleEndian(b) == Word(b[0], b[1], b[2], b[3]) + Word(b[4], b[5], b[6], b[7]) * 0x1_0000_0000
  {
    FourBytesValue(b[..4]);
    FourBytesValue(b[4..]);
    assert b == b[..4] + b[4..];
    LittleEndianConcat(b[..4], b[4..]);
    ShiftedByFour(Word(b[4], b[5], b[6], b[7]));
  }
}
