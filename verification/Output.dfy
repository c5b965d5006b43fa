/** pb_ostream_t and the writing primitives of pb_encode.c. */
module Output {
  import opened Wire
  import opened Bits
  import opened Varint
  import opened Encoding

  /** The contents of a stream at one moment, with the whole buffer behind it. `out` is
      everything written so far; for a sizing stream, everything that was counted. */
  datatype Snapshot = Snapshot(out: bytes, state: nat, written: nat, max: nat, sizing: bool, mem: bytes) {
    /** Where the stream's window of the buffer begins. */
    function Base(): int {
      state - written
    }

    predicate Consistent() {
      && |out| == written
      && (!sizing ==>
            && written <= max && written <= state && Base() + max <= |mem|
            && mem[Base()..state] == out)
    }
  }

  /** The effect of any call that is meant to write `e`: it succeeds exactly when `e` is
      defined and fits, then appends precisely `e`; in every case what was written before
      stays, bytes_written stays within max_size, and nothing outside the rest of the
      window changes. */
  ghost predicate Step(a: Snapshot, b: Snapshot, e: Option<bytes>, ok: bool) {
    && b.Consistent()
    && b.max == a.max && b.sizing == a.sizing && |b.mem| == |a.mem|
    && (!a.sizing ==> b.Base() == a.Base())
    && (ok <==> e.Some? && (a.sizing || a.written + |e.value| <= a.max))
    && (ok ==> b.out == a.out + e.value)
    && a.out <= b.out
    && forall i | 0 <= i < |a.mem| && (a.sizing || i < a.state || i >= a.Base() + a.max) :: b.mem[i] == a.mem[i]
  }

  /** One thing after the other; undefined where either is. */
  function Then(e1: Option<bytes>, e2: Option<bytes>): Option<bytes> {
    var b1 :- e1;
    var b2 :- e2;
    Some(b1 + b2)
  }

  lemma StepsCompose(a: Snapshot, b: Snapshot, c: Snapshot, e1: Option<bytes>, e2: Option<bytes>, ok: bool)
    requires Step(a, b, e1, true) && Step(b, c, e2, ok) && a.Consistent()
    ensures Step(a, c, Then(e1, e2), ok)
  {
  }

  /** A failing part makes the whole fail. */
  lemma StepFails(a: Snapshot, b: Snapshot, e1: Option<bytes>, e: Option<bytes>)
    requires Step(a, b, e1, false)
    requires e.Some? ==> e1.Some? && |e1.value| <= |e.value|
    ensures Step(a, b, e, false)
  {
  }

  lemma FirstFails(a: Snapshot, b: Snapshot, e1: Option<bytes>, e2: Option<bytes>)
    requires Step(a, b, e1, false)
    ensures Step(a, b, Then(e1, e2), false)
  {
  }

  lemma NoStep(a: Snapshot)
    requires a.Consistent()
    ensures Step(a, a, Some([]), true) && Step(a, a, None, false)
  {
    assert a.out + [] == a.out;
  }

  /** The snapshot after appending `bs`. */
  ghost function Appended(a: Snapshot, bs: bytes): Snapshot
    requires a.Consistent() && (!a.sizing ==> a.written + |bs| <= a.max)
  {
    if a.sizing then a.(out := a.out + bs, written := a.written + |bs|)
    else Snapshot(a.out + bs, a.state + |bs|, a.written + |bs|, a.max, false,
                  a.mem[..a.state] + bs + a.mem[a.state + |bs|..])
  }

  lemma AppendStep(a: Snapshot, bs: bytes)
    requires a.Consistent() && (!a.sizing ==> a.written + |bs| <= a.max)
    ensures Step(a, Appended(a, bs), Some(bs), true)
  {
    if !a.sizing {
      var b := Appended(a, bs);
      assert b.mem[b.Base()..b.state] == a.mem[a.Base()..a.state] + bs;
    }
  }

  lemma RefusedStep(a: Snapshot, bs: bytes)
    requires a.Consistent() && !a.sizing && a.written + |bs| > a.max
    ensures Step(a, a, Some(bs), false)
  {
  }

  lemma JoinWindows(mem: bytes, i: nat, j: nat, k: nat)
    requires i <= j <= k <= |mem|
    ensures mem[i..k] == mem[i..j] + mem[j..k]
  {
  }

  /** A substream over the next `size` bytes of the window, filled completely, is one step
      of the parent. */
  lemma SubstreamStep(a: Snapshot, sub0: Snapshot, sub1: Snapshot, e: bytes, size: nat)
    requires a.Consistent() && !a.sizing && a.written + size <= a.max && |e| == size
    requires sub0 == Snapshot([], a.state, 0, size, false, a.mem) && Step(sub0, sub1, Some(e), true)
    ensures sub1.written == size
    ensures var b := Snapshot(a.out + sub1.out, sub1.state, a.written + sub1.written, a.max, false, sub1.mem);
            Step(a, b, Some(e), true)
  {
    assert [] + e == e;
    var b := Snapshot(a.out + sub1.out, sub1.state, a.written + sub1.written, a.max, false, sub1.mem);
    assert sub1.Base() == a.state && sub1.mem[a.state..sub1.state] == e;
    assert b.mem[a.Base()..a.state] == a.mem[a.Base()..a.state];
    JoinWindows(b.mem, a.Base(), a.state, b.state);
    assert b.Consistent();
  }

  /** An output stream: a window of a memory buffer, or a sizing stream that only counts. */
  class OStream {
    const buf: array<byte>
    /** callback == NULL */
    const sizing: bool
    var state: nat
    var maxSize: nat
    var bytesWritten: nat
    ghost var out: bytes

    ghost function Now(): Snapshot
      reads this, buf
    {
      Snapshot(out, state, bytesWritten, maxSize, sizing, buf[..])
    }

    ghost predicate Valid()
      reads this, buf
    {
      Now().Consistent()
    }

    twostate predicate Wrote(new e: Option<bytes>, ok: bool)
      reads this, buf
    {
      Valid() && Step(old(Now()), Now(), e, ok)
    }

    /** pb_ostream_from_buffer, for a window of the buffer. */
    constructor FromBuffer(buffer: array<byte>, start: nat, size: nat)
      requires start + size <= buffer.Length
      ensures Valid() && !sizing && buf == buffer && state == start && maxSize == size && bytesWritten == 0
      ensures out == []
    {
      buf, sizing, state, maxSize, bytesWritten := buffer, false, start, size, 0;
      out := [];
    }

    /** PB_OSTREAM_SIZING */
    constructor Sizing()
      ensures Valid() && sizing && bytesWritten == 0 && out == [] && fresh(buf)
    {
      buf := new byte[0];
      sizing, state, maxSize, bytesWritten := true, 0, 0, 0;
      out := [];
    }

    /** buf_write: copies the bytes and moves the state pointer. */
    method BufWrite(bs: bytes)
      requires state + |bs| <= buf.Length
      modifies `state, buf
      ensures state == old(state) + |bs|
      ensures buf[..] == old(buf[..state]) + bs + old(buf[state + |bs|..])
    {
      var dest := state;
      state := dest + |bs|;
      for i := 0 to |bs|
        modifies buf
        invariant buf[..] == old(buf[..])[..dest] + bs[..i] + old(buf[..])[dest + i..]
      {
        buf[dest + i] := bs[i];
      }
      assert bs[..|bs|] == bs;
    }

    /** pb_write */
    method Write(bs: bytes) returns (ok: bool)
      requires Valid()
      modifies this, buf
      ensures Wrote(Some(bs), ok)
    {
      hide Step;
      var count := |bs|;
      ghost var s0 := Now();
      if count > 0 && !sizing {
        if bytesWritten + count > maxSize {
          RefusedStep(s0, bs);
          return false;
        }
        BufWrite(bs);
      }
      bytesWritten := bytesWritten + count;
      out := out + bs;
      AppendStep(s0, bs);
      assert buf[..] == Appended(s0, bs).mem;
      assert Now() == Appended(s0, bs);
      return true;
    }

    /** pb_write(stream, NULL, size) on a sizing stream: `bs` is what would be written. */
    method Count(size: nat, ghost bs: bytes) returns (ok: bool)
      requires Valid() && sizing && |bs| == size
      modifies this
      ensures Wrote(Some(bs), ok)
    {
      ghost var s0 := Now();
      bytesWritten := bytesWritten + size;
      out := out + bs;
      AppendStep(s0, bs);
      return true;
    }
  }

  /** pb_encode_varint */
  method WriteVarint(stream: OStream, value: nat) returns (ok: bool)
    requires stream.Valid() && value < TWO_64
    modifies stream, stream.buf
    ensures stream.Wrote(Some(EncodeVarint(value)), ok)
  {
    if value <= 0x7F {
      ok := stream.Write([value]);
      return;
    }
    var buffer := new byte[10];
    var i := FillGroups(buffer, value);
    ok := stream.Write(buffer[..i]);
  }

  /** Groups of seven bits with continuation bits, the last one cleared; ten bytes are
      enough for 64 bits. */
  method FillGroups(buffer: array<byte>, value: nat) returns (i: nat)
    requires buffer.Length == 10 && 0 < value < TWO_64
    modifies buffer
    ensures i <= 10 && buffer[..i] == EncodeVarint(value)
  {
    hide EncodeVarint;
    var v := value;
    i := 0;
    EncodedAtMostTen(value);
    while v != 0
      invariant v != 0 ==> i + |EncodeVarint(v)| <= 10 && buffer[..i] + EncodeVarint(v) == EncodeVarint(value)
      invariant v == 0 ==> 0 < i <= 10 && buffer[i - 1] >= 128
      invariant v == 0 ==> buffer[..i - 1] + [buffer[i - 1] - 128] == EncodeVarint(value)
      decreases v
    {
      ghost var before := buffer[..i];
      NextGroup(before, v);
      buffer[i] := v % 128 + 128;
      assert buffer[..i] == before;
      assert buffer[..i + 1] == before + [v % 128 + 128];
      v := v / 128;
      i := i + 1;
    }
    ghost var before := buffer[..i - 1];
    buffer[i - 1] := buffer[i - 1] - 128;
    assert buffer[..i] == before + [buffer[i - 1]];
  }

  /** pb_encode_tag */
  method WriteTag(stream: OStream, wireType: nat, fieldNumber: nat) returns (ok: bool)
    requires stream.Valid() && wireType < 8 && fieldNumber < TWO_32
    modifies stream, stream.buf
    ensures stream.Wrote(Some(EncodeTag(fieldNumber, wireType)), ok)
  {
    ok := WriteVarint(stream, fieldNumber * 8 + wireType);
  }

  /** pb_encode_string */
  method WriteString(stream: OStream, payload: bytes) returns (ok: bool)
    requires stream.Valid() && |payload| < TWO_64
    modifies stream, stream.buf
    ensures stream.Wrote(Some(Delimited(payload)), ok)
  {
    hide Step;
    ghost var s0 := stream.Now();
    ok := WriteVarint(stream, |payload|);
    ghost var s1, e1 := stream.Now(), Some(EncodeVarint(|payload|));
    if !ok {
      FirstFails(s0, s1, e1, Some(payload));
      return;
    }
    ok := stream.Write(payload);
    StepsCompose(s0, s1, stream.Now(), e1, Some(payload), ok);
  }
}
