/** pb_istream_t and the reading primitives of pb_decode.c. */
module Input {
  import opened Wire
  import opened Bits
  import opened Varint
  import opened Encoding
  import opened Decoding

  /** An input stream over bytes in memory. `memory` is false for a stream with a custom
      callback, which differs in how bytes are skipped. */
  class IStream {
    const data: array<byte>
    const memory: bool
    var state: nat
    var bytesLeft: nat

    ghost predicate Valid()
      reads this
    {
      state + bytesLeft <= data.Length
    }

    /** The bytes that may still be read. */
    ghost function Rest(): (r: bytes)
      requires Valid()
      reads this, data
      ensures |r| == bytesLeft
    {
      data[state..state + bytesLeft]
    }

    /** A successful read: the unread bytes are now `rest`, and position plus bytes_left
        has not moved. */
    twostate predicate Reached(new rest: bytes)
      reads this, data
    {
      Valid() && Rest() == rest && state + bytesLeft == old(state + bytesLeft)
    }

    /** pb_istream_from_buffer, or a stream that starts at some position of the data. */
    constructor (buffer: array<byte>, start: nat, size: nat, inMemory: bool)
      requires start + size <= buffer.Length
      ensures Valid() && data == buffer && state == start && bytesLeft == size && memory == inMemory
    {
      data, state, bytesLeft, memory := buffer, start, size, inMemory;
    }

    /** pb_read into a buffer, with buf_read's copying loop. */
    method Read(count: nat) returns (ok: bool, bs: bytes)
      requires Valid()
      modifies this
      ensures Valid() && state + bytesLeft == old(state + bytesLeft)
      ensures ok <==> count <= old(bytesLeft)
      ensures ok ==> Take(old(Rest()), count) == Ok(bs, Rest())
      ensures !ok ==> state == old(state)
    {
      if bytesLeft < count {
        return false, [];
      }
      var buf := new byte[count];
      for i := 0 to count
        modifies buf
        invariant buf[..i] == data[state..state + i]
      {
        buf[i] := data[state + i];
      }
      bs := buf[..];
      assert bs == buf[..count];
      WindowSplit(data, state, count, bytesLeft - count);
      state := state + count;
      bytesLeft := bytesLeft - count;
      return true, bs;
    }

    /** pb_read with a null buffer. A stream with a custom callback is drained in chunks of
        16 bytes; either way exactly `count` bytes are consumed, or the call fails because
        there are fewer. */
    method Skip(count: nat) returns (ok: bool)
      requires Valid()
      modifies this
      ensures Valid() && state + bytesLeft == old(state + bytesLeft)
      ensures ok <==> count <= old(bytesLeft)
      ensures ok ==> state == old(state) + count && Take(old(Rest()), count).rest == Rest()
    {
      if count == 0 {
        return true;
      }
      if !memory {
        var left: nat := count;
        while left > 16
          invariant Valid() && left <= count && state + bytesLeft == old(state + bytesLeft)
          invariant state == old(state) + (count - left)
        {
          var read, tmp := Read(16);
          if !read {
            return false;
          }
          left := left - 16;
        }
        var read, tmp := Read(left);
        return read;
      }
      if bytesLeft < count {
        return false;
      }
      state := state + count;
      bytesLeft := bytesLeft - count;
      return true;
    }

    /** pb_readbyte */
    method ReadByte() returns (ok: bool, b: byte)
      requires Valid()
      modifies this
      ensures Valid() && state + bytesLeft == old(state + bytesLeft)
      ensures ok <==> old(bytesLeft) > 0
      ensures ok ==> b == old(Rest())[0] && Rest() == old(Rest())[1..]
      ensures !ok ==> state == old(state)
    {
      if bytesLeft == 0 {
        return false, 0;
      }
      b := data[state];
      state := state + 1;
      bytesLeft := bytesLeft - 1;
      return true, b;
    }
  }

  // -------------------------------------------------------------------- varints

  /** The check behind the loop: byte five may carry four bits only. */
  function LastByte(b: byte, bitpos: nat, result: nat, rest: bytes): Parse<nat> {
    if bitpos == 35 && (b / 16) % 8 != 0 then Fail else Ok(result, rest)
  }

  /** pb_decode_varint32_eof */
  method ReadVarint32(stream: IStream) returns (ok: bool, dest: nat, eof: bool)
    requires stream.Valid()
    modifies stream
    ensures stream.Valid() && stream.state + stream.bytesLeft <= old(stream.state + stream.bytesLeft)
    ensures ok <==> DecodeVarint32(old(stream.Rest())).Ok?
    ensures ok ==> dest == DecodeVarint32(old(stream.Rest())).value
    ensures ok ==> stream.Reached(DecodeVarint32(old(stream.Rest())).rest)
    ensures eof <==> old(stream.bytesLeft) == 0
  {
    hide OrGroup;
    var b: byte;
    ok, b := stream.ReadByte();
    eof := false;
    dest := 0;
    if !ok {
      eof := true;
      return;
    }
    if b < 128 {
      dest := b;
      return;
    }
    var bitpos: nat := 7;
    var result: nat := b % 128;
    var continues := true;
    while continues
      invariant stream.Valid() && stream.state + stream.bytesLeft == old(stream.state + stream.bytesLeft)
      invariant result < TWO_32 && bitpos < 256
      invariant continues ==> DecodeVarint32(old(stream.Rest())) == Varint32Loop(stream.Rest(), bitpos, result)
      invariant !continues ==> b < 128
      invariant !continues ==> DecodeVarint32(old(stream.Rest())) == LastByte(b, bitpos, result, stream.Rest())
      decreases continues, stream.bytesLeft
    {
      ok, b := stream.ReadByte();
      if !ok {
        return;
      }
      if bitpos >= 32 {
        var signExtension: byte := if bitpos < 63 then 0xFF else 0x01;
        if b % 128 != 0 && (result / TWO_31 == 0 || b != signExtension) {
          ok := false;
          return;
        }
      } else {
        var next := OrGroup(result, b, bitpos);
        result := next;
      }
      bitpos := (bitpos + 7) % 256;
      continues := b >= 128;
    }
    if bitpos == 35 && (b / 16) % 8 != 0 {
      ok := false;
      return;
    }
    dest := result;
    ok := true;
  }

  /** Bytes with the continuation bit go in front of whatever varint follows. */
  lemma {:induction false} SplitBehind(g: bytes, bs: bytes)
    requires forall i | 0 <= i < |g| :: g[i] >= 128
    ensures SplitVarint(g + bs) == match SplitVarint(bs)
                                   case Ok(h, rest) => Ok(g + h, rest)
                                   case Fail => Fail
    decreases |g|
  {
    if g == [] {
      assert g + bs == bs;
      if SplitVarint(bs).Ok? {
        assert g + SplitVarint(bs).value == SplitVarint(bs).value;
      }
    } else {
      assert (g + bs)[1..] == g[1..] + bs;
      SplitBehind(g[1..], bs);
      if SplitVarint(bs).Ok? {
        assert [g[0]] + (g[1..] + SplitVarint(bs).value) == g + SplitVarint(bs).value;
      }
    }
  }

  /** One turn of pb_decode_varint's loop: or-ing in the next group, truncated to 64 bits. */
  lemma GroupJoins64(g: bytes, b: byte)
    requires |g| < 10
    ensures GroupsValue(g) % TWO_64 == GroupsValue(g)
    ensures BitOr(GroupsValue(g), ((b % 128) * Pow2(7 * |g|)) % TWO_64) == GroupsValue(g + [b]) % TWO_64
  {
    hide GroupsValue;
    Pow2Values();
    Pow128IsPow2(|g|);
    ValueBound(g);
    ValueAppend(g, b);
    Pow2Monotone(7 * |g|, 63);
    DivModUnique(GroupsValue(g), TWO_64, 0, GroupsValue(g));
    OrTruncated(GroupsValue(g), b % 128, 7 * |g|, 64);
  }

  /** pb_decode_varint */
  method ReadVarint(stream: IStream) returns (ok: bool, dest: nat)
    requires stream.Valid()
    modifies stream
    ensures stream.Valid() && stream.state + stream.bytesLeft <= old(stream.state + stream.bytesLeft)
    ensures ok <==> DecodeVarint(old(stream.Rest())).Ok?
    ensures ok ==> dest == DecodeVarint(old(stream.Rest())).value
    ensures ok ==> stream.Reached(DecodeVarint(old(stream.Rest())).rest)
  {
    hide GroupsValue;
    hide SplitVarint;
    hide BitOr;
    hide IStream.Rest;
    var bitpos: nat := 0;
    var result: nat := 0;
    ghost var g: bytes := [];
    ghost var bs := stream.Rest();
    assert GroupsValue(g) == 0 by {
      NoGroups();
    }
    var continues := true;
    ok := true;
    while continues
      invariant stream.Valid() && stream.state + stream.bytesLeft == old(stream.state + stream.bytesLeft)
      invariant bs == g + stream.Rest() && |g| <= 10 && bitpos == 7 * |g|
      invariant result == GroupsValue(g) % TWO_64
      invariant continues ==> forall i | 0 <= i < |g| :: g[i] >= 128
      invariant !continues ==> SplitVarint(bs) == Ok(g, stream.Rest())
      decreases continues, stream.bytesLeft
    {
      SplitBehind(g, stream.Rest());
      SplitFirst(stream.Rest());
      if bitpos >= 64 {
        return false, 0;
      }
      var b: byte;
      ok, b := stream.ReadByte();
      if !ok {
        return false, 0;
      }
      GroupJoins64(g, b);
      result := BitOr(result, ((b % 128) * Pow2(bitpos)) % TWO_64);
      bitpos := bitpos + 7;
      g := g + [b];
      continues := b >= 128;
    }
    dest := result;
  }

  lemma SplitFirst(bs: bytes)
    ensures bs == [] ==> SplitVarint(bs).Fail?
    ensures bs != [] && bs[0] < 128 ==> SplitVarint(bs) == Ok([bs[0]], bs[1..])
  {
  }

  lemma NoGroups()
    ensures GroupsValue([]) == 0
  {
  }

  /** pb_skip_varint */
  method SkipVarint(stream: IStream) returns (ok: bool)
    requires stream.Valid()
    modifies stream
    ensures stream.Valid() && stream.state + stream.bytesLeft <= old(stream.state + stream.bytesLeft)
    ensures ok <==> SplitVarint(old(stream.Rest())).Ok?
    ensures ok ==> stream.Reached(SplitVarint(old(stream.Rest())).rest)
  {
    ghost var bs := stream.Rest();
    var continues := true;
    ok := true;
    while continues
      invariant stream.Valid() && stream.state + stream.bytesLeft == old(stream.state + stream.bytesLeft)
      invariant RestOf(SplitVarint(bs)) == if continues then RestOf(SplitVarint(stream.Rest())) else Some(stream.Rest())
      decreases continues, stream.bytesLeft
    {
      ghost var before := stream.Rest();
      var b: bytes;
      ok, b := stream.Read(1);
      if !ok {
        return;
      }
      assert b[0] == before[0] && stream.Rest() == before[1..];
      continues := b[0] >= 128;
    }
  }

  // ------------------------------------------------------------ tags and framing

  /** pb_decode_tag */
  method ReadTag(stream: IStream) returns (ok: bool, wireType: nat, tag: nat, eof: bool)
    requires stream.Valid()
    modifies stream
    ensures stream.Valid() && stream.state + stream.bytesLeft <= old(stream.state + stream.bytesLeft)
    ensures ok <==> DecodeTag(old(stream.Rest())).Tag?
    ensures ok ==> DecodeTag(old(stream.Rest())) == Tag(tag, wireType, stream.Rest())
    ensures ok ==> stream.Reached(stream.Rest())
    ensures !ok ==> (eof <==> old(stream.bytesLeft) == 0 || DecodeTag(old(stream.Rest())).TagEnd?)
    ensures !ok && eof && old(stream.bytesLeft) > 0 ==>
              DecodeTag(old(stream.Rest())) == TagEnd(stream.Rest()) && stream.Reached(stream.Rest())
  {
    hide DecodeVarint32;
    var temp: nat;
    wireType, tag := 0, 0;
    ok, temp, eof := ReadVarint32(stream);
    EmptyHasNoTag();
    if !ok {
      return;
    }
    if temp == 0 {
      return false, 0, 0, true;
    }
    return true, temp % 8, temp / 8, false;
  }

  lemma EmptyHasNoTag()
    ensures DecodeTag([]) == TagError && DecodeVarint32([]).Fail?
  {
  }

  /** pb_make_string_substream: the substream covers exactly the announced bytes, the
      parent keeps what follows them. */
  method MakeSubstream(stream: IStream) returns (ok: bool, sub: IStream)
    requires stream.Valid()
    modifies stream
    ensures stream.Valid() && fresh(sub) && sub.Valid()
    ensures stream.state + stream.bytesLeft <= old(stream.state + stream.bytesLeft)
    ensures ok <==> TakeDelimited(old(stream.Rest())).Ok?
    ensures ok ==> sub.data == stream.data && sub.Rest() == TakeDelimited(old(stream.Rest())).value
    ensures ok ==> sub.state == stream.state && sub.bytesLeft < old(stream.bytesLeft)
    ensures ok ==> stream.state + sub.bytesLeft + stream.bytesLeft == old(stream.state + stream.bytesLeft)
    ensures ok ==> Behind(stream, sub.state + sub.bytesLeft) == TakeDelimited(old(stream.Rest())).rest
  {
    hide DecodeVarint32;
    hide TakeDelimited;
    hide IStream.Rest;
    hide Behind;
    DelimitedParts(stream.Rest());
    var size: nat, eof: bool;
    ok, size, eof := ReadVarint32(stream);
    if !ok || stream.bytesLeft < size {
      ok := false;
      sub := new IStream(stream.data, stream.state, stream.bytesLeft, stream.memory);
      return;
    }
    sub := CutSubstream(stream, size);
  }

  /** The substream takes the first `size` bytes, and as many fewer are left in the parent. */
  method CutSubstream(stream: IStream, size: nat) returns (sub: IStream)
    requires stream.Valid() && size <= stream.bytesLeft
    modifies stream
    ensures fresh(sub) && sub.Valid() && stream.Valid() && stream.state == old(stream.state)
    ensures sub.data == stream.data && sub.state == stream.state && sub.memory == stream.memory
    ensures sub.bytesLeft == size && stream.bytesLeft == old(stream.bytesLeft) - size
    ensures sub.Rest() == old(stream.Rest())[..size]
    ensures Behind(stream, sub.state + size) == old(stream.Rest())[size..]
  {
    WindowSplit(stream.data, stream.state, size, stream.bytesLeft - size);
    sub := new IStream(stream.data, stream.state, stream.bytesLeft, stream.memory);
    sub.bytesLeft := size;
    stream.bytesLeft := stream.bytesLeft - size;
  }

  lemma DelimitedParts(bs: bytes)
    ensures var p := DecodeVarint32(bs);
            TakeDelimited(bs) == if p.Ok? && p.value <= |p.rest| then Ok(p.rest[..p.value], p.rest[p.value..]) else Fail
  {
  }

  lemma WindowSplit(data: array<byte>, at: nat, m: nat, n: nat)
    requires at + m + n <= data.Length
    ensures data[at..at + (m + n)][..m] == data[at..at + m]
    ensures data[at..at + (m + n)][m..] == data[at + m..at + m + n]
  {
  }

  /** What the parent of an open substream may read once the substream has been closed. */
  ghost function Behind(stream: IStream, from: nat): bytes
    reads stream, stream.data
  {
    if from + stream.bytesLeft <= stream.data.Length then stream.data[from..from + stream.bytesLeft] else []
  }

  /** pb_close_string_substream: whatever the substream did not use is skipped, and the
      parent goes on right behind it. */
  method CloseSubstream(stream: IStream, sub: IStream)
    returns (ok: bool)
    requires sub.Valid() && stream != sub && sub.data == stream.data
    requires sub.state + sub.bytesLeft + stream.bytesLeft <= stream.data.Length
    modifies stream, sub
    ensures ok && stream.Valid() && stream.state == old(sub.state + sub.bytesLeft)
    ensures stream.bytesLeft == old(stream.bytesLeft)
    ensures stream.Rest() == old(Behind(stream, sub.state + sub.bytesLeft))
  {
    if sub.bytesLeft != 0 {
      var skipped := sub.Skip(sub.bytesLeft);
      if !skipped {
        return false;
      }
    }
    stream.state := sub.state;
    return true;
  }

  /** pb_skip_string */
  method SkipString(stream: IStream) returns (ok: bool)
    requires stream.Valid()
    modifies stream
    ensures stream.Valid() && stream.state + stream.bytesLeft <= old(stream.state + stream.bytesLeft)
    ensures ok <==> TakeDelimited(old(stream.Rest())).Ok?
    ensures ok ==> stream.Reached(TakeDelimited(old(stream.Rest())).rest)
  {
    hide DecodeVarint32;
    var length: nat, eof: bool;
    ok, length, eof := ReadVarint32(stream);
    if !ok {
      return;
    }
    ok := stream.Skip(length);
  }

  /** pb_skip_field */
  method SkipOneField(stream: IStream, wireType: nat) returns (ok: bool)
    requires stream.Valid()
    modifies stream
    ensures stream.Valid() && stream.state + stream.bytesLeft <= old(stream.state + stream.bytesLeft)
    ensures ok <==> SkipField(wireType, old(stream.Rest())).Some?
    ensures ok ==> stream.Reached(SkipField(wireType, old(stream.Rest())).value)
  {
    hide TakeDelimited;
    if wireType == WT_VARINT {
      ok := SkipVarint(stream);
    } else if wireType == WT_64BIT {
      ok := stream.Skip(8);
    } else if wireType == WT_STRING {
      ok := SkipString(stream);
    } else if wireType == WT_32BIT {
      ok := stream.Skip(4);
    } else {
      ok := false;
    }
  }
}
