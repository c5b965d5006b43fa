/** Arrays on the heap (PB_ENABLE_MALLOC): the size test of allocate_field and the growing
    loops of decode_pointer_field. */
module PointerArrays {
  import opened Wire
  import opened Bits
  import opened Varint
  import opened Descriptor
  import opened Scalars
  import opened Message
  import opened Decoding
  import opened Input
  import opened Decoder
  import opened Encoding
  import Packed

  const SIZE_T_BITS: nat := 64

  // ------------------------------------------------------------------ allocation

  lemma HalfWidthProduct(a: nat, b: nat, half: nat)
    requires a < Pow2(half) && b < Pow2(half)
    ensures a * b < Pow2(2 * half)
  {
    Pow2Add(half, half);
    ProductBelow(a, b, Pow2(half));
  }

  lemma ProductBelow(a: nat, b: nat, p: nat)
    requires a < p && b < p
    ensures a * b < p * p
  {
    MulDistrib(p, a, p);
    MulAtLeast(p - a, p);
    assert a * (p - b) >= 0;
  }

  lemma QuotientTest(max: nat, a: nat, d: nat)
    requires a > 0
    ensures max / a < d <==> d * a > max
  {
    var q, r := max / a, max % a;
    assert max == q * a + r;
    MulDistrib(d, q, a);
    MulDistrib(q, d, a);
    if q < d {
      MulAtLeast(d - q, a);
    } else if q > d {
      MulAtLeast(q - d, a);
    }
  }

  /** The size test for a size_t of any even width: it accepts exactly the nonzero products
      that a size_t can hold, dividing only when an operand needs more than half of the
      bits. */
  method SizeAccepted(dataSize: nat, arraySize: nat, bits: nat) returns (ok: bool)
    requires bits % 2 == 0 && dataSize < Pow2(bits) && arraySize < Pow2(bits)
    ensures ok <==> 0 < dataSize * arraySize < Pow2(bits)
  {
    if dataSize == 0 || arraySize == 0 {
      return false;
    }
    MulAtLeast(dataSize, arraySize);
    var checkLimit := Pow2(bits / 2);
    if dataSize >= checkLimit || arraySize >= checkLimit {
      var sizeMax := Pow2(bits) - 1;
      QuotientTest(sizeMax, arraySize, dataSize);
      if sizeMax / arraySize < dataSize {
        return false;
      }
    } else {
      HalfWidthProduct(dataSize, arraySize, bits / 2);
    }
    return true;
  }

  /** The memory manager: what it will answer to each request is unknown. */
  class Heap {
    var answers: seq<bool>
    /** How many entries have been asked for so far, request by request. */
    ghost var requests: seq<nat>

    method Grants() returns (granted: bool)
      modifies `answers
    {
      granted := answers != [] && answers[0];
      if granted {
        answers := answers[1..];
      }
    }

    /** realloc: the old contents move along as far as they fit in the new block. */
    method Realloc(block: array?<Value>, entries: nat) returns (p: array?<Value>)
      modifies this
      ensures requests == old(requests) + [entries]
      ensures p != null ==> fresh(p) && p.Length == entries
      ensures p != null && block != null ==>
                forall k | 0 <= k < entries && k < block.Length :: p[k] == old(block[k])
    {
      requests := requests + [entries];
      var granted := Grants();
      if !granted {
        return null;
      }
      p := new Value[entries];
      if block != null {
        var kept := if entries < block.Length then entries else block.Length;
        for i := 0 to kept
          modifies p
          invariant forall k | 0 <= k < i :: p[k] == block[k]
        {
          p[i] := block[i];
        }
      }
    }
  }

  /** A repeated pointer field: the block and its _count. A string or bytes item is a
      pointer to a block of its own, which holds exactly its value. */
  class PointerArray {
    var block: array?<Value>
    var size: nat

    function Entries(): nat
      reads this
    {
      if block == null then 0 else block.Length
    }

    /** The block holds at least `size` entries. */
    ghost predicate Valid()
      reads this
    {
      size <= PB_SIZE_MAX && size <= Entries()
    }

    ghost function Contents(): (s: seq<Value>)
      requires Valid()
      reads this, block
      ensures |s| == size
    {
      if block == null then [] else block[..size]
    }

    constructor ()
      ensures Valid() && Contents() == []
    {
      block, size := null, 0;
    }

    /** Stores an item behind the others, inside the block. */
    method Append(v: Value)
      requires Valid() && size < PB_SIZE_MAX && size < Entries()
      modifies this`size, block
      ensures Valid() && Contents() == old(Contents()) + [v]
    {
      ghost var before := Contents();
      block[size] := v;
      size := size + 1;
      assert Contents() == before + [v];
    }
  }

  /** allocate_field, for any sizes that a size_t can hold: it fails when a size is zero,
      when the product does not fit, or when the request is refused, and then the old block
      stays in place. */
  method Allocate(heap: Heap, arr: PointerArray, dataSize: nat, arraySize: nat)
    returns (ok: bool, ghost refused: bool)
    requires arr.Valid() && arr.size <= arraySize
    requires dataSize < Pow2(SIZE_T_BITS) && arraySize < Pow2(SIZE_T_BITS)
    modifies heap, arr`block
    ensures arr.Valid() && arr.Contents() == old(arr.Contents())
    ensures ok <==> 0 < dataSize * arraySize < Pow2(SIZE_T_BITS) && !refused
    ensures ok ==> heap.requests == old(heap.requests) + [arraySize]
    ensures ok ==> arr.block != null && fresh(arr.block) && arr.block.Length == arraySize
    ensures !ok ==> arr.block == old(arr.block)
  {
    var accepted := SizeAccepted(dataSize, arraySize, SIZE_T_BITS);
    if !accepted {
      return false, false;
    }
    var p := heap.Realloc(arr.block, arraySize);
    if p == null {
      return false, true;
    }
    ghost var before := arr.Contents();
    arr.block := p;
    assert arr.Contents() == before;
    return true, false;
  }

  /** Descriptor sizes never come near the limits of a size_t. */
  lemma SmallProduct(a: nat, b: nat)
    requires a <= PB_SIZE_MAX && b <= PB_SIZE_MAX
    ensures a < Pow2(SIZE_T_BITS) && b < Pow2(SIZE_T_BITS) && a * b < Pow2(SIZE_T_BITS)
    ensures 0 < a && 0 < b ==> 0 < a * b
    ensures 0 == a || 0 == b ==> 0 == a * b
  {
    ProductBelow(a, b, 256);
    if 0 < a {
      MulAtLeast(a, b);
    }
    Pow2Values();
  }

  // --------------------------------------------------------------------- decoding

  /** Room for one more item: the guess at what the payload still holds, unless that could
      exceed the largest count. */
  function Grown(room: nat, bytesLeft: nat, dataSize: nat): (r: nat)
    requires room < PB_SIZE_MAX && dataSize > 0 && bytesLeft > 0
    ensures room < r <= PB_SIZE_MAX
    ensures r > room + 1 ==> (r - room - 1) * dataSize < bytesLeft <= (r - room) * dataSize
    ensures r == room + 1 ==> bytesLeft <= dataSize || room + (bytesLeft - 1) / dataSize + 1 >= PB_SIZE_MAX
  {
    var remain := (bytesLeft - 1) / dataSize + 1;
    if remain < PB_SIZE_MAX - room then room + remain else room + 1
  }

  /** The requests that filling an array takes when all of them are granted. */
  ghost function Requests(f: Field, bs: bytes, size: nat, room: nat): seq<nat>
    requires f.dataSize > 0 && size <= room
    decreases |bs|
  {
    var r := DecodeScalar(f, bs);
    if bs == [] || size >= PB_SIZE_MAX || r.Fail? then []
    else if size + 1 > room then
      var grown := Grown(room, |bs|, f.dataSize);
      [grown] + Requests(f, r.rest, size + 1, grown)
    else Requests(f, r.rest, size + 1, room)
  }

  lemma {:induction false} NoMoreRequests(f: Field, bs: bytes, size: nat, room: nat)
    requires f.dataSize == 4 && f.ltype.LFixed32? && |bs| % 4 == 0 && size + |bs| / 4 <= room < PB_SIZE_MAX
    ensures Requests(f, bs, size, room) == []
    decreases |bs|
  {
    if bs != [] {
      NoMoreRequests(f, bs[4..], size + 1, room);
    }
  }

  /** The guess is right for fixed-size items: an array of fixed32 that starts full takes one
      request, for exactly the entries that arrive. */
  lemma FixedArrayGrowsOnce(f: Field, bs: bytes, size: nat)
    requires f.dataSize == 4 && f.ltype.LFixed32? && |bs| > 0 && |bs| % 4 == 0 && size + |bs| / 4 < PB_SIZE_MAX
    ensures Requests(f, bs, size, size) == [size + |bs| / 4]
  {
    NoMoreRequests(f, bs[4..], size + 1, size + |bs| / 4);
  }

  /** The static array that a pointer field decodes like: bounded by the width of its
      counter only. */
  function Pointee(f: Field): (r: Field)
    ensures DefaultValue(r) == DefaultValue(f)
  {
    f.(atype := AStatic, arraySize := PB_SIZE_MAX)
  }

  /** A pointer array takes items as long as its counter can count them. */
  lemma PointerCapacity(f: Field, ns: seq<int>, items: seq<Value>)
    requires f.ltype.Packable() && forall k | 0 <= k < |ns| :: ScalarTyped(f, ns[k]) && EncodeScalar(f, ns[k]).Some?
    ensures DecodePacked(Pointee(f), Packed.ChunkPayload(f, ns), items) ==
            if ns == [] || |items| + |ns| <= 255 then Some(items + Packed.Nums(ns)) else None
  {
    SameChunk(f, ns);
    Packed.DecodePackedChunk(Pointee(f), ns, items);
  }

  lemma {:induction false} SameChunk(f: Field, ns: seq<int>)
    ensures Packed.ChunkPayload(Pointee(f), ns) == Packed.ChunkPayload(f, ns)
  {
    if ns != [] {
      SameChunk(f, ns[1..]);
      assert EncodeScalar(Pointee(f), ns[0]) == EncodeScalar(f, ns[0]);
    }
  }

  lemma PackedEnds(f: Field, items: seq<Value>)
    ensures DecodePacked(Pointee(f), [], items) == Some(items)
  {
  }

  lemma SameScalars(f: Field, bs: bytes)
    ensures DecodeScalar(Pointee(f), bs) == DecodeScalar(f, bs)
  {
    hide DecodeVarint;
    hide DecodeVarint32;
    hide ToSigned;
    hide ToUnsigned;
  }

  lemma PackedTurn(f: Field, bs: bytes, items: seq<Value>)
    requires bs != []
    ensures var r := DecodeScalar(f, bs);
            DecodePacked(Pointee(f), bs, items) ==
            if |items| >= PB_SIZE_MAX || r.Fail? then None
            else DecodePacked(Pointee(f), r.rest, items + [Num(r.value)])
  {
    hide DecodeScalar;
    SameScalars(f, bs);
  }

  /** The packed branch of decode_pointer_field. Unless the memory manager refuses, it
      accepts exactly what a static array of PB_SIZE_MAX items would and appends the same
      items; at every moment the count is within the block, and items already there are
      never touched. */
  method DecodePackedPointer(stream: IStream, f: Field, arr: PointerArray, heap: Heap)
    returns (ok: bool, ghost refused: bool)
    requires stream.Valid() && arr.Valid() && f.ltype.Packable() && 0 < f.dataSize <= PB_SIZE_MAX
    modifies stream, heap, arr, arr.block
    ensures stream.Valid() && stream.state + stream.bytesLeft <= old(stream.state + stream.bytesLeft)
    ensures arr.Valid() && old(arr.Contents()) <= arr.Contents()
    ensures var p := TakeDelimited(old(stream.Rest()));
            var r := if p.Ok? then DecodePacked(Pointee(f), p.value, old(arr.Contents())) else None;
            && (!refused ==> (ok <==> r.Some?))
            && (ok ==> !refused && r == Some(arr.Contents()) && stream.Reached(p.rest))
  {
    hide TakeDelimited;
    hide DecodePacked;
    hide IStream.Rest;
    hide Behind;
    refused := false;
    var sub: IStream;
    ok, sub := MakeSubstream(stream);
    if !ok {
      return;
    }
    var status: bool;
    status, refused := FillPointer(sub, f, arr, heap);
    var closed := CloseSubstream(stream, sub);
    return status, refused;
  }

  lemma RequestTurn(f: Field, bs: bytes, size: nat, room: nat)
    requires f.dataSize > 0 && size <= room <= PB_SIZE_MAX
    ensures bs == [] ==> Requests(f, bs, size, room) == []
    ensures var r := DecodeScalar(f, bs);
            bs != [] && size < PB_SIZE_MAX && r.Ok? ==>
              Requests(f, bs, size, room) ==
              if size + 1 > room then
                [Grown(room, |bs|, f.dataSize)] + Requests(f, r.rest, size + 1, Grown(room, |bs|, f.dataSize))
              else Requests(f, r.rest, size + 1, room)
  {
    hide DecodeScalar;
  }

  /** The loop over the payload. */
  method FillPointer(sub: IStream, f: Field, arr: PointerArray, heap: Heap)
    returns (status: bool, ghost refused: bool)
    requires sub.Valid() && arr.Valid() && f.ltype.Packable() && 0 < f.dataSize <= PB_SIZE_MAX
    modifies sub, heap, arr, arr.block
    ensures sub.Valid() && sub.state + sub.bytesLeft <= old(sub.state + sub.bytesLeft)
    ensures status ==> sub.state + sub.bytesLeft == old(sub.state + sub.bytesLeft)
    ensures arr.Valid() && old(arr.Contents()) <= arr.Contents()
    ensures var r := DecodePacked(Pointee(f), old(sub.Rest()), old(arr.Contents()));
            && (!refused ==> (status <==> r.Some?))
            && (status ==> !refused && r == Some(arr.Contents()))
    ensures status ==>
              heap.requests == old(heap.requests) + Requests(f, old(sub.Rest()), old(arr.size), old(arr.size))
  {
    hide DecodeScalar;
    hide DecodePacked;
    hide Requests;
    hide Grown;
    hide Pow2;
    hide IStream.Rest;
    ghost var bs, items := sub.Rest(), arr.Contents();
    var allocatedSize := arr.size;
    refused := false;
    while sub.bytesLeft != 0
      invariant sub.Valid() && sub.state + sub.bytesLeft == old(sub.state + sub.bytesLeft)
      invariant arr.Valid() && old(arr.Contents()) <= arr.Contents()
      invariant arr.size <= allocatedSize <= PB_SIZE_MAX && allocatedSize <= arr.Entries()
      invariant arr.block == old(arr.block) || fresh(arr.block)
      invariant !refused
      invariant old(heap.requests) + Requests(f, bs, old(arr.size), old(arr.size))
             == heap.requests + Requests(f, sub.Rest(), arr.size, allocatedSize)
      invariant DecodePacked(Pointee(f), bs, items) == DecodePacked(Pointee(f), sub.Rest(), arr.Contents())
      decreases sub.bytesLeft
    {
      PackedTurn(f, sub.Rest(), arr.Contents());
      RequestTurn(f, sub.Rest(), arr.size, allocatedSize);
      if arr.size == PB_SIZE_MAX {
        return false, false;
      }
      if arr.size + 1 > allocatedSize {
        allocatedSize := Grown(allocatedSize, sub.bytesLeft, f.dataSize);
        SmallProduct(f.dataSize, allocatedSize);
        var granted: bool;
        granted, refused := Allocate(heap, arr, f.dataSize, allocatedSize);
        if !granted {
          return false, refused;
        }
      }
      var ok: bool, n: int;
      ok, n := ReadScalar(sub, f);
      if !ok {
        return false, false;
      }
      arr.Append(Num(n));
    }
    assert sub.Rest() == [];
    PackedEnds(f, arr.Contents());
    RequestTurn(f, [], arr.size, allocatedSize);
    return true, false;
  }

  // ------------------------------------------------------------- one item at a time

  /** What an item behind a pointer may hold: strings and bytes are allocated to measure,
      and only the width of their length bounds them. */
  function DecodePointee(f: Field, bs: bytes): (r: Parse<Value>)
    ensures r.Ok? ==> |r.rest| < |bs|
  {
    if f.ltype.LString? || f.ltype.LBytes? then
      var (payload, rest) :- TakeDelimited(bs);
      if |payload| <= (if f.ltype.LString? then TWO_32 - 2 else PB_SIZE_MAX) then Ok(Blob(payload), rest) else Fail
    else DecodeValue(Pointee(f), bs, DefaultValue(f))
  }

  /** Bytes of at most 255, strings short enough for their size and a NUL in 32 bits. */
  lemma PointeesExactly(f: Field, payload: bytes, tail: bytes)
    requires |payload| < 0x1_0000_0000 && (f.ltype.LString? || f.ltype.LBytes?)
    ensures DecodePointee(f, EncodeVarint(|payload|) + payload + tail) ==
            if |payload| <= (if f.ltype.LBytes? then 255 else 0xFFFF_FFFE) then Ok(Blob(payload), tail) else Fail
  {
    hide TakeDelimited;
    Packed.DelimitedRoundTrip(payload, tail);
  }

  /** pb_dec_bytes and pb_dec_string for a pointer: the length is checked against the
      stream before any memory is asked for. */
  method ReadPointerBlob(stream: IStream, f: Field, heap: Heap)
    returns (ok: bool, v: Value, ghost refused: bool)
    requires stream.Valid() && (f.ltype.LString? || f.ltype.LBytes?)
    modifies stream, heap
    ensures stream.Valid() && stream.state + stream.bytesLeft <= old(stream.state + stream.bytesLeft)
    ensures !refused ==> (ok <==> DecodePointee(f, old(stream.Rest())).Ok?)
    ensures ok ==> !refused && DecodePointee(f, old(stream.Rest())) == Ok(v, stream.Rest())
    ensures ok ==> stream.Reached(stream.Rest())
  {
    hide DecodeVarint32;
    hide Pow2;
    refused := false;
    v := Blob([]);
    var size: nat, eof: bool;
    ok, size, eof := ReadVarint32(stream);
    if !ok {
      return;
    }
    if f.ltype.LBytes? && size > PB_SIZE_MAX {
      return false, v, false;
    }
    var allocSize := if f.ltype.LString? then (size + 1) % TWO_32 else size + BYTES_OFFSET;
    if allocSize < size || stream.bytesLeft < size {
      return false, v, false;
    }
    ok, refused := AllocateOne(heap, allocSize);
    if !ok {
      return;
    }
    var b: bytes;
    ok, b := stream.Read(size);
    v := Blob(b);
  }

  /** allocate_field for a fresh block of one item. */
  method AllocateOne(heap: Heap, dataSize: nat) returns (ok: bool, ghost refused: bool)
    requires 0 < dataSize <= TWO_32
    modifies heap
    ensures ok <==> !refused
  {
    Pow2Values();
    var accepted := SizeAccepted(dataSize, 1, SIZE_T_BITS);
    if !accepted {
      return false, false;
    }
    ok := heap.Grants();
    refused := !ok;
  }

  /** The decoder that is called for an item of a repeated pointer field. */
  method ReadPointee(stream: IStream, f: Field, heap: Heap)
    returns (ok: bool, v: Value, ghost refused: bool)
    requires stream.Valid() && WellFormedField(Pointee(f)) && f.htype.HRepeated?
    modifies stream, heap
    ensures stream.Valid() && stream.state + stream.bytesLeft <= old(stream.state + stream.bytesLeft)
    ensures !refused ==> (ok <==> DecodePointee(f, old(stream.Rest())).Ok?)
    ensures ok ==> !refused && v == DecodePointee(f, old(stream.Rest())).value
    ensures ok ==> stream.Reached(DecodePointee(f, old(stream.Rest())).rest)
  {
    hide DecodeValue;
    hide TakeDelimited;
    hide WellFormedField;
    refused := false;
    if f.ltype.LString? || f.ltype.LBytes? {
      ok, v, refused := ReadPointerBlob(stream, f, heap);
    } else {
      var initial := FieldDefault(f);
      ok, v := ReadValue(stream, Pointee(f), initial);
    }
  }

  /** The branch of decode_pointer_field for one item of any type: the count goes up before
      the item is decoded, and a failed item is still inside the block. */
  method DecodeOnePointer(stream: IStream, f: Field, arr: PointerArray, heap: Heap)
    returns (ok: bool, ghost refused: bool)
    requires stream.Valid() && arr.Valid() && WellFormedField(Pointee(f)) && f.htype.HRepeated?
    modifies stream, heap, arr
    ensures stream.Valid() && stream.state + stream.bytesLeft <= old(stream.state + stream.bytesLeft)
    ensures arr.Valid() && old(arr.Contents()) <= arr.Contents() && arr.size <= old(arr.size) + 1
    ensures var r := DecodePointee(f, old(stream.Rest()));
            && (!refused ==> (ok <==> old(arr.size) < PB_SIZE_MAX && f.dataSize > 0 && r.Ok?))
            && (ok ==> !refused && arr.Contents() == old(arr.Contents()) + [r.value] && stream.Reached(r.rest))
  {
    hide DecodePointee;
    hide Pow2;
    hide IStream.Rest;
    if arr.size == PB_SIZE_MAX {
      return false, false;
    }
    assert f.dataSize <= PB_SIZE_MAX;
    SmallProduct(f.dataSize, arr.size + 1);
    hide WellFormedField;
    ok, refused := Allocate(heap, arr, f.dataSize, arr.size + 1);
    if !ok {
      return;
    }
    ghost var before := arr.Contents();
    var at := arr.size;
    arr.size := arr.size + 1;
    assert arr.Contents()[..at] == before;
    var v: Value;
    ok, v, refused := ReadPointee(stream, f, heap);
    if ok {
      arr.block[at] := v;
      assert arr.Contents() == before + [v];
    }
  }
}
