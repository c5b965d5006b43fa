/** pb_encode and its field encoders, writing to a stream. Each method is proved to write
    what the functions of module Encoding say, no more and no less. Sizes are 64 bits wide:
    no nested message may reach 2^64 bytes, so that size_t never wraps. */
module Encoder {
  import opened Wire
  import opened Bits
  import opened Varint
  import opened Descriptor
  import opened FieldIterator
  import opened Scalars
  import opened Message
  import opened Encoding
  import opened Output
  import opened Framing
  import Packed

  // -------------------------------------------------------------------- scalars

  /** pb_encode_fixed32 */
  method WriteFixed32(stream: OStream, val: nat) returns (ok: bool)
    requires stream.Valid() && val < TWO_32
    modifies stream, stream.buf
    ensures stream.Wrote(Some(LittleEndian(val, 4)), ok)
  {
    var b: bytes := [val % 256, val / 0x100 % 256, val / 0x1_0000 % 256, val / 0x100_0000 % 256];
    FourBytes(val);
    ok := stream.Write(b);
  }

  /** pb_encode_fixed64 */
  method WriteFixed64(stream: OStream, val: nat) returns (ok: bool)
    requires stream.Valid() && val < TWO_64
    modifies stream, stream.buf
    ensures stream.Wrote(Some(LittleEndian(val, 8)), ok)
  {
    var high := val / TWO_32;
    var b: bytes :=
      [val % 256, val / 0x100 % 256, val / 0x1_0000 % 256, val / 0x100_0000 % 256,
       high % 256, high / 0x100 % 256, high / 0x1_0000 % 256, high / 0x100_0000 % 256];
    FourBytes(val);
    FourBytes(high);
    EightBytes(val);
    assert b == LittleEndian(val, 4) + LittleEndian(high, 4);
    ok := stream.Write(b);
  }

  /** pb_encode_svarint */
  method WriteSVarint(stream: OStream, value: int) returns (ok: bool)
    requires stream.Valid() && FitsSigned(value, 8)
    modifies stream, stream.buf
    ensures stream.Wrote(Some(EncodeVarint(ZigZag(value))), ok)
  {
    var zigzagged: nat;
    if value < 0 {
      zigzagged := TWO_64 - 1 - (2 * ToUnsigned(value, 8)) % TWO_64;
    } else {
      zigzagged := (2 * value) % TWO_64;
    }
    ok := WriteVarint(stream, zigzagged);
  }

  /** pb_enc_bool, pb_enc_varint, pb_enc_uvarint, pb_enc_svarint, pb_enc_fixed32 and
      pb_enc_fixed64 */
  method WriteScalar(stream: OStream, f: Field, n: int) returns (ok: bool)
    requires stream.Valid() && ScalarTyped(f, n)
    modifies stream, stream.buf
    ensures stream.Wrote(EncodeScalar(f, n), ok)
  {
    match f.ltype {
      case LBool =>
        ok := WriteVarint(stream, if n != 0 then 1 else 0);
      case LVarint | LUVarint =>
        if !IntSize(f.dataSize) {
          return false;
        }
        ok := WriteVarint(stream, ToUnsigned(n, 8));
      case LSVarint =>
        if !IntSize(f.dataSize) {
          return false;
        }
        ok := WriteSVarint(stream, n);
      case LFixed32 =>
        CastsAreInverse(n, 4);
        ok := WriteFixed32(stream, n);
      case LFixed64 =>
        CastsAreInverse(n, 8);
        ok := WriteFixed64(stream, n);
      case LBytes | LString | LSubmessage | LExtension | LFixedLengthBytes =>
        ok := false;
    }
  }

  /** pb_enc_string's scan for the terminator. */
  method StringLength(src: bytes, maxSize: nat) returns (size: nat)
    ensures size <= |src| && src[..size] == if |UpToNul(src)| > maxSize then UpToNul(src)[..maxSize] else UpToNul(src)
  {
    size := 0;
    while size < maxSize && size < |src| && src[size] != 0
      invariant size <= |src| && size <= maxSize
      invariant UpToNul(src) == src[..size] + UpToNul(src[size..])
    {
      assert src[size..][1..] == src[size + 1..];
      size := size + 1;
    }
  }

  // -------------------------------------------------------------------- values

  /** The encoder that PB_ENCODERS selects for the type. */
  method WriteValue(stream: OStream, f: Field, v: Value) returns (ok: bool)
    requires stream.Valid() && WellFormedField(f) && ValueTyped(f, v) && ValueNestedBelow(f, v, TWO_64)
    modifies stream, stream.buf
    ensures stream.Wrote(EncodeValue(f, v), ok)
    decreases f, 0
  {
    if f.ltype.Packable() {
      ok := WriteScalar(stream, f, v.n);
    } else if f.ltype.LSubmessage? {
      ok := WriteSubmessage(stream, f.ptr.fields, v.slots);
    } else if f.ltype.LBytes? {
      if |v.bs| + BYTES_OFFSET > f.dataSize {
        return false;
      }
      ok := WriteString(stream, v.bs);
    } else if f.ltype.LString? {
      var size := StringLength(v.bs, f.dataSize);
      ok := WriteString(stream, v.bs[..size]);
    } else {
      ok := WriteString(stream, v.bs);
    }
  }

  /** pb_encode_submessage: the message is encoded twice, first to learn its length and
      then into a substream of exactly that length. */
  method WriteSubmessage(stream: OStream, t: Table, m: seq<Slot>) returns (ok: bool)
    requires stream.Valid() && WellFormed(t) && Typed(t, m) && NestedBelow(t, m, TWO_64)
    requires EncodeMessage(t, m).Some? ==> |EncodeMessage(t, m).value| < TWO_64
    modifies stream, stream.buf
    ensures var e := EncodeMessage(t, m);
            stream.Wrote(if e.Some? then Some(Delimited(e.value)) else None, ok)
    decreases t, |t| + 2
  {
    hide Step;
    ghost var e, s0 := EncodeMessage(t, m), stream.Now();
    var sizes := new OStream.Sizing();
    ok := Encode(sizes, t, m);
    assert stream.Now() == s0;
    CountedSize(sizes.Now(), e, ok);
    if !ok {
      NoStep(s0);
      return;
    }
    var size := sizes.bytesWritten;
    ok := WriteVarint(stream, size);
    ghost var s1, e1 := stream.Now(), Some(EncodeVarint(size));
    if !ok {
      FirstFails(s0, s1, e1, e);
      return;
    }
    if stream.sizing {
      ok := stream.Count(size, e.value);
    } else {
      ok := WriteBody(stream, t, m, size);
    }
    StepsCompose(s0, s1, stream.Now(), e1, e, ok);
  }

  /** What a fresh sizing stream has counted. */
  lemma CountedSize(s: Snapshot, e: Option<bytes>, ok: bool)
    requires s.sizing && exists s0: Snapshot :: s0.out == [] && s0.sizing && Step(s0, s, e, ok)
    ensures ok <==> e.Some?
    ensures ok ==> s.written == |e.value|
  {
  }

  /** The second half of pb_encode_submessage: the check for room, then a substream of
      exactly the counted size. It ends up full, so "submsg size changed" never happens. */
  method WriteBody(stream: OStream, t: Table, m: seq<Slot>, size: nat) returns (ok: bool)
    requires stream.Valid() && !stream.sizing && WellFormed(t) && Typed(t, m) && NestedBelow(t, m, TWO_64)
    requires EncodeMessage(t, m).Some? && |EncodeMessage(t, m).value| == size
    modifies stream, stream.buf
    ensures stream.Wrote(EncodeMessage(t, m), ok)
    decreases t, |t| + 1, 1
  {
    ghost var s0 := stream.Now();
    if stream.bytesWritten + size > stream.maxSize {
      NoStep(s0);
      return false;
    }
    var sub := new OStream.FromBuffer(stream.buf, stream.state, size);
    ghost var sub0 := sub.Now();
    var status := Encode(sub, t, m);
    assert status;
    SubstreamStep(s0, sub0, sub.Now(), EncodeMessage(t, m).value, size);
    stream.bytesWritten := stream.bytesWritten + sub.bytesWritten;
    stream.state := sub.state;
    stream.out := stream.out + sub.out;
    assert stream.Now() ==
           Snapshot(s0.out + sub.out, sub.state, s0.written + sub.bytesWritten, s0.max, false, sub.buf[..]);
    if sub.bytesWritten != size {
      return false;
    }
    return status;
  }

  // -------------------------------------------------------------------- fields

  /** pb_encode_tag_for_field followed by the value. */
  method WriteTagged(stream: OStream, f: Field, v: Value) returns (ok: bool)
    requires stream.Valid() && WellFormedField(f) && ValueTyped(f, v) && ValueNestedBelow(f, v, TWO_64)
    modifies stream, stream.buf
    ensures stream.Wrote(EncodeTagged(f, v), ok)
    decreases f, 1
  {
    hide Step;
    ghost var s0 := stream.Now();
    ok := WriteTag(stream, WireType(f.ltype), f.tag);
    ghost var s1, e1 := stream.Now(), Some(EncodeTag(f.tag, WireType(f.ltype)));
    if !ok {
      FirstFails(s0, s1, e1, EncodeValue(f, v));
      return;
    }
    ok := WriteValue(stream, f, v);
    StepsCompose(s0, s1, stream.Now(), e1, EncodeValue(f, v), ok);
  }

  /** Adds up or writes the packed items; func(stream, field, p) for each of them. */
  method WriteItems(stream: OStream, f: Field, items: seq<Value>) returns (ok: bool)
    requires stream.Valid() && f.ltype.Packable()
    requires forall k | 0 <= k < |items| :: ValueTyped(f, items[k])
    modifies stream, stream.buf
    ensures stream.Wrote(PackedPayload(f, items, |items|), ok)
  {
    hide Step;
    hide ScalarTyped;
    ghost var s0 := stream.Now();
    NoStep(s0);
    for i := 0 to |items|
      invariant stream.Valid()
      invariant Step(s0, stream.Now(), PackedPayload(f, items, i), true)
    {
      assert ValueTyped(f, items[i]);
      ghost var s1, e2 := stream.Now(), EncodeScalar(f, items[i].n);
      ok := WriteScalar(stream, f, items[i].n);
      StepsCompose(s0, s1, stream.Now(), PackedPayload(f, items, i), e2, ok);
      if !ok {
        PayloadGrows(f, items, i + 1, |items|);
        StepFails(s0, stream.Now(), PackedPayload(f, items, i + 1), PackedPayload(f, items, |items|));
        return false;
      }
    }
    return true;
  }

  /** A payload is defined and long at least where its prefixes are. */
  lemma {:induction false} PayloadGrows(f: Field, items: seq<Value>, i: nat, n: nat)
    requires i <= n <= |items|
    ensures PackedPayload(f, items, n).Some? ==>
              && PackedPayload(f, items, i).Some?
              && |PackedPayload(f, items, i).value| <= |PackedPayload(f, items, n).value|
    decreases n
  {
    if i < n {
      PayloadGrows(f, items, i, n - 1);
    }
  }

  /** The size of a packed array: 4 or 8 bytes an item for the fixed types, whose payload
      is always defined, and otherwise what a sizing stream counts. */
  method PackedSize(f: Field, items: seq<Value>) returns (ok: bool, size: nat)
    requires f.ltype.Packable()
    requires forall k | 0 <= k < |items| :: ValueTyped(f, items[k])
    ensures ok <==> PackedPayload(f, items, |items|).Some?
    ensures ok ==> size == |PackedPayload(f, items, |items|).value|
  {
    if f.ltype.LFixed32? || f.ltype.LFixed64? {
      FixedPayloadDefined(f, items, |items|);
      Packed.PayloadBound(f, items, |items|);
      size := if f.ltype.LFixed32? then 4 * |items| else 8 * |items|;
      return true, size;
    }
    var sizeStream := new OStream.Sizing();
    ok := WriteItems(sizeStream, f, items);
    CountedSize(sizeStream.Now(), PackedPayload(f, items, |items|), ok);
    size := sizeStream.bytesWritten;
  }

  lemma {:induction false} FixedPayloadDefined(f: Field, items: seq<Value>, n: nat)
    requires n <= |items| && (f.ltype.LFixed32? || f.ltype.LFixed64?)
    requires forall k | 0 <= k < |items| :: ValueTyped(f, items[k])
    ensures PackedPayload(f, items, n).Some?
  {
    if n > 0 {
      FixedPayloadDefined(f, items, n - 1);
      assert ValueTyped(f, items[n - 1]);
    }
  }

  /** encode_array for a packable type: length first, then the items. */
  method WritePacked(stream: OStream, f: Field, items: seq<Value>) returns (ok: bool)
    requires stream.Valid() && f.ltype.Packable() && WellFormedField(f) && |items| <= f.arraySize
    requires forall k | 0 <= k < |items| :: ValueTyped(f, items[k])
    modifies stream, stream.buf
    ensures var p := PackedPayload(f, items, |items|);
            stream.Wrote(if p.Some? then Some(EncodeTag(f.tag, WT_STRING) + Delimited(p.value)) else None, ok)
  {
    hide Step;
    ghost var s0 := stream.Now();
    ok := WriteTag(stream, WT_STRING, f.tag);
    ghost var p := PackedPayload(f, items, |items|);
    ghost var s1, e1 := stream.Now(), Some(EncodeTag(f.tag, WT_STRING));
    ghost var e2 := if p.Some? then Some(Delimited(p.value)) else None;
    if !ok {
      FirstFails(s0, s1, e1, e2);
      return;
    }
    ok := WritePayload(stream, f, items);
    StepsCompose(s0, s1, stream.Now(), e1, e2, ok);
  }

  method WritePayload(stream: OStream, f: Field, items: seq<Value>) returns (ok: bool)
    requires stream.Valid() && f.ltype.Packable() && |items| <= PB_SIZE_MAX
    requires forall k | 0 <= k < |items| :: ValueTyped(f, items[k])
    modifies stream, stream.buf
    ensures var p := PackedPayload(f, items, |items|);
            stream.Wrote(if p.Some? then Some(Delimited(p.value)) else None, ok)
  {
    hide Step;
    ghost var s0, p := stream.Now(), PackedPayload(f, items, |items|);
    var size: nat;
    ok, size := PackedSize(f, items);
    assert stream.Now() == s0;
    if !ok {
      NoStep(s0);
      return;
    }
    Packed.PayloadBound(f, items, |items|);
    ok := WriteVarint(stream, size);
    ghost var s1, e1 := stream.Now(), Some(EncodeVarint(size));
    if !ok {
      FirstFails(s0, s1, e1, p);
      return;
    }
    if stream.sizing {
      ok := stream.Count(size, p.value);
    } else {
      ok := WriteItems(stream, f, items);
    }
    StepsCompose(s0, s1, stream.Now(), e1, p, ok);
  }

  /** encode_array */
  method WriteArray(stream: OStream, f: Field, items: seq<Value>) returns (ok: bool)
    requires stream.Valid() && WellFormedField(f)
    requires forall k | 0 <= k < |items| :: ValueTyped(f, items[k]) && ValueNestedBelow(f, items[k], TWO_64)
    modifies stream, stream.buf
    ensures stream.Wrote(EncodeItems(f, items), ok)
    decreases f, 3
  {
    hide Step;
    ghost var s0 := stream.Now();
    NoStep(s0);
    if |items| == 0 {
      return true;
    }
    if |items| > f.arraySize {
      return false;
    }
    if f.ltype.Packable() {
      ok := WritePacked(stream, f, items);
    } else {
      ok := WriteTaggedItems(stream, f, items);
    }
  }

  /** The unpacked branch of encode_array. */
  method WriteTaggedItems(stream: OStream, f: Field, items: seq<Value>) returns (ok: bool)
    requires stream.Valid() && WellFormedField(f)
    requires forall k | 0 <= k < |items| :: ValueTyped(f, items[k]) && ValueNestedBelow(f, items[k], TWO_64)
    modifies stream, stream.buf
    ensures stream.Wrote(TaggedItems(f, items, |items|), ok)
    decreases f, 2
  {
    hide Step;
    ghost var s0 := stream.Now();
    NoStep(s0);
    for i := 0 to |items|
      invariant stream.Valid()
      invariant Step(s0, stream.Now(), TaggedItems(f, items, i), true)
    {
      ghost var s1, e2 := stream.Now(), EncodeTagged(f, items[i]);
      ok := WriteTagged(stream, f, items[i]);
      StepsCompose(s0, s1, stream.Now(), TaggedItems(f, items, i), e2, ok);
      if !ok {
        TaggedItemsGrow(f, items, i + 1, |items|);
        StepFails(s0, stream.Now(), TaggedItems(f, items, i + 1), TaggedItems(f, items, |items|));
        return false;
      }
    }
    return true;
  }

  lemma {:induction false} TaggedItemsGrow(f: Field, items: seq<Value>, i: nat, n: nat)
    requires i <= n <= |items|
    ensures TaggedItems(f, items, n).Some? ==>
              TaggedItems(f, items, i).Some? && |TaggedItems(f, items, i).value| <= |TaggedItems(f, items, n).value|
    decreases n
  {
    if i < n {
      TaggedItemsGrow(f, items, i, n - 1);
    }
  }

  // ------------------------------------------------------- proto3 default check

  /** pb_check_proto3_default_value */
  method CheckDefault(f: Field, s: Slot) returns (isDefault: bool)
    requires WellFormedField(f) && SlotTyped(f, s)
    ensures isDefault == IsDefaultSlot(f, s)
    decreases f, 1
  {
    match f.htype {
      case HRequired =>
        return false;
      case HRepeated =>
        return f.sizeOffset != 0 && |s.items| == 0;
      case HOneof =>
        return s.which == 0;
      case HOptional =>
        if f.sizeOffset != 0 {
          return !s.has;
        }
        isDefault := CheckZero(f, s.v);
    }
  }

  /** The part of the check for proto3 singular fields. */
  method CheckZero(f: Field, v: Value) returns (isZero: bool)
    requires WellFormedField(f) && ValueTyped(f, v)
    ensures isZero == IsZero(f, v)
    decreases f, 0
  {
    if f.ltype.LBytes? {
      return |v.bs| == 0;
    } else if f.ltype.LString? {
      return v.bs == [] || v.bs[0] == 0;
    } else if f.ltype.LFixedLengthBytes? {
      return f.dataSize == 0;
    } else if f.ltype.LSubmessage? {
      isZero := CheckAllDefault(f.ptr.fields, v.slots);
    } else {
      return v.n == 0;
    }
  }

  /** The iterator loop over a submessage. */
  method CheckAllDefault(t: Table, m: seq<Slot>) returns (allDefault: bool)
    requires WellFormed(t) && Typed(t, m)
    ensures allDefault == IsDefaultMessage(t, m)
    decreases t, 1
  {
    hide DataAt;
    hide SizeAt;
    hide RequiredIndex;
    hide IsDefaultSlot;
    hide SlotCount;
    hide WellFormed;
    hide Typed;
    var iter := new FieldIter(t, 0);
    TypedShape(t, m);
    var more := t != [];
    while more
      invariant iter.Valid() && iter.start == t && fresh(iter)
      invariant more ==> iter.pos < |t|
      invariant forall i {:trigger SlotAt(t, m, i)} | 0 <= i < (if more then iter.pos else |t|) ::
                  IsDefaultSlot(t[i], SlotAt(t, m, i))
      decreases if more then |t| - iter.pos else 0
    {
      var isDefault := CheckEntry(t, m, iter.pos, iter.slot);
      if !isDefault {
        return false;
      }
      more := iter.Next();
    }
    return true;
  }

  /** One turn of that loop. */
  method CheckEntry(t: Table, m: seq<Slot>, pos: nat, slot: nat) returns (isDefault: bool)
    requires WellFormed(t) && Typed(t, m) && pos < |t| && slot == SlotOf(t, pos)
    ensures |m| == SlotCount(t, |t|) && isDefault == IsDefaultSlot(t[pos], SlotAt(t, m, pos))
    decreases t, 0
  {
    hide IsDefaultSlot;
    hide SlotTyped;
    assert SlotTyped(t[pos], SlotAt(t, m, pos)) && WellFormedField(t[pos]);
    isDefault := CheckDefault(t[pos], m[slot]);
  }

  lemma TypedShape(t: Table, m: seq<Slot>)
    requires Typed(t, m)
    ensures |m| == SlotCount(t, |t|)
  {
  }

  // --------------------------------------------------------------------- fields

  /** encode_basic_field */
  method WriteField(stream: OStream, f: Field, s: Slot) returns (ok: bool)
    requires stream.Valid() && WellFormedField(f) && SlotTyped(f, s) && SlotNestedBelow(f, s, TWO_64)
    modifies stream, stream.buf
    ensures stream.Wrote(EncodeSlot(f, s), ok)
    decreases f, 4
  {
    hide Step;
    NoStep(stream.Now());
    match f.htype {
      case HRequired =>
        ok := WriteTagged(stream, f, s.v);
      case HOptional =>
        var has: bool;
        if f.sizeOffset != 0 {
          has := s.has;
        } else {
          var isDefault := CheckDefault(f, s);
          has := !isDefault;
        }
        ok := true;
        if has {
          ok := WriteTagged(stream, f, s.v);
        }
      case HRepeated =>
        if f.sizeOffset == 0 && |s.items| != f.arraySize {
          return false;
        }
        ok := WriteArray(stream, f, s.items);
      case HOneof =>
        ok := true;
        if s.which == f.tag {
          ok := WriteTagged(stream, f, s.v);
        }
    }
  }

  // ------------------------------------------------------------------- messages

  /** pb_encode */
  method Encode(stream: OStream, t: Table, m: seq<Slot>) returns (ok: bool)
    requires stream.Valid() && WellFormed(t) && Typed(t, m) && NestedBelow(t, m, TWO_64)
    modifies stream, stream.buf
    ensures stream.Wrote(EncodeMessage(t, m), ok)
    decreases t, |t| + 1, 0
  {
    hide Step;
    hide Typed;
    hide WellFormed;
    hide NestedBelow;
    hide EncodeSlot;
    hide DataAt;
    hide SizeAt;
    hide RequiredIndex;
    ghost var s0 := stream.Now();
    NoStep(s0);
    var iter := new FieldIter(t, 0);
    assert stream.Now() == s0;
    if t == [] {
      return true;
    }
    EntryReady(t, m, 0);
    var more := true;
    while more
      invariant iter.Valid() && iter.start == t && fresh(iter) && stream.Valid()
      invariant more ==> iter.pos < |t|
      invariant Step(s0, stream.Now(), EncodeUpTo(t, m, if more then iter.pos else |t|), true)
      decreases if more then |t| - iter.pos else 0
    {
      ok := EncodeEntry(stream, t, m, iter.pos, iter.slot, s0);
      if !ok {
        return false;
      }
      ghost var s2 := stream.Now();
      more := iter.Next();
      assert stream.Now() == s2;
    }
    return true;
  }

  /** One turn of the loop: the entry under the cursor, after the n before it. */
  method EncodeEntry(stream: OStream, t: Table, m: seq<Slot>, n: nat, slot: nat, ghost s0: Snapshot) returns (ok: bool)
    requires stream.Valid() && WellFormed(t) && Typed(t, m) && NestedBelow(t, m, TWO_64)
    requires n < |t| && slot == SlotOf(t, n)
    requires s0.Consistent() && Step(s0, stream.Now(), EncodeUpTo(t, m, n), true)
    modifies stream, stream.buf
    ensures stream.Valid()
    ensures ok ==> Step(s0, stream.Now(), EncodeUpTo(t, m, n + 1), true)
    ensures !ok ==> Step(s0, stream.Now(), EncodeMessage(t, m), false)
    decreases t, n, 10
  {
    hide Step;
    hide Typed;
    hide WellFormed;
    hide NestedBelow;
    hide EncodeSlot;
    EntryReady(t, m, n);
    ghost var s1, e2 := stream.Now(), EncodeSlot(t[n], SlotAt(t, m, n));
    ok := WriteField(stream, t[n], m[slot]);
    StepsCompose(s0, s1, stream.Now(), EncodeUpTo(t, m, n), e2, ok);
    if !ok {
      PrefixGrows(t, m, n + 1, |t|);
      StepFails(s0, stream.Now(), EncodeUpTo(t, m, n + 1), EncodeMessage(t, m));
    }
  }

  lemma EntryReady(t: Table, m: seq<Slot>, n: nat)
    requires n < |t| && WellFormed(t) && Typed(t, m) && NestedBelow(t, m, TWO_64)
    ensures |m| == SlotCount(t, |t|)
    ensures WellFormedField(t[n]) && SlotTyped(t[n], SlotAt(t, m, n)) && SlotNestedBelow(t[n], SlotAt(t, m, n), TWO_64)
  {
  }

  lemma {:induction false} PrefixGrows(t: Table, m: seq<Slot>, i: nat, n: nat)
    requires i <= n <= |t| && |m| == SlotCount(t, |t|)
    ensures EncodeUpTo(t, m, n).Some? ==>
              EncodeUpTo(t, m, i).Some? && |EncodeUpTo(t, m, i).value| <= |EncodeUpTo(t, m, n).value|
    decreases n
  {
    if i < n {
      PrefixGrows(t, m, i, n - 1);
    }
  }

  // ------------------------------------------------------------- entry points

  /** pb_get_encoded_size: exactly the length of what pb_encode writes. */
  method GetEncodedSize(t: Table, m: seq<Slot>) returns (ok: bool, size: nat)
    requires WellFormed(t) && Typed(t, m) && NestedBelow(t, m, TWO_64)
    ensures ok <==> EncodeMessage(t, m).Some?
    ensures ok ==> size == |EncodeMessage(t, m).value|
  {
    var stream := new OStream.Sizing();
    ok := Encode(stream, t, m);
    CountedSize(stream.Now(), EncodeMessage(t, m), ok);
    size := stream.bytesWritten;
  }

  /** pb_encode on pb_ostream_from_buffer(buf, n): it succeeds exactly when the encoded size
      is defined and at most n, and bytes from n upwards are never written. */
  method EncodeIntoBuffer(buf: array<byte>, n: nat, t: Table, m: seq<Slot>) returns (ok: bool, written: nat)
    requires n <= buf.Length && WellFormed(t) && Typed(t, m) && NestedBelow(t, m, TWO_64)
    modifies buf
    ensures ok <==> EncodeMessage(t, m).Some? && |EncodeMessage(t, m).value| <= n
    ensures ok ==> written == |EncodeMessage(t, m).value| && buf[..written] == EncodeMessage(t, m).value
    ensures written <= n && buf[n..] == old(buf[n..])
  {
    var stream := new OStream.FromBuffer(buf, 0, n);
    ghost var s0 := stream.Now();
    ok := Encode(stream, t, m);
    written := stream.bytesWritten;
    BufferWritten(s0, stream.Now(), EncodeMessage(t, m), ok);
  }

  lemma BufferWritten(a: Snapshot, b: Snapshot, e: Option<bytes>, ok: bool)
    requires a.Consistent() && Step(a, b, e, ok) && !a.sizing && a.out == [] && a.state == 0 && a.written == 0
    ensures ok ==> b.written == |e.value| && b.mem[..b.written] == e.value
    ensures b.written <= a.max <= |a.mem| && b.mem[a.max..] == a.mem[a.max..]
  {
    if ok {
      assert [] + e.value == e.value;
    }
  }

  /** pb_encode_nullterminated */
  method WriteNullTerminated(stream: OStream, t: Table, m: seq<Slot>) returns (ok: bool)
    requires stream.Valid() && WellFormed(t) && Typed(t, m) && NestedBelow(t, m, TWO_64)
    modifies stream, stream.buf
    ensures stream.Wrote(EncodeNullTerminated(t, m), ok)
  {
    hide Step;
    ghost var s0, e := stream.Now(), EncodeMessage(t, m);
    ok := Encode(stream, t, m);
    ghost var s1 := stream.Now();
    if !ok {
      FirstFails(s0, s1, e, Some([0]));
      return;
    }
    ok := stream.Write([0]);
    StepsCompose(s0, s1, stream.Now(), e, Some([0]), ok);
  }

  /** pb_encode_delimited */
  method WriteDelimited(stream: OStream, t: Table, m: seq<Slot>) returns (ok: bool)
    requires stream.Valid() && WellFormed(t) && Typed(t, m) && NestedBelow(t, m, TWO_64)
    requires EncodeMessage(t, m).Some? ==> |EncodeMessage(t, m).value| < TWO_64
    modifies stream, stream.buf
    ensures stream.Wrote(EncodeDelimited(t, m), ok)
  {
    ok := WriteSubmessage(stream, t, m);
  }
}
