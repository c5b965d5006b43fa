/** pb_decode and its field decoders, reading from a stream. Each method is proved to
    compute what the functions of module Decoding say. */
module Decoder {
  import opened Wire
  import opened Bits
  import opened Varint
  import opened Descriptor
  import opened FieldIterator
  import opened Scalars
  import opened Message
  import opened Encoding
  import opened Decoding
  import opened RequiredBits
  import opened Safety
  import opened InitialValues
  import Framing
  import opened RoundTrip
  import opened Input

  /** The destination struct. */
  class MessageStruct {
    var slots: seq<Slot>

    constructor (contents: seq<Slot>)
      ensures slots == contents
    {
      slots := contents;
    }
  }

  // -------------------------------------------------------------------- scalars

  /** pb_decode_fixed32 */
  method ReadFixed32(stream: IStream) returns (ok: bool, dest: nat)
    requires stream.Valid()
    modifies stream
    ensures stream.Valid() && stream.state + stream.bytesLeft <= old(stream.state + stream.bytesLeft)
    ensures ok <==> Take(old(stream.Rest()), 4).Ok?
    ensures ok ==> dest == FromLittleEndian(Take(old(stream.Rest()), 4).value)
    ensures ok ==> stream.Reached(Take(old(stream.Rest()), 4).rest)
  {
    var b: bytes;
    dest := 0;
    ok, b := stream.Read(4);
    if !ok {
      return;
    }
    FourBytesValue(b);
    dest := Word(b[0], b[1], b[2], b[3]);
  }

  /** pb_decode_fixed64 */
  method ReadFixed64(stream: IStream) returns (ok: bool, dest: nat)
    requires stream.Valid()
    modifies stream
    ensures stream.Valid() && stream.state + stream.bytesLeft <= old(stream.state + stream.bytesLeft)
    ensures ok <==> Take(old(stream.Rest()), 8).Ok?
    ensures ok ==> dest == FromLittleEndian(Take(old(stream.Rest()), 8).value)
    ensures ok ==> stream.Reached(Take(old(stream.Rest()), 8).rest)
  {
    var b: bytes;
    dest := 0;
    ok, b := stream.Read(8);
    if !ok {
      return;
    }
    var low := Word(b[0], b[1], b[2], b[3]);
    var high := Word(b[4], b[5], b[6], b[7]);
    EightBytesValue(b);
    dest := low + high * TWO_32;
  }

  /** pb_decode_svarint */
  method ReadSVarint(stream: IStream) returns (ok: bool, dest: int)
    requires stream.Valid()
    modifies stream
    ensures stream.Valid() && stream.state + stream.bytesLeft <= old(stream.state + stream.bytesLeft)
    ensures ok <==> DecodeVarint(old(stream.Rest())).Ok?
    ensures ok ==> dest == UnZigZag(DecodeVarint(old(stream.Rest())).value)
    ensures ok ==> stream.Reached(DecodeVarint(old(stream.Rest())).rest)
  {
    var value: nat;
    dest := 0;
    ok, value := ReadVarint(stream);
    if !ok {
      return;
    }
    if value % 2 == 1 {
      dest := ToSigned(TWO_64 - 1 - value / 2, 8);
    } else {
      dest := value / 2;
    }
  }

  /** pb_dec_bool, pb_dec_varint, pb_dec_uvarint, pb_dec_svarint, pb_dec_fixed32 and
      pb_dec_fixed64: the cast to the member's size must not change the value. */
  method ReadScalar(stream: IStream, f: Field) returns (ok: bool, n: int)
    requires stream.Valid()
    modifies stream
    ensures stream.Valid() && stream.state + stream.bytesLeft <= old(stream.state + stream.bytesLeft)
    ensures ok <==> DecodeScalar(f, old(stream.Rest())).Ok?
    ensures ok ==> n == DecodeScalar(f, old(stream.Rest())).value
    ensures ok ==> stream.Reached(DecodeScalar(f, old(stream.Rest())).rest)
  {
    hide DecodeVarint32;
    hide DecodeVarint;
    n := 0;
    match f.ltype {
      case LBool =>
        var v: nat, eof: bool;
        ok, v, eof := ReadVarint32(stream);
        n := if v != 0 then 1 else 0;
      case LVarint =>
        var v: nat;
        ok, v := ReadVarint(stream);
        if ok {
          var svalue := if f.dataSize == 8 then ToSigned(v, 8) else ToSigned(v, 4);
          var clamped := ToSigned(svalue, f.dataSize);
          n := svalue;
          ok := IntSize(f.dataSize) && clamped == svalue;
        }
      case LUVarint =>
        var v: nat;
        ok, v := ReadVarint(stream);
        if ok {
          var clamped := ToUnsigned(v, f.dataSize);
          n := v;
          ok := IntSize(f.dataSize) && clamped == v;
        }
      case LSVarint =>
        var v: int;
        ok, v := ReadSVarint(stream);
        if ok {
          var clamped := ToSigned(v, f.dataSize);
          n := v;
          ok := IntSize(f.dataSize) && clamped == v;
        }
      case LFixed32 =>
        ok, n := ReadFixed32(stream);
      case LFixed64 =>
        ok, n := ReadFixed64(stream);
      case LBytes | LString | LSubmessage | LExtension | LFixedLengthBytes =>
        ok := false;
    }
  }

  // --------------------------------------------------------- strings and bytes

  /** pb_dec_bytes, pb_dec_string and pb_dec_fixed_length_bytes */
  method ReadBlob(stream: IStream, f: Field) returns (ok: bool, v: Value)
    requires stream.Valid()
    requires f.ltype.LBytes? || f.ltype.LString? || f.ltype.LFixedLengthBytes?
    requires f.dataSize <= PB_SIZE_MAX
    modifies stream
    ensures stream.Valid() && stream.state + stream.bytesLeft <= old(stream.state + stream.bytesLeft)
    ensures ok <==> DecodeValue(f, old(stream.Rest()), Num(0)).Ok?
    ensures ok ==> v == DecodeValue(f, old(stream.Rest()), Num(0)).value
    ensures ok ==> stream.Reached(DecodeValue(f, old(stream.Rest()), Num(0)).rest)
  {
    hide DecodeVarint32;
    var size: nat, eof: bool;
    var b: bytes;
    v := Blob([]);
    ok, size, eof := ReadVarint32(stream);
    if !ok {
      return;
    }
    if f.ltype.LBytes? {
      if size > PB_SIZE_MAX || size + BYTES_OFFSET > f.dataSize {
        return false, v;
      }
    } else if f.ltype.LString? {
      var allocSize := (size + 1) % TWO_32;
      if allocSize < size || allocSize > f.dataSize {
        return false, v;
      }
    } else {
      if size > PB_SIZE_MAX {
        return false, v;
      }
      if size == 0 {
        return true, Blob(Zeros(f.dataSize));
      }
      if size != f.dataSize {
        return false, v;
      }
    }
    ok, b := stream.Read(size);
    v := Blob(b);
  }

  // ------------------------------------------------------------------- defaults

  /** pb_field_set_to_default for the data of a field. */
  method FieldDefault(f: Field) returns (v: Value)
    ensures v == DefaultValue(f) && InitialValue(f, v)
    decreases f, 0
  {
    hide InitialValue;
    DefaultValueIsInitial(f);
    if f.ltype.LSubmessage? {
      if !f.ptr.Submsg? {
        return Msg([]);
      }
      var sub := new MessageStruct(seq(SlotCount(f.ptr.fields, |f.ptr.fields|), _ => Items([])));
      SetToDefaults(f.ptr.fields, sub);
      return Msg(sub.slots);
    }
    match f.ptr {
      case Default(value) =>
        return value;
      case NullPtr | Submsg(_) =>
        if f.ltype.LFixedLengthBytes? {
          return Blob(Zeros(f.dataSize));
        } else if f.ltype.LBytes? || f.ltype.LString? {
          return Blob([]);
        }
        return Num(0);
    }
  }

  /** pb_field_set_to_default for a member together with its companion. */
  method SlotDefault(f: Field) returns (s: Slot)
    ensures s == DefaultSlot(f)
    decreases f, 1
  {
    var v: Value;
    match f.htype {
      case HRequired =>
        v := FieldDefault(f);
        return Single(v);
      case HOptional =>
        v := FieldDefault(f);
        return if f.sizeOffset != 0 then Flagged(false, v) else Single(v);
      case HRepeated =>
        return Items([]);
      case HOneof =>
        return Union(0, Num(0));
    }
  }

  /** pb_message_set_to_defaults */
  method SetToDefaults(t: Table, dest: MessageStruct)
    requires |dest.slots| == SlotCount(t, |t|)
    modifies dest
    ensures dest.slots == Defaults(t) && InitialMessage(t, dest.slots)
    decreases t
  {
    hide DataAt;
    hide SizeAt;
    hide RequiredIndex;
    hide DefaultValue;
    hide InitialMessage;
    hide DefaultSlot;
    DefaultsAreInitial(t);
    var iter := new FieldIter(t, 0);
    if t == [] {
      assert dest.slots == [];
      return;
    }
    var more := true;
    while more
      invariant iter.Valid() && iter.start == t && fresh(iter) && |dest.slots| == SlotCount(t, |t|)
      invariant more ==> iter.pos < |t|
      invariant (if more then SlotCount(t, iter.pos) else |dest.slots|) <= |dest.slots|
      invariant dest.slots[..if more then SlotCount(t, iter.pos) else |dest.slots|]
             == DefaultsUpTo(t, if more then iter.pos else |t|)
      decreases if more then |t| - iter.pos else 0
    {
      ghost var n, before := iter.pos, dest.slots;
      SlotInRange(t, n);
      var s := SlotDefault(t[iter.pos]);
      dest.slots := dest.slots[iter.slot := s];
      DefaultsExtend(t, n, before, dest.slots);
      more := iter.Next();
      SlotCountMonotone(t, n + 1, |t|);
    }
  }

  lemma DefaultsExtend(t: Table, n: nat, a: seq<Slot>, b: seq<Slot>)
    requires n < |t| && |a| == |b| == SlotCount(t, |t|)
    requires SlotCount(t, n) <= |a| && a[..SlotCount(t, n)] == DefaultsUpTo(t, n)
    requires SlotOf(t, n) < |a| && b == a[SlotOf(t, n) := DefaultSlot(t[n])]
    ensures SlotCount(t, n + 1) <= |b| && b[..SlotCount(t, n + 1)] == DefaultsUpTo(t, n + 1)
  {
    SlotCountMonotone(t, n + 1, |t|);
    if Continues(t, n) {
      DefaultsAt(t, n, n - 1);
      assert DefaultSlot(t[n]) == DefaultSlot(t[n - 1]);
      assert b == a;
    }
  }

  // --------------------------------------------------------------------- fields

  /** The decoder that PB_DECODERS selects for the type, on a member that now holds cur. */
  method ReadValue(stream: IStream, f: Field, cur: Value) returns (ok: bool, v: Value)
    requires stream.Valid() && WellFormedField(f)
    requires f.ltype.LSubmessage? && !f.htype.HRepeated? ==> ValueTyped(f, cur)
    modifies stream
    ensures stream.Valid() && stream.state + stream.bytesLeft <= old(stream.state + stream.bytesLeft)
    ensures ok <==> DecodeValue(f, old(stream.Rest()), cur).Ok?
    ensures ok ==> v == DecodeValue(f, old(stream.Rest()), cur).value
    ensures ok ==> stream.Reached(DecodeValue(f, old(stream.Rest()), cur).rest)
    decreases stream.bytesLeft, 1
  {
    if f.ltype.Packable() {
      var n: int;
      ok, n := ReadScalar(stream, f);
      v := Num(n);
    } else if f.ltype.LSubmessage? {
      ok, v := ReadSubmessage(stream, f, cur);
    } else {
      ok, v := ReadBlob(stream, f);
    }
  }

  /** pb_dec_submessage: array entries are initialised, other submessages are merged into. */
  method ReadSubmessage(stream: IStream, f: Field, cur: Value) returns (ok: bool, v: Value)
    requires stream.Valid() && WellFormedField(f) && f.ltype.LSubmessage?
    requires !f.htype.HRepeated? ==> ValueTyped(f, cur)
    modifies stream
    ensures stream.Valid() && stream.state + stream.bytesLeft <= old(stream.state + stream.bytesLeft)
    ensures ok <==> DecodeValue(f, old(stream.Rest()), cur).Ok?
    ensures ok ==> v == DecodeValue(f, old(stream.Rest()), cur).value
    ensures ok ==> stream.Reached(DecodeValue(f, old(stream.Rest()), cur).rest)
    decreases stream.bytesLeft, 0
  {
    hide TakeDelimited;
    hide DecodeMessage;
    hide DecodeValue;
    hide WellFormedField;
    hide WellFormed;
    hide ValueTyped;
    hide Typed;
    hide SlotCount;
    hide DefaultValue;
    hide IStream.Rest;
    hide Behind;
    SubmessageReady(f, cur);
    SubmessageMeaning(f, stream.Rest(), cur);
    v := cur;
    var sub: IStream;
    ok, sub := MakeSubstream(stream);
    if !ok {
      return;
    }
    var initial := cur;
    if f.htype.HRepeated? {
      initial := FieldDefault(f);
    }
    var dest := new MessageStruct(initial.slots);
    var status := DecodeNoinit(sub, f.ptr.fields, dest);
    var closed := CloseSubstream(stream, sub);
    v := Msg(dest.slots);
    return status, v;
  }

  /** The struct that a submessage is decoded into. */
  ghost function SubmessageBase(f: Field, cur: Value): Value {
    if f.htype.HRepeated? then DefaultValue(f) else cur
  }

  lemma SubmessageReady(f: Field, cur: Value)
    requires WellFormedField(f) && f.ltype.LSubmessage?
    requires !f.htype.HRepeated? ==> ValueTyped(f, cur)
    ensures f.ptr.Submsg? && WellFormed(f.ptr.fields)
    ensures var base := SubmessageBase(f, cur); base.Msg? && Typed(f.ptr.fields, base.slots)
    ensures |SubmessageBase(f, cur).slots| == SlotCount(f.ptr.fields, |f.ptr.fields|)
  {
    DefaultIsWithin(f, false);
  }

  lemma SubmessageMeaning(f: Field, bs: bytes, cur: Value)
    requires f.ltype.LSubmessage? && f.ptr.Submsg? && SubmessageBase(f, cur).Msg?
    requires |SubmessageBase(f, cur).slots| == SlotCount(f.ptr.fields, |f.ptr.fields|)
    ensures var p := TakeDelimited(bs);
            if p.Fail? then DecodeValue(f, bs, cur).Fail?
            else
              var r := DecodeMessage(f.ptr.fields, p.value, SubmessageBase(f, cur).slots);
              DecodeValue(f, bs, cur) == if r.Ok? then Ok(Msg(r.value), p.rest) else Fail
  {
  }

  /** The packed-array branch of decode_static_field. */
  method ReadPacked(stream: IStream, f: Field, items: seq<Value>) returns (ok: bool, items': seq<Value>)
    requires stream.Valid() && f.ltype.Packable()
    modifies stream
    ensures stream.Valid() && stream.state + stream.bytesLeft <= old(stream.state + stream.bytesLeft)
    ensures var p := TakeDelimited(old(stream.Rest()));
            && (ok <==> p.Ok? && DecodePacked(f, p.value, items).Some?)
            && (ok ==> items' == DecodePacked(f, p.value, items).value && stream.Reached(p.rest))
  {
    hide TakeDelimited;
    items' := items;
    var sub: IStream;
    ok, sub := MakeSubstream(stream);
    if !ok {
      return;
    }
    ghost var payload, end := sub.Rest(), sub.state + sub.bytesLeft;
    var status: bool;
    status, items' := ReadItems(sub, f, items);
    if sub.bytesLeft != 0 {
      return false, items';
    }
    assert sub.state <= end;
    var closed := CloseSubstream(stream, sub);
    return status, items';
  }

  /** The loop over the payload: it ends when the bytes are used up, the array is full or
      an item cannot be decoded. */
  method ReadItems(sub: IStream, f: Field, items: seq<Value>) returns (status: bool, items': seq<Value>)
    requires sub.Valid() && f.ltype.Packable()
    modifies sub
    ensures sub.Valid() && sub.state + sub.bytesLeft <= old(sub.state + sub.bytesLeft)
    ensures status ==> sub.state + sub.bytesLeft == old(sub.state + sub.bytesLeft)
    ensures var r := DecodePacked(f, old(sub.Rest()), items);
            && (status && sub.bytesLeft == 0 <==> r.Some?)
            && (status && sub.bytesLeft == 0 ==> items' == r.value)
  {
    hide DecodeScalar;
    items' := items;
    status := true;
    while status && sub.bytesLeft > 0 && |items'| < f.arraySize
      invariant sub.Valid() && sub.state + sub.bytesLeft <= old(sub.state + sub.bytesLeft)
      invariant status ==> sub.state + sub.bytesLeft == old(sub.state + sub.bytesLeft)
      invariant status ==> DecodePacked(f, old(sub.Rest()), items) == DecodePacked(f, sub.Rest(), items')
      invariant !status ==> DecodePacked(f, old(sub.Rest()), items).None?
      decreases status, sub.bytesLeft
    {
      var n: int;
      status, n := ReadScalar(sub, f);
      if status {
        items' := items' + [Num(n)];
      }
    }
  }

  /** decode_static_field */
  method DecodeStaticField(stream: IStream, wireType: nat, f: Field, s: Slot) returns (ok: bool, s': Slot)
    requires stream.Valid() && WellFormedField(f) && PartWithin(f, s, false)
    modifies stream
    ensures stream.Valid() && stream.state + stream.bytesLeft <= old(stream.state + stream.bytesLeft)
    ensures ok <==> DecodeSlot(f, wireType, old(stream.Rest()), s).Ok?
    ensures ok ==> s' == DecodeSlot(f, wireType, old(stream.Rest()), s).value
    ensures ok ==> stream.Reached(DecodeSlot(f, wireType, old(stream.Rest()), s).rest)
    decreases stream.bytesLeft, 2
  {
    hide DecodeValue;
    hide DecodePacked;
    hide TakeDelimited;
    s' := s;
    var v: Value;
    match f.htype {
      case HRequired =>
        ok, v := ReadValue(stream, f, s.v);
        s' := Single(v);
      case HOptional =>
        ok, v := ReadValue(stream, f, s.v);
        s' := if f.sizeOffset != 0 then Flagged(true, v) else Single(v);
      case HRepeated =>
        if wireType == WT_STRING && f.ltype.Packable() {
          var items: seq<Value>;
          ok, items := ReadPacked(stream, f, s.items);
          s' := Items(items);
        } else {
          if |s.items| >= f.arraySize {
            return false, s;
          }
          var zero := FieldDefault(f);
          ok, v := ReadValue(stream, f, zero);
          s' := Items(s.items + [v]);
        }
      case HOneof =>
        var base := s.v;
        if f.ltype.LSubmessage? && s.which != f.tag {
          base := FieldDefault(f);
          DefaultIsWithin(f, false);
        }
        ok, v := ReadValue(stream, f, base);
        s' := Union(f.tag, v);
    }
  }

  // ------------------------------------------------------------ required fields

  lemma {:induction false} RequiredIndexGrows(t: Table, i: nat, j: nat)
    requires i <= j <= |t|
    ensures RequiredIndex(t, i) <= RequiredIndex(t, j)
    ensures i < j && t[i].htype.HRequired? ==> RequiredIndex(t, i) < RequiredIndex(t, j)
    decreases j
  {
    if i < j {
      RequiredIndexGrows(t, i, j - 1);
    }
  }

  lemma {:induction false} RequiredAt(t: Table, k: nat, n: nat) returns (i: nat)
    requires n <= |t| && k < RequiredIndex(t, n)
    ensures i < n && t[i].htype.HRequired? && RequiredIndex(t, i) == k
    decreases n
  {
    if k == RequiredIndex(t, n - 1) {
      i := n - 1;
    } else {
      i := RequiredAt(t, k, n - 1);
    }
  }

  /** The bitset holds exactly the required entries that have been on the wire. */
  ghost predicate BitsAgree(t: Table, bits: FieldsSeen, seen: set<nat>)
    reads bits, bits.words
  {
    && bits.Valid()
    && (forall i {:trigger t[i]} | 0 <= i < |t| && t[i].htype.HRequired? && RequiredIndex(t, i) < MAX_REQUIRED_FIELDS ::
          bits.Marked(RequiredIndex(t, i)) <==> i in seen)
    && (forall k | RequiredIndex(t, |t|) <= k < MAX_REQUIRED_FIELDS :: !bits.Marked(k))
  }

  ghost predicate SeenAgree(t: Table, fieldsSeen: FieldsSeen, seen: set<nat>)
    reads fieldsSeen, fieldsSeen.words
  {
    fieldsSeen.Valid() && (t == [] || BitsAgree(t, fieldsSeen, seen))
  }

  /** Seeking the end of the field array to count the required fields, wherever the cursor
      stands. */
  method CountRequired(iter: FieldIter) returns (count: nat)
    requires iter.Valid()
    modifies iter
    ensures count == RequiredIndex(old(iter.start), |old(iter.start)|)
  {
    hide DataAt;
    hide SizeAt;
    hide SlotCount;
    ghost var t := iter.start;
    var lastRequired := true;
    count := 0;
    var more := true;
    while more
      invariant iter.Valid() && iter.start == t
      invariant more ==> t == [] || iter.pos < |t|
      invariant !more && t != [] ==>
                  count == RequiredIndex(t, |t| - 1) && lastRequired == t[|t| - 1].htype.HRequired?
      invariant !more && t == [] ==> count == 0
      decreases if more then |t| + 1 - iter.pos else 0
    {
      count := iter.requiredFieldIndex;
      lastRequired := if iter.pos < |iter.start| then iter.start[iter.pos].htype.HRequired? else true;
      more := iter.Next();
    }
    if lastRequired && iter.pos < |iter.start| {
      count := count + 1;
    }
  }

  /** The final check passes exactly when each of the first 64 required fields was seen. */
  method CheckRequired(t: Table, iter: FieldIter, bits: FieldsSeen, ghost seen: set<nat>) returns (ok: bool)
    requires iter.Valid() && iter.start == t && SeenAgree(t, bits, seen)
    modifies iter
    ensures ok == RequiredSeenFrom(t, seen, 0)
  {
    var reqFieldCount := CountRequired(iter);
    if reqFieldCount > MAX_REQUIRED_FIELDS {
      reqFieldCount := MAX_REQUIRED_FIELDS;
    }
    ok := true;
    if reqFieldCount > 0 {
      ok := bits.AllMarked(reqFieldCount);
    }
    MarksMeanSeen(t, bits, seen, reqFieldCount, ok);
  }

  lemma MarksMeanSeen(t: Table, bits: FieldsSeen, seen: set<nat>, count: nat, ok: bool)
    requires SeenAgree(t, bits, seen) && count <= MAX_REQUIRED_FIELDS
    requires count == if RequiredIndex(t, |t|) > MAX_REQUIRED_FIELDS then MAX_REQUIRED_FIELDS else RequiredIndex(t, |t|)
    requires ok <==> forall k | 0 <= k < count :: bits.Marked(k)
    ensures ok == RequiredSeenFrom(t, seen, 0)
  {
    if ok {
      forall i | 0 <= i < |t| && t[i].htype.HRequired? && RequiredIndex(t, i) < MAX_REQUIRED_FIELDS
        ensures i in seen
      {
        RequiredIndexGrows(t, i, |t|);
        assert bits.Marked(RequiredIndex(t, i));
      }
    }
    if RequiredSeenFrom(t, seen, 0) {
      forall k | 0 <= k < count
        ensures bits.Marked(k)
      {
        var i := RequiredAt(t, k, |t|);
        assert i in seen;
      }
    }
  }

  // ------------------------------------------------------------- the main loop

  /** Marks a required entry in the bitset. */
  method MarkRequired(t: Table, n: nat, index: nat, bits: FieldsSeen, ghost seen: set<nat>)
    requires n < |t| && index == RequiredIndex(t, n) && BitsAgree(t, bits, seen)
    modifies bits.words
    ensures BitsAgree(t, bits, if t[n].htype.HRequired? then seen + {n} else seen)
  {
    RequiredIndexGrows(t, n, |t|);
    if t[n].htype.HRequired? && index < MAX_REQUIRED_FIELDS {
      bits.Mark(index);
    }
    forall i {:trigger t[i]} | 0 <= i < |t| && i != n && t[i].htype.HRequired? && t[n].htype.HRequired?
      ensures RequiredIndex(t, i) != RequiredIndex(t, n)
    {
      if i < n {
        RequiredIndexGrows(t, i, n);
      } else {
        RequiredIndexGrows(t, n, i);
      }
    }
  }

  /** The counter of the fixed-count array being filled. */
  ghost predicate CounterAgrees(t: Table, slots: seq<Slot>, fixedField: Option<nat>, fixedSize: nat)
    requires |slots| == SlotCount(t, |t|)
  {
    fixedField.Some? ==>
      && fixedField.value < |t|
      && SlotAt(t, slots, fixedField.value).Items?
      && |SlotAt(t, slots, fixedField.value).items| == fixedSize
  }

  /** A known field: the fixed-count bookkeeping and the decoding itself. */
  method DecodeKnown(stream: IStream, t: Table, n: nat, slot: nat, wireType: nat, dest: MessageStruct,
        fixedField: Option<nat>, fixedSize: nat, ghost st: LoopState)
    returns (ok: bool, fixedField': Option<nat>, fixedSize': nat)
    requires stream.Valid() && WellFormed(t) && LoopWithin(t, st, false)
    requires st.slots == dest.slots && st.fixedField == fixedField
    requires CounterAgrees(t, dest.slots, fixedField, fixedSize)
    requires n < |t| && slot == SlotOf(t, n)
    modifies stream, dest
    ensures stream.Valid() && stream.state + stream.bytesLeft <= old(stream.state + stream.bytesLeft)
    ensures var r := DecodeRecord(t, t[n].tag, wireType, old(stream.Rest()), st);
            && (ok <==> r.Ok?)
            && (ok ==>
                  && r.value.slots == dest.slots && r.value.fixedField == fixedField'
                  && r.value.seen == (if t[n].htype.HRequired? then st.seen + {n} else st.seen)
                  && stream.Reached(r.rest) && stream.bytesLeft < old(stream.bytesLeft)
                  && CounterAgrees(t, dest.slots, fixedField', fixedSize'))
    decreases stream.bytesLeft, 3
  {
    hide DecodeSlot;
    hide SlotCount;
    var f := t[n];
    assert WellFormedField(f);
    UniqueField(t, n);
    SlotInRange(t, n);
    fixedField', fixedSize' := fixedField, fixedSize;
    if f.FixedCount() && fixedField != Some(n) {
      if fixedField.Some? && fixedSize != t[fixedField.value].arraySize {
        return false, fixedField, fixedSize;
      }
      fixedField', fixedSize' := Some(n), 0;
      dest.slots := dest.slots[slot := Items([])];
    }
    ghost var st1 := Enter(t, n, st);
    assert dest.slots == st1.slots;
    EnteredWithin(t, n, st, false);
    var s: Slot;
    ok, s := DecodeStaticField(stream, wireType, f, dest.slots[slot]);
    if !ok {
      return;
    }
    KnownRecord(t, n, wireType, old(stream.Rest()), st);
    dest.slots := dest.slots[slot := s];
    assert dest.slots == WithSlot(t, st1.slots, n, s);
    if fixedField' == Some(n) {
      fixedSize' := |s.items|;
    } else {
      CounterKept(t, n, st, s, fixedSize);
    }
  }

  lemma KnownRecord(t: Table, n: nat, wireType: nat, bs: bytes, st: LoopState)
    requires WellFormed(t) && n < |t| && |st.slots| == SlotCount(t, |t|)
    requires DecodeRecord(t, t[n].tag, wireType, bs, st).Ok?
    ensures var st1 := Enter(t, n, st);
            var r := DecodeSlot(t[n], wireType, bs, SlotAt(t, st1.slots, n));
            && r.Ok?
            && DecodeRecord(t, t[n].tag, wireType, bs, st) ==
               Ok(st1.(slots := WithSlot(t, st1.slots, n, r.value)), r.rest)
            && (t[n].htype.HRepeated? ==> r.value.Items?)
            && (t[n].htype.HOneof? ==> r.value.Union? && SlotAt(t, st1.slots, n).Union?)
  {
    assert WellFormedField(t[n]);
    UniqueField(t, n);
  }

  /** Writing another slot leaves the counted array alone. */
  lemma CounterKept(t: Table, n: nat, st: LoopState, s: Slot, fixedSize: nat)
    requires n < |t| && |st.slots| == SlotCount(t, |t|) && st.fixedField != Some(n)
    requires CounterAgrees(t, st.slots, st.fixedField, fixedSize)
    requires !t[n].htype.HOneof? || SlotAt(t, st.slots, n).Union?
    ensures CounterAgrees(t, WithSlot(t, st.slots, n, s), st.fixedField, fixedSize)
  {
    if st.fixedField.Some? && !t[n].htype.HOneof? {
      var j := st.fixedField.value;
      if j < n {
        SlotsApart(t, j, n);
      } else {
        SlotsApart(t, n, j);
      }
    }
  }

  lemma FinalFixed(t: Table, st: LoopState, fixedSize: nat)
    requires |st.slots| == SlotCount(t, |t|) && CounterAgrees(t, st.slots, st.fixedField, fixedSize)
    ensures st.fixedField.Some? ==> st.fixedField.value < |t|
    ensures FixedDone(t, st) <==> (st.fixedField.Some? ==> fixedSize == t[st.fixedField.value].arraySize)
  {
  }

  /** What the loop keeps: the variables agree with the state of the specification. */
  ghost predicate InStep(t: Table, iter: FieldIter, fieldsSeen: FieldsSeen, slots: seq<Slot>,
        fixedField: Option<nat>, fixedSize: nat, st: LoopState)
    reads iter, fieldsSeen, fieldsSeen.words
  {
    && iter.Valid() && iter.start == t && SeenAgree(t, fieldsSeen, st.seen)
    && |slots| == SlotCount(t, |t|) && CounterAgrees(t, slots, fixedField, fixedSize)
    && st.slots == slots && st.fixedField == fixedField && LoopWithin(t, st, false)
  }

  /** The turn for a known field. */
  method DecodeFound(stream: IStream, t: Table, tag: nat, wireType: nat, iter: FieldIter, fieldsSeen: FieldsSeen,
        dest: MessageStruct, fixedField: Option<nat>, fixedSize: nat, ghost st: LoopState)
    returns (ok: bool, fixedField': Option<nat>, fixedSize': nat, ghost st': LoopState)
    requires stream.Valid() && WellFormed(t) && t != []
    requires InStep(t, iter, fieldsSeen, dest.slots, fixedField, fixedSize, st)
    requires Matches(t, iter.pos, tag)
    modifies stream, fieldsSeen.words, dest
    ensures stream.Valid() && stream.state + stream.bytesLeft <= old(stream.state + stream.bytesLeft)
    ensures |st.slots| == SlotCount(t, |t|)
    ensures ok <==> DecodeRecord(t, tag, wireType, old(stream.Rest()), st).Ok?
    ensures ok ==> st' == DecodeRecord(t, tag, wireType, old(stream.Rest()), st).value
    ensures ok ==> stream.Reached(DecodeRecord(t, tag, wireType, old(stream.Rest()), st).rest)
    ensures ok ==> InStep(t, iter, fieldsSeen, dest.slots, fixedField', fixedSize', st')
    decreases stream.bytesLeft, 4
  {
    hide DecodeRecord;
    hide LoopWithin;
    hide SlotCount;
    hide DataAt;
    hide SizeAt;
    hide WellFormed;
    hide BitsAgree;
    hide CounterAgrees;
    ghost var bs := stream.Rest();
    var n := iter.pos;
    ghost var seen' := if t[n].htype.HRequired? then st.seen + {n} else st.seen;
    assert SeenAgree(t, fieldsSeen, st.seen);
    MarkRequired(t, n, iter.requiredFieldIndex, fieldsSeen, st.seen);
    assert SeenAgree(t, fieldsSeen, seen') by {
      BitsAgreeValid(t, fieldsSeen, seen');
    }
    ok, fixedField', fixedSize' := DecodeKnown(stream, t, n, iter.slot, wireType, dest, fixedField, fixedSize, st);
    st' := LoopState(dest.slots, seen', fixedField');
    if ok {
      RecordWithin(t, tag, wireType, bs, st, false);
      LoopLength(t, st');
    }
  }

  lemma BitsAgreeValid(t: Table, bits: FieldsSeen, seen: set<nat>)
    requires BitsAgree(t, bits, seen)
    ensures bits.Valid()
  {
  }

  /** One turn of the main loop after the tag: the field is looked up from wherever the
      cursor stands, then decoded or skipped. */
  method DecodeOne(stream: IStream, t: Table, tag: nat, wireType: nat, iter: FieldIter, fieldsSeen: FieldsSeen,
        dest: MessageStruct, fixedField: Option<nat>, fixedSize: nat, ghost st: LoopState)
    returns (ok: bool, fixedField': Option<nat>, fixedSize': nat, ghost st': LoopState)
    requires stream.Valid() && WellFormed(t)
    requires InStep(t, iter, fieldsSeen, dest.slots, fixedField, fixedSize, st)
    modifies stream, iter, fieldsSeen.words, dest
    ensures stream.Valid() && stream.state + stream.bytesLeft <= old(stream.state + stream.bytesLeft)
    ensures |st.slots| == SlotCount(t, |t|)
    ensures ok <==> DecodeRecord(t, tag, wireType, old(stream.Rest()), st).Ok?
    ensures ok ==> st' == DecodeRecord(t, tag, wireType, old(stream.Rest()), st).value
    ensures ok ==> stream.Reached(DecodeRecord(t, tag, wireType, old(stream.Rest()), st).rest)
    ensures ok ==> InStep(t, iter, fieldsSeen, dest.slots, fixedField', fixedSize', st')
    decreases stream.bytesLeft, 5
  {
    hide DecodeRecord;
    hide LoopWithin;
    hide BitsAgree;
    hide CounterAgrees;
    hide SlotCount;
    hide DataAt;
    hide SizeAt;
    hide SkipField;
    hide DecodeVarint32;
    ghost var bs := stream.Rest();
    fixedField', fixedSize', st' := fixedField, fixedSize, st;
    var found: bool;
    ghost var steps: nat;
    found, steps := iter.Find(tag);
    if !found {
      RecordUnknown(t, tag, wireType, bs, st);
      ok := SkipOneField(stream, wireType);
    } else if iter.pos == |iter.start| {
      RecordOfTerminator(t, tag, wireType, bs, st);
      fieldsSeen.Mark(iter.requiredFieldIndex);
      var dropped: nat, atEnd: bool;
      ok, dropped, atEnd := ReadVarint32(stream);
    } else {
      ok, fixedField', fixedSize', st' :=
        DecodeFound(stream, t, tag, wireType, iter, fieldsSeen, dest, fixedField, fixedSize, st);
    }
  }

  lemma LoopLength(t: Table, st: LoopState)
    requires LoopWithin(t, st, false)
    ensures |st.slots| == SlotCount(t, |t|)
  {
  }

  lemma LoopTurns(t: Table, bs: bytes, st: LoopState)
    requires bs != [] && |st.slots| == SlotCount(t, |t|)
    ensures DecodeTag(bs).TagError? ==> DecodeLoop(t, bs, st).Fail?
    ensures DecodeTag(bs).TagEnd? ==> DecodeLoop(t, bs, st) == Ok(st, DecodeTag(bs).rest)
    ensures DecodeTag(bs).Tag? ==>
              var d := DecodeTag(bs);
              var r := DecodeRecord(t, d.tag, d.wireType, d.rest, st);
              DecodeLoop(t, bs, st) == if r.Ok? then DecodeLoop(t, r.rest, r.value) else Fail
  {
  }

  lemma RecordUnknown(t: Table, tag: nat, wireType: nat, bs: bytes, st: LoopState)
    requires |st.slots| == SlotCount(t, |t|)
    requires !(t == [] && tag == 0) && forall i | 0 <= i < |t| :: !Matches(t, i, tag)
    ensures var r := SkipField(wireType, bs);
            DecodeRecord(t, tag, wireType, bs, st) == if r.Some? then Ok(st, r.value) else Fail
  {
  }

  lemma RecordOfTerminator(t: Table, tag: nat, wireType: nat, bs: bytes, st: LoopState)
    requires t == [] && tag == 0 && |st.slots| == SlotCount(t, |t|)
    ensures var r := DecodeVarint32(bs);
            DecodeRecord(t, tag, wireType, bs, st) == if r.Ok? then Ok(st, r.rest) else Fail
  {
  }

  /** pb_decode_noinit */
  method DecodeNoinit(stream: IStream, t: Table, dest: MessageStruct) returns (ok: bool)
    requires stream.Valid() && WellFormed(t) && Typed(t, dest.slots)
    modifies stream, dest
    ensures stream.Valid() && stream.state + stream.bytesLeft <= old(stream.state + stream.bytesLeft)
    ensures |old(dest.slots)| == SlotCount(t, |t|)
    ensures ok <==> DecodeMessage(t, old(stream.Rest()), old(dest.slots)).Ok?
    ensures ok ==> dest.slots == DecodeMessage(t, old(stream.Rest()), old(dest.slots)).value
    ensures ok ==> stream.Reached(DecodeMessage(t, old(stream.Rest()), old(dest.slots)).rest)
    decreases stream.bytesLeft, 6
  {
    hide DecodeMessage;
    hide DecodeRecord;
    hide DecodeTag;
    hide DecodeLoop;
    hide RequiredSeenFrom;
    hide LoopWithin;
    hide FixedDone;
    hide SeenAgree;
    hide CounterAgrees;
    hide SlotCount;
    hide Typed;
    ghost var bs, st := stream.Rest(), Start(dest.slots);
    ghost var st0 := st;
    StartWithin(t, dest.slots, false);
    var fieldsSeen := new FieldsSeen();
    var iter := new FieldIter(t, 0);
    var fixedField: Option<nat>, fixedSize: nat := None, 0;
    StartAgrees(t, fieldsSeen, dest.slots);
    var running := true;
    MessageOfLoop(t, bs, st0.slots);
    while running && stream.bytesLeft != 0
      invariant stream.Valid() && stream.state + stream.bytesLeft == old(stream.state + stream.bytesLeft)
      invariant fresh(iter) && fresh(fieldsSeen) && fresh(fieldsSeen.words)
      invariant InStep(t, iter, fieldsSeen, dest.slots, fixedField, fixedSize, st)
      invariant DecodeLoop(t, bs, st0) == if running then DecodeLoop(t, stream.Rest(), st) else Ok(st, stream.Rest())
      decreases running, stream.bytesLeft
    {
      LoopTurns(t, stream.Rest(), st);
      var wireType: nat, tag: nat, eof: bool;
      ok, wireType, tag, eof := ReadTag(stream);
      if !ok {
        if !eof {
          return;
        }
        running := false;
      } else {
        ok, fixedField, fixedSize, st :=
          DecodeOne(stream, t, tag, wireType, iter, fieldsSeen, dest, fixedField, fixedSize, st);
        if !ok {
          return;
        }
      }
    }
    EmptyLoop(t, st);
    assert running ==> stream.Rest() == [];
    FinalFixed(t, st, fixedSize);
    if fixedField.Some? && fixedSize != t[fixedField.value].arraySize {
      return false;
    }
    ok := CheckRequired(t, iter, fieldsSeen, st.seen);
  }

  lemma StartAgrees(t: Table, bits: FieldsSeen, slots: seq<Slot>)
    requires bits.Valid() && |slots| == SlotCount(t, |t|)
    requires forall k | 0 <= k < MAX_REQUIRED_FIELDS :: !bits.Marked(k)
    ensures SeenAgree(t, bits, {}) && CounterAgrees(t, slots, None, 0)
  {
  }

  lemma MessageOfLoop(t: Table, bs: bytes, slots: seq<Slot>)
    requires |slots| == SlotCount(t, |t|)
    ensures var r := DecodeLoop(t, bs, Start(slots));
            DecodeMessage(t, bs, slots) ==
            if r.Ok? && FixedDone(t, r.value) && RequiredSeenFrom(t, r.value.seen, 0) then Ok(r.value.slots, r.rest)
            else Fail
  {
  }

  lemma EmptyLoop(t: Table, st: LoopState)
    requires |st.slots| == SlotCount(t, |t|)
    ensures DecodeLoop(t, [], st) == Ok(st, [])
  {
  }

  // --------------------------------------------------------------- entry points

  /** pb_decode */
  method Decode(stream: IStream, t: Table, dest: MessageStruct) returns (ok: bool)
    requires stream.Valid() && WellFormed(t) && |dest.slots| == SlotCount(t, |t|)
    modifies stream, dest
    ensures stream.Valid() && stream.state + stream.bytesLeft <= old(stream.state + stream.bytesLeft)
    ensures ok <==> Decoding.Decode(t, old(stream.Rest())).Ok?
    ensures ok ==> dest.slots == Decoding.Decode(t, old(stream.Rest())).value && Fits(t, dest.slots)
    ensures ok ==> stream.Reached(Decoding.Decode(t, old(stream.Rest())).rest)
  {
    hide DecodeMessage;
    hide Fits;
    hide Typed;
    DefaultsFit(t);
    FitsIsTyped(t, Defaults(t));
    SetToDefaults(t, dest);
    ok := DecodeNoinit(stream, t, dest);
    if ok {
      DecodeFits(t, old(stream.Rest()), Defaults(t));
    }
  }

  /** pb_decode_nullterminated */
  method DecodeNullTerminated(stream: IStream, t: Table, dest: MessageStruct) returns (ok: bool)
    requires stream.Valid() && WellFormed(t) && |dest.slots| == SlotCount(t, |t|)
    modifies stream, dest
    ensures stream.Valid() && stream.state + stream.bytesLeft <= old(stream.state + stream.bytesLeft)
    ensures ok <==> Decoding.Decode(t, old(stream.Rest())).Ok?
    ensures ok ==> dest.slots == Decoding.Decode(t, old(stream.Rest())).value && Fits(t, dest.slots)
    ensures ok ==> stream.Reached(Decoding.Decode(t, old(stream.Rest())).rest)
  {
    hide Decoding.Decode;
    ok := Decode(stream, t, dest);
  }

  /** pb_decode_delimited: on success the stream has moved on by exactly the length prefix
      and the announced length, whatever the message inside made of it. */
  method DecodeDelimited(stream: IStream, t: Table, dest: MessageStruct) returns (ok: bool)
    requires stream.Valid() && WellFormed(t) && |dest.slots| == SlotCount(t, |t|)
    modifies stream, dest
    ensures stream.Valid() && stream.state + stream.bytesLeft <= old(stream.state + stream.bytesLeft)
    ensures ok <==> Framing.DecodeDelimited(t, old(stream.Rest())).Ok?
    ensures ok ==> dest.slots == Framing.DecodeDelimited(t, old(stream.Rest())).value && Fits(t, dest.slots)
    ensures ok ==> stream.Reached(TakeDelimited(old(stream.Rest())).rest)
    ensures ok ==> stream.Reached(Framing.DecodeDelimited(t, old(stream.Rest())).rest)
  {
    hide Decoding.Decode;
    hide TakeDelimited;
    hide Fits;
    var sub: IStream;
    ok, sub := MakeSubstream(stream);
    if !ok {
      return;
    }
    var status := Decode(sub, t, dest);
    var closed := CloseSubstream(stream, sub);
    return status;
  }
}
