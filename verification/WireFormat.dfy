/** The wire format of the Protocol Buffers Encoding specification, written down on its own:
    the records of a message with the wire types as numbers. What pb_encode writes is
    compared with it, and what pb_decode and pb_skip_field accept. */
module WireFormat {
  import opened Wire
  import opened Bits
  import opened Varint
  import opened Varint32
  import opened Descriptor
  import opened Scalars
  import opened Message
  import opened Encoding
  import opened Decoding
  import opened Records
  import opened Packed
  import opened RoundTrip

  // --------------------------------------------------------------------- records

  /** The contents of a record: a varint (wire type 0), eight bytes (1), a counted string of
      bytes (2) or four bytes (5). */
  datatype Content = Number(v: nat) | Eight(bs: bytes) | Counted(bs: bytes) | Four(bs: bytes)

  function TypeNumber(c: Content): nat {
    match c
    case Number(_) => 0
    case Eight(_) => 1
    case Counted(_) => 2
    case Four(_) => 5
  }

  function ContentBytes(c: Content): bytes {
    match c
    case Number(v) => EncodeVarint(v)
    case Eight(bs) => bs
    case Counted(bs) => EncodeVarint(|bs|) + bs
    case Four(bs) => bs
  }

  function RecordBytes(tag: nat, c: Content): bytes {
    EncodeVarint(8 * tag + TypeNumber(c)) + ContentBytes(c)
  }

  /** Two's complement in 64 bits. */
  function Complement64(n: int): nat {
    if 0 <= n then n else if n + 0x1_0000_0000_0000_0000 >= 0 then n + 0x1_0000_0000_0000_0000 else 0
  }

  function ScalarContent(f: Field, n: int): Content {
    match f.ltype
    case LBool => Number(if n == 0 then 0 else 1)
    case LVarint | LUVarint => Number(Complement64(n))
    case LSVarint => Number(if n < 0 then -2 * n - 1 else 2 * n)
    case LFixed32 => Four([n % 256, n / 0x100 % 256, n / 0x1_0000 % 256, n / 0x100_0000 % 256])
    case LFixed64 =>
      Eight([n % 256, n / 0x100 % 256, n / 0x1_0000 % 256, n / 0x100_0000 % 256,
             n / 0x1_0000_0000 % 256, n / 0x100_0000_0000 % 256, n / 0x1_0000_0000_0000 % 256,
             n / 0x100_0000_0000_0000 % 256])
    case LBytes | LString | LSubmessage | LExtension | LFixedLengthBytes => Counted([])
  }

  /** The characters of a buffer: up to the first NUL, or all of it. */
  function Characters(bs: bytes, size: nat): bytes {
    if bs == [] || bs[0] == 0 || size == 0 then [] else [bs[0]] + Characters(bs[1..], size - 1)
  }

  function ValueContent(f: Field, v: Value): Content
    decreases f, 0
  {
    match v
    case Num(n) => ScalarContent(f, n)
    case Blob(bs) => Counted(if f.ltype.LString? then Characters(bs, f.dataSize) else bs)
    case Msg(slots) => Counted(if f.ptr.Submsg? then MessageBytes(f.ptr.fields, slots) else [])
  }

  /** The items of a packed array without any tags. */
  function PackedBytes(f: Field, items: seq<Value>): bytes {
    if items == [] then []
    else
      var v := items[|items| - 1];
      PackedBytes(f, items[..|items| - 1]) + if v.Num? then ContentBytes(ScalarContent(f, v.n)) else []
  }

  function ItemsBytes(f: Field, items: seq<Value>, n: nat): bytes
    requires n <= |items|
    decreases f, 1, n
  {
    if n == 0 then [] else ItemsBytes(f, items, n - 1) + RecordBytes(f.tag, ValueContent(f, items[n - 1]))
  }

  /** The records of one entry: present values, selected union members, one packed record for
      the scalars of an array, one record each for its other items. */
  function SlotBytes(f: Field, s: Slot): bytes
    decreases f, 2
  {
    match s
    case Single(v) =>
      if f.htype.HOptional? && Blank(f, v) then [] else RecordBytes(f.tag, ValueContent(f, v))
    case Flagged(has, v) => if has then RecordBytes(f.tag, ValueContent(f, v)) else []
    case Items(items) =>
      if items == [] then []
      else if f.ltype.Packable() then RecordBytes(f.tag, Counted(PackedBytes(f, items)))
      else ItemsBytes(f, items, |items|)
    case Union(which, v) => if which == f.tag then RecordBytes(f.tag, ValueContent(f, v)) else []
  }

  function EntriesBytes(t: Table, m: seq<Slot>, n: nat): bytes
    requires n <= |t|
    decreases t, n
  {
    if n == 0 then []
    else EntriesBytes(t, m, n - 1) + if SlotOf(t, n - 1) < |m| then SlotBytes(t[n - 1], m[SlotOf(t, n - 1)]) else []
  }

  /** All records in the order of the table. */
  function MessageBytes(t: Table, m: seq<Slot>): bytes
    decreases t, |t| + 1
  {
    EntriesBytes(t, m, |t|)
  }

  // ------------------------------------------------------------------ blank values

  /** The values that proto3 leaves out: 0, an empty string, no bytes, and a message in which
      everything is blank. Fixed-length bytes never are, unless their length is 0. */
  predicate Blank(f: Field, v: Value)
    decreases f, 0
  {
    match v
    case Num(n) => n == 0
    case Blob(bs) =>
      if f.ltype.LFixedLengthBytes? then f.dataSize == 0
      else |bs| == 0 || (f.ltype.LString? && bs[0] == 0)
    case Msg(slots) => f.ptr.Submsg? && BlankMessage(f.ptr.fields, slots)
  }

  predicate BlankSlot(f: Field, s: Slot)
    decreases f, 1
  {
    match s
    case Single(v) => f.htype.HOptional? && Blank(f, v)
    case Flagged(has, _) => !has
    case Items(items) => items == [] && f.sizeOffset != 0
    case Union(which, _) => which == 0
  }

  predicate BlankMessage(t: Table, m: seq<Slot>)
    decreases t
  {
    forall i {:trigger t[i]} | 0 <= i < |t| && SlotOf(t, i) < |m| :: BlankSlot(t[i], m[SlotOf(t, i)])
  }

  lemma {:induction false} BlankIsZero(f: Field, v: Value)
    requires WellFormedField(f) && ValueTyped(f, v)
    ensures Blank(f, v) <==> IsZero(f, v)
    decreases f, 0
  {
    if f.ltype.LSubmessage? {
      var t, m := f.ptr.fields, v.slots;
      forall i {:trigger t[i]} | 0 <= i < |t|
        ensures SlotOf(t, i) < |m| && (BlankSlot(t[i], m[SlotOf(t, i)]) <==> IsDefaultSlot(t[i], SlotAt(t, m, i)))
      {
        assert WellFormedField(t[i]) && SlotTyped(t[i], SlotAt(t, m, i));
        BlankSlotIsDefault(t[i], SlotAt(t, m, i));
      }
    }
  }

  lemma {:induction false} BlankSlotIsDefault(f: Field, s: Slot)
    requires WellFormedField(f) && SlotTyped(f, s)
    ensures BlankSlot(f, s) <==> IsDefaultSlot(f, s)
    decreases f, 1
  {
    if s.Single? {
      BlankIsZero(f, s.v);
    }
  }

  /** pb_encode writes nothing for a proto3 field exactly when its value is blank. */
  lemma BlankIsOmitted(f: Field, v: Value)
    requires WellFormedField(f) && f.Singular() && ValueTyped(f, v)
    ensures EncodeSlot(f, Single(v)) == Some([]) <==> Blank(f, v)
  {
    BlankIsZero(f, v);
  }

  // --------------------------------------------------------- what the encoder writes

  lemma ScalarForm(f: Field, n: int)
    requires f.ltype.Packable() && ScalarTyped(f, n) && EncodeScalar(f, n).Some?
    ensures EncodeScalar(f, n).value == ContentBytes(ScalarContent(f, n))
    ensures WireType(f.ltype) == TypeNumber(ScalarContent(f, n))
  {
    match f.ltype {
      case LBool =>
      case LVarint =>
        SignedInRange(f, n);
        Unsigned64(n);
      case LUVarint =>
        CastsAreInverse(n, 8);
      case LSVarint =>
        SignedInRange(f, n);
        ZigZagOrders(n);
      case LFixed32 =>
        CastsAreInverse(n, 4);
        FourBytes(n);
      case LFixed64 =>
        CastsAreInverse(n, 8);
        AllBytes(n);
    }
  }

  lemma SignedInRange(f: Field, n: int)
    requires FitsSigned(n, f.dataSize)
    ensures FitsSigned(n, 8)
  {
  }

  lemma Unsigned64(n: int)
    requires FitsSigned(n, 8)
    ensures ToUnsigned(n, 8) == Complement64(n)
  {
    Ranges(n);
    if n < 0 {
      DivModUnique(n, TWO_64, -1, n + TWO_64);
    } else {
      DivModUnique(n, TWO_64, 0, n);
    }
  }

  lemma AllBytes(v: nat)
    ensures LittleEndian(v, 8) ==
            [v % 256, v / 0x100 % 256, v / 0x1_0000 % 256, v / 0x100_0000 % 256,
             v / 0x1_0000_0000 % 256, v / 0x100_0000_0000 % 256, v / 0x1_0000_0000_0000 % 256,
             v / 0x100_0000_0000_0000 % 256]
  {
    var w := v / 0x1_0000_0000;
    FourBytes(v);
    FourBytes(w);
    EightBytes(v);
    assert w / 0x100 == v / 0x100_0000_0000 && w / 0x1_0000 == v / 0x1_0000_0000_0000
        && w / 0x100_0000 == v / 0x100_0000_0000_0000;
  }

  lemma {:induction false} CharactersAre(bs: bytes, size: nat)
    ensures Characters(bs, size) == if |UpToNul(bs)| > size then UpToNul(bs)[..size] else UpToNul(bs)
  {
    if bs != [] && bs[0] != 0 && size > 0 {
      CharactersAre(bs[1..], size - 1);
    }
  }

  lemma {:induction false} ValueForm(f: Field, v: Value)
    requires WellFormedField(f) && ValueTyped(f, v) && EncodeTagged(f, v).Some?
    ensures EncodeTagged(f, v).value == RecordBytes(f.tag, ValueContent(f, v))
    decreases f, 0
  {
    hide EncodeScalar;
    hide EncodeVarint;
    TaggedSplit(f, v);
    if f.ltype.Packable() {
      ScalarForm(f, v.n);
    } else if f.ltype.LSubmessage? {
      MessageForm(f.ptr.fields, v.slots);
    } else if f.ltype.LString? {
      CharactersAre(v.bs, f.dataSize);
    }
  }

  lemma {:induction false} PackedForm(f: Field, items: seq<Value>, n: nat)
    requires f.ltype.Packable() && n <= |items| && PackedPayload(f, items, n).Some?
    requires forall k | 0 <= k < |items| :: ValueTyped(f, items[k])
    ensures PackedPayload(f, items, n).value == PackedBytes(f, items[..n])
    decreases n
  {
    hide EncodeScalar;
    hide ScalarContent;
    hide ContentBytes;
    if n > 0 {
      PackedForm(f, items, n - 1);
      assert items[..n][..n - 1] == items[..n - 1] && ValueTyped(f, items[n - 1]);
      ScalarForm(f, items[n - 1].n);
    }
  }

  lemma {:induction false} ItemsForm(f: Field, items: seq<Value>, n: nat)
    requires WellFormedField(f) && n <= |items| && TaggedItems(f, items, n).Some?
    requires forall k | 0 <= k < |items| :: ValueTyped(f, items[k])
    ensures TaggedItems(f, items, n).value == ItemsBytes(f, items, n)
    decreases f, 1, n
  {
    hide EncodeTagged;
    hide RecordBytes;
    hide ValueContent;
    if n > 0 {
      ItemsForm(f, items, n - 1);
      ValueForm(f, items[n - 1]);
    }
  }

  lemma {:induction false} SlotForm(f: Field, s: Slot)
    requires WellFormedField(f) && SlotTyped(f, s) && EncodeSlot(f, s).Some?
    ensures EncodeSlot(f, s).value == SlotBytes(f, s)
    decreases f, 2
  {
    hide EncodeTagged;
    hide ValueContent;
    hide ValueTyped;
    hide WellFormedField;
    match s {
      case Single(v) =>
        BlankIsZero(f, v);
        if EncodeTagged(f, v).Some? {
          ValueForm(f, v);
        }
      case Flagged(has, v) =>
        if has {
          ValueForm(f, v);
        }
      case Items(items) => ArrayForm(f, items);
      case Union(which, v) =>
        if which == f.tag {
          ValueForm(f, v);
        }
    }
  }

  lemma {:induction false} ArrayForm(f: Field, items: seq<Value>)
    requires WellFormedField(f) && f.htype.HRepeated? && SlotTyped(f, Items(items))
    requires EncodeSlot(f, Items(items)).Some?
    ensures EncodeSlot(f, Items(items)).value == SlotBytes(f, Items(items))
    decreases f, 1, |items| + 1
  {
    hide TaggedItems;
    hide PackedPayload;
    hide EncodeVarint;
    if items != [] {
      if f.ltype.Packable() {
        PackedForm(f, items, |items|);
        assert items[..|items|] == items;
      } else {
        ItemsForm(f, items, |items|);
      }
    }
  }

  lemma {:induction false} EntriesForm(t: Table, m: seq<Slot>, n: nat)
    requires WellFormed(t) && Typed(t, m) && n <= |t| && EncodeUpTo(t, m, n).Some?
    ensures EncodeUpTo(t, m, n).value == EntriesBytes(t, m, n)
    decreases t, n
  {
    hide EncodeSlot;
    hide SlotBytes;
    hide SlotTyped;
    if n > 0 {
      EntriesForm(t, m, n - 1);
      assert WellFormedField(t[n - 1]) && SlotTyped(t[n - 1], SlotAt(t, m, n - 1));
      SlotForm(t[n - 1], SlotAt(t, m, n - 1));
    }
  }

  /** What pb_encode writes is the wire format: in front of each value the varint of
      8 * tag + w, with w 0, 1, 2 or 5 by type, then the value in the bytes that the
      specification prescribes, entry by entry in the order of the table. */
  lemma {:induction false} MessageForm(t: Table, m: seq<Slot>)
    requires WellFormed(t) && Typed(t, m) && EncodeMessage(t, m).Some?
    ensures EncodeMessage(t, m).value == MessageBytes(t, m)
    decreases t, |t| + 1
  {
    EntriesForm(t, m, |t|);
  }

  // ------------------------------------------------------------- tags and skipping

  /** pb_decode_tag on the varint of v: 0 ends the message, otherwise the lower three bits
      are the wire type and the others the tag. */
  lemma TagExactly(v: nat, tail: bytes)
    requires v < 0x1_0000_0000
    ensures DecodeTag(EncodeVarint(v) + tail) == if v == 0 then TagEnd(tail) else Tag(v / 8, v % 8, tail)
  {
    hide DecodeVarint32;
    Varint32RoundTrip(v, tail);
  }

  lemma SkipVarints(bs: bytes, tail: bytes)
    ensures CompleteVarint(bs) ==> SkipField(0, bs + tail) == Some(tail)
    ensures (forall i | 0 <= i < |bs| :: bs[i] >= 128) ==> SkipField(0, bs).None?
  {
    if CompleteVarint(bs) {
      SplitComplete(bs, tail);
    }
    if forall i | 0 <= i < |bs| :: bs[i] >= 128 {
      SplitUnfinished(bs);
    }
  }

  lemma SkipCounted(bs: bytes, tail: bytes)
    requires |bs| < 0x1_0000_0000
    ensures SkipField(2, EncodeVarint(|bs|) + bs + tail) == Some(tail)
  {
    hide TakeDelimited;
    DelimitedRoundTrip(bs, tail);
  }

  lemma SkipFixed(wireType: nat, bs: bytes, tail: bytes)
    ensures |bs| == 8 ==> SkipField(1, bs + tail) == Some(tail)
    ensures |bs| == 4 ==> SkipField(5, bs + tail) == Some(tail)
    ensures |bs| < 8 ==> SkipField(1, bs).None?
    ensures |bs| < 4 ==> SkipField(5, bs).None?
    ensures wireType !in {0, 1, 2, 5} ==> SkipField(wireType, bs).None?
  {
    hide TakeDelimited;
    hide SplitVarint;
    assert (bs + tail)[|bs|..] == tail;
  }

  /** pb_skip_field, wire type by wire type: a varint, eight bytes, a counted string, four
      bytes, and nothing else. */
  lemma SkipExactly(wireType: nat, bs: bytes, tail: bytes)
    ensures CompleteVarint(bs) ==> SkipField(0, bs + tail) == Some(tail)
    ensures |bs| == 8 ==> SkipField(1, bs + tail) == Some(tail)
    ensures |bs| < 0x1_0000_0000 ==> SkipField(2, EncodeVarint(|bs|) + bs + tail) == Some(tail)
    ensures |bs| == 4 ==> SkipField(5, bs + tail) == Some(tail)
    ensures (forall i | 0 <= i < |bs| :: bs[i] >= 128) ==> SkipField(0, bs).None?
    ensures |bs| < 8 ==> SkipField(1, bs).None?
    ensures |bs| < 4 ==> SkipField(5, bs).None?
    ensures wireType !in {0, 1, 2, 5} ==> SkipField(wireType, bs).None?
  {
    hide SkipField;
    hide EncodeVarint;
    SkipVarints(bs, tail);
    SkipFixed(wireType, bs, tail);
    if |bs| < 0x1_0000_0000 {
      SkipCounted(bs, tail);
    }
  }

  /** A record with its contents complete and, when counted, of a readable length. */
  predicate WellFormedContent(c: Content) {
    match c
    case Number(_) => true
    case Eight(bs) => |bs| == 8
    case Counted(bs) => |bs| < 0x1_0000_0000
    case Four(bs) => |bs| == 4
  }

  lemma ContentSkipped(c: Content, tail: bytes)
    requires WellFormedContent(c)
    ensures SkipField(TypeNumber(c), ContentBytes(c) + tail) == Some(tail)
  {
    hide SkipField;
    hide EncodeVarint;
    match c {
      case Number(n) =>
        EncodingIsComplete(n);
        SkipExactly(0, EncodeVarint(n), tail);
      case Eight(bs) => SkipExactly(1, bs, tail);
      case Counted(bs) => SkipExactly(2, bs, tail);
      case Four(bs) => SkipExactly(5, bs, tail);
    }
  }

  /** A receiver that does not know the tag skips the record, whatever it contains. */
  lemma ForeignRecord(t: Table, tag: nat, c: Content, st: LoopState)
    requires 0 < tag <= MAX_TAG && WellFormedContent(c) && |st.slots| == SlotCount(t, |t|)
    requires forall i | 0 <= i < |t| :: t[i].tag != tag
    ensures Run(t, RecordBytes(tag, c), st) == Some(st)
  {
    hide SkipField;
    hide DecodeTag;
    hide ContentBytes;
    hide EncodeVarint;
    hide Run;
    hide WellFormedContent;
    TagExactly(8 * tag + TypeNumber(c), ContentBytes(c));
    assert ContentBytes(c) + [] == ContentBytes(c);
    ContentSkipped(c, []);
    RunUnknown(t, RecordBytes(tag, c), st);
  }

  lemma PackedRecord(tag: nat, payload: bytes)
    ensures EncodeTag(tag, WT_STRING) + Delimited(payload) == RecordBytes(tag, Counted(payload))
  {
  }

  // -------------------------------------------------------- what the decoder accepts

  /** pb_dec_bytes, pb_dec_string and pb_dec_fixed_length_bytes: bytes need one byte of
      storage for their size, strings one for the NUL, and fixed-length bytes come in full
      or not at all, which stands for zeros. */
  lemma BlobsExactly(f: Field, payload: bytes, tail: bytes, cur: Value)
    requires |payload| < 0x1_0000_0000 && f.dataSize <= 255
    requires f.ltype.LBytes? || f.ltype.LString? || f.ltype.LFixedLengthBytes?
    ensures var r := DecodeValue(f, EncodeVarint(|payload|) + payload + tail, cur);
            if f.ltype.LFixedLengthBytes? then
              if payload == [] then
                r.Ok? && r.rest == tail && r.value.Blob? && |r.value.bs| == f.dataSize
                && forall i | 0 <= i < f.dataSize :: r.value.bs[i] == 0
              else r == if |payload| == f.dataSize then Ok(Blob(payload), tail) else Fail
            else r == if |payload| + 1 <= f.dataSize then Ok(Blob(payload), tail) else Fail
  {
    hide TakeDelimited;
    DelimitedRoundTrip(payload, tail);
  }

  /** pb_dec_bool: any varint that the 32-bit reader takes, true unless it is zero. */
  lemma BoolsExactly(f: Field, g: bytes, tail: bytes)
    requires f.ltype.LBool? && CompleteVarint(g) && |g| <= 10
    ensures DecodeScalar(f, g + tail) ==
            if Accepted32(g) then Ok(if GroupsValue(g) % 0x1_0000_0000 == 0 then 0 else 1, tail) else Fail
  {
    hide DecodeVarint32;
    hide Accepted32;
    Varint32Exactly(g, tail);
  }

  /** pb_dec_uvarint: the low 64 bits must be a value of the member. */
  lemma UnsignedExactly(f: Field, g: bytes, tail: bytes)
    requires f.ltype.LUVarint? && f.dataSize in {1, 2, 4, 8} && CompleteVarint(g) && |g| <= 10
    ensures var v := GroupsValue(g) % 0x1_0000_0000_0000_0000;
            DecodeScalar(f, g + tail) == if FitsUnsigned(v, f.dataSize) then Ok(v, tail) else Fail
  {
    hide GroupsValue;
    hide DecodeVarint;
    VarintExactly(g, tail);
    CastsAreInverse(GroupsValue(g) % 0x1_0000_0000_0000_0000, f.dataSize);
  }

  /** pb_dec_svarint: the same for what zigzag makes of them. */
  lemma ZigZagExactly(f: Field, g: bytes, tail: bytes)
    requires f.ltype.LSVarint? && f.dataSize in {1, 2, 4, 8} && CompleteVarint(g) && |g| <= 10
    ensures var v := GroupsValue(g) % 0x1_0000_0000_0000_0000;
            var n := if v % 2 == 1 then -1 - v / 2 else v / 2;
            DecodeScalar(f, g + tail) == if FitsSigned(n, f.dataSize) then Ok(n, tail) else Fail
  {
    hide GroupsValue;
    hide DecodeVarint;
    VarintExactly(g, tail);
    var v := GroupsValue(g) % 0x1_0000_0000_0000_0000;
    hide UnZigZag;
    UnZigZagValue(v);
    CastsAreInverse(UnZigZag(v), f.dataSize);
  }

  /** pb_dec_varint: two's complement in 64 bits for a member of that size, and in the low 32
      bits for smaller ones, whatever the upper half holds. */
  lemma SignedExactly(f: Field, g: bytes, tail: bytes)
    requires f.ltype.LVarint? && f.dataSize in {1, 2, 4, 8} && CompleteVarint(g) && |g| <= 10
    ensures var v := GroupsValue(g) % 0x1_0000_0000_0000_0000;
            var w := v % 0x1_0000_0000;
            var n :=
              if f.dataSize == 8 then (if v >= 0x8000_0000_0000_0000 then v - 0x1_0000_0000_0000_0000 else v)
              else (if w >= 0x8000_0000 then w - 0x1_0000_0000 else w);
            DecodeScalar(f, g + tail) == if FitsSigned(n, f.dataSize) then Ok(n, tail) else Fail
  {
    hide GroupsValue;
    hide DecodeVarint;
    VarintExactly(g, tail);
    var v := GroupsValue(g) % 0x1_0000_0000_0000_0000;
    DivModUnique(v, 0x1_0000_0000_0000_0000, 0, v);
    CastsAreInverse(ToSigned(v, if f.dataSize == 8 then 8 else 4), f.dataSize);
  }

  /** Members of an invalid size are refused on both sides. */
  lemma InvalidSizes(f: Field, n: int, bs: bytes)
    requires f.ltype.LVarint? || f.ltype.LUVarint? || f.ltype.LSVarint?
    requires f.dataSize !in {1, 2, 4, 8}
    ensures EncodeScalar(f, n).None? && DecodeScalar(f, bs).Fail?
  {
  }

  /** Fixed members are read lowest byte first. */
  lemma FixedExactly(f: Field, n: nat, tail: bytes)
    ensures f.ltype.LFixed32? && n <= 0xFFFF_FFFF ==>
              var bs: bytes := [n % 256, n / 0x100 % 256, n / 0x1_0000 % 256, n / 0x100_0000 % 256];
              DecodeScalar(f, bs + tail) == Ok(n, tail)
    ensures f.ltype.LFixed64? && n <= 0xFFFF_FFFF_FFFF_FFFF ==>
              var bs: bytes :=
                [n % 256, n / 0x100 % 256, n / 0x1_0000 % 256, n / 0x100_0000 % 256,
                 n / 0x1_0000_0000 % 256, n / 0x100_0000_0000 % 256, n / 0x1_0000_0000_0000 % 256,
                 n / 0x100_0000_0000_0000 % 256];
              DecodeScalar(f, bs + tail) == Ok(n, tail)
  {
    hide DecodeScalar;
    hide EncodeScalar;
    Ranges(n);
    if f.ltype.LFixed32? && n <= 0xFFFF_FFFF {
      FixedIsDefined(f, n);
      ScalarForm(f, n);
      ScalarRoundTrip(f, n, tail);
    }
    if f.ltype.LFixed64? && n <= 0xFFFF_FFFF_FFFF_FFFF {
      FixedIsDefined(f, n);
      ScalarForm(f, n);
      ScalarRoundTrip(f, n, tail);
    }
  }

  lemma FixedIsDefined(f: Field, n: int)
    requires f.ltype.LFixed32? || f.ltype.LFixed64?
    ensures EncodeScalar(f, n).Some?
  {
  }
}
