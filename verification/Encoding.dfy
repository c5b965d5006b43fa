/** What pb_encode writes for a message: the wire meaning of the encoder, as a function.
    None stands for a failing call. */
module Encoding {
  import opened Wire
  import opened Varint
  import opened Descriptor
  import opened Scalars
  import opened Message

  const WT_VARINT: nat := 0
  const WT_64BIT: nat := 1
  const WT_STRING: nat := 2
  const WT_32BIT: nat := 5

  function WireType(l: LType): (w: nat)
    ensures w < 8
  {
    match l
    case LFixed32 => WT_32BIT
    case LFixed64 => WT_64BIT
    case LBool | LVarint | LUVarint | LSVarint => WT_VARINT
    case LBytes | LString | LSubmessage | LExtension | LFixedLengthBytes => WT_STRING
  }

  /** pb_encode_tag */
  function EncodeTag(tag: nat, wireType: nat): (r: bytes)
    requires wireType < 8
    ensures |r| > 0
  {
    EncodeVarint(tag * 8 + wireType)
  }

  /** pb_encode_string */
  function Delimited(payload: bytes): (r: bytes)
    ensures |r| > |payload|
  {
    EncodeVarint(|payload|) + payload
  }

  /** The bytes pb_enc_string finds in a buffer of data_size bytes. */
  function StringBytes(f: Field, bs: bytes): (r: bytes)
    ensures |r| <= f.dataSize
  {
    var s := UpToNul(bs);
    if |s| > f.dataSize then s[..f.dataSize] else s
  }

  /** One value without its tag. */
  function EncodeValue(f: Field, v: Value): (r: Option<bytes>)
    ensures r.Some? ==> |r.value| > 0
    decreases f, 0
  {
    if f.ltype.Packable() then
      if v.Num? then EncodeScalar(f, v.n) else None
    else if f.ltype.LSubmessage? then
      if f.ptr.Submsg? && v.Msg? && |v.slots| == SlotCount(f.ptr.fields, |f.ptr.fields|) then
        var payload :- EncodeMessage(f.ptr.fields, v.slots);
        Some(Delimited(payload))
      else None
    else if v.Blob? then
      match f.ltype
      case LBytes => if |v.bs| + BYTES_OFFSET > f.dataSize then None else Some(Delimited(v.bs))
      case LString => Some(Delimited(StringBytes(f, v.bs)))
      case LFixedLengthBytes => if |v.bs| == f.dataSize then Some(Delimited(v.bs)) else None
      case _ => None
    else None
  }

  function EncodeTagged(f: Field, v: Value): (r: Option<bytes>)
    ensures r.Some? ==> |r.value| > 0
    decreases f, 1
  {
    var e :- EncodeValue(f, v);
    Some(EncodeTag(f.tag, WireType(f.ltype)) + e)
  }

  /** The first n items of a packed array, one after the other. */
  function PackedPayload(f: Field, items: seq<Value>, n: nat): (r: Option<bytes>)
    requires n <= |items|
    ensures r.Some? ==> |r.value| >= n
    decreases n
  {
    if n == 0 then Some([])
    else
      var init :- PackedPayload(f, items, n - 1);
      if !items[n - 1].Num? then None
      else
        var last :- EncodeScalar(f, items[n - 1].n);
        Some(init + last)
  }

  /** The first n items of an array that cannot be packed, each with its own tag. */
  function TaggedItems(f: Field, items: seq<Value>, n: nat): (r: Option<bytes>)
    requires n <= |items|
    ensures r.Some? ==> |r.value| >= n
    decreases f, 2, n
  {
    if n == 0 then Some([])
    else
      var init :- TaggedItems(f, items, n - 1);
      var last :- EncodeTagged(f, items[n - 1]);
      Some(init + last)
  }

  /** encode_array */
  function EncodeItems(f: Field, items: seq<Value>): (r: Option<bytes>)
    ensures r.Some? && items != [] ==> |r.value| > 0
    decreases f, 3
  {
    if items == [] then Some([])
    else if |items| > f.arraySize then None
    else if f.ltype.Packable() then
      var payload :- PackedPayload(f, items, |items|);
      Some(EncodeTag(f.tag, WT_STRING) + Delimited(payload))
    else TaggedItems(f, items, |items|)
  }

  /** encode_basic_field. A fixed-count array that holds no items yet has no contents to
      write. */
  function EncodeSlot(f: Field, s: Slot): (r: Option<bytes>)
    decreases f, 4
  {
    match f.htype
    case HRequired => if s.Single? then EncodeTagged(f, s.v) else None
    case HOptional =>
      if f.sizeOffset != 0 then
        if !s.Flagged? then None else if s.has then EncodeTagged(f, s.v) else Some([])
      else
        if !s.Single? then None else if IsDefaultSlot(f, s) then Some([]) else EncodeTagged(f, s.v)
    case HRepeated =>
      if !s.Items? || (f.sizeOffset == 0 && |s.items| != f.arraySize) then None else EncodeItems(f, s.items)
    case HOneof =>
      if !s.Union? then None else if s.which == f.tag then EncodeTagged(f, s.v) else Some([])
  }

  /** The first n fields of the message. */
  function EncodeUpTo(t: Table, m: seq<Slot>, n: nat): Option<bytes>
    requires n <= |t| && |m| == SlotCount(t, |t|)
    decreases t, n
  {
    if n == 0 then Some([])
    else
      var init :- EncodeUpTo(t, m, n - 1);
      var last :- EncodeSlot(t[n - 1], SlotAt(t, m, n - 1));
      Some(init + last)
  }

  /** pb_encode */
  function EncodeMessage(t: Table, m: seq<Slot>): Option<bytes>
    requires |m| == SlotCount(t, |t|)
    decreases t, |t| + 1
  {
    EncodeUpTo(t, m, |t|)
  }

  // ---------------------------------------------------------- nested sizes

  /** Every nested message that is present encodes to fewer than `limit` bytes. */
  ghost predicate NestedBelow(t: Table, m: seq<Slot>, limit: nat)
    requires |m| == SlotCount(t, |t|)
    decreases t
  {
    forall i {:trigger SlotAt(t, m, i)} | 0 <= i < |t| :: SlotNestedBelow(t[i], SlotAt(t, m, i), limit)
  }

  ghost predicate SlotNestedBelow(f: Field, s: Slot, limit: nat)
    decreases f, 1
  {
    match s
    case Single(v) => ValueNestedBelow(f, v, limit)
    case Flagged(has, v) => has ==> ValueNestedBelow(f, v, limit)
    case Items(items) => forall k | 0 <= k < |items| :: ValueNestedBelow(f, items[k], limit)
    case Union(which, v) => which == f.tag ==> ValueNestedBelow(f, v, limit)
  }

  ghost predicate ValueNestedBelow(f: Field, v: Value, limit: nat)
    decreases f, 0
  {
    f.ltype.LSubmessage? && f.ptr.Submsg? && v.Msg? && |v.slots| == SlotCount(f.ptr.fields, |f.ptr.fields|) ==>
      && NestedBelow(f.ptr.fields, v.slots, limit)
      && (EncodeMessage(f.ptr.fields, v.slots).Some? ==> |EncodeMessage(f.ptr.fields, v.slots).value| < limit)
  }

  // --------------------------------------------- pb_check_proto3_default_value

  predicate IsDefaultSlot(f: Field, s: Slot)
    decreases f, 1
  {
    match f.htype
    case HRequired => false
    case HRepeated => f.sizeOffset != 0 && s.Items? && s.items == []
    case HOneof => s.Union? && s.which == 0
    case HOptional => if f.sizeOffset != 0 then s.Flagged? && !s.has else s.Single? && IsZero(f, s.v)
  }

  /** The encoder writes nothing for this slot. */
  predicate WritesNothing(f: Field, s: Slot) {
    match f.htype
    case HRequired => false
    case HOptional => IsDefaultSlot(f, s)
    case HRepeated => s.Items? && s.items == [] && (f.sizeOffset != 0 || f.arraySize == 0)
    case HOneof => s.Union? && s.which != f.tag
  }

  predicate IsZero(f: Field, v: Value)
    decreases f, 0
  {
    match f.ltype
    case LBytes => v.Blob? && |v.bs| == 0
    case LString => v.Blob? && UpToNul(v.bs) == []
    case LFixedLengthBytes => f.dataSize == 0
    case LSubmessage =>
      && f.ptr.Submsg? && v.Msg? && |v.slots| == SlotCount(f.ptr.fields, |f.ptr.fields|)
      && IsDefaultMessage(f.ptr.fields, v.slots)
    case LBool | LVarint | LUVarint | LSVarint | LFixed32 | LFixed64 => v.Num? && v.n == 0
    case LExtension => v.Num? && v.n == 0
  }

  /** Every field of the message passes the check. */
  predicate IsDefaultMessage(t: Table, m: seq<Slot>)
    requires |m| == SlotCount(t, |t|)
    decreases t
  {
    forall i {:trigger t[i]} | 0 <= i < |t| :: IsDefaultSlot(t[i], SlotAt(t, m, i))
  }
}
