/** What pb_decode makes of a byte string: the meaning of the decoder, as functions from
    the bytes left to the new message and the bytes left unread. Recursion is bounded by
    the number of bytes alone, so the decoder ends on every input and every table. */
module Decoding {
  import opened Wire
  import opened Varint
  import opened Descriptor
  import opened Scalars
  import opened Message
  import opened Encoding

  datatype TagResult = TagError | TagEnd(rest: bytes) | Tag(tag: nat, wireType: nat, rest: bytes)

  /** pb_decode_tag: a zero ends the message. */
  function DecodeTag(bs: bytes): (r: TagResult)
    ensures r.Tag? ==> |r.rest| < |bs| && r.wireType < 8 && r.tag <= MAX_TAG && r.tag * 8 + r.wireType > 0
    ensures r.TagEnd? ==> |r.rest| < |bs|
  {
    match DecodeVarint32(bs)
    case Fail => TagError
    case Ok(v, rest) => if v == 0 then TagEnd(rest) else Tag(v / 8, v % 8, rest)
  }

  /** pb_make_string_substream and pb_close_string_substream: the payload and what
      follows it. */
  function TakeDelimited(bs: bytes): (r: Parse<bytes>)
    ensures r.Ok? ==> |r.value| < |bs| && |r.rest| < |bs|
  {
    var (size, rest) :- DecodeVarint32(bs);
    Take(rest, size)
  }

  /** pb_skip_field: the bytes behind the field. */
  function SkipField(wireType: nat, bs: bytes): (r: Option<bytes>)
    ensures r.Some? ==> |r.value| < |bs|
  {
    if wireType == WT_VARINT then RestOf(SplitVarint(bs))
    else if wireType == WT_64BIT then RestOf(Take(bs, 8))
    else if wireType == WT_STRING then RestOf(TakeDelimited(bs))
    else if wireType == WT_32BIT then RestOf(Take(bs, 4))
    else None
  }

  function RestOf<T>(p: Parse<T>): Option<bytes> {
    if p.Ok? then Some(p.rest) else None
  }

  /** A length-delimited value that is not a message. */
  function BlobFrom(f: Field, payload: bytes): Option<Value> {
    match f.ltype
    case LBytes =>
      if |payload| <= PB_SIZE_MAX && |payload| + BYTES_OFFSET <= f.dataSize then Some(Blob(payload)) else None
    case LString => if |payload| + 1 <= f.dataSize then Some(Blob(payload)) else None
    case LFixedLengthBytes =>
      if |payload| > PB_SIZE_MAX then None
      else if payload == [] then Some(Blob(Zeros(f.dataSize)))
      else if |payload| == f.dataSize then Some(Blob(payload)) else None
    case _ => None
  }

  function ItemFrom(p: Parse<int>): (r: Parse<Value>)
    ensures p.Fail? ==> r.Fail?
    ensures p.Ok? ==> r == Ok(Num(p.value), p.rest)
  {
    var (n, rest) :- p;
    Ok(Num(n), rest)
  }

  /** The type's decoder applied to a member that now holds `cur`. Submessages merge into
      what is there, array entries start from defaults. */
  function DecodeValue(f: Field, bs: bytes, cur: Value): (r: Parse<Value>)
    ensures r.Ok? ==> |r.rest| < |bs|
    decreases |bs|, 1
  {
    if f.ltype.Packable() then ItemFrom(DecodeScalar(f, bs))
    else
      var (payload, rest) :- TakeDelimited(bs);
      if !f.ltype.LSubmessage? then
        match BlobFrom(f, payload)
        case None => Fail
        case Some(v) => Ok(v, rest)
      else if !f.ptr.Submsg? then Fail
      else
        var base := if f.htype.HRepeated? then DefaultValue(f) else cur;
        if base.Msg? && |base.slots| == SlotCount(f.ptr.fields, |f.ptr.fields|) then
          var (m, _) :- DecodeMessage(f.ptr.fields, payload, base.slots);
          Ok(Msg(m), rest)
        else Fail
  }

  /** The packed-array loop: items until the payload is used up or the array is full;
      bytes left over are an overflow. */
  function DecodePacked(f: Field, payload: bytes, items: seq<Value>): (r: Option<seq<Value>>)
    decreases |payload|
  {
    if payload == [] then Some(items)
    else if |items| >= f.arraySize then None
    else
      match DecodeScalar(f, payload)
      case Fail => None
      case Ok(n, rest) => DecodePacked(f, rest, items + [Num(n)])
  }

  /** decode_static_field */
  function DecodeSlot(f: Field, wireType: nat, bs: bytes, s: Slot): (r: Parse<Slot>)
    ensures r.Ok? ==> |r.rest| < |bs|
    decreases |bs|, 2
  {
    match f.htype
    case HRequired =>
      if !s.Single? then Fail
      else
        var (v, rest) :- DecodeValue(f, bs, s.v);
        Ok(Single(v), rest)
    case HOptional =>
      if f.sizeOffset != 0 then
        if !s.Flagged? then Fail
        else
          var (v, rest) :- DecodeValue(f, bs, s.v);
          Ok(Flagged(true, v), rest)
      else if !s.Single? then Fail
      else
        var (v, rest) :- DecodeValue(f, bs, s.v);
        Ok(Single(v), rest)
    case HRepeated =>
      if !s.Items? then Fail
      else if wireType == WT_STRING && f.ltype.Packable() then
        var (payload, rest) :- TakeDelimited(bs);
        match DecodePacked(f, payload, s.items)
        case None => Fail
        case Some(items) => Ok(Items(items), rest)
      else if |s.items| >= f.arraySize then Fail
      else
        var (v, rest) :- DecodeValue(f, bs, DefaultValue(f));
        Ok(Items(s.items + [v]), rest)
    case HOneof =>
      if !s.Union? then Fail
      else
        var base := if f.ltype.LSubmessage? && s.which != f.tag then DefaultValue(f) else s.v;
        var (v, rest) :- DecodeValue(f, bs, base);
        Ok(Union(f.tag, v), rest)
  }

  /** The variables of the main loop: the struct, which required entries have been on the
      wire, and the fixed-count array being filled. */
  datatype LoopState = LoopState(slots: seq<Slot>, seen: set<nat>, fixedField: Option<nat>)

  function Start(slots: seq<Slot>): LoopState {
    LoopState(slots, {}, None)
  }

  /** No fixed-count array has been left half full. */
  predicate FixedDone(t: Table, st: LoopState)
    requires |st.slots| == SlotCount(t, |t|)
  {
    match st.fixedField
    case None => true
    case Some(i) =>
      i < |t| ==> var s := SlotAt(t, st.slots, i); s.Items? && |s.items| == t[i].arraySize
  }

  /** Bookkeeping before entry i is decoded. */
  function Enter(t: Table, i: nat, st: LoopState): (r: LoopState)
    requires i < |t| && |st.slots| == SlotCount(t, |t|)
    ensures |r.slots| == |st.slots|
  {
    var st1 := if t[i].htype.HRequired? then st.(seen := st.seen + {i}) else st;
    if t[i].FixedCount() && st.fixedField != Some(i)
    then st1.(fixedField := Some(i), slots := WithSlot(t, st1.slots, i, Items([])))
    else st1
  }

  /** One field after its tag. The terminator of an empty table answers to tag 0 and is
      decoded as a bool, into storage that belongs to no field. */
  function DecodeRecord(t: Table, tag: nat, wireType: nat, bs: bytes, st: LoopState): (r: Parse<LoopState>)
    requires |st.slots| == SlotCount(t, |t|)
    ensures r.Ok? ==> |r.rest| < |bs| && |r.value.slots| == SlotCount(t, |t|)
    decreases |bs|, 3
  {
    if t == [] && tag == 0 then
      var (_, rest) :- DecodeVarint32(bs);
      Ok(st, rest)
    else
      match FindField(t, tag)
      case None => (
        match SkipField(wireType, bs)
        case None => Fail
        case Some(rest) => Ok(st, rest)
      )
      case Some(i) =>
        if t[i].FixedCount() && st.fixedField != Some(i) && !FixedDone(t, st) then Fail
        else
          var st1 := Enter(t, i, st);
          var (s, rest) :- DecodeSlot(t[i], wireType, bs, SlotAt(t, st1.slots, i));
          Ok(st1.(slots := WithSlot(t, st1.slots, i, s)), rest)
  }

  /** The main loop of pb_decode_noinit. */
  function DecodeLoop(t: Table, bs: bytes, st: LoopState): (r: Parse<LoopState>)
    requires |st.slots| == SlotCount(t, |t|)
    ensures r.Ok? ==> |r.value.slots| == SlotCount(t, |t|) && |r.rest| <= |bs|
    decreases |bs|, 4
  {
    if bs == [] then Ok(st, [])
    else
      match DecodeTag(bs)
      case TagError => Fail
      case TagEnd(rest) => Ok(st, rest)
      case Tag(tag, wireType, rest) =>
        var (st', rest') :- DecodeRecord(t, tag, wireType, rest, st);
        DecodeLoop(t, rest', st')
  }

  /** Each of the first 64 required fields, from entry i on, has been on the wire. */
  function RequiredSeenFrom(t: Table, seen: set<nat>, i: nat): (r: bool)
    requires i <= |t|
    ensures r <==> forall k | i <= k < |t| && t[k].htype.HRequired? ::
                     RequiredIndex(t, k) < MAX_REQUIRED_FIELDS ==> k in seen
    decreases |t| - i
  {
    if i == |t| then true
    else
      (t[i].htype.HRequired? && RequiredIndex(t, i) < MAX_REQUIRED_FIELDS ==> i in seen)
      && RequiredSeenFrom(t, seen, i + 1)
  }

  /** pb_decode_noinit: merges the fields on the wire into the struct. */
  function DecodeMessage(t: Table, bs: bytes, slots: seq<Slot>): (r: Parse<seq<Slot>>)
    requires |slots| == SlotCount(t, |t|)
    ensures r.Ok? ==> |r.value| == SlotCount(t, |t|) && |r.rest| <= |bs|
    decreases |bs|, 5
  {
    var (st, rest) :- DecodeLoop(t, bs, Start(slots));
    if FixedDone(t, st) && RequiredSeenFrom(t, st.seen, 0) then Ok(st.slots, rest) else Fail
  }

  /** pb_decode */
  function Decode(t: Table, bs: bytes): Parse<seq<Slot>> {
    DecodeMessage(t, bs, Defaults(t))
  }
}
