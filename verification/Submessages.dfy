/** Nested messages: a record of a submessage is decoded into the struct that is there. */
module Submessages {
  import opened Wire
  import opened Bits
  import opened Varint
  import opened Descriptor
  import opened Message
  import opened Encoding
  import opened Decoding
  import opened Records
  import opened Packed
  import opened Merging
  import opened Safety
  import opened WireFormat

  /** The struct that the payload is decoded into: the one in the slot, except that array
      entries and newly selected union members start from defaults. */
  function MessageBase(f: Field, s: Slot): seq<Slot> {
    var defaults := if f.ptr.Submsg? then Defaults(f.ptr.fields) else [];
    match s
    case Single(v) => if v.Msg? then v.slots else []
    case Flagged(_, v) => if v.Msg? then v.slots else []
    case Items(_) => defaults
    case Union(which, v) => if which != f.tag then defaults else if v.Msg? then v.slots else []
  }

  /** The slot once the payload has become m. */
  function Received(f: Field, s: Slot, m: seq<Slot>): Slot {
    match s
    case Single(_) => Single(Msg(m))
    case Flagged(_, _) => Flagged(true, Msg(m))
    case Items(items) => Items(items + [Msg(m)])
    case Union(_, _) => Union(f.tag, Msg(m))
  }

  /** The state behind a record of entry i. */
  function Behind(t: Table, i: nat, st: LoopState, m: seq<Slot>): (r: LoopState)
    requires i < |t| && |st.slots| == SlotCount(t, |t|)
    ensures |r.slots| == |st.slots|
  {
    LoopState(WithSlot(t, st.slots, i, Received(t[i], SlotAt(t, st.slots, i), m)),
              if t[i].htype.HRequired? then st.seen + {i} else st.seen,
              st.fixedField)
  }

  ghost predicate SubmessageEntry(t: Table, i: nat, st: LoopState) {
    && WellFormed(t) && i < |t| && t[i].ltype.LSubmessage? && LoopWithin(t, st, false)
  }

  lemma MessageShape(f: Field, v: Value)
    requires WellFormedField(f) && f.ltype.LSubmessage? && ValueTyped(f, v)
    ensures f.ptr.Submsg? && v.Msg? && |v.slots| == SlotCount(f.ptr.fields, |f.ptr.fields|)
  {
  }

  lemma TypedBase(f: Field, s: Slot)
    requires WellFormedField(f) && f.ltype.LSubmessage? && PartWithin(f, s, false)
    ensures f.ptr.Submsg?
    ensures |MessageBase(f, s)| == SlotCount(f.ptr.fields, |f.ptr.fields|)
    ensures f.htype.HRepeated? <==> s.Items?
    ensures f.htype.HOneof? <==> s.Union?
    ensures f.htype.HOptional? && f.sizeOffset != 0 <==> s.Flagged?
    ensures s.Single? || s.Flagged? ==> ValueTyped(f, s.v) && s.v.Msg? && MessageBase(f, s) == s.v.slots
    ensures s.Union? && s.which == f.tag ==> s.v.Msg? && MessageBase(f, s) == s.v.slots
  {
    hide ValueTyped;
    if s.Single? || s.Flagged? || (s.Union? && s.which == f.tag) {
      MessageShape(f, s.v);
    }
  }

  lemma EntryShape(t: Table, i: nat, st: LoopState)
    requires SubmessageEntry(t, i, st)
    ensures |st.slots| == SlotCount(t, |t|) && t[i].ptr.Submsg? && 0 < t[i].tag <= MAX_TAG
    ensures PartWithin(t[i], SlotAt(t, st.slots, i), false)
    ensures |MessageBase(t[i], SlotAt(t, st.slots, i))| == SlotCount(t[i].ptr.fields, |t[i].ptr.fields|)
  {
    assert WellFormedField(t[i]);
    assert EntryWithin(t, st, i, SlotAt(t, st.slots, i), false);
    if SlotWithin(t[i], SlotAt(t, st.slots, i), false) {
      WholeIsPart(t[i], SlotAt(t, st.slots, i), false);
    }
    TypedBase(t[i], SlotAt(t, st.slots, i));
  }

  lemma PayloadDecoded(f: Field, payload: bytes, tail: bytes, cur: Value)
    requires f.ltype.LSubmessage? && f.ptr.Submsg? && |payload| < TWO_32
    requires var base := if f.htype.HRepeated? then DefaultValue(f) else cur;
             base.Msg? && |base.slots| == SlotCount(f.ptr.fields, |f.ptr.fields|)
    ensures var base := if f.htype.HRepeated? then DefaultValue(f) else cur;
            var r := DecodeMessage(f.ptr.fields, payload, base.slots);
            DecodeValue(f, Delimited(payload) + tail, cur) == if r.Ok? then Ok(Msg(r.value), tail) else Fail
  {
    hide TakeDelimited;
    hide Delimited;
    hide DecodeMessage;
    DelimitedRoundTrip(payload, tail);
  }

  lemma SlotDecoded(f: Field, wireType: nat, payload: bytes, tail: bytes, s: Slot)
    requires WellFormedField(f) && f.ltype.LSubmessage? && PartWithin(f, s, false) && |payload| < TWO_32
    ensures |MessageBase(f, s)| == SlotCount(f.ptr.fields, |f.ptr.fields|)
    ensures var r := DecodeMessage(f.ptr.fields, payload, MessageBase(f, s));
            DecodeSlot(f, wireType, Delimited(payload) + tail, s) ==
            if r.Fail? || (s.Items? && |s.items| >= f.arraySize) then Fail
            else Ok(Received(f, s, r.value), tail)
  {
    hide DecodeValue;
    hide Delimited;
    hide DecodeMessage;
    hide ValueTyped;
    hide Defaults;
    TypedBase(f, s);
    match s {
      case Single(v) => PayloadDecoded(f, payload, tail, v);
      case Flagged(_, v) => PayloadDecoded(f, payload, tail, v);
      case Items(_) => PayloadDecoded(f, payload, tail, DefaultValue(f));
      case Union(which, v) =>
        PayloadDecoded(f, payload, tail, if which != f.tag then DefaultValue(f) else v);
    }
  }

  /** One record of a required, optional or oneof submessage leaves in its slot what decoding
      the payload makes of the struct that was there, has_ set and the union selected; it
      fails exactly when that decoding fails. */
  lemma SubmessageRecord(t: Table, i: nat, wireType: nat, payload: bytes, tail: bytes, st: LoopState)
    requires SubmessageEntry(t, i, st) && !t[i].htype.HRepeated? && |payload| < 0x1_0000_0000
    ensures |st.slots| == SlotCount(t, |t|) && t[i].ptr.Submsg?
    ensures var s := SlotAt(t, st.slots, i);
            && |MessageBase(t[i], s)| == SlotCount(t[i].ptr.fields, |t[i].ptr.fields|)
            && var r := DecodeMessage(t[i].ptr.fields, payload, MessageBase(t[i], s));
               DecodeRecord(t, t[i].tag, wireType, EncodeVarint(|payload|) + payload + tail, st) ==
               if r.Ok? then Ok(Behind(t, i, st, r.value), tail) else Fail
  {
    hide DecodeSlot;
    hide DecodeMessage;
    hide MessageBase;
    hide Received;
    EntryShape(t, i, st);
    assert WellFormedField(t[i]);
    UniqueField(t, i);
    SlotDecoded(t[i], wireType, payload, tail, SlotAt(t, st.slots, i));
  }

  /** One record of a repeated submessage appends what decoding the payload makes of
      defaults. */
  lemma SubmessageItem(t: Table, i: nat, wireType: nat, payload: bytes, tail: bytes, st: LoopState)
    requires SubmessageEntry(t, i, st) && t[i].htype.HRepeated? && |payload| < 0x1_0000_0000
    ensures |st.slots| == SlotCount(t, |t|) && t[i].ptr.Submsg?
    ensures var r := DecodeMessage(t[i].ptr.fields, payload, Defaults(t[i].ptr.fields));
            DecodeRecord(t, t[i].tag, wireType, EncodeVarint(|payload|) + payload + tail, st) ==
            if Blocked(t, i, st) || r.Fail? || |Held(t, i, st)| >= t[i].arraySize then Fail
            else Ok(Holding(t, i, st, Held(t, i, st) + [Msg(r.value)]), tail)
  {
    hide DecodeSlot;
    hide DecodeMessage;
    EntryShape(t, i, st);
    assert WellFormedField(t[i]);
    UniqueField(t, i);
    EnteredWithin(t, i, st, false);
    SlotDecoded(t[i], wireType, payload, tail, SlotAt(t, Enter(t, i, st).slots, i));
  }

  // ------------------------------------------------------------------ two records

  lemma RecordSplit(tag: nat, payload: bytes, tail: bytes)
    ensures RecordBytes(tag, Counted(payload)) + tail
         == EncodeVarint(8 * tag + 2) + (EncodeVarint(|payload|) + payload + tail)
  {
    hide EncodeVarint;
    var a, b := EncodeVarint(8 * tag + 2), EncodeVarint(|payload|) + payload;
    assert a + b + tail == a + (b + tail);
  }

  lemma TagTurn(t: Table, v: nat, body: bytes, st: LoopState)
    requires |st.slots| == SlotCount(t, |t|) && 0 < v < 0x1_0000_0000
    ensures var r := DecodeRecord(t, v / 8, v % 8, body, st);
            DecodeLoop(t, EncodeVarint(v) + body, st) == if r.Ok? then DecodeLoop(t, r.rest, r.value) else Fail
  {
    hide DecodeRecord;
    hide DecodeTag;
    hide EncodeVarint;
    TagExactly(v, body);
  }

  lemma OneTurn(t: Table, i: nat, payload: bytes, tail: bytes, st: LoopState)
    requires i < |t| && |st.slots| == SlotCount(t, |t|) && 0 < t[i].tag <= MAX_TAG
    ensures var r := DecodeRecord(t, t[i].tag, 2, EncodeVarint(|payload|) + payload + tail, st);
            DecodeLoop(t, RecordBytes(t[i].tag, Counted(payload)) + tail, st) ==
            if r.Ok? then DecodeLoop(t, r.rest, r.value) else Fail
  {
    hide DecodeRecord;
    hide DecodeLoop;
    hide EncodeVarint;
    hide RecordBytes;
    RecordSplit(t[i].tag, payload, tail);
    TagTurn(t, 8 * t[i].tag + 2, EncodeVarint(|payload|) + payload + tail, st);
  }

  lemma ReceivedTwice(f: Field, s: Slot, m: seq<Slot>, m': seq<Slot>)
    requires !s.Items?
    ensures MessageBase(f, Received(f, s, m)) == m
    ensures Received(f, Received(f, s, m), m') == Received(f, s, m')
  {
  }

  lemma BehindTwice(t: Table, i: nat, st: LoopState, m: seq<Slot>, m': seq<Slot>)
    requires i < |t| && |st.slots| == SlotCount(t, |t|) && !SlotAt(t, st.slots, i).Items?
    ensures MessageBase(t[i], SlotAt(t, Behind(t, i, st, m).slots, i)) == m
    ensures Behind(t, i, Behind(t, i, st, m), m') == Behind(t, i, st, m')
  {
    hide SlotCount;
    ReceivedTwice(t[i], SlotAt(t, st.slots, i), m, m');
  }

  /** The main loop over one record. */
  lemma SubmessageTurn(t: Table, i: nat, payload: bytes, tail: bytes, st: LoopState)
    requires SubmessageEntry(t, i, st) && !t[i].htype.HRepeated? && |payload| < 0x1_0000_0000
    ensures |st.slots| == SlotCount(t, |t|) && t[i].ptr.Submsg? && !SlotAt(t, st.slots, i).Items?
    ensures var s := SlotAt(t, st.slots, i);
            && |MessageBase(t[i], s)| == SlotCount(t[i].ptr.fields, |t[i].ptr.fields|)
            && var r := DecodeMessage(t[i].ptr.fields, payload, MessageBase(t[i], s));
            && DecodeLoop(t, RecordBytes(t[i].tag, Counted(payload)) + tail, st) ==
               (if r.Ok? then DecodeLoop(t, tail, Behind(t, i, st, r.value)) else Fail)
            && (r.Ok? ==> SubmessageEntry(t, i, Behind(t, i, st, r.value)))
  {
    hide DecodeRecord;
    hide DecodeMessage;
    hide DecodeLoop;
    hide RecordBytes;
    hide EncodeVarint;
    hide MessageBase;
    hide Received;
    hide LoopWithin;
    EntryShape(t, i, st);
    SubmessageRecord(t, i, 2, payload, tail, st);
    OneTurn(t, i, payload, tail, st);
    var body := EncodeVarint(|payload|) + payload + tail;
    if DecodeRecord(t, t[i].tag, 2, body, st).Ok? {
      RecordWithin(t, t[i].tag, 2, body, st, false);
    }
  }

  /** Two records of a submessage, with payloads p and q, do what one record with p + q does:
      the nested message is merged, not replaced. The exception is that of all joined
      messages: a fixed-count array that p has filled may not go on in q, and then the one
      record is refused. */
  lemma SubmessageTwice(t: Table, i: nat, p: bytes, q: bytes, tail: bytes, st: LoopState)
    requires SubmessageEntry(t, i, st) && !t[i].htype.HRepeated? && |p| + |q| < 0x1_0000_0000
    requires t[i].ptr.Submsg? && |st.slots| == SlotCount(t, |t|) && !ZeroTagEnds(t[i].ptr.fields, p)
    requires var sub, s := t[i].ptr.fields, SlotAt(t, st.slots, i);
             && |MessageBase(t[i], s)| == SlotCount(sub, |sub|)
             && DecodeMessage(sub, p, MessageBase(t[i], s)).Ok?
             && DecodeMessage(sub, q, DecodeMessage(sub, p, MessageBase(t[i], s)).value).Ok?
    ensures var both := RecordBytes(t[i].tag, Counted(p)) + RecordBytes(t[i].tag, Counted(q));
            DecodeLoop(t, RecordBytes(t[i].tag, Counted(p + q)) + tail, st) ==
            if ArrayResumed(t[i].ptr.fields, p, q) then Fail else DecodeLoop(t, both + tail, st)
  {
    hide DecodeMessage;
    hide DecodeLoop;
    hide ArrayResumed;
    hide RecordBytes;
    hide MessageBase;
    hide Behind;
    hide LoopWithin;
    hide WellFormed;
    var f, sub := t[i], t[i].ptr.fields;
    var base := MessageBase(f, SlotAt(t, st.slots, i));
    var m := DecodeMessage(sub, p, base).value;
    MergeByConcatenation(sub, p, q, base);
    SubmessageTurn(t, i, p + q, tail, st);
    var first, second := RecordBytes(f.tag, Counted(p)), RecordBytes(f.tag, Counted(q));
    assert first + second + tail == first + (second + tail);
    SubmessageTurn(t, i, p, second + tail, st);
    SubmessageTurn(t, i, q, tail, Behind(t, i, st, m));
    BehindTwice(t, i, st, m, DecodeMessage(sub, q, m).value);
  }
}
