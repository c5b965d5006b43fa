/** Length prefixes: what the decoder accepts has no nested message of 2^32 bytes or more. */
module Lengths {
  import opened Wire
  import opened Bits
  import opened Varint
  import opened Varint32
  import opened Descriptor
  import opened Scalars
  import opened Message
  import opened Encoding
  import opened Decoding
  import opened Records
  import opened Packed
  import opened RoundTrip
  import opened Omission

  /** A prefix of 32 bits or fewer is read back, a longer one is refused. */
  lemma DelimitedReadable(payload: bytes, tail: bytes)
    requires |payload| < TWO_63
    ensures TakeDelimited(Delimited(payload) + tail) == if |payload| < TWO_32 then Ok(payload, tail) else Fail
  {
    if |payload| < TWO_32 {
      DelimitedRoundTrip(payload, tail);
    } else {
      hide DecodeVarint32;
      assert Delimited(payload) + tail == EncodeVarint(|payload|) + (payload + tail);
      Varint32OfEncoding(|payload|, payload + tail);
    }
  }

  /** The loop goes through a record of entry i if it gets to its end. */
  lemma RecordPassed(t: Table, i: nat, wireType: nat, body: bytes, rest: bytes, st: LoopState) returns (st': LoopState)
    requires WellFormed(t) && i < |t| && |st.slots| == SlotCount(t, |t|) && wireType < 8
    requires DecodeLoop(t, EncodeTag(t[i].tag, wireType) + body + rest, st).Ok?
    ensures |st'.slots| == SlotCount(t, |t|)
    ensures DecodeRecord(t, t[i].tag, wireType, body + rest, st).Ok?
    ensures FindField(t, t[i].tag) == Some(i) && FieldEnd(t[i], wireType, body + rest).Some?
    ensures DecodeLoop(t, FieldEnd(t[i], wireType, body + rest).value, st').Ok?
  {
    hide DecodeRecord;
    hide DecodeTag;
    hide EncodeTag;
    hide FieldEnd;
    var bs := EncodeTag(t[i].tag, wireType) + body + rest;
    assert bs == EncodeTag(t[i].tag, wireType) + (body + rest);
    assert WellFormedField(t[i]);
    UniqueField(t, i);
    TagRoundTrip(t[i].tag, wireType, body + rest);
    RecordEndsThere(t, t[i].tag, wireType, body + rest, st);
    st' := DecodeRecord(t, t[i].tag, wireType, body + rest, st).value;
  }

  lemma {:induction false} ValuePassed(t: Table, i: nat, v: Value, rest: bytes, st: LoopState) returns (st': LoopState)
    requires WellFormed(t) && i < |t| && |st.slots| == SlotCount(t, |t|)
    requires ValueTyped(t[i], v) && EncodeTagged(t[i], v).Some? && ValueNestedBelow(t[i], v, TWO_63)
    requires DecodeLoop(t, EncodeTagged(t[i], v).value + rest, st).Ok?
    ensures |st'.slots| == SlotCount(t, |t|) && DecodeLoop(t, rest, st').Ok?
    ensures ValueNestedBelow(t[i], v, TWO_32)
    decreases t, 0
  {
    hide DecodeLoop;
    hide DecodeRecord;
    hide TakeDelimited;
    hide EncodeTag;
    hide Delimited;
    hide EncodeScalar;
    hide DecodeScalar;
    var f := t[i];
    assert WellFormedField(f);
    TaggedSplit(f, v);
    var body := EncodeValue(f, v).value;
    st' := RecordPassed(t, i, WireType(f.ltype), body, rest, st);
    if f.ltype.Packable() {
      ScalarRoundTrip(f, v.n, rest);
    } else if f.ltype.LSubmessage? {
      var payload := EncodeMessage(f.ptr.fields, v.slots).value;
      DelimitedReadable(payload, rest);
      var n, cur := RecordValue(t, f.tag, WireType(f.ltype), body + rest, st);
      SubmessagePassed(f, v, cur, rest);
    } else {
      DelimitedReadable(if f.ltype.LString? then StringBytes(f, v.bs) else v.bs, rest);
    }
  }

  lemma {:induction false} SubmessagePassed(f: Field, v: Value, cur: Value, rest: bytes)
    requires WellFormedField(f) && f.ltype.LSubmessage? && ValueTyped(f, v) && EncodeValue(f, v).Some?
    requires ValueNestedBelow(f, v, TWO_63) && |EncodeMessage(f.ptr.fields, v.slots).value| < TWO_32
    requires DecodeValue(f, EncodeValue(f, v).value + rest, cur).Ok?
    ensures ValueNestedBelow(f, v, TWO_32)
    decreases f, 0
  {
    hide DecodeLoop;
    hide TakeDelimited;
    hide Delimited;
    DelimitedReadable(EncodeMessage(f.ptr.fields, v.slots).value, rest);
    var inner := InnerLoop(f, EncodeValue(f, v).value + rest, cur);
    MessagePassed(f.ptr.fields, v.slots, inner);
  }

  lemma {:induction false} ItemsPassed(t: Table, i: nat, items: seq<Value>, n: nat, rest: bytes, st: LoopState)
    returns (st': LoopState)
    requires WellFormed(t) && i < |t| && |st.slots| == SlotCount(t, |t|) && n <= |items|
    requires forall k | 0 <= k < |items| :: ValueTyped(t[i], items[k]) && ValueNestedBelow(t[i], items[k], TWO_63)
    requires TaggedItems(t[i], items, n).Some?
    requires DecodeLoop(t, TaggedItems(t[i], items, n).value + rest, st).Ok?
    ensures |st'.slots| == SlotCount(t, |t|) && DecodeLoop(t, rest, st').Ok?
    ensures forall k | 0 <= k < n :: ValueNestedBelow(t[i], items[k], TWO_32)
    decreases t, 1, n
  {
    hide DecodeLoop;
    hide EncodeTagged;
    hide ValueTyped;
    hide ValueNestedBelow;
    if n == 0 {
      assert [] + rest == rest;
      st' := st;
    } else {
      var init, last := TaggedItems(t[i], items, n - 1).value, EncodeTagged(t[i], items[n - 1]).value;
      assert init + last + rest == init + (last + rest);
      var mid := ItemsPassed(t, i, items, n - 1, last + rest, st);
      st' := ValuePassed(t, i, items[n - 1], rest, mid);
    }
  }

  lemma PackedPassed(t: Table, i: nat, items: seq<Value>, rest: bytes, st: LoopState) returns (st': LoopState)
    requires WellFormed(t) && i < |t| && |st.slots| == SlotCount(t, |t|)
    requires t[i].htype.HRepeated? && t[i].ltype.Packable() && items != [] && EncodeItems(t[i], items).Some?
    requires DecodeLoop(t, EncodeItems(t[i], items).value + rest, st).Ok?
    ensures |st'.slots| == SlotCount(t, |t|) && DecodeLoop(t, rest, st').Ok?
  {
    hide DecodeLoop;
    hide DecodeRecord;
    hide TakeDelimited;
    hide EncodeTag;
    hide Delimited;
    hide PackedPayload;
    assert WellFormedField(t[i]);
    var payload := PackedPayload(t[i], items, |items|).value;
    PayloadBound(t[i], items, |items|);
    st' := RecordPassed(t, i, WT_STRING, Delimited(payload), rest, st);
    DelimitedReadable(payload, rest);
  }

  lemma {:induction false} EntryPassed(t: Table, i: nat, s: Slot, rest: bytes, st: LoopState) returns (st': LoopState)
    requires WellFormed(t) && i < |t| && |st.slots| == SlotCount(t, |t|)
    requires SlotTyped(t[i], s) && EncodeSlot(t[i], s).Some? && SlotNestedBelow(t[i], s, TWO_63)
    requires DecodeLoop(t, EncodeSlot(t[i], s).value + rest, st).Ok?
    ensures |st'.slots| == SlotCount(t, |t|) && DecodeLoop(t, rest, st').Ok?
    ensures SlotNestedBelow(t[i], s, TWO_32)
    decreases t, 2
  {
    hide DecodeLoop;
    hide EncodeTagged;
    hide ValueTyped;
    hide ValueNestedBelow;
    var f := t[i];
    st' := st;
    if EncodeSlot(f, s).value == [] {
      assert [] + rest == rest;
      if f.Singular() {
        assert WellFormedField(f);
        OmittedNested(f, s.v);
      }
    } else if !f.htype.HRepeated? {
      st' := ValuePassed(t, i, s.v, rest, st);
    } else if f.ltype.Packable() {
      st' := PackedPassed(t, i, s.items, rest, st);
      forall k | 0 <= k < |s.items|
        ensures ValueNestedBelow(f, s.items[k], TWO_32)
      {
        ScalarNested(f, s.items[k], TWO_32);
      }
    } else {
      st' := ItemsPassed(t, i, s.items, |s.items|, rest, st);
    }
  }

  lemma ScalarNested(f: Field, v: Value, limit: nat)
    requires !f.ltype.LSubmessage?
    ensures ValueNestedBelow(f, v, limit)
  {
  }

  /** An omitted message has nothing long inside. */
  lemma {:induction false} OmittedNested(f: Field, v: Value)
    requires WellFormedField(f) && ValueTyped(f, v) && IsZero(f, v)
    ensures ValueNestedBelow(f, v, TWO_32)
    decreases f
  {
    if f.ltype.LSubmessage? {
      var t, m := f.ptr.fields, v.slots;
      forall i {:trigger SlotAt(t, m, i)} | 0 <= i < |t|
        ensures SlotNestedBelow(t[i], SlotAt(t, m, i), TWO_32)
      {
        assert WellFormedField(t[i]) && SlotTyped(t[i], SlotAt(t, m, i)) && IsDefaultSlot(t[i], SlotAt(t, m, i));
        if t[i].Singular() {
          OmittedNested(t[i], SlotAt(t, m, i).v);
        }
      }
      OmissionIsSound(t, m);
    }
  }

  lemma EntryReady(t: Table, m: seq<Slot>, i: nat)
    requires Typed(t, m) && i < |t| && NestedBelow(t, m, TWO_63)
    ensures |m| == SlotCount(t, |t|)
    ensures SlotTyped(t[i], SlotAt(t, m, i)) && SlotNestedBelow(t[i], SlotAt(t, m, i), TWO_63)
  {
  }

  lemma {:induction false} PrefixPassed(t: Table, m: seq<Slot>, n: nat, rest: bytes, st: LoopState)
    returns (st': LoopState)
    requires WellFormed(t) && Typed(t, m) && n <= |t| && |st.slots| == SlotCount(t, |t|)
    requires EncodeUpTo(t, m, n).Some? && NestedBelow(t, m, TWO_63)
    requires DecodeLoop(t, EncodeUpTo(t, m, n).value + rest, st).Ok?
    ensures |st'.slots| == SlotCount(t, |t|) && DecodeLoop(t, rest, st').Ok?
    ensures forall i {:trigger SlotAt(t, m, i)} | 0 <= i < n :: SlotNestedBelow(t[i], SlotAt(t, m, i), TWO_32)
    decreases t, 3, n
  {
    hide DecodeLoop;
    hide EncodeSlot;
    hide SlotNestedBelow;
    hide NestedBelow;
    hide SlotTyped;
    hide Typed;
    hide WellFormed;
    if n == 0 {
      assert [] + rest == rest;
      st' := st;
    } else {
      ShapeOf(t, m);
      var init, last := EncodeUpTo(t, m, n - 1).value, EncodeSlot(t[n - 1], SlotAt(t, m, n - 1)).value;
      assert init + last + rest == init + (last + rest);
      var mid := PrefixPassed(t, m, n - 1, last + rest, st);
      EntryReady(t, m, n - 1);
      st' := EntryPassed(t, n - 1, SlotAt(t, m, n - 1), rest, mid);
    }
  }

  /** When the main loop succeeds on what pb_encode wrote, from whatever state, every nested
      message is shorter than 2^32 bytes. */
  lemma {:induction false} MessagePassed(t: Table, m: seq<Slot>, st: LoopState)
    requires WellFormed(t) && Typed(t, m) && |st.slots| == SlotCount(t, |t|)
    requires EncodeMessage(t, m).Some? && NestedBelow(t, m, TWO_63)
    requires DecodeLoop(t, EncodeMessage(t, m).value, st).Ok?
    ensures NestedBelow(t, m, TWO_32)
    decreases t, 4
  {
    hide DecodeLoop;
    assert EncodeMessage(t, m).value + [] == EncodeMessage(t, m).value;
    var end := PrefixPassed(t, m, |t|, [], st);
  }
}
