/** What a struct holds before anything has been received, and for fields that never are. */
module InitialValues {
  import opened Wire
  import opened Descriptor
  import opened Message
  import opened Encoding
  import opened Decoding
  import opened Records
  import opened WireFormat

  // --------------------------------------------------------------- initial values

  /** The default that the descriptor gives; without one 0, no bytes, or all zero bytes; a
      nested message in which everything is initial. */
  ghost predicate InitialValue(f: Field, v: Value)
    decreases f, 0
  {
    if f.ltype.LSubmessage? then
      v.Msg? && if f.ptr.Submsg? then InitialMessage(f.ptr.fields, v.slots) else v.slots == []
    else if f.ptr.Default? then v == f.ptr.value
    else if f.ltype.LFixedLengthBytes? then
      v.Blob? && |v.bs| == f.dataSize && forall i | 0 <= i < f.dataSize :: v.bs[i] == 0
    else if f.ltype.LBytes? || f.ltype.LString? then v.Blob? && |v.bs| == 0
    else v.Num? && v.n == 0
  }

  /** has_ is false, _count and which_ are 0. */
  ghost predicate InitialSlot(f: Field, s: Slot)
    decreases f, 1
  {
    match f.htype
    case HRequired => s.Single? && InitialValue(f, s.v)
    case HOptional =>
      if f.sizeOffset != 0 then s.Flagged? && !s.has && InitialValue(f, s.v) else s.Single? && InitialValue(f, s.v)
    case HRepeated => s.Items? && |s.items| == 0
    case HOneof => s.Union? && s.which == 0
  }

  ghost predicate InitialMessage(t: Table, m: seq<Slot>)
    decreases t
  {
    && |m| == SlotCount(t, |t|)
    && forall i {:trigger t[i]} | 0 <= i < |t| :: InitialSlot(t[i], SlotAt(t, m, i))
  }

  lemma {:induction false} DefaultValueIsInitial(f: Field)
    ensures InitialValue(f, DefaultValue(f))
    decreases f, 0
  {
    if f.ltype.LSubmessage? && f.ptr.Submsg? {
      DefaultsAreInitial(f.ptr.fields);
    }
  }

  /** pb_message_set_to_defaults: every part of the struct is initial, at any depth. */
  lemma {:induction false} DefaultsAreInitial(t: Table)
    ensures InitialMessage(t, Defaults(t))
    decreases t, 1
  {
    forall i {:trigger t[i]} | 0 <= i < |t|
      ensures InitialSlot(t[i], SlotAt(t, Defaults(t), i))
    {
      DefaultsAt(t, |t|, i);
      DefaultValueIsInitial(t[i]);
    }
  }

  // ------------------------------------------------- fields that are never received

  lemma RecordLeavesAlone(t: Table, i: nat, tag: nat, wireType: nat, bs: bytes, st: LoopState)
    requires i < |t| && |st.slots| == SlotCount(t, |t|) && DecodeRecord(t, tag, wireType, bs, st).Ok?
    requires forall k | 0 <= k < |t| && SlotOf(t, k) == SlotOf(t, i) :: t[k].tag != tag
    ensures SlotAt(t, DecodeRecord(t, tag, wireType, bs, st).value.slots, i) == SlotAt(t, st.slots, i)
  {
    hide DecodeSlot;
    var found := FindField(t, tag);
    if found.Some? {
      assert SlotOf(t, found.value) != SlotOf(t, i);
    }
  }

  /** None of the tags that write the slot of entry i is on the wire. */
  predicate Absent(t: Table, i: nat, bs: bytes)
    requires i < |t|
  {
    forall k | 0 <= k < |t| && SlotOf(t, k) == SlotOf(t, i) :: t[k].tag !in WireTags(t, bs)
  }

  lemma {:induction false} LoopLeavesAlone(t: Table, i: nat, bs: bytes, st: LoopState)
    requires i < |t| && |st.slots| == SlotCount(t, |t|) && DecodeLoop(t, bs, st).Ok? && Absent(t, i, bs)
    ensures SlotAt(t, DecodeLoop(t, bs, st).value.slots, i) == SlotAt(t, st.slots, i)
    decreases |bs|
  {
    hide DecodeRecord;
    hide RecordEnd;
    hide DecodeTag;
    hide SlotAt;
    hide SlotOf;
    if bs != [] && DecodeTag(bs).Tag? {
      var d := DecodeTag(bs);
      var r := DecodeRecord(t, d.tag, d.wireType, d.rest, st);
      RecordEndsThere(t, d.tag, d.wireType, d.rest, st);
      assert WireTags(t, bs) == [d.tag] + WireTags(t, r.rest);
      forall k | 0 <= k < |t| && SlotOf(t, k) == SlotOf(t, i)
        ensures t[k].tag != d.tag && t[k].tag !in WireTags(t, r.rest)
      {
        assert t[k].tag !in WireTags(t, bs);
      }
      RecordLeavesAlone(t, i, d.tag, d.wireType, d.rest, st);
      LoopLeavesAlone(t, i, r.rest, r.value);
    }
  }

  /** A field that is not on the wire keeps what it held before; after pb_decode that is its
      initial value. */
  lemma AbsentFieldsStay(t: Table, i: nat, bs: bytes, slots: seq<Slot>)
    requires i < |t| && |slots| == SlotCount(t, |t|) && Absent(t, i, bs)
    ensures DecodeMessage(t, bs, slots).Ok? ==>
              SlotAt(t, DecodeMessage(t, bs, slots).value, i) == SlotAt(t, slots, i)
    ensures Decode(t, bs).Ok? ==> InitialSlot(t[i], SlotAt(t, Decode(t, bs).value, i))
  {
    hide DecodeLoop;
    hide InitialSlot;
    if DecodeMessage(t, bs, slots).Ok? {
      LoopLeavesAlone(t, i, bs, Start(slots));
    }
    if Decode(t, bs).Ok? {
      LoopLeavesAlone(t, i, bs, Start(Defaults(t)));
      DefaultsAreInitial(t);
    }
  }

  // --------------------------------------------------------- initial values on the wire

  /** Nothing in the table is always written: no required field, no fixed-count array, and no
      proto3 field of fixed-length bytes, in nested proto3 messages neither. */
  ghost predicate NothingMandatory(t: Table)
    decreases t
  {
    forall i {:trigger t[i]} | 0 <= i < |t| :: NotMandatory(t[i])
  }

  ghost predicate NotMandatory(f: Field)
    decreases f
  {
    && !f.htype.HRequired?
    && (f.htype.HRepeated? ==> f.sizeOffset != 0)
    && (f.htype.HOptional? && f.sizeOffset == 0 ==>
          && (f.ltype.LFixedLengthBytes? ==> f.dataSize == 0)
          && (f.ltype.LSubmessage? && f.ptr.Submsg? ==> NothingMandatory(f.ptr.fields)))
  }

  lemma {:induction false} InitialIsBlank(f: Field, v: Value)
    requires WellFormedField(f) && f.Singular() && NotMandatory(f) && InitialValue(f, v)
    ensures Blank(f, v)
    decreases f, 0
  {
    if f.ltype.LSubmessage? {
      InitialMessageIsBlank(f.ptr.fields, v.slots);
    }
  }

  lemma {:induction false} InitialMessageIsBlank(t: Table, m: seq<Slot>)
    requires WellFormed(t) && NothingMandatory(t) && InitialMessage(t, m)
    ensures BlankMessage(t, m)
    decreases t, 1
  {
    forall i {:trigger t[i]} | 0 <= i < |t|
      ensures BlankSlot(t[i], SlotAt(t, m, i))
    {
      assert WellFormedField(t[i]) && NotMandatory(t[i]) && InitialSlot(t[i], SlotAt(t, m, i));
      if t[i].Singular() {
        InitialIsBlank(t[i], SlotAt(t, m, i).v);
      }
    }
  }

  lemma BlankSlotIsOmitted(f: Field, s: Slot)
    requires WellFormedField(f) && SlotTyped(f, s) && BlankSlot(f, s)
    ensures EncodeSlot(f, s) == Some([])
  {
    hide EncodeTagged;
    if s.Single? {
      BlankIsOmitted(f, s.v);
    }
  }

  lemma {:induction false} BlankPrefix(t: Table, m: seq<Slot>, n: nat)
    requires WellFormed(t) && Typed(t, m) && n <= |t| && BlankMessage(t, m)
    ensures EncodeUpTo(t, m, n) == Some([])
    decreases n
  {
    hide BlankSlot;
    hide SlotTyped;
    hide EncodeSlot;
    if n > 0 {
      BlankPrefix(t, m, n - 1);
      var f, s := t[n - 1], SlotAt(t, m, n - 1);
      assert WellFormedField(f) && SlotTyped(f, s) && BlankSlot(f, s);
      BlankSlotIsOmitted(f, s);
      var nothing: bytes := [];
      assert nothing + nothing == nothing;
    }
  }

  /** A struct as pb_message_set_to_defaults leaves it is encoded to no bytes at all, at any
      depth, unless something in the table is always written. */
  lemma InitialIsEmpty(t: Table, m: seq<Slot>)
    requires WellFormed(t) && Typed(t, m) && NothingMandatory(t) && InitialMessage(t, m)
    ensures EncodeMessage(t, m) == Some([])
  {
    InitialMessageIsBlank(t, m);
    BlankPrefix(t, m, |t|);
  }
}
