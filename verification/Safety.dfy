/** Whatever bytes arrive, a successful decode leaves every value within its C type, and
    within its storage if it was there before. */
module Safety {
  import opened Wire
  import opened Descriptor
  import opened Scalars
  import opened Message
  import opened Encoding
  import opened Decoding
  import opened RoundTrip

  // ------------------------------------------------------------ storage and types

  /** What lies within its storage has the right type. */
  lemma {:induction false} FitsIsTyped(t: Table, m: seq<Slot>)
    requires WellFormed(t) && Fits(t, m)
    ensures Typed(t, m)
    decreases t
  {
    forall i {:trigger t[i]} | 0 <= i < |t|
      ensures SlotTyped(t[i], SlotAt(t, m, i))
    {
      assert WellFormedField(t[i]) && FitsSlot(t[i], SlotAt(t, m, i));
      FittingSlotIsTyped(t[i], SlotAt(t, m, i));
    }
  }

  lemma {:induction false} FittingSlotIsTyped(f: Field, s: Slot)
    requires WellFormedField(f) && FitsSlot(f, s)
    ensures SlotTyped(f, s)
    decreases f, 1
  {
    match s {
      case Single(v) => FittingValueIsTyped(f, v);
      case Flagged(_, v) => FittingValueIsTyped(f, v);
      case Items(items) =>
        forall k | 0 <= k < |items|
          ensures ValueTyped(f, items[k])
        {
          FittingValueIsTyped(f, items[k]);
        }
      case Union(which, v) =>
        if which == f.tag {
          FittingValueIsTyped(f, v);
        }
    }
  }

  lemma {:induction false} FittingValueIsTyped(f: Field, v: Value)
    requires WellFormedField(f) && FitsValue(f, v)
    ensures ValueTyped(f, v)
    decreases f, 0
  {
    if f.ltype.LSubmessage? {
      FitsIsTyped(f.ptr.fields, v.slots);
    }
  }

  /** Within its storage, or, when not strict, within its C type. */
  ghost predicate ValueWithin(f: Field, v: Value, strict: bool) {
    if strict then FitsValue(f, v) else ValueTyped(f, v)
  }

  ghost predicate SlotWithin(f: Field, s: Slot, strict: bool) {
    if strict then FitsSlot(f, s) else SlotTyped(f, s)
  }

  ghost predicate Within(t: Table, m: seq<Slot>, strict: bool) {
    if strict then Fits(t, m) else Typed(t, m)
  }

  lemma FittingIsWithin(f: Field, v: Value, strict: bool)
    requires WellFormedField(f) && FitsValue(f, v)
    ensures ValueWithin(f, v, strict)
  {
    FittingValueIsTyped(f, v);
  }

  /** Defaults fit. */
  lemma {:induction false} DefaultsFit(t: Table)
    requires WellFormed(t)
    ensures Fits(t, Defaults(t))
    decreases t, 1
  {
    forall i {:trigger SlotAt(t, Defaults(t), i)} | 0 <= i < |t|
      ensures FitsSlot(t[i], SlotAt(t, Defaults(t), i)) && KnownSelector(t, i, SlotAt(t, Defaults(t), i))
    {
      DefaultsAt(t, |t|, i);
      assert WellFormedField(t[i]);
      DefaultValueFits(t[i]);
    }
  }

  lemma {:induction false} DefaultValueFits(f: Field)
    requires WellFormedField(f)
    ensures FitsValue(f, DefaultValue(f))
    decreases f, 0
  {
    if f.ltype.LSubmessage? {
      DefaultsFit(f.ptr.fields);
    }
  }

  lemma DefaultIsWithin(f: Field, strict: bool)
    requires WellFormedField(f)
    ensures ValueWithin(f, DefaultValue(f), strict)
  {
    DefaultValueFits(f);
    FittingIsWithin(f, DefaultValue(f), strict);
  }

  // ------------------------------------------------------------- the main loop

  ghost predicate ItemsWithin(f: Field, items: seq<Value>, strict: bool) {
    && |items| <= (if strict then f.arraySize else PB_SIZE_MAX)
    && forall k | 0 <= k < |items| :: ValueWithin(f, items[k], strict)
  }

  /** While a fixed-count array is being filled it may hold any number of items up to its
      size; everything else is as in a finished struct. */
  ghost predicate PartWithin(f: Field, s: Slot, strict: bool) {
    if f.htype.HRepeated? then s.Items? && ItemsWithin(f, s.items, strict) else SlotWithin(f, s, strict)
  }

  ghost predicate LoopWithin(t: Table, st: LoopState, strict: bool) {
    && |st.slots| == SlotCount(t, |t|)
    && forall i {:trigger SlotAt(t, st.slots, i)} | 0 <= i < |t| ::
         EntryWithin(t, st, i, SlotAt(t, st.slots, i), strict)
  }

  ghost predicate EntryWithin(t: Table, st: LoopState, i: nat, s: Slot, strict: bool)
    requires i < |t|
  {
    && (if t[i].FixedCount() && st.fixedField == Some(i) then PartWithin(t[i], s, strict)
        else SlotWithin(t[i], s, strict))
    && (strict ==> KnownSelector(t, i, s))
  }

  lemma WholeIsPart(f: Field, s: Slot, strict: bool)
    requires SlotWithin(f, s, strict)
    ensures PartWithin(f, s, strict)
  {
  }

  lemma {:induction false} PackedItemsWithin(f: Field, payload: bytes, items: seq<Value>, strict: bool)
    requires f.ltype.Packable() && f.arraySize <= PB_SIZE_MAX
    requires ItemsWithin(f, items, strict) && DecodePacked(f, payload, items).Some?
    ensures ItemsWithin(f, DecodePacked(f, payload, items).value, strict)
    decreases |payload|
  {
    hide DecodeScalar;
    hide ScalarTyped;
    if payload != [] {
      DecodedScalarFits(f, payload);
      var r := DecodeScalar(f, payload);
      PackedItemsWithin(f, r.rest, items + [Num(r.value)], strict);
    }
  }

  lemma {:induction false} ValueDecodeWithin(f: Field, bs: bytes, cur: Value, strict: bool)
    requires WellFormedField(f) && DecodeValue(f, bs, cur).Ok?
    requires f.ltype.LSubmessage? && !f.htype.HRepeated? ==> ValueWithin(f, cur, strict)
    ensures ValueWithin(f, DecodeValue(f, bs, cur).value, strict)
    decreases |bs|, 1
  {
    hide DecodeScalar;
    hide TakeDelimited;
    hide ScalarTyped;
    if f.ltype.Packable() {
      DecodedScalarFits(f, bs);
    } else if f.ltype.LSubmessage? {
      DefaultIsWithin(f, strict);
      var base := if f.htype.HRepeated? then DefaultValue(f) else cur;
      DecodeWithin(f.ptr.fields, TakeDelimited(bs).value, base.slots, strict);
    } else {
      FittingIsWithin(f, DecodeValue(f, bs, cur).value, strict);
    }
  }

  lemma {:induction false} SlotDecodeWithin(f: Field, wireType: nat, bs: bytes, s: Slot, strict: bool)
    requires WellFormedField(f) && PartWithin(f, s, strict) && DecodeSlot(f, wireType, bs, s).Ok?
    ensures PartWithin(f, DecodeSlot(f, wireType, bs, s).value, strict)
    decreases |bs|, 2
  {
    hide DecodeValue;
    hide DecodePacked;
    hide FitsValue;
    hide ValueTyped;
    match f.htype {
      case HRequired => ValueDecodeWithin(f, bs, s.v, strict);
      case HOptional => ValueDecodeWithin(f, bs, s.v, strict);
      case HRepeated =>
        if wireType == WT_STRING && f.ltype.Packable() {
          PackedItemsWithin(f, TakeDelimited(bs).value, s.items, strict);
        } else {
          ValueDecodeWithin(f, bs, DefaultValue(f), strict);
        }
      case HOneof =>
        DefaultIsWithin(f, strict);
        ValueDecodeWithin(f, bs, if f.ltype.LSubmessage? && s.which != f.tag then DefaultValue(f) else s.v, strict);
    }
  }

  /** Writing such a slot for entry n leaves every other entry as it should be. */
  lemma OthersWithin(t: Table, n: nat, s: Slot, st: LoopState, fixedField: Option<nat>, strict: bool)
    requires DistinctTags(t) && n < |t| && LoopWithin(t, st, strict)
    requires if t[n].FixedCount() then PartWithin(t[n], s, strict) else SlotWithin(t[n], s, strict)
    requires t[n].FixedCount() ==> fixedField == Some(n)
    requires !t[n].FixedCount() ==> fixedField == st.fixedField
    requires st.fixedField == fixedField || FixedDone(t, st)
    requires t[n].htype.HOneof? && s.Union? ==> s.which == t[n].tag
    ensures LoopWithin(t, st.(slots := WithSlot(t, st.slots, n, s), fixedField := fixedField), strict)
  {
    hide FitsValue;
    hide ValueTyped;
    var st' := st.(slots := WithSlot(t, st.slots, n, s), fixedField := fixedField);
    forall i {:trigger SlotAt(t, st'.slots, i)} | 0 <= i < |t|
      ensures EntryWithin(t, st', i, SlotAt(t, st'.slots, i), strict)
    {
      if i != n {
        assert EntryWithin(t, st, i, SlotAt(t, st.slots, i), strict);
        if !(t[i].htype.HOneof? && t[n].htype.HOneof?) {
          if i < n {
            SlotsApart(t, i, n);
          } else {
            SlotsApart(t, n, i);
          }
        } else {
          assert t[i].tag != t[n].tag;
        }
      }
    }
  }

  lemma {:induction false} RecordWithin(t: Table, tag: nat, wireType: nat, bs: bytes, st: LoopState, strict: bool)
    requires WellFormed(t) && LoopWithin(t, st, strict)
    requires DecodeRecord(t, tag, wireType, bs, st).Ok?
    ensures LoopWithin(t, DecodeRecord(t, tag, wireType, bs, st).value, strict)
    decreases |bs|, 3
  {
    hide DecodeSlot;
    hide SlotWithin;
    if !(t == [] && tag == 0) && FindField(t, tag).Some? {
      var n := FindField(t, tag).value;
      var st1 := Enter(t, n, st);
      assert WellFormedField(t[n]);
      EnteredWithin(t, n, st, strict);
      SlotDecodeWithin(t[n], wireType, bs, SlotAt(t, st1.slots, n), strict);
      var s := DecodeSlot(t[n], wireType, bs, SlotAt(t, st1.slots, n)).value;
      RecordSlotWithin(t[n], wireType, bs, SlotAt(t, st1.slots, n), strict);
      OthersWithin(t, n, s, st, if t[n].FixedCount() then Some(n) else st.fixedField, strict);
      assert WithSlot(t, st1.slots, n, s) == WithSlot(t, st.slots, n, s);
    }
  }

  /** The slot that a record is decoded into. */
  lemma EnteredWithin(t: Table, n: nat, st: LoopState, strict: bool)
    requires LoopWithin(t, st, strict) && n < |t|
    ensures PartWithin(t[n], SlotAt(t, Enter(t, n, st).slots, n), strict)
  {
    hide SlotWithin;
    var s := SlotAt(t, st.slots, n);
    assert EntryWithin(t, st, n, s, strict);
    if SlotWithin(t[n], s, strict) {
      WholeIsPart(t[n], s, strict);
    }
  }

  lemma RecordSlotWithin(f: Field, wireType: nat, bs: bytes, s: Slot, strict: bool)
    requires DecodeSlot(f, wireType, bs, s).Ok?
    requires PartWithin(f, DecodeSlot(f, wireType, bs, s).value, strict)
    ensures var r := DecodeSlot(f, wireType, bs, s).value;
            && (f.htype.HOneof? ==> r.Union? && r.which == f.tag)
            && (!f.FixedCount() ==> SlotWithin(f, r, strict))
  {
    hide DecodeValue;
    hide DecodePacked;
    hide FitsValue;
    hide ValueTyped;
  }

  lemma {:induction false} LoopDecodeWithin(t: Table, bs: bytes, st: LoopState, strict: bool)
    requires WellFormed(t) && |st.slots| == SlotCount(t, |t|)
    requires LoopWithin(t, st, strict) && DecodeLoop(t, bs, st).Ok?
    ensures LoopWithin(t, DecodeLoop(t, bs, st).value, strict)
    decreases |bs|, 4
  {
    hide DecodeRecord;
    hide DecodeTag;
    hide LoopWithin;
    if bs != [] {
      var d := DecodeTag(bs);
      if d.Tag? {
        RecordWithin(t, d.tag, d.wireType, d.rest, st, strict);
        var r := DecodeRecord(t, d.tag, d.wireType, d.rest, st);
        LoopDecodeWithin(t, r.rest, r.value, strict);
      }
    }
  }

  lemma StartWithin(t: Table, slots: seq<Slot>, strict: bool)
    requires Within(t, slots, strict)
    ensures |slots| == SlotCount(t, |t|) && LoopWithin(t, Start(slots), strict)
  {
    hide FitsSlot;
    hide SlotTyped;
  }

  lemma {:induction false} DecodeWithin(t: Table, bs: bytes, slots: seq<Slot>, strict: bool)
    requires WellFormed(t) && Within(t, slots, strict) && |slots| == SlotCount(t, |t|)
    requires DecodeMessage(t, bs, slots).Ok?
    ensures Within(t, DecodeMessage(t, bs, slots).value, strict)
    decreases |bs|, 5
  {
    hide DecodeLoop;
    StartWithin(t, slots, strict);
    LoopDecodeWithin(t, bs, Start(slots), strict);
    EndWithin(t, DecodeLoop(t, bs, Start(slots)).value, strict);
  }

  lemma EndWithin(t: Table, st: LoopState, strict: bool)
    requires LoopWithin(t, st, strict) && FixedDone(t, st)
    requires forall i | 0 <= i < |t| :: t[i].arraySize <= PB_SIZE_MAX
    ensures Within(t, st.slots, strict)
  {
    hide FitsValue;
    hide ValueTyped;
    forall i {:trigger SlotAt(t, st.slots, i)} | 0 <= i < |t|
      ensures SlotWithin(t[i], SlotAt(t, st.slots, i), strict)
      ensures strict ==> KnownSelector(t, i, SlotAt(t, st.slots, i))
    {
      assert EntryWithin(t, st, i, SlotAt(t, st.slots, i), strict);
    }
  }

  /** For every byte string: if decoding into a struct succeeds, every array count is at
      most array_size, every string has room for its terminator, every number is in the
      range of its member, every oneof selector names a member of its union or none, and
      every fixed-count array is complete or untouched, through all nested messages. */
  lemma DecodeFits(t: Table, bs: bytes, slots: seq<Slot>)
    requires WellFormed(t) && Fits(t, slots) && DecodeMessage(t, bs, slots).Ok?
    ensures Fits(t, DecodeMessage(t, bs, slots).value)
  {
    DecodeWithin(t, bs, slots, true);
  }

  /** Into a struct of the right type, with whatever unterminated strings and excessive
      counts, only values of the right type are written. */
  lemma DecodeTyped(t: Table, bs: bytes, slots: seq<Slot>)
    requires WellFormed(t) && Typed(t, slots) && DecodeMessage(t, bs, slots).Ok?
    ensures Typed(t, DecodeMessage(t, bs, slots).value)
  {
    DecodeWithin(t, bs, slots, false);
  }
}
