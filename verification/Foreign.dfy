/** Programs that share no field: what one writes, the other skips. */
module Foreign {
  import opened Wire
  import opened Bits
  import opened Descriptor
  import opened Scalars
  import opened Message
  import opened Encoding
  import opened Decoding
  import opened Records
  import opened Packed
  import opened RoundTrip
  import opened WireFormat

  /** No tag of t is known to the receiver. */
  ghost predicate Strangers(receiver: Table, t: Table) {
    forall i, k | 0 <= i < |receiver| && 0 <= k < |t| :: receiver[i].tag != t[k].tag
  }

  ghost predicate Ignores(receiver: Table, bs: bytes, st: LoopState) {
    |st.slots| == SlotCount(receiver, |receiver|) && Run(receiver, bs, st) == Some(st)
  }

  lemma IgnoresBoth(receiver: Table, a: bytes, b: bytes, st: LoopState)
    requires Ignores(receiver, a, st) && Ignores(receiver, b, st)
    ensures Ignores(receiver, a + b, st)
  {
    LoopAfterRun(receiver, a, b, st);
  }

  lemma IgnoresNothing(receiver: Table, st: LoopState)
    requires |st.slots| == SlotCount(receiver, |receiver|)
    ensures Ignores(receiver, [], st)
  {
  }

  lemma ForeignValue(receiver: Table, f: Field, v: Value, st: LoopState)
    requires |st.slots| == SlotCount(receiver, |receiver|) && forall i | 0 <= i < |receiver| :: receiver[i].tag != f.tag
    requires WellFormedField(f) && ValueTyped(f, v) && EncodeTagged(f, v).Some? && ValueNestedBelow(f, v, TWO_32)
    ensures Ignores(receiver, EncodeTagged(f, v).value, st)
  {
    hide EncodeScalar;
    ValueForm(f, v);
    TaggedSplit(f, v);
    if f.ltype.LSubmessage? {
      MessageForm(f.ptr.fields, v.slots);
    } else if f.ltype.LString? {
      CharactersAre(v.bs, f.dataSize);
    }
    assert WellFormedContent(ValueContent(f, v));
    ForeignRecord(receiver, f.tag, ValueContent(f, v), st);
  }

  lemma {:induction false} ForeignItems(receiver: Table, f: Field, items: seq<Value>, n: nat, st: LoopState)
    requires |st.slots| == SlotCount(receiver, |receiver|) && forall i | 0 <= i < |receiver| :: receiver[i].tag != f.tag
    requires WellFormedField(f) && n <= |items| && TaggedItems(f, items, n).Some?
    requires forall k | 0 <= k < |items| :: ValueTyped(f, items[k]) && ValueNestedBelow(f, items[k], TWO_32)
    ensures Ignores(receiver, TaggedItems(f, items, n).value, st)
    decreases n
  {
    hide EncodeTagged;
    hide Ignores;
    if n == 0 {
      IgnoresNothing(receiver, st);
    } else {
      ForeignItems(receiver, f, items, n - 1, st);
      ForeignValue(receiver, f, items[n - 1], st);
      IgnoresBoth(receiver, TaggedItems(f, items, n - 1).value, EncodeTagged(f, items[n - 1]).value, st);
    }
  }

  lemma ForeignArray(receiver: Table, f: Field, items: seq<Value>, st: LoopState)
    requires |st.slots| == SlotCount(receiver, |receiver|) && forall i | 0 <= i < |receiver| :: receiver[i].tag != f.tag
    requires WellFormedField(f) && EncodeItems(f, items).Some?
    requires forall k | 0 <= k < |items| :: ValueTyped(f, items[k]) && ValueNestedBelow(f, items[k], TWO_32)
    ensures Ignores(receiver, EncodeItems(f, items).value, st)
  {
    hide TaggedItems;
    hide PackedPayload;
    hide Ignores;
    hide RecordBytes;
    hide EncodeTag;
    hide Delimited;
    hide Run;
    hide ValueTyped;
    hide ValueNestedBelow;
    if items == [] {
      IgnoresNothing(receiver, st);
    } else if f.ltype.Packable() {
      var payload := PackedPayload(f, items, |items|).value;
      PayloadBound(f, items, |items|);
      ForeignRecord(receiver, f.tag, Counted(payload), st);
      PackedRecord(f.tag, payload);
      IgnoredRecord(receiver, f.tag, Counted(payload), st);
    } else {
      ForeignItems(receiver, f, items, |items|, st);
    }
  }

  lemma IgnoredRecord(receiver: Table, tag: nat, c: Content, st: LoopState)
    requires |st.slots| == SlotCount(receiver, |receiver|) && Run(receiver, RecordBytes(tag, c), st) == Some(st)
    ensures Ignores(receiver, RecordBytes(tag, c), st)
  {
  }

  lemma ForeignSlot(receiver: Table, f: Field, s: Slot, st: LoopState)
    requires |st.slots| == SlotCount(receiver, |receiver|) && forall i | 0 <= i < |receiver| :: receiver[i].tag != f.tag
    requires WellFormedField(f) && SlotTyped(f, s) && EncodeSlot(f, s).Some? && SlotNestedBelow(f, s, TWO_32)
    ensures Ignores(receiver, EncodeSlot(f, s).value, st)
  {
    hide EncodeTagged;
    hide EncodeItems;
    hide Ignores;
    hide WellFormedField;
    if EncodeSlot(f, s).value == [] {
      IgnoresNothing(receiver, st);
    } else {
      match s {
        case Single(v) => ForeignValue(receiver, f, v, st);
        case Flagged(_, v) => ForeignValue(receiver, f, v, st);
        case Items(items) => ForeignArray(receiver, f, items, st);
        case Union(_, v) => ForeignValue(receiver, f, v, st);
      }
    }
  }

  lemma {:induction false} ForeignPrefix(receiver: Table, t: Table, m: seq<Slot>, n: nat, st: LoopState)
    requires |st.slots| == SlotCount(receiver, |receiver|) && Strangers(receiver, t)
    requires WellFormed(t) && Typed(t, m) && n <= |t| && EncodeUpTo(t, m, n).Some? && NestedBelow(t, m, TWO_32)
    ensures Ignores(receiver, EncodeUpTo(t, m, n).value, st)
    decreases n
  {
    hide EncodeSlot;
    hide Ignores;
    hide SlotTyped;
    hide SlotNestedBelow;
    hide WellFormedField;
    if n == 0 {
      IgnoresNothing(receiver, st);
    } else {
      ForeignPrefix(receiver, t, m, n - 1, st);
      assert WellFormedField(t[n - 1]) && SlotTyped(t[n - 1], SlotAt(t, m, n - 1));
      ForeignSlot(receiver, t[n - 1], SlotAt(t, m, n - 1), st);
      IgnoresBoth(receiver, EncodeUpTo(t, m, n - 1).value, EncodeSlot(t[n - 1], SlotAt(t, m, n - 1)).value, st);
    }
  }

  /** A receiver that shares no tag with t makes of everything that pb_encode writes for t
      what it makes of no bytes at all, and leaves nothing unread. */
  lemma ForeignMessage(receiver: Table, t: Table, m: seq<Slot>, slots: seq<Slot>)
    requires |slots| == SlotCount(receiver, |receiver|) && Strangers(receiver, t)
    requires WellFormed(t) && Typed(t, m) && EncodeMessage(t, m).Some? && NestedBelow(t, m, TWO_32)
    ensures DecodeMessage(receiver, EncodeMessage(t, m).value, slots) == DecodeMessage(receiver, [], slots)
  {
    ForeignPrefix(receiver, t, m, |t|, Start(slots));
    LoopOfRun(receiver, EncodeMessage(t, m).value, Start(slots));
  }
}
