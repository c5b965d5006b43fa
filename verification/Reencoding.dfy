/** Writing again what was read: from any bytes, however unusual their encoding. */
module Reencoding {
  import opened Wire
  import opened Bits
  import opened Descriptor
  import opened Scalars
  import opened Message
  import opened Encoding
  import opened Decoding
  import opened RoundTrip
  import opened Safety
  import opened Exactness
  import opened Omission
  import opened Sizes

  /** Integer members have 1, 2, 4 or 8 bytes. */
  ghost predicate ValidSizes(t: Table)
    decreases t
  {
    forall i {:trigger t[i]} | 0 <= i < |t| :: ValidEntry(t[i])
  }

  ghost predicate ValidEntry(f: Field)
    decreases f
  {
    && (f.ltype.LVarint? || f.ltype.LUVarint? || f.ltype.LSVarint? ==> IntSize(f.dataSize))
    && (f.ltype.LSubmessage? && f.ptr.Submsg? ==> ValidSizes(f.ptr.fields))
  }

  /** Every fixed-count array, in every part that is present, has been received. */
  ghost predicate ArraysFilled(t: Table, m: seq<Slot>)
    requires |m| == SlotCount(t, |t|)
    decreases t
  {
    forall i {:trigger SlotAt(t, m, i)} | 0 <= i < |t| :: SlotFilled(t[i], SlotAt(t, m, i))
  }

  ghost predicate SlotFilled(f: Field, s: Slot)
    decreases f, 1
  {
    match s
    case Single(v) => ValueFilled(f, v)
    case Flagged(has, v) => has ==> ValueFilled(f, v)
    case Items(items) =>
      (f.FixedCount() ==> |items| == f.arraySize) && forall k | 0 <= k < |items| :: ValueFilled(f, items[k])
    case Union(which, v) => which == f.tag ==> ValueFilled(f, v)
  }

  ghost predicate ValueFilled(f: Field, v: Value)
    decreases f, 0
  {
    f.ltype.LSubmessage? && f.ptr.Submsg? && v.Msg? && |v.slots| == SlotCount(f.ptr.fields, |f.ptr.fields|) ==>
      ArraysFilled(f.ptr.fields, v.slots)
  }

  // ----------------------------------------------------------------- definedness

  /** An omitted message has no fixed-count arrays. */
  lemma {:induction false} ZeroIsFilled(f: Field, v: Value)
    requires WellFormedField(f) && FitsValue(f, v) && IsZero(f, v)
    ensures ValueFilled(f, v)
    decreases f
  {
    if f.ltype.LSubmessage? {
      var t, m := f.ptr.fields, v.slots;
      forall i {:trigger SlotAt(t, m, i)} | 0 <= i < |t|
        ensures SlotFilled(t[i], SlotAt(t, m, i))
      {
        assert WellFormedField(t[i]) && FitsSlot(t[i], SlotAt(t, m, i)) && IsDefaultSlot(t[i], SlotAt(t, m, i));
        if t[i].Singular() {
          ZeroIsFilled(t[i], SlotAt(t, m, i).v);
        }
      }
    }
  }

  lemma {:induction false} ValueDefined(f: Field, v: Value)
    requires WellFormedField(f) && ValidEntry(f) && FitsValue(f, v)
    ensures EncodeTagged(f, v).Some? <==> ValueFilled(f, v)
    decreases f, 0
  {
    if f.ltype.LSubmessage? {
      MessageDefined(f.ptr.fields, v.slots);
    }
  }

  lemma {:induction false} ItemsDefined(f: Field, items: seq<Value>, n: nat)
    requires WellFormedField(f) && ValidEntry(f) && n <= |items|
    requires forall k | 0 <= k < |items| :: FitsValue(f, items[k])
    ensures TaggedItems(f, items, n).Some? <==> forall k | 0 <= k < n :: ValueFilled(f, items[k])
    decreases f, 1, n
  {
    hide EncodeTagged;
    hide ValueFilled;
    if n > 0 {
      ItemsDefined(f, items, n - 1);
      ValueDefined(f, items[n - 1]);
    }
  }

  lemma {:induction false} PayloadDefined(f: Field, items: seq<Value>, n: nat)
    requires ValidEntry(f) && f.ltype.Packable() && n <= |items|
    requires forall k | 0 <= k < |items| :: FitsValue(f, items[k])
    ensures PackedPayload(f, items, n).Some?
  {
    if n > 0 {
      PayloadDefined(f, items, n - 1);
      assert FitsValue(f, items[n - 1]);
    }
  }

  lemma {:induction false} SlotDefined(f: Field, s: Slot)
    requires WellFormedField(f) && ValidEntry(f) && FitsSlot(f, s)
    ensures EncodeSlot(f, s).Some? <==> SlotFilled(f, s)
    decreases f, 2
  {
    hide EncodeTagged;
    hide FitsValue;
    hide ValidEntry;
    hide WellFormedField;
    match s {
      case Single(v) =>
        ValueDefined(f, v);
        if f.htype.HOptional? && IsZero(f, v) {
          ZeroIsFilled(f, v);
        }
      case Flagged(has, v) => ValueDefined(f, v);
      case Items(items) => ArrayDefined(f, items);
      case Union(which, v) =>
        if which == f.tag {
          ValueDefined(f, v);
        }
    }
  }

  lemma {:induction false} ArrayDefined(f: Field, items: seq<Value>)
    requires WellFormedField(f) && ValidEntry(f) && f.htype.HRepeated? && FitsSlot(f, Items(items))
    ensures EncodeSlot(f, Items(items)).Some? <==> SlotFilled(f, Items(items))
    decreases f, 1, |items| + 1
  {
    hide TaggedItems;
    hide PackedPayload;
    if f.ltype.Packable() {
      PayloadDefined(f, items, |items|);
    } else {
      ItemsDefined(f, items, |items|);
    }
  }

  lemma {:induction false} PrefixDefined(t: Table, m: seq<Slot>, n: nat)
    requires WellFormed(t) && ValidSizes(t) && Fits(t, m) && n <= |t|
    ensures EncodeUpTo(t, m, n).Some? <==>
            forall i {:trigger SlotAt(t, m, i)} | 0 <= i < n :: SlotFilled(t[i], SlotAt(t, m, i))
    decreases t, n
  {
    hide EncodeSlot;
    hide SlotFilled;
    hide FitsSlot;
    if n > 0 {
      PrefixDefined(t, m, n - 1);
      assert WellFormedField(t[n - 1]) && ValidEntry(t[n - 1]) && FitsSlot(t[n - 1], SlotAt(t, m, n - 1));
      SlotDefined(t[n - 1], SlotAt(t, m, n - 1));
    }
  }

  lemma {:induction false} MessageDefined(t: Table, m: seq<Slot>)
    requires WellFormed(t) && ValidSizes(t) && Fits(t, m)
    ensures EncodeMessage(t, m).Some? <==> ArraysFilled(t, m)
    decreases t, |t| + 1
  {
    PrefixDefined(t, m, |t|);
  }

  // ------------------------------------------------------------------ reflexivity

  lemma {:induction false} SameAsItself(t: Table, m: seq<Slot>)
    requires Typed(t, m)
    ensures SameMessage(t, m, m)
    decreases t
  {
    forall i {:trigger t[i]} | 0 <= i < |t|
      ensures SameSlot(t[i], SlotAt(t, m, i), SlotAt(t, m, i))
    {
      assert SlotTyped(t[i], SlotAt(t, m, i));
      SameSlotAsItself(t[i], SlotAt(t, m, i));
    }
  }

  lemma {:induction false} SameSlotAsItself(f: Field, s: Slot)
    requires SlotTyped(f, s)
    ensures SameSlot(f, s, s)
    decreases f, 1
  {
    match s {
      case Single(v) => SameValueAsItself(f, v);
      case Flagged(_, v) => SameValueAsItself(f, v);
      case Items(items) =>
        forall k | 0 <= k < |items|
          ensures SameValue(f, items[k], items[k])
        {
          SameValueAsItself(f, items[k]);
        }
      case Union(which, v) =>
        if which == f.tag {
          SameValueAsItself(f, v);
        }
    }
  }

  lemma {:induction false} SameValueAsItself(f: Field, v: Value)
    requires ValueTyped(f, v)
    ensures SameValue(f, v, v)
    decreases f, 0
  {
    if f.ltype.LSubmessage? {
      SameAsItself(f.ptr.fields, v.slots);
    }
  }

  // -------------------------------------------------------------------- re-encoding

  /** For every byte string that decodes, in whatever order, with unknown fields, unpacked
      arrays, repeated or padded fields: the result can be encoded exactly when its
      fixed-count arrays have been received, and the bytes written then decode to the same
      message and are written again unchanged. */
  lemma DecodedReencodes(t: Table, bs: bytes)
    requires WellFormed(t) && ValidSizes(t) && Decode(t, bs).Ok?
    ensures var m := Decode(t, bs).value;
            && |m| == SlotCount(t, |t|) && (EncodeMessage(t, m).Some? <==> ArraysFilled(t, m))
            && (ArraysFilled(t, m) && NestedBelow(t, m, TWO_32) ==>
                  var r := Decode(t, EncodeMessage(t, m).value);
                  && r.Ok? && r.rest == [] && SameMessage(t, m, r.value)
                  && EncodeMessage(t, r.value) == EncodeMessage(t, m))
  {
    hide Decode;
    var m := DecodedFits(t, bs);
    MessageDefined(t, m);
    FitsIsTyped(t, m);
    SameAsItself(t, m);
    SameAsFitting(t, m, m);
    if ArraysFilled(t, m) && NestedBelow(t, m, TWO_32) {
      MessageRoundTrip(t, m);
      var m' := DecodedFits(t, EncodeMessage(t, m).value);
      FitsIsTyped(t, m');
      EncodingDependsOnMeaning(t, m, m');
    }
  }

  lemma DecodedFits(t: Table, bs: bytes) returns (m: seq<Slot>)
    requires WellFormed(t) && Decode(t, bs).Ok?
    ensures m == Decode(t, bs).value && Fits(t, m)
  {
    m := Decode(t, bs).value;
    DefaultsFit(t);
    DecodeFits(t, bs, Defaults(t));
  }

  /** For generated tables without any assumption about sizes. */
  lemma GeneratedReencodes(t: Table, bs: bytes)
    requires WellFormed(t) && ValidSizes(t) && SizesAgree(t) && Depth(t) <= MAX_DEPTH
    requires Decode(t, bs).Ok? && ArraysFilled(t, Decode(t, bs).value)
    ensures var m := Decode(t, bs).value;
            && EncodeMessage(t, m).Some?
            && var r := Decode(t, EncodeMessage(t, m).value);
            && r.Ok? && r.rest == [] && SameMessage(t, m, r.value) && EncodeMessage(t, r.value) == EncodeMessage(t, m)
  {
    hide Decode;
    var m := DecodedFits(t, bs);
    FitsIsTyped(t, m);
    NestedAreShort(t, m, TWO_32);
    DecodedReencodes(t, bs);
  }
}
