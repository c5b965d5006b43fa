/** Exactly which messages survive the trip through pb_encode and pb_decode. */
module Exactness {
  import opened Wire
  import opened Bits
  import opened Varint
  import opened Descriptor
  import opened Message
  import opened Encoding
  import opened Decoding
  import opened RoundTrip
  import opened Safety
  import opened Lengths

  /** Whatever means the same as a struct that fits its storage is sound: the decoder can
      hand out nothing else. */
  lemma {:induction false} SameAsFitting(t: Table, m: seq<Slot>, d: seq<Slot>)
    requires WellFormed(t) && Typed(t, m) && Fits(t, d) && SameMessage(t, m, d)
    ensures Sound(t, m)
    decreases t
  {
    forall i {:trigger t[i]} | 0 <= i < |t|
      ensures SoundSlot(t[i], SlotAt(t, m, i)) && KnownSelector(t, i, SlotAt(t, m, i))
    {
      assert WellFormedField(t[i]) && SlotTyped(t[i], SlotAt(t, m, i));
      assert FitsSlot(t[i], SlotAt(t, d, i)) && KnownSelector(t, i, SlotAt(t, d, i));
      SlotAsFitting(t[i], SlotAt(t, m, i), SlotAt(t, d, i));
    }
  }

  lemma {:induction false} SlotAsFitting(f: Field, s: Slot, d: Slot)
    requires WellFormedField(f) && SlotTyped(f, s) && FitsSlot(f, d) && SameSlot(f, s, d)
    ensures SoundSlot(f, s)
    decreases f, 1
  {
    match s {
      case Single(v) => ValueAsFitting(f, v, d.v);
      case Flagged(has, v) =>
        if has {
          ValueAsFitting(f, v, d.v);
        }
      case Items(items) =>
        forall k | 0 <= k < |items|
          ensures SoundValue(f, items[k])
        {
          ValueAsFitting(f, items[k], d.items[k]);
        }
      case Union(which, v) =>
        if which == f.tag {
          ValueAsFitting(f, v, d.v);
        }
    }
  }

  lemma {:induction false} ValueAsFitting(f: Field, v: Value, w: Value)
    requires WellFormedField(f) && ValueTyped(f, v) && FitsValue(f, w) && SameValue(f, v, w)
    ensures SoundValue(f, v)
    decreases f, 0
  {
    if f.ltype.LSubmessage? {
      SameAsFitting(f.ptr.fields, v.slots, w.slots);
    }
  }

  /** For every struct that pb_encode accepts: decoding the bytes succeeds and gives the
      same message if and only if every string that is present has its NUL inside its
      buffer, every oneof selector is 0 or names a member of its union, and every nested
      message is shorter than 2^32 bytes. */
  lemma RoundTripExactly(t: Table, m: seq<Slot>)
    requires WellFormed(t) && Typed(t, m)
    requires EncodeMessage(t, m).Some? && NestedBelow(t, m, TWO_63)
    ensures var r := Decode(t, EncodeMessage(t, m).value);
            Sound(t, m) && NestedBelow(t, m, TWO_32) <==> r.Ok? && SameMessage(t, m, r.value)
  {
    var e := EncodeMessage(t, m).value;
    if Sound(t, m) && NestedBelow(t, m, TWO_32) {
      MessageRoundTrip(t, m);
    }
    if Decode(t, e).Ok? && SameMessage(t, m, Decode(t, e).value) {
      DefaultsFit(t);
      DecodeFits(t, e, Defaults(t));
      SameAsFitting(t, m, Decode(t, e).value);
      MessagePassed(t, m, Start(Defaults(t)));
    }
  }

  /** A required string in a buffer of two bytes. */
  const TWO_BYTE_STRING: Field := Field(1, AStatic, HRequired, LString, 0, 0, 2, 0, NullPtr)

  /** A message that pb_encode accepts and pb_decode refuses: two characters fill the
      buffer, which leaves no room for the NUL. */
  lemma UnterminatedString()
    ensures var t := [TWO_BYTE_STRING];
            var m := [Single(Blob([65, 65]))];
            && WellFormed(t) && Typed(t, m) && !Sound(t, m)
            && EncodeMessage(t, m) == Some([10, 2, 65, 65])
            && Decode(t, [10, 2, 65, 65]).Fail?
  {
    hide Decode;
    var f := TWO_BYTE_STRING;
    var t, m := [f], [Single(Blob([65, 65]))];
    assert WellFormedField(f);
    assert SlotCount(t, 1) == 1 + SlotCount(t, 0);
    assert UpToNul([65, 65]) == [65, 65] by {
      UpToNulOfClean([65, 65]);
    }
    assert EncodeSlot(f, m[0]) == Some([10] + ([2] + [65, 65]));
    assert EncodeUpTo(t, m, 0) == Some([]);
    assert [] + ([10] + ([2] + [65, 65])) == [10, 2, 65, 65];
    assert SlotAt(t, m, 0) == m[0];
    assert !SoundSlot(t[0], SlotAt(t, m, 0));
    TooLongRefused();
  }

  lemma TooLongRefused()
    ensures Decode([TWO_BYTE_STRING], [10, 2, 65, 65]).Fail?
  {
    var t, e: bytes := [TWO_BYTE_STRING], [10, 2, 65, 65];
    assert e[1..][1..] == [65, 65] && [65, 65][..2] == [65, 65];
    assert DecodeTag(e) == Tag(1, 2, e[1..]);
    assert DecodeVarint32(e[1..]) == Ok(2, [65, 65]);
    assert TakeDelimited(e[1..]) == Ok([65, 65], []);
    assert FindField(t, 1) == Some(0);
    assert DecodeRecord(t, 1, 2, e[1..], Start(Defaults(t))).Fail?;
  }
}
