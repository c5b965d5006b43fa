/** A value that is not a message and not repeated replaces what was there: the last one on
    the wire wins, in a union also over the other members. */
module LastOneWins {
  import opened Wire
  import opened Descriptor
  import opened Scalars
  import opened Message
  import opened Decoding
  import opened Records
  import opened Ordering
  import opened Packed
  import opened Safety
  import RoundTrip

  /** The value in a record that is neither a message nor repeated. */
  function PlainValue(f: Field, bs: bytes): Parse<Value> {
    if f.ltype.Packable() then
      match DecodeScalar(f, bs)
      case Fail => Fail
      case Ok(n, rest) => Ok(Num(n), rest)
    else DecodeValue(f, bs, Num(0))
  }

  /** The slot of a present value. */
  function Stored(f: Field, v: Value): Slot {
    match f.htype
    case HRequired => Single(v)
    case HOptional => if f.sizeOffset == 0 then Single(v) else Flagged(true, v)
    case HRepeated => Items([v])
    case HOneof => Union(f.tag, v)
  }

  predicate Plain(f: Field) {
    !f.ltype.LSubmessage? && !f.htype.HRepeated?
  }

  lemma PlainSlot(f: Field, wireType: nat, bs: bytes, s: Slot)
    requires Plain(f) && PartWithin(f, s, false)
    ensures var r := PlainValue(f, bs);
            DecodeSlot(f, wireType, bs, s) == if r.Ok? then Ok(Stored(f, r.value), r.rest) else Fail
  {
    hide DecodeScalar;
    hide TakeDelimited;
    hide ValueTyped;
  }

  /** One record of such an entry stores the value that its bytes stand for, with has_ set or
      the union selected, whatever the slot held. */
  lemma PlainRecord(t: Table, i: nat, wireType: nat, bs: bytes, st: LoopState)
    requires WellFormed(t) && i < |t| && Plain(t[i]) && LoopWithin(t, st, false)
    ensures |st.slots| == SlotCount(t, |t|)
    ensures var r := PlainValue(t[i], bs);
            DecodeRecord(t, t[i].tag, wireType, bs, st) ==
            if r.Fail? then Fail
            else Ok(LoopState(WithSlot(t, st.slots, i, Stored(t[i], r.value)),
                              if t[i].htype.HRequired? then st.seen + {i} else st.seen,
                              st.fixedField), r.rest)
  {
    hide DecodeSlot;
    hide PlainValue;
    hide Stored;
    assert WellFormedField(t[i]);
    UniqueField(t, i);
    EnteredWithin(t, i, st, false);
    PlainSlot(t[i], wireType, bs, SlotAt(t, st.slots, i));
  }

  /** One record of a repeated entry of such a type, unpacked, appends the value, whatever its
      wire type says. */
  lemma PlainItem(t: Table, i: nat, wireType: nat, bs: bytes, st: LoopState)
    requires WellFormed(t) && i < |t| && t[i].htype.HRepeated? && !t[i].ltype.LSubmessage?
    requires LoopWithin(t, st, false) && !(wireType == 2 && t[i].ltype.Packable())
    ensures |st.slots| == SlotCount(t, |t|)
    ensures var r := PlainValue(t[i], bs);
            DecodeRecord(t, t[i].tag, wireType, bs, st) ==
            if Blocked(t, i, st) || r.Fail? || |Held(t, i, st)| >= t[i].arraySize then Fail
            else Ok(Holding(t, i, st, Held(t, i, st) + [r.value]), r.rest)
  {
    hide DecodeSlot;
    hide PlainValue;
    assert WellFormedField(t[i]);
    UniqueField(t, i);
    EnteredWithin(t, i, st, false);
    PlainItemSlot(t[i], wireType, bs, Held(t, i, st));
  }

  lemma PlainItemSlot(f: Field, wireType: nat, bs: bytes, items: seq<Value>)
    requires f.htype.HRepeated? && !f.ltype.LSubmessage? && !(wireType == 2 && f.ltype.Packable())
    ensures var r := PlainValue(f, bs);
            DecodeSlot(f, wireType, bs, Items(items)) ==
            if r.Fail? || |items| >= f.arraySize then Fail else Ok(Items(items + [r.value]), r.rest)
  {
    hide DecodeScalar;
    hide TakeDelimited;
  }

  /** The record U of entry i, which is not repeated, in front of the record V of entry j in
      the same slot: provided that U can be decoded, it might as well be missing. */
  lemma LastWins(t: Table, i: nat, u: bytes, j: nat, v: bytes, more: bytes, st: LoopState)
    requires WellFormed(t) && LoopWithin(t, st, false) && IsRecord(t, u) && IsRecord(t, v)
    requires i < |t| && j < |t| && DecodeTag(u).tag == t[i].tag && DecodeTag(v).tag == t[j].tag
    requires SlotOf(t, i) == SlotOf(t, j) && !t[i].htype.HRepeated? && Plain(t[j])
    requires |st.slots| == SlotCount(t, |t|) && Effect(t, u, st).Some?
    ensures Run(t, u + (v + more), st) == Run(t, v + more, st)
  {
    hide Run;
    hide DecodeRecord;
    hide DecodeTag;
    hide RecordEnd;
    hide LoopWithin;
    hide PlainValue;
    hide Stored;
    RunFirst(t, u, v + more, st);
    RunFirst(t, v, more, st);
    var a := Effect(t, u, st).value;
    RunFirst(t, v, more, a);
    var d, e := DecodeTag(u), DecodeTag(v);
    RecordWithin(t, d.tag, d.wireType, d.rest, st, false);
    PlainRecord(t, j, e.wireType, e.rest, st);
    PlainRecord(t, j, e.wireType, e.rest, a);
    EarlierRecord(t, i, j, d.wireType, d.rest, st);
    var r := PlainValue(t[j], e.rest);
    if r.Ok? {
      SlotOverwritten(t, i, j, st, a, Stored(t[j], r.value));
    }
  }

  lemma EarlierRecord(t: Table, i: nat, j: nat, wireType: nat, bs: bytes, st: LoopState)
    requires WellFormed(t) && i < |t| && j < |t| && |st.slots| == SlotCount(t, |t|) && !t[i].htype.HRepeated?
    requires SlotOf(t, i) == SlotOf(t, j) && DecodeRecord(t, t[i].tag, wireType, bs, st).Ok?
    ensures var a := DecodeRecord(t, t[i].tag, wireType, bs, st).value;
            && a.slots == WithSlot(t, st.slots, i, SlotAt(t, a.slots, i)) && a.fixedField == st.fixedField
            && a.seen == (if t[i].htype.HRequired? then st.seen + {i} else st.seen)
    ensures t[i].htype.HRequired? ==> i == j
  {
    hide DecodeSlot;
    assert WellFormedField(t[i]);
    UniqueField(t, i);
    if t[i].htype.HRequired? && i != j {
      if i < j {
        RoundTrip.SlotsApart(t, i, j);
      } else {
        RoundTrip.SlotsApart(t, j, i);
      }
    }
  }

  lemma SlotOverwritten(t: Table, i: nat, j: nat, st: LoopState, a: LoopState, s: Slot)
    requires i < |t| && j < |t| && |st.slots| == |a.slots| == SlotCount(t, |t|) && SlotOf(t, i) == SlotOf(t, j)
    requires a.slots == WithSlot(t, st.slots, i, SlotAt(t, a.slots, i))
    ensures WithSlot(t, a.slots, j, s) == WithSlot(t, st.slots, j, s)
  {
    hide SlotCount;
  }
}
