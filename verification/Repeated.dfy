/** Repeated fields among other fields: the items arrive in wire order. */
module Repeated {
  import opened Wire
  import opened Descriptor
  import opened Scalars
  import opened Message
  import opened Encoding
  import opened Decoding
  import opened Records
  import opened Packed
  import opened RoundTrip

  /** The scalars in a packed payload. */
  function ChunkItems(f: Field, payload: bytes): seq<Value>
    decreases |payload|
  {
    match DecodeScalar(f, payload)
    case Fail => []
    case Ok(n, rest) => [Num(n)] + ChunkItems(f, rest)
  }

  /** The items that one record of a repeated field carries. */
  function RecordItems(f: Field, wireType: nat, bs: bytes): seq<Value> {
    if wireType == WT_STRING && f.ltype.Packable() then
      match TakeDelimited(bs)
      case Fail => []
      case Ok(payload, _) => if payload == [] then [] else ChunkItems(f, payload)
    else
      match DecodeValue(f, bs, DefaultValue(f))
      case Fail => []
      case Ok(v, _) => [v]
  }

  /** The items of entry i in all records of `bs`, in wire order. */
  function WireItems(t: Table, i: nat, bs: bytes): seq<Value>
    requires i < |t|
    decreases |bs|
  {
    if bs == [] || !DecodeTag(bs).Tag? then []
    else
      var d := DecodeTag(bs);
      match RecordEnd(t, d.tag, d.wireType, d.rest)
      case None => []
      case Some(rest) =>
        (if d.tag == t[i].tag then RecordItems(t[i], d.wireType, d.rest) else []) + WireItems(t, i, rest)
  }

  lemma {:induction false} PackedAppends(f: Field, payload: bytes, items: seq<Value>)
    requires |items| <= f.arraySize && DecodePacked(f, payload, items).Some?
    ensures var r := DecodePacked(f, payload, items).value;
            r == items + (if payload == [] then [] else ChunkItems(f, payload)) && |r| <= f.arraySize
    decreases |payload|
  {
    hide DecodeScalar;
    if payload != [] {
      var r := DecodeScalar(f, payload);
      PackedAppends(f, r.rest, items + [Num(r.value)]);
      NothingToDecode(f);
    }
  }

  lemma NothingToDecode(f: Field)
    ensures ChunkItems(f, []) == []
  {
  }

  lemma SlotAppends(f: Field, wireType: nat, bs: bytes, items: seq<Value>)
    requires f.htype.HRepeated? && |items| <= f.arraySize && DecodeSlot(f, wireType, bs, Items(items)).Ok?
    ensures DecodeSlot(f, wireType, bs, Items(items)).value == Items(items + RecordItems(f, wireType, bs))
    ensures |items + RecordItems(f, wireType, bs)| <= f.arraySize
  {
    hide DecodeValue;
    hide TakeDelimited;
    if wireType == WT_STRING && f.ltype.Packable() {
      PackedAppends(f, TakeDelimited(bs).value, items);
    }
  }

  lemma OwnRecord(t: Table, i: nat, wireType: nat, bs: bytes, st: LoopState)
    requires WellFormed(t) && i < |t| && |st.slots| == SlotCount(t, |t|)
    requires t[i].htype.HRepeated? && SlotAt(t, st.slots, i).Items? && |Held(t, i, st)| <= t[i].arraySize
    requires DecodeRecord(t, t[i].tag, wireType, bs, st).Ok?
    ensures var items := Held(t, i, st) + RecordItems(t[i], wireType, bs);
            DecodeRecord(t, t[i].tag, wireType, bs, st).value == Holding(t, i, st, items) && |items| <= t[i].arraySize
  {
    hide DecodeSlot;
    hide RecordItems;
    hide SlotCount;
    assert WellFormedField(t[i]);
    UniqueField(t, i);
    SlotAppends(t[i], wireType, bs, Held(t, i, st));
  }

  // ------------------------------------------------------------------ restarts

  /** The tag of a fixed-count array other than entry i. */
  predicate OtherFixed(t: Table, i: nat, tag: nat)
    requires i < |t|
  {
    exists k | 0 <= k < |t| :: k != i && t[k].FixedCount() && t[k].tag == tag
  }

  lemma OtherRecord(t: Table, i: nat, tag: nat, wireType: nat, bs: bytes, st: LoopState)
    requires WellFormed(t) && i < |t| && t[i].htype.HRepeated? && |st.slots| == SlotCount(t, |t|) && tag != t[i].tag
    requires DecodeRecord(t, tag, wireType, bs, st).Ok?
    ensures var r := DecodeRecord(t, tag, wireType, bs, st).value;
            && SlotAt(t, r.slots, i) == SlotAt(t, st.slots, i)
            && if OtherFixed(t, i, tag) then r.fixedField != Some(i) else r.fixedField == st.fixedField
  {
    hide DecodeSlot;
    hide SlotCount;
    var found := FindField(t, tag);
    if OtherFixed(t, i, tag) {
      var k :| 0 <= k < |t| && k != i && t[k].FixedCount() && t[k].tag == tag;
      assert WellFormedField(t[k]);
      UniqueField(t, k);
    }
    if found.Some? {
      if found.value < i {
        SlotsApart(t, found.value, i);
      } else {
        SlotsApart(t, i, found.value);
      }
    }
  }

  /** Entry i is a fixed-count array, and one of its records comes behind a record of
      another such array: from there it starts anew. */
  predicate Restarted(t: Table, i: nat, bs: bytes)
    requires i < |t|
    decreases |bs|
  {
    if bs == [] || !DecodeTag(bs).Tag? then false
    else
      var d := DecodeTag(bs);
      match RecordEnd(t, d.tag, d.wireType, d.rest)
      case None => false
      case Some(rest) =>
        (t[i].FixedCount() && OtherFixed(t, i, d.tag) && t[i].tag in WireTags(t, rest)) || Restarted(t, i, rest)
  }

  /** The bytes behind the last restart. */
  function SinceRestart(t: Table, i: nat, bs: bytes): bytes
    requires i < |t|
    decreases |bs|
  {
    if !Restarted(t, i, bs) then bs
    else
      var d := DecodeTag(bs);
      SinceRestart(t, i, RecordEnd(t, d.tag, d.wireType, d.rest).value)
  }

  /** What the items in `bs` are added to when there is no restart. */
  function ItemsBefore(t: Table, i: nat, bs: bytes, st: LoopState): seq<Value>
    requires i < |t| && |st.slots| == SlotCount(t, |t|)
  {
    var s := SlotAt(t, st.slots, i);
    if t[i].tag in WireTags(t, bs) then Held(t, i, st) else if s.Items? then s.items else []
  }

  /** The items of entry i behind the records in `bs`. */
  function ItemsBehind(t: Table, i: nat, bs: bytes, st: LoopState): seq<Value>
    requires i < |t| && |st.slots| == SlotCount(t, |t|)
  {
    if Restarted(t, i, bs) then WireItems(t, i, SinceRestart(t, i, bs))
    else ItemsBefore(t, i, bs, st) + WireItems(t, i, bs)
  }

  ghost predicate Bounded(t: Table, i: nat, st: LoopState) {
    && i < |t| && |st.slots| == SlotCount(t, |t|) && t[i].htype.HRepeated?
    && SlotAt(t, st.slots, i).Items? && |SlotAt(t, st.slots, i).items| <= t[i].arraySize
  }

  /** The first record of `bs`. */
  predicate StartsWith(t: Table, bs: bytes, tag: nat, wireType: nat, body: bytes, rest: bytes) {
    bs != [] && DecodeTag(bs) == Tag(tag, wireType, body) && RecordEnd(t, tag, wireType, body) == Some(rest)
  }

  lemma NoTagNoRestart(t: Table, i: nat, bs: bytes)
    requires i < |t| && t[i].tag !in WireTags(t, bs)
    ensures !Restarted(t, i, bs)
    decreases |bs|
  {
    hide DecodeTag;
    hide RecordEnd;
    hide OtherFixed;
    if bs != [] && DecodeTag(bs).Tag? {
      var d := DecodeTag(bs);
      var end := RecordEnd(t, d.tag, d.wireType, d.rest);
      if end.Some? {
        assert WireTags(t, bs) == [d.tag] + WireTags(t, end.value);
        NoTagNoRestart(t, i, end.value);
      }
    }
  }

  /** What the functions above say of the first record and the others. */
  lemma FirstRecord(t: Table, i: nat, bs: bytes, tag: nat, wireType: nat, body: bytes, rest: bytes)
    requires i < |t| && StartsWith(t, bs, tag, wireType, body, rest)
    ensures WireItems(t, i, bs) ==
            (if tag == t[i].tag then RecordItems(t[i], wireType, body) else []) + WireItems(t, i, rest)
    ensures t[i].tag in WireTags(t, bs) <==> tag == t[i].tag || t[i].tag in WireTags(t, rest)
    ensures Restarted(t, i, bs) <==>
            (t[i].FixedCount() && OtherFixed(t, i, tag) && t[i].tag in WireTags(t, rest)) || Restarted(t, i, rest)
    ensures Restarted(t, i, bs) ==> SinceRestart(t, i, bs) == SinceRestart(t, i, rest)
    ensures !Restarted(t, i, rest) ==> SinceRestart(t, i, rest) == rest
  {
    hide DecodeTag;
    hide RecordEnd;
    hide OtherFixed;
    hide RecordItems;
    assert WireTags(t, bs) == [tag] + WireTags(t, rest);
  }

  /** A record of entry i. */
  lemma OwnTurn(t: Table, i: nat, bs: bytes, wireType: nat, body: bytes, rest: bytes, st: LoopState)
    requires WellFormed(t) && Bounded(t, i, st) && StartsWith(t, bs, t[i].tag, wireType, body, rest)
    requires DecodeRecord(t, t[i].tag, wireType, body, st).Ok?
    ensures var st1 := DecodeRecord(t, t[i].tag, wireType, body, st).value;
            Bounded(t, i, st1) && ItemsBehind(t, i, rest, st1) == ItemsBehind(t, i, bs, st)
  {
    hide DecodeRecord;
    hide RecordItems;
    hide WireItems;
    hide Restarted;
    hide SinceRestart;
    hide StartsWith;
    hide SlotCount;
    hide Holding;
    hide WireTags;
    FirstRecord(t, i, bs, t[i].tag, wireType, body, rest);
    NotOther(t, i);
    HeldIsBounded(t, i, st);
    OwnRecord(t, i, wireType, body, st);
    var items := Held(t, i, st) + RecordItems(t[i], wireType, body);
    HoldingTwice(t, i, st, items, []);
    hide Held;
    assert items + WireItems(t, i, rest)
        == Held(t, i, st) + (RecordItems(t[i], wireType, body) + WireItems(t, i, rest));
  }

  lemma NotOther(t: Table, i: nat)
    requires WellFormed(t) && i < |t|
    ensures !OtherFixed(t, i, t[i].tag)
  {
    forall k | 0 <= k < |t| && k != i
      ensures t[k].tag != t[i].tag
    {
    }
  }

  lemma HeldIsBounded(t: Table, i: nat, st: LoopState)
    requires Bounded(t, i, st)
    ensures |Held(t, i, st)| <= t[i].arraySize
  {
  }

  /** A record of another field, or of none. */
  lemma OtherTurn(t: Table, i: nat, bs: bytes, tag: nat, wireType: nat, body: bytes, rest: bytes, st: LoopState)
    requires WellFormed(t) && Bounded(t, i, st) && tag != t[i].tag && StartsWith(t, bs, tag, wireType, body, rest)
    requires DecodeRecord(t, tag, wireType, body, st).Ok?
    ensures var st1 := DecodeRecord(t, tag, wireType, body, st).value;
            Bounded(t, i, st1) && ItemsBehind(t, i, rest, st1) == ItemsBehind(t, i, bs, st)
  {
    hide DecodeRecord;
    hide WireItems;
    hide Restarted;
    hide SinceRestart;
    hide StartsWith;
    hide SlotCount;
    hide WireTags;
    var st1 := DecodeRecord(t, tag, wireType, body, st).value;
    FirstRecord(t, i, bs, tag, wireType, body, rest);
    OtherRecord(t, i, tag, wireType, body, st);
    hide OtherFixed;
    if t[i].tag !in WireTags(t, rest) {
      NoTagNoRestart(t, i, rest);
    } else {
      HeldElsewhere(t, i, tag, st, st1);
    }
  }

  lemma HeldElsewhere(t: Table, i: nat, tag: nat, st: LoopState, st1: LoopState)
    requires i < |t| && |st.slots| == |st1.slots| == SlotCount(t, |t|)
    requires SlotAt(t, st1.slots, i) == SlotAt(t, st.slots, i)
    requires if OtherFixed(t, i, tag) then st1.fixedField != Some(i) else st1.fixedField == st.fixedField
    ensures Held(t, i, st1) == if t[i].FixedCount() && OtherFixed(t, i, tag) then [] else Held(t, i, st)
  {
    hide OtherFixed;
    hide SlotCount;
  }

  lemma NothingBehind(t: Table, i: nat, st: LoopState)
    requires Bounded(t, i, st)
    ensures ItemsBehind(t, i, [], st) == SlotAt(t, st.slots, i).items
  {
  }

  /** After any whole records, whatever other fields lie between, a repeated field of any
      type holds what it held before and then the items of all its records in wire order,
      never more than array_size. A fixed-count array starts from nothing unless it is the
      one being filled, and anew behind each record of another fixed-count array. */
  lemma {:induction false} ItemsInWireOrder(t: Table, i: nat, bs: bytes, st: LoopState)
    requires WellFormed(t) && Bounded(t, i, st) && Run(t, bs, st).Some?
    ensures var r := Run(t, bs, st).value;
            Bounded(t, i, r) && SlotAt(t, r.slots, i) == Items(ItemsBehind(t, i, bs, st))
    decreases |bs|
  {
    hide DecodeTag;
    hide DecodeRecord;
    hide RecordEnd;
    hide ItemsBehind;
    hide Bounded;
    hide SlotAt;
    hide SlotCount;
    hide WellFormed;
    BoundedShape(t, i, st);
    if bs == [] {
      NothingBehind(t, i, st);
    } else {
      var d := DecodeTag(bs);
      var r := DecodeRecord(t, d.tag, d.wireType, d.rest, st);
      RecordEndsThere(t, d.tag, d.wireType, d.rest, st);
      if d.tag == t[i].tag {
        OwnTurn(t, i, bs, d.wireType, d.rest, r.rest, st);
      } else {
        OtherTurn(t, i, bs, d.tag, d.wireType, d.rest, r.rest, st);
      }
      ItemsInWireOrder(t, i, r.rest, r.value);
    }
  }

  lemma BoundedShape(t: Table, i: nat, st: LoopState)
    requires Bounded(t, i, st)
    ensures i < |t| && |st.slots| == SlotCount(t, |t|) && SlotAt(t, st.slots, i).Items?
  {
  }
}
