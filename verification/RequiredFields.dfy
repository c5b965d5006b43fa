/** The final check of pb_decode_noinit against what was on the wire. */
module RequiredFields {
  import opened Wire
  import opened Descriptor
  import opened Message
  import opened Decoding
  import opened Records

  lemma RecordMarks(t: Table, tag: nat, wireType: nat, bs: bytes, st: LoopState, i: nat)
    requires WellFormed(t) && |st.slots| == SlotCount(t, |t|)
    requires i < |t| && t[i].htype.HRequired?
    requires DecodeRecord(t, tag, wireType, bs, st).Ok?
    ensures i in DecodeRecord(t, tag, wireType, bs, st).value.seen <==> i in st.seen || tag == t[i].tag
  {
    hide DecodeSlot;
    assert WellFormedField(t[i]);
    assert tag == t[i].tag ==> Matches(t, i, tag);
  }

  lemma {:induction false} SeenMeansOnWire(t: Table, bs: bytes, st: LoopState, i: nat)
    requires WellFormed(t) && |st.slots| == SlotCount(t, |t|)
    requires i < |t| && t[i].htype.HRequired? && DecodeLoop(t, bs, st).Ok?
    ensures i in DecodeLoop(t, bs, st).value.seen <==> i in st.seen || t[i].tag in WireTags(t, bs)
    decreases |bs|
  {
    hide DecodeTag;
    hide DecodeRecord;
    hide RecordEnd;
    if bs != [] && DecodeTag(bs).Tag? {
      var d := DecodeTag(bs);
      var r := DecodeRecord(t, d.tag, d.wireType, d.rest, st);
      RecordEndsThere(t, d.tag, d.wireType, d.rest, st);
      RecordMarks(t, d.tag, d.wireType, d.rest, st, i);
      SeenMeansOnWire(t, r.rest, r.value, i);
    }
  }

  /** The required entries in front of entry i. */
  function RequiredBefore(t: Table, i: nat): set<nat>
    requires i <= |t|
  {
    set k: nat | k < i && t[k].htype.HRequired?
  }

  lemma {:induction false} RequiredIndexCounts(t: Table, i: nat)
    requires i <= |t|
    ensures RequiredIndex(t, i) == |RequiredBefore(t, i)|
    decreases i
  {
    if i > 0 {
      RequiredIndexCounts(t, i - 1);
      var last: set<nat> := if t[i - 1].htype.HRequired? then {i - 1} else {};
      assert RequiredBefore(t, i) == RequiredBefore(t, i - 1) + last;
    }
  }

  /** Decoding succeeds exactly when every field on the wire can be decoded, the last
      fixed-count array is full, and the tag of each of the first 64 required fields was on
      the wire at least once; later required fields are not checked. */
  lemma RequiredFieldsExactly(t: Table, bs: bytes, slots: seq<Slot>)
    requires WellFormed(t) && |slots| == SlotCount(t, |t|)
    ensures var r := DecodeLoop(t, bs, Start(slots));
            DecodeMessage(t, bs, slots).Ok? <==>
            && r.Ok? && FixedDone(t, r.value)
            && forall i {:trigger t[i]} | 0 <= i < |t| && t[i].htype.HRequired? ::
                 |RequiredBefore(t, i)| < 64 ==> t[i].tag in WireTags(t, bs)
  {
    hide DecodeLoop;
    hide WireTags;
    hide FixedDone;
    hide RequiredIndex;
    hide RequiredBefore;
    var r := DecodeLoop(t, bs, Start(slots));
    forall i | 0 <= i < |t|
      ensures RequiredIndex(t, i) == |RequiredBefore(t, i)|
    {
      RequiredIndexCounts(t, i);
    }
    if r.Ok? {
      forall i {:trigger t[i]} | 0 <= i < |t| && t[i].htype.HRequired?
        ensures i in r.value.seen <==> t[i].tag in WireTags(t, bs)
      {
        SeenMeansOnWire(t, bs, Start(slots), i);
      }
    }
  }
}
