/** The decoder reads a message record by record: what one record does depends on its own
    bytes only. Unknown fields, merging and packed arrays follow from that. */
module Records {
  import opened Wire
  import opened Varint
  import opened Descriptor
  import opened Scalars
  import opened Message
  import opened Encoding
  import opened Decoding

  /** The state after `bs`, provided it is a whole number of decodable records without a
      terminator. */
  function Run(t: Table, bs: bytes, st: LoopState): (r: Option<LoopState>)
    requires |st.slots| == SlotCount(t, |t|)
    ensures r.Some? ==> |r.value.slots| == SlotCount(t, |t|)
    decreases |bs|
  {
    if bs == [] then Some(st)
    else
      match DecodeTag(bs)
      case TagError => None
      case TagEnd(_) => None
      case Tag(tag, wireType, rest) =>
        match DecodeRecord(t, tag, wireType, rest, st)
        case Fail => None
        case Ok(st', rest') => Run(t, rest', st')
  }

  // -------------------------------------------------- records without the struct

  /** What follows one value of this field on the wire. */
  function ValueEnd(f: Field, bs: bytes): (r: Option<bytes>)
    ensures r.Some? ==> |r.value| < |bs|
  {
    if f.ltype.Packable() then RestOf(DecodeScalar(f, bs)) else RestOf(TakeDelimited(bs))
  }

  function FieldEnd(f: Field, wireType: nat, bs: bytes): (r: Option<bytes>)
    ensures r.Some? ==> |r.value| < |bs|
  {
    if f.htype.HRepeated? && wireType == WT_STRING && f.ltype.Packable() then RestOf(TakeDelimited(bs))
    else ValueEnd(f, bs)
  }

  /** What follows the record behind its tag: the extent of a record depends on the table
      and its bytes alone, not on what has been decoded so far. */
  function RecordEnd(t: Table, tag: nat, wireType: nat, bs: bytes): (r: Option<bytes>)
    ensures r.Some? ==> |r.value| < |bs|
  {
    if t == [] && tag == 0 then RestOf(DecodeVarint32(bs))
    else
      match FindField(t, tag)
      case None => SkipField(wireType, bs)
      case Some(i) => FieldEnd(t[i], wireType, bs)
  }

  lemma SlotEnd(f: Field, wireType: nat, bs: bytes, s: Slot)
    requires DecodeSlot(f, wireType, bs, s).Ok?
    ensures FieldEnd(f, wireType, bs) == Some(DecodeSlot(f, wireType, bs, s).rest)
  {
    hide DecodeScalar;
    hide TakeDelimited;
    hide DecodeMessage;
  }

  lemma RecordEndsThere(t: Table, tag: nat, wireType: nat, bs: bytes, st: LoopState)
    requires |st.slots| == SlotCount(t, |t|) && DecodeRecord(t, tag, wireType, bs, st).Ok?
    ensures RecordEnd(t, tag, wireType, bs) == Some(DecodeRecord(t, tag, wireType, bs, st).rest)
  {
    hide DecodeSlot;
    hide FieldEnd;
    var found := FindField(t, tag);
    if !(t == [] && tag == 0) && found.Some? {
      SlotEnd(t[found.value], wireType, bs, SlotAt(t, Enter(t, found.value, st).slots, found.value));
    }
  }

  /** Behind a decoded submessage lies a decoding of its payload. */
  lemma InnerLoop(f: Field, bs: bytes, cur: Value) returns (inner: LoopState)
    requires f.ltype.LSubmessage? && DecodeValue(f, bs, cur).Ok?
    ensures f.ptr.Submsg? && TakeDelimited(bs).Ok?
    ensures |inner.slots| == SlotCount(f.ptr.fields, |f.ptr.fields|)
    ensures DecodeLoop(f.ptr.fields, TakeDelimited(bs).value, inner).Ok?
  {
    inner := Start((if f.htype.HRepeated? then DefaultValue(f) else cur).slots);
    assert DecodeMessage(f.ptr.fields, TakeDelimited(bs).value, inner.slots).Ok?;
  }

  /** The value that a submessage record was decoded from. */
  lemma RecordValue(t: Table, tag: nat, wireType: nat, bs: bytes, st: LoopState) returns (i: nat, cur: Value)
    requires |st.slots| == SlotCount(t, |t|) && DecodeRecord(t, tag, wireType, bs, st).Ok?
    requires FindField(t, tag).Some? && t[FindField(t, tag).value].ltype.LSubmessage?
    ensures FindField(t, tag) == Some(i) && DecodeValue(t[i], bs, cur).Ok?
  {
    hide DecodeValue;
    hide TakeDelimited;
    i := FindField(t, tag).value;
    var f, s := t[i], SlotAt(t, Enter(t, i, st).slots, i);
    cur :=
      match f.htype
      case HRequired => s.v
      case HOptional => s.v
      case HRepeated => DefaultValue(f)
      case HOneof => if s.which != f.tag then DefaultValue(f) else s.v;
  }

  // ----------------------------------------------- readers ignore what follows

  lemma DecodeTagExtends(bs: bytes, tail: bytes)
    requires !DecodeTag(bs).TagError?
    ensures DecodeTag(bs + tail) == match DecodeTag(bs)
                                    case Tag(tag, w, rest) => Tag(tag, w, rest + tail)
                                    case TagEnd(rest) => TagEnd(rest + tail)
                                    case TagError => TagError
  {
    Varint32Extends(bs, tail);
  }

  lemma TakeDelimitedExtends(bs: bytes, tail: bytes)
    requires TakeDelimited(bs).Ok?
    ensures TakeDelimited(bs + tail) == Ok(TakeDelimited(bs).value, TakeDelimited(bs).rest + tail)
  {
    Varint32Extends(bs, tail);
    var p := DecodeVarint32(bs);
    TakeExtends(p.rest, p.value, tail);
  }

  lemma SkipFieldExtends(wireType: nat, bs: bytes, tail: bytes)
    requires SkipField(wireType, bs).Some?
    ensures SkipField(wireType, bs + tail) == Some(SkipField(wireType, bs).value + tail)
  {
    if wireType == WT_VARINT {
      SplitExtends(bs, tail);
    } else if wireType == WT_STRING {
      TakeDelimitedExtends(bs, tail);
    } else {
      TakeExtends(bs, if wireType == WT_64BIT then 8 else 4, tail);
    }
  }

  /** A value whose extent is known decodes or fails the same way whatever follows it. */
  lemma DecodeValueExtends(f: Field, bs: bytes, cur: Value, tail: bytes)
    requires ValueEnd(f, bs).Some?
    ensures var r := DecodeValue(f, bs, cur);
            DecodeValue(f, bs + tail, cur) == if r.Ok? then Ok(r.value, r.rest + tail) else Fail
  {
    hide DecodeScalar;
    hide TakeDelimited;
    hide DecodeMessage;
    if f.ltype.Packable() {
      ScalarExtends(f, bs, tail);
    } else {
      TakeDelimitedExtends(bs, tail);
    }
  }

  lemma DecodeSlotExtends(f: Field, wireType: nat, bs: bytes, s: Slot, tail: bytes)
    requires FieldEnd(f, wireType, bs).Some?
    ensures var r := DecodeSlot(f, wireType, bs, s);
            DecodeSlot(f, wireType, bs + tail, s) == if r.Ok? then Ok(r.value, r.rest + tail) else Fail
  {
    hide DecodeValue;
    hide TakeDelimited;
    hide ValueEnd;
    if f.htype.HRepeated? && wireType == WT_STRING && f.ltype.Packable() {
      TakeDelimitedExtends(bs, tail);
    } else {
      var cur :=
        match s
        case Single(v) => v
        case Flagged(_, v) => v
        case Items(_) => DefaultValue(f)
        case Union(which, v) => if f.ltype.LSubmessage? && which != f.tag then DefaultValue(f) else v;
      DecodeValueExtends(f, bs, cur, tail);
    }
  }

  /** One record depends on its own bytes only. */
  lemma DecodeRecordExtends(t: Table, tag: nat, wireType: nat, bs: bytes, st: LoopState, tail: bytes)
    requires |st.slots| == SlotCount(t, |t|)
    requires RecordEnd(t, tag, wireType, bs).Some?
    ensures var r := DecodeRecord(t, tag, wireType, bs, st);
            DecodeRecord(t, tag, wireType, bs + tail, st) == if r.Ok? then Ok(r.value, r.rest + tail) else Fail
  {
    hide DecodeSlot;
    hide FieldEnd;
    hide SkipField;
    hide DecodeVarint32;
    if t == [] && tag == 0 {
      Varint32Extends(bs, tail);
    } else {
      match FindField(t, tag)
      case None => SkipFieldExtends(wireType, bs, tail);
      case Some(i) =>
        DecodeSlotExtends(t[i], wireType, bs, SlotAt(t, Enter(t, i, st).slots, i), tail);
    }
  }

  lemma RecordEndExtends(t: Table, tag: nat, wireType: nat, bs: bytes, tail: bytes)
    requires RecordEnd(t, tag, wireType, bs).Some?
    ensures RecordEnd(t, tag, wireType, bs + tail) == Some(RecordEnd(t, tag, wireType, bs).value + tail)
  {
    hide SkipField;
    hide DecodeVarint32;
    hide DecodeScalar;
    hide TakeDelimited;
    if t == [] && tag == 0 {
      Varint32Extends(bs, tail);
    } else {
      match FindField(t, tag)
      case None => SkipFieldExtends(wireType, bs, tail);
      case Some(i) =>
        if t[i].ltype.Packable() && !(t[i].htype.HRepeated? && wireType == WT_STRING) {
          ScalarExtends(t[i], bs, tail);
        } else {
          TakeDelimitedExtends(bs, tail);
        }
    }
  }

  // ------------------------------------------------------------- concatenation

  /** After a run over `a`, the main loop goes on with what follows as if it started there. */
  lemma {:induction false} LoopAfterRun(t: Table, a: bytes, b: bytes, st: LoopState)
    requires |st.slots| == SlotCount(t, |t|) && Run(t, a, st).Some?
    ensures DecodeLoop(t, a + b, st) == DecodeLoop(t, b, Run(t, a, st).value)
    ensures Run(t, a + b, st) == Run(t, b, Run(t, a, st).value)
    decreases |a|
  {
    if a == [] {
      assert a + b == b;
    } else {
      DecodeTagExtends(a, b);
      var d := DecodeTag(a);
      RecordEndsThere(t, d.tag, d.wireType, d.rest, st);
      DecodeRecordExtends(t, d.tag, d.wireType, d.rest, st, b);
      var r := DecodeRecord(t, d.tag, d.wireType, d.rest, st);
      LoopAfterRun(t, r.rest, b, r.value);
    }
  }

  lemma LoopOfRun(t: Table, a: bytes, st: LoopState)
    requires |st.slots| == SlotCount(t, |t|) && Run(t, a, st).Some?
    ensures DecodeLoop(t, a, st) == Ok(Run(t, a, st).value, [])
  {
    LoopAfterRun(t, a, [], st);
    assert a + [] == a;
  }

  // ------------------------------------------------------------------- tags alone

  /** The tags of the records in `bs`, up to a zero tag or the first byte that starts no
      record. */
  function WireTags(t: Table, bs: bytes): seq<nat>
    decreases |bs|
  {
    if bs == [] || !DecodeTag(bs).Tag? then []
    else
      var d := DecodeTag(bs);
      match RecordEnd(t, d.tag, d.wireType, d.rest)
      case None => []
      case Some(rest) => [d.tag] + WireTags(t, rest)
  }

  /** Behind whole records, `bs` has a zero tag. */
  predicate ZeroTagEnds(t: Table, bs: bytes)
    decreases |bs|
  {
    bs != [] &&
    match DecodeTag(bs)
    case TagError => false
    case TagEnd(_) => true
    case Tag(tag, wireType, rest) =>
      var end := RecordEnd(t, tag, wireType, rest);
      end.Some? && ZeroTagEnds(t, end.value)
  }

  /** A loop that used up its input without meeting a zero tag was a run. */
  lemma {:induction false} RunOfLoop(t: Table, a: bytes, st: LoopState)
    requires |st.slots| == SlotCount(t, |t|)
    requires DecodeLoop(t, a, st).Ok? && !ZeroTagEnds(t, a)
    ensures Run(t, a, st) == Some(DecodeLoop(t, a, st).value)
    decreases |a|
  {
    hide DecodeRecord;
    hide RecordEnd;
    if a != [] {
      var d := DecodeTag(a);
      var r := DecodeRecord(t, d.tag, d.wireType, d.rest, st);
      RecordEndsThere(t, d.tag, d.wireType, d.rest, st);
      RunOfLoop(t, r.rest, r.value);
    }
  }

  /** Once a zero tag has ended the loop, nothing behind it is looked at. */
  lemma {:induction false} LoopStopsAtZeroTag(t: Table, a: bytes, b: bytes, st: LoopState)
    requires |st.slots| == SlotCount(t, |t|)
    requires DecodeLoop(t, a, st).Ok? && ZeroTagEnds(t, a)
    ensures DecodeLoop(t, a + b, st) == Ok(DecodeLoop(t, a, st).value, DecodeLoop(t, a, st).rest + b)
    decreases |a|
  {
    hide DecodeRecord;
    hide RecordEnd;
    DecodeTagExtends(a, b);
    var d := DecodeTag(a);
    if d.Tag? {
      var r := DecodeRecord(t, d.tag, d.wireType, d.rest, st);
      RecordEndsThere(t, d.tag, d.wireType, d.rest, st);
      DecodeRecordExtends(t, d.tag, d.wireType, d.rest, st, b);
      LoopStopsAtZeroTag(t, r.rest, b, r.value);
    }
  }

  // ------------------------------------------------------------- unknown fields

  /** `u` is one field that the table does not know and that pb_skip_field skips. */
  predicate SkippableField(t: Table, u: bytes) {
    var d := DecodeTag(u);
    && d.Tag?
    && FindField(t, d.tag).None?
    && SkipField(d.wireType, d.rest) == Some([])
  }

  /** The terminator of an empty table answers to tag 0. */
  predicate UnknownField(t: Table, u: bytes) {
    SkippableField(t, u) && (t != [] || DecodeTag(u).tag != 0)
  }

  lemma RunUnknown(t: Table, u: bytes, st: LoopState)
    requires |st.slots| == SlotCount(t, |t|) && UnknownField(t, u)
    ensures Run(t, u, st) == Some(st)
  {
  }

  /** An unknown field at any field boundary changes nothing: neither whether decoding
      succeeds, nor the message, nor how many bytes are left unread. */
  lemma UnknownFieldIsTransparent(t: Table, a: bytes, u: bytes, b: bytes, slots: seq<Slot>)
    requires |slots| == SlotCount(t, |t|)
    requires Run(t, a, Start(slots)).Some? && UnknownField(t, u)
    ensures DecodeMessage(t, a + u + b, slots) == DecodeMessage(t, a + b, slots)
  {
    var st := Start(slots);
    RunUnknown(t, u, Run(t, a, st).value);
    LoopAfterRun(t, a, u + b, st);
    LoopAfterRun(t, u, b, Run(t, a, st).value);
    LoopAfterRun(t, a, b, st);
    assert a + u + b == a + (u + b);
  }

  /** The guard above is needed: for a message type without fields this field is skippable,
      but the decoder takes its length for a bool and its contents for the next tag. */
  lemma TagZeroOnEmptyTable()
    ensures var u: bytes := [2, 1, 65];
            && DecodeTag(u) == Tag(0, WT_STRING, [1, 65]) && SkippableField([], u)
            && DecodeMessage([], [], []) == Ok([], [])
            && DecodeMessage([], u, []).Fail?
  {
    var u: bytes := [2, 1, 65];
    assert u[1..] == [1, 65] && u[1..][1..] == [65] && [65][1..] == [];
    assert DecodeVarint32([1, 65]) == Ok(1, [65]);
    assert [65][..1] == [65];
    assert TakeDelimited([1, 65]) == Ok([65], []);
    assert DecodeTag([65]) == Tag(8, WT_64BIT, []);
    assert DecodeRecord([], 0, WT_STRING, [1, 65], Start([])) == Ok(Start([]), [65]);
    assert DecodeRecord([], 8, WT_64BIT, [], Start([])).Fail?;
    assert DecodeLoop([], [65], Start([])).Fail?;
  }

  /** Exactly which bytes are transparent to a message type without fields, whatever
      follows them: those that the decoder itself, tag 0 included, reads as whole
      records. */
  lemma EmptyTableTransparency(u: bytes)
    ensures (forall b {:trigger u + b} :: DecodeMessage([], u + b, []) == DecodeMessage([], b, []))
            <==> Run([], u, Start([])).Some?
  {
    hide DecodeLoop;
    hide DecodeMessage;
    hide Run;
    hide ZeroTagEnds;
    if Run([], u, Start([])).Some? {
      RunOfNothing(u, Start([]));
      forall b {:trigger u + b}
        ensures DecodeMessage([], u + b, []) == DecodeMessage([], b, [])
      {
        LoopAfterRun([], u, b, Start([]));
        MessageOfNothing(u + b);
        MessageOfNothing(b);
      }
    } else if forall b {:trigger u + b} :: DecodeMessage([], u + b, []) == DecodeMessage([], b, []) {
      assert u + [] == u;
      MessageOfNothing(u);
      MessageOfNothing([]);
      NothingLeft();
      if ZeroTagEnds([], u) {
        ZeroTagShows(u);
      } else {
        RunOfLoop([], u, Start([]));
      }
    }
  }

  /** Behind a zero tag a further one stays unread. */
  lemma ZeroTagShows(u: bytes)
    requires ZeroTagEnds([], u) && DecodeLoop([], u, Start([])) == Ok(Start([]), [])
    ensures DecodeMessage([], u + [0], []) != DecodeMessage([], [0], [])
  {
    LoopStopsAtZeroTag([], u, [0], Start([]));
    assert DecodeTag([0]) == TagEnd([]);
    assert DecodeLoop([], [0], Start([])) == Ok(Start([]), []);
  }

  lemma NothingLeft()
    ensures DecodeLoop([], [], Start([])) == Ok(Start([]), [])
  {
  }

  /** A message without fields has nothing to change and nothing to check. */
  lemma MessageOfNothing(bs: bytes)
    ensures var r := DecodeLoop([], bs, Start([]));
            && (r.Ok? ==> r.value == Start([]))
            && DecodeMessage([], bs, []) == if r.Ok? then Ok([], r.rest) else Fail
  {
    hide DecodeLoop;
    LoopOfNothing(bs, Start([]));
  }

  lemma {:induction false} LoopOfNothing(bs: bytes, st: LoopState)
    requires st.slots == []
    ensures DecodeLoop([], bs, st).Ok? ==> DecodeLoop([], bs, st).value == st
    decreases |bs|
  {
    if bs != [] && DecodeTag(bs).Tag? {
      var d := DecodeTag(bs);
      var r := DecodeRecord([], d.tag, d.wireType, d.rest, st);
      if r.Ok? {
        LoopOfNothing(r.rest, r.value);
      }
    }
  }

  lemma {:induction false} RunOfNothing(u: bytes, st: LoopState)
    requires st.slots == [] && Run([], u, st).Some?
    ensures Run([], u, st) == Some(st)
    decreases |u|
  {
    if u != [] {
      var d := DecodeTag(u);
      var r := DecodeRecord([], d.tag, d.wireType, d.rest, st);
      RunOfNothing(r.rest, r.value);
    }
  }
}
