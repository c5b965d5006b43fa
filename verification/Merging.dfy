/** Decoding two byte strings into the same struct, one after the other or joined. */
module Merging {
  import opened Wire
  import opened Descriptor
  import opened Encoding
  import opened Decoding
  import opened Scalars
  import opened Message
  import opened Varint
  import opened Records
  import opened RoundTrip

  // ------------------------------------------------- fixed-count arrays on the wire

  /** The entry that the tag names, if that is a fixed-count array. */
  function FixedEntry(t: Table, tag: nat): (r: Option<nat>)
    ensures r.Some? ==> r.value < |t| && t[r.value].FixedCount() && FindField(t, tag) == r
  {
    match FindField(t, tag)
    case None => None
    case Some(i) => if t[i].FixedCount() then Some(i) else None
  }

  /** The first fixed-count array among the tags. */
  function FirstFixed(t: Table, tags: seq<nat>): (r: Option<nat>)
    ensures r.Some? ==> r.value < |t| && t[r.value].FixedCount()
  {
    if tags == [] then None
    else if FixedEntry(t, tags[0]).Some? then FixedEntry(t, tags[0])
    else FirstFixed(t, tags[1..])
  }

  /** The last one. */
  function LastFixed(t: Table, tags: seq<nat>): (r: Option<nat>)
    ensures r.Some? ==> r.value < |t| && t[r.value].FixedCount()
  {
    if tags == [] then None
    else if LastFixed(t, tags[1..]).Some? then LastFixed(t, tags[1..])
    else FixedEntry(t, tags[0])
  }

  /** The joined bytes would go on filling the fixed-count array that `a` has just filled. */
  predicate ArrayResumed(t: Table, a: bytes, b: bytes) {
    var n := LastFixed(t, WireTags(t, a));
    n.Some? && FirstFixed(t, WireTags(t, b)) == n && t[n.value].arraySize > 0
  }

  lemma RecordFixedField(t: Table, tag: nat, wireType: nat, bs: bytes, st: LoopState)
    requires |st.slots| == SlotCount(t, |t|) && DecodeRecord(t, tag, wireType, bs, st).Ok?
    ensures DecodeRecord(t, tag, wireType, bs, st).value.fixedField ==
            if FixedEntry(t, tag).Some? then FixedEntry(t, tag) else st.fixedField
  {
  }

  /** The loop leaves behind the last fixed-count array that was on the wire. */
  lemma {:induction false} LoopFixedField(t: Table, bs: bytes, st: LoopState)
    requires |st.slots| == SlotCount(t, |t|) && DecodeLoop(t, bs, st).Ok?
    ensures DecodeLoop(t, bs, st).value.fixedField ==
            if LastFixed(t, WireTags(t, bs)).Some? then LastFixed(t, WireTags(t, bs)) else st.fixedField
    decreases |bs|
  {
    hide DecodeRecord;
    hide RecordEnd;
    hide DecodeTag;
    hide FixedEntry;
    if bs != [] && DecodeTag(bs).Tag? {
      var d := DecodeTag(bs);
      var r := DecodeRecord(t, d.tag, d.wireType, d.rest, st);
      RecordEndsThere(t, d.tag, d.wireType, d.rest, st);
      RecordFixedField(t, d.tag, d.wireType, d.rest, st);
      LoopFixedField(t, r.rest, r.value);
      assert ([d.tag] + WireTags(t, r.rest))[1..] == WireTags(t, r.rest);
    }
  }

  // --------------------------------------------------- what does not depend on the past

  /** Which required fields were seen before does not influence the decoding, it is only
      carried along. */
  lemma {:induction false} SeenIsCarriedAlong(t: Table, bs: bytes, st: LoopState, more: set<nat>)
    requires |st.slots| == SlotCount(t, |t|)
    ensures var r := DecodeLoop(t, bs, st);
            DecodeLoop(t, bs, st.(seen := st.seen + more)) ==
            if r.Ok? then Ok(r.value.(seen := r.value.seen + more), r.rest) else Fail
    decreases |bs|
  {
    var st2 := st.(seen := st.seen + more);
    if bs != [] {
      var d := DecodeTag(bs);
      if d.Tag? {
        RecordCarriesSeen(t, d.tag, d.wireType, d.rest, st, more);
        var r := DecodeRecord(t, d.tag, d.wireType, d.rest, st);
        if r.Ok? {
          SeenIsCarriedAlong(t, r.rest, r.value, more);
        }
      }
    }
  }

  lemma RecordCarriesSeen(t: Table, tag: nat, wireType: nat, bs: bytes, st: LoopState, more: set<nat>)
    requires |st.slots| == SlotCount(t, |t|)
    ensures var r := DecodeRecord(t, tag, wireType, bs, st);
            DecodeRecord(t, tag, wireType, bs, st.(seen := st.seen + more)) ==
            if r.Ok? then Ok(r.value.(seen := r.value.seen + more), r.rest) else Fail
  {
    var st2 := st.(seen := st.seen + more);
    if !(t == [] && tag == 0) {
      match FindField(t, tag)
      case None =>
      case Some(i) =>
        assert st2.seen + {i} == (st.seen + {i}) + more;
        assert FixedDone(t, st2) == FixedDone(t, st);
        assert Enter(t, i, st2) == Enter(t, i, st).(seen := Enter(t, i, st).seen + more);
    }
  }

  /** Any other record neither looks at the array being filled nor disturbs it. */
  lemma RecordCarriesFixed(t: Table, tag: nat, wireType: nat, bs: bytes, st: LoopState, g: Option<nat>)
    requires |st.slots| == SlotCount(t, |t|) && FixedEntry(t, tag).None?
    requires g.Some? ==> g.value < |t| && t[g.value].FixedCount()
    ensures var r := DecodeRecord(t, tag, wireType, bs, st);
            && DecodeRecord(t, tag, wireType, bs, st.(fixedField := g)) ==
               (if r.Ok? then Ok(r.value.(fixedField := g), r.rest) else Fail)
            && (r.Ok? && FixedDone(t, st.(fixedField := g)) ==> FixedDone(t, r.value.(fixedField := g)))
  {
    hide DecodeSlot;
    hide SlotCount;
    var found := FindField(t, tag);
    if found.Some? && g.Some? {
      Apart(t, found.value, g.value);
    }
  }

  lemma Apart(t: Table, i: nat, n: nat)
    requires i < |t| && n < |t| && i != n && t[n].FixedCount()
    ensures SlotOf(t, i) != SlotOf(t, n)
  {
    if i < n {
      SlotsApart(t, i, n);
    } else {
      SlotsApart(t, n, i);
    }
  }

  /** A fixed-count array starts afresh, unless it is the one just filled. */
  lemma RecordStartsAfresh(t: Table, tag: nat, wireType: nat, bs: bytes, st: LoopState, g: Option<nat>)
    requires |st.slots| == SlotCount(t, |t|) && st.fixedField.None? && FixedEntry(t, tag).Some?
    requires FixedDone(t, st.(fixedField := g))
    requires FixedEntry(t, tag) != g || t[g.value].arraySize == 0
    ensures DecodeRecord(t, tag, wireType, bs, st.(fixedField := g)) == DecodeRecord(t, tag, wireType, bs, st)
  {
    hide DecodeSlot;
    var i := FixedEntry(t, tag).value;
    var st' := st.(fixedField := g);
    if g == Some(i) {
      assert SlotAt(t, st.slots, i) == Items([]);
      assert WithSlot(t, st.slots, i, Items([])) == st.slots;
    }
    assert Enter(t, i, st') == Enter(t, i, st);
  }

  /** Two states that differ in the array filled last agree from the next fixed-count array
      on, or to the end. */
  lemma {:induction false} LoopForgetsFixed(t: Table, bs: bytes, st: LoopState, g: Option<nat>)
    requires |st.slots| == SlotCount(t, |t|) && st.fixedField.None? && DecodeLoop(t, bs, st).Ok?
    requires g.Some? ==> g.value < |t| && t[g.value].FixedCount()
    requires FixedDone(t, st.(fixedField := g))
    requires g.Some? && FirstFixed(t, WireTags(t, bs)) == g ==> t[g.value].arraySize == 0
    ensures var r := DecodeLoop(t, bs, st);
            var r' := DecodeLoop(t, bs, st.(fixedField := g));
            r' == r || (r' == Ok(r.value.(fixedField := g), r.rest) && FixedDone(t, r'.value))
    decreases |bs|
  {
    hide DecodeRecord;
    hide RecordEnd;
    hide DecodeTag;
    hide FixedEntry;
    hide FixedDone;
    var st' := st.(fixedField := g);
    if bs != [] && DecodeTag(bs).Tag? {
      var d := DecodeTag(bs);
      var r := DecodeRecord(t, d.tag, d.wireType, d.rest, st);
      RecordEndsThere(t, d.tag, d.wireType, d.rest, st);
      assert ([d.tag] + WireTags(t, r.rest))[1..] == WireTags(t, r.rest);
      if FixedEntry(t, d.tag).Some? {
        RecordStartsAfresh(t, d.tag, d.wireType, d.rest, st, g);
      } else {
        RecordCarriesFixed(t, d.tag, d.wireType, d.rest, st, g);
        RecordFixedField(t, d.tag, d.wireType, d.rest, st);
        LoopForgetsFixed(t, r.rest, r.value, g);
      }
    }
  }

  // ------------------------------------------------------------- filling a full array

  /** The state with entry n holding `full`. */
  function Filled(t: Table, st: LoopState, n: nat, full: seq<Value>): (r: LoopState)
    requires n < |t| && |st.slots| == SlotCount(t, |t|)
    ensures |r.slots| == |st.slots|
  {
    st.(slots := WithSlot(t, st.slots, n, Items(full)))
  }

  /** A full array takes an empty chunk and nothing else. */
  lemma FullSlot(f: Field, wireType: nat, bs: bytes, full: seq<Value>)
    requires f.FixedCount() && |full| == f.arraySize > 0 && DecodeSlot(f, wireType, bs, Items([])).Ok?
    ensures var r, r' := DecodeSlot(f, wireType, bs, Items([])), DecodeSlot(f, wireType, bs, Items(full));
            r'.Fail? || (r.value == Items([]) && r' == Ok(Items(full), r.rest))
  {
    hide DecodeValue;
    hide TakeDelimited;
  }

  /** Records of other fields do the same whether entry n is empty or full. */
  lemma RecordCommutes(t: Table, tag: nat, wireType: nat, bs: bytes, st: LoopState, n: nat, full: seq<Value>)
    requires |st.slots| == SlotCount(t, |t|) && n < |t| && t[n].FixedCount()
    requires FixedEntry(t, tag).None? && DecodeRecord(t, tag, wireType, bs, st).Ok?
    ensures var r := DecodeRecord(t, tag, wireType, bs, st);
            && DecodeRecord(t, tag, wireType, bs, Filled(t, st, n, full)) == Ok(Filled(t, r.value, n, full), r.rest)
            && SlotAt(t, r.value.slots, n) == SlotAt(t, st.slots, n)
  {
    hide DecodeSlot;
    hide SlotCount;
    var found := FindField(t, tag);
    if !(t == [] && tag == 0) && found.Some? {
      var i := found.value;
      Apart(t, i, n);
      var s := DecodeSlot(t[i], wireType, bs, SlotAt(t, st.slots, i)).value;
      assert WithSlot(t, WithSlot(t, st.slots, n, Items(full)), i, s)
          == WithSlot(t, WithSlot(t, st.slots, i, s), n, Items(full));
    }
  }

  /** Bytes that fill the array from empty overflow it when it is full. */
  lemma {:induction false} FullArrayRefuses(t: Table, bs: bytes, st: LoopState, n: nat, full: seq<Value>)
    requires |st.slots| == SlotCount(t, |t|) && n < |t| && t[n].FixedCount()
    requires st.fixedField == Some(n) && SlotAt(t, st.slots, n) == Items([]) && |full| == t[n].arraySize > 0
    requires DecodeLoop(t, bs, st).Ok? && FixedDone(t, DecodeLoop(t, bs, st).value)
    ensures DecodeLoop(t, bs, Filled(t, st, n, full)).Fail?
    decreases |bs|
  {
    hide DecodeTag;
    hide DecodeRecord;
    hide SlotAt;
    hide WithSlot;
    var d := DecodeTag(bs);
    if bs != [] && d.Tag? {
      var r := DecodeRecord(t, d.tag, d.wireType, d.rest, st);
      var entry := FixedEntry(t, d.tag);
      if entry.None? {
        RecordFixedField(t, d.tag, d.wireType, d.rest, st);
        RecordCommutes(t, d.tag, d.wireType, d.rest, st, n, full);
        FullArrayRefuses(t, r.rest, r.value, n, full);
      } else {
        ArrayRecord(t, d.tag, d.wireType, d.rest, st, n, full);
        if DecodeRecord(t, d.tag, d.wireType, d.rest, Filled(t, st, n, full)).Ok? {
          FullArrayRefuses(t, r.rest, st, n, full);
        }
      }
    }
  }

  lemma ArrayRecord(t: Table, tag: nat, wireType: nat, bs: bytes, st: LoopState, n: nat, full: seq<Value>)
    requires |st.slots| == SlotCount(t, |t|) && n < |t| && t[n].FixedCount()
    requires st.fixedField == Some(n) && SlotAt(t, st.slots, n) == Items([]) && |full| == t[n].arraySize > 0
    requires FixedEntry(t, tag).Some? && DecodeRecord(t, tag, wireType, bs, st).Ok?
    ensures var r := DecodeRecord(t, tag, wireType, bs, st);
            var r' := DecodeRecord(t, tag, wireType, bs, Filled(t, st, n, full));
            r'.Fail? || (r.value == st && r' == Ok(Filled(t, st, n, full), r.rest))
  {
    hide DecodeSlot;
    hide SlotCount;
    assert FixedEntry(t, tag) == Some(n);
    FullSlot(t[n], wireType, bs, full);
    assert WithSlot(t, st.slots, n, Items([])) == st.slots;
    assert WithSlot(t, Filled(t, st, n, full).slots, n, Items(full)) == Filled(t, st, n, full).slots;
  }

  /** The joined decoding fails where `bs` alone starts the array afresh. */
  lemma {:induction false} ResumedArrayFails(t: Table, bs: bytes, st: LoopState, n: nat)
    requires |st.slots| == SlotCount(t, |t|) && st.fixedField.None? && n < |t|
    requires FirstFixed(t, WireTags(t, bs)) == Some(n) && t[n].arraySize > 0
    requires FixedDone(t, st.(fixedField := Some(n)))
    requires DecodeLoop(t, bs, st).Ok? && FixedDone(t, DecodeLoop(t, bs, st).value)
    ensures DecodeLoop(t, bs, st.(fixedField := Some(n))).Fail?
    decreases |bs|
  {
    hide DecodeTag;
    hide DecodeRecord;
    hide RecordEnd;
    hide FixedEntry;
    hide FixedDone;
    var d := DecodeTag(bs);
    var r := DecodeRecord(t, d.tag, d.wireType, d.rest, st);
    RecordEndsThere(t, d.tag, d.wireType, d.rest, st);
    assert ([d.tag] + WireTags(t, r.rest))[1..] == WireTags(t, r.rest);
    if FixedEntry(t, d.tag).None? {
      RecordCarriesFixed(t, d.tag, d.wireType, d.rest, st, Some(n));
      RecordFixedField(t, d.tag, d.wireType, d.rest, st);
      ResumedArrayFails(t, r.rest, r.value, n);
    } else {
      var full := Emptied(t, d.tag, d.wireType, d.rest, st, n);
      var st1 := st.(fixedField := Some(n), slots := WithSlot(t, st.slots, n, Items([])));
      assert DecodeLoop(t, bs, st1) == DecodeLoop(t, bs, st);
      FullArrayRefuses(t, bs, st1, n, full);
    }
  }

  /** Naming the array and starting from an empty one are the same. */
  lemma Emptied(t: Table, tag: nat, wireType: nat, bs: bytes, st: LoopState, n: nat) returns (full: seq<Value>)
    requires |st.slots| == SlotCount(t, |t|) && st.fixedField.None? && n < |t|
    requires FixedEntry(t, tag) == Some(n) && FixedDone(t, st.(fixedField := Some(n)))
    ensures var st1 := st.(fixedField := Some(n), slots := WithSlot(t, st.slots, n, Items([])));
            && DecodeRecord(t, tag, wireType, bs, st1) == DecodeRecord(t, tag, wireType, bs, st)
            && Filled(t, st1, n, full) == st.(fixedField := Some(n))
    ensures |full| == t[n].arraySize
  {
    hide DecodeSlot;
    full := SlotAt(t, st.slots, n).items;
    var st1 := st.(fixedField := Some(n), slots := WithSlot(t, st.slots, n, Items([])));
    assert Enter(t, n, st) == Enter(t, n, st1);
    assert WithSlot(t, st1.slots, n, Items(full)) == st.slots;
  }

  // ---------------------------------------------------------------------- merging

  lemma RequiredKept(t: Table, seen: set<nat>, more: set<nat>)
    requires RequiredSeenFrom(t, seen, 0)
    ensures RequiredSeenFrom(t, seen + more, 0)
  {
  }

  /** Let a and then b decode into the same struct, a without a zero tag. Then a ++ b
      decodes to the same struct, nested messages and oneofs included, if and only if b
      does not begin its fixed-count arrays with the one that a filled last; if it does,
      the joined bytes are refused. */
  lemma MergeByConcatenation(t: Table, a: bytes, b: bytes, slots: seq<Slot>)
    requires |slots| == SlotCount(t, |t|)
    requires !ZeroTagEnds(t, a)
    requires DecodeMessage(t, a, slots).Ok?
    requires DecodeMessage(t, b, DecodeMessage(t, a, slots).value).Ok?
    ensures DecodeMessage(t, a + b, slots) ==
            if ArrayResumed(t, a, b) then Fail else DecodeMessage(t, b, DecodeMessage(t, a, slots).value)
  {
    hide DecodeLoop;
    hide WireTags;
    hide FirstFixed;
    hide LastFixed;
    hide FixedDone;
    hide RequiredSeenFrom;
    var st := Start(slots);
    RunOfLoop(t, a, st);
    LoopAfterRun(t, a, b, st);
    LoopFixedField(t, a, st);
    var mid := DecodeLoop(t, a, st).value;
    var st0 := Start(mid.slots);
    var g := mid.fixedField;
    var st1 := st0.(fixedField := g);
    assert mid == st1.(seen := st1.seen + mid.seen);
    SeenIsCarriedAlong(t, b, st1, mid.seen);
    DoneAlike(t, mid, st1);
    var r0, r1 := DecodeLoop(t, b, st0), DecodeLoop(t, b, st1);
    if ArrayResumed(t, a, b) {
      ResumedArrayFails(t, b, st0, g.value);
    } else {
      LoopForgetsFixed(t, b, st0, g);
      RequiredKept(t, r0.value.seen, mid.seen);
      DoneAlike(t, r1.value, r1.value.(seen := r1.value.seen + mid.seen));
    }
  }

  lemma DoneAlike(t: Table, a: LoopState, b: LoopState)
    requires a.slots == b.slots && a.fixedField == b.fixedField && |a.slots| == SlotCount(t, |t|)
    ensures FixedDone(t, a) == FixedDone(t, b)
  {
  }

  /** A fixed-count array of one item, received twice: either half decodes into the struct
      that the other one left, the joined bytes do not. */
  lemma ArrayReceivedTwice()
    ensures var t := [ONE_ITEM];
            var m1 := [Items([Num(5)])];
            && DecodeMessage(t, [8, 5], [Items([])]) == Ok(m1, [])
            && DecodeMessage(t, [8, 6], m1) == Ok([Items([Num(6)])], [])
            && DecodeMessage(t, [8, 5, 8, 6], [Items([])]).Fail?
  {
    var t := [ONE_ITEM];
    assert SlotCount(t, 1) == 1 + SlotCount(t, 0);
    OneItem(5, [Items([])]);
    OneItem(6, [Items([Num(5)])]);
    assert [8, 5] + [8, 6] == [8, 5, 8, 6];
    MergeByConcatenation(t, [8, 5], [8, 6], [Items([])]);
  }

  const ONE_ITEM: Field := Field(1, AStatic, HRepeated, LUVarint, 0, 0, 1, 1, NullPtr)

  lemma OneItemSlot(n: byte)
    requires n < 128
    ensures DecodeSlot(ONE_ITEM, WT_VARINT, [n], Items([])) == Ok(Items([Num(n)]), [])
    ensures FieldEnd(ONE_ITEM, WT_VARINT, [n]) == Some([])
  {
    assert EncodeVarint(n) + [] == [n];
    VarintRoundTrip(n, []);
    assert DecodeScalar(ONE_ITEM, [n]) == Ok(n, []);
    assert DecodeValue(ONE_ITEM, [n], DefaultValue(ONE_ITEM)) == Ok(Num(n), []);
    assert [] + [Num(n)] == [Num(n)];
  }

  lemma OneItemRecord(n: byte, slots: seq<Slot>)
    requires n < 128 && |slots| == 1
    ensures SlotCount([ONE_ITEM], 1) == 1 && FindField([ONE_ITEM], 1) == Some(0)
    ensures DecodeRecord([ONE_ITEM], 1, WT_VARINT, [n], Start(slots)) ==
            Ok(LoopState([Items([Num(n)])], {}, Some(0)), [])
    ensures RecordEnd([ONE_ITEM], 1, WT_VARINT, [n]) == Some([])
  {
    hide DecodeSlot;
    hide FieldEnd;
    var t := [ONE_ITEM];
    assert SlotCount(t, 1) == 1 + SlotCount(t, 0);
    OneItemSlot(n);
    assert Matches(t, 0, 1);
    var st0 := Enter(t, 0, Start(slots));
    assert st0 == LoopState([Items([])], {}, Some(0)) && SlotAt(t, st0.slots, 0) == Items([]);
    assert WithSlot(t, st0.slots, 0, Items([Num(n)])) == [Items([Num(n)])];
  }

  lemma OneItem(n: byte, slots: seq<Slot>)
    requires n < 128 && |slots| == 1
    ensures SlotCount([ONE_ITEM], 1) == 1
    ensures DecodeMessage([ONE_ITEM], [8, n], slots) == Ok([Items([Num(n)])], [])
    ensures WireTags([ONE_ITEM], [8, n]) == [1] && !ZeroTagEnds([ONE_ITEM], [8, n])
    ensures FirstFixed([ONE_ITEM], [1]) == LastFixed([ONE_ITEM], [1]) == Some(0)
  {
    hide DecodeRecord;
    hide RecordEnd;
    var t, bs: bytes := [ONE_ITEM], [8, n];
    OneItemRecord(n, slots);
    assert bs[1..] == [n];
    assert DecodeTag(bs) == Tag(1, WT_VARINT, [n]);
    var st1 := LoopState([Items([Num(n)])], {}, Some(0));
    assert DecodeLoop(t, [], st1) == Ok(st1, []);
    assert WireTags(t, []) == [];
    assert [1][1..] == [];
  }

  /** The other case: once a zero tag has ended a, nothing behind it is looked at, so b is
      left unread instead of merged. */
  lemma NoMergeBehindTerminator(t: Table, a: bytes, b: bytes, slots: seq<Slot>)
    requires |slots| == SlotCount(t, |t|)
    requires ZeroTagEnds(t, a)
    requires DecodeMessage(t, a, slots).Ok?
    ensures DecodeMessage(t, a + b, slots) ==
            Ok(DecodeMessage(t, a, slots).value, DecodeMessage(t, a, slots).rest + b)
  {
    LoopStopsAtZeroTag(t, a, b, Start(slots));
  }
}
