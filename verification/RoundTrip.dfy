/** Decoding what was encoded gives the same message back. */
module RoundTrip {
  import opened Wire
  import opened Bits
  import opened Descriptor
  import opened Scalars
  import opened Message
  import opened Encoding
  import opened Decoding
  import opened Records
  import opened Packed

  // --------------------------------------------------- what callers must respect

  /** Strings have their NUL inside data_size and a oneof selector is 0 or the tag of a
      member of that union, in every part that is present. */
  ghost predicate Sound(t: Table, m: seq<Slot>)
    requires |m| == SlotCount(t, |t|)
    decreases t
  {
    forall i {:trigger t[i]} | 0 <= i < |t| ::
      && SoundSlot(t[i], SlotAt(t, m, i))
      && KnownSelector(t, i, SlotAt(t, m, i))
  }

  ghost predicate SoundSlot(f: Field, s: Slot)
    decreases f, 1
  {
    match s
    case Single(v) => SoundValue(f, v)
    case Flagged(has, v) => has ==> SoundValue(f, v)
    case Items(items) => forall k | 0 <= k < |items| :: SoundValue(f, items[k])
    case Union(which, v) => which == f.tag ==> SoundValue(f, v)
  }

  ghost predicate SoundValue(f: Field, v: Value)
    decreases f, 0
  {
    && (f.ltype.LString? && v.Blob? ==> |UpToNul(v.bs)| < f.dataSize)
    && (f.ltype.LSubmessage? && f.ptr.Submsg? && v.Msg? && |v.slots| == SlotCount(f.ptr.fields, |f.ptr.fields|) ==>
          Sound(f.ptr.fields, v.slots))
  }

  // -------------------------------------------------------- slots and their entries

  /** Only union members share a slot. */
  lemma SlotsApart(t: Table, i: nat, j: nat)
    requires i < j < |t| && !(t[i].htype.HOneof? && t[j].htype.HOneof?)
    ensures SlotOf(t, i) < SlotOf(t, j)
  {
    if t[j].htype.HOneof? {
      SlotCountMonotone(t, i + 2, j + 1);
    } else {
      SlotCountMonotone(t, i + 1, j);
    }
  }

  /** An omitted proto3 message comes back as the same message, because the receiver
      starts from defaults. */
  lemma {:induction false} OmittedIsDefault(t: Table, m: seq<Slot>)
    requires WellFormed(t) && Typed(t, m) && IsDefaultMessage(t, m)
    ensures SameMessage(t, m, Defaults(t))
    decreases t, 1
  {
    forall i {:trigger SlotAt(t, m, i)} | 0 <= i < |t|
      ensures SameSlot(t[i], SlotAt(t, m, i), SlotAt(t, Defaults(t), i))
    {
      DefaultsAt(t, |t|, i);
      assert WellFormedField(t[i]) && SlotTyped(t[i], SlotAt(t, m, i));
      if t[i].Singular() {
        OmittedValueIsDefault(t[i], SlotAt(t, m, i).v);
      }
    }
  }

  lemma {:induction false} OmittedValueIsDefault(f: Field, v: Value)
    requires WellFormedField(f) && f.Singular() && ValueTyped(f, v) && IsZero(f, v)
    ensures SameValue(f, v, DefaultValue(f))
    decreases f, 0
  {
    if f.ltype.LSubmessage? {
      OmittedIsDefault(f.ptr.fields, v.slots);
    }
  }

  // --------------------------------------------------------------- one record

  /** A tag followed by a body that the entry's decoder uses up is one record. */
  lemma RunOneRecord(t: Table, i: nat, wireType: nat, body: bytes, st: LoopState)
    requires WellFormed(t) && i < |t| && |st.slots| == SlotCount(t, |t|) && wireType < 8
    requires st.fixedField == Some(i) || FixedDone(t, st)
    requires var r := DecodeSlot(t[i], wireType, body, SlotAt(t, Enter(t, i, st).slots, i)); r.Ok? && r.rest == []
    ensures var st1 := Enter(t, i, st);
            var r := DecodeSlot(t[i], wireType, body, SlotAt(t, st1.slots, i));
            Run(t, EncodeTag(t[i].tag, wireType) + body, st) ==
            Some(st1.(slots := WithSlot(t, st1.slots, i, r.value)))
  {
    hide DecodeSlot;
    hide EncodeTag;
    assert WellFormedField(t[i]);
    UniqueField(t, i);
    TagRoundTrip(t[i].tag, wireType, body);
  }

  // -------------------------------------------------------------- the invariant

  /** The decoder has seen the first n fields of m: those are restored, the others still
      have their defaults. */
  ghost predicate Restoring(t: Table, m: seq<Slot>, n: nat, st: LoopState)
  {
    && |m| == |st.slots| == SlotCount(t, |t|)
    && (forall i {:trigger SlotAt(t, m, i)} | 0 <= i < |t| ::
          EntryState(t, n, i, SlotAt(t, m, i), SlotAt(t, st.slots, i)))
    && (forall i {:trigger t[i]} | 0 <= i < n && i < |t| && t[i].htype.HRequired? :: i in st.seen)
    && (st.fixedField.Some? ==> st.fixedField.value < n)
    && FixedDone(t, st)
  }

  /** s is what entry i holds in the message, d what has been decoded so far. */
  ghost predicate EntryState(t: Table, n: nat, i: nat, s: Slot, d: Slot)
    requires i < |t|
  {
    if t[i].htype.HOneof? then
      && s.Union? && d.Union?
      && (d.which == 0 || (d.which == s.which && TagAmong(t, n, d.which)))
      && (i < n && s.which == t[i].tag ==> d.which == s.which && SameValue(t[i], s.v, d.v))
    else if i < n then SameSlot(t[i], s, d)
    else d == DefaultSlot(t[i])
  }

  ghost predicate TagAmong(t: Table, n: nat, tag: nat) {
    exists k | 0 <= k < n && k < |t| :: t[k].tag == tag
  }

  lemma RestoringStarts(t: Table, m: seq<Slot>)
    requires WellFormed(t) && Typed(t, m)
    ensures Restoring(t, m, 0, Start(Defaults(t)))
  {
    var st := Start(Defaults(t));
    forall i {:trigger SlotAt(t, m, i)} | 0 <= i < |t|
      ensures EntryState(t, 0, i, SlotAt(t, m, i), SlotAt(t, st.slots, i))
    {
      EntryStarts(t, m, i);
    }
    hide EntryState;
    assert FixedDone(t, st);
  }

  lemma EntryStarts(t: Table, m: seq<Slot>, i: nat)
    requires Typed(t, m) && i < |t|
    ensures EntryState(t, 0, i, SlotAt(t, m, i), SlotAt(t, Defaults(t), i))
  {
    DefaultsAt(t, |t|, i);
    assert SlotTyped(t[i], SlotAt(t, m, i));
  }

  /** Entry n has been dealt with: its slot is restored, or untouched when the union holds
      another member. */
  ghost predicate EntryDone(t: Table, m: seq<Slot>, n: nat, st: LoopState, st': LoopState)
    requires n < |t|
  {
    && |m| == |st.slots| == |st'.slots| == SlotCount(t, |t|)
    && var s, d := SlotAt(t, m, n), SlotAt(t, st'.slots, n);
    && st'.slots == WithSlot(t, st.slots, n, d)
    && EntryState(t, n + 1, n, s, d)
    && (t[n].htype.HOneof? && s.Union? && s.which != t[n].tag ==> st'.slots == st.slots)
    && st.seen <= st'.seen && (t[n].htype.HRequired? ==> n in st'.seen)
    && (st'.fixedField == st.fixedField || st'.fixedField == Some(n))
  }

  /** Dealing with entry n moves the invariant on. */
  lemma RestoringStep(t: Table, m: seq<Slot>, n: nat, st: LoopState, st': LoopState)
    requires DistinctTags(t) && n < |t| && Restoring(t, m, n, st)
    requires EntryDone(t, m, n, st, st') && FixedDone(t, st')
    ensures Restoring(t, m, n + 1, st')
  {
    hide EntryState;
    hide SlotAt;
    hide WithSlot;
    forall i {:trigger SlotAt(t, m, i)} | 0 <= i < |t|
      ensures EntryState(t, n + 1, i, SlotAt(t, m, i), SlotAt(t, st'.slots, i))
    {
      if i != n {
        assert EntryState(t, n, i, SlotAt(t, m, i), SlotAt(t, st.slots, i));
        EntryStateElsewhere(t, m, n, i, st, st');
      }
    }
  }

  lemma EntryStateElsewhere(t: Table, m: seq<Slot>, n: nat, i: nat, st: LoopState, st': LoopState)
    requires DistinctTags(t) && n < |t| && i < |t| && i != n
    requires EntryDone(t, m, n, st, st')
    requires EntryState(t, n, i, SlotAt(t, m, i), SlotAt(t, st.slots, i))
    ensures EntryState(t, n + 1, i, SlotAt(t, m, i), SlotAt(t, st'.slots, i))
  {
    hide SameSlot;
    hide SameValue;
    hide SlotOf;
    var s, d := SlotAt(t, m, i), SlotAt(t, st.slots, i);
    EntryStateGrows(t, n, i, s, d);
    if !(t[i].htype.HOneof? && t[n].htype.HOneof?) {
      if i < n {
        SlotsApart(t, i, n);
      } else {
        SlotsApart(t, n, i);
      }
    } else if SlotOf(t, i) == SlotOf(t, n) && s.which == t[n].tag {
      assert t[i].tag != t[n].tag;
    }
  }

  lemma EntryStateGrows(t: Table, n: nat, i: nat, s: Slot, d: Slot)
    requires i < |t| && i != n && EntryState(t, n, i, s, d)
    ensures EntryState(t, n + 1, i, s, d)
  {
    hide SameSlot;
    hide SameValue;
    if t[i].htype.HOneof? && d.which != 0 {
      var k :| 0 <= k < n && k < |t| && t[k].tag == d.which;
      assert TagAmong(t, n + 1, d.which);
    }
  }

  // ------------------------------------------------------------- one field

  lemma TaggedSplit(f: Field, v: Value)
    requires EncodeTagged(f, v).Some?
    ensures EncodeValue(f, v).Some?
    ensures EncodeTagged(f, v).value == EncodeTag(f.tag, WireType(f.ltype)) + EncodeValue(f, v).value
  {
  }

  /** One value, read over defaults: the same value, and nothing behind it is touched. */
  lemma {:induction false} ValueRoundTrip(f: Field, v: Value, cur: Value, tail: bytes)
    requires WellFormedField(f) && ValueTyped(f, v) && SoundValue(f, v)
    requires EncodeValue(f, v).Some? && ValueNestedBelow(f, v, TWO_32)
    requires f.ltype.LSubmessage? && !f.htype.HRepeated? ==> cur == DefaultValue(f)
    ensures var r := DecodeValue(f, EncodeValue(f, v).value + tail, cur);
            r.Ok? && r.rest == tail && SameValue(f, v, r.value)
    decreases f, 0, 0
  {
    hide TakeDelimited;
    hide DecodeMessage;
    hide Delimited;
    hide EncodeScalar;
    hide DecodeScalar;
    if f.ltype.Packable() {
      ScalarRoundTrip(f, v.n, tail);
    } else if f.ltype.LSubmessage? {
      var sub := f.ptr.fields;
      var payload := EncodeMessage(sub, v.slots).value;
      DelimitedRoundTrip(payload, tail);
      MessageRoundTrip(sub, v.slots);
    } else {
      var payload := if f.ltype.LString? then StringBytes(f, v.bs) else v.bs;
      assert EncodeValue(f, v) == Some(Delimited(payload));
      DelimitedRoundTrip(payload, tail);
      if f.ltype.LString? {
        UpToNulOfClean(payload);
      }
    }
  }

  /** A required, optional or oneof field that is present is one record. */
  lemma {:induction false} SingleRun(t: Table, n: nat, v: Value, st: LoopState)
    returns (r: Slot)
    requires WellFormed(t) && n < |t| && |st.slots| == SlotCount(t, |t|) && FixedDone(t, st)
    requires !t[n].htype.HRepeated? && ValueTyped(t[n], v) && SoundValue(t[n], v)
    requires EncodeTagged(t[n], v).Some? && ValueNestedBelow(t[n], v, TWO_32)
    requires var d := SlotAt(t, st.slots, n);
             if t[n].htype.HOneof? then d.Union? && d.which != t[n].tag else d == DefaultSlot(t[n])
    ensures var st1 := if t[n].htype.HRequired? then st.(seen := st.seen + {n}) else st;
            Run(t, EncodeTagged(t[n], v).value, st) == Some(st1.(slots := WithSlot(t, st.slots, n, r)))
    ensures match t[n].htype
            case HOneof => r.Union? && r.which == t[n].tag && SameValue(t[n], v, r.v)
            case HOptional =>
              (if t[n].sizeOffset != 0 then r.Flagged? && r.has else r.Single?) && SameValue(t[n], v, r.v)
            case HRequired => r.Single? && SameValue(t[n], v, r.v)
            case HRepeated => true
    decreases t, n, 0
  {
    var f := t[n];
    assert WellFormedField(f);
    TaggedSplit(f, v);
    var e := EncodeValue(f, v).value;
    var d := SlotAt(t, st.slots, n);
    var cur := if f.htype.HOneof? then (if f.ltype.LSubmessage? then DefaultValue(f) else d.v) else DefaultValue(f);
    ValueRoundTrip(f, v, cur, []);
    assert e + [] == e;
    r := DecodeSlot(f, WireType(f.ltype), e, d).value;
    RunOneRecord(t, n, WireType(f.ltype), e, st);
  }

  /** The first k items of an array of strings, bytes or messages, one record each. */
  lemma {:induction false} TaggedItemsRun(t: Table, n: nat, items: seq<Value>, k: nat, st: LoopState)
    returns (ds: seq<Value>)
    requires WellFormed(t) && n < |t| && |st.slots| == SlotCount(t, |t|) && FixedDone(t, st)
    requires t[n].htype.HRepeated? && !t[n].ltype.Packable() && st.fixedField != Some(n)
    requires k <= |items| <= t[n].arraySize
    requires forall j | 0 <= j < |items| :: ValueTyped(t[n], items[j]) && SoundValue(t[n], items[j])
    requires TaggedItems(t[n], items, k).Some?
    requires forall j | 0 <= j < |items| :: ValueNestedBelow(t[n], items[j], TWO_32)
    requires SlotAt(t, st.slots, n) == Items([])
    ensures Run(t, TaggedItems(t[n], items, k).value, st) == Some(AfterItems(t, n, ds, st))
    ensures |ds| == k && forall j | 0 <= j < k :: SameValue(t[n], items[j], ds[j])
    decreases t, n, k
  {
    hide Run;
    hide ValueTyped;
    hide SoundValue;
    hide SameValue;
    hide FixedDone;
    hide WellFormed;
    hide EncodeTagged;
    var f := t[n];
    if k == 0 {
      ds := [];
      assert WithSlot(t, st.slots, n, Items([])) == st.slots;
      EmptyRun(t, st);
    } else {
      var init, last := TaggedItems(f, items, k - 1).value, EncodeTagged(f, items[k - 1]).value;
      var ds0 := TaggedItemsRun(t, n, items, k - 1, st);
      var st0 := AfterItems(t, n, ds0, st);
      LoopAfterRun(t, init, last, st);
      var d := OneItemRun(t, n, items[k - 1], ds0, st);
      ds := ds0 + [d];
    }
  }

  lemma EmptyRun(t: Table, st: LoopState)
    requires |st.slots| == SlotCount(t, |t|)
    ensures Run(t, [], st) == Some(st)
  {
  }

  function AfterItems(t: Table, n: nat, ds: seq<Value>, st: LoopState): (r: LoopState)
    requires n < |t| && |st.slots| == SlotCount(t, |t|)
    ensures |r.slots| == |st.slots|
  {
    LoopState(WithSlot(t, st.slots, n, Items(ds)), st.seen,
              if t[n].FixedCount() && ds != [] then Some(n) else st.fixedField)
  }

  lemma {:induction false} OneItemRun(t: Table, n: nat, v: Value, ds: seq<Value>, st: LoopState)
    returns (d: Value)
    requires WellFormed(t) && n < |t| && |st.slots| == SlotCount(t, |t|) && FixedDone(t, st)
    requires t[n].htype.HRepeated? && !t[n].ltype.Packable() && st.fixedField != Some(n)
    requires |ds| < t[n].arraySize && ValueTyped(t[n], v) && SoundValue(t[n], v)
    requires EncodeTagged(t[n], v).Some? && ValueNestedBelow(t[n], v, TWO_32)
    requires SlotAt(t, st.slots, n) == Items([])
    ensures Run(t, EncodeTagged(t[n], v).value, AfterItems(t, n, ds, st)) == Some(AfterItems(t, n, ds + [d], st))
    ensures SameValue(t[n], v, d)
    decreases t, n, 0
  {
    hide Run;
    hide EncodeTagged;
    hide EncodeTag;
    hide EncodeValue;
    hide ValueTyped;
    hide SoundValue;
    hide SameValue;
    hide ValueNestedBelow;
    hide DefaultValue;
    hide SlotCount;
    var f, st0 := t[n], AfterItems(t, n, ds, st);
    assert WellFormedField(f);
    TaggedSplit(f, v);
    var e := EncodeValue(f, v).value;
    ValueRoundTrip(f, v, DefaultValue(f), []);
    assert e + [] == e;
    d := DecodeValue(f, e, DefaultValue(f)).value;
    assert ds == [] ==> WithSlot(t, st.slots, n, Items([])) == st.slots;
    assert Enter(t, n, st0).slots == st0.slots;
    assert st0.fixedField == Some(n) || FixedDone(t, st0) by {
      if st0.fixedField != Some(n) {
        FixedKept(t, n, Items(ds), st);
      }
    }
    RunOneRecord(t, n, WireType(f.ltype), e, st0);
    assert WithSlot(t, st0.slots, n, Items(ds + [d])) == WithSlot(t, st.slots, n, Items(ds + [d]));
  }

  /** An array of scalars is one packed record. */
  lemma PackedRun(t: Table, n: nat, items: seq<Value>, st: LoopState)
    requires WellFormed(t) && n < |t| && |st.slots| == SlotCount(t, |t|) && FixedDone(t, st)
    requires t[n].htype.HRepeated? && t[n].ltype.Packable() && st.fixedField != Some(n)
    requires 0 < |items| <= t[n].arraySize
    requires forall j | 0 <= j < |items| :: ValueTyped(t[n], items[j])
    requires EncodeItems(t[n], items).Some?
    requires SlotAt(t, st.slots, n) == Items([])
    ensures Run(t, EncodeItems(t[n], items).value, st) == Some(AfterItems(t, n, items, st))
  {
    hide DecodeSlot;
    hide EncodeTag;
    hide PackedPayload;
    hide Delimited;
    hide Run;
    hide ValueTyped;
    var f := t[n];
    assert WellFormedField(f);
    var payload := PackedPayload(f, items, |items|).value;
    PayloadBound(f, items, |items|);
    PackedDecoded(f, items);
    assert WithSlot(t, st.slots, n, Items([])) == st.slots;
    RunOneRecord(t, n, WT_STRING, Delimited(payload), st);
  }

  lemma PackedDecoded(f: Field, items: seq<Value>)
    requires f.htype.HRepeated? && f.ltype.Packable() && |items| <= f.arraySize
    requires forall j | 0 <= j < |items| :: ValueTyped(f, items[j])
    requires var p := PackedPayload(f, items, |items|); p.Some? && |p.value| < TWO_32
    ensures var body := Delimited(PackedPayload(f, items, |items|).value);
            DecodeSlot(f, WT_STRING, body, Items([])) == Ok(Items(items), [])
  {
    hide PackedPayload;
    hide ChunkPayload;
    hide Holds;
    hide DecodeSlot;
    var ns := NumsBehind(f, items);
    PayloadOfChunk(f, ns, |ns|);
    assert ns[..|ns|] == ns;
    ChunkRecordDecoded(f, ns);
  }

  lemma ChunkRecordDecoded(f: Field, ns: seq<int>)
    requires f.htype.HRepeated? && f.ltype.Packable() && |ns| <= f.arraySize
    requires Holds(f, ns) && |ChunkPayload(f, ns)| < TWO_32
    ensures DecodeSlot(f, WT_STRING, Delimited(ChunkPayload(f, ns)), Items([])) == Ok(Items(Nums(ns)), [])
  {
    hide ChunkPayload;
    hide Holds;
    hide TakeDelimited;
    hide Delimited;
    var body := Delimited(ChunkPayload(f, ns));
    assert body + [] == body;
    DelimitedRoundTrip(ChunkPayload(f, ns), []);
    DecodePackedChunk(f, ns, []);
    assert [] + Nums(ns) == Nums(ns);
  }

  lemma NumsBehind(f: Field, items: seq<Value>) returns (ns: seq<int>)
    requires f.ltype.Packable()
    requires forall j | 0 <= j < |items| :: ValueTyped(f, items[j])
    ensures Nums(ns) == items
    ensures forall j | 0 <= j < |ns| :: ScalarTyped(f, ns[j])
  {
    if items == [] {
      ns := [];
    } else {
      var last := items[|items| - 1];
      var init := NumsBehind(f, items[..|items| - 1]);
      assert ValueTyped(f, last);
      ns := init + [last.n];
      assert items == Nums(init) + [last];
    }
  }

  /** The encoder's payload of the first k items, as a chunk. */
  lemma {:induction false} PayloadOfChunk(f: Field, ns: seq<int>, k: nat)
    requires k <= |ns| && f.ltype.Packable()
    requires PackedPayload(f, Nums(ns), k).Some?
    requires forall j | 0 <= j < |ns| :: ScalarTyped(f, ns[j])
    ensures PackedPayload(f, Nums(ns), k).value == ChunkPayload(f, ns[..k]) && Holds(f, ns[..k])
  {
    hide EncodeScalar;
    hide ScalarTyped;
    if k > 0 {
      PayloadOfChunk(f, ns, k - 1);
      assert Nums(ns)[k - 1] == Num(ns[k - 1]);
      assert ns[..k] == ns[..k - 1] + [ns[k - 1]];
      ChunkAppend(f, ns[..k - 1], ns[k - 1]);
    }
  }

  lemma {:induction false} ChunkAppend(f: Field, ns: seq<int>, n: int)
    ensures ChunkPayload(f, ns + [n]) == ChunkPayload(f, ns) + ScalarBytes(f, n)
  {
    if ns == [] {
      assert [] + [n] == [n];
      assert ChunkPayload(f, [n][1..]) == [];
    } else {
      assert (ns + [n])[1..] == ns[1..] + [n];
      ChunkAppend(f, ns[1..], n);
    }
  }

  /** Writing slot n leaves a finished fixed-count array elsewhere finished. */
  lemma FixedKept(t: Table, n: nat, s: Slot, st: LoopState)
    requires n < |t| && |st.slots| == SlotCount(t, |t|) && FixedDone(t, st)
    requires st.fixedField != Some(n)
    requires !t[n].htype.HOneof? || !SlotAt(t, st.slots, n).Items?
    ensures FixedDone(t, st.(slots := WithSlot(t, st.slots, n, s)))
  {
    if st.fixedField.Some? && st.fixedField.value < |t| {
      var j := st.fixedField.value;
      if !t[n].htype.HOneof? {
        if j < n {
          SlotsApart(t, j, n);
        } else {
          SlotsApart(t, n, j);
        }
      }
    }
  }

  lemma {:induction false} FieldRoundTrip(t: Table, m: seq<Slot>, n: nat, st: LoopState) returns (st': LoopState)
    requires WellFormed(t) && Typed(t, m) && Sound(t, m) && n < |t| && Restoring(t, m, n, st)
    requires EncodeSlot(t[n], SlotAt(t, m, n)).Some? && NestedBelow(t, m, TWO_32)
    ensures Run(t, EncodeSlot(t[n], SlotAt(t, m, n)).value, st) == Some(st')
    ensures EntryDone(t, m, n, st, st') && FixedDone(t, st')
    decreases t, n, PB_SIZE_MAX + 2
  {
    var f, s, d := t[n], SlotAt(t, m, n), SlotAt(t, st.slots, n);
    assert WellFormedField(f) && SlotTyped(f, s) && SoundSlot(f, s) && SlotNestedBelow(f, s, TWO_32);
    assert EntryState(t, n, n, s, d);
    if f.htype.HRepeated? {
      st' := ItemsRoundTrip(t, m, n, st);
    } else if WritesNothing(f, s) {
      st' := st;
      assert WithSlot(t, st.slots, n, d) == st.slots;
      SilentDone(t, n, s, d);
    } else {
      if f.htype.HOneof? {
        NotYetSelected(t, n, s, d);
      }
      var r := SingleRun(t, n, s.v, st);
      st' := (if f.htype.HRequired? then st.(seen := st.seen + {n}) else st).(slots := WithSlot(t, st.slots, n, r));
      FixedKept(t, n, r, st);
      if f.htype.HOneof? {
        assert TagAmong(t, n + 1, f.tag);
      }
    }
  }

  lemma SilentDone(t: Table, n: nat, s: Slot, d: Slot)
    requires WellFormed(t) && n < |t| && SlotTyped(t[n], s) && WritesNothing(t[n], s) && EntryState(t, n, n, s, d)
    requires !t[n].htype.HRepeated?
    ensures EntryState(t, n + 1, n, s, d)
  {
    assert WellFormedField(t[n]);
    if t[n].htype.HOneof? {
      EntryStateGrowsUnion(t, n, s, d);
    } else if t[n].Singular() {
      OmittedValueIsDefault(t[n], s.v);
    }
  }

  lemma EntryStateGrowsUnion(t: Table, n: nat, s: Slot, d: Slot)
    requires n < |t| && t[n].htype.HOneof? && s.Union? && s.which != t[n].tag && EntryState(t, n, n, s, d)
    ensures EntryState(t, n + 1, n, s, d)
  {
    if d.which != 0 {
      var k :| 0 <= k < n && k < |t| && t[k].tag == d.which;
      assert TagAmong(t, n + 1, d.which);
    }
  }

  lemma NotYetSelected(t: Table, n: nat, s: Slot, d: Slot)
    requires WellFormed(t) && n < |t| && t[n].htype.HOneof? && EntryState(t, n, n, s, d)
    ensures d.which != t[n].tag
  {
    assert WellFormedField(t[n]);
    assert !TagAmong(t, n, t[n].tag);
  }

  lemma {:induction false} ItemsRoundTrip(t: Table, m: seq<Slot>, n: nat, st: LoopState) returns (st': LoopState)
    requires WellFormed(t) && Typed(t, m) && Sound(t, m) && n < |t| && Restoring(t, m, n, st)
    requires t[n].htype.HRepeated?
    requires EncodeSlot(t[n], SlotAt(t, m, n)).Some? && NestedBelow(t, m, TWO_32)
    ensures Run(t, EncodeSlot(t[n], SlotAt(t, m, n)).value, st) == Some(st')
    ensures EntryDone(t, m, n, st, st') && FixedDone(t, st')
    decreases t, n, PB_SIZE_MAX + 1
  {
    var f, s := t[n], SlotAt(t, m, n);
    assert SlotTyped(f, s) && SoundSlot(f, s) && SlotNestedBelow(f, s, TWO_32);
    assert EntryState(t, n, n, s, SlotAt(t, st.slots, n));
    var ds := s.items;
    if s.items != [] && f.ltype.Packable() {
      PackedRun(t, n, s.items, st);
    } else if s.items != [] {
      ds := TaggedItemsRun(t, n, s.items, |s.items|, st);
    }
    st' := AfterItems(t, n, ds, st);
    assert s.items == [] ==> st' == st by {
      assert WithSlot(t, st.slots, n, Items([])) == st.slots;
    }
    ItemsDone(f, s, ds);
    if !(f.FixedCount() && ds != []) {
      FixedKept(t, n, Items(ds), st);
    }
  }

  lemma ItemsDone(f: Field, s: Slot, ds: seq<Value>)
    requires f.htype.HRepeated? && s.Items? && |ds| == |s.items|
    requires (f.ltype.Packable() && ds == s.items) || forall j | 0 <= j < |ds| :: SameValue(f, s.items[j], ds[j])
    ensures SameSlot(f, s, Items(ds))
  {
  }

  // ------------------------------------------------------------ whole messages

  lemma ShapeOf(t: Table, m: seq<Slot>)
    requires WellFormed(t) && Typed(t, m)
    ensures DistinctTags(t) && |m| == SlotCount(t, |t|)
  {
  }

  lemma {:induction false} PrefixRoundTrip(t: Table, m: seq<Slot>, n: nat) returns (st: LoopState)
    requires WellFormed(t) && Typed(t, m) && Sound(t, m) && n <= |t|
    requires EncodeUpTo(t, m, n).Some? && NestedBelow(t, m, TWO_32)
    ensures Run(t, EncodeUpTo(t, m, n).value, Start(Defaults(t))) == Some(st)
    ensures Restoring(t, m, n, st)
    decreases t, n, 0
  {
    hide Run;
    hide Restoring;
    hide EntryDone;
    hide Sound;
    hide Typed;
    hide WellFormed;
    hide NestedBelow;
    hide EncodeSlot;
    ShapeOf(t, m);
    if n == 0 {
      st := Start(Defaults(t));
      RestoringStarts(t, m);
      EmptyRun(t, st);
    } else {
      var init, last := EncodeUpTo(t, m, n - 1).value, EncodeSlot(t[n - 1], SlotAt(t, m, n - 1)).value;
      var st0 := PrefixRoundTrip(t, m, n - 1);
      st := FieldRoundTrip(t, m, n - 1, st0);
      LoopAfterRun(t, init, last, Start(Defaults(t)));
      RestoringStep(t, m, n - 1, st0, st);
    }
  }

  /** What the main loop holds once a whole message has come in. */
  ghost predicate Received(t: Table, m: seq<Slot>, st: LoopState) {
    && |st.slots| == SlotCount(t, |t|)
    && SameMessage(t, m, st.slots)
    && FixedDone(t, st)
    && RequiredSeenFrom(t, st.seen, 0)
  }

  lemma {:induction false} MessageReceived(t: Table, m: seq<Slot>) returns (st: LoopState)
    requires WellFormed(t) && Typed(t, m) && Sound(t, m)
    requires EncodeMessage(t, m).Some? && NestedBelow(t, m, TWO_32)
    ensures Run(t, EncodeMessage(t, m).value, Start(Defaults(t))) == Some(st)
    ensures Received(t, m, st)
    decreases t, |t| + 1, 0
  {
    st := PrefixRoundTrip(t, m, |t|);
    forall i {:trigger t[i]} | 0 <= i < |t|
      ensures SameSlot(t[i], SlotAt(t, m, i), SlotAt(t, st.slots, i))
    {
      var s, d := SlotAt(t, m, i), SlotAt(t, st.slots, i);
      assert EntryState(t, |t|, i, s, d);
      if t[i].htype.HOneof? {
        UnionRestored(t, m, i, st);
      }
    }
  }

  lemma UnionRestored(t: Table, m: seq<Slot>, i: nat, st: LoopState)
    requires |m| == SlotCount(t, |t|) && Sound(t, m)
    requires Restoring(t, m, |t|, st) && i < |t| && t[i].htype.HOneof?
    ensures SameSlot(t[i], SlotAt(t, m, i), SlotAt(t, st.slots, i))
  {
    var s, d := SlotAt(t, m, i), SlotAt(t, st.slots, i);
    assert EntryState(t, |t|, i, s, d);
    assert SoundSlot(t[i], s) && Selectable(t, SlotOf(t, i), s.which);
    if s.which != 0 {
      var k :| 0 <= k < |t| && t[k].tag == s.which && SlotOf(t, k) == SlotOf(t, i) && t[k].htype.HOneof?;
      assert EntryState(t, |t|, k, SlotAt(t, m, k), SlotAt(t, st.slots, k));
    }
  }

  /** pb_decode of what pb_encode writes succeeds, uses up every byte, and yields the same
      message. */
  lemma {:induction false} MessageRoundTrip(t: Table, m: seq<Slot>)
    requires WellFormed(t) && Typed(t, m) && Sound(t, m)
    requires EncodeMessage(t, m).Some? && NestedBelow(t, m, TWO_32)
    ensures var r := Decode(t, EncodeMessage(t, m).value);
            r.Ok? && r.rest == [] && SameMessage(t, m, r.value)
    decreases t, |t| + 2, 0
  {
    var st := MessageReceived(t, m);
    LoopOfRun(t, EncodeMessage(t, m).value, Start(Defaults(t)));
  }
}
