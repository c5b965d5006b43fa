/** Fields may arrive in any order, as long as each part of the struct sees its own in
    order. */
module Ordering {
  import opened Wire
  import opened Descriptor
  import opened Decoding
  import opened Records
  import opened Merging

  /** One record that uses up its bytes. */
  predicate IsRecord(t: Table, u: bytes) {
    u != [] && DecodeTag(u).Tag?
    && RecordEnd(t, DecodeTag(u).tag, DecodeTag(u).wireType, DecodeTag(u).rest) == Some([])
  }

  /** What a record may touch: nothing, one slot, or the fixed-count arrays, which share
      the counter. */
  datatype Part = Nothing | InSlot(slot: nat) | FixedArrays

  function PartOfEntry(t: Table, i: nat): Part
    requires i < |t|
  {
    if t[i].FixedCount() then FixedArrays else InSlot(SlotOf(t, i))
  }

  function PartOf(t: Table, u: bytes): Part {
    var d := DecodeTag(u);
    if !d.Tag? || FindField(t, d.tag).None? then Nothing else PartOfEntry(t, FindField(t, d.tag).value)
  }

  function Concat(us: seq<bytes>): bytes {
    if us == [] then [] else us[0] + Concat(us[1..])
  }

  /** The records that touch a part, in order. */
  function Of(t: Table, us: seq<bytes>, p: Part): seq<bytes> {
    if us == [] then []
    else (if PartOf(t, us[0]) == p then [us[0]] else []) + Of(t, us[1..], p)
  }

  /** The array being filled is a fixed-count array. */
  ghost predicate Rooted(t: Table, st: LoopState) {
    && |st.slots| == SlotCount(t, |t|)
    && (st.fixedField.Some? ==> st.fixedField.value < |t| && t[st.fixedField.value].FixedCount())
  }

  ghost predicate AllRecords(t: Table, us: seq<bytes>) {
    forall k | 0 <= k < |us| :: IsRecord(t, us[k])
  }

  // ------------------------------------------------------------- record by record

  /** A single record's effect. */
  function Effect(t: Table, u: bytes, st: LoopState): (r: Option<LoopState>)
    requires |st.slots| == SlotCount(t, |t|)
    ensures r.Some? ==> |r.value.slots| == SlotCount(t, |t|)
  {
    var d := DecodeTag(u);
    if !d.Tag? then None
    else
      match DecodeRecord(t, d.tag, d.wireType, d.rest, st)
      case Fail => None
      case Ok(st', _) => Some(st')
  }

  lemma RunFirst(t: Table, u: bytes, more: bytes, st: LoopState)
    requires IsRecord(t, u) && |st.slots| == SlotCount(t, |t|)
    ensures var e := Effect(t, u, st);
            Run(t, u + more, st) == if e.Some? then Run(t, more, e.value) else None
  {
    hide DecodeTag;
    hide DecodeRecord;
    hide RecordEnd;
    DecodeTagExtends(u, more);
    var d := DecodeTag(u);
    DecodeRecordExtends(t, d.tag, d.wireType, d.rest, st, more);
    if DecodeRecord(t, d.tag, d.wireType, d.rest, st).Ok? {
      RecordEndsThere(t, d.tag, d.wireType, d.rest, st);
      assert [] + more == more;
    }
  }

  lemma EffectRooted(t: Table, u: bytes, st: LoopState)
    requires Rooted(t, st) && Effect(t, u, st).Some?
    ensures Rooted(t, Effect(t, u, st).value)
  {
    hide DecodeRecord;
    var d := DecodeTag(u);
    RecordFixedField(t, d.tag, d.wireType, d.rest, st);
  }

  lemma NothingTouched(t: Table, u: bytes, st: LoopState)
    requires IsRecord(t, u) && PartOf(t, u) == Nothing && |st.slots| == SlotCount(t, |t|)
    ensures Effect(t, u, st) == Some(st)
  {
  }

  // ------------------------------------------------------------------ independence

  /** What the record of entry i turns st into, if it may begin and can be decoded. */
  lemma KnownEffect(t: Table, u: bytes, i: nat, st: LoopState)
    requires Rooted(t, st) && DecodeTag(u).Tag? && FindField(t, DecodeTag(u).tag) == Some(i)
    ensures var d, st1 := DecodeTag(u), Enter(t, i, st);
            var r := DecodeSlot(t[i], d.wireType, d.rest, SlotAt(t, st1.slots, i));
            Effect(t, u, st) ==
            if (t[i].FixedCount() && st.fixedField != Some(i) && !FixedDone(t, st)) || r.Fail? then None
            else Some(st1.(slots := WithSlot(t, st1.slots, i, r.value)))
  {
    hide DecodeSlot;
    hide DecodeTag;
  }

  /** The state behind the records of entries i and j, whichever came first. */
  function Both(t: Table, i: nat, a: LoopState, j: nat, b: LoopState, st: LoopState): LoopState
    requires i < |t| && j < |t| && |st.slots| == |a.slots| == |b.slots| == SlotCount(t, |t|)
  {
    LoopState(WithSlot(t, WithSlot(t, st.slots, i, SlotAt(t, a.slots, i)), j, SlotAt(t, b.slots, j)),
              a.seen + b.seen,
              if t[j].FixedCount() then b.fixedField else a.fixedField)
  }

  /** A record of another part does the same behind the record of entry i as in front of it. */
  lemma Independent(t: Table, u: bytes, i: nat, v: bytes, j: nat, st: LoopState)
    requires Rooted(t, st) && DecodeTag(u).Tag? && DecodeTag(v).Tag?
    requires FindField(t, DecodeTag(u).tag) == Some(i) && FindField(t, DecodeTag(v).tag) == Some(j)
    requires PartOfEntry(t, i) != PartOfEntry(t, j) && SlotOf(t, i) != SlotOf(t, j)
    requires Effect(t, u, st).Some?
    ensures var a, b := Effect(t, u, st).value, Effect(t, v, st);
            Effect(t, v, a) == if b.Some? then Some(Both(t, i, a, j, b.value, st)) else None
  {
    hide Effect;
    hide DecodeTag;
    hide DecodeSlot;
    hide SlotCount;
    hide FixedDone;
    var a := Effect(t, u, st).value;
    KnownEffect(t, u, i, st);
    KnownEffect(t, v, j, st);
    EffectRooted(t, u, st);
    KnownEffect(t, v, j, a);
    assert a.slots == WithSlot(t, st.slots, i, SlotAt(t, a.slots, i));
    if t[j].FixedCount() {
      DoneStays(t, i, st, a);
    }
    assert SlotAt(t, Enter(t, j, a).slots, j) == SlotAt(t, Enter(t, j, st).slots, j);
    var b := Effect(t, v, st);
    if b.Some? {
      StatesJoin(t, i, a, j, b.value, Effect(t, v, a).value, st);
    }
  }

  lemma DoneStays(t: Table, i: nat, st: LoopState, a: LoopState)
    requires Rooted(t, st) && i < |t| && !t[i].FixedCount()
    requires |a.slots| == |st.slots| && a.fixedField == st.fixedField
    requires a.slots == WithSlot(t, st.slots, i, SlotAt(t, a.slots, i))
    ensures FixedDone(t, a) == FixedDone(t, st)
  {
    hide SlotCount;
    if st.fixedField.Some? {
      Apart(t, i, st.fixedField.value);
    }
  }

  lemma StatesJoin(t: Table, i: nat, a: LoopState, j: nat, b: LoopState, c: LoopState, st: LoopState)
    requires i < |t| && j < |t| && SlotOf(t, i) != SlotOf(t, j) && !(t[i].FixedCount() && t[j].FixedCount())
    requires |st.slots| == |a.slots| == |b.slots| == |c.slots| == SlotCount(t, |t|)
    requires a.slots == WithSlot(t, st.slots, i, SlotAt(t, a.slots, i))
    requires a.seen == Enter(t, i, st).seen && a.fixedField == Enter(t, i, st).fixedField
    requires b.seen == Enter(t, j, st).seen && b.fixedField == Enter(t, j, st).fixedField
    requires c.seen == Enter(t, j, a).seen && c.fixedField == Enter(t, j, a).fixedField
    requires c.slots == WithSlot(t, a.slots, j, SlotAt(t, b.slots, j))
    ensures c == Both(t, i, a, j, b, st)
  {
    hide SlotCount;
    assert WithSlot(t, st.slots, i, SlotAt(t, a.slots, i)) == a.slots;
    assert c.seen == a.seen + b.seen;
  }

  /** Two neighbours of different parts may be exchanged. */
  lemma Exchange(t: Table, u: bytes, v: bytes, st: LoopState)
    requires Rooted(t, st) && IsRecord(t, u) && IsRecord(t, v) && PartOf(t, u) != PartOf(t, v)
    ensures var a, b := Effect(t, u, st), Effect(t, v, st);
            && (a.Some? && b.Some? ==> Effect(t, v, a.value) == Effect(t, u, b.value))
            && (a.Some? && b.None? ==> Effect(t, v, a.value).None?)
            && (a.None? && b.Some? ==> Effect(t, u, b.value).None?)
  {
    hide Effect;
    hide DecodeTag;
    hide RecordEnd;
    var a, b := Effect(t, u, st), Effect(t, v, st);
    if PartOf(t, u) == Nothing {
      NothingTouched(t, u, st);
      if b.Some? {
        NothingTouched(t, u, b.value);
      }
    } else if PartOf(t, v) == Nothing {
      NothingTouched(t, v, st);
      if a.Some? {
        NothingTouched(t, v, a.value);
      }
    } else {
      var i, j := FindField(t, DecodeTag(u).tag).value, FindField(t, DecodeTag(v).tag).value;
      PartsApart(t, i, j);
      if a.Some? {
        Independent(t, u, i, v, j, st);
      }
      if b.Some? {
        Independent(t, v, j, u, i, st);
      }
      if a.Some? && b.Some? {
        EffectFixed(t, u, i, st);
        EffectFixed(t, v, j, st);
        BothWays(t, i, a.value, j, b.value, st);
      }
    }
  }

  lemma PartsApart(t: Table, i: nat, j: nat)
    requires i < |t| && j < |t| && PartOfEntry(t, i) != PartOfEntry(t, j)
    ensures SlotOf(t, i) != SlotOf(t, j)
  {
    if t[i].FixedCount() {
      Apart(t, j, i);
    } else if t[j].FixedCount() {
      Apart(t, i, j);
    }
  }

  lemma EffectFixed(t: Table, u: bytes, i: nat, st: LoopState)
    requires Rooted(t, st) && DecodeTag(u).Tag? && FindField(t, DecodeTag(u).tag) == Some(i)
    requires Effect(t, u, st).Some?
    ensures Effect(t, u, st).value.fixedField == if t[i].FixedCount() then Some(i) else st.fixedField
  {
    hide DecodeRecord;
    hide DecodeTag;
    var d := DecodeTag(u);
    RecordFixedField(t, d.tag, d.wireType, d.rest, st);
  }

  lemma BothWays(t: Table, i: nat, a: LoopState, j: nat, b: LoopState, st: LoopState)
    requires i < |t| && j < |t| && |st.slots| == |a.slots| == |b.slots| == SlotCount(t, |t|)
    requires SlotOf(t, i) != SlotOf(t, j) && PartOfEntry(t, i) != PartOfEntry(t, j)
    requires a.fixedField == if t[i].FixedCount() then Some(i) else st.fixedField
    requires b.fixedField == if t[j].FixedCount() then Some(j) else st.fixedField
    ensures Both(t, i, a, j, b, st) == Both(t, j, b, i, a, st)
  {
    hide SlotCount;
    assert a.seen + b.seen == b.seen + a.seen;
  }

  // -------------------------------------------------------------- moving a record

  lemma RunExchange(t: Table, u: bytes, v: bytes, more: bytes, st: LoopState)
    requires Rooted(t, st) && IsRecord(t, u) && IsRecord(t, v) && PartOf(t, u) != PartOf(t, v)
    ensures Run(t, u + (v + more), st) == Run(t, v + (u + more), st)
  {
    hide Run;
    hide Effect;
    hide PartOf;
    hide IsRecord;
    Exchange(t, u, v, st);
    RunFirst(t, u, v + more, st);
    RunFirst(t, v, u + more, st);
    var a, b := Effect(t, u, st), Effect(t, v, st);
    if a.Some? {
      RunFirst(t, v, more, a.value);
    }
    if b.Some? {
      RunFirst(t, u, more, b.value);
    }
  }

  /** A record may be moved in front of records of other parts. */
  lemma {:induction false} MoveToFront(t: Table, us: seq<bytes>, v: bytes, more: bytes, st: LoopState)
    requires Rooted(t, st) && AllRecords(t, us) && IsRecord(t, v)
    requires forall k | 0 <= k < |us| :: PartOf(t, us[k]) != PartOf(t, v)
    ensures Run(t, Concat(us) + (v + more), st) == Run(t, v + (Concat(us) + more), st)
    decreases |us|
  {
    hide Run;
    hide Effect;
    hide PartOf;
    hide IsRecord;
    if us == [] {
      assert Concat(us) + (v + more) == v + (Concat(us) + more);
    } else {
      var u, others := us[0], us[1..];
      assert IsRecord(t, u) && PartOf(t, u) != PartOf(t, v);
      assert Concat(us) + (v + more) == u + (Concat(others) + (v + more));
      assert v + (Concat(us) + more) == v + (u + (Concat(others) + more));
      RunFirst(t, u, Concat(others) + (v + more), st);
      RunFirst(t, u, v + (Concat(others) + more), st);
      if Effect(t, u, st).Some? {
        EffectRooted(t, u, st);
        MoveToFront(t, others, v, more, Effect(t, u, st).value);
      }
      RunExchange(t, u, v, Concat(others) + more, st);
    }
  }

  // ------------------------------------------------------------------ any order

  lemma {:induction false} ConcatAppend(us: seq<bytes>, vs: seq<bytes>)
    ensures Concat(us + vs) == Concat(us) + Concat(vs)
  {
    if us == [] {
      assert us + vs == vs;
    } else {
      assert (us + vs)[1..] == us[1..] + vs;
      ConcatAppend(us[1..], vs);
    }
  }

  lemma {:induction false} OfAppend(t: Table, us: seq<bytes>, vs: seq<bytes>, p: Part)
    ensures Of(t, us + vs, p) == Of(t, us, p) + Of(t, vs, p)
  {
    hide PartOf;
    if us == [] {
      assert us + vs == vs;
    } else {
      assert (us + vs)[1..] == us[1..] + vs;
      OfAppend(t, us[1..], vs, p);
    }
  }

  lemma {:induction false} NoneOf(t: Table, us: seq<bytes>, p: Part)
    requires forall k | 0 <= k < |us| :: PartOf(t, us[k]) != p
    ensures Of(t, us, p) == []
  {
    hide PartOf;
    if us != [] {
      assert PartOf(t, us[0]) != p;
      NoneOf(t, us[1..], p);
    }
  }

  /** Records around one of them. */
  lemma Around(t: Table, vs: seq<bytes>, k: nat, p: Part)
    requires k < |vs|
    ensures Concat(vs) == Concat(vs[..k]) + (vs[k] + Concat(vs[k + 1..]))
    ensures Concat(vs[..k] + vs[k + 1..]) == Concat(vs[..k]) + Concat(vs[k + 1..])
    ensures Of(t, vs, p) ==
            Of(t, vs[..k], p) + ((if PartOf(t, vs[k]) == p then [vs[k]] else []) + Of(t, vs[k + 1..], p))
    ensures Of(t, vs[..k] + vs[k + 1..], p) == Of(t, vs[..k], p) + Of(t, vs[k + 1..], p)
  {
    hide PartOf;
    var tail := vs[k..];
    assert vs == vs[..k] + tail && tail[0] == vs[k] && tail[1..] == vs[k + 1..];
    ConcatAppend(vs[..k], tail);
    ConcatAppend(vs[..k], vs[k + 1..]);
    OfAppend(t, vs[..k], tail, p);
    OfAppend(t, vs[..k], vs[k + 1..], p);
  }

  lemma {:induction false} FirstIndex(t: Table, vs: seq<bytes>, p: Part) returns (k: nat)
    requires Of(t, vs, p) != []
    ensures k < |vs| && PartOf(t, vs[k]) == p
    ensures forall x | 0 <= x < k :: PartOf(t, vs[x]) != p
    decreases |vs|
  {
    hide PartOf;
    if PartOf(t, vs[0]) == p {
      k := 0;
    } else {
      var k0 := FirstIndex(t, vs[1..], p);
      k := k0 + 1;
      forall x | 0 <= x < k
        ensures PartOf(t, vs[x]) != p
      {
        assert x > 0 ==> vs[x] == vs[1..][x - 1];
      }
    }
  }

  /** The first record of a part, and what is left without it. */
  lemma FirstOf(t: Table, vs: seq<bytes>, p: Part) returns (k: nat)
    requires Of(t, vs, p) != []
    ensures k < |vs| && PartOf(t, vs[k]) == p && vs[k] == Of(t, vs, p)[0]
    ensures forall x | 0 <= x < k :: PartOf(t, vs[x]) != p
    ensures forall q :: Of(t, vs[..k] + vs[k + 1..], q) == if q == p then Of(t, vs, q)[1..] else Of(t, vs, q)
  {
    hide PartOf;
    hide Of;
    k := FirstIndex(t, vs, p);
    NoneOf(t, vs[..k], p);
    forall q
      ensures Of(t, vs[..k] + vs[k + 1..], q) == if q == p then Of(t, vs, q)[1..] else Of(t, vs, q)
    {
      Around(t, vs, k, q);
    }
    Around(t, vs, k, p);
  }

  lemma OwnIsListed(t: Table, vs: seq<bytes>)
    requires vs != []
    ensures Of(t, vs, PartOf(t, vs[0])) != []
  {
  }

  lemma {:induction false} OnlyNothing(t: Table, vs: seq<bytes>, st: LoopState)
    requires |st.slots| == SlotCount(t, |t|) && AllRecords(t, vs)
    requires forall p | p != Nothing :: Of(t, vs, p) == []
    ensures Run(t, Concat(vs), st) == Some(st)
    decreases |vs|
  {
    hide IsRecord;
    hide PartOf;
    if vs != [] {
      assert IsRecord(t, vs[0]);
      OwnIsListed(t, vs);
      NothingTouched(t, vs[0], st);
      RunFirst(t, vs[0], Concat(vs[1..]), st);
      forall p | p != Nothing
        ensures Of(t, vs[1..], p) == []
      {
        assert Of(t, vs, p) == [];
      }
      OnlyNothing(t, vs[1..], st);
    }
  }

  ghost predicate SameParts(t: Table, us: seq<bytes>, vs: seq<bytes>) {
    forall p | p != Nothing :: Of(t, us, p) == Of(t, vs, p)
  }

  lemma {:induction false} RunAnyOrder(t: Table, us: seq<bytes>, vs: seq<bytes>, st: LoopState)
    requires Rooted(t, st) && AllRecords(t, us) && AllRecords(t, vs) && SameParts(t, us, vs)
    ensures Run(t, Concat(us), st) == Run(t, Concat(vs), st)
    decreases |us|
  {
    hide Run;
    hide Effect;
    hide PartOf;
    hide IsRecord;
    if us == [] {
      OnlyNothing(t, us, st);
      OnlyNothing(t, vs, st);
    } else {
      var u, others := us[0], us[1..];
      var p := PartOf(t, u);
      assert IsRecord(t, u);
      RunFirst(t, u, Concat(others), st);
      if p == Nothing {
        NothingTouched(t, u, st);
        assert SameParts(t, others, vs) by {
          forall q | q != Nothing
            ensures Of(t, others, q) == Of(t, vs, q)
          {
            assert Of(t, us, q) == Of(t, others, q);
          }
        }
        RunAnyOrder(t, others, vs, st);
      } else {
        assert Of(t, us, p) == [u] + Of(t, others, p) && Of(t, vs, p) == Of(t, us, p);
        var k := FirstOf(t, vs, p);
        var before, after := vs[..k], vs[k + 1..];
        Around(t, vs, k, p);
        MoveToFront(t, before, u, Concat(after), st);
        RunFirst(t, u, Concat(before + after), st);
        if Effect(t, u, st).Some? {
          EffectRooted(t, u, st);
          SamePartsRest(t, us, vs, before + after, p);
          RunAnyOrder(t, others, before + after, Effect(t, u, st).value);
        }
      }
    }
  }

  lemma SamePartsRest(t: Table, us: seq<bytes>, vs: seq<bytes>, ws: seq<bytes>, p: Part)
    requires us != [] && PartOf(t, us[0]) == p && SameParts(t, us, vs)
    requires Of(t, vs, p) != []
    requires forall q :: Of(t, ws, q) == if q == p then Of(t, vs, q)[1..] else Of(t, vs, q)
    ensures SameParts(t, us[1..], ws)
  {
    hide PartOf;
    forall q | q != Nothing
      ensures Of(t, us[1..], q) == Of(t, ws, q)
    {
      assert Of(t, us, q) == Of(t, vs, q);
    }
  }

  lemma {:induction false} NoZeroTag(t: Table, us: seq<bytes>)
    requires AllRecords(t, us)
    ensures !ZeroTagEnds(t, Concat(us))
    decreases |us|
  {
    hide DecodeTag;
    hide RecordEnd;
    if us != [] {
      var d, more := DecodeTag(us[0]), Concat(us[1..]);
      assert IsRecord(t, us[0]);
      DecodeTagExtends(us[0], more);
      RecordEndExtends(t, d.tag, d.wireType, d.rest, more);
      assert [] + more == more;
      NoZeroTag(t, us[1..]);
    }
  }

  /** Two arrangements of records in which every slot, and the fixed-count arrays taken
      together, see the same records in the same order decode alike: both fail, or both
      give the same struct. Unknown fields may be anywhere, or be missing. */
  lemma AnyOrder(t: Table, us: seq<bytes>, vs: seq<bytes>, slots: seq<Slot>)
    requires |slots| == SlotCount(t, |t|)
    requires AllRecords(t, us) && AllRecords(t, vs) && SameParts(t, us, vs)
    ensures DecodeMessage(t, Concat(us), slots) == DecodeMessage(t, Concat(vs), slots)
  {
    hide DecodeLoop;
    hide Run;
    hide IsRecord;
    hide SameParts;
    hide Concat;
    hide ZeroTagEnds;
    hide FixedDone;
    hide RequiredSeenFrom;
    var st := Start(slots);
    RunAnyOrder(t, us, vs, st);
    NoZeroTag(t, us);
    NoZeroTag(t, vs);
    LoopIsRun(t, Concat(us), st);
    LoopIsRun(t, Concat(vs), st);
  }

  lemma LoopIsRun(t: Table, bs: bytes, st: LoopState)
    requires |st.slots| == SlotCount(t, |t|) && !ZeroTagEnds(t, bs)
    ensures var r := Run(t, bs, st);
            DecodeLoop(t, bs, st) == if r.Some? then Ok(r.value, []) else Fail
  {
    if Run(t, bs, st).Some? {
      LoopOfRun(t, bs, st);
    } else if DecodeLoop(t, bs, st).Ok? {
      RunOfLoop(t, bs, st);
    }
  }
}
