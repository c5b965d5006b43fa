/** How long an encoding can get: the layout of the struct and the depth of the table bound
    it, so that the sizes of nested messages need no assumption of their own. */
module Sizes {
  import opened Wire
  import opened Bits
  import opened Varint
  import opened Descriptor
  import opened Scalars
  import opened Message
  import opened Encoding
  import opened Decoding
  import opened Packed
  import opened RoundTrip
  import opened Exactness

  // --------------------------------------------------------------- sizes of structs

  /** sizeof the data of an entry. */
  function EntrySize(f: Field): nat {
    if f.htype.HRepeated? then f.dataSize * f.arraySize else f.dataSize
  }

  /** The slot of entry n - 1, as far as the first n entries tell: a union is as large as its
      largest member. */
  function OpenSize(t: Table, n: nat): nat
    requires n <= |t|
  {
    if n == 0 then 0
    else if Continues(t, n - 1) then Max(OpenSize(t, n - 1), EntrySize(t[n - 1]))
    else EntrySize(t[n - 1])
  }

  /** All slots in front of that one. */
  function ClosedSize(t: Table, n: nat): nat
    requires n <= |t|
  {
    if n == 0 then 0
    else if Continues(t, n - 1) then ClosedSize(t, n - 1)
    else ClosedSize(t, n - 1) + OpenSize(t, n - 1)
  }

  /** The least that sizeof the struct can be: its data without companions and padding. */
  function StructSize(t: Table): nat {
    ClosedSize(t, |t|) + OpenSize(t, |t|)
  }

  /** data_size is the size of the data, nested structs included, as in generated tables. */
  ghost predicate SizesAgree(t: Table)
    decreases t
  {
    forall i {:trigger t[i]} | 0 <= i < |t| :: EntrySizeAgrees(t[i])
  }

  ghost predicate EntrySizeAgrees(f: Field)
    decreases f
  {
    && f.dataSize > 0
    && (f.ltype.LSubmessage? && f.ptr.Submsg? ==>
          SizesAgree(f.ptr.fields) && StructSize(f.ptr.fields) <= f.dataSize)
  }

  /** Levels of messages in the table. */
  function Depth(t: Table): nat
    decreases t, |t| + 1
  {
    DepthUpTo(t, |t|)
  }

  function DepthUpTo(t: Table, n: nat): nat
    requires n <= |t|
    decreases t, n
  {
    if n == 0 then 1 else Max(DepthUpTo(t, n - 1), DepthBelow(t[n - 1]) + 1)
  }

  function DepthBelow(f: Field): nat
    decreases f
  {
    if f.ltype.LSubmessage? && f.ptr.Submsg? then Depth(f.ptr.fields) else 0
  }

  lemma {:induction false} DepthOfEntry(t: Table, n: nat, i: nat)
    requires i < n <= |t|
    ensures DepthBelow(t[i]) < DepthUpTo(t, n)
    decreases n
  {
    if i < n - 1 {
      DepthOfEntry(t, n - 1, i);
    }
  }

  // ------------------------------------------------------------- bytes on the wire

  /** Bytes for `size` bytes of a struct with `depth` levels. */
  function Limit(depth: nat, size: nat): nat {
    25 * (depth * size)
  }

  lemma LimitGrows(d1: nat, d2: nat, s1: nat, s2: nat)
    requires d1 <= d2 && s1 <= s2
    ensures Limit(d1, s1) <= Limit(d2, s2)
  {
    MulGrows(d1, d2, s1);
    MulGrows(s1, s2, d2);
  }

  lemma LimitAdds(d: nat, a: nat, b: nat)
    ensures Limit(d, a + b) == Limit(d, a) + Limit(d, b)
  {
    MulDistrib(a, b, d);
  }

  /** One level more is worth 25 bytes for each byte of the struct. */
  lemma LimitOfLevel(d: nat, s: nat)
    requires d > 0
    ensures Limit(d, s) == Limit(d - 1, s) + 25 * s
  {
    MulDistrib(d - 1, 1, s);
  }

  lemma TagIsShort(f: Field)
    requires 0 < f.tag <= MAX_TAG
    ensures |EncodeTag(f.tag, WireType(f.ltype))| <= 5 && |EncodeTag(f.tag, WT_STRING)| <= 5
  {
    assert Pow128(1) == 128 && Pow128(3) == 128 * Pow128(2) && Pow128(5) == 128 * Pow128(4);
    EncodedLength(f.tag * 8 + WireType(f.ltype), 5);
    EncodedLength(f.tag * 8 + WT_STRING, 5);
  }

  lemma DelimitedIsShort(payload: bytes)
    requires |payload| < TWO_64
    ensures |Delimited(payload)| <= 10 + |payload|
  {
    EncodedAtMostTen(|payload|);
  }

  /** Deeper tables than this would not fit in any memory. */
  const MAX_DEPTH: nat := 600_000

  /** A nested message stays below 2^32 bytes. */
  lemma LimitOfNested(d: nat, size: nat)
    requires d <= MAX_DEPTH && size <= PB_SIZE_MAX
    ensures Limit(d, size) < TWO_32
  {
    LimitGrows(d, MAX_DEPTH, size, PB_SIZE_MAX);
  }

  lemma {:induction false} ScalarIsShort(f: Field, n: int)
    requires EncodeScalar(f, n).Some?
    ensures |EncodeScalar(f, n).value| <= 10
  {
    EncodedAtMostTen(ToUnsigned(n, 8));
    EncodedAtMostTen(ZigZag(n));
    EncodedAtMostTen(1);
  }

  lemma {:induction false} ValueIsShort(f: Field, v: Value, d: nat)
    requires WellFormedField(f) && EntrySizeAgrees(f) && ValueTyped(f, v)
    requires EncodeTagged(f, v).Some? && DepthBelow(f) < d <= MAX_DEPTH
    ensures |EncodeTagged(f, v).value| <= Limit(d, f.dataSize)
    decreases f, 0
  {
    hide EncodeTag;
    hide Delimited;
    hide Limit;
    TagIsShort(f);
    TaggedSplit(f, v);
    LimitOfLevel(d, f.dataSize);
    if f.ltype.Packable() {
      ScalarIsShort(f, v.n);
    } else if f.ltype.LSubmessage? {
      var t := f.ptr.fields;
      MessageIsShort(t, v.slots, d - 1);
      LimitGrows(d - 1, d - 1, StructSize(t), f.dataSize);
      LimitOfNested(d - 1, f.dataSize);
      DelimitedIsShort(EncodeMessage(t, v.slots).value);
    } else {
      BlobIsShort(f, v);
    }
  }

  lemma BlobIsShort(f: Field, v: Value)
    requires WellFormedField(f) && !f.ltype.Packable() && !f.ltype.LSubmessage? && ValueTyped(f, v)
    requires EncodeValue(f, v).Some?
    ensures |EncodeValue(f, v).value| <= 10 + f.dataSize
  {
    hide Delimited;
    DelimitedIsShort(if f.ltype.LString? then StringBytes(f, v.bs) else v.bs);
  }

  lemma {:induction false} ItemsAreShort(f: Field, items: seq<Value>, n: nat, d: nat)
    requires WellFormedField(f) && EntrySizeAgrees(f) && n <= |items|
    requires forall k | 0 <= k < |items| :: ValueTyped(f, items[k])
    requires TaggedItems(f, items, n).Some? && DepthBelow(f) < d <= MAX_DEPTH
    ensures |TaggedItems(f, items, n).value| <= Limit(d, f.dataSize * n)
    decreases f, 1, n
  {
    hide EncodeTagged;
    hide Limit;
    if n > 0 {
      ItemsAreShort(f, items, n - 1, d);
      ValueIsShort(f, items[n - 1], d);
      LimitAdds(d, f.dataSize * (n - 1), f.dataSize);
      assert f.dataSize * n == f.dataSize * (n - 1) + f.dataSize;
    }
  }

  lemma {:induction false} ArrayIsShort(f: Field, items: seq<Value>, d: nat)
    requires WellFormedField(f) && EntrySizeAgrees(f) && f.htype.HRepeated?
    requires forall k | 0 <= k < |items| :: ValueTyped(f, items[k])
    requires EncodeItems(f, items).Some? && DepthBelow(f) < d <= MAX_DEPTH
    ensures |EncodeItems(f, items).value| <= Limit(d, EntrySize(f))
    decreases f, 2
  {
    hide EncodeTag;
    hide Delimited;
    hide Limit;
    hide TaggedItems;
    hide PackedPayload;
    if items != [] {
      SizeOfItems(f.dataSize, |items|, f.arraySize);
      LimitGrows(d, d, f.dataSize * |items|, f.dataSize * f.arraySize);
      if f.ltype.Packable() {
        TagIsShort(f);
        PayloadBound(f, items, |items|);
        DelimitedIsShort(PackedPayload(f, items, |items|).value);
        LimitOfLevel(d, f.dataSize * |items|);
      } else {
        ItemsAreShort(f, items, |items|, d);
      }
    }
  }

  lemma SizeOfItems(size: nat, n: nat, max: nat)
    requires size > 0 && n <= max
    ensures n <= size * n <= size * max
  {
    MulDistrib(max, n, size);
    assert (max - n) * size >= 0;
    if n > 0 {
      MulAtLeast(size, n);
    }
  }

  lemma {:induction false} EntryIsShort(f: Field, s: Slot, d: nat)
    requires WellFormedField(f) && EntrySizeAgrees(f) && SlotTyped(f, s)
    requires EncodeSlot(f, s).Some? && DepthBelow(f) < d <= MAX_DEPTH
    ensures |EncodeSlot(f, s).value| <= Limit(d, EntrySize(f))
    ensures f.htype.HOneof? && Selector(s) != f.tag ==> EncodeSlot(f, s).value == []
    decreases f, 3
  {
    hide EncodeTagged;
    hide EncodeItems;
    hide Limit;
    match f.htype {
      case HRequired => ValueIsShort(f, s.v, d);
      case HOptional =>
        if EncodeSlot(f, s).value != [] {
          ValueIsShort(f, s.v, d);
        }
      case HRepeated => ArrayIsShort(f, s.items, d);
      case HOneof =>
        if s.which == f.tag {
          ValueIsShort(f, s.v, d);
        }
    }
  }

  lemma EntryReady(t: Table, m: seq<Slot>, i: nat, d: nat)
    requires WellFormed(t) && SizesAgree(t) && Typed(t, m) && i < |t| && Depth(t) <= d
    ensures WellFormedField(t[i]) && EntrySizeAgrees(t[i]) && SlotTyped(t[i], SlotAt(t, m, i))
    ensures DepthBelow(t[i]) < d
  {
    DepthOfEntry(t, |t|, i);
  }

  function Selector(s: Slot): nat {
    if s.Union? then s.which else 0
  }

  /** The first n entries: `open` bytes belong to the slot of the last of them, and of a union
      only the selected member has any. */
  lemma {:induction false} PrefixIsShort(t: Table, m: seq<Slot>, n: nat, d: nat) returns (open: nat)
    requires WellFormed(t) && SizesAgree(t) && Typed(t, m) && n <= |t| && Depth(t) <= d <= MAX_DEPTH
    requires EncodeUpTo(t, m, n).Some?
    ensures |EncodeUpTo(t, m, n).value| <= Limit(d, ClosedSize(t, n)) + open
    ensures open <= Limit(d, OpenSize(t, n))
    ensures open > 0 && t[n - 1].htype.HOneof? ==> TagAmong(t, n, Selector(SlotAt(t, m, n - 1)))
    decreases t, n
  {
    hide EncodeSlot;
    hide Limit;
    hide EntrySize;
    hide SizesAgree;
    hide Typed;
    hide WellFormed;
    hide Depth;
    hide DepthUpTo;
    ShapeOf(t, m);
    if n == 0 {
      open := 0;
    } else {
      var i: nat := n - 1;
      var before := PrefixIsShort(t, m, i, d);
      EntryReady(t, m, i, d);
      EntryIsShort(t[i], SlotAt(t, m, i), d);
      var e := EncodeSlot(t[i], SlotAt(t, m, i)).value;
      if Continues(t, i) {
        open := before + |e|;
        LimitGrows(d, d, OpenSize(t, i), OpenSize(t, n));
        LimitGrows(d, d, EntrySize(t[i]), OpenSize(t, n));
        OnlySelected(t, m, i, before, |e|);
      } else {
        open := |e|;
        LimitAdds(d, ClosedSize(t, i), OpenSize(t, i));
        assert open > 0 && t[i].htype.HOneof? ==> t[i].tag == Selector(SlotAt(t, m, i));
      }
    }
  }

  /** At most one member of a union is encoded. */
  lemma OnlySelected(t: Table, m: seq<Slot>, i: nat, before: nat, now: nat)
    requires DistinctTags(t) && Typed(t, m) && i < |t| && Continues(t, i)
    requires before > 0 ==> TagAmong(t, i, Selector(SlotAt(t, m, i - 1)))
    requires now > 0 ==> Selector(SlotAt(t, m, i)) == t[i].tag
    ensures before == 0 || now == 0
    ensures before > 0 || now > 0 ==> TagAmong(t, i + 1, Selector(SlotAt(t, m, i)))
  {
    assert SlotAt(t, m, i) == SlotAt(t, m, i - 1);
    if before > 0 {
      var k :| 0 <= k < i && k < |t| && t[k].tag == Selector(SlotAt(t, m, i));
    }
  }

  lemma {:induction false} MessageIsShort(t: Table, m: seq<Slot>, d: nat)
    requires WellFormed(t) && SizesAgree(t) && Typed(t, m) && Depth(t) <= d <= MAX_DEPTH
    requires EncodeMessage(t, m).Some?
    ensures |EncodeMessage(t, m).value| <= Limit(d, StructSize(t))
    decreases t, |t| + 1
  {
    hide Limit;
    var open := PrefixIsShort(t, m, |t|, d);
    LimitAdds(d, ClosedSize(t, |t|), OpenSize(t, |t|));
  }

  // ------------------------------------------------------------------- consequences

  /** With generated sizes every nested message is shorter than 2^32 bytes, which is what
      the decoder can read back and far from the 2^64 that the encoder can count. */
  lemma {:induction false} NestedAreShort(t: Table, m: seq<Slot>, limit: nat)
    requires WellFormed(t) && SizesAgree(t) && Typed(t, m) && Depth(t) <= MAX_DEPTH && TWO_32 <= limit
    ensures NestedBelow(t, m, limit)
    decreases t
  {
    forall i {:trigger SlotAt(t, m, i)} | 0 <= i < |t|
      ensures SlotNestedBelow(t[i], SlotAt(t, m, i), limit)
    {
      assert WellFormedField(t[i]) && EntrySizeAgrees(t[i]) && SlotTyped(t[i], SlotAt(t, m, i));
      DepthOfEntry(t, |t|, i);
      SlotNestedShort(t[i], SlotAt(t, m, i), limit);
    }
  }

  lemma {:induction false} SlotNestedShort(f: Field, s: Slot, limit: nat)
    requires WellFormedField(f) && EntrySizeAgrees(f) && SlotTyped(f, s) && DepthBelow(f) < MAX_DEPTH && TWO_32 <= limit
    ensures SlotNestedBelow(f, s, limit)
    decreases f, 1
  {
    match s {
      case Single(v) => ValueNestedShort(f, v, limit);
      case Flagged(has, v) => ValueNestedShort(f, v, limit);
      case Items(items) =>
        forall k | 0 <= k < |items|
          ensures ValueNestedBelow(f, items[k], limit)
        {
          ValueNestedShort(f, items[k], limit);
        }
      case Union(which, v) =>
        if which == f.tag {
          ValueNestedShort(f, v, limit);
        }
    }
  }

  lemma {:induction false} ValueNestedShort(f: Field, v: Value, limit: nat)
    requires WellFormedField(f) && EntrySizeAgrees(f) && ValueTyped(f, v)
    requires DepthBelow(f) < MAX_DEPTH && TWO_32 <= limit
    ensures ValueNestedBelow(f, v, limit)
    decreases f, 0
  {
    if f.ltype.LSubmessage? {
      var t := f.ptr.fields;
      NestedAreShort(t, v.slots, limit);
      if EncodeMessage(t, v.slots).Some? {
        MessageIsShort(t, v.slots, MAX_DEPTH);
        LimitOfNested(MAX_DEPTH, StructSize(t));
      }
    }
  }

  /** The round trip for generated tables, without any assumption about sizes: the struct
      comes back exactly when its strings are terminated and its selectors valid. */
  lemma GeneratedRoundTrip(t: Table, m: seq<Slot>)
    requires WellFormed(t) && SizesAgree(t) && Depth(t) <= MAX_DEPTH
    requires Typed(t, m) && EncodeMessage(t, m).Some?
    ensures var r := Decode(t, EncodeMessage(t, m).value);
            Sound(t, m) <==> r.Ok? && SameMessage(t, m, r.value)
  {
    NestedAreShort(t, m, TWO_32);
    NestedAreShort(t, m, TWO_63);
    RoundTripExactly(t, m);
  }
}
