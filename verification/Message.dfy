/** Message values: which ones a table admits, their defaults, and when two of them mean
    the same message. */
module Message {
  import opened Wire
  import opened Descriptor
  import opened Scalars

  // ------------------------------------------------------------- well-formedness

  /** Requirements on generated tables, nested ones included. */
  ghost predicate WellFormed(t: Table)
    decreases t
  {
    && DistinctTags(t)
    && forall i | 0 <= i < |t| :: WellFormedField(t[i])
  }

  ghost predicate WellFormedField(f: Field)
    decreases f
  {
    && 0 < f.tag <= MAX_TAG
    && f.atype.AStatic?
    && !f.ltype.LExtension?
    && f.dataSize <= PB_SIZE_MAX
    && (f.ltype.LBytes? || f.ltype.LString? ==> f.dataSize > 0)
    && f.arraySize <= PB_SIZE_MAX
    && (f.htype.HOneof? ==> f.sizeOffset != 0)
    && (f.ltype.LSubmessage? ==> f.ptr.Submsg? && WellFormed(f.ptr.fields))
    && (f.ptr.Default? ==> !f.Singular() && FitsValue(f, f.ptr.value))
  }

  /** A value that the C type of one item of this field can hold. A string may lack its
      terminator; a bytes value may claim more than its buffer. */
  ghost predicate ValueTyped(f: Field, v: Value)
    decreases f, 0
  {
    if f.ltype.Packable() then v.Num? && ScalarTyped(f, v.n)
    else if f.ltype.LBytes? then v.Blob? && |v.bs| <= PB_SIZE_MAX
    else if f.ltype.LString? then v.Blob?
    else if f.ltype.LFixedLengthBytes? then v.Blob? && |v.bs| == f.dataSize
    else v.Msg? && f.ptr.Submsg? && Typed(f.ptr.fields, v.slots)
  }

  ghost predicate SlotTyped(f: Field, s: Slot)
    decreases f, 1
  {
    match f.htype
    case HRequired => s.Single? && ValueTyped(f, s.v)
    case HOptional => if f.sizeOffset != 0 then s.Flagged? && ValueTyped(f, s.v)
                      else s.Single? && ValueTyped(f, s.v)
    case HRepeated => s.Items? && |s.items| <= PB_SIZE_MAX
                      && (f.sizeOffset == 0 ==> s.items == [] || |s.items| == f.arraySize)
                      && forall k | 0 <= k < |s.items| :: ValueTyped(f, s.items[k])
    case HOneof => s.Union? && (s.which == f.tag ==> ValueTyped(f, s.v))
  }

  /** Stronger than ValueTyped: the value lies within the storage of one item, a string
      with its terminator and nested messages included. */
  ghost predicate FitsValue(f: Field, v: Value)
    decreases f, 0
  {
    if f.ltype.Packable() then v.Num? && ScalarTyped(f, v.n)
    else if f.ltype.LBytes? then v.Blob? && |v.bs| + BYTES_OFFSET <= f.dataSize
    else if f.ltype.LString? then v.Blob? && |v.bs| + 1 <= f.dataSize
    else if f.ltype.LFixedLengthBytes? then v.Blob? && |v.bs| == f.dataSize
    else v.Msg? && f.ptr.Submsg? && Fits(f.ptr.fields, v.slots)
  }

  /** As SlotTyped, and no array holds more items than array_size. */
  ghost predicate FitsSlot(f: Field, s: Slot)
    decreases f, 1
  {
    match f.htype
    case HRequired => s.Single? && FitsValue(f, s.v)
    case HOptional => if f.sizeOffset != 0 then s.Flagged? && FitsValue(f, s.v)
                      else s.Single? && FitsValue(f, s.v)
    case HRepeated => s.Items? && |s.items| <= f.arraySize
                      && (f.sizeOffset == 0 ==> s.items == [] || |s.items| == f.arraySize)
                      && forall k | 0 <= k < |s.items| :: FitsValue(f, s.items[k])
    case HOneof => s.Union? && (s.which == f.tag ==> FitsValue(f, s.v))
  }

  /** A oneof selector is 0 or the tag of a member of that union. */
  ghost predicate KnownSelector(t: Table, i: nat, s: Slot)
    requires i < |t|
  {
    t[i].htype.HOneof? && s.Union? ==> Selectable(t, SlotOf(t, i), s.which)
  }

  ghost predicate Selectable(t: Table, slot: nat, which: nat) {
    which == 0 || exists k | 0 <= k < |t| :: t[k].tag == which && SlotOf(t, k) == slot && t[k].htype.HOneof?
  }

  /** Every part of the struct lies within its storage and every selector is valid. */
  ghost predicate Fits(t: Table, m: seq<Slot>)
    decreases t
  {
    && |m| == SlotCount(t, |t|)
    && forall i {:trigger SlotAt(t, m, i)} | 0 <= i < |t| ::
         FitsSlot(t[i], SlotAt(t, m, i)) && KnownSelector(t, i, SlotAt(t, m, i))
  }

  /** A struct of the type that the table describes. */
  ghost predicate Typed(t: Table, m: seq<Slot>)
    decreases t
  {
    && |m| == SlotCount(t, |t|)
    && forall i {:trigger t[i]} | 0 <= i < |t| :: SlotTyped(t[i], SlotAt(t, m, i))
  }

  // ------------------------------------------------------------------- defaults

  /** pb_field_set_to_default for the data of a field. */
  function DefaultValue(f: Field): Value
    decreases f, 0
  {
    if f.ltype.LSubmessage? then (if f.ptr.Submsg? then Msg(Defaults(f.ptr.fields)) else Msg([]))
    else if f.ptr.Default? then f.ptr.value
    else if f.ltype.LFixedLengthBytes? then Blob(Zeros(f.dataSize))
    else if f.ltype.LBytes? || f.ltype.LString? then Blob([])
    else Num(0)
  }

  function Zeros(n: nat): (z: bytes)
    ensures |z| == n
  {
    seq(n, _ => 0)
  }

  function DefaultSlot(f: Field): Slot
    decreases f, 1
  {
    match f.htype
    case HRequired => Single(DefaultValue(f))
    case HOptional => if f.sizeOffset != 0 then Flagged(false, DefaultValue(f)) else Single(DefaultValue(f))
    case HRepeated => Items([])
    case HOneof => Union(0, Num(0))
  }

  /** pb_message_set_to_defaults over the first n entries. */
  function DefaultsUpTo(t: Table, n: nat): (m: seq<Slot>)
    requires n <= |t|
    ensures |m| == SlotCount(t, n)
    decreases t, n
  {
    if n == 0 then []
    else if Continues(t, n - 1) then DefaultsUpTo(t, n - 1)
    else DefaultsUpTo(t, n - 1) + [DefaultSlot(t[n - 1])]
  }

  function Defaults(t: Table): (m: seq<Slot>)
    ensures |m| == SlotCount(t, |t|)
    decreases t, |t| + 1
  {
    DefaultsUpTo(t, |t|)
  }

  /** Every slot starts out as its first entry prescribes, and union entries agree. */
  lemma {:induction false} DefaultsAt(t: Table, n: nat, i: nat)
    requires i < n <= |t|
    ensures SlotOf(t, i) < SlotCount(t, n)
    ensures DefaultsUpTo(t, n)[SlotOf(t, i)] == DefaultSlot(t[i])
    decreases n
  {
    SlotCountMonotone(t, i + 1, n);
    if i < n - 1 {
      SlotCountMonotone(t, i + 1, n - 1);
      DefaultsAt(t, n - 1, i);
    } else if Continues(t, i) {
      DefaultsAt(t, i, i - 1);
    }
  }

  // ----------------------------------------------------------------- C strings

  /** What strnlen sees: the bytes before the first NUL. */
  function UpToNul(bs: bytes): (r: bytes)
    ensures |r| <= |bs| && 0 !in r
  {
    if bs == [] || bs[0] == 0 then [] else [bs[0]] + UpToNul(bs[1..])
  }

  lemma {:induction false} UpToNulOfClean(bs: bytes)
    requires 0 !in bs
    ensures UpToNul(bs) == bs
  {
    if bs != [] {
      UpToNulOfClean(bs[1..]);
    }
  }

  // ------------------------------------------------------------ the same message

  /** The same field value; absent parts and bytes behind a NUL do not count. */
  ghost predicate SameValue(f: Field, a: Value, b: Value)
    decreases f, 0
  {
    if f.ltype.LString? then a.Blob? && b.Blob? && UpToNul(a.bs) == UpToNul(b.bs)
    else if f.ltype.LSubmessage? then
      a.Msg? && b.Msg? && f.ptr.Submsg? && SameMessage(f.ptr.fields, a.slots, b.slots)
    else a == b
  }

  ghost predicate SameSlot(f: Field, a: Slot, b: Slot)
    decreases f, 1
  {
    match f.htype
    case HRequired => a.Single? && b.Single? && SameValue(f, a.v, b.v)
    case HOptional =>
      if f.sizeOffset != 0 then a.Flagged? && b.Flagged? && a.has == b.has && (a.has ==> SameValue(f, a.v, b.v))
      else a.Single? && b.Single? && SameValue(f, a.v, b.v)
    case HRepeated => a.Items? && b.Items? && |a.items| == |b.items|
                      && forall k | 0 <= k < |a.items| :: SameValue(f, a.items[k], b.items[k])
    case HOneof => a.Union? && b.Union? && a.which == b.which && (a.which == f.tag ==> SameValue(f, a.v, b.v))
  }

  /** Absent optional fields compare as absent, whatever their storage holds. */
  ghost predicate SameMessage(t: Table, a: seq<Slot>, b: seq<Slot>)
    decreases t
  {
    && |a| == |b| == SlotCount(t, |t|)
    && forall i {:trigger t[i]} | 0 <= i < |t| :: SameSlot(t[i], SlotAt(t, a, i), SlotAt(t, b, i))
  }
}
