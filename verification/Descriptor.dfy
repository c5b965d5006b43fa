/** Field descriptor tables (pb_field_t) and the message structs they describe. A table
    is the sequence of its entries; the terminator with tag 0 is the position just past
    the last one. */
module Descriptor {
  import opened Wire

  /** pb_size_t is one byte wide in the default configuration. */
  const PB_SIZE_MAX: nat := 255
  /** offsetof(pb_bytes_array_t, bytes) for that width. */
  const BYTES_OFFSET: nat := 1
  /** sizeof(void*) */
  const POINTER_SIZE: nat := 8
  const MAX_REQUIRED_FIELDS: nat := 64
  const MAX_TAG: nat := 0x1FFF_FFFF

  datatype AType = AStatic | APointer | ACallback

  datatype HType = HRequired | HOptional | HRepeated | HOneof

  datatype LType =
    | LBool
    | LVarint
    | LUVarint
    | LSVarint
    | LFixed32
    | LFixed64
    | LBytes
    | LString
    | LSubmessage
    | LExtension
    | LFixedLengthBytes
  {
    /** PB_LTYPE(type) <= PB_LTYPE_LAST_PACKABLE */
    predicate Packable() {
      LBool? || LVarint? || LUVarint? || LSVarint? || LFixed32? || LFixed64?
    }
  }

  datatype Ptr = NullPtr | Submsg(fields: seq<Field>) | Default(value: Value)

  datatype Field = Field(
    tag: nat,
    atype: AType,
    htype: HType,
    ltype: LType,
    dataOffset: nat,
    sizeOffset: int,
    dataSize: nat,
    arraySize: nat,
    ptr: Ptr)
  {
    /** A proto3 field: optional, without a has_ flag of its own. */
    predicate Singular() {
      htype.HOptional? && sizeOffset == 0
    }

    /** A repeated field without a counter in the struct (PB_REPEATED_FIXED_COUNT). */
    predicate FixedCount() {
      htype.HRepeated? && sizeOffset == 0
    }
  }

  /** Contents of one field. Numbers are their mathematical value, fixed32 and fixed64
      included as raw bits; a string is the bytes in front of its terminator. */
  datatype Value = Num(n: int) | Blob(bs: bytes) | Msg(slots: seq<Slot>)

  /** One member group of a message struct: the data together with its has_, _count or
      which_ companion. All members of a union share one slot. */
  datatype Slot =
    | Single(v: Value)
    | Flagged(has: bool, v: Value)
    | Items(items: seq<Value>)
    | Union(which: nat, v: Value)

  type Table = seq<Field>

  /** Entry i is a further member of the union that entry i - 1 belongs to. */
  predicate Continues(t: Table, i: nat)
    requires i < |t|
  {
    i > 0 && t[i - 1].htype.HOneof? && t[i].htype.HOneof? && t[i].dataOffset == PB_SIZE_MAX
  }

  /** Number of slots that the first n entries describe. */
  function SlotCount(t: Table, n: nat): (c: nat)
    requires n <= |t|
    ensures c <= n && (n > 0 ==> c > 0)
  {
    if n == 0 then 0
    else SlotCount(t, n - 1) + if Continues(t, n - 1) then 0 else 1
  }

  function SlotOf(t: Table, i: nat): (s: nat)
    requires i < |t|
    ensures s < SlotCount(t, i + 1)
  {
    SlotCount(t, i + 1) - 1
  }

  lemma {:induction false} SlotCountMonotone(t: Table, m: nat, n: nat)
    requires m <= n <= |t|
    ensures SlotCount(t, m) <= SlotCount(t, n)
    decreases n
  {
    if m < n {
      SlotCountMonotone(t, m, n - 1);
    }
  }

  lemma SlotInRange(t: Table, i: nat)
    requires i < |t|
    ensures SlotOf(t, i) < SlotCount(t, |t|)
  {
    SlotCountMonotone(t, i + 1, |t|);
  }

  /** The slot that entry i of the table stands for in a struct of its type. */
  function SlotAt(t: Table, m: seq<Slot>, i: nat): (s: Slot)
    requires i < |t| && |m| == SlotCount(t, |t|)
    ensures SlotOf(t, i) < |m| && s == m[SlotOf(t, i)]
  {
    SlotInRange(t, i);
    m[SlotOf(t, i)]
  }

  function WithSlot(t: Table, m: seq<Slot>, i: nat, s: Slot): (m': seq<Slot>)
    requires i < |t| && |m| == SlotCount(t, |t|)
    ensures |m'| == |m| && SlotAt(t, m', i) == s
    ensures forall k | 0 <= k < |t| && SlotOf(t, k) != SlotOf(t, i) :: SlotAt(t, m', k) == SlotAt(t, m, k)
  {
    SlotInRange(t, i);
    m[SlotOf(t, i) := s]
  }

  /** Number of required entries in front of entry i. */
  function RequiredIndex(t: Table, i: nat): nat
    requires i <= |t|
  {
    if i == 0 then 0 else RequiredIndex(t, i - 1) + if t[i - 1].htype.HRequired? then 1 else 0
  }

  predicate Matches(t: Table, i: nat, tag: nat)
    requires i < |t|
  {
    t[i].tag == tag && !t[i].ltype.LExtension?
  }

  predicate DistinctTags(t: Table)
  {
    forall i, j | 0 <= i < j < |t| :: t[i].tag != t[j].tag
  }

  /** Position of the entry with this tag. */
  function FindField(t: Table, tag: nat): (r: Option<nat>)
    ensures r.Some? ==> r.value < |t| && Matches(t, r.value, tag)
    ensures r.None? <==> forall i | 0 <= i < |t| :: !Matches(t, i, tag)
  {
    FindFrom(t, tag, 0)
  }

  function FindFrom(t: Table, tag: nat, from: nat): (r: Option<nat>)
    requires from <= |t|
    ensures r.Some? ==> from <= r.value < |t| && Matches(t, r.value, tag)
    ensures r.None? <==> forall i | from <= i < |t| :: !Matches(t, i, tag)
    decreases |t| - from
  {
    if from == |t| then None
    else if Matches(t, from, tag) then Some(from)
    else FindFrom(t, tag, from + 1)
  }

  lemma UniqueField(t: Table, i: nat)
    requires DistinctTags(t) && i < |t| && !t[i].ltype.LExtension?
    ensures FindField(t, t[i].tag) == Some(i)
  {
    assert Matches(t, i, t[i].tag);
  }

  /** Entries share a slot exactly when every entry from the one to the other continues the
      union before it. */
  lemma {:induction false} SharedSlots(t: Table, i: nat, j: nat)
    requires i <= j < |t|
    ensures SlotOf(t, i) == SlotOf(t, j) <==> forall k | i < k <= j :: Continues(t, k)
    decreases j
  {
    if i < j {
      SharedSlots(t, i, j - 1);
      SlotCountMonotone(t, i + 1, j);
    }
  }
}
