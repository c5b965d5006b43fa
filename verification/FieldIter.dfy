/** The cyclic cursor over a descriptor table (pb_common.c) and the struct layout it
    reconstructs. */
module FieldIterator {
  import opened Wire
  import opened Descriptor

  // ------------------------------------------------------- offsets from the table

  /** Bytes between the start of an entry's data and the end of it, as the cursor sees it. */
  function StepSize(f: Field): nat
  {
    if f.atype.AStatic? && f.htype.HRepeated? then f.dataSize * f.arraySize
    else if f.atype.APointer? then POINTER_SIZE
    else f.dataSize
  }

  function DataAt(t: Table, i: nat): int
    requires i < |t|
  {
    if i == 0 then t[0].dataOffset
    else if Continues(t, i) then DataAt(t, i - 1)
    else DataAt(t, i - 1) + StepSize(t[i - 1]) + t[i].dataOffset
  }

  function SizeAt(t: Table, i: nat): int
    requires i < |t|
  {
    if Continues(t, i) then SizeAt(t, i - 1) else DataAt(t, i) + t[i].sizeOffset
  }

  // ---------------------------------------------------------------- the cursor

  class FieldIter {
    var start: Table
    var pos: nat
    var requiredFieldIndex: nat
    var destStruct: int
    var pData: int
    var pSize: int
    /** The slot that pData points at. */
    var slot: nat

    ghost predicate Valid()
      reads this
    {
      if start == [] then pos == 0 && requiredFieldIndex == 0 && slot == 0
      else
        && pos < |start|
        && requiredFieldIndex == RequiredIndex(start, pos)
        && pData == destStruct + DataAt(start, pos)
        && pSize == destStruct + SizeAt(start, pos)
        && slot == SlotOf(start, pos)
    }

    constructor (fields: Table, dest: int)
      ensures Valid() && start == fields && destStruct == dest && pos == 0
    {
      start, destStruct := fields, dest;
      pos, requiredFieldIndex, slot := 0, 0, 0;
      new;
      var more := Begin(fields, dest);
    }

    method Begin(fields: Table, dest: int) returns (more: bool)
      modifies this
      ensures Valid() && start == fields && destStruct == dest && pos == 0
      ensures more <==> fields != []
    {
      start := fields;
      pos := 0;
      requiredFieldIndex := 0;
      destStruct := dest;
      slot := 0;
      if fields != [] {
        pData := dest + fields[0].dataOffset;
        pSize := pData + fields[0].sizeOffset;
        assert SlotCount(fields, 1) == SlotCount(fields, 0) + 1;
      } else {
        pData := dest;
        pSize := dest;
      }
      more := fields != [];
    }

    function TagAtCursor(): nat
      reads this
    {
      if pos < |start| then start[pos].tag else 0
    }

    /** The terminator has type code 0, a required bool. */
    function LTypeAtCursor(): LType
      reads this
    {
      if pos < |start| then start[pos].ltype else LBool
    }

    /** Moves on by one entry; past the last one it wraps to the first and says so. */
    method Next() returns (more: bool)
      requires Valid()
      modifies this
      ensures Valid() && start == old(start) && destStruct == old(destStruct)
      ensures more <==> old(pos) + 1 < |start|
      ensures pos == if more then old(pos) + 1 else 0
    {
      if pos == |start| {
        return false;
      }
      var prev := start[pos];
      pos := pos + 1;
      if pos == |start| {
        var nonEmpty := Begin(start, destStruct);
        return false;
      }
      var prevSize := prev.dataSize;
      if prev.htype.HOneof? && start[pos].htype.HOneof? && start[pos].dataOffset == PB_SIZE_MAX {
        return true;
      } else if prev.atype.AStatic? && prev.htype.HRepeated? {
        prevSize := prevSize * prev.arraySize;
      } else if prev.atype.APointer? {
        prevSize := POINTER_SIZE;
      }
      if prev.htype.HRequired? {
        requiredFieldIndex := requiredFieldIndex + 1;
      }
      pData := pData + prevSize + start[pos].dataOffset;
      pSize := pData + start[pos].sizeOffset;
      slot := slot + 1;
      return true;
    }

    /** Searches at most one lap from wherever the cursor stands. It succeeds exactly when
        some entry matches (on an empty table the terminator matches tag 0), stops at the
        first match in cyclic order, and otherwise is back where it began. */
    method Find(tag: nat) returns (found: bool, ghost steps: nat)
      requires Valid()
      modifies this
      ensures Valid() && start == old(start) && destStruct == old(destStruct)
      ensures found <==> (start == [] && tag == 0) || exists i | 0 <= i < |start| :: Matches(start, i, tag)
      ensures found && start != [] ==> Matches(start, pos, tag)
      ensures found && start != [] ==> steps < |start| && pos == Wrap(old(pos), steps, |start|)
      ensures found && start != [] ==> forall k | 0 <= k < steps :: !Matches(start, Wrap(old(pos), k, |start|), tag)
      ensures !found ==> pos == old(pos)
    {
      ghost var p0, n := pos, |start|;
      var origin := pos;
      var again := true;
      steps := 0;
      while again
        invariant Valid() && start == old(start) && destStruct == old(destStruct)
        invariant start == [] ==> pos == origin == 0 && (if again then steps == 0 else steps == 1 && tag != 0)
        invariant start != [] ==> steps <= n && pos == Wrap(p0, steps, n)
        invariant start != [] ==> (again <==> steps < n)
        invariant start != [] ==> forall k | 0 <= k < steps :: !Matches(start, Wrap(p0, k, n), tag)
        decreases n + 1 - steps
      {
        if TagAtCursor() == tag && !LTypeAtCursor().LExtension? {
          assert start != [] ==> Matches(start, pos, tag);
          return true, steps;
        }
        var more := Next();
        steps := steps + 1;
        again := pos != origin;
      }
      if start != [] {
        forall i | 0 <= i < n
          ensures !Matches(start, i, tag)
        {
          var k := if i >= p0 then i - p0 else i + n - p0;
          assert i == Wrap(p0, k, n);
        }
      }
      return false, steps;
    }
  }

  /** The entry k steps after p in a table of n entries. */
  function Wrap(p: nat, k: nat, n: nat): (r: nat)
    requires p < n && k <= n
    ensures r < n
  {
    if p + k < n then p + k else p + k - n
  }

  // ------------------------------------------------- the layout the table came from

  /** A struct member as the compiler laid it out: where its data starts, where its has_,
      _count or which_ companion is, and how large one item is. */
  datatype Member = Member(
    tag: nat,
    atype: AType,
    htype: HType,
    ltype: LType,
    offset: nat,
    companion: Option<nat>,
    itemSize: nat,
    arraySize: nat,
    inUnion: bool,
    ptr: Ptr)

  /** sizeof the whole member. */
  function MemberSize(m: Member): nat
  {
    if m.atype.APointer? then POINTER_SIZE
    else if m.atype.AStatic? && m.htype.HRepeated? then m.itemSize * m.arraySize
    else m.itemSize
  }

  /** pb_delta(st, companion, member), or 0 for a member without a companion. */
  function CompanionDelta(m: Member): int
  {
    match m.companion
    case Some(at) => at - m.offset
    case None => 0
  }

  /** Members lie one after the other; a further union member lies on top of the one
      before it and shares its which_. */
  predicate WellLaidOut(ms: seq<Member>)
  {
    forall i | 0 <= i < |ms| ::
      if ms[i].inUnion then
        && i > 0 && ms[i].htype.HOneof? && ms[i - 1].htype.HOneof?
        && ms[i].offset == ms[i - 1].offset && ms[i].companion == ms[i - 1].companion
      else
        i > 0 ==> ms[i].offset >= ms[i - 1].offset + MemberSize(ms[i - 1])
  }

  /** PB_DATAOFFSET_FIRST, PB_DATAOFFSET_OTHER and PB_DATAOFFSET_UNION. */
  function DataOffset(ms: seq<Member>, i: nat): nat
    requires WellLaidOut(ms) && i < |ms|
  {
    if i == 0 then ms[0].offset
    else if ms[i].inUnion then PB_SIZE_MAX
    else ms[i].offset - ms[i - 1].offset - MemberSize(ms[i - 1])
  }

  /** The table that the PB_FIELD macros generate for a struct. */
  function TableOf(ms: seq<Member>): (t: Table)
    requires WellLaidOut(ms)
    ensures |t| == |ms|
  {
    seq(|ms|, i requires 0 <= i < |ms| =>
      Field(ms[i].tag, ms[i].atype, ms[i].htype, ms[i].ltype, DataOffset(ms, i),
            CompanionDelta(ms[i]), ms[i].itemSize, ms[i].arraySize, ms[i].ptr))
  }

  /** A gap of exactly PB_SIZE_MAX bytes between two unions reads as "same union". */
  predicate AmbiguousGap(ms: seq<Member>, i: nat)
    requires WellLaidOut(ms) && i < |ms|
  {
    && i > 0 && !ms[i].inUnion
    && ms[i - 1].htype.HOneof? && ms[i].htype.HOneof?
    && DataOffset(ms, i) == PB_SIZE_MAX
  }

  /** Where the companion is; the data itself stands in for a missing one. */
  function CompanionAt(m: Member): nat
  {
    match m.companion
    case Some(at) => at
    case None => m.offset
  }

  /** From the table alone the cursor recovers the address of every member and of its
      companion, unions, static arrays and pointers included. */
  lemma {:induction false} CursorMatchesLayout(ms: seq<Member>, i: nat)
    requires WellLaidOut(ms) && i < |ms|
    requires forall k | 0 <= k <= i :: !AmbiguousGap(ms, k)
    ensures DataAt(TableOf(ms), i) == ms[i].offset
    ensures SizeAt(TableOf(ms), i) == CompanionAt(ms[i])
  {
    var t := TableOf(ms);
    assert !AmbiguousGap(ms, i);
    assert Continues(t, i) <==> ms[i].inUnion;
    if i > 0 {
      CursorMatchesLayout(ms, i - 1);
      assert StepSize(t[i - 1]) == MemberSize(ms[i - 1]) by {
        assert ms[i - 1].atype.APointer? ==> !(ms[i - 1].atype.AStatic?);
      }
    }
  }

  /** The cursor goes wrong at an ambiguous gap and only there: every address up to i is
      right if and only if no gap up to i is ambiguous. */
  lemma {:induction false} LayoutRecoveredIff(ms: seq<Member>, n: nat)
    requires WellLaidOut(ms) && n <= |ms|
    ensures (forall i | 0 <= i < n :: DataAt(TableOf(ms), i) == ms[i].offset)
            <==> (forall i | 0 <= i < n :: !AmbiguousGap(ms, i))
  {
    if forall i | 0 <= i < n :: !AmbiguousGap(ms, i) {
      forall i | 0 <= i < n
        ensures DataAt(TableOf(ms), i) == ms[i].offset
      {
        CursorMatchesLayout(ms, i);
      }
    } else {
      var i :| 0 <= i < n && AmbiguousGap(ms, i);
      var t := TableOf(ms);
      assert Continues(t, i);
      if DataAt(t, i - 1) == ms[i - 1].offset {
        assert DataAt(t, i) == ms[i - 1].offset < ms[i].offset;
      }
    }
  }

  /** A generated layout that hits the marker: a union of a struct of 255 bytes and a bool,
      then a union of a bool, each behind its selector. The cursor takes the last bool for
      a member of the first union and finds it at address 1 instead of 257. */
  lemma GapOf255()
    ensures var a := Member(1, AStatic, HOneof, LBytes, 1, Some(0), 255, 0, false, NullPtr);
            var b := Member(2, AStatic, HOneof, LBool, 1, Some(0), 1, 0, true, NullPtr);
            var c := Member(3, AStatic, HOneof, LBool, 257, Some(256), 1, 0, false, NullPtr);
            WellLaidOut([a, b, c]) && AmbiguousGap([a, b, c], 2) && DataAt(TableOf([a, b, c]), 2) == 1
  {
    var a := Member(1, AStatic, HOneof, LBytes, 1, Some(0), 255, 0, false, NullPtr);
    var b := Member(2, AStatic, HOneof, LBool, 1, Some(0), 1, 0, true, NullPtr);
    var c := Member(3, AStatic, HOneof, LBool, 257, Some(256), 1, 0, false, NullPtr);
    var t := TableOf([a, b, c]);
    assert Continues(t, 1) && Continues(t, 2);
    assert DataAt(t, 0) == 1;
    assert DataAt(t, 1) == 1;
  }
}
