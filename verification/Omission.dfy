/** What the encoder leaves out, and that nothing but the meaning of a message reaches the
    wire. */
module Omission {
  import opened Wire
  import opened Descriptor
  import opened Message
  import opened Encoding

  lemma SlotWritesNothing(f: Field, s: Slot)
    requires SlotTyped(f, s)
    ensures EncodeSlot(f, s) == Some([]) <==> WritesNothing(f, s)
  {
  }

  lemma {:induction false} PrefixWritesNothing(t: Table, m: seq<Slot>, n: nat)
    requires n <= |t| && Typed(t, m)
    ensures EncodeUpTo(t, m, n) == Some([]) <==>
            forall i {:trigger SlotAt(t, m, i)} | 0 <= i < n :: WritesNothing(t[i], SlotAt(t, m, i))
  {
    hide EncodeSlot;
    hide WritesNothing;
    hide SlotTyped;
    hide SlotAt;
    if n > 0 {
      PrefixWritesNothing(t, m, n - 1);
      assert SlotTyped(t[n - 1], SlotAt(t, m, n - 1));
      SlotWritesNothing(t[n - 1], SlotAt(t, m, n - 1));
      var init, last := EncodeUpTo(t, m, n - 1), EncodeSlot(t[n - 1], SlotAt(t, m, n - 1));
      assert EncodeUpTo(t, m, n) == Some([]) <==> init == Some([]) && last == Some([]) by {
        if init.Some? && last.Some? {
          assert |init.value + last.value| == |init.value| + |last.value|;
        }
      }
    }
  }

  /** No selector outside its union and no fixed-count array of length zero: the two things
      that the default check sees and the encoder does not. */
  ghost predicate NothingHidden(t: Table, m: seq<Slot>)
    requires |m| == SlotCount(t, |t|)
  {
    forall i {:trigger t[i]} | 0 <= i < |t| ::
      && KnownSelector(t, i, SlotAt(t, m, i))
      && (t[i].FixedCount() ==> t[i].arraySize > 0)
  }

  /** The recursive default check is true exactly when pb_encode would write zero bytes. */
  lemma OmissionIsSound(t: Table, m: seq<Slot>)
    requires WellFormed(t) && Typed(t, m)
    ensures IsDefaultMessage(t, m) <==> EncodeMessage(t, m) == Some([]) && NothingHidden(t, m)
  {
    PrefixWritesNothing(t, m, |t|);
    if IsDefaultMessage(t, m) {
      forall i {:trigger SlotAt(t, m, i)} | 0 <= i < |t|
        ensures WritesNothing(t[i], SlotAt(t, m, i))
      {
        assert WellFormedField(t[i]) && IsDefaultSlot(t[i], SlotAt(t, m, i));
      }
    } else if EncodeMessage(t, m) == Some([]) {
      var i :| 0 <= i < |t| && !IsDefaultSlot(t[i], SlotAt(t, m, i));
      ShowsHidden(t, m, i);
    }
  }

  lemma ShowsHidden(t: Table, m: seq<Slot>, i: nat)
    requires WellFormed(t) && Typed(t, m) && i < |t| && !IsDefaultSlot(t[i], SlotAt(t, m, i))
    requires forall k {:trigger SlotAt(t, m, k)} | 0 <= k < |t| :: WritesNothing(t[k], SlotAt(t, m, k))
    ensures !NothingHidden(t, m)
  {
    var s := SlotAt(t, m, i);
    assert WritesNothing(t[i], s) && SlotTyped(t[i], s);
  }

  /** A selector that names no member of its union: nothing is written, yet the message
      does not count as default. */
  lemma HiddenSelector()
    ensures var t := [Field(1, AStatic, HOneof, LUVarint, 0, -1, 4, 0, NullPtr)];
            var m := [Union(2, Num(0))];
            WellFormed(t) && Typed(t, m) && EncodeMessage(t, m) == Some([]) && !IsDefaultMessage(t, m)
  {
    var t, m := [Field(1, AStatic, HOneof, LUVarint, 0, -1, 4, 0, NullPtr)], [Union(2, Num(0))];
    assert SlotCount(t, 1) == 1 + SlotCount(t, 0);
    assert WellFormedField(t[0]) && SlotAt(t, m, 0) == m[0];
    assert SlotTyped(t[0], m[0]);
    var nothing: bytes := [];
    assert nothing + nothing == nothing;
    assert EncodeUpTo(t, m, 1) == Some(nothing + nothing);
    assert EncodeUpTo(t, m, 0) == Some([]) && EncodeSlot(t[0], m[0]) == Some([]);
    assert !IsDefaultSlot(t[0], SlotAt(t, m, 0));
  }

  // ----------------------------------------------- only the meaning is encoded

  /** Messages that mean the same are encoded alike: stale storage behind a has_ flag, an
      inactive union member or bytes behind a NUL never reach the wire. */
  lemma {:induction false} EncodingDependsOnMeaning(t: Table, a: seq<Slot>, b: seq<Slot>)
    requires Typed(t, a) && Typed(t, b) && SameMessage(t, a, b)
    ensures EncodeMessage(t, a) == EncodeMessage(t, b)
    ensures IsDefaultMessage(t, a) == IsDefaultMessage(t, b)
    decreases t, |t| + 1
  {
    PrefixDependsOnMeaning(t, a, b, |t|);
    forall i {:trigger t[i]} | 0 <= i < |t|
      ensures IsDefaultSlot(t[i], SlotAt(t, a, i)) == IsDefaultSlot(t[i], SlotAt(t, b, i))
    {
      SlotDependsOnMeaning(t[i], SlotAt(t, a, i), SlotAt(t, b, i));
    }
  }

  lemma {:induction false} PrefixDependsOnMeaning(t: Table, a: seq<Slot>, b: seq<Slot>, n: nat)
    requires n <= |t| && Typed(t, a) && Typed(t, b) && SameMessage(t, a, b)
    ensures EncodeUpTo(t, a, n) == EncodeUpTo(t, b, n)
    decreases t, n
  {
    hide EncodeSlot;
    if n > 0 {
      PrefixDependsOnMeaning(t, a, b, n - 1);
      SlotDependsOnMeaning(t[n - 1], SlotAt(t, a, n - 1), SlotAt(t, b, n - 1));
    }
  }

  lemma {:induction false} SlotDependsOnMeaning(f: Field, a: Slot, b: Slot)
    requires SlotTyped(f, a) && SlotTyped(f, b) && SameSlot(f, a, b)
    ensures EncodeSlot(f, a) == EncodeSlot(f, b)
    ensures IsDefaultSlot(f, a) == IsDefaultSlot(f, b)
    decreases f, 2
  {
    match f.htype {
      case HRequired =>
        ValueDependsOnMeaning(f, a.v, b.v);
      case HOptional =>
        if f.sizeOffset == 0 || a.has {
          ValueDependsOnMeaning(f, a.v, b.v);
        }
      case HRepeated =>
        ItemsDependOnMeaning(f, a.items, b.items, |a.items|);
      case HOneof =>
        if a.which == f.tag {
          ValueDependsOnMeaning(f, a.v, b.v);
        }
    }
  }

  lemma {:induction false} ItemsDependOnMeaning(f: Field, a: seq<Value>, b: seq<Value>, n: nat)
    requires |a| == |b| && n <= |a|
    requires forall k | 0 <= k < |a| :: ValueTyped(f, a[k]) && ValueTyped(f, b[k]) && SameValue(f, a[k], b[k])
    ensures f.ltype.Packable() ==> PackedPayload(f, a, n) == PackedPayload(f, b, n)
    ensures TaggedItems(f, a, n) == TaggedItems(f, b, n)
    decreases f, 1, n
  {
    if n > 0 {
      ItemsDependOnMeaning(f, a, b, n - 1);
      ValueDependsOnMeaning(f, a[n - 1], b[n - 1]);
    }
  }

  lemma {:induction false} ValueDependsOnMeaning(f: Field, a: Value, b: Value)
    requires ValueTyped(f, a) && ValueTyped(f, b) && SameValue(f, a, b)
    ensures EncodeValue(f, a) == EncodeValue(f, b)
    ensures IsZero(f, a) == IsZero(f, b)
    decreases f, 0
  {
    if f.ltype.LSubmessage? {
      EncodingDependsOnMeaning(f.ptr.fields, a.slots, b.slots);
    }
  }
}
