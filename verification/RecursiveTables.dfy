/** Message types that may contain themselves: tables refer to each other by number, as
    the ptr members of generated tables do, and may form cycles. */
module RecursiveTables {
  import opened Wire
  import opened Bits
  import opened Varint
  import opened Descriptor
  import opened Scalars
  import opened Encoding
  import opened Decoding
  import opened Records
  import opened Packed

  /** A table entry, and for a submessage the number of its table. */
  datatype Entry = Entry(field: Field, sub: nat)

  type Env = seq<seq<Entry>>

  function Fields(es: seq<Entry>): (t: Table)
    ensures |t| == |es|
  {
    seq(|es|, i requires 0 <= i < |es| => es[i].field)
  }

  /** How deeply substreams were nested, and whether every record could be followed to the
      end. */
  datatype Trip = Trip(depth: nat, complete: bool)

  /** The way through the records of a message and into every nested one whose length prefix
      can be read, whatever its contents: at least as far as the decoder gets before it
      refuses anything. It ends on every byte string for every environment, cyclic or not:
      each record takes at least a byte from its stream and each substream is at least two
      bytes shorter than its parent was in front of the tag. So substreams nest at most half
      as deep as there are bytes, in refused messages too. */
  function Walk(env: Env, k: nat, bs: bytes): (trip: Trip)
    ensures 2 * trip.depth <= |bs|
    decreases |bs|
  {
    if k >= |env| then Trip(0, false)
    else if bs == [] then Trip(0, true)
    else
      match DecodeTag(bs)
      case TagError => Trip(0, false)
      case TagEnd(_) => Trip(0, true)
      case Tag(tag, wireType, rest) =>
        var t := Fields(env[k]);
        var found := FindField(t, tag);
        var inner :=
          if found.Some? && t[found.value].ltype.LSubmessage? && TakeDelimited(rest).Ok? then
            var below := Walk(env, env[k][found.value].sub, TakeDelimited(rest).value);
            Trip(below.depth + 1, below.complete)
          else Trip(0, true);
        match RecordEnd(t, tag, wireType, rest)
        case None => Trip(inner.depth, false)
        case Some(next) =>
          var others := Walk(env, k, next);
          Trip(Max(inner.depth, others.depth), inner.complete && others.complete)
  }

  // ------------------------------------------------------- the walk is the decoder's

  /** Table k of the environment is the finite table t. */
  ghost predicate Describes(env: Env, k: nat, t: Table)
    decreases t
  {
    && k < |env| && |env[k]| == |t|
    && forall i {:trigger t[i]} | 0 <= i < |t| :: EntryDescribes(env, env[k][i], t[i])
  }

  ghost predicate EntryDescribes(env: Env, e: Entry, f: Field)
    decreases f
  {
    && e.field.(ptr := NullPtr) == f.(ptr := NullPtr)
    && (f.ltype.LSubmessage? && f.ptr.Submsg? ==> Describes(env, e.sub, f.ptr.fields))
  }

  lemma {:induction false} SameSearch(a: Table, b: Table, tag: nat, from: nat)
    requires |a| == |b| && from <= |a|
    requires forall i {:trigger b[i]} | 0 <= i < |b| :: a[i].(ptr := NullPtr) == b[i].(ptr := NullPtr)
    ensures FindFrom(a, tag, from) == FindFrom(b, tag, from)
    decreases |a| - from
  {
    if from < |a| {
      assert a[from].(ptr := NullPtr) == b[from].(ptr := NullPtr);
      SameSearch(a, b, tag, from + 1);
    }
  }

  lemma SameEnd(f: Field, g: Field, wireType: nat, bs: bytes)
    requires f.(ptr := NullPtr) == g.(ptr := NullPtr)
    ensures FieldEnd(f, wireType, bs) == FieldEnd(g, wireType, bs)
  {
    hide DecodeVarint;
    hide DecodeVarint32;
    hide ToSigned;
    hide ToUnsigned;
    hide TakeDelimited;
    assert DecodeScalar(f, bs) == DecodeScalar(g, bs);
  }

  lemma SameRecordEnd(env: Env, k: nat, t: Table, tag: nat, wireType: nat, bs: bytes)
    requires Describes(env, k, t)
    ensures RecordEnd(Fields(env[k]), tag, wireType, bs) == RecordEnd(t, tag, wireType, bs)
    ensures FindField(Fields(env[k]), tag) == FindField(t, tag)
  {
    hide FieldEnd;
    forall i {:trigger t[i]} | 0 <= i < |t|
      ensures Fields(env[k])[i].(ptr := NullPtr) == t[i].(ptr := NullPtr)
    {
      assert EntryDescribes(env, env[k][i], t[i]);
    }
    SameSearch(Fields(env[k]), t, tag, 0);
    var found := FindField(t, tag);
    if found.Some? {
      SameEnd(Fields(env[k])[found.value], t[found.value], wireType, bs);
    }
  }

  /** Wherever the decoder succeeds, the walk has gone through the same records to the
      end. */
  lemma {:induction false} WalkFollowsDecoder(env: Env, k: nat, t: Table, bs: bytes, st: LoopState)
    requires Describes(env, k, t) && |st.slots| == SlotCount(t, |t|) && DecodeLoop(t, bs, st).Ok?
    ensures Walk(env, k, bs).complete
    decreases |bs|
  {
    hide DecodeTag;
    hide DecodeRecord;
    hide RecordEnd;
    hide TakeDelimited;
    if bs != [] && DecodeTag(bs).Tag? {
      var d := DecodeTag(bs);
      var r := DecodeRecord(t, d.tag, d.wireType, d.rest, st);
      RecordEndsThere(t, d.tag, d.wireType, d.rest, st);
      SameRecordEnd(env, k, t, d.tag, d.wireType, d.rest);
      var found := FindField(t, d.tag);
      if found.Some? && t[found.value].ltype.LSubmessage? {
        var i, cur := RecordValue(t, d.tag, d.wireType, d.rest, st);
        var inner := InnerLoop(t[i], d.rest, cur);
        assert EntryDescribes(env, env[k][i], t[i]);
        WalkFollowsDecoder(env, env[k][i].sub, t[i].ptr.fields, TakeDelimited(d.rest).value, inner);
      }
      WalkFollowsDecoder(env, k, t, r.rest, r.value);
    }
  }

  // ------------------------------------------------------------------ a message in itself

  /** One message type with one field of its own type. */
  const SELF: Env := [[Entry(Field(1, APointer, HOptional, LSubmessage, 0, 0, 8, 0, NullPtr), 0)]]

  /** The bytes wrapped n times. */
  function NestAround(n: nat, core: bytes): bytes {
    if n == 0 then core else EncodeTag(1, WT_STRING) + Delimited(NestAround(n - 1, core))
  }

  lemma SelfTable()
    ensures |SELF| == 1 && |SELF[0]| == 1 && SELF[0][0].sub == 0
    ensures var t := Fields(SELF[0]);
            FindField(t, 1) == Some(0) && t[0].ltype.LSubmessage?
  {
    assert Matches(Fields(SELF[0]), 0, 1);
  }

  /** One last record with a submessage. */
  lemma WalkRecord(env: Env, k: nat, i: nat, bs: bytes, payload: bytes)
    requires k < |env| && i < |env[k]| && bs != []
    requires var d, t := DecodeTag(bs), Fields(env[k]);
             && d.Tag? && FindField(t, d.tag) == Some(i) && t[i].ltype.LSubmessage?
             && TakeDelimited(d.rest) == Ok(payload, [])
    ensures |payload| < |bs|
    ensures var below := Walk(env, env[k][i].sub, payload);
            Walk(env, k, bs) == Trip(below.depth + 1, below.complete)
  {
    hide DecodeTag;
    hide TakeDelimited;
    hide FindField;
    var d, t := DecodeTag(bs), Fields(env[k]);
    assert RecordEnd(t, d.tag, d.wireType, d.rest) == Some([]);
    assert Walk(env, k, []) == Trip(0, true);
  }

  lemma SelfRecord(payload: bytes)
    requires |payload| < TWO_32
    ensures var below := Walk(SELF, 0, payload);
            Walk(SELF, 0, EncodeTag(1, WT_STRING) + Delimited(payload)) == Trip(below.depth + 1, below.complete)
  {
    hide DecodeTag;
    hide TakeDelimited;
    hide EncodeTag;
    hide Delimited;
    hide FindField;
    hide Walk;
    TagRoundTrip(1, WT_STRING, Delimited(payload));
    DelimitedRoundTrip(payload, []);
    assert Delimited(payload) + [] == Delimited(payload);
    SelfTable();
    WalkRecord(SELF, 0, 0, EncodeTag(1, WT_STRING) + Delimited(payload), payload);
  }

  /** Any depth is reached: the nesting is limited by the bytes and by nothing else. */
  lemma {:induction false} SelfNested(n: nat)
    requires |NestAround(n, [])| < TWO_32
    ensures Walk(SELF, 0, NestAround(n, [])) == Trip(n, true)
  {
    hide DecodeTag;
    hide TakeDelimited;
    hide EncodeTag;
    hide Delimited;
    hide FindField;
    if n > 0 {
      var payload := NestAround(n - 1, []);
      assert |payload| < |Delimited(payload)|;
      SelfNested(n - 1);
      SelfRecord(payload);
    }
  }

  /** Also when the innermost message is refused: the walk is as deep, and not complete. */
  lemma {:induction false} RefusedInside(n: nat, core: bytes)
    requires core != [] && DecodeTag(core).TagError? && |NestAround(n, core)| < TWO_32
    ensures Walk(SELF, 0, NestAround(n, core)) == Trip(n, false)
  {
    hide DecodeTag;
    hide TakeDelimited;
    hide EncodeTag;
    hide Delimited;
    hide FindField;
    if n > 0 {
      var payload := NestAround(n - 1, core);
      assert |payload| < |Delimited(payload)|;
      RefusedInside(n - 1, core);
      SelfRecord(payload);
    }
  }
}
