/** Repeated scalars on the wire: packed chunks and single elements mix freely. */
module Packed {
  import opened Wire
  import opened Bits
  import opened Varint
  import opened Varint32
  import opened Descriptor
  import opened Scalars
  import opened Message
  import opened Encoding
  import opened Decoding

  /** A piece of a repeated scalar on the wire. */
  datatype Piece = Chunk(ns: seq<int>) | Element(n: int)

  function Nums(ns: seq<int>): (vs: seq<Value>)
    ensures |vs| == |ns|
  {
    seq(|ns|, i requires 0 <= i < |ns| => Num(ns[i]))
  }

  function PieceElements(p: Piece): seq<int> {
    match p
    case Chunk(ns) => ns
    case Element(n) => [n]
  }

  /** The elements of all pieces in wire order. */
  function Elements(ps: seq<Piece>): seq<int> {
    if ps == [] then [] else PieceElements(ps[0]) + Elements(ps[1..])
  }

  ghost predicate Holds(f: Field, ns: seq<int>) {
    forall i | 0 <= i < |ns| :: ScalarTyped(f, ns[i]) && EncodeScalar(f, ns[i]).Some?
  }

  function ScalarBytes(f: Field, n: int): bytes {
    match EncodeScalar(f, n) case Some(e) => e case None => []
  }

  function ChunkPayload(f: Field, ns: seq<int>): bytes {
    if ns == [] then [] else ScalarBytes(f, ns[0]) + ChunkPayload(f, ns[1..])
  }

  function PieceBytes(f: Field, p: Piece): bytes {
    match p
    case Chunk(ns) => EncodeTag(f.tag, WT_STRING) + Delimited(ChunkPayload(f, ns))
    case Element(n) => EncodeTag(f.tag, WireType(f.ltype)) + ScalarBytes(f, n)
  }

  function WireBytes(f: Field, ps: seq<Piece>): bytes {
    if ps == [] then [] else PieceBytes(f, ps[0]) + WireBytes(f, ps[1..])
  }

  ghost predicate PieceOk(f: Field, p: Piece) {
    match p
    case Chunk(ns) => Holds(f, ns) && |ChunkPayload(f, ns)| < TWO_32
    case Element(n) => Holds(f, [n])
  }

  // ----------------------------------------------------------- tags and lengths

  lemma TagRoundTrip(tag: nat, wireType: nat, tail: bytes)
    requires 0 < tag <= MAX_TAG && wireType < 8
    ensures DecodeTag(EncodeTag(tag, wireType) + tail) == Tag(tag, wireType, tail)
  {
    hide DecodeVarint32;
    Varint32RoundTrip(tag * 8 + wireType, tail);
  }

  lemma DelimitedRoundTrip(payload: bytes, tail: bytes)
    requires |payload| < TWO_32
    ensures TakeDelimited(Delimited(payload) + tail) == Ok(payload, tail)
  {
    hide DecodeVarint32;
    var e := EncodeVarint(|payload|);
    assert Delimited(payload) + tail == e + (payload + tail);
    Varint32RoundTrip(|payload|, payload + tail);
    assert (payload + tail)[..|payload|] == payload && (payload + tail)[|payload|..] == tail;
  }

  // -------------------------------------------------------------------- chunks

  lemma {:induction false} DecodePackedChunk(f: Field, ns: seq<int>, items: seq<Value>)
    requires Holds(f, ns)
    ensures DecodePacked(f, ChunkPayload(f, ns), items) ==
            if ns == [] || |items| + |ns| <= f.arraySize then Some(items + Nums(ns)) else None
    decreases |ns|
  {
    hide EncodeScalar;
    hide DecodeScalar;
    if ns == [] {
      assert items + Nums(ns) == items;
    } else {
      var e := ScalarBytes(f, ns[0]);
      var payload := ChunkPayload(f, ns);
      assert payload != [];
      ScalarRoundTrip(f, ns[0], ChunkPayload(f, ns[1..]));
      if |items| < f.arraySize {
        DecodePackedChunk(f, ns[1..], items + [Num(ns[0])]);
        assert items + [Num(ns[0])] + Nums(ns[1..]) == items + Nums(ns);
      }
    }
  }

  /** At most ten bytes an item, and exactly four or eight for the fixed types. */
  lemma {:induction false} PayloadBound(f: Field, items: seq<Value>, n: nat)
    requires n <= |items| && PackedPayload(f, items, n).Some?
    ensures |PackedPayload(f, items, n).value| <= 10 * n
    ensures f.ltype.LFixed32? ==> |PackedPayload(f, items, n).value| == 4 * n
    ensures f.ltype.LFixed64? ==> |PackedPayload(f, items, n).value| == 8 * n
  {
    if n > 0 {
      PayloadBound(f, items, n - 1);
      var x := items[n - 1].n;
      EncodedAtMostTen(ToUnsigned(x, 8));
      EncodedAtMostTen(ZigZag(x));
      EncodedAtMostTen(1);
    }
  }

  /** One piece appends its elements, or overflows. */
  lemma DecodePiece(f: Field, p: Piece, items: seq<Value>, tail: bytes)
    requires f.htype.HRepeated? && f.ltype.Packable() && PieceOk(f, p)
    requires 0 < f.tag <= MAX_TAG
    ensures var d := DecodeTag(PieceBytes(f, p) + tail);
            && d.Tag? && d.tag == f.tag
            && DecodeSlot(f, d.wireType, d.rest, Items(items)) ==
               if PieceElements(p) == [] || |items| + |PieceElements(p)| <= f.arraySize
               then Ok(Items(items + Nums(PieceElements(p))), tail) else Fail
  {
    match p
    case Chunk(ns) =>
      var body := Delimited(ChunkPayload(f, ns));
      assert PieceBytes(f, p) + tail == EncodeTag(f.tag, WT_STRING) + (body + tail);
      TagRoundTrip(f.tag, WT_STRING, body + tail);
      DelimitedRoundTrip(ChunkPayload(f, ns), tail);
      DecodePackedChunk(f, ns, items);
    case Element(n) =>
      var body := ScalarBytes(f, n);
      assert PieceBytes(f, p) + tail == EncodeTag(f.tag, WireType(f.ltype)) + (body + tail);
      TagRoundTrip(f.tag, WireType(f.ltype), body + tail);
      assert Holds(f, [n]);
      assert [n][0] == n;
      ScalarRoundTrip(f, n, tail);
      assert Nums([n]) == [Num(n)];
  }

  /** A fixed-count array may not begin while another one is incomplete. */
  predicate Blocked(t: Table, i: nat, st: LoopState)
    requires i < |t| && |st.slots| == SlotCount(t, |t|)
  {
    t[i].FixedCount() && st.fixedField != Some(i) && !FixedDone(t, st)
  }

  /** What a further record of entry i adds to: the items so far, or none when the record
      begins a fixed-count array. */
  function Held(t: Table, i: nat, st: LoopState): seq<Value>
    requires i < |t| && |st.slots| == SlotCount(t, |t|)
  {
    var s := SlotAt(t, Enter(t, i, st).slots, i);
    if s.Items? then s.items else []
  }

  /** The state with these items in entry i. */
  function Holding(t: Table, i: nat, st: LoopState, items: seq<Value>): (r: LoopState)
    requires i < |t| && |st.slots| == SlotCount(t, |t|)
    ensures |r.slots| == |st.slots|
  {
    var st1 := Enter(t, i, st);
    st1.(slots := WithSlot(t, st1.slots, i, Items(items)))
  }

  lemma LoopOverPiece(t: Table, i: nat, p: Piece, st: LoopState, more: bytes)
    requires WellFormed(t) && i < |t| && |st.slots| == SlotCount(t, |t|)
    requires t[i].htype.HRepeated? && t[i].ltype.Packable() && SlotAt(t, st.slots, i).Items?
    requires |Held(t, i, st)| <= t[i].arraySize && PieceOk(t[i], p)
    ensures var items := Held(t, i, st) + Nums(PieceElements(p));
            DecodeLoop(t, PieceBytes(t[i], p) + more, st) ==
            if Blocked(t, i, st) || |items| > t[i].arraySize then Fail
            else DecodeLoop(t, more, Holding(t, i, st, items))
  {
    hide PieceBytes;
    hide DecodeTag;
    hide DecodeSlot;
    hide SlotCount;
    DecodePiece(t[i], p, Held(t, i, st), more);
    assert WellFormedField(t[i]);
    UniqueField(t, i);
  }

  /** Adding twice is adding both. */
  lemma HoldingTwice(t: Table, i: nat, st: LoopState, a: seq<Value>, b: seq<Value>)
    requires i < |t| && |st.slots| == SlotCount(t, |t|) && SlotAt(t, st.slots, i).Items? && t[i].htype.HRepeated?
    ensures var st1 := Holding(t, i, st, a);
            && !Blocked(t, i, st1) && Held(t, i, st1) == a && SlotAt(t, st1.slots, i) == Items(a)
            && Holding(t, i, st1, b) == Holding(t, i, st, b)
  {
    hide SlotCount;
  }

  /** Any mix of packed chunks and single elements decodes to the concatenation of the
      elements in wire order, after what the array already holds. A fixed-count array
      begins anew unless it is the one being filled. Decoding fails exactly when the total
      does not fit the array, or when it would begin a fixed-count array before another is
      complete. */
  lemma {:induction false} PackedUnpackedMix(t: Table, i: nat, ps: seq<Piece>, st: LoopState, tail: bytes)
    requires WellFormed(t) && i < |t| && |st.slots| == SlotCount(t, |t|)
    requires t[i].htype.HRepeated? && t[i].ltype.Packable() && SlotAt(t, st.slots, i).Items?
    requires |Held(t, i, st)| <= t[i].arraySize
    requires ps != [] && forall k | 0 <= k < |ps| :: PieceOk(t[i], ps[k])
    ensures var total := Held(t, i, st) + Nums(Elements(ps));
            DecodeLoop(t, WireBytes(t[i], ps) + tail, st) ==
            if Blocked(t, i, st) || |total| > t[i].arraySize then Fail
            else DecodeLoop(t, tail, Holding(t, i, st, total))
    decreases |ps|
  {
    hide DecodeLoop;
    hide PieceBytes;
    hide PieceOk;
    hide Blocked;
    hide Held;
    hide Holding;
    var f := t[i];
    var p, more := ps[0], WireBytes(f, ps[1..]) + tail;
    assert WireBytes(f, ps) + tail == PieceBytes(f, p) + more;
    LoopOverPiece(t, i, p, st, more);
    var items := Held(t, i, st) + Nums(PieceElements(p));
    var total := Held(t, i, st) + Nums(Elements(ps));
    assert total == items + Nums(Elements(ps[1..]));
    if ps[1..] == [] {
      assert more == tail && total == items;
    } else if !Blocked(t, i, st) && |items| <= f.arraySize {
      HoldingTwice(t, i, st, items, total);
      PackedUnpackedMix(t, i, ps[1..], Holding(t, i, st, items), tail);
    }
  }
}
