/** Messages that mark their own end: length-prefixed and zero-terminated. */
module Framing {
  import opened Wire
  import opened Bits
  import opened Descriptor
  import opened Message
  import opened Encoding
  import opened Decoding
  import opened Records
  import opened Packed
  import opened RoundTrip
  import opened Varint
  import opened WireFormat

  /** pb_encode_delimited */
  function EncodeDelimited(t: Table, m: seq<Slot>): Option<bytes>
    requires |m| == SlotCount(t, |t|)
  {
    var e :- EncodeMessage(t, m);
    Some(Delimited(e))
  }

  /** pb_decode_delimited */
  function DecodeDelimited(t: Table, bs: bytes): (r: Parse<seq<Slot>>)
    ensures r.Ok? ==> |r.rest| < |bs|
  {
    var (payload, rest) :- TakeDelimited(bs);
    var (m, _) :- Decode(t, payload);
    Ok(m, rest)
  }

  /** pb_encode_nullterminated */
  function EncodeNullTerminated(t: Table, m: seq<Slot>): Option<bytes>
    requires |m| == SlotCount(t, |t|)
  {
    var e :- EncodeMessage(t, m);
    Some(e + [0])
  }

  /** Several messages of one type in a row. */
  function EncodeStream(t: Table, ms: seq<seq<Slot>>): Option<bytes>
    requires forall i | 0 <= i < |ms| :: |ms[i]| == SlotCount(t, |t|)
  {
    if ms == [] then Some([])
    else
      var first :- EncodeDelimited(t, ms[0]);
      var others :- EncodeStream(t, ms[1..]);
      Some(first + others)
  }

  function DecodeStream(t: Table, n: nat, bs: bytes): Parse<seq<seq<Slot>>> {
    if n == 0 then Ok([], bs)
    else
      var (m, rest) :- DecodeDelimited(t, bs);
      var (ms, end) :- DecodeStream(t, n - 1, rest);
      Ok([m] + ms, end)
  }

  /** The length of the message as a varint and the message; or the message and a zero. */
  lemma FramesExactly(t: Table, m: seq<Slot>)
    requires WellFormed(t) && Typed(t, m) && EncodeMessage(t, m).Some?
    ensures var e := MessageBytes(t, m);
            && EncodeDelimited(t, m) == Some(EncodeVarint(|e|) + e)
            && EncodeNullTerminated(t, m) == Some(e + [0])
  {
    MessageForm(t, m);
  }

  /** A message that pb_encode accepts and pb_decode can read back. */
  ghost predicate Sendable(t: Table, m: seq<Slot>) {
    && Typed(t, m) && Sound(t, m)
    && EncodeMessage(t, m).Some? && NestedBelow(t, m, TWO_32)
  }

  lemma DelimitedMessage(t: Table, m: seq<Slot>, tail: bytes)
    requires WellFormed(t) && Sendable(t, m) && |EncodeMessage(t, m).value| < TWO_32
    ensures EncodeDelimited(t, m).Some?
    ensures var r := DecodeDelimited(t, EncodeDelimited(t, m).value + tail);
            r.Ok? && r.rest == tail && SameMessage(t, m, r.value)
  {
    hide TakeDelimited;
    hide Decode;
    MessageRoundTrip(t, m);
    DelimitedRoundTrip(EncodeMessage(t, m).value, tail);
  }

  /** Any number of delimited messages followed by arbitrary bytes: each comes back in
      order, and exactly those bytes are left. */
  lemma {:induction false} DelimitedStream(t: Table, ms: seq<seq<Slot>>, tail: bytes)
    requires WellFormed(t)
    requires forall i | 0 <= i < |ms| ::
               |ms[i]| == SlotCount(t, |t|) && Sendable(t, ms[i]) && |EncodeMessage(t, ms[i]).value| < TWO_32
    ensures EncodeStream(t, ms).Some?
    ensures var r := DecodeStream(t, |ms|, EncodeStream(t, ms).value + tail);
            && r.Ok? && r.rest == tail && |r.value| == |ms|
            && forall i | 0 <= i < |ms| :: SameMessage(t, ms[i], r.value[i])
    decreases |ms|
  {
    hide DecodeDelimited;
    hide EncodeDelimited;
    hide SameMessage;
    hide WellFormed;
    hide SlotCount;
    if ms == [] {
      assert [] + tail == tail;
    } else {
      assert |ms[0]| == SlotCount(t, |t|) && Sendable(t, ms[0]);
      DelimitedStream(t, ms[1..], tail);
      DelimitedMessage(t, ms[0], []);
      var first, others := EncodeDelimited(t, ms[0]).value, EncodeStream(t, ms[1..]).value;
      assert first + others + tail == first + (others + tail);
      DelimitedMessage(t, ms[0], others + tail);
      var r := DecodeStream(t, |ms|, EncodeStream(t, ms).value + tail);
      var rs := DecodeStream(t, |ms| - 1, others + tail);
      assert r.value[1..] == rs.value;
      forall i | 0 <= i < |ms|
        ensures SameMessage(t, ms[i], r.value[i])
      {
        if i > 0 {
          assert ms[i] == ms[1..][i - 1] && r.value[i] == rs.value[i - 1];
        }
      }
    }
  }

  /** A zero-terminated message followed by arbitrary bytes: the reader stops just behind
      the zero. */
  lemma NullTerminatedMessage(t: Table, m: seq<Slot>, tail: bytes)
    requires WellFormed(t) && Sendable(t, m)
    ensures var r := Decode(t, EncodeNullTerminated(t, m).value + tail);
            r.Ok? && r.rest == tail && SameMessage(t, m, r.value)
  {
    var e := EncodeMessage(t, m).value;
    var st := MessageReceived(t, m);
    assert e + [0] + tail == e + ([0] + tail);
    LoopAfterRun(t, e, [0] + tail, Start(Defaults(t)));
    assert DecodeTag([0] + tail) == TagEnd(tail) by {
      assert ([0] + tail)[1..] == tail;
    }
  }
}
