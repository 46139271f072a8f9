/** Length-prefixed frames over a byte stream that arrives in arbitrary pieces: SendMsgpackFrame
    and the receive loop of the terminal client. */
module Frames {
  import opened Common
  import opened Bytes
  import opened MsgPack
  import opened MsgPackRoundTrip
  import opened MsgPackCodec
  import MsgPackFormat

  /** Adding 4 to a larger length wraps the 32-bit sum that the receive loop compares with. */
  const MAX_FRAME: nat := TWO32 - 4

  // ----- What travels -----

  function FrameOf(payload: ByteString): ByteString {
    BigEndian(|payload| % TWO32, 4) + payload
  }

  function Wire(payloads: seq<ByteString>): ByteString {
    if payloads == [] then [] else FrameOf(payloads[0]) + Wire(payloads[1..])
  }

  predicate Short(payloads: seq<ByteString>) {
    forall i :: 0 <= i < |payloads| ==> |payloads[i]| < MAX_FRAME
  }

  method SendMsgpackFrame(sent: ByteString, val: Value) returns (wire: ByteString)
    ensures wire == sent + FrameOf(Encode(val))
  {
    hide Encode, BigEndian, FrameOf;
    var writer := new Writer();
    writer.WriteValue(val);
    assert [] + Encode(val) == Encode(val);
    var header := new Writer();
    header.Write32(|writer.buffer| % TWO32);
    FrameIs(Encode(val));
    assert header.buffer == [] + header.buffer;
    wire := sent + header.buffer + writer.buffer;
  }

  lemma FrameIs(payload: ByteString)
    ensures FrameOf(payload) == BigEndian(|payload| % TWO32, 4) + payload
  {
  }

  /** A frame byte by byte: four of length, the most significant first, and the payload. */
  lemma FrameWire(payload: ByteString)
    ensures var f := FrameOf(payload);
      |f| == 4 + |payload| && MsgPackFormat.Four(f, 0) == |payload| % TWO32 && f[4..] == payload
    ensures forall buf: ByteString :: 4 <= |buf| ==> FrameLen(buf) == MsgPackFormat.Four(buf, 0)
  {
    hide BigEndian, FromBigEndian, MsgPackFormat.Four, Pow256;
    var f := FrameOf(payload);
    forall buf: ByteString | 4 <= |buf| ensures FrameLen(buf) == MsgPackFormat.Four(buf, 0) {
      MsgPackFormat.NumberIs([0] + buf, 0, 4);
      MsgPackFormat.FourShifted(buf);
      assert ([0] + buf)[1..5] == buf[..4];
    }
    Pow256Values();
    assert f[..4] == BigEndian(|payload| % TWO32, 4);
    BigEndianRoundTrip(|payload| % TWO32, 4);
  }

  // ----- What the receive loop makes of a buffer -----

  datatype Drained = Drained(payloads: seq<ByteString>, rest: ByteString)

  function FrameLen(buf: ByteString): nat
    requires 4 <= |buf|
  {
    FromBigEndian(buf[..4])
  }

  /** Splits off every complete frame. */
  function Drain(buf: ByteString): Drained {
    if |buf| < 4 || |buf| < 4 + FrameLen(buf) then Drained([], buf)
    else
      var end := 4 + FrameLen(buf);
      var tail := Drain(buf[end..]);
      Drained([buf[4..end]] + tail.payloads, tail.rest)
  }

  /** No frame header in the buffer announces a length that wraps the loop's sum. */
  predicate Sane(buf: ByteString) {
    4 <= |buf| ==>
      && FrameLen(buf) < MAX_FRAME
      && (4 + FrameLen(buf) <= |buf| ==> Sane(buf[4 + FrameLen(buf)..]))
  }

  /** The sum that the loop compares the buffer with; 32 bits wide. */
  function LoopSum(frameLen: nat): nat {
    (4 + frameLen) % TWO32
  }

  /** The condition on the header is exact: the loop's sum is the frame's true size if and only if it
      holds. Otherwise the test lets the frame through although the buffer does not hold it, and both
      the reader and the erasure reach behind the buffer. */
  lemma SumIsExact(buf: ByteString)
    requires 4 <= |buf|
    ensures LoopSum(FrameLen(buf)) == 4 + FrameLen(buf) <==> FrameLen(buf) < MAX_FRAME
    ensures |buf| < TWO32 ==>
      ((|buf| < LoopSum(FrameLen(buf)) <==> |buf| < 4 + FrameLen(buf)) <==> FrameLen(buf) < MAX_FRAME)
    ensures FrameLen(buf) >= MAX_FRAME ==> LoopSum(FrameLen(buf)) < 4 <= |buf|
    ensures FrameLen(buf) >= MAX_FRAME && |buf| < TWO32 ==> |buf| < 4 + FrameLen(buf)
  {
    hide FromBigEndian;
    Pow256Values();
    var len: nat := FrameLen(buf);
    assert len < TWO32;
    assert len >= MAX_FRAME ==> LoopSum(len) == len - MAX_FRAME;
  }

  /** What one payload contributes: its value, or nothing when it does not parse. */
  function ValueOf(payload: ByteString): seq<Value> {
    var r := Parse(payload, 0);
    if r.Ok? then [r.v] else []
  }

  /** The values of the payloads that parse; the others are dropped. */
  function Values(payloads: seq<ByteString>): seq<Value> {
    if payloads == [] then []
    else ValueOf(payloads[0]) + Values(payloads[1..])
  }

  function Concat(chunks: seq<ByteString>): ByteString {
    if chunks == [] then [] else chunks[0] + Concat(chunks[1..])
  }

  lemma DrainStep(buf: ByteString)
    ensures |buf| < 4 ==> Drain(buf) == Drained([], buf)
    ensures 4 <= |buf| && |buf| < 4 + FrameLen(buf) ==> Drain(buf) == Drained([], buf)
    ensures 4 <= |buf| && 4 + FrameLen(buf) <= |buf| ==>
      var end := 4 + FrameLen(buf);
      var tail := Drain(buf[end..]);
      Drain(buf) == Drained([buf[4..end]] + tail.payloads, tail.rest)
    ensures Sane(buf) && 4 <= |buf| ==>
      && FrameLen(buf) < MAX_FRAME
      && (4 + FrameLen(buf) <= |buf| ==> Sane(buf[4 + FrameLen(buf)..]))
  {
  }

  /** Draining early and draining late give the same frames and the same remainder. */
  lemma {:induction false} DrainAppend(a: ByteString, b: ByteString)
    requires Sane(a + b)
    ensures Sane(a) && Sane(Drain(a).rest + b)
    ensures var early := Drain(Drain(a).rest + b);
      Drain(a + b) == Drained(Drain(a).payloads + early.payloads, early.rest)
    decreases |a|
  {
    hide FromBigEndian, Drain;
    DrainStep(a);
    DrainStep(a + b);
    if 4 <= |a| {
      assert (a + b)[..4] == a[..4];
      var end := 4 + FrameLen(a);
      if end <= |a| {
        assert (a + b)[end..] == a[end..] + b && (a + b)[4..end] == a[4..end];
        DrainAppend(a[end..], b);
      }
    }
  }

  lemma {:induction false} DrainLeavesNoFrame(buf: ByteString)
    ensures Drain(Drain(buf).rest) == Drained([], Drain(buf).rest)
    decreases |buf|
  {
    hide FromBigEndian;
    if 4 <= |buf| && 4 + FrameLen(buf) <= |buf| {
      DrainLeavesNoFrame(buf[4 + FrameLen(buf)..]);
    }
  }

  lemma ValuesStep(ps: seq<ByteString>)
    ensures Values(ps) == if ps == [] then [] else ValueOf(ps[0]) + Values(ps[1..])
  {
    hide Parse;
  }

  lemma {:induction false} ValuesAppend(ps: seq<ByteString>, qs: seq<ByteString>)
    ensures Values(ps + qs) == Values(ps) + Values(qs)
  {
    hide Values, ValueOf;
    ValuesStep(ps);
    ValuesStep(ps + qs);
    if ps == [] {
      assert ps + qs == qs;
    } else {
      assert (ps + qs)[1..] == ps[1..] + qs;
      ValuesAppend(ps[1..], qs);
      Glue(ValueOf(ps[0]), Values(ps[1..]), Values(qs));
    }
  }

  lemma ValuesSnoc(ps: seq<ByteString>, p: ByteString)
    ensures Values(ps + [p]) == Values(ps) + ValueOf(p)
  {
    hide Parse;
    ValuesAppend(ps, [p]);
    assert [p][1..] == [] && Values([p]) == ValueOf(p) + Values([p][1..]);
  }

  // ----- The receiver -----

  class Receiver {
    var rbuf: ByteString
    var frames: seq<Value>
    ghost var payloads: seq<ByteString>

    ghost predicate Valid()
      reads this
    {
      && frames == Values(payloads)
      && Drain(rbuf) == Drained([], rbuf)
    }

    constructor ()
      ensures Valid() && rbuf == [] && payloads == [] && frames == []
    {
      rbuf := [];
      payloads := [];
      frames := [];
    }

    /** One pass of the receive loop: a chunk arrives and every complete frame is handled. A
        payload that does not parse is skipped like any other. */
    method Receive(chunk: ByteString)
      requires Valid() && Sane(rbuf + chunk)
      modifies this
      ensures Valid()
      ensures payloads == old(payloads) + Drain(old(rbuf) + chunk).payloads
      ensures rbuf == Drain(old(rbuf) + chunk).rest
    {
      hide Drain, Sane, Values, Parse, FromBigEndian;
      rbuf := rbuf + chunk;
      ghost var all := rbuf;
      while |rbuf| >= 4
        invariant Sane(rbuf) && frames == Values(payloads)
        invariant old(payloads) + Drain(all).payloads == payloads + Drain(rbuf).payloads
        invariant Drain(all).rest == Drain(rbuf).rest
        decreases |rbuf|
      {
        DrainStep(rbuf);
        var header := new MsgPackCodec.Reader(rbuf[..4]);
        var _, frameLen := header.Read32();
        assert rbuf[..4][0..4] == rbuf[..4];
        if |rbuf| < LoopSum(frameLen) { break; }
        var payload := rbuf[4..4 + frameLen];
        var reader := new MsgPackCodec.Reader(payload);
        var ok, frame := reader.ReadValue();
        ValuesSnoc(payloads, payload);
        if ok {
          frames := frames + [frame];
        }
        payloads := payloads + [payload];
        rbuf := rbuf[4 + frameLen..];
      }
      DrainStep(rbuf);
    }

    /** The loop over everything a connection delivers: only the concatenation matters. */
    method ReceiveAll(chunks: seq<ByteString>)
      requires Valid() && Sane(rbuf + Concat(chunks))
      modifies this
      ensures Valid()
      ensures payloads == old(payloads) + Drain(old(rbuf) + Concat(chunks)).payloads
      ensures rbuf == Drain(old(rbuf) + Concat(chunks)).rest
    {
      hide Drain, Sane, Values, Concat;
      assert chunks[0..] == chunks;
      ghost var all := Drain(rbuf + Concat(chunks));
      for i := 0 to |chunks|
        invariant Valid() && Sane(rbuf + Concat(chunks[i..]))
        invariant old(payloads) + all.payloads == payloads + Drain(rbuf + Concat(chunks[i..])).payloads
        invariant all.rest == Drain(rbuf + Concat(chunks[i..])).rest
      {
        ghost var rest := Concat(chunks[i + 1..]);
        ConcatStep(chunks[i..], chunks[i + 1..]);
        assert rbuf + (chunks[i] + rest) == (rbuf + chunks[i]) + rest;
        DrainAppend(rbuf + chunks[i], rest);
        Receive(chunks[i]);
      }
      ConcatStep(chunks[|chunks|..], []);
      assert rbuf + [] == rbuf;
    }
  }

  lemma ConcatStep(chunks: seq<ByteString>, rest: seq<ByteString>)
    requires chunks != [] ==> rest == chunks[1..]
    ensures Concat(chunks) == if chunks == [] then [] else chunks[0] + Concat(rest)
  {
  }

  // ----- The two ends together -----

  lemma FrameHead(payload: ByteString, tail: ByteString)
    requires |payload| < MAX_FRAME
    ensures var buf := FrameOf(payload) + tail;
      && |buf| == 4 + |payload| + |tail|
      && FrameLen(buf) == |payload|
      && buf[4..4 + |payload|] == payload
      && buf[4 + |payload|..] == tail
  {
    hide BigEndian, FromBigEndian, Pow256;
    Pow256Values();
    var head := BigEndian(|payload|, 4);
    var buf := FrameOf(payload) + tail;
    assert buf == head + (payload + tail);
    assert buf[..4] == head;
    assert buf[4..4 + |payload|] == payload;
    BigEndianRoundTrip(|payload|, 4);
  }

  /** p is a proper prefix of some frame. */
  ghost predicate Unfinished(p: ByteString, payload: ByteString) {
    |payload| < MAX_FRAME && p < FrameOf(payload)
  }

  lemma UnfinishedIsLeft(p: ByteString, payload: ByteString)
    requires Unfinished(p, payload)
    ensures Sane(p) && Drain(p) == Drained([], p)
  {
    if 4 <= |p| {
      FrameHead(payload, []);
      assert p[..4] == FrameOf(payload)[..4] == (FrameOf(payload) + [])[..4];
    }
  }

  /** The receiver takes a sent stream apart exactly: the complete frames in order, and an
      unfinished one stays in the buffer. */
  lemma {:induction false} DrainWire(payloads: seq<ByteString>, p: ByteString, next: ByteString)
    requires Short(payloads) && Unfinished(p, next)
    ensures Sane(Wire(payloads) + p)
    ensures Drain(Wire(payloads) + p) == Drained(payloads, p)
  {
    hide Drain, Sane, FrameOf, Wire, FrameLen, Unfinished;
    if payloads == [] {
      WireStep([], []);
      assert [] + p == p;
      UnfinishedIsLeft(p, next);
    } else {
      var first, rest := payloads[0], payloads[1..];
      assert payloads == [first] + rest;
      WireStep(payloads, rest);
      var tail := Wire(rest) + p;
      DrainWire(rest, p, next);
      var buf := FrameOf(first) + tail;
      assert Wire(payloads) + p == buf;
      FrameHead(first, tail);
      DrainStep(buf);
      SaneFrame(buf);
    }
  }

  lemma WireStep(payloads: seq<ByteString>, rest: seq<ByteString>)
    requires payloads != [] ==> rest == payloads[1..]
    ensures Wire(payloads) == if payloads == [] then [] else FrameOf(payloads[0]) + Wire(rest)
  {
  }

  lemma SaneFrame(buf: ByteString)
    requires 4 <= |buf| && 4 + FrameLen(buf) <= |buf| && FrameLen(buf) < MAX_FRAME
    requires Sane(buf[4 + FrameLen(buf)..])
    ensures Sane(buf)
  {
  }

  function Encodings(vs: seq<Value>): (ps: seq<ByteString>)
    ensures |ps| == |vs|
    ensures forall i :: 0 <= i < |vs| ==> ps[i] == Encode(vs[i])
  {
    seq(|vs|, i requires 0 <= i < |vs| => Encode(vs[i]))
  }

  lemma {:induction false} ValuesOfEncodings(vs: seq<Value>)
    requires ReadableItems(vs)
    ensures Values(Encodings(vs)) == NormItems(vs)
  {
    hide Encode, Parse, Norm, Readable;
    if vs != [] {
      var v, rest := vs[0], vs[1..];
      assert vs == [v] + rest;
      ItemsStep(v, rest);
      RoundTrip(v, []);
      assert Encode(v) + [] == Encode(v);
      assert Encodings(vs)[1..] == Encodings(rest);
      ValuesOfEncodings(rest);
    }
  }

  /** A payload that does not parse costs nothing but itself: the frames around it arrive. */
  lemma BadPayloadSkipped(vs: seq<Value>, bad: ByteString, ws: seq<Value>)
    requires ReadableItems(vs) && ReadableItems(ws) && Parse(bad, 0).Fail?
    requires Short(Encodings(vs) + [bad] + Encodings(ws))
    ensures var wire := Wire(Encodings(vs) + [bad] + Encodings(ws));
      && Sane(wire)
      && Values(Drain(wire).payloads) == NormItems(vs) + NormItems(ws)
      && Drain(wire).rest == []
  {
    hide Drain, Sane, Wire, Values, Encodings, Parse, Readable, Norm, ReadableItems, NormItems;
    var ps := Encodings(vs) + [bad] + Encodings(ws);
    assert [] < FrameOf([]);
    DrainWire(ps, [], []);
    assert Wire(ps) + [] == Wire(ps);
    ValuesAppend(Encodings(vs) + [bad], Encodings(ws));
    ValuesSnoc(Encodings(vs), bad);
    ValuesOfEncodings(vs);
    ValuesOfEncodings(ws);
    assert NormItems(vs) + [] == NormItems(vs);
  }

  /** Any payloads, those that do not parse included: however the stream is cut into chunks, the client
      ends up with the values of those that parse, in order, and exactly the unfinished part of a
      further frame in its buffer. */
  method ReceiveStream(payloads: seq<ByteString>, p: ByteString, ghost next: ByteString, chunks: seq<ByteString>)
      returns (frames: seq<Value>, rest: ByteString)
    requires Short(payloads) && Unfinished(p, next)
    requires Concat(chunks) == Wire(payloads) + p
    ensures frames == Values(payloads) && rest == p
  {
    DrainWire(payloads, p, next);
    var client := new Receiver();
    assert [] + Concat(chunks) == Concat(chunks);
    client.ReceiveAll(chunks);
    assert [] + payloads == payloads;
    return client.frames, client.rbuf;
  }

  /** End to end: whatever readable values are sent, and however the stream is cut into chunks,
      the client ends up with exactly those values in order, up to normalisation, and exactly
      the unfinished part of a further frame in its buffer. */
  method SendAndReceive(vs: seq<Value>, p: ByteString, ghost next: ByteString, chunks: seq<ByteString>)
      returns (frames: seq<Value>, rest: ByteString)
    requires ReadableItems(vs) && Short(Encodings(vs)) && Unfinished(p, next)
    requires Concat(chunks) == Wire(Encodings(vs)) + p
    ensures frames == NormItems(vs) && rest == p
  {
    ValuesOfEncodings(vs);
    frames, rest := ReceiveStream(Encodings(vs), p, next, chunks);
  }
}
