/**
 * The wire framing of the communication layer (Communicator): a frame is a
 * five-byte header, the type code followed by the body length as a
 * little-endian signed 32-bit integer, and then the body. The receive path
 * keeps a growing buffer and a two-state machine: awaiting a header, or
 * holding a pending message's type code and declared body size and awaiting
 * its body.
 */
module Framing {
  import opened Wrappers
  import opened LittleEndian
  import opened Messages

  /** sizeof(byte) + sizeof(int). */
  const HeaderSize: nat := 5

  // ---------------------------------------------------------------------------
  // Sending
  // ---------------------------------------------------------------------------

  /** GetHeaderBytes: the type code, then the body length in four little-endian bytes. */
  function GetHeaderBytes(m: Message): (h: seq<byte>)
    requires WellSized(m)
    ensures |h| == HeaderSize
    ensures h[0] == m.typeCode && ToInt32(h[1..]) == |m.body|
  {
    [m.typeCode] + Int32Bytes(|m.body|)
  }

  /** The bytes one message occupies on the wire. */
  function Frame(m: Message): seq<byte>
    requires WellSized(m)
  {
    GetHeaderBytes(m) + m.body
  }

  /** The frames of several messages, back to back. */
  function Frames(ms: seq<Message>): seq<byte>
    requires AllWellSized(ms)
  {
    if ms == [] then [] else Frame(ms[0]) + Frames(ms[1..])
  }

  /**
   * The socket writes a send issues: the header, then the body unless it is
   * empty. Together they are exactly the frame, and no write is empty.
   */
  function SendWrites(m: Message): (w: seq<seq<byte>>)
    requires WellSized(m)
    ensures Flatten(w) == Frame(m)
    ensures 0 < |w| && w[0] == GetHeaderBytes(m)
    ensures |w| == (if |m.body| > 0 then 2 else 1)
    ensures forall i :: 0 <= i < |w| ==> |w[i]| > 0
  {
    var h := GetHeaderBytes(m);
    if |m.body| > 0 then
      assert [h, m.body][1..] == [m.body] && [m.body][1..] == [];
      assert Flatten([m.body]) == m.body + Flatten([]) == m.body;
      assert Flatten([h, m.body]) == h + Flatten([m.body]);
      [h, m.body]
    else
      assert [h][1..] == [] && m.body == [];
      [h]
  }

  /** The writes of several sends, one after the other. */
  function WireWrites(ms: seq<Message>): seq<seq<byte>>
    requires AllWellSized(ms)
  {
    if ms == [] then [] else SendWrites(ms[0]) + WireWrites(ms[1..])
  }

  /** SendMessage: the blocking send; returns the writes it hands to the socket, in order. */
  method SendMessage(m: Message) returns (writes: seq<seq<byte>>)
    requires WellSized(m)
    ensures writes == SendWrites(m)
  {
    var headerBytes := GetHeaderBytes(m);
    writes := [headerBytes];
    if |m.body| > 0 {
      writes := writes + [m.body];
    }
  }

  /** SendMessageAsync: the same two writes, issued with BeginSend. */
  method SendMessageAsync(m: Message) returns (writes: seq<seq<byte>>)
    requires WellSized(m)
    ensures Flatten(writes) == Frame(m)
    ensures writes == SendWrites(m)
  {
    var headerBytes := GetHeaderBytes(m);
    writes := [headerBytes];
    if |m.body| > 0 {
      writes := writes + [m.body];
    }
    assert writes == SendWrites(m);
  }

  // ---------------------------------------------------------------------------
  // Receiving: one step of the state machine
  // ---------------------------------------------------------------------------

  /**
   * A message as the receive path raises it. The body is None when the
   * receive path never assigned it: a frame that declares length 0 is raised
   * straight after its header, before any body is set.
   */
  datatype Received = Received(typeCode: byte, body: Option<seq<byte>>)

  /** incomingMessage == null, or the pending message's type code and incomingMessageBodySize. */
  datatype RxState = AwaitingHeader | AwaitingBody(typeCode: byte, bodySize: int)

  /**
   * What one pass of the receive loop does with the buffer:
   * Advanced takes one transition (raising at most one message) and leaves
   * `rest` buffered; NoProgress is the case where neither branch of the
   * do/while(true) applies, so the loop never exits; Overflow is the
   * OverflowException of allocating a body of negative size.
   */
  datatype StepResult =
    | Advanced(emitted: Option<Received>, next: RxState, rest: seq<byte>)
    | NoProgress
    | Overflow

  /** The message a sent message arrives as. */
  function Delivered(m: Message): Received
  {
    Received(m.typeCode, if |m.body| == 0 then None else Some(m.body))
  }

  function Deliveries(ms: seq<Message>): (rs: seq<Received>)
    ensures |rs| == |ms|
  {
    if ms == [] then [] else [Delivered(ms[0])] + Deliveries(ms[1..])
  }

  function OptionToSeq(e: Option<Received>): seq<Received>
  {
    if e.Some? then [e.value] else []
  }

  /** One transition of the receive state machine over the buffered bytes. */
  function Step(s: RxState, buf: seq<byte>): (r: StepResult)
    ensures r.NoProgress? <==>
              (s.AwaitingHeader? && |buf| < HeaderSize) || (s.AwaitingBody? && |buf| < s.bodySize)
    ensures r.Overflow? <==> s.AwaitingBody? && s.bodySize < 0
    ensures r.Advanced? ==> |r.rest| <= |buf| && r.rest == buf[|buf| - |r.rest|..]
    ensures r.Advanced? && s.AwaitingHeader? ==> |r.rest| + HeaderSize == |buf|
    ensures r.Advanced? && s.AwaitingBody? ==>
              r.next == AwaitingHeader && r.emitted.Some? && r.emitted.value.typeCode == s.typeCode &&
              r.emitted.value.body.Some? && r.emitted.value.body.value + r.rest == buf
    ensures r.Advanced? && r.next.AwaitingBody? ==> r.next.bodySize != 0
  {
    match s
    case AwaitingBody(code, size) =>
      if |buf| >= size then
        if size < 0 then Overflow
        else Advanced(Some(Received(code, Some(buf[..size]))), AwaitingHeader, buf[size..])
      else NoProgress
    case AwaitingHeader =>
      if |buf| >= HeaderSize then
        var code := buf[0];
        var size := ToInt32(buf[1..HeaderSize]);
        if size == 0 then Advanced(Some(Received(code, None)), AwaitingHeader, buf[HeaderSize..])
        else Advanced(None, AwaitingBody(code, size), buf[HeaderSize..])
      else NoProgress
  }

  /** Awaiting a header with a full header buffered: the header is decoded and its five bytes dropped. */
  lemma HeaderStepDecodes(buf: seq<byte>)
    requires |buf| >= HeaderSize
    ensures var r := Step(AwaitingHeader, buf);
            var size := ToInt32(buf[1..HeaderSize]);
            r.Advanced? && r.rest == buf[HeaderSize..] &&
            (size == 0 ==> r.next == AwaitingHeader && r.emitted == Some(Received(buf[0], None))) &&
            (size != 0 ==> r.next == AwaitingBody(buf[0], size) && r.emitted == None)
  {
  }

  /** Awaiting a body with enough bytes: exactly the declared number of bytes becomes the body. */
  lemma BodyStepSlices(code: byte, size: nat, buf: seq<byte>)
    requires size <= |buf|
    ensures Step(AwaitingBody(code, size), buf) ==
            Advanced(Some(Received(code, Some(buf[..size]))), AwaitingHeader, buf[size..])
  {
  }

  /**
   * A negative declared length is accepted by the header step, and the next
   * body step, whatever is buffered by then, fails allocating the body.
   */
  lemma NegativeLengthOverflows(code: byte, size: int, buf: seq<byte>, later: seq<byte>)
    requires MinInt32 <= size < 0
    ensures Step(AwaitingHeader, [code] + Int32Bytes(size) + buf) == Advanced(None, AwaitingBody(code, size), buf)
    ensures Step(AwaitingBody(code, size), later) == Overflow
  {
    var b := [code] + Int32Bytes(size) + buf;
    assert b[1..HeaderSize] == Int32Bytes(size);
    assert b[HeaderSize..] == buf;
  }

  /**
   * The frame of a message, followed by anything: the header step and (for a
   * non-empty body) the body step give back the type code and body, and
   * leave exactly what followed.
   */
  lemma FrameSteps(m: Message, tail: seq<byte>)
    requires WellSized(m)
    ensures var r := Step(AwaitingHeader, Frame(m) + tail);
            if |m.body| == 0 then
              r == Advanced(Some(Delivered(m)), AwaitingHeader, tail)
            else
              r == Advanced(None, AwaitingBody(m.typeCode, |m.body|), m.body + tail) &&
              Step(r.next, r.rest) == Advanced(Some(Delivered(m)), AwaitingHeader, tail)
  {
    var b := Frame(m) + tail;
    var h := GetHeaderBytes(m);
    assert b == h + (m.body + tail);
    assert b[0] == m.typeCode;
    assert b[1..HeaderSize] == h[1..];
    assert b[HeaderSize..] == m.body + tail;
    if |m.body| > 0 {
      assert (m.body + tail)[..|m.body|] == m.body;
      assert (m.body + tail)[|m.body|..] == tail;
    }
  }

  /** Appending bytes to the buffer does not change a transition that could already be taken. */
  lemma StepAppend(s: RxState, a: seq<byte>, b: seq<byte>)
    ensures Step(s, a).Advanced? ==>
              Step(s, a + b) == Advanced(Step(s, a).emitted, Step(s, a).next, Step(s, a).rest + b)
    ensures Step(s, a).Overflow? ==> Step(s, a + b).Overflow?
  {
    match s
    case AwaitingBody(code, size) =>
      if 0 <= size <= |a| {
        assert (a + b)[..size] == a[..size];
        assert (a + b)[size..] == a[size..] + b;
      }
    case AwaitingHeader =>
      if |a| >= HeaderSize {
        assert (a + b)[1..HeaderSize] == a[1..HeaderSize];
        assert (a + b)[HeaderSize..] == a[HeaderSize..] + b;
      }
  }

  // ---------------------------------------------------------------------------
  // Receiving: successive callbacks as written
  // ---------------------------------------------------------------------------

  /** Why the read loop stopped: a callback that never returns, or one that throws. */
  datatype Halt = Spinning | Crashed

  datatype RunResult = Ran(delivered: seq<Received>, state: RxState, buffer: seq<byte>, halted: Option<Halt>)

  /**
   * The receive path as written, one callback per chunk read: append the
   * chunk, take at most one transition, re-arm the read. A callback that
   * cannot progress spins forever and one that overflows throws; either way
   * no further read is issued.
   */
  function RunCallbacks(s: RxState, buf: seq<byte>, chunks: seq<seq<byte>>): (r: RunResult)
    decreases |chunks|
    ensures |r.delivered| <= |chunks|
  {
    if chunks == [] then Ran([], s, buf, None)
    else
      var b := buf + chunks[0];
      match Step(s, b)
      case NoProgress => Ran([], s, b, Some(Spinning))
      case Overflow => Ran([], s, b, Some(Crashed))
      case Advanced(e, n, rest) =>
        var r := RunCallbacks(n, rest, chunks[1..]);
        Ran(OptionToSeq(e) + r.delivered, r.state, r.buffer, r.halted)
  }

  /**
   * When every send's header and body each arrive as a read of their own,
   * the messages come out intact and in order, and the receiver ends
   * awaiting a header with an empty buffer.
   */
  lemma {:induction false} SendWritesDelivered(ms: seq<Message>)
    requires AllWellSized(ms)
    ensures RunCallbacks(AwaitingHeader, [], WireWrites(ms)) == Ran(Deliveries(ms), AwaitingHeader, [], None)
  {
    if ms != [] {
      var m := ms[0];
      var w := SendWrites(m);
      var rest := WireWrites(ms[1..]);
      assert WireWrites(ms) == w + rest;
      FrameSteps(m, []);
      assert Frame(m) + [] == Frame(m);
      var h := GetHeaderBytes(m);
      assert [] + h == h;
      assert Frame(m) == h + m.body;
      FrameSteps(m, []);
      if |m.body| == 0 {
        assert h == Frame(m);
        assert (w + rest)[0] == h && (w + rest)[1..] == rest;
      } else {
        StepAppend(AwaitingHeader, h, m.body);
        assert Step(AwaitingHeader, h).Advanced? by {
          assert |h| >= HeaderSize;
        }
        assert Step(AwaitingHeader, h) == Advanced(None, AwaitingBody(m.typeCode, |m.body|), []) by {
          assert Step(AwaitingHeader, h + m.body) == Advanced(None, AwaitingBody(m.typeCode, |m.body|), m.body + []);
        }
        assert (w + rest)[0] == h && (w + rest)[1..] == [m.body] + rest;
        assert ([m.body] + rest)[0] == m.body && ([m.body] + rest)[1..] == rest;
        assert [] + m.body == m.body + [];
      }
      SendWritesDelivered(ms[1..]);
    }
  }

  /**
   * A whole frame with a non-empty body arriving in a single read is not
   * raised: the callback only consumes the header and leaves the body
   * buffered until some later read arrives.
   */
  lemma WholeFrameWaits(m: Message)
    requires WellSized(m) && |m.body| > 0
    ensures RunCallbacks(AwaitingHeader, [], [Frame(m)]) ==
            Ran([], AwaitingBody(m.typeCode, |m.body|), m.body, None)
  {
    FrameSteps(m, []);
    assert [] + Frame(m) == Frame(m) + [];
    assert m.body + [] == m.body;
  }

  /**
   * A read that ends inside a header leaves the callback with nothing it can
   * do: it spins, raises nothing and never reads the rest of the frame.
   */
  lemma SplitHeaderSpins(m: Message, k: nat)
    requires WellSized(m) && k < HeaderSize
    ensures RunCallbacks(AwaitingHeader, [], [Frame(m)[..k], Frame(m)[k..]]) ==
            Ran([], AwaitingHeader, Frame(m)[..k], Some(Spinning))
  {
    assert [] + Frame(m)[..k] == Frame(m)[..k];
  }

  // ---------------------------------------------------------------------------
  // Receiving: the loop run to completion
  // ---------------------------------------------------------------------------

  datatype DrainResult = Drained(messages: seq<Received>, next: RxState, rest: seq<byte>, faulted: bool)

  /**
   * The receive loop taking transitions until none is possible, raising every
   * message that is complete in the buffer: what the callback is meant to do
   * before it re-arms the read.
   */
  function Drain(s: RxState, buf: seq<byte>): (d: DrainResult)
    decreases |buf|, if s.AwaitingBody? then 1 else 0
    ensures |d.rest| <= |buf| && d.rest == buf[|buf| - |d.rest|..]
    ensures !d.faulted ==> Step(d.next, d.rest).NoProgress?
    ensures d.faulted ==> Step(d.next, d.rest).Overflow?
  {
    match Step(s, buf)
    case NoProgress => Drained([], s, buf, false)
    case Overflow => Drained([], s, buf, true)
    case Advanced(e, n, rest) =>
      var d := Drain(n, rest);
      Drained(OptionToSeq(e) + d.messages, d.next, d.rest, d.faulted)
  }

  /** Draining a buffer, then the remainder with more bytes appended, is draining everything at once. */
  function Continue(d: DrainResult, more: seq<byte>): DrainResult
  {
    var d2 := Drain(d.next, d.rest + more);
    Drained(d.messages + d2.messages, d2.next, d2.rest, d2.faulted)
  }

  lemma {:induction false} DrainAppend(s: RxState, a: seq<byte>, b: seq<byte>)
    decreases |a|, if s.AwaitingBody? then 1 else 0
    ensures Drain(s, a + b) == Continue(Drain(s, a), b)
  {
    StepAppend(s, a, b);
    var r := Step(s, a);
    if !r.Advanced? {
      DrainAppendHalted(s, a, b);
    } else {
      var d1 := Drain(r.next, r.rest);
      var d2 := Drain(d1.next, d1.rest + b);
      var e := OptionToSeq(r.emitted);
      DrainAppend(r.next, r.rest, b);
      assert Drain(s, a) == Drained(e + d1.messages, d1.next, d1.rest, d1.faulted);
      assert Drain(s, a + b) == Drained(e + (d1.messages + d2.messages), d2.next, d2.rest, d2.faulted);
      ConcatAssoc(e, d1.messages, d2.messages);
    }
  }

  lemma ConcatAssoc<T>(x: seq<T>, y: seq<T>, z: seq<T>)
    ensures x + (y + z) == (x + y) + z
  {
  }

  lemma DrainAppendHalted(s: RxState, a: seq<byte>, b: seq<byte>)
    requires !Step(s, a).Advanced?
    ensures Drain(s, a + b) == Continue(Drain(s, a), b)
  {
    var d := Drain(s, a + b);
    assert Drain(s, a).messages == [] && Drain(s, a).next == s && Drain(s, a).rest == a;
    assert [] + d.messages == d.messages;
  }

  /** Frames back to back are all raised, in order, leaving nothing buffered. */
  lemma {:induction false} DrainFrames(ms: seq<Message>)
    requires AllWellSized(ms)
    ensures Drain(AwaitingHeader, Frames(ms)) == Drained(Deliveries(ms), AwaitingHeader, [], false)
  {
    if ms != [] {
      var m := ms[0];
      var tail := Frames(ms[1..]);
      FrameSteps(m, tail);
      DrainFrames(ms[1..]);
      if |m.body| > 0 {
        var r := Step(AwaitingHeader, Frame(m) + tail);
        assert Drain(r.next, r.rest) == Drained([Delivered(m)] + Deliveries(ms[1..]), AwaitingHeader, [], false);
      }
    }
  }

  /** The corrected read loop fed one chunk per read: every chunk is appended and the buffer drained. */
  function FeedChunks(s: RxState, buf: seq<byte>, chunks: seq<seq<byte>>): DrainResult
    requires chunks != []
    decreases |chunks|
  {
    var d := Drain(s, buf + chunks[0]);
    if |chunks| == 1 then d
    else
      var f := FeedChunks(d.next, d.rest, chunks[1..]);
      Drained(d.messages + f.messages, f.next, f.rest, f.faulted)
  }

  /** However the bytes are cut into reads, the corrected loop ends as if they had arrived in one read. */
  lemma {:induction false} FeedIsDrain(s: RxState, buf: seq<byte>, chunks: seq<seq<byte>>)
    requires chunks != []
    decreases |chunks|
    ensures FeedChunks(s, buf, chunks) == Drain(s, buf + Flatten(chunks))
  {
    var c := chunks[0];
    if |chunks| == 1 {
      assert chunks[1..] == [];
      assert Flatten(chunks) == c + Flatten([]) == c;
      assert buf + Flatten(chunks) == buf + c;
    } else {
      var d := Drain(s, buf + c);
      var more := Flatten(chunks[1..]);
      FeedIsDrain(d.next, d.rest, chunks[1..]);
      DrainAppend(s, buf + c, more);
      assert Flatten(chunks) == c + more;
      ConcatAssoc(buf, c, more);
    }
  }

  /**
   * Split-read invariance: the frames of any messages, cut into reads at any
   * boundaries, are all raised by the corrected loop, in order, with nothing
   * left buffered.
   */
  lemma SplitReadInvariance(ms: seq<Message>, chunks: seq<seq<byte>>)
    requires AllWellSized(ms) && chunks != [] && Flatten(chunks) == Frames(ms)
    ensures FeedChunks(AwaitingHeader, [], chunks) == Drained(Deliveries(ms), AwaitingHeader, [], false)
  {
    FeedIsDrain(AwaitingHeader, [], chunks);
    assert [] + Flatten(chunks) == Frames(ms);
    DrainFrames(ms);
  }

  // ---------------------------------------------------------------------------
  // The receiving object
  // ---------------------------------------------------------------------------

  /**
   * The receive side of a Communicator: the growable buffer and the pending
   * message, updated in place by each read callback. The socket itself is
   * not modelled; each callback is given the chunk the read filled and the
   * number of bytes read.
   */
  class Communicator {
    const receiveChunkSize: nat
    var receiveBuffer: seq<byte>
    /** The pending incoming message (null, or its type code); its body is not set before it is raised. */
    var incomingMessage: Option<byte>
    var incomingMessageBodySize: int

    /**
     * A pending message never declares a zero-length body: such a frame is
     * raised by its header. The callback keeps this invariant; the
     * transitions themselves do not depend on it.
     */
    ghost predicate Valid()
      reads this
    {
      incomingMessage.Some? ==> incomingMessageBodySize != 0
    }

    function State(): RxState
      reads this
    {
      if incomingMessage.None? then AwaitingHeader else AwaitingBody(incomingMessage.value, incomingMessageBodySize)
    }

    constructor (receiveChunkSize: nat)
      ensures Valid()
      ensures this.receiveChunkSize == receiveChunkSize
      ensures receiveBuffer == [] && State() == AwaitingHeader
    {
      this.receiveChunkSize := receiveChunkSize;
      receiveBuffer := [];
      incomingMessage := None;
      incomingMessageBodySize := 0;
    }

    /**
     * DataReceivedCallback: append the bytes read to the buffer, then take at
     * most one transition. Advanced re-arms the read; NoProgress is the
     * callback that never returns; Overflow is the callback that throws.
     * The chunk is the buffer StartReceive allocated, receiveChunkSize bytes
     * long, of which the read filled the first bytesRead.
     */
    method DataReceivedCallback(bytesReceived: seq<byte>, bytesRead: nat) returns (r: StepResult)
      requires Valid()
      requires |bytesReceived| == receiveChunkSize
      requires bytesRead <= |bytesReceived|
      modifies this
      ensures Valid()
      ensures r == Step(old(State()), old(receiveBuffer) + bytesReceived[..bytesRead])
      ensures r.Advanced? ==> State() == r.next && receiveBuffer == r.rest
      ensures !r.Advanced? ==>
                State() == old(State()) && receiveBuffer == old(receiveBuffer) + bytesReceived[..bytesRead]
    {
      receiveBuffer := receiveBuffer + bytesReceived[..bytesRead];

      if incomingMessage.Some? {
        if |receiveBuffer| >= incomingMessageBodySize {
          if incomingMessageBodySize < 0 {
            // new byte[incomingMessageBodySize] throws
            return Overflow;
          }
          var data := receiveBuffer[..incomingMessageBodySize];
          var message := Received(incomingMessage.value, Some(data));
          receiveBuffer := receiveBuffer[|data|..];
          incomingMessage := None;
          return Advanced(Some(message), AwaitingHeader, receiveBuffer);
        }
      } else if |receiveBuffer| >= HeaderSize {
        var typeCode := receiveBuffer[0];
        incomingMessage := Some(typeCode);
        incomingMessageBodySize := ToInt32(receiveBuffer[1..HeaderSize]);
        receiveBuffer := receiveBuffer[HeaderSize..];
        if incomingMessageBodySize == 0 {
          incomingMessage := None;
          return Advanced(Some(Received(typeCode, None)), AwaitingHeader, receiveBuffer);
        }
        return Advanced(None, AwaitingBody(typeCode, incomingMessageBodySize), receiveBuffer);
      }
      // Neither branch applies: the do/while(true) has no way out.
      return NoProgress;
    }

    /**
     * The read loop: every completed read runs the callback, which re-arms
     * the next read unless it spins or throws. Each element of chunks is
     * what one read delivered, never more than the chunk size.
     */
    method ReceiveLoop(chunks: seq<seq<byte>>) returns (delivered: seq<Received>, halted: Option<Halt>)
      requires Valid()
      requires forall i :: 0 <= i < |chunks| ==> |chunks[i]| <= receiveChunkSize
      modifies this
      ensures Valid()
      ensures RunCallbacks(old(State()), old(receiveBuffer), chunks) == Ran(delivered, State(), receiveBuffer, halted)
    {
      delivered := [];
      halted := None;
      var i := 0;
      while i < |chunks| && halted.None?
        invariant Valid()
        invariant 0 <= i <= |chunks|
        invariant halted.None? ==>
                    RunCallbacks(old(State()), old(receiveBuffer), chunks) ==
                    var r := RunCallbacks(State(), receiveBuffer, chunks[i..]);
                    Ran(delivered + r.delivered, r.state, r.buffer, r.halted)
        invariant halted.Some? ==>
                    RunCallbacks(old(State()), old(receiveBuffer), chunks) == Ran(delivered, State(), receiveBuffer, halted)
        decreases |chunks| - i, if halted.None? then 1 else 0
      {
        ghost var s0, b0, d0 := State(), receiveBuffer, delivered;
        var padding: seq<byte> := seq(receiveChunkSize - |chunks[i]|, _ => 0);
        var buffer := chunks[i] + padding;
        var r := DataReceivedCallback(buffer, |chunks[i]|);
        assert buffer[..|chunks[i]|] == chunks[i];
        assert chunks[i..][0] == chunks[i] && chunks[i..][1..] == chunks[i + 1..];
        match r
        case Advanced(e, _, _) =>
          delivered := delivered + OptionToSeq(e);
          ConcatAssoc(d0, OptionToSeq(e), RunCallbacks(State(), receiveBuffer, chunks[i + 1..]).delivered);
          i := i + 1;
        case NoProgress =>
          halted := Some(Spinning);
          assert delivered + [] == delivered;
        case Overflow =>
          halted := Some(Crashed);
          assert delivered + [] == delivered;
      }
      if halted.None? {
        assert chunks[i..] == [];
        assert delivered + [] == delivered;
      }
    }
  }
}
