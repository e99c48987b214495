/** Requests sent to the measurement device, and their closed set of kinds (RequestTypes). */
module Requests {
  import opened Wrappers
  import opened LittleEndian
  import opened Messages
  import opened Framing

  datatype RequestKind = Echo | Disconnect | StartAccelerometerDataStream | StopAccelerometerDataStream

  /** The byte each kind is declared with. */
  function RequestCode(k: RequestKind): byte
  {
    match k
    case Echo => 0
    case Disconnect => 1
    case StartAccelerometerDataStream => 2
    case StopAccelerometerDataStream => 3
  }

  /** The kind a byte names, if any: exactly the codes 0 to 3 name a kind, each the one declared with it. */
  function RequestKindOf(code: byte): (k: Option<RequestKind>)
    ensures k.Some? <==> code <= 3
    ensures k.Some? ==> RequestCode(k.value) == code
  {
    if code == 0 then Some(Echo)
    else if code == 1 then Some(Disconnect)
    else if code == 2 then Some(StartAccelerometerDataStream)
    else if code == 3 then Some(StopAccelerometerDataStream)
    else None
  }

  /** Distinct kinds have distinct codes, and every kind's code names it. */
  lemma RequestCodeInjective(k: RequestKind, k': RequestKind)
    ensures RequestKindOf(RequestCode(k)) == Some(k)
    ensures RequestCode(k) == RequestCode(k') ==> k == k'
  {
  }

  /** A request: its kind and body are fixed once it is built. */
  datatype Request = Request(kind: RequestKind, body: seq<byte>)

  /** The Request constructor: a missing (null) body becomes the empty body, any other is kept as given. */
  function NewRequest(kind: RequestKind, body: Option<seq<byte>>): (r: Request)
    ensures r.kind == kind
    ensures body.Some? ==> r.body == body.value
    ensures body.None? ==> r.body == []
  {
    Request(kind, if body.Some? then body.value else [])
  }

  /** A request as the message the communicator sends. */
  function RequestMessage(r: Request): (m: Message)
    ensures m.typeCode == RequestCode(r.kind) && m.body == r.body
  {
    Message(RequestCode(r.kind), r.body)
  }

  /**
   * Whatever body a request is built with (none included), its header
   * carries a defined, non-negative length equal to the body's size.
   */
  lemma RequestHeaderLength(kind: RequestKind, body: Option<seq<byte>>)
    requires body.Some? ==> |body.value| <= MaxInt32
    ensures var m := RequestMessage(NewRequest(kind, body));
            WellSized(m) && GetHeaderBytes(m)[0] == RequestCode(kind) &&
            0 <= ToInt32(GetHeaderBytes(m)[1..]) == |m.body| &&
            (body.None? ==> GetHeaderBytes(m) == [RequestCode(kind), 0, 0, 0, 0])
  {
    var m := RequestMessage(NewRequest(kind, body));
    if body.None? {
      Pow256Facts();
      assert Int32Bytes(0) == [0, 0, 0, 0];
    }
  }

  /** The UTF-16 (little-endian) bytes of "ping". */
  const Ping: seq<byte> := [0x70, 0x00, 0x69, 0x00, 0x6E, 0x00, 0x67, 0x00]

  lemma EchoPingHeader()
    ensures GetHeaderBytes(RequestMessage(NewRequest(Echo, Some(Ping)))) == [0x00, 0x08, 0x00, 0x00, 0x00]
  {
    Pow256Facts();
    assert Int32Bytes(8) == [8, 0, 0, 0];
  }

  /**
   * An Echo request with body "ping" goes out as the header [0, 8, 0, 0, 0]
   * and then the eight body bytes.
   */
  lemma EchoPingOnTheWire()
    ensures var m := RequestMessage(NewRequest(Echo, Some(Ping)));
            WellSized(m) &&
            SendWrites(m) == [[0x00, 0x08, 0x00, 0x00, 0x00], Ping] &&
            Frame(m) == [0x00, 0x08, 0x00, 0x00, 0x00, 0x70, 0x00, 0x69, 0x00, 0x6E, 0x00, 0x67, 0x00]
  {
    EchoPingHeader();
  }

  /**
   * A peer whose reads return the two writes of the Echo "ping" request one
   * at a time raises an Echo message with the same body and keeps nothing
   * buffered; the completed loop does the same with the frame in one read.
   */
  lemma EchoPingReceived()
    ensures var m := RequestMessage(NewRequest(Echo, Some(Ping)));
            WellSized(m) &&
            RunCallbacks(AwaitingHeader, [], SendWrites(m)) == Ran([Received(0, Some(Ping))], AwaitingHeader, [], None) &&
            Drain(AwaitingHeader, Frame(m)) == Drained([Received(0, Some(Ping))], AwaitingHeader, [], false)
  {
    var m := RequestMessage(NewRequest(Echo, Some(Ping)));
    assert AllWellSized([m]);
    SendWritesDelivered([m]);
    assert WireWrites([m]) == SendWrites(m) + WireWrites([]) == SendWrites(m);
    DrainFrames([m]);
    assert Frames([m]) == Frame(m) + Frames([]) == Frame(m);
    assert Delivered(m) == Received(0, Some(Ping));
    assert Deliveries([m]) == [Delivered(m)] + Deliveries([]) == [Received(0, Some(Ping))];
  }
}
