/**
 * The controller's side of the device connection (CommunicationHandler):
 * responses are dispatched on their kind, accelerometer data is decoded and
 * queued, and the queue is emptied by the consumer.
 */
module Handling {
  import opened Wrappers
  import opened LittleEndian
  import opened DataEncoder
  import opened Responses
  import Requests

  /** What handling a response can raise: an unknown kind, or a failure decoding the payload. */
  datatype HandlerError = NotSupported | DecodeFailed(error: DecodeError)

  /** Decoding a response body that may be unset, as DecodeAccelerometerData(response.Body) does. */
  function DecodeBody(body: Option<seq<byte>>): (r: Result<AccelerometerMeasurement, DecodeError>)
    ensures body.None? ==> r == Failure(NullArray)
    ensures body.Some? ==> r == DecodeAccelerometerData(body.value, 0)
  {
    if body.None? then Failure(NullArray) else DecodeAccelerometerData(body.value, 0)
  }

  /**
   * The dispatch HandleResponse performs: Success(None) when nothing is
   * queued, Success(Some(m)) when m is queued, Failure(e) when it throws.
   */
  function Dispatch(typeCode: byte, body: Option<seq<byte>>): (r: Result<Option<AccelerometerMeasurement>, HandlerError>)
    ensures r == Failure(NotSupported) <==> typeCode > 2
    ensures r.Success? && r.value.Some? ==>
              typeCode == ResponseCode(AccelerometerData) && body.Some? &&
              DecodeAccelerometerData(body.value, 0) == Success(r.value.value)
    ensures typeCode == ResponseCode(Echo) || typeCode == ResponseCode(Disconnect) ==> r == Success(None)
    ensures typeCode == ResponseCode(AccelerometerData) ==>
              (r.Success? <==> DecodeBody(body).Success?) &&
              (r.Success? ==> r.value == Some(DecodeBody(body).value)) &&
              (r.Failure? ==> r.error == DecodeFailed(DecodeBody(body).error))
  {
    match ResponseKindOf(typeCode)
    case None => Failure(NotSupported)
    case Some(Echo) => Success(None)
    case Some(Disconnect) => Success(None)
    case Some(AccelerometerData) =>
      match DecodeBody(body)
      case Success(m) => Success(Some(m))
      case Failure(e) => Failure(DecodeFailed(e))
  }

  /** An AccelerometerData response carrying an encoded measurement queues exactly one measurement. */
  lemma AccelerometerResponseQueuesOne(m: AccelerometerMeasurement)
    ensures Dispatch(ResponseCode(AccelerometerData), Some(AccelerometerPayload(m))) ==
            Success(Some(AccelerometerMeasurement(m.ticks, m.x, m.x[2..] + m.y[..2], m.y)))
  {
    DecodeOfEncoded(m);
  }

  /** An AccelerometerData response whose body was never set (a zero-length frame) throws. */
  lemma EmptyAccelerometerResponseThrows()
    ensures Dispatch(ResponseCode(AccelerometerData), None) == Failure(DecodeFailed(NullArray))
  {
  }

  /** The request StartMeasuring sends, and the one StopMeasuring sends: no body. */
  function StartMeasuringRequest(): (r: Requests.Request)
    ensures Requests.RequestCode(r.kind) == 2 && r.body == []
  {
    Requests.NewRequest(Requests.StartAccelerometerDataStream, None)
  }

  function StopMeasuringRequest(): (r: Requests.Request)
    ensures Requests.RequestCode(r.kind) == 3 && r.body == []
  {
    Requests.NewRequest(Requests.StopAccelerometerDataStream, None)
  }

  class CommunicationHandler {
    var accelerometerMeasurementQueue: seq<AccelerometerMeasurement>

    constructor ()
      ensures accelerometerMeasurementQueue == []
    {
      accelerometerMeasurementQueue := [];
    }

    /**
     * HandleResponse: Echo and Disconnect are ignored, AccelerometerData is
     * decoded and queued at the tail, any other code throws NotSupported.
     * A throwing response leaves the queue as it was.
     */
    method HandleResponse(response: Response) returns (r: Outcome<HandlerError>)
      modifies this
      ensures match Dispatch(response.typeCode, response.body)
              case Success(None) => r == Pass && accelerometerMeasurementQueue == old(accelerometerMeasurementQueue)
              case Success(Some(m)) => r == Pass && accelerometerMeasurementQueue == old(accelerometerMeasurementQueue) + [m]
              case Failure(e) => r == Fail(e) && accelerometerMeasurementQueue == old(accelerometerMeasurementQueue)
    {
      var kind := ResponseKindOf(response.typeCode);
      match kind
      case Some(Echo) =>
        r := Pass;
      case Some(Disconnect) =>
        r := Pass;
      case Some(AccelerometerData) =>
        var data := DecodeBody(response.body);
        if data.Failure? {
          return Fail(DecodeFailed(data.error));
        }
        accelerometerMeasurementQueue := accelerometerMeasurementQueue + [data.value];
        r := Pass;
      case None =>
        r := Fail(NotSupported);
    }

    /**
     * OnDataReceived: handles the response and catches whatever it throws;
     * the caught error is what gets posted back to the captured context.
     */
    method OnDataReceived(response: Response) returns (posted: Option<HandlerError>)
      modifies this
      ensures posted.Some? <==> Dispatch(response.typeCode, response.body).Failure?
      ensures posted.Some? ==> Dispatch(response.typeCode, response.body) == Failure(posted.value)
      ensures accelerometerMeasurementQueue ==
                old(accelerometerMeasurementQueue) +
                match Dispatch(response.typeCode, response.body)
                case Success(Some(m)) => [m]
                case _ => []
    {
      var r := HandleResponse(response);
      posted := if r.Fail? then Some(r.error) else None;
    }

    /**
     * GrabAccelerometerMeasurements as written: the loop compares its counter
     * with the queue's current length, which shrinks with every dequeue, so
     * only the first half (rounded up) is taken. What is taken comes from the
     * front, in order, and together with what is left it is the old queue.
     */
    method GrabAccelerometerMeasurements() returns (measurements: seq<AccelerometerMeasurement>)
      modifies this
      ensures |measurements| == (|old(accelerometerMeasurementQueue)| + 1) / 2
      ensures measurements + accelerometerMeasurementQueue == old(accelerometerMeasurementQueue)
    {
      ghost var queue := accelerometerMeasurementQueue;
      measurements := [];
      var i := 0;
      while i < |accelerometerMeasurementQueue|
        invariant 0 <= i <= (|queue| + 1) / 2
        invariant |accelerometerMeasurementQueue| == |queue| - i
        invariant measurements == queue[..i]
        invariant accelerometerMeasurementQueue == queue[i..]
        decreases |accelerometerMeasurementQueue| - i
      {
        measurements := measurements + [accelerometerMeasurementQueue[0]];
        accelerometerMeasurementQueue := accelerometerMeasurementQueue[1..];
        i := i + 1;
      }
      assert queue == queue[..i] + queue[i..];
    }

    /** Taking every queued measurement, as the method's documentation promises. */
    method GrabAllAccelerometerMeasurements() returns (measurements: seq<AccelerometerMeasurement>)
      modifies this
      ensures measurements == old(accelerometerMeasurementQueue)
      ensures accelerometerMeasurementQueue == []
    {
      ghost var queue := accelerometerMeasurementQueue;
      measurements := [];
      while |accelerometerMeasurementQueue| > 0
        invariant measurements + accelerometerMeasurementQueue == queue
        decreases |accelerometerMeasurementQueue|
      {
        measurements := measurements + [accelerometerMeasurementQueue[0]];
        accelerometerMeasurementQueue := accelerometerMeasurementQueue[1..];
      }
    }
  }

  /**
   * Grabbing from a queue of three measurements returns two and leaves one
   * behind; a second grab is needed for the last.
   */
  method GrabLeavesMeasurementsBehind(m1: AccelerometerMeasurement, m2: AccelerometerMeasurement, m3: AccelerometerMeasurement)
    returns (first: seq<AccelerometerMeasurement>, left: seq<AccelerometerMeasurement>)
    ensures first == [m1, m2] && left == [m3]
  {
    var handler := new CommunicationHandler();
    handler.accelerometerMeasurementQueue := [m1, m2, m3];
    first := handler.GrabAccelerometerMeasurements();
    left := handler.accelerometerMeasurementQueue;
    assert |first| == 2 && |left| == 1;
    assert first == (first + left)[..2] && left == (first + left)[2..];
  }
}
