/** Responses received from the measurement device, and their closed set of kinds (ResponseTypes). */
module Responses {
  import opened Wrappers
  import opened LittleEndian

  datatype ResponseKind = Echo | Disconnect | AccelerometerData

  /** The byte each kind is declared with. */
  function ResponseCode(k: ResponseKind): byte
  {
    match k
    case Echo => 0
    case Disconnect => 1
    case AccelerometerData => 2
  }

  /** The kind a byte names, if any: exactly the codes 0 to 2 name a kind, each the one declared with it. */
  function ResponseKindOf(code: byte): (k: Option<ResponseKind>)
    ensures k.Some? <==> code <= 2
    ensures k.Some? ==> ResponseCode(k.value) == code
  {
    if code == 0 then Some(Echo)
    else if code == 1 then Some(Disconnect)
    else if code == 2 then Some(AccelerometerData)
    else None
  }

  /** Distinct kinds have distinct codes, and every kind's code names it. */
  lemma ResponseCodeInjective(k: ResponseKind, k': ResponseKind)
    ensures ResponseKindOf(ResponseCode(k)) == Some(k)
    ensures ResponseCode(k) == ResponseCode(k') ==> k == k'
  {
  }

  /**
   * A response. Its type is fixed at construction; it is kept as the raw
   * code, because the enumeration-typed field can hold any byte. Its body
   * has an internal setter and stays unset (null) until the receive path
   * assigns it.
   */
  class Response {
    const typeCode: byte
    var body: Option<seq<byte>>

    constructor (typeCode: byte)
      ensures this.typeCode == typeCode && body == None
    {
      this.typeCode := typeCode;
      body := None;
    }

    /** The internal Body setter. */
    method SetBody(data: seq<byte>)
      modifies this`body
      ensures body == Some(data)
    {
      body := Some(data);
    }
  }
}
