/** The shape every message shares (IMessage): a one-byte type code and a body. */
module Messages {
  import opened LittleEndian

  /** A message with its body assigned, as it is handed to the sender. */
  datatype Message = Message(typeCode: byte, body: seq<byte>)

  /** A .NET byte array holds at most int.MaxValue elements, so every body length is an int. */
  predicate WellSized(m: Message)
  {
    |m.body| <= MaxInt32
  }

  predicate AllWellSized(ms: seq<Message>)
  {
    forall i :: 0 <= i < |ms| ==> WellSized(ms[i])
  }

  /** The concatenation of a sequence of byte sequences. */
  function Flatten(chunks: seq<seq<byte>>): (s: seq<byte>)
  {
    if chunks == [] then [] else chunks[0] + Flatten(chunks[1..])
  }
}
