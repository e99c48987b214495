# BobOnRails communication layer in Dafny

This project models the communication layer of the BobOnRails controller. The controller and the measurement device exchange typed binary messages over one TCP connection. Each message is a frame: a five-byte header (one type-code byte, then the body length as a little-endian signed 32-bit integer) followed by the body. The model covers five parts:

- **Frame codec and receive state machine** (`framing.dfy`, module `Framing`). `GetHeaderBytes` and the writes `SendMessage`/`SendMessageAsync` issue. The pure transition `Step` of the receive path. The `Communicator` class holds `receiveBuffer`, the pending `incomingMessage` and `incomingMessageBodySize`, and its `DataReceivedCallback` is proved to perform exactly `Step`.
- **BitConverter conversions** (`little_endian.dfy`). Little-endian int32 and int64 in two's complement, assuming a little-endian machine.
- **Message model** (`messages.dfy`, `requests.dfy`, `responses.dfy`). The `{type code, body}` shape, requests and responses, and their closed sets of kind codes.
- **Accelerometer payload** (`data_encoder.dfy`). Ticks, then X, Y and Z, with each float kept as its four bytes.
- **Response handling and the measurement queue** (`handling.dfy`). The `CommunicationHandler` class with `HandleResponse`, `OnDataReceived` and `GrabAccelerometerMeasurements`.

The code is modelled as written. Each read callback takes **at most one** transition, and then the next read is issued. The model makes the cases where a callback does not return explicit:

- `NoProgress`: too few bytes are buffered for the current state. The `do … while (true)` loop then has no exit and the callback spins forever.
- `Overflow`: a negative declared length is accepted by the header step. The next body step then throws when it allocates `new byte[negative]`.

`RunCallbacks` gives the semantics of successive callbacks as written. `Drain` is the loop run until no step is possible, which is what the receive path evidently intends; split-read invariance is proved for it.

Following the code as written has these consequences on the wire:

- A frame that declares length 0 is raised before any body is assigned. The model raises it with body `None` (`Received.body`), not with an empty body.
- A negative length is not a protocol error at the header. It becomes an exception one step later.
- An unknown response code is rejected only in `HandleResponse`, not in the receive path.

## Model

| member | source | states |
|---|---|---|
| `LittleEndian.ToInt32` | Source/BobOnRails.Controller.Communication/Communicator.cs:139 | four bytes read as two's complement always give a value in the int32 range |
| `LittleEndian.Int32Bytes` | Source/BobOnRails.Controller.Communication/Communicator.cs:165 | GetBytes(int) yields four bytes that ToInt32 reads back as the same integer |
| `LittleEndian.Int32BytesOfToInt32` | Source/BobOnRails.Controller.Communication/Communicator.cs:139 | conversely, every four bytes are the GetBytes of the integer they decode to |
| `LittleEndian.ToInt64` | Source/BobOnRails.Controller.Communication/DataEncoder.cs:37 | eight bytes read as two's complement always give a value in the int64 range |
| `LittleEndian.Int64Bytes` | Source/BobOnRails.Controller.Communication/DataEncoder.cs:20 | GetBytes(long) yields eight bytes that ToInt64 reads back as the same integer |
| `LittleEndian.Int64BytesOfToInt64` | Source/BobOnRails.Controller.Communication/DataEncoder.cs:37 | conversely, every eight bytes are the GetBytes of the integer they decode to |
| `Framing.GetHeaderBytes` | Source/BobOnRails.Controller.Communication/Communicator.cs:161-168 | the header is exactly 5 bytes: byte 0 is the type code and bytes 1..4 read as LE int32 give the body length |
| `Framing.SendWrites` | Source/BobOnRails.Controller.Communication/Communicator.cs:67-74 | a send writes the header first, then the body only if it is non-empty; no write is empty and the writes concatenate to header ++ body |
| `Framing.SendMessage` | Source/BobOnRails.Controller.Communication/Communicator.cs:67-74 | the blocking send issues exactly those writes in that order |
| `Framing.SendMessageAsync` | Source/BobOnRails.Controller.Communication/Communicator.cs:80-87 | the asynchronous send issues the same writes, together the frame |
| `Framing.Step` | Source/BobOnRails.Controller.Communication/Communicator.cs:109-156 | no progress exactly when fewer than 5 bytes are buffered while awaiting a header or fewer than the declared length while awaiting a body; overflow exactly when the pending length is negative; the remainder is a suffix of the buffer; a header step consumes exactly 5 bytes; a body step returns to awaiting-header and the raised body ++ remainder is the old buffer; a pending body size is never 0 |
| `Framing.HeaderStepDecodes` | Source/BobOnRails.Controller.Communication/Communicator.cs:135-153 | with at least 5 bytes while awaiting a header, the type code is buf[0], the length is LE int32 of buf[1..5], the buffer becomes buf[5..]; length 0 raises the message at once and stays awaiting a header |
| `Framing.BodyStepSlices` | Source/BobOnRails.Controller.Communication/Communicator.cs:111-133 | with at least len bytes while awaiting a body, the body is exactly buf[..len], the buffer becomes buf[len..] and the state returns to awaiting-header |
| `Framing.NegativeLengthOverflows` | Source/BobOnRails.Controller.Communication/Communicator.cs:113-146 | a negative declared length leaves the machine awaiting a body, and the next body step throws whatever is buffered |
| `Framing.FrameSteps` | Source/BobOnRails.Controller.Communication/Communicator.cs:111-152 | the header step then the body step on GetHeaderBytes(m) ++ body ++ tail raise m's type code and body and leave exactly tail |
| `Framing.StepAppend` | Source/BobOnRails.Controller.Communication/Communicator.cs:105-156 | bytes appended to the buffer do not change a step that can already be taken, and are kept after its remainder |
| `Framing.RunCallbacks` | Source/BobOnRails.Controller.Communication/Communicator.cs:100-159 | successive callbacks raise at most one message per chunk read |
| `Framing.SendWritesDelivered` | Source/BobOnRails.Controller.Communication/Communicator.cs:100-159 | when each send's header and body arrive as reads of their own, every message comes out intact and in order, and the receiver ends awaiting a header with an empty buffer |
| `Framing.WholeFrameWaits` | Source/BobOnRails.Controller.Communication/Communicator.cs:135-158 | a complete frame with a non-empty body in a single read is not raised; its body stays buffered |
| `Framing.SplitHeaderSpins` | Source/BobOnRails.Controller.Communication/Communicator.cs:109-156 | a read that ends inside a header makes the callback spin: nothing is raised and no further read is issued |
| `Framing.Drain` | Source/BobOnRails.Controller.Communication/Communicator.cs:109-156 | the loop run to completion leaves a suffix of the buffer on which no step is possible, or stops at the overflowing step |
| `Framing.DrainAppend` | Source/BobOnRails.Controller.Communication/Communicator.cs:105-156 | draining a ++ b is draining a, then draining its remainder ++ b |
| `Framing.DrainFrames` | Source/BobOnRails.Controller.Communication/Communicator.cs:111-152 | concatenated frames are all raised in order, leaving nothing buffered |
| `Framing.FeedIsDrain` | Source/BobOnRails.Controller.Communication/Communicator.cs:100-159 | feeding reads one at a time to the completed loop gives the same result as feeding their concatenation at once |
| `Framing.SplitReadInvariance` | Source/BobOnRails.Controller.Communication/Communicator.cs:100-159 | however the frames of any messages are cut into reads, the completed loop raises all of them, in order, and leaves nothing buffered |
| `Framing.Communicator.constructor` | Source/BobOnRails.Controller.Communication/Communicator.cs:47-55 | a new communicator has an empty buffer, no pending message and the given chunk size |
| `Framing.Communicator.DataReceivedCallback` | Source/BobOnRails.Controller.Communication/Communicator.cs:94-159 | the chunk is the receiveChunkSize-byte buffer StartReceive allocated; the buffer first becomes old buffer ++ the first bytesRead bytes of the chunk; then the outcome and new state are exactly one Step; when no step is possible, that appended buffer and the state are left as they are |
| `Framing.Communicator.ReceiveLoop` | Source/BobOnRails.Controller.Communication/Communicator.cs:94-159 | the read/callback/re-arm cycle over a series of reads, none longer than the chunk size, raises what RunCallbacks raises and ends in its state, stopping at the first callback that spins or throws |
| `Requests.RequestKindOf` | Source/BobOnRails.Controller.Communication/RequestTypes.cs:6-23 | exactly the codes 0..3 name a request kind (Echo=0, Disconnect=1, StartAccelerometerDataStream=2, StopAccelerometerDataStream=3), each the kind declared with it |
| `Requests.RequestCodeInjective` | Source/BobOnRails.Controller.Communication/RequestTypes.cs:6-23 | every kind's code names it back, and distinct kinds have distinct codes |
| `Requests.NewRequest` | Source/BobOnRails.Controller.Communication/Request.cs:23-31 | the type is stored as given; a null body becomes the empty body; a non-null body is stored unchanged |
| `Requests.RequestMessage` | Source/BobOnRails.Controller.Communication/Request.cs:11-16 | a request is sent with its kind's code and its own body |
| `Requests.RequestHeaderLength` | Source/BobOnRails.Controller.Communication/Request.cs:16-31 | whatever body a request is built with (none included), its header carries a defined length >= 0 equal to the body size; without a body the header is [code, 0, 0, 0, 0] |
| `Requests.EchoPingHeader` | Source/BobOnRails.Controller.Communication.UnitTests/CommunicatorTest.cs:68 | the header of the Echo "ping" request is [0x00, 0x08, 0x00, 0x00, 0x00] |
| `Requests.EchoPingOnTheWire` | Source/BobOnRails.Controller.Communication.UnitTests/CommunicatorTest.cs:35 | the Echo "ping" request is written as that header and then the 8 UTF-16 bytes of "ping" |
| `Requests.EchoPingReceived` | Source/BobOnRails.Controller.Communication.UnitTests/CommunicatorTest.cs:56-60 | a peer whose reads return the two writes one at a time raises, through the callbacks as written, an Echo message with the same 8-byte body and keeps nothing buffered; the corrected loop does the same with the whole frame in one read |
| `Responses.ResponseKindOf` | Source/BobOnRails.Controller.Communication/ResponseTypes.cs:6-19 | exactly the codes 0..2 name a response kind (Echo=0, Disconnect=1, AccelerometerData=2), each the kind declared with it |
| `Responses.ResponseCodeInjective` | Source/BobOnRails.Controller.Communication/ResponseTypes.cs:6-19 | every kind's code names it back, and distinct kinds have distinct codes |
| `Responses.Response.constructor` | Source/BobOnRails.Controller.Communication/Response.cs:22-25 | the constructor stores the given type and leaves the body unset; the type is a constant field |
| `Responses.Response.SetBody` | Source/BobOnRails.Controller.Communication/Response.cs:16 | the internal setter assigns the body and changes nothing else |
| `DataEncoder.AccelerometerPayload` | Source/BobOnRails.Controller.Communication/DataEncoder.cs:17-27 | an encoded measurement is always 20 bytes long |
| `DataEncoder.EncodeAccelerometerData` | Source/BobOnRails.Controller.Communication/DataEncoder.cs:17-27 | the payload is 20 bytes: ticks as LE int64 in bytes 0..7, then X, Y and Z in bytes 8..11, 12..15 and 16..19 |
| `DataEncoder.ReadCheck` | Source/BobOnRails.Controller.Communication/DataEncoder.cs:37-41 | a read of width bytes at index passes exactly when the whole window lies inside the array |
| `DataEncoder.DecodeAccelerometerData` | Source/BobOnRails.Controller.Communication/DataEncoder.cs:35-44 | decoding succeeds exactly when startIndex >= 0, startIndex + 16 <= length and the ticks are a valid DateTime, and then yields the ticks and the words at +8, +10 and +12. Otherwise it fails with the first exception thrown, in this order: index outside the array, fewer than 8 bytes after it, ticks out of range, then the first float read past the end |
| `DataEncoder.DecodeOfEncoded` | Source/BobOnRails.Controller.Communication/DataEncoder.cs:35-44 | decoding an encoded measurement gives back its ticks and X, but X's last two bytes ++ Y's first two as Y, and Y as Z |
| `DataEncoder.TicksAndXRoundTrip` | Source/BobOnRails.Controller.Communication/DataEncoder.cs:37-39 | the ticks and the X word round-trip |
| `DataEncoder.YAndZDoNotRoundTrip` | Source/BobOnRails.Controller.Communication/DataEncoder.cs:40-41 | Z decodes as Y; Y round-trips if and only if both its halves equal X's last two bytes |
| `DataEncoder.TestVectorMisdecoded` | Source/BobOnRails.Controller.Communication.UnitTests/DataEncoderTests.cs:12-20 | the unit test's acceleration (1, 2, 3) decodes with Y = bytes 80 3F 00 00 and Z = 2.0, so the decoded value differs from the encoded one |
| `DataEncoder.DecodeReadsWindow` | Source/BobOnRails.Controller.Communication/DataEncoder.cs:35-41 | decoding reads nothing outside bytes [startIndex, startIndex + 16) |
| `DataEncoder.DecodeShiftInvariant` | Source/BobOnRails.Controller.Communication/DataEncoder.cs:35-41 | decode(prefix ++ b, \|prefix\|) == decode(b, 0), errors included |
| `DataEncoder.DecodeIgnoresZ` | Source/BobOnRails.Controller.Communication/DataEncoder.cs:24 | the encoded Z word (bytes 16..19) never affects what is decoded |
| `DataEncoder.DecodeAccelerometerDataCorrected` | Source/BobOnRails.Controller.Communication/DataEncoder.cs:22-24 | reading the floats where the encoder writes them succeeds exactly when startIndex >= 0, startIndex + 20 <= length and the ticks are valid, and yields the words at +8, +12 and +16; it fails with the same exceptions in the same order |
| `DataEncoder.CorrectedRoundTrip` | Source/BobOnRails.Controller.Communication/DataEncoder.cs:17-27 | with the encoder's layout, decode(encode(m)) == m for every measurement |
| `DataEncoder.CorrectedEncodeOfDecoded` | Source/BobOnRails.Controller.Communication/DataEncoder.cs:17-27 | and any 20 bytes that decode are the encoding of what they decode to |
| `Handling.DecodeBody` | Source/BobOnRails.Controller.Communication/CommunicationHandler.cs:91 | an unset (null) body fails with a null-argument error; a set body is decoded from offset 0 |
| `Handling.Dispatch` | Source/BobOnRails.Controller.Communication/CommunicationHandler.cs:83-97 | NotSupported exactly for codes above 2; Echo and Disconnect queue nothing; for AccelerometerData, a body that decodes queues exactly the decoded measurement, and a body that does not decode (unset included) throws the decoder's error |
| `Handling.AccelerometerResponseQueuesOne` | Source/BobOnRails.Controller.Communication/CommunicationHandler.cs:90-93 | an AccelerometerData response carrying an encoded measurement queues exactly one measurement, the one the decoder produces |
| `Handling.EmptyAccelerometerResponseThrows` | Source/BobOnRails.Controller.Communication/CommunicationHandler.cs:91 | an AccelerometerData response whose body was never set throws |
| `Handling.StartMeasuringRequest` | Source/BobOnRails.Controller.Communication/CommunicationHandler.cs:41-44 | StartMeasuring sends a StartAccelerometerDataStream request (code 2) with an empty body |
| `Handling.StopMeasuringRequest` | Source/BobOnRails.Controller.Communication/CommunicationHandler.cs:49-52 | StopMeasuring sends a StopAccelerometerDataStream request (code 3) with an empty body |
| `Handling.CommunicationHandler.constructor` | Source/BobOnRails.Controller.Communication/CommunicationHandler.cs:22-30 | a new handler starts with an empty measurement queue |
| `Handling.CommunicationHandler.HandleResponse` | Source/BobOnRails.Controller.Communication/CommunicationHandler.cs:83-97 | AccelerometerData appends exactly one decoded measurement at the tail; Echo and Disconnect leave the queue unchanged; an unknown code throws NotSupported and a failed decode throws, both with the queue unchanged |
| `Handling.CommunicationHandler.OnDataReceived` | Source/BobOnRails.Controller.Communication/CommunicationHandler.cs:71-81 | whatever handling throws is caught and posted back (exactly the failures of Dispatch); the queue changes only by the one measurement queued |
| `Handling.CommunicationHandler.GrabAccelerometerMeasurements` | Source/BobOnRails.Controller.Communication/CommunicationHandler.cs:59-69 | returns measurements from the front of the queue in FIFO order; returned ++ remaining == the old queue; only ceil(n/2) of n are taken |
| `Handling.CommunicationHandler.GrabAllAccelerometerMeasurements` | Source/BobOnRails.Controller.Communication/CommunicationHandler.cs:55-58 | returns the whole queue in order and leaves it empty, as the documentation promises |
| `Handling.GrabLeavesMeasurementsBehind` | Source/BobOnRails.Controller.Communication/CommunicationHandler.cs:64-65 | grabbing from a queue of three returns the first two and leaves the third queued |

## Findings

| source | as written | input that shows it | evidently intended | confidence | as-written member | corrected member |
|---|---|---|---|---|---|---|
| Source/BobOnRails.Controller.Communication/Communicator.cs:109-156 | with too few bytes buffered for the current state, neither branch breaks out of `do … while (true)`, so the callback spins forever and never re-arms the read | a read holding only the first k < 5 bytes of a frame (`SplitHeaderSpins`) | stop, keep the bytes buffered and wait for the next read; proved for the corrected loop in `SplitReadInvariance` | high (proved; not executed) | `Framing.SplitHeaderSpins` | `Framing.Drain` |
| Source/BobOnRails.Controller.Communication/Communicator.cs:132-152 | each callback takes at most one transition and then re-arms the read, so a frame that is complete in the buffer is not raised until another read arrives | one read holding a whole frame with a 1-byte body: only the header is consumed (`WholeFrameWaits`) | raise every complete frame before reading again; proved in `DrainFrames` | high (proved; not executed) | `Framing.WholeFrameWaits` | `Framing.Drain` |
| Source/BobOnRails.Controller.Communication/DataEncoder.cs:40-41 | Y is read at offset 10 and Z at offset 12, while the encoder writes them at 12 and 16 | the unit test's acceleration (1, 2, 3): Y decodes from 80 3F 00 00 and Z decodes as 2.0 | read at offsets 8, 12 and 16, so that decode(encode(m)) == m (`CorrectedRoundTrip`) | high (proved; not executed) | `DataEncoder.TestVectorMisdecoded` | `DataEncoder.DecodeAccelerometerDataCorrected` |
| Source/BobOnRails.Controller.Communication/CommunicationHandler.cs:64-65 | the loop bound `i < queue.Count` shrinks with every dequeue, so only ceil(n/2) measurements are returned and removed | a queue of three measurements: two are returned and one stays queued | return and remove all of them, as documented at lines 55-58 | high (proved; not executed) | `Handling.GrabLeavesMeasurementsBehind` | `Handling.CommunicationHandler.GrabAllAccelerometerMeasurements` |

The handler (`HandleResponse`) calls the decoder as written. The corrected decoder and `Drain` sit beside the as-written definitions and are not substituted into them, so every other member still describes the code as it is.

## Left out

- Sockets: `TcpClient`, `BeginReceive`/`EndReceive`, `BeginSend`/`EndSend` and `Dispose`/`Close`. Reads are given to the model as chunks, and sends return the list of writes they hand to the socket.
- `SendMessageAsync`: the two `BeginSend` calls are not atomic with respect to other senders. The model gives their order of issue, not the order in which concurrent sends reach the wire.
- Concurrency: the locks, `SynchronizationContext.Post` and event invocation are not modelled. A raised message is returned from the callback, and an error posted by `OnDataReceived` is its return value.
- `Framing.Communicator.constructor`: takes the chunk size as a `nat`. The `new byte[negative]` that a negative chunk size makes `StartReceive` throw is not modelled.
- Uncaught exceptions in the read callback are not modelled beyond `Overflow`/`Crashed`. The model does not cover what the runtime does with them.
- Floating point: the double-to-float narrowing in `EncodeAccelerometerData`, the float-to-double widening in `DecodeAccelerometerData` and IEEE-754 bit patterns are not modelled. A measurement holds each acceleration as its four float bytes.
- `DateTime`: a timestamp is modelled by its tick count. The `Kind` bits and the local clock (`DateTime.Now`) are not modelled.
- Generic message types: `Communicator<TIncoming, TOutgoing>` creates incoming messages with a parameterless constructor that is not among the files modelled. A raised message is therefore a `(type code, body or unset)` pair, and the `Response` object is built from it separately.
- Platform endianness: `BitConverter` is taken to be little-endian.
- The physics stack, the device simulator, the UI and MVVM code are not part of this model.
- Revision mismatch among the files: `Communicator` uses `TypeCode`, a settable `Body` and a parameterless constructor on the message types. `CommunicationHandler` calls a one-argument `Request` constructor and `SendRequestAsync`. The test builds `Response` with a body. None of these appear in `Request.cs`/`Response.cs` as given. The model follows the shared intent: a message is a type code plus a body, StartMeasuring/StopMeasuring send a bodiless request through `SendMessageAsync`, and a received response is a `Response` whose body is set afterwards (`SetBody`).
- Request kinds are the enum's named values (`RequestKind`). A cast of an undeclared number to `RequestTypes` is not modelled.
