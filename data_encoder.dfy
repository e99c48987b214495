/**
 * The binary form of an accelerometer measurement (DataEncoder): the
 * timestamp's ticks as a little-endian 64-bit integer, then the X, Y and Z
 * accelerations as 32-bit floats. Each float is kept as its four bytes.
 */
module DataEncoder {
  import opened Wrappers
  import opened LittleEndian

  /** DateTime.MaxValue.Ticks: the largest tick count a DateTime accepts. */
  const MaxTicks: int := 3155378975999999999

  /** The tick count of a valid DateTime. */
  type Ticks = t: int | 0 <= t <= MaxTicks

  /** The four little-endian bytes of a single-precision float. */
  type FloatWord = s: seq<byte> | |s| == 4 witness [0, 0, 0, 0]

  datatype AccelerometerMeasurement = AccelerometerMeasurement(ticks: Ticks, x: FloatWord, y: FloatWord, z: FloatWord)

  /**
   * What decoding can throw: an index outside the array, too few bytes after
   * the index (both from BitConverter), a null array, or a tick count that
   * DateTime rejects.
   */
  datatype DecodeError = IndexOutOfRange | ArrayTooShort | NullArray | TicksOutOfRange

  // ---------------------------------------------------------------------------
  // Encoding
  // ---------------------------------------------------------------------------

  /** The payload a measurement is encoded to. */
  function AccelerometerPayload(m: AccelerometerMeasurement): (p: seq<byte>)
    ensures |p| == 20
  {
    Int64Bytes(m.ticks) + m.x + m.y + m.z
  }

  /** EncodeAccelerometerData: ticks, X, Y and Z appended one after the other. */
  method EncodeAccelerometerData(m: AccelerometerMeasurement) returns (bytes: seq<byte>)
    ensures |bytes| == 20
    ensures ToInt64(bytes[..8]) == m.ticks
    ensures bytes[8..12] == m.x && bytes[12..16] == m.y && bytes[16..20] == m.z
    ensures bytes == AccelerometerPayload(m)
  {
    bytes := [];
    bytes := bytes + Int64Bytes(m.ticks);
    bytes := bytes + m.x;
    bytes := bytes + m.y;
    bytes := bytes + m.z;
    assert bytes[..8] == Int64Bytes(m.ticks);
  }

  // ---------------------------------------------------------------------------
  // Decoding
  // ---------------------------------------------------------------------------

  /**
   * BitConverter's argument checks before reading `width` bytes at `index`:
   * the index must lie inside the array, and `width` bytes must follow it.
   */
  function ReadCheck(length: nat, index: int, width: nat): (e: Option<DecodeError>)
    requires width > 0
    ensures e.None? <==> 0 <= index && index + width <= length
  {
    if index < 0 || index >= length then Some(IndexOutOfRange)
    else if index > length - width then Some(ArrayTooShort)
    else None
  }

  /**
   * DecodeAccelerometerData as written: the ticks at startIndex (checked by
   * the DateTime constructor before the floats are read), then floats at
   * startIndex + 8, startIndex + 10 and startIndex + 12.
   */
  function DecodeAccelerometerData(bytes: seq<byte>, startIndex: int): (r: Result<AccelerometerMeasurement, DecodeError>)
    ensures r.Success? <==>
              0 <= startIndex && startIndex + 16 <= |bytes| &&
              0 <= ToInt64(bytes[startIndex..startIndex + 8]) <= MaxTicks
    // The ticks are read first: the index must lie inside the array, then 8 bytes must follow it.
    ensures startIndex < 0 || startIndex >= |bytes| ==> r == Failure(IndexOutOfRange)
    ensures 0 <= startIndex < |bytes| < startIndex + 8 ==> r == Failure(ArrayTooShort)
    // DateTime checks the ticks before any float is read.
    ensures (0 <= startIndex && startIndex + 8 <= |bytes| &&
             !(0 <= ToInt64(bytes[startIndex..startIndex + 8]) <= MaxTicks)) ==> r == Failure(TicksOutOfRange)
    // The first float read that fails: at startIndex + 8 when nothing follows the ticks, else one running past the end.
    ensures (0 <= startIndex && startIndex + 8 <= |bytes| < startIndex + 16 &&
             0 <= ToInt64(bytes[startIndex..startIndex + 8]) <= MaxTicks) ==>
              r == Failure(if |bytes| == startIndex + 8 then IndexOutOfRange else ArrayTooShort)
    ensures r.Success? ==>
              r.value == AccelerometerMeasurement(ToInt64(bytes[startIndex..startIndex + 8]),
                                                  bytes[startIndex + 8..startIndex + 12],
                                                  bytes[startIndex + 10..startIndex + 14],
                                                  bytes[startIndex + 12..startIndex + 16])
  {
    var n := |bytes|;
    if ReadCheck(n, startIndex, 8).Some? then Failure(ReadCheck(n, startIndex, 8).value)
    else
      var ticks := ToInt64(bytes[startIndex..startIndex + 8]);
      if ticks < 0 || ticks > MaxTicks then Failure(TicksOutOfRange)
      else if ReadCheck(n, startIndex + 8, 4).Some? then Failure(ReadCheck(n, startIndex + 8, 4).value)
      else if ReadCheck(n, startIndex + 10, 4).Some? then Failure(ReadCheck(n, startIndex + 10, 4).value)
      else if ReadCheck(n, startIndex + 12, 4).Some? then Failure(ReadCheck(n, startIndex + 12, 4).value)
      else
        Success(AccelerometerMeasurement(ticks,
                                         bytes[startIndex + 8..startIndex + 12],
                                         bytes[startIndex + 10..startIndex + 14],
                                         bytes[startIndex + 12..startIndex + 16]))
  }

  /**
   * Decoding an encoded measurement: the ticks and X come back, but Y is
   * read across the last two bytes of X and the first two of Y, and Z is
   * read where Y was written. The bytes of Z are never read.
   */
  lemma DecodeOfEncoded(m: AccelerometerMeasurement)
    ensures DecodeAccelerometerData(AccelerometerPayload(m), 0) ==
            Success(AccelerometerMeasurement(m.ticks, m.x, m.x[2..] + m.y[..2], m.y))
  {
    var p := AccelerometerPayload(m);
    assert p[..8] == Int64Bytes(m.ticks);
    assert p[8..12] == m.x;
    assert p[10..14] == m.x[2..] + m.y[..2];
    assert p[12..16] == m.y;
  }

  /** The ticks and the X word survive a round trip. */
  lemma TicksAndXRoundTrip(m: AccelerometerMeasurement)
    ensures var r := DecodeAccelerometerData(AccelerometerPayload(m), 0);
            r.Success? && r.value.ticks == m.ticks && r.value.x == m.x
  {
    DecodeOfEncoded(m);
  }

  /**
   * Z comes back as Y, and Y comes back intact only in the special case
   * where both of its halves equal the last two bytes of X.
   */
  lemma YAndZDoNotRoundTrip(m: AccelerometerMeasurement)
    ensures var r := DecodeAccelerometerData(AccelerometerPayload(m), 0);
            r.Success? && r.value.z == m.y &&
            (r.value.y == m.y <==> m.y == m.x[2..] + m.x[2..])
  {
    DecodeOfEncoded(m);
    var y' := m.x[2..] + m.y[..2];
    if y' == m.y {
      assert m.y[..2] == y'[..2] == m.x[2..];
      assert m.y[2..] == y'[2..] == m.y[..2];
      assert m.y == m.y[..2] + m.y[2..];
    }
  }

  /** The unit test's measurement: acceleration (1, 2, 3), whose floats are 0x3F800000, 0x40000000, 0x40400000. */
  const TestVector: AccelerometerMeasurement :=
    AccelerometerMeasurement(0, [0x00, 0x00, 0x80, 0x3F], [0x00, 0x00, 0x00, 0x40], [0x00, 0x00, 0x40, 0x40])

  /**
   * The unit test's vector does not round-trip: Y decodes from the bytes
   * 80 3F 00 00 (a denormal near 2.3e-41, not 2.0) and Z decodes as 2.0.
   */
  lemma TestVectorMisdecoded()
    ensures DecodeAccelerometerData(AccelerometerPayload(TestVector), 0) ==
            Success(AccelerometerMeasurement(0, [0x00, 0x00, 0x80, 0x3F], [0x80, 0x3F, 0x00, 0x00], [0x00, 0x00, 0x00, 0x40]))
    ensures DecodeAccelerometerData(AccelerometerPayload(TestVector), 0) != Success(TestVector)
  {
    DecodeOfEncoded(TestVector);
    assert TestVector.x[2..] + TestVector.y[..2] == [0x80, 0x3F, 0x00, 0x00];
  }

  /** Decoding reads only the sixteen bytes from startIndex on. */
  lemma DecodeReadsWindow(bytes: seq<byte>, startIndex: int)
    requires 0 <= startIndex && startIndex + 16 <= |bytes|
    ensures DecodeAccelerometerData(bytes, startIndex) == DecodeAccelerometerData(bytes[startIndex..startIndex + 16], 0)
  {
    var w := bytes[startIndex..startIndex + 16];
    SliceOfSlice(bytes, startIndex, startIndex + 16, 0, 8);
    SliceOfSlice(bytes, startIndex, startIndex + 16, 8, 12);
    SliceOfSlice(bytes, startIndex, startIndex + 16, 10, 14);
    SliceOfSlice(bytes, startIndex, startIndex + 16, 12, 16);
  }

  lemma SliceOfSlice(s: seq<byte>, i: nat, j: nat, k: nat, l: nat)
    requires i <= j <= |s| && k <= l <= j - i
    ensures s[i..j][k..l] == s[i + k..i + l]
  {
    assert |s[i..j][k..l]| == l - k;
    forall n | 0 <= n < l - k
      ensures s[i..j][k..l][n] == s[i + k..i + l][n]
    {
    }
  }

  /** Decoding after a prefix at the prefix's length is decoding from the start, outcome and error alike. */
  lemma DecodeShiftInvariant(prefix: seq<byte>, bytes: seq<byte>)
    ensures DecodeAccelerometerData(prefix + bytes, |prefix|) == DecodeAccelerometerData(bytes, 0)
  {
    var k := |prefix|;
    var b := prefix + bytes;
    if 8 <= |bytes| {
      assert b[k..k + 8] == bytes[0..8];
    }
    if 16 <= |bytes| {
      assert b[k + 8..k + 12] == bytes[8..12];
      assert b[k + 10..k + 14] == bytes[10..14];
      assert b[k + 12..k + 16] == bytes[12..16];
    }
  }

  /** The encoded Z word is ignored: changing it does not change what is decoded. */
  lemma DecodeIgnoresZ(m: AccelerometerMeasurement, z: FloatWord)
    ensures DecodeAccelerometerData(AccelerometerPayload(m.(z := z)), 0) == DecodeAccelerometerData(AccelerometerPayload(m), 0)
  {
    DecodeOfEncoded(m);
    DecodeOfEncoded(m.(z := z));
  }

  // ---------------------------------------------------------------------------
  // The layout the encoder writes
  // ---------------------------------------------------------------------------

  /** Decoding with the floats read where the encoder writes them: startIndex + 8, + 12 and + 16. */
  function DecodeAccelerometerDataCorrected(bytes: seq<byte>, startIndex: int): (r: Result<AccelerometerMeasurement, DecodeError>)
    ensures r.Success? <==>
              0 <= startIndex && startIndex + 20 <= |bytes| &&
              0 <= ToInt64(bytes[startIndex..startIndex + 8]) <= MaxTicks
    // The ticks are read first: the index must lie inside the array, then 8 bytes must follow it.
    ensures startIndex < 0 || startIndex >= |bytes| ==> r == Failure(IndexOutOfRange)
    ensures 0 <= startIndex < |bytes| < startIndex + 8 ==> r == Failure(ArrayTooShort)
    // DateTime checks the ticks before any float is read.
    ensures (0 <= startIndex && startIndex + 8 <= |bytes| &&
             !(0 <= ToInt64(bytes[startIndex..startIndex + 8]) <= MaxTicks)) ==> r == Failure(TicksOutOfRange)
    // The first float read that fails: one whose index is the array's end, else one running past it.
    ensures (0 <= startIndex && startIndex + 8 <= |bytes| < startIndex + 20 &&
             0 <= ToInt64(bytes[startIndex..startIndex + 8]) <= MaxTicks) ==>
              r == Failure(if |bytes| - startIndex in {8, 12, 16} then IndexOutOfRange else ArrayTooShort)
    ensures r.Success? ==>
              r.value == AccelerometerMeasurement(ToInt64(bytes[startIndex..startIndex + 8]),
                                                  bytes[startIndex + 8..startIndex + 12],
                                                  bytes[startIndex + 12..startIndex + 16],
                                                  bytes[startIndex + 16..startIndex + 20])
  {
    var n := |bytes|;
    if ReadCheck(n, startIndex, 8).Some? then Failure(ReadCheck(n, startIndex, 8).value)
    else
      var ticks := ToInt64(bytes[startIndex..startIndex + 8]);
      if ticks < 0 || ticks > MaxTicks then Failure(TicksOutOfRange)
      else if ReadCheck(n, startIndex + 8, 4).Some? then Failure(ReadCheck(n, startIndex + 8, 4).value)
      else if ReadCheck(n, startIndex + 12, 4).Some? then Failure(ReadCheck(n, startIndex + 12, 4).value)
      else if ReadCheck(n, startIndex + 16, 4).Some? then Failure(ReadCheck(n, startIndex + 16, 4).value)
      else
        Success(AccelerometerMeasurement(ticks,
                                         bytes[startIndex + 8..startIndex + 12],
                                         bytes[startIndex + 12..startIndex + 16],
                                         bytes[startIndex + 16..startIndex + 20]))
  }

  /** With the encoder's layout every measurement round-trips. */
  lemma CorrectedRoundTrip(m: AccelerometerMeasurement)
    ensures DecodeAccelerometerDataCorrected(AccelerometerPayload(m), 0) == Success(m)
  {
    var p := AccelerometerPayload(m);
    assert p[..8] == Int64Bytes(m.ticks);
    assert p[8..12] == m.x;
    assert p[12..16] == m.y;
    assert p[16..20] == m.z;
  }

  /** And every 20 bytes that decode are the encoding of what they decode to. */
  lemma CorrectedEncodeOfDecoded(bytes: seq<byte>)
    requires |bytes| == 20 && DecodeAccelerometerDataCorrected(bytes, 0).Success?
    ensures AccelerometerPayload(DecodeAccelerometerDataCorrected(bytes, 0).value) == bytes
  {
    Int64BytesOfToInt64(bytes[..8]);
    assert bytes == bytes[..8] + bytes[8..12] + bytes[12..16] + bytes[16..20];
  }
}
