/**
 * Little-endian conversion of integers to and from bytes, as .NET's
 * BitConverter does on a little-endian machine: GetBytes(int), GetBytes(long),
 * ToInt32 and ToInt64 (two's complement).
 */
module LittleEndian {

  /** An unsigned 8-bit value. */
  type byte = b: int | 0 <= b < 256

  const MinInt32: int := -0x8000_0000
  const MaxInt32: int := 0x7FFF_FFFF
  const MinInt64: int := -0x8000_0000_0000_0000
  const MaxInt64: int := 0x7FFF_FFFF_FFFF_FFFF

  /** 256 to the power n: the number of distinct values of n bytes. */
  function Pow256(n: nat): (p: nat)
    ensures p > 0
  {
    if n == 0 then 1 else 256 * Pow256(n - 1)
  }

  lemma Pow256Facts()
    ensures Pow256(4) == 0x1_0000_0000
    ensures Pow256(8) == 0x1_0000_0000_0000_0000
  {
  }

  /** The unsigned value of a little-endian byte sequence (least significant byte first). */
  function FromLE(s: seq<byte>): (v: nat)
    ensures v < Pow256(|s|)
  {
    if s == [] then 0 else s[0] + 256 * FromLE(s[1..])
  }

  /** The n little-endian bytes of an unsigned value that fits in n bytes. */
  function ToLE(v: nat, n: nat): (s: seq<byte>)
    requires v < Pow256(n)
    ensures |s| == n && FromLE(s) == v
  {
    if n == 0 then [] else [v % 256] + ToLE(v / 256, n - 1)
  }

  /** Reading bytes as a number and writing the number back gives the same bytes. */
  lemma {:induction false} ToLEFromLE(s: seq<byte>)
    ensures ToLE(FromLE(s), |s|) == s
  {
    if s != [] {
      var v := FromLE(s);
      assert v % 256 == s[0] && v / 256 == FromLE(s[1..]);
      ToLEFromLE(s[1..]);
    }
  }

  /** BitConverter.ToInt32: four bytes read as a signed 32-bit integer. */
  function ToInt32(s: seq<byte>): (x: int)
    requires |s| == 4
    ensures MinInt32 <= x <= MaxInt32
  {
    Pow256Facts();
    var u := FromLE(s);
    if u <= MaxInt32 then u else u - 0x1_0000_0000
  }

  /** BitConverter.GetBytes(int): the four bytes of a signed 32-bit integer. */
  function Int32Bytes(x: int): (s: seq<byte>)
    requires MinInt32 <= x <= MaxInt32
    ensures |s| == 4 && ToInt32(s) == x
  {
    Pow256Facts();
    ToLE(if x < 0 then x + 0x1_0000_0000 else x, 4)
  }

  /** Every four bytes are the encoding of the integer they decode to. */
  lemma Int32BytesOfToInt32(s: seq<byte>)
    requires |s| == 4
    ensures Int32Bytes(ToInt32(s)) == s
  {
    Pow256Facts();
    ToLEFromLE(s);
  }

  /** BitConverter.ToInt64: eight bytes read as a signed 64-bit integer. */
  function ToInt64(s: seq<byte>): (x: int)
    requires |s| == 8
    ensures MinInt64 <= x <= MaxInt64
  {
    Pow256Facts();
    var u := FromLE(s);
    if u <= MaxInt64 then u else u - 0x1_0000_0000_0000_0000
  }

  /** BitConverter.GetBytes(long): the eight bytes of a signed 64-bit integer. */
  function Int64Bytes(x: int): (s: seq<byte>)
    requires MinInt64 <= x <= MaxInt64
    ensures |s| == 8 && ToInt64(s) == x
  {
    Pow256Facts();
    ToLE(if x < 0 then x + 0x1_0000_0000_0000_0000 else x, 8)
  }

  /** Every eight bytes are the encoding of the integer they decode to. */
  lemma Int64BytesOfToInt64(s: seq<byte>)
    requires |s| == 8
    ensures Int64Bytes(ToInt64(s)) == s
  {
    Pow256Facts();
    ToLEFromLE(s);
  }
}
