/** Machine integers and byte strings, with Go's conversions between them. */
module Bytes {
  const TWO_63: int := 0x8000_0000_0000_0000
  const TWO_64: int := 0x1_0000_0000_0000_0000

  type byte = b: int | 0 <= b < 0x100
  type bytes = seq<byte>
  type uint64 = v: int | 0 <= v < TWO_64
  type int64 = v: int | -TWO_63 <= v < TWO_63

  datatype Option<+T> = None | Some(value: T)

  /** `uint64(v)`: two's complement reinterpretation. */
  function ToUint64(v: int64): uint64 {
    if v < 0 then v + TWO_64 else v
  }

  /** `int64(v)`, its inverse. */
  function ToInt64(v: uint64): int64 {
    if v >= TWO_63 then v - TWO_64 else v
  }

  /** `uint64(len(data))`. */
  function Len64(data: bytes): uint64 {
    |data| % TWO_64
  }

  /** The `n` low bytes of `v`, least significant first. */
  function LittleEndian(v: nat, n: nat): (b: bytes)
    ensures |b| == n
  {
    if n == 0 then [] else [v % 0x100] + LittleEndian(v / 0x100, n - 1)
  }

  function FromLittleEndian(b: bytes): (v: nat) {
    if b == [] then 0 else b[0] + 0x100 * FromLittleEndian(b[1..])
  }

  function Pow(b: nat, n: nat): (p: nat)
    ensures b > 0 ==> p > 0
  {
    if n == 0 then 1 else b * Pow(b, n - 1)
  }

  lemma {:induction false} LittleEndianRoundTrip(v: nat, n: nat)
    requires v < Pow(0x100, n)
    ensures FromLittleEndian(LittleEndian(v, n)) == v
  {
    if n > 0 {
      LittleEndianRoundTrip(v / 0x100, n - 1);
      assert LittleEndian(v, n)[1..] == LittleEndian(v / 0x100, n - 1);
    }
  }

  /** The low byte comes first. */
  lemma LittleEndianIs(low: byte, high: nat, n: nat)
    ensures LittleEndian(high, 0) == []
    ensures LittleEndian(low + 0x100 * high, n + 1) == [low] + LittleEndian(high, n)
  {
    assert (low + 0x100 * high) / 0x100 == high && (low + 0x100 * high) % 0x100 == low;
  }
}
