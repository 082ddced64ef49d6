/** Machine integers as ranges of the mathematical integers, and big-endian byte order. */
module Bytes {
  const U32_LIMIT := 0x1_0000_0000
  const U64_LIMIT := 0x1_0000_0000_0000_0000

  type byte = x: int | 0 <= x < 0x100
  type u16 = x: int | 0 <= x < 0x1_0000
  type u32 = x: int | 0 <= x < U32_LIMIT
  type u64 = x: int | 0 <= x < U64_LIMIT
  type bytes = seq<byte>

  function U16ToBe(x: u16): (r: bytes)
    ensures |r| == 2
  {
    [x / 0x100, x % 0x100]
  }

  function U16FromBe(b: bytes): u16
    requires |b| == 2
  {
    (b[0] as int) * 0x100 + b[1]
  }

  function U32ToBe(x: u32): (r: bytes)
    ensures |r| == 4
  {
    U16ToBe(x / 0x1_0000) + U16ToBe(x % 0x1_0000)
  }

  function U32FromBe(b: bytes): u32
    requires |b| == 4
  {
    (U16FromBe(b[..2]) as int) * 0x1_0000 + U16FromBe(b[2..])
  }

  /** The two byte orders of a word are inverse to each other. */
  lemma U16RoundTrip(x: u16, b: bytes)
    requires |b| == 2
    ensures U16FromBe(U16ToBe(x)) == x
    ensures U16ToBe(U16FromBe(b)) == b
  {
  }

  lemma U32RoundTrip(x: u32, b: bytes)
    requires |b| == 4
    ensures U32FromBe(U32ToBe(x)) == x
    ensures U32ToBe(U32FromBe(b)) == b
  {
    var r := U32ToBe(x);
    assert r[..2] == U16ToBe(x / 0x1_0000) && r[2..] == U16ToBe(x % 0x1_0000);
    U16RoundTrip(x / 0x1_0000, b[..2]);
    U16RoundTrip(x % 0x1_0000, b[2..]);
    assert b == b[..2] + b[2..];
  }

  lemma BigEndian(x: u32)
    ensures U32ToBe(x) == [x / 0x100_0000, x / 0x1_0000 % 0x100, x / 0x100 % 0x100, x % 0x100]
  {
    FirstDigit(x);
    ThirdDigit(x);
    LastDigit(x);
  }

  lemma FirstDigit(x: nat)
    ensures x / 0x1_0000 / 0x100 == x / 0x100_0000
  {
  }

  lemma ThirdDigit(x: nat)
    ensures x % 0x1_0000 / 0x100 == x / 0x100 % 0x100
  {
  }

  lemma LastDigit(x: nat)
    ensures x % 0x1_0000 % 0x100 == x % 0x100
  {
  }

  function Zeros(n: nat): (r: bytes)
    ensures |r| == n
    ensures forall i :: 0 <= i < n ==> r[i] == 0
  {
    seq(n, _ => 0)
  }

  function Min(a: int, b: int): int {
    if a <= b then a else b
  }
}
