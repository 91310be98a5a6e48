/** Fixed-width unsigned integers as the SHDLC framer uses them. Its checksum
    is additive, so bytes are integers in 0..255 and every C `uint8_t`
    addition is written out modulo 256. */
module Bytes {

  type uint8 = x: int | 0 <= x < 0x100
  type uint16 = x: int | 0 <= x < 0x1_0000
  type uint32 = x: int | 0 <= x < 0x1_0000_0000

  /** Plain (unbounded) sum of the byte values. */
  function Sum(s: seq<uint8>): nat
  {
    if s == [] then 0 else s[0] + Sum(s[1..])
  }

  lemma {:induction false} SumAppend(a: seq<uint8>, b: seq<uint8>)
    ensures Sum(a + b) == Sum(a) + Sum(b)
  {
    if a == [] {
      assert a + b == b;
    } else {
      assert (a + b)[1..] == a[1..] + b;
      SumAppend(a[1..], b);
    }
  }

  /** Reducing an accumulator modulo 256 before or after adding gives the same byte. */
  lemma ModAdd(x: nat, y: nat)
    ensures (x % 0x100 + y) % 0x100 == (x + y) % 0x100
  {
    var q := x / 0x100;
    assert x + y == q * 0x100 + (x % 0x100 + y);
  }

  /** `x += y` on a `uint8_t`. */
  function Add8(x: uint8, y: int): uint8
    requires y >= 0
  {
    (x + y) % 0x100
  }

  /** `~x` on a `uint8_t`. */
  function Not8(x: uint8): uint8
  {
    0xFF - x
  }

  /** `x ^ (1 << 5)`: the bit flip that byte stuffing applies. */
  function FlipBit5(x: uint8): uint8
  {
    if x % 0x40 >= 0x20 then x - 0x20 else x + 0x20
  }

  /** `(uint8_t)((w & 0xFF00) >> 8), (uint8_t)(w & 0x00FF)`: most significant byte first. */
  function BigEndian16(w: uint16): (r: seq<uint8>)
    ensures |r| == 2 && r[0] as int * 0x100 + r[1] as int == w
  {
    [w / 0x100, w % 0x100]
  }

  /** The four bytes of a `uint32_t`, most significant first. */
  function BigEndian32(d: uint32): (r: seq<uint8>)
    ensures |r| == 4 && ((r[0] as int * 0x100 + r[1]) * 0x100 + r[2]) * 0x100 + r[3] == d
  {
    var hi, lo := d / 0x1_0000, d % 0x1_0000;
    BigEndian16(hi) + BigEndian16(lo)
  }

  /** The C cast `(uint16_t)v` of an `int16_t`: two's complement. */
  function FromInt16(v: int): (r: uint16)
    requires -0x8000 <= v < 0x8000
    ensures r % 0x1_0000 == v % 0x1_0000
    ensures (r < 0x8000) == (v >= 0)
  {
    if v < 0 then v + 0x1_0000 else v
  }

  /** The C cast `(uint32_t)v` of an `int32_t`: two's complement. */
  function FromInt32(v: int): (r: uint32)
    requires -0x8000_0000 <= v < 0x8000_0000
    ensures r % 0x1_0000_0000 == v % 0x1_0000_0000
    ensures (r < 0x8000_0000) == (v >= 0)
  {
    if v < 0 then v + 0x1_0000_0000 else v
  }
}
