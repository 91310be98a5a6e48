/** The CRC-8 that tags every 16-bit word on the I2C bus: polynomial 0x31
    (x^8 + x^5 + x^4 + 1), initial value 0xFF, most significant bit first,
    no reflection and no final XOR. These are the specification functions;
    the loops that compute them are `SensirionI2c.GenerateCrc` and
    `SensirionCommon.CommonGenerateCrc`. */
module Crc8 {

  const POLYNOMIAL: bv8 := 0x31
  const INIT: bv8 := 0xFF
  const CRC8_LEN := 1

  /** One bit round: shift left, and when the top bit falls out, fold the
      polynomial back in. */
  function Shift(crc: bv8): bv8
  {
    if crc & 0x80 != 0 then (crc << 1) ^ POLYNOMIAL else crc << 1
  }

  /** The register after `rounds` more bit rounds on the byte being absorbed,
      then absorbing every byte of `s` in order: each byte is XORed into the
      register and followed by eight rounds. */
  function Absorb(crc: bv8, s: seq<bv8>, rounds: nat): bv8
    decreases |s|, rounds
  {
    if rounds > 0 then Absorb(Shift(crc), s, rounds - 1)
    else if s == [] then crc
    else Absorb(crc ^ s[0], s[1..], 8)
  }

  /** The checksum of a byte span. */
  function Crc(s: seq<bv8>): bv8
  {
    Absorb(INIT, s, 0)
  }

  /** The byte vectors the repository's tests expect, and the empty span. */
  lemma CrcVectors()
    ensures Crc([]) == 0xFF
    ensures Crc([0xBE, 0xEF]) == 0x92
    ensures Crc([0x80, 0x00]) == 0xA2
    ensures Crc([0x66, 0x66]) == 0x93
  {
    assert [0xBE, 0xEF][1..] == [0xEF];
    assert Absorb(0x41, [0xEF], 8) == Absorb(0x0C, [0xEF], 0);
    assert Absorb(0xE3, [], 8) == 0x92;
    assert [0x80, 0x00][1..] == [0x00];
    assert Absorb(0x7F, [0x00], 8) == Absorb(0xD6, [0x00], 0);
    assert Absorb(0xD6, [], 8) == 0xA2;
    assert [0x66, 0x66][1..] == [0x66];
    assert Absorb(0x99, [0x66], 8) == Absorb(0xB1, [0x66], 0);
    assert Absorb(0xD7, [], 8) == 0x93;
  }

  lemma ShiftInjective(a: bv8, b: bv8)
    requires Shift(a) == Shift(b)
    ensures a == b
  {
  }

  /** Absorbing the rest of a span never merges two different registers. */
  lemma {:induction false} AbsorbInjective(a: bv8, b: bv8, s: seq<bv8>, rounds: nat)
    requires Absorb(a, s, rounds) == Absorb(b, s, rounds)
    ensures a == b
    decreases |s|, rounds
  {
    if rounds > 0 {
      AbsorbInjective(Shift(a), Shift(b), s, rounds - 1);
      ShiftInjective(a, b);
    } else if s != [] {
      AbsorbInjective(a ^ s[0], b ^ s[0], s[1..], 8);
    }
  }

  /** With no rounds pending, the first byte is XORed in and followed by eight rounds. */
  lemma AbsorbHead(crc: bv8, s: seq<bv8>)
    requires s != []
    ensures Absorb(crc, s, 0) == Absorb(crc ^ s[0], s[1..], 8)
  {
  }

  lemma {:induction false} AbsorbDetectsByteChange(crc: bv8, s: seq<bv8>, rounds: nat, k: nat, b: bv8)
    requires k < |s| && b != s[k]
    ensures Absorb(crc, s[k := b], rounds) != Absorb(crc, s, rounds)
    decreases |s|, rounds
  {
    var t := s[k := b];
    if rounds > 0 {
      AbsorbDetectsByteChange(Shift(crc), s, rounds - 1, k, b);
    } else if k == 0 {
      assert t[1..] == s[1..];
      AbsorbHead(crc, t);
      AbsorbHead(crc, s);
      if Absorb(crc, t, 0) == Absorb(crc, s, 0) {
        AbsorbInjective(crc ^ b, crc ^ s[0], s[1..], 8);
        assert false;
      }
    } else {
      assert t[0] == s[0];
      assert t[1..] == s[1..][k - 1 := b];
      AbsorbDetectsByteChange(crc ^ s[0], s[1..], 8, k - 1, b);
    }
  }

  /** A corruption confined to any single byte of the span always changes the
      checksum; in particular every corrupted data byte of an I2C word with an
      intact CRC byte is rejected. */
  lemma CrcDetectsByteChange(s: seq<bv8>, k: nat, b: bv8)
    requires k < |s| && b != s[k]
    ensures Crc(s[k := b]) != Crc(s)
  {
    AbsorbDetectsByteChange(INIT, s, 0, k, b);
  }
}
