/** CRC-16/XMODEM: polynomial 0x1021 (x^16 + x^12 + x^5 + 1), initial
    register 0x0000, input and output not reflected, no final xor, check
    value 0x31C3 for the ASCII digits "123456789". The register is a
    16-bit unsigned integer, shifted most significant bit first. */
module Crc16 {
  import opened Bytes

  type uint16 = x: int | 0 <= x < 0x1_0000

  /** The generator polynomial without its x^16 term. */
  const POLY: uint16 := 0x1021

  function Pow2(n: nat): (p: nat)
    ensures p > 0
  {
    if n == 0 then 1 else 2 * Pow2(n - 1)
  }

  /** The exclusive or of the low `n` bits of `a` and `b`. */
  function Xor(a: nat, b: nat, n: nat): nat {
    if n == 0 then 0
    else 2 * Xor(a / 2, b / 2, n - 1) + (if a % 2 == b % 2 then 0 else 1)
  }

  /** `a ^ b` on 16-bit words, high and low byte apart. */
  function Xor16(a: uint16, b: uint16): uint16 {
    XorBound(a / 256, b / 256, 8);
    XorBound(a % 256, b % 256, 8);
    Pow2Of8();
    256 * Xor(a / 256, b / 256, 8) + Xor(a % 256, b % 256, 8)
  }

  /** One shift of the register: a 1 that falls off the top subtracts
      (xors in) the generator. */
  function ShiftBit(c: uint16): uint16 {
    if c < 0x8000 then 2 * c else Xor16(2 * c - 0x1_0000, POLY)
  }

  function ShiftBits(c: uint16, n: nat): uint16
    decreases n
  {
    if n == 0 then c else ShiftBits(ShiftBit(c), n - 1)
  }

  /** Feeds one byte into the register: xor it into the high half, then
      shift eight times. */
  function Update(c: uint16, b: byte): uint16 {
    ShiftBits(Xor16(c, 256 * b), 8)
  }

  /** The register after feeding `s`, one byte after another, into `c`. */
  function CrcFrom(c: uint16, s: seq<byte>): uint16
    decreases |s|
  {
    if s == [] then c else CrcFrom(Update(c, s[0]), s[1..])
  }

  /** `crc16xmodem(data)`: the register starts at 0x0000 and takes the
      bytes one after another (see Crc16XmodemAppend). */
  function Crc16Xmodem(s: seq<byte>): (r: uint16)
    ensures s == [] ==> r == 0
  {
    CrcFrom(0, s)
  }

  /** The CRC of a message with one more byte is the CRC of the message
      with that byte fed into the register by Update. */
  lemma Crc16XmodemAppend(s: seq<byte>, b: byte)
    ensures Crc16Xmodem(s + [b]) == Update(Crc16Xmodem(s), b)
  {
    CrcFromAppend(0, s, [b]);
    assert [b][1..] == [];
  }

  // Properties of Xor, by induction on the number of bits.

  lemma Pow2Of8()
    ensures Pow2(8) == 0x100
  {
  }

  lemma {:induction false} XorBound(a: nat, b: nat, n: nat)
    ensures Xor(a, b, n) < Pow2(n)
  {
    if n > 0 {
      XorBound(a / 2, b / 2, n - 1);
    }
  }

  lemma {:induction false} XorSymmetric(a: nat, b: nat, n: nat)
    ensures Xor(a, b, n) == Xor(b, a, n)
  {
    if n > 0 {
      XorSymmetric(a / 2, b / 2, n - 1);
    }
  }

  /** Xoring the same word twice gives back what one started from. */
  lemma {:induction false} XorTwice(a: nat, b: nat, n: nat)
    requires a < Pow2(n)
    ensures Xor(Xor(a, b, n), b, n) == a
  {
    if n > 0 {
      var x := Xor(a / 2, b / 2, n - 1);
      var e := if a % 2 == b % 2 then 0 else 1;
      assert (2 * x + e) / 2 == x && (2 * x + e) % 2 == e;
      XorTwice(a / 2, b / 2, n - 1);
    }
  }

  lemma Xor16Symmetric(a: uint16, b: uint16)
    ensures Xor16(a, b) == Xor16(b, a)
  {
    XorSymmetric(a / 256, b / 256, 8);
    XorSymmetric(a % 256, b % 256, 8);
  }

  lemma Xor16Twice(a: uint16, b: uint16)
    ensures Xor16(Xor16(a, b), b) == a
  {
    var h, l := Xor(a / 256, b / 256, 8), Xor(a % 256, b % 256, 8);
    XorBound(a / 256, b / 256, 8);
    XorBound(a % 256, b % 256, 8);
    Pow2Of8();
    assert (256 * h + l) / 256 == h && (256 * h + l) % 256 == l;
    XorTwice(a / 256, b / 256, 8);
    XorTwice(a % 256, b % 256, 8);
  }

  lemma Xor16Cancel(c: uint16, x: uint16, y: uint16)
    requires Xor16(c, x) == Xor16(c, y)
    ensures x == y
  {
    Xor16Symmetric(c, x);
    Xor16Symmetric(c, y);
    Xor16Twice(x, c);
    Xor16Twice(y, c);
  }

  /** The lowest bit of a xor. */
  lemma XorLowBit(a: nat, b: nat, n: nat)
    requires n > 0
    ensures Xor(a, b, n) % 2 == (if a % 2 == b % 2 then 0 else 1)
  {
    var x := Xor(a / 2, b / 2, n - 1);
    var e := if a % 2 == b % 2 then 0 else 1;
    assert (2 * x + e) % 2 == e;
  }

  lemma Xor16LowBit(a: uint16, b: uint16)
    ensures Xor16(a, b) % 2 == (if a % 2 == b % 2 then 0 else 1)
  {
    var x, y := a % 256, b % 256;
    XorLowBit(x, y, 8);
    var h := Xor(a / 256, b / 256, 8);
    assert (256 * h + Xor(x, y, 8)) % 2 == Xor(x, y, 8) % 2;
    assert a == 256 * (a / 256) + x && b == 256 * (b / 256) + y;
    assert x % 2 == a % 2 && y % 2 == b % 2;
  }

  // Error detection. The register update is injective in the register for
  // a fixed byte, and in the byte for a fixed register, so two messages of
  // the same length that differ in one byte leave different registers.

  lemma ShiftBitInjective(a: uint16, b: uint16)
    requires ShiftBit(a) == ShiftBit(b)
    ensures a == b
  {
    // With the generator xored in, the lowest bit is set; without, clear.
    if a >= 0x8000 {
      Xor16LowBit(2 * a - 0x1_0000, POLY);
    }
    if b >= 0x8000 {
      Xor16LowBit(2 * b - 0x1_0000, POLY);
    }
    if a >= 0x8000 {
      Xor16Twice(2 * a - 0x1_0000, POLY);
      Xor16Twice(2 * b - 0x1_0000, POLY);
    }
  }

  lemma {:induction false} ShiftBitsInjective(a: uint16, b: uint16, n: nat)
    requires ShiftBits(a, n) == ShiftBits(b, n)
    ensures a == b
    decreases n
  {
    if n > 0 {
      ShiftBitsInjective(ShiftBit(a), ShiftBit(b), n - 1);
      ShiftBitInjective(a, b);
    }
  }

  /** Different registers stay different after the same byte. */
  lemma UpdateInjectiveInRegister(c1: uint16, c2: uint16, b: byte)
    requires Update(c1, b) == Update(c2, b)
    ensures c1 == c2
  {
    ShiftBitsInjective(Xor16(c1, 256 * b), Xor16(c2, 256 * b), 8);
    Xor16Symmetric(c1, 256 * b);
    Xor16Symmetric(c2, 256 * b);
    Xor16Cancel(256 * b, c1, c2);
  }

  /** Different bytes fed into the same register leave different registers. */
  lemma UpdateInjectiveInByte(c: uint16, b1: byte, b2: byte)
    requires Update(c, b1) == Update(c, b2)
    ensures b1 == b2
  {
    ShiftBitsInjective(Xor16(c, 256 * b1), Xor16(c, 256 * b2), 8);
    Xor16Cancel(c, 256 * b1, 256 * b2);
  }

  lemma {:induction false} CrcFromAppend(c: uint16, s: seq<byte>, t: seq<byte>)
    ensures CrcFrom(c, s + t) == CrcFrom(CrcFrom(c, s), t)
    decreases |s|
  {
    if s != [] {
      assert (s + t)[1..] == s[1..] + t;
      CrcFromAppend(Update(c, s[0]), s[1..], t);
    } else {
      assert s + t == t;
    }
  }

  /** Feeding the same bytes keeps two different registers different. */
  lemma {:induction false} CrcFromInjectiveInRegister(c1: uint16, c2: uint16, s: seq<byte>)
    requires CrcFrom(c1, s) == CrcFrom(c2, s)
    ensures c1 == c2
    decreases |s|
  {
    if s != [] {
      CrcFromInjectiveInRegister(Update(c1, s[0]), Update(c2, s[0]), s[1..]);
      UpdateInjectiveInRegister(c1, c2, s[0]);
    }
  }

  /** CRC-16/XMODEM detects every change of a single byte. */
  lemma SingleByteChangeDetected(s: seq<byte>, i: nat, v: byte)
    requires i < |s| && v != s[i]
    ensures Crc16Xmodem(s[i := v]) != Crc16Xmodem(s)
  {
    var prefix, suffix := s[..i], s[i + 1..];
    assert s == prefix + ([s[i]] + suffix);
    assert s[i := v] == prefix + ([v] + suffix);
    CrcFromAppend(0, prefix, [s[i]] + suffix);
    CrcFromAppend(0, prefix, [v] + suffix);
    assert ([s[i]] + suffix)[1..] == suffix;
    assert ([v] + suffix)[1..] == suffix;
    var c := CrcFrom(0, prefix);
    if Crc16Xmodem(s[i := v]) == Crc16Xmodem(s) {
      CrcFromInjectiveInRegister(Update(c, v), Update(c, s[i]), suffix);
      UpdateInjectiveInByte(c, v, s[i]);
    }
  }
}
