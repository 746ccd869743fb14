/** Conversion between a bigint and the 8-byte big-endian array carried by
    a size tag. */
module Bn {
  import opened Wrappers
  import opened Bytes

  /** The length of the array both conversions use. */
  const WIDTH: nat := 8

  /** 2^64: the number of values an 8-byte array can spell. */
  const TWO_64: nat := 0x1_0000_0000_0000_0000

  /** The error `uint8ArrayToBigInt` throws. */
  datatype BnError =
    | WrongLength  // 'Uint8Array must be exactly 8 bytes long.'

  function Pow256(n: nat): (p: nat)
    ensures p > 0
  {
    if n == 0 then 1 else 256 * Pow256(n - 1)
  }

  /** `(value >> BigInt(8 * i)) & 0xFF` on a bigint: the shift rounds
      toward minus infinity and the mask reads the low byte of the two's
      complement form, so both are floor division and a non-negative
      remainder, even for a negative value. */
  function ByteAt(value: int, i: nat): byte {
    (value / Pow256(i)) % 256
  }

  /** The reference encoding: the low `n` bytes of `v`, most significant
      first. */
  function BigEndian(v: int, n: nat): (s: seq<byte>)
    ensures |s| == n
    decreases n
  {
    if n == 0 then [] else BigEndian(v / 256, n - 1) + [v % 256]
  }

  /** The value of a big-endian byte string. */
  function BigEndianValue(s: seq<byte>): (v: nat)
    ensures v < Pow256(|s|)
    decreases |s|
  {
    if s == [] then 0
    else
      var init := BigEndianValue(s[..|s| - 1]);
      assert init * 256 + 255 < Pow256(|s|) by {
        assert init + 1 <= Pow256(|s| - 1);
        assert (init + 1) * 256 <= Pow256(|s| - 1) * 256;
      }
      init * 256 + Last(s)
  }

  /** `bigintToUint8Array`: byte 7 - i of the array is the i-th byte of the
      value counted from the least significant end, which makes the array
      the 8-byte big-endian encoding. */
  method BigIntToBytes(value: int) returns (bytes: seq<byte>)
    ensures |bytes| == WIDTH
    ensures forall i :: 0 <= i < WIDTH ==> bytes[WIDTH - 1 - i] == ByteAt(value, i)
    ensures bytes == BigEndian(value, WIDTH)
  {
    var a := new byte[WIDTH];
    for i := 0 to WIDTH
      invariant forall j :: 0 <= j < i ==> a[WIDTH - 1 - j] == ByteAt(value, j)
    {
      a[WIDTH - 1 - i] := ByteAt(value, i);
    }
    bytes := a[..];
    forall k | 0 <= k < WIDTH
      ensures bytes[k] == BigEndian(value, WIDTH)[k]
    {
      BigEndianAt(value, WIDTH, WIDTH - 1 - k);
    }
  }

  /** `uint8ArrayToBigInt`: anything but 8 bytes is refused; otherwise the
      bytes are read most significant first, each `(value << 8) | byte`
      being `value * 256 + byte` because the shift leaves the low byte
      clear. */
  method BytesToBigInt(byteArray: seq<byte>) returns (r: Result<nat, BnError>)
    ensures r.Ok? <==> |byteArray| == WIDTH
    ensures r.Err? ==> r.error == WrongLength
    ensures r.Ok? ==> r.value == BigEndianValue(byteArray) && r.value < TWO_64
  {
    if |byteArray| != WIDTH {
      return Err(WrongLength);
    }
    var value: nat := 0;
    for i := 0 to WIDTH
      invariant value == BigEndianValue(byteArray[..i])
    {
      assert byteArray[..i + 1][..i] == byteArray[..i];
      value := value * 256 + byteArray[i] as int;
    }
    assert byteArray[..WIDTH] == byteArray;
    Pow256Of8();
    r := Ok(value);
  }

  lemma Pow256Of8()
    ensures Pow256(WIDTH) == TWO_64
  {
  }

  /** Byte n - 1 - i of the encoding is the i-th byte from the low end. */
  lemma {:induction false} BigEndianAt(v: int, n: nat, i: nat)
    requires i < n
    ensures BigEndian(v, n)[n - 1 - i] == ByteAt(v, i)
    decreases n
  {
    var s := BigEndian(v / 256, n - 1);
    assert BigEndian(v, n) == s + [v % 256];
    if i == 0 {
      assert Pow256(0) == 1;
    } else {
      assert BigEndian(v, n)[n - 1 - i] == s[(n - 1) - 1 - (i - 1)];
      BigEndianAt(v / 256, n - 1, i - 1);
      DivDiv(v, i - 1);
    }
  }

  /** Shifting by one byte and then by i more is shifting by i + 1. */
  lemma DivDiv(v: int, i: nat)
    ensures (v / 256) / Pow256(i) == v / Pow256(i + 1)
  {
    var p := Pow256(i);
    var q, r0 := v / 256, v % 256;
    var q2, r1 := q / p, q % p;
    assert v == (256 * p) * q2 + (256 * r1 + r0);
    assert 0 <= 256 * r1 + r0 < 256 * p;
    DivModUnique(v, 256 * p, q2, 256 * r1 + r0);
  }

  /** Division with a positive divisor has one quotient and one remainder. */
  lemma DivModUnique(v: int, d: nat, q: int, r: int)
    requires 0 < d && v == d * q + r && 0 <= r < d
    ensures v / d == q && v % d == r
  {
    var q', r' := v / d, v % d;
    assert v == d * q' + r';
    assert d * q == d * q' + d * (q - q');
    if q > q' {
      MulAtLeast(d, q - q');
    } else if q < q' {
      MulAtLeast(d, q' - q);
    }
  }

  lemma MulAtLeast(d: nat, k: int)
    requires k >= 1
    ensures d * k >= d
  {
    assert d * k == d + d * (k - 1);
  }

  /** Decoding an encoding keeps the value modulo 256^n: the low n bytes. */
  lemma {:induction false} DecodeEncode(v: int, n: nat)
    ensures BigEndianValue(BigEndian(v, n)) == v % Pow256(n)
    decreases n
  {
    if n > 0 {
      var s := BigEndian(v, n);
      assert s[..n - 1] == BigEndian(v / 256, n - 1);
      DecodeEncode(v / 256, n - 1);
      var p := Pow256(n - 1);
      var q, r0 := v / 256, v % 256;
      var q2, r1 := q / p, q % p;
      assert v == (256 * p) * q2 + (256 * r1 + r0);
      assert 0 <= 256 * r1 + r0 < 256 * p;
      DivModUnique(v, 256 * p, q2, 256 * r1 + r0);
    }
  }

  /** Encoding the value of a byte string gives back the byte string. */
  lemma {:induction false} EncodeDecode(s: seq<byte>)
    ensures BigEndian(BigEndianValue(s), |s|) == s
    decreases |s|
  {
    if s != [] {
      var init := s[..|s| - 1];
      var v := BigEndianValue(s);
      DivModUnique(v, 256, BigEndianValue(init), Last(s));
      EncodeDecode(init);
      assert s == init + [Last(s)];
    }
  }

  /** An 8-byte encoding reads back as the value itself when it fits in
      64 unsigned bits, and as v + 2^64 (the 64-bit two's complement of a
      negative value) when v lies in [-2^64, 0). */
  lemma SizeRoundTrip(v: int)
    ensures 0 <= v < TWO_64 ==> BigEndianValue(BigEndian(v, WIDTH)) == v
    ensures -(TWO_64 as int) <= v < 0 ==> BigEndianValue(BigEndian(v, WIDTH)) == v + TWO_64
  {
    DecodeEncode(v, WIDTH);
    Pow256Of8();
    if 0 <= v < TWO_64 {
      DivModUnique(v, TWO_64, 0, v);
    } else if -(TWO_64 as int) <= v < 0 {
      DivModUnique(v, TWO_64, -1, v + TWO_64);
    }
  }

  /** Only the low 64 bits of a value reach its encoding. */
  lemma EncodeLow64(v: int)
    ensures BigEndian(v, WIDTH) == BigEndian(v % TWO_64, WIDTH)
  {
    var w := v % TWO_64;
    Pow256Of8();
    DecodeEncode(v, WIDTH);
    DecodeEncode(w, WIDTH);
    DivModUnique(w, TWO_64, 0, w);
    EncodeDecode(BigEndian(v, WIDTH));
    EncodeDecode(BigEndian(w, WIDTH));
  }

  /** Two values with the same low 64 bits have the same encoding, and
      only those. */
  lemma SameEncoding(v: int, w: int)
    ensures BigEndian(v, WIDTH) == BigEndian(w, WIDTH) <==> v % TWO_64 == w % TWO_64
  {
    DecodeEncode(v, WIDTH);
    DecodeEncode(w, WIDTH);
    Pow256Of8();
    if v % TWO_64 == w % TWO_64 {
      EncodeDecode(BigEndian(v, WIDTH));
      EncodeDecode(BigEndian(w, WIDTH));
    }
  }
}
