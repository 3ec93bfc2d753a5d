/** Node `Buffer` byte-level behaviour: little-endian 32-bit integers and hex text. */
module Bytes {
  import opened Wrappers

  newtype byte = x: int | 0 <= x < 256
  type Bytes = seq<byte>

  /** One more than the largest value `writeUInt32LE` accepts. */
  const U32Limit: nat := 0x1_0000_0000

  /** The four bytes `buf.writeUInt32LE(n, at)` stores. */
  function LE32(n: nat): (r: Bytes)
    requires n < U32Limit
    ensures |r| == 4
  {
    [(n % 256) as byte, (n / 256 % 256) as byte, (n / 65536 % 256) as byte, (n / 16777216) as byte]
  }

  /** `buf.readUInt32LE(at)`; Node throws a RangeError when fewer than four bytes remain. */
  function ReadU32LE(b: Bytes, at: nat): (r: nat)
    requires at + 4 <= |b|
    ensures r < U32Limit
  {
    b[at] as int + 256 * b[at + 1] as int + 65536 * b[at + 2] as int + 16777216 * b[at + 3] as int
  }

  /** Reading back what `writeUInt32LE` wrote gives the number written. */
  lemma LE32RoundTrip(n: nat)
    requires n < U32Limit
    ensures ReadU32LE(LE32(n), 0) == n
  {
    var a := n / 256;
    var b := a / 256;
    var c := b / 256;
    assert n == 256 * a + n % 256;
    assert a == 256 * b + a % 256;
    assert b == 256 * c + b % 256;
    assert c < 256;
    assert n / 65536 == b;
    assert n / 16777216 == c;
    calc {
      ReadU32LE(LE32(n), 0);
      n % 256 + 256 * (a % 256) + 65536 * (b % 256) + 16777216 * c;
      n % 256 + 256 * (a % 256) + 65536 * (b % 256 + 256 * c);
      n % 256 + 256 * (a % 256 + 256 * b);
      n;
    }
  }

  /** Writing the number read from four bytes reproduces those bytes. */
  lemma LE32OfRead(b: Bytes, at: nat)
    requires at + 4 <= |b|
    ensures LE32(ReadU32LE(b, at)) == b[at..at + 4]
  {
    var n := ReadU32LE(b, at);
    var b0, b1, b2, b3 := b[at] as int, b[at + 1] as int, b[at + 2] as int, b[at + 3] as int;
    var h1, h2 := b1 + 256 * (b2 + 256 * b3), b2 + 256 * b3;
    DivModUnique(n, 256, h1, b0);
    DivModUnique(h1, 256, h2, b1);
    DivModUnique(n, 65536, h2, b0 + 256 * b1);
    DivModUnique(h2, 256, b3, b2);
    DivModUnique(n, 16777216, b3, b0 + 256 * b1 + 65536 * b2);
  }

  /** Division by 256, 65536 or 16777216 is determined by quotient and remainder. */
  lemma DivModUnique(x: int, d: int, q: int, r: int)
    requires d == 256 || d == 65536 || d == 16777216
    requires 0 <= r < d && x == q * d + r
    ensures x / d == q && x % d == r
  {
    if d == 256 {
      assert x == q * 256 + r;
    } else if d == 65536 {
      assert x == q * 65536 + r;
    } else {
      assert x == q * 16777216 + r;
    }
  }

  // ---------------------------------------------------------------------------
  // Hex text (`buf.toString('hex')` and `Buffer.from(s, 'hex')`)
  // ---------------------------------------------------------------------------

  function HexDigit(v: nat): char
    requires v < 16
  {
    "0123456789abcdef"[v]
  }

  /** The value of one hex digit, upper or lower case. */
  function HexValue(c: char): (r: Option<nat>)
    ensures r.Some? ==> r.value < 16
  {
    if '0' <= c <= '9' then Some(c as int - '0' as int)
    else if 'a' <= c <= 'f' then Some(c as int - 'a' as int + 10)
    else if 'A' <= c <= 'F' then Some(c as int - 'A' as int + 10)
    else None
  }

  lemma HexValueOfDigit(v: nat)
    requires v < 16
    ensures HexValue(HexDigit(v)) == Some(v)
  {
  }

  /** `buf.toString('hex')`: two lower-case digits per byte, high nibble first. */
  function HexEncode(b: Bytes): (s: string)
    ensures |s| == 2 * |b|
  {
    if b == [] then ""
    else [HexDigit(b[0] as int / 16), HexDigit(b[0] as int % 16)] + HexEncode(b[1..])
  }

  /**
   * `Buffer.from(s, 'hex')`: decodes digit pairs from the start and stops at the
   * first pair that is not two hex digits; an odd last digit is ignored.
   */
  function HexDecode(s: string): (b: Bytes)
    ensures |b| <= |s| / 2
  {
    if |s| < 2 then []
    else
      match (HexValue(s[0]), HexValue(s[1]))
      case (Some(h), Some(l)) => [(16 * h + l) as byte] + HexDecode(s[2..])
      case _ => []
  }

  /** A signature stored as hex in the manifest decodes to the bytes that were encoded. */
  lemma {:induction false} HexRoundTrip(b: Bytes)
    ensures HexDecode(HexEncode(b)) == b
  {
    if b != [] {
      var s := HexEncode(b);
      var h, l := b[0] as int / 16, b[0] as int % 16;
      HexValueOfDigit(h);
      HexValueOfDigit(l);
      assert s[0] == HexDigit(h) && s[1] == HexDigit(l);
      assert s[2..] == HexEncode(b[1..]);
      HexRoundTrip(b[1..]);
      assert (16 * h + l) as byte == b[0];
    }
  }
}
