/** Bytes, the little-endian integers that the on-disk structures are made of, and a little arithmetic. */
module Words {

  type byte = bv8

  const TWO16: nat := 0x1_0000
  const TWO32: nat := 0x1_0000_0000

  /** The n-byte block of zeroes. */
  function Zeros(n: nat): (z: seq<byte>)
    ensures |z| == n
    ensures forall i :: 0 <= i < n ==> z[i] == 0
  {
    seq(n, _ => 0)
  }

  function Min(a: int, b: int): int { if a < b then a else b }

  function Max(a: int, b: int): int { if a < b then b else a }

  lemma MulBelow(a: int, b: int, d: nat)
    requires a < b
    ensures a * d + d <= b * d
  {
    assert (b - a - 1) * d >= 0;
  }

  /** The byte with value n, put together from its two hexadecimal digits. */
  function ToByte(n: nat): byte
    requires n < 256
  {
    FromNibbles((n / 16) as bv4, (n % 16) as bv4)
  }

  function FromNibbles(high: bv4, low: bv4): byte {
    ((high as bv8) << 4) | (low as bv8)
  }

  lemma NibbleInverse(n: nat)
    requires n < 16
    ensures (n as bv4) as int == n
  {
  }

  lemma NibblesValue(high: bv4, low: bv4)
    ensures FromNibbles(high, low) as int == 16 * (high as int) + low as int
  {
  }

  lemma ToByteInverse(n: nat)
    requires n < 256
    ensures ToByte(n) as int == n
  {
    NibbleInverse(n / 16);
    NibbleInverse(n % 16);
    NibblesValue((n / 16) as bv4, (n % 16) as bv4);
  }

  /** Little-endian encoding of the low 16 bits. */
  function PutU16(n: nat): (s: seq<byte>)
    requires n < TWO16
    ensures |s| == 2
  {
    [ToByte(n % 256), ToByte(n / 256)]
  }

  function GetU16(s: seq<byte>, off: nat): (n: nat)
    requires off + 2 <= |s|
    ensures n < TWO16
  {
    s[off] as int + 256 * (s[off + 1] as int)
  }

  function PutU32(n: nat): (s: seq<byte>)
    requires n < TWO32
    ensures |s| == 4
  {
    PutU16(n % TWO16) + PutU16(n / TWO16)
  }

  function GetU32(s: seq<byte>, off: nat): (n: nat)
    requires off + 4 <= |s|
    ensures n < TWO32
  {
    GetU16(s, off) + TWO16 * GetU16(s, off + 2)
  }

  lemma U16RoundTrip(n: nat)
    requires n < TWO16
    ensures GetU16(PutU16(n), 0) == n
  {
    ToByteInverse(n % 256);
    ToByteInverse(n / 256);
  }

  lemma U32RoundTrip(n: nat)
    requires n < TWO32
    ensures GetU32(PutU32(n), 0) == n
  {
    U16RoundTrip(n % TWO16);
    U16RoundTrip(n / TWO16);
    assert PutU32(n)[..2] == PutU16(n % TWO16);
    assert PutU32(n)[2..] == PutU16(n / TWO16);
  }

  /** A read depends on the bytes read and on nothing else. */
  lemma U32At(s: seq<byte>, off: nat, n: nat)
    requires off + 4 <= |s| && n < TWO32
    requires s[off..off + 4] == PutU32(n)
    ensures GetU32(s, off) == n
  {
    U32RoundTrip(n);
    assert s[off] == s[off..off + 4][0] && s[off + 1] == s[off..off + 4][1];
    assert s[off + 2] == s[off..off + 4][2] && s[off + 3] == s[off..off + 4][3];
  }

  lemma U16At(s: seq<byte>, off: nat, n: nat)
    requires off + 2 <= |s| && n < TWO16
    requires s[off..off + 2] == PutU16(n)
    ensures GetU16(s, off) == n
  {
    U16RoundTrip(n);
    assert s[off] == s[off..off + 2][0] && s[off + 1] == s[off..off + 2][1];
  }

  /** Overwrite the bytes from off on with patch. */
  function Splice(s: seq<byte>, off: nat, patch: seq<byte>): (r: seq<byte>)
    requires off + |patch| <= |s|
    ensures |r| == |s|
    ensures forall i :: 0 <= i < |s| ==> r[i] == if off <= i < off + |patch| then patch[i - off] else s[i]
  {
    s[..off] + patch + s[off + |patch|..]
  }

  lemma ZeroReads(s: seq<byte>, off: nat)
    requires forall i :: 0 <= i < |s| ==> s[i] == 0
    ensures off + 4 <= |s| ==> GetU32(s, off) == 0
    ensures off + 2 <= |s| ==> GetU16(s, off) == 0
  {
  }
}
