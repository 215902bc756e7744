/**
 * Fixed-width unsigned integers and their little-endian byte encodings, as
 * used by the packed on-disk structures of a GUID Partition Table.
 */
module Bytes {

  type byte = x: int | 0 <= x < 0x100
  type u16 = x: int | 0 <= x < 0x1_0000
  type u32 = x: int | 0 <= x < 0x1_0000_0000
  type u64 = x: int | 0 <= x < 0x1_0000_0000_0000_0000

  /** 256 to the power n: the number of values that fit in n bytes. */
  function Pow256(n: nat): (r: nat)
    ensures r >= 1
  {
    if n == 0 then 1 else 256 * Pow256(n - 1)
  }

  /** n zero bytes. */
  function Zeros(n: nat): (r: seq<byte>)
    ensures |r| == n
    ensures forall i :: 0 <= i < n ==> r[i] == 0
  {
    seq(n, _ => 0)
  }

  /** The n-byte little-endian encoding of x: least significant byte first. */
  function LittleEndian(x: nat, n: nat): (r: seq<byte>)
    requires x < Pow256(n)
    ensures |r| == n
  {
    if n == 0 then [] else [x % 256] + LittleEndian(x / 256, n - 1)
  }

  /** The value of a little-endian byte string. */
  function FromLittleEndian(s: seq<byte>): (r: nat)
    ensures r < Pow256(|s|)
  {
    if s == [] then 0 else s[0] + 256 * FromLittleEndian(s[1..])
  }

  function Le16(x: u16): (r: seq<byte>)
    ensures |r| == 2
  {
    LittleEndian(x, 2)
  }

  function Le32(x: u32): (r: seq<byte>)
    ensures |r| == 4
  {
    LittleEndian(x, 4)
  }

  function Le64(x: u64): (r: seq<byte>)
    ensures |r| == 8
  {
    LittleEndian(x, 8)
  }

  function Dec16(s: seq<byte>): (r: u16)
    requires |s| == 2
  {
    FromLittleEndian(s)
  }

  function Dec32(s: seq<byte>): (r: u32)
    requires |s| == 4
  {
    FromLittleEndian(s)
  }

  function Dec64(s: seq<byte>): (r: u64)
    requires |s| == 8
  {
    FromLittleEndian(s)
  }

  /** Decoding an encoding gives the value back: no precision is lost. */
  lemma {:induction false} DecodeEncode(x: nat, n: nat)
    requires x < Pow256(n)
    ensures FromLittleEndian(LittleEndian(x, n)) == x
  {
    if n > 0 {
      DecodeEncode(x / 256, n - 1);
      assert LittleEndian(x, n)[1..] == LittleEndian(x / 256, n - 1);
    }
  }

  /** Encoding a decoded byte string gives the bytes back: no byte is reordered. */
  lemma {:induction false} EncodeDecode(s: seq<byte>)
    ensures LittleEndian(FromLittleEndian(s), |s|) == s
  {
    if s != [] {
      var x := FromLittleEndian(s);
      assert x % 256 == s[0] && x / 256 == FromLittleEndian(s[1..]);
      EncodeDecode(s[1..]);
    }
  }

  /** Byte k of an encoding is digit k of x in base 256. */
  lemma {:induction false} LittleEndianDigit(x: nat, n: nat, k: nat)
    requires x < Pow256(n) && k < n
    ensures LittleEndian(x, n)[k] == (x / Pow256(k)) % 256
  {
    if k > 0 {
      LittleEndianDigit(x / 256, n - 1, k - 1);
      assert x / 256 / Pow256(k - 1) == x / Pow256(k) by {
        DivDiv(x, 256, Pow256(k - 1));
      }
    }
  }

  lemma DivDiv(x: nat, a: nat, b: nat)
    requires a > 0 && b > 0
    ensures x / a / b == x / (a * b)
  {
    var y := x / a;
    var q := y / b;
    DivBounds(x, a);
    DivBounds(y, b);
    MulMono(q * b, y, a);
    MulMono(y + 1, (q + 1) * b, a);
    MulRegroup(q, b, a);
    MulRegroup(q + 1, b, a);
    DivUnique(x, a * b, q);
  }

  lemma MulRegroup(x: nat, y: nat, z: nat)
    ensures x * y * z == x * (z * y)
  {
  }

  lemma DivBounds(x: nat, d: nat)
    requires d > 0
    ensures (x / d) * d <= x < (x / d + 1) * d
  {
    assert x == (x / d) * d + x % d;
    assert (x / d + 1) * d == (x / d) * d + d;
  }

  lemma MulMono(x: nat, y: nat, a: nat)
    requires x <= y
    ensures x * a <= y * a
  {
    assert y * a == x * a + (y - x) * a;
  }

  lemma DivUnique(x: nat, d: nat, q: nat)
    requires d > 0 && q * d <= x < (q + 1) * d
    ensures x / d == q
  {
    var r := x / d;
    assert r * d <= x < (r + 1) * d;
    if r < q {
      MulMono(r + 1, q, d);
    } else if r > q {
      MulMono(q + 1, r, d);
    }
  }

  /** The encoding of zero is all zero bytes. */
  lemma {:induction false} LittleEndianZero(n: nat)
    ensures LittleEndian(0, n) == Zeros(n)
  {
    if n > 0 {
      LittleEndianZero(n - 1);
    }
  }
}
