/**
 * Byte strings and the integer views Python takes of them:
 * `int(binascii.hexlify(b), 16)` (a big-endian unsigned integer),
 * `binascii.hexlify(b)` (lower-case hex), and `bin(n)[2:]` (binary digits
 * without leading zeros), together with the bit string of a byte string.
 */
module Bytes {
  import opened Wrappers

  type byte = x: int | 0 <= x < 256

  function Pow2(k: nat): (r: nat)
    ensures r >= 1
  {
    if k == 0 then 1 else 2 * Pow2(k - 1)
  }

  function Pow256(k: nat): (r: nat)
    ensures r >= 1
  {
    if k == 0 then 1 else 256 * Pow256(k - 1)
  }

  // ---------------------------------------------------------------------
  // Big-endian integers

  /** The unsigned big-endian integer a byte string denotes. */
  function BigEndian(b: seq<byte>): nat {
    if b == [] then 0 else 256 * BigEndian(b[..|b| - 1]) + b[|b| - 1]
  }

  lemma {:induction false} BigEndianBound(b: seq<byte>)
    ensures BigEndian(b) < Pow256(|b|)
  {
    if b != [] {
      BigEndianBound(b[..|b| - 1]);
    }
  }

  /** The shortest big-endian byte string of `n` (empty for zero). */
  function MinimalBytes(n: nat): (b: seq<byte>)
    ensures BigEndian(b) == n
    ensures b == [] <==> n == 0
    ensures b != [] ==> b[0] != 0
  {
    if n == 0 then []
    else
      var b := MinimalBytes(n / 256) + [n % 256];
      assert b[..|b| - 1] == MinimalBytes(n / 256);
      b
  }

  /** A byte string whose first byte is non-zero is the minimal string of its value. */
  lemma {:induction false} MinimalBytesOfBigEndian(b: seq<byte>)
    requires b != [] ==> b[0] != 0
    ensures MinimalBytes(BigEndian(b)) == b
  {
    if b != [] {
      var init := b[..|b| - 1];
      if init != [] {
        BigEndianBound(init[1..]);
        BigEndianLeading(init);
        MinimalBytesOfBigEndian(init);
      }
      assert BigEndian(b) / 256 == BigEndian(init);
      assert BigEndian(b) % 256 == b[|b| - 1];
      assert init + [b[|b| - 1]] == b;
    }
  }

  /** A leading non-zero byte makes the value positive. */
  lemma {:induction false} BigEndianLeading(b: seq<byte>)
    requires b != [] && b[0] != 0
    ensures BigEndian(b) > 0
  {
    if |b| > 1 {
      assert b[..|b| - 1][0] == b[0];
      BigEndianLeading(b[..|b| - 1]);
    }
  }

  /** The `k` low bytes of `n`, big-endian (`struct.pack('>I', n)` for k = 4). */
  function FixedBytes(n: nat, k: nat): (b: seq<byte>)
    ensures |b| == k
  {
    if k == 0 then [] else FixedBytes(n / 256, k - 1) + [n % 256]
  }

  lemma {:induction false} BigEndianOfFixedBytes(n: nat, k: nat)
    requires n < Pow256(k)
    ensures BigEndian(FixedBytes(n, k)) == n
  {
    if k > 0 {
      var b := FixedBytes(n, k);
      assert b[..k - 1] == FixedBytes(n / 256, k - 1);
      BigEndianOfFixedBytes(n / 256, k - 1);
    }
  }

  lemma {:induction false} FixedBytesOfBigEndian(b: seq<byte>)
    ensures FixedBytes(BigEndian(b), |b|) == b
  {
    if b != [] {
      var init := b[..|b| - 1];
      FixedBytesOfBigEndian(init);
      assert BigEndian(b) / 256 == BigEndian(init);
      assert init + [b[|b| - 1]] == b;
    }
  }

  // ---------------------------------------------------------------------
  // hexlify and int(_, 16)

  function HexDigit(d: nat): (c: char)
    requires d < 16
  {
    if d < 10 then ('0' as int + d) as char else ('a' as int + d - 10) as char
  }

  function HexValue(c: char): Option<nat> {
    if '0' <= c <= '9' then Some(c as int - '0' as int)
    else if 'a' <= c <= 'f' then Some(c as int - 'a' as int + 10)
    else if 'A' <= c <= 'F' then Some(c as int - 'A' as int + 10)
    else None
  }

  /** `binascii.hexlify(b)`: two lower-case hex digits per byte, high nibble first. */
  function Hexlify(b: seq<byte>): (h: string)
    ensures |h| == 2 * |b|
    ensures forall i :: 0 <= i < |h| ==> HexValue(h[i]).Some? && !('A' <= h[i] <= 'Z')
  {
    if b == [] then ""
    else Hexlify(b[..|b| - 1]) + [HexDigit(b[|b| - 1] / 16), HexDigit(b[|b| - 1] % 16)]
  }

  function HexDigits(h: string): Option<nat> {
    if h == [] then Some(0)
    else
      match (HexDigits(h[..|h| - 1]), HexValue(h[|h| - 1]))
      case (Some(v), Some(d)) => Some(16 * v + d)
      case _ => None
  }

  /** `int(h, 16)` on strings of hex digits: the empty string raises `ValueError`. */
  function IntFromHex(h: string): Option<nat> {
    if h == [] then None else HexDigits(h)
  }

  /** `int(hexlify(b), 16)` is the big-endian value of `b`, and fails exactly for
      the empty string. */
  lemma IntFromHexlify(b: seq<byte>)
    ensures IntFromHex(Hexlify(b)) == if b == [] then None else Some(BigEndian(b))
  {
    if b != [] {
      HexDigitsOfHexlify(b);
    }
  }

  lemma {:induction false} HexDigitsOfHexlify(b: seq<byte>)
    ensures HexDigits(Hexlify(b)) == Some(BigEndian(b))
  {
    if b != [] {
      var init := b[..|b| - 1];
      var x := b[|b| - 1];
      var h := Hexlify(b);
      HexDigitsOfHexlify(init);
      assert h[..|h| - 1] == Hexlify(init) + [HexDigit(x / 16)];
      assert h[..|h| - 1][..|h| - 2] == Hexlify(init);
      assert HexValue(HexDigit(x / 16)) == Some(x / 16);
      assert HexValue(HexDigit(x % 16)) == Some(x % 16);
    }
  }

  // ---------------------------------------------------------------------
  // Bits

  function BitsToNat(bits: seq<bool>): nat {
    if bits == [] then 0 else 2 * BitsToNat(bits[..|bits| - 1]) + (if bits[|bits| - 1] then 1 else 0)
  }

  /** The `k` low bits of `c`, most significant first. */
  function NatBits(c: nat, k: nat): (bits: seq<bool>)
    ensures |bits| == k
  {
    if k == 0 then [] else NatBits(c / 2, k - 1) + [c % 2 == 1]
  }

  /** The bits of a byte string, eight per byte, most significant first. */
  function BitsOf(b: seq<byte>): (bits: seq<bool>)
    ensures |bits| == 8 * |b|
  {
    if b == [] then [] else BitsOf(b[..|b| - 1]) + NatBits(b[|b| - 1], 8)
  }

  /** `bin(n)[2:]` as bits: no leading zero, except for zero itself. */
  function Binary(n: nat): (bits: seq<bool>)
    ensures |bits| >= 1
    ensures n > 0 ==> bits[0]
  {
    if n <= 1 then [n == 1] else Binary(n / 2) + [n % 2 == 1]
  }

  lemma {:induction false} BitsToNatAppend(p: seq<bool>, q: seq<bool>)
    ensures BitsToNat(p + q) == BitsToNat(p) * Pow2(|q|) + BitsToNat(q)
  {
    if q != [] {
      var q' := q[..|q| - 1];
      var bit := if q[|q| - 1] then 1 else 0;
      assert (p + q)[..|p + q| - 1] == p + q';
      assert (p + q)[|p + q| - 1] == q[|q| - 1];
      assert BitsToNat(p + q) == 2 * BitsToNat(p + q') + bit;
      assert BitsToNat(q) == 2 * BitsToNat(q') + bit;
      BitsToNatAppend(p, q');
      ShiftOne(BitsToNat(p), Pow2(|q'|), BitsToNat(q'), bit);
    } else {
      assert p + q == p;
    }
  }

  lemma ShiftOne(a: nat, m: nat, x: nat, bit: nat)
    ensures 2 * (a * m + x) + bit == a * (2 * m) + (2 * x + bit)
  {
  }

  lemma {:induction false} BitsToNatOfNatBits(c: nat, k: nat)
    requires c < Pow2(k)
    ensures BitsToNat(NatBits(c, k)) == c
  {
    if k > 0 {
      BitsToNatOfNatBits(c / 2, k - 1);
      assert NatBits(c, k)[..k - 1] == NatBits(c / 2, k - 1);
    }
  }

  lemma Pow2Of8()
    ensures Pow2(8) == 256
  {
    assert Pow2(4) == 16;
  }

  /** The bit string of a byte string denotes the same integer. */
  lemma {:induction false} BitsToNatOfBitsOf(b: seq<byte>)
    ensures BitsToNat(BitsOf(b)) == BigEndian(b)
  {
    if b != [] {
      var init := b[..|b| - 1];
      var x := b[|b| - 1];
      BitsToNatOfBitsOf(init);
      BitsToNatAppend(BitsOf(init), NatBits(x, 8));
      Pow2Of8();
      BitsToNatOfNatBits(x, 8);
      calc {
        BitsToNat(BitsOf(b));
        BitsToNat(BitsOf(init) + NatBits(x, 8));
        BitsToNat(BitsOf(init)) * 256 + x;
        BigEndian(init) * 256 + x;
      }
    }
  }

  /** The first eight bits of a byte string are those of its first byte. */
  lemma {:induction false} BitsOfPrefix(b: seq<byte>)
    requires b != []
    ensures BitsOf(b)[..8] == NatBits(b[0], 8)
  {
    if |b| > 1 {
      var init := b[..|b| - 1];
      assert init[0] == b[0];
      BitsOfPrefix(init);
      assert BitsOf(b)[..8] == BitsOf(init)[..8];
    } else {
      assert b[..0] == [];
      assert BitsOf(b) == [] + NatBits(b[0], 8);
    }
  }

  lemma {:induction false} BitsToNatLeadingOne(bits: seq<bool>)
    requires bits != [] && bits[0]
    ensures BitsToNat(bits) >= 1
  {
    if |bits| > 1 {
      assert bits[..|bits| - 1][0];
      BitsToNatLeadingOne(bits[..|bits| - 1]);
    }
  }

  /** `bin` gives back a bit string that starts with a one. */
  lemma {:induction false} BinaryOfBitsToNat(bits: seq<bool>)
    requires bits != [] && bits[0]
    ensures Binary(BitsToNat(bits)) == bits
  {
    if |bits| == 1 {
      assert bits == [true];
    } else {
      var init := bits[..|bits| - 1];
      assert init[0];
      BitsToNatLeadingOne(init);
      BinaryOfBitsToNat(init);
      var n := BitsToNat(bits);
      assert n / 2 == BitsToNat(init);
      assert init + [bits[|bits| - 1]] == bits;
    }
  }

  /** Leading zero bits do not change the value. */
  lemma LeadingZeros(z: seq<bool>, bits: seq<bool>)
    requires forall i :: 0 <= i < |z| ==> !z[i]
    ensures BitsToNat(z + bits) == BitsToNat(bits)
  {
    BitsToNatZeros(z);
    BitsToNatAppend(z, bits);
  }

  lemma {:induction false} BitsToNatZeros(z: seq<bool>)
    requires forall i :: 0 <= i < |z| ==> !z[i]
    ensures BitsToNat(z) == 0
  {
    if z != [] {
      BitsToNatZeros(z[..|z| - 1]);
    }
  }
}
