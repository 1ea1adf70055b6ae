/**
  Bytes and bit strings.

  A byte is a value 0..255 (the compressor treats every `char` of the input
  as an unsigned byte).  A bit string is a `seq<bool>`, where `true` stands
  for the character '1' of the C++ `std::string` of '0'/'1' characters and
  `false` for '0'.  The conversions here model `std::bitset<8>`: building it
  from an 8-character string reads the first character as the most
  significant bit, and `to_string` writes the most significant bit first.
 */
module Bits {

  type Byte = x: int | 0 <= x < 256

  function Pow2(n: nat): (r: nat)
    ensures r >= 1
  {
    if n == 0 then 1 else 2 * Pow2(n - 1)
  }

  function BitValue(b: bool): nat {
    if b then 1 else 0
  }

  /** The number a bit string spells out, most significant bit first. */
  function BitsToNat(bits: seq<bool>): (r: nat)
    ensures r < Pow2(|bits|)
    decreases |bits|
  {
    if |bits| == 0 then 0
    else 2 * BitsToNat(bits[..|bits| - 1]) + BitValue(bits[|bits| - 1])
  }

  /** The low `n` bits of `x`, most significant bit first. */
  function NatToBits(x: nat, n: nat): (r: seq<bool>)
    ensures |r| == n
  {
    if n == 0 then [] else NatToBits(x / 2, n - 1) + [x % 2 == 1]
  }

  lemma {:induction false} NatToBitsInverse(x: nat, n: nat)
    requires x < Pow2(n)
    ensures BitsToNat(NatToBits(x, n)) == x
  {
    if n > 0 {
      var r := NatToBits(x, n);
      assert r[..n - 1] == NatToBits(x / 2, n - 1);
      NatToBitsInverse(x / 2, n - 1);
    }
  }

  lemma {:induction false} BitsToNatInverse(bits: seq<bool>)
    ensures NatToBits(BitsToNat(bits), |bits|) == bits
    decreases |bits|
  {
    var n := |bits|;
    if n > 0 {
      var w := BitsToNat(bits[..n - 1]);
      var v := BitsToNat(bits);
      assert v / 2 == w && (v % 2 == 1) == bits[n - 1];
      BitsToNatInverse(bits[..n - 1]);
      assert bits == bits[..n - 1] + [bits[n - 1]];
    }
  }

  /** `a` is an initial segment of `b`. */
  predicate IsPrefix(a: seq<bool>, b: seq<bool>) {
    |a| <= |b| && b[..|a|] == a
  }

  /** `std::bitset<8>(byte).to_string()`: the eight bits of a byte, MSB first. */
  function ByteToBits(x: Byte): (r: seq<bool>)
    ensures |r| == 8
    ensures BitsToNat(r) == x
  {
    NatToBitsInverse(x, 8);
    NatToBits(x, 8)
  }

  /** `std::bitset<8>(string).to_ulong()`: the byte an 8-bit string spells. */
  function BitsToByte(bits: seq<bool>): (r: Byte)
    requires |bits| == 8
    ensures ByteToBits(r) == bits
  {
    BitsToNatInverse(bits);
    BitsToNat(bits)
  }
}
