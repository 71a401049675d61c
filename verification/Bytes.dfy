/** Octets as numbers, and the exclusive-or that the ciphers use on them. */
module Bytes {
  type byte = x: int | 0 <= x < 256

  function Min(a: int, b: int): int {
    if a < b then a else b
  }

  function Pow2(k: nat): nat {
    if k == 0 then 1 else 2 * Pow2(k - 1)
  }

  /** Bitwise exclusive or of numbers below 2^width, lowest bit last. */
  function XorBits(width: nat, a: nat, b: nat): (r: nat)
    requires a < Pow2(width) && b < Pow2(width)
    ensures r < Pow2(width)
  {
    if width == 0 then 0 else 2 * XorBits(width - 1, a / 2, b / 2) + if a % 2 == b % 2 then 0 else 1
  }

  lemma {:induction false} XorBitsCancel(width: nat, a: nat, b: nat)
    requires a < Pow2(width) && b < Pow2(width)
    ensures XorBits(width, XorBits(width, a, b), b) == a
  {
    if width > 0 {
      var r := XorBits(width - 1, a / 2, b / 2);
      XorBitsCancel(width - 1, a / 2, b / 2);
      var x := XorBits(width, a, b);
      assert x / 2 == r && (x % 2 == 0 <==> a % 2 == b % 2);
    }
  }

  function Xor(a: byte, b: byte): byte {
    assert Pow2(8) == 256;
    XorBits(8, a, b)
  }

  /** Combining twice with the same octet gives the first one back. */
  lemma XorCancel(a: byte, b: byte)
    ensures Xor(Xor(a, b), b) == a
  {
    assert Pow2(8) == 256;
    XorBitsCancel(8, a, b);
  }

  /** Bit `i` of a number, the lowest being bit 0. */
  function Bit(n: nat, i: nat): nat {
    if i == 0 then n % 2 else Bit(n / 2, i - 1)
  }

  /** Each bit of the combination is set exactly if the bits combined differ. */
  lemma {:induction false} XorBit(width: nat, a: nat, b: nat, i: nat)
    requires a < Pow2(width) && b < Pow2(width) && i < width
    ensures Bit(XorBits(width, a, b), i) == if Bit(a, i) == Bit(b, i) then 0 else 1
  {
    var r := XorBits(width - 1, a / 2, b / 2);
    assert XorBits(width, a, b) / 2 == r;
    if i > 0 {
      XorBit(width - 1, a / 2, b / 2, i - 1);
    }
  }
}
