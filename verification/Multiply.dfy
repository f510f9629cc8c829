/** `mul64_32x32` of common/utility.h: a 64-bit product from 32-bit words. */
module Multiply {
  const TWO16: nat := 0x1_0000
  const TWO32: nat := 0x1_0000_0000

  type Half = h: int | 0 <= h < 0x1_0000
  type Word = w: int | 0 <= w < 0x1_0000_0000

  /** An unsigned 32-bit sum or product as the hardware computes it. */
  function Wrap(n: nat): Word { n % TWO32 }

  lemma NoWrap(n: nat)
    requires n < TWO32
    ensures Wrap(n) == n
  {
  }

  lemma ProductBound(a: nat, b: nat, m: nat, n: nat)
    requires a <= m && b <= n
    ensures 0 <= a * b <= m * n
  {
    assert a * b <= a * n <= m * n;
  }

  lemma HalfProduct(a: Half, b: Half)
    ensures 0 <= a * b <= 0xFFFE_0001
  {
    ProductBound(a, b, 0xFFFF, 0xFFFF);
  }

  /** The schoolbook product of two words by their halves. */
  lemma ByHalves(u0: nat, u1: nat, v0: nat, v1: nat)
    ensures (u1 * TWO16 + u0) * (v1 * TWO16 + v0) == u1 * v1 * TWO32 + (u1 * v0 + u0 * v1) * TWO16 + u0 * v0
  {
    var a, b := u1 * TWO16, v1 * TWO16;
    assert (a + u0) * (v1 * TWO16 + v0) == a * b + a * v0 + u0 * b + u0 * v0 by {
      assert (a + u0) * (b + v0) == a * (b + v0) + u0 * (b + v0);
      assert a * (b + v0) == a * b + a * v0;
      assert u0 * (b + v0) == u0 * b + u0 * v0;
    }
    assert a * v0 == u1 * v0 * TWO16;
    assert u0 * b == u0 * v1 * TWO16;
    assert a * b == u1 * v1 * TWO32 by {
      assert a * b == u1 * (TWO16 * (v1 * TWO16));
      assert TWO16 * (v1 * TWO16) == v1 * TWO32;
      assert u1 * (v1 * TWO32) == u1 * v1 * TWO32;
    }
  }

  /** The low word of a product, when the product and a high word times 2^32 differ by less than 2^32. */
  lemma LowWord(p: nat, x: nat, rest: nat)
    requires p == x * TWO32 + rest && rest < TWO32
    ensures Wrap(p) == rest
  {
  }

  /** No sum of the 32-bit code overflows, and its pieces make up the product. */
  lemma SumsFit(u0: Half, u1: Half, v0: Half, v1: Half)
    ensures 0 <= u0 * v0 < TWO32 && 0 <= u1 * v0 && 0 <= u0 * v1 && 0 <= u1 * v1
    ensures var t := u1 * v0 + u0 * v0 / TWO16;
            var w1 := u0 * v1 + t % TWO16;
            var x := u1 * v1 + t / TWO16 + w1 / TWO16;
            && t < TWO32 && w1 < TWO32 && x < TWO32
            && (u1 * TWO16 + u0) * (v1 * TWO16 + v0) == x * TWO32 + w1 % TWO16 * TWO16 + u0 * v0 % TWO16
  {
    HalfProduct(u0, v0);
    HalfProduct(u1, v0);
    HalfProduct(u0, v1);
    HalfProduct(u1, v1);
    ByHalves(u0, u1, v0, v1);
    ProductBound(u1 * TWO16 + u0, v1 * TWO16 + v0, TWO32 - 1, TWO32 - 1);
  }

  /** `mul64_32x32`: the exact product of any two words, though every step but the last is a 32-bit one. */
  method Mul64(u: Word, v: Word) returns (r: nat)
    ensures r == u * v
  {
    hide Wrap;
    var u0: Half, u1: Half := u % TWO16, u / TWO16;
    var v0: Half, v1: Half := v % TWO16, v / TWO16;
    SumsFit(u0, u1, v0, v1);
    NoWrap(u0 * v0);
    var w0 := Wrap(u0 * v0);
    NoWrap(u1 * v0 + w0 / TWO16);
    var t := Wrap(u1 * v0 + w0 / TWO16);
    var w1 := t % TWO16;
    var w2 := t / TWO16;
    NoWrap(u0 * v1 + w1);
    w1 := Wrap(u0 * v1 + w1);
    NoWrap(u1 * v1 + w2 + w1 / TWO16);
    var x := Wrap(u1 * v1 + w2 + w1 / TWO16);
    LowWord(u * v, x, w1 % TWO16 * TWO16 + w0 % TWO16);
    var y := Wrap(u * v);
    r := x * TWO32 + y;
  }
}
