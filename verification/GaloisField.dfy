/** Bytes as polynomials over two elements, multiplied modulo a polynomial of degree eight whose low
    byte is p. */
module GaloisField {
  import opened Bits

  function Xor8(a: bv8, b: bv8): bv8
  {
    a ^ b
  }

  /** Multiplication by x. */
  function XTime(v: bv8, p: bv8): bv8
  {
    (v << 1) ^ (if v & 0x80 != 0 then p else 0)
  }

  function XPow(a: bv8, p: bv8, n: nat): bv8
  {
    if n == 0 then a else XTime(XPow(a, p, n - 1), p)
  }

  /** v when b has the bit, else nothing. */
  function Take(v: bv8, b: bv8, m: bv8): bv8
  {
    if b & m != 0 then v else 0
  }

  /** The product of a with the n low bits of b. */
  function PartMul(a: bv8, b: bv8, p: bv8, n: nat): bv8
    requires n <= 8
  {
    if n == 0 then 0 else Xor8(PartMul(a, b, p, n - 1), Take(XPow(a, p, n - 1), b, BitMask(n - 1)))
  }

  function Mul(a: bv8, b: bv8, p: bv8): bv8
  {
    PartMul(a, b, p, 8)
  }

  /** Shift-and-add multiplication. */
  method GFMult(a: bv8, b: bv8, p: bv8) returns (product: bv8)
    ensures product == Mul(a, b, p)
  {
    product := 0;
    var v, shift := a, 0;
    while shift < 8
      invariant shift <= 8 && v == XPow(a, p, shift) && product == PartMul(a, b, p, shift)
    {
      if b & BitMask(shift) != 0 {
        product := Xor8(product, v);
      } else {
        XorNothing(product);
      }
      v := XTime(v, p);
      shift := shift + 1;
      hide XTime, Xor8, BitMask;
    }
  }

  // -- linearity ------------------------------------------------------------------------------------

  lemma XorNothing(a: bv8)
    ensures Xor8(a, 0) == a && Xor8(0, a) == a && Xor8(a, a) == 0
  {
  }

  lemma XorAssoc(a: bv8, b: bv8, c: bv8)
    ensures Xor8(Xor8(a, b), c) == Xor8(a, Xor8(b, c)) && Xor8(a, b) == Xor8(b, a)
  {
  }

  lemma XorSwap(a: bv8, b: bv8, c: bv8, d: bv8)
    ensures Xor8(Xor8(a, b), Xor8(c, d)) == Xor8(Xor8(a, c), Xor8(b, d))
  {
    assert (a ^ b) ^ (c ^ d) == (a ^ c) ^ (b ^ d);
  }

  lemma ShiftXor(x: bv8, y: bv8)
    ensures (x ^ y) << 1 == (x << 1) ^ (y << 1) && (x ^ y) & 0x80 == (x & 0x80) ^ (y & 0x80)
    ensures x & 0x80 == 0 || x & 0x80 == 0x80
  {
  }

  lemma CancelXor(a: bv8, b: bv8, p: bv8)
    ensures a ^ b == (a ^ p) ^ (b ^ p) && (a ^ b) ^ p == (a ^ p) ^ b && (a ^ b) ^ p == a ^ (b ^ p)
  {
  }

  lemma XTimeLinear(x: bv8, y: bv8, p: bv8)
    ensures XTime(Xor8(x, y), p) == Xor8(XTime(x, p), XTime(y, p))
  {
    ShiftXor(x, y);
    ShiftXor(y, x);
    CancelXor(x << 1, y << 1, p);
  }

  lemma {:induction false} XPowLinear(x: bv8, y: bv8, p: bv8, n: nat)
    ensures XPow(Xor8(x, y), p, n) == Xor8(XPow(x, p, n), XPow(y, p, n))
  {
    hide XTime, Xor8;
    if n > 0 {
      XPowLinear(x, y, p, n - 1);
      XTimeLinear(XPow(x, p, n - 1), XPow(y, p, n - 1), p);
    }
  }

  lemma TakeLinear(x: bv8, y: bv8, b: bv8, m: bv8)
    ensures Take(Xor8(x, y), b, m) == Xor8(Take(x, b, m), Take(y, b, m))
  {
  }

  lemma TakeEither(v: bv8, b: bv8, c: bv8, k: nat)
    requires k < 8
    ensures Take(v, Xor8(b, c), BitMask(k)) == Xor8(Take(v, b, BitMask(k)), Take(v, c, BitMask(k)))
  {
  }

  /** Multiplication distributes on the left. */
  lemma {:induction false} PartMulLinear(x: bv8, y: bv8, b: bv8, p: bv8, n: nat)
    requires n <= 8
    ensures PartMul(Xor8(x, y), b, p, n) == Xor8(PartMul(x, b, p, n), PartMul(y, b, p, n))
  {
    hide XPow, Take, BitMask, Xor8;
    XorNothing(0);
    if n > 0 {
      PartMulLinear(x, y, b, p, n - 1);
      XPowLinear(x, y, p, n - 1);
      TakeLinear(XPow(x, p, n - 1), XPow(y, p, n - 1), b, BitMask(n - 1));
      XorSwap(PartMul(x, b, p, n - 1), PartMul(y, b, p, n - 1),
              Take(XPow(x, p, n - 1), b, BitMask(n - 1)), Take(XPow(y, p, n - 1), b, BitMask(n - 1)));
    }
  }

  /** And on the right. */
  lemma {:induction false} PartMulEither(v: bv8, b: bv8, c: bv8, p: bv8, n: nat)
    requires n <= 8
    ensures PartMul(v, Xor8(b, c), p, n) == Xor8(PartMul(v, b, p, n), PartMul(v, c, p, n))
  {
    hide XPow, Take, BitMask, Xor8;
    XorNothing(0);
    if n > 0 {
      PartMulEither(v, b, c, p, n - 1);
      TakeEither(XPow(v, p, n - 1), b, c, n - 1);
      XorSwap(PartMul(v, b, p, n - 1), PartMul(v, c, p, n - 1),
              Take(XPow(v, p, n - 1), b, BitMask(n - 1)), Take(XPow(v, p, n - 1), c, BitMask(n - 1)));
    }
  }

  lemma MulLinear(x: bv8, y: bv8, b: bv8, p: bv8)
    ensures Mul(Xor8(x, y), b, p) == Xor8(Mul(x, b, p), Mul(y, b, p))
  {
    hide PartMul, Xor8;
    PartMulLinear(x, y, b, p, 8);
  }

  lemma MulEither(v: bv8, b: bv8, c: bv8, p: bv8)
    ensures Mul(v, Xor8(b, c), p) == Xor8(Mul(v, b, p), Mul(v, c, p))
  {
    hide PartMul, Xor8;
    PartMulEither(v, b, c, p, 8);
  }

  // -- the product written out ------------------------------------------------------------------------

  lemma Powers(a: bv8, p: bv8)
    ensures XPow(a, p, 0) == a && XPow(a, p, 1) == XTime(a, p) && XPow(a, p, 2) == XTime(XTime(a, p), p)
    ensures XPow(a, p, 3) == XTime(XTime(XTime(a, p), p), p)
  {
    hide XTime;
    assert XPow(a, p, 1) == XTime(XPow(a, p, 0), p);
    assert XPow(a, p, 2) == XTime(XPow(a, p, 1), p);
    assert XPow(a, p, 3) == XTime(XPow(a, p, 2), p);
  }

  lemma PartMulStep(a: bv8, b: bv8, p: bv8, n: nat)
    requires n < 8
    ensures PartMul(a, b, p, n + 1) == Xor8(PartMul(a, b, p, n), Take(XPow(a, p, n), b, BitMask(n)))
  {
    hide Xor8, XPow, Take, BitMask;
  }

  /** High bits that are not set add nothing. */
  lemma {:induction false} PartMulSmall(a: bv8, b: bv8, p: bv8, k: nat, n: nat)
    requires k <= n <= 8 && forall i :: k <= i < n ==> b & BitMask(i) == 0
    ensures PartMul(a, b, p, n) == PartMul(a, b, p, k)
    decreases n
  {
    hide XPow, Xor8, BitMask;
    if k < n {
      PartMulSmall(a, b, p, k, n - 1);
      PartMulStep(a, b, p, n - 1);
      XorNothing(PartMul(a, b, p, k));
    }
  }

  /** Products with the small constants of the two diffusion matrices. */
  lemma MulSmall(a: bv8, b: bv8, p: bv8)
    requires b < 16
    ensures Mul(a, b, p) == Xor8(Xor8(Xor8(Take(a, b, 1), Take(XTime(a, p), b, 2)), Take(XTime(XTime(a, p), p), b, 4)),
                                 Take(XTime(XTime(XTime(a, p), p), p), b, 8))
  {
    LowBits(b);
    hide XTime, Xor8, Take, XPow;
    PartMulSmall(a, b, p, 4, 8);
    Powers(a, p);
    PartMulStep(a, b, p, 0);
    PartMulStep(a, b, p, 1);
    PartMulStep(a, b, p, 2);
    PartMulStep(a, b, p, 3);
    XorNothing(Take(a, b, 1));
  }

  lemma LowBits(b: bv8)
    requires b < 16
    ensures forall i :: 4 <= i < 8 ==> b & BitMask(i) == 0
  {
  }
}
