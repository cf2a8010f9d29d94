/** The substitution box derived from its definition is a permutation. */
module RijndaelBox {
  import opened Bits
  import opened GaloisField
  import opened EquivalentInverse

  /** x for the field of the cipher: a shift and a conditional subtraction. */
  function X(v: bv8): bv8
  {
    XTime(v, 0x1B)
  }

  /** The field has no zero divisors: the product, written out bit by bit of b, is not zero. */
  lemma NoZeroDivisors(a: bv8, b: bv8)
    requires var a1 := X(a); var a2 := X(a1); var a3 := X(a2); var a4 := X(a3);
      var a5 := X(a4); var a6 := X(a5); var a7 := X(a6);
      Take(a, b, 1) ^ Take(a1, b, 2) ^ Take(a2, b, 4) ^ Take(a3, b, 8)
        ^ Take(a4, b, 16) ^ Take(a5, b, 32) ^ Take(a6, b, 64) ^ Take(a7, b, 128) == 0
    ensures a == 0 || b == 0
  {
  }

  lemma PowerStep(a: bv8, n: nat)
    ensures XPow(a, 0x1B, n + 1) == X(XPow(a, 0x1B, n)) && XPow(a, 0x1B, 0) == a
  {
  }

  lemma BitMasks()
    ensures BitMask(0) == 1 && BitMask(1) == 2 && BitMask(2) == 4 && BitMask(3) == 8
    ensures BitMask(4) == 16 && BitMask(5) == 32 && BitMask(6) == 64 && BitMask(7) == 128
  {
  }

  lemma NoBits(a: bv8, b: bv8)
    ensures PartMul(a, b, 0x1B, 0) == 0
  {
  }

  lemma MulIs(a: bv8, b: bv8)
    ensures Mul(a, b, 0x1B) == PartMul(a, b, 0x1B, 8)
  {
    hide PartMul;
  }

  function Product(a: bv8, b: bv8): bv8
  {
    var a1 := X(a);
    var a2 := X(a1);
    var a3 := X(a2);
    var a4 := X(a3);
    var a5 := X(a4);
    var a6 := X(a5);
    var a7 := X(a6);
    var m := Xor8(Xor8(Xor8(Take(a, b, 1), Take(a1, b, 2)), Take(a2, b, 4)), Take(a3, b, 8));
    Xor8(Xor8(Xor8(Xor8(m, Take(a4, b, 16)), Take(a5, b, 32)), Take(a6, b, 64)), Take(a7, b, 128))
  }

  lemma ProductIs(a: bv8, b: bv8)
    ensures var a1 := X(a); var a2 := X(a1); var a3 := X(a2); var a4 := X(a3);
      var a5 := X(a4); var a6 := X(a5); var a7 := X(a6);
      Product(a, b) == Take(a, b, 1) ^ Take(a1, b, 2) ^ Take(a2, b, 4) ^ Take(a3, b, 8)
        ^ Take(a4, b, 16) ^ Take(a5, b, 32) ^ Take(a6, b, 64) ^ Take(a7, b, 128)
  {
    hide X, Take;
  }

  lemma MulWritten(a: bv8, b: bv8)
    ensures Mul(a, b, 0x1B) == Product(a, b)
  {
    hide X, Take, XPow, PartMul, Mul, BitMask, Xor8;
    MulIs(a, b);
    BitMasks();
    XorNothing(Take(a, b, 1));
    NoBits(a, b);
    PowerStep(a, 0);
    PowerStep(a, 1);
    PowerStep(a, 2);
    PowerStep(a, 3);
    PowerStep(a, 4);
    PowerStep(a, 5);
    PowerStep(a, 6);
    PartMulStep(a, b, 0x1B, 0);
    PartMulStep(a, b, 0x1B, 1);
    PartMulStep(a, b, 0x1B, 2);
    PartMulStep(a, b, 0x1B, 3);
    PartMulStep(a, b, 0x1B, 4);
    PartMulStep(a, b, 0x1B, 5);
    PartMulStep(a, b, 0x1B, 6);
    PartMulStep(a, b, 0x1B, 7);
  }

  lemma NoZero(a: bv8, b: bv8)
    requires Mul(a, b, 0x1B) == 0
    ensures a == 0 || b == 0
  {
    hide Mul, Product, X, Take;
    MulWritten(a, b);
    ProductIs(a, b);
    NoZeroDivisors(a, b);
  }

  lemma XorEqual(a: bv8, b: bv8)
    ensures Xor8(a, b) == 0 <==> a == b
  {
  }

  /** Multiplying by something other than zero loses nothing, on either side. */
  lemma MulInjective(a: bv8, b: bv8, c: bv8)
    requires c != 0
    ensures Mul(c, a, 0x1B) == Mul(c, b, 0x1B) ==> a == b
    ensures Mul(a, c, 0x1B) == Mul(b, c, 0x1B) ==> a == b
  {
    hide Mul, Xor8;
    XorEqual(a, b);
    XorEqual(Mul(c, a, 0x1B), Mul(c, b, 0x1B));
    XorEqual(Mul(a, c, 0x1B), Mul(b, c, 0x1B));
    MulEither(c, a, b, 0x1B);
    MulLinear(a, b, c, 0x1B);
    if Mul(c, Xor8(a, b), 0x1B) == 0 { NoZero(c, Xor8(a, b)); }
    if Mul(Xor8(a, b), c, 0x1B) == 0 { NoZero(Xor8(a, b), c); }
  }

  /** Every byte but zero has an inverse. */
  lemma HasInverse(a: bv8) returns (c: bv8)
    requires a != 0
    ensures Mul(a, c, 0x1B) == 1
  {
    hide Mul;
    var f: Box := seq(256, i requires 0 <= i < 256 => Mul(a, i as bv8, 0x1B));
    forall i, j | 0 <= i < j < 256
      ensures f[i] != f[j]
    {
      MulInjective(i as bv8, j as bv8, a);
      ByteNumber(i);
      ByteNumber(j);
    }
    var k := Onto(f, 1);
    OneByte(f[k]);
    c := k as bv8;
  }

  lemma OneByte(x: bv8)
    ensures x as int == 1 ==> x == 1
  {
    NumbersDiffer(x, 1);
    One();
  }

  lemma One()
    ensures (1 as bv8) as int == 1
  {
  }

  /** The multiplicative inverse by search; zero has none and is mapped to zero. */
  method GFInverse(a: bv8) returns (r: bv8)
    ensures a == 0 ==> r == 0
    ensures a != 0 ==> Mul(a, r, 0x1B) == 1
  {
    hide *;
    var i := 0;
    NoneYet(a);
    while i < 256
      invariant i <= 256 && NoneBelow(a, i)
    {
      var candidate := i as bv8;
      var product := GFMult(a, candidate, 0x1B);
      if product == 1 {
        if a == 0 { ZeroProduct(candidate); }
        return candidate;
      }
      NoneHere(a, i);
      i := i + 1;
    }
    if a != 0 {
      ghost var c := HasInverse(a);
      SomeBelow(a, c);
    }
    r := 0;
  }

  /** No byte below the i-th is an inverse of a. */
  ghost predicate NoneBelow(a: bv8, i: nat)
  {
    forall c: bv8 :: c as int < i ==> Mul(a, c, 0x1B) != 1
  }

  lemma NoneYet(a: bv8)
    ensures NoneBelow(a, 0)
  {
    hide Mul;
  }

  lemma NoneHere(a: bv8, i: nat)
    requires i < 256 && NoneBelow(a, i) && Mul(a, i as bv8, 0x1B) != 1
    ensures NoneBelow(a, i + 1)
  {
    hide Mul;
    forall c: bv8 | c as int < i + 1
      ensures Mul(a, c, 0x1B) != 1
    {
      NumberByte(c);
    }
  }

  lemma SomeBelow(a: bv8, c: bv8)
    requires Mul(a, c, 0x1B) == 1
    ensures !NoneBelow(a, 256)
  {
    hide Mul;
    NumberByte(c);
  }

  lemma ZeroProduct(b: bv8)
    ensures Mul(0, b, 0x1B) == 0
  {
    MulWritten(0, b);
  }

  /** The affine step: the byte and four of its rotations, and a constant. */
  function Affine(s: bv8): bv8
  {
    s ^ ((s << 1) | (s >> 7)) ^ ((s << 2) | (s >> 6)) ^ ((s << 3) | (s >> 5)) ^ ((s << 4) | (s >> 4)) ^ 0x63
  }

  /** Bit by bit, as section 5.1.1 of FIPS 197 has it: five bits of the byte and one of the constant. */
  lemma AffineBits(s: bv8, k: bv8)
    requires k < 8
    ensures (Affine(s) >> k) & 1 ==
      ((s >> k) ^ (s >> ((k + 4) & 7)) ^ (s >> ((k + 5) & 7)) ^ (s >> ((k + 6) & 7)) ^ (s >> ((k + 7) & 7))
       ^ (0x63 >> k)) & 1
  {
  }

  lemma AffineInjective(a: bv8, b: bv8)
    ensures Affine(a) == Affine(b) ==> a == b
  {
  }

  ghost predicate InverseOf(a: bv8, r: bv8)
  {
    if a == 0 then r == 0 else Mul(a, r, 0x1B) == 1
  }

  lemma InversesDiffer(a: bv8, b: bv8, r: bv8)
    requires InverseOf(a, r) && InverseOf(b, r)
    ensures a == b
  {
    hide Mul;
    if a != 0 || b != 0 {
      MulZero(a);
      MulZero(b);
      MulInjective(a, b, r);
    }
  }

  lemma MulZero(a: bv8)
    ensures Mul(a, 0, 0x1B) == 0
  {
    MulWritten(a, 0);
  }

  /** What the box holds for a byte: the affine image of its inverse in the field. */
  ghost predicate BoxEntry(a: bv8, v: bv8)
  {
    exists r :: InverseOf(a, r) && v == Affine(r)
  }

  /** Builds the box: invert in the field, then the affine step. It is a permutation. */
  method BuildRijndaelSE() returns (box: Box)
    ensures Permutation(box) && forall k :: 0 <= k < 256 ==> BoxEntry(k as bv8, box[k])
  {
    hide *;
    var t: seq<bv8> := [];
    ghost var inv: seq<bv8> := [];
    var i := 0;
    while i < 256
      invariant i <= 256 && |t| == |inv| == i
      invariant forall k :: 0 <= k < i ==> InverseOf(k as bv8, inv[k]) && t[k] == Affine(inv[k])
    {
      var s := GFInverse(i as bv8);
      MakeInverse(i as bv8, s);
      t := t + [Affine(s)];
      inv := inv + [s];
      i := i + 1;
    }
    box := t;
    DerivedPermutation(box, inv);
  }

  lemma MakeInverse(a: bv8, r: bv8)
    requires (a == 0 ==> r == 0) && (a != 0 ==> Mul(a, r, 0x1B) == 1)
    ensures InverseOf(a, r)
  {
    hide Mul;
  }

  lemma DerivedPermutation(box: Box, inv: seq<bv8>)
    requires |inv| == 256
    requires forall k :: 0 <= k < 256 ==> InverseOf(k as bv8, inv[k]) && box[k] == Affine(inv[k])
    ensures Permutation(box) && forall k :: 0 <= k < 256 ==> BoxEntry(k as bv8, box[k])
  {
    hide InverseOf, Affine;
    forall i, j | 0 <= i < j < 256
      ensures box[i] != box[j]
    {
      AffineInjective(inv[i], inv[j]);
      ByteNumber(i);
      ByteNumber(j);
      if inv[i] == inv[j] { InversesDiffer(i as bv8, j as bv8, inv[i]); }
    }
  }
}
