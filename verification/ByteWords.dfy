/** Words of four bytes, low byte first, and the circulant diffusion both byte-oriented ciphers use. */
module ByteWords {
  import opened GaloisField

  datatype Word = Word(b0: bv8, b1: bv8, b2: bv8, b3: bv8)

  function XorW(x: Word, y: Word): Word
  {
    Word(Xor8(x.b0, y.b0), Xor8(x.b1, y.b1), Xor8(x.b2, y.b2), Xor8(x.b3, y.b3))
  }

  /** The word rotated left by j bytes, at most three. */
  function RotW(w: Word, j: nat): Word
  {
    if j == 0 then w
    else if j == 1 then Word(w.b3, w.b0, w.b1, w.b2)
    else if j == 2 then Word(w.b2, w.b3, w.b0, w.b1)
    else Word(w.b1, w.b2, w.b3, w.b0)
  }

  /** One column of the diffusion matrix applied to a byte. */
  function Column(v: bv8, c: Word, p: bv8): Word
  {
    Word(Mul(v, c.b0, p), Mul(v, c.b1, p), Mul(v, c.b2, p), Mul(v, c.b3, p))
  }

  /** The diffusion of a whole word: the columns of its bytes, rotated into place. */
  function Diffuse(w: Word, c: Word, p: bv8): Word
  {
    XorW(XorW(XorW(Column(w.b0, c, p), RotW(Column(w.b1, c, p), 1)), RotW(Column(w.b2, c, p), 2)),
         RotW(Column(w.b3, c, p), 3))
  }

  const MIX: Word := Word(2, 1, 1, 3)
  const UNMIX: Word := Word(14, 9, 13, 11)

  lemma XorWSelf(x: Word, y: Word)
    ensures XorW(XorW(x, y), y) == x && XorW(x, y) == XorW(y, x)
  {
  }

  lemma XorWSwap(a: Word, b: Word, c: Word, d: Word)
    ensures XorW(XorW(a, b), XorW(c, d)) == XorW(XorW(a, c), XorW(b, d))
  {
    hide Xor8;
    XorSwap(a.b0, b.b0, c.b0, d.b0);
    XorSwap(a.b1, b.b1, c.b1, d.b1);
    XorSwap(a.b2, b.b2, c.b2, d.b2);
    XorSwap(a.b3, b.b3, c.b3, d.b3);
  }

  lemma ColumnLinear(x: bv8, y: bv8, c: Word, p: bv8)
    ensures Column(Xor8(x, y), c, p) == XorW(Column(x, c, p), Column(y, c, p))
  {
    hide Xor8, Mul;
    MulLinear(x, y, c.b0, p);
    MulLinear(x, y, c.b1, p);
    MulLinear(x, y, c.b2, p);
    MulLinear(x, y, c.b3, p);
  }

  lemma RotLinear(x: Word, y: Word, j: nat)
    ensures RotW(XorW(x, y), j) == XorW(RotW(x, j), RotW(y, j))
  {
    hide Xor8;
    if j == 0 {
    } else if j == 1 {
    } else if j == 2 {
    }
  }

  /** Diffusion is linear. */
  lemma DiffuseLinear(x: Word, y: Word, c: Word, p: bv8)
    ensures Diffuse(XorW(x, y), c, p) == XorW(Diffuse(x, c, p), Diffuse(y, c, p))
  {
    hide Xor8, Column, RotW, XorW;
    XorWParts(x, y);
    ColumnLinear(x.b0, y.b0, c, p);
    ColumnLinear(x.b1, y.b1, c, p);
    ColumnLinear(x.b2, y.b2, c, p);
    ColumnLinear(x.b3, y.b3, c, p);
    var x0, x1, x2, x3 := Column(x.b0, c, p), RotW(Column(x.b1, c, p), 1), RotW(Column(x.b2, c, p), 2),
        RotW(Column(x.b3, c, p), 3);
    var y0, y1, y2, y3 := Column(y.b0, c, p), RotW(Column(y.b1, c, p), 1), RotW(Column(y.b2, c, p), 2),
        RotW(Column(y.b3, c, p), 3);
    RotLinear(Column(x.b1, c, p), Column(y.b1, c, p), 1);
    RotLinear(Column(x.b2, c, p), Column(y.b2, c, p), 2);
    RotLinear(Column(x.b3, c, p), Column(y.b3, c, p), 3);
    XorWSwap(x0, y0, x1, y1);
    XorWSwap(XorW(x0, x1), XorW(y0, y1), x2, y2);
    XorWSwap(XorW(XorW(x0, x1), x2), XorW(XorW(y0, y1), y2), x3, y3);
  }

  lemma XorWParts(x: Word, y: Word)
    ensures XorW(x, y).b0 == Xor8(x.b0, y.b0) && XorW(x, y).b1 == Xor8(x.b1, y.b1)
    ensures XorW(x, y).b2 == Xor8(x.b2, y.b2) && XorW(x, y).b3 == Xor8(x.b3, y.b3)
  {
  }

  // -- the two matrices are inverse ------------------------------------------------------------------------

  function Four(a: bv8, b: bv8, c: bv8, d: bv8): bv8
  {
    Xor8(Xor8(Xor8(a, b), c), d)
  }

  lemma DiffuseBytes(w: Word, c: Word, p: bv8)
    ensures Diffuse(w, c, p) == Word(
      Four(Mul(w.b0, c.b0, p), Mul(w.b1, c.b3, p), Mul(w.b2, c.b2, p), Mul(w.b3, c.b1, p)),
      Four(Mul(w.b0, c.b1, p), Mul(w.b1, c.b0, p), Mul(w.b2, c.b3, p), Mul(w.b3, c.b2, p)),
      Four(Mul(w.b0, c.b2, p), Mul(w.b1, c.b1, p), Mul(w.b2, c.b0, p), Mul(w.b3, c.b3, p)),
      Four(Mul(w.b0, c.b3, p), Mul(w.b1, c.b2, p), Mul(w.b2, c.b1, p), Mul(w.b3, c.b0, p)))
  {
    hide Mul, Xor8;
  }

  lemma MulFour(a: bv8, b: bv8, c: bv8, d: bv8, k: bv8, p: bv8)
    ensures Mul(Four(a, b, c, d), k, p) == Four(Mul(a, k, p), Mul(b, k, p), Mul(c, k, p), Mul(d, k, p))
  {
    hide Mul, Xor8;
    MulLinear(a, b, k, p);
    MulLinear(Xor8(a, b), c, k, p);
    MulLinear(Xor8(Xor8(a, b), c), d, k, p);
  }

  /** Sixteen terms summed by rows or by columns. */
  lemma FourByFour(a0: bv8, a1: bv8, a2: bv8, a3: bv8, b0: bv8, b1: bv8, b2: bv8, b3: bv8,
                   c0: bv8, c1: bv8, c2: bv8, c3: bv8, d0: bv8, d1: bv8, d2: bv8, d3: bv8)
    ensures Four(Four(a0, a1, a2, a3), Four(b0, b1, b2, b3), Four(c0, c1, c2, c3), Four(d0, d1, d2, d3))
         == Four(Four(a0, b0, c0, d0), Four(a1, b1, c1, d1), Four(a2, b2, c2, d2), Four(a3, b3, c3, d3))
  {
    FourPairs(a0, a1, a2, a3, b0, b1, b2, b3);
    FourPairs(Xor8(a0, b0), Xor8(a1, b1), Xor8(a2, b2), Xor8(a3, b3), c0, c1, c2, c3);
    FourPairs(Xor8(Xor8(a0, b0), c0), Xor8(Xor8(a1, b1), c1), Xor8(Xor8(a2, b2), c2), Xor8(Xor8(a3, b3), c3), d0, d1,
        d2, d3);
    hide Xor8;
  }

  lemma FourPairs(a: bv8, b: bv8, c: bv8, d: bv8, e: bv8, f: bv8, g: bv8, h: bv8)
    ensures Xor8(Four(a, b, c, d), Four(e, f, g, h)) == Four(Xor8(a, e), Xor8(b, f), Xor8(c, g), Xor8(d, h))
  {
    hide Xor8;
    XorSwap(a, b, e, f);
    XorSwap(Xor8(a, b), c, Xor8(e, f), g);
    XorSwap(Xor8(Xor8(a, b), c), d, Xor8(Xor8(e, f), g), h);
  }

  /** The four distinct sums of products of the two rows. */
  lemma RowProducts(v: bv8, p: bv8)
    ensures Four(Mul(Mul(v, 2, p), 14, p), Mul(Mul(v, 1, p), 11, p), Mul(Mul(v, 1, p), 13, p),
        Mul(Mul(v, 3, p), 9, p)) == v
    ensures Four(Mul(Mul(v, 3, p), 14, p), Mul(Mul(v, 2, p), 11, p), Mul(Mul(v, 1, p), 13, p),
        Mul(Mul(v, 1, p), 9, p)) == 0
    ensures Four(Mul(Mul(v, 1, p), 14, p), Mul(Mul(v, 3, p), 11, p), Mul(Mul(v, 2, p), 13, p),
        Mul(Mul(v, 1, p), 9, p)) == 0
    ensures Four(Mul(Mul(v, 1, p), 14, p), Mul(Mul(v, 1, p), 11, p), Mul(Mul(v, 3, p), 13, p),
        Mul(Mul(v, 2, p), 9, p)) == 0
  {
    hide *;
    var a := XTime(v, p);
    var b := XTime(a, p);
    var c := XTime(b, p);
    var d := XTime(c, p);
    TimesLow(v, p);
    TimesHigh(v, p);
    TimesHigh(a, p);
    TimesHigh(Xor8(a, v), p);
    XTimeLinear(a, v, p);
    XTimeLinear(b, a, p);
    XTimeLinear(c, b, p);
    FormalSums(v, a, b, c, d);
  }

  lemma FormalSums(v: bv8, a: bv8, b: bv8, c: bv8, d: bv8)
    ensures Four(Xor8(Xor8(d, c), b), Xor8(Xor8(c, a), v), Xor8(Xor8(c, b), v), Xor8(Xor8(d, c), Xor8(a, v))) == v
    ensures Four(Xor8(Xor8(Xor8(d, c), Xor8(c, b)), Xor8(b, a)), Xor8(Xor8(d, b), a), Xor8(Xor8(c, b), v),
        Xor8(c, v)) == 0
    ensures Four(Xor8(Xor8(c, b), a), Xor8(Xor8(Xor8(d, c), Xor8(b, a)), Xor8(a, v)), Xor8(Xor8(d, c), a),
        Xor8(c, v)) == 0
    ensures Four(Xor8(Xor8(c, b), a), Xor8(Xor8(c, a), v), Xor8(Xor8(Xor8(d, c), Xor8(c, b)), Xor8(a, v)),
        Xor8(d, a)) == 0
  {
    hide *;
    FormalFirst(v, a, b, c, d);
    FormalSecond(v, a, b, c, d);
    FormalThird(v, a, b, c, d);
    FormalFourth(v, a, b, c, d);
  }

  lemma FormalFirst(v: bv8, a: bv8, b: bv8, c: bv8, d: bv8)
    ensures Four(Xor8(Xor8(d, c), b), Xor8(Xor8(c, a), v), Xor8(Xor8(c, b), v), Xor8(Xor8(d, c), Xor8(a, v))) == v
  {
    assert ((((d ^ c) ^ b) ^ ((c ^ a) ^ v)) ^ ((c ^ b) ^ v)) ^ ((d ^ c) ^ (a ^ v)) == v;
  }

  lemma FormalSecond(v: bv8, a: bv8, b: bv8, c: bv8, d: bv8)
    ensures Four(Xor8(Xor8(Xor8(d, c), Xor8(c, b)), Xor8(b, a)), Xor8(Xor8(d, b), a), Xor8(Xor8(c, b), v),
        Xor8(c, v)) == 0
  {
    assert (((((d ^ c) ^ (c ^ b)) ^ (b ^ a)) ^ ((d ^ b) ^ a)) ^ ((c ^ b) ^ v)) ^ (c ^ v) == 0;
  }

  lemma FormalThird(v: bv8, a: bv8, b: bv8, c: bv8, d: bv8)
    ensures Four(Xor8(Xor8(c, b), a), Xor8(Xor8(Xor8(d, c), Xor8(b, a)), Xor8(a, v)), Xor8(Xor8(d, c), a),
        Xor8(c, v)) == 0
  {
    assert ((((c ^ b) ^ a) ^ (((d ^ c) ^ (b ^ a)) ^ (a ^ v))) ^ ((d ^ c) ^ a)) ^ (c ^ v) == 0;
  }

  lemma FormalFourth(v: bv8, a: bv8, b: bv8, c: bv8, d: bv8)
    ensures Four(Xor8(Xor8(c, b), a), Xor8(Xor8(c, a), v), Xor8(Xor8(Xor8(d, c), Xor8(c, b)), Xor8(a, v)),
        Xor8(d, a)) == 0
  {
    assert ((((c ^ b) ^ a) ^ ((c ^ a) ^ v)) ^ (((d ^ c) ^ (c ^ b)) ^ (a ^ v))) ^ (d ^ a) == 0;
  }

  lemma TakeConstants(v: bv8)
    ensures Take(v, 1, 1) == v && Take(v, 1, 2) == 0 && Take(v, 1, 4) == 0 && Take(v, 1, 8) == 0
    ensures Take(v, 2, 1) == 0 && Take(v, 2, 2) == v && Take(v, 2, 4) == 0 && Take(v, 2, 8) == 0
    ensures Take(v, 3, 1) == v && Take(v, 3, 2) == v && Take(v, 3, 4) == 0 && Take(v, 3, 8) == 0
    ensures Take(v, 9, 1) == v && Take(v, 9, 2) == 0 && Take(v, 9, 4) == 0 && Take(v, 9, 8) == v
    ensures Take(v, 11, 1) == v && Take(v, 11, 2) == v && Take(v, 11, 4) == 0 && Take(v, 11, 8) == v
    ensures Take(v, 13, 1) == v && Take(v, 13, 2) == 0 && Take(v, 13, 4) == v && Take(v, 13, 8) == v
    ensures Take(v, 14, 1) == 0 && Take(v, 14, 2) == v && Take(v, 14, 4) == v && Take(v, 14, 8) == v
  {
  }

  lemma TimesLow(v: bv8, p: bv8)
    ensures Mul(v, 1, p) == v && Mul(v, 2, p) == XTime(v, p) && Mul(v, 3, p) == Xor8(XTime(v, p), v)
  {
    hide *;
    var a := XTime(v, p);
    var b := XTime(a, p);
    var c := XTime(b, p);
    Constants(v, a, b, c);
    MulSmall(v, 1, p);
    MulSmall(v, 2, p);
    MulSmall(v, 3, p);
  }

  lemma TimesHigh(v: bv8, p: bv8)
    ensures var a := XTime(v, p); var b := XTime(a, p); var c := XTime(b, p);
      && Mul(v, 9, p) == Xor8(c, v) && Mul(v, 11, p) == Xor8(Xor8(c, a), v)
      && Mul(v, 13, p) == Xor8(Xor8(c, b), v) && Mul(v, 14, p) == Xor8(Xor8(c, b), a)
  {
    hide *;
    var a := XTime(v, p);
    var b := XTime(a, p);
    var c := XTime(b, p);
    Constants(v, a, b, c);
    MulSmall(v, 9, p);
    MulSmall(v, 11, p);
    MulSmall(v, 13, p);
    MulSmall(v, 14, p);
  }

  /** The sums a small constant picks out of four powers. */
  lemma Constants(v: bv8, a: bv8, b: bv8, c: bv8)
    ensures Picked(v, a, b, c, 1) == v && Picked(v, a, b, c, 2) == a && Picked(v, a, b, c, 3) == Xor8(a, v)
    ensures Picked(v, a, b, c, 9) == Xor8(c, v) && Picked(v, a, b, c, 11) == Xor8(Xor8(c, a), v)
    ensures Picked(v, a, b, c, 13) == Xor8(Xor8(c, b), v) && Picked(v, a, b, c, 14) == Xor8(Xor8(c, b), a)
    ensures forall k ::
      Picked(v, a, b, c, k) == Xor8(Xor8(Xor8(Take(v, k, 1), Take(a, k, 2)), Take(b, k, 4)), Take(c, k, 8))
  {
    hide *;
    PickedLow(v, a, b, c);
    PickedHigh(v, a, b, c);
    PickedIs(v, a, b, c);
  }

  function Picked(v: bv8, a: bv8, b: bv8, c: bv8, k: bv8): bv8
  {
    Xor8(Xor8(Xor8(Take(v, k, 1), Take(a, k, 2)), Take(b, k, 4)), Take(c, k, 8))
  }

  lemma PickedIs(v: bv8, a: bv8, b: bv8, c: bv8)
    ensures forall k ::
      Picked(v, a, b, c, k) == Xor8(Xor8(Xor8(Take(v, k, 1), Take(a, k, 2)), Take(b, k, 4)), Take(c, k, 8))
  {
    hide Xor8, Take;
  }

  lemma PickedLow(v: bv8, a: bv8, b: bv8, c: bv8)
    ensures Picked(v, a, b, c, 1) == v && Picked(v, a, b, c, 2) == a && Picked(v, a, b, c, 3) == Xor8(a, v)
  {
    TakeConstants(v);
    TakeConstants(a);
    TakeConstants(b);
    TakeConstants(c);
  }

  lemma PickedHigh(v: bv8, a: bv8, b: bv8, c: bv8)
    ensures Picked(v, a, b, c, 9) == Xor8(c, v) && Picked(v, a, b, c, 11) == Xor8(Xor8(c, a), v)
    ensures Picked(v, a, b, c, 13) == Xor8(Xor8(c, b), v) && Picked(v, a, b, c, 14) == Xor8(Xor8(c, b), a)
  {
    hide *;
    PickedIs(v, a, b, c);
    TakeConstants(v);
    TakeConstants(a);
    TakeConstants(b);
    TakeConstants(c);
    Reorder(v, 0, 0, c);
    Reorder(v, a, 0, c);
    Reorder(v, 0, b, c);
    Reorder(0, a, b, c);
  }

  lemma Reorder(v: bv8, a: bv8, b: bv8, c: bv8)
    ensures Xor8(Xor8(Xor8(v, a), b), c) == Xor8(Xor8(Xor8(c, b), a), v)
    ensures Xor8(c, 0) == c && Xor8(Xor8(c, b), 0) == Xor8(c, b) && Xor8(Xor8(Xor8(c, b), a), 0) == Xor8(Xor8(c, b), a)
  {
    assert ((v ^ a) ^ b) ^ c == ((c ^ b) ^ a) ^ v;
  }

  // -- undoing the diffusion --------------------------------------------------------------------------------

  lemma FourRotate(a: bv8, b: bv8, c: bv8, d: bv8)
    ensures Four(a, b, c, d) == Four(b, c, d, a)
  {
    hide Xor8;
    XorAssoc(a, b, c);
    XorAssoc(a, Xor8(b, c), d);
    XorAssoc(a, Xor8(Xor8(b, c), d), 0);
  }

  lemma FourSwap(a: bv8, b: bv8, c: bv8, d: bv8)
    ensures Four(a, b, c, d) == Four(a, d, c, b)
  {
    hide Xor8;
    XorAssoc(Xor8(a, b), c, d);
    XorAssoc(c, d, 0);
    XorSwap(a, b, d, c);
    XorAssoc(b, c, 0);
    XorAssoc(Xor8(a, d), c, b);
  }

  lemma FourZeros(v: bv8)
    ensures Four(v, 0, 0, 0) == v
  {
  }

  /** One byte of the diffusion, seen from any byte. */
  function MixByte(x0: bv8, x1: bv8, x2: bv8, x3: bv8, p: bv8): bv8
  {
    Four(Mul(x0, 2, p), Mul(x1, 3, p), Mul(x2, 1, p), Mul(x3, 1, p))
  }

  function UnmixByte(x0: bv8, x1: bv8, x2: bv8, x3: bv8, p: bv8): bv8
  {
    Four(Mul(x0, 14, p), Mul(x1, 11, p), Mul(x2, 13, p), Mul(x3, 9, p))
  }

  lemma MixBytes(w: Word, p: bv8)
    ensures Diffuse(w, MIX, p) == Word(
      MixByte(w.b0, w.b1, w.b2, w.b3, p), MixByte(w.b1, w.b2, w.b3, w.b0, p),
      MixByte(w.b2, w.b3, w.b0, w.b1, p), MixByte(w.b3, w.b0, w.b1, w.b2, p))
  {
    DiffuseBytes(w, MIX, p);
    hide Mul, Four, Diffuse;
    FourRotate(Mul(w.b0, 1, p), Mul(w.b1, 2, p), Mul(w.b2, 3, p), Mul(w.b3, 1, p));
    FourRotate(Mul(w.b0, 1, p), Mul(w.b1, 1, p), Mul(w.b2, 2, p), Mul(w.b3, 3, p));
    FourRotate(Mul(w.b1, 1, p), Mul(w.b2, 2, p), Mul(w.b3, 3, p), Mul(w.b0, 1, p));
    FourRotate(Mul(w.b3, 2, p), Mul(w.b0, 3, p), Mul(w.b1, 1, p), Mul(w.b2, 1, p));
  }

  lemma UnmixBytes(w: Word, p: bv8)
    ensures Diffuse(w, UNMIX, p) == Word(
      UnmixByte(w.b0, w.b1, w.b2, w.b3, p), UnmixByte(w.b1, w.b2, w.b3, w.b0, p),
      UnmixByte(w.b2, w.b3, w.b0, w.b1, p), UnmixByte(w.b3, w.b0, w.b1, w.b2, p))
  {
    DiffuseBytes(w, UNMIX, p);
    hide Mul, Four, Diffuse;
    FourRotate(Mul(w.b0, 9, p), Mul(w.b1, 14, p), Mul(w.b2, 11, p), Mul(w.b3, 13, p));
    FourRotate(Mul(w.b0, 13, p), Mul(w.b1, 9, p), Mul(w.b2, 14, p), Mul(w.b3, 11, p));
    FourRotate(Mul(w.b1, 9, p), Mul(w.b2, 14, p), Mul(w.b3, 11, p), Mul(w.b0, 13, p));
    FourRotate(Mul(w.b3, 14, p), Mul(w.b0, 11, p), Mul(w.b1, 13, p), Mul(w.b2, 9, p));
  }

  lemma UnmixMixByte(x0: bv8, x1: bv8, x2: bv8, x3: bv8, p: bv8)
    ensures UnmixByte(MixByte(x0, x1, x2, x3, p), MixByte(x1, x2, x3, x0, p),
                      MixByte(x2, x3, x0, x1, p), MixByte(x3, x0, x1, x2, p), p) == x0
  {
    hide Mul, Four;
    FourRotate(Mul(x0, 1, p), Mul(x1, 2, p), Mul(x2, 3, p), Mul(x3, 1, p));
    FourRotate(Mul(x0, 1, p), Mul(x1, 1, p), Mul(x2, 2, p), Mul(x3, 3, p));
    FourRotate(Mul(x1, 1, p), Mul(x2, 2, p), Mul(x3, 3, p), Mul(x0, 1, p));
    FourRotate(Mul(x3, 2, p), Mul(x0, 3, p), Mul(x1, 1, p), Mul(x2, 1, p));
    MulFour(Mul(x0, 2, p), Mul(x1, 3, p), Mul(x2, 1, p), Mul(x3, 1, p), 14, p);
    MulFour(Mul(x0, 1, p), Mul(x1, 2, p), Mul(x2, 3, p), Mul(x3, 1, p), 11, p);
    MulFour(Mul(x0, 1, p), Mul(x1, 1, p), Mul(x2, 2, p), Mul(x3, 3, p), 13, p);
    MulFour(Mul(x0, 3, p), Mul(x1, 1, p), Mul(x2, 1, p), Mul(x3, 2, p), 9, p);
    FourByFour(Mul(Mul(x0, 2, p), 14, p), Mul(Mul(x1, 3, p), 14, p), Mul(Mul(x2, 1, p), 14, p),
               Mul(Mul(x3, 1, p), 14, p),
               Mul(Mul(x0, 1, p), 11, p), Mul(Mul(x1, 2, p), 11, p), Mul(Mul(x2, 3, p), 11, p),
               Mul(Mul(x3, 1, p), 11, p),
               Mul(Mul(x0, 1, p), 13, p), Mul(Mul(x1, 1, p), 13, p), Mul(Mul(x2, 2, p), 13, p),
               Mul(Mul(x3, 3, p), 13, p),
               Mul(Mul(x0, 3, p), 9, p), Mul(Mul(x1, 1, p), 9, p), Mul(Mul(x2, 1, p), 9, p), Mul(Mul(x3, 2, p), 9, p));
    RowProducts(x0, p);
    RowProducts(x1, p);
    RowProducts(x2, p);
    RowProducts(x3, p);
    FourZeros(x0);
  }

  /** Decryption's diffusion undoes encryption's, for any field polynomial. */
  lemma UnmixMix(w: Word, p: bv8)
    ensures Diffuse(Diffuse(w, MIX, p), UNMIX, p) == w
  {
    hide *;
    MixBytes(w, p);
    UnmixBytes(Diffuse(w, MIX, p), p);
    UnmixMixByte(w.b0, w.b1, w.b2, w.b3, p);
    UnmixMixByte(w.b1, w.b2, w.b3, w.b0, p);
    UnmixMixByte(w.b2, w.b3, w.b0, w.b1, p);
    UnmixMixByte(w.b3, w.b0, w.b1, w.b2, p);
  }

  /** Small constants multiply in any order. */
  lemma SwapProducts(v: bv8, p: bv8)
    ensures Mul(Mul(v, 14, p), 1, p) == Mul(Mul(v, 1, p), 14, p) && Mul(Mul(v, 11, p), 1, p) == Mul(Mul(v, 1, p), 11, p)
    ensures Mul(Mul(v, 13, p), 1, p) == Mul(Mul(v, 1, p), 13, p) && Mul(Mul(v, 9, p), 1, p) == Mul(Mul(v, 1, p), 9, p)
    ensures Mul(Mul(v, 14, p), 2, p) == Mul(Mul(v, 2, p), 14, p) && Mul(Mul(v, 11, p), 2, p) == Mul(Mul(v, 2, p), 11, p)
    ensures Mul(Mul(v, 13, p), 2, p) == Mul(Mul(v, 2, p), 13, p) && Mul(Mul(v, 9, p), 2, p) == Mul(Mul(v, 2, p), 9, p)
    ensures Mul(Mul(v, 14, p), 3, p) == Mul(Mul(v, 3, p), 14, p) && Mul(Mul(v, 11, p), 3, p) == Mul(Mul(v, 3, p), 11, p)
    ensures Mul(Mul(v, 13, p), 3, p) == Mul(Mul(v, 3, p), 13, p) && Mul(Mul(v, 9, p), 3, p) == Mul(Mul(v, 3, p), 9, p)
  {
    hide *;
    TimesLow(v, p);
    SwapTwo(v, p);
    TimesLow(Mul(v, 14, p), p);
    TimesLow(Mul(v, 11, p), p);
    TimesLow(Mul(v, 13, p), p);
    TimesLow(Mul(v, 9, p), p);
    MulLinear(XTime(v, p), v, 14, p);
    MulLinear(XTime(v, p), v, 11, p);
    MulLinear(XTime(v, p), v, 13, p);
    MulLinear(XTime(v, p), v, 9, p);
  }

  lemma SwapTwo(v: bv8, p: bv8)
    ensures XTime(Mul(v, 14, p), p) == Mul(XTime(v, p), 14, p) && XTime(Mul(v, 11, p), p) == Mul(XTime(v, p), 11, p)
    ensures XTime(Mul(v, 13, p), p) == Mul(XTime(v, p), 13, p) && XTime(Mul(v, 9, p), p) == Mul(XTime(v, p), 9, p)
  {
    hide *;
    var a := XTime(v, p);
    var b := XTime(a, p);
    var c := XTime(b, p);
    TimesHigh(v, p);
    TimesHigh(a, p);
    XTimeLinear(c, v, p);
    XTimeLinear(c, a, p);
    XTimeLinear(Xor8(c, a), v, p);
    XTimeLinear(c, b, p);
    XTimeLinear(Xor8(c, b), v, p);
    XTimeLinear(Xor8(c, b), a, p);
  }

  lemma MixUnmixByte(x0: bv8, x1: bv8, x2: bv8, x3: bv8, p: bv8)
    ensures MixByte(UnmixByte(x0, x1, x2, x3, p), UnmixByte(x1, x2, x3, x0, p),
                    UnmixByte(x2, x3, x0, x1, p), UnmixByte(x3, x0, x1, x2, p), p) == x0
  {
    hide Mul, Four;
    FourRotate(Mul(x0, 9, p), Mul(x1, 14, p), Mul(x2, 11, p), Mul(x3, 13, p));
    FourRotate(Mul(x0, 13, p), Mul(x1, 9, p), Mul(x2, 14, p), Mul(x3, 11, p));
    FourRotate(Mul(x1, 9, p), Mul(x2, 14, p), Mul(x3, 11, p), Mul(x0, 13, p));
    FourRotate(Mul(x3, 14, p), Mul(x0, 11, p), Mul(x1, 13, p), Mul(x2, 9, p));
    MulFour(Mul(x0, 14, p), Mul(x1, 11, p), Mul(x2, 13, p), Mul(x3, 9, p), 2, p);
    MulFour(Mul(x0, 9, p), Mul(x1, 14, p), Mul(x2, 11, p), Mul(x3, 13, p), 3, p);
    MulFour(Mul(x0, 13, p), Mul(x1, 9, p), Mul(x2, 14, p), Mul(x3, 11, p), 1, p);
    MulFour(Mul(x0, 11, p), Mul(x1, 13, p), Mul(x2, 9, p), Mul(x3, 14, p), 1, p);
    FourByFour(Mul(Mul(x0, 14, p), 2, p), Mul(Mul(x1, 11, p), 2, p), Mul(Mul(x2, 13, p), 2, p),
               Mul(Mul(x3, 9, p), 2, p),
               Mul(Mul(x0, 9, p), 3, p), Mul(Mul(x1, 14, p), 3, p), Mul(Mul(x2, 11, p), 3, p),
               Mul(Mul(x3, 13, p), 3, p),
               Mul(Mul(x0, 13, p), 1, p), Mul(Mul(x1, 9, p), 1, p), Mul(Mul(x2, 14, p), 1, p),
               Mul(Mul(x3, 11, p), 1, p),
               Mul(Mul(x0, 11, p), 1, p), Mul(Mul(x1, 13, p), 1, p), Mul(Mul(x2, 9, p), 1, p),
               Mul(Mul(x3, 14, p), 1, p));
    MixColumns(x0, x1, x2, x3, p);
    FourZeros(x0);
  }

  lemma MixColumns(x0: bv8, x1: bv8, x2: bv8, x3: bv8, p: bv8)
    ensures Four(Mul(Mul(x0, 14, p), 2, p), Mul(Mul(x0, 9, p), 3, p), Mul(Mul(x0, 13, p), 1, p),
        Mul(Mul(x0, 11, p), 1, p)) == x0
    ensures Four(Mul(Mul(x1, 11, p), 2, p), Mul(Mul(x1, 14, p), 3, p), Mul(Mul(x1, 9, p), 1, p),
        Mul(Mul(x1, 13, p), 1, p)) == 0
    ensures Four(Mul(Mul(x2, 13, p), 2, p), Mul(Mul(x2, 11, p), 3, p), Mul(Mul(x2, 14, p), 1, p),
        Mul(Mul(x2, 9, p), 1, p)) == 0
    ensures Four(Mul(Mul(x3, 9, p), 2, p), Mul(Mul(x3, 13, p), 3, p), Mul(Mul(x3, 11, p), 1, p),
        Mul(Mul(x3, 14, p), 1, p)) == 0
  {
    hide *;
    SwapProducts(x0, p);
    RowProducts(x0, p);
    FourSwap(Mul(Mul(x0, 2, p), 14, p), Mul(Mul(x0, 1, p), 11, p), Mul(Mul(x0, 1, p), 13, p), Mul(Mul(x0, 3, p), 9, p));
    SwapProducts(x1, p);
    RowProducts(x1, p);
    FourSwap(Mul(Mul(x1, 3, p), 14, p), Mul(Mul(x1, 2, p), 11, p), Mul(Mul(x1, 1, p), 13, p), Mul(Mul(x1, 1, p), 9, p));
    FourRotate(Mul(Mul(x1, 2, p), 11, p), Mul(Mul(x1, 3, p), 14, p), Mul(Mul(x1, 1, p), 9, p),
        Mul(Mul(x1, 1, p), 13, p));
    SwapProducts(x2, p);
    RowProducts(x2, p);
    FourSwap(Mul(Mul(x2, 1, p), 14, p), Mul(Mul(x2, 3, p), 11, p), Mul(Mul(x2, 2, p), 13, p), Mul(Mul(x2, 1, p), 9, p));
    FourRotate(Mul(Mul(x2, 2, p), 13, p), Mul(Mul(x2, 3, p), 11, p), Mul(Mul(x2, 1, p), 14, p),
        Mul(Mul(x2, 1, p), 9, p));
    FourRotate(Mul(Mul(x2, 3, p), 11, p), Mul(Mul(x2, 1, p), 14, p), Mul(Mul(x2, 1, p), 9, p),
        Mul(Mul(x2, 2, p), 13, p));
    SwapProducts(x3, p);
    RowProducts(x3, p);
    FourSwap(Mul(Mul(x3, 1, p), 14, p), Mul(Mul(x3, 1, p), 11, p), Mul(Mul(x3, 3, p), 13, p), Mul(Mul(x3, 2, p), 9, p));
    FourRotate(Mul(Mul(x3, 1, p), 14, p), Mul(Mul(x3, 2, p), 9, p), Mul(Mul(x3, 3, p), 13, p),
        Mul(Mul(x3, 1, p), 11, p));
  }

  lemma MixUnmix(w: Word, p: bv8)
    ensures Diffuse(Diffuse(w, UNMIX, p), MIX, p) == w
  {
    hide *;
    UnmixBytes(w, p);
    MixBytes(Diffuse(w, UNMIX, p), p);
    MixUnmixByte(w.b0, w.b1, w.b2, w.b3, p);
    MixUnmixByte(w.b1, w.b2, w.b3, w.b0, p);
    MixUnmixByte(w.b2, w.b3, w.b0, w.b1, p);
    MixUnmixByte(w.b3, w.b0, w.b1, w.b2, p);
  }
}
