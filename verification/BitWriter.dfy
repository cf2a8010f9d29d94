/** The bit output half of the encoder: a 16-bit accumulator that spills into a byte sequence. */
module BitOutput {
  import opened Arith
  import opened Bits

  const BUF_SIZE: nat := 16

  /** Reverses the low bits of a code, so that writing the result least
      significant bit first sends the code most significant bit first. The
      bound on the length is where the source's 32-bit shifts stay exact. */
  method BiReverse(code: nat, length: nat) returns (res: nat)
    requires length <= 31
    ensures res < Pow2(length)
    ensures Lsb(res, length) == Msb(code, length)
  {
    hide BitOr;
    res := 0;
    var c: nat, n: nat := code, length;
    while n > 0
      invariant n <= length && res % 2 == 0 && res / 2 < Pow2(length - n)
      invariant Msb(code, length) == Msb(c, n) + Lsb(res / 2, length - n)
    {
      ReverseStep(c, n, res / 2, length - n);
      res := BitOr(res, c % 2);
      c := c / 2;
      res := res * 2;
      n := n - 1;
    }
    res := res / 2;
  }

  /** Moving the last bit of c in front of the bits already reversed. */
  lemma ReverseStep(c: nat, n: nat, t: nat, done: nat)
    requires n > 0 && t < Pow2(done)
    ensures BitOr(2 * t, c % 2) == 2 * t + c % 2 < Pow2(done + 1)
    ensures Msb(c, n) + Lsb(t, done) == Msb(c / 2, n - 1) + Lsb(2 * t + c % 2, done + 1)
  {
    hide Lsb, BitOr;
    BitOrSymmetric(2 * t, c % 2);
    BitOrDisjoint(c % 2, t, 1);
    LsbStep(2 * t + c % 2, done + 1);
    ConcatAssoc(Msb(c / 2, n - 1), [c % 2 == 1], Lsb(t, done));
  }

  /** Sending into an accumulator with room: the bits line up after the pending ones. */
  lemma Accumulate(buf: nat, value: nat, k: nat, length: nat)
    requires k + length <= 16 && buf < Pow2(k) && value < Pow2(length)
    ensures var r := BitOr(buf, (value * Pow2(k)) % 65536);
      r < Pow2(k + length) && r < 65536 && Lsb(r, k + length) == Lsb(buf, k) + Lsb(value, length)
  {
    var p, l := Pow2(k), Pow2(length);
    AccumulateFits(buf, value, k, length);
    BitOrDisjoint(buf, value, k);
    LsbJoin(buf, value, k, length);
  }

  lemma AccumulateFits(buf: nat, value: nat, k: nat, length: nat)
    requires k + length <= 16 && buf < Pow2(k) && value < Pow2(length)
    ensures (value * Pow2(k)) % 65536 == value * Pow2(k)
    ensures buf + value * Pow2(k) < Pow2(k + length) <= 65536
  {
    var p, l := Pow2(k), Pow2(length);
    Pow2Add(length, k);
    SumFits(buf, value, p, l);
    Pow2Monotone(k + length, 16);
    Pow2Values();
    MulPositive(value, p);
  }

  /** Sending past the end: sixteen bits leave, the excess of the value stays. */
  lemma Spill(buf: nat, value: nat, k: nat, length: nat) returns (low: nat, high: nat)
    requires k <= 16 && length <= 16 < k + length && buf < Pow2(k) && value < Pow2(length)
    ensures low == BitOr(buf, (value * Pow2(k)) % 65536) && high == value / Pow2(16 - k)
    ensures low < 65536 && high < Pow2(k + length - 16) <= 65536
    ensures Lsb(buf, k) + Lsb(value, length) == Lsb(low, 16) + Lsb(high, k + length - 16)
  {
    hide *;
    low, high := SpillParts(buf, value, k, length);
    LsbJoin(buf, value, k, length);
    Pow2Monotone(k + length - 16, 16);
    Pow2Values();
    LsbJoin(low, high, 16, k + length - 16);
  }

  lemma SpillParts(buf: nat, value: nat, k: nat, length: nat) returns (low: nat, high: nat)
    requires k <= 16 && length <= 16 < k + length && buf < Pow2(k) && value < Pow2(length)
    ensures low == BitOr(buf, (value * Pow2(k)) % 65536) && high == value / Pow2(16 - k)
    ensures low < 65536 && high < Pow2(k + length - 16)
    ensures buf + value * Pow2(k) == low + high * 65536
  {
    SpillPowers(k, length);
    ghost var kept;
    low, high, kept := SpillNumbers(buf, value, Pow2(k), Pow2(16 - k));
    DivFits(value, Pow2(16 - k), Pow2(k + length - 16));
    BitOrDisjoint(buf, kept, k);
  }

  lemma SpillPowers(k: nat, length: nat)
    requires k <= 16 && length <= 16 < k + length
    ensures Pow2(k) * Pow2(16 - k) == 65536
    ensures Pow2(length) == Pow2(k + length - 16) * Pow2(16 - k)
  {
    Pow2Values();
    Pow2Add(k, 16 - k);
    Pow2Add(k + length - 16, 16 - k);
  }

  lemma SpillNumbers(buf: nat, value: nat, p: nat, r: nat) returns (low: nat, high: nat, kept: nat)
    requires p * r == 65536 && p > 0 && r > 0 && buf < p
    ensures low == buf + kept * p && kept * p == (value * p) % 65536
    ensures high == value / r
    ensures low < 65536 && low + high * 65536 == buf + value * p
  {
    ShiftSpill(buf, value, p, r, 65536);
    low, high, kept := (buf + value * p) % 65536, value / r, value % r;
    ModParts(buf + value * p, 65536);
  }

  lemma AccumulateStream(s: bits, buf: nat, value: nat, k: nat, length: nat)
    requires k + length <= 16 && buf < Pow2(k) && value < Pow2(length)
    ensures var r := BitOr(buf, (value * Pow2(k)) % 65536);
      r < Pow2(k + length) && r < 65536 && s + Lsb(r, k + length) == (s + Lsb(buf, k)) + Lsb(value, length)
  {
    Accumulate(buf, value, k, length);
    ConcatAssoc(s, Lsb(buf, k), Lsb(value, length));
  }

  lemma SpillStream(s: bits, buf: nat, value: nat, k: nat, length: nat) returns (low: nat, high: nat)
    requires k <= 16 && length <= 16 < k + length && buf < Pow2(k) && value < Pow2(length)
    ensures low == BitOr(buf, (value * Pow2(k)) % 65536) && high == value / Pow2(16 - k)
    ensures low < 65536 && high < Pow2(k + length - 16) <= 65536
    ensures (s + Lsb(low, 16)) + Lsb(high, k + length - 16) == (s + Lsb(buf, k)) + Lsb(value, length)
  {
    hide *;
    low, high := Spill(buf, value, k, length);
    ConcatAssoc(s, Lsb(buf, k), Lsb(value, length));
    ConcatAssoc(s, Lsb(low, 16), Lsb(high, k + length - 16));
  }

  /** Padding the pending bits with zeros up to a whole number of bytes. */
  lemma PadStream(s: bits, buf: nat, k: nat, pad: nat)
    requires buf < Pow2(k)
    ensures s + Lsb(buf, k + pad) == (s + Lsb(buf, k)) + Zeros(pad)
  {
    LsbPad(buf, k, pad);
    ConcatAssoc(s, Lsb(buf, k), Zeros(pad));
  }

  class BitWriter {
    var out: seq<byte>
    var biBuf: uint16
    var biValid: nat

    ghost predicate Valid()
      reads this`biBuf, this`biValid
    {
      biValid <= BUF_SIZE && biBuf < Pow2(biValid)
    }

    /** Every bit sent so far: those already in bytes, then the pending ones. */
    ghost function Stream(): (s: bits)
      reads this
      ensures |s| == 8 * |out| + biValid
    {
      BytesBits(out) + Lsb(biBuf, biValid)
    }

    constructor ()
      ensures Valid() && out == [] && biValid == 0
    {
      out, biBuf, biValid := [], 0, 0;
    }

    method PutByte(b: byte)
      modifies `out
      ensures out == old(out) + [b]
      ensures BytesBits(out) == BytesBits(old(out)) + Lsb(b, 8)
    {
      BytesBitsAppend(out, b);
      out := out + [b];
    }

    /** Appends a 16-bit value, low byte first. */
    method PutShort(v: uint16)
      modifies `out
      ensures out == old(out) + [v % 256, v / 256]
      ensures BytesBits(out) == BytesBits(old(out)) + Lsb(v, 16)
    {
      BytesBitsShort(out, v);
      out := out + [v % 256, v / 256];
    }

    method SendBits(value: nat, length: nat)
      requires Valid() && length <= 16 && value < Pow2(length)
      modifies this
      ensures Valid() && Stream() == old(Stream()) + Lsb(value, length)
    {
      hide Lsb, BytesBits, BitOr, Pow2;
      if biValid > BUF_SIZE - length {
        ghost var low, high := SpillStream(BytesBits(out), biBuf, value, biValid, length);
        biBuf := BitOr(biBuf, (value * Pow2(biValid)) % 65536);
        PutShort(biBuf);
        biBuf := value / Pow2(BUF_SIZE - biValid);
        biValid := biValid + length - BUF_SIZE;
      } else {
        AccumulateStream(BytesBits(out), biBuf, value, biValid, length);
        biBuf := BitOr(biBuf, (value * Pow2(biValid)) % 65536);
        biValid := biValid + length;
      }
    }

    /** Moves whole bytes out of the accumulator; no bit of the stream changes. */
    method BiFlush()
      requires Valid()
      modifies this
      ensures Valid() && Stream() == old(Stream()) && biValid == if old(biValid) == BUF_SIZE then 0
        else old(biValid) % 8
    {
      hide Lsb, BytesBits, Pow2;
      if biValid == BUF_SIZE {
        PutShort(biBuf);
        biBuf, biValid := 0, 0;
        EmptyAccumulator();
      } else if biValid >= 8 {
        LowByteOut(BytesBits(out), biBuf, biValid);
        PutByte(biBuf % 256);
        biBuf, biValid := biBuf / 256, biValid - 8;
      }
    }

    /** Flushes the accumulator and pads the last byte with zero bits. */
    method BiWindup()
      requires Valid()
      modifies this
      ensures Valid() && biValid == 0
      ensures Stream() == old(Stream()) + Zeros((8 - old(biValid) % 8) % 8)
    {
      hide Lsb, BytesBits, Zeros, Pow2;
      if biValid > 8 {
        PadStream(BytesBits(out), biBuf, biValid, 16 - biValid);
        PutShort(biBuf);
      } else if biValid > 0 {
        LowByte(biBuf, biValid);
        PadStream(BytesBits(out), biBuf, biValid, 8 - biValid);
        PutByte(biBuf % 256);
      }
      biBuf, biValid := 0, 0;
      EmptyAccumulator();
    }
  }

  lemma {:induction false} BitOrSymmetric(a: nat, b: nat)
    ensures BitOr(a, b) == BitOr(b, a)
    decreases a + b
  {
    if a + b > 0 { BitOrSymmetric(a / 2, b / 2); }
  }

  lemma EmptyAccumulator()
    ensures Lsb(0, 0) == [] && 0 < Pow2(0)
  {
  }

  /** Taking the low byte off the accumulator. */
  lemma LowByteOut(s: bits, buf: nat, k: nat)
    requires buf < Pow2(k) && 8 <= k <= 16
    ensures buf / 256 < Pow2(k - 8) && (s + Lsb(buf % 256, 8)) + Lsb(buf / 256, k - 8) == s + Lsb(buf, k)
  {
    hide *;
    Pow2Values();
    Pow2Add(k - 8, 8);
    DivFits(buf, 256, Pow2(k - 8));
    ModParts(buf, 256);
    LsbJoin(buf % 256, buf / 256, 8, k - 8);
    ConcatAssoc(s, Lsb(buf % 256, 8), Lsb(buf / 256, k - 8));
  }

  lemma LowByte(buf: nat, k: nat)
    requires buf < Pow2(k) && k <= 8
    ensures buf < 256
  {
    Pow2Monotone(k, 8);
    Pow2Values();
  }

  lemma LsbPad(v: nat, i: nat, pad: nat)
    requires v < Pow2(i)
    ensures Lsb(v, i + pad) == Lsb(v, i) + Zeros(pad)
  {
    LsbJoin(v, 0, i, pad);
    LsbZero(pad);
  }

}
