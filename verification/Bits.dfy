/** Fixed-width arithmetic on unbounded integers, and bit strings in the order
    of section 3.1.1 of RFC 1951: every byte contributes its least significant
    bit first. */
module Bits {
  import opened Arith

  type byte = x: int | 0 <= x < 256
  type uint16 = x: int | 0 <= x < 65536
  type bits = seq<bool>

  const TWO64: nat := 0x1_0000_0000_0000_0000

  /** Truncation to sixteen bits. */
  function Uint16(x: int): uint16
  {
    x % 65536
  }

  /** Truncation to eight bits. */
  function Uint8(x: int): byte
  {
    x % 256
  }

  lemma Uint16Exact(x: int)
    requires 0 <= x < 65536
    ensures Uint16(x) == x
  {
  }

  /** Truncation to sixty-four bits, of negative numbers too. */
  function Wrap64(x: int): (r: nat)
    ensures r < TWO64
  {
    x % TWO64
  }

  /** Wrapping early does not change where a sum ends up. */
  lemma WrapAdd(x: int, d: int)
    ensures Wrap64(Wrap64(x) + d) == Wrap64(x + d)
  {
  }

  lemma WrapExact(x: nat)
    requires x < TWO64
    ensures Wrap64(x) == x
  {
  }

  function Sum(s: seq<int>): int
  {
    if s == [] then 0 else Sum(s[..|s| - 1]) + s[|s| - 1]
  }

  lemma {:induction false} SumUpdate(s: seq<int>, i: nat, v: int)
    requires i < |s|
    ensures Sum(s[i := v]) == Sum(s) - s[i] + v
  {
    var init := s[..|s| - 1];
    if i == |s| - 1 {
      assert s[i := v][..i] == init;
    } else {
      SumUpdate(init, i, v);
      assert s[i := v][..|s| - 1] == init[i := v];
    }
  }

  lemma {:induction false} SumZero(n: nat)
    ensures Sum(seq(n, _ => 0)) == 0
  {
    if n > 0 {
      SumZero(n - 1);
      assert seq(n, _ => 0)[..n - 1] == seq(n - 1, _ => 0);
    }
  }

  function Pow2(n: nat): (r: nat)
    ensures r >= 1
  {
    if n == 0 then 1 else 2 * Pow2(n - 1)
  }

  lemma {:induction false} Pow2Add(i: nat, j: nat)
    ensures Pow2(i + j) == Pow2(i) * Pow2(j)
  {
    if i > 0 {
      Pow2Add(i - 1, j);
      MulAssoc(2, Pow2(i - 1), Pow2(j));
    }
  }

  lemma {:induction false} Pow2Monotone(i: nat, j: nat)
    requires i <= j
    ensures Pow2(i) <= Pow2(j)
  {
    if i < j { Pow2Monotone(i, j - 1); }
  }

  lemma Pow2Values()
    ensures Pow2(0) == 1 && Pow2(6) == 64 && Pow2(9) == 512 && Pow2(11) == 2048 && Pow2(12) == 4096
    ensures Pow2(1) == 2 && Pow2(2) == 4 && Pow2(3) == 8 && Pow2(4) == 16 && Pow2(5) == 32
    ensures Pow2(7) == 128 && Pow2(8) == 256 && Pow2(10) == 1024 && Pow2(13) == 8192
    ensures Pow2(15) == 32768 && Pow2(16) == 65536
  {
    assert Pow2(4) == 16;
    assert Pow2(8) == 256;
    assert Pow2(12) == 4096;
    assert Pow2(16) == 65536;
  }

  /** Bitwise inclusive or of two natural numbers. */
  function BitOr(a: nat, b: nat): nat
  {
    if a == 0 && b == 0 then 0
    else 2 * BitOr(a / 2, b / 2) + (if a % 2 == 1 || b % 2 == 1 then 1 else 0)
  }

  /** Bitwise exclusive or of two natural numbers. */
  function BitXor(a: nat, b: nat): nat
  {
    if a == 0 && b == 0 then 0
    else 2 * BitXor(a / 2, b / 2) + (if a % 2 != b % 2 then 1 else 0)
  }

  /** Or is addition when one operand ends below where the other starts. */
  lemma {:induction false} BitOrDisjoint(a: nat, b: nat, k: nat)
    requires a < Pow2(k)
    ensures BitOr(a, b * Pow2(k)) == a + b * Pow2(k)
    decreases k
  {
    if k == 0 {
      BitOrZero(b);
    } else {
      BitOrDisjoint(a / 2, b, k - 1);
      MulAssoc(b, 2, Pow2(k - 1));
      MulAssoc(2, b, Pow2(k - 1));
    }
  }

  lemma {:induction false} BitOrZero(b: nat)
    ensures BitOr(0, b) == b
  {
    if b > 0 { BitOrZero(b / 2); }
  }

  /** Exclusive or is bitwise: the low k bits of the result depend on the low k bits alone. */
  lemma {:induction false} BitXorLow(a: nat, b: nat, k: nat)
    ensures BitXor(a, b) % Pow2(k) == BitXor(a % Pow2(k), b % Pow2(k))
    decreases k
  {
    if k > 0 {
      var p := Pow2(k - 1);
      BitXorLow(a / 2, b / 2, k - 1);
      XorLowStep(a, b, p);
    }
  }

  lemma XorStep(a: nat, b: nat)
    ensures BitXor(a, b) == 2 * BitXor(a / 2, b / 2) + (if a % 2 != b % 2 then 1 else 0)
    ensures BitXor(a, b) / 2 == BitXor(a / 2, b / 2)
    ensures BitXor(a, b) % 2 == if a % 2 != b % 2 then 1 else 0
  {
  }

  lemma XorLowStep(a: nat, b: nat, p: nat)
    requires p > 0 && BitXor(a / 2, b / 2) % p == BitXor((a / 2) % p, (b / 2) % p)
    ensures BitXor(a, b) % (2 * p) == BitXor(a % (2 * p), b % (2 * p))
  {
    hide *;
    XorStep(a, b);
    XorStep(a % (2 * p), b % (2 * p));
    ModDouble(a, p);
    ModDouble(b, p);
    ModDouble(BitXor(a, b), p);
  }

  lemma {:induction false} BitXorInjective(a: nat, b: nat, c: nat)
    requires BitXor(a, b) == BitXor(a, c)
    ensures b == c
    decreases a + b + c
  {
    if a + b + c > 0 {
      BitXorInjective(a / 2, b / 2, c / 2);
    }
  }

  /** What precedes the first `stop`. */
  function Preceding<T(==)>(s: seq<T>, stop: T): (r: seq<T>)
    ensures |r| <= |s| && r == s[..|r|] && (|r| == |s| || s[|r|] == stop)
    ensures forall i :: 0 <= i < |r| ==> r[i] != stop
  {
    if s == [] || s[0] == stop then [] else [s[0]] + Preceding(s[1..], stop)
  }

  lemma PrecedingWhole<T>(s: seq<T>, stop: T)
    ensures Preceding(s, stop) == s <==> stop !in s
  {
  }

  /** The sequence with element i left out. */
  function Without<T>(s: seq<T>, i: nat): (r: seq<T>)
    requires i < |s|
    ensures |r| == |s| - 1
  {
    s[..i] + s[i + 1..]
  }

  lemma WithoutAt<T>(s: seq<T>, i: nat, j: nat)
    requires i < |s| && j < |s| - 1
    ensures Without(s, i)[j] == s[if j < i then j else j + 1]
  {
  }

  lemma SliceOfSlice<T>(s: seq<T>, i: nat, j: nat, m: nat, len: nat)
    requires i <= j <= |s| && i + m + len <= j
    ensures s[i..j][m..m + len] == s[i + m..i + m + len]
  {
    var a, b := s[i..j][m..m + len], s[i + m..i + m + len];
    forall k | 0 <= k < len
      ensures a[k] == b[k]
    {
      assert a[k] == s[i..j][m + k];
    }
  }

  /** One bit of a byte, least significant first. */
  function BitMask(k: nat): bv8
    requires k < 8
  {
    if k == 0 then 1 else if k == 1 then 2 else if k == 2 then 4 else if k == 3 then 8
    else if k == 4 then 16 else if k == 5 then 32 else if k == 6 then 64 else 128
  }

  lemma ConcatAssoc<T>(a: seq<T>, b: seq<T>, c: seq<T>)
    ensures (a + b) + c == a + (b + c)
  {
  }

  /** The n low bits of v, least significant first. */
  function Lsb(v: nat, n: nat): (s: bits)
    ensures |s| == n
  {
    if n == 0 then [] else [v % 2 == 1] + Lsb(v / 2, n - 1)
  }

  /** The n low bits of v, most significant first. */
  function Msb(v: nat, n: nat): (s: bits)
    ensures |s| == n
  {
    if n == 0 then [] else Msb(v / 2, n - 1) + [v % 2 == 1]
  }

  /** The number a bit string spells, least significant bit first. */
  function LsbVal(s: bits): nat
  {
    if s == [] then 0 else (if s[0] then 1 else 0) + 2 * LsbVal(s[1..])
  }

  lemma {:induction false} LsbRoundTrip(v: nat, n: nat)
    requires v < Pow2(n)
    ensures LsbVal(Lsb(v, n)) == v
  {
    if n > 0 {
      LsbRoundTrip(v / 2, n - 1);
      assert Lsb(v, n)[1..] == Lsb(v / 2, n - 1);
    }
  }

  lemma LsbStep(v: nat, n: nat)
    requires n > 0
    ensures Lsb(v, n) == [v % 2 == 1] + Lsb(v / 2, n - 1)
  {
  }

  /** Concatenating bit strings adds the numbers at different places. */
  lemma {:induction false} LsbJoin(a: nat, b: nat, i: nat, j: nat)
    requires a < Pow2(i)
    ensures Lsb(a + b * Pow2(i), i + j) == Lsb(a, i) + Lsb(b, j)
    decreases i
  {
    if i > 0 {
      var c := b * Pow2(i - 1);
      MulAssoc(2, b, Pow2(i - 1));
      MulAssoc(b, 2, Pow2(i - 1));
      LsbJoin(a / 2, b, i - 1, j);
      LsbStep(a + 2 * c, i + j);
      LsbStep(a, i);
    }
  }

  function Zeros(n: nat): (s: bits)
    ensures |s| == n
  {
    seq(n, _ => false)
  }

  lemma {:induction false} LsbZero(n: nat)
    ensures Lsb(0, n) == Zeros(n)
  {
    if n > 0 { LsbZero(n - 1); }
  }

  /** A number's leading bits are those of its quotient. */
  lemma {:induction false} MsbPrefix(v: nat, i: nat, j: nat)
    ensures Msb(v, i + j)[..i] == Msb(v / Pow2(j), i)
    decreases j
  {
    if j == 0 {
      assert Msb(v, i)[..i] == Msb(v, i);
    } else {
      MsbPrefix(v / 2, i, j - 1);
      DivDiv(v, 2, Pow2(j - 1));
      var s := Msb(v / 2, i + j - 1);
      assert (s + [v % 2 == 1])[..i] == s[..i];
    }
  }

  lemma {:induction false} MsbInjective(a: nat, b: nat, n: nat)
    requires a < Pow2(n) && b < Pow2(n) && Msb(a, n) == Msb(b, n)
    ensures a == b
  {
    if n > 0 {
      var s, t := Msb(a / 2, n - 1), Msb(b / 2, n - 1);
      assert (s + [a % 2 == 1])[..n - 1] == s;
      assert (t + [b % 2 == 1])[..n - 1] == t;
      assert (s + [a % 2 == 1])[n - 1] == (t + [b % 2 == 1])[n - 1];
      MsbInjective(a / 2, b / 2, n - 1);
    }
  }

  /** The bits of a byte sequence in stream order. */
  function BytesBits(b: seq<byte>): (s: bits)
    ensures |s| == 8 * |b|
  {
    if b == [] then [] else BytesBits(b[..|b| - 1]) + Lsb(b[|b| - 1], 8)
  }

  lemma BytesBitsAppend(b: seq<byte>, x: byte)
    ensures BytesBits(b + [x]) == BytesBits(b) + Lsb(x, 8)
  {
    assert (b + [x])[..|b|] == b;
  }

  lemma BytesBitsShort(b: seq<byte>, v: uint16)
    ensures BytesBits(b + [v % 256, v / 256]) == BytesBits(b) + Lsb(v, 16)
  {
    hide BytesBits, Lsb;
    var lo, hi := v % 256, v / 256;
    Pow2Values();
    LsbJoin(lo, hi, 8, 8);
    var x := b + [lo];
    BytesBitsAppend(b, lo);
    BytesBitsAppend(x, hi);
    assert b + [lo, hi] == x + [hi];
    ConcatAssoc(BytesBits(b), Lsb(lo, 8), Lsb(hi, 8));
  }

  lemma {:induction false} BytesBitsConcat(a: seq<byte>, b: seq<byte>)
    ensures BytesBits(a + b) == BytesBits(a) + BytesBits(b)
  {
    if b == [] {
      assert a + b == a;
    } else {
      BytesBitsConcat(a, b[..|b| - 1]);
      assert (a + b)[..|a + b| - 1] == a + b[..|b| - 1];
    }
  }
}
