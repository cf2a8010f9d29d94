/** Canonical prefix codes from a sequence of code lengths, after section 3.2.2
    of RFC 1951, and why they decode uniquely. */
module PrefixCodes {
  import opened Arith
  import opened Bits

  const MAX_BITS: nat := 15

  /** How many of the given lengths equal b. */
  function Count(lens: seq<int>, b: int): nat
  {
    if lens == [] then 0
    else Count(lens[..|lens| - 1], b) + (if lens[|lens| - 1] == b then 1 else 0)
  }

  /** The numerically smallest code of length b. */
  function NextCode(lens: seq<nat>, b: nat): nat
  {
    if b == 0 then 0
    else 2 * (NextCode(lens, b - 1) + (if b == 1 then 0 else Count(lens, b - 1)))
  }

  /** The code of symbol n: consecutive among the symbols of the same length. */
  function Code(lens: seq<nat>, n: nat): nat
    requires n < |lens|
  {
    NextCode(lens, lens[n]) + Count(lens[..n], lens[n])
  }

  /** The bits sent for symbol n, in the order they are sent. */
  function CodeWord(lens: seq<nat>, n: nat): (s: bits)
    requires n < |lens|
    ensures |s| == lens[n]
  {
    Msb(Code(lens, n), lens[n])
  }

  /** The share of the code space a length takes, out of Pow2(m). */
  function Weight(len: int, m: nat): nat
  {
    if 1 <= len <= m then Pow2(m - len) else 0
  }

  /** The Kraft sum of the lengths, in units of 1 / Pow2(m). */
  function Kraft(lens: seq<nat>, m: nat): nat
  {
    if lens == [] then 0
    else Kraft(lens[..|lens| - 1], m) + Weight(lens[|lens| - 1], m)
  }

  ghost predicate Bounded(lens: seq<nat>, m: nat)
  {
    forall n :: 0 <= n < |lens| ==> lens[n] <= m
  }

  /** Lengths that leave room for every code. */
  ghost predicate Decodable(lens: seq<nat>)
  {
    Bounded(lens, MAX_BITS) && Kraft(lens, MAX_BITS) <= Pow2(MAX_BITS)
  }

  // -- the code space, scaled to fifteen bits ---------------------------------

  /** The code space taken by the lengths shorter than b, in units of 1 / Pow2(m). */
  function Below(lens: seq<nat>, b: nat, m: nat): nat
    requires b <= m + 1
  {
    if b <= 1 then 0 else Below(lens, b - 1, m) + Count(lens, b - 1) * Pow2(m + 1 - b)
  }

  lemma {:induction false} NextCodeScaled(lens: seq<nat>, b: nat)
    requires 1 <= b <= 15
    ensures NextCode(lens, b) * Pow2(15 - b) == Below(lens, b, 15)
  {
    if b == 1 {
      assert NextCode(lens, 1) == 2 * NextCode(lens, 0);
    } else {
      NextCodeScaled(lens, b - 1);
      var x, c, p := NextCode(lens, b - 1), Count(lens, b - 1), Pow2(15 - b);
      assert Pow2(16 - b) == 2 * p;
      MulDist(x, c, 2 * p);
      MulAssoc(x + c, 2, p);
      assert NextCode(lens, b) == (x + c) * 2;
    }
  }

  lemma {:induction false} BelowExtend(lens: seq<nat>, x: nat, b: nat, m: nat)
    requires b <= m + 1
    ensures Below(lens + [x], b, m) == Below(lens, b, m) + (if 1 <= x < b then Pow2(m - x) else 0)
  {
    if b > 1 {
      BelowExtend(lens, x, b - 1, m);
      assert (lens + [x])[..|lens|] == lens;
      var c := Count(lens, b - 1);
      MulDist(c, 1, Pow2(m + 1 - b));
    }
  }

  lemma {:induction false} BelowIsKraft(lens: seq<nat>, m: nat)
    requires Bounded(lens, m)
    ensures Below(lens, m + 1, m) == Kraft(lens, m)
  {
    if lens == [] {
      BelowNothing(m + 1, m);
    } else {
      var init, x := lens[..|lens| - 1], lens[|lens| - 1];
      assert init + [x] == lens;
      BelowIsKraft(init, m);
      BelowExtend(init, x, m + 1, m);
    }
  }

  lemma {:induction false} BelowNothing(b: nat, m: nat)
    requires b <= m + 1
    ensures Below([], b, m) == 0
  {
    if b > 1 { BelowNothing(b - 1, m); }
  }

  lemma {:induction false} BelowMonotone(lens: seq<nat>, b: nat, c: nat, m: nat)
    requires b <= c <= m + 1
    ensures Below(lens, b, m) <= Below(lens, c, m)
    decreases c
  {
    if b < c {
      BelowMonotone(lens, b, c - 1, m);
      MulPositive(Count(lens, c - 1), Pow2(m + 1 - c));
    }
  }

  lemma {:induction false} CountPrefix(lens: seq<int>, i: nat, j: nat, b: int)
    requires i <= j <= |lens|
    ensures Count(lens[..i], b) <= Count(lens[..j], b)
    decreases j
  {
    if i < j {
      CountPrefix(lens, i, j - 1, b);
      assert lens[..j][..j - 1] == lens[..j - 1];
    }
  }

  lemma {:induction false} CountUpdate(lens: seq<int>, i: nat, v: int, b: int)
    requires i < |lens|
    ensures Count(lens[i := v], b) + (if lens[i] == b then 1 else 0) == Count(lens, b) + (if v == b then 1 else 0)
  {
    var init := lens[..|lens| - 1];
    if i == |lens| - 1 {
      assert lens[i := v][..i] == init;
    } else {
      CountUpdate(init, i, v, b);
      assert lens[i := v][..|lens| - 1] == init[i := v];
    }
  }

  /** A symbol's rank among those of its length is below their number. */
  lemma RankBound(lens: seq<nat>, n: nat, j: nat)
    requires n < j <= |lens|
    ensures Count(lens[..n], lens[n]) + 1 <= Count(lens[..j], lens[n])
  {
    assert lens[..n + 1][..n] == lens[..n];
    CountPrefix(lens, n + 1, j, lens[n]);
  }

  /** The interval of fifteen-bit strings that start with symbol n's code. */
  lemma CodeInterval(lens: seq<nat>, n: nat)
    requires Decodable(lens) && n < |lens| && lens[n] > 0
    ensures Code(lens, n) < Pow2(lens[n])
    ensures Below(lens, lens[n], 15) <= Code(lens, n) * Pow2(15 - lens[n])
    ensures (Code(lens, n) + 1) * Pow2(15 - lens[n]) <= Below(lens, lens[n] + 1, 15) <= Pow2(15)
  {
    hide CodeWord, Msb, Pow2, NextCode, Count;
    var l := lens[n];
    NextCodeScaled(lens, l);
    RankBound(lens, n, |lens|);
    assert lens[..|lens|] == lens;
    BelowMonotone(lens, l + 1, 16, 15);
    BelowIsKraft(lens, 15);
    IntervalNumbers(NextCode(lens, l), Count(lens[..n], l), Count(lens, l), Pow2(15 - l),
                    Below(lens, l, 15), Below(lens, l + 1, 15));
    CodeFits(Code(lens, n), l);
  }

  lemma IntervalNumbers(base: nat, rank: nat, count: nat, p: nat, below: nat, next: nat)
    requires base * p == below && next == below + count * p && rank + 1 <= count
    ensures below <= (base + rank) * p && (base + rank + 1) * p <= next
  {
    MulDist(base, rank, p);
    MulPositive(rank, p);
    MulDist(base, rank + 1, p);
    MulPositive(count - rank - 1, p);
    MulDist(count - rank - 1, rank + 1, p);
  }

  lemma CodeFits(c: nat, l: nat)
    requires l <= 15 && (c + 1) * Pow2(15 - l) <= Pow2(15)
    ensures c < Pow2(l)
  {
    hide *;
    Pow2Add(l, 15 - l);
    if c >= Pow2(l) { MulLess(Pow2(l), c + 1, Pow2(15 - l)); }
  }

  /** No code word starts another symbol's code word. */
  lemma PrefixFree(lens: seq<nat>, n: nat, m: nat)
    requires Decodable(lens) && n < |lens| && m < |lens|
    requires lens[n] > 0 && lens[m] > 0 && CodeWord(lens, n) <= CodeWord(lens, m)
    ensures n == m
  {
    hide Msb, Pow2, Below, Code, Count, Kraft;
    var i, j := lens[n], lens[m];
    var a, b := Code(lens, n), Code(lens, m);
    CodeInterval(lens, n);
    CodeInterval(lens, m);
    PrefixIsQuotient(a, b, i, j);
    if i == j {
      DivByOne(b);
      SameRank(lens, n, m);
    } else {
      BelowMonotone(lens, i + 1, j, 15);
      ScaleUp(a, b, i, j);
    }
  }

  lemma DivByOne(b: nat)
    ensures b / Pow2(0) == b
  {
  }

  lemma PrefixIsQuotient(a: nat, b: nat, i: nat, j: nat)
    requires i <= j && a < Pow2(i) && b < Pow2(j) && Msb(b, j)[..i] == Msb(a, i)
    ensures b / Pow2(j - i) == a
  {
    hide *;
    MsbPrefix(b, i, j - i);
    Pow2Add(i, j - i);
    DivFits(b, Pow2(j - i), Pow2(i));
    MsbInjective(a, b / Pow2(j - i), i);
  }

  lemma ScaleUp(a: nat, b: nat, i: nat, j: nat)
    requires i <= j <= 15 && b / Pow2(j - i) == a
    ensures b * Pow2(15 - j) < (a + 1) * Pow2(15 - i)
  {
    hide *;
    var d, p := Pow2(j - i), Pow2(15 - j);
    Pow2Add(j - i, 15 - j);
    ModParts(b, d);
    MulDist(a, 1, d);
    MulLess(b, (a + 1) * d, p);
    MulAssoc(a + 1, d, p);
  }

  lemma SameRank(lens: seq<nat>, n: nat, m: nat)
    requires n < |lens| && m < |lens| && lens[n] == lens[m] && Code(lens, n) == Code(lens, m)
    ensures n == m
  {
    if n < m { RankBound(lens, n, m); }
    if m < n { RankBound(lens, m, n); }
  }
}
