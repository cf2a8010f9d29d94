/** Arithmetic of the table that counts how many codes have each length. */
module HuffmanRepair {
  import opened Arith
  import opened Bits
  import opened PrefixCodes

  /** The Kraft sum read off the table, in units of 1 / Pow2(m). */
  function CountsKraft(c: seq<int>, b: nat, m: nat): int
    requires b <= m + 1 <= |c|
  {
    if b <= 1 then 0 else CountsKraft(c, b - 1, m) + c[b - 1] * Pow2(m + 1 - b)
  }

  function CountsTotal(c: seq<int>, b: nat): int
    requires b <= |c|
  {
    if b <= 1 then 0 else CountsTotal(c, b - 1) + c[b - 1]
  }

  /** The table agrees with the lengths; entry 0 is kept at zero. */
  ghost predicate Tallies(c: seq<int>, lens: seq<nat>)
  {
    |c| == 16 && c[0] == 0 && forall b :: 1 <= b < 16 ==> c[b] == Count(lens, b)
  }

  lemma {:induction false} KraftUpdate(c: seq<int>, j: nat, v: int, b: nat, m: nat)
    requires j < |c| && b <= m + 1 <= |c|
    ensures CountsKraft(c[j := v], b, m) == CountsKraft(c, b, m)
         + (if 1 <= j < b then (v - c[j]) * Pow2(m - j) else 0)
  {
    if b > 1 {
      KraftUpdate(c, j, v, b - 1, m);
      if j == b - 1 { MulDist(v - c[j], c[j], Pow2(m - j)); }
    }
  }

  lemma {:induction false} TotalUpdate(c: seq<int>, j: nat, v: int, b: nat)
    requires j < |c| && b <= |c|
    ensures CountsTotal(c[j := v], b) == CountsTotal(c, b) + (if 1 <= j < b then v - c[j] else 0)
  {
    if b > 1 { TotalUpdate(c, j, v, b - 1); }
  }

  lemma {:induction false} TalliesKraft(c: seq<int>, lens: seq<nat>, b: nat, m: nat)
    requires Tallies(c, lens) && b <= m + 1 <= 16
    ensures CountsKraft(c, b, m) == Below(lens, b, m)
  {
    if b > 1 { TalliesKraft(c, lens, b - 1, m); }
  }

  /** How many of the lengths lie in 1..b-1. */
  function UpTo(lens: seq<nat>, b: nat): nat
  {
    if b <= 1 then 0 else UpTo(lens, b - 1) + Count(lens, b - 1)
  }

  lemma {:induction false} TalliesTotal(c: seq<int>, lens: seq<nat>, b: nat)
    requires Tallies(c, lens) && b <= 16
    ensures CountsTotal(c, b) == UpTo(lens, b)
  {
    if b > 1 { TalliesTotal(c, lens, b - 1); }
  }

  lemma {:induction false} UpToExtend(lens: seq<nat>, x: nat, b: nat)
    ensures UpTo(lens + [x], b) == UpTo(lens, b) + (if 1 <= x < b then 1 else 0)
  {
    if b > 1 {
      UpToExtend(lens, x, b - 1);
      assert (lens + [x])[..|lens|] == lens;
    }
  }

  lemma {:induction false} UpToNothing(b: nat)
    ensures UpTo([], b) == 0
  {
    if b > 1 { UpToNothing(b - 1); }
  }

  lemma {:induction false} UpToNonzero(lens: seq<nat>, m: nat)
    requires Bounded(lens, m)
    ensures UpTo(lens, m + 1) == |lens| - Count(lens, 0)
  {
    if lens == [] {
      UpToNothing(m + 1);
    } else {
      var init, x := lens[..|lens| - 1], lens[|lens| - 1];
      assert init + [x] == lens;
      UpToNonzero(init, m);
      UpToExtend(init, x, m + 1);
    }
  }

  /** If only the deepest bucket is filled, its codes are the whole Kraft sum. */
  lemma {:induction false} OnlyDeepest(c: seq<int>, b: nat, m: nat)
    requires b <= m < |c|
    requires forall j :: 1 <= j < m ==> c[j] == 0
    ensures CountsKraft(c, b, m) == 0 && CountsTotal(c, b) == 0
    ensures b == m >= 1 ==> CountsKraft(c, m + 1, m) == CountsTotal(c, m + 1) == c[m]
  {
    if b > 1 { OnlyDeepest(c, b - 1, m); }
    assert Pow2(0) == 1;
  }

  /** While the lengths overfill the code space some bucket above the deepest has a code to split. */
  lemma RoomToSplit(c: seq<int>, m: nat) returns (room: nat)
    requires 1 <= m < |c| && (forall j :: 0 <= j < |c| ==> c[j] >= 0)
    requires CountsTotal(c, m + 1) <= Pow2(m) < CountsKraft(c, m + 1, m)
    ensures 1 <= room < m && c[room] > 0
  {
    if forall j :: 1 <= j < m ==> c[j] == 0 { OnlyDeepest(c, m, m); }
    room :| 1 <= room < m && c[room] != 0;
  }

  function Split(c: seq<int>, bits: nat, m: nat): seq<int>
    requires 1 <= bits < m < |c|
  {
    var d := c[bits := c[bits] - 1];
    var e := d[bits + 1 := d[bits + 1] + 2];
    e[m := e[m] - 1]
  }

  /** One repair step takes one unit off the Kraft sum and keeps the number of codes. */
  lemma SplitKraft(c: seq<int>, bits: nat, m: nat)
    requires 1 <= bits < m < |c|
    ensures CountsKraft(Split(c, bits, m), m + 1, m) == CountsKraft(c, m + 1, m) - 1
    ensures CountsTotal(Split(c, bits, m), m + 1) == CountsTotal(c, m + 1)
  {
    hide CountsKraft, CountsTotal;
    var d := c[bits := c[bits] - 1];
    var e := d[bits + 1 := d[bits + 1] + 2];
    KraftUpdate(c, bits, c[bits] - 1, m + 1, m);
    KraftUpdate(d, bits + 1, d[bits + 1] + 2, m + 1, m);
    KraftUpdate(e, m, e[m] - 1, m + 1, m);
    TotalUpdate(c, bits, c[bits] - 1, m + 1);
    TotalUpdate(d, bits + 1, d[bits + 1] + 2, m + 1);
    TotalUpdate(e, m, e[m] - 1, m + 1);
    assert Pow2(m - bits) == 2 * Pow2(m - (bits + 1));
    assert Pow2(0) == 1;
  }

  lemma {:induction false} FewerZeros(p: seq<nat>, q: seq<nat>)
    requires |p| == |q| && forall n :: 0 <= n < |p| && p[n] == 0 ==> q[n] == 0
    ensures Count(p, 0) <= Count(q, 0)
    ensures Count(p, 0) == Count(q, 0) ==> forall n :: 0 <= n < |p| && q[n] == 0 ==> p[n] == 0
  {
    if p != [] { FewerZeros(p[..|p| - 1], q[..|q| - 1]); }
  }

  lemma {:induction false} CountBound(lens: seq<int>, b: int)
    ensures Count(lens, b) <= |lens|
  {
    if lens != [] { CountBound(lens[..|lens| - 1], b); }
  }

  lemma {:induction false} CountAll(n: nat, v: int, b: int)
    ensures Count(seq(n, _ => v), b) == if v == b then n else 0
  {
    if n > 0 {
      CountAll(n - 1, v, b);
      assert seq(n, _ => v)[..n - 1] == seq(n - 1, _ => v);
    }
  }
}
