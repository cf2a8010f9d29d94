/** How much a deep Huffman tree weighs: joining the two rarest takes the nodes in rising order of frequency, so a
    node's brother weighs at least what each of the node's own sons does, and the frequencies of a tree of depth d add
    up to at least the Fibonacci number d + 2. */
module HuffmanDepth {
  import opened Arith
  import opened HuffmanShape
  import opened HuffmanOptimal

  function Fib(n: nat): nat
  {
    if n < 2 then n else Fib(n - 2) + Fib(n - 1)
  }

  lemma {:induction false} FibGrows(n: nat, m: nat)
    requires 1 <= n <= m
    ensures Fib(n) <= Fib(m)
    decreases m
  {
    if n < m { FibGrows(n, m - 1); }
  }

  /** What it takes to go below any limit still fits a 16-bit frequency. */
  lemma FibFits(m: nat)
    requires m <= 15
    ensures Fib(m + 3) <= 2584
  {
    assert Fib(8) == 21 && Fib(9) == 34;
    assert Fib(10) == 55 && Fib(11) == 89;
    assert Fib(12) == 144 && Fib(13) == 233;
    assert Fib(14) == 377 && Fib(15) == 610;
    assert Fib(16) == 987 && Fib(17) == 1597;
    FibGrows(m + 3, 18);
  }

  /** Frequencies fall, or stay, along the order: what was joined later weighs no less. */
  ghost predicate Falling(order: seq<nat>, w: seq<nat>)
  {
    && (forall t :: 0 <= t < |order| ==> order[t] < |w|)
    && forall s, t :: 0 <= s < t < |order| ==> w[order[t]] <= w[order[s]]
  }

  /** Nothing joined weighs more than a root. */
  ghost predicate BelowRoots(joined: seq<nat>, w: seq<nat>, roots: set<nat>)
  {
    forall x, r :: x in joined && r in roots ==> x < |w| && r < |w| && w[x] <= w[r]
  }

  /** The two rarest roots go in front of what was joined before them. */
  lemma FallStep(joined: seq<nat>, w: seq<nat>, roots: set<nat>, n: nat, m: nat, node: nat)
    requires Falling(joined, w) && BelowRoots(joined, w, roots) && RarestTwo(roots, w, n, m)
    requires node < |w| && node !in joined && node !in roots
    ensures var v := w[node := w[n] + w[m]];
      Falling([m, n] + joined, v) && BelowRoots([m, n] + joined, v, roots - {n, m} + {node})
  {
    var v := w[node := w[n] + w[m]];
    forall s, t | 0 <= s < t < |joined| + 2
      ensures v[([m, n] + joined)[t]] <= v[([m, n] + joined)[s]]
    {
      if t >= 2 { assert joined[t - 2] in joined; }
      if s >= 2 { assert joined[s - 2] in joined; }
    }
  }

  /** The later of the two places where the sons of one father stand. */
  function PairEnd(t: nat): nat
  {
    if t % 2 == 1 then t + 1 else t
  }

  /** The place of a node's father comes before the node's, and so does his brother's. */
  lemma FatherBefore(order: seq<nat>, elems: nat, k: nat, t: nat) returns (p: nat)
    requires Joined(order, elems, k) && 1 <= t <= 2 * k
    ensures p < |order| == 2 * k + 1 && order[p] == elems + ParentOf(t, k) && PairEnd(p) <= t && p < t
    ensures t <= PairEnd(t) <= 2 * k
  {
    assert elems + ParentOf(t, k) in order;
    p :| 0 <= p < |order| && order[p] == elems + ParentOf(t, k);
    if p > 0 { assert ParentOf(t, k) < ParentOf(p, k); }
  }

  /** A father weighs what his sons weigh. */
  lemma FatherSum(order: seq<nat>, w: seq<nat>, elems: nat, k: nat, t: nat, u: nat)
    requires SumsUp(order, w, elems, k) && Falling(order, w) && 1 <= t <= 2 * k == |order| - 1
    requires PairEnd(t) < |order| && u <= w[order[PairEnd(t)]]
    ensures elems + ParentOf(t, k) < |w| && order[t] < |w|
    ensures w[elems + ParentOf(t, k)] >= w[order[t]] + u
  {
    var i := ParentOf(t, k);
    SumsAt(order, w, elems, k, i);
    assert t == 2 * (k - i) - 1 || t == 2 * (k - i);
  }

  lemma ClimbTop(root: nat, u: nat)
    ensures root >= Fib(1) * root + Fib(0) * u
  {
  }

  lemma ClimbStep(root: nat, father: nat, x: nat, u: nat, d: nat)
    requires root >= Fib(d + 1) * father + Fib(d) * x && father >= x + u
    ensures root >= Fib(d + 2) * x + Fib(d + 1) * u
  {
    var f, g := Fib(d + 1), Fib(d);
    Grows(x + u, father, f);
    MulDist(x, u, f);
    MulDist(g, f, x);
  }

  lemma ClimbStay(root: nat, father: nat, x: nat, u: nat, f: nat, g: nat)
    requires root >= f * father + g * u && father >= x
    ensures root >= f * x + g * u
  {
    Grows(x, father, f);
  }

  lemma FallAt(order: seq<nat>, w: seq<nat>, s: nat, t: nat)
    requires Falling(order, w) && s <= t < |order|
    ensures order[s] < |w| && order[t] < |w| && w[order[t]] <= w[order[s]]
  {
  }

  lemma DepthAt(order: seq<nat>, len: seq<nat>, elems: nat, k: nat, m: nat, t: nat)
    requires Joined(order, elems, k) && Depths(order, len, elems, k, m) && t <= 2 * k
    ensures |order| == 2 * k + 1 && |len| == elems + k && order[t] < |len|
    ensures t == 0 ==> len[order[t]] == 0
    ensures t > 0 ==> len[order[t]] == Min(len[elems + ParentOf(t, k)] + 1, m) && len[elems + ParentOf(t, k)] <= m
  {
    if t > 0 { DepthBound(order, len, elems, k, m, ParentOf(t, k)); }
  }

  /** Going up from a node of depth d above one of weight u, the weights grow like the Fibonacci numbers. */
  lemma {:induction false} Climb(order: seq<nat>, len: seq<nat>, w: seq<nat>, elems: nat, k: nat, m: nat, t: nat,
                                 u: nat)
    requires Joined(order, elems, k) && Depths(order, len, elems, k, m) && SumsUp(order, w, elems, k)
    requires Falling(order, w) && t <= 2 * k && PairEnd(t) <= 2 * k && u <= w[order[PairEnd(t)]]
    ensures order[0] < |w| && order[t] < |w| && order[t] < |len|
    ensures w[order[0]] >= Fib(len[order[t]] + 1) * w[order[t]] + Fib(len[order[t]]) * u
    decreases t
  {
    hide SumsUp, Falling, Fib, Joined, Depths;
    DepthAt(order, len, elems, k, m, t);
    FallAt(order, w, 0, t);
    if t == 0 {
      ClimbTop(w[order[0]], u);
    } else {
      var p := FatherBefore(order, elems, k, t);
      DepthAt(order, len, elems, k, m, p);
      FallAt(order, w, p, t);
      FatherSum(order, w, elems, k, t, u);
      if len[order[t]] == len[order[p]] + 1 {
        FallAt(order, w, PairEnd(p), t);
        Climb(order, len, w, elems, k, m, p, w[order[t]]);
        ClimbStep(w[order[0]], w[order[p]], w[order[t]], u, len[order[p]]);
      } else {
        FallAt(order, w, PairEnd(p), PairEnd(t));
        Climb(order, len, w, elems, k, m, p, u);
        ClimbStay(w[order[0]], w[order[p]], w[order[t]], u, Fib(len[order[t]] + 1), Fib(len[order[t]]));
      }
    }
  }

  lemma PlaceOf(order: seq<nat>, elems: nat, k: nat, i: nat) returns (t: nat)
    requires Joined(order, elems, k) && i < k
    ensures t <= 2 * k == |order| - 1 && order[t] == elems + i
  {
    assert elems + i in order;
    t :| 0 <= t < |order| && order[t] == elems + i;
  }

  /** The last of the order is a leaf, and everything weighs as much. */
  lemma AllWeigh(order: seq<nat>, w: seq<nat>, elems: nat, k: nat)
    requires Joined(order, elems, k) && Falling(order, w)
    requires forall e :: e in order && e < elems && e < |w| ==> w[e] >= 1
    ensures forall t :: 0 <= t < |order| ==> order[t] < |w| && w[order[t]] >= 1
  {
    assert ParentOf(2 * k, k) == 0 && order[2 * k] in order;
    forall t | 0 <= t < |order|
      ensures order[t] < |w| && w[order[t]] >= 1
    {
      FallAt(order, w, t, 2 * k);
    }
  }

  /** A tree with an inner node at depth m, so with leaves below it, weighs at least the Fibonacci number m + 3. */
  lemma DeepWeighs(order: seq<nat>, len: seq<nat>, w: seq<nat>, elems: nat, k: nat, m: nat, i: nat)
    requires Joined(order, elems, k) && Depths(order, len, elems, k, m) && SumsUp(order, w, elems, k) && m >= 1
    requires Falling(order, w) && i < k && elems + i < |len| && len[elems + i] == m
    requires forall e :: e in order && e < elems && e < |w| ==> w[e] >= 1
    ensures order[0] < |w| && w[order[0]] >= Fib(m + 3)
  {
    hide SumsUp, Falling, Fib, Depths, Joined;
    var t := PlaceOf(order, elems, k, i);
    AllWeigh(order, w, elems, k);
    DepthAt(order, len, elems, k, m, t);
    SumsAt(order, w, elems, k, i);
    var p := FatherBefore(order, elems, k, t);
    Climb(order, len, w, elems, k, m, t, 1);
    FibDeep(w[order[0]], w[order[t]], m);
  }

  lemma FibDeep(root: nat, x: nat, m: nat)
    requires root >= Fib(m + 1) * x + Fib(m) * 1 && x >= 2
    ensures root >= Fib(m + 3)
  {
    Grows(2, x, Fib(m + 1));
    assert Fib(m + 3) == Fib(m + 1) + Fib(m + 2) && Fib(m + 2) == Fib(m) + Fib(m + 1);
  }
}
