/** Round after round, what joining the two least frequent roots leaves of the best code's cost. */
module JoinRounds {
  import opened Bits
  import opened PrefixCodes
  import opened HuffmanShape
  import opened Huffman
  import opened TreeLemmas
  import opened HeapOrder
  import opened BitLengthLemmas
  import opened RepairLemmas
  import opened BuildLemmas
  import opened HuffmanOptimal
  import opened HuffmanDepth

  /** The frequencies of all nodes. */
  function Weights(tree: seq<CtData>): (w: seq<nat>)
    ensures |w| == |tree| && forall n :: 0 <= n < |w| ==> w[n] == tree[n].freq
  {
    Freqs(tree, |tree|)
  }

  /** The nodes that are not joined yet. */
  function Roots(active: set<nat>, elems: nat, k: nat, joined: seq<nat>): set<nat>
  {
    (active + Internals(elems, elems + k)) - (set x | x in joined)
  }

  /** Depth one for every root. */
  function Ones(roots: set<nat>, n: nat): (q: seq<int>)
    ensures |q| == n
  {
    seq(n, i requires 0 <= i < n => if i in roots then 1 else -1)
  }

  /** The roots' frequencies together. */
  function Total(w: seq<nat>, roots: set<nat>): nat
  {
    CostSum(w, Ones(roots, |w|))
  }

  /** The roots are what the heap holds. */
  lemma RootsInHeap(h: seq<nat>, tree: seq<CtData>, len: nat, max: nat, active: set<nat>, elems: nat, k: nat)
    requires Forest(h, tree, len, max, active, elems, k)
    ensures len < |h| && max <= |h|
    ensures forall x: nat :: x in Roots(active, elems, k, h[max..]) <==> x in h[1..len + 1]
  {
    var all := active + Internals(elems, elems + k);
    forall x: nat
      ensures x in Roots(active, elems, k, h[max..]) <==> x in h[1..len + 1]
    {
      OncePart(h[1..len + 1], h[max..], all, x);
    }
  }

  lemma OncePart(s: seq<nat>, t: seq<nat>, all: set<nat>, x: nat)
    requires multiset(s) + multiset(t) == multiset(all)
    ensures x in s <==> x in all && x !in t
  {
    assert multiset(all)[x] == multiset(s)[x] + multiset(t)[x];
    assert x in s <==> x in multiset(s);
    assert x in t <==> x in multiset(t);
    assert x in all <==> x in multiset(all);
  }

  lemma RarestTaken(h: seq<nat>, len: nat, a: seq<CtData>, d: seq<byte>, n: nat, m: nat, roots: set<nat>)
    requires LeastTwo(h, len, a, d, n, m) && n != m
    requires forall x: nat :: x in roots <==> x in h[1..len + 1]
    ensures RarestTwo(roots, Weights(a), n, m)
  {
    hide NotLater;
    LeastIn(h, len, a, d, n, m);
    forall x | x in roots
      ensures x < |a| && a[n].freq <= a[x].freq && (x != n ==> a[m].freq <= a[x].freq)
    {
      var i :| 0 <= i < len && h[1..len + 1][i] == x;
      assert h[i + 1] == x;
      NotLaterFreq(a, d, n, h[i + 1]);
      if x != n { NotLaterFreq(a, d, m, h[i + 1]); }
    }
  }

  lemma NotLaterFreq(a: seq<CtData>, d: seq<byte>, n: nat, m: nat)
    requires NotLater(a, d, n, m)
    ensures n < |a| && m < |a| && a[n].freq <= a[m].freq
  {
  }

  /** Two roots weigh no more than all of them. */
  lemma TwoOfTotal(w: seq<nat>, roots: set<nat>, i: nat, j: nat)
    requires i in roots && j in roots && i != j && i < |w| && j < |w|
    ensures w[i] + w[j] <= Total(w, roots)
  {
    hide CostSum;
    var q := Ones(roots, |w|);
    CostUpdate(w, q, i, -1);
    CostUpdate(w, q[i := -1], j, -1);
    assert CostOf(w[i], 1) == w[i] && CostOf(w[j], 1) == w[j];
  }

  /** A join keeps the total. */
  lemma TotalKept(w: seq<nat>, roots: set<nat>, i: nat, j: nat, node: nat)
    requires i in roots && j in roots && i != j && i < |w| && j < |w| && node < |w| && node !in roots
    ensures Total(w[node := w[i] + w[j]], roots - {i, j} + {node}) == Total(w, roots)
  {
    hide CostSum;
    var q, f := Ones(roots, |w|), w[i] + w[j];
    var b := q[i := -1][j := -1];
    CostUpdate(w, q, i, -1);
    CostUpdate(w, q[i := -1], j, -1);
    CostUnseen(w, b, node, f);
    CostUpdate(w[node := f], b, node, 1);
    assert CostOf(w[i], 1) == w[i] && CostOf(w[j], 1) == w[j] && CostOf(f, 1) == f;
    assert Ones(roots - {i, j} + {node}, |w|) == b[node := 1];
  }

  lemma {:induction false} JoinedSame(w: seq<nat>, elems: nat, k: nat, f: nat)
    requires elems + k < |w|
    ensures JoinedSum(w[elems + k := f], elems, k) == JoinedSum(w, elems, k)
    ensures JoinedSum(w[elems + k := f], elems, k + 1) == JoinedSum(w, elems, k) + f
  {
    JoinedPrefix(w, w[elems + k := f], elems, k);
  }

  lemma {:induction false} JoinedPrefix(w: seq<nat>, v: seq<nat>, elems: nat, k: nat)
    requires elems + k <= |w| == |v| && forall e :: elems <= e < elems + k ==> v[e] == w[e]
    ensures JoinedSum(v, elems, k) == JoinedSum(w, elems, k)
  {
    if k > 0 { JoinedPrefix(w, v, elems, k - 1); }
  }

  /** The roots after a join. */
  lemma RootsJoined(active: set<nat>, elems: nat, k: nat, joined: seq<nat>, n: nat, m: nat)
    requires n in Roots(active, elems, k, joined) && m in Roots(active, elems, k, joined)
    requires (forall x :: x in active ==> x < elems) && forall x :: x in joined ==> x < elems + k
    ensures elems + k !in Roots(active, elems, k, joined)
    ensures Roots(active, elems, k + 1, [m, n] + joined) == Roots(active, elems, k, joined) - {n, m} + {elems + k}
  {
    InternalsStep(elems, elems + k);
    InternalsMember(elems, elems + k, n);
    InternalsMember(elems, elems + k, m);
    InternalsMember(elems, elems + k, elems + k);
  }

  lemma SumsMore(joined: seq<nat>, w: seq<nat>, elems: nat, k: nat, n: nat, m: nat)
    requires SumsUp([0] + joined, w, elems, k) && |joined| == 2 * k && elems + k < |w| && n < elems + k && m < elems + k
    requires forall x :: x in joined ==> x < elems + k
    ensures SumsUp([0] + ([m, n] + joined), w[elems + k := w[n] + w[m]], elems, k + 1)
  {
    var before, after := [0] + joined, [0] + ([m, n] + joined);
    var v, rounds := w[elems + k := w[n] + w[m]], k + 1;
    forall i | 0 <= i < rounds
      ensures SonsSum(after, v, elems, rounds, i)
    {
      if i < k {
        assert SonsSum(before, w, elems, k, i);
        Shifted(joined, m, n, 2 * (k - i) - 2);
        Shifted(joined, m, n, 2 * (k - i) - 1);
      }
    }
  }

  lemma Shifted(joined: seq<nat>, m: nat, n: nat, i: nat)
    requires i < |joined|
    ensures ([0] + joined)[i + 1] == joined[i] == ([0] + ([m, n] + joined))[i + 3] && joined[i] in joined
  {
  }

  /** What k rounds of joining have come to: the best code of the symbols costs what the best code of the roots costs
      and the joined frequencies more, and nothing joined earlier weighs more than what was joined later. */
  ghost predicate Rounds(active: set<nat>, w0: seq<nat>, tree: seq<CtData>, joined: seq<nat>, elems: nat, k: nat)
  {
    && elems + k <= |tree| == |w0| && |joined| == 2 * k
    && Carries(active, w0, Roots(active, elems, k, joined), Weights(tree), JoinedSum(Weights(tree), elems, k))
    && SumsUp([0] + joined, Weights(tree), elems, k)
    && Total(Weights(tree), Roots(active, elems, k, joined)) == Total(w0, active)
    && Falling(joined, Weights(tree)) && BelowRoots(joined, Weights(tree), Roots(active, elems, k, joined))
  }

  lemma RoundsStart(active: set<nat>, tree: seq<CtData>, elems: nat)
    requires elems <= |tree|
    ensures Rounds(active, Weights(tree), tree, [], elems, 0)
  {
    hide Carries;
    InternalsStep(elems, elems);
    assert Roots(active, elems, 0, []) == active;
    CarriesSame(active, Weights(tree));
  }

  lemma WeightsJoined(a: seq<CtData>, b: seq<CtData>, n: nat, m: nat, node: nat)
    requires NodesJoined(a, b, n, m, node) && a[n].freq + a[m].freq < 65536
    ensures Weights(b) == Weights(a)[node := Weights(a)[n] + Weights(a)[m]]
  {
    Uint16Exact(a[n].freq + a[m].freq);
  }

  /** One more round. */
  lemma RoundStep(active: set<nat>, w0: seq<nat>, a: seq<CtData>, b: seq<CtData>, h: seq<nat>, d: seq<byte>, len: nat,
                  max: nat, elems: nat, k: nat, n: nat, m: nat)
    requires Forest(h, a, len, max, active, elems, k) && Rounds(active, w0, a, h[max..], elems, k)
    requires LeastTwo(h, len, a, d, n, m) && NodesJoined(a, b, n, m, elems + k) && Total(w0, active) < 65536
    ensures Rounds(active, w0, b, [m, n] + h[max..], elems, k + 1)
  {
    hide Carries, Total, JoinedSum, SumsUp, LeastTwo, Roots, Parts, Weights, Internals, Falling, BelowRoots;
    var joined, w := h[max..], Weights(a);
    var roots := Roots(active, elems, k, joined);
    RootsInHeap(h, a, len, max, active, elems, k);
    LeastIn(h, len, a, d, n, m);
    RarestTaken(h, len, a, d, n, m, roots);
    JoinedBelow(h, a, len, max, active, elems, k);
    RootsJoined(active, elems, k, joined, n, m);
    TwoOfTotal(w, roots, n, m);
    WeightsJoined(a, b, n, m, elems + k);
    CarriesOn(active, w0, roots, w, JoinedSum(w, elems, k), n, m, elems + k);
    JoinedSame(w, elems, k, w[n] + w[m]);
    SumsMore(joined, w, elems, k, n, m);
    TotalKept(w, roots, n, m, elems + k);
    FallStep(joined, w, roots, n, m, elems + k);
  }

  lemma LeastIn(h: seq<nat>, len: nat, a: seq<CtData>, d: seq<byte>, n: nat, m: nat)
    requires LeastTwo(h, len, a, d, n, m) && n != m
    ensures len < |h| && n in h[1..len + 1] && m in h[1..len + 1] && n < |a| && m < |a|
  {
    var i :| 0 <= i < len && h[1..len + 1][i] == m;
    assert h[i + 1] == m && NotLater(a, d, n, h[i + 1]) && NotLater(a, d, m, h[i + 1]);
  }

  lemma JoinedBelow(h: seq<nat>, tree: seq<CtData>, len: nat, max: nat, active: set<nat>, elems: nat, k: nat)
    requires Forest(h, tree, len, max, active, elems, k)
    ensures max <= |h| && |h[max..]| == 2 * k && (forall x :: x in active ==> x < elems)
    ensures forall x :: x in h[max..] ==> x < elems + k
  {
    forall x | x in h[max..]
      ensures x < elems + k
    {
      var i :| 0 <= i < 2 * k && h[max..][i] == x;
      assert h[max + i] == x;
    }
  }

  /** When one root is left, no code of the symbols costs less than the joined frequencies. */
  lemma RoundsEnd(active: set<nat>, w0: seq<nat>, tree: seq<CtData>, order: seq<nat>, elems: nat, k: nat)
    requires order != [] && Rounds(active, w0, tree, order[1..], elems, k)
    ensures elems + k <= |tree| && AtLeastCost(active, w0, JoinedSum(Weights(tree), elems, k))
    ensures SumsUp(order, Weights(tree), elems, k)
  {
    hide Carries, Total, JoinedSum, AtLeastCost, Roots, Weights;
    CarriesEnd(active, w0, Roots(active, elems, k, order[1..]), Weights(tree), JoinedSum(Weights(tree), elems, k));
    assert order == [order[0]] + order[1..];
    forall i | 0 <= i < k
      ensures SonsSum(order, Weights(tree), elems, k, i)
    {
      assert SonsSum([0] + order[1..], Weights(tree), elems, k, i);
    }
  }

  /** When one root is left it weighs no more than all symbols, and weights fall along the visiting order. */
  lemma RoundsFall(active: set<nat>, w0: seq<nat>, tree: seq<CtData>, order: seq<nat>, elems: nat, k: nat)
    requires Joined(order, elems, k) && Rounds(active, w0, tree, order[1..], elems, k)
    requires forall e :: e in order ==> e < |tree|
    ensures Falling(order, Weights(tree)) && order[0] < |tree| && Weights(tree)[order[0]] <= Total(w0, active)
  {
    hide Carries, Total, JoinedSum, SumsUp;
    var root, joined, w := order[0], order[1..], Weights(tree);
    InternalsMember(elems, elems + k, root);
    assert root in order;
    assert root !in joined;
    assert root in Roots(active, elems, k, joined);
    OneOfTotal(w, Roots(active, elems, k, joined), root);
    forall s, t | 0 <= s < t < |order|
      ensures w[order[t]] <= w[order[s]]
    {
      assert order[t] == joined[t - 1] && joined[t - 1] in joined;
      if s > 0 { assert order[s] == joined[s - 1]; }
    }
    assert forall t :: 0 <= t < |order| ==> order[t] in order;
  }

  lemma OneOfTotal(w: seq<nat>, roots: set<nat>, i: nat)
    requires i in roots && i < |w|
    ensures w[i] <= Total(w, roots)
  {
    hide CostSum;
    CostUpdate(w, Ones(roots, |w|), i, -1);
    assert CostOf(w[i], 1) == w[i];
  }

  /** The tree is deeper than m. */
  ghost predicate DeeperThan(order: seq<nat>, elems: nat, k: nat, m: nat)
  {
    && Joined(order, elems, k)
    && exists len: seq<nat> :: Depths(order, len, elems, k, m) && m in len[elems..]
  }

  /** Only heavy trees are deep. */
  lemma DeeperHeavy(active: set<nat>, w0: seq<nat>, tree: seq<CtData>, order: seq<nat>, elems: nat, k: nat, m: nat)
    requires DeeperThan(order, elems, k, m) && m >= 1 && Rounds(active, w0, tree, order[1..], elems, k)
    requires forall e :: e in order ==> e < |tree| && (e < elems ==> tree[e].freq >= 1)
    ensures Total(w0, active) >= Fib(m + 3)
  {
    hide Carries, Total, JoinedSum, SumsUp, Fib, Roots, AtLeastCost;
    var len: seq<nat> :| Depths(order, len, elems, k, m) && m in len[elems..];
    var i :| 0 <= i < k && len[elems..][i] == m;
    RoundsFall(active, w0, tree, order, elems, k);
    RoundsEnd(active, w0, tree, order, elems, k);
    DeepWeighs(order, len, Weights(tree), elems, k, m, i);
  }

  /** A walk that cut some depth went over a tree deeper than the limit. */
  lemma AssignDeeper(a: seq<CtData>, b: seq<CtData>, c: seq<int>, q: seq<nat>, order: seq<nat>, active: set<nat>,
                     desc: StaticTreeDesc, k: nat, overflow: nat)
    requires AssignInv(a, b, c, q, order, desc, k, 2 * k + 1, overflow) && overflow > 0
    requires Rooted(order, a, active, desc.elems, k) && |order| == 2 * k + 1 && order[0] < |a|
    requires a[order[0]].length == 0
    requires forall n :: 0 <= n < desc.elems && n !in active ==> n < |a| && a[n].length == 0
    ensures DeeperThan(order, desc.elems, k, desc.maxLength)
  {
    hide *;
    var elems, m := desc.elems, desc.maxLength;
    AssignParts(a, b, c, q, order, desc, k, overflow);
    AssignedLengths(a, b, q, order, active, elems, k, m);
    var len := Lens(b, elems + k);
    OverflowEnd(len, elems, k, m);
    if m !in len[elems..] { CountAbsent(len[elems..], m); }
    MakeDeeper(order, len, elems, k, m);
  }

  lemma MakeDeeper(order: seq<nat>, len: seq<nat>, elems: nat, k: nat, m: nat)
    requires Joined(order, elems, k) && Depths(order, len, elems, k, m) && |len| == elems + k && m in len[elems..]
    ensures DeeperThan(order, elems, k, m)
  {
  }

  /** A tree of two leaves is not deeper than any limit. */
  lemma TwoLeaves(order: seq<nat>, tree: seq<CtData>, active: set<nat>, elems: nat, k: nat, m: nat)
    requires Rooted(order, tree, active, elems, k) && DeeperThan(order, elems, k, m) && m >= 1
    ensures |active| > 2
  {
    var len: seq<nat> :| Depths(order, len, elems, k, m) && m in len[elems..];
    if k == 1 {
      assert false;
    } else {
      assert ParentOf(2 * k, k) == 0 == ParentOf(2 * k - 1, k) && ParentOf(2 * k - 2, k) == 1 == ParentOf(2 * k - 3, k);
      var third := if order[2 * k - 2] < elems then order[2 * k - 2] else order[2 * k - 3];
      assert order[2 * k] in order && order[2 * k - 1] in order && third in order;
      ThreeOf(order[2 * k], order[2 * k - 1], third, active);
    }
  }

  lemma ThreeOf(x: nat, y: nat, z: nat, s: set<nat>)
    requires x in s && y in s && z in s && x != y && y != z && x != z
    ensures |s| > 2
  {
    assert |s - {x}| == |s| - 1;
    assert |s - {x} - {y}| == |s| - 2;
    assert z in s - {x} - {y};
  }

  // -- the lengths of a tree within the limit -------------------------------------------------------------------

  /** No depth was cut to the limit: the symbols' lengths are their depths. */
  ghost predicate Unlimited(order: seq<nat>, b: seq<CtData>, elems: nat, k: nat, m: nat)
  {
    && Joined(order, elems, k) && elems + k <= |b|
    && Depths(order, Lens(b, elems + k), elems, k, m) && Unclamped(Lens(b, elems + k), elems, m)
    && forall n :: 0 <= n < elems ==> b[n].length == if n in order then Lens(b, elems + k)[n] else 0
  }

  lemma {:induction false} CountedOut(s: seq<int>, b: int)
    requires Count(s, b) == 0
    ensures b !in s
  {
    if s != [] {
      CountedOut(s[..|s| - 1], b);
      assert s == s[..|s| - 1] + [s[|s| - 1]];
    }
  }

  /** The walk over the tree that cut no depth. */
  lemma AssignUnlimited(a: seq<CtData>, b: seq<CtData>, c: seq<int>, q: seq<nat>, order: seq<nat>, active: set<nat>,
                        desc: StaticTreeDesc, k: nat)
    requires AssignInv(a, b, c, q, order, desc, k, 2 * k + 1, 0)
    requires Rooted(order, a, active, desc.elems, k) && |order| == 2 * k + 1 && order[0] < |a|
    requires a[order[0]].length == 0
    requires forall n :: 0 <= n < desc.elems && n !in active ==> n < |a| && a[n].length == 0
    ensures Unlimited(order, b, desc.elems, k, desc.maxLength)
  {
    hide *;
    var elems, m := desc.elems, desc.maxLength;
    AssignParts(a, b, c, q, order, desc, k, 0);
    AssignedLengths(a, b, q, order, active, elems, k, m);
    var len := Lens(b, elems + k);
    OverflowEnd(len, elems, k, m);
    CountedOut(len[elems..], m);
    MakeUnclamped(order, len, elems, k, m);
    MakeUnlimited(order, b, elems, k, m);
  }

  lemma MakeUnclamped(order: seq<nat>, len: seq<nat>, elems: nat, k: nat, m: nat)
    requires Joined(order, elems, k) && Depths(order, len, elems, k, m) && |len| == elems + k && m !in len[elems..]
    ensures Unclamped(len, elems, m)
  {
    forall e | elems <= e < |len|
      ensures len[e] < m
    {
      DepthBound(order, len, elems, k, m, e - elems);
      assert len[e] == len[elems..][e - elems];
    }
  }

  lemma MakeUnlimited(order: seq<nat>, b: seq<CtData>, elems: nat, k: nat, m: nat)
    requires Joined(order, elems, k) && elems + k <= |b|
    requires Depths(order, Lens(b, elems + k), elems, k, m) && Unclamped(Lens(b, elems + k), elems, m)
    requires forall n :: 0 <= n < elems ==> b[n].length == if n in order then Lens(b, elems + k)[n] else 0
    ensures Unlimited(order, b, elems, k, m)
  {
  }

  // -- the tree that is built -------------------------------------------------------------------------------------

  lemma {:induction false} TotalIsSum(w: seq<nat>, active: set<nat>)
    requires forall n :: 0 <= n < |w| && n !in active ==> w[n] == 0
    ensures Total(w, active) == Sum(w)
  {
    if w != [] {
      var last := |w| - 1;
      TotalIsSum(w[..last], active);
      assert Ones(active, |w|)[..last] == Ones(active, last);
    }
  }

  lemma {:induction false} TotalBelow(w: seq<nat>, active: set<nat>, n: nat)
    requires n <= |w| && forall x :: x in active ==> x < n
    ensures Total(w, active) == Total(w[..n], active)
    decreases |w|
  {
    if n == |w| {
      assert w[..n] == w;
    } else {
      var last := |w| - 1;
      TotalBelow(w[..last], active, n);
      assert Ones(active, |w|)[..last] == Ones(active, last);
      assert w[..last][..n] == w[..n];
    }
  }

  /** Joining the rarest and reading the depths off the tree gives a cheapest code. */
  lemma BuiltCheapest(a: seq<CtData>, b: seq<CtData>, order: seq<nat>, active: set<nat>, elems: nat, k: nat, m: nat)
    requires elems <= |a| == |b| && Freqs(b, elems) == Freqs(a, elems) && order != []
    requires Rounds(active, Weights(a), b, order[1..], elems, k) && Unlimited(order, b, elems, k, m) && m >= 1
    requires forall n :: n in active ==> n < elems && a[n].freq != 0
    ensures Cheapest(Freqs(a, elems), Lens(b, elems))
  {
    hide Joined, Depths, Unclamped, AtLeastCost, SumsUp, JoinedSum, Carries, Rounds, Cheapest;
    var w0, w := Weights(a), Weights(b);
    RoundsEnd(active, w0, b, order, elems, k);
    assert w0[..elems] == Freqs(a, elems) == w[..elems];
    TreeCheapest(order, Lens(b, elems + k), w0, w, elems, k, m, active, Lens(b, elems));
  }

  /** Only lengths differ: the frequencies weigh the same. */
  lemma RoundsSame(active: set<nat>, w0: seq<nat>, b: seq<CtData>, c: seq<CtData>, joined: seq<nat>, elems: nat, k: nat)
    requires Rounds(active, w0, b, joined, elems, k) && |c| == |b|
    requires forall x :: 0 <= x < |b| ==> c[x] == b[x].(length := c[x].length)
    ensures Rounds(active, w0, c, joined, elems, k)
  {
    hide Carries, Total, JoinedSum, SumsUp, Roots, Falling, BelowRoots;
    assert Weights(c) == Weights(b);
  }

  lemma {:induction false} OneBitCost(f: seq<nat>, lens: seq<nat>, other: seq<nat>)
    requires |f| == |lens| == |other|
    requires forall n :: 0 <= n < |f| && f[n] != 0 ==> lens[n] <= other[n]
    ensures CostSum(f, lens) <= CostSum(f, other)
  {
    if f != [] {
      var last := |f| - 1;
      OneBitCost(f[..last], lens[..last], other[..last]);
      if f[last] == 0 {
        assert f[last] * lens[last] == 0 == f[last] * other[last];
      } else {
        Grows(lens[last], other[last], f[last]);
      }
    }
  }

  /** Code words of one bit cannot be shorter. */
  lemma OneBitCheapest(f: seq<nat>, lens: seq<nat>)
    requires |lens| == |f| && forall n :: 0 <= n < |f| && f[n] != 0 ==> lens[n] == 1
    ensures Cheapest(f, lens)
  {
    hide CostSum;
    forall other: seq<nat>, m: nat | |other| == |f| && Covers(other, f, m)
      ensures CostSum(f, lens) <= CostSum(f, other)
    {
      OneBitCost(f, lens, other);
    }
  }
}
