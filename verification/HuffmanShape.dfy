/** Why the lengths read off a Huffman tree fill the code space. The tree is
    given as a visiting order: the root first, then the two children of each
    internal node, later-made internal nodes before earlier ones. Node numbers
    below elems are symbols; internal node i is number elems + i. */
module HuffmanShape {
  import opened Bits
  import opened PrefixCodes

  /** The share of the code space below a node; -1 marks a node not reached yet. */
  function NodeWeight(len: int, m: nat): nat
  {
    if 0 <= len <= m then Pow2(m - len) else 0
  }

  function WeightSum(q: seq<int>, m: nat): nat
  {
    if q == [] then 0 else WeightSum(q[..|q| - 1], m) + NodeWeight(q[|q| - 1], m)
  }

  lemma {:induction false} WeightSumUpdate(q: seq<int>, i: nat, v: int, m: nat)
    requires i < |q|
    ensures WeightSum(q[i := v], m) + NodeWeight(q[i], m) == WeightSum(q, m) + NodeWeight(v, m)
  {
    var init := q[..|q| - 1];
    if i == |q| - 1 {
      assert q[i := v][..i] == init;
    } else {
      WeightSumUpdate(init, i, v, m);
      assert q[i := v][..|q| - 1] == init[i := v];
    }
  }

  function Min(a: int, b: int): int { if a <= b then a else b }

  /** The internal node whose child stands at place t of the order. */
  function ParentOf(t: nat, k: nat): nat
    requires t <= 2 * k
  {
    (2 * k - t) / 2
  }

  /** A forest of k joins that has become one tree. */
  ghost predicate Joined(order: seq<nat>, elems: nat, k: nat)
  {
    && k >= 1 && |order| == 2 * k + 1 && order[0] == elems + k - 1
    && (forall t :: 1 <= t <= 2 * k ==> order[t] < elems + ParentOf(t, k))
    && (forall s, t :: 0 <= s < t <= 2 * k ==> order[s] != order[t])
    && (forall e :: elems <= e < elems + k ==> e in order)
  }

  /** Every node is one deeper than its parent, but never deeper than m. */
  ghost predicate Depths(order: seq<nat>, len: seq<nat>, elems: nat, k: nat, m: nat)
    requires Joined(order, elems, k)
  {
    && |len| == elems + k && len[order[0]] == 0
    && forall t :: 1 <= t <= 2 * k ==>
      len[order[t]] == Min(len[elems + ParentOf(t, k)] + 1, m)
  }

  /** The lengths of the nodes below elems + i reached once the joins from i on are undone. */
  ghost predicate Reached(q: seq<int>, order: seq<nat>, len: seq<nat>, elems: nat, k: nat, i: nat)
  {
    && i <= k && |q| == elems + i && |len| == elems + k && |order| == 2 * k + 1
    && forall e :: 0 <= e < |q| ==> q[e] == if e in order[..2 * (k - i) + 1] then len[e] else -1
  }

  lemma {:induction false} CountPrepend(x: int, s: seq<int>, b: int)
    ensures Count([x] + s, b) == Count(s, b) + (if x == b then 1 else 0)
  {
    if s == [] {
      assert ([x] + s)[..0] == [];
    } else {
      CountPrepend(x, s[..|s| - 1], b);
      assert ([x] + s)[..|s|] == [x] + s[..|s| - 1];
    }
  }

  lemma {:induction false} CountAbsent(s: seq<int>, b: int)
    requires b !in s
    ensures Count(s, b) == 0
  {
    if s != [] { CountAbsent(s[..|s| - 1], b); }
  }

  lemma {:induction false} WeightAbsent(n: nat, m: nat)
    ensures WeightSum(seq(n, _ => -1), m) == 0
  {
    if n > 0 {
      WeightAbsent(n - 1, m);
      assert seq(n, _ => -1)[..n - 1] == seq(n - 1, _ => -1);
    }
  }

  lemma FrontierStart(order: seq<nat>, len: seq<nat>, elems: nat, k: nat, m: nat) returns (q: seq<int>)
    requires Joined(order, elems, k) && Depths(order, len, elems, k, m) && m >= 1
    ensures Reached(q, order, len, elems, k, k)
    ensures WeightSum(q, m) == Pow2(m)
  {
    var none := seq(elems + k, _ => -1);
    q := none[order[0] := 0];
    WeightAbsent(elems + k, m);
    WeightSumUpdate(none, order[0], 0, m);
    assert order[..1] == [order[0]];
  }

  /** The node a join made is reached before its own children. */
  lemma ParentReached(order: seq<nat>, elems: nat, k: nat, i: nat)
    requires Joined(order, elems, k) && i < k
    ensures elems + i in order[..2 * (k - i - 1) + 1]
  {
    assert elems + i in order;
    var t :| 0 <= t < |order| && order[t] == elems + i;
    assert t == 0 || i < ParentOf(t, k);
    assert order[..2 * (k - i - 1) + 1][t] == elems + i;
  }

  lemma ChildrenNew(order: seq<nat>, elems: nat, k: nat, i: nat)
    requires Joined(order, elems, k) && i < k
    ensures var j := 2 * (k - i) - 1;
      && order[j] !in order[..j] && order[j + 1] !in order[..j] && order[j] != order[j + 1]
      && order[j] < elems + i && order[j + 1] < elems + i
      && order[..j + 2] == order[..j] + [order[j], order[j + 1]]
  {
    var j := 2 * (k - i) - 1;
    assert ParentOf(j, k) == i && ParentOf(j + 1, k) == i;
  }

  lemma FrontierNodes(order: seq<nat>, len: seq<nat>, elems: nat, k: nat, i: nat, q: seq<int>, d: int)
    requires Joined(order, elems, k) && i < k && Reached(q, order, len, elems, k, i + 1)
    requires var j := 2 * (k - i) - 1; len[order[j]] == d && len[order[j + 1]] == d
    ensures |q| == elems + i + 1 && |len| == elems + k && |order| == 2 * k + 1
    ensures var a, b, p := order[2 * (k - i) - 1], order[2 * (k - i)], q[..elems + i];
      && a < |p| && b < |p| && a != b && p[a] == -1 && p[b] == -1
      && q[elems + i] == len[elems + i]
      && Reached(p[a := d][b := d], order, len, elems, k, i)
  {
    ParentReached(order, elems, k, i);
    ChildrenNew(order, elems, k, i);
  }

  /** Undoing one join: a node gives way to its two children. */
  lemma FrontierStep(order: seq<nat>, len: seq<nat>, elems: nat, k: nat, m: nat, i: nat, q: seq<int>)
    returns (r: seq<int>)
    requires Joined(order, elems, k) && Depths(order, len, elems, k, m) && i < k
    requires Reached(q, order, len, elems, k, i + 1)
    ensures Reached(r, order, len, elems, k, i)
    ensures var l := len[elems + i];
      && l <= m
      && WeightSum(r, m) + NodeWeight(l, m) == WeightSum(q, m) + 2 * NodeWeight(Min(l + 1, m), m)
      && Count(r, m) + (if l == m then 1 else 0) == Count(q, m) + (if l + 1 >= m then 2 else 0)
  {
    hide *;
    var a, b, d := ChildDepths(order, len, elems, k, m, i);
    FrontierNodes(order, len, elems, k, i, q, d);
    FrontierDrop(q, elems + i, m);
    TwoReached(q[..elems + i], a, b, d, m);
    r := q[..elems + i][a := d][b := d];
  }

  lemma ChildDepths(order: seq<nat>, len: seq<nat>, elems: nat, k: nat, m: nat, i: nat)
    returns (a: nat, b: nat, d: nat)
    requires Joined(order, elems, k) && Depths(order, len, elems, k, m) && i < k
    ensures |len| == elems + k && |order| == 2 * k + 1 && len[elems + i] <= m
    ensures a == order[2 * (k - i) - 1] && b == order[2 * (k - i)] && a < elems + i && b < elems + i
    ensures d == Min(len[elems + i] + 1, m) == (if len[elems + i] + 1 <= m then len[elems + i] + 1 else m)
    ensures len[a] == d && len[b] == d
  {
    var j := 2 * (k - i) - 1;
    DepthBound(order, len, elems, k, m, i);
    assert ParentOf(j, k) == i && ParentOf(j + 1, k) == i;
    a, b, d := order[j], order[j + 1], Min(len[elems + i] + 1, m);
  }

  lemma TwoReached(p: seq<int>, a: nat, b: nat, d: int, m: nat)
    requires a < |p| && b < |p| && a != b && p[a] == -1 && p[b] == -1
    ensures WeightSum(p[a := d][b := d], m) == WeightSum(p, m) + 2 * NodeWeight(d, m)
    ensures Count(p[a := d][b := d], m) == Count(p, m) + if d == m then 2 else 0
  {
    hide WeightSum, Count;
    WeightSumUpdate(p, a, d, m);
    CountUpdate(p, a, d, m);
    WeightSumUpdate(p[a := d], b, d, m);
    CountUpdate(p[a := d], b, d, m);
  }

  lemma FrontierDrop(q: seq<int>, e: nat, m: nat)
    requires |q| == e + 1
    ensures WeightSum(q, m) == WeightSum(q[..e], m) + NodeWeight(q[e], m)
    ensures Count(q, m) == Count(q[..e], m) + if q[e] == m then 1 else 0
  {
  }

  lemma DepthBound(order: seq<nat>, len: seq<nat>, elems: nat, k: nat, m: nat, i: nat)
    requires Joined(order, elems, k) && Depths(order, len, elems, k, m) && i < k
    ensures len[elems + i] <= m
  {
    assert elems + i in order;
    var t :| 0 <= t < |order| && order[t] == elems + i;
    if t > 0 { assert len[order[t]] == Min(len[elems + ParentOf(t, k)] + 1, m); }
  }

  /** The two children of a node at depth l share its weight, except at the depth limit,
      where each keeps a whole unit. */
  lemma SplitWeight(l: nat, m: nat)
    requires l <= m
    ensures 2 * NodeWeight(Min(l + 1, m), m) == NodeWeight(l, m) + (if l == m then 1 else 0)
  {
  }

  lemma {:induction false} Frontier(order: seq<nat>, len: seq<nat>, elems: nat, k: nat, m: nat, i: nat)
    returns (q: seq<int>)
    requires Joined(order, elems, k) && Depths(order, len, elems, k, m) && m >= 1 && i <= k
    ensures Reached(q, order, len, elems, k, i)
    ensures WeightSum(q, m) == Pow2(m) + Count(len[elems + i..], m)
    ensures Count(q, m) >= Count(len[elems + i..], m)
    decreases k - i
  {
    assert |len| == elems + k;
    hide *;
    if i == k {
      q := FrontierStart(order, len, elems, k, m);
      SuffixCount(len, elems + k, m);
    } else {
      var p := Frontier(order, len, elems, k, m, i + 1);
      q := FrontierStep(order, len, elems, k, m, i, p);
      SplitWeight(len[elems + i], m);
      SuffixCount(len, elems + i, m);
    }
  }

  lemma SuffixCount(s: seq<int>, j: nat, b: int)
    requires j <= |s|
    ensures Count(s[j..], b) == if j == |s| then 0 else Count(s[j + 1..], b) + if s[j] == b then 1 else 0
  {
    if j < |s| {
      CountPrepend(s[j], s[j + 1..], b);
      assert s[j..] == [s[j]] + s[j + 1..];
    }
  }

  lemma {:induction false} LeafSums(q: seq<int>, lens: seq<nat>, m: nat)
    requires m >= 1 && |q| == |lens|
    requires forall n :: 0 <= n < |q| ==> if q[n] == -1 then lens[n] == 0 else lens[n] == q[n] >= 1
    ensures WeightSum(q, m) == Kraft(lens, m) && Count(q, m) == Count(lens, m)
  {
    if q != [] { LeafSums(q[..|q| - 1], lens[..|lens| - 1], m); }
  }

  /** The Kraft sum of a tree's leaves is one, plus a unit for each internal node at the
      depth limit; and at least as many leaves as such nodes sit at the limit. */
  lemma TreeKraft(order: seq<nat>, len: seq<nat>, elems: nat, k: nat, m: nat, lens: seq<nat>)
    requires Joined(order, elems, k) && Depths(order, len, elems, k, m) && m >= 1
    requires |lens| == elems
    requires forall n :: 0 <= n < elems ==> lens[n] == if n in order then len[n] else 0
    ensures Kraft(lens, m) == Pow2(m) + Count(len[elems..], m)
    ensures Count(lens, m) >= Count(len[elems..], m)
    ensures Bounded(lens, m) && forall n :: 0 <= n < elems ==> (lens[n] == 0 <==> n !in order)
  {
    hide WeightSum, Kraft, Count, Pow2, Weight;
    LeafDepths(order, len, elems, k, m);
    var q := Frontier(order, len, elems, k, m, 0);
    assert order[..2 * k + 1] == order;
    assert len[elems + 0..] == len[elems..];
    LeafSums(q, lens, m);
  }

  lemma LeafDepths(order: seq<nat>, len: seq<nat>, elems: nat, k: nat, m: nat)
    requires Joined(order, elems, k) && Depths(order, len, elems, k, m) && m >= 1
    ensures forall n :: 0 <= n < elems && n in order ==> 1 <= len[n] <= m
  {
    forall n | 0 <= n < elems && n in order
      ensures 1 <= len[n] <= m
    {
      var t :| 0 <= t < |order| && order[t] == n;
      assert t > 0 ==> len[order[t]] == Min(len[elems + ParentOf(t, k)] + 1, m);
    }
  }
}
