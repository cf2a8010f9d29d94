/** Why joining the two least frequent nodes is best: no prefix code of the same symbols costs less than the sum of the
    frequencies the joined nodes got. Codes are given by the depth of each node, -1 where a node has no code word. */
module HuffmanOptimal {
  import opened Arith
  import opened Bits
  import opened PrefixCodes
  import opened HuffmanShape

  /** What a code costs: every node's frequency times its depth. */
  function CostSum(w: seq<nat>, q: seq<int>): nat
    requires |w| == |q|
  {
    if q == [] then 0
    else
      var last := |q| - 1;
      CostSum(w[..last], q[..last]) + if q[last] < 0 then 0 else w[last] * q[last]
  }

  function CostOf(f: nat, depth: int): nat
  {
    if depth < 0 then 0 else f * depth
  }

  lemma {:induction false} CostUpdate(w: seq<nat>, q: seq<int>, i: nat, v: int)
    requires |w| == |q| && i < |q|
    ensures CostSum(w, q[i := v]) + CostOf(w[i], q[i]) == CostSum(w, q) + CostOf(w[i], v)
  {
    var last := |q| - 1;
    if i == last {
      assert q[i := v][..last] == q[..last];
    } else {
      CostUpdate(w[..last], q[..last], i, v);
      assert q[i := v][..last] == q[..last][i := v];
    }
  }

  lemma {:induction false} CostUnseen(w: seq<nat>, q: seq<int>, i: nat, f: nat)
    requires |w| == |q| && i < |q| && q[i] < 0
    ensures CostSum(w[i := f], q) == CostSum(w, q)
  {
    var last := |q| - 1;
    if i == last {
      assert w[i := f][..last] == w[..last];
    } else {
      CostUnseen(w[..last], q[..last], i, f);
      assert w[i := f][..last] == w[..last][i := f];
    }
  }

  /** Depths of code words for the roots, none deeper than m, that fit the code space. */
  ghost predicate CodeFor(q: seq<int>, roots: set<nat>, m: nat)
  {
    && (forall n :: n in roots ==> n < |q|)
    && (forall n :: 0 <= n < |q| ==> if n in roots then 0 <= q[n] <= m else q[n] == -1)
    && WeightSum(q, m) <= Pow2(m)
  }

  /** No code for the roots costs less than c. */
  ghost predicate AtLeastCost(roots: set<nat>, w: seq<nat>, c: int)
  {
    forall q: seq<int>, m: nat :: CodeFor(q, roots, m) && |q| == |w| ==> CostSum(w, q) >= c
  }

  lemma CostIsLeast(roots: set<nat>, w: seq<nat>, c: int, q: seq<int>, m: nat)
    requires AtLeastCost(roots, w, c) && CodeFor(q, roots, m) && |q| == |w|
    ensures CostSum(w, q) >= c
  {
  }

  // -- the code space ---------------------------------------------------------------------------------------

  lemma {:induction false} ScaleWeight(q: seq<int>, l: nat, m: nat)
    requires l <= m && forall n :: 0 <= n < |q| ==> -1 <= q[n] <= l
    ensures WeightSum(q, m) == WeightSum(q, l) * Pow2(m - l)
  {
    if q != [] {
      var last := |q| - 1;
      ScaleWeight(q[..last], l, m);
      MulDist(WeightSum(q[..last], l), NodeWeight(q[last], l), Pow2(m - l));
      if q[last] >= 0 { Pow2Add(l - q[last], m - l); }
    }
  }

  /** A code fits at the depth of its deepest node. */
  lemma Shallow(q: seq<int>, roots: set<nat>, l: nat, m: nat)
    requires CodeFor(q, roots, m) && l <= m && forall n :: 0 <= n < |q| ==> q[n] <= l
    ensures CodeFor(q, roots, l)
  {
    hide WeightSum, Pow2;
    ScaleWeight(q, l, m);
    Pow2Add(l, m - l);
    if WeightSum(q, l) > Pow2(l) {
      Larger(WeightSum(q, l), Pow2(l), Pow2(m - l));
    }
  }

  lemma Larger(a: nat, b: nat, c: nat)
    requires a > b && c >= 1
    ensures a * c > b * c
  {
    MulPositive(a - b, c);
    MulDist(a - b, b, c);
    assert a == (a - b) + b;
  }

  /** Where only one node lies at the deepest level, the sum of shares is odd. */
  lemma {:induction false} OddWeight(q: seq<int>, l: nat, p: nat)
    requires p < |q| && q[p] == l && forall n :: 0 <= n < |q| && n != p ==> -1 <= q[n] < l
    ensures WeightSum(q, l) % 2 == 1
  {
    var last := |q| - 1;
    if p == last {
      EvenWeight(q[..last], l);
    } else {
      OddWeight(q[..last], l, p);
      EvenNode(q[last], l);
    }
  }

  lemma EvenNode(depth: int, l: nat)
    requires depth < l
    ensures NodeWeight(depth, l) % 2 == 0
  {
  }

  lemma {:induction false} EvenWeight(q: seq<int>, l: nat)
    requires forall n :: 0 <= n < |q| ==> -1 <= q[n] < l
    ensures WeightSum(q, l) % 2 == 0
  {
    if q != [] {
      EvenWeight(q[..|q| - 1], l);
      EvenNode(q[|q| - 1], l);
    }
  }

  lemma TwoUnits(q: seq<int>, i: nat, j: nat)
    requires i < |q| && j < |q| && i != j && q[i] == 0 == q[j]
    ensures WeightSum(q, 0) >= 2
  {
    hide WeightSum;
    WeightSumUpdate(q, i, -1, 0);
    WeightSumUpdate(q[i := -1], j, -1, 0);
    assert NodeWeight(0, 0) == 1 && NodeWeight(-1, 0) == 0;
  }

  /** Two nodes cannot both lie at the top. */
  lemma BelowTop(q: seq<int>, roots: set<nat>, m: nat, i: nat, j: nat)
    requires CodeFor(q, roots, m) && i in roots && j in roots && i != j
    ensures m >= 1
  {
    hide WeightSum;
    if m == 0 { TwoUnits(q, i, j); }
  }

  // -- exchanging nodes -------------------------------------------------------------------------------------

  function Swapped(q: seq<int>, i: nat, j: nat): seq<int>
    requires i < |q| && j < |q|
  {
    q[i := q[j]][j := q[i]]
  }

  /** The rarer node takes the deeper place. */
  lemma SwapDown(w: seq<nat>, q: seq<int>, roots: set<nat>, m: nat, i: nat, j: nat)
    requires CodeFor(q, roots, m) && |w| == |q| && i in roots && j in roots && i != j
    requires w[i] <= w[j] && q[i] <= q[j]
    ensures CodeFor(Swapped(q, i, j), roots, m) && CostSum(w, Swapped(q, i, j)) <= CostSum(w, q)
  {
    hide WeightSum, CostSum, NodeWeight;
    var a := q[i := q[j]];
    WeightSumUpdate(q, i, q[j], m);
    WeightSumUpdate(a, j, q[i], m);
    CostUpdate(w, q, i, q[j]);
    CostUpdate(w, a, j, q[i]);
    Crossed(w[i], w[j], q[i], q[j]);
  }

  lemma Crossed(a: nat, b: nat, x: nat, y: nat)
    requires a <= b && x <= y
    ensures a * y + b * x <= a * x + b * y
  {
    MulDist(a, b - a, y);
    MulDist(a, b - a, x);
    assert b == a + (b - a);
    Grows(x, y, b - a);
  }

  lemma Grows(x: nat, y: nat, c: nat)
    requires x <= y
    ensures c * x <= c * y
  {
  }

  /** The single deepest node may come up by one. */
  lemma Raise(w: seq<nat>, q: seq<int>, roots: set<nat>, l: nat, p: nat)
    requires CodeFor(q, roots, l) && |w| == |q| && l >= 1 && p in roots && q[p] == l
    requires forall n :: 0 <= n < |q| && n != p ==> q[n] < l
    ensures CodeFor(q[p := l - 1], roots, l) && CostSum(w, q[p := l - 1]) <= CostSum(w, q)
    ensures CodeFor(q[p := l - 1], roots, l - 1)
  {
    hide WeightSum, CostSum;
    OddWeight(q, l, p);
    assert Pow2(l) % 2 == 0;
    WeightSumUpdate(q, p, l - 1, l);
    assert NodeWeight(l, l) == 1 && NodeWeight(l - 1, l) == 2;
    CostUpdate(w, q, p, l - 1);
    Grows(l - 1, l, w[p]);
    Shallow(q[p := l - 1], roots, l - 1, l);
  }

  /** Two nodes at the deepest level. */
  ghost predicate TwoDeepest(q: seq<int>, l: nat, i: nat, j: nat)
  {
    i < |q| && j < |q| && i != j && q[i] == l && q[j] == l
  }

  /** Of two deepest places the rarest node may have one. */
  lemma FirstDown(w: seq<nat>, q: seq<int>, roots: set<nat>, l: nat, i: nat, p: nat, p2: nat)
    returns (r: seq<int>, other: nat)
    requires CodeFor(q, roots, l) && |w| == |q| && i in roots && TwoDeepest(q, l, p, p2)
    requires forall n :: n in roots ==> w[i] <= w[n]
    ensures CodeFor(r, roots, l) && |r| == |q| && CostSum(w, r) <= CostSum(w, q) && TwoDeepest(r, l, i, other)
  {
    hide WeightSum, CostSum;
    if q[i] == l {
      r, other := q, if i == p then p2 else p;
    } else {
      SwapDown(w, q, roots, l, i, p);
      r, other := Swapped(q, i, p), p2;
    }
  }

  /** And the rarest but one the other. */
  lemma BothDown(w: seq<nat>, q: seq<int>, roots: set<nat>, l: nat, i: nat, j: nat, p: nat, p2: nat)
    returns (r: seq<int>)
    requires CodeFor(q, roots, l) && |w| == |q| && i in roots && j in roots && i != j && TwoDeepest(q, l, p, p2)
    requires forall n :: n in roots ==> w[i] <= w[n]
    requires forall n :: n in roots && n != i ==> w[j] <= w[n]
    ensures CodeFor(r, roots, l) && |r| == |q| && CostSum(w, r) <= CostSum(w, q) && TwoDeepest(r, l, i, j)
  {
    hide WeightSum, CostSum;
    var s, other := FirstDown(w, q, roots, l, i, p, p2);
    if s[j] == l {
      r := s;
    } else {
      SwapDown(w, s, roots, l, j, other);
      r := Swapped(s, j, other);
    }
  }

  /** Two nodes at the deepest level give way to one a level up. */
  lemma Merge(w: seq<nat>, q: seq<int>, roots: set<nat>, l: nat, i: nat, j: nat, node: nat)
    requires CodeFor(q, roots, l) && |w| == |q| && TwoDeepest(q, l, i, j) && i in roots && j in roots && l >= 1
    requires node < |q| && node !in roots
    ensures var r := q[i := -1][j := -1][node := l - 1];
      && CodeFor(r, roots - {i, j} + {node}, l)
      && CostSum(w[node := w[i] + w[j]], r) + w[i] + w[j] == CostSum(w, q)
  {
    hide WeightSum, CostSum;
    var a, b := q[i := -1], q[i := -1][j := -1];
    WeightSumUpdate(q, i, -1, l);
    WeightSumUpdate(a, j, -1, l);
    WeightSumUpdate(b, node, l - 1, l);
    assert NodeWeight(l, l) == 1 && NodeWeight(l - 1, l) == 2 && NodeWeight(-1, l) == 0;
    var f := w[i] + w[j];
    CostUpdate(w, q, i, -1);
    CostUpdate(w, a, j, -1);
    CostUnseen(w, b, node, f);
    CostUpdate(w[node := f], b, node, l - 1);
    MulDist(w[i], w[j], l);
    Below(f, l);
  }

  lemma Below(f: nat, l: nat)
    requires l >= 1
    ensures f * (l - 1) + f == f * l
  {
  }

  // -- the best code ----------------------------------------------------------------------------------------

  lemma {:induction false} Deepest(q: seq<int>, roots: set<nat>) returns (p: nat)
    requires roots != {} && forall n :: n in roots ==> n < |q|
    ensures p in roots && forall n :: n in roots ==> q[n] <= q[p]
    decreases roots
  {
    var x :| x in roots;
    var rest := roots - {x};
    p := x;
    if rest != {} {
      var y := Deepest(q, rest);
      if q[y] > q[x] { p := y; }
    }
  }

  /** The rarest root is i, and the rarest but it is j. */
  ghost predicate RarestTwo(roots: set<nat>, w: seq<nat>, i: nat, j: nat)
  {
    && i in roots && j in roots && i != j && (forall n :: n in roots ==> n < |w|)
    && (forall n :: n in roots ==> w[i] <= w[n]) && forall n :: n in roots && n != i ==> w[j] <= w[n]
  }

  /** Any code for the roots makes one for the roots with the two rarest joined, which costs so much less. */
  lemma {:induction false} Merged(w: seq<nat>, q: seq<int>, roots: set<nat>, l: nat, i: nat, j: nat, node: nat)
    returns (r: seq<int>, m: nat)
    requires CodeFor(q, roots, l) && |w| == |q| && RarestTwo(roots, w, i, j) && node < |q| && node !in roots
    ensures |r| == |q| && CodeFor(r, roots - {i, j} + {node}, m)
    ensures CostSum(w[node := w[i] + w[j]], r) + w[i] + w[j] <= CostSum(w, q)
    decreases l
  {
    hide WeightSum, CostSum;
    BelowTop(q, roots, l, i, j);
    var p := Deepest(q, roots);
    if q[p] < l {
      Shallow(q, roots, q[p], l);
      r, m := Merged(w, q, roots, q[p], i, j, node);
    } else if p2: nat :| p2 in roots && p2 != p && q[p2] == l {
      var s := BothDown(w, q, roots, l, i, j, p, p2);
      Merge(w, s, roots, l, i, j, node);
      r, m := s[i := -1][j := -1][node := l - 1], l;
    } else {
      Raise(w, q, roots, l, p);
      r, m := Merged(w, q[p := l - 1], roots, l - 1, i, j, node);
    }
  }

  /** What bounds the cost after a join, with the new node's frequency bounds it before. */
  lemma JoinBound(roots: set<nat>, w: seq<nat>, i: nat, j: nat, node: nat, c: int)
    requires RarestTwo(roots, w, i, j) && node < |w| && node !in roots
    requires AtLeastCost(roots - {i, j} + {node}, w[node := w[i] + w[j]], c)
    ensures AtLeastCost(roots, w, c + w[i] + w[j])
  {
    hide CodeFor, CostSum, RarestTwo;
    assert RarestTwo(roots, w, i, j);
    RarestInside(roots, w, i, j);
    forall q: seq<int>, m: nat | CodeFor(q, roots, m) && |q| == |w|
      ensures CostSum(w, q) >= c + w[i] + w[j]
    {
      var r, l := Merged(w, q, roots, m, i, j, node);
      CostIsLeast(roots - {i, j} + {node}, w[node := w[i] + w[j]], c, r, l);
    }
  }

  lemma RarestInside(roots: set<nat>, w: seq<nat>, i: nat, j: nat)
    requires RarestTwo(roots, w, i, j)
    ensures i < |w| && j < |w|
  {
  }

  /** Whatever bounds the cost of a code for these roots, that and `joined` more bounds it for the first ones. */
  ghost predicate Carries(first: set<nat>, w0: seq<nat>, roots: set<nat>, w: seq<nat>, joined: int)
  {
    forall c: int :: AtLeastCost(roots, w, c) ==> AtLeastCost(first, w0, c + joined)
  }

  lemma CarriesSame(roots: set<nat>, w: seq<nat>)
    ensures Carries(roots, w, roots, w, 0)
  {
    hide AtLeastCost;
    forall c: int | AtLeastCost(roots, w, c) ensures AtLeastCost(roots, w, c + 0) {}
  }

  lemma CarriesOn(first: set<nat>, w0: seq<nat>, roots: set<nat>, w: seq<nat>, joined: int, i: nat, j: nat, node: nat)
    requires Carries(first, w0, roots, w, joined) && RarestTwo(roots, w, i, j) && node < |w| && node !in roots
    ensures i < |w| && j < |w|
    ensures Carries(first, w0, roots - {i, j} + {node}, w[node := w[i] + w[j]], joined + w[i] + w[j])
  {
    hide AtLeastCost, RarestTwo;
    RarestInside(roots, w, i, j);
    var left, v, f := roots - {i, j} + {node}, w[node := w[i] + w[j]], w[i] + w[j];
    forall c: int | AtLeastCost(left, v, c)
      ensures AtLeastCost(first, w0, c + (joined + w[i] + w[j]))
    {
      JoinBound(roots, w, i, j, node, c);
      assert c + f + joined == c + (joined + w[i] + w[j]);
    }
  }

  /** One root alone costs nothing. */
  lemma CarriesEnd(first: set<nat>, w0: seq<nat>, roots: set<nat>, w: seq<nat>, joined: int)
    requires Carries(first, w0, roots, w, joined)
    ensures AtLeastCost(first, w0, joined)
  {
    hide CostSum, CodeFor;
    assert AtLeastCost(roots, w, 0);
    assert AtLeastCost(first, w0, 0 + joined);
  }

  // -- what the tree's own code costs -----------------------------------------------------------------------

  /** The frequencies of the first k nodes made by joining. */
  function JoinedSum(w: seq<nat>, elems: nat, k: nat): nat
    requires elems + k <= |w|
  {
    if k == 0 then 0 else JoinedSum(w, elems, k - 1) + w[elems + k - 1]
  }

  /** The node of join i has its sons' frequencies together. */
  predicate SonsSum(order: seq<nat>, w: seq<nat>, elems: nat, k: nat, i: nat)
  {
    && i < k && |order| == 2 * k + 1 && elems + i < |w|
    && order[2 * (k - i) - 1] < |w| && order[2 * (k - i)] < |w|
    && w[elems + i] == w[order[2 * (k - i) - 1]] + w[order[2 * (k - i)]]
  }

  ghost predicate SumsUp(order: seq<nat>, w: seq<nat>, elems: nat, k: nat)
  {
    elems + k <= |w| && forall i :: 0 <= i < k ==> SonsSum(order, w, elems, k, i)
  }

  lemma CostNothing(w: seq<nat>, n: nat)
    requires |w| == n
    ensures CostSum(w, seq(n, _ => -1)) == 0
    decreases n
  {
    if n > 0 {
      CostNothing(w[..n - 1], n - 1);
      assert seq(n, _ => -1)[..n - 1] == seq(n - 1, _ => -1);
    }
  }

  lemma CostDrop(w: seq<nat>, q: seq<int>)
    requires |w| == |q| && q != []
    ensures CostSum(w, q) == CostSum(w[..|q| - 1], q[..|q| - 1]) + CostOf(w[|q| - 1], q[|q| - 1])
  {
  }

  /** No inner node lies at the limit, so every node is one deeper than its father. */
  ghost predicate Unclamped(len: seq<nat>, elems: nat, m: nat)
  {
    forall e :: elems <= e < |len| ==> len[e] < m
  }

  /** The nodes reached once the joins from i on are undone cost what those joins' nodes weigh. */
  lemma {:induction false} FrontierCost(order: seq<nat>, len: seq<nat>, w: seq<nat>, elems: nat, k: nat, m: nat, i: nat)
    returns (q: seq<int>)
    requires Joined(order, elems, k) && Depths(order, len, elems, k, m) && m >= 1 && i <= k
    requires Unclamped(len, elems, m) && SumsUp(order, w, elems, k)
    ensures Reached(q, order, len, elems, k, i) && |q| == elems + i <= |w|
    ensures CostSum(w[..elems + i], q) + JoinedSum(w, elems, i) == JoinedSum(w, elems, k)
    decreases k - i
  {
    hide *;
    OrderSize(order, len, w, elems, k, m);
    if i == k {
      q := FrontierTop(order, len, w, elems, k, m);
    } else {
      var p := FrontierCost(order, len, w, elems, k, m, i + 1);
      q := UndoCost(order, len, w, elems, k, m, i, p);
      JoinedStep(w, elems, i);
    }
  }

  lemma OrderSize(order: seq<nat>, len: seq<nat>, w: seq<nat>, elems: nat, k: nat, m: nat)
    requires Joined(order, elems, k) && Depths(order, len, elems, k, m) && SumsUp(order, w, elems, k)
    ensures |order| == 2 * k + 1 && k >= 1 && |len| == elems + k <= |w|
  {
  }

  lemma JoinedStep(w: seq<nat>, elems: nat, i: nat)
    requires elems + i < |w|
    ensures JoinedSum(w, elems, i + 1) == JoinedSum(w, elems, i) + w[elems + i]
  {
  }

  lemma FrontierTop(order: seq<nat>, len: seq<nat>, w: seq<nat>, elems: nat, k: nat, m: nat) returns (q: seq<int>)
    requires Joined(order, elems, k) && Depths(order, len, elems, k, m) && elems + k <= |w|
    ensures Reached(q, order, len, elems, k, k) && |q| == elems + k && CostSum(w[..elems + k], q) == 0
  {
    var none := seq(elems + k, _ => -1);
    q := none[order[0] := 0];
    CostNothing(w[..elems + k], elems + k);
    CostUpdate(w[..elems + k], none, order[0], 0);
    assert order[..1] == [order[0]];
  }

  /** One join undone: its node's cost gives way to its sons', which is its frequency more. */
  lemma UndoCost(order: seq<nat>, len: seq<nat>, w: seq<nat>, elems: nat, k: nat, m: nat, i: nat, p: seq<int>)
    returns (q: seq<int>)
    requires Joined(order, elems, k) && Depths(order, len, elems, k, m) && i < k && Unclamped(len, elems, m)
    requires SumsUp(order, w, elems, k) && Reached(p, order, len, elems, k, i + 1)
    ensures |p| == elems + i + 1 <= |w| && |q| == elems + i && Reached(q, order, len, elems, k, i)
    ensures CostSum(w[..elems + i], q) == CostSum(w[..elems + i + 1], p) + w[elems + i]
  {
    hide *;
    var a, b, d := ChildDepths(order, len, elems, k, m, i);
    FrontierNodes(order, len, elems, k, i, p, d);
    var l := len[elems + i];
    NotClamped(len, elems, m, i);
    SumsAt(order, w, elems, k, i);
    q := p[..elems + i][a := d][b := d];
    var v := w[..elems + i];
    CostDrop(w[..elems + i + 1], p);
    assert w[..elems + i + 1][..elems + i] == v && w[..elems + i + 1][elems + i] == w[elems + i];
    CostUpdate(v, p[..elems + i], a, d);
    CostUpdate(v, p[..elems + i][a := d], b, d);
    assert v[a] == w[a] && v[b] == w[b];
    TwoCosts(w[a], w[b], l);
  }

  lemma NotClamped(len: seq<nat>, elems: nat, m: nat, i: nat)
    requires Unclamped(len, elems, m) && elems + i < |len|
    ensures len[elems + i] + 1 <= m
  {
  }

  lemma SumsAt(order: seq<nat>, w: seq<nat>, elems: nat, k: nat, i: nat)
    requires SumsUp(order, w, elems, k) && i < k
    ensures |order| == 2 * k + 1 && elems + i < |w|
    ensures order[2 * (k - i) - 1] < |w| && order[2 * (k - i)] < |w|
    ensures w[elems + i] == w[order[2 * (k - i) - 1]] + w[order[2 * (k - i)]]
  {
    assert SonsSum(order, w, elems, k, i);
  }

  lemma TwoCosts(a: nat, b: nat, l: nat)
    ensures CostOf(a, l + 1) + CostOf(b, l + 1) == CostOf(a + b, l) + a + b
    ensures CostOf(a, -1) == 0 == CostOf(b, -1)
  {
    MulDist(a, b, l + 1);
  }

  // -- no other code is cheaper -----------------------------------------------------------------------------

  /** Lengths for a prefix code in which every symbol that occurs has a code word. */
  ghost predicate Covers(other: seq<nat>, f: seq<nat>, m: nat)
  {
    && |other| == |f| && Bounded(other, m) && Kraft(other, m) <= Pow2(m)
    && forall n :: 0 <= n < |f| && f[n] != 0 ==> other[n] != 0
  }

  /** No prefix code, however long its code words, needs fewer bits for symbols of these frequencies. */
  ghost predicate Cheapest(f: seq<nat>, lens: seq<nat>)
  {
    && |lens| == |f|
    && forall other: seq<nat>, m: nat :: |other| == |f| && Covers(other, f, m) ==> CostSum(f, lens) <= CostSum(f, other)
  }

  /** The depths of a code for the symbols, as depths of the nodes. */
  function Planted(other: seq<nat>, active: set<nat>, n: nat): (q: seq<int>)
    ensures |q| == n
  {
    seq(n, i requires 0 <= i < n => if i in active && i < |other| then other[i] as int else -1)
  }

  lemma {:induction false} PlantedSums(f: seq<nat>, other: seq<nat>, active: set<nat>, n: nat, m: nat)
    requires |other| == |f| == n && forall i :: 0 <= i < n && i in active ==> other[i] != 0
    ensures WeightSum(Planted(other, active, n), m) <= Kraft(other, m)
    ensures CostSum(f, Planted(other, active, n)) <= CostSum(f, other)
  {
    if n > 0 {
      var init := other[..n - 1];
      PlantedSums(f[..n - 1], init, active, n - 1, m);
      assert Planted(other, active, n)[..n - 1] == Planted(init, active, n - 1);
    }
  }

  lemma {:induction false} PlantedMore(w: seq<nat>, other: seq<nat>, active: set<nat>, n: nat, m: nat)
    requires |other| <= n == |w|
    ensures WeightSum(Planted(other, active, n), m) == WeightSum(Planted(other, active, |other|), m)
    ensures CostSum(w, Planted(other, active, n)) == CostSum(w[..|other|], Planted(other, active, |other|))
  {
    if n > |other| {
      PlantedMore(w[..n - 1], other, active, n - 1, m);
      assert Planted(other, active, n)[..n - 1] == Planted(other, active, n - 1);
      assert w[..n - 1][..|other|] == w[..|other|];
    } else {
      assert w[..|other|] == w;
    }
  }

  /** Every code of the symbols is a code for the roots the joining started from. */
  lemma OtherCode(w: seq<nat>, f: seq<nat>, other: seq<nat>, active: set<nat>, m: nat)
    requires |f| <= |w| && f == w[..|f|] && Covers(other, f, m)
    requires forall n :: n in active ==> n < |f| && f[n] != 0
    ensures CodeFor(Planted(other, active, |w|), active, m)
    ensures CostSum(w, Planted(other, active, |w|)) <= CostSum(f, other)
  {
    hide WeightSum, CostSum, Kraft, Pow2;
    PlantedSums(f, other, active, |f|, m);
    PlantedMore(w, other, active, |w|, m);
  }

  lemma {:induction false} LeafCost(f: seq<nat>, q: seq<int>, lens: seq<nat>)
    requires |f| == |q| == |lens|
    requires forall n :: 0 <= n < |q| ==> if q[n] == -1 then lens[n] == 0 else lens[n] == q[n]
    ensures CostSum(f, lens) == CostSum(f, q)
  {
    if q != [] {
      var last := |q| - 1;
      LeafCost(f[..last], q[..last], lens[..last]);
      assert f[last] * 0 == 0;
    }
  }

  /** The depths of the tree that joining made are a cheapest code. */
  lemma TreeCheapest(order: seq<nat>, len: seq<nat>, w0: seq<nat>, w: seq<nat>, elems: nat, k: nat, m: nat,
                     active: set<nat>, lens: seq<nat>)
    requires Joined(order, elems, k) && Depths(order, len, elems, k, m) && m >= 1 && elems <= |w0|
    requires Unclamped(len, elems, m) && SumsUp(order, w, elems, k) && elems <= |w| && w[..elems] == w0[..elems]
    requires elems + k <= |w| && AtLeastCost(active, w0, JoinedSum(w, elems, k))
    requires forall n :: n in active ==> n < elems && w0[n] != 0
    requires |lens| == elems && forall n :: 0 <= n < elems ==> n < |len| && lens[n] == if n in order then len[n] else 0
    ensures Cheapest(w0[..elems], lens)
  {
    hide CostSum, Covers, AtLeastCost, Joined, Depths, SumsUp, JoinedSum, CodeFor, Unclamped;
    var f := w0[..elems];
    var q := FrontierCost(order, len, w, elems, k, m, 0);
    assert JoinedSum(w, elems, 0) == 0 by { NoneJoined(w, elems); }
    WholeOrder(order, len, elems, k, m);
    assert order[..2 * k + 1] == order;
    assert w[..elems + 0] == f;
    LeafCost(f, q, lens);
    forall other: seq<nat>, l: nat | |other| == |f| && Covers(other, f, l)
      ensures CostSum(f, lens) <= CostSum(f, other)
    {
      OtherCode(w0, f, other, active, l);
      CostIsLeast(active, w0, JoinedSum(w, elems, k), Planted(other, active, |w0|), l);
    }
  }

  lemma NoneJoined(w: seq<nat>, elems: nat)
    requires elems <= |w|
    ensures JoinedSum(w, elems, 0) == 0
  {
  }

  lemma WholeOrder(order: seq<nat>, len: seq<nat>, elems: nat, k: nat, m: nat)
    requires Joined(order, elems, k) && Depths(order, len, elems, k, m)
    ensures |order| == 2 * k + 1 && |len| == elems + k
  {
  }
}
