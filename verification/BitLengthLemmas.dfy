/** Facts about reading code lengths off the joined tree, one node at a time. */
module BitLengthLemmas {
  import opened Arith
  import opened Bits
  import opened PrefixCodes
  import opened HuffmanShape
  import opened HuffmanRepair
  import opened Huffman
  import opened TreeLemmas

  /** A tree in an array: its visiting order, and every node's father. */
  ghost predicate Rooted(order: seq<nat>, tree: seq<CtData>, active: set<nat>, elems: nat, k: nat)
  {
    && Joined(order, elems, k) && elems + k <= |tree|
    && (forall t :: 0 <= t <= 2 * k ==> order[t] < elems + k)
    && (forall t :: 1 <= t <= 2 * k ==> tree[order[t]].dad == elems + ParentOf(t, k))
    && (forall n :: 0 <= n < elems ==> (n in order <==> n in active))
  }

  lemma ForestOrder(h: seq<nat>, tree: seq<CtData>, max: nat, active: set<nat>, elems: nat, k: nat)
    requires Forest(h, tree, 1, max, active, elems, k) && k >= 1
    ensures var order := [h[1]] + h[max..];
      && |order| == 2 * k + 1 && multiset(order) == multiset(active + Internals(elems, elems + k))
      && (forall t :: 1 <= t <= 2 * k ==> order[t] < elems + ParentOf(t, k) && order[t] < |tree|)
      && (forall t :: 1 <= t <= 2 * k ==> tree[order[t]].dad == elems + ParentOf(t, k))
      && (forall s, t :: 0 <= s < t <= 2 * k ==> order[s] != order[t])
  {
    var order := [h[1]] + h[max..];
    assert h[1..2] == [h[1]];
    assert multiset(order) == multiset(h[1..2]) + multiset(h[max..]);
    forall t | 1 <= t <= 2 * k
      ensures order[t] < elems + ParentOf(t, k) && order[t] < |tree|
      ensures tree[order[t]].dad == elems + ParentOf(t, k)
    {
      assert order[t] == h[max + t - 1];
      assert (HEAP_SIZE - 1 - (max + t - 1)) / 2 == ParentOf(t, k);
    }
    DistinctElements(order);
  }

  lemma ForestDone(h: seq<nat>, tree: seq<CtData>, max: nat, active: set<nat>, elems: nat, k: nat)
    requires Forest(h, tree, 1, max, active, elems, k) && k >= 1
    ensures max >= 1 && Rooted(h[max - 1 := h[1]][max - 1..], tree, active, elems, k)
  {
    hide Forest, Parts, Internals;
    ForestBounds(h, tree, max, active, elems, k);
    ForestOrder(h, tree, max, active, elems, k);
    var order := [h[1]] + h[max..];
    assert h[max - 1 := h[1]][max - 1..] == order;
    OrderMembers(order, active, elems, k);
    RootFirst(order, elems, k);
  }

  lemma OrderMembers(order: seq<nat>, active: set<nat>, elems: nat, k: nat)
    requires multiset(order) == multiset(active + Internals(elems, elems + k))
    requires forall x :: x in active ==> x < elems
    ensures forall x :: x in order <==> x in active || elems <= x < elems + k
    ensures forall t :: 0 <= t < |order| ==> order[t] < elems + k
  {
    forall x
      ensures x in order <==> x in active || elems <= x < elems + k
    {
      if x >= 0 { InternalsMember(elems, elems + k, x); }
      assert x in order <==> x in multiset(order);
    }
    assert forall t :: 0 <= t < |order| ==> order[t] in order;
  }

  lemma RootFirst(order: seq<nat>, elems: nat, k: nat)
    requires k >= 1 && |order| == 2 * k + 1 && elems + k - 1 in order
    requires forall t :: 1 <= t <= 2 * k ==> order[t] < elems + ParentOf(t, k)
    ensures order[0] == elems + k - 1
  {
    assert forall t :: 1 <= t <= 2 * k ==> order[t] != elems + k - 1;
  }

  lemma ForestBounds(h: seq<nat>, tree: seq<CtData>, max: nat, active: set<nat>, elems: nat, k: nat)
    requires Forest(h, tree, 1, max, active, elems, k)
    ensures |h| == HEAP_SIZE && 2 <= max <= HEAP_SIZE && elems + k <= |tree| && (forall x :: x in active ==> x < elems)
  {
  }

  // -- assigning lengths in visiting order -------------------------------------------

  /** Only the lengths of the nodes at places 1..t-1 of the order may differ. */
  ghost predicate LengthsOnly(a: seq<CtData>, b: seq<CtData>, order: seq<nat>, t: nat)
    requires 1 <= t <= |order|
  {
    && |a| == |b|
    && (forall n :: 0 <= n < |a| ==> b[n] == a[n].(length := b[n].length))
    && (forall n :: 0 <= n < |a| && n !in order[1..t] ==> b[n] == a[n])
  }

  /** The nodes at places 1..t-1 are one deeper than their fathers, up to the limit. */
  ghost predicate DepthsUpTo(b: seq<CtData>, order: seq<nat>, elems: nat, k: nat, m: nat, t: nat)
    requires 1 <= t <= 2 * k + 1 == |order| && elems + k <= |b|
    requires forall s :: 0 <= s <= 2 * k ==> order[s] < |b|
  {
    forall s :: 1 <= s < t ==> b[order[s]].length == Min(b[elems + ParentOf(s, k)].length + 1, m)
  }

  /** The nodes at places 1..t-1 of the order have their lengths; nothing else changed. */
  ghost predicate Assigned(a: seq<CtData>, b: seq<CtData>, order: seq<nat>, elems: nat, k: nat, m: nat, t: nat)
  {
    && 1 <= t <= 2 * k + 1 == |order| && elems + k <= |b|
    && (forall s :: 0 <= s <= 2 * k ==> order[s] < |b|)
    && LengthsOnly(a, b, order, t)
    && DepthsUpTo(b, order, elems, k, m, t)
  }

  lemma AssignStart(a: seq<CtData>, order: seq<nat>, active: set<nat>, elems: nat, k: nat, m: nat)
    requires Rooted(order, a, active, elems, k)
    ensures |order| == 2 * k + 1 && Assigned(a, a, order, elems, k, m, 1)
  {
  }

  lemma AssignStep(a: seq<CtData>, b: seq<CtData>, order: seq<nat>, active: set<nat>, elems: nat, k: nat, m: nat,
      t: nat, bits: nat)
    requires Rooted(order, a, active, elems, k) && Assigned(a, b, order, elems, k, m, t) && t <= 2 * k
    requires bits < 65536 && bits == Min(b[elems + ParentOf(t, k)].length + 1, m)
    ensures order[t] < |b|
    ensures Assigned(a, b[order[t] := b[order[t]].(length := bits)], order, elems, k, m, t + 1)
  {
    hide LengthsOnly, DepthsUpTo, Joined;
    FatherOf(a, b, order, active, elems, k, m, t);
    LengthsStep(a, b, order, t, bits);
    DepthsStep(b, order, active, elems, k, m, t, bits, a);
  }

  lemma LengthsStep(a: seq<CtData>, b: seq<CtData>, order: seq<nat>, t: nat, bits: nat)
    requires 1 <= t < |order| && LengthsOnly(a, b, order, t) && order[t] < |b| && bits < 65536
    ensures LengthsOnly(a, b[order[t] := b[order[t]].(length := bits)], order, t + 1)
  {
    assert order[1..t + 1] == order[1..t] + [order[t]];
  }

  lemma DepthsStep(b: seq<CtData>, order: seq<nat>, active: set<nat>, elems: nat, k: nat, m: nat, t: nat, bits: nat,
      a: seq<CtData>)
    requires Rooted(order, a, active, elems, k) && elems + k <= |b| && 1 <= t <= 2 * k
    requires DepthsUpTo(b, order, elems, k, m, t)
    requires bits < 65536 && bits == Min(b[elems + ParentOf(t, k)].length + 1, m)
    ensures DepthsUpTo(b[order[t] := b[order[t]].(length := bits)], order, elems, k, m, t + 1)
  {
    var n := order[t];
    var c := b[n := b[n].(length := bits)];
    forall s | 1 <= s < t + 1
      ensures c[order[s]].length == Min(c[elems + ParentOf(s, k)].length + 1, m)
    {
      assert ParentOf(t, k) <= ParentOf(s, k);
      assert n < elems + ParentOf(t, k);
      assert s < t ==> order[s] != order[t];
    }
  }

  /** What the next node's father says. */
  lemma FatherOf(a: seq<CtData>, b: seq<CtData>, order: seq<nat>, active: set<nat>, elems: nat, k: nat, m: nat, t: nat)
    requires Rooted(order, a, active, elems, k) && Assigned(a, b, order, elems, k, m, t) && t <= 2 * k
    ensures order[t] < elems + ParentOf(t, k) < elems + k <= |b| == |a|
    ensures b[order[t]].dad == elems + ParentOf(t, k) && b[order[t]].freq == a[order[t]].freq
    ensures order[t] !in order[1..t]
    ensures order[t] < elems ==> order[t] in active
  {
    assert order[t] in order;
  }

  /** The symbols' lengths so far; symbols not reached yet count as unused. */
  ghost predicate LeafLens(q: seq<nat>, b: seq<CtData>, order: seq<nat>, elems: nat, t: nat)
  {
    && |q| == elems <= |b| && 1 <= t <= |order|
    && forall n :: 0 <= n < elems ==> q[n] == if n in order[1..t] then b[n].length else 0
  }

  lemma LeafLensStep(q: seq<nat>, b: seq<CtData>, order: seq<nat>, elems: nat, t: nat, bits: nat)
    requires LeafLens(q, b, order, elems, t) && t < |order| && order[t] < |b| && order[t] !in order[1..t]
    requires bits < 65536
    ensures var n := order[t];
      && LeafLens(if n < elems then q[n := bits] else q, b[n := b[n].(length := bits)], order, elems, t + 1)
      && (n < elems ==> q[n] == 0)
  {
    assert order[1..t + 1] == order[1..t] + [order[t]];
  }

  lemma TallyStep(c: seq<int>, q: seq<nat>, n: nat, bits: nat)
    requires Tallies(c, q) && n < |q| && q[n] == 0 && 1 <= bits <= 15
    ensures |c| == 16 && Tallies(c[bits := c[bits] + 1], q[n := bits]) && 0 <= c[bits] <= |q|
  {
    CountBound(q, bits);
    var c2, q2 := c[bits := c[bits] + 1], q[n := bits];
    forall b | 1 <= b < 16
      ensures c2[b] == Count(q2, b)
    {
      CountUpdate(q, n, bits, b);
    }
  }

  /** The nodes clamped so far: two for each finished father at the limit, and one
      while such a father has had one child visited. */
  function OverflowAt(len: seq<nat>, elems: nat, k: nat, m: nat, t: nat): nat
    requires |len| == elems + k && 1 <= t <= 2 * k + 1
  {
    var i := (2 * k - t + 2) / 2;
    2 * Count(len[elems + i..], m) + if t % 2 == 0 && len[elems + i - 1] == m then 1 else 0
  }

  lemma OverflowStart(len: seq<nat>, elems: nat, k: nat, m: nat)
    requires |len| == elems + k && k >= 1
    ensures OverflowAt(len, elems, k, m, 1) == 0
  {
    assert (2 * k - 1 + 2) / 2 == k;
    assert len[elems + k..] == [];
  }

  lemma OverflowStep(len: seq<nat>, elems: nat, k: nat, m: nat, t: nat, n: nat, bits: nat)
    requires |len| == elems + k && 1 <= t <= 2 * k && n < elems + ParentOf(t, k)
    ensures OverflowAt(len[n := bits], elems, k, m, t + 1)
         == OverflowAt(len, elems, k, m, t) + if len[elems + ParentOf(t, k)] == m then 1 else 0
  {
    var i := ParentOf(t, k);
    var len2 := len[n := bits];
    assert (2 * k - t + 2) / 2 == i + 1;
    assert len2[elems + i..] == len[elems + i..];
    assert len2[elems + i + 1..] == len[elems + i + 1..];
    SuffixCount(len, elems + i, m);
    if t % 2 == 1 {
      assert (2 * k - (t + 1) + 2) / 2 == i + 1;
    } else {
      assert (2 * k - (t + 1) + 2) / 2 == i;
    }
  }

  lemma OverflowEnd(len: seq<nat>, elems: nat, k: nat, m: nat)
    requires |len| == elems + k
    ensures OverflowAt(len, elems, k, m, 2 * k + 1) == 2 * Count(len[elems..], m)
  {
    assert (2 * k - (2 * k + 1) + 2) / 2 == 0;
    assert (2 * k + 1) % 2 == 1;
    assert len[elems + 0..] == len[elems..];
  }

  // -- paying for the codes ------------------------------------------------------------

  /** The bits one symbol costs: its frequency times its length and extra bits. */
  function SymbolCost(freq: nat, len: nat, extra: nat): nat
  {
    MulPositive(freq, len + extra);
    freq * (len + extra)
  }

  ghost predicate Paid(paid: seq<int>, cost: seq<nat>, order: seq<nat>, t: nat)
  {
    && |paid| == |cost| && 1 <= t <= |order|
    && forall n :: 0 <= n < |cost| ==> paid[n] == if n in order[1..t] then cost[n] else 0
  }

  lemma PaidStep(paid: seq<int>, cost: seq<nat>, order: seq<nat>, t: nat, c: nat)
    requires Paid(paid, cost, order, t) && t < |order| && order[t] !in order[1..t]
    ensures order[t] < |cost| ==>
      && Paid(paid[order[t] := c], cost[order[t] := c], order, t + 1)
      && Sum(paid[order[t] := c]) == Sum(paid) + c
    ensures order[t] >= |cost| ==> Paid(paid, cost, order, t + 1)
  {
    assert order[1..t + 1] == order[1..t] + [order[t]];
    if order[t] < |cost| { SumUpdate(paid, order[t], c); }
  }

  /** Every symbol's cost with the lengths in the tree. */
  function DynCosts(b: seq<CtData>, desc: StaticTreeDesc): (c: seq<nat>)
    requires desc.elems <= |b| && desc.elems <= desc.extraBase + |desc.extraBits|
    ensures |c| == desc.elems
  {
    seq(desc.elems, n requires 0 <= n < desc.elems => SymbolCost(b[n].freq, b[n].length, desc.Extra(n)))
  }

  /** Every symbol's cost with the lengths of the static tree. */
  function StatCosts(b: seq<CtData>, desc: StaticTreeDesc): (c: seq<nat>)
    requires desc.elems <= |b| && desc.elems <= desc.extraBase + |desc.extraBits| && desc.elems <= |desc.staticTree|
    ensures |c| == desc.elems
  {
    seq(desc.elems, n requires 0 <= n < desc.elems => SymbolCost(b[n].freq, desc.staticTree[n].length, desc.Extra(n)))
  }

  lemma CostsStep(b: seq<CtData>, desc: StaticTreeDesc, n: nat, bits: nat)
    requires desc.Valid() && desc.elems <= |b| && n < |b| && bits < 65536
    ensures var b2 := b[n := b[n].(length := bits)];
      && DynCosts(b2, desc) == (if n < desc.elems
         then DynCosts(b, desc)[n := SymbolCost(b[n].freq, bits, desc.Extra(n))] else DynCosts(b, desc))
      && (desc.staticTree != [] ==> StatCosts(b2, desc) == StatCosts(b, desc))
    ensures n < desc.elems && desc.staticTree != [] ==>
      StatCosts(b, desc)[n] == SymbolCost(b[n].freq, desc.staticTree[n].length, desc.Extra(n))
  {
  }

  lemma PaidNothing(cost: seq<nat>, order: seq<nat>)
    requires |order| >= 1
    ensures Paid(seq(|cost|, _ => 0), cost, order, 1) && Sum(seq(|cost|, _ => 0)) == 0
  {
    SumZero(|cost|);
  }

  /** Symbols not in the tree have frequency zero and cost nothing. */
  lemma PaidAll(paid: seq<int>, cost: seq<nat>, order: seq<nat>)
    requires |order| >= 1 && Paid(paid, cost, order, |order|)
    requires forall n :: 0 <= n < |cost| && n !in order[1..] ==> cost[n] == 0
    ensures paid == cost
  {
  }

  lemma UnusedCosts(b: seq<CtData>, desc: StaticTreeDesc, order: seq<nat>, active: set<nat>, k: nat)
    requires desc.Valid() && desc.elems <= |b| && Joined(order, desc.elems, k)
    requires forall n :: 0 <= n < desc.elems ==> (n in order <==> n in active)
    requires forall n :: 0 <= n < desc.elems ==> (n in active <==> b[n].freq != 0)
    ensures forall n :: 0 <= n < desc.elems && n !in order[1..] ==> DynCosts(b, desc)[n] == 0
    ensures desc.staticTree != [] ==>
      forall n :: 0 <= n < desc.elems && n !in order[1..] ==> StatCosts(b, desc)[n] == 0
  {
    forall n | 0 <= n < desc.elems && n !in order[1..]
      ensures b[n].freq == 0
    {
      assert order == [order[0]] + order[1..];
    }
  }

  /** What assigning lengths keeps: the nodes done so far, the symbols' lengths, the
      overflow and the two running costs. */
  ghost predicate AssignInv(a: seq<CtData>, b: seq<CtData>, c: seq<int>, q: seq<nat>, order: seq<nat>,
                            desc: StaticTreeDesc, k: nat, t: nat, overflow: nat)
  {
    && desc.Valid() && Assigned(a, b, order, desc.elems, k, desc.maxLength, t)
    && LeafLens(q, b, order, desc.elems, t) && Tallies(c, q)
    && overflow == OverflowAt(Lens(b, desc.elems + k), desc.elems, k, desc.maxLength, t)
    && FathersBounded(b, order, k, desc.maxLength, t)
  }

  ghost predicate FathersBounded(b: seq<CtData>, order: seq<nat>, k: nat, m: nat, t: nat)
  {
    t <= |order| && forall s :: 0 <= s < t ==> order[s] < |b| && b[order[s]].length <= m
  }

  /** The place before t where the father of place t stands. */
  lemma FatherVisited(order: seq<nat>, elems: nat, k: nat, t: nat)
    requires Joined(order, elems, k) && 1 <= t <= 2 * k
    ensures exists s :: 0 <= s < t && order[s] == elems + ParentOf(t, k)
  {
    ParentReached(order, elems, k, ParentOf(t, k));
    var s :| 0 <= s < 2 * (k - ParentOf(t, k) - 1) + 1 && order[s] == elems + ParentOf(t, k);
    assert s < t;
  }

  lemma InvStart(a: seq<CtData>, c: seq<int>, order: seq<nat>, active: set<nat>, desc: StaticTreeDesc, k: nat)
    requires desc.Valid() && Rooted(order, a, active, desc.elems, k) && a[order[0]].length == 0
    requires |c| == 16 && forall b :: 0 <= b < 16 ==> c[b] == 0
    ensures AssignInv(a, a, c, seq(desc.elems, _ => 0), order, desc, k, 1, 0)
  {
    hide Rooted, Tallies, LeafLens, OverflowAt, LengthsOnly, DepthsUpTo;
    RootedBounds(order, a, active, desc.elems, k);
    AssignStart(a, order, active, desc.elems, k, desc.maxLength);
    OverflowStart(Lens(a, desc.elems + k), desc.elems, k, desc.maxLength);
    StartLeaves(a, c, order, desc.elems);
  }

  lemma RootedBounds(order: seq<nat>, a: seq<CtData>, active: set<nat>, elems: nat, k: nat)
    requires Rooted(order, a, active, elems, k)
    ensures k >= 1 && |order| == 2 * k + 1 && elems + k <= |a| && order[0] == elems + k - 1
    ensures forall t :: 0 <= t <= 2 * k ==> order[t] < elems + k
    ensures Joined(order, elems, k)
  {
  }

  lemma StartLeaves(a: seq<CtData>, c: seq<int>, order: seq<nat>, elems: nat)
    requires |order| >= 1 && elems <= |a| && |c| == 16 && forall b :: 0 <= b < 16 ==> c[b] == 0
    ensures LeafLens(seq(elems, _ => 0), a, order, elems, 1) && Tallies(c, seq(elems, _ => 0))
  {
    var none := seq(elems, _ => 0);
    forall b | 1 <= b < 16
      ensures Count(none, b) == 0
    {
      CountAll(elems, 0, b);
    }
  }

  lemma InvStep(a: seq<CtData>, b: seq<CtData>, c: seq<int>, q: seq<nat>, order: seq<nat>, active: set<nat>,
                desc: StaticTreeDesc, k: nat, t: nat, overflow: nat, bits: nat)
    requires AssignInv(a, b, c, q, order, desc, k, t, overflow) && Rooted(order, a, active, desc.elems, k)
    requires t <= 2 * k && desc.elems + ParentOf(t, k) < |b|
    requires var l := b[desc.elems + ParentOf(t, k)].length; 1 <= bits == Min(l + 1, desc.maxLength)
    ensures bits <= 15 && order[t] < |b| && |c| == 16 && |q| == desc.elems && 0 <= c[bits] <= 286
    ensures var n := order[t];
      && var leaf := n < desc.elems;
      && var l := b[desc.elems + ParentOf(t, k)].length;
      && AssignInv(a, b[n := b[n].(length := bits)], if leaf then c[bits := c[bits] + 1] else c,
                   if leaf then q[n := bits] else q, order, desc, k, t + 1,
                   overflow + if l == desc.maxLength then 1 else 0)
  {
    hide Rooted, Tallies, LeafLens, OverflowAt, LengthsOnly, DepthsUpTo, FathersBounded;
    var n, m, elems := order[t], desc.maxLength, desc.elems;
    FatherOf(a, b, order, active, elems, k, m, t);
    AssignStep(a, b, order, active, elems, k, m, t, bits);
    LeafLensStep(q, b, order, elems, t, bits);
    LeafCount(q, b, order, elems, t);
    if n < elems { TallyStep(c, q, n, bits); } else { TallyRange(c, q, bits); }
    var len := Lens(b, elems + k);
    OverflowStep(len, elems, k, m, t, n, bits);
    assert Lens(b[n := b[n].(length := bits)], elems + k) == len[n := bits];
    BoundedStep(b, order, k, m, t, bits);
  }

  lemma TallyRange(c: seq<int>, q: seq<nat>, bits: nat)
    requires Tallies(c, q) && 1 <= bits <= 15
    ensures |c| == 16 && 0 <= c[bits] <= |q|
  {
    CountBound(q, bits);
  }

  lemma LeafCount(q: seq<nat>, b: seq<CtData>, order: seq<nat>, elems: nat, t: nat)
    requires LeafLens(q, b, order, elems, t)
    ensures |q| == elems
  {
  }

  lemma BoundedStep(b: seq<CtData>, order: seq<nat>, k: nat, m: nat, t: nat, bits: nat)
    requires FathersBounded(b, order, k, m, t) && t < |order| && order[t] < |b| && bits <= m && bits < 65536
    ensures FathersBounded(b[order[t] := b[order[t]].(length := bits)], order, k, m, t + 1)
  {
  }

  /** What the loop needs to know before visiting place t. */
  lemma InvVisit(a: seq<CtData>, b: seq<CtData>, c: seq<int>, q: seq<nat>, order: seq<nat>, active: set<nat>,
                 desc: StaticTreeDesc, k: nat, t: nat, overflow: nat)
    requires AssignInv(a, b, c, q, order, desc, k, t, overflow) && Rooted(order, a, active, desc.elems, k)
    requires t <= 2 * k
    ensures 1 <= t < |order| && desc.Valid() && |a| == |b| && desc.elems + k <= |b|
    ensures order[t] < |b| && b[order[t]].dad == desc.elems + ParentOf(t, k) < |b|
    ensures 1 <= desc.maxLength <= 15 && b[desc.elems + ParentOf(t, k)].length <= desc.maxLength
    ensures b[order[t]].freq == a[order[t]].freq && order[t] !in order[1..t]
    ensures order[t] < desc.elems ==> order[t] in active
  {
    hide LeafLens, Tallies, OverflowAt, DepthsUpTo;
    FatherOf(a, b, order, active, desc.elems, k, desc.maxLength, t);
    FatherVisited(order, desc.elems, k, t);
  }

  /** The two running costs so far. */
  ghost predicate CostInv(b: seq<CtData>, dyn: seq<int>, stat: seq<int>, order: seq<nat>, desc: StaticTreeDesc, t: nat)
  {
    && desc.Valid() && desc.elems <= |b|
    && Paid(dyn, DynCosts(b, desc), order, t)
    && (desc.staticTree != [] ==> Paid(stat, StatCosts(b, desc), order, t))
  }

  lemma CostStart(b: seq<CtData>, order: seq<nat>, desc: StaticTreeDesc)
    requires desc.Valid() && desc.elems <= |b| && |order| >= 1
    ensures CostInv(b, seq(desc.elems, _ => 0), seq(desc.elems, _ => 0), order, desc, 1)
    ensures Sum(seq(desc.elems, _ => 0)) == 0
  {
    hide Paid, DynCosts, StatCosts, Sum;
    PaidNothing(DynCosts(b, desc), order);
    if desc.staticTree != [] { PaidNothing(StatCosts(b, desc), order); }
  }

  lemma CostSkip(b: seq<CtData>, dyn: seq<int>, stat: seq<int>, order: seq<nat>, desc: StaticTreeDesc, t: nat,
      bits: nat)
    requires CostInv(b, dyn, stat, order, desc, t) && t < |order| && desc.elems <= order[t] < |b| && bits < 65536
    requires order[t] !in order[1..t]
    ensures CostInv(b[order[t] := b[order[t]].(length := bits)], dyn, stat, order, desc, t + 1)
  {
    hide Paid, DynCosts, StatCosts;
    CostsStep(b, desc, order[t], bits);
    PaidStep(dyn, DynCosts(b, desc), order, t, 0);
    if desc.staticTree != [] { PaidStep(stat, StatCosts(b, desc), order, t, 0); }
  }

  lemma CostStep(b: seq<CtData>, dyn: seq<int>, stat: seq<int>, order: seq<nat>, desc: StaticTreeDesc, t: nat,
      bits: nat)
    requires CostInv(b, dyn, stat, order, desc, t) && t < |order| && order[t] < desc.elems && bits < 65536
    requires order[t] !in order[1..t]
    ensures order[t] < |dyn| && desc.elems <= desc.extraBase + |desc.extraBits|
    ensures desc.staticTree != [] ==> order[t] < |stat| && desc.elems <= |desc.staticTree|
    ensures var n := order[t];
      && var d := SymbolCost(b[n].freq, bits, desc.Extra(n));
      && var s := if desc.staticTree != [] then SymbolCost(b[n].freq, desc.staticTree[n].length, desc.Extra(n)) else 0;
      && var stat2 := if desc.staticTree != [] then stat[n := s] else stat;
      && CostInv(b[n := b[n].(length := bits)], dyn[n := d], stat2, order, desc, t + 1)
      && Sum(dyn[n := d]) == Sum(dyn) + d && (desc.staticTree != [] ==> Sum(stat2) == Sum(stat) + s)
  {
    hide Paid, DynCosts, StatCosts, SymbolCost, Sum;
    var n := order[t];
    CostsStep(b, desc, n, bits);
    PaidStep(dyn, DynCosts(b, desc), order, t, SymbolCost(b[n].freq, bits, desc.Extra(n)));
    PaidLength(dyn, DynCosts(b, desc), order, t);
    if desc.staticTree != [] {
      PaidStep(stat, StatCosts(b, desc), order, t, SymbolCost(b[n].freq, desc.staticTree[n].length, desc.Extra(n)));
      PaidLength(stat, StatCosts(b, desc), order, t);
      var s := StatCosts(b, desc);
      assert s[n := s[n]] == s;
    }
  }

  lemma PaidLength(paid: seq<int>, cost: seq<nat>, order: seq<nat>, t: nat)
    requires Paid(paid, cost, order, t)
    ensures |paid| == |cost|
  {
  }
}
