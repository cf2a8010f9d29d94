/** Facts that tie the stages of the tree construction together. */
module BuildLemmas {
  import opened Arith
  import opened Bits
  import opened PrefixCodes
  import opened HuffmanRepair
  import opened Huffman
  import opened TreeLemmas
  import opened BitLengthLemmas
  import opened RepairLemmas

  // -- seeding the heap ------------------------------------------------------------

  /** The heap holds exactly the active symbols. */
  ghost predicate Seeded(h: seq<nat>, len: nat, active: set<nat>)
  {
    && len < |h| && |active| == len
    && multiset(h[1..len + 1]) == multiset(active)
  }

  lemma SeedStart(h: seq<nat>)
    requires |h| >= 1
    ensures Seeded(h, 0, {})
  {
  }

  lemma SeedPush(h: seq<nat>, len: nat, active: set<nat>, x: nat)
    requires Seeded(h, len, active) && x !in active && len + 1 < |h|
    ensures Seeded(h[len + 1 := x], len + 1, active + {x})
  {
    PushElement(h, len, x);
    AddToMultiset(active, x);
  }

  lemma SeedBounds(h: seq<nat>, len: nat, active: set<nat>, bound: nat)
    requires Seeded(h, len, active) && forall x :: x in active ==> x < bound
    ensures len == |active| <= bound
    ensures forall i :: 1 <= i <= len < |h| ==> h[i] < bound
  {
    SetBound(active, bound);
    forall i | 1 <= i <= len
      ensures h[i] < bound
    {
      ElementIn(h, len, i);
      assert h[i] in multiset(active);
    }
  }

  lemma {:induction false} SetBound(s: set<nat>, n: nat)
    requires forall x :: x in s ==> x < n
    ensures |s| <= n
  {
    if n == 0 {
      assert s == {};
    } else {
      SetBound(s - {n - 1}, n - 1);
      if n - 1 in s { assert |s - {n - 1}| == |s| - 1; } else { assert s - {n - 1} == s; }
    }
  }

  /** The symbol invented for a tree with fewer than two codes is not in use. */
  lemma FreshNode(active: set<nat>, maxCode: int)
    requires |active| < 2 && -1 <= maxCode
    requires (forall x :: x in active ==> x <= maxCode) && (maxCode >= 0 ==> maxCode in active)
    ensures (if maxCode < 2 then maxCode + 1 else 0) !in active
  {
    if maxCode >= 2 && 0 in active { OneOrNone(active, 0, maxCode); }
  }

  lemma OneOrNone(s: set<nat>, a: nat, b: nat)
    requires |s| < 2 && a in s && b in s
    ensures a == b
  {
    assert |s - {a}| == |s| - 1;
    assert s - {a} == {};
  }

  lemma SeededForest(h: seq<nat>, tree: seq<CtData>, len: nat, active: set<nat>, elems: nat)
    requires Seeded(h, len, active) && |h| == HEAP_SIZE && 1 <= len < HEAP_SIZE && elems <= |tree|
    requires forall x :: x in active ==> x < elems
    ensures Forest(h, tree, len, HEAP_SIZE, active, elems, 0)
  {
    InternalsStep(elems, elems);
    assert h[HEAP_SIZE..] == [];
    assert active + Internals(elems, elems + 0) == active;
  }

  lemma RearrangedForest(h: seq<nat>, h2: seq<nat>, tree: seq<CtData>, len: nat, max: nat,
                         active: set<nat>, elems: nat, k: nat)
    requires Forest(h, tree, len, max, active, elems, k) && Rearranged(h, h2, len)
    ensures Forest(h2, tree, len, max, active, elems, k)
  {
    RearrangedParts(h, h2, len, max);
    forall i | max <= i < HEAP_SIZE
      ensures h2[i] == h[i]
    {
      assert h2[i] == h2[max..][i - max];
    }
  }

  // -- frequencies, and what the invented symbols cost --------------------------------

  function Freqs(tree: seq<CtData>, n: nat): (f: seq<nat>)
    requires n <= |tree|
    ensures |f| == n && forall i :: 0 <= i < n ==> f[i] == tree[i].freq
  {
    seq(n, i requires 0 <= i < n => tree[i].freq)
  }

  /** What each symbol costs at the given frequencies and lengths. */
  function Owed(freqs: seq<nat>, lens: seq<nat>, desc: StaticTreeDesc): (c: seq<nat>)
    requires desc.elems == |freqs| <= |lens| && desc.elems <= desc.extraBase + |desc.extraBits|
    ensures |c| == desc.elems
  {
    seq(desc.elems, n requires 0 <= n < desc.elems => SymbolCost(freqs[n], lens[n], desc.Extra(n)))
  }

  /** The frequencies once the invented symbols are counted once each. */
  function Forced(freqs: seq<nat>, invented: seq<nat>): (f: seq<nat>)
    ensures |f| == |freqs|
  {
    if invented == [] then freqs
    else
      var x := invented[|invented| - 1];
      var f := Forced(freqs, invented[..|invented| - 1]);
      if x < |f| then f[x := 1] else f
  }

  function SumAt(lens: seq<nat>, invented: seq<nat>): int
  {
    if invented == [] then 0
    else
      var x := invented[|invented| - 1];
      SumAt(lens, invented[..|invented| - 1]) + if x < |lens| then lens[x] else 0
  }

  lemma {:induction false} ForcedElsewhere(freqs: seq<nat>, invented: seq<nat>, x: nat)
    requires x < |freqs| && x !in invented
    ensures Forced(freqs, invented)[x] == freqs[x]
  {
    if invented != [] { ForcedElsewhere(freqs, invented[..|invented| - 1], x); }
  }

  ghost predicate Inventions(freqs: seq<nat>, invented: seq<nat>)
  {
    && (forall i :: 0 <= i < |invented| ==> invented[i] < 3 && invented[i] < |freqs| && freqs[invented[i]] == 0)
    && (forall i, j :: 0 <= i < j < |invented| ==> invented[i] != invented[j])
  }

  /** Each invented symbol adds exactly its own length to what is owed. */
  lemma {:induction false} InventedCost(freqs: seq<nat>, lens: seq<nat>, desc: StaticTreeDesc, invented: seq<nat>)
    requires desc.Valid() && desc.elems == |freqs| <= |lens| && Inventions(freqs, invented)
    ensures Sum(Owed(Forced(freqs, invented), lens, desc)) == Sum(Owed(freqs, lens, desc)) + SumAt(lens, invented)
  {
    if invented != [] {
      var init, x := invented[..|invented| - 1], invented[|invented| - 1];
      InventedCost(freqs, lens, desc, init);
      ForcedElsewhere(freqs, init, x);
      var f := Forced(freqs, init);
      var owed := Owed(f, lens, desc);
      assert Owed(f[x := 1], lens, desc) == owed[x := SymbolCost(1, lens[x], 0)];
      SumUpdate(owed, x, lens[x]);
    }
  }

  lemma {:induction false} SumAtOnes(lens: seq<nat>, invented: seq<nat>)
    requires forall i :: 0 <= i < |invented| ==> invented[i] < |lens| && lens[invented[i]] == 1
    ensures SumAt(lens, invented) == |invented|
  {
    if invented != [] { SumAtOnes(lens, invented[..|invented| - 1]); }
  }

  lemma CostsOwed(tree: seq<CtData>, desc: StaticTreeDesc)
    requires desc.Valid() && desc.elems <= |tree|
    ensures DynCosts(tree, desc) == Owed(Freqs(tree, desc.elems), Lens(tree, desc.elems), desc)
    ensures desc.staticTree != [] ==>
      StatCosts(tree, desc) == Owed(Freqs(tree, desc.elems), Lens(desc.staticTree, desc.elems), desc)
  {
  }

  // -- a tree of two codes ---------------------------------------------------------------

  lemma {:induction false} KraftChange(lens: seq<nat>, i: nat, v: nat, m: nat)
    requires i < |lens|
    ensures Kraft(lens[i := v], m) + Weight(lens[i], m) == Kraft(lens, m) + Weight(v, m)
  {
    var init := lens[..|lens| - 1];
    if i == |lens| - 1 {
      assert lens[i := v][..i] == init;
    } else {
      KraftChange(init, i, v, m);
      assert lens[i := v][..|lens| - 1] == init[i := v];
    }
  }

  lemma {:induction false} KraftNothing(lens: seq<nat>, m: nat)
    requires forall n :: 0 <= n < |lens| ==> lens[n] == 0
    ensures Kraft(lens, m) == 0
  {
    if lens != [] { KraftNothing(lens[..|lens| - 1], m); }
  }

  /** Two codes that fill the code space are one bit long each. */
  lemma TwoCodes(lens: seq<nat>, x: nat, y: nat, m: nat)
    requires x < |lens| && y < |lens| && x != y && m >= 1 && Kraft(lens, m) == Pow2(m)
    requires 1 <= lens[x] <= m && 1 <= lens[y] <= m
    requires forall n :: 0 <= n < |lens| && n != x && n != y ==> lens[n] == 0
    ensures lens[x] == 1 && lens[y] == 1
  {
    var a := lens[x := 0];
    KraftChange(lens, x, 0, m);
    KraftChange(a, y, 0, m);
    KraftNothing(a[y := 0], m);
    HalfWeight(lens[x], m);
    HalfWeight(lens[y], m);
  }

  lemma HalfWeight(l: nat, m: nat)
    requires 1 <= l <= m
    ensures 2 * Weight(l, m) <= Pow2(m) && (2 * Weight(l, m) == Pow2(m) ==> l == 1)
    ensures Weight(0, m) == 0
  {
    Pow2Monotone(m - l, m - 1);
    if l > 1 { Pow2Monotone(m - l, m - 2); }
  }

  lemma TwoActive(lens: seq<nat>, active: set<nat>, m: nat, x: nat)
    requires |active| == 2 && x in active && m >= 1 && Bounded(lens, m) && Kraft(lens, m) == Pow2(m)
    requires forall n :: n in active ==> n < |lens|
    requires forall n :: 0 <= n < |lens| ==> (lens[n] == 0 <==> n !in active)
    ensures x < |lens| && lens[x] == 1
  {
    var rest := active - {x};
    assert |rest| == 1;
    var y :| y in rest;
    assert |rest - {y}| == 0;
    assert rest - {y} == {};
    assert active == {x, y};
    TwoCodes(lens, x, y, m);
  }

  // -- from all symbols to the symbols sent -----------------------------------------------

  lemma {:induction false} TrimZeros(lens: seq<nat>, j: nat, m: nat, b: nat)
    requires j <= |lens| && b >= 1 && forall n :: j <= n < |lens| ==> lens[n] == 0
    ensures Kraft(lens[..j], m) == Kraft(lens, m) && Count(lens[..j], b) == Count(lens, b)
    decreases |lens|
  {
    if j == |lens| {
      assert lens[..j] == lens;
    } else {
      var init := lens[..|lens| - 1];
      TrimZeros(init, j, m, b);
      assert init[..j] == lens[..j];
    }
  }

  lemma {:induction false} KraftScale(lens: seq<nat>, m: nat, d: nat)
    requires Bounded(lens, m)
    ensures Kraft(lens, m + d) == Kraft(lens, m) * Pow2(d)
  {
    if lens != [] {
      var init, l := lens[..|lens| - 1], lens[|lens| - 1];
      KraftScale(init, m, d);
      MulDist(Kraft(init, m), Weight(l, m), Pow2(d));
      if l > 0 { Pow2Add(m - l, d); }
    }
  }

  /** Full lengths stay full, and tallied, when the unused codes at the end are dropped. */
  lemma TrimFull(c: seq<int>, lens: seq<nat>, j: nat, m: nat)
    requires j <= |lens| && 1 <= m <= 15 && (forall n :: j <= n < |lens| ==> lens[n] == 0)
    requires Tallies(c, lens) && Bounded(lens, m) && Kraft(lens, m) == Pow2(m)
    ensures Tallies(c, lens[..j]) && Decodable(lens[..j]) && Kraft(lens[..j], 15) == Pow2(15)
  {
    hide Kraft, Count, Pow2;
    forall b | 1 <= b < 16
      ensures Count(lens[..j], b) == Count(lens, b)
    {
      TrimZeros(lens, j, m, b);
    }
    TrimZeros(lens, j, m, 1);
    KraftScale(lens[..j], m, 15 - m);
    Pow2Add(m, 15 - m);
  }

  // -- the first stage as a whole -----------------------------------------------------------

  /** What seeding leaves: the heap holds the active symbols, of which maxCode is the largest. */
  ghost predicate HeapReady(h: seq<nat>, len: nat, tree: seq<CtData>, maxCode: int, elems: nat)
  {
    && elems <= |tree| && Seeded(h, len, Active(tree, elems))
    && -1 <= maxCode < elems
    && (forall x :: x in Active(tree, elems) ==> x <= maxCode)
    && (maxCode >= 0 ==> maxCode in Active(tree, elems))
    && (forall x :: 0 <= x < elems && tree[x].freq == 0 ==> tree[x].length == 0)
  }

  lemma InventStep(h: seq<nat>, len: nat, tree: seq<CtData>, maxCode: int, elems: nat, node: nat)
    requires HeapReady(h, len, tree, maxCode, elems) && len < 2 && elems >= 3 && |h| >= 4
    requires node == if maxCode < 2 then maxCode + 1 else 0
    ensures node < 3 && node < elems <= |tree| && tree[node].freq == 0
    ensures HeapReady(h[len + 1 := node], len + 1, tree[node := tree[node].(freq := 1)],
                      if maxCode < 2 then maxCode + 1 else maxCode, elems)
    ensures Freqs(tree[node := tree[node].(freq := 1)], elems) == Freqs(tree, elems)[node := 1]
  {
    hide Seeded;
    SeedCount(h, len, tree, elems);
    var active := Active(tree, elems);
    FreshNode(active, maxCode);
    SeedPush(h, len, active, node);
    assert Active(tree[node := tree[node].(freq := 1)], elems) == active + {node};
  }

  lemma SeedCount(h: seq<nat>, len: nat, tree: seq<CtData>, elems: nat)
    requires elems <= |tree| && Seeded(h, len, Active(tree, elems))
    ensures |Active(tree, elems)| == len
  {
  }

  lemma InventMore(freqs: seq<nat>, invented: seq<nat>, x: nat)
    requires Inventions(freqs, invented) && x < 3 && x < |freqs| && Forced(freqs, invented)[x] == 0
    ensures Inventions(freqs, invented + [x])
    ensures Forced(freqs, invented + [x]) == Forced(freqs, invented)[x := 1]
  {
    ForcedOnes(freqs, invented);
    if x !in invented { ForcedElsewhere(freqs, invented, x); }
    assert (invented + [x])[..|invented|] == invented;
  }

  lemma {:induction false} ForcedOnes(freqs: seq<nat>, invented: seq<nat>)
    requires Inventions(freqs, invented)
    ensures forall i :: 0 <= i < |invented| ==> Forced(freqs, invented)[invented[i]] == 1
  {
    if invented != [] { ForcedOnes(freqs, invented[..|invented| - 1]); }
  }

  lemma SumAtMore(lens: seq<nat>, invented: seq<nat>, x: nat)
    ensures SumAt(lens, invented + [x]) == SumAt(lens, invented) + if x < |lens| then lens[x] else 0
  {
    assert (invented + [x])[..|invented|] == invented;
  }

  lemma RearrangedTwice(a: seq<nat>, b: seq<nat>, c: seq<nat>, n: nat)
    requires Rearranged(a, b, n) && Rearranged(b, c, n)
    ensures Rearranged(a, c, n)
  {
  }

  lemma ReadyBounds(h: seq<nat>, len: nat, tree: seq<CtData>, maxCode: nat, elems: nat)
    requires HeapReady(h, len, tree, maxCode, elems) && 1 <= len && |h| == 573 && elems <= 286
    ensures elems <= |tree| && maxCode < elems && len <= elems && |Active(tree, elems)| == len
    ensures forall i :: 1 <= i <= len ==> h[i] < elems
    ensures forall x :: x in Active(tree, elems) ==> x < elems && x <= maxCode
    ensures maxCode in Active(tree, elems)
    ensures Forest(h, tree, len, 573, Active(tree, elems), elems, 0)
    ensures forall x :: 0 <= x < elems ==> (x in Active(tree, elems) <==> tree[x].freq != 0)
    ensures forall x :: 0 <= x < elems && x !in Active(tree, elems) ==> tree[x].length == 0
  {
    SeedBounds(h, len, Active(tree, elems), elems);
    SeededForest(h, tree, len, Active(tree, elems), elems);
  }

  /** Only fathers of symbols changed. */
  ghost predicate DadsOnly(a: seq<CtData>, b: seq<CtData>, elems: nat)
  {
    && |a| == |b| && elems <= |a|
    && forall x :: 0 <= x < elems ==> b[x] == a[x].(dad := b[x].dad)
  }

  lemma DadsStart(a: seq<CtData>, elems: nat)
    requires elems <= |a|
    ensures DadsOnly(a, a, elems)
  {
  }

  lemma DadsStep(a: seq<CtData>, b: seq<CtData>, c: seq<CtData>, elems: nat, node: nat)
    requires DadsOnly(a, b, elems) && elems <= node && exists n, m :: NodesJoined(b, c, n, m, node)
    ensures DadsOnly(a, c, elems)
  {
  }

  lemma DadsFacts(a: seq<CtData>, b: seq<CtData>, active: set<nat>, elems: nat)
    requires DadsOnly(a, b, elems)
    ensures |a| == |b| && elems <= |a|
    ensures forall x :: 0 <= x < elems ==> b[x].freq == a[x].freq && b[x].length == a[x].length
  {
  }

  /** What building a tree establishes: a full code for the symbols 0..maxCode. */
  ghost predicate Built(tree: seq<CtData>, maxCode: nat, desc: StaticTreeDesc)
  {
    && 1 <= maxCode < desc.elems <= |tree|
    && CodesFor(tree, Lens(tree, maxCode + 1))
    && Bounded(Lens(tree, desc.elems), desc.maxLength)
    && Kraft(Lens(tree, desc.elems), desc.maxLength) == Pow2(desc.maxLength)
    && tree[maxCode].length > 0
    && forall n :: maxCode < n < desc.elems ==> tree[n].length == 0
  }

  lemma CodedBuilt(b: seq<CtData>, d: seq<CtData>, maxCode: nat, desc: StaticTreeDesc)
    requires 1 <= maxCode < desc.elems <= |b| && OnlyCodesDiffer(b, d)
    requires CodesFor(d, Lens(b, maxCode + 1))
    requires Bounded(Lens(b, desc.elems), desc.maxLength)
    requires Kraft(Lens(b, desc.elems), desc.maxLength) == Pow2(desc.maxLength)
    requires b[maxCode].length > 0 && forall n :: maxCode < n < desc.elems ==> b[n].length == 0
    ensures |d| == |b| && Built(d, maxCode, desc) && Lens(d, desc.elems) == Lens(b, desc.elems)
  {
    hide CodesFor, Kraft, Bounded;
    assert Lens(d, maxCode + 1) == Lens(b, maxCode + 1);
    assert Lens(d, desc.elems) == Lens(b, desc.elems);
  }

  lemma TwoDifferent(active: set<nat>, maxCode: nat)
    requires |active| >= 2 && forall x :: x in active ==> x <= maxCode
    ensures maxCode >= 1
  {
    if maxCode == 0 { SetBound(active, 1); }
  }

  lemma FullPrefix(c: seq<int>, tree: seq<CtData>, active: set<nat>, desc: StaticTreeDesc, maxCode: nat)
    requires desc.Valid() && desc.elems <= |tree| && FullLengths(c, tree, active, desc)
    requires maxCode < desc.elems && maxCode in active && forall x :: x in active ==> x <= maxCode
    ensures Decodable(Lens(tree, maxCode + 1)) && Tallies(c, Lens(tree, maxCode + 1))
    ensures Bounded(Lens(tree, desc.elems), desc.maxLength)
    ensures Kraft(Lens(tree, desc.elems), desc.maxLength) == Pow2(desc.maxLength)
    ensures tree[maxCode].length > 0 && forall n :: maxCode < n < desc.elems ==> tree[n].length == 0
    ensures forall n :: 0 <= n < desc.elems && n in active ==> tree[n].length != 0
  {
    hide Tallies, Decodable, Kraft, Count, Pow2;
    var lens := Lens(tree, desc.elems);
    assert lens[..maxCode + 1] == Lens(tree, maxCode + 1);
    assert forall n :: 0 <= n < desc.elems ==> (tree[n].length == 0 <==> n !in active) by {
      assert forall n :: 0 <= n < desc.elems ==> (lens[n] == 0 <==> n !in active);
    }
    TrimFull(c, lens, maxCode + 1, desc.maxLength);
  }

  /** The symbols' costs are those at the true frequencies, plus what the inventions prepaid. */
  lemma BuildCost(f: seq<nat>, invented: seq<nat>, c: seq<int>, tree: seq<CtData>, active: set<nat>,
      desc: StaticTreeDesc)
    requires desc.Valid() && desc.elems == |f| <= |tree| && FullLengths(c, tree, active, desc)
    requires Inventions(f, invented) && Freqs(tree, desc.elems) == Forced(f, invented)
    requires forall x :: x in active ==> x < desc.elems
    requires forall x :: 0 <= x < desc.elems ==> (x in active <==> tree[x].freq != 0)
    requires invented != [] ==> |active| == 2
    ensures Sum(DynCosts(tree, desc)) == Sum(Owed(f, Lens(tree, desc.elems), desc)) + |invented|
    ensures desc.staticTree != [] ==>
      Sum(StatCosts(tree, desc))
        == Sum(Owed(f, Lens(desc.staticTree, desc.elems), desc)) + SumAt(Lens(desc.staticTree, desc.elems), invented)
  {
    hide Tallies, Sum, Owed, Kraft, Count, Pow2, DynCosts, StatCosts;
    CostsOwed(tree, desc);
    var lens := Lens(tree, desc.elems);
    InventedCost(f, lens, desc, invented);
    ForcedOnes(f, invented);
    forall i | 0 <= i < |invented|
      ensures lens[invented[i]] == 1
    {
      assert Freqs(tree, desc.elems)[invented[i]] == 1;
      TwoActive(lens, active, desc.maxLength, invented[i]);
    }
    SumAtOnes(lens, invented);
    if desc.staticTree != [] { InventedCost(f, Lens(desc.staticTree, desc.elems), desc, invented); }
  }

  /** Every symbol that occurred is still active once the invented symbols are counted. */
  lemma OccurringActive(f: seq<nat>, invented: seq<nat>, tree: seq<CtData>, active: set<nat>)
    requires Inventions(f, invented) && |f| <= |tree| && Freqs(tree, |f|) == Forced(f, invented)
    requires forall x :: 0 <= x < |f| ==> (x in active <==> tree[x].freq != 0)
    ensures forall n :: 0 <= n < |f| && f[n] != 0 ==> n in active
  {
    forall n | 0 <= n < |f| && f[n] != 0
      ensures n in active
    {
      ForcedElsewhere(f, invented, n);
      assert Freqs(tree, |f|)[n] == tree[n].freq;
    }
  }
}
