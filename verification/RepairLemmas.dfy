/** Facts about moving codes out of an overfull length and handing the lengths out again. */
module RepairLemmas {
  import opened Arith
  import opened Bits
  import opened PrefixCodes
  import opened HuffmanShape
  import opened HuffmanRepair
  import opened Huffman
  import opened BitLengthLemmas

  // -- moving codes between the buckets ------------------------------------------

  /** u more units than the code space holds, and at least u codes at the limit. */
  ghost predicate Overfull(c: seq<int>, m: nat, u: nat, total: int)
  {
    && |c| == 16 && 1 <= m <= 15 && c[0] == 0
    && (forall b :: 0 <= b < 16 ==> 0 <= c[b]) && (forall b :: m < b < 16 ==> c[b] == 0)
    && CountsKraft(c, m + 1, m) == Pow2(m) + u && c[m] >= u
    && CountsTotal(c, m + 1) == total <= Pow2(m)
  }

  lemma OverfullRoom(c: seq<int>, m: nat, u: nat, total: int) returns (room: nat)
    requires Overfull(c, m, u, total) && u > 0
    ensures |c| == 16 && 1 <= room < m <= 15 && c[room] > 0 && c[m] > 0
    ensures forall b :: 1 <= b <= m ==> 0 <= c[b] <= 32768
  {
    if m == 1 { OneBucket(c); }
    room := RoomToSplit(c, m);
    Pow2Values();
    Pow2Monotone(m, 15);
    forall b | 1 <= b <= m
      ensures c[b] <= 32768
    {
      EntryBound(c, b, m + 1);
    }
  }

  lemma OneBucket(c: seq<int>)
    requires |c| >= 2
    ensures CountsKraft(c, 2, 1) == CountsTotal(c, 2) == c[1]
  {
    assert Pow2(0) == 1;
  }

  lemma {:induction false} EntryBound(c: seq<int>, j: nat, b: nat)
    requires 1 <= j < b <= |c| && forall i :: 0 <= i < |c| ==> c[i] >= 0
    ensures c[j] <= CountsTotal(c, b)
  {
    TotalPositive(c, b - 1);
    if j < b - 1 { EntryBound(c, j, b - 1); }
  }

  lemma {:induction false} TotalPositive(c: seq<int>, b: nat)
    requires b <= |c| && forall i :: 0 <= i < |c| ==> c[i] >= 0
    ensures CountsTotal(c, b) >= 0
  {
    if b > 1 { TotalPositive(c, b - 1); }
  }

  lemma OverfullStep(c: seq<int>, m: nat, u: nat, total: int, bits: nat)
    requires Overfull(c, m, u, total) && u > 0 && 1 <= bits < m <= 15 && |c| == 16 && c[bits] > 0
    ensures Overfull(Split(c, bits, m), m, u - 1, total)
  {
    hide CountsKraft, CountsTotal, Pow2;
    SplitKraft(c, bits, m);
  }

  /** The lengths read off the tree give the table to repair. */
  lemma OverfullStart(c: seq<int>, lens: seq<nat>, m: nat, u: nat)
    requires Tallies(c, lens) && Bounded(lens, m) && 1 <= m <= 15
    requires Kraft(lens, m) == Pow2(m) + u && Count(lens, m) >= u && |lens| <= Pow2(m)
    ensures Overfull(c, m, u, |lens| - Count(lens, 0))
  {
    hide *;
    TalliesKraft(c, lens, m + 1, m);
    BelowIsKraft(lens, m);
    TalliesTotal(c, lens, m + 1);
    UpToNonzero(lens, m);
    TalliesTable(c, lens, m);
    MakeOverfull(c, m, u, |lens| - Count(lens, 0));
  }

  lemma MakeOverfull(c: seq<int>, m: nat, u: nat, total: int)
    requires |c| == 16 && 1 <= m <= 15 && c[0] == 0
    requires (forall b :: 0 <= b < 16 ==> 0 <= c[b]) && (forall b :: m < b < 16 ==> c[b] == 0)
    requires CountsKraft(c, m + 1, m) == Pow2(m) + u && c[m] >= u
    requires CountsTotal(c, m + 1) == total <= Pow2(m)
    ensures Overfull(c, m, u, total)
  {
  }

  lemma TalliesTable(c: seq<int>, lens: seq<nat>, m: nat)
    requires Tallies(c, lens) && Bounded(lens, m) && 1 <= m <= 15
    ensures |c| == 16 && c[0] == 0 && c[m] == Count(lens, m)
    ensures (forall b :: 0 <= b < 16 ==> 0 <= c[b]) && (forall b :: m < b < 16 ==> c[b] == 0)
  {
    forall b | m < b < 16
      ensures c[b] == 0
    {
      BoundedCount(lens, m, b);
    }
  }

  lemma {:induction false} BoundedCount(lens: seq<nat>, m: nat, b: nat)
    requires Bounded(lens, m) && b > m
    ensures Count(lens, b) == 0
  {
    if lens != [] { BoundedCount(lens[..|lens| - 1], m, b); }
  }

  // -- handing the lengths out again ------------------------------------------------

  /** The symbols from place t of the order on have new lengths q; nothing else changed. */
  ghost predicate Relabelled(b0: seq<CtData>, b: seq<CtData>, q: seq<nat>, order: seq<nat>, elems: nat, m: nat, t: nat)
  {
    && |q| == elems <= |b| == |b0| && t <= |order| && Bounded(q, m)
    && (forall x :: 0 <= x < |b| ==> b[x] == b0[x].(length := b[x].length))
    && (forall x :: 0 <= x < |b| && x !in order[t..] ==> b[x] == b0[x])
    && (forall x :: 0 <= x < elems ==> q[x] == if x in order[t..] then b[x].length else 0)
    && (forall x :: 0 <= x < elems ==> (q[x] == 0 <==> x !in order[t..]))
  }

  /** Of the new lengths, all above bits are handed out, none below, and n of bits are left. */
  ghost predicate Handed(q: seq<nat>, c: seq<int>, m: nat, bits: nat, n: nat)
  {
    && |c| == 16 && bits <= m <= 15
    && (forall b :: bits < b <= m ==> Count(q, b) == c[b])
    && (bits > 0 ==> Count(q, bits) + n == c[bits])
    && (forall b :: 1 <= b < bits ==> Count(q, b) == 0 <= c[b])
  }

  lemma RelabelStart(b0: seq<CtData>, order: seq<nat>, elems: nat, m: nat)
    requires elems <= |b0|
    ensures Relabelled(b0, b0, seq(elems, _ => 0), order, elems, m, |order|)
  {
  }

  lemma RelabelSkip(b0: seq<CtData>, b: seq<CtData>, q: seq<nat>, order: seq<nat>, elems: nat, m: nat, t: nat)
    requires Relabelled(b0, b, q, order, elems, m, t) && 0 < t && order[t - 1] >= elems
    ensures Relabelled(b0, b, q, order, elems, m, t - 1)
  {
    assert order[t - 1..] == [order[t - 1]] + order[t..];
  }

  lemma RelabelStep(b0: seq<CtData>, b: seq<CtData>, q: seq<nat>, order: seq<nat>, elems: nat, m: nat, t: nat,
      bits: nat)
    requires Relabelled(b0, b, q, order, elems, m, t) && 0 < t && order[t - 1] < elems
    requires forall i :: t <= i < |order| ==> order[i] != order[t - 1]
    requires 1 <= bits <= m < 65536
    ensures var x := order[t - 1];
      && x < |q| && q[x] == 0 && x < |b|
      && Relabelled(b0, b[x := b[x].(length := bits)], q[x := bits], order, elems, m, t - 1)
  {
    assert order[t - 1..] == [order[t - 1]] + order[t..];
  }

  lemma HandStart(q: seq<nat>, c: seq<int>, m: nat)
    requires 1 <= m <= 15 && |c| == 16 && (forall b :: 0 <= b < 16 ==> c[b] >= 0)
    requires forall x :: 0 <= x < |q| ==> q[x] == 0
    ensures Handed(q, c, m, m, c[m])
  {
    forall b | 1 <= b <= m
      ensures Count(q, b) == 0
    {
      CountAbsent(q, b);
    }
  }

  lemma HandStep(q: seq<nat>, c: seq<int>, m: nat, bits: nat, n: nat, x: nat)
    requires Handed(q, c, m, bits, n) && n > 0 && 1 <= bits && x < |q| && q[x] == 0
    ensures Handed(q[x := bits], c, m, bits, n - 1)
  {
    var q2 := q[x := bits];
    forall b | 1 <= b <= m
      ensures Count(q2, b) == Count(q, b) + if b == bits then 1 else 0
    {
      CountUpdate(q, x, bits, b);
    }
  }

  lemma HandNext(q: seq<nat>, c: seq<int>, m: nat, bits: nat)
    requires Handed(q, c, m, bits, 0) && 1 <= bits
    ensures Handed(q, c, m, bits - 1, if bits == 1 then 0 else c[bits - 1]) && (bits > 1 ==> c[bits - 1] >= 0)
  {
  }

  lemma {:induction false} UpToLess(q: seq<nat>, c: seq<int>, b: nat, bits: nat)
    requires 1 <= b <= |c| && 1 <= bits
    requires forall j :: 1 <= j < b ==> Count(q, j) <= c[j]
    requires bits < b ==> Count(q, bits) < c[bits]
    ensures UpTo(q, b) <= CountsTotal(c, b) && (bits < b ==> UpTo(q, b) < CountsTotal(c, b))
  {
    if b > 1 { UpToLess(q, c, b - 1, bits); }
  }

  /** While lengths are left to hand out, symbols are left to take them. */
  lemma StillLeft(b0: seq<CtData>, b: seq<CtData>, q: seq<nat>, c: seq<int>, order: seq<nat>, elems: nat, m: nat,
                  t: nat, bits: nat, n: nat)
    requires Relabelled(b0, b, q, order, elems, m, t) && Handed(q, c, m, bits, n) && n > 0 && 1 <= bits
    requires forall x :: 0 <= x < elems ==> (b0[x].length == 0 <==> x !in order)
    requires CountsTotal(c, m + 1) == elems - Count(Lens(b0, elems), 0)
    ensures t > 0
  {
    if t == 0 {
      assert order[0..] == order;
      var lens := Lens(b0, elems);
      FewerZeros(lens, q);
      FewerZeros(q, lens);
      UpToNonzero(q, m);
      UpToLess(q, c, m + 1, bits);
    }
  }

  lemma {:induction false} UpToEqual(q: seq<nat>, c: seq<int>, b: nat)
    requires b <= |c| && forall j :: 1 <= j < b ==> Count(q, j) == c[j]
    ensures UpTo(q, b) == CountsTotal(c, b)
  {
    if b > 1 { UpToEqual(q, c, b - 1); }
  }

  /** Once every length is handed out, every symbol has its new length. */
  lemma AllHanded(b0: seq<CtData>, b: seq<CtData>, q: seq<nat>, c: seq<int>, order: seq<nat>, elems: nat, m: nat,
      t: nat)
    requires Relabelled(b0, b, q, order, elems, m, t) && Handed(q, c, m, 0, 0)
    requires forall x :: 0 <= x < elems ==> (b0[x].length == 0 <==> x !in order)
    requires CountsTotal(c, m + 1) == elems - Count(Lens(b0, elems), 0)
    requires c[0] == 0 && forall j :: m < j < 16 ==> c[j] == 0
    ensures |b| == |b0| && elems <= |b|
    ensures q == Lens(b, elems) && Tallies(c, q) && Bounded(q, m)
    ensures forall x :: 0 <= x < elems ==> (q[x] == 0 <==> x !in order)
    ensures forall x :: 0 <= x < |b| ==> b[x] == b0[x].(length := b[x].length)
  {
    var lens := Lens(b0, elems);
    assert forall x :: x in order[t..] ==> x in order;
    FewerZeros(lens, q);
    UpToNonzero(q, m);
    UpToEqual(q, c, m + 1);
    forall j | m < j < 16
      ensures Count(q, j) == 0
    {
      BoundedCount(q, m, j);
    }
  }

  /** The repaired table fills the code space exactly. */
  lemma RepairedKraft(c: seq<int>, lens: seq<nat>, m: nat, total: int)
    requires Overfull(c, m, 0, total) && Tallies(c, lens) && Bounded(lens, m)
    ensures Kraft(lens, m) == Pow2(m)
  {
    TalliesKraft(c, lens, m + 1, m);
    BelowIsKraft(lens, m);
  }

  // -- the running cost -------------------------------------------------------------

  lemma WrapMul(a: int, f: nat)
    ensures Wrap64(Wrap64(a) * f) == Wrap64(a * f)
  {
    var q, r := a / TWO64, a % TWO64;
    MulDist(q * TWO64, r, f);
    MulAssoc(TWO64, q, f);
    assert a * f == TWO64 * (q * f) + r * f;
  }

  /** Changing one length by a wrapped difference changes the cost by the true difference. */
  lemma RepairCost(x: int, bits: nat, len: nat, freq: nat, extra: nat)
    ensures Wrap64(Wrap64(x) + Wrap64(Wrap64(bits - len) * freq))
         == Wrap64(x + SymbolCost(freq, bits, extra) - SymbolCost(freq, len, extra))
  {
    hide Wrap64;
    WrapMul(bits - len, freq);
    WrapAdd((bits - len) * freq, Wrap64(x));
    WrapAdd(x, (bits - len) * freq);
    MulDist(bits - len, len + extra, freq);
    assert SymbolCost(freq, bits, extra) == (bits + extra) * freq;
    assert SymbolCost(freq, len, extra) == (len + extra) * freq;
  }

  /** Clearing the root's length leaves the tree as it was. */
  lemma RootCleared(a: seq<CtData>, order: seq<nat>, active: set<nat>, elems: nat, k: nat)
    requires Rooted(order, a, active, elems, k) && |order| == 2 * k + 1 && order[0] == elems + k - 1 < |a|
    ensures Rooted(order, a[order[0] := a[order[0]].(length := 0)], active, elems, k)
  {
  }

  lemma OrderActive(order: seq<nat>, a: seq<CtData>, active: set<nat>, elems: nat, k: nat)
    requires Rooted(order, a, active, elems, k)
    ensures forall n :: 0 <= n < elems ==> (n in order <==> n in active)
  {
  }

  lemma OrderCodes(order: seq<nat>, a: seq<CtData>, active: set<nat>, elems: nat, k: nat, maxCode: nat)
    requires Rooted(order, a, active, elems, k) && maxCode < elems
    requires forall n :: n in active ==> n <= maxCode
    ensures forall e :: e in order ==> e < |a| && (e < elems <==> e <= maxCode)
  {
  }

  /** What the walk over the whole tree leaves behind. */
  lemma AssignDone(a: seq<CtData>, b: seq<CtData>, c: seq<int>, q: seq<nat>, order: seq<nat>, active: set<nat>,
                   desc: StaticTreeDesc, k: nat, overflow: nat)
    requires AssignInv(a, b, c, q, order, desc, k, 2 * k + 1, overflow)
    requires Rooted(order, a, active, desc.elems, k) && |order| == 2 * k + 1 && order[0] < |a|
    requires a[order[0]].length == 0
    requires forall n :: 0 <= n < desc.elems && n !in active ==> n < |a| && a[n].length == 0
    ensures |b| == |a| && desc.elems <= |b| && overflow % 2 == 0
    ensures var lens := Lens(b, desc.elems);
      && Overfull(c, desc.maxLength, overflow / 2, desc.elems - Count(lens, 0))
      && Tallies(c, lens) && Bounded(lens, desc.maxLength)
    ensures forall n :: 0 <= n < desc.elems ==> (b[n].length == 0 <==> n !in active)
    ensures forall x :: 0 <= x < |b| ==> b[x] == a[x].(length := b[x].length)
  {
    hide *;
    var elems, m := desc.elems, desc.maxLength;
    AssignParts(a, b, c, q, order, desc, k, overflow);
    RootedBounds(order, a, active, elems, k);
    AssignedLengths(a, b, q, order, active, elems, k, m);
    var len, lens := Lens(b, elems + k), Lens(b, elems);
    TreeKraft(order, len, elems, k, m, lens);
    OverflowEnd(len, elems, k, m);
    OverfullStart(c, lens, m, overflow / 2);
    OrderActive(order, a, active, elems, k);
  }

  lemma AssignParts(a: seq<CtData>, b: seq<CtData>, c: seq<int>, q: seq<nat>, order: seq<nat>,
                    desc: StaticTreeDesc, k: nat, overflow: nat)
    requires AssignInv(a, b, c, q, order, desc, k, 2 * k + 1, overflow)
    ensures Assigned(a, b, order, desc.elems, k, desc.maxLength, 2 * k + 1)
    ensures LeafLens(q, b, order, desc.elems, 2 * k + 1) && Tallies(c, q)
    ensures desc.elems + k <= |b| && desc.elems <= Pow2(desc.maxLength) && 1 <= desc.maxLength <= 15
    ensures overflow == OverflowAt(Lens(b, desc.elems + k), desc.elems, k, desc.maxLength, 2 * k + 1)
  {
  }

  /** The finished walk gives every node its depth and every symbol its length. */
  lemma AssignedLengths(a: seq<CtData>, b: seq<CtData>, q: seq<nat>, order: seq<nat>, active: set<nat>,
                        elems: nat, k: nat, m: nat)
    requires Assigned(a, b, order, elems, k, m, 2 * k + 1) && LeafLens(q, b, order, elems, 2 * k + 1)
    requires Rooted(order, a, active, elems, k) && order[0] < |a| && a[order[0]].length == 0
    requires forall n :: 0 <= n < elems && n !in active ==> n < |a| && a[n].length == 0
    ensures |b| == |a| && elems + k <= |b| && q == Lens(b, elems)
    ensures Joined(order, elems, k) && Depths(order, Lens(b, elems + k), elems, k, m)
    ensures forall n :: 0 <= n < elems ==> b[n].length == if n in order then Lens(b, elems + k)[n] else 0
    ensures forall x :: 0 <= x < |b| ==> b[x] == a[x].(length := b[x].length)
  {
    hide Joined;
    RootedBounds(order, a, active, elems, k);
    RootOnce(order, elems, k);
    assert order == [order[0]] + order[1..];
    assert order[1..2 * k + 1] == order[1..];
    assert forall t :: 0 <= t <= 2 * k ==> Lens(b, elems + k)[order[t]] == b[order[t]].length;
  }

  lemma RootOnce(order: seq<nat>, elems: nat, k: nat)
    requires Joined(order, elems, k)
    ensures order[0] !in order[1..]
  {
  }

  lemma CostDone(b: seq<CtData>, dyn: seq<int>, stat: seq<int>, order: seq<nat>, active: set<nat>,
                 desc: StaticTreeDesc, k: nat)
    requires CostInv(b, dyn, stat, order, desc, 2 * k + 1) && |order| == 2 * k + 1 && Joined(order, desc.elems, k)
    requires forall n :: 0 <= n < desc.elems ==> (n in order <==> n in active)
    ensures (forall n :: 0 <= n < desc.elems ==> n < |b| && (n in active <==> b[n].freq != 0)) ==>
      && desc.Valid() && desc.elems <= |b| && dyn == DynCosts(b, desc)
      && (desc.staticTree != [] ==> stat == StatCosts(b, desc))
  {
    hide Paid, DynCosts, StatCosts, Joined;
    if forall n :: 0 <= n < desc.elems ==> n < |b| && (n in active <==> b[n].freq != 0) {
      UnusedCosts(b, desc, order, active, k);
      PaidAll(dyn, DynCosts(b, desc), order);
      if desc.staticTree != [] { PaidAll(stat, StatCosts(b, desc), order); }
    }
  }

  lemma StatSame(a: seq<CtData>, b: seq<CtData>, desc: StaticTreeDesc)
    requires desc.Valid() && desc.elems <= |a| == |b|
    requires forall x :: 0 <= x < |a| ==> b[x] == a[x].(length := b[x].length)
    ensures desc.staticTree != [] ==> StatCosts(b, desc) == StatCosts(a, desc)
  {
  }

  /** The lengths fill the code space exactly, belong to exactly the active symbols, and are tallied. */
  ghost predicate FullLengths(c: seq<int>, tree: seq<CtData>, active: set<nat>, desc: StaticTreeDesc)
    requires desc.elems <= |tree|
  {
    var lens := Lens(tree, desc.elems);
    && Tallies(c, lens) && Bounded(lens, desc.maxLength) && Kraft(lens, desc.maxLength) == Pow2(desc.maxLength)
    && forall n :: 0 <= n < desc.elems ==> (lens[n] == 0 <==> n !in active)
  }

  lemma MakeFull(c: seq<int>, tree: seq<CtData>, active: set<nat>, desc: StaticTreeDesc)
    requires desc.elems <= |tree|
    requires var lens := Lens(tree, desc.elems);
      Tallies(c, lens) && Bounded(lens, desc.maxLength) && Kraft(lens, desc.maxLength) == Pow2(desc.maxLength)
    requires forall n :: 0 <= n < desc.elems ==> (tree[n].length == 0 <==> n !in active)
    ensures FullLengths(c, tree, active, desc)
  {
  }
}
