/** The encoder's tree construction: the part of its state that builds one
    length-limited Huffman code after another. */
module TreeBuilding {
  import opened Bits
  import opened PrefixCodes
  import opened HuffmanShape
  import opened HuffmanRepair
  import opened Huffman
  import opened TreeLemmas
  import opened HeapOrder
  import opened BitLengthLemmas
  import opened RepairLemmas
  import opened BuildLemmas
  import opened HuffmanOptimal
  import opened HuffmanDepth
  import opened JoinRounds

  class TreeBuilder {
    const heap: array<nat>
    const depth: array<byte>
    const blCount: array<uint16>
    var heapLen: nat
    var heapMax: nat
    var optLen: nat
    var staticLen: nat

    ghost predicate Valid()
      reads this
    {
      && heap.Length == 573 && depth.Length == 573 && blCount.Length == 16
      && optLen < TWO64 && staticLen < TWO64
    }

    constructor ()
      ensures Valid() && fresh(heap) && fresh(depth) && fresh(blCount)
    {
      heap, depth, blCount := new nat[573](_ => 0), new byte[573](_ => 0), new uint16[16](_ => 0);
      heapLen, heapMax, optLen, staticLen := 0, 0, 0, 0;
    }

    /** Orders two nodes by frequency, then by depth. */
    function Smaller(tree: array<CtData>, n: nat, m: nat): (b: bool)
      requires n < tree.Length && m < tree.Length && n < depth.Length && m < depth.Length
      reads tree, depth
      ensures b <==> NotLater(tree[..], depth[..], n, m)
    {
      || tree[n].freq < tree[m].freq
      || (tree[n].freq == tree[m].freq && depth[n] <= depth[m])
    }

    /** The heap is in order from a place on. */
    ghost predicate HeapFrom(tree: array<CtData>, from: nat)
      reads this`heapLen, heap, depth, tree
    {
      Ordered(heap[..], heapLen, tree[..], depth[..], from)
    }

    lemma HeapIs(tree: array<CtData>, from: nat)
      ensures HeapFrom(tree, from) <==> Ordered(heap[..], heapLen, tree[..], depth[..], from)
    {
      hide Ordered;
    }

    /** The lesser son of a place. */
    method SonOf(tree: array<CtData>, k: nat) returns (j: nat)
      requires 1 <= k && 2 * k <= heapLen && Inside(heap[..], heapLen, tree.Length) && tree.Length <= depth.Length
      ensures LeastSon(heap[..], heapLen, tree[..], depth[..], k, j)
    {
      hide LeastSon, NotLater;
      j := 2 * k;
      ghost var h: seq<nat> := heap[..];
      assert h[j] == heap[j];
      if j < heapLen {
        assert h[j + 1] == heap[j + 1];
        if Smaller(tree, heap[j + 1], heap[j]) { j := j + 1; }
      }
      MakeLeastSon(h, heapLen, tree[..], depth[..], k, j);
    }

    /** Sifts the element at place k0 down: the heap keeps its elements, and its order from k0 on. */
    method PqDownHeap(tree: array<CtData>, k0: nat)
      requires 1 <= k0 <= heapLen && HeapFrom(tree, k0 + 1)
      modifies heap
      ensures Rearranged(old(heap[..]), heap[..], heapLen) && HeapFrom(tree, k0)
    {
      hide *;
      HeapIs(tree, k0 + 1);
      OrderedInside(heap[..], heapLen, tree[..], depth[..], k0 + 1);
      ghost var a: seq<nat>, t: seq<CtData>, d: seq<byte> := heap[..], tree[..], depth[..];
      var k, v := k0, heap[k0];
      ghost var filled: seq<nat> := a;  // the heap with v back in the hole
      RearrangedSame(a, heapLen);
      SiftStart(a, heapLen, t, d, k0);
      ghost var j: nat := 0;
      while 2 * k <= heapLen
        invariant 1 <= k <= heapLen < heap.Length && v < tree.Length <= depth.Length && heap[k] < tree.Length
        invariant filled == heap[..][k := v] && Rearranged(a, filled, heapLen)
        invariant Sifting(filled, heapLen, t, d, k0, k)
        decreases heapLen - k
      {
        SiftInside(filled, heapLen, t, d, k0, k);
        InsideBut(filled, heap[..], heapLen, tree.Length, k, v);
        var son := SonOf(tree, k);
        j := son;
        SonPlace(heap[..], heapLen, t, d, k, son);
        LeastSonSame(heap[..], filled, heapLen, t, d, k, son, v);
        assert filled[son] == heap[son] && filled[k] == v;
        if Smaller(tree, v, heap[son]) {
          break;
        }
        LaterTotal(t, d, v, heap[son]);
        SwapRearranged(a, filled, k, son, heapLen);
        SiftStep(filled, heapLen, t, d, k0, k, son);
        filled := filled[k := filled[son]][son := filled[k]];
        heap[k] := heap[son];
        k := son;
      }
      heap[k] := v;
      SiftEnd(filled, heapLen, t, d, k0, k, j);
      HeapIs(tree, k0);
    }

    lemma ValidLengths()
      requires Valid()
      ensures heap.Length == 573 && depth.Length == 573 && blCount.Length == 16
      ensures optLen < TWO64 && staticLen < TWO64
    {
    }

    lemma MakeValid()
      requires heap.Length == 573 && depth.Length == 573 && blCount.Length == 16
      requires optLen < TWO64 && staticLen < TWO64
      ensures Valid()
    {
    }

    /** Takes the least element off the heap. */
    method PqRemove(tree: array<CtData>) returns (n: nat)
      requires 2 <= heapLen && HeapFrom(tree, 1)
      modifies this`heapLen, heap
      ensures heapLen == old(heapLen) - 1 && heapLen < heap.Length && n == old(heap[..])[1]
      ensures Rearranged(old(heap[..])[1 := old(heap[..])[old(heapLen)]], heap[..], heapLen) && HeapFrom(tree, 1)
    {
      hide *;
      HeapIs(tree, 1);
      ghost var h: seq<nat> := heap[..];
      OrderedInside(h, heapLen, tree[..], depth[..], 1);
      FirstReplaced(h, heapLen, tree[..], depth[..], h[heapLen], heapLen - 1);
      n := heap[1];
      heap[1] := heap[heapLen];
      heapLen := heapLen - 1;
      assert heap[..] == h[1 := h[heapLen + 1]];
      HeapIs(tree, 2);
      PqDownHeap(tree, 1);
    }

    /** Puts a node in the place of the least element. */
    method PqReplace(tree: array<CtData>, node: nat)
      requires 1 <= heapLen < heap.Length && Ordered(heap[..][1 := node], heapLen, tree[..], depth[..], 2)
      modifies heap
      ensures Rearranged(old(heap[..])[1 := node], heap[..], heapLen) && HeapFrom(tree, 1)
    {
      hide *;
      ghost var h: seq<nat> := heap[..];
      heap[1] := node;
      assert heap[..] == h[1 := node];
      HeapIs(tree, 2);
      PqDownHeap(tree, 1);
    }

    /** Makes node the father of n and m. */
    method Link(tree: array<CtData>, n: nat, m: nat, node: nat)
      requires n < node && m < node < tree.Length <= depth.Length == 573 && n != m
      modifies depth, tree
      ensures NodesJoined(old(tree[..]), tree[..], n, m, node)
      ensures depth[..] == old(depth[..])[node := depth[node]]
    {
      hide *;
      ghost var a: seq<CtData> := tree[..];
      tree[node] := tree[node].(freq := Uint16(tree[n].freq + tree[m].freq));
      ghost var a2: seq<CtData> := tree[..];
      assert a2 == a[node := a[node].(freq := Uint16(a[n].freq + a[m].freq))];
      if depth[n] >= depth[m] {
        depth[node] := Uint8(depth[n] as int + 1);
      } else {
        depth[node] := Uint8(depth[m] as int + 1);
      }
      tree[n] := tree[n].(dad := node);
      ghost var a3: seq<CtData> := tree[..];
      assert a3 == a2[n := a2[n].(dad := node)];
      tree[m] := tree[m].(dad := node);
      assert tree[..] == a3[m := a3[m].(dad := node)];
      MakeNodesJoined(a, tree[..], n, m, node);
    }

    /** Puts two joined nodes in front of those joined before. */
    method Collect(n: nat, m: nat)
      requires 2 <= heapMax <= heap.Length
      modifies this`heapMax, heap
      ensures heapMax == old(heapMax) - 2
      ensures heap[..] == old(heap[..])[heapMax + 1 := n][heapMax := m]
    {
      heapMax := heapMax - 1;
      heap[heapMax] := n;
      heapMax := heapMax - 1;
      heap[heapMax] := m;
    }

    /** One round of build_tree's main loop: joins the two least frequent roots under node. */
    method JoinTwo(tree: array<CtData>, node: nat, ghost active: set<nat>, ghost elems: nat, ghost k: nat)
      returns (ghost n1: nat, ghost m1: nat)
      requires Valid() && heapLen >= 2 && node == elems + k < tree.Length <= 573
      requires heapLen + k <= 286 && HeapFrom(tree, 1)
      requires Forest(heap[..], tree[..], heapLen, heapMax, active, elems, k)
      modifies this`heapLen, this`heapMax, heap, depth, tree
      ensures Valid() && HeapFrom(tree, 1)
      ensures heapLen == old(heapLen) - 1 && heapMax == old(heapMax) - 2
      ensures Forest(heap[..], tree[..], heapLen, heapMax, active, elems, k + 1)
      ensures NodesJoined(old(tree[..]), tree[..], n1, m1, node)
      ensures LeastTwo(old(heap[..]), old(heapLen), old(tree[..]), old(depth[..]), n1, m1)
      ensures old(heapMax) <= 573 && heap[..][heapMax..] == [m1, n1] + old(heap[..])[old(heapMax)..]
    {
      hide *;
      ValidLengths();
      ghost var h: seq<nat>, a: seq<CtData>, d: seq<byte> := heap[..], tree[..], depth[..];
      ForestRange(h, a, heapLen, heapMax, active, elems, k);
      HeapIs(tree, 1);
      var n := PqRemove(tree);
      ghost var h2: seq<nat> := heap[..];
      HeapIs(tree, 1);
      TakesLeastTwo(h, h2, heapLen + 1, a, d);
      RemovedRange(h, h2, heapLen + 1, a, heapMax, active, elems, k);
      var m := heap[1];
      n1, m1 := n, m;
      Collect(n, m);
      Link(tree, n, m, node);
      MakeValid();
      FinishRound(tree, node, h, h2, a, d, active, elems, k);
    }

    /** The new node takes the first place of the heap. */
    method FinishRound(tree: array<CtData>, node: nat, ghost h: seq<nat>, ghost h2: seq<nat>, ghost a: seq<CtData>,
        ghost d: seq<byte>, ghost active: set<nat>, ghost elems: nat, ghost k: nat)
      requires Valid() && 1 <= heapLen && node == elems + k < tree.Length <= 573 && heapLen + 1 + k <= 286
      requires Forest(h, a, heapLen + 1, heapMax + 2, active, elems, k) && |h2| == |h| == 573
      requires Rearranged(h[1 := h[heapLen + 1]], h2, heapLen) && Ordered(h2, heapLen, a, d, 1)
      requires heap[..] == h2[heapMax + 1 := h[1]][heapMax := h2[1]]
      requires NodesJoined(a, tree[..], h[1], h2[1], node) && |a| == tree.Length && |d| == 573
      requires depth[..] == d[node := depth[node]]
      modifies heap
      ensures Valid() && HeapFrom(tree, 1)
      ensures Forest(heap[..], tree[..], heapLen, heapMax, active, elems, k + 1)
      ensures heapMax + 2 <= 573 && heap[..][heapMax..] == [h2[1], h[1]] + h[heapMax + 2..]
    {
      hide *;
      ValidLengths();
      ghost var h3: seq<nat> := heap[..];
      ForestRange(h, a, heapLen + 1, heapMax + 2, active, elems, k);
      OrderAfterLink(h, h2, h3, heapLen, heapMax, a, tree[..], d, depth[..], active, elems, k);
      PqReplace(tree, node);
      RoundJoins(h, h2, heap[..], a, tree[..], heapLen + 1, heapMax + 2, active, elems, k);
      RoundTail(h, h2, heap[..], heapLen + 1, heapMax + 2, node);
      MakeValid();
    }

    /** Visits the nodes root first, giving each the length of its father plus one but at
        most maxLength, and counts how many nodes were clamped. */
    method AssignBitlens(tree: array<CtData>, desc: StaticTreeDesc, maxCode: nat,
                         ghost order: seq<nat>, ghost active: set<nat>, ghost k: nat)
      returns (overflow: nat, ghost q: seq<nat>, ghost dyn: seq<int>, ghost stat: seq<int>)
      requires Valid() && desc.Valid() && heapMax <= 573 && order == heap[heapMax..]
      requires Rooted(order, tree[..], active, desc.elems, k) && tree[..][order[0]].length == 0
      requires maxCode < desc.elems && forall n :: n in active ==> n <= maxCode
      requires forall b :: 0 <= b < 16 ==> blCount[..][b] == 0
      modifies this`optLen, this`staticLen, blCount, tree
      ensures Valid()
      ensures AssignInv(old(tree[..]), tree[..], blCount[..], q, order, desc, k, 2 * k + 1, overflow)
      ensures CostInv(tree[..], dyn, stat, order, desc, 2 * k + 1)
      ensures optLen == Wrap64(old(optLen) + Sum(dyn))
      ensures staticLen == if desc.staticTree != [] then Wrap64(old(staticLen) + Sum(stat)) else old(staticLen)
    {
      hide *;
      ValidLengths();
      DescBounds(desc);
      ghost var a: seq<CtData> := tree[..];
      RootedBounds(order, a, active, desc.elems, k);
      overflow := 0;
      q, dyn, stat := seq(desc.elems, _ => 0), seq(desc.elems, _ => 0), seq(desc.elems, _ => 0);
      InvStart(a, blCount[..], order, active, desc, k);
      CostStart(a, order, desc);
      WrapExact(optLen);
      WrapExact(staticLen);
      var h := heapMax + 1;
      while h < 573
        invariant heapMax < h <= 573
        invariant tree.Length == |a|
        invariant AssignInv(a, tree[..], blCount[..], q, order, desc, k, h - heapMax, overflow)
        invariant CostInv(tree[..], dyn, stat, order, desc, h - heapMax)
        invariant optLen == Wrap64(old(optLen) + Sum(dyn))
        invariant staticLen == if desc.staticTree != [] then Wrap64(old(staticLen) + Sum(stat)) else old(staticLen)
      {
        ghost var t: nat, b: seq<CtData>, c: seq<uint16> := h - heapMax, tree[..], blCount[..];
        InvVisit(a, b, c, q, order, active, desc, k, t, overflow);
        var n := heap[h];
        assert n == order[t];
        var bits: nat := tree[tree[n].dad].length as int + 1;
        InvStep(a, b, c, q, order, active, desc, k, t, overflow, MinOf(bits, desc.maxLength));
        if bits > desc.maxLength {
          bits := desc.maxLength;
          overflow := overflow + 1;
        }
        tree[n] := tree[n].(length := bits);
        assert tree[..] == b[n := b[n].(length := bits)];
        if n > maxCode {
          CostSkip(b, dyn, stat, order, desc, t, bits);
        } else {
          CostStep(b, dyn, stat, order, desc, t, bits);
          blCount[bits] := blCount[bits] + 1;
          assert blCount[..] == c[bits := c[bits] + 1];
          var xbits := desc.Extra(n);
          var freq := tree[n].freq;
          WrapAdd(old(optLen) + Sum(dyn), SymbolCost(freq, bits, xbits));
          optLen := Wrap64(optLen + SymbolCost(freq, bits, xbits));
          q := q[n := bits];
          dyn := dyn[n := SymbolCost(freq, bits, xbits)];
          if desc.staticTree != [] {
            var slen := desc.staticTree[n].length;
            WrapAdd(old(staticLen) + Sum(stat), SymbolCost(freq, slen, xbits));
            staticLen := Wrap64(staticLen + SymbolCost(freq, slen, xbits));
            stat := stat[n := SymbolCost(freq, slen, xbits)];
          }
        }
        h := h + 1;
      }
      MakeValid();
    }

    /** The first loop of the repair: splits codes above the limit until the rest fits. */
    method SpreadOverflow(maxLength: nat, overflow0: nat, ghost total: int)
      requires blCount.Length == 16 && overflow0 % 2 == 0
      requires Overfull(blCount[..], maxLength, overflow0 / 2, total)
      modifies blCount
      ensures Overfull(blCount[..], maxLength, 0, total)
    {
      hide *;
      var overflow: int := overflow0;
      while overflow > 0
        invariant overflow >= 0 && overflow % 2 == 0
        invariant Overfull(blCount[..], maxLength, overflow / 2, total)
      {
        ghost var c: seq<uint16> := blCount[..];
        ghost var room := OverfullRoom(c, maxLength, overflow / 2, total);
        var bits := maxLength - 1;
        while blCount[bits] == 0
          invariant room <= bits < maxLength
          decreases bits
        {
          bits := bits - 1;
        }
        OverfullStep(c, maxLength, overflow / 2, total, bits);
        SplitParts(c, bits, maxLength);
        blCount[bits] := blCount[bits] - 1;
        blCount[bits + 1] := blCount[bits + 1] + 2;
        blCount[maxLength] := blCount[maxLength] - 1;
        assert blCount[..] == Split(c, bits, maxLength);
        overflow := overflow - 2;
      }
    }

    /** The second loop of the repair: hands the lengths out again, the longest to the
        symbols joined first. */
    method ReassignLengths(tree: array<CtData>, maxCode: nat, desc: StaticTreeDesc,
                           ghost order: seq<nat>, ghost k: nat)
      requires Valid() && desc.Valid() && heapMax <= 573 && order == heap[heapMax..]
      requires Joined(order, desc.elems, k) && maxCode < desc.elems <= tree.Length
      requires forall e :: e in order ==> e < tree.Length && (e < desc.elems <==> e <= maxCode)
      requires forall x :: 0 <= x < desc.elems ==> (tree[..][x].length == 0 <==> x !in order)
      requires Overfull(blCount[..], desc.maxLength, 0, desc.elems - Count(Lens(tree[..], desc.elems), 0))
      modifies this`optLen, tree
      ensures Valid()
      ensures Tallies(blCount[..], Lens(tree[..], desc.elems)) && Bounded(Lens(tree[..], desc.elems), desc.maxLength)
      ensures forall x :: 0 <= x < desc.elems ==> (tree[x].length == 0 <==> x !in order)
      ensures forall x :: 0 <= x < tree.Length ==> tree[x] == old(tree[x]).(length := tree[x].length)
      ensures optLen == Wrap64(old(optLen) + Sum(DynCosts(tree[..], desc)) - Sum(DynCosts(old(tree[..]), desc)))
    {
      hide *;
      ValidLengths();
      DescBounds(desc);
      ghost var b0: seq<CtData>, c: seq<uint16>, elems, m := tree[..], blCount[..], desc.elems, desc.maxLength;
      ghost var q: seq<nat> := seq(elems, _ => 0);
      OverfullTable(c, m, elems - Count(Lens(b0, elems), 0));
      RelabelStart(b0, order, elems, m);
      HandStart(q, c, m);
      WrapExact(optLen);
      var h: nat := 573;
      var bits: nat := desc.maxLength;
      ghost var left: nat := c[bits];
      while bits != 0
        invariant heapMax <= h <= 573 && bits <= m && tree.Length == |b0|
        invariant bits > 0 ==> left == c[bits]
        invariant bits == 0 ==> left == 0
        invariant Relabelled(b0, tree[..], q, order, elems, m, h - heapMax)
        invariant Handed(q, c, m, bits, left)
        invariant optLen == Wrap64(old(optLen) + Sum(DynCosts(tree[..], desc)) - Sum(DynCosts(b0, desc)))
      {
        var n: nat := blCount[bits];
        while n != 0
          invariant heapMax <= h <= 573 && tree.Length == |b0|
          invariant Relabelled(b0, tree[..], q, order, elems, m, h - heapMax)
          invariant Handed(q, c, m, bits, n)
          invariant optLen == Wrap64(old(optLen) + Sum(DynCosts(tree[..], desc)) - Sum(DynCosts(b0, desc)))
          decreases h
        {
          ghost var b: seq<CtData>, t: nat := tree[..], h - heapMax;
          StillLeft(b0, b, q, c, order, elems, m, t, bits, n);
          h := h - 1;
          var x := heap[h];
          assert x == order[t - 1] && x in order;
          if x > maxCode {
            RelabelSkip(b0, b, q, order, elems, m, t);
            continue;
          }
          PlaceOnce(order, elems, k, t - 1);
          RelabelStep(b0, b, q, order, elems, m, t, bits);
          HandStep(q, c, m, bits, n, x);
          CostChange(b, desc, x, bits, old(optLen) - Sum(DynCosts(b0, desc)));
          if tree[x].length != bits {
            optLen := Wrap64(optLen + Wrap64(Wrap64(bits - tree[x].length) * tree[x].freq));
            tree[x] := tree[x].(length := bits);
          }
          assert tree[..] == b[x := b[x].(length := bits)];
          q := q[x := bits];
          n := n - 1;
        }
        HandNext(q, c, m, bits);
        bits := bits - 1;
        left := if bits == 0 then 0 else c[bits];
      }
      AllHanded(b0, tree[..], q, c, order, elems, m, h - heapMax);
      MakeValid();
    }

    /** Moves codes out of the overfull longest length, then hands the lengths out again. */
    method RepairOverflow(tree: array<CtData>, desc: StaticTreeDesc, maxCode: nat, overflow: nat,
                          ghost order: seq<nat>, ghost active: set<nat>, ghost k: nat)
      requires Valid() && desc.Valid() && heapMax <= 573 && order == heap[heapMax..]
      requires Joined(order, desc.elems, k) && maxCode < desc.elems <= tree.Length
      requires forall e :: e in order ==> e < tree.Length && (e < desc.elems <==> e <= maxCode)
      requires forall n :: 0 <= n < desc.elems ==> (n in order <==> n in active)
      requires forall x :: 0 <= x < desc.elems ==> (tree[x].length == 0 <==> x !in active)
      requires overflow % 2 == 0
      requires Overfull(blCount[..], desc.maxLength, overflow / 2, desc.elems - Count(Lens(tree[..], desc.elems), 0))
      modifies this`optLen, blCount, tree
      ensures Valid() && FullLengths(blCount[..], tree[..], active, desc)
      ensures forall x :: 0 <= x < tree.Length ==> tree[x] == old(tree[x]).(length := tree[x].length)
      ensures optLen == Wrap64(old(optLen) + Sum(DynCosts(tree[..], desc)) - Sum(DynCosts(old(tree[..]), desc)))
    {
      hide *;
      ghost var total := desc.elems - Count(Lens(tree[..], desc.elems), 0);
      ValidLengths();
      SpreadOverflow(desc.maxLength, overflow, total);
      ghost var spread: seq<uint16> := blCount[..];
      MakeValid();
      ReassignLengths(tree, maxCode, desc, order, k);
      RepairedKraft(spread, Lens(tree[..], desc.elems), desc.maxLength, total);
      MakeFull(blCount[..], tree[..], active, desc);
    }

    /** Derives the code lengths from the joined tree and repairs them when any was too long. */
    method GenBitlen(tree: array<CtData>, maxCode: nat, desc: StaticTreeDesc,
                     ghost order: seq<nat>, ghost active: set<nat>, ghost k: nat)
      returns (ghost clamped: nat)
      requires Valid() && desc.Valid() && heapMax < 573 && order == heap[heapMax..]
      requires Rooted(order, tree[..], active, desc.elems, k)
      requires maxCode < desc.elems && forall n :: n in active ==> n <= maxCode
      requires forall n :: 0 <= n < desc.elems && n !in active ==> tree[..][n].length == 0
      modifies this`optLen, this`staticLen, blCount, tree
      ensures clamped == 0 ==> Unlimited(order, tree[..], desc.elems, k, desc.maxLength)
      ensures clamped != 0 ==> DeeperThan(order, desc.elems, k, desc.maxLength)
      ensures Valid() && desc.elems <= tree.Length
      ensures FullLengths(blCount[..], tree[..], active, desc)
      ensures forall x :: 0 <= x < tree.Length ==> tree[x] == old(tree[x]).(length := tree[x].length)
      ensures (forall n :: 0 <= n < desc.elems ==> (n in active <==> old(tree[n].freq) != 0)) ==>
        && optLen == Wrap64(old(optLen) + Sum(DynCosts(tree[..], desc)))
        && staticLen == if desc.staticTree != []
           then Wrap64(old(staticLen) + Sum(StatCosts(tree[..], desc))) else old(staticLen)
    {
      hide *;
      ValidLengths();
      DescBounds(desc);
      ghost var a0: seq<CtData> := tree[..];
      RootedBounds(order, a0, active, desc.elems, k);
      for bits := 0 to 16
        modifies blCount
        invariant forall b :: 0 <= b < bits ==> blCount[b] == 0
      {
        blCount[bits] := 0;
      }
      ghost var root := order[0];
      tree[heap[heapMax]] := tree[heap[heapMax]].(length := 0);
      ghost var a: seq<CtData> := tree[..];
      assert a == a0[root := a0[root].(length := 0)];
      RootCleared(a0, order, active, desc.elems, k);
      var overflow, q, dyn, stat := AssignBitlens(tree, desc, maxCode, order, active, k);
      ghost var b: seq<CtData>, c: seq<uint16> := tree[..], blCount[..];
      clamped := overflow;
      AssignDone(a, b, c, q, order, active, desc, k, overflow);
      CostDone(b, dyn, stat, order, active, desc, k);
      if overflow == 0 {
        NothingCut(a, b, c, q, order, active, desc, k);
        return;
      }
      AssignDeeper(a, b, c, q, order, active, desc, k, overflow);
      OrderCodes(order, a0, active, desc.elems, k, maxCode);
      OrderActive(order, a0, active, desc.elems, k);
      RepairOverflow(tree, desc, maxCode, overflow, order, active, k);
      WrapAdd(old(optLen) + Sum(DynCosts(b, desc)), Sum(DynCosts(tree[..], desc)) - Sum(DynCosts(b, desc)));
      StatSame(b, tree[..], desc);
    }

    /** Adds one symbol at the end of the heap. */
    method Seed(n: nat, ghost active: set<nat>)
      requires heapLen + 1 < heap.Length && Seeded(heap[..], heapLen, active) && n !in active
      modifies this`heapLen, heap
      ensures heapLen == old(heapLen) + 1 && Seeded(heap[..], heapLen, active + {n})
    {
      hide *;
      SeedPush(heap[..], heapLen, active, n);
      heapLen := heapLen + 1;
      heap[heapLen] := n;
      assert heap[..] == old(heap[..])[heapLen := n];
    }

    /** The first loop of seeding: every symbol that occurs goes into the heap. */
    method SeedHeap(tree: array<CtData>, elems: nat) returns (maxCode: int)
      requires Valid() && elems <= 286 && elems <= tree.Length
      modifies this`heapLen, this`heapMax, heap, depth, tree
      ensures Valid() && heapMax == 573 && -1 <= maxCode
      ensures HeapReady(heap[..], heapLen, tree[..], maxCode, elems)
      ensures forall n :: 0 <= n < tree.Length ==> tree[n] == old(tree[n]).(length := tree[n].length)
    {
      hide *;
      ValidLengths();
      ghost var a: seq<CtData> := tree[..];
      maxCode := -1;
      heapLen := 0;
      heapMax := 573;
      var n := 0;
      SeedStart(heap[..]);
      NothingActive(a);
      ScanStart(a);
      while n < elems
        invariant n <= elems && heapLen <= n && heapMax == 573 && tree.Length == |a|
        invariant Seeded(heap[..], heapLen, Active(a, n)) && Scanned(a, tree[..], n, maxCode)
      {
        ActiveStep(a, n);
        ScannedAt(a, tree[..], n, maxCode);
        ScanStep(a, tree[..], n, maxCode);
        if tree[n].freq != 0 {
          Seed(n, Active(a, n));
          maxCode := n;
          depth[n] := 0;
        } else {
          ghost var b: seq<CtData> := tree[..];
          tree[n] := tree[n].(length := 0);
          assert tree[..] == b[n := b[n].(length := 0)];
        }
        n := n + 1;
      }
      ScanParts(a, tree[..], n, maxCode);
      MakeReady(a, heap[..], heapLen, tree[..], maxCode, elems);
      MakeValid();
    }

    /** Seeds the heap with every symbol that occurs, inventing symbols until there are two.
        Each invented symbol is paid for in advance, modulo two to the sixty-fourth. */
    method InitHeap(tree: array<CtData>, desc: StaticTreeDesc) returns (maxCode: nat, ghost invented: seq<nat>)
      requires Valid() && desc.Valid() && desc.elems <= tree.Length
      modifies this, heap, depth, tree
      ensures Valid() && heapMax == 573 && heapLen >= 2
      ensures HeapReady(heap[..], heapLen, tree[..], maxCode, desc.elems)
      ensures var f := Freqs(old(tree[..]), desc.elems);
        Inventions(f, invented) && Freqs(tree[..], desc.elems) == Forced(f, invented)
      ensures invented != [] ==> heapLen == 2
      ensures optLen == Wrap64(old(optLen) - |invented|)
      ensures staticLen == if desc.staticTree != []
        then Wrap64(old(staticLen) - SumAt(Lens(desc.staticTree, desc.elems), invented)) else old(staticLen)
    {
      hide *;
      ValidLengths();
      DescBounds(desc);
      ghost var f: seq<nat> := Freqs(tree[..], desc.elems);
      ghost var slens: seq<nat> := if desc.staticTree != [] then Lens(desc.staticTree, desc.elems) else [];
      var mc := SeedHeap(tree, desc.elems);
      assert Freqs(tree[..], desc.elems) == f;
      ValidLengths();
      invented := [];
      NothingInvented(f, slens);
      WrapExact(optLen);
      WrapExact(staticLen);
      while heapLen < 2
        invariant Valid() && heapMax == 573 && desc.elems <= tree.Length
        invariant HeapReady(heap[..], heapLen, tree[..], mc, desc.elems)
        invariant Inventions(f, invented) && Freqs(tree[..], desc.elems) == Forced(f, invented)
        invariant -1 <= mc && (invented != [] ==> heapLen <= 2)
        invariant optLen == Wrap64(old(optLen) - |invented|)
        invariant staticLen == if desc.staticTree != []
          then Wrap64(old(staticLen) - SumAt(slens, invented)) else old(staticLen)
      {
        ghost var h: seq<nat>, b: seq<CtData>, mc0: int := heap[..], tree[..], mc;
        heapLen := heapLen + 1;
        var node: nat := 0;
        if mc < 2 {
          mc := mc + 1;
          node := mc;
        }
        InventStep(h, heapLen - 1, b, mc0, desc.elems, node);
        InventMore(f, invented, node);
        SumAtMore(slens, invented, node);
        heap[heapLen] := node;
        assert heap[..] == h[heapLen := node];
        tree[node] := tree[node].(freq := 1);
        assert tree[..] == b[node := b[node].(freq := 1)];
        depth[node] := 0;
        WrapAdd(old(optLen) - |invented|, -1);
        optLen := Wrap64(optLen as int - 1);
        if desc.staticTree != [] {
          WrapAdd(old(staticLen) - SumAt(slens, invented), 0 - slens[node] as int);
          staticLen := Wrap64(staticLen as int - desc.staticTree[node].length);
        }
        invented := invented + [node];
        MakeValid();
      }
      TwoSeeded(heap[..], heapLen, tree[..], mc, desc.elems);
      maxCode := mc;
    }

    /** Turns the seeded array into a heap. */
    method Heapify(tree: array<CtData>)
      requires 2 <= heapLen < heap.Length && tree.Length <= depth.Length
      requires forall i :: 1 <= i <= heapLen ==> heap[i] < tree.Length
      modifies heap
      ensures Rearranged(old(heap[..]), heap[..], heapLen) && HeapFrom(tree, 1)
    {
      hide *;
      ghost var h0: seq<nat> := heap[..];
      RearrangedSame(h0, heapLen);
      MakeInside(h0, heapLen, tree.Length);
      NoSonsOrdered(h0, heapLen, tree[..], depth[..]);
      HeapIs(tree, heapLen / 2 + 1);
      var n := heapLen / 2;
      while n >= 1
        invariant 0 <= n <= heapLen && Rearranged(h0, heap[..], heapLen) && HeapFrom(tree, n + 1)
      {
        ghost var h: seq<nat> := heap[..];
        PqDownHeap(tree, n);
        RearrangedTwice(h0, h, heap[..], heapLen);
        n := n - 1;
      }
    }

    /** Joins the two least frequent roots until one tree is left, and puts its root in front. */
    method JoinAll(tree: array<CtData>, elems: nat, ghost active: set<nat>) returns (ghost k: nat)
      requires Valid() && 2 <= heapLen <= elems <= 286 && 2 * elems <= tree.Length <= 573
      requires Forest(heap[..], tree[..], heapLen, heapMax, active, elems, 0) && HeapFrom(tree, 1)
      modifies this`heapLen, this`heapMax, heap, depth, tree
      ensures Valid() && 1 <= heapMax < 573
      ensures Rooted(heap[heapMax..], tree[..], active, elems, k)
      ensures DadsOnly(old(tree[..]), tree[..], elems)
      ensures Total(Weights(old(tree[..])), active) < 65536 ==>
        Rounds(active, Weights(old(tree[..])), tree[..], heap[..][heapMax..][1..], elems, k)
    {
      hide *;
      ValidLengths();
      var node := elems;
      ghost var w0: seq<nat> := Weights(tree[..]);
      ghost var light := Total(w0, active) < 65536;
      DadsStart(tree[..], elems);
      NothingJoined(heap[..], tree[..], heapLen, heapMax, active, elems);
      while true
        invariant Valid() && HeapFrom(tree, 1) && heapLen >= 2 && elems <= node
        invariant heapLen + node == old(heapLen) + elems
        invariant Forest(heap[..], tree[..], heapLen, heapMax, active, elems, node - elems)
        invariant DadsOnly(old(tree[..]), tree[..], elems)
        invariant heapMax <= 573 && (light ==> Rounds(active, w0, tree[..], heap[..][heapMax..], elems, node - elems))
        decreases heapLen
      {
        ghost var b: seq<CtData>, g: seq<nat>, e: seq<byte> := tree[..], heap[..], depth[..];
        ghost var len, most := heapLen, heapMax;
        ghost var n, m := JoinTwo(tree, node, active, elems, node - elems);
        if light { RoundStep(active, w0, b, tree[..], g, e, len, most, elems, node - elems, n, m); }
        DadsStep(old(tree[..]), b, tree[..], elems, node);
        node := node + 1;
        if heapLen < 2 {
          break;
        }
      }
      ghost var h: seq<nat>, max := heap[..], heapMax;
      k := node - elems;
      ForestRange(h, tree[..], 1, max, active, elems, k);
      ForestDone(h, tree[..], max, active, elems, k);
      heapMax := heapMax - 1;
      heap[heapMax] := heap[1];
      assert heap[..] == h[max - 1 := h[1]];
      assert heap[..][heapMax..][1..] == h[max..];
      MakeValid();
    }

    /** Seeds the heap and joins everything to one tree. */
    method MakeTree(tree: array<CtData>, desc: StaticTreeDesc)
      returns (maxCode: nat, ghost invented: seq<nat>, ghost a: seq<CtData>, ghost active: set<nat>, ghost k: nat)
      requires Valid() && desc.Valid() && 2 * desc.elems <= tree.Length <= 573
      modifies this, heap, depth, tree
      ensures Valid() && 1 <= heapMax < 573 && maxCode < desc.elems
      ensures Rooted(heap[heapMax..], tree[..], active, desc.elems, k)
      ensures Grown(Freqs(old(tree[..]), desc.elems), invented, a, tree[..], heap[heapMax..], active, desc, k, maxCode)
      ensures optLen == Wrap64(old(optLen) - |invented|)
      ensures staticLen == if desc.staticTree != []
        then Wrap64(old(staticLen) - SumAt(Lens(desc.staticTree, desc.elems), invented)) else old(staticLen)
    {
      hide *;
      ValidLengths();
      DescBounds(desc);
      ghost var f: seq<nat> := Freqs(tree[..], desc.elems);
      maxCode, invented := InitHeap(tree, desc);
      a := tree[..];
      ghost var h: seq<nat> := heap[..];
      active := Active(a, desc.elems);
      ReadyBounds(h, heapLen, a, maxCode, desc.elems);
      OccurringActive(f, invented, a, active);
      Heapify(tree);
      RearrangedForest(h, heap[..], a, heapLen, heapMax, active, desc.elems, 0);
      k := JoinAll(tree, desc.elems, active);
      DadsFacts(a, tree[..], active, desc.elems);
      assert heap[..][heapMax..] == heap[heapMax..];
      MakeGrown(f, invented, a, tree[..], heap[heapMax..], active, desc, k, maxCode);
    }

    /** Builds the length-limited code for the frequencies in the tree, and adds to the running lengths what the symbols
        cost with it. Where no depth had to be cut to the limit, and the frequencies together fit their type, no code
        is cheaper; and none has to be cut before the frequencies reach a Fibonacci number, 2584 for a limit of 15. */
    method BuildTree(tree: array<CtData>, desc: StaticTreeDesc) returns (maxCode: nat, ghost clamped: nat)
      requires Valid() && desc.Valid() && 2 * desc.elems <= tree.Length <= 573
      modifies this, heap, depth, blCount, tree
      ensures Valid() && Built(tree[..], maxCode, desc)
      ensures forall n :: 0 <= n < desc.elems && old(tree[n].freq) != 0 ==> tree[n].length != 0
      ensures Sum(Freqs(old(tree[..]), desc.elems)) < Fib(desc.maxLength + 3) ==> clamped == 0
      ensures clamped == 0 && Sum(Freqs(old(tree[..]), desc.elems)) < 65536 ==>
        Cheapest(Freqs(old(tree[..]), desc.elems), Lens(tree[..], desc.elems))
      ensures optLen ==
        Wrap64(old(optLen) + Sum(Owed(Freqs(old(tree[..]), desc.elems), Lens(tree[..], desc.elems), desc)))
      ensures staticLen == if desc.staticTree != []
        then
          Wrap64(old(staticLen) + Sum(Owed(Freqs(old(tree[..]), desc.elems), Lens(desc.staticTree, desc.elems), desc)))
        else old(staticLen)
    {
      hide *;
      ValidLengths();
      DescBounds(desc);
      ghost var f: seq<nat> := Freqs(tree[..], desc.elems);
      ghost var invented: seq<nat>, a: seq<CtData>, active: set<nat>, k := [], [], {}, 0;
      maxCode, invented, a, active, k := MakeTree(tree, desc);
      ghost var b: seq<CtData>, order: seq<nat> := tree[..], heap[heapMax..];
      GrownFacts(f, invented, a, b, order, active, desc, k, maxCode);
      clamped := GenBitlen(tree, maxCode, desc, order, active, k);
      if clamped != 0 { LightTree(f, invented, a, b, order, active, desc, k, maxCode); }
      ghost var c: seq<CtData>, counts: seq<uint16> := tree[..], blCount[..];
      FullPrefix(counts, c, active, desc, maxCode);
      GenCodes(tree, maxCode, blCount);
      TwoDifferent(active, maxCode);
      CodedBuilt(c, tree[..], maxCode, desc);
      LengthsKept(f, c, tree[..], active, desc.elems);
      assert Freqs(c, desc.elems) == Freqs(a, desc.elems);
      if clamped == 0 && Sum(f) < 65536 { BestCode(f, invented, a, b, c, counts, order, active, desc, k, maxCode); }
      BuildCost(f, invented, counts, c, active, desc);
      WrapAdd(old(optLen) - |invented|, Sum(DynCosts(c, desc)));
      if desc.staticTree != [] {
        WrapAdd(old(staticLen) - SumAt(Lens(desc.staticTree, desc.elems), invented), Sum(StatCosts(c, desc)));
      }
      MakeValid();
    }
  }

  /** The tree that joining left: which symbols it holds, what was invented, and what its nodes weigh. */
  ghost predicate Grown(f: seq<nat>, invented: seq<nat>, a: seq<CtData>, b: seq<CtData>, order: seq<nat>,
                        active: set<nat>, desc: StaticTreeDesc, k: nat, maxCode: nat)
  {
    && desc.Valid() && desc.elems == |f| <= |a| == |b| && maxCode < desc.elems
    && Inventions(f, invented) && Freqs(a, desc.elems) == Forced(f, invented)
    && (forall x :: 0 <= x < desc.elems ==> b[x].freq == a[x].freq && (x !in active ==> b[x].length == 0))
    && (forall x :: x in active ==> x < desc.elems && x <= maxCode) && maxCode in active && |active| >= 2
    && (forall x :: 0 <= x < desc.elems ==> (x in active <==> a[x].freq != 0))
    && (invented != [] ==> |active| == 2)
    && (forall n :: 0 <= n < |f| && f[n] != 0 ==> n in active)
    && order != []
    && (Total(Weights(a), active) < 65536 ==> Rounds(active, Weights(a), b, order[1..], desc.elems, k))
  }

  lemma MakeGrown(f: seq<nat>, invented: seq<nat>, a: seq<CtData>, b: seq<CtData>, order: seq<nat>, active: set<nat>,
                  desc: StaticTreeDesc, k: nat, maxCode: nat)
    requires desc.Valid() && desc.elems == |f| <= |a| == |b| && maxCode < desc.elems
    requires Inventions(f, invented) && Freqs(a, desc.elems) == Forced(f, invented)
    requires forall x :: 0 <= x < desc.elems ==> b[x].freq == a[x].freq && b[x].length == a[x].length
    requires forall x :: 0 <= x < desc.elems && x !in active ==> a[x].length == 0
    requires (forall x :: x in active ==> x < desc.elems && x <= maxCode) && maxCode in active && |active| >= 2
    requires forall x :: 0 <= x < desc.elems ==> (x in active <==> a[x].freq != 0)
    requires invented != [] ==> |active| == 2
    requires forall n :: 0 <= n < |f| && f[n] != 0 ==> n in active
    requires order != []
    requires Total(Weights(a), active) < 65536 ==> Rounds(active, Weights(a), b, order[1..], desc.elems, k)
    ensures Grown(f, invented, a, b, order, active, desc, k, maxCode)
  {
    hide Rounds, Total, Inventions, Forced;
  }

  lemma GrownFacts(f: seq<nat>, invented: seq<nat>, a: seq<CtData>, b: seq<CtData>, order: seq<nat>, active: set<nat>,
                   desc: StaticTreeDesc, k: nat, maxCode: nat)
    requires Grown(f, invented, a, b, order, active, desc, k, maxCode)
    ensures desc.Valid() && desc.elems == |f| <= |a| == |b| && maxCode < desc.elems
    ensures Inventions(f, invented) && Freqs(a, desc.elems) == Forced(f, invented)
    ensures forall x :: 0 <= x < desc.elems ==> b[x].freq == a[x].freq
    ensures forall x :: 0 <= x < desc.elems && x !in active ==> b[x].length == 0
    ensures (forall x :: x in active ==> x < desc.elems && x <= maxCode) && maxCode in active && |active| >= 2
    ensures forall x :: 0 <= x < desc.elems ==> (x in active <==> b[x].freq != 0)
    ensures (invented != [] ==> |active| == 2) && forall n :: 0 <= n < |f| && f[n] != 0 ==> n in active
  {
    hide Rounds, Total, Inventions, Forced;
  }

  lemma LengthsKept(f: seq<nat>, c: seq<CtData>, d: seq<CtData>, active: set<nat>, elems: nat)
    requires elems == |f| <= |c| == |d| && Lens(d, elems) == Lens(c, elems)
    requires forall n :: 0 <= n < elems && n in active ==> c[n].length != 0
    requires forall n :: 0 <= n < |f| && f[n] != 0 ==> n in active
    ensures forall n :: 0 <= n < elems && f[n] != 0 ==> d[n].length != 0
  {
    forall n | 0 <= n < elems && f[n] != 0
      ensures d[n].length != 0
    {
      assert Lens(d, elems)[n] == Lens(c, elems)[n];
    }
  }

  /** A walk that cut no depth leaves the finished lengths. */
  lemma NothingCut(a: seq<CtData>, b: seq<CtData>, c: seq<int>, q: seq<nat>, order: seq<nat>, active: set<nat>,
                   desc: StaticTreeDesc, k: nat)
    requires AssignInv(a, b, c, q, order, desc, k, 2 * k + 1, 0)
    requires Rooted(order, a, active, desc.elems, k) && |order| == 2 * k + 1 && order[0] < |a|
    requires a[order[0]].length == 0
    requires forall n :: 0 <= n < desc.elems && n !in active ==> n < |a| && a[n].length == 0
    ensures desc.elems <= |b| && FullLengths(c, b, active, desc) && Unlimited(order, b, desc.elems, k, desc.maxLength)
  {
    hide *;
    AssignDone(a, b, c, q, order, active, desc, k, 0);
    AssignUnlimited(a, b, c, q, order, active, desc, k);
    RepairedKraft(c, Lens(b, desc.elems), desc.maxLength, desc.elems - Count(Lens(b, desc.elems), 0));
    MakeFull(c, b, active, desc);
  }

  /** Joining moves the two nodes in front of those joined before. */
  lemma RoundTail(h: seq<nat>, h2: seq<nat>, h5: seq<nat>, len: nat, max: nat, node: nat)
    requires 2 <= len < max - 2 && max <= |h| && |h2| == |h|
    requires Rearranged(h[1 := h[len]], h2, len - 1)
    requires Rearranged(h2[max - 1 := h[1]][max - 2 := h2[1]][1 := node], h5, len - 1)
    ensures |h5| == |h| && h5[max - 2..] == [h2[1], h[1]] + h[max..]
  {
    hide *;
    MakeHeapJoined(h, h2, h5, len, max, node);
    JoinParts(h, h2, h5, len, max, node);
  }

  lemma NothingJoined(h: seq<nat>, tree: seq<CtData>, len: nat, max: nat, active: set<nat>, elems: nat)
    requires Forest(h, tree, len, max, active, elems, 0)
    ensures max == |h| && elems <= |tree| && Rounds(active, Weights(tree), tree, h[max..], elems, 0)
  {
    hide Rounds;
    RoundsStart(active, tree, elems);
    assert h[max..] == [];
  }

  /** A tree deeper than the limit is heavy. */
  lemma LightTree(f: seq<nat>, invented: seq<nat>, a: seq<CtData>, b: seq<CtData>, order: seq<nat>, active: set<nat>,
                  desc: StaticTreeDesc, k: nat, maxCode: nat)
    requires Grown(f, invented, a, b, order, active, desc, k, maxCode) && Rooted(order, b, active, desc.elems, k)
    requires DeeperThan(order, desc.elems, k, desc.maxLength)
    ensures Sum(f) >= Fib(desc.maxLength + 3)
  {
    hide Rounds, Total, Sum, Fib, Joined, Pow2, DeeperThan;
    var elems := desc.elems;
    TwoLeaves(order, b, active, elems, k, desc.maxLength);
    TotalBelow(Weights(a), active, elems);
    assert Weights(a)[..elems] == f;
    TotalIsSum(f, active);
    FibFits(desc.maxLength);
    if Sum(f) < 65536 {
      forall e | e in order
        ensures e < |b| && (e < elems ==> b[e].freq >= 1)
      {
        InOrder(order, b, active, elems, k, e);
      }
      DeeperHeavy(active, Weights(a), b, order, elems, k, desc.maxLength);
    }
  }

  lemma InOrder(order: seq<nat>, b: seq<CtData>, active: set<nat>, elems: nat, k: nat, e: nat)
    requires Rooted(order, b, active, elems, k) && e in order
    ensures e < |b| && (e < elems ==> e in active)
  {
    var t :| 0 <= t < |order| && order[t] == e;
  }

  /** The lengths built are a cheapest code for the true frequencies. */
  lemma BestCode(f: seq<nat>, invented: seq<nat>, a: seq<CtData>, b: seq<CtData>, c: seq<CtData>, counts: seq<int>,
                 order: seq<nat>, active: set<nat>, desc: StaticTreeDesc, k: nat, maxCode: nat)
    requires Grown(f, invented, a, b, order, active, desc, k, maxCode) && |c| == |b| && desc.elems <= |c|
    requires FullLengths(counts, c, active, desc)
    requires forall x :: 0 <= x < |b| ==> c[x] == b[x].(length := c[x].length)
    requires Unlimited(order, c, desc.elems, k, desc.maxLength) && Sum(f) < 65536
    ensures |f| == desc.elems && Cheapest(f, Lens(c, desc.elems))
  {
    hide Cheapest, Unlimited, Rounds, Total, Sum, Kraft, Count, Tallies, Pow2;
    if invented == [] {
      TotalBelow(Weights(a), active, desc.elems);
      assert Weights(a)[..desc.elems] == f;
      TotalIsSum(f, active);
      RoundsSame(active, Weights(a), b, c, order[1..], desc.elems, k);
      BuiltCheapest(a, c, order, active, desc.elems, k, desc.maxLength);
    } else {
      var lens := Lens(c, desc.elems);
      forall n | 0 <= n < |f| && f[n] != 0
        ensures lens[n] == 1
      {
        assert n in active;
        TwoActive(lens, active, desc.maxLength, n);
      }
      OneBitCheapest(f, lens);
    }
  }

  lemma NothingActive(a: seq<CtData>)
    ensures Active(a, 0) == {}
  {
  }

  lemma MakeReady(a: seq<CtData>, h: seq<nat>, len: nat, tree: seq<CtData>, maxCode: int, elems: nat)
    requires elems <= |a| == |tree| && Seeded(h, len, Active(a, elems))
    requires -1 <= maxCode < elems && (maxCode >= 0 ==> maxCode in Active(a, elems))
    requires forall x :: x in Active(a, elems) ==> x <= maxCode
    requires forall x :: 0 <= x < |tree| ==> tree[x] == a[x].(length := tree[x].length)
    requires forall x :: 0 <= x < elems && a[x].freq == 0 ==> tree[x].length == 0
    ensures HeapReady(h, len, tree, maxCode, elems)
  {
    assert Active(tree, elems) == Active(a, elems);
  }

  lemma NothingInvented(f: seq<nat>, lens: seq<nat>)
    ensures Inventions(f, []) && Forced(f, []) == f && SumAt(lens, []) == 0
  {
  }

  lemma TwoSeeded(h: seq<nat>, len: nat, tree: seq<CtData>, maxCode: int, elems: nat)
    requires HeapReady(h, len, tree, maxCode, elems) && len >= 2
    ensures maxCode >= 0
  {
    SeedCount(h, len, tree, elems);
    var active := Active(tree, elems);
    assert active != {};
    var x :| x in active;
  }

  lemma PlaceOnce(order: seq<nat>, elems: nat, k: nat, t: nat)
    requires Joined(order, elems, k) && t < |order|
    ensures forall i :: t < i < |order| ==> order[i] != order[t]
  {
  }

  lemma OverfullTable(c: seq<int>, m: nat, total: int)
    requires Overfull(c, m, 0, total)
    ensures |c| == 16 && 1 <= m <= 15 && c[0] == 0 && CountsTotal(c, m + 1) == total
    ensures (forall b :: 0 <= b < 16 ==> 0 <= c[b]) && (forall b :: m < b < 16 ==> c[b] == 0)
  {
  }

  lemma SplitParts(c: seq<int>, bits: nat, m: nat)
    requires 1 <= bits < m < |c|
    ensures var d := c[bits := c[bits] - 1];
      var e := d[bits + 1 := d[bits + 1] + 2];
      Split(c, bits, m) == e[m := e[m] - 1]
  {
  }

  lemma CostChange(b: seq<CtData>, desc: StaticTreeDesc, x: nat, bits: nat, base: int)
    requires desc.Valid() && desc.elems <= |b| && x < desc.elems && bits < 65536
    ensures var after := Wrap64(base + Sum(DynCosts(b[x := b[x].(length := bits)], desc)));
      && after == Wrap64(Wrap64(base + Sum(DynCosts(b, desc))) + Wrap64(Wrap64(bits - b[x].length) * b[x].freq))
      && (b[x].length == bits ==> after == Wrap64(base + Sum(DynCosts(b, desc))))
  {
    hide Sum, Wrap64, SymbolCost;
    var cost := DynCosts(b, desc);
    CostsStep(b, desc, x, bits);
    SumUpdate(cost, x, SymbolCost(b[x].freq, bits, desc.Extra(x)));
    RepairCost(base + Sum(cost), bits, b[x].length, b[x].freq, desc.Extra(x));
    if b[x].length == bits { assert b[x := b[x].(length := bits)] == b; }
  }

  lemma DescBounds(desc: StaticTreeDesc)
    requires desc.Valid()
    ensures 3 <= desc.elems <= 286 && 1 <= desc.maxLength <= 15
    ensures desc.elems <= desc.extraBase + |desc.extraBits|
    ensures desc.staticTree != [] ==> desc.elems <= |desc.staticTree|
  {
  }

  function MinOf(a: int, b: int): (r: int)
    ensures r == if a > b then b else a
    ensures r == Min(a, b)
  {
    Min(a, b)
  }
}
