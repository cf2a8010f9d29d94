/** Facts about the arrays the tree construction works on, one step at a time. */
module TreeLemmas {
  import opened Bits
  import opened Huffman

  // -- the heap ----------------------------------------------------------------

  /** b holds the same elements as a in places 1..n, in any order, and is equal elsewhere. */
  ghost predicate Rearranged(a: seq<nat>, b: seq<nat>, n: nat)
  {
    && |a| == |b| && n < |a|
    && multiset(a) == multiset(b)
    && a[0] == b[0] && a[n + 1..] == b[n + 1..]
  }

  lemma SwapKeepsElements(s: seq<nat>, i: nat, j: nat)
    requires i < |s| && j < |s|
    ensures multiset(s[i := s[j]][j := s[i]]) == multiset(s)
  {
  }

  lemma SwapRearranged(a: seq<nat>, s: seq<nat>, k: nat, j: nat, n: nat)
    requires Rearranged(a, s, n) && n < |s| && 1 <= k <= n && 1 <= j <= n
    ensures Rearranged(a, s[k := s[j]][j := s[k]], n)
  {
    SwapKeepsElements(s, k, j);
  }

  lemma RearrangedMiddle(a: seq<nat>, b: seq<nat>, n: nat)
    requires Rearranged(a, b, n)
    ensures multiset(a[1..n + 1]) == multiset(b[1..n + 1])
  {
    assert a == [a[0]] + a[1..n + 1] + a[n + 1..];
    assert b == [b[0]] + b[1..n + 1] + b[n + 1..];
    var rest := multiset{a[0]} + multiset(a[n + 1..]);
    assert multiset(a) == multiset(a[1..n + 1]) + rest;
    assert multiset(b) == multiset(b[1..n + 1]) + rest;
    assert multiset(a[1..n + 1]) == multiset(a) - rest;
  }

  lemma RearrangedSame(a: seq<nat>, n: nat)
    requires n < |a|
    ensures Rearranged(a, a, n)
  {
  }

  lemma RearrangedElements(a: seq<nat>, b: seq<nat>, n: nat, bound: nat)
    requires Rearranged(a, b, n) && forall i :: 1 <= i <= n ==> a[i] < bound
    ensures forall i :: 1 <= i <= n ==> b[i] < bound
  {
    RearrangedMiddle(a, b, n);
    forall i | 1 <= i <= n
      ensures b[i] < bound
    {
      assert b[i] == b[1..n + 1][i - 1];
      assert b[i] in multiset(b[1..n + 1]);
      assert b[i] in multiset(a[1..n + 1]);
      assert b[i] in a[1..n + 1];
    }
  }

  /** The nodes in the heap and the nodes already joined, together. */
  function Parts(h: seq<nat>, len: nat, max: nat): multiset<nat>
    requires len < |h| && max <= |h|
  {
    multiset(h[1..len + 1]) + multiset(h[max..])
  }

  lemma RearrangedParts(a: seq<nat>, b: seq<nat>, n: nat, max: nat)
    requires Rearranged(a, b, n) && n < max <= |a|
    ensures Parts(b, n, max) == Parts(a, n, max) && b[max..] == a[max..]
  {
    RearrangedMiddle(a, b, n);
    assert a[n + 1..][max - n - 1..] == a[max..];
    assert b[n + 1..][max - n - 1..] == b[max..];
  }

  /** Taking the first element and putting the last in its place. */
  lemma RemoveFirst(h: seq<nat>, len: nat)
    requires 1 <= len < |h|
    ensures multiset(h[1 := h[len]][1..len]) + multiset{h[1]} == multiset(h[1..len + 1])
  {
    var s := h[1..len + 1];
    if len == 1 {
      assert s == [h[1]];
      assert h[1 := h[len]][1..len] == [];
    } else {
      var t := h[1 := h[len]][1..len];
      assert t == [h[len]] + h[2..len];
      assert s == [h[1]] + h[2..len] + [h[len]];
    }
  }

  lemma ReplaceFirst(h: seq<nat>, len: nat, x: nat)
    requires 1 <= len < |h|
    ensures multiset(h[1 := x][1..len + 1]) + multiset{h[1]} == multiset(h[1..len + 1]) + multiset{x}
  {
    assert h[1..len + 1] == [h[1]] + h[2..len + 1];
    assert h[1 := x][1..len + 1] == [x] + h[2..len + 1];
  }

  lemma ElementIn(h: seq<nat>, len: nat, i: nat)
    requires 1 <= i <= len < |h|
    ensures h[i] in multiset(h[1..len + 1])
  {
    assert h[i] == h[1..len + 1][i - 1];
  }

  lemma {:induction false} DistinctElements(s: seq<nat>)
    requires forall x :: multiset(s)[x] <= 1
    ensures forall i, j :: 0 <= i < j < |s| ==> s[i] != s[j]
  {
    forall i, j | 0 <= i < j < |s|
      ensures s[i] != s[j]
    {
      assert s == s[..j] + s[j..];
      assert multiset(s) == multiset(s[..j]) + multiset(s[j..]);
      assert s[i] == s[..j][i] && s[j] == s[j..][0];
      assert multiset(s)[s[i]] == multiset(s[..j])[s[i]] + multiset(s[j..])[s[i]];
      assert s[i] in multiset(s[..j]) && s[j] in multiset(s[j..]);
    }
  }

  // -- symbols in use ------------------------------------------------------------

  function Active(tree: seq<CtData>, n: nat): set<nat>
    requires n <= |tree|
  {
    set i: nat | i < n && tree[i].freq != 0
  }

  function Internals(elems: nat, node: nat): set<nat>
  {
    if node <= elems then {} else Internals(elems, node - 1) + {node - 1}
  }

  lemma {:induction false} InternalsMember(elems: nat, node: nat, e: nat)
    ensures e in Internals(elems, node) <==> elems <= e < node
  {
    if node > elems { InternalsMember(elems, node - 1, e); }
  }

  lemma ActiveStep(tree: seq<CtData>, n: nat)
    requires n < |tree|
    ensures n !in Active(tree, n)
    ensures Active(tree, n + 1) == if tree[n].freq != 0 then Active(tree, n) + {n} else Active(tree, n)
  {
  }

  lemma InternalsStep(elems: nat, node: nat)
    requires elems <= node
    ensures node !in Internals(elems, node) && Internals(elems, node + 1) == Internals(elems, node) + {node}
    ensures Internals(elems, elems) == {}
  {
    InternalsMember(elems, node, node);
  }

  lemma AddToMultiset(s: set<nat>, x: nat)
    requires x !in s
    ensures multiset(s + {x}) == multiset(s) + multiset{x}
  {
  }

  lemma PushElement(h: seq<nat>, len: nat, x: nat)
    requires len + 1 < |h|
    ensures multiset(h[len + 1 := x][1..len + 2]) == multiset(h[1..len + 1]) + multiset{x}
  {
    assert h[len + 1 := x][1..len + 2] == h[1..len + 1] + [x];
  }

  /** The first n symbols are looked at: maxCode is the last that occurs, or -1, and what does not occur has
      length 0. */
  ghost predicate Scanned(a: seq<CtData>, t: seq<CtData>, n: nat, maxCode: int)
  {
    && n <= |a| == |t| && -1 <= maxCode < n && (maxCode >= 0 ==> maxCode in Active(a, n))
    && (forall x :: x in Active(a, n) ==> x <= maxCode)
    && (forall x :: 0 <= x < |t| ==> t[x] == a[x].(length := t[x].length))
    && forall x :: 0 <= x < n && a[x].freq == 0 ==> t[x].length == 0
  }

  lemma ScanStart(a: seq<CtData>)
    ensures Scanned(a, a, 0, -1)
  {
  }

  lemma ScannedAt(a: seq<CtData>, t: seq<CtData>, n: nat, maxCode: int)
    requires Scanned(a, t, n, maxCode) && n < |a|
    ensures |t| == |a| && t[n] == a[n].(length := t[n].length)
  {
  }

  lemma ScanStep(a: seq<CtData>, t: seq<CtData>, n: nat, maxCode: int)
    requires Scanned(a, t, n, maxCode) && n < |a|
    ensures |t| == |a|
    ensures a[n].freq != 0 ==> Scanned(a, t, n + 1, n)
    ensures a[n].freq == 0 ==> Scanned(a, t[n := t[n].(length := 0)], n + 1, maxCode)
  {
    ActiveStep(a, n);
  }

  lemma ScanParts(a: seq<CtData>, t: seq<CtData>, n: nat, maxCode: int)
    requires Scanned(a, t, n, maxCode)
    ensures n <= |a| == |t| && -1 <= maxCode < n && (maxCode >= 0 ==> maxCode in Active(a, n))
    ensures forall x :: x in Active(a, n) ==> x <= maxCode
    ensures forall x :: 0 <= x < |t| ==> t[x] == a[x].(length := t[x].length)
    ensures forall x :: 0 <= x < n && a[x].freq == 0 ==> t[x].length == 0
  {
  }

  // -- joining nodes ---------------------------------------------------------------

  /** After k joins: the roots are in the heap, every joined node points at the internal
      node made for it, and each node occurs once. */
  ghost predicate Forest(h: seq<nat>, tree: seq<CtData>, len: nat, max: nat, active: set<nat>, elems: nat, k: nat)
  {
    && |h| == HEAP_SIZE && max + 2 * k == HEAP_SIZE && 1 <= len < max
    && (forall x :: x in active ==> x < elems) && elems + k <= |tree|
    && Parts(h, len, max) == multiset(active + Internals(elems, elems + k))
    && forall i :: max <= i < HEAP_SIZE ==>
      h[i] < elems + (HEAP_SIZE - 1 - i) / 2 && h[i] < |tree| && tree[h[i]].dad == elems + (HEAP_SIZE - 1 - i) / 2
  }

  lemma ForestRange(h: seq<nat>, tree: seq<CtData>, len: nat, max: nat, active: set<nat>, elems: nat, k: nat)
    requires Forest(h, tree, len, max, active, elems, k)
    ensures |h| == 573 && 1 <= len < max && max + 2 * k == 573 && elems + k <= |tree|
    ensures forall i :: 1 <= i <= len ==> h[i] < elems + k
  {
    forall i | 1 <= i <= len
      ensures h[i] < elems + k
    {
      ElementIn(h, len, i);
      assert h[i] in multiset(active + Internals(elems, elems + k));
      InternalsMember(elems, elems + k, h[i]);
    }
  }

  /** What one round of joining does to the heap array. */
  ghost predicate HeapJoined(h: seq<nat>, h2: seq<nat>, h5: seq<nat>, len: nat, max: nat, node: nat)
  {
    && 2 <= len < max - 2 && max <= |h| && |h2| == |h|
    && Rearranged(h[1 := h[len]], h2, len - 1)
    && Rearranged(h2[max - 1 := h[1]][max - 2 := h2[1]][1 := node], h5, len - 1)
  }

  lemma MakeHeapJoined(h: seq<nat>, h2: seq<nat>, h5: seq<nat>, len: nat, max: nat, node: nat)
    requires 2 <= len < max - 2 && max <= |h| && |h2| == |h|
    requires Rearranged(h[1 := h[len]], h2, len - 1)
    requires Rearranged(h2[max - 1 := h[1]][max - 2 := h2[1]][1 := node], h5, len - 1)
    ensures HeapJoined(h, h2, h5, len, max, node)
  {
  }

  lemma MakeNodesJoined(a: seq<CtData>, b: seq<CtData>, n: nat, m: nat, node: nat)
    requires n < node && m < node < |a| && n != m && node < 65536
    requires var a2 := a[node := a[node].(freq := Uint16(a[n].freq + a[m].freq))];
      var a3 := a2[n := a2[n].(dad := node)];
      b == a3[m := a3[m].(dad := node)]
    ensures NodesJoined(a, b, n, m, node)
  {
  }

  lemma JoinParts(h: seq<nat>, h2: seq<nat>, h5: seq<nat>, len: nat, max: nat, node: nat)
    requires HeapJoined(h, h2, h5, len, max, node)
    ensures |h5| == |h| && h5[max - 2..] == [h2[1], h[1]] + h[max..]
    ensures Parts(h5, len - 1, max - 2) == Parts(h, len, max) + multiset{node}
    ensures multiset(h[1..len + 1]) == multiset(h2[1..len]) + multiset{h[1]}
    ensures h2[1] in multiset(h2[1..len])
  {
    hide *;
    FirstTaken(h, h2, h5, len, max, node);
    SecondTaken(h, h2, h5, len, max, node);
    JoinArithmetic(h, h2, h5, len, max, node);
  }

  lemma FirstTaken(h: seq<nat>, h2: seq<nat>, h5: seq<nat>, len: nat, max: nat, node: nat)
    requires HeapJoined(h, h2, h5, len, max, node)
    ensures 2 <= len < max - 2 && max <= |h| == |h2|
    ensures h2[max..] == h[max..] && h2[1] in multiset(h2[1..len])
    ensures multiset(h[1..len + 1]) == multiset(h2[1..len]) + multiset{h[1]}
  {
    var h1 := h[1 := h[len]];
    RemoveFirst(h, len);
    RearrangedMiddle(h1, h2, len - 1);
    RearrangedParts(h1, h2, len - 1, max);
    ElementIn(h2, len - 1, 1);
    assert h1[max..] == h[max..];
  }

  lemma SecondTaken(h: seq<nat>, h2: seq<nat>, h5: seq<nat>, len: nat, max: nat, node: nat)
    requires HeapJoined(h, h2, h5, len, max, node)
    ensures 2 <= len < max - 2 && max <= |h| == |h2| == |h5|
    ensures h5[max - 2..] == [h2[1], h[1]] + h2[max..]
    ensures multiset(h5[1..len]) + multiset{h2[1]} == multiset(h2[1..len]) + multiset{node}
  {
    var h3 := h2[max - 1 := h[1]][max - 2 := h2[1]];
    assert h3[1..len] == h2[1..len];
    ReplaceFirst(h3, len - 1, node);
    RearrangedMiddle(h3[1 := node], h5, len - 1);
    RearrangedParts(h3[1 := node], h5, len - 1, max - 2);
    assert h3[1 := node][max - 2..] == [h2[1], h[1]] + h2[max..];
  }

  lemma JoinArithmetic(h: seq<nat>, h2: seq<nat>, h5: seq<nat>, len: nat, max: nat, node: nat)
    requires 2 <= len < max - 2 && max <= |h| == |h2| == |h5|
    requires h5[max - 2..] == [h2[1], h[1]] + h[max..]
    requires multiset(h[1..len + 1]) == multiset(h2[1..len]) + multiset{h[1]}
    requires multiset(h5[1..len]) + multiset{h2[1]} == multiset(h2[1..len]) + multiset{node}
    ensures Parts(h5, len - 1, max - 2) == Parts(h, len, max) + multiset{node}
  {
    var joined := multiset(h[max..]);
    assert multiset([h2[1], h[1]]) == multiset{h2[1]} + multiset{h[1]};
    assert multiset(h5[max - 2..]) == multiset{h2[1]} + multiset{h[1]} + joined;
    MoveTwo(multiset(h5[1..len]), multiset(h2[1..len]), joined, multiset{h[1]}, multiset{h2[1]}, multiset{node});
  }

  lemma MoveTwo<T>(a: multiset<T>, b: multiset<T>, joined: multiset<T>, n: multiset<T>, m: multiset<T>,
      node: multiset<T>)
    requires a + m == b + node
    ensures a + (m + n + joined) == (b + n) + joined + node
  {
    assert a + (m + n + joined) == (a + m) + n + joined;
  }

  /** What one round of joining does to the nodes. */
  ghost predicate NodesJoined(a: seq<CtData>, b: seq<CtData>, n: nat, m: nat, node: nat)
  {
    && |a| == |b| && n < node && m < node < |a| && n != m
    && b[n] == a[n].(dad := b[n].dad) && b[n].dad == node
    && b[m] == a[m].(dad := b[m].dad) && b[m].dad == node
    && b[node] == a[node].(freq := Uint16(a[n].freq + a[m].freq))
    && forall x :: 0 <= x < |a| && x != n && x != m && x != node ==> b[x] == a[x]
  }

  lemma TakenDistinct(h: seq<nat>, h2: seq<nat>, tree: seq<CtData>, len: nat, max: nat,
                      active: set<nat>, elems: nat, k: nat)
    requires Forest(h, tree, len, max, active, elems, k) && len >= 2
    requires Rearranged(h[1 := h[len]], h2, len - 1)
    ensures h[1] != h2[1] && h[1] < elems + k && h2[1] < elems + k
  {
    var h1 := h[1 := h[len]];
    ForestRange(h, tree, len, max, active, elems, k);
    RearrangedElements(h1, h2, len - 1, elems + k);
    RemoveFirst(h, len);
    RearrangedMiddle(h1, h2, len - 1);
    ElementIn(h2, len - 1, 1);
    var all := multiset(active + Internals(elems, elems + k));
    assert all[h[1]] <= 1;
    assert multiset(h[1..len + 1])[h[1]] <= all[h[1]];
  }

  /** The two nodes taken from the heap are different, known, and not joined yet. */
  lemma TakenNodes(h: seq<nat>, h2: seq<nat>, h5: seq<nat>, tree: seq<CtData>, len: nat, max: nat,
                   active: set<nat>, elems: nat, k: nat)
    requires Forest(h, tree, len, max, active, elems, k)
    requires HeapJoined(h, h2, h5, len, max, elems + k)
    ensures h[1] != h2[1] && h[1] < elems + k && h2[1] < elems + k
    ensures forall i :: max <= i < HEAP_SIZE ==> h[i] != h[1] && h[i] != h2[1]
  {
    hide Forest, HeapJoined, Rearranged, Parts;
    JoinParts(h, h2, h5, len, max, elems + k);
    JoinedFirst(h, h2, h5, len, max, elems + k);
    TakenDistinct(h, h2, tree, len, max, active, elems, k);
    ElementIn(h, len, 1);
    NotJoinedYet(h, tree, len, max, active, elems, k, h[1]);
    NotJoinedYet(h, tree, len, max, active, elems, k, h2[1]);
  }

  lemma JoinedFirst(h: seq<nat>, h2: seq<nat>, h5: seq<nat>, len: nat, max: nat, node: nat)
    requires HeapJoined(h, h2, h5, len, max, node)
    ensures 2 <= len < |h| && len < |h2| && Rearranged(h[1 := h[len]], h2, len - 1)
  {
  }

  /** A node still in the heap is not among the joined ones. */
  lemma NotJoinedYet(h: seq<nat>, tree: seq<CtData>, len: nat, max: nat,
                     active: set<nat>, elems: nat, k: nat, x: nat)
    requires Forest(h, tree, len, max, active, elems, k) && len < |h| && x in multiset(h[1..len + 1])
    ensures |h| == HEAP_SIZE && forall i :: max <= i < HEAP_SIZE ==> h[i] != x
  {
    var all := multiset(active + Internals(elems, elems + k));
    assert all[x] <= 1;
    forall i | max <= i < HEAP_SIZE
      ensures h[i] != x
    {
      assert h[i] == h[max..][i - max];
      assert h[i] in multiset(h[max..]);
    }
  }

  lemma ForestStep(h: seq<nat>, h2: seq<nat>, h5: seq<nat>, tree: seq<CtData>, tree2: seq<CtData>,
                   len: nat, max: nat, active: set<nat>, elems: nat, k: nat)
    requires Forest(h, tree, len, max, active, elems, k)
    requires HeapJoined(h, h2, h5, len, max, elems + k)
    requires NodesJoined(tree, tree2, h[1], h2[1], elems + k)
    ensures Forest(h5, tree2, len - 1, max - 2, active, elems, k + 1)
  {
    hide Parts, HeapJoined, Internals;
    JoinParts(h, h2, h5, len, max, elems + k);
    TakenNodes(h, h2, h5, tree, len, max, active, elems, k);
    InternalsStep(elems, elems + k);
    InternalFresh(active, elems, k);
    SecondTaken(h, h2, h5, len, max, elems + k);
    forall i | max - 2 <= i < HEAP_SIZE
      ensures h5[i] < elems + (HEAP_SIZE - 1 - i) / 2 && h5[i] < |tree2|
      ensures tree2[h5[i]].dad == elems + (HEAP_SIZE - 1 - i) / 2
    {
      assert h5[i] == h5[max - 2..][i - (max - 2)];
      if i >= max { assert h5[i] == h[max..][i - max] == h[i]; }
    }
  }

  lemma InternalFresh(active: set<nat>, elems: nat, k: nat)
    requires forall x :: x in active ==> x < elems
    ensures multiset(active + Internals(elems, elems + k + 1))
         == multiset(active + Internals(elems, elems + k)) + multiset{elems + k}
  {
    InternalsStep(elems, elems + k);
    AddToMultiset(active + Internals(elems, elems + k), elems + k);
    assert active + Internals(elems, elems + k + 1) == active + Internals(elems, elems + k) + {elems + k};
  }

  /** The whole round, from the heap's two rearrangements. */
  lemma RoundJoins(h: seq<nat>, h2: seq<nat>, h5: seq<nat>, tree: seq<CtData>, tree2: seq<CtData>,
                   len: nat, max: nat, active: set<nat>, elems: nat, k: nat)
    requires Forest(h, tree, len, max, active, elems, k)
    requires 2 <= len < max - 2 && max <= |h| && |h2| == |h|
    requires Rearranged(h[1 := h[len]], h2, len - 1)
    requires Rearranged(h2[max - 1 := h[1]][max - 2 := h2[1]][1 := elems + k], h5, len - 1)
    requires NodesJoined(tree, tree2, h[1], h2[1], elems + k)
    ensures Forest(h5, tree2, len - 1, max - 2, active, elems, k + 1)
  {
    hide *;
    MakeHeapJoined(h, h2, h5, len, max, elems + k);
    ForestStep(h, h2, h5, tree, tree2, len, max, active, elems, k);
  }
}
