/** The order of the heap that tree construction takes its nodes from. */
module HeapOrder {
  import opened Bits
  import opened Huffman
  import opened TreeLemmas

  /** Node n is not later than m: by frequency, then by depth. */
  predicate NotLater(a: seq<CtData>, d: seq<byte>, n: nat, m: nat)
  {
    n < |a| && m < |a| && n < |d| && m < |d|
    && (a[n].freq < a[m].freq || (a[n].freq == a[m].freq && d[n] <= d[m]))
  }

  lemma LaterTotal(a: seq<CtData>, d: seq<byte>, n: nat, m: nat)
    requires n < |a| && m < |a| && n < |d| && m < |d|
    ensures NotLater(a, d, n, m) || NotLater(a, d, m, n)
  {
  }

  lemma LaterThrough(a: seq<CtData>, d: seq<byte>, n: nat, m: nat, p: nat)
    requires NotLater(a, d, n, m) && NotLater(a, d, m, p)
    ensures NotLater(a, d, n, p)
  {
  }

  lemma LaterSelf(a: seq<CtData>, d: seq<byte>, n: nat)
    requires n < |a| && n < |d|
    ensures NotLater(a, d, n, n)
  {
  }

  /** The place above a place of the heap. */
  function Father(i: nat): (k: nat)
    ensures i >= 2 ==> 1 <= k < i
  {
    i / 2
  }

  lemma Sons(i: nat, k: nat)
    ensures Father(i) == k <==> i == 2 * k || i == 2 * k + 1
    ensures i >= 2 ==> 1 <= Father(i) < i
  {
  }

  ghost predicate Inside(h: seq<nat>, len: nat, bound: nat)
  {
    len < |h| && forall i :: 1 <= i <= len ==> h[i] < bound
  }

  /** From place `from` on, no father is later than its sons. */
  ghost predicate Ordered(h: seq<nat>, len: nat, a: seq<CtData>, d: seq<byte>, from: nat)
  {
    && Inside(h, len, |a|) && |a| <= |d|
    && forall i :: 2 <= i <= len && from <= Father(i) ==> NotLater(a, d, h[Father(i)], h[i])
  }

  /** Sifting down from k0 has come to place k, which holds v: the only sons that may be out of order are
      those of k, and what is above k is not later than they are. */
  ghost predicate Sifting(h: seq<nat>, len: nat, a: seq<CtData>, d: seq<byte>, k0: nat, k: nat)
  {
    && Inside(h, len, |a|) && |a| <= |d| && 1 <= k0 <= k <= len
    && (forall i :: 2 <= i <= len && k0 <= Father(i) && Father(i) != k ==> NotLater(a, d, h[Father(i)], h[i]))
    && (k > k0 ==> k0 <= Father(k) && forall i :: 2 <= i <= len && Father(i) == k ==>
      NotLater(a, d, h[Father(k)], h[i]))
  }

  lemma SiftStart(h: seq<nat>, len: nat, a: seq<CtData>, d: seq<byte>, k0: nat)
    requires Ordered(h, len, a, d, k0 + 1) && 1 <= k0 <= len
    ensures Sifting(h, len, a, d, k0, k0)
  {
    hide NotLater, Father;
  }

  /** j is the son of k that is not later than the other. */
  ghost predicate LeastSon(h: seq<nat>, len: nat, a: seq<CtData>, d: seq<byte>, k: nat, j: nat)
  {
    && Inside(h, len, |a|) && |a| <= |d| && 2 <= j <= len && Father(j) == k
    && forall i :: 2 <= i <= len && Father(i) == k ==> NotLater(a, d, h[j], h[i])
  }

  lemma MakeLeastSon(h: seq<nat>, len: nat, a: seq<CtData>, d: seq<byte>, k: nat, j: nat)
    requires Inside(h, len, |a|) && |a| <= |d| && 1 <= k && 2 * k <= len
    requires j == if 2 * k < len && NotLater(a, d, h[2 * k + 1], h[2 * k]) then 2 * k + 1 else 2 * k
    ensures LeastSon(h, len, a, d, k, j)
  {
    hide NotLater, Father;
    Sons(j, k);
    LaterSelf(a, d, h[j]);
    forall i | 2 <= i <= len && Father(i) == k
      ensures NotLater(a, d, h[j], h[i])
    {
      Sons(i, k);
      LaterTotal(a, d, h[j], h[i]);
    }
  }

  /** Moving the lesser son up keeps everything above in order. */
  lemma SiftStep(h: seq<nat>, len: nat, a: seq<CtData>, d: seq<byte>, k0: nat, k: nat, j: nat)
    requires Sifting(h, len, a, d, k0, k) && LeastSon(h, len, a, d, k, j) && NotLater(a, d, h[j], h[k])
    ensures Sifting(h[k := h[j]][j := h[k]], len, a, d, k0, j)
  {
    hide NotLater, Father;
    var g := h[k := h[j]][j := h[k]];
    Sons(j, k);
    Sons(k, k);
    forall i | 2 <= i <= len && k0 <= Father(i) && Father(i) != j
      ensures NotLater(a, d, g[Father(i)], g[i])
    {
      Sons(i, Father(i));
      Sons(i, k);
    }
    forall i | 2 <= i <= len && Father(i) == j
      ensures NotLater(a, d, g[Father(j)], g[i])
    {
      Sons(i, j);
      assert NotLater(a, d, h[Father(i)], h[i]);
    }
  }

  /** Sifting ends where the sons are not earlier, or where there are none. */
  lemma SiftEnd(h: seq<nat>, len: nat, a: seq<CtData>, d: seq<byte>, k0: nat, k: nat, j: nat)
    requires Sifting(h, len, a, d, k0, k)
    requires 2 * k > len || (LeastSon(h, len, a, d, k, j) && NotLater(a, d, h[k], h[j]))
    ensures Ordered(h, len, a, d, k0)
  {
    hide NotLater, Father;
    forall i | 2 <= i <= len && k0 <= Father(i)
      ensures NotLater(a, d, h[Father(i)], h[i])
    {
      Sons(i, k);
      if Father(i) == k { LaterThrough(a, d, h[k], h[j], h[i]); }
    }
  }

  /** The first of an ordered heap is not later than any other. */
  lemma {:induction false} FirstLeast(h: seq<nat>, len: nat, a: seq<CtData>, d: seq<byte>, i: nat)
    requires Ordered(h, len, a, d, 1) && 1 <= i <= len
    ensures NotLater(a, d, h[1], h[i])
    decreases i
  {
    hide NotLater, Father;
    if i == 1 {
      LaterSelf(a, d, h[1]);
    } else {
      Sons(i, Father(i));
      FirstLeast(h, len, a, d, Father(i));
      LaterThrough(a, d, h[1], h[Father(i)], h[i]);
    }
  }

  lemma NoSonsOrdered(h: seq<nat>, len: nat, a: seq<CtData>, d: seq<byte>)
    requires Inside(h, len, |a|) && |a| <= |d|
    ensures Ordered(h, len, a, d, len / 2 + 1)
  {
    hide NotLater;
  }

  /** What stands in the first place does not matter for the order below it, nor what is behind the end. */
  lemma FirstReplaced(h: seq<nat>, len: nat, a: seq<CtData>, d: seq<byte>, x: nat, len2: nat)
    requires Ordered(h, len, a, d, 1) && x < |a| && 1 <= len2 <= len
    ensures Ordered(h[1 := x], len2, a, d, 2)
  {
    hide NotLater, Father;
    forall i | 2 <= i <= len2 && 2 <= Father(i)
      ensures NotLater(a, d, h[1 := x][Father(i)], h[1 := x][i])
    {
      Sons(i, Father(i));
    }
  }

  /** The order of the nodes in the heap does not change while others do. */
  lemma SameOrder(h: seq<nat>, h2: seq<nat>, len: nat, a: seq<CtData>, d: seq<byte>, a2: seq<CtData>, d2: seq<byte>)
    requires Ordered(h, len, a, d, 2) && |a2| == |a| && |d2| == |d| && |h2| == |h|
    requires 1 <= len < |h| && h2[1] < |a|
    requires forall i :: 2 <= i <= len ==> h2[i] == h[i] && a2[h[i]].freq == a[h[i]].freq && d2[h[i]] == d[h[i]]
    ensures Ordered(h2, len, a2, d2, 2)
  {
    forall i | 2 <= i <= len && 2 <= Father(i)
      ensures NotLater(a2, d2, h2[Father(i)], h2[i])
    {
      assert NotLater(a, d, h[Father(i)], h[i]);
    }
  }

  /** The two nodes taken: nothing in the heap comes before the first, nothing but the first before the second. */
  ghost predicate LeastTwo(h: seq<nat>, len: nat, a: seq<CtData>, d: seq<byte>, n: nat, m: nat)
  {
    && len < |h|
    && (forall i :: 1 <= i <= len ==> NotLater(a, d, n, h[i]))
    && (forall i :: 1 <= i <= len && h[i] != n ==> NotLater(a, d, m, h[i]))
    && n in h[1..len + 1] && m in h[1..len + 1]
  }

  lemma TakesLeastTwo(h: seq<nat>, h2: seq<nat>, len: nat, a: seq<CtData>, d: seq<byte>)
    requires 2 <= len && Ordered(h, len, a, d, 1) && Rearranged(h[1 := h[len]], h2, len - 1)
    requires Ordered(h2, len - 1, a, d, 1)
    ensures LeastTwo(h, len, a, d, h[1], h2[1])
  {
    hide NotLater, Ordered;
    InsideParts(h, len, a, d);
    var h1 := h[1 := h[len]];
    RearrangedMiddle(h1, h2, len - 1);
    RemoveFirst(h, len);
    ElementIn(h, len, 1);
    ElementIn(h2, len - 1, 1);
    forall i | 1 <= i <= len
      ensures NotLater(a, d, h[1], h[i])
      ensures h[i] != h[1] ==> NotLater(a, d, h2[1], h[i])
    {
      FirstLeast(h, len, a, d, i);
      if h[i] != h[1] {
        ElementIn(h, len, i);
        assert h[i] in multiset(h2[1..len]);
        var k :| 0 <= k < len - 1 && h2[1..len][k] == h[i];
        FirstLeast(h2, len - 1, a, d, k + 1);
      }
    }
  }

  lemma InsideParts(h: seq<nat>, len: nat, a: seq<CtData>, d: seq<byte>)
    requires Ordered(h, len, a, d, 1)
    ensures len < |h|
  {
  }

  lemma OrderedInside(h: seq<nat>, len: nat, a: seq<CtData>, d: seq<byte>, from: nat)
    requires Ordered(h, len, a, d, from)
    ensures Inside(h, len, |a|) && |a| <= |d| && len < |h| && forall i :: 1 <= i <= len ==> h[i] < |a|
  {
  }

  lemma SiftInside(h: seq<nat>, len: nat, a: seq<CtData>, d: seq<byte>, k0: nat, k: nat)
    requires Sifting(h, len, a, d, k0, k)
    ensures Inside(h, len, |a|) && |a| <= |d| && len < |h| && forall i :: 1 <= i <= len ==> h[i] < |a|
  {
  }

  lemma SonPlace(h: seq<nat>, len: nat, a: seq<CtData>, d: seq<byte>, k: nat, j: nat)
    requires LeastSon(h, len, a, d, k, j)
    ensures k < j <= len
  {
  }

  lemma InsideBut(g: seq<nat>, h: seq<nat>, len: nat, bound: nat, k: nat, v: nat)
    requires Inside(g, len, bound) && k < |h| && g == h[k := v] && h[k] < bound
    ensures Inside(h, len, bound)
  {
    forall i | 1 <= i <= len
      ensures h[i] < bound
    {
      if i != k { assert g[i] == h[i]; }
    }
  }

  lemma LeastSonSame(h: seq<nat>, g: seq<nat>, len: nat, a: seq<CtData>, d: seq<byte>, k: nat, j: nat, v: nat)
    requires LeastSon(h, len, a, d, k, j) && k < |h| && g == h[k := v] && v < |a|
    ensures LeastSon(g, len, a, d, k, j)
  {
    hide NotLater, Father;
  }

  lemma MakeInside(h: seq<nat>, len: nat, bound: nat)
    requires len < |h| && forall i :: 1 <= i <= len ==> h[i] < bound
    ensures Inside(h, len, bound)
  {
  }

  /** Where the two nodes taken can lie. */
  lemma RemovedRange(h: seq<nat>, h2: seq<nat>, len: nat, a: seq<CtData>, max: nat, active: set<nat>, elems: nat,
      k: nat)
    requires Forest(h, a, len, max, active, elems, k) && len >= 2 && Rearranged(h[1 := h[len]], h2, len - 1)
    ensures |h2| == |h| && h[1] != h2[1] && h[1] < elems + k && h2[1] < elems + k
  {
    hide Forest;
    ForestRange(h, a, len, max, active, elems, k);
    TakenDistinct(h, h2, a, len, max, active, elems, k);
  }

  /** Linking a new node changes the order of none that stay in the heap. */
  lemma OrderAfterLink(h: seq<nat>, h2: seq<nat>, h3: seq<nat>, len: nat, max: nat, a: seq<CtData>, a2: seq<CtData>,
      d: seq<byte>, d2: seq<byte>, active: set<nat>, elems: nat, k: nat)
    requires 1 <= len && len + 1 < |h| == |h2| && max + 2 <= |h| && len < max
    requires Forest(h, a, len + 1, max + 2, active, elems, k)
    requires Rearranged(h[1 := h[len + 1]], h2, len) && Ordered(h2, len, a, d, 1)
    requires h3 == h2[max + 1 := h[1]][max := h2[1]] && elems + k < |a|
    requires NodesJoined(a, a2, h[1], h2[1], elems + k) && |d2| == |d| && elems + k < |d|
    requires d2 == d[elems + k := d2[elems + k]]
    ensures Ordered(h3[1 := elems + k], len, a2, d2, 2)
  {
    hide NotLater, Father, Rearranged, Forest;
    ForestRange(h, a, len + 1, max + 2, active, elems, k);
    RearrangedElements(h[1 := h[len + 1]], h2, len, elems + k);
    var x := h2[len];
    FirstReplaced(h2, len, a, d, x, len);
    SameOrder(h2[1 := x], h3[1 := elems + k], len, a, d, a2, d2);
  }
}
