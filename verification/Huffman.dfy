/** Construction of a length-limited Huffman code in place, and the assignment of its codes. */
module Huffman {
  import opened Arith
  import opened Bits
  import opened BitOutput
  import opened PrefixCodes
  import opened HuffmanRepair

  const HEAP_SIZE: nat := 573

  /** One tree node: its frequency, its code with the bits reversed, its father and its length. */
  datatype CtData = CtData(freq: uint16, code: uint16, dad: uint16, length: uint16)

  /** What is fixed about one of the three trees. An empty staticTree stands for none. */
  datatype StaticTreeDesc = StaticTreeDesc(
    staticTree: seq<CtData>, extraBits: seq<nat>, extraBase: nat, elems: nat, maxLength: nat)
  {
    ghost predicate Valid()
    {
      && 3 <= elems <= 286 && 1 <= maxLength <= 15 && elems <= Pow2(maxLength)
      && elems <= extraBase + |extraBits|
      && (staticTree == [] || elems <= |staticTree|)
      && forall n :: 0 <= n < 3 ==> Extra(n) == 0
    }

    function Extra(n: nat): nat
      requires n < extraBase + |extraBits|
    {
      if n >= extraBase then extraBits[n - extraBase] else 0
    }
  }

  /** The code lengths of the first n nodes. */
  function Lens(tree: seq<CtData>, n: nat): (lens: seq<nat>)
    requires n <= |tree|
    ensures |lens| == n && forall i :: 0 <= i < n ==> lens[i] == tree[i].length
  {
    seq(n, i requires 0 <= i < n => tree[i].length)
  }

  /** The table holds, for every symbol with a code, the code word of the canonical code. */
  ghost predicate CodesFor(tree: seq<CtData>, lens: seq<nat>)
  {
    && |lens| <= |tree| && Decodable(lens)
    && forall n :: 0 <= n < |lens| && lens[n] > 0 ==>
      && tree[n].length == lens[n]
      && tree[n].code < Pow2(lens[n])
      && Lsb(tree[n].code, lens[n]) == CodeWord(lens, n)
  }

  /** Only the codes of the nodes up to and including maxCode may differ. */
  ghost predicate OnlyCodesDiffer(a: seq<CtData>, b: seq<CtData>)
  {
    && |a| == |b|
    && forall n :: 0 <= n < |a| ==> b[n] == a[n].(code := b[n].code)
  }

  lemma CodeChanged(a: seq<CtData>, b: seq<CtData>, n: nat, node: CtData)
    requires OnlyCodesDiffer(a, b) && n < |b| && node == b[n].(code := node.code)
    ensures OnlyCodesDiffer(a, b[n := node])
  {
  }

  lemma LengthKept(a: seq<CtData>, b: seq<CtData>, n: nat)
    requires OnlyCodesDiffer(a, b) && n < |b|
    ensures |a| == |b| && b[n].length == a[n].length
  {
  }

  lemma GotCode(node: CtData, lens: seq<nat>, i: nat)
    requires i < |lens| && node.code < Pow2(lens[i]) && Lsb(node.code, lens[i]) == CodeWord(lens, i)
    ensures HasCode(node, lens, i)
  {
  }

  lemma NextCodeFits(lens: seq<nat>, b: nat)
    requires Decodable(lens) && 1 <= b <= 15
    ensures NextCode(lens, b) <= Pow2(b) <= 32768
  {
    hide *;
    NextCodeScaled(lens, b);
    BelowMonotone(lens, b, 16, 15);
    DecodableKraft(lens);
    BelowIsKraft(lens, 15);
    Pow2Add(b, 15 - b);
    Pow2Values();
    Pow2Monotone(b, 15);
    if NextCode(lens, b) > Pow2(b) { MulLess(Pow2(b), NextCode(lens, b), Pow2(15 - b)); }
  }

  lemma DecodableKraft(lens: seq<nat>)
    requires Decodable(lens)
    ensures Bounded(lens, 15) && Kraft(lens, 15) <= Pow2(15)
  {
  }

  lemma NextCodeStep(lens: seq<nat>, b: nat)
    requires b >= 1
    ensures NextCode(lens, b) == 2 * (NextCode(lens, b - 1) + (if b == 1 then 0 else Count(lens, b - 1)))
    ensures NextCode(lens, 0) == 0
  {
  }

  lemma CountStep(lens: seq<nat>, n: nat, b: int)
    requires n < |lens|
    ensures Count(lens[..n + 1], b) == Count(lens[..n], b) + if lens[n] == b then 1 else 0
  {
    assert lens[..n + 1][..n] == lens[..n];
  }

  /** The next code of a length in use still fits that length. */
  lemma CodeRoom(lens: seq<nat>, n: nat)
    requires Decodable(lens) && n < |lens| && lens[n] > 0
    ensures lens[n] <= 15
    ensures Code(lens, n) == NextCode(lens, lens[n]) + Count(lens[..n], lens[n]) < Pow2(lens[n]) <= 32768
    ensures CodeWord(lens, n) == Msb(Code(lens, n), lens[n])
  {
    CodeInterval(lens, n);
    Pow2Values();
    Pow2Monotone(lens[n], 15);
  }

  /** The first loop of gen_codes: the smallest code of each length. */
  method FirstCodes(blCount: array<uint16>, ghost lens: seq<nat>) returns (nextCode: array<uint16>)
    requires Decodable(lens) && Tallies(blCount[..], lens)
    ensures fresh(nextCode) && nextCode.Length == 16
    ensures forall b :: 1 <= b <= 15 ==> nextCode[b] == NextCode(lens, b)
  {
    hide *;
    ghost var c := blCount[..];
    Tally(c, lens, 0);
    nextCode := new uint16[16];
    var code: uint16 := 0;
    var bits := 1;
    NextCodeStep(lens, 1);
    while bits <= 15
      modifies nextCode
      invariant 1 <= bits <= 16
      invariant code == NextCode(lens, bits - 1)
      invariant forall b :: 1 <= b < bits ==> nextCode[b] == NextCode(lens, b)
    {
      NextCodeStep(lens, bits);
      NextCodeFits(lens, bits);
      Tally(c, lens, bits - 1);
      Uint16Exact((code + blCount[bits - 1]) * 2);
      code := Uint16((code + blCount[bits - 1]) * 2);
      nextCode[bits] := code;
      bits := bits + 1;
    }
  }

  lemma Tally(c: seq<int>, lens: seq<nat>, b: nat)
    requires Tallies(c, lens) && b < 16
    ensures |c| == 16 && c[b] == if b == 0 then 0 else Count(lens, b)
  {
  }

  /** Symbol i has its canonical code, bit-reversed. */
  ghost predicate HasCode(node: CtData, lens: seq<nat>, i: nat)
    requires i < |lens|
  {
    node.code < Pow2(lens[i]) && Lsb(node.code, lens[i]) == CodeWord(lens, i)
  }

  /** Turns the lengths of nodes 0..maxCode into canonical codes. */
  method GenCodes(tree: array<CtData>, maxCode: nat, blCount: array<uint16>)
    requires maxCode < tree.Length
    requires Decodable(Lens(tree[..], maxCode + 1)) && Tallies(blCount[..], Lens(tree[..], maxCode + 1))
    modifies tree
    ensures OnlyCodesDiffer(old(tree[..]), tree[..])
    ensures CodesFor(tree[..], Lens(old(tree[..]), maxCode + 1))
  {
    hide *;
    ghost var lens := Lens(tree[..], maxCode + 1);
    var nextCode := FirstCodes(blCount, lens);
    NoneCounted(lens);
    SameNodes(tree[..]);
    var n := 0;
    while n <= maxCode
      invariant n <= maxCode + 1
      invariant OnlyCodesDiffer(old(tree[..]), tree[..])
      invariant forall b :: 1 <= b <= 15 ==> nextCode[b] == NextCode(lens, b) + Count(lens[..n], b)
      invariant forall i :: 0 <= i < n && lens[i] > 0 ==> HasCode(tree[i], lens, i)
    {
      var length := tree[n].length;
      forall b | 1 <= b <= 15
        ensures Count(lens[..n + 1], b) == Count(lens[..n], b) + if lens[n] == b then 1 else 0
      {
        CountStep(lens, n, b);
      }
      LengthKept(old(tree[..]), tree[..], n);
      if length != 0 {
        CodeRoom(lens, n);
        var res := BiReverse(nextCode[length], length);
        Uint16Exact(res);
        var node := tree[n].(code := Uint16(res));
        GotCode(node, lens, n);
        CodeChanged(old(tree[..]), tree[..], n, node);
        ghost var before := tree[..];
        tree[n] := node;
        assert tree[..] == before[n := node];
        nextCode[length] := nextCode[length] + 1;
      }
      n := n + 1;
    }
    CodesComplete(old(tree[..]), tree[..], lens);
  }

  lemma NoneCounted(lens: seq<nat>)
    ensures forall b :: Count(lens[..0], b) == 0
  {
  }

  lemma SameNodes(tree: seq<CtData>)
    ensures OnlyCodesDiffer(tree, tree)
  {
  }

  lemma CodesComplete(a: seq<CtData>, b: seq<CtData>, lens: seq<nat>)
    requires |lens| <= |a| && lens == Lens(a, |lens|) && OnlyCodesDiffer(a, b) && Decodable(lens)
    requires forall i :: 0 <= i < |lens| && lens[i] > 0 ==> HasCode(b[i], lens, i)
    ensures CodesFor(b, lens)
  {
  }
}
