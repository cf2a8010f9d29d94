/** The fixed trees of section 3.2.6 of RFC 1951, built the way the encoder builds them. */
module StaticTrees {
  import opened Arith
  import opened Bits
  import opened BitOutput
  import opened PrefixCodes
  import opened Inflate
  import opened HuffmanRepair
  import opened Huffman

  /** The lengths of the thirty fixed distance codes that are ever sent. */
  function SentD(): (s: seq<nat>)
    ensures |s| == 30 && forall i :: 0 <= i < 30 ==> s[i] == 5
  {
    seq(30, _ => 5)
  }

  /** A stretch of equal lengths adds its size to one count and its weight to the Kraft sum. */
  lemma {:induction false} Stretch(lens: seq<nat>, i: nat, j: nat, v: nat, m: nat)
    requires i <= j <= |lens| && forall k :: i <= k < j ==> lens[k] == v
    ensures forall b :: Count(lens[..j], b) == Count(lens[..i], b) + if b == v then j - i else 0
    ensures Kraft(lens[..j], m) == Kraft(lens[..i], m) + (j - i) * Weight(v, m)
    decreases j
  {
    if i < j {
      Stretch(lens, i, j - 1, v, m);
      assert lens[..j][..j - 1] == lens[..j - 1];
      MulDist(j - 1 - i, 1, Weight(v, m));
    }
  }

  lemma FixedLDecodable()
    ensures Decodable(FixedL())
  {
    hide Kraft, Count, Pow2;
    var lens := FixedL();
    assert forall k :: 0 <= k < 144 ==> lens[k] == 8;
    assert forall k :: 144 <= k < 256 ==> lens[k] == 9;
    assert forall k :: 256 <= k < 280 ==> lens[k] == 7;
    assert forall k :: 280 <= k < 288 ==> lens[k] == 8;
    Stretch(lens, 0, 144, 8, 15);
    Stretch(lens, 144, 256, 9, 15);
    Stretch(lens, 256, 280, 7, 15);
    Stretch(lens, 280, 288, 8, 15);
    assert lens[..288] == lens;
    NoLengths(lens);
    Pow2Values();
  }

  lemma NoLengths(lens: seq<nat>)
    ensures Kraft(lens[..0], 15) == 0 && forall b :: Count(lens[..0], b) == 0
  {
  }

  lemma SentDDecodable()
    ensures Decodable(SentD())
  {
    hide Kraft, Count, Pow2;
    Stretch(SentD(), 0, 30, 5, 15);
    assert SentD()[..30] == SentD();
    NoLengths(SentD());
    Pow2Values();
  }

  lemma FixedDDecodable()
    ensures Decodable(FixedD())
  {
    hide Kraft, Count, Pow2;
    Stretch(FixedD(), 0, 32, 5, 15);
    assert FixedD()[..32] == FixedD();
    NoLengths(FixedD());
    Pow2Values();
  }

  lemma {:induction false} NoShorter(lens: seq<nat>, v: nat, b: nat)
    requires b <= v && forall k :: 0 <= k < |lens| ==> lens[k] == v
    ensures NextCode(lens, b) == 0
  {
    if b > 0 {
      NoShorter(lens, v, b - 1);
      Stretch(lens, 0, |lens|, v, 0);
      assert lens[..|lens|] == lens && lens[..0] == [];
      assert Count(lens[..0], b - 1) == 0;
    }
  }

  /** When all lengths are equal, a symbol's code is the symbol. */
  lemma EqualLengthsCode(lens: seq<nat>, v: nat, n: nat)
    requires n < |lens| && forall k :: 0 <= k < |lens| ==> lens[k] == v
    ensures CodeWord(lens, n) == Msb(n, v)
  {
    hide Msb, NextCode, Kraft, Weight;
    NoShorter(lens, v, v);
    Stretch(lens, 0, n, v, 0);
    assert lens[..0] == [];
    assert Count(lens[..0], v) == 0;
  }

  /** The thirty distance codes sent are the first of the thirty-two the decoder knows. */
  lemma SameDistanceWords(n: nat)
    requires n < 30
    ensures CodeWord(SentD(), n) == CodeWord(FixedD(), n) == Msb(n, 5)
  {
    hide CodeWord;
    EqualLengthsCode(SentD(), 5, n);
    EqualLengthsCode(FixedD(), 5, n);
  }

  /** One call of setLen: entries from..to get the length, and are counted. */
  method SetLen(tree: array<CtData>, blCount: array<uint16>, from: nat, to: nat, bits: uint16)
    requires from <= to < tree.Length == 288 && bits < 16 && blCount.Length == 16
    requires forall i :: from <= i <= to ==> FixedL()[i] == bits
    requires forall i :: 0 <= i < from ==> tree[i].length == FixedL()[i]
    requires forall b :: 0 <= b < 16 ==> blCount[b] == Count(FixedL()[..from], b)
    modifies tree, blCount
    ensures forall i :: 0 <= i <= to ==> tree[i].length == FixedL()[i]
    ensures forall b :: 0 <= b < 16 ==> blCount[b] == Count(FixedL()[..to + 1], b)
  {
    hide *;
    var n := from;
    while n <= to
      invariant from <= n <= to + 1
      invariant forall i :: 0 <= i < n ==> tree[i].length == FixedL()[i]
      invariant forall b :: 0 <= b < 16 ==> blCount[b] == Count(FixedL()[..n], b)
    {
      forall b
        ensures Count(FixedL()[..n + 1], b) == Count(FixedL()[..n], b) + if FixedL()[n] == b then 1 else 0
      {
        CountStep(FixedL(), n, b);
      }
      CountBound(FixedL()[..n], bits);
      tree[n] := tree[n].(length := bits);
      blCount[bits] := blCount[bits] + 1;
      n := n + 1;
    }
  }

  method BuildStaticLtree() returns (tree: array<CtData>)
    ensures fresh(tree) && tree.Length == 288
    ensures CodesFor(tree[..], FixedL()) && Lens(tree[..], 288) == FixedL()
  {
    hide *;
    tree := new CtData[288](_ => CtData(0, 0, 0, 0));
    var blCount := new uint16[16](_ => 0);
    NoLengths(FixedL());
    FixedLValues();
    SetLen(tree, blCount, 0, 143, 8);
    SetLen(tree, blCount, 144, 255, 9);
    SetLen(tree, blCount, 256, 279, 7);
    SetLen(tree, blCount, 280, 287, 8);
    assert Lens(tree[..], 288) == FixedL();
    assert FixedL()[..288] == FixedL();
    FixedLDecodable();
    FixedTallies(blCount[..]);
    ghost var before: seq<CtData> := tree[..];
    GenCodes(tree, 287, blCount);
    assert Lens(tree[..], 288) == Lens(before, 288) by { KeptLengths(before, tree[..], 288); }
  }

  lemma KeptLengths(a: seq<CtData>, b: seq<CtData>, n: nat)
    requires OnlyCodesDiffer(a, b) && n <= |a|
    ensures |b| == |a| && Lens(b, n) == Lens(a, n)
  {
  }

  lemma FixedLValues()
    ensures (forall i :: 0 <= i <= 143 ==> FixedL()[i] == 8) && (forall i :: 144 <= i <= 255 ==> FixedL()[i] == 9)
    ensures (forall i :: 256 <= i <= 279 ==> FixedL()[i] == 7) && (forall i :: 280 <= i <= 287 ==> FixedL()[i] == 8)
  {
  }

  lemma FixedTallies(c: seq<int>)
    requires |c| == 16 && forall b :: 0 <= b < 16 ==> c[b] == Count(FixedL(), b)
    ensures Tallies(c, FixedL())
  {
    hide Count;
    NoneAbsent(FixedL(), 0);
  }

  lemma {:induction false} NoneAbsent(lens: seq<nat>, b: nat)
    requires forall k :: 0 <= k < |lens| ==> lens[k] != b
    ensures Count(lens, b) == 0
  {
    if lens != [] { NoneAbsent(lens[..|lens| - 1], b); }
  }

  method BuildStaticDtree() returns (tree: array<CtData>)
    ensures fresh(tree) && tree.Length == 30
    ensures CodesFor(tree[..], SentD()) && Lens(tree[..], 30) == SentD()
  {
    hide *;
    tree := new CtData[30](_ => CtData(0, 0, 0, 0));
    Pow2Values();
    var n := 0;
    while n < 30
      invariant n <= 30
      invariant forall i :: 0 <= i < n ==> tree[i].length == 5 && HasCode(tree[i], SentD(), i)
    {
      var res := BiReverse(n, 5);
      SameDistanceWords(n);
      Uint16Exact(res);
      tree[n] := tree[n].(length := 5, code := Uint16(res));
      GotCode(tree[n], SentD(), n);
      n := n + 1;
    }
    SentDDecodable();
    MakeCodes(tree[..]);
  }

  lemma MakeCodes(tree: seq<CtData>)
    requires |tree| == 30 && Decodable(SentD())
    requires forall i :: 0 <= i < 30 ==> tree[i].length == 5 && HasCode(tree[i], SentD(), i)
    ensures CodesFor(tree, SentD()) && Lens(tree, 30) == SentD()
  {
    hide Decodable;
  }
}
