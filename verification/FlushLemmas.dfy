/** What a block costs to send, and what its three codes must satisfy to be sent. */
module FlushLemmas {
  import opened Arith
  import opened Bits
  import opened PrefixCodes
  import opened Inflate
  import opened Tokens
  import opened Tables
  import opened StaticTrees
  import opened CodeLengths
  import opened RunScanner
  import opened BlockHeader
  import opened HuffmanRepair
  import opened Huffman
  import opened BitLengthLemmas
  import opened BuildLemmas
  import opened BlockLemmas

  function LDesc(t: CodeTables): StaticTreeDesc
  {
    StaticTreeDesc(t.staticLtree, EXTRA_LBITS, 257, 286, 15)
  }

  function DDesc(t: CodeTables): StaticTreeDesc
  {
    StaticTreeDesc(t.staticDtree, EXTRA_DBITS, 0, 30, 15)
  }

  function BlDesc(): StaticTreeDesc
  {
    StaticTreeDesc([], EXTRA_BLBITS, 0, 19, 7)
  }

  lemma DescsValid(t: CodeTables)
    requires t.Valid()
    ensures LDesc(t).Valid() && DDesc(t).Valid() && BlDesc().Valid()
    ensures |EXTRA_BLBITS| == 19
  {
    hide CodesFor, FixedL, SentD, LENGTH_BASE, DIST_BASE, LastBase, DistTable, Lens;
    Pow2Values();
  }

  // -- the cost of a string of symbols ---------------------------------------------------------

  /** Every symbol has a length, and a number of extra bits. */
  ghost predicate Priced(syms: seq<nat>, lens: seq<nat>, desc: StaticTreeDesc)
  {
    forall i :: 0 <= i < |syms| ==> syms[i] < |lens| && syms[i] < desc.extraBase + |desc.extraBits|
  }

  /** The bits the symbols take, with their extra bits. */
  ghost function CostOf(syms: seq<nat>, lens: seq<nat>, desc: StaticTreeDesc): nat
    requires Priced(syms, lens, desc)
  {
    if syms == [] then 0
    else
      var x := syms[|syms| - 1];
      CostOf(syms[..|syms| - 1], lens, desc) + lens[x] + desc.Extra(x)
  }

  function Hist(syms: seq<nat>, n: nat): (h: seq<nat>)
    ensures |h| == n && forall c :: 0 <= c < n ==> h[c] == Count(syms, c)
  {
    seq(n, c requires 0 <= c < n => Count(syms, c))
  }

  /** Summing frequency times cost over all symbols is summing cost over all occurrences. */
  lemma {:induction false} HistogramCost(syms: seq<nat>, lens: seq<nat>, desc: StaticTreeDesc)
    requires desc.elems <= |lens| && desc.elems <= desc.extraBase + |desc.extraBits|
    requires forall i :: 0 <= i < |syms| ==> syms[i] < desc.elems
    ensures Priced(syms, lens, desc) && Sum(Owed(Hist(syms, desc.elems), lens, desc)) == CostOf(syms, lens, desc)
  {
    hide Sum, Count;
    if syms == [] {
      NoCost(lens, desc);
    } else {
      var init, x := syms[..|syms| - 1], syms[|syms| - 1];
      HistogramCost(init, lens, desc);
      OneMore(init, x, lens, desc);
      assert syms == init + [x];
    }
  }

  lemma NoCost(lens: seq<nat>, desc: StaticTreeDesc)
    requires desc.elems <= |lens| && desc.elems <= desc.extraBase + |desc.extraBits|
    ensures Sum(Owed(Hist([], desc.elems), lens, desc)) == 0
  {
    hide Sum;
    SumZero(desc.elems);
    assert Owed(Hist([], desc.elems), lens, desc) == seq(desc.elems, _ => 0);
  }

  lemma OneMore(init: seq<nat>, x: nat, lens: seq<nat>, desc: StaticTreeDesc)
    requires x < desc.elems <= |lens| && desc.elems <= desc.extraBase + |desc.extraBits|
    ensures Sum(Owed(Hist(init + [x], desc.elems), lens, desc))
         == Sum(Owed(Hist(init, desc.elems), lens, desc)) + lens[x] + desc.Extra(x)
  {
    hide Sum, Count, SymbolCost;
    var a, b := Hist(init, desc.elems), Hist(init + [x], desc.elems);
    forall c | 0 <= c < desc.elems
      ensures b[c] == a[c] + if c == x then 1 else 0
    {
      CountLast(init, x, c);
    }
    var owed := Owed(a, lens, desc);
    CostMore(a[x], lens[x], desc.Extra(x));
    assert Owed(b, lens, desc) == owed[x := SymbolCost(b[x], lens[x], desc.Extra(x))];
    SumUpdate(owed, x, SymbolCost(b[x], lens[x], desc.Extra(x)));
  }

  lemma CostMore(f: nat, l: nat, e: nat)
    ensures SymbolCost(f + 1, l, e) == SymbolCost(f, l, e) + l + e
  {
    MulDist(f, 1, l + e);
  }

  /** Only the lengths of the symbols that occur matter. */
  lemma {:induction false} CostSame(syms: seq<nat>, a: seq<nat>, b: seq<nat>, desc: StaticTreeDesc)
    requires Priced(syms, a, desc) && Priced(syms, b, desc)
    requires forall i :: 0 <= i < |syms| ==> a[syms[i]] == b[syms[i]]
    ensures CostOf(syms, a, desc) == CostOf(syms, b, desc)
  {
    if syms != [] { CostSame(syms[..|syms| - 1], a, b, desc); }
  }

  lemma {:induction false} CostBound(syms: seq<nat>, lens: seq<nat>, desc: StaticTreeDesc)
    requires Priced(syms, lens, desc)
    requires forall i :: 0 <= i < |syms| ==> lens[syms[i]] <= 15 && desc.Extra(syms[i]) <= 13
    ensures CostOf(syms, lens, desc) <= 28 * |syms|
  {
    if syms != [] { CostBound(syms[..|syms| - 1], lens, desc); }
  }

  // -- what the pieces of a block cost --------------------------------------------------------------

  lemma {:induction false} ItemsCost(cl: seq<nat>, items: seq<Item>)
    requires ItemsCoded(cl, items)
    ensures Priced(Syms(items), cl, BlDesc()) && |EncodeItems(cl, items)| == CostOf(Syms(items), cl, BlDesc())
  {
    hide CodeWord, Lsb;
    if items != [] {
      var init, x := items[..|items| - 1], items[|items| - 1];
      ItemsCost(cl, init);
      assert Syms(items)[..|items| - 1] == Syms(init);
      ItemCost(cl, x);
    } else {
      assert Syms(items) == [];
    }
  }

  lemma ItemCost(cl: seq<nat>, x: Item)
    requires ItemCoded(cl, x)
    ensures x.Valid() && x.Sym() < |cl| && x.Sym() < |EXTRA_BLBITS| == 19
    ensures |EncodeItem(cl, x)| == cl[x.Sym()] + BlDesc().Extra(x.Sym())
  {
    hide CodeWord, Lsb;
  }

  /** What the tokens cost, with the end of the block counted before it is sent. */
  ghost predicate TokensPriced(ll: seq<nat>, dl: seq<nat>, ts: seq<Token>, t: CodeTables, cost: nat)
  {
    && AllValid(ts) && Priced(LSyms(ts), ll, LDesc(t)) && Priced(DSyms(ts), dl, DDesc(t))
    && cost == CostOf(LSyms(ts), ll, LDesc(t)) + CostOf(DSyms(ts), dl, DDesc(t))
    && (forall i :: 0 <= i < |LSyms(ts)| ==> LSyms(ts)[i] < 286)
    && (forall i :: 0 <= i < |DSyms(ts)| ==> DSyms(ts)[i] < 30)
  }

  lemma {:induction false} TokensCost(ll: seq<nat>, dl: seq<nat>, ts: seq<Token>, t: CodeTables)
    requires AllCoded(ll, dl, ts) && |ll| > 256
    ensures TokensPriced(ll, dl, ts, t, |EncodeTokens(ll, dl, ts)| + ll[256])
  {
    hide *;
    if ts == [] {
      EndCost(ll, dl, t);
    } else {
      var init, x := ts[..|ts| - 1], ts[|ts| - 1];
      assert ts == init + [x];
      AllButLast(ll, dl, init, x);
      TokensCost(ll, dl, init, t);
      EncodeMore(ll, dl, init, x);
      TokenCost(ll, dl, x, t);
      PricedMore(ll, dl, init, x, t, |EncodeTokens(ll, dl, init)| + ll[256]);
    }
  }

  lemma AllButLast(ll: seq<nat>, dl: seq<nat>, init: seq<Token>, x: Token)
    requires AllCoded(ll, dl, init + [x])
    ensures AllCoded(ll, dl, init) && Coded(ll, dl, x)
  {
    hide Coded;
    assert (init + [x])[|init|] == x;
    assert forall i :: 0 <= i < |init| ==> (init + [x])[i] == init[i];
  }

  lemma PricedMore(ll: seq<nat>, dl: seq<nat>, ts: seq<Token>, x: Token, t: CodeTables, cost: nat)
    requires TokensPriced(ll, dl, ts, t, cost) && Coded(ll, dl, x)
    requires x.Valid() && LSym(x) < |ll| && LSym(x) < 286 && LSym(x) < LDesc(t).extraBase + |LDesc(t).extraBits|
    requires x.Match? ==> DSym(x) < |dl| && DSym(x) < 30 && DSym(x) < DDesc(t).extraBase + |DDesc(t).extraBits|
    ensures TokensPriced(ll, dl, ts + [x], t, cost + ll[LSym(x)] + LDesc(t).Extra(LSym(x))
              + if x.Match? then dl[DSym(x)] + DDesc(t).Extra(DSym(x)) else 0)
  {
    hide EncodeToken, LSym, DSym, LDesc, DDesc, LSyms, DSyms, CostOf;
    SymsMore(ts, x);
    CostLast(LSyms(ts), LSym(x), ll, LDesc(t));
    if x.Match? { CostLast(DSyms(ts), DSym(x), dl, DDesc(t)); }
  }

  lemma CostLast(syms: seq<nat>, x: nat, lens: seq<nat>, desc: StaticTreeDesc)
    requires Priced(syms, lens, desc) && x < |lens| && x < desc.extraBase + |desc.extraBits|
    ensures Priced(syms + [x], lens, desc)
    ensures CostOf(syms + [x], lens, desc) == CostOf(syms, lens, desc) + lens[x] + desc.Extra(x)
  {
    assert (syms + [x])[..|syms|] == syms;
  }

  lemma EndCost(ll: seq<nat>, dl: seq<nat>, t: CodeTables)
    requires |ll| > 256
    ensures AllCoded(ll, dl, []) && TokensPriced(ll, dl, [], t, |EncodeTokens(ll, dl, [])| + ll[256])
  {
    assert [256][..0] == [];
  }

  lemma TokenCost(ll: seq<nat>, dl: seq<nat>, x: Token, t: CodeTables)
    requires Coded(ll, dl, x)
    ensures x.Valid() && LSym(x) < |ll| && LSym(x) < 286
    ensures LSym(x) < LDesc(t).extraBase + |LDesc(t).extraBits|
    ensures x.Literal? ==> |EncodeToken(ll, dl, x)| == ll[LSym(x)] + LDesc(t).Extra(LSym(x))
    ensures x.Match? ==> DSym(x) < |dl| && DSym(x) < 30 && DSym(x) < DDesc(t).extraBase + |DDesc(t).extraBits|
    ensures x.Match? ==>
      |EncodeToken(ll, dl, x)|
        == ll[LSym(x)] + LDesc(t).Extra(LSym(x)) + dl[DSym(x)] + DDesc(t).Extra(DSym(x))
  {
    hide CodeWord, Lsb, LENGTH_EXTRA, DIST_EXTRA, EXTRA_LBITS, EXTRA_DBITS, LENGTH_BASE, DIST_BASE, LastBase;
    ExtrasSmall();
  }

  /** The first n symbols carry at most thirteen extra bits. */
  ghost predicate ExtrasSmallUpTo(desc: StaticTreeDesc, n: nat)
  {
    forall x :: 0 <= x < n ==> x < desc.extraBase + |desc.extraBits| && desc.Extra(x) <= 13
  }

  lemma ExtrasBounded(t: CodeTables)
    ensures ExtrasSmallUpTo(LDesc(t), 286) && ExtrasSmallUpTo(DDesc(t), 30) && ExtrasSmallUpTo(BlDesc(), 19)
  {
    hide LENGTH_EXTRA, DIST_EXTRA, EXTRA_LBITS, EXTRA_DBITS;
    ExtrasSmall();
    var d := LDesc(t);
    forall x | 0 <= x < 286
      ensures x < d.extraBase + |d.extraBits| && d.Extra(x) <= 13
    {
      if x >= 257 { assert d.extraBits[x - 257] == LENGTH_EXTRA[x - 257]; }
    }
  }

  // -- the code of the code lengths ------------------------------------------------------------------

  /** Zeros behind the lengths change neither the code nor the room it takes. */
  lemma {:induction false} ZerosBehind(lens: seq<nat>, j: nat)
    requires j <= |lens| && forall n :: j <= n < |lens| ==> lens[n] == 0
    ensures Kraft(lens, 15) == Kraft(lens[..j], 15)
    ensures forall b :: 1 <= b ==> Count(lens, b) == Count(lens[..j], b)
  {
    if j < |lens| {
      ZerosBehind(lens[..|lens| - 1], j);
      assert lens[..|lens| - 1][..j] == lens[..j];
    } else {
      assert lens[..j] == lens;
    }
  }

  lemma {:induction false} SameNextCode(a: seq<nat>, b: seq<nat>, n: nat)
    requires forall x :: 1 <= x ==> Count(a, x) == Count(b, x)
    ensures NextCode(a, n) == NextCode(b, n)
  {
    if n > 0 { SameNextCode(a, b, n - 1); }
  }

  lemma CodesExtend(tree: seq<CtData>, j: nat, n: nat)
    requires j <= n <= |tree| && CodesFor(tree, Lens(tree, j))
    requires forall i :: j <= i < n ==> tree[i].length == 0
    ensures CodesFor(tree, Lens(tree, n))
  {
    hide Kraft, Count, NextCode, Lsb, Msb, Pow2;
    var a, b := Lens(tree, j), Lens(tree, n);
    assert b[..j] == a;
    ZerosBehind(b, j);
    forall i | 0 <= i < n && b[i] > 0
      ensures CodeWord(b, i) == CodeWord(a, i)
    {
      SameNextCode(b, a, b[i]);
      assert b[..i] == a[..i];
    }
  }

  lemma {:induction false} CountPositive(s: seq<nat>, i: nat)
    requires i < |s|
    ensures Count(s, s[i]) > 0
  {
    if i < |s| - 1 { CountPositive(s[..|s| - 1], i); }
  }

  /** A code with a length for every symbol that occurs can send all the items. */
  lemma AllItemsCoded(cl: seq<nat>, items: seq<Item>)
    requires |cl| == 19 && forall i :: 0 <= i < |items| ==> items[i].Valid()
    requires forall s :: 0 <= s < 19 && Count(Syms(items), s) != 0 ==> cl[s] > 0
    ensures ItemsCoded(cl, items)
  {
    hide Count;
    forall i | 0 <= i < |items|
      ensures ItemCoded(cl, items[i])
    {
      CountPositive(Syms(items), i);
      assert Syms(items)[i] == items[i].Sym();
    }
  }

  lemma CodedSplit(cl: seq<nat>, a: seq<Item>, b: seq<Item>)
    requires ItemsCoded(cl, a + b)
    ensures ItemsCoded(cl, a) && ItemsCoded(cl, b)
  {
    hide ItemCoded;
    assert forall i :: 0 <= i < |a| ==> (a + b)[i] == a[i];
    assert forall i :: 0 <= i < |b| ==> (a + b)[|a| + i] == b[i];
  }

  /** Items that never send a length above zero stand for zeros only. */
  lemma {:induction false} OnlyZeros(items: seq<Item>)
    requires forall i :: 0 <= i < |items| && items[i].Single? ==> items[i].v == 0
    ensures forall i :: 0 <= i < |ApplyAll([], items)| ==> ApplyAll([], items)[i] == 0
  {
    if items != [] {
      var init, x := items[..|items| - 1], items[|items| - 1];
      OnlyZeros(init);
      var acc := ApplyAll([], init);
      if x.Copy? && acc != [] { RepeatAll(acc[|acc| - 1], x.n); }
      if x.FewZeros? { RepeatAll(0, x.n); }
      if x.ManyZeros? { RepeatAll(0, x.n); }
    }
  }

  /** Lengths that are not all zero send some length above zero by itself. */
  lemma SomeSingle(lens: seq<nat>, x: nat) returns (i: nat)
    requires x < |lens| && lens[x] > 0
    ensures i < |Items(-1, lens)| && Items(-1, lens)[i].Single? && Items(-1, lens)[i].v > 0
  {
    var items := Items(-1, lens);
    ItemsMeaning([], -1, lens);
    assert [] + lens == lens;
    if forall j :: 0 <= j < |items| && items[j].Single? ==> items[j].v == 0 {
      OnlyZeros(items);
      assert false;
    }
    i :| 0 <= i < |items| && items[i].Single? && items[i].v > 0;
  }

  /** The last rank whose length is sent is at least three: only 16, 17 and 18 come before it. */
  lemma EnoughRanks(cl: seq<nat>, items: seq<Item>, i: nat)
    requires |cl| == 19 && ItemsCoded(cl, items) && i < |items| && items[i].Single? && items[i].v > 0
    ensures !Trimmed(cl, 3)
  {
    hide CL_ORDER, CL_RANK;
    assert ItemCoded(cl, items[i]);
    var v := items[i].v;
    OrderAt(v);
    RankAbove(v);
    assert cl[CL_ORDER[CL_RANK[v]]] > 0;
  }

  lemma RankAbove(v: nat)
    requires v < 16
    ensures |CL_RANK| == 19 && CL_RANK[v] >= 3
  {
  }

  lemma NothingTrimmed(cl: seq<nat>)
    requires |cl| == 19
    ensures Trimmed(cl, 19)
  {
  }

  lemma TrimMore(cl: seq<nat>, n: nat)
    requires Trimmed(cl, n + 1) && n < 19
    ensures |BL_ORDER| == 19 && BL_ORDER[n] < 19 && |cl| == 19
    ensures cl[BL_ORDER[n]] == 0 ==> Trimmed(cl, n)
  {
    OrderAt(n);
  }

  // -- a tree ready to be sent --------------------------------------------------------------------------

  /** The tree holds the code of these lengths in its first nodes. */
  ghost predicate LensReady(tree: seq<CtData>, maxCode: nat, lens: seq<nat>)
  {
    && maxCode + 1 < |tree| && lens == Lens(tree, maxCode + 1) && CodesFor(tree, lens)
    && forall i :: 0 <= i < |lens| ==> lens[i] < 16
  }

  ghost predicate Guarded(tree: seq<CtData>, maxCode: nat, lens: seq<nat>)
  {
    LensReady(tree, maxCode, lens) && tree[maxCode + 1].length == 65535
  }

  lemma PutGuard(tree: seq<CtData>, maxCode: nat, lens: seq<nat>)
    requires LensReady(tree, maxCode, lens)
    ensures maxCode + 1 < |tree| && Guarded(tree[maxCode + 1 := tree[maxCode + 1].(length := 65535)], maxCode, lens)
  {
    hide Decodable, CodeWord, Pow2, Lsb;
    var t2 := tree[maxCode + 1 := tree[maxCode + 1].(length := 65535)];
    assert Lens(t2, maxCode + 1) == lens;
  }

  lemma ReadyParts(tree: seq<CtData>, maxCode: nat, lens: seq<nat>)
    requires LensReady(tree, maxCode, lens)
    ensures maxCode + 1 < |tree| && lens == Lens(tree, maxCode + 1) && |lens| == maxCode + 1 && CodesFor(tree, lens)
    ensures forall i :: 0 <= i <= maxCode ==> tree[i].length < 16
    ensures forall i :: 0 <= i < |lens| ==> lens[i] < 16
  {
    hide CodesFor;
  }

  lemma GuardParts(tree: seq<CtData>, maxCode: nat, lens: seq<nat>)
    requires Guarded(tree, maxCode, lens)
    ensures LensReady(tree, maxCode, lens) && maxCode + 1 < |tree| && tree[maxCode + 1].length == 65535
  {
    hide CodesFor;
  }

  lemma BuiltReady(tree: seq<CtData>, maxCode: nat, desc: StaticTreeDesc)
    requires Built(tree, maxCode, desc) && desc.Valid() && desc.elems < |tree|
    ensures LensReady(tree, maxCode, Lens(tree, maxCode + 1)) && maxCode < desc.elems
  {
    hide CodesFor, Kraft, Pow2;
    var lens := Lens(tree, maxCode + 1);
    forall i | 0 <= i < |lens|
      ensures lens[i] < 16
    {
      assert Lens(tree, desc.elems)[i] <= desc.maxLength;
    }
  }

  /** The number of items that describe a code, and that they can all be counted. */
  lemma ItemsFew(lens: seq<nat>, n: nat)
    requires |lens| <= n && forall i :: 0 <= i < |lens| ==> lens[i] < 16
    ensures forall s :: Count(Syms(Items(-1, lens)), s) <= n
  {
    hide Items, Count;
    ItemsValid(-1, lens);
    forall s
      ensures Count(Syms(Items(-1, lens)), s) <= n
    {
      CountBound(Syms(Items(-1, lens)), s);
    }
  }

  lemma ScannedFreqs(bl: seq<CtData>, a: seq<Item>, b: seq<Item>)
    requires |bl| >= 19 && forall s :: 0 <= s < 19 ==> bl[s].freq == Count(Syms(a), s) + Count(Syms(b), s)
    ensures Freqs(bl, 19) == Hist(Syms(a + b), 19)
  {
    hide Count;
    SymsConcat(a, b);
    forall s | 0 <= s < 19
      ensures Count(Syms(a + b), s) == bl[s].freq
    {
      CountConcat(Syms(a), Syms(b), s);
    }
  }

  /** The code of the code lengths can send both codes' items, and its lengths fit three bits. */
  lemma BlReady(before: seq<CtData>, bl: seq<CtData>, maxCode: nat, a: seq<Item>, b: seq<Item>)
    requires Built(bl, maxCode, BlDesc()) && 19 <= |before| && 19 <= |bl|
    requires Freqs(before, 19) == Hist(Syms(a + b), 19)
    requires forall s :: 0 <= s < 19 && before[s].freq != 0 ==> bl[s].length != 0
    requires forall i :: 0 <= i < |a + b| ==> (a + b)[i].Valid()
    ensures CodesFor(bl, Lens(bl, 19)) && (forall s :: 0 <= s < 19 ==> Lens(bl, 19)[s] < 8)
    ensures ItemsCoded(Lens(bl, 19), a) && ItemsCoded(Lens(bl, 19), b)
    ensures Decodable(Lens(bl, 19))
    ensures Sum(Owed(Hist(Syms(a + b), 19), Lens(bl, 19), BlDesc()))
         == |EncodeItems(Lens(bl, 19), a) + EncodeItems(Lens(bl, 19), b)|
  {
    hide *;
    var cl := Lens(bl, 19);
    BlBuilt(bl, maxCode);
    CodesExtend(bl, maxCode + 1, 19);
    CodesDecodable(bl, cl);
    BlUsed(before, bl, Syms(a + b));
    AllItemsCoded(cl, a + b);
    CodedSplit(cl, a, b);
    ItemsCost(cl, a + b);
    EncodeConcat(cl, a, b);
    SymsBelow(a + b);
    BlSizes();
    HistogramCost(Syms(a + b), cl, BlDesc());
  }

  lemma CodesDecodable(tree: seq<CtData>, lens: seq<nat>)
    requires CodesFor(tree, lens)
    ensures Decodable(lens)
  {
  }

  lemma BlSizes()
    ensures BlDesc().elems == 19 <= BlDesc().extraBase + |BlDesc().extraBits|
  {
  }

  lemma SymsBelow(items: seq<Item>)
    requires forall i :: 0 <= i < |items| ==> items[i].Valid()
    ensures forall i :: 0 <= i < |Syms(items)| ==> Syms(items)[i] < 19
  {
  }

  lemma BlBuilt(bl: seq<CtData>, maxCode: nat)
    requires Built(bl, maxCode, BlDesc()) && 19 <= |bl|
    ensures maxCode + 1 <= 19 && CodesFor(bl, Lens(bl, maxCode + 1))
    ensures forall i :: maxCode + 1 <= i < 19 ==> bl[i].length == 0
    ensures |Lens(bl, 19)| == 19 && forall s :: 0 <= s < 19 ==> Lens(bl, 19)[s] < 8
  {
    hide CodesFor, Kraft, Pow2, EXTRA_BLBITS;
  }

  lemma BlUsed(before: seq<CtData>, bl: seq<CtData>, syms: seq<nat>)
    requires 19 <= |before| && 19 <= |bl| && Freqs(before, 19) == Hist(syms, 19)
    requires forall s :: 0 <= s < 19 && before[s].freq != 0 ==> bl[s].length != 0
    ensures forall s :: 0 <= s < 19 && Count(syms, s) != 0 ==> Lens(bl, 19)[s] > 0
  {
    hide Count;
    forall s | 0 <= s < 19
      ensures Count(syms, s) == before[s].freq
    {
      assert Freqs(before, 19)[s] == Hist(syms, 19)[s];
    }
  }

  lemma AllSmall(lens: seq<nat>)
    requires forall i :: 0 <= i < |lens| ==> lens[i] < 16
    ensures forall i :: 0 <= i < |Items(-1, lens)| ==> Items(-1, lens)[i].Valid()
  {
    ItemsValid(-1, lens);
  }

  lemma JoinedValid(a: seq<Item>, b: seq<Item>)
    requires forall i :: 0 <= i < |a| ==> a[i].Valid()
    requires forall i :: 0 <= i < |b| ==> b[i].Valid()
    ensures forall i :: 0 <= i < |a + b| ==> (a + b)[i].Valid()
  {
  }

  /** The header is ready, and is exactly as long as the trimmed ranks and the items make it. */
  lemma MakeHeader(lt: seq<CtData>, lMax: nat, ll: seq<nat>, dt: seq<CtData>, dMax: nat, dl: seq<nat>, cl: seq<nat>,
      n: nat)
    requires LensReady(lt, lMax, ll) && LensReady(dt, dMax, dl) && 257 <= |ll| <= 286 && |dl| <= 30
    requires Decodable(cl) && Trimmed(cl, n) && 4 <= n <= 19 && forall s :: 0 <= s < |cl| ==> cl[s] < 8
    requires ItemsCoded(cl, Items(-1, ll)) && ItemsCoded(cl, Items(-1, dl))
    ensures HeaderReady(ll, dl, cl, n)
    ensures |HeaderBits(ll, dl, cl, n)|
         == 14 + 3 * n + |EncodeItems(cl, Items(-1, ll)) + EncodeItems(cl, Items(-1, dl))|
  {
    hide CodeWord, EncodeItems, ItemsCoded, Items, Lsb, CL_ORDER, ClBits;
    ClSize(cl, 0, n);
  }

  lemma {:induction false} ClSize(cl: seq<nat>, i: nat, n: nat)
    requires i <= n <= 19 && |cl| == 19
    ensures |ClBits(cl, i, n)| == 3 * (n - i)
    decreases n - i
  {
    hide CL_ORDER, Lsb;
    if i < n { ClSize(cl, i + 1, n); }
  }

  lemma BlParts(t: CodeTables)
    requires t.Valid()
    ensures BlDesc().Valid() && BlDesc().elems == 19 && BlDesc().staticTree == []
  {
    DescsValid(t);
  }

  lemma ReadyItems(lt: seq<CtData>, lMax: nat, ll: seq<nat>, dt: seq<CtData>, dMax: nat, dl: seq<nat>)
    requires Guarded(lt, lMax, ll) && Guarded(dt, dMax, dl)
    ensures forall i :: 0 <= i < |Items(-1, ll) + Items(-1, dl)| ==> (Items(-1, ll) + Items(-1, dl))[i].Valid()
  {
    hide *;
    GuardsReady(lt, lMax, ll, dt, dMax, dl);
    ReadyParts(lt, lMax, ll);
    ReadyParts(dt, dMax, dl);
    AllSmall(ll);
    AllSmall(dl);
    JoinedValid(Items(-1, ll), Items(-1, dl));
  }

  lemma GuardsReady(lt: seq<CtData>, lMax: nat, ll: seq<nat>, dt: seq<CtData>, dMax: nat, dl: seq<nat>)
    requires Guarded(lt, lMax, ll) && Guarded(dt, dMax, dl)
    ensures LensReady(lt, lMax, ll) && LensReady(dt, dMax, dl)
  {
    hide LensReady;
  }

  // -- the two data codes ------------------------------------------------------------------------------

  /** A tree built from the counts of the symbols that occur: it codes them all, at the cost owed. */
  lemma UsedReady(syms: seq<nat>, before: seq<CtData>, tree: seq<CtData>, maxCode: nat, desc: StaticTreeDesc)
    requires Built(tree, maxCode, desc) && desc.Valid() && desc.elems < |tree| && desc.elems <= |before|
    requires Freqs(before, desc.elems) == Hist(syms, desc.elems)
    requires forall c :: 0 <= c < desc.elems && before[c].freq != 0 ==> tree[c].length != 0
    requires forall i :: 0 <= i < |syms| ==> syms[i] < desc.elems
    ensures maxCode < desc.elems && LensReady(tree, maxCode, Lens(tree, maxCode + 1))
    ensures AllUsed(syms, Lens(tree, maxCode + 1)) && Priced(syms, Lens(tree, maxCode + 1), desc)
    ensures Sum(Owed(Freqs(before, desc.elems), Lens(tree, desc.elems), desc))
         == CostOf(syms, Lens(tree, maxCode + 1), desc)
  {
    hide *;
    DescSizes(desc);
    BuiltReady(tree, maxCode, desc);
    HistogramCost(syms, Lens(tree, desc.elems), desc);
    UsedLens(syms, before, tree, maxCode, desc);
    UsedPriced(syms, Lens(tree, maxCode + 1), Lens(tree, desc.elems), desc);
    CostSame(syms, Lens(tree, maxCode + 1), Lens(tree, desc.elems), desc);
  }

  lemma DescSizes(desc: StaticTreeDesc)
    requires desc.Valid()
    ensures desc.elems <= desc.extraBase + |desc.extraBits|
  {
  }

  /** Every symbol has a code. */
  ghost predicate AllUsed(syms: seq<nat>, lens: seq<nat>)
  {
    forall i :: 0 <= i < |syms| ==> syms[i] < |lens| && lens[syms[i]] > 0
  }

  lemma UsedLens(syms: seq<nat>, before: seq<CtData>, tree: seq<CtData>, maxCode: nat, desc: StaticTreeDesc)
    requires Built(tree, maxCode, desc) && desc.elems <= |before|
    requires maxCode < desc.elems <= |tree|
    requires Freqs(before, desc.elems) == Hist(syms, desc.elems)
    requires forall c :: 0 <= c < desc.elems && before[c].freq != 0 ==> tree[c].length != 0
    requires forall i :: 0 <= i < |syms| ==> syms[i] < desc.elems
    ensures AllUsed(syms, Lens(tree, maxCode + 1))
  {
    hide Count, CodesFor, Kraft, Pow2;
    forall i | 0 <= i < |syms|
      ensures syms[i] <= maxCode && tree[syms[i]].length > 0
    {
      CountPositive(syms, i);
      assert Freqs(before, desc.elems)[syms[i]] == Hist(syms, desc.elems)[syms[i]];
    }
  }

  lemma UsedPriced(syms: seq<nat>, a: seq<nat>, b: seq<nat>, desc: StaticTreeDesc)
    requires AllUsed(syms, a) && Priced(syms, b, desc) && |a| <= |b|
    requires forall i :: 0 <= i < |a| ==> a[i] == b[i]
    ensures Priced(syms, a, desc) && forall i :: 0 <= i < |syms| ==> syms[i] < |a| && a[syms[i]] == b[syms[i]]
  {
  }

  lemma {:induction false} SymsCoded(ll: seq<nat>, dl: seq<nat>, ts: seq<Token>)
    requires AllValid(ts) && AllUsed(LSyms(ts), ll) && AllUsed(DSyms(ts), dl)
    ensures AllCoded(ll, dl, ts) && 256 < |ll| && ll[256] > 0
  {
    hide Coded, AllUsed;
    if ts != [] {
      var init, x := ts[..|ts| - 1], ts[|ts| - 1];
      assert ts == init + [x];
      SymsMore(init, x);
      UsedInit(LSyms(init), LSym(x), ll);
      if x.Match? { UsedInit(DSyms(init), DSym(x), dl); }
      SymsCoded(ll, dl, init);
      MakeCoded(ll, dl, x);
    } else {
      EndUsed(ll);
    }
  }

  lemma EndUsed(ll: seq<nat>)
    requires AllUsed([256], ll)
    ensures 256 < |ll| && ll[256] > 0
  {
    assert [256][0] < |ll|;
  }

  lemma UsedInit(init: seq<nat>, x: nat, lens: seq<nat>)
    requires AllUsed(init + [x], lens)
    ensures AllUsed(init, lens) && x < |lens| && lens[x] > 0
  {
    assert (init + [x])[|init|] == x;
    assert forall i :: 0 <= i < |init| ==> (init + [x])[i] == init[i];
  }

  lemma MakeCoded(ll: seq<nat>, dl: seq<nat>, t: Token)
    requires t.Valid() && LSym(t) < |ll| && ll[LSym(t)] > 0
    requires t.Match? ==> DSym(t) < |dl| && dl[DSym(t)] > 0
    ensures Coded(ll, dl, t)
  {
  }

  /** What the two data codes cost is the size of the data they send. */
  lemma DataCost(ll: seq<nat>, dl: seq<nat>, ts: seq<Token>, t: CodeTables)
    requires AllCoded(ll, dl, ts) && |ll| > 256
    ensures AllValid(ts) && Priced(LSyms(ts), ll, LDesc(t)) && Priced(DSyms(ts), dl, DDesc(t))
    ensures |EncodeData(ll, dl, ts)| == CostOf(LSyms(ts), ll, LDesc(t)) + CostOf(DSyms(ts), dl, DDesc(t))
    ensures forall i :: 0 <= i < |LSyms(ts)| ==> LSyms(ts)[i] < 286
    ensures forall i :: 0 <= i < |DSyms(ts)| ==> DSyms(ts)[i] < 30
  {
    hide CodeWord, EncodeTokens, LSyms, DSyms, CostOf, Priced, LDesc, DDesc;
    TokensCost(ll, dl, ts, t);
  }

  /** The data of a block is far too small to wrap. */
  lemma DataSmall(ll: seq<nat>, dl: seq<nat>, ts: seq<Token>, t: CodeTables)
    requires AllCoded(ll, dl, ts) && |ll| > 256 && |ts| <= 16383
    requires (forall i :: 0 <= i < |ll| ==> ll[i] <= 15) && (forall i :: 0 <= i < |dl| ==> dl[i] <= 15)
    ensures |EncodeData(ll, dl, ts)| <= 1_000_000
  {
    hide *;
    DataCost(ll, dl, ts, t);
    ExtrasBounded(t);
    SymsFew(ts);
    PricedBound(LSyms(ts), ll, LDesc(t), 286);
    PricedBound(DSyms(ts), dl, DDesc(t), 30);
  }

  lemma SymsFew(ts: seq<Token>)
    requires AllValid(ts)
    ensures |LSyms(ts)| == |ts| + 1 && |DSyms(ts)| <= |ts|
  {
  }

  lemma PricedBound(syms: seq<nat>, lens: seq<nat>, desc: StaticTreeDesc, n: nat)
    requires Priced(syms, lens, desc) && forall i :: 0 <= i < |syms| ==> syms[i] < n
    requires forall i :: 0 <= i < |lens| ==> lens[i] <= 15
    requires ExtrasSmallUpTo(desc, n)
    ensures CostOf(syms, lens, desc) <= 28 * |syms|
  {
    CostBound(syms, lens, desc);
  }

  lemma HeaderSmall(ll: seq<nat>, dl: seq<nat>, cl: seq<nat>, n: nat, t: CodeTables)
    requires HeaderReady(ll, dl, cl, n)
    ensures |HeaderBits(ll, dl, cl, n)| <= 20_000
  {
    hide *;
    HeaderFacts(ll, dl, cl, n, []);
    var a, b := Items(-1, ll), Items(-1, dl);
    DecodableSmall(ll);
    DecodableSmall(dl);
    ItemsSmall(cl, ll, t);
    ItemsSmall(cl, dl, t);
    ClSize(cl, 0, n);
    HeaderSize(ll, dl, cl, n);
  }

  lemma HeaderSize(ll: seq<nat>, dl: seq<nat>, cl: seq<nat>, n: nat)
    requires HeaderReady(ll, dl, cl, n)
    ensures 4 <= n <= 19 && |cl| == 19
    ensures ItemsCoded(cl, Items(-1, ll)) && ItemsCoded(cl, Items(-1, dl))
    ensures |HeaderBits(ll, dl, cl, n)|
      == 14 + |ClBits(cl, 0, n)| + |EncodeItems(cl, Items(-1, ll))| + |EncodeItems(cl, Items(-1, dl))|
  {
    hide CodeWord, EncodeItems, ItemsCoded, Items, Lsb, CL_ORDER, ClBits, Decodable;
  }

  lemma DecodableSmall(lens: seq<nat>)
    requires Decodable(lens)
    ensures forall i :: 0 <= i < |lens| ==> lens[i] < 16
  {
  }

  lemma ItemsSmall(cl: seq<nat>, lens: seq<nat>, t: CodeTables)
    requires |cl| == 19 && (forall s :: 0 <= s < 19 ==> cl[s] < 8) && ItemsCoded(cl, Items(-1, lens))
    requires |lens| <= 288 && forall i :: 0 <= i < |lens| ==> lens[i] < 16
    ensures |EncodeItems(cl, Items(-1, lens))| <= 28 * 288
  {
    hide *;
    ItemsCost(cl, Items(-1, lens));
    ItemsValid(-1, lens);
    SymsBelow(Items(-1, lens));
    ExtrasBounded(t);
    SymsSize(Items(-1, lens));
    PricedBound(Syms(Items(-1, lens)), cl, BlDesc(), 19);
  }

  lemma SymsSize(items: seq<Item>)
    ensures |Syms(items)| == |items|
  {
  }

  /** The static codes' cost, read off the tables. */
  lemma StaticOwed(t: CodeTables, fl: seq<nat>, fd: seq<nat>, ts: seq<Token>)
    requires t.Valid() && AllCoded(FixedL(), SentD(), ts)
    requires AllValid(ts) && fl == Hist(LSyms(ts), 286) && fd == Hist(DSyms(ts), 30)
    ensures 286 <= |t.staticLtree| && 30 <= |t.staticDtree|
    ensures LDesc(t).elems == 286 <= LDesc(t).extraBase + |LDesc(t).extraBits|
    ensures DDesc(t).elems == 30 <= DDesc(t).extraBase + |DDesc(t).extraBits|
    ensures |FixedL()| > 256
    ensures Sum(Owed(fl, Lens(t.staticLtree, 286), LDesc(t))) + Sum(Owed(fd, Lens(t.staticDtree, 30), DDesc(t)))
         == |EncodeData(FixedL(), SentD(), ts)|
  {
    hide *;
    FixedSizes(t);
    DescsValid(t);
    DescSizes(LDesc(t));
    DescSizes(DDesc(t));
    DataCost(FixedL(), SentD(), ts, t);
    HistogramCost(LSyms(ts), Lens(t.staticLtree, 286), LDesc(t));
    HistogramCost(DSyms(ts), Lens(t.staticDtree, 30), DDesc(t));
    CostSame(LSyms(ts), FixedL(), Lens(t.staticLtree, 286), LDesc(t));
    CostSame(DSyms(ts), SentD(), Lens(t.staticDtree, 30), DDesc(t));
  }

  lemma FixedSizes(t: CodeTables)
    requires t.Valid()
    ensures |FixedL()| == 288 == |t.staticLtree| && |t.staticDtree| == 30 && |SentD()| == 30
    ensures forall c :: 0 <= c < 286 ==> FixedL()[c] == Lens(t.staticLtree, 286)[c]
    ensures forall c :: 0 <= c < 30 ==> SentD()[c] == Lens(t.staticDtree, 30)[c]
    ensures CodesFor(t.staticLtree, FixedL()) && CodesFor(t.staticDtree, SentD())
    ensures LDesc(t).elems == 286 && DDesc(t).elems == 30 && LDesc(t).staticTree == t.staticLtree != []
    ensures DDesc(t).staticTree == t.staticDtree != []
    ensures forall i :: 0 <= i < 288 ==> FixedL()[i] <= 15
    ensures forall i :: 0 <= i < 30 ==> SentD()[i] <= 15
  {
    hide CodesFor, LENGTH_BASE, DIST_BASE, LastBase, DistTable, FixedL, SentD;
    assert forall c :: 0 <= c < 286 ==> Lens(t.staticLtree, 288)[c] == t.staticLtree[c].length;
    FixedSmall();
  }

  lemma FixedSmall()
    ensures |FixedL()| == 288 && |SentD()| == 30
    ensures forall i :: 0 <= i < 288 ==> FixedL()[i] <= 15
    ensures forall i :: 0 <= i < 30 ==> SentD()[i] <= 15
  {
  }

  lemma FreqsHist(l: seq<CtData>, d: seq<CtData>, bl: seq<CtData>, ts: seq<Token>)
    requires FreqsOk(l, d, bl, ts)
    ensures AllValid(ts) && |l| >= 286 && |d| >= 30 && |bl| >= 19
    ensures Freqs(l, 286) == Hist(LSyms(ts), 286) && Freqs(d, 30) == Hist(DSyms(ts), 30)
    ensures forall s :: 0 <= s < 19 ==> bl[s].freq == 0
  {
    hide Count, LSyms, DSyms;
  }

  /** Both data codes are ready, code every token, and cost what their data is long. */
  lemma DataReady(t: CodeTables, ts: seq<Token>, l0: seq<CtData>, l: seq<CtData>, lMax: nat,
                  d0: seq<CtData>, d: seq<CtData>, dMax: nat)
    requires t.Valid() && AllValid(ts) && |l| == |l0| == 573 && |d| == |d0| == 61
    requires Built(l, lMax, LDesc(t)) && Built(d, dMax, DDesc(t))
    requires Freqs(l0, 286) == Hist(LSyms(ts), 286) && Freqs(d0, 30) == Hist(DSyms(ts), 30)
    requires forall c :: 0 <= c < 286 && l0[c].freq != 0 ==> l[c].length != 0
    requires forall c :: 0 <= c < 30 && d0[c].freq != 0 ==> d[c].length != 0
    requires AllCoded(FixedL(), SentD(), ts) && |FixedL()| > 256
    requires LDesc(t).elems == 286 <= LDesc(t).extraBase + |LDesc(t).extraBits|
    requires DDesc(t).elems == 30 <= DDesc(t).extraBase + |DDesc(t).extraBits|
    ensures lMax < 286 && dMax < 30
    ensures LensReady(l, lMax, Lens(l, lMax + 1)) && LensReady(d, dMax, Lens(d, dMax + 1))
    ensures 257 <= |Lens(l, lMax + 1)| <= 286 && Lens(l, lMax + 1)[256] > 0 && |Lens(d, dMax + 1)| <= 30
    ensures AllCoded(Lens(l, lMax + 1), Lens(d, dMax + 1), ts)
    ensures Sum(Owed(Freqs(l0, 286), Lens(l, 286), LDesc(t))) + Sum(Owed(Freqs(d0, 30), Lens(d, 30), DDesc(t)))
         == |EncodeData(Lens(l, lMax + 1), Lens(d, dMax + 1), ts)|
  {
    hide *;
    DescsValid(t);
    DataCost(FixedL(), SentD(), ts, t);
    UsedReady(LSyms(ts), l0, l, lMax, LDesc(t));
    UsedReady(DSyms(ts), d0, d, dMax, DDesc(t));
    SymsCoded(Lens(l, lMax + 1), Lens(d, dMax + 1), ts);
    DataCost(Lens(l, lMax + 1), Lens(d, dMax + 1), ts, t);
  }

  // -- sending it all ---------------------------------------------------------------------------------

  /** The three codes describe themselves and code every token, and so do the fixed ones. */
  ghost predicate Sendable(ll: seq<nat>, dl: seq<nat>, cl: seq<nat>, n: nat, ts: seq<Token>)
  {
    && HeaderReady(ll, dl, cl, n) && AllCoded(ll, dl, ts) && 256 < |ll| && ll[256] > 0
    && AllCoded(FixedL(), SentD(), ts) && 256 < |FixedL()|
  }

  lemma MakeSendable(ll: seq<nat>, dl: seq<nat>, cl: seq<nat>, n: nat, ts: seq<Token>)
    requires HeaderReady(ll, dl, cl, n) && AllCoded(ll, dl, ts) && 256 < |ll| && ll[256] > 0
    requires AllCoded(FixedL(), SentD(), ts) && 256 < |FixedL()|
    ensures Sendable(ll, dl, cl, n, ts)
  {
  }

  lemma SendableParts(ll: seq<nat>, dl: seq<nat>, cl: seq<nat>, n: nat, ts: seq<Token>)
    requires Sendable(ll, dl, cl, n, ts)
    ensures HeaderReady(ll, dl, cl, n) && AllCoded(ll, dl, ts) && 256 < |ll| && ll[256] > 0
    ensures AllCoded(FixedL(), SentD(), ts) && 256 < |FixedL()|
  {
  }

  /** The number of bits of the block's dynamic form, after the three header bits. */
  ghost function DynamicSize(ll: seq<nat>, dl: seq<nat>, cl: seq<nat>, n: nat, ts: seq<Token>): nat
    requires Sendable(ll, dl, cl, n, ts)
  {
    |HeaderBits(ll, dl, cl, n)| + |EncodeData(ll, dl, ts)|
  }

  ghost predicate DynamicBits(size: int, ll: seq<nat>, dl: seq<nat>, cl: seq<nat>, n: nat, ts: seq<Token>)
  {
    Sendable(ll, dl, cl, n, ts) && size == DynamicSize(ll, dl, cl, n, ts)
  }

  ghost function StaticSize(ts: seq<Token>): nat
    requires AllCoded(FixedL(), SentD(), ts)
  {
    |EncodeData(FixedL(), SentD(), ts)|
  }

  /** The costs are the exact numbers of bits that sending the block takes. */
  ghost predicate ExactCosts(opt: nat, stat: nat, ll: seq<nat>, dl: seq<nat>, cl: seq<nat>, n: nat, ts: seq<Token>)
  {
    && Sendable(ll, dl, cl, n, ts)
    && opt == DynamicSize(ll, dl, cl, n, ts)
    && stat == StaticSize(ts)
  }

  lemma MakeExact(opt: nat, stat: nat, ll: seq<nat>, dl: seq<nat>, cl: seq<nat>, n: nat, ts: seq<Token>)
    requires Sendable(ll, dl, cl, n, ts) && HeaderReady(ll, dl, cl, n) && AllCoded(ll, dl, ts) && 256 < |ll|
    requires AllCoded(FixedL(), SentD(), ts) && 256 < |FixedL()|
    requires opt == |EncodeData(ll, dl, ts)| + |HeaderBits(ll, dl, cl, n)|
    requires stat == |EncodeData(FixedL(), SentD(), ts)|
    ensures ExactCosts(opt, stat, ll, dl, cl, n, ts)
  {
    hide HeaderReady, HeaderBits, EncodeData, AllCoded, FixedL, SentD;
  }

  /** Whole bytes taken by a block of n bits and its three header bits. */
  function BlockBytes(n: nat): nat
  {
    (n + 3 + 7) / 8
  }

  /** Which of the three forms a block was sent in, and what the other two would have cost. */
  datatype Choice = Choice(kind: nat, opt: nat, stat: nat, ll: seq<nat>, dl: seq<nat>, cl: seq<nat>, n: nat)
  {
    /** The costs compared are the exact sizes of the two compressed forms. */
    ghost predicate Exact(ts: seq<Token>)
    {
      ExactCosts(opt, stat, ll, dl, cl, n, ts)
    }

    /** The form chosen is the one that takes the fewest whole bytes, at the size compared. */
    ghost predicate Sized(block: bits, bufValid: bool, storedLen: nat)
    {
      && kind == (if bufValid && storedLen + 4 <= BlockBytes(stat) && storedLen + 4 <= BlockBytes(opt) then 0
                  else if BlockBytes(stat) <= BlockBytes(opt) then 1 else 2)
      && (kind == 0 ==> |block| <= 3 + 7 + 32 + 8 * storedLen)
      && (kind == 1 ==> |block| == 3 + stat)
      && (kind == 2 ==> |block| == 3 + opt)
    }
  }

  lemma Choose(kind: nat, opt: nat, stat: nat, ll: seq<nat>, dl: seq<nat>, cl: seq<nat>, n: nat, ts: seq<Token>,
               block: bits, bufValid: bool, storedLen: nat) returns (c: Choice)
    requires ExactCosts(opt, stat, ll, dl, cl, n, ts)
    requires kind == (if bufValid && storedLen + 4 <= BlockBytes(stat) && storedLen + 4 <= BlockBytes(opt) then 0
                      else if BlockBytes(stat) <= BlockBytes(opt) then 1 else 2)
    requires kind == 0 ==> |block| <= 3 + 7 + 32 + 8 * storedLen
    requires Sendable(ll, dl, cl, n, ts) && AllCoded(FixedL(), SentD(), ts)
    requires kind == 1 ==> |block| == 3 + StaticSize(ts)
    requires kind == 2 ==> DynamicBits(|block| - 3, ll, dl, cl, n, ts)
    ensures c.Exact(ts) && c.Sized(block, bufValid, storedLen)
  {
    hide Sendable, DynamicSize, StaticSize, AllCoded, BlockBytes;
    c := Choice(kind, opt, stat, ll, dl, cl, n);
  }
}
