/** The symbol buffer, the frequency counts, and what they say about a block's tokens. */
module BlockLemmas {
  import opened Bits
  import opened PrefixCodes
  import opened Inflate
  import opened Tokens
  import opened Tables
  import opened StaticTrees
  import opened HuffmanRepair
  import opened Huffman

  /** The tables the encoder computes once. */
  datatype CodeTables = CodeTables(
    lengthCode: seq<byte>, baseLength: seq<nat>, distCode: seq<byte>, baseDist: seq<nat>,
    staticLtree: seq<CtData>, staticDtree: seq<CtData>)
  {
    ghost predicate Valid()
    {
      && |lengthCode| == 256 && (forall lc :: 0 <= lc < 256 ==> lengthCode[lc] == LengthCode(lc + 3))
      && |baseLength| == |LENGTH_BASE| == 29 && (forall c :: 0 <= c < 28 ==> baseLength[c] + 3 == LENGTH_BASE[c])
      && DistTable(distCode)
      && |baseDist| == |DIST_BASE| == 30 && (forall d :: 0 <= d < 30 ==> baseDist[d] + 1 == DIST_BASE[d])
      && |staticLtree| == 288 && CodesFor(staticLtree, FixedL()) && Lens(staticLtree, 288) == FixedL()
      && |staticDtree| == 30 && CodesFor(staticDtree, SentD()) && Lens(staticDtree, 30) == SentD()
    }

    /** The distance code of a distance less one. */
    function DCode(dist: nat): nat
      requires dist < 32768 && |distCode| == 512
    {
      if dist < 256 then distCode[dist] else distCode[256 + dist / 128]
    }
  }

  method BuildTables() returns (t: CodeTables)
    ensures t.Valid()
  {
    var lengthCode := BuildLengthCode();
    var baseLength := BuildBaseLength();
    var distCode := BuildDistCode();
    var baseDist := BuildBaseDist();
    var staticL := BuildStaticLtree();
    var staticD := BuildStaticDtree();
    t := CodeTables(lengthCode[..], baseLength[..], distCode[..], baseDist[..], staticL[..], staticD[..]);
    hide LENGTH_BASE, DIST_BASE, LengthCode, DistTable, CodesFor, FixedL, SentD;
  }

  lemma DCodeIs(t: CodeTables, dist: nat)
    requires t.Valid() && 1 <= dist <= 32768
    ensures |t.distCode| == 512 && t.DCode(dist - 1) == DistCode(dist) < 30
  {
    hide LENGTH_BASE, LENGTH_EXTRA, CodesFor;
    assert DistOf(dist - 1) == DistCode(dist);
  }

  lemma ExtrasSmall()
    ensures |LENGTH_EXTRA| == |EXTRA_LBITS| == 29 && |DIST_EXTRA| == |EXTRA_DBITS| == 30
    ensures EXTRA_LBITS == LENGTH_EXTRA && EXTRA_DBITS == DIST_EXTRA
    ensures forall c :: 0 <= c < 29 ==> LENGTH_EXTRA[c] <= 5
    ensures forall d :: 0 <= d < 30 ==> DIST_EXTRA[d] <= 13
    ensures LENGTH_EXTRA[28] == 0
  {
  }

  /** The length code and extra bits of a match, read off the tables. */
  lemma LengthTables(t: CodeTables, m: Token)
    requires t.Valid() && m.Match? && m.Valid()
    ensures 3 <= m.len <= 258 && |t.lengthCode| == 256 && t.lengthCode[m.len - 3] == LengthCode(m.len) < 29
    ensures |EXTRA_LBITS| == |LENGTH_EXTRA| == |t.baseLength| == 29 == |LENGTH_BASE| && EXTRA_LBITS == LENGTH_EXTRA
    ensures var c := LengthCode(m.len);
      && LENGTH_BASE[c] <= m.len && m.len - LENGTH_BASE[c] < Pow2(LENGTH_EXTRA[c]) && LENGTH_EXTRA[c] <= 16
      && (LENGTH_EXTRA[c] != 0 ==> t.baseLength[c] + 3 == LENGTH_BASE[c])
  {
    hide Pow2, CodesFor, LastBase, LENGTH_BASE, LENGTH_EXTRA, EXTRA_LBITS, DistTable, FixedL, SentD;
    ExtrasSmall();
    ExtraFits(m);
  }

  /** The distance code and extra bits of a match, read off the tables. */
  lemma DistTables(t: CodeTables, m: Token)
    requires t.Valid() && m.Match? && m.Valid()
    ensures 1 <= m.dist <= 32768 && |t.distCode| == 512 && t.DCode(m.dist - 1) == DistCode(m.dist) < 30
    ensures |EXTRA_DBITS| == |DIST_EXTRA| == |t.baseDist| == 30 == |DIST_BASE| && EXTRA_DBITS == DIST_EXTRA
    ensures var d := DistCode(m.dist);
      && DIST_BASE[d] <= m.dist && m.dist - DIST_BASE[d] < Pow2(DIST_EXTRA[d]) && DIST_EXTRA[d] <= 16
      && t.baseDist[d] + 1 == DIST_BASE[d]
  {
    hide Pow2, CodesFor, LastBase, DIST_BASE, DIST_EXTRA, EXTRA_DBITS, DistTable, FixedL, SentD;
    ExtrasSmall();
    DCodeIs(t, m.dist);
    ExtraFits(m);
  }

  // -- the symbol buffer ----------------------------------------------------------------------

  /** Three bytes of the buffer stand for a token: a distance of zero marks a literal. */
  predicate Holds(a: byte, b: byte, c: byte, t: Token)
  {
    && t.Valid()
    && match t
       case Literal(x) => a == 0 && b == 0 && c == x
       case Match(dist, len) => a as int + 256 * b as int == dist && c as int + 3 == len
  }

  ghost predicate BufferHolds(buf: seq<byte>, tokens: seq<Token>)
  {
    && 3 * |tokens| <= |buf|
    && forall i :: 0 <= i < |tokens| ==> Holds(buf[3 * i], buf[3 * i + 1], buf[3 * i + 2], tokens[i])
  }

  lemma BufferMore(buf: seq<byte>, tokens: seq<Token>, a: byte, b: byte, c: byte, t: Token)
    requires BufferHolds(buf, tokens) && 3 * |tokens| + 3 <= |buf| && Holds(a, b, c, t)
    ensures var n := 3 * |tokens|;
      BufferHolds(buf[n := a][n + 1 := b][n + 2 := c], tokens + [t])
  {
  }

  // -- frequencies ------------------------------------------------------------------------------

  /** The literal/length symbols of a block, the end of block counted from the start. */
  function LSyms(tokens: seq<Token>): (s: seq<nat>)
    requires AllValid(tokens)
    ensures |s| == |tokens| + 1
  {
    if tokens == [] then [256] else LSyms(tokens[..|tokens| - 1]) + [LSym(tokens[|tokens| - 1])]
  }

  function DSyms(tokens: seq<Token>): (s: seq<nat>)
    requires AllValid(tokens)
    ensures |s| <= |tokens|
  {
    if tokens == [] then []
    else
      var rest := DSyms(tokens[..|tokens| - 1]);
      if tokens[|tokens| - 1].Match? then rest + [DSym(tokens[|tokens| - 1])] else rest
  }

  ghost predicate AllValid(tokens: seq<Token>)
  {
    forall i :: 0 <= i < |tokens| ==> tokens[i].Valid()
  }

  /** The trees' frequencies are the block's symbol counts. */
  ghost predicate FreqsOk(ltree: seq<CtData>, dtree: seq<CtData>, bltree: seq<CtData>, tokens: seq<Token>)
  {
    && AllValid(tokens) && |ltree| >= 286 && |dtree| >= 30 && |bltree| >= 19
    && (forall c :: 0 <= c < 286 ==> ltree[c].freq == Count(LSyms(tokens), c))
    && (forall d :: 0 <= d < 30 ==> dtree[d].freq == Count(DSyms(tokens), d))
    && (forall s :: 0 <= s < 19 ==> bltree[s].freq == 0)
  }

  lemma CountLast(s: seq<int>, x: int, b: int)
    ensures Count(s + [x], b) == Count(s, b) + if x == b then 1 else 0
  {
    assert (s + [x])[..|s|] == s;
  }

  lemma SymsMore(tokens: seq<Token>, t: Token)
    requires AllValid(tokens) && t.Valid()
    ensures AllValid(tokens + [t])
    ensures LSyms(tokens + [t]) == LSyms(tokens) + [LSym(t)]
    ensures DSyms(tokens + [t]) == if t.Match? then DSyms(tokens) + [DSym(t)] else DSyms(tokens)
  {
    assert (tokens + [t])[..|tokens|] == tokens;
  }

  /** Tallying one token bumps one or two frequencies. */
  lemma FreqsMore(l: seq<CtData>, d: seq<CtData>, bl: seq<CtData>, tokens: seq<Token>, t: Token)
    requires FreqsOk(l, d, bl, tokens) && t.Valid() && |tokens| < 60000
    ensures LSym(t) < 286 && LSym(t) < |l| && l[LSym(t)].freq <= 60001
    ensures t.Match? ==> DSym(t) < 30 && DSym(t) < |d| && d[DSym(t)].freq <= 60000
    ensures var l2 := l[LSym(t) := l[LSym(t)].(freq := l[LSym(t)].freq + 1)];
      && (t.Literal? ==> FreqsOk(l2, d, bl, tokens + [t]))
      && (t.Match? ==> FreqsOk(l2, d[DSym(t) := d[DSym(t)].(freq := d[DSym(t)].freq + 1)], bl, tokens + [t]))
  {
    hide LENGTH_BASE, DIST_BASE, LastBase, Count, LSyms, DSyms;
    SymsMore(tokens, t);
    SymRange(t);
    forall c | 0 <= c < 286
      ensures Count(LSyms(tokens + [t]), c) == Count(LSyms(tokens), c) + if c == LSym(t) then 1 else 0
    {
      CountLast(LSyms(tokens), LSym(t), c);
    }
    CountBound(LSyms(tokens), LSym(t));
    if t.Match? {
      forall c | 0 <= c < 30
        ensures Count(DSyms(tokens + [t]), c) == Count(DSyms(tokens), c) + if c == DSym(t) then 1 else 0
      {
        CountLast(DSyms(tokens), DSym(t), c);
      }
      CountBound(DSyms(tokens), DSym(t));
    }
  }

  lemma SymRange(t: Token)
    requires t.Valid()
    ensures LSym(t) < 286 && (t.Match? ==> DSym(t) < 30)
  {
  }

  lemma FreqsStart(l: seq<CtData>, d: seq<CtData>, bl: seq<CtData>)
    requires |l| >= 286 && |d| >= 30 && |bl| >= 19
    requires forall c :: 0 <= c < 286 ==> l[c].freq == if c == 256 then 1 else 0
    requires (forall c :: 0 <= c < 30 ==> d[c].freq == 0) && (forall s :: 0 <= s < 19 ==> bl[s].freq == 0)
    ensures FreqsOk(l, d, bl, [])
  {
    assert forall c :: Count([256], c) == if c == 256 then 1 else 0 by {
      forall c
        ensures Count([256], c) == if c == 256 then 1 else 0
      {
        CountLast([], 256, c);
        assert [] + [256] == [256];
      }
    }
  }
}
