/** The block half of the encoder: collects symbols, chooses an encoding and writes the block. */
module BlockEncoding {
  import opened Bits
  import opened BitOutput
  import opened PrefixCodes
  import opened Inflate
  import opened Tokens
  import opened Tables
  import opened StaticTrees
  import opened CodeLengths
  import opened RunScanner
  import opened BlockHeader
  import opened HuffmanRepair
  import opened Huffman
  import opened BuildLemmas
  import opened TreeBuilding
  import opened BlockLemmas
  import opened FlushLemmas
  import opened BlockBits

  class BlockEncoder {
    const bw: BitWriter
    const tb: TreeBuilder
    const tables: CodeTables
    const symBuf: array<byte>
    const dynLtree: array<CtData>
    const dynDtree: array<CtData>
    const blTree: array<CtData>
    var symNext: nat
    var matches: nat
    var maxBlindex: nat
    var lMaxCode: nat
    var dMaxCode: nat
    ghost var tokens: seq<Token>

    /** What never changes: the sizes of the buffers, that they are different, and the tables. */
    ghost predicate Shape()
    {
      && symBuf.Length == 49152 && symBuf != tb.depth
      && dynLtree.Length == 573 && dynDtree.Length == 61 && blTree.Length == 39
      && dynLtree != dynDtree && dynLtree != blTree && dynDtree != blTree
      && tables.Valid()
    }

    ghost predicate Valid()
      reads this, bw, tb, symBuf, dynLtree, dynDtree, blTree
    {
      && Shape() && bw.Valid() && tb.Valid()
      && BufferHolds(symBuf[..], tokens) && symNext == 3 * |tokens| <= 49149
      && FreqsOk(dynLtree[..], dynDtree[..], blTree[..], tokens)
      && tb.optLen == 0 && tb.staticLen == 0
    }

    constructor ()
      ensures Valid() && tokens == []
      ensures fresh(bw) && fresh(tb) && fresh(symBuf) && fresh(dynLtree) && fresh(dynDtree) && fresh(blTree)
      ensures fresh(tb.heap) && fresh(tb.depth) && fresh(tb.blCount)
      ensures bw.out == [] && bw.biValid == 0
    {
      var t := BuildTables();
      bw := new BitWriter();
      tb := new TreeBuilder();
      tables := t;
      symBuf := new byte[49152](_ => 0);
      dynLtree := new CtData[573](_ => CtData(0, 0, 0, 0));
      dynDtree := new CtData[61](_ => CtData(0, 0, 0, 0));
      blTree := new CtData[39](_ => CtData(0, 0, 0, 0));
      symNext, matches, maxBlindex, tokens := 0, 0, 0, [];
      lMaxCode, dMaxCode := 0, 0;
      new;
      hide *;
      MakeShape();
      InitBlock();
    }

    lemma MakeShape()
      requires symBuf.Length == 49152 && symBuf != tb.depth
      requires dynLtree.Length == 573 && dynDtree.Length == 61 && blTree.Length == 39
      requires dynLtree != dynDtree && dynLtree != blTree && dynDtree != blTree && tables.Valid()
      ensures Shape()
    {
    }

    lemma ShapeSizes()
      requires Shape()
      ensures symBuf.Length == 49152 && symBuf != tb.depth
      ensures dynLtree.Length == 573 && dynDtree.Length == 61 && blTree.Length == 39
      ensures dynLtree != dynDtree && dynLtree != blTree && dynDtree != blTree && tables.Valid()
    {
    }

    lemma MakeValid()
      requires Shape() && bw.Valid() && tb.Valid()
      requires BufferHolds(symBuf[..], tokens) && symNext == 3 * |tokens| <= 49149
      requires FreqsOk(dynLtree[..], dynDtree[..], blTree[..], tokens)
      requires tb.optLen == 0 && tb.staticLen == 0
      ensures Valid()
    {
    }

    lemma Started()
      requires Valid() && tokens == []
      ensures symNext == 0
    {
    }

    lemma ValidParts()
      requires Valid()
      ensures Shape() && bw.Valid() && tb.Valid()
      ensures BufferHolds(symBuf[..], tokens) && symNext == 3 * |tokens| <= 49149
      ensures FreqsOk(dynLtree[..], dynDtree[..], blTree[..], tokens)
      ensures tb.optLen == 0 && tb.staticLen == 0
    {
    }

    /** Clears the first n frequencies of a tree. */
    static method ClearFreqs(tree: array<CtData>, n: nat)
      requires n <= tree.Length
      modifies tree
      ensures forall i :: 0 <= i < n ==> tree[i].freq == 0
    {
      for i := 0 to n
        invariant forall j :: 0 <= j < i ==> tree[j].freq == 0
      {
        tree[i] := tree[i].(freq := 0);
      }
    }

    /** Starts a new block: nothing tallied but the end of the block. */
    method InitBlock()
      requires Shape() && bw.Valid() && tb.Valid()
      modifies this, tb, dynLtree, dynDtree, blTree
      ensures Valid() && tokens == []
    {
      hide *;
      ShapeSizes();
      tb.ValidLengths();
      ClearFreqs(dynLtree, 286);
      ClearFreqs(dynDtree, 30);
      ClearFreqs(blTree, 19);
      dynLtree[256] := dynLtree[256].(freq := 1);
      tb.optLen := 0;
      tb.staticLen := 0;
      symNext := 0;
      matches := 0;
      tokens := [];
      FreqsStart(dynLtree[..], dynDtree[..], blTree[..]);
      NothingHeld(symBuf[..]);
      ZeroFits();
      tb.MakeValid();
      MakeValid();
    }

    /** Records a literal; true when the buffer is full. */
    method TallyLit(c: byte) returns (full: bool)
      requires Valid() && symNext < 49149
      modifies this`symNext, this`tokens, symBuf, dynLtree
      ensures Valid() && tokens == old(tokens) + [Literal(c)]
      ensures full == (symNext == 49149)
    {
      hide *;
      ValidParts();
      ShapeSizes();
      ghost var buf: seq<byte>, l: seq<CtData>, ts := symBuf[..], dynLtree[..], tokens;
      LiteralHolds(c);
      BufferMore(buf, ts, 0, 0, c, Literal(c));
      FreqsMore(l, dynDtree[..], blTree[..], ts, Literal(c));
      symBuf[symNext] := 0;
      symBuf[symNext + 1] := 0;
      symBuf[symNext + 2] := c;
      assert symBuf[..] == buf[symNext := 0][symNext + 1 := 0][symNext + 2 := c];
      symNext := symNext + 3;
      dynLtree[c] := dynLtree[c].(freq := dynLtree[c].freq + 1);
      assert dynLtree[..] == l[c := l[c].(freq := l[c].freq + 1)];
      tokens := tokens + [Literal(c)];
      MakeValid();
      full := symNext == 49149;
    }

    /** Records a match of lc + 3 bytes from dist back; true when the buffer is full. */
    method TallyDist(dist: nat, lc: nat) returns (full: bool)
      requires Valid() && symNext < 49149 && 1 <= dist <= 32768 && lc <= 255
      modifies this`symNext, this`matches, this`tokens, symBuf, dynLtree, dynDtree
      ensures Valid() && tokens == old(tokens) + [Match(dist, lc + 3)]
      ensures full == (symNext == 49149)
    {
      hide *;
      ValidParts();
      ShapeSizes();
      ghost var buf: seq<byte>, l: seq<CtData>, d: seq<CtData>, ts := symBuf[..], dynLtree[..], dynDtree[..], tokens;
      ghost var t := Match(dist, lc + 3);
      MatchHolds(dist, lc);
      BufferMore(buf, ts, Uint8(dist), Uint8(dist / 256), Uint8(lc), t);
      FreqsMore(l, d, blTree[..], ts, t);
      LengthTables(tables, t);
      DistTables(tables, t);
      symBuf[symNext] := Uint8(dist);
      symBuf[symNext + 1] := Uint8(dist / 256);
      symBuf[symNext + 2] := Uint8(lc);
      assert symBuf[..] == buf[symNext := Uint8(dist)][symNext + 1 := Uint8(dist / 256)][symNext + 2 := Uint8(lc)];
      symNext := symNext + 3;
      matches := matches + 1;
      var ls := tables.lengthCode[lc] as int + 257;
      var ds := tables.DCode(dist - 1);
      dynLtree[ls] := dynLtree[ls].(freq := dynLtree[ls].freq + 1);
      assert dynLtree[..] == l[ls := l[ls].(freq := l[ls].freq + 1)];
      dynDtree[ds] := dynDtree[ds].(freq := dynDtree[ds].freq + 1);
      assert dynDtree[..] == d[ds := d[ds].(freq := d[ds].freq + 1)];
      tokens := tokens + [t];
      MakeValid();
      full := symNext == 49149;
    }

    /** Sends the code of symbol c. */
    method SendCode(c: nat, tree: seq<CtData>, ghost lens: seq<nat>)
      requires bw.Valid() && CodesFor(tree, lens) && c < |lens| && lens[c] > 0
      modifies bw
      ensures bw.Valid() && bw.Stream() == old(bw.Stream()) + CodeWord(lens, c)
    {
      hide *;
      CodeAt(tree, lens, c);
      bw.SendBits(tree[c].code, tree[c].length);
    }

    /** Sends one token. */
    method SendToken(a: byte, b: byte, c: byte, ltree: seq<CtData>, dtree: seq<CtData>,
                     ghost ll: seq<nat>, ghost dl: seq<nat>, ghost t: Token)
      requires Shape() && bw.Valid() && CodesFor(ltree, ll) && CodesFor(dtree, dl)
      requires Holds(a, b, c, t) && Coded(ll, dl, t)
      modifies bw
      ensures bw.Valid() && t.Valid() && LSym(t) < |ll| && (t.Match? ==> DSym(t) < |dl|)
      ensures bw.Stream() == old(bw.Stream()) + EncodeToken(ll, dl, t)
    {
      hide *;
      ShapeTables();
      TokenParts(a, b, c, t, ll, dl, bw.Stream());
      var dist: nat := a as int + 256 * b as int;
      var lc: nat := c;
      if dist == 0 {
        SendCode(lc, ltree, ll);
        return;
      }
      LengthTables(tables, t);
      DistTables(tables, t);
      var code: nat := tables.lengthCode[lc];
      SendCode(code + 257, ltree, ll);
      var extra := EXTRA_LBITS[code];
      if extra != 0 {
        bw.SendBits(lc - tables.baseLength[code], extra);
      }
      dist := dist - 1;
      code := tables.DCode(dist);
      SendCode(code, dtree, dl);
      extra := EXTRA_DBITS[code];
      if extra != 0 {
        bw.SendBits(dist - tables.baseDist[code], extra);
      }
    }

    lemma ShapeTables()
      requires Shape()
      ensures tables.Valid() && symBuf.Length == 49152
    {
    }

    /** The symbol buffer holds the tokens. */
    ghost predicate Loaded()
      reads this, symBuf
    {
      Shape() && symNext == 3 * |tokens| <= symBuf.Length && BufferHolds(symBuf[..], tokens)
    }

    lemma MakeLoaded()
      requires Shape() && symNext == 3 * |tokens| <= 49149 && BufferHolds(symBuf[..], tokens)
      ensures Loaded()
    {
    }

    lemma LoadedParts()
      requires Loaded()
      ensures Shape() && symNext == 3 * |tokens| <= symBuf.Length && BufferHolds(symBuf[..], tokens)
      ensures tables.Valid()
    {
    }

    /** Sends every token collected, then the end of the block. */
    method CompressBlock(ltree: seq<CtData>, dtree: seq<CtData>, ghost ll: seq<nat>, ghost dl: seq<nat>)
      requires bw.Valid() && Loaded()
      requires CodesFor(ltree, ll) && CodesFor(dtree, dl) && AllCoded(ll, dl, tokens) && |ll| > 256 && ll[256] > 0
      modifies bw
      ensures bw.Valid() && bw.Stream() == old(bw.Stream()) + EncodeData(ll, dl, tokens)
    {
      hide *;
      LoadedParts();
      ghost var s0 := bw.Stream();
      var sx := 0;
      ghost var i := 0;
      EncodeNothing(ll, dl, tokens, s0);
      while sx < symNext
        invariant i <= |tokens| && sx == 3 * i && bw.Valid()
        invariant AllCoded(ll, dl, tokens[..i])
        invariant bw.Stream() == s0 + EncodeTokens(ll, dl, tokens[..i])
      {
        TokenAt(symBuf[..], tokens, i, ll, dl);
        SendToken(symBuf[sx], symBuf[sx + 1], symBuf[sx + 2], ltree, dtree, ll, dl, tokens[i]);
        EncodeNext(ll, dl, tokens, i, s0);
        sx := sx + 3;
        i := i + 1;
      }
      SendCode(256, ltree, ll);
      EncodeEnd(ll, dl, tokens, s0);
      assert tokens[..i] == tokens;
    }

    /** Counts the symbols one run will be sent with. */
    method TallyRun(prevlen: int, curlen: nat, count: nat, minCount: nat)
      requires blTree.Length == 39 && curlen < 16 && count > 0 && minCount == MinRun(prevlen, curlen)
      requires forall s :: 0 <= s < 19 ==> blTree[s].freq as int + count <= 65535
      modifies blTree
      ensures forall s :: 0 <= s < 19 ==>
        blTree[s] == old(blTree[s]).(freq := blTree[s].freq)
        && blTree[s].freq == old(blTree[s].freq) + RunUses(prevlen, curlen, count, s)
    {
      hide MinRun;
      if count < minCount {
        blTree[curlen] := blTree[curlen].(freq := blTree[curlen].freq + count);
      } else if curlen != 0 {
        if curlen != prevlen {
          blTree[curlen] := blTree[curlen].(freq := blTree[curlen].freq + 1);
        }
        blTree[16] := blTree[16].(freq := blTree[16].freq + 1);
      } else if count <= 10 {
        blTree[17] := blTree[17].(freq := blTree[17].freq + 1);
      } else {
        blTree[18] := blTree[18].(freq := blTree[18].freq + 1);
      }
    }

    /** Counts the symbols needed to send a tree's lengths, and puts a guard behind them. */
    method ScanTree(tree: array<CtData>, maxCode: nat)
      requires blTree.Length == 39 && tree != blTree && maxCode + 1 < tree.Length
      requires forall i :: 0 <= i <= maxCode ==> tree[i].length < 16
      requires forall s :: 0 <= s < 19 ==> blTree[s].freq as int + maxCode + 1 <= 65535
      modifies tree, blTree
      ensures tree[..] == old(tree[..])[maxCode + 1 := old(tree[maxCode + 1]).(length := 65535)]
      ensures forall s :: 0 <= s < 19 ==>
        blTree[s] == old(blTree[s]).(freq := blTree[s].freq)
        && blTree[s].freq
           == old(blTree[s].freq) + Count(Syms(Items(-1, Lens(old(tree[..]), maxCode + 1))), s)
    {
      hide *;
      ghost var lens := Lens(tree[..], maxCode + 1);
      var st := new ScanState(tree, lens);
      tree[maxCode + 1] := tree[maxCode + 1].(length := 65535);
      ghost var done: seq<Item> := [];
      ghost var all := Items(-1, lens);
      StartItems(lens);
      var n := 0;
      while n <= maxCode
        modifies st, blTree
        invariant n <= |lens| && st.AtPlace(lens, n) && st.count <= n
        invariant done + Items(st.prevlen, lens[n - st.count..]) == all && |done| <= n - st.count
        invariant forall s :: 0 <= s < 19 ==>
          blTree[s] == old(blTree[s]).(freq := blTree[s].freq)
          && blTree[s].freq == old(blTree[s].freq) + Count(Syms(done), s)
      {
        var ended := st.Advance(tree, n, lens);
        if ended {
          RunGrows(lens, done, st.prevlen, st.curlen, st.count, n + 1);
          forall s | 0 <= s < 19
            ensures Count(Syms(done + RunItems(st.prevlen, st.curlen, st.count)), s)
                 == Count(Syms(done), s) + RunUses(st.prevlen, st.curlen, st.count, s)
            ensures Count(Syms(done), s) <= |done|
          {
            CountRunMore(done, st.prevlen, st.curlen, st.count, s);
            CountBound(Syms(done), s);
          }
          TallyRun(st.prevlen, st.curlen, st.count, st.minCount);
          done := done + RunItems(st.prevlen, st.curlen, st.count);
          st.EndRun(n + 1, lens);
        }
        n := n + 1;
      }
      st.AtEnd(lens);
      EndItems(lens, done, st.prevlen);
    }

    /** Sends one run of equal lengths. */
    method SendRun(prevlen: int, curlen: nat, count0: nat, minCount: nat, ghost cl: seq<nat>)
      requires bw.Valid() && CodesFor(blTree[..], cl)
      requires curlen < 16 && 0 < count0 <= MaxRun(prevlen, curlen) && minCount == MinRun(prevlen, curlen)
      requires ItemsCoded(cl, RunItems(prevlen, curlen, count0))
      modifies bw
      ensures bw.Valid()
      ensures bw.Stream() == old(bw.Stream()) + EncodeItems(cl, RunItems(prevlen, curlen, count0))
    {
      hide *;
      ghost var s0 := bw.Stream();
      RunShape(prevlen, curlen, count0, minCount, cl, s0);
      var count := count0;
      Pow2Values();
      if count < minCount {
        var i := 0;
        while i < count
          invariant i <= count && bw.Valid()
          invariant ItemsCoded(cl, Singles(curlen, i)) && bw.Stream() == s0 + EncodeItems(cl, Singles(curlen, i))
        {
          SinglesNext(cl, curlen, i, count, s0);
          SendCode(curlen, blTree[..], cl);
          i := i + 1;
        }
      } else if curlen != 0 {
        if curlen != prevlen {
          SendCode(curlen, blTree[..], cl);
          count := count - 1;
        }
        SendCode(16, blTree[..], cl);
        bw.SendBits(count - 3, 2);
      } else if count <= 10 {
        SendCode(17, blTree[..], cl);
        bw.SendBits(count - 3, 3);
      } else {
        SendCode(18, blTree[..], cl);
        bw.SendBits(count - 11, 7);
      }
    }

    /** Sends a tree's lengths 0..maxCode, run-length coded; the guard is still behind them. */
    method SendTree(tree: array<CtData>, maxCode: nat, ghost cl: seq<nat>)
      requires bw.Valid() && CodesFor(blTree[..], cl) && maxCode + 1 < tree.Length
      requires tree[maxCode + 1].length == 65535 && forall i :: 0 <= i <= maxCode ==> tree[i].length < 16
      requires ItemsCoded(cl, Items(-1, Lens(tree[..], maxCode + 1)))
      modifies bw
      ensures bw.Valid()
      ensures bw.Stream() == old(bw.Stream()) + EncodeItems(cl, Items(-1, Lens(tree[..], maxCode + 1)))
    {
      hide *;
      ghost var lens := Lens(tree[..], maxCode + 1);
      ghost var s0 := bw.Stream();
      var st := new ScanState(tree, lens);
      ghost var done: seq<Item> := [];
      ghost var all := Items(-1, lens);
      StartItems(lens);
      NothingSent(cl, s0);
      var n := 0;
      while n <= maxCode
        modifies st, bw
        invariant n <= |lens| && st.AtPlace(lens, n) && st.count <= n && bw.Valid()
        invariant done + Items(st.prevlen, lens[n - st.count..]) == all && |done| <= n - st.count
        invariant ItemsCoded(cl, done) && bw.Stream() == s0 + EncodeItems(cl, done)
      {
        var ended := st.Advance(tree, n, lens);
        if ended {
          RunGrows(lens, done, st.prevlen, st.curlen, st.count, n + 1);
          RunSent(cl, lens, done, st.prevlen, st.curlen, st.count, n + 1, s0);
          SendRun(st.prevlen, st.curlen, st.count, st.minCount, cl);
          done := done + RunItems(st.prevlen, st.curlen, st.count);
          st.EndRun(n + 1, lens);
        }
        n := n + 1;
      }
      st.AtEnd(lens);
      EndItems(lens, done, st.prevlen);
    }

    /** Counts the symbols that both codes' lengths will be sent with. */
    method ScanTrees(ghost ll: seq<nat>, ghost dl: seq<nat>)
      requires Shape() && LensReady(dynLtree[..], lMaxCode, ll) && LensReady(dynDtree[..], dMaxCode, dl)
      requires |ll| <= 286 && |dl| <= 30 && forall s :: 0 <= s < 19 ==> blTree[s].freq == 0
      modifies dynLtree, dynDtree, blTree
      ensures Guarded(dynLtree[..], lMaxCode, ll) && Guarded(dynDtree[..], dMaxCode, dl)
      ensures Freqs(blTree[..], 19) == Hist(Syms(Items(-1, ll) + Items(-1, dl)), 19)
    {
      hide *;
      ShapeSizes();
      ReadyParts(dynLtree[..], lMaxCode, ll);
      ReadyParts(dynDtree[..], dMaxCode, dl);
      PutGuard(dynLtree[..], lMaxCode, ll);
      PutGuard(dynDtree[..], dMaxCode, dl);
      ItemsFew(ll, 286);
      ScanTree(dynLtree, lMaxCode);
      ScanTree(dynDtree, dMaxCode);
      ScannedFreqs(blTree[..], Items(-1, ll), Items(-1, dl));
    }

    /** Finds the last rank whose length must be sent. */
    method TrimRanks(ghost cl: seq<nat>) returns (last: nat)
      requires blTree.Length == 39 && cl == Lens(blTree[..], 19) && !Trimmed(cl, 3)
      ensures 3 <= last < 19 && Trimmed(cl, last + 1)
    {
      hide *;
      last := 18;
      NothingTrimmed(cl);
      while last >= 3
        invariant 2 <= last < 19 && Trimmed(cl, last + 1)
      {
        TrimMore(cl, last);
        if blTree[BL_ORDER[last]].length != 0 { break; }
        last := last - 1;
      }
    }

    /** Builds the code of the code lengths, and adds the header's size to the dynamic cost. */
    method BuildBlTree(ghost ll: seq<nat>, ghost dl: seq<nat>) returns (last: nat, ghost cl: seq<nat>)
      requires Shape() && tb.Valid() && LensReady(dynLtree[..], lMaxCode, ll) && LensReady(dynDtree[..], dMaxCode, dl)
      requires 257 <= |ll| <= 286 && ll[256] > 0 && |dl| <= 30 && forall s :: 0 <= s < 19 ==> blTree[s].freq == 0
      modifies tb, tb.heap, tb.depth, tb.blCount, dynLtree, dynDtree, blTree
      ensures tb.Valid() && Guarded(dynLtree[..], lMaxCode, ll) && Guarded(dynDtree[..], dMaxCode, dl)
      ensures last < 19 && CodesFor(blTree[..], cl) && cl == Lens(blTree[..], 19) && HeaderReady(ll, dl, cl, last + 1)
      ensures tb.optLen == Wrap64(old(tb.optLen) + |HeaderBits(ll, dl, cl, last + 1)|)
      ensures tb.staticLen == old(tb.staticLen)
    {
      hide *;
      ShapeSizes();
      BlParts(tables);
      ScanTrees(ll, dl);
      ghost var a: seq<Item>, b: seq<Item> := Items(-1, ll), Items(-1, dl);
      ghost var before: seq<CtData> := blTree[..];
      var desc := BlDesc();
      var maxCode;
      ghost var clamped;
      maxCode, clamped := tb.BuildTree(blTree, desc);
      ReadyItems(dynLtree[..], lMaxCode, ll, dynDtree[..], dMaxCode, dl);
      BlReady(before, blTree[..], maxCode, a, b);
      cl := Lens(blTree[..], 19);
      ghost var i := SomeSingle(ll, 256);
      EnoughRanks(cl, a, i);
      last := TrimRanks(cl);
      GuardsReady(dynLtree[..], lMaxCode, ll, dynDtree[..], dMaxCode, dl);
      MakeHeader(dynLtree[..], lMaxCode, ll, dynDtree[..], dMaxCode, dl, cl, last + 1);
      tb.ValidLengths();
      WrapAdd(old(tb.optLen) + |EncodeItems(cl, a) + EncodeItems(cl, b)|, 3 * (last + 1) + 5 + 5 + 4);
      tb.optLen := Wrap64(tb.optLen + (3 * (last + 1) + 5 + 5 + 4));
      tb.MakeValid();
    }

    /** Builds the two data codes; the running costs are what sending the data with each code takes. */
    method BuildDataTrees() returns (ghost ll: seq<nat>, ghost dl: seq<nat>)
      requires Valid()
      modifies this`lMaxCode, this`dMaxCode, tb, tb.heap, tb.depth, tb.blCount, dynLtree, dynDtree
      ensures tb.Valid() && LensReady(dynLtree[..], lMaxCode, ll) && LensReady(dynDtree[..], dMaxCode, dl)
      ensures 257 <= |ll| <= 286 && ll[256] > 0 && |dl| <= 30 && AllCoded(ll, dl, tokens)
      ensures |FixedL()| > 256 && AllCoded(FixedL(), SentD(), tokens)
      ensures tb.optLen == Wrap64(|EncodeData(ll, dl, tokens)|)
      ensures tb.staticLen == Wrap64(|EncodeData(FixedL(), SentD(), tokens)|)
    {
      hide *;
      ValidParts();
      ShapeSizes();
      DescsValid(tables);
      FixedSizes(tables);
      FreqsHist(dynLtree[..], dynDtree[..], blTree[..], tokens);
      AllStaticCoded(tokens);
      StaticOwed(tables, Freqs(dynLtree[..], 286), Freqs(dynDtree[..], 30), tokens);
      ghost var l0: seq<CtData>, d0: seq<CtData> := dynLtree[..], dynDtree[..];
      ghost var clamped;
      lMaxCode, clamped := tb.BuildTree(dynLtree, LDesc(tables));
      ghost var opt, stat := tb.optLen, tb.staticLen;
      assert dynDtree[..] == d0;
      dMaxCode, clamped := tb.BuildTree(dynDtree, DDesc(tables));
      DataReady(tables, tokens, l0, dynLtree[..], lMaxCode, d0, dynDtree[..], dMaxCode);
      ll, dl := Lens(dynLtree[..], lMaxCode + 1), Lens(dynDtree[..], dMaxCode + 1);
      WrapAdd(Sum(Owed(Freqs(l0, 286), Lens(dynLtree[..], 286), LDesc(tables))),
              Sum(Owed(Freqs(d0, 30), Lens(dynDtree[..], 30), DDesc(tables))));
      WrapAdd(Sum(Owed(Freqs(l0, 286), Lens(tables.staticLtree, 286), LDesc(tables))),
              Sum(Owed(Freqs(d0, 30), Lens(tables.staticDtree, 30), DDesc(tables))));
    }

    /** The block's three codes are built, and can send its header and its tokens. */
    ghost predicate CodesReady(ll: seq<nat>, dl: seq<nat>, cl: seq<nat>)
      reads this, dynLtree, dynDtree, blTree
    {
      && Guarded(dynLtree[..], lMaxCode, ll) && Guarded(dynDtree[..], dMaxCode, dl)
      && blTree.Length >= 19 && CodesFor(blTree[..], cl) && cl == Lens(blTree[..], 19)
      && maxBlindex < 19 && Sendable(ll, dl, cl, maxBlindex + 1, tokens)
    }

    lemma MakeCodesReady(ll: seq<nat>, dl: seq<nat>, cl: seq<nat>)
      requires Guarded(dynLtree[..], lMaxCode, ll) && Guarded(dynDtree[..], dMaxCode, dl)
      requires blTree.Length >= 19 && CodesFor(blTree[..], cl) && cl == Lens(blTree[..], 19)
      requires maxBlindex < 19 && Sendable(ll, dl, cl, maxBlindex + 1, tokens)
      ensures CodesReady(ll, dl, cl)
    {
    }

    lemma CodesParts(ll: seq<nat>, dl: seq<nat>, cl: seq<nat>)
      requires CodesReady(ll, dl, cl)
      ensures Guarded(dynLtree[..], lMaxCode, ll) && Guarded(dynDtree[..], dMaxCode, dl)
      ensures blTree.Length >= 19 && CodesFor(blTree[..], cl) && cl == Lens(blTree[..], 19)
      ensures maxBlindex < 19 && Sendable(ll, dl, cl, maxBlindex + 1, tokens)
    {
    }

    /** Builds the codes and returns the whole bytes that the cheaper of the two compressed
        forms and the static form would take. The running costs are the exact bit counts. */
    method BlockLengths()
      returns (optLenb: nat, staticLenb: nat, ghost ll: seq<nat>, ghost dl: seq<nat>, ghost cl: seq<nat>)
      requires Valid()
      modifies this`maxBlindex, this`lMaxCode, this`dMaxCode, tb, tb.heap, tb.depth, tb.blCount, dynLtree, dynDtree,
               blTree
      ensures tb.Valid() && CodesReady(ll, dl, cl)
      ensures ExactCosts(tb.optLen, tb.staticLen, ll, dl, cl, maxBlindex + 1, tokens)
      ensures staticLenb == BlockBytes(tb.staticLen)
      ensures optLenb == if staticLenb <= BlockBytes(tb.optLen) then staticLenb else BlockBytes(tb.optLen)
    {
      hide *;
      ValidParts();
      ShapeSizes();
      FreqsHist(dynLtree[..], dynDtree[..], blTree[..], tokens);
      ll, dl := BuildDataTrees();
      maxBlindex, cl := BuildBlTree(ll, dl);
      MakeSendable(ll, dl, cl, maxBlindex + 1, tokens);
      MakeCodesReady(ll, dl, cl);
      CostsSmall(ll, dl, cl, maxBlindex + 1, tokens, tables, tb.optLen, tb.staticLen);
      optLenb := BlockBytes(tb.optLen);
      staticLenb := BlockBytes(tb.staticLen);
      if staticLenb <= optLenb {
        optLenb := staticLenb;
      }
    }

    /** Sends the header of a dynamic block. */
    method SendAllTrees(lcodes: nat, dcodes: nat, blcodes: nat, ghost ll: seq<nat>, ghost dl: seq<nat>,
        ghost cl: seq<nat>)
      requires bw.Valid() && CodesReady(ll, dl, cl)
      requires lcodes == lMaxCode + 1 && dcodes == dMaxCode + 1 && blcodes == maxBlindex + 1
      modifies bw
      ensures bw.Valid() && HeaderReady(ll, dl, cl, blcodes)
      ensures bw.Stream() == old(bw.Stream()) + HeaderBits(ll, dl, cl, blcodes)
    {
      hide *;
      CodesParts(ll, dl, cl);
      SendableParts(ll, dl, cl, blcodes, tokens);
      HeaderPieces(ll, dl, cl, blcodes, bw.Stream());
      TreeParts(dynLtree[..], lMaxCode, ll, dynDtree[..], dMaxCode, dl);
      bw.SendBits(lcodes - 257, 5);
      bw.SendBits(dcodes - 1, 5);
      bw.SendBits(blcodes - 4, 4);
      SendRanks(blcodes, cl);
      SendTree(dynLtree, lcodes - 1, cl);
      SendTree(dynDtree, dcodes - 1, cl);
    }

    /** Sends the lengths of the code length code, in rank order. */
    method SendRanks(blcodes: nat, ghost cl: seq<nat>)
      requires bw.Valid() && blTree.Length >= 19 && cl == Lens(blTree[..], 19) && blcodes <= 19
      requires forall s :: 0 <= s < 19 ==> cl[s] < 8
      modifies bw
      ensures bw.Valid() && bw.Stream() == old(bw.Stream()) + ClBits(cl, 0, blcodes)
    {
      hide *;
      ghost var s0 := bw.Stream();
      Pow2Values();
      NoRanks(cl, s0);
      var rank := 0;
      while rank < blcodes
        invariant rank <= blcodes && bw.Valid() && bw.Stream() == s0 + ClBits(cl, 0, rank)
      {
        RankNext(cl, rank, s0);
        bw.SendBits(blTree[BL_ORDER[rank]].length, 3);
        rank := rank + 1;
      }
    }

    /** Writes the bytes as they are, with their number and its complement on a byte boundary. */
    method TrStoredBlock(buf: seq<byte>, last: bool) returns (ghost pad: nat)
      requires bw.Valid() && |buf| < 65536
      modifies bw
      ensures bw.Valid() && bw.biValid == 0 && pad < 8 && (|old(bw.Stream())| + 3 + pad) % 8 == 0
      ensures bw.Stream() == old(bw.Stream()) + (Lsb(Kind(0, last), 3) + StoredBody(pad, buf))
    {
      hide *;
      ghost var s0 := bw.Stream();
      KindFits(0, last);
      bw.SendBits(Kind(0, last), 3);
      pad := (8 - bw.biValid % 8) % 8;
      PadBits(bw, s0, pad, Lsb(Kind(0, last), 3));
      bw.BiWindup();
      ghost var s1 := bw.Stream();
      AtBoundary(bw);
      Uint16Exact(|buf|);
      var length := Uint16(|buf|);
      bw.PutShort(length);
      bw.PutShort(65535 - length);
      BytesBitsConcat(bw.out, buf);
      bw.out := bw.out + buf;
      StoredStream(s0, Lsb(Kind(0, last), 3), pad, buf, s1);
      BackAtBoundary(bw);
    }

    /** Sends the block with the fixed codes. */
    method SendStatic(last: bool, ghost out: seq<byte>, ghost out2: seq<byte>) returns (ghost block: bits)
      requires bw.Valid() && Loaded()
      requires AllCoded(FixedL(), SentD(), tokens) && Expand(out, tokens) == Some(out2)
      modifies bw
      ensures bw.Valid() && bw.Stream() == old(bw.Stream()) + block && |block| == 3 + StaticSize(tokens)
      ensures BlockMeans(block, |old(bw.Stream())|, last, out, out2)
    {
      hide *;
      ghost var s0 := bw.Stream();
      LoadedParts();
      FixedSizes(tables);
      KindFits(1, last);
      EndCoded();
      bw.SendBits(Kind(1, last), 3);
      CompressBlock(tables.staticLtree, tables.staticDtree, FixedL(), SentD());
      StaticMeans(tokens, last, |s0|, out);
      block := Lsb(Kind(1, last), 3) + EncodeData(FixedL(), SentD(), tokens);
      StaticIs(tokens);
      ConcatAssoc(s0, Lsb(Kind(1, last), 3), EncodeData(FixedL(), SentD(), tokens));
    }

    /** Sends the block with its own codes, after a header that describes them. */
    method SendDynamic(last: bool, ghost out: seq<byte>, ghost out2: seq<byte>,
                       ghost ll: seq<nat>, ghost dl: seq<nat>, ghost cl: seq<nat>)
      returns (ghost block: bits)
      requires bw.Valid() && Loaded()
      requires CodesReady(ll, dl, cl) && Expand(out, tokens) == Some(out2)
      modifies bw
      ensures bw.Valid() && bw.Stream() == old(bw.Stream()) + block
      ensures DynamicBits(|block| - 3, ll, dl, cl, maxBlindex + 1, tokens)
      ensures BlockMeans(block, |old(bw.Stream())|, last, out, out2)
    {
      hide *;
      ghost var s0, n := bw.Stream(), maxBlindex + 1;
      CodesParts(ll, dl, cl);
      SendableParts(ll, dl, cl, n, tokens);
      DataCodes(dynLtree[..], lMaxCode, ll, dynDtree[..], dMaxCode, dl);
      KindFits(2, last);
      bw.SendBits(Kind(2, last), 3);
      SendAllTrees(lMaxCode + 1, dMaxCode + 1, maxBlindex + 1, ll, dl, cl);
      CompressBlock(dynLtree[..], dynDtree[..], ll, dl);
      DynamicMeans(ll, dl, cl, n, tokens, last, |s0|, out);
      DynamicIs(ll, dl, cl, n, tokens);
      ghost var k, h, d := Lsb(Kind(2, last), 3), HeaderBits(ll, dl, cl, n), EncodeData(ll, dl, tokens);
      block := k + (h + d);
      ConcatAssoc(s0, k, h + d);
      ConcatAssoc(s0 + k, h, d);
    }

    /** Writes the block in the form that takes the fewest whole bytes, raw only if its bytes are
        still at hand, and starts the next block. The last block is padded to a whole byte. */
    method TrFlushBlock(buf: seq<byte>, bufValid: bool, storedLen: nat, last: bool, ghost out: seq<byte>,
        ghost out2: seq<byte>)
      returns (ghost block: bits, ghost pad: nat, ghost choice: Choice)
      requires Valid() && Expand(out, tokens) == Some(out2)
      requires bufValid ==> |buf| == storedLen < 65536 && out2 == out + buf
      modifies this, bw, tb, tb.heap, tb.depth, tb.blCount, dynLtree, dynDtree, blTree
      ensures Valid() && tokens == []
      ensures BlockMeans(block, |old(bw.Stream())|, last, out, out2)
      ensures bw.Stream() == (old(bw.Stream()) + block) + Zeros(pad)
      ensures if last then pad < 8 && bw.biValid == 0 else pad == 0
      ensures choice.Exact(old(tokens)) && choice.Sized(block, bufValid, storedLen)
    {
      hide *;
      ValidParts();
      ghost var s0 := bw.Stream();
      var optLenb, staticLenb;
      ghost var ll, dl, cl;
      optLenb, staticLenb, ll, dl, cl := BlockLengths();
      CodesParts(ll, dl, cl);
      MakeLoaded();
      SendableParts(ll, dl, cl, maxBlindex + 1, tokens);
      ghost var ts, opt, stat, n := tokens, tb.optLen, tb.staticLen, maxBlindex + 1;
      ghost var kind := 0;
      if storedLen + 4 <= optLenb && bufValid {
        pad := TrStoredBlock(buf, last);
        StoredMeans(pad, buf, last, |s0|, out);
        block := Lsb(Kind(0, last), 3) + StoredBody(pad, buf);
        StoredSize(pad, buf, last);
      } else if staticLenb == optLenb {
        block := SendStatic(last, out, out2);
        kind := 1;
      } else {
        block := SendDynamic(last, out, out2, ll, dl, cl);
        kind := 2;
      }
      choice := Choose(kind, opt, stat, ll, dl, cl, n, ts, block, bufValid, storedLen);
      InitBlock();
      if last {
        ValidParts();
        pad := (8 - bw.biValid % 8) % 8;
        bw.BiWindup();
        MakeValid();
      } else {
        pad := 0;
        NoZeros(s0 + block);
      }
    }
  }

  lemma NothingHeld(buf: seq<byte>)
    ensures BufferHolds(buf, [])
  {
  }

  lemma ZeroFits()
    ensures 0 < TWO64
  {
  }

  lemma LiteralHolds(c: byte)
    ensures Literal(c).Valid() && Holds(0, 0, c, Literal(c)) && LSym(Literal(c)) == c
  {
  }

  lemma MatchHolds(dist: nat, lc: nat)
    requires 1 <= dist <= 32768 && lc <= 255
    ensures var t := Match(dist, lc + 3);
      && t.Valid() && Holds(Uint8(dist), Uint8(dist / 256), Uint8(lc), t)
      && LSym(t) == 257 + LengthCode(t.len) && DSym(t) == DistCode(t.dist)
  {
    hide LastBase;
  }

  lemma StartItems(lens: seq<nat>)
    ensures [] + Items(-1, lens[0 - 0..]) == Items(-1, lens) && forall s :: Count(Syms([]), s) == 0
  {
    assert lens[0..] == lens;
  }

  /** The run just cut off extends what is done, and stays within the number of lengths. */
  lemma RunGrows(lens: seq<nat>, done: seq<Item>, prev: int, v: nat, c: nat, next: nat)
    requires c <= next <= |lens| && forall i :: 0 <= i < |lens| ==> lens[i] < 16
    requires done + Items(prev, lens[next - c..]) == Items(-1, lens)
    requires Items(prev, lens[next - c..]) == RunItems(prev, v, c) + Items(v, lens[next..])
    requires 0 < c <= MaxRun(prev, v) && v < 16 && |done| <= next - c
    ensures (done + RunItems(prev, v, c)) + Items(v, lens[next..]) == Items(-1, lens)
    ensures |done + RunItems(prev, v, c)| <= next
  {
    hide Items, RunItems, MaxRun;
    RunValid(prev, v, c);
    ConcatAssoc(done, RunItems(prev, v, c), Items(v, lens[next..]));
  }

  lemma EndItems(lens: seq<nat>, done: seq<Item>, prev: int)
    requires done + Items(prev, lens[|lens|..]) == Items(-1, lens)
    ensures done == Items(-1, lens)
  {
  }

  lemma NothingSent(cl: seq<nat>, s: bits)
    ensures ItemsCoded(cl, []) && s + EncodeItems(cl, []) == s
  {
  }

  /** Sending the run just cut off extends what is sent. */
  lemma RunSent(cl: seq<nat>, lens: seq<nat>, done: seq<Item>, prev: int, v: nat, c: nat, next: nat, s: bits)
    requires ItemsCoded(cl, Items(-1, lens)) && ItemsCoded(cl, done) && next <= |lens|
    requires (done + RunItems(prev, v, c)) + Items(v, lens[next..]) == Items(-1, lens)
    ensures ItemsCoded(cl, RunItems(prev, v, c)) && ItemsCoded(cl, done + RunItems(prev, v, c))
    ensures (s + EncodeItems(cl, done)) + EncodeItems(cl, RunItems(prev, v, c))
         == s + EncodeItems(cl, done + RunItems(prev, v, c))
  {
    hide Items, RunItems, EncodeItems, ItemCoded;
    var all, run := Items(-1, lens), RunItems(prev, v, c);
    assert forall i :: 0 <= i < |run| ==> run[i] == all[|done| + i];
    EncodeConcat(cl, done, run);
    ConcatAssoc(s, EncodeItems(cl, done), EncodeItems(cl, run));
  }

  /** What a run's items are, and the bits they are sent as. */
  lemma RunShape(prev: int, v: nat, n: nat, min: nat, cl: seq<nat>, s: bits)
    requires 0 < n <= MaxRun(prev, v) && min == MinRun(prev, v) && v < 16 && ItemsCoded(cl, RunItems(prev, v, n))
    ensures n < min ==>
      && v < |cl| && cl[v] > 0 && RunItems(prev, v, n) == Singles(v, n)
      && ItemsCoded(cl, Singles(v, 0)) && s + EncodeItems(cl, Singles(v, 0)) == s
    ensures n >= min && v != 0 && v != prev ==>
      && v < |cl| && cl[v] > 0 && 16 < |cl| && cl[16] > 0 && 4 <= n <= 7
      && s + EncodeItems(cl, RunItems(prev, v, n)) == ((s + CodeWord(cl, v)) + CodeWord(cl, 16)) + Lsb(n - 4, 2)
    ensures n >= min && v != 0 && v == prev ==>
      && 16 < |cl| && cl[16] > 0 && 3 <= n <= 6
      && s + EncodeItems(cl, RunItems(prev, v, n)) == (s + CodeWord(cl, 16)) + Lsb(n - 3, 2)
    ensures n >= min && v == 0 && n <= 10 ==>
      && 17 < |cl| && cl[17] > 0 && 3 <= n
      && s + EncodeItems(cl, RunItems(prev, v, n)) == (s + CodeWord(cl, 17)) + Lsb(n - 3, 3)
    ensures n >= min && v == 0 && n > 10 ==>
      && 18 < |cl| && cl[18] > 0 && n <= 138
      && s + EncodeItems(cl, RunItems(prev, v, n)) == (s + CodeWord(cl, 18)) + Lsb(n - 11, 7)
  {
    hide EncodeItems, CodeWord, Lsb, Singles;
    var items := RunItems(prev, v, n);
    if n < min {
      FirstSingle(v, n, cl);
      NoSingles(v, cl, s);
    } else if v != 0 && v != prev {
      assert ItemCoded(cl, items[0]) && ItemCoded(cl, items[1]);
      EncodeTwo(cl, Single(v), Copy(n - 1), s);
    } else {
      assert ItemCoded(cl, items[0]);
      EncodeOne(cl, items[0], s);
    }
  }

  lemma FirstSingle(v: nat, n: nat, cl: seq<nat>)
    requires 0 < n && ItemsCoded(cl, Singles(v, n))
    ensures v < |cl| && cl[v] > 0
  {
    SinglesOnly(v, n);
    assert ItemCoded(cl, Singles(v, n)[0]);
  }

  lemma NoSingles(v: nat, cl: seq<nat>, s: bits)
    ensures ItemsCoded(cl, Singles(v, 0)) && s + EncodeItems(cl, Singles(v, 0)) == s
  {
  }

  lemma EncodeOne(cl: seq<nat>, it: Item, s: bits)
    requires ItemCoded(cl, it)
    ensures it.Valid() && it.Sym() < |cl| && ItemsCoded(cl, [it])
    ensures s + EncodeItems(cl, [it]) == (s + CodeWord(cl, it.Sym())) + Lsb(it.ExtraValue(), it.ExtraBits())
  {
    hide CodeWord, Lsb;
    assert [it][..0] == [];
    var w, x := CodeWord(cl, it.Sym()), Lsb(it.ExtraValue(), it.ExtraBits());
    assert EncodeItems(cl, [it]) == [] + (w + x) == w + x;
    ConcatAssoc(s, w, x);
  }

  lemma EncodeTwo(cl: seq<nat>, a: Item, b: Item, s: bits)
    requires ItemCoded(cl, a) && ItemCoded(cl, b) && a.Single?
    ensures a.Valid() && a.Sym() < |cl| && b.Valid() && b.Sym() < |cl| && ItemsCoded(cl, [a, b])
    ensures s + EncodeItems(cl, [a, b])
         == ((s + CodeWord(cl, a.Sym())) + CodeWord(cl, b.Sym())) + Lsb(b.ExtraValue(), b.ExtraBits())
  {
    hide EncodeItems, CodeWord, Lsb, ItemCoded;
    EncodeOne(cl, a, s);
    EncodeOne(cl, b, s + EncodeItems(cl, [a]));
    EncodeConcat(cl, [a], [b]);
    ConcatAssoc(s, EncodeItems(cl, [a]), EncodeItems(cl, [b]));
    assert [a] + [b] == [a, b];
    NoBitsAtEnd();
    assert (s + CodeWord(cl, a.Sym())) + Lsb(a.ExtraValue(), 0) == s + CodeWord(cl, a.Sym());
  }

  lemma SinglesNext(cl: seq<nat>, v: nat, i: nat, n: nat, s: bits)
    requires i < n && v < 16 && v < |cl| && cl[v] > 0 && ItemsCoded(cl, Singles(v, i))
    ensures ItemsCoded(cl, Singles(v, i + 1))
    ensures (s + EncodeItems(cl, Singles(v, i))) + CodeWord(cl, v) == s + EncodeItems(cl, Singles(v, i + 1))
  {
    hide EncodeItems, CodeWord, Lsb;
    var done := Singles(v, i);
    assert Singles(v, i + 1) == done + [Single(v)];
    EncodeItemMore(cl, done, Single(v));
    NoBitsAtEnd();
    assert EncodeItem(cl, Single(v)) == CodeWord(cl, v);
    ConcatAssoc(s, EncodeItems(cl, done), CodeWord(cl, v));
  }

  lemma CodeAt(tree: seq<CtData>, lens: seq<nat>, c: nat)
    requires CodesFor(tree, lens) && c < |lens| && lens[c] > 0
    ensures c < |tree| && tree[c].length == lens[c] <= 15 && tree[c].code < Pow2(lens[c])
    ensures Lsb(tree[c].code, lens[c]) == CodeWord(lens, c)
  {
  }

  /** How a token's bits follow one another in the stream. */
  lemma TokenParts(a: byte, b: byte, c: byte, t: Token, ll: seq<nat>, dl: seq<nat>, s: bits)
    requires Holds(a, b, c, t) && Coded(ll, dl, t)
    ensures t.Valid() && LSym(t) < |ll| && ll[LSym(t)] > 0
    ensures a as int + 256 * b as int == 0 <==> t.Literal?
    ensures t.Literal? ==> c == t.b && LSym(t) == c && EncodeToken(ll, dl, t) == CodeWord(ll, c)
    ensures t.Match? ==>
      && a as int + 256 * b as int == t.dist && c as int + 3 == t.len
      && LSym(t) == 257 + LengthCode(t.len) && DSym(t) == DistCode(t.dist) < |dl| && dl[DSym(t)] > 0
      && |LENGTH_EXTRA| == 29 && |DIST_EXTRA| == 30 && |LENGTH_BASE| == 29 && |DIST_BASE| == 30
      && s + EncodeToken(ll, dl, t)
         == (((s + CodeWord(ll, LSym(t)))
              + Lsb(t.len - LENGTH_BASE[LengthCode(t.len)], LENGTH_EXTRA[LengthCode(t.len)]))
             + CodeWord(dl, DSym(t)))
            + Lsb(t.dist - DIST_BASE[DistCode(t.dist)], DIST_EXTRA[DistCode(t.dist)])
    ensures forall u: bits, v: nat :: u + Lsb(v, 0) == u
  {
    hide *;
    TokenShape(a, b, c, t, ll, dl);
    NoBitsAtEnd();
    if t.Match? {
      ExtrasSmall();
      LengthsSpaced();
      DistancesSpaced();
      var w, x := CodeWord(ll, LSym(t)), Lsb(t.len - LENGTH_BASE[LengthCode(t.len)], LENGTH_EXTRA[LengthCode(t.len)]);
      var y, z := CodeWord(dl, DSym(t)), Lsb(t.dist - DIST_BASE[DistCode(t.dist)], DIST_EXTRA[DistCode(t.dist)]);
      MatchShape(t, ll, dl);
      ConcatFour(s, w, x, y, z);
    }
  }

  lemma NoBitsAtEnd()
    ensures forall u: bits, v: nat :: u + Lsb(v, 0) == u
  {
  }

  lemma TokenShape(a: byte, b: byte, c: byte, t: Token, ll: seq<nat>, dl: seq<nat>)
    requires Holds(a, b, c, t) && Coded(ll, dl, t)
    ensures t.Valid() && LSym(t) < |ll| && ll[LSym(t)] > 0
    ensures a as int + 256 * b as int == 0 <==> t.Literal?
    ensures t.Literal? ==> c == t.b && LSym(t) == c && EncodeToken(ll, dl, t) == CodeWord(ll, c)
    ensures t.Match? ==>
      && a as int + 256 * b as int == t.dist && c as int + 3 == t.len && t.dist >= 1
      && LSym(t) == 257 + LengthCode(t.len) && DSym(t) == DistCode(t.dist) < |dl| && dl[DSym(t)] > 0
  {
    hide CodeWord, LastBase, LENGTH_BASE, DIST_BASE, MatchTail;
  }

  lemma MatchShape(t: Token, ll: seq<nat>, dl: seq<nat>)
    requires Coded(ll, dl, t) && t.Match?
    requires |LENGTH_EXTRA| == 29 && |DIST_EXTRA| == 30 && |LENGTH_BASE| == 29 && |DIST_BASE| == 30
    ensures t.Valid() && t.len >= 3 && t.dist >= 1
    ensures LSym(t) < |ll| && DSym(t) < |dl|
    ensures LENGTH_BASE[LengthCode(t.len)] <= t.len && DIST_BASE[DistCode(t.dist)] <= t.dist
    ensures EncodeToken(ll, dl, t)
      == CodeWord(ll, LSym(t)) + (Lsb(t.len - LENGTH_BASE[LengthCode(t.len)], LENGTH_EXTRA[LengthCode(t.len)])
        + (CodeWord(dl, DSym(t)) + Lsb(t.dist - DIST_BASE[DistCode(t.dist)], DIST_EXTRA[DistCode(t.dist)])))
  {
    hide CodeWord, LastBase, LENGTH_BASE, DIST_BASE, LENGTH_EXTRA, DIST_EXTRA, Lsb;
  }

  lemma ConcatFour<T>(s: seq<T>, w: seq<T>, x: seq<T>, y: seq<T>, z: seq<T>)
    ensures s + (w + (x + (y + z))) == (((s + w) + x) + y) + z
  {
    ConcatAssoc(s, w, x + (y + z));
    ConcatAssoc(s + w, x, y + z);
    ConcatAssoc((s + w) + x, y, z);
  }

  lemma EncodeNothing(ll: seq<nat>, dl: seq<nat>, ts: seq<Token>, s: bits)
    ensures AllCoded(ll, dl, ts[..0]) && s + EncodeTokens(ll, dl, ts[..0]) == s
  {
  }

  lemma TokenAt(buf: seq<byte>, ts: seq<Token>, i: nat, ll: seq<nat>, dl: seq<nat>)
    requires BufferHolds(buf, ts) && i < |ts| && AllCoded(ll, dl, ts)
    ensures 3 * i + 2 < |buf| && Holds(buf[3 * i], buf[3 * i + 1], buf[3 * i + 2], ts[i]) && Coded(ll, dl, ts[i])
  {
  }

  lemma EncodeNext(ll: seq<nat>, dl: seq<nat>, ts: seq<Token>, i: nat, s: bits)
    requires i < |ts| && AllCoded(ll, dl, ts)
    ensures AllCoded(ll, dl, ts[..i]) && AllCoded(ll, dl, ts[..i + 1]) && Coded(ll, dl, ts[i])
    ensures ts[i].Valid() && LSym(ts[i]) < |ll| && (ts[i].Match? ==> DSym(ts[i]) < |dl|)
    ensures (s + EncodeTokens(ll, dl, ts[..i])) + EncodeToken(ll, dl, ts[i]) == s + EncodeTokens(ll, dl, ts[..i + 1])
  {
    hide EncodeTokens, EncodeToken;
    assert ts[..i] + [ts[i]] == ts[..i + 1];
    EncodeMore(ll, dl, ts[..i], ts[i]);
    ConcatAssoc(s, EncodeTokens(ll, dl, ts[..i]), EncodeToken(ll, dl, ts[i]));
  }

  lemma EncodeEnd(ll: seq<nat>, dl: seq<nat>, ts: seq<Token>, s: bits)
    requires AllCoded(ll, dl, ts) && |ll| > 256
    ensures (s + EncodeTokens(ll, dl, ts)) + CodeWord(ll, 256) == s + EncodeData(ll, dl, ts)
  {
    hide EncodeTokens, CodeWord;
    ConcatAssoc(s, EncodeTokens(ll, dl, ts), CodeWord(ll, 256));
  }

  lemma EndCoded()
    ensures |FixedL()| > 256 && FixedL()[256] > 0
  {
  }

  lemma StaticIs(ts: seq<Token>)
    requires AllCoded(FixedL(), SentD(), ts) && |FixedL()| > 256
    ensures StaticSize(ts) == |EncodeData(FixedL(), SentD(), ts)|
  {
    hide EncodeData, AllCoded;
  }

  lemma DynamicIs(ll: seq<nat>, dl: seq<nat>, cl: seq<nat>, n: nat, ts: seq<Token>)
    requires Sendable(ll, dl, cl, n, ts) && HeaderReady(ll, dl, cl, n) && AllCoded(ll, dl, ts) && |ll| > 256
    ensures DynamicBits(|HeaderBits(ll, dl, cl, n)| + |EncodeData(ll, dl, ts)|, ll, dl, cl, n, ts)
  {
    hide EncodeData, AllCoded, HeaderBits, HeaderReady;
  }

  lemma DataCodes(l: seq<CtData>, lMax: nat, ll: seq<nat>, d: seq<CtData>, dMax: nat, dl: seq<nat>)
    requires Guarded(l, lMax, ll) && Guarded(d, dMax, dl)
    ensures CodesFor(l, ll) && CodesFor(d, dl)
  {
    hide *;
    GuardParts(l, lMax, ll);
    GuardParts(d, dMax, dl);
    ReadyParts(l, lMax, ll);
    ReadyParts(d, dMax, dl);
  }

  lemma StoredSize(pad: nat, data: seq<byte>, last: bool)
    requires pad < 8 && |data| < 65536
    ensures |Lsb(Kind(0, last), 3) + StoredBody(pad, data)| <= 3 + 7 + 32 + 8 * |data|
  {
    hide Lsb, Zeros, BytesBits;
  }

  lemma NoZeros(s: bits)
    ensures s + Zeros(0) == s
  {
  }

  /** The running costs are exact although they were kept modulo two to the sixty-four. */
  lemma CostsSmall(ll: seq<nat>, dl: seq<nat>, cl: seq<nat>, n: nat, ts: seq<Token>, t: CodeTables, opt: nat, stat: nat)
    requires Sendable(ll, dl, cl, n, ts) && |ts| <= 16383 && t.Valid()
    requires HeaderReady(ll, dl, cl, n) && AllCoded(ll, dl, ts) && |ll| > 256
    requires AllCoded(FixedL(), SentD(), ts) && |FixedL()| > 256
    requires opt == Wrap64(Wrap64(|EncodeData(ll, dl, ts)|) + |HeaderBits(ll, dl, cl, n)|)
    requires stat == Wrap64(|EncodeData(FixedL(), SentD(), ts)|)
    ensures ExactCosts(opt, stat, ll, dl, cl, n, ts)
  {
    hide *;
    HeaderFacts(ll, dl, cl, n, []);
    DecodableSmall(ll);
    DecodableSmall(dl);
    FixedSizes(t);
    DataSmall(ll, dl, ts, t);
    DataSmall(FixedL(), SentD(), ts, t);
    HeaderSmall(ll, dl, cl, n, t);
    WrapAdd(|EncodeData(ll, dl, ts)|, |HeaderBits(ll, dl, cl, n)|);
    FarBelow(|EncodeData(ll, dl, ts)| + |HeaderBits(ll, dl, cl, n)|);
    FarBelow(|EncodeData(FixedL(), SentD(), ts)|);
    MakeExact(opt, stat, ll, dl, cl, n, ts);
  }

  lemma FarBelow(n: nat)
    requires n <= 2_000_000
    ensures Wrap64(n) == n
  {
    WrapExact(n);
  }

  lemma HeaderPieces(ll: seq<nat>, dl: seq<nat>, cl: seq<nat>, n: nat, s: bits)
    requires HeaderReady(ll, dl, cl, n)
    ensures 257 <= |ll| <= 288 && 1 <= |dl| <= 32 && 4 <= n <= 19 && |cl| == 19
    ensures forall s :: 0 <= s < 19 ==> cl[s] < 8
    ensures ItemsCoded(cl, Items(-1, ll)) && ItemsCoded(cl, Items(-1, dl))
    ensures |ll| - 257 < Pow2(5) && |dl| - 1 < Pow2(5) && n - 4 < Pow2(4)
    ensures s + HeaderBits(ll, dl, cl, n)
         == (((((s + Lsb(|ll| - 257, 5)) + Lsb(|dl| - 1, 5)) + Lsb(n - 4, 4)) + ClBits(cl, 0, n))
             + EncodeItems(cl, Items(-1, ll))) + EncodeItems(cl, Items(-1, dl))
  {
    hide *;
    Pow2Values();
    HeaderFacts(ll, dl, cl, n, []);
    HeaderIs(ll, dl, cl, n);
    var a, b, c, d := Lsb(|ll| - 257, 5), Lsb(|dl| - 1, 5), Lsb(n - 4, 4), ClBits(cl, 0, n);
    ConcatSix(s, a, b, c, d, EncodeItems(cl, Items(-1, ll)), EncodeItems(cl, Items(-1, dl)));
  }

  lemma HeaderIs(ll: seq<nat>, dl: seq<nat>, cl: seq<nat>, n: nat)
    requires HeaderReady(ll, dl, cl, n)
    ensures 257 <= |ll| && 1 <= |dl| && 4 <= n <= 19 && |cl| == 19
    ensures ItemsCoded(cl, Items(-1, ll)) && ItemsCoded(cl, Items(-1, dl))
    ensures HeaderBits(ll, dl, cl, n)
         == Lsb(|ll| - 257, 5) + (Lsb(|dl| - 1, 5) + (Lsb(n - 4, 4) + (ClBits(cl, 0, n)
            + (EncodeItems(cl, Items(-1, ll)) + EncodeItems(cl, Items(-1, dl))))))
  {
    hide CodeWord, EncodeItems, ItemsCoded, Items, Lsb, CL_ORDER, ClBits, Decodable;
  }

  lemma ConcatSix<T>(s: seq<T>, a: seq<T>, b: seq<T>, c: seq<T>, d: seq<T>, e: seq<T>, f: seq<T>)
    ensures s + (a + (b + (c + (d + (e + f))))) == (((((s + a) + b) + c) + d) + e) + f
  {
    ConcatFour(s, a, b, c, d + (e + f));
    ConcatAssoc(((s + a) + b) + c, d, e + f);
    ConcatAssoc((((s + a) + b) + c) + d, e, f);
  }

  lemma TreeParts(l: seq<CtData>, lMax: nat, ll: seq<nat>, d: seq<CtData>, dMax: nat, dl: seq<nat>)
    requires Guarded(l, lMax, ll) && Guarded(d, dMax, dl)
    ensures lMax + 1 < |l| && ll == Lens(l, lMax + 1) && |ll| == lMax + 1 && l[lMax + 1].length == 65535
    ensures dMax + 1 < |d| && dl == Lens(d, dMax + 1) && |dl| == dMax + 1 && d[dMax + 1].length == 65535
    ensures forall i :: 0 <= i <= lMax ==> l[i].length < 16
    ensures forall i :: 0 <= i <= dMax ==> d[i].length < 16
  {
    hide *;
    GuardParts(l, lMax, ll);
    GuardParts(d, dMax, dl);
    ReadyParts(l, lMax, ll);
    ReadyParts(d, dMax, dl);
  }

  lemma NoRanks(cl: seq<nat>, s: bits)
    requires |cl| == 19
    ensures s + ClBits(cl, 0, 0) == s
  {
  }

  lemma RankNext(cl: seq<nat>, rank: nat, s: bits)
    requires |cl| == 19 && rank < 19
    ensures |BL_ORDER| == 19 && BL_ORDER[rank] < 19
    ensures (s + ClBits(cl, 0, rank)) + Lsb(cl[BL_ORDER[rank]], 3) == s + ClBits(cl, 0, rank + 1)
  {
    hide Lsb, ClBits;
    SameOrder();
    OrderAt(rank);
    ClBitsMore(cl, 0, rank);
    ConcatAssoc(s, ClBits(cl, 0, rank), Lsb(cl[BL_ORDER[rank]], 3));
  }

  lemma SameOrder()
    ensures BL_ORDER == CL_ORDER && |BL_ORDER| == 19
  {
  }

  lemma KindFits(kind: nat, last: bool)
    requires kind < 3
    ensures Kind(kind, last) < Pow2(3)
  {
    Pow2Values();
  }

  /** The padding brings the stream to a whole number of bytes. */
  lemma PadBits(bw: BitWriter, s0: bits, pad: nat, h: bits)
    requires |h| == 3 && bw.Stream() == s0 + h && pad == (8 - bw.biValid % 8) % 8
    ensures pad < 8 && (|s0| + 3 + pad) % 8 == 0
  {
    hide BytesBits, Lsb;
  }

  lemma AtBoundary(bw: BitWriter)
    requires bw.Valid() && bw.biValid == 0
    ensures bw.Stream() == BytesBits(bw.out) && bw.biBuf < Pow2(0)
  {
  }

  lemma BackAtBoundary(bw: BitWriter)
    requires bw.biValid == 0 && bw.biBuf < Pow2(0)
    ensures bw.Valid() && bw.Stream() == BytesBits(bw.out)
  {
  }

  lemma StoredStream(s0: bits, h: bits, pad: nat, data: seq<byte>, s1: bits)
    requires |data| < 65536 && s1 == (s0 + h) + Zeros(pad)
    ensures ((s1 + Lsb(|data|, 16)) + Lsb(65535 - |data|, 16)) + BytesBits(data) == s0 + (h + StoredBody(pad, data))
  {
    hide Zeros, Lsb, BytesBits;
    ConcatFour(s0 + h, Zeros(pad), Lsb(|data|, 16), Lsb(65535 - |data|, 16), BytesBits(data));
    ConcatAssoc(s0, h, StoredBody(pad, data));
  }
}
