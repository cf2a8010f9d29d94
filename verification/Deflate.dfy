/** Deflating a whole input, and the zlib stream around it. */
module Deflating {
  import opened Bits
  import opened BitOutput
  import opened Inflate
  import opened InflateLemmas
  import opened Tokens
  import opened HashChains
  import opened GreedyParse
  import opened Matching
  import opened BlockLemmas
  import opened FlushLemmas
  import opened BlockBits
  import opened TreeBuilding
  import opened BlockEncoding

  // -- what tokens stand for ---------------------------------------------------------------------

  /** Given the input up to `from`, the tokens stand for its bytes up to `to`; matches are valid and
      never reach back further than the search does. */
  ghost predicate Covers(src: seq<byte>, from: nat, ts: seq<Token>, to: nat)
  {
    && from <= |src| && to <= |src| && Expand(src[..from], ts) == Some(src[..to])
    && forall i :: 0 <= i < |ts| ==> ts[i].Match? ==> 1 <= ts[i].dist <= 32506 && 3 <= ts[i].len <= 258
  }

  lemma CoversNothing(src: seq<byte>, at: nat)
    requires at <= |src|
    ensures Covers(src, at, [], at)
  {
  }

  lemma CoversLiteral(src: seq<byte>, from: nat, ts: seq<Token>, to: nat)
    requires Covers(src, from, ts, to) && to < |src|
    ensures Covers(src, from, ts + [Literal(src[to])], to + 1)
  {
    hide Expand, Apply;
    LiteralApplies(src, to);
    ExpandMore(src[..from], ts, Literal(src[to]));
  }

  lemma CoversMatch(src: seq<byte>, from: nat, ts: seq<Token>, a: nat, to: nat, len: nat)
    requires Covers(src, from, ts, to) && Repeats(src, a, to, len) && to - a <= 32506 && 3 <= len <= 258
    ensures Covers(src, from, ts + [Match(to - a, len)], to + len)
  {
    hide Expand, Apply;
    MatchApplies(src, a, to, len);
    ExpandMore(src[..from], ts, Match(to - a, len));
  }

  // -- what the stream so far means ------------------------------------------------------------------

  /** The two bytes every stream starts with: method 8, a window of 32K, the fastest level. */
  const ZLIB_HEADER: seq<byte> := [0x78, 0x01]

  /** So many bits are whole bytes. */
  ghost predicate Aligned(n: nat)
  {
    n % 8 == 0
  }

  ghost predicate Headed(s: bits)
  {
    |s| >= 16 && s[..16] == BytesBits(ZLIB_HEADER)
  }

  /** The header, then blocks that decode to `out` and leave the decoder ready for more. */
  ghost predicate Leads(s: bits, out: seq<byte>)
  {
    && |s| >= 16 && Headed(s)
    && forall t: bits :: Aligned(|s| + |t|) ==> ReadBlocks(s[16..] + t, []) == ReadBlocks(t, out)
  }

  /** The header, then blocks that decode to `out`, the last one marked final. */
  ghost predicate Finished(s: bits, out: seq<byte>)
  {
    && |s| >= 16 && Headed(s)
    && forall t: bits :: Aligned(|s| + |t|) ==> ReadBlocks(s[16..] + t, []) == Ok(out, t)
  }

  lemma LeadsStart(s: bits)
    requires s == BytesBits(ZLIB_HEADER)
    ensures Leads(s, [])
  {
    hide ReadBlocks, BytesBits;
    assert s[..16] == s;
    assert s[16..] == [];
    assert forall t: bits :: [] + t == t;
  }

  lemma HeadedMore(s: bits, b: bits)
    requires Headed(s)
    ensures Headed(s + b)
  {
    assert (s + b)[..16] == s[..16];
  }

  lemma LeadsAt(s: bits, out: seq<byte>, t: bits)
    requires Leads(s, out) && Aligned(|s| + |t|)
    ensures |s| >= 16 && ReadBlocks(s[16..] + t, []) == ReadBlocks(t, out)
  {
  }

  lemma BlockAt(b: bits, before: nat, last: bool, out: seq<byte>, out2: seq<byte>, t: bits)
    requires BlockMeans(b, before, last, out, out2) && Aligned(before + |b| + |t|)
    ensures ReadBlocks(b + t, out) == if last then Ok(out2, t) else ReadBlocks(t, out2)
  {
  }

  lemma FinishedAt(s: bits, out: seq<byte>, t: bits)
    requires Finished(s, out) && Aligned(|s| + |t|)
    ensures |s| >= 16 && ReadBlocks(s[16..] + t, []) == Ok(out, t)
  {
  }

  lemma DropFront(s: bits, b: bits, t: bits)
    requires |s| >= 16
    ensures (s + b)[16..] + t == s[16..] + (b + t)
  {
    assert (s + b)[16..] == s[16..] + b;
    ConcatAssoc(s[16..], b, t);
  }

  lemma LeadsThrough(s: bits, out: seq<byte>, b: bits, t: bits)
    requires Leads(s, out) && Aligned(|s| + |b| + |t|)
    ensures |s| >= 16 && ReadBlocks(s[16..] + (b + t), []) == ReadBlocks(b + t, out)
  {
    hide *;
    assert |b + t| == |b| + |t|;
    LeadsAt(s, out, b + t);
  }

  lemma OneBlock(s: bits, b: bits, last: bool, out: seq<byte>, out2: seq<byte>, t: bits)
    requires Leads(s, out) && BlockMeans(b, |s|, last, out, out2) && Aligned(|s| + |b| + |t|)
    ensures |s| >= 16
    ensures ReadBlocks((s + b)[16..] + t, []) == if last then Ok(out2, t) else ReadBlocks(t, out2)
  {
    hide *;
    LeadsThrough(s, out, b, t);
    BlockAt(b, |s|, last, out, out2, t);
    DropFront(s, b, t);
  }

  /** One more block. */
  lemma LeadsMore(s: bits, b: bits, last: bool, out: seq<byte>, out2: seq<byte>)
    requires Leads(s, out) && BlockMeans(b, |s|, last, out, out2)
    ensures if last then Finished(s + b, out2) else Leads(s + b, out2)
  {
    hide ReadBlocks, BlockMeans, Headed, Aligned;
    HeadedMore(s, b);
    forall t: bits | Aligned(|s + b| + |t|)
      ensures ReadBlocks((s + b)[16..] + t, []) == if last then Ok(out2, t) else ReadBlocks(t, out2)
    {
      OneBlock(s, b, last, out, out2, t);
    }
  }

  // -- what was sent -----------------------------------------------------------------------------------

  /** A block: its tokens, its bits, the form chosen for it, and how many bytes it would take as they are, if those
      were still in the window. */
  datatype SentBlock = SentBlock(tokens: seq<Token>, sent: bits, choice: Choice, held: bool, stored: nat)
  {
    /** It was sent in the form that takes the fewest bytes, by the exact sizes of all three; the bytes of a block that
        is not longer than the search reaches were there to be sent as they are. */
    ghost predicate Cheapest()
    {
      && choice.Exact(tokens) && choice.Sized(sent, held, stored)
      && stored == Reach(tokens) && (stored <= 32506 ==> held)
    }
  }

  lemma MakeCheapest(b: SentBlock)
    requires b.choice.Exact(b.tokens) && b.choice.Sized(b.sent, b.held, b.stored)
    requires b.stored == Reach(b.tokens) && (b.stored <= 32506 ==> b.held)
    ensures b.Cheapest()
  {
    hide Choice.Exact, Choice.Sized, Reach;
  }

  function TokensOf(bs: seq<SentBlock>): seq<Token>
  {
    if bs == [] then [] else TokensOf(bs[..|bs| - 1]) + bs[|bs| - 1].tokens
  }

  function BitsOf(bs: seq<SentBlock>): bits
  {
    if bs == [] then [] else BitsOf(bs[..|bs| - 1]) + bs[|bs| - 1].sent
  }

  /** Every block was sent in its cheapest form. */
  ghost predicate AllCheapest(bs: seq<SentBlock>)
  {
    forall i :: 0 <= i < |bs| ==> bs[i].Cheapest()
  }

  lemma SentMore(bs: seq<SentBlock>, b: SentBlock)
    ensures TokensOf(bs + [b]) == TokensOf(bs) + b.tokens && BitsOf(bs + [b]) == BitsOf(bs) + b.sent
    ensures AllCheapest(bs) && b.Cheapest() ==> AllCheapest(bs + [b])
  {
    hide SentBlock.Cheapest;
    assert (bs + [b])[..|bs|] == bs;
  }

  lemma NoBlocks()
    ensures TokensOf([]) == [] && BitsOf([]) == [] && AllCheapest([]) && TokensOf([]) + [] == []
    ensures BytesBits(ZLIB_HEADER) + BitsOf([]) == BytesBits(ZLIB_HEADER)
  {
    hide BytesBits;
  }

  lemma NothingParsed(src: seq<byte>)
    ensures Reach([]) == 0 && Hashed(|src|, []) == {} && GreedyTokens(src, [])
  {
  }

  lemma {:induction false} ExpandLength(a: seq<byte>, ts: seq<Token>, b: seq<byte>)
    requires Expand(a, ts) == Some(b)
    ensures |b| == |a| + Reach(ts)
  {
    if ts != [] { ExpandLength(a, ts[..|ts| - 1], Expand(a, ts[..|ts| - 1]).value); }
  }

  /** What the search found at p is a greedy choice there, and the positions hashed are those of the token. */
  lemma Chosen(src: seq<byte>, c: set<nat>, c2: set<nat>, p: nat, ahead: nat, len: nat, dist: int, b: byte)
      returns (t: Token)
    requires p + ahead <= |src| && (ahead >= 262 || p + ahead == |src|) && len <= 258 && (len >= 3 ==> dist >= 0)
    requires len >= 3 ==> len <= ahead
    requires c2 == c + if ahead >= 3 then {p} else {}
    requires ahead < 3 || len >= 8 || len >= ahead || Unbeaten(src, c2, p, if len >= 3 then len else 2)
    requires len >= 3 ==> Nearest(src, c2, p, p - dist, len)
    ensures t == if len >= 3 then Match(dist, len) else Literal(b)
    ensures Greedy(src, c, p, t) && Span(t) == if len >= 3 then len else 1
    ensures c + HashedBy(|src|, p, t)
      == c2 + if len >= 3 && len <= 4 && ahead - len >= 3 then Inside(p, len) else {}
  {
    hide Unbeaten, Inside, Nearest;
    t := if len >= 3 then Match(dist, len) else Literal(b);
    if !(ahead < 3 || len >= 8 || len >= ahead) {
      UnbeatenBefore(src, c, p, if len >= 3 then len else 2);
    }
    if len >= 3 { NearestBefore(src, c, p, p - dist, len); }
  }

  // -- the encoder as a whole -----------------------------------------------------------------------------

  class DeflateState {
    const src: seq<byte>
    const m: Matcher
    const enc: BlockEncoder
    ghost var all: seq<Token>
    ghost var blocks: seq<SentBlock>

    /** The two halves share nothing. */
    ghost predicate Apart()
    {
      && m.src == src
      && m.window != enc.symBuf && m.window != enc.tb.depth
      && m.prev != enc.tb.blCount && m.head != enc.tb.blCount
    }

    /** The search has reached a position, and everything before it is tallied: all tokens so far
        stand for the input up to there, those of the current block for what follows blockStart; the others were
        sent. */
    ghost predicate Tallied()
      reads this, m`base, m`blockStart, m`strstart, enc`tokens
    {
      && 0 <= m.base + m.blockStart
      && Covers(src, m.base + m.blockStart, enc.tokens, m.base + m.strstart)
      && Covers(src, 0, all, m.base + m.strstart)
      && all == TokensOf(blocks) + enc.tokens
    }

    /** All tokens so far are greedy choices, and what is hashed is what they say. */
    ghost predicate Parsed()
      reads this, m`base, m`strstart, m`chained
    {
      && 0 <= m.base + m.strstart == Reach(all)
      && m.Deep() && m.chained == Hashed(|src|, all) && GreedyTokens(src, all)
    }

    /** What is written decodes to the input before the current block; it is the blocks so far, each in its cheapest
        form. */
    ghost predicate Written()
      reads this`blocks, m`base, m`blockStart, enc.bw
    {
      && 0 <= m.base + m.blockStart <= |src| && Leads(enc.bw.Stream(), src[..m.base + m.blockStart])
      && enc.bw.Stream() == BytesBits(ZLIB_HEADER) + BitsOf(blocks) && AllCheapest(blocks)
    }

    /** The loop invariant of deflating; a match length left over is below three. */
    ghost predicate Inv()
      reads this, m, m.window, m.prev, m.head
      reads enc, enc.bw, enc.tb, enc.symBuf, enc.dynLtree, enc.dynDtree, enc.blTree
    {
      Apart() && m.Valid() && enc.Valid() && m.insert == 0 && m.matchLen <= 2 && Tallied() && Parsed() && Written()
    }

    constructor (src: seq<byte>)
      ensures this.src == src && Apart() && m.Valid() && enc.Valid() && m.insert == 0 && m.matchLen == 2 && Tallied()
      ensures Parsed() && blocks == []
      ensures m.base == 0 && m.strstart == 0 && m.blockStart == 0 && enc.tokens == [] && enc.symNext == 0
      ensures fresh(m) && fresh(m.window) && fresh(m.prev) && fresh(m.head)
      ensures fresh(enc) && fresh(enc.bw) && fresh(enc.tb) && fresh(enc.symBuf)
      ensures fresh(enc.dynLtree) && fresh(enc.dynDtree) && fresh(enc.blTree)
      ensures fresh(enc.tb.heap) && fresh(enc.tb.depth) && fresh(enc.tb.blCount)
      ensures enc.bw.out == [] && enc.bw.biValid == 0
    {
      this.src := src;
      m := new Matcher(src);
      enc := new BlockEncoder();
      all, blocks := [], [];
      new;
      hide *;
      enc.Started();
      MakeApart();
      NothingYet();
    }

    lemma NothingYet()
      requires m.base == 0 && m.strstart == 0 && m.blockStart == 0 && m.chained == {} && m.src == src
      requires all == [] && blocks == [] && enc.tokens == []
      ensures Tallied() && Parsed()
    {
      hide *;
      NoBlocks();
      CoversNothing(src, 0);
      MakeTallied();
      m.MakeDeep();
      NothingParsed(src);
      MakeParsed();
    }

    lemma MakeApart()
      requires m.src == src && m.window != enc.symBuf && m.window != enc.tb.depth
      requires m.prev != enc.tb.blCount && m.head != enc.tb.blCount
      ensures Apart()
    {
    }

    lemma ApartParts()
      requires Apart()
      ensures m.src == src && m.window != enc.symBuf && m.window != enc.tb.depth
      ensures m.prev != enc.tb.blCount && m.head != enc.tb.blCount
    {
    }

    /** Writes the stream header. */
    method Begin()
      requires Apart() && m.Valid() && enc.Valid() && m.insert == 0 && m.matchLen <= 2 && Tallied()
      requires enc.bw.out == [] && enc.bw.biValid == 0 && m.base == 0 && m.blockStart == 0 && Parsed() && blocks == []
      modifies enc.bw
      ensures Inv()
    {
      hide *;
      enc.ValidParts();
      enc.bw.PutByte(0x78);
      enc.bw.PutByte(0x01);
      OnlyHeader(enc.bw);
      LeadsStart(enc.bw.Stream());
      NoneOf(src);
      NoBlocks();
      enc.MakeValid();
      MakeWritten();
      MakeInv();
    }

    /** Writes the tokens tallied as one block. */
    method FlushBlock(last: bool) returns (ghost s: bits, ghost pad: nat)
      requires Apart() && m.Sound(m.strstart + m.lookahead) && m.strstart < 65536 && enc.Valid() && Tallied()
      requires Written() && m.Deep()
      modifies this`blocks, m`blockStart, enc, enc.bw, enc.tb, enc.tb.heap, enc.tb.depth, enc.tb.blCount,
               enc.dynLtree, enc.dynDtree, enc.blTree
      ensures m.Sound(m.strstart + m.lookahead) && (old(m.Valid()) ==> m.Valid())
      ensures enc.Valid() && enc.tokens == [] && Tallied() && m.blockStart == m.strstart
      ensures m.base + m.strstart <= |src|
      ensures s == BytesBits(ZLIB_HEADER) + BitsOf(blocks) && AllCheapest(blocks) && all == TokensOf(blocks)
      ensures !last ==> Written()
      ensures last ==> pad < 8 && Ended(s, pad) && Finished(s, src[..m.base + m.strstart])
    {
      hide *;
      ghost var from, to, tokens := m.base + m.blockStart, m.base + m.strstart, enc.tokens;
      ApartParts();
      m.BlockBytesHeld();
      TalliedParts();
      var buf: seq<byte> := [];
      var bufValid := m.blockStart >= 0;
      var storedLen := m.strstart - m.blockStart;
      if bufValid {
        buf := m.window[m.blockStart..m.blockStart + storedLen];
        SplitPrefix(src, from, to);
      }
      WrittenParts();
      ghost var s0, block, choice := enc.bw.Stream(), [], Choice(0, 0, 0, [], [], [], 0);
      block, pad, choice := enc.TrFlushBlock(buf, bufValid, storedLen, last, src[..from], src[..to]);
      LeadsMore(s0, block, last, src[..from], src[..to]);
      s := s0 + block;
      ghost var b := SentBlock(tokens, block, choice, bufValid, storedLen);
      ExpandLength(src[..from], tokens, src[..to]);
      if storedLen <= 32506 { m.HeldWhenShort(); }
      MakeCheapest(b);
      SentMore(blocks, b);
      ConcatAssoc(BytesBits(ZLIB_HEADER), BitsOf(blocks), block);
      blocks := blocks + [b];
      m.StartBlock();
      CoversNothing(src, to);
      MakeTallied();
      if last {
        MakeEnded(s, pad);
      } else {
        NoPad(s);
        MakeWritten();
      }
    }

    /** Nothing is left in the accumulator: the bytes written are s and the padding. */
    ghost predicate Ended(s: bits, pad: nat)
      reads enc.bw
    {
      enc.bw.Valid() && enc.bw.biValid == 0 && enc.bw.Stream() == s + Zeros(pad)
    }

    lemma MakeEnded(s: bits, pad: nat)
      requires enc.Valid() && enc.bw.biValid == 0 && enc.bw.Stream() == s + Zeros(pad)
      ensures Ended(s, pad)
    {
      hide *;
      enc.ValidParts();
      FoldEnded(s, pad);
    }

    lemma FoldEnded(s: bits, pad: nat)
      requires enc.bw.Valid() && enc.bw.biValid == 0 && enc.bw.Stream() == s + Zeros(pad)
      ensures Ended(s, pad)
    {
    }

    lemma EndedBytes(s: bits, pad: nat)
      requires Ended(s, pad)
      ensures BytesBits(enc.bw.out) == s + Zeros(pad)
    {
      hide BytesBits, Zeros;
      AtBoundary(enc.bw);
    }

    lemma TalliedParts()
      requires Tallied()
      ensures 0 <= m.base + m.blockStart <= |src| && m.base + m.strstart <= |src|
      ensures Expand(src[..m.base + m.blockStart], enc.tokens) == Some(src[..m.base + m.strstart])
      ensures Covers(src, m.base + m.blockStart, enc.tokens, m.base + m.strstart)
      ensures Covers(src, 0, all, m.base + m.strstart) && all == TokensOf(blocks) + enc.tokens
    {
      hide TokensOf;
    }

    lemma MakeTallied()
      requires 0 <= m.base + m.blockStart
      requires Covers(src, m.base + m.blockStart, enc.tokens, m.base + m.strstart)
      requires Covers(src, 0, all, m.base + m.strstart) && all == TokensOf(blocks) + enc.tokens
      ensures Tallied()
    {
      hide TokensOf;
    }

    lemma ParsedParts()
      requires Parsed()
      ensures 0 <= m.base + m.strstart == Reach(all)
      ensures m.Deep() && m.chained == Hashed(|src|, all) && GreedyTokens(src, all)
    {
    }

    lemma MakeParsed()
      requires 0 <= m.base + m.strstart == Reach(all)
      requires m.Deep() && m.chained == Hashed(|src|, all) && GreedyTokens(src, all)
      ensures Parsed()
    {
    }

    lemma WrittenParts()
      requires Written()
      ensures 0 <= m.base + m.blockStart <= |src| && Leads(enc.bw.Stream(), src[..m.base + m.blockStart])
      ensures enc.bw.Stream() == BytesBits(ZLIB_HEADER) + BitsOf(blocks) && AllCheapest(blocks)
    {
      hide BitsOf, BytesBits, AllCheapest, Leads;
    }

    lemma MakeWritten()
      requires 0 <= m.base + m.blockStart <= |src| && Leads(enc.bw.Stream(), src[..m.base + m.blockStart])
      requires enc.bw.Stream() == BytesBits(ZLIB_HEADER) + BitsOf(blocks) && AllCheapest(blocks)
      ensures Written()
    {
      hide BitsOf, BytesBits, AllCheapest, Leads;
    }

    lemma InvParts()
      requires Inv()
      ensures Apart() && m.Valid() && enc.Valid() && m.insert == 0 && m.matchLen <= 2
      ensures Tallied() && Parsed() && Written()
    {
    }

    lemma MakeInv()
      requires Apart() && m.Valid() && enc.Valid() && m.insert == 0 && m.matchLen <= 2
      requires Tallied() && Parsed() && Written()
      ensures Inv()
    {
    }

    /** Tallies the match at the current position and passes it. */
    method TallyMatch() returns (bflush: bool)
      requires Apart() && m.Looked() && m.GoodMatch() && enc.Valid() && Tallied() && enc.symNext < 49149
      modifies this`all, m`insH, m`strstart, m`lookahead, m`matchLen, m`chained, m`top, m.prev, m.head,
               enc`symNext, enc`matches, enc`tokens, enc.symBuf, enc.dynLtree, enc.dynDtree
      ensures m.Valid() && m.matchLen == 0 && enc.Valid() && Tallied()
      ensures all == old(all) + [Match(old(m.strstart - m.matchStart), old(m.matchLen))]
      ensures m.strstart == old(m.strstart) + old(m.matchLen) && m.lookahead == old(m.lookahead) - old(m.matchLen)
      ensures m.chained == old(m.chained)
        + if old(m.matchLen) <= 4 && m.lookahead >= 3 then Inside(m.base + old(m.strstart), old(m.matchLen)) else {}
      ensures old(m.strstart) < m.strstart <= old(m.strstart) + 258
      ensures bflush == (enc.symNext == 49149) && enc.symNext <= 49149
    {
      hide *;
      ApartParts();
      TalliedParts();
      ghost var from, at := m.base + m.blockStart, m.base + m.strstart;
      m.GoodParts();
      CoversMatch(src, from, enc.tokens, m.base + m.matchStart, at, m.matchLen);
      CoversMatch(src, 0, all, m.base + m.matchStart, at, m.matchLen);
      ConcatAssoc(TokensOf(blocks), enc.tokens, [Match(m.strstart - m.matchStart, m.matchLen)]);
      all := all + [Match(m.strstart - m.matchStart, m.matchLen)];
      bflush := enc.TallyDist(m.strstart - m.matchStart, m.matchLen - 3);
      m.PassMatch();
      MakeTallied();
      enc.ValidParts();
    }

    /** Tallies the byte at the current position and passes it. */
    method TallyByte() returns (bflush: bool)
      requires Apart() && m.Looked() && m.lookahead > 0 && enc.Valid() && Tallied() && enc.symNext < 49149
      modifies this`all, m`insH, m`strstart, m`lookahead, m`matchLen, m`chained, m`top, m.prev, m.head,
               enc`symNext, enc`matches, enc`tokens, enc.symBuf, enc.dynLtree, enc.dynDtree
      ensures m.Valid() && m.matchLen == old(m.matchLen) && enc.Valid() && Tallied()
      ensures 0 <= old(m.base + m.strstart) < |src| && all == old(all) + [Literal(src[old(m.base + m.strstart)])]
      ensures m.chained == old(m.chained)
      ensures m.strstart == old(m.strstart) + 1
      ensures bflush == (enc.symNext == 49149) && enc.symNext <= 49149
    {
      hide *;
      ApartParts();
      TalliedParts();
      ghost var from, at := m.base + m.blockStart, m.base + m.strstart;
      m.CurrentByte();
      CoversLiteral(src, from, enc.tokens, at);
      CoversLiteral(src, 0, all, at);
      ConcatAssoc(TokensOf(blocks), enc.tokens, [Literal(m.window[m.strstart])]);
      all := all + [Literal(m.window[m.strstart])];
      bflush := enc.TallyLit(m.window[m.strstart]);
      m.PassLiteral();
      MakeTallied();
      enc.ValidParts();
    }

    lemma FilledParts()
      requires Filled()
      ensures m.lookahead >= 262 || m.srcPos == |src|
    {
    }

    /** There is enough ahead, or the input has run out. */
    ghost predicate Filled()
      reads m`lookahead, m`srcPos
    {
      m.lookahead >= 262 || m.srcPos == |src|
    }

    lemma MakeFilled()
      requires m.lookahead >= 262 || m.srcPos == |src|
      ensures Filled()
    {
    }

    /** Looks for a match; the token to be sent is then a greedy choice. */
    method Search() returns (ghost t: Token)
      requires m.src == src && m.Valid() && m.insert == 0 && m.matchLen <= 2 && m.Deep() && Filled() && m.lookahead > 0
      modifies m`insH, m`chained, m`top, m`matchStart, m`matchLen, m.prev, m.head
      ensures m.Looked() && (m.matchLen >= 3 ==> m.GoodMatch())
      ensures 0 <= m.base + m.strstart < |src|
      ensures m.matchLen >= 3 ==> t == Match(m.strstart - m.matchStart, m.matchLen) && Span(t) == m.matchLen
      ensures m.matchLen < 3 ==> t == Literal(src[m.base + m.strstart]) && Span(t) == 1
      ensures Greedy(src, old(m.chained), m.base + m.strstart, t)
      ensures old(m.chained) + HashedBy(|src|, m.base + m.strstart, t) == m.chained
        + if 3 <= m.matchLen <= 4 && m.lookahead - m.matchLen >= 3 then Inside(m.base + m.strstart, m.matchLen) else {}
    {
      hide *;
      m.Bounds();
      FilledParts();
      ghost var c, p := m.chained, m.base + m.strstart;
      m.FindMatch();
      if m.matchLen >= 3 { m.GoodParts(); }
      t := Chosen(src, c, m.chained, p, m.lookahead, m.matchLen, m.strstart - m.matchStart, src[p]);
    }

    /** Tallies the match or the byte at the current position: one token more, a greedy choice. */
    method TallyOne() returns (bflush: bool)
      requires Inv() && Filled() && m.lookahead > 0 && m.strstart <= 65274 && enc.symNext < 49149
      modifies this`all, m, m.prev, m.head, enc`symNext, enc`matches, enc`tokens, enc.symBuf, enc.dynLtree, enc.dynDtree
      ensures Inv() && bflush == (enc.symNext == 49149) && enc.symNext <= 49149 && m.strstart < 65536
      ensures m.base == old(m.base) && m.strstart > old(m.strstart)
      ensures |all| == |old(all)| + 1 && all[..|old(all)|] == old(all) && m.srcPos == old(m.srcPos)
      ensures 0 <= old(m.base + m.strstart) && Greedy(src, old(m.chained), old(m.base + m.strstart), all[|old(all)|])
    {
      hide *;
      InvParts();
      ApartParts();
      TalliedParts();
      ParsedParts();
      m.DeepParts();
      ghost var t := Search();
      MakeTallied();
      GreedyMore(src, all, t);
      if m.matchLen >= 3 {
        m.GoodParts();
        bflush := TallyMatch();
      } else {
        bflush := TallyByte();
      }
      m.MakeDeep();
      MakeParsed();
      MakeInv();
    }

    /** Refilling the window moves nothing in the input. */
    method Refill()
      requires Inv() && m.lookahead < 262
      modifies m, m.window, m.prev, m.head
      ensures Inv() && m.base + m.strstart == old(m.base + m.strstart) && m.strstart < 65274
      ensures Filled()
    {
      hide *;
      InvParts();
      ApartParts();
      TalliedParts();
      ParsedParts();
      WrittenParts();
      m.FillWindow();
      MakeTallied();
      MakeParsed();
      MakeWritten();
      MakeFilled();
      MakeInv();
    }

    /** One token, and the block when the buffer is full. */
    method DeflateOne()
      requires Inv() && Filled() && m.lookahead > 0 && m.strstart <= 65274 && enc.symNext < 49149
      modifies this`all, this`blocks, m, m.prev, m.head, enc, enc.bw, enc.tb, enc.tb.heap, enc.tb.depth, enc.tb.blCount,
               enc.symBuf, enc.dynLtree, enc.dynDtree, enc.blTree
      ensures Inv() && enc.symNext < 49149
      ensures m.base + m.strstart > old(m.base + m.strstart)
    {
      hide *;
      var bflush := TallyOne();
      if bflush {
        InvParts();
        ParsedParts();
        var _, _ := FlushBlock(false);
        enc.Started();
        MakeParsed();
        MakeInv();
      }
    }

    lemma InvBounds()
      requires Inv()
      ensures m.strstart + m.lookahead <= 65536 && m.base + m.strstart + m.lookahead == m.srcPos <= |src|
    {
      hide *;
      InvParts();
      ApartParts();
      m.Bounds();
    }

    /** Deflates the whole input: the tokens are a greedy parse that stands for all of it, and the blocks they are sent
        in, each in its cheapest form, decode to it. */
    method DeflateFast() returns (ghost s: bits, ghost pad: nat)
      requires Inv() && enc.symNext < 49149
      modifies this`all, this`blocks, m, m.window, m.prev, m.head, enc, enc.bw, enc.tb, enc.tb.heap, enc.tb.depth,
               enc.tb.blCount, enc.symBuf, enc.dynLtree, enc.dynDtree, enc.blTree
      ensures Covers(src, 0, all, |src|) && pad < 8 && Ended(s, pad) && Finished(s, src)
      ensures GreedyTokens(src, all) && all == TokensOf(blocks) && AllCheapest(blocks)
      ensures s == BytesBits(ZLIB_HEADER) + BitsOf(blocks)
    {
      hide *;
      while true
        invariant Inv() && enc.symNext < 49149
        decreases |src| - (m.base + m.strstart)
      {
        InvBounds();
        if m.lookahead < 262 {
          Refill();
          InvBounds();
          FilledParts();
          if m.lookahead == 0 { break; }
        }
        MakeFilled();
        DeflateOne();
        InvBounds();
      }
      s, pad := FlushLast();
    }

    /** Writes the final block, whose end is the end of the input. */
    method FlushLast() returns (ghost s: bits, ghost pad: nat)
      requires Inv() && m.strstart < 65536 && m.base + m.strstart == |src|
      modifies this`blocks, m`insert, m`blockStart, enc, enc.bw, enc.tb, enc.tb.heap, enc.tb.depth, enc.tb.blCount,
               enc.dynLtree, enc.dynDtree, enc.blTree
      ensures Covers(src, 0, all, |src|) && pad < 8 && Ended(s, pad) && Finished(s, src)
      ensures GreedyTokens(src, all) && all == TokensOf(blocks) && AllCheapest(blocks)
      ensures s == BytesBits(ZLIB_HEADER) + BitsOf(blocks)
    {
      hide *;
      InvParts();
      m.ValidParts();
      m.SoundParts(m.strstart + m.lookahead);
      ParsedParts();
      m.insert := if m.strstart <= 2 then m.strstart else 2;
      m.MakeSound(m.strstart + m.lookahead);
      s, pad := FlushBlock(true);
      TalliedParts();
      AllOf(src);
    }
  }

  lemma OnlyHeader(bw: BitWriter)
    requires bw.out == ([] + [0x78]) + [0x01] && bw.biValid == 0
    ensures bw.Stream() == BytesBits(ZLIB_HEADER)
  {
    hide BytesBits;
    assert bw.out == ZLIB_HEADER;
    assert Lsb(bw.biBuf, 0) == [];
  }

  lemma NoneOf(src: seq<byte>)
    ensures src[..0] == []
  {
  }

  lemma AllOf(src: seq<byte>)
    ensures src[..|src|] == src
  {
  }

  lemma SplitPrefix(src: seq<byte>, from: nat, to: nat)
    requires from <= to <= |src|
    ensures src[..to] == src[..from] + src[from..to]
  {
  }

  lemma NoPad(s: bits)
    ensures s + Zeros(0) == s
  {
  }

  // -- the zlib stream ---------------------------------------------------------------------------------

  /** Byte sequences of one length with the same bits are the same. */
  lemma SameBytes(a: seq<byte>, b: seq<byte>)
    requires |a| == |b| && BytesBits(a) == BytesBits(b)
    ensures a == b
  {
    hide BytesBits, ReadBytes;
    ReadBytesBack(a, [], []);
    ReadBytesBack(b, [], []);
    assert [] + a == a && [] + b == b;
  }

  /** The bits of the front of a byte sequence. */
  lemma FrontBytes(data: seq<byte>, n: nat)
    requires n <= |data|
    ensures BytesBits(data[..n]) == BytesBits(data)[..8 * n] && BytesBits(data[n..]) == BytesBits(data)[8 * n..]
  {
    hide BytesBits;
    BytesBitsConcat(data[..n], data[n..]);
    assert data == data[..n] + data[n..];
    TakeDrop(BytesBits(data[..n]), BytesBits(data[n..]));
  }

  /** Padding, then the checksum: exactly what may follow the last block. */
  lemma TrailerReads(pad: nat, out: seq<byte>)
    requires pad < 8
    ensures TrailerOk(Zeros(pad) + BytesBits(BigEndian(Adler32(out))), out)
  {
    hide Zeros, BytesBits, Adler32;
    TakeDrop(Zeros(pad), BytesBits(BigEndian(Adler32(out))));
  }

  lemma HeaderReads()
    ensures |ZLIB_HEADER| == 2 && HeaderOk(ZLIB_HEADER[0], ZLIB_HEADER[1])
  {
  }

  lemma HeadedParts(s: bits)
    requires Headed(s)
    ensures |s| >= 16 && s[..16] == BytesBits(ZLIB_HEADER)
  {
  }

  lemma FinishedHeaded(s: bits, out: seq<byte>)
    requires Finished(s, out)
    ensures Headed(s)
  {
    hide Headed, ReadBlocks;
  }

  lemma StreamSplit(s: bits, pad: nat, tail: bits)
    requires |s| >= 16
    ensures ((s + Zeros(pad)) + tail)[..16] == s[..16]
    ensures ((s + Zeros(pad)) + tail)[16..] == s[16..] + (Zeros(pad) + tail)
  {
    ConcatAssoc(s, Zeros(pad), tail);
  }

  lemma DecodeSteps(data: seq<byte>, out: seq<byte>, t: bits)
    requires |data| >= 2 && data[..2] == ZLIB_HEADER && ReadBlocks(BytesBits(data[2..]), []) == Ok(out, t)
    requires TrailerOk(t, out)
    ensures ZlibDecode(data) == Some(out)
  {
    hide ReadBlocks, BytesBits, TrailerOk, HeaderOk;
    HeaderReads();
    assert data[0] == data[..2][0] && data[1] == data[..2][1];
  }

  /** A finished stream, padded and followed by the checksum of its meaning, decodes to it. */
  lemma StreamDecodes(body: seq<byte>, s: bits, pad: nat, src: seq<byte>)
    requires BytesBits(body) == s + Zeros(pad) && pad < 8 && Finished(s, src)
    ensures ZlibDecode(body + BigEndian(Adler32(src))) == Some(src)
  {
    hide *;
    var trailer := BigEndian(Adler32(src));
    var data, tail := body + trailer, BytesBits(trailer);
    FinishedHeaded(s, src);
    HeadedParts(s);
    HeaderReads();
    BytesBitsConcat(body, trailer);
    StreamSplit(s, pad, tail);
    FrontBytes(data, 2);
    SameBytes(data[..2], ZLIB_HEADER);
    FinishedAt(s, src, Zeros(pad) + tail);
    TrailerReads(pad, src);
    DecodeSteps(data, src, Zeros(pad) + tail);
  }

  /** Compresses any byte string into a zlib stream that decodes to it. The stream is the header, blocks of the tokens
      of a greedy parse of the input, each in its cheapest form, padding and the checksum. */
  method Compress(src: seq<byte>) returns (out: seq<byte>, ghost blocks: seq<SentBlock>, ghost pad: nat)
    ensures ZlibDecode(out) == Some(src)
    ensures Covers(src, 0, TokensOf(blocks), |src|) && GreedyTokens(src, TokensOf(blocks)) && AllCheapest(blocks)
    ensures pad < 8
    ensures BytesBits(out) == BytesBits(ZLIB_HEADER) + BitsOf(blocks) + Zeros(pad) + BytesBits(BigEndian(Adler32(src)))
  {
    hide *;
    var d := new DeflateState(src);
    d.Begin();
    ghost var s;
    s, pad := d.DeflateFast();
    d.EndedBytes(s, pad);
    StreamDecodes(d.enc.bw.out, s, pad, src);
    BytesBitsConcat(d.enc.bw.out, BigEndian(Adler32(src)));
    out, blocks := d.enc.bw.out + BigEndian(Adler32(src)), d.blocks;
  }
}
