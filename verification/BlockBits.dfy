/** The bits of one block of each kind, and that the decoder reads them as the block's bytes. */
module BlockBits {
  import opened Bits
  import opened PrefixCodes
  import opened Inflate
  import opened InflateLemmas
  import opened Tokens
  import opened StaticTrees
  import opened BlockHeader
  import opened BlockLemmas

  /** Block bits b, starting `before` bits into the stream, take the decoder from out to out2. */
  ghost predicate BlockMeans(b: bits, before: nat, last: bool, out: seq<byte>, out2: seq<byte>)
  {
    forall rest: bits :: (before + |b| + |rest|) % 8 == 0 ==>
      ReadBlocks(b + rest, out) == if last then Ok(out2, rest) else ReadBlocks(rest, out2)
  }

  /** The three header bits. */
  function Kind(kind: nat, last: bool): nat
  {
    2 * kind + if last then 1 else 0
  }

  lemma ReadBlocksStep(kind: nat, last: bool, s: bits, out: seq<byte>)
    requires kind < 3
    ensures ReadBlocks(Lsb(Kind(kind, last), 3) + s, out) ==
      match ReadBlock(kind, s, out)
      case Fail => Fail
      case Ok(out2, s2) => if last then Ok(out2, s2) else ReadBlocks(s2, out2)
  {
    hide Lsb, ReadBits, ReadBlock, Pow2;
    Pow2Values();
    ReadLsb(Kind(kind, last), 3, s);
  }

  /** The decoder reads the body, whatever follows it up to the end of the last byte. */
  ghost predicate BodyReads(kind: nat, body: bits, before: nat, out: seq<byte>, out2: seq<byte>)
  {
    forall rest: bits :: (before + 3 + |body| + |rest|) % 8 == 0 ==> ReadBlock(kind, body + rest, out) == Ok(out2, rest)
  }

  /** A block whose body the decoder reads back means what the body means. */
  lemma BodyMeans(kind: nat, last: bool, body: bits, before: nat, out: seq<byte>, out2: seq<byte>)
    requires kind < 3 && BodyReads(kind, body, before, out, out2)
    ensures BlockMeans(Lsb(Kind(kind, last), 3) + body, before, last, out, out2)
  {
    hide *;
    var b := Lsb(Kind(kind, last), 3) + body;
    forall rest: bits | (before + |b| + |rest|) % 8 == 0
      ensures ReadBlocks(b + rest, out) == if last then Ok(out2, rest) else ReadBlocks(rest, out2)
    {
      BodyThen(kind, last, body, before, out, out2, rest);
    }
    MakeBlockMeans(b, before, last, out, out2);
  }

  lemma BodyThen(kind: nat, last: bool, body: bits, before: nat, out: seq<byte>, out2: seq<byte>, rest: bits)
    requires kind < 3 && BodyReads(kind, body, before, out, out2)
    requires (before + |Lsb(Kind(kind, last), 3) + body| + |rest|) % 8 == 0
    ensures ReadBlocks((Lsb(Kind(kind, last), 3) + body) + rest, out)
         == if last then Ok(out2, rest) else ReadBlocks(rest, out2)
  {
    hide *;
    LsbSize(Kind(kind, last), 3);
    ConcatAssoc(Lsb(Kind(kind, last), 3), body, rest);
    BodyAt(kind, body, before, out, out2, rest);
    ReadBlocksStep(kind, last, body + rest, out);
  }

  lemma BodyAt(kind: nat, body: bits, before: nat, out: seq<byte>, out2: seq<byte>, rest: bits)
    requires BodyReads(kind, body, before, out, out2) && (before + 3 + |body| + |rest|) % 8 == 0
    ensures ReadBlock(kind, body + rest, out) == Ok(out2, rest)
  {
  }

  lemma MakeBodyReads(kind: nat, body: bits, before: nat, out: seq<byte>, out2: seq<byte>)
    requires forall rest: bits :: (before + 3 + |body| + |rest|) % 8 == 0 ==>
      ReadBlock(kind, body + rest, out) == Ok(out2, rest)
    ensures BodyReads(kind, body, before, out, out2)
  {
  }

  lemma LsbSize(v: nat, n: nat)
    ensures |Lsb(v, n)| == n
  {
  }

  lemma MakeBlockMeans(b: bits, before: nat, last: bool, out: seq<byte>, out2: seq<byte>)
    requires forall rest: bits :: (before + |b| + |rest|) % 8 == 0 ==>
      ReadBlocks(b + rest, out) == if last then Ok(out2, rest) else ReadBlocks(rest, out2)
    ensures BlockMeans(b, before, last, out, out2)
  {
  }

  // -- stored ------------------------------------------------------------------------------

  ghost function StoredBody(pad: nat, data: seq<byte>): bits
    requires |data| < 65536
  {
    Zeros(pad) + (Lsb(|data|, 16) + (Lsb(65535 - |data|, 16) + BytesBits(data)))
  }

  lemma StoredMeans(pad: nat, data: seq<byte>, last: bool, before: nat, out: seq<byte>)
    requires |data| < 65536 && pad < 8 && (before + 3 + pad) % 8 == 0
    ensures BlockMeans(Lsb(Kind(0, last), 3) + StoredBody(pad, data), before, last, out, out + data)
  {
    hide Lsb, Zeros, BytesBits, BlockMeans, ReadStored;
    var body := StoredBody(pad, data);
    forall rest: bits | (before + 3 + |body| + |rest|) % 8 == 0
      ensures ReadBlock(0, body + rest, out) == Ok(out + data, rest)
    {
      assert |rest| % 8 == 0;
      ConcatThree(Zeros(pad), Lsb(|data|, 16), Lsb(65535 - |data|, 16), BytesBits(data), rest);
      ReadStoredBack(pad, data, rest, out);
    }
    MakeBodyReads(0, body, before, out, out + data);
    BodyMeans(0, last, body, before, out, out + data);
  }

  lemma ConcatThree<T>(a: seq<T>, b: seq<T>, c: seq<T>, d: seq<T>, rest: seq<T>)
    ensures (a + (b + (c + d))) + rest == a + (b + (c + (d + rest)))
  {
    ConcatAssoc(a, b + (c + d), rest);
    ConcatAssoc(b, c + d, rest);
    ConcatAssoc(c, d, rest);
  }

  // -- static --------------------------------------------------------------------------------

  /** Sending with the thirty codes is sending with the thirty-two the decoder knows. */
  lemma {:induction false} SameTokens(ts: seq<Token>)
    requires AllCoded(FixedL(), SentD(), ts)
    ensures AllCoded(FixedL(), FixedD(), ts)
    ensures EncodeTokens(FixedL(), SentD(), ts) == EncodeTokens(FixedL(), FixedD(), ts)
  {
    if ts != [] {
      SameTokens(ts[..|ts| - 1]);
      SameToken(ts[|ts| - 1]);
    }
  }

  lemma SameToken(t: Token)
    requires Coded(FixedL(), SentD(), t)
    ensures Coded(FixedL(), FixedD(), t)
    ensures EncodeToken(FixedL(), SentD(), t) == EncodeToken(FixedL(), FixedD(), t)
  {
    hide CodeWord, LastBase, LENGTH_BASE, DIST_BASE, LENGTH_EXTRA, DIST_EXTRA, Lsb;
    if t.Match? { SameDistanceWords(DSym(t)); }
  }

  lemma AllStaticCoded(ts: seq<Token>)
    requires AllValid(ts)
    ensures AllCoded(FixedL(), SentD(), ts) && |FixedL()| > 256 && FixedL()[256] > 0
  {
    hide LENGTH_BASE, DIST_BASE;
  }

  lemma StaticMeans(ts: seq<Token>, last: bool, before: nat, out: seq<byte>)
    requires AllCoded(FixedL(), SentD(), ts) && Expand(out, ts).Some?
    ensures |FixedL()| > 256
    ensures BlockMeans(Lsb(Kind(1, last), 3) + EncodeData(FixedL(), SentD(), ts), before, last, out,
        Expand(out, ts).value)
  {
    hide Lsb, CodeWord, BlockMeans, ReadTokens, EncodeTokens, Expand, Decodable, AllCoded;
    SameTokens(ts);
    FixedLDecodable();
    FixedDDecodable();
    var body := EncodeData(FixedL(), FixedD(), ts);
    forall rest: bits
      ensures ReadBlock(1, body + rest, out) == Ok(Expand(out, ts).value, rest)
    {
      ReadDataBack(FixedL(), FixedD(), ts, rest, out);
    }
    MakeBodyReads(1, body, before, out, Expand(out, ts).value);
    BodyMeans(1, last, body, before, out, Expand(out, ts).value);
  }

  // -- dynamic -------------------------------------------------------------------------------

  lemma DynamicMeans(ll: seq<nat>, dl: seq<nat>, cl: seq<nat>, n: nat, ts: seq<Token>, last: bool, before: nat,
      out: seq<byte>)
    requires HeaderReady(ll, dl, cl, n) && AllCoded(ll, dl, ts) && |ll| > 256 && ll[256] > 0 && Expand(out, ts).Some?
    ensures BlockMeans(Lsb(Kind(2, last), 3) + (HeaderBits(ll, dl, cl, n) + EncodeData(ll, dl, ts)),
                       before, last, out, Expand(out, ts).value)
  {
    hide *;
    var h, d := HeaderBits(ll, dl, cl, n), EncodeData(ll, dl, ts);
    HeaderFacts(ll, dl, cl, n, []);
    forall rest: bits
      ensures ReadBlock(2, (h + d) + rest, out) == Ok(Expand(out, ts).value, rest)
    {
      ConcatAssoc(h, d, rest);
      ReadHeaderBack(ll, dl, cl, n, d + rest);
      ReadDataBack(ll, dl, ts, rest, out);
      ReadDynamic(ll, dl, h + (d + rest), d + rest, out);
    }
    MakeBodyReads(2, h + d, before, out, Expand(out, ts).value);
    BodyMeans(2, last, h + d, before, out, Expand(out, ts).value);
  }

  lemma ReadDynamic(ll: seq<nat>, dl: seq<nat>, s: bits, s1: bits, out: seq<byte>)
    requires ReadHeader(s) == Ok((ll, dl), s1)
    ensures ReadBlock(2, s, out) == ReadTokens(ll, dl, s1, out)
  {
  }
}
