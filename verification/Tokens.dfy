/** The symbols of a compressed block, their codes and extra bits, and their meaning. */
module Tokens {
  import opened Bits
  import opened PrefixCodes
  import opened Inflate
  import opened InflateLemmas

  /** A literal byte, or a copy of len bytes from dist back. */
  datatype Token = Literal(b: byte) | Match(dist: nat, len: nat)
  {
    predicate Valid() {
      Match? ==> 1 <= dist <= 32768 && 3 <= len <= 258
    }
  }

  /** The last place of the table, not after c, whose entry is at most v. */
  function LastBase(table: seq<nat>, v: nat, c: nat): (r: nat)
    requires c < |table| && table[0] <= v
    ensures r <= c && table[r] <= v && forall i :: r < i <= c ==> table[i] > v
  {
    if table[c] <= v then c else LastBase(table, v, c - 1)
  }

  /** The length code of a match length; 258 has a code of its own. */
  function LengthCode(len: nat): (c: nat)
    requires len >= 3
    ensures c < 29 && LENGTH_BASE[c] <= len
  {
    LastBase(LENGTH_BASE, len, 28)
  }

  function DistCode(dist: nat): (c: nat)
    requires dist >= 1
    ensures c < 30 && DIST_BASE[c] <= dist
  {
    LastBase(DIST_BASE, dist, 29)
  }

  /** Each entry lies exactly two to the extra bits above the one before. */
  function Spaced(base: seq<nat>, extra: seq<nat>, c: nat): bool
    requires c < |base| <= |extra|
    decreases c
  {
    c == 0 || (base[c] == base[c - 1] + Pow2(extra[c - 1]) && Spaced(base, extra, c - 1))
  }

  lemma {:induction false} SpacedAt(base: seq<nat>, extra: seq<nat>, c: nat, i: nat)
    requires i < c < |base| <= |extra| && Spaced(base, extra, c)
    ensures base[i + 1] == base[i] + Pow2(extra[i])
  {
    if i + 1 < c { SpacedAt(base, extra, c - 1, i); }
  }

  lemma LengthsSpaced()
    ensures |LENGTH_EXTRA| == |LENGTH_BASE| == 29 && Spaced(LENGTH_BASE, LENGTH_EXTRA, 27)
    ensures LENGTH_BASE[0] == 3 && LENGTH_BASE[27] == 227 && LENGTH_BASE[28] == 258
    ensures LENGTH_EXTRA[27] == 5 && LENGTH_EXTRA[28] == 0
  {
    Pow2Values();
    assert Spaced(LENGTH_BASE, LENGTH_EXTRA, 0);
    assert Spaced(LENGTH_BASE, LENGTH_EXTRA, 4);
    assert Spaced(LENGTH_BASE, LENGTH_EXTRA, 8);
    assert Spaced(LENGTH_BASE, LENGTH_EXTRA, 12);
    assert Spaced(LENGTH_BASE, LENGTH_EXTRA, 16);
    assert Spaced(LENGTH_BASE, LENGTH_EXTRA, 20);
    assert Spaced(LENGTH_BASE, LENGTH_EXTRA, 24);
  }

  lemma DistancesSpaced()
    ensures |DIST_EXTRA| == |DIST_BASE| == 30 && Spaced(DIST_BASE, DIST_EXTRA, 29)
    ensures DIST_BASE[0] == 1 && DIST_BASE[16] == 257 && DIST_BASE[29] == 24577 && DIST_EXTRA[29] == 13
  {
    Pow2Values();
    assert Spaced(DIST_BASE, DIST_EXTRA, 0);
    assert Spaced(DIST_BASE, DIST_EXTRA, 4);
    assert Spaced(DIST_BASE, DIST_EXTRA, 8);
    assert Spaced(DIST_BASE, DIST_EXTRA, 12);
    assert Spaced(DIST_BASE, DIST_EXTRA, 16);
    assert Spaced(DIST_BASE, DIST_EXTRA, 20);
    assert Spaced(DIST_BASE, DIST_EXTRA, 24);
    assert Spaced(DIST_BASE, DIST_EXTRA, 28);
  }

  lemma {:induction false} LastBaseIs(table: seq<nat>, v: nat, top: nat, c: nat)
    requires c <= top < |table| && table[0] <= v && table[c] <= v
    requires forall i :: c < i <= top ==> v < table[i]
    ensures LastBase(table, v, top) == c
  {
    if c < top { LastBaseIs(table, v, top - 1, c); }
  }

  lemma {:induction false} SpacedGrows(base: seq<nat>, extra: seq<nat>, c: nat, i: nat, j: nat)
    requires i <= j <= c < |base| <= |extra| && Spaced(base, extra, c)
    ensures base[i] <= base[j] && (i < j ==> base[i] + Pow2(extra[i]) <= base[j])
    decreases j
  {
    if i < j {
      SpacedGrows(base, extra, c, i, j - 1);
      SpacedAt(base, extra, c, j - 1);
    }
  }

  /** The length code of every length within a code's span. */
  lemma LengthCodeIs(len: nat, c: nat)
    requires c < 28 && LENGTH_BASE[c] <= len < LENGTH_BASE[c] + Pow2(LENGTH_EXTRA[c]) && 3 <= len < 258
    ensures LengthCode(len) == c
  {
    hide LENGTH_BASE, LENGTH_EXTRA, Spaced, LastBase, Pow2;
    LengthsSpaced();
    forall i | c < i <= 28
      ensures len < LENGTH_BASE[i]
    {
      if i < 28 { SpacedGrows(LENGTH_BASE, LENGTH_EXTRA, 27, c, i); }
    }
    LastBaseIs(LENGTH_BASE, len, 28, c);
  }

  lemma DistCodeIs(dist: nat, d: nat)
    requires d < 30 && 1 <= dist && DIST_BASE[d] <= dist < DIST_BASE[d] + Pow2(DIST_EXTRA[d])
    ensures DistCode(dist) == d
  {
    hide DIST_BASE, DIST_EXTRA, Spaced, LastBase, Pow2;
    DistancesSpaced();
    forall i | d < i <= 29
      ensures dist < DIST_BASE[i]
    {
      SpacedGrows(DIST_BASE, DIST_EXTRA, 29, d, i);
    }
    LastBaseIs(DIST_BASE, dist, 29, d);
  }

  /** The extra bits hold what is left of the length and the distance. */
  lemma ExtraFits(t: Token)
    requires t.Match? && t.Valid()
    ensures |LENGTH_EXTRA| == |LENGTH_BASE| == 29 && |DIST_EXTRA| == |DIST_BASE| == 30
    ensures var c := LengthCode(t.len); t.len - LENGTH_BASE[c] < Pow2(LENGTH_EXTRA[c])
    ensures var d := DistCode(t.dist); t.dist - DIST_BASE[d] < Pow2(DIST_EXTRA[d])
    ensures LengthCode(t.len) < 28 || t.len == 258
  {
    hide LENGTH_BASE, LENGTH_EXTRA, DIST_BASE, DIST_EXTRA, Spaced, Pow2;
    LengthsSpaced();
    DistancesSpaced();
    Pow2Values();
    var c, d := LengthCode(t.len), DistCode(t.dist);
    if c < 27 { SpacedAt(LENGTH_BASE, LENGTH_EXTRA, 27, c); }
    if d < 29 { SpacedAt(DIST_BASE, DIST_EXTRA, 29, d); }
  }

  /** The literal/length symbol of a token. */
  function LSym(t: Token): nat
    requires t.Valid()
  {
    if t.Literal? then t.b else 257 + LengthCode(t.len)
  }

  function DSym(t: Token): nat
    requires t.Match? && t.Valid()
  {
    DistCode(t.dist)
  }

  /** Both codes have a code word for the token. */
  ghost predicate Coded(ll: seq<nat>, dl: seq<nat>, t: Token)
  {
    && t.Valid()
    && LSym(t) < |ll| && ll[LSym(t)] > 0
    && (t.Match? ==> DSym(t) < |dl| && dl[DSym(t)] > 0)
  }

  /** The bits of the match after its length symbol. */
  function MatchTail(dl: seq<nat>, t: Token): bits
    requires t.Match? && t.Valid() && DSym(t) < |dl|
  {
    var c, d := LengthCode(t.len), DistCode(t.dist);
    Lsb(t.len - LENGTH_BASE[c], LENGTH_EXTRA[c])
      + (CodeWord(dl, d) + Lsb(t.dist - DIST_BASE[d], DIST_EXTRA[d]))
  }

  function EncodeToken(ll: seq<nat>, dl: seq<nat>, t: Token): bits
    requires t.Valid() && LSym(t) < |ll| && (t.Match? ==> DSym(t) < |dl|)
  {
    if t.Literal? then CodeWord(ll, t.b) else CodeWord(ll, LSym(t)) + MatchTail(dl, t)
  }

  ghost predicate AllCoded(ll: seq<nat>, dl: seq<nat>, ts: seq<Token>)
  {
    forall i :: 0 <= i < |ts| ==> Coded(ll, dl, ts[i])
  }

  ghost function EncodeTokens(ll: seq<nat>, dl: seq<nat>, ts: seq<Token>): bits
    requires AllCoded(ll, dl, ts)
  {
    if ts == [] then []
    else EncodeTokens(ll, dl, ts[..|ts| - 1]) + EncodeToken(ll, dl, ts[|ts| - 1])
  }

  /** What a token does to the output; None when it reaches back too far. */
  function Apply(out: seq<byte>, t: Token): Option<seq<byte>>
  {
    if t.Literal? then Some(out + [t.b])
    else if 1 <= t.dist <= |out| then Some(CopyMatch(out, t.dist, t.len))
    else None
  }

  function Expand(out: seq<byte>, ts: seq<Token>): Option<seq<byte>>
  {
    if ts == [] then Some(out)
    else
      match Expand(out, ts[..|ts| - 1])
      case None => None
      case Some(mid) => Apply(mid, ts[|ts| - 1])
  }

  lemma ExpandMore(out: seq<byte>, ts: seq<Token>, t: Token)
    requires Expand(out, ts).Some?
    ensures Expand(out, ts + [t]) == Apply(Expand(out, ts).value, t)
  {
    assert (ts + [t])[..|ts|] == ts;
  }

  lemma EncodeMore(ll: seq<nat>, dl: seq<nat>, ts: seq<Token>, t: Token)
    requires AllCoded(ll, dl, ts) && Coded(ll, dl, t)
    ensures AllCoded(ll, dl, ts + [t])
    ensures EncodeTokens(ll, dl, ts + [t]) == EncodeTokens(ll, dl, ts) + EncodeToken(ll, dl, t)
  {
    assert (ts + [t])[..|ts|] == ts;
  }

  // -- decoding ------------------------------------------------------------------------

  lemma ReadMatchParts(dl: seq<nat>, code: nat, s: bits, e: nat, s1: bits, d: nat, s2: bits, x: nat, s3: bits)
    requires code < 29 && d < 30 && |LENGTH_EXTRA| == |LENGTH_BASE| == 29 && |DIST_EXTRA| == |DIST_BASE| == 30
    requires ReadBits(s, LENGTH_EXTRA[code]) == Ok(e, s1)
    requires ReadSymbol(dl, s1) == Ok(d, s2)
    requires ReadBits(s2, DIST_EXTRA[d]) == Ok(x, s3)
    ensures ReadMatch(dl, code, s) == Ok((DIST_BASE[d] + x, LENGTH_BASE[code] + e), s3)
  {
    hide ReadBits, ReadSymbol, LENGTH_BASE, LENGTH_EXTRA, DIST_BASE, DIST_EXTRA;
  }

  lemma MatchTailParts(dl: seq<nat>, t: Token, rest: bits, e: nat, x: nat)
    requires t.Match? && t.Valid() && DSym(t) < |dl| && |LENGTH_EXTRA| == 29 && |DIST_EXTRA| == 30
    requires e == t.len - LENGTH_BASE[LengthCode(t.len)] && x == t.dist - DIST_BASE[DistCode(t.dist)]
    ensures MatchTail(dl, t) + rest == Lsb(e, LENGTH_EXTRA[LengthCode(t.len)])
      + (CodeWord(dl, DistCode(t.dist)) + (Lsb(x, DIST_EXTRA[DistCode(t.dist)]) + rest))
  {
    hide Lsb, CodeWord, LENGTH_BASE, LENGTH_EXTRA, DIST_BASE, DIST_EXTRA, LastBase;
    var a, b := Lsb(e, LENGTH_EXTRA[LengthCode(t.len)]), CodeWord(dl, DistCode(t.dist));
    var c := Lsb(x, DIST_EXTRA[DistCode(t.dist)]);
    ConcatAssoc(a, b + c, rest);
    ConcatAssoc(b, c, rest);
  }

  lemma ValidMatch(t: Token)
    requires t.Match? && t.Valid()
    ensures t.len >= 3 && t.dist >= 1 && DSym(t) == DistCode(t.dist) < 30 && LengthCode(t.len) < 29
  {
  }

  lemma ReadMatchBack(dl: seq<nat>, t: Token, rest: bits)
    requires t.Match? && t.Valid() && Decodable(dl) && DSym(t) < |dl| && dl[DSym(t)] > 0
    ensures t.len >= 3 && ReadMatch(dl, LengthCode(t.len), MatchTail(dl, t) + rest) == Ok((t.dist, t.len), rest)
  {
    hide *;
    ValidMatch(t);
    ExtraFits(t);
    var c, d := LengthCode(t.len), DistCode(t.dist);
    var e, x := t.len - LENGTH_BASE[c], t.dist - DIST_BASE[d];
    MatchTailParts(dl, t, rest, e, x);
    var s3 := rest;
    var s2 := Lsb(x, DIST_EXTRA[d]) + s3;
    var s1 := CodeWord(dl, d) + s2;
    ReadLsb(e, LENGTH_EXTRA[c], s1);
    ReadWord(dl, d, s2);
    ReadLsb(x, DIST_EXTRA[d], s3);
    ReadMatchParts(dl, c, MatchTail(dl, t) + rest, e, s1, d, s2, x, s3);
  }

  /** One token read back: the decoder goes on after it with the token applied. */
  lemma ReadTokenBack(ll: seq<nat>, dl: seq<nat>, t: Token, rest: bits, out: seq<byte>)
    requires Decodable(ll) && Decodable(dl) && Coded(ll, dl, t) && Apply(out, t).Some?
    ensures ReadTokens(ll, dl, EncodeToken(ll, dl, t) + rest, out) == ReadTokens(ll, dl, rest, Apply(out, t).value)
  {
    hide ReadSymbol, ReadMatch, CodeWord, MatchTail, Decodable, LENGTH_BASE, LENGTH_EXTRA, DIST_BASE, DIST_EXTRA,
        LastBase, CopyMatch;
    var s := EncodeToken(ll, dl, t) + rest;
    if t.Literal? {
      ReadWord(ll, t.b, rest);
    } else {
      ConcatAssoc(CodeWord(ll, LSym(t)), MatchTail(dl, t), rest);
      ReadWord(ll, LSym(t), MatchTail(dl, t) + rest);
      ReadMatchBack(dl, t, rest);
    }
  }

  /** Decoding what was encoded gives the tokens' meaning, and stops after the end symbol. */
  lemma {:induction false} ReadTokensBack(ll: seq<nat>, dl: seq<nat>, ts: seq<Token>, rest: bits, out: seq<byte>)
    requires Decodable(ll) && Decodable(dl) && AllCoded(ll, dl, ts) && Expand(out, ts).Some?
    ensures ReadTokens(ll, dl, EncodeTokens(ll, dl, ts) + rest, out) == ReadTokens(ll, dl, rest, Expand(out, ts).value)
  {
    hide ReadTokens, EncodeToken, Decodable, Apply;
    if ts == [] {
      assert EncodeTokens(ll, dl, ts) + rest == rest;
    } else {
      var init, t := ts[..|ts| - 1], ts[|ts| - 1];
      ConcatAssoc(EncodeTokens(ll, dl, init), EncodeToken(ll, dl, t), rest);
      ReadTokensBack(ll, dl, init, EncodeToken(ll, dl, t) + rest, out);
      ReadTokenBack(ll, dl, t, rest, Expand(out, init).value);
    }
  }

  lemma ReadEndBack(ll: seq<nat>, dl: seq<nat>, rest: bits, out: seq<byte>)
    requires Decodable(ll) && |ll| > 256 && ll[256] > 0
    ensures ReadTokens(ll, dl, CodeWord(ll, 256) + rest, out) == Ok(out, rest)
  {
    hide ReadSymbol, CodeWord, Decodable;
    ReadWord(ll, 256, rest);
  }

  /** A whole block's compressed data. */
  ghost function EncodeData(ll: seq<nat>, dl: seq<nat>, ts: seq<Token>): bits
    requires AllCoded(ll, dl, ts) && |ll| > 256
  {
    EncodeTokens(ll, dl, ts) + CodeWord(ll, 256)
  }

  lemma ReadDataBack(ll: seq<nat>, dl: seq<nat>, ts: seq<Token>, rest: bits, out: seq<byte>)
    requires Decodable(ll) && Decodable(dl) && AllCoded(ll, dl, ts) && Expand(out, ts).Some?
    requires |ll| > 256 && ll[256] > 0
    ensures ReadTokens(ll, dl, EncodeData(ll, dl, ts) + rest, out) == Ok(Expand(out, ts).value, rest)
  {
    hide ReadTokens, EncodeTokens, CodeWord, Decodable, AllCoded, Expand;
    ConcatAssoc(EncodeTokens(ll, dl, ts), CodeWord(ll, 256), rest);
    ReadTokensBack(ll, dl, ts, CodeWord(ll, 256) + rest, out);
    ReadEndBack(ll, dl, rest, Expand(out, ts).value);
  }
}
