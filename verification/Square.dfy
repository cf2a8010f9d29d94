/** Square as the engine has it: its two schedules are built in one pass, and decryption undoes
    encryption for every key. */
module Square {
  import opened Bits
  import opened ByteWords
  import opened EquivalentInverse
  import opened SquareBox

  const POLY: bv8 := 0xF5

  /** Substitution and transposition in one: word i is made of byte i of every word. */
  function SubTranspose(s: State, box: Box): State
  {
    State(Word(Apply(box, s.w0.b0), Apply(box, s.w1.b0), Apply(box, s.w2.b0), Apply(box, s.w3.b0)),
          Word(Apply(box, s.w0.b1), Apply(box, s.w1.b1), Apply(box, s.w2.b1), Apply(box, s.w3.b1)),
          Word(Apply(box, s.w0.b2), Apply(box, s.w1.b2), Apply(box, s.w2.b2), Apply(box, s.w3.b2)),
          Word(Apply(box, s.w0.b3), Apply(box, s.w1.b3), Apply(box, s.w2.b3), Apply(box, s.w3.b3)))
  }

  lemma TransposesInvert(s: State, box: Box, inv: Box)
    requires InverseBoxes(box, inv)
    ensures SubTranspose(SubTranspose(s, box), inv) == s && SubTranspose(SubTranspose(s, inv), box) == s
  {
    hide Apply;
  }

  function SquareParts(box: Box, inv: Box): Parts
  {
    Parts(s => SubTranspose(s, box), s => SubTranspose(s, inv),
          s => DiffuseS(s, MIX, POLY), s => DiffuseS(s, UNMIX, POLY))
  }

  lemma PartsValid(box: Box, inv: Box)
    requires InverseBoxes(box, inv)
    ensures SquareParts(box, inv).Valid()
  {
    hide SubTranspose, DiffuseS, XorS, MIX, UNMIX;
    var p := SquareParts(box, inv);
    forall x
      ensures p.unsub(p.sub(x)) == x && p.sub(p.unsub(x)) == x
    {
      TransposesInvert(x, box, inv);
    }
    forall x
      ensures p.unmix(p.mix(x)) == x && p.mix(p.unmix(x)) == x
    {
      DiffuseSInverse(x, POLY);
    }
    forall x, y
      ensures p.mix(XorS(x, y)) == XorS(p.mix(x), p.mix(y)) && p.unmix(XorS(x, y)) == XorS(p.unmix(x), p.unmix(y))
    {
      DiffuseSLinear(x, y, MIX, POLY);
      DiffuseSLinear(x, y, UNMIX, POLY);
    }
  }

  // -- the key schedule -----------------------------------------------------------------------------

  /** One step of the schedule, from the raw round key before. */
  function NextKey(k: State, t: nat): State
    requires 1 <= t <= 8
  {
    var w0 := XorW(XorW(k.w0, RotW(k.w3, 3)), Word(BitMask(t - 1), 0, 0, 0));
    var w1 := XorW(k.w1, w0);
    var w2 := XorW(k.w2, w1);
    State(w0, w1, w2, XorW(k.w3, w2))
  }

  /** The raw round keys. */
  function RawKey(key: State, t: nat): State
    requires t <= 8
  {
    if t == 0 then key else NextKey(RawKey(key, t - 1), t)
  }

  /** The schedules after the first t round keys: the last made is still raw in both. */
  ghost predicate Scheduled(key: State, enc: seq<State>, dec: seq<State>, t: nat)
  {
    && |enc| == |dec| == 9 && t <= 8
    && (forall i :: 0 <= i < t ==> enc[i] == DiffuseS(RawKey(key, i), MIX, POLY))
    && enc[t] == RawKey(key, t)
    && forall i :: 1 <= i <= t ==> dec[8 - i] == RawKey(key, i)
  }

  lemma ScheduleStep(key: State, enc: seq<State>, dec: seq<State>, t: nat)
    requires 1 <= t <= 8 && Scheduled(key, enc, dec, t - 1)
    ensures |enc| == |dec| == 9
    ensures var k := NextKey(enc[t - 1], t);
      Scheduled(key, enc[t := k][t - 1 := DiffuseS(enc[t - 1], MIX, POLY)], dec[8 - t := k], t)
  {
    hide DiffuseS, NextKey, MIX;
  }

  lemma ScheduleDone(key: State, enc: seq<State>, dec: seq<State>)
    requires Scheduled(key, enc, dec, 8)
    ensures InverseKeys(s => DiffuseS(s, UNMIX, POLY), enc, dec[8 := enc[0]])
  {
    hide DiffuseS, NextKey, MIX, UNMIX;
    forall r | 0 < r < 8
      ensures dec[r] == DiffuseS(enc[8 - r], UNMIX, POLY)
    {
      assert dec[8 - (8 - r)] == RawKey(key, 8 - r);
      DiffuseSInverse(RawKey(key, 8 - r), POLY);
    }
  }

  /** Expands the key in one pass: each round key goes raw into the decryption schedule, backwards,
      and is diffused in the encryption schedule once the next has been made from it. */
  method NewSquare(key: State) returns (enc: array<State>, dec: array<State>)
    ensures fresh(enc) && fresh(dec) && enc.Length == dec.Length == 9
    ensures Scheduled(key, enc[..], dec[..], 8)
    ensures InverseKeys(s => DiffuseS(s, UNMIX, POLY), enc[..], dec[..])
  {
    hide *;
    enc := new State[9](_ => key);
    dec := new State[9](_ => key);
    ScheduleStart(key, enc[..], dec[..]);
    var t := 1;
    while t <= 8
      modifies enc, dec
      invariant 1 <= t <= 9 && Scheduled(key, enc[..], dec[..], t - 1)
    {
      ScheduleStep(key, enc[..], dec[..], t);
      ghost var e0, d0, k0 := enc[..], dec[..], NextKey(enc[t - 1], t);
      enc[t] := NextKey(enc[t - 1], t);
      dec[8 - t] := enc[t];
      enc[t - 1] := DiffuseS(enc[t - 1], MIX, POLY);
      assert enc[..] == e0[t := k0][t - 1 := DiffuseS(e0[t - 1], MIX, POLY)];
      assert dec[..] == d0[8 - t := k0];
      t := t + 1;
    }
    ghost var d0 := dec[..];
    ScheduleDone(key, enc[..], d0);
    LastSlot(key, enc[..], d0);
    dec[8] := enc[0];
    assert dec[..] == d0[8 := enc[0]];
  }

  lemma ScheduleStart(key: State, enc: seq<State>, dec: seq<State>)
    requires |enc| == |dec| == 9 && enc[0] == key
    ensures Scheduled(key, enc, dec, 0)
  {
    hide DiffuseS, NextKey, MIX;
  }

  /** The last place of the decryption schedule is not a raw key. */
  lemma LastSlot(key: State, enc: seq<State>, dec: seq<State>)
    requires Scheduled(key, enc, dec, 8)
    ensures Scheduled(key, enc, dec[8 := enc[0]], 8)
  {
    hide DiffuseS, NextKey, MIX;
  }

  // -- the rounds ------------------------------------------------------------------------------------

  function RoundWord(table: seq<seq<Word>>, a: bv8, b: bv8, c: bv8, d: bv8, key: Word): Word
    requires |table| == 4 && forall i :: 0 <= i < 4 ==> |table[i]| == 256
  {
    XorW(XorW(XorW(XorW(table[0][a as int], table[1][b as int]), table[2][c as int]), table[3][d as int]), key)
  }

  lemma RoundIs(table: seq<seq<Word>>, box: Box, m: Word, a: bv8, b: bv8, c: bv8, d: bv8, key: Word)
    requires TableFor(table, box, m, POLY)
    ensures RoundWord(table, a, b, c, d, key)
      == XorW(Diffuse(Word(Apply(box, a), Apply(box, b), Apply(box, c), Apply(box, d)), m, POLY), key)
  {
    hide Column, XorW, Apply, POLY;
    assert RotW(Column(Apply(box, a), m, POLY), 0) == Column(Apply(box, a), m, POLY);
  }

  lemma TableSize(table: seq<seq<Word>>, box: Box, m: Word)
    requires TableFor(table, box, m, POLY)
    ensures |table| == 4 && forall i :: 0 <= i < 4 ==> |table[i]| == 256
  {
  }

  lemma WholeRound(table: seq<seq<Word>>, box: Box, m: Word, s: State, key: State, next: State)
    requires TableFor(table, box, m, POLY) && |table| == 4 && forall i :: 0 <= i < 4 ==> |table[i]| == 256
    requires next == State(RoundWord(table, s.w0.b0, s.w1.b0, s.w2.b0, s.w3.b0, key.w0),
                           RoundWord(table, s.w0.b1, s.w1.b1, s.w2.b1, s.w3.b1, key.w1),
                           RoundWord(table, s.w0.b2, s.w1.b2, s.w2.b2, s.w3.b2, key.w2),
                           RoundWord(table, s.w0.b3, s.w1.b3, s.w2.b3, s.w3.b3, key.w3))
    ensures next == XorS(DiffuseS(SubTranspose(s, box), m, POLY), key)
  {
    hide RoundWord, Diffuse, XorW, Apply;
    RoundIs(table, box, m, s.w0.b0, s.w1.b0, s.w2.b0, s.w3.b0, key.w0);
    RoundIs(table, box, m, s.w0.b1, s.w1.b1, s.w2.b1, s.w3.b1, key.w1);
    RoundIs(table, box, m, s.w0.b2, s.w1.b2, s.w2.b2, s.w3.b2, key.w2);
    RoundIs(table, box, m, s.w0.b3, s.w1.b3, s.w2.b3, s.w3.b3, key.w3);
  }

  /** Seven rounds driven by the table, and an output round without diffusion. dst and src may be the same. */
  method SquareTransform(dst: array<bv8>, src: array<bv8>, keys: seq<State>, table: seq<seq<Word>>, box: Box,
      ghost m: Word)
    requires dst.Length == src.Length == 16 && |keys| == 9 && TableFor(table, box, m, POLY)
    modifies dst
    ensures dst[..] == OnBytes(s => SubTranspose(s, box), s => DiffuseS(s, m, POLY), keys, old(src[..]))
  {
    hide *;
    ghost var sub: State -> State, mix: State -> State := s => SubTranspose(s, box), s => DiffuseS(s, m, POLY);
    BytesAre(sub, mix, keys, src[..]);
    var w := LoadWords(src[..]);
    var s := XorS(w, keys[0]);
    AfterStep(sub, mix, keys, w, 0);
    TableSize(table, box, m);
    var round := 1;
    while round <= 7
      invariant 1 <= round <= 8 && s == After(sub, mix, keys, w, round - 1)
    {
      var k := keys[round];
      var next := State(RoundWord(table, s.w0.b0, s.w1.b0, s.w2.b0, s.w3.b0, k.w0),
                        RoundWord(table, s.w0.b1, s.w1.b1, s.w2.b1, s.w3.b1, k.w1),
                        RoundWord(table, s.w0.b2, s.w1.b2, s.w2.b2, s.w3.b2, k.w2),
                        RoundWord(table, s.w0.b3, s.w1.b3, s.w2.b3, s.w3.b3, k.w3));
      WholeRound(table, box, m, s, k, next);
      AfterStep(sub, mix, keys, w, round);
      s := next;
      round := round + 1;
    }
    TransformIs(sub, mix, keys, w);
    PutBlock(dst, StoreWords(XorS(SubTranspose(s, box), keys[8])));
  }

  /** For every key and every block, decrypting in place what was encrypted in place gives the block back, and so does
      encrypting what was decrypted; any other permutation would do as the box. */
  method BothWays(block: array<bv8>, key: State, decryptFirst: bool)
    requires block.Length == 16
    modifies block
    ensures block[..] == old(block[..])
  {
    hide *;
    var box := SquareSE();
    SquareIsPermutation();
    var inv := InvertBox(box);
    var te := BuildTable(box, MIX, POLY);
    var td := BuildTable(inv, UNMIX, POLY);
    var enc, dec := NewSquare(key);
    RoundTrip(block[..], enc[..], dec[..], box, inv);
    if decryptFirst {
      SquareTransform(block, block, dec[..], td, inv, UNMIX);
      SquareTransform(block, block, enc[..], te, box, MIX);
    } else {
      SquareTransform(block, block, enc[..], te, box, MIX);
      SquareTransform(block, block, dec[..], td, inv, UNMIX);
    }
  }

  lemma RoundTrip(b: seq<bv8>, keys: seq<State>, dec: seq<State>, box: Box, inv: Box)
    requires |b| == 16 && |dec| == |keys| >= 2 && InverseKeys(s => DiffuseS(s, UNMIX, POLY), keys, dec)
    requires InverseBoxes(box, inv)
    ensures OnBytes(s => SubTranspose(s, inv), s => DiffuseS(s, UNMIX, POLY), dec,
              OnBytes(s => SubTranspose(s, box), s => DiffuseS(s, MIX, POLY), keys, b)) == b
    ensures OnBytes(s => SubTranspose(s, box), s => DiffuseS(s, MIX, POLY), keys,
              OnBytes(s => SubTranspose(s, inv), s => DiffuseS(s, UNMIX, POLY), dec, b)) == b
  {
    hide OnBytes, SubTranspose, DiffuseS, InverseKeys, InverseBoxes;
    PartsValid(box, inv);
    BytesInvert(SquareParts(box, inv), keys, dec, b);
  }
}
