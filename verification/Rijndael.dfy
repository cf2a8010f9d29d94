/** Rijndael as the engine has it: decryption undoes encryption for any round keys. */
module Rijndael {
  import opened ByteWords
  import opened EquivalentInverse
  import opened RijndaelBox

  const POLY: bv8 := 0x1B

  function WordAt(s: State, i: nat): Word
  {
    var k := i % 4;
    if k == 0 then s.w0 else if k == 1 then s.w1 else if k == 2 then s.w2 else s.w3
  }

  /** Substitution and row shift in one: byte k of word j comes from k steps along. */
  function SubShiftWord(s: State, box: Box, step: nat, j: nat): Word
  {
    Word(Apply(box, WordAt(s, j).b0), Apply(box, WordAt(s, j + step).b1),
         Apply(box, WordAt(s, j + 2 * step).b2), Apply(box, WordAt(s, j + 3 * step).b3))
  }

  function SubShift(s: State, box: Box, step: nat): State
  {
    State(SubShiftWord(s, box, step, 0), SubShiftWord(s, box, step, 1),
          SubShiftWord(s, box, step, 2), SubShiftWord(s, box, step, 3))
  }

  /** Walking three steps with the inverse box undoes walking one with the box, and vice versa. */
  lemma ShiftsInvert(s: State, box: Box, inv: Box)
    requires InverseBoxes(box, inv)
    ensures SubShift(SubShift(s, box, 1), inv, 3) == s && SubShift(SubShift(s, inv, 3), box, 1) == s
  {
    hide *;
    ForwardBytes(s, box);
    BackwardBytes(SubShift(s, box, 1), inv);
    BackwardBytes(s, inv);
    ForwardBytes(SubShift(s, inv, 3), box);
    BoxesUndo(box, inv);
  }

  lemma BoxesUndo(box: Box, inv: Box)
    requires InverseBoxes(box, inv)
    ensures forall x :: Apply(inv, Apply(box, x)) == x
    ensures forall x :: Apply(box, Apply(inv, x)) == x
  {
    hide Apply;
  }

  /** The words come round every four steps. */
  lemma WordsRound(s: State)
    ensures WordAt(s, 0) == WordAt(s, 12) == s.w0 && WordAt(s, 1) == WordAt(s, 9) == s.w1
    ensures WordAt(s, 2) == WordAt(s, 6) == WordAt(s, 10) == s.w2
    ensures WordAt(s, 3) == WordAt(s, 7) == WordAt(s, 11) == s.w3
    ensures WordAt(s, 4) == WordAt(s, 8) == s.w0 && WordAt(s, 5) == s.w1
  {
  }

  lemma BackwardWord(s: State, box: Box, j: nat)
    requires j < 4
    ensures SubShiftWord(s, box, 3, j) ==
      Word(Apply(box, WordAt(s, j).b0), Apply(box, WordAt(s, j + 3).b1),
           Apply(box, WordAt(s, j + 6).b2), Apply(box, WordAt(s, j + 9).b3))
  {
    hide Apply, WordAt;
  }

  lemma ForwardBytes(s: State, box: Box)
    ensures SubShift(s, box, 1) == State(
      Word(Apply(box, s.w0.b0), Apply(box, s.w1.b1), Apply(box, s.w2.b2), Apply(box, s.w3.b3)),
      Word(Apply(box, s.w1.b0), Apply(box, s.w2.b1), Apply(box, s.w3.b2), Apply(box, s.w0.b3)),
      Word(Apply(box, s.w2.b0), Apply(box, s.w3.b1), Apply(box, s.w0.b2), Apply(box, s.w1.b3)),
      Word(Apply(box, s.w3.b0), Apply(box, s.w0.b1), Apply(box, s.w1.b2), Apply(box, s.w2.b3)))
  {
    hide Apply;
  }

  lemma BackwardBytes(s: State, box: Box)
    ensures SubShift(s, box, 3) == State(
      Word(Apply(box, s.w0.b0), Apply(box, s.w3.b1), Apply(box, s.w2.b2), Apply(box, s.w1.b3)),
      Word(Apply(box, s.w1.b0), Apply(box, s.w0.b1), Apply(box, s.w3.b2), Apply(box, s.w2.b3)),
      Word(Apply(box, s.w2.b0), Apply(box, s.w1.b1), Apply(box, s.w0.b2), Apply(box, s.w3.b3)),
      Word(Apply(box, s.w3.b0), Apply(box, s.w2.b1), Apply(box, s.w1.b2), Apply(box, s.w0.b3)))
  {
    hide Apply, WordAt, SubShiftWord;
    WordsRound(s);
    BackwardWord(s, box, 0);
    BackwardWord(s, box, 1);
    BackwardWord(s, box, 2);
    BackwardWord(s, box, 3);
  }

  function Forward(box: Box): State -> State
  {
    s => SubShift(s, box, 1)
  }

  function Backward(inv: Box): State -> State
  {
    s => SubShift(s, inv, 3)
  }

  function Mixing(c: Word): State -> State
  {
    s => DiffuseS(s, c, POLY)
  }

  function RijndaelParts(box: Box, inv: Box): Parts
  {
    Parts(Forward(box), Backward(inv), Mixing(MIX), Mixing(UNMIX))
  }

  lemma PartsValid(box: Box, inv: Box)
    requires InverseBoxes(box, inv)
    ensures RijndaelParts(box, inv).Valid()
  {
    hide SubShift, DiffuseS, XorS, MIX, UNMIX;
    var p := RijndaelParts(box, inv);
    forall x
      ensures p.unsub(p.sub(x)) == x && p.sub(p.unsub(x)) == x
    {
      ShiftsInvert(x, box, inv);
    }
    forall x
      ensures p.unmix(p.mix(x)) == x && p.mix(p.unmix(x)) == x
    {
      DiffuseSInverse(x, POLY);
    }
    forall x, y
      ensures p.mix(XorS(x, y)) == XorS(p.mix(x), p.mix(y)) && p.unmix(XorS(x, y)) == XorS(p.unmix(x), p.unmix(y))
    {
      DiffuseSLinear(x, y, MIX, POLY);
      DiffuseSLinear(x, y, UNMIX, POLY);
    }
  }

  lemma PartsAre(box: Box, inv: Box)
    ensures var p := RijndaelParts(box, inv);
      p.sub == Forward(box) && p.unsub == Backward(inv) && p.mix == Mixing(MIX) && p.unmix == Mixing(UNMIX)
  {
  }

  /** One word of a table-driven round. */
  function RoundWord(table: seq<seq<Word>>, s: State, step: nat, j: nat, key: Word): Word
    requires |table| == 4 && forall i :: 0 <= i < 4 ==> |table[i]| == 256
  {
    XorW(XorW(XorW(XorW(table[0][WordAt(s, j).b0 as int], table[1][WordAt(s, j + step).b1 as int]),
                   table[2][WordAt(s, j + 2 * step).b2 as int]), table[3][WordAt(s, j + 3 * step).b3 as int]), key)
  }

  /** Looking the columns up is substituting, shifting and diffusing. */
  lemma RoundIs(table: seq<seq<Word>>, box: Box, c: Word, s: State, step: nat, j: nat, key: Word)
    requires TableFor(table, box, c, POLY)
    ensures RoundWord(table, s, step, j, key) == XorW(Diffuse(SubShiftWord(s, box, step, j), c, POLY), key)
  {
    hide Column, XorW, Apply, WordAt, POLY;
    NoTurn(Column(Apply(box, WordAt(s, j).b0), c, POLY));
  }

  lemma NoTurn(w: Word)
    ensures RotW(w, 0) == w
  {
  }

  /** The shared round structure: key addition, rounds driven by the table, and a last round that
      substitutes and shifts without diffusing. dst and src may be the same. */
  method RijndaelTransform(dst: array<bv8>, src: array<bv8>, keys: seq<State>, table: seq<seq<Word>>, box: Box,
                           step: nat, ghost c: Word)
    requires dst.Length == src.Length == 16 && |keys| >= 2 && TableFor(table, box, c, POLY)
    modifies dst
    ensures dst[..] == OnBytes(s => SubShift(s, box, step), s => DiffuseS(s, c, POLY), keys, old(src[..]))
  {
    hide *;
    ghost var sub: State -> State, mix: State -> State := s => SubShift(s, box, step), s => DiffuseS(s, c, POLY);
    BytesAre(sub, mix, keys, src[..]);
    var w := LoadWords(src[..]);
    var rounds := |keys| - 1;
    var state := XorS(w, keys[0]);
    AfterStep(sub, mix, keys, w, 0);
    TableSize(table, box, c);
    var r := 1;
    while r < rounds
      invariant 1 <= r <= rounds && state == After(sub, mix, keys, w, r - 1)
    {
      var next := State(RoundWord(table, state, step, 0, keys[r].w0), RoundWord(table, state, step, 1, keys[r].w1),
                        RoundWord(table, state, step, 2, keys[r].w2), RoundWord(table, state, step, 3, keys[r].w3));
      WholeRound(table, box, c, state, step, keys[r], next);
      AfterStep(sub, mix, keys, w, r);
      state := next;
      r := r + 1;
    }
    TransformIs(sub, mix, keys, w);
    var out := XorS(SubShift(state, box, step), keys[rounds]);
    PutBlock(dst, StoreWords(out));
  }

  lemma TableSize(table: seq<seq<Word>>, box: Box, c: Word)
    requires TableFor(table, box, c, POLY)
    ensures |table| == 4 && forall i :: 0 <= i < 4 ==> |table[i]| == 256
  {
  }

  lemma WholeRound(table: seq<seq<Word>>, box: Box, c: Word, s: State, step: nat, key: State, next: State)
    requires TableFor(table, box, c, POLY) && |table| == 4 && forall i :: 0 <= i < 4 ==> |table[i]| == 256
    requires next == State(RoundWord(table, s, step, 0, key.w0), RoundWord(table, s, step, 1, key.w1),
                           RoundWord(table, s, step, 2, key.w2), RoundWord(table, s, step, 3, key.w3))
    ensures next == XorS(DiffuseS(SubShift(s, box, step), c, POLY), key)
  {
    RoundIs(table, box, c, s, step, 0, key.w0);
    RoundIs(table, box, c, s, step, 1, key.w1);
    RoundIs(table, box, c, s, step, 2, key.w2);
    RoundIs(table, box, c, s, step, 3, key.w3);
    hide RoundWord, Diffuse, SubShiftWord, XorW;
  }

  /** The decryption keys: the encryption keys backwards, undiffused except the outer two. */
  method ReverseKeys(keys: seq<State>) returns (dec: seq<State>)
    requires |keys| >= 2
    ensures InverseKeys(Mixing(UNMIX), keys, dec)
  {
    var rounds := |keys| - 1;
    dec := [];
    var r := 0;
    while r <= rounds
      invariant r <= rounds + 1 && |dec| == r
      invariant forall i :: 0 <= i < r ==>
        dec[i] == if 0 < i < rounds then DiffuseS(keys[rounds - i], UNMIX, POLY) else keys[rounds - i]
    {
      var k := keys[rounds - r];
      if r > 0 && r < rounds {
        k := DiffuseS(k, UNMIX, POLY);
      }
      dec := dec + [k];
      r := r + 1;
    }
    hide DiffuseS, UNMIX;
  }

  /** For all round keys and every block, decrypting in place what was encrypted in place gives the block back, and so
      does encrypting what was decrypted. The box is the derived one; any other permutation would do as well. */
  method BothWays(block: array<bv8>, keys: seq<State>, decryptFirst: bool)
    requires block.Length == 16 && |keys| >= 2
    modifies block
    ensures block[..] == old(block[..])
  {
    hide *;
    var box := BuildRijndaelSE();
    var inv := InvertBox(box);
    var enc := BuildTable(box, MIX, POLY);
    var dec := BuildTable(inv, UNMIX, POLY);
    var back := ReverseKeys(keys);
    KeyCount(keys, back);
    RoundTrip(block[..], keys, back, box, inv);
    if decryptFirst {
      RijndaelTransform(block, block, back, dec, inv, 3, UNMIX);
      RijndaelTransform(block, block, keys, enc, box, 1, MIX);
    } else {
      RijndaelTransform(block, block, keys, enc, box, 1, MIX);
      RijndaelTransform(block, block, back, dec, inv, 3, UNMIX);
    }
  }

  lemma KeyCount(keys: seq<State>, dec: seq<State>)
    requires InverseKeys(Mixing(UNMIX), keys, dec)
    ensures |dec| == |keys| >= 2
  {
  }

  /** The two transformations are inverse, on blocks as bytes. */
  lemma RoundTrip(b: seq<bv8>, keys: seq<State>, dec: seq<State>, box: Box, inv: Box)
    requires |b| == 16 && |dec| == |keys| >= 2 && InverseKeys(Mixing(UNMIX), keys, dec) && InverseBoxes(box, inv)
    ensures OnBytes(s => SubShift(s, inv, 3), s => DiffuseS(s, UNMIX, POLY), dec,
              OnBytes(s => SubShift(s, box, 1), s => DiffuseS(s, MIX, POLY), keys, b)) == b
    ensures OnBytes(s => SubShift(s, box, 1), s => DiffuseS(s, MIX, POLY), keys,
              OnBytes(s => SubShift(s, inv, 3), s => DiffuseS(s, UNMIX, POLY), dec, b)) == b
  {
    hide OnBytes, SubShift, DiffuseS, InverseKeys, InverseBoxes;
    PartsValid(box, inv);
    BytesInvert(RijndaelParts(box, inv), keys, dec, b);
  }
}
