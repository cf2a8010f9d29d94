/** The three ciphers of sixteen-byte blocks as the feedback mode runs them: each keeps the block size, and its two
    directions undo each other. */
module BlockCiphers {
  import opened ByteWords
  import opened CipherFeedback
  import opened EquivalentInverse
  import R = Rijndael
  import Q = Square
  import T = Twofish

  /** Rounds with a valid set of parts and the inverse keys make a cipher. */
  lemma RoundsAreCipher(p: Parts, keys: seq<State>, dec: seq<State>, c: BlockCipher)
    requires p.Valid() && InverseKeys(p.unmix, keys, dec) && |dec| == |keys| >= 2 && c.size == 16
    requires forall b: Bytes :: |b| == 16 ==>
      c.enc(b) == OnBytes(p.sub, p.mix, keys, b) && c.dec(b) == OnBytes(p.unsub, p.unmix, dec, b)
    ensures c.Valid()
  {
    hide OnBytes, InverseKeys, Parts.Valid;
    forall x: Bytes | |x| == c.size
      ensures |c.enc(x)| == c.size && c.dec(c.enc(x)) == x && |c.dec(x)| == c.size && c.enc(c.dec(x)) == x
    {
      BytesInvert(p, keys, dec, x);
    }
  }

  /** What the loops of Rijndael compute, for any round keys. */
  lemma RijndaelIsCipher(keys: seq<State>, dec: seq<State>, box: Box, inv: Box, c: BlockCipher)
    requires |dec| == |keys| >= 2 && InverseKeys(R.Mixing(UNMIX), keys, dec) && InverseBoxes(box, inv)
    requires c.size == 16 && forall b: Bytes :: |b| == 16 ==>
      && c.enc(b) == OnBytes(R.Forward(box), R.Mixing(MIX), keys, b)
      && c.dec(b) == OnBytes(R.Backward(inv), R.Mixing(UNMIX), dec, b)
    ensures c.Valid()
  {
    hide *;
    R.PartsValid(box, inv);
    R.PartsAre(box, inv);
    RoundsAreCipher(R.RijndaelParts(box, inv), keys, dec, c);
  }

  /** What the loops of Square compute, for any key. */
  lemma SquareIsCipher(keys: seq<State>, dec: seq<State>, box: Box, inv: Box, c: BlockCipher)
    requires |dec| == |keys| >= 2 && InverseKeys(s => DiffuseS(s, UNMIX, Q.POLY), keys, dec)
    requires InverseBoxes(box, inv)
    requires var p := Q.SquareParts(box, inv);
      c.size == 16 && forall b: Bytes :: |b| == 16 ==>
        c.enc(b) == OnBytes(p.sub, p.mix, keys, b) && c.dec(b) == OnBytes(p.unsub, p.unmix, dec, b)
    ensures c.Valid()
  {
    hide OnBytes, InverseKeys, Parts.Valid, InverseBoxes, DiffuseS, Q.SubTranspose, BlockCipher.Valid;
    Q.PartsValid(box, inv);
    RoundsAreCipher(Q.SquareParts(box, inv), keys, dec, c);
  }

  /** What the loops of Twofish compute, for any subkeys and boxes. */
  lemma TwofishIsCipher(k: T.Key, c: BlockCipher)
    requires k.Valid() && c.size == 16
    requires forall b: Bytes :: |b| == 16 ==> c.enc(b) == T.EncryptBytes(k, b) && c.dec(b) == T.DecryptBytes(k, b)
    ensures c.Valid()
  {
    hide T.Key.Valid, T.EncryptBytes, T.DecryptBytes;
    forall x: Bytes | |x| == c.size
      ensures |c.enc(x)| == c.size && c.dec(c.enc(x)) == x && |c.dec(x)| == c.size && c.enc(c.dec(x)) == x
    {
      T.BytesInvert(k, x);
    }
  }
}
