/** Triple DES over blocks of twenty-four bytes, with the word exchange between the stages. */
module TripleDes {
  import opened CipherFeedback

  /** One direction of a cipher of eight-byte blocks applied to each third of the block. */
  function Stage(b: Bytes, f: Bytes -> Bytes): Bytes
    requires |b| == 24
  {
    f(b[0..8]) + f(b[8..16]) + f(b[16..24])
  }

  /** Words 1 and 2 change places; words 3 and 4 do not. */
  function Exchange(b: Bytes): (r: Bytes)
    requires |b| == 24
    ensures |r| == 24
  {
    b[..4] + b[8..12] + b[4..8] + b[12..]
  }

  lemma ExchangeTwice(b: Bytes)
    requires |b| == 24
    ensures Exchange(Exchange(b)) == b
  {
    var e := Exchange(b);
    assert e[..4] == b[..4] && e[4..8] == b[8..12] && e[8..12] == b[4..8] && e[12..] == b[12..];
    assert b == b[..4] + b[4..8] + b[8..12] + b[12..];
  }

  /** A cipher of eight-byte blocks. */
  ghost predicate Des(c: BlockCipher)
  {
    c.size == 8 && c.Valid()
  }

  lemma DesFacts(c: BlockCipher, x: Bytes)
    requires Des(c) && |x| == 8
    ensures |c.enc(x)| == 8 && c.dec(c.enc(x)) == x && |c.dec(x)| == 8 && c.enc(c.dec(x)) == x
  {
  }

  lemma StageSize(c: BlockCipher, b: Bytes)
    requires Des(c) && |b| == 24
    ensures |Stage(b, c.enc)| == 24 && |Stage(b, c.dec)| == 24
  {
    DesFacts(c, b[0..8]);
    DesFacts(c, b[8..16]);
    DesFacts(c, b[16..24]);
  }

  lemma StagesInvert(c: BlockCipher, b: Bytes)
    requires Des(c) && |b| == 24
    ensures |Stage(b, c.enc)| == 24 && |Stage(b, c.dec)| == 24
    ensures Stage(Stage(b, c.enc), c.dec) == b && Stage(Stage(b, c.dec), c.enc) == b
  {
    hide Des;
    var x, y, z := b[0..8], b[8..16], b[16..24];
    DesFacts(c, x);
    DesFacts(c, y);
    DesFacts(c, z);
    Thirds(c.enc(x), c.enc(y), c.enc(z));
    Thirds(c.dec(x), c.dec(y), c.dec(z));
    assert b == x + y + z;
  }

  lemma Thirds(x: Bytes, y: Bytes, z: Bytes)
    requires |x| == |y| == |z| == 8
    ensures (x + y + z)[0..8] == x && (x + y + z)[8..16] == y && (x + y + z)[16..24] == z && |x + y + z| == 24
  {
  }

  /** The whole block, for keys that are ciphers; anything else is left alone. */
  ghost function Enc24(k1: BlockCipher, k2: BlockCipher, k3: BlockCipher, b: Bytes): Bytes
  {
    if |b| == 24 && Des(k1) && Des(k2) && Des(k3) then
      StageSize(k1, b);
      StageSize(k2, Exchange(Stage(b, k1.enc)));
      Stage(Exchange(Stage(Exchange(Stage(b, k1.enc)), k2.dec)), k3.enc)
    else b
  }

  ghost function Dec24(k1: BlockCipher, k2: BlockCipher, k3: BlockCipher, b: Bytes): Bytes
  {
    if |b| == 24 && Des(k1) && Des(k2) && Des(k3) then
      StageSize(k3, b);
      StageSize(k2, Exchange(Stage(b, k3.dec)));
      Stage(Exchange(Stage(Exchange(Stage(b, k3.dec)), k2.enc)), k1.dec)
    else b
  }

  /** Decryption undoes encryption and the other way round, for any three invertible keys. */
  lemma TripleInverts(k1: BlockCipher, k2: BlockCipher, k3: BlockCipher, b: Bytes)
    requires Des(k1) && Des(k2) && Des(k3) && |b| == 24
    ensures |Enc24(k1, k2, k3, b)| == 24 && |Dec24(k1, k2, k3, b)| == 24
    ensures Dec24(k1, k2, k3, Enc24(k1, k2, k3, b)) == b && Enc24(k1, k2, k3, Dec24(k1, k2, k3, b)) == b
  {
    hide Des, Stage, Exchange;
    StagesInvert(k1, b);
    var s := Stage(b, k1.enc);
    ExchangeTwice(s);
    var t := Exchange(s);
    StagesInvert(k2, t);
    var u := Stage(t, k2.dec);
    ExchangeTwice(u);
    StagesInvert(k3, Exchange(u));

    StagesInvert(k3, b);
    var s2 := Stage(b, k3.dec);
    ExchangeTwice(s2);
    var t2 := Exchange(s2);
    StagesInvert(k2, t2);
    var u2 := Stage(t2, k2.enc);
    ExchangeTwice(u2);
    StagesInvert(k1, Exchange(u2));
  }

  /** So it is a block cipher the feedback mode can run. */
  lemma TripleIsCipher(k1: BlockCipher, k2: BlockCipher, k3: BlockCipher, c: BlockCipher)
    requires Des(k1) && Des(k2) && Des(k3) && c.size == 24
    requires forall b :: c.enc(b) == Enc24(k1, k2, k3, b) && c.dec(b) == Dec24(k1, k2, k3, b)
    ensures c.Valid()
  {
    hide Des, Enc24, Dec24;
    forall x: Bytes | |x| == c.size
      ensures |c.enc(x)| == c.size && c.dec(c.enc(x)) == x && |c.dec(x)| == c.size && c.enc(c.dec(x)) == x
    {
      TripleInverts(k1, k2, k3, x);
    }
  }

  // -- in place ------------------------------------------------------------------------------------------

  /** The i-th third of a block. */
  function Third(b: Bytes, i: nat): Bytes
    requires |b| == 24 && i < 3
  {
    b[8 * i..8 * i + 8]
  }

  function Direction(c: BlockCipher, encrypt: bool): Bytes -> Bytes
  {
    if encrypt then c.enc else c.dec
  }

  /** Runs one direction over one part of the buffer. */
  method RunPart(buf: array<bv8>, i: nat, c: BlockCipher, encrypt: bool)
    requires buf.Length == 24 && i < 3 && Des(c)
    modifies buf
    ensures Third(buf[..], i) == Direction(c, encrypt)(Third(old(buf[..]), i))
    ensures forall j :: 0 <= j < 3 && j != i ==> Third(buf[..], j) == Third(old(buf[..]), j)
  {
    hide Des;
    var sub := buf[8 * i..8 * i + 8];
    DesFacts(c, sub);
    var x := Direction(c, encrypt)(sub);
    forall j | 0 <= j < 8 { buf[8 * i + j] := x[j]; }
  }

  lemma StageByThirds(a: Bytes, b: Bytes, f: Bytes -> Bytes)
    requires |a| == |b| == 24 && forall j :: 0 <= j < 3 ==> Third(b, j) == f(Third(a, j))
    ensures b == Stage(a, f)
  {
    assert b == Third(b, 0) + Third(b, 1) + Third(b, 2);
  }

  /** Runs one direction over the three parts of the buffer. */
  method RunStage(buf: array<bv8>, c: BlockCipher, encrypt: bool)
    requires buf.Length == 24 && Des(c)
    modifies buf
    ensures |Stage(old(buf[..]), c.enc)| == 24 && |Stage(old(buf[..]), c.dec)| == 24
    ensures buf[..] == if encrypt then Stage(old(buf[..]), c.enc) else Stage(old(buf[..]), c.dec)
  {
    hide Des, Third, Stage;
    ghost var b0 := buf[..];
    StageSize(c, b0);
    var i := 0;
    while i < 3
      invariant i <= 3
      invariant forall j :: 0 <= j < 3 ==>
        Third(buf[..], j) == if j < i then Direction(c, encrypt)(Third(b0, j)) else Third(b0, j)
    {
      RunPart(buf, i, c, encrypt);
      i := i + 1;
    }
    StageByThirds(b0, buf[..], Direction(c, encrypt));
  }

  /** Exchanges words 1 and 2 of the buffer. */
  method TripleDESSwap(buf: array<bv8>)
    requires buf.Length == 24
    modifies buf
    ensures buf[..] == Exchange(old(buf[..]))
  {
    var tmp := buf[4..8];
    forall j | 0 <= j < 4 { buf[4 + j] := buf[8 + j]; }
    forall j | 0 <= j < 4 { buf[8 + j] := tmp[j]; }
  }

  /** Encrypts a block; dst and src may be the same. */
  method Encrypt(k1: BlockCipher, k2: BlockCipher, k3: BlockCipher, dst: array<bv8>, src: array<bv8>)
    requires Des(k1) && Des(k2) && Des(k3) && dst.Length == src.Length == 24
    modifies dst
    ensures dst[..] == Enc24(k1, k2, k3, old(src[..]))
  {
    hide Des, Stage, Exchange;
    var buf := new bv8[24](i requires 0 <= i < 24 reads src => src[i]);
    assert buf[..] == src[..];
    RunStage(buf, k1, true);
    TripleDESSwap(buf);
    RunStage(buf, k2, false);
    TripleDESSwap(buf);
    RunStage(buf, k3, true);
    forall i | 0 <= i < 24 { dst[i] := buf[i]; }
    assert dst[..] == buf[..];
  }

  /** Decrypts a block; dst and src may be the same. */
  method Decrypt(k1: BlockCipher, k2: BlockCipher, k3: BlockCipher, dst: array<bv8>, src: array<bv8>)
    requires Des(k1) && Des(k2) && Des(k3) && dst.Length == src.Length == 24
    modifies dst
    ensures dst[..] == Dec24(k1, k2, k3, old(src[..]))
  {
    hide Des, Stage, Exchange;
    var buf := new bv8[24](i requires 0 <= i < 24 reads src => src[i]);
    assert buf[..] == src[..];
    RunStage(buf, k3, false);
    TripleDESSwap(buf);
    RunStage(buf, k2, true);
    TripleDESSwap(buf);
    RunStage(buf, k1, false);
    forall i | 0 <= i < 24 { dst[i] := buf[i]; }
    assert dst[..] == buf[..];
  }
}
