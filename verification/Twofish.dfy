/** Twofish as the engine has it: a Feistel network with one-bit rotations, inverted half round by half
    round for any subkeys and boxes. */
module Twofish {
  datatype Block = Block(a: bv32, b: bv32, c: bv32, d: bv32)

  /** Forty subkeys and four boxes of words. */
  datatype Key = Key(sub: seq<bv32>, box: seq<seq<bv32>>)
  {
    predicate Valid() {
      |sub| == 40 && |box| == 4 && forall i :: 0 <= i < 4 ==> |box[i]| == 256
    }
  }

  function Xor32(x: bv32, y: bv32): bv32
  {
    x ^ y
  }

  /** Addition modulo two to the thirty-two. */
  function Add32(x: bv32, y: bv32): bv32
  {
    x + y
  }

  function Double(x: bv32): bv32
  {
    x << 1
  }

  function ByteWord(x: bv32, k: nat): (v: bv32)
    requires k < 4
    ensures v < 256
  {
    if k == 0 then x & 0xFF else if k == 1 then (x >> 8) & 0xFF else if k == 2 then (x >> 16) & 0xFF
    else x >> 24
  }

  function ByteOf(x: bv32, k: nat): (i: nat)
    requires k < 4
    ensures i < 256
  {
    SmallWord(ByteWord(x, k));
    ByteWord(x, k) as int
  }

  lemma SmallWord(v: bv32)
    ensures v < 256 ==> 0 <= v as int < 256
  {
  }

  /** The boxes applied to a word's bytes and added up. */
  function G(k: Key, x: bv32): bv32
    requires k.Valid()
  {
    k.box[0][ByteOf(x, 0)] ^ k.box[1][ByteOf(x, 1)] ^ k.box[2][ByteOf(x, 2)] ^ k.box[3][ByteOf(x, 3)]
  }

  /** The same for the word rotated by a byte. */
  function GRot(k: Key, x: bv32): bv32
    requires k.Valid()
  {
    k.box[1][ByteOf(x, 0)] ^ k.box[2][ByteOf(x, 1)] ^ k.box[3][ByteOf(x, 2)] ^ k.box[0][ByteOf(x, 3)]
  }

  function RotL(x: bv32): bv32
  {
    (x << 1) | (x >> 31)
  }

  function RotR(x: bv32): bv32
  {
    (x >> 1) | (x << 31)
  }

  /** Rotating left by one moves every bit one place up, the highest to the bottom; rotating right undoes that. */
  lemma RotLBits(x: bv32, k: bv32)
    requires k < 32
    ensures (RotL(x) >> k) & 1 == (x >> ((k + 31) & 31)) & 1
  {
  }

  lemma RotRBits(x: bv32, k: bv32)
    requires k < 32
    ensures (RotR(x) >> k) & 1 == (x >> ((k + 1) & 31)) & 1
  {
  }

  /** A word rotated left by a byte. */
  function ByteUp(x: bv32): bv32
  {
    (x << 8) | (x >> 24)
  }

  lemma ByteUpWords(x: bv32)
    ensures ByteWord(ByteUp(x), 0) == ByteWord(x, 3) && ByteWord(ByteUp(x), 1) == ByteWord(x, 0)
    ensures ByteWord(ByteUp(x), 2) == ByteWord(x, 1) && ByteWord(ByteUp(x), 3) == ByteWord(x, 2)
  {
  }

  lemma ByteUpBytes(x: bv32)
    ensures ByteOf(ByteUp(x), 0) == ByteOf(x, 3) && ByteOf(ByteUp(x), 1) == ByteOf(x, 0)
    ensures ByteOf(ByteUp(x), 2) == ByteOf(x, 1) && ByteOf(ByteUp(x), 3) == ByteOf(x, 2)
  {
    hide ByteWord, ByteUp;
    ByteUpWords(x);
  }

  /** The second of the two box sums is the first one of the word rotated by a byte. */
  lemma GRotIsG(k: Key, x: bv32)
    requires k.Valid()
    ensures GRot(k, x) == G(k, ByteUp(x))
  {
    hide ByteOf, ByteUp;
    ByteUpBytes(x);
    Cyclic(k.box[1][ByteOf(x, 0)], k.box[2][ByteOf(x, 1)], k.box[3][ByteOf(x, 2)], k.box[0][ByteOf(x, 3)]);
  }

  lemma Cyclic(a: bv32, b: bv32, c: bv32, d: bv32)
    ensures a ^ b ^ c ^ d == d ^ a ^ b ^ c
  {
  }

  lemma RotationsInvert(x: bv32)
    ensures RotL(RotR(x)) == x && RotR(RotL(x)) == x
  {
  }

  lemma XorTwice(x: bv32, y: bv32)
    ensures Xor32(Xor32(x, y), y) == x
  {
  }

  /** The two sums a half round mixes in. */
  function First(k: Key, x: bv32, y: bv32, s: bv32): bv32
    requires k.Valid()
  {
    Add32(Add32(G(k, x), GRot(k, y)), s)
  }

  function Second(k: Key, x: bv32, y: bv32, s: bv32): bv32
    requires k.Valid()
  {
    Add32(Add32(G(k, x), Double(GRot(k, y))), s)
  }

  /** Half a round: (x, y) drive, (u, v) change. */
  function HalfU(k: Key, x: bv32, y: bv32, u: bv32, s: bv32): bv32
    requires k.Valid()
  {
    RotR(Xor32(u, First(k, x, y, s)))
  }

  function HalfV(k: Key, x: bv32, y: bv32, v: bv32, s: bv32): bv32
    requires k.Valid()
  {
    Xor32(RotL(v), Second(k, x, y, s))
  }

  function UnhalfU(k: Key, x: bv32, y: bv32, u: bv32, s: bv32): bv32
    requires k.Valid()
  {
    Xor32(RotL(u), First(k, x, y, s))
  }

  function UnhalfV(k: Key, x: bv32, y: bv32, v: bv32, s: bv32): bv32
    requires k.Valid()
  {
    RotR(Xor32(v, Second(k, x, y, s)))
  }

  lemma HalvesInvert(k: Key, x: bv32, y: bv32, u: bv32, v: bv32, s: bv32, t: bv32)
    requires k.Valid()
    ensures UnhalfU(k, x, y, HalfU(k, x, y, u, s), s) == u && UnhalfV(k, x, y, HalfV(k, x, y, v, t), t) == v
    ensures HalfU(k, x, y, UnhalfU(k, x, y, u, s), s) == u && HalfV(k, x, y, UnhalfV(k, x, y, v, t), t) == v
  {
    hide First, Second, RotL, RotR, Xor32, Key.Valid;
    var f, g := First(k, x, y, s), Second(k, x, y, t);
    RotationsInvert(Xor32(u, f));
    RotationsInvert(u);
    RotationsInvert(v);
    RotationsInvert(Xor32(v, g));
    XorTwice(u, f);
    XorTwice(RotL(u), f);
    XorTwice(v, g);
    XorTwice(RotL(v), g);
  }

  /** A full round with the subkeys from place i on: the second pair changes, then the first. */
  function Round(k: Key, i: nat, w: Block): Block
    requires k.Valid() && i + 4 <= 40
  {
    var c, d := HalfU(k, w.a, w.b, w.c, k.sub[i]), HalfV(k, w.a, w.b, w.d, k.sub[i + 1]);
    Block(HalfU(k, c, d, w.a, k.sub[i + 2]), HalfV(k, c, d, w.b, k.sub[i + 3]), c, d)
  }

  function Unround(k: Key, i: nat, w: Block): Block
    requires k.Valid() && i + 4 <= 40
  {
    var a, b := UnhalfU(k, w.c, w.d, w.a, k.sub[i + 2]), UnhalfV(k, w.c, w.d, w.b, k.sub[i + 3]);
    Block(a, b, UnhalfU(k, a, b, w.c, k.sub[i]), UnhalfV(k, a, b, w.d, k.sub[i + 1]))
  }

  lemma RoundsInvert(k: Key, i: nat, w: Block)
    requires k.Valid() && i + 4 <= 40
    ensures Unround(k, i, Round(k, i, w)) == w && Round(k, i, Unround(k, i, w)) == w
  {
    hide HalfU, HalfV, UnhalfU, UnhalfV, Key.Valid;
    KeySize(k);
    HalvesInvert(k, w.a, w.b, w.c, w.d, k.sub[i], k.sub[i + 1]);
    var r := Round(k, i, w);
    HalvesInvert(k, r.c, r.d, w.a, w.b, k.sub[i + 2], k.sub[i + 3]);
    HalvesInvert(k, w.c, w.d, w.a, w.b, k.sub[i + 2], k.sub[i + 3]);
    var u := Unround(k, i, w);
    HalvesInvert(k, u.a, u.b, w.c, w.d, k.sub[i], k.sub[i + 1]);
  }

  lemma KeySize(k: Key)
    requires k.Valid()
    ensures |k.sub| == 40
  {
  }

  /** n rounds, the subkeys taken from place 8 on. */
  function Rounds(k: Key, n: nat, w: Block): Block
    requires k.Valid() && n <= 8
  {
    if n == 0 then w else Round(k, 8 + 4 * (n - 1), Rounds(k, n - 1, w))
  }

  /** The last n of the eight rounds undone. */
  function Unrounds(k: Key, n: nat, w: Block): Block
    requires k.Valid() && n <= 8
  {
    if n == 0 then w else Unround(k, 36 - 4 * (n - 1), Unrounds(k, n - 1, w))
  }

  lemma {:induction false} UndoRounds(k: Key, w: Block, n: nat)
    requires k.Valid() && n <= 8
    ensures Unrounds(k, n, Rounds(k, 8, w)) == Rounds(k, 8 - n, w)
  {
    hide Round, Unround, Key.Valid;
    if n > 0 {
      UndoRounds(k, w, n - 1);
      RoundsInvert(k, 8 + 4 * (8 - n), Rounds(k, 8 - n, w));
    }
  }

  lemma {:induction false} RedoRounds(k: Key, w: Block, n: nat)
    requires k.Valid() && n <= 8
    ensures Rounds(k, n, Unrounds(k, 8, w)) == Unrounds(k, 8 - n, w)
  {
    hide Round, Unround, Key.Valid;
    if n > 0 {
      RedoRounds(k, w, n - 1);
      RoundsInvert(k, 8 + 4 * (n - 1), Unrounds(k, 8 - n, w));
    }
  }

  // -- blocks ----------------------------------------------------------------------------------------

  function WhitenIn(k: Key, w: Block): Block
    requires k.Valid()
  {
    Block(Xor32(w.a, k.sub[0]), Xor32(w.b, k.sub[1]), Xor32(w.c, k.sub[2]), Xor32(w.d, k.sub[3]))
  }

  /** The halves change places on the way out. */
  function WhitenOut(k: Key, w: Block): Block
    requires k.Valid()
  {
    Block(Xor32(w.c, k.sub[4]), Xor32(w.d, k.sub[5]), Xor32(w.a, k.sub[6]), Xor32(w.b, k.sub[7]))
  }

  function UnwhitenOut(k: Key, w: Block): Block
    requires k.Valid()
  {
    Block(Xor32(w.c, k.sub[6]), Xor32(w.d, k.sub[7]), Xor32(w.a, k.sub[4]), Xor32(w.b, k.sub[5]))
  }

  lemma WhiteningInverts(k: Key, w: Block)
    requires k.Valid()
    ensures WhitenIn(k, WhitenIn(k, w)) == w
    ensures UnwhitenOut(k, WhitenOut(k, w)) == w && WhitenOut(k, UnwhitenOut(k, w)) == w
  {
    hide Key.Valid, Xor32;
    KeySize(k);
    XorTwice(w.a, k.sub[0]);
    XorTwice(w.b, k.sub[1]);
    XorTwice(w.c, k.sub[2]);
    XorTwice(w.d, k.sub[3]);
    XorTwice(w.c, k.sub[4]);
    XorTwice(w.d, k.sub[5]);
    XorTwice(w.a, k.sub[6]);
    XorTwice(w.b, k.sub[7]);
    XorTwice(w.a, k.sub[4]);
    XorTwice(w.b, k.sub[5]);
    XorTwice(w.c, k.sub[6]);
    XorTwice(w.d, k.sub[7]);
  }

  function EncryptBlock(k: Key, w: Block): Block
    requires k.Valid()
  {
    WhitenOut(k, Rounds(k, 8, WhitenIn(k, w)))
  }

  function DecryptBlock(k: Key, w: Block): Block
    requires k.Valid()
  {
    WhitenIn(k, Unrounds(k, 8, UnwhitenOut(k, w)))
  }

  /** For any subkeys and boxes the two directions undo each other. */
  lemma BlocksInvert(k: Key, w: Block)
    requires k.Valid()
    ensures DecryptBlock(k, EncryptBlock(k, w)) == w && EncryptBlock(k, DecryptBlock(k, w)) == w
  {
    hide WhitenIn, WhitenOut, UnwhitenOut, Key.Valid, Round, Unround;
    WhiteningInverts(k, w);
    var x := WhitenIn(k, w);
    WhiteningInverts(k, Rounds(k, 8, x));
    UndoRounds(k, x, 8);
    var y := Unrounds(k, 8, UnwhitenOut(k, w));
    WhiteningInverts(k, y);
    RedoRounds(k, UnwhitenOut(k, w), 8);
  }

  // -- bytes -------------------------------------------------------------------------------------------

  /** A word from its bytes, low byte first. */
  function LoadWord(b0: bv8, b1: bv8, b2: bv8, b3: bv8): bv32
  {
    (b0 as bv32) | ((b1 as bv32) << 8) | ((b2 as bv32) << 16) | ((b3 as bv32) << 24)
  }

  lemma LowFits(x: bv32)
    ensures x & 0xFF < 256
  {
  }

  function LowByte(x: bv32): bv8
  {
    LowFits(x);
    (x & 0xFF) as bv8
  }

  function WordByte(x: bv32, k: nat): bv8
  {
    if k == 0 then LowByte(x) else if k == 1 then LowByte(x >> 8) else if k == 2 then LowByte(x >> 16)
    else LowByte(x >> 24)
  }

  lemma WordLoads(x: bv32)
    ensures LoadWord(WordByte(x, 0), WordByte(x, 1), WordByte(x, 2), WordByte(x, 3)) == x
  {
  }

  lemma WordStores(b0: bv8, b1: bv8, b2: bv8, b3: bv8)
    ensures var x := LoadWord(b0, b1, b2, b3);
      WordByte(x, 0) == b0 && WordByte(x, 1) == b1 && WordByte(x, 2) == b2 && WordByte(x, 3) == b3
  {
  }

  function LoadBlock(b: seq<bv8>): Block
    requires |b| == 16
  {
    Block(LoadWord(b[0], b[1], b[2], b[3]), LoadWord(b[4], b[5], b[6], b[7]),
          LoadWord(b[8], b[9], b[10], b[11]), LoadWord(b[12], b[13], b[14], b[15]))
  }

  function StoreWord(x: bv32): (b: seq<bv8>)
    ensures |b| == 4
  {
    [WordByte(x, 0), WordByte(x, 1), WordByte(x, 2), WordByte(x, 3)]
  }

  function StoreBlock(w: Block): (b: seq<bv8>)
    ensures |b| == 16
  {
    StoreWord(w.a) + StoreWord(w.b) + StoreWord(w.c) + StoreWord(w.d)
  }

  lemma StoredLoads(w: Block)
    ensures LoadBlock(StoreBlock(w)) == w
  {
    hide LoadWord, WordByte;
    WordLoads(w.a);
    WordLoads(w.b);
    WordLoads(w.c);
    WordLoads(w.d);
  }

  lemma LoadedStores(b: seq<bv8>)
    requires |b| == 16
    ensures StoreBlock(LoadBlock(b)) == b
  {
    hide LoadWord, WordByte;
    WordStores(b[0], b[1], b[2], b[3]);
    WordStores(b[4], b[5], b[6], b[7]);
    WordStores(b[8], b[9], b[10], b[11]);
    WordStores(b[12], b[13], b[14], b[15]);
  }

  function EncryptBytes(k: Key, b: seq<bv8>): (r: seq<bv8>)
    requires k.Valid() && |b| == 16
    ensures |r| == 16
  {
    StoreBlock(EncryptBlock(k, LoadBlock(b)))
  }

  function DecryptBytes(k: Key, b: seq<bv8>): (r: seq<bv8>)
    requires k.Valid() && |b| == 16
    ensures |r| == 16
  {
    StoreBlock(DecryptBlock(k, LoadBlock(b)))
  }

  /** For any subkeys and boxes the two directions undo each other on blocks of bytes. */
  lemma BytesInvert(k: Key, b: seq<bv8>)
    requires k.Valid() && |b| == 16
    ensures DecryptBytes(k, EncryptBytes(k, b)) == b && EncryptBytes(k, DecryptBytes(k, b)) == b
  {
    hide Key.Valid, EncryptBlock, DecryptBlock, LoadBlock, StoreBlock;
    var w := LoadBlock(b);
    StoredLoads(EncryptBlock(k, w));
    StoredLoads(DecryptBlock(k, w));
    BlocksInvert(k, w);
    LoadedStores(b);
  }

  method PutBlock(dst: array<bv8>, b: seq<bv8>)
    requires dst.Length == |b| == 16
    modifies dst
    ensures dst[..] == b
  {
    forall i | 0 <= i < 16 { dst[i] := b[i]; }
  }

  lemma BytesAre(k: Key, b: seq<bv8>)
    requires k.Valid() && |b| == 16
    ensures EncryptBytes(k, b) == StoreBlock(EncryptBlock(k, LoadBlock(b)))
    ensures DecryptBytes(k, b) == StoreBlock(DecryptBlock(k, LoadBlock(b)))
  {
    hide Key.Valid, EncryptBlock, DecryptBlock, LoadBlock, StoreBlock;
  }

  // -- in place ------------------------------------------------------------------------------------------

  lemma RoundIs(k: Key, i: nat, a: bv32, b: bv32, c: bv32, d: bv32)
    requires k.Valid() && i + 4 <= 40
    ensures |k.sub| == 40
    ensures
      var x, y := G(k, a), GRot(k, b);
      var c2 := RotR(Xor32(c, Add32(Add32(x, y), k.sub[i])));
      var d2 := Xor32(RotL(d), Add32(Add32(x, Double(y)), k.sub[i + 1]));
      var u, v := G(k, c2), GRot(k, d2);
      Round(k, i, Block(a, b, c, d)) == Block(RotR(Xor32(a, Add32(Add32(u, v), k.sub[i + 2]))),
        Xor32(RotL(b), Add32(Add32(u, Double(v)), k.sub[i + 3])), c2, d2)
  {
    hide G, GRot, RotL, RotR, Xor32, Add32, Double;
  }

  lemma UnroundIs(k: Key, i: nat, a: bv32, b: bv32, c: bv32, d: bv32)
    requires k.Valid() && i + 4 <= 40
    ensures |k.sub| == 40
    ensures
      var x, y := G(k, c), GRot(k, d);
      var a2 := Xor32(RotL(a), Add32(Add32(x, y), k.sub[i + 2]));
      var b2 := RotR(Xor32(b, Add32(Add32(x, Double(y)), k.sub[i + 3])));
      var u, v := G(k, a2), GRot(k, b2);
      Unround(k, i, Block(a, b, c, d)) == Block(a2, b2, Xor32(RotL(c), Add32(Add32(u, v), k.sub[i])),
        RotR(Xor32(d, Add32(Add32(u, Double(v)), k.sub[i + 1]))))
  {
    hide G, GRot, RotL, RotR, Xor32, Add32, Double;
  }

  lemma RoundsStep(k: Key, n: nat, w: Block)
    requires k.Valid() && n < 8
    ensures Rounds(k, 0, w) == w && Unrounds(k, 0, w) == w
    ensures Rounds(k, n + 1, w) == Round(k, 8 + 4 * n, Rounds(k, n, w))
    ensures Unrounds(k, n + 1, w) == Unround(k, 36 - 4 * n, Unrounds(k, n, w))
  {
    hide Round, Unround, Key.Valid;
  }

  lemma EncryptIs(k: Key, w: Block, x: Block)
    requires k.Valid()
    ensures |k.sub| == 40
    ensures WhitenIn(k, w) == Block(Xor32(w.a, k.sub[0]), Xor32(w.b, k.sub[1]), Xor32(w.c, k.sub[2]),
        Xor32(w.d, k.sub[3]))
    ensures WhitenOut(k, x) == Block(Xor32(x.c, k.sub[4]), Xor32(x.d, k.sub[5]), Xor32(x.a, k.sub[6]),
        Xor32(x.b, k.sub[7]))
    ensures UnwhitenOut(k, w)
      == Block(Xor32(w.c, k.sub[6]), Xor32(w.d, k.sub[7]), Xor32(w.a, k.sub[4]), Xor32(w.b, k.sub[5]))
    ensures EncryptBlock(k, w) == WhitenOut(k, Rounds(k, 8, WhitenIn(k, w)))
    ensures DecryptBlock(k, w) == WhitenIn(k, Unrounds(k, 8, UnwhitenOut(k, w)))
  {
    hide Xor32, Rounds, Unrounds;
  }

  /** Encrypts a block; dst and src may be the same. */
  method Encrypt(k: Key, dst: array<bv8>, src: array<bv8>)
    requires k.Valid() && dst.Length == src.Length == 16
    modifies dst
    ensures dst[..] == EncryptBytes(k, old(src[..]))
  {
    hide *;
    BytesAre(k, src[..]);
    var w := LoadBlock(src[..]);
    EncryptIs(k, w, w);
    var a, b := Xor32(w.a, k.sub[0]), Xor32(w.b, k.sub[1]);
    var d0, e := Xor32(w.c, k.sub[2]), Xor32(w.d, k.sub[3]);
    var base, n := 8, 0;
    RoundsStep(k, 0, WhitenIn(k, w));
    while n < 8
      invariant n <= 8 && base == 8 + 4 * n
      invariant Block(a, b, d0, e) == Rounds(k, n, WhitenIn(k, w))
    {
      RoundIs(k, base, a, b, d0, e);
      RoundsStep(k, n, WhitenIn(k, w));
      var x, y := G(k, a), GRot(k, b);
      e := RotL(e);
      d0 := Xor32(d0, Add32(Add32(x, y), k.sub[base]));
      e := Xor32(e, Add32(Add32(x, Double(y)), k.sub[base + 1]));
      d0 := RotR(d0);

      x, y := G(k, d0), GRot(k, e);
      b := RotL(b);
      a := Xor32(a, Add32(Add32(x, y), k.sub[base + 2]));
      b := Xor32(b, Add32(Add32(x, Double(y)), k.sub[base + 3]));
      a := RotR(a);

      base := base + 4;
      n := n + 1;
    }
    EncryptIs(k, w, Block(a, b, d0, e));
    PutBlock(dst, StoreBlock(Block(Xor32(d0, k.sub[4]), Xor32(e, k.sub[5]), Xor32(a, k.sub[6]), Xor32(b, k.sub[7]))));
  }

  /** Decrypts a block; dst and src may be the same. */
  method Decrypt(k: Key, dst: array<bv8>, src: array<bv8>)
    requires k.Valid() && dst.Length == src.Length == 16
    modifies dst
    ensures dst[..] == DecryptBytes(k, old(src[..]))
  {
    hide *;
    BytesAre(k, src[..]);
    var w := LoadBlock(src[..]);
    EncryptIs(k, w, w);
    var d0, e := Xor32(w.a, k.sub[4]), Xor32(w.b, k.sub[5]);
    var a, b := Xor32(w.c, k.sub[6]), Xor32(w.d, k.sub[7]);
    var base, n := 36, 0;
    RoundsStep(k, 0, UnwhitenOut(k, w));
    while n < 8
      invariant n <= 8 && base == 36 - 4 * n
      invariant Block(a, b, d0, e) == Unrounds(k, n, UnwhitenOut(k, w))
    {
      UnroundIs(k, base, a, b, d0, e);
      RoundsStep(k, n, UnwhitenOut(k, w));
      var x, y := G(k, d0), GRot(k, e);
      a := RotL(a);
      b := Xor32(b, Add32(Add32(x, Double(y)), k.sub[base + 3]));
      a := Xor32(a, Add32(Add32(x, y), k.sub[base + 2]));
      b := RotR(b);

      x, y := G(k, a), GRot(k, b);
      d0 := RotL(d0);
      e := Xor32(e, Add32(Add32(x, Double(y)), k.sub[base + 1]));
      d0 := Xor32(d0, Add32(Add32(x, y), k.sub[base]));
      e := RotR(e);

      base := base - 4;
      n := n + 1;
    }
    EncryptIs(k, Block(a, b, d0, e), w);
    EncryptIs(k, w, w);
    PutBlock(dst, StoreBlock(Block(Xor32(a, k.sub[0]), Xor32(b, k.sub[1]), Xor32(d0, k.sub[2]), Xor32(e, k.sub[3]))));
  }

  /** Decrypting in place what was encrypted in place gives the block back, and so does encrypting what was
      decrypted. */
  method BothWays(k: Key, block: array<bv8>, decryptFirst: bool)
    requires k.Valid() && block.Length == 16
    modifies block
    ensures block[..] == old(block[..])
  {
    hide *;
    BytesInvert(k, block[..]);
    if decryptFirst {
      Decrypt(k, block, block);
      Encrypt(k, block, block);
    } else {
      Encrypt(k, block, block);
      Decrypt(k, block, block);
    }
  }
}
