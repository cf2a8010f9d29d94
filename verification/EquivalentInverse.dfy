/** Substitution and diffusion in rounds, and why running the same rounds with inverted parts and the
    keys reversed and undiffused decrypts: the equivalent inverse cipher of section 5.3.5 of FIPS 197. */
module EquivalentInverse {
  import opened GaloisField
  import opened ByteWords

  datatype State = State(w0: Word, w1: Word, w2: Word, w3: Word)

  function XorS(x: State, y: State): State
  {
    State(XorW(x.w0, y.w0), XorW(x.w1, y.w1), XorW(x.w2, y.w2), XorW(x.w3, y.w3))
  }

  lemma XorSSelf(x: State, y: State)
    ensures XorS(XorS(x, y), y) == x
  {
    hide XorW;
    XorWSelf(x.w0, y.w0);
    XorWSelf(x.w1, y.w1);
    XorWSelf(x.w2, y.w2);
    XorWSelf(x.w3, y.w3);
  }

  /** The parts of a round and their inverses. */
  datatype Parts = Parts(sub: State -> State, unsub: State -> State, mix: State -> State, unmix: State -> State)
  {
    ghost predicate Valid()
    {
      && (forall x :: unsub(sub(x)) == x && sub(unsub(x)) == x)
      && (forall x :: unmix(mix(x)) == x && mix(unmix(x)) == x)
      && (forall x, y :: mix(XorS(x, y)) == XorS(mix(x), mix(y)))
      && (forall x, y :: unmix(XorS(x, y)) == XorS(unmix(x), unmix(y)))
    }

    function Reversed(): Parts
    {
      Parts(unsub, sub, unmix, mix)
    }
  }

  /** The state after r rounds: a key addition, then substitution, diffusion and key each time. */
  function After(sub: State -> State, mix: State -> State, keys: seq<State>, w: State, r: nat): State
    requires r < |keys|
  {
    if r == 0 then XorS(w, keys[0]) else XorS(mix(sub(After(sub, mix, keys, w, r - 1))), keys[r])
  }

  /** All rounds; the last one does not diffuse. */
  function Transform(sub: State -> State, mix: State -> State, keys: seq<State>, w: State): State
    requires |keys| >= 2
  {
    XorS(sub(After(sub, mix, keys, w, |keys| - 2)), keys[|keys| - 1])
  }

  /** The keys backwards, undiffused except the outer two. */
  ghost predicate InverseKeys(unmix: State -> State, keys: seq<State>, dec: seq<State>)
  {
    && |dec| == |keys| >= 2
    && dec[0] == keys[|keys| - 1] && dec[|keys| - 1] == keys[0]
    && forall r :: 0 < r < |keys| - 1 ==> dec[r] == unmix(keys[|keys| - 1 - r])
  }

  lemma PartFacts(p: Parts, x: State, y: State)
    requires p.Valid()
    ensures p.unsub(p.sub(x)) == x && p.unmix(p.mix(x)) == x && p.unmix(XorS(x, y)) == XorS(p.unmix(x), p.unmix(y))
  {
    hide XorS;
  }

  lemma AfterStep(sub: State -> State, mix: State -> State, keys: seq<State>, w: State, r: nat)
    requires r < |keys|
    ensures After(sub, mix, keys, w, 0) == XorS(w, keys[0])
    ensures r > 0 ==> After(sub, mix, keys, w, r) == XorS(mix(sub(After(sub, mix, keys, w, r - 1))), keys[r])
  {
    hide XorS;
  }

  lemma TransformIs(sub: State -> State, mix: State -> State, keys: seq<State>, w: State)
    requires |keys| >= 2
    ensures Transform(sub, mix, keys, w) == XorS(sub(After(sub, mix, keys, w, |keys| - 2)), keys[|keys| - 1])
  {
    hide XorS, After;
  }

  lemma KeyAt(unmix: State -> State, keys: seq<State>, dec: seq<State>, r: nat)
    requires InverseKeys(unmix, keys, dec) && r < |keys|
    ensures |dec| == |keys| >= 2
    ensures dec[r] == if r == 0 then keys[|keys| - 1] else if r == |keys| - 1 then keys[0]
      else unmix(keys[|keys| - 1 - r])
  {
  }

  /** Halfway equality: r rounds of decryption undo the last r of encryption. */
  lemma {:induction false} Halfway(p: Parts, keys: seq<State>, dec: seq<State>, w: State, r: nat)
    requires p.Valid() && InverseKeys(p.unmix, keys, dec) && |dec| == |keys| >= 2 && r <= |keys| - 2
    ensures After(p.unsub, p.unmix, dec, Transform(p.sub, p.mix, keys, w), r)
         == p.sub(After(p.sub, p.mix, keys, w, |keys| - 2 - r))
  {
    hide *;
    var n := |keys| - 1;
    var x := Transform(p.sub, p.mix, keys, w);
    TransformIs(p.sub, p.mix, keys, w);
    KeyAt(p.unmix, keys, dec, r);
    AfterStep(p.unsub, p.unmix, dec, x, r);
    if r == 0 {
      XorSSelf(p.sub(After(p.sub, p.mix, keys, w, n - 1)), keys[n]);
    } else {
      Halfway(p, keys, dec, w, r - 1);
      var before := p.sub(After(p.sub, p.mix, keys, w, n - 1 - r));
      AfterStep(p.sub, p.mix, keys, w, n - r);
      PartFacts(p, After(p.sub, p.mix, keys, w, n - r), before);
      PartFacts(p, p.mix(before), keys[n - r]);
      PartFacts(p, before, before);
      XorSSelf(before, p.unmix(keys[n - r]));
    }
  }

  /** Decryption with the inverted parts and keys gives back what was encrypted. */
  lemma Decrypts(p: Parts, keys: seq<State>, dec: seq<State>, w: State)
    requires p.Valid() && InverseKeys(p.unmix, keys, dec) && |dec| == |keys| >= 2
    ensures Transform(p.unsub, p.unmix, dec, Transform(p.sub, p.mix, keys, w)) == w
  {
    hide *;
    var x := Transform(p.sub, p.mix, keys, w);
    Halfway(p, keys, dec, w, |keys| - 2);
    TransformIs(p.unsub, p.unmix, dec, x);
    KeyAt(p.unmix, keys, dec, |keys| - 1);
    AfterStep(p.sub, p.mix, keys, w, 0);
    PartFacts(p, After(p.sub, p.mix, keys, w, 0), w);
    XorSSelf(w, keys[0]);
  }

  /** And the other way round, since the roles can be exchanged. */
  lemma Encrypts(p: Parts, keys: seq<State>, dec: seq<State>, x: State)
    requires p.Valid() && InverseKeys(p.unmix, keys, dec) && |dec| == |keys| >= 2
    ensures Transform(p.sub, p.mix, keys, Transform(p.unsub, p.unmix, dec, x)) == x
  {
    hide XorS;
    var q := p.Reversed();
    forall r | 0 < r < |keys| - 1
      ensures keys[r] == q.unmix(dec[|keys| - 1 - r])
    {
      assert dec[|keys| - 1 - r] == p.unmix(keys[r]);
    }
    assert q.Valid();
    Decrypts(q, dec, keys, x);
  }

  // -- blocks as bytes -----------------------------------------------------------------------------

  function LoadWords(b: seq<bv8>): State
    requires |b| == 16
  {
    State(Word(b[0], b[1], b[2], b[3]), Word(b[4], b[5], b[6], b[7]),
          Word(b[8], b[9], b[10], b[11]), Word(b[12], b[13], b[14], b[15]))
  }

  function StoreWords(s: State): (b: seq<bv8>)
    ensures |b| == 16
  {
    [s.w0.b0, s.w0.b1, s.w0.b2, s.w0.b3, s.w1.b0, s.w1.b1, s.w1.b2, s.w1.b3,
     s.w2.b0, s.w2.b1, s.w2.b2, s.w2.b3, s.w3.b0, s.w3.b1, s.w3.b2, s.w3.b3]
  }

  lemma LoadStore(s: State)
    ensures LoadWords(StoreWords(s)) == s
  {
  }

  lemma StoreLoad(b: seq<bv8>)
    requires |b| == 16
    ensures StoreWords(LoadWords(b)) == b
  {
  }

  /** The rounds on a block of bytes. */
  function OnBytes(sub: State -> State, mix: State -> State, keys: seq<State>, b: seq<bv8>): (r: seq<bv8>)
    requires |keys| >= 2 && |b| == 16
    ensures |r| == 16
  {
    StoreWords(Transform(sub, mix, keys, LoadWords(b)))
  }

  lemma BytesAre(sub: State -> State, mix: State -> State, keys: seq<State>, b: seq<bv8>)
    requires |keys| >= 2 && |b| == 16
    ensures OnBytes(sub, mix, keys, b) == StoreWords(Transform(sub, mix, keys, LoadWords(b)))
  {
  }

  /** On blocks of bytes the two directions undo each other, whichever comes first. */
  lemma BytesInvert(p: Parts, keys: seq<State>, dec: seq<State>, b: seq<bv8>)
    requires p.Valid() && InverseKeys(p.unmix, keys, dec) && |dec| == |keys| >= 2 && |b| == 16
    ensures OnBytes(p.unsub, p.unmix, dec, OnBytes(p.sub, p.mix, keys, b)) == b
    ensures OnBytes(p.sub, p.mix, keys, OnBytes(p.unsub, p.unmix, dec, b)) == b
  {
    hide Transform, LoadWords, StoreWords, InverseKeys, Parts.Valid;
    var w := LoadWords(b);
    LoadStore(Transform(p.sub, p.mix, keys, w));
    LoadStore(Transform(p.unsub, p.unmix, dec, w));
    Decrypts(p, keys, dec, w);
    Encrypts(p, keys, dec, w);
    StoreLoad(b);
  }

  method PutBlock(dst: array<bv8>, b: seq<bv8>)
    requires dst.Length == |b| == 16
    modifies dst
    ensures dst[..] == b
  {
    forall i | 0 <= i < 16 { dst[i] := b[i]; }
  }

  /** A substitution box. */
  type Box = s: seq<bv8> | |s| == 256 witness seq(256, _ => 0)

  function Apply(box: Box, x: bv8): bv8
  {
    box[x as int]
  }

  ghost predicate InverseBoxes(a: Box, b: Box)
  {
    forall x: bv8 :: Apply(b, Apply(a, x)) == x && Apply(a, Apply(b, x)) == x
  }

  function DiffuseS(s: State, c: Word, p: bv8): State
  {
    State(Diffuse(s.w0, c, p), Diffuse(s.w1, c, p), Diffuse(s.w2, c, p), Diffuse(s.w3, c, p))
  }

  lemma DiffuseSLinear(x: State, y: State, c: Word, p: bv8)
    ensures DiffuseS(XorS(x, y), c, p) == XorS(DiffuseS(x, c, p), DiffuseS(y, c, p))
  {
    hide Diffuse, XorW;
    DiffuseLinear(x.w0, y.w0, c, p);
    DiffuseLinear(x.w1, y.w1, c, p);
    DiffuseLinear(x.w2, y.w2, c, p);
    DiffuseLinear(x.w3, y.w3, c, p);
  }

  lemma DiffuseSInverse(x: State, p: bv8)
    ensures DiffuseS(DiffuseS(x, MIX, p), UNMIX, p) == x && DiffuseS(DiffuseS(x, UNMIX, p), MIX, p) == x
  {
    hide Diffuse, MIX, UNMIX;
    UnmixMix(x.w0, p);
    UnmixMix(x.w1, p);
    UnmixMix(x.w2, p);
    UnmixMix(x.w3, p);
    MixUnmix(x.w0, p);
    MixUnmix(x.w1, p);
    MixUnmix(x.w2, p);
    MixUnmix(x.w3, p);
  }

  /** A round table: the box folded into the diffusion, its columns rotated into place. */
  ghost predicate TableFor(table: seq<seq<Word>>, box: Box, c: Word, p: bv8)
  {
    && |table| == 4 && (forall j :: 0 <= j < 4 ==> |table[j]| == 256)
    && forall j, x: bv8 :: 0 <= j < 4 ==> table[j][x as int] == RotW(Column(Apply(box, x), c, p), j)
  }

  /** Builds a round table from a box and a matrix. */
  method BuildTable(box: Box, c: Word, p: bv8) returns (table: seq<seq<Word>>)
    ensures TableFor(table, box, c, p)
  {
    hide *;
    var t0, t1, t2, t3: seq<Word> := [], [], [], [];
    var x := 0;
    while x < 256
      invariant x <= 256 && |t0| == |t1| == |t2| == |t3| == x
      invariant forall i :: 0 <= i < x ==>
        t0[i] == RotW(Column(box[i], c, p), 0) && t1[i] == RotW(Column(box[i], c, p), 1)
        && t2[i] == RotW(Column(box[i], c, p), 2) && t3[i] == RotW(Column(box[i], c, p), 3)
    {
      var w := ColumnOf(box[x], c, p);
      t0, t1, t2, t3 := t0 + [RotW(w, 0)], t1 + [RotW(w, 1)], t2 + [RotW(w, 2)], t3 + [RotW(w, 3)];
      x := x + 1;
    }
    table := [t0, t1, t2, t3];
    MakeTable(table, box, c, p);
  }

  lemma MakeTable(table: seq<seq<Word>>, box: Box, c: Word, p: bv8)
    requires |table| == 4 && forall j :: 0 <= j < 4 ==> |table[j]| == 256
    requires forall i :: 0 <= i < 256 ==>
      table[0][i] == RotW(Column(box[i], c, p), 0) && table[1][i] == RotW(Column(box[i], c, p), 1)
      && table[2][i] == RotW(Column(box[i], c, p), 2) && table[3][i] == RotW(Column(box[i], c, p), 3)
    ensures TableFor(table, box, c, p)
  {
    hide RotW, Column;
    forall j, x: bv8 | 0 <= j < 4
      ensures table[j][x as int] == RotW(Column(Apply(box, x), c, p), j)
    {
      NumberByte(x);
    }
  }

  /** One column of the matrix applied to a byte, by field multiplication. */
  method ColumnOf(v: bv8, c: Word, p: bv8) returns (w: Word)
    ensures w == Column(v, c, p)
  {
    var a := GFMult(v, c.b0, p);
    var b := GFMult(v, c.b1, p);
    var d := GFMult(v, c.b2, p);
    var e := GFMult(v, c.b3, p);
    w := Word(a, b, d, e);
  }

  /** The i-th byte, by counting up. */
  function Nth(i: nat): bv8
  {
    if i == 0 then 0 else Nth(i - 1) + 1
  }

  lemma NextByte(x: bv8)
    requires x != 255
    ensures (x + 1) as int == x as int + 1
  {
  }

  lemma TopByte(x: bv8)
    ensures x == 255 <==> x as int == 255
  {
  }

  lemma {:induction false} NthIs(i: nat)
    requires i < 256
    ensures Nth(i) as int == i
  {
    if i > 0 {
      NthIs(i - 1);
      TopByte(Nth(i - 1));
      NextByte(Nth(i - 1));
    }
  }

  lemma ByteNumber(i: nat)
    requires i < 256
    ensures (i as bv8) as int == i
  {
    NthIs(i);
    NumberByte(Nth(i));
  }

  lemma NumberByte(x: bv8)
    ensures 0 <= x as int < 256 && (x as int) as bv8 == x
  {
  }

  lemma NumbersDiffer(x: bv8, y: bv8)
    ensures x as int == y as int ==> x == y
  {
  }

  /** No two entries of the box are equal. */
  ghost predicate Permutation(box: Box)
  {
    forall i, j :: 0 <= i < j < 256 ==> box[i] != box[j]
  }

  /** The inverse of a box that is a permutation: each place is filed under what it holds. */
  method InvertBox(box: Box) returns (inv: Box)
    requires Permutation(box)
    ensures InverseBoxes(box, inv)
  {
    inv := seq(256, _ => 0);
    var i := 0;
    while i < 256
      invariant i <= 256
      invariant forall k :: 0 <= k < i ==> inv[box[k] as int] == k as bv8
    {
      forall k | 0 <= k < i
        ensures box[k] as int != box[i] as int
      {
        NumbersDiffer(box[k], box[i]);
      }
      inv := inv[box[i] as int := i as bv8];
      i := i + 1;
    }
    InvertedBox(box, inv);
  }

  lemma InvertedBox(box: Box, inv: Box)
    requires Permutation(box) && forall k :: 0 <= k < 256 ==> inv[box[k] as int] == k as bv8
    ensures InverseBoxes(box, inv)
  {
    forall x: bv8
      ensures Apply(inv, Apply(box, x)) == x
    {
      NumberByte(x);
    }
    forall x: bv8
      ensures Apply(box, Apply(inv, x)) == x
    {
      var k := Onto(box, x as int);
      NumbersDiffer(box[k], x);
      ByteNumber(k);
    }
  }

  /** A permutation of the bytes takes every value. */
  lemma Onto(box: Box, v: int) returns (k: nat)
    requires Permutation(box) && 0 <= v < 256
    ensures k < 256 && box[k] as int == v
  {
    var f := seq(256, i requires 0 <= i < 256 => box[i] as int);
    forall i, j | 0 <= i < j < 256
      ensures f[i] != f[j]
    {
      NumbersDiffer(box[i], box[j]);
    }
    forall i | 0 <= i < 256
      ensures 0 <= f[i] < 256
    {
      NumberByte(box[i]);
    }
    k := Pigeonhole(f, 256, v);
  }

  /** n different numbers below n are all of them. */
  lemma {:induction false} Pigeonhole(f: seq<int>, n: nat, v: int) returns (k: nat)
    requires |f| == n && 0 <= v < n
    requires forall i :: 0 <= i < n ==> 0 <= f[i] < n
    requires forall i, j :: 0 <= i < j < n ==> f[i] != f[j]
    ensures k < n && f[k] == v
  {
    if forall i :: 0 <= i < n ==> f[i] != v {
      // with n - 1 moved to v's place, n numbers lie below n - 1
      var g := seq(n, i requires 0 <= i < n => if f[i] == n - 1 then v else f[i]);
      TooMany(g, n - 1);
    }
    k :| 0 <= k < n && f[k] == v;
  }

  lemma {:induction false} TooMany(g: seq<int>, n: nat)
    requires |g| == n + 1
    requires forall i :: 0 <= i < |g| ==> 0 <= g[i] < n
    requires forall i, j :: 0 <= i < j < |g| ==> g[i] != g[j]
    ensures false
    decreases n
  {
    var last := g[n];
    if n > 0 {
      var h := seq(n, i requires 0 <= i < n => if g[i] == n - 1 then last else g[i]);
      TooMany(h, n - 1);
    }
  }
}
