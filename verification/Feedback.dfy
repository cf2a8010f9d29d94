/** The cipher feedback mode of encrypted pages: block chaining with an accumulated register and a
    masked tail, in place, for any invertible block cipher. */
module CipherFeedback {
  import opened Arith

  type Bytes = seq<bv8>

  const IV_FILL: bv8 := 0xFF

  /** A block cipher as the mode sees it. */
  datatype BlockCipher = BlockCipher(size: nat, enc: Bytes -> Bytes, dec: Bytes -> Bytes)
  {
    /** Both directions keep the block size, and decryption undoes encryption. */
    ghost predicate Valid()
    {
      && size > 0
      && (forall x: Bytes :: |x| == size ==> |enc(x)| == size && dec(enc(x)) == x)
      && (forall x: Bytes :: |x| == size ==> |dec(x)| == size && enc(dec(x)) == x)
    }
  }

  function Xor(a: Bytes, b: Bytes): (r: Bytes)
    requires |a| <= |b|
    ensures |r| == |a| && forall i :: 0 <= i < |a| ==> r[i] == a[i] ^ b[i]
  {
    seq(|a|, i requires 0 <= i < |a| => a[i] ^ b[i])
  }

  lemma XorTwice(a: Bytes, b: Bytes)
    requires |a| <= |b|
    ensures Xor(Xor(a, b), b) == a
  {
  }

  /** Encryption from register f on. */
  ghost function Enc(c: BlockCipher, f: Bytes, p: Bytes): (r: Bytes)
    requires c.Valid() && |f| == c.size
    ensures |r| == |p|
    decreases |p|
  {
    if p == [] then []
    else if |p| < c.size then Xor(p, c.enc(f))
    else
      var x := c.enc(Xor(p[..c.size], f));
      x + Enc(c, Xor(x, f), p[c.size..])
  }

  ghost function Dec(c: BlockCipher, f: Bytes, x: Bytes): (r: Bytes)
    requires c.Valid() && |f| == c.size
    ensures |r| == |x|
    decreases |x|
  {
    if x == [] then []
    else if |x| < c.size then Xor(x, c.enc(f))
    else
      var b := x[..c.size];
      Xor(c.dec(b), f) + Dec(c, Xor(b, f), x[c.size..])
  }

  lemma CipherFacts(c: BlockCipher, x: Bytes)
    requires c.Valid() && |x| == c.size
    ensures |c.enc(x)| == c.size && c.dec(c.enc(x)) == x && |c.dec(x)| == c.size && c.enc(c.dec(x)) == x
  {
  }

  lemma CipherSize(c: BlockCipher)
    requires c.Valid()
    ensures c.size > 0
  {
  }

  lemma EncStep(c: BlockCipher, f: Bytes, b: Bytes, rest: Bytes)
    requires c.Valid() && |f| == |b| == c.size && |c.enc(Xor(b, f))| == c.size
    ensures Enc(c, f, b + rest) == c.enc(Xor(b, f)) + Enc(c, Xor(c.enc(Xor(b, f)), f), rest)
  {
    hide BlockCipher.Valid, Xor;
    CipherSize(c);
    assert (b + rest)[..c.size] == b && (b + rest)[c.size..] == rest;
  }

  lemma DecStep(c: BlockCipher, f: Bytes, b: Bytes, rest: Bytes)
    requires c.Valid() && |f| == |b| == c.size && |c.dec(b)| == c.size
    ensures Dec(c, f, b + rest) == Xor(c.dec(b), f) + Dec(c, Xor(b, f), rest)
  {
    hide BlockCipher.Valid, Xor;
    CipherSize(c);
    assert (b + rest)[..c.size] == b && (b + rest)[c.size..] == rest;
  }

  lemma TailStep(c: BlockCipher, f: Bytes, p: Bytes)
    requires c.Valid() && |f| == c.size && |p| < c.size && |c.enc(f)| == c.size
    ensures Enc(c, f, p) == Xor(p, c.enc(f)) == Dec(c, f, p)
  {
    hide BlockCipher.Valid;
  }

  lemma Cut(p: Bytes, n: nat)
    requires n <= |p|
    ensures p == p[..n] + p[n..] && |p[..n]| == n
  {
  }

  /** Decrypting what was encrypted gives it back, for every length and register. */
  lemma {:induction false} DecEnc(c: BlockCipher, f: Bytes, p: Bytes)
    requires c.Valid() && |f| == c.size
    ensures Dec(c, f, Enc(c, f, p)) == p
    decreases |p|
  {
    hide *;
    CipherSize(c);
    if |p| < c.size {
      CipherFacts(c, f);
      TailStep(c, f, p);
      TailStep(c, f, Enc(c, f, p));
      XorTwice(p, c.enc(f));
    } else {
      Cut(p, c.size);
      var b, rest := p[..c.size], p[c.size..];
      CipherFacts(c, Xor(b, f));
      var x := c.enc(Xor(b, f));
      CipherFacts(c, x);
      EncStep(c, f, b, rest);
      DecStep(c, f, x, Enc(c, Xor(x, f), rest));
      XorTwice(b, f);
      DecEnc(c, Xor(x, f), rest);
    }
  }

  /** And the other way round, so every byte string is the encryption of exactly one. */
  lemma {:induction false} EncDec(c: BlockCipher, f: Bytes, x: Bytes)
    requires c.Valid() && |f| == c.size
    ensures Enc(c, f, Dec(c, f, x)) == x
    decreases |x|
  {
    hide *;
    CipherSize(c);
    if |x| < c.size {
      CipherFacts(c, f);
      TailStep(c, f, x);
      TailStep(c, f, Dec(c, f, x));
      XorTwice(x, c.enc(f));
    } else {
      Cut(x, c.size);
      var b, rest := x[..c.size], x[c.size..];
      CipherFacts(c, b);
      var q := Xor(c.dec(b), f);
      XorTwice(c.dec(b), f);
      DecStep(c, f, b, rest);
      EncStep(c, f, q, Dec(c, Xor(b, f), rest));
      EncDec(c, Xor(b, f), rest);
    }
  }

  function Iv(size: nat): (f: Bytes)
    ensures |f| == size
  {
    seq(size, _ => IV_FILL)
  }

  /** Every bit the other way. */
  function Inverted(b: Bytes): (r: Bytes)
    ensures |r| == |b| && forall i :: 0 <= i < |b| ==> r[i] == !b[i]
  {
    seq(|b|, i requires 0 <= i < |b| => !b[i])
  }

  lemma FirstRegister(b: Bytes)
    ensures Xor(b, Iv(|b|)) == Inverted(b)
  {
    forall i | 0 <= i < |b|
      ensures Xor(b, Iv(|b|))[i] == !b[i]
    {
      FlipBits(b[i]);
    }
  }

  lemma FlipBits(b: bv8)
    ensures b ^ 0xFF == !b
  {
  }

  /** The first full block is the cipher of the plaintext with every bit inverted. */
  lemma FirstBlock(c: BlockCipher, p: Bytes)
    requires c.Valid() && |p| >= c.size
    ensures Enc(c, Iv(c.size), p)[..c.size] == c.enc(Inverted(p[..c.size]))
  {
    hide *;
    CipherSize(c);
    Cut(p, c.size);
    var b := p[..c.size];
    FirstRegister(b);
    CipherFacts(c, Inverted(b));
    EncStep(c, Iv(c.size), b, p[c.size..]);
  }

  lemma PartOfPart(s: Bytes, i: nat, n: nat, m: nat)
    requires n <= m && i + m <= |s|
    ensures Part(s, i, i + m)[..n] == Part(s, i, i + n)
  {
  }

  lemma FirstPart(c: BlockCipher, d: Bytes, at: nat, s: Bytes, start: nat, n: nat)
    requires c.Valid() && c.size <= n && at + n <= |d| && start + n <= |s|
    requires Part(d, at, at + n) == Enc(c, Iv(c.size), Part(s, start, start + n))
    ensures Part(d, at, at + c.size) == c.enc(Inverted(Part(s, start, start + c.size)))
  {
    hide *;
    PartSize(s, start, start + n);
    FirstBlock(c, Part(s, start, start + n));
    PartOfPart(s, start, c.size, n);
    PartOfPart(d, at, c.size, n);
  }

  /** Where a loop over full blocks stands: i bytes are done, the rest of the source is untouched. */
  ghost predicate Midway(encrypting: bool, c: BlockCipher, p: Bytes, f: Bytes, done: Bytes, rest: Bytes)
  {
    && c.Valid() && |f| == c.size
    && done + (if encrypting then Enc(c, f, rest) else Dec(c, f, rest))
       == (if encrypting then Enc(c, Iv(c.size), p) else Dec(c, Iv(c.size), p))
  }

  lemma MidStart(encrypting: bool, c: BlockCipher, p: Bytes)
    requires c.Valid()
    ensures Midway(encrypting, c, p, Iv(c.size), [], p) && |Iv(c.size)| == c.size
  {
    hide Enc, Dec, BlockCipher.Valid;
  }

  lemma MidStep(encrypting: bool, c: BlockCipher, p: Bytes, f: Bytes, done: Bytes, b: Bytes, rest: Bytes)
    requires Midway(encrypting, c, p, f, done, b + rest) && |f| == |b| == c.size && c.Valid()
    ensures |c.enc(Xor(b, f))| == |c.dec(b)| == c.size
    ensures var x := c.enc(Xor(b, f));
      if encrypting then Midway(encrypting, c, p, Xor(x, f), done + x, rest)
      else Midway(encrypting, c, p, Xor(b, f), done + Xor(c.dec(b), f), rest)
  {
    CipherFacts(c, Xor(b, f));
    CipherFacts(c, b);
    hide BlockCipher.Valid, Enc, Dec, Xor;
    if encrypting {
      var x := c.enc(Xor(b, f));
      EncStep(c, f, b, rest);
      Associate(done, x, Enc(c, Xor(x, f), rest));
    } else {
      var q := Xor(c.dec(b), f);
      DecStep(c, f, b, rest);
      Associate(done, q, Dec(c, Xor(b, f), rest));
    }
  }

  lemma Associate(a: Bytes, b: Bytes, c: Bytes)
    ensures a + (b + c) == (a + b) + c
  {
  }

  lemma MidEnd(encrypting: bool, c: BlockCipher, p: Bytes, f: Bytes, done: Bytes, rest: Bytes)
    requires Midway(encrypting, c, p, f, done, rest) && |rest| < c.size && |f| == c.size
    ensures c.Valid() && |c.enc(f)| == c.size
    ensures done + Xor(rest, c.enc(f)) == if encrypting then Enc(c, Iv(c.size), p) else Dec(c, Iv(c.size), p)
  {
    CipherFacts(c, f);
    TailStep(c, f, rest);
  }

  /** The length of the whole blocks in n bytes. */
  function FullPart(n: nat, size: nat): (r: nat)
    requires size > 0
    ensures r <= n
  {
    FullBlocks(n, size);
    n - n % size
  }

  ghost predicate Whole(i: nat, size: nat)
  {
    size > 0 && i % size == 0
  }

  lemma NoBlocks(size: nat)
    requires size > 0
    ensures Whole(0, size)
  {
  }

  lemma FullSize(n: nat, size: nat)
    requires size > 0
    ensures Whole(FullPart(n, size), size) && n - FullPart(n, size) < size
  {
    FullBlocks(n, size);
  }

  lemma FullBlocks(n: nat, size: nat)
    requires size > 0
    ensures n % size < size && n % size <= n && (n - n % size) % size == 0
  {
    var q, r := n / size, n % size;
    assert n == size * q + r;
    MultipleMod(q, size);
  }

  lemma MultipleMod(q: nat, size: nat)
    requires size > 0
    ensures (size * q) % size == 0
  {
    DivModUnique(size * q, size, q, 0);
  }

  /** Two multiples of the block size, one below the other, are a block apart. */
  lemma NextBlock(i: nat, full: nat, size: nat)
    requires Whole(i, size) && Whole(full, size) && i < full
    ensures i + size <= full && Whole(i + size, size)
  {
    var a, b := i / size, full / size;
    assert i == size * a && full == size * b;
    if b <= a { MulPositive(a - b, size); MulDist(a - b, b, size); }
    MulPositive(b - a - 1, size);
    MulDist(b - a - 1, a + 1, size);
    MulDist(a, 1, size);
    DivModUnique(i + size, size, a + 1, 0);
  }

  /** The stretch from i to j. */
  ghost function Part(s: Bytes, i: nat, j: nat): Bytes
    requires i <= j <= |s|
  {
    s[i..j]
  }

  /** Bytes outside the stretch of n bytes at `at` are the same. */
  ghost predicate Outside(a: Bytes, b: Bytes, at: nat, n: nat)
  {
    |a| == |b| && forall k :: 0 <= k < |a| && !(at <= k < at + n) ==> a[k] == b[k]
  }

  lemma PartSize(s: Bytes, i: nat, j: nat)
    requires i <= j <= |s|
    ensures |Part(s, i, j)| == j - i
  {
  }

  lemma PartIs(s: Bytes, i: nat, j: nat, x: Bytes)
    requires i <= j <= |s| && x == s[i..j]
    ensures Part(s, i, j) == x && |x| == j - i
  {
  }

  lemma PartCut(s: Bytes, i: nat, j: nat, k: nat, b: Bytes)
    requires i <= j <= k <= |s| && b == s[i..j]
    ensures Part(s, i, k) == b + Part(s, j, k) && |b| == j - i
  {
  }

  lemma NothingPut(s: Bytes, at: nat, n: nat)
    requires at + n <= |s|
    ensures Part(s, at, at) == [] && Outside(s, s, at, n)
  {
  }

  lemma NothingLeft(done: Bytes, rest: Bytes, mask: Bytes)
    requires rest == []
    ensures done + Xor(rest, mask) == done
  {
  }

  /** Puts x behind the i bytes already written. What is still to be read stays, aliased or not. */
  method PutBytes(dst: array<bv8>, at: nat, i: nat, n: nat, x: Bytes, src: array<bv8>, start: nat)
    requires i + |x| <= n && at + n <= dst.Length && start + n <= src.Length && (dst == src ==> at == start)
    modifies dst
    ensures Part(dst[..], at, at + i + |x|) == Part(old(dst[..]), at, at + i) + x
    ensures forall d0 :: Outside(d0, old(dst[..]), at, n) ==> Outside(d0, dst[..], at, n)
    ensures Part(src[..], start + i + |x|, start + n) == Part(old(src[..]), start + i + |x|, start + n)
  {
    forall j | 0 <= j < |x| { dst[at + i + j] := x[j]; }
  }

  /** Masks what is left of the source with the encrypted register. */
  method MaskTail(c: BlockCipher, f: Bytes, dst: array<bv8>, at: nat, src: array<bv8>, start: nat, n: nat, full: nat)
    requires |c.enc(f)| == c.size && full <= n < full + c.size
    requires at + n <= dst.Length && start + n <= src.Length && (dst == src ==> at == start)
    modifies dst
    ensures |Part(old(src[..]), start + full, start + n)| == n - full
    ensures Part(dst[..], at, at + n)
      == Part(old(dst[..]), at, at + full) + Xor(Part(old(src[..]), start + full, start + n), c.enc(f))
    ensures forall d0 :: Outside(d0, old(dst[..]), at, n) ==> Outside(d0, dst[..], at, n)
  {
    hide *;
    PartSize(src[..], start + full, start + n);
    if full < n {
      var rest := src[start + full..start + n];
      PartIs(src[..], start + full, start + n, rest);
      PutBytes(dst, at, full, n, Xor(rest, c.enc(f)), src, start);
    } else {
      NothingLeft(Part(dst[..], at, at + full), Part(src[..], start + full, start + n), c.enc(f));
    }
  }

  /** The whole blocks, encrypted one after the other. */
  method EncryptBlocks(c: BlockCipher, dst: array<bv8>, at: nat, src: array<bv8>, start: nat, n: nat, full: nat)
    returns (f: Bytes)
    requires c.Valid() && at + n <= dst.Length && start + n <= src.Length && (dst == src ==> at == start)
    requires full <= n && Whole(full, c.size)
    modifies dst
    ensures |f| == c.size && Outside(old(dst[..]), dst[..], at, n)
    ensures Midway(true, c, Part(old(src[..]), start, start + n), f,
                   Part(dst[..], at, at + full), Part(src[..], start + full, start + n))
  {
    hide *;
    CipherSize(c);
    ghost var p, d0 := Part(src[..], start, start + n), dst[..];
    f := Iv(c.size);
    NoBlocks(c.size);
    var i := 0;
    MidStart(true, c, p);
    NothingPut(d0, at, n);
    while i < full
      invariant i <= full && Whole(i, c.size) && |f| == c.size
      invariant Midway(true, c, p, f, Part(dst[..], at, at + i), Part(src[..], start + i, start + n))
      invariant Outside(d0, dst[..], at, n)
    {
      NextBlock(i, full, c.size);
      var b := src[start + i..start + i + c.size];
      ghost var rest := Part(src[..], start + i + c.size, start + n);
      PartCut(src[..], start + i, start + i + c.size, start + n, b);
      MidStep(true, c, p, f, Part(dst[..], at, at + i), b, rest);
      var x := c.enc(Xor(b, f));
      PutBytes(dst, at, i, n, x, src, start);
      f := Xor(x, f);
      i := i + c.size;
    }
  }

  /** Encrypts n bytes of src into dst; the two may be one and the same stretch. */
  method EncryptCTS(c: BlockCipher, dst: array<bv8>, at: nat, src: array<bv8>, start: nat, n: nat)
    requires c.Valid() && at + n <= dst.Length && start + n <= src.Length && (dst == src ==> at == start)
    modifies dst
    ensures Outside(old(dst[..]), dst[..], at, n)
    ensures Part(dst[..], at, at + n) == Enc(c, Iv(c.size), Part(old(src[..]), start, start + n))
    ensures n >= c.size ==>
      Part(dst[..], at, at + c.size) == c.enc(Inverted(Part(old(src[..]), start, start + c.size)))
  {
    hide *;
    CipherSize(c);
    ghost var p := Part(src[..], start, start + n);
    ghost var s0: Bytes := src[..];
    PartSize(src[..], start, start + n);
    var full := FullPart(n, c.size);
    FullSize(n, c.size);
    var f := EncryptBlocks(c, dst, at, src, start, n, full);
    PartSize(src[..], start + full, start + n);
    MidEnd(true, c, p, f, Part(dst[..], at, at + full), Part(src[..], start + full, start + n));
    MaskTail(c, f, dst, at, src, start, n, full);
    if n >= c.size { FirstPart(c, dst[..], at, s0, start, n); }
  }

  /** The whole blocks, decrypted one after the other. */
  method DecryptBlocks(c: BlockCipher, dst: array<bv8>, at: nat, src: array<bv8>, start: nat, n: nat, full: nat)
    returns (f: Bytes)
    requires c.Valid() && at + n <= dst.Length && start + n <= src.Length && (dst == src ==> at == start)
    requires full <= n && Whole(full, c.size)
    modifies dst
    ensures |f| == c.size && Outside(old(dst[..]), dst[..], at, n)
    ensures Midway(false, c, Part(old(src[..]), start, start + n), f,
                   Part(dst[..], at, at + full), Part(src[..], start + full, start + n))
  {
    hide *;
    CipherSize(c);
    ghost var p, d0 := Part(src[..], start, start + n), dst[..];
    f := Iv(c.size);
    NoBlocks(c.size);
    var i := 0;
    MidStart(false, c, p);
    NothingPut(d0, at, n);
    while i < full
      invariant i <= full && Whole(i, c.size) && |f| == c.size
      invariant Midway(false, c, p, f, Part(dst[..], at, at + i), Part(src[..], start + i, start + n))
      invariant Outside(d0, dst[..], at, n)
    {
      NextBlock(i, full, c.size);
      var b := src[start + i..start + i + c.size];
      ghost var rest := Part(src[..], start + i + c.size, start + n);
      PartCut(src[..], start + i, start + i + c.size, start + n, b);
      MidStep(false, c, p, f, Part(dst[..], at, at + i), b, rest);
      PutBytes(dst, at, i, n, Xor(c.dec(b), f), src, start);
      f := Xor(b, f);
      i := i + c.size;
    }
  }

  /** Decrypts n bytes of src into dst; the two may be one and the same stretch. */
  method DecryptCTS(c: BlockCipher, dst: array<bv8>, at: nat, src: array<bv8>, start: nat, n: nat)
    requires c.Valid() && at + n <= dst.Length && start + n <= src.Length && (dst == src ==> at == start)
    modifies dst
    ensures Outside(old(dst[..]), dst[..], at, n)
    ensures Part(dst[..], at, at + n) == Dec(c, Iv(c.size), Part(old(src[..]), start, start + n))
  {
    hide *;
    CipherSize(c);
    ghost var p := Part(src[..], start, start + n);
    PartSize(src[..], start, start + n);
    var full := FullPart(n, c.size);
    FullSize(n, c.size);
    var f := DecryptBlocks(c, dst, at, src, start, n, full);
    PartSize(src[..], start + full, start + n);
    MidEnd(false, c, p, f, Part(dst[..], at, at + full), Part(src[..], start + full, start + n));
    MaskTail(c, f, dst, at, src, start, n, full);
  }

  /** Encrypting a stretch in place and decrypting it in place leaves the array as it was. */
  method EncryptThenDecrypt(c: BlockCipher, buf: array<bv8>, at: nat, n: nat)
    requires c.Valid() && at + n <= buf.Length
    modifies buf
    ensures buf[..] == old(buf[..])
  {
    hide *;
    ghost var before := buf[..];
    CipherSize(c);
    EncryptCTS(c, buf, at, buf, at, n);
    ghost var between := buf[..];
    DecryptCTS(c, buf, at, buf, at, n);
    DecEnc(c, Iv(c.size), Part(before, at, at + n));
    SameParts(before, between, buf[..], at, n);
  }

  lemma SameParts(a: Bytes, b: Bytes, c: Bytes, at: nat, n: nat)
    requires Outside(a, b, at, n) && Outside(b, c, at, n) && at + n <= |a| == |c|
    requires Part(a, at, at + n) == Part(c, at, at + n)
    ensures a == c
  {
    forall k | 0 <= k < |a|
      ensures a[k] == c[k]
    {
      if at <= k < at + n { assert a[k] == Part(a, at, at + n)[k - at] == Part(c, at, at + n)[k - at] == c[k]; }
    }
  }
}
