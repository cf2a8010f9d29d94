/** The rolling hash of three bytes and the chains of earlier positions with the same hash. */
module HashChains {
  import opened Arith
  import opened Bits
  import opened Inflate
  import opened Tokens

  /** Folds one byte into the hash; a byte is shifted out after two more. */
  function UpdateHash(h: nat, c: byte): (r: nat)
    ensures r < 32768
  {
    BitXor(h * 32, c) % 32768
  }

  /** The hash of the three bytes at position a. */
  function HashAt(src: seq<byte>, a: nat): (r: nat)
    requires a + 2 < |src|
    ensures r < 32768
  {
    UpdateHash(UpdateHash(src[a], src[a + 1]), src[a + 2])
  }

  lemma ShiftLow(h: nat, p: nat)
    requires p > 0
    ensures (h * 32) % (32 * p) == 32 * (h % p)
  {
    var q, r := h / p, h % p;
    MulAssoc(32, p, q);
    assert h * 32 == q * (32 * p) + 32 * r;
    DivModUnique(h * 32, 32 * p, q, 32 * r);
  }

  lemma ModMod(x: nat, d: nat, m: nat)
    requires d > 0 && m > 0
    ensures d * m > 0 && x % (d * m) % m == x % m
  {
    MulLess(0, d, m);
    var q, r := x / (d * m), x % (d * m);
    var q2, r2 := r / m, r % m;
    assert x == (d * m) * q + r && r == m * q2 + r2;
    MulAssoc(q, d, m);
    MulDist(q * d, q2, m);
    DivModUnique(x, m, q * d + q2, r2);
  }

  lemma LowOfLow(x: nat)
    ensures x % 32768 % 1024 == x % 1024 && x % 32768 % 32 == x % 32 && x % 1024 % 32 == x % 32
  {
    ModMod(x, 32, 1024);
    ModMod(x, 1024, 32);
    ModMod(x, 32, 32);
  }

  lemma Powers()
    ensures Pow2(15) == 32768 && Pow2(10) == 1024 && Pow2(5) == 32
  {
    Pow2Values();
  }

  /** Cutting off at 32 * p bits only the low bits of h matter. */
  lemma XorCut(h: nat, c: byte, k: nat, p: nat)
    requires Pow2(k) == 32 * p && p > 0
    ensures BitXor(h * 32, c) % (32 * p) == BitXor(32 * (h % p), c % (32 * p))
  {
    hide *;
    BitXorLow(h * 32, c, k);
    ShiftLow(h, p);
  }

  lemma UpdateIs(h: nat, c: byte)
    ensures UpdateHash(h, c) == BitXor(h * 32, c) % 32768
    ensures c % 32768 == c && c % 1024 == c && h % 1 == 0
  {
    hide BitXor;
  }

  /** What the low bits of an updated hash depend on. */
  lemma UpdateLow(h: nat, c: byte)
    ensures UpdateHash(h, c) == BitXor(32 * (h % 1024), c)
    ensures UpdateHash(h, c) % 1024 == BitXor(32 * (h % 32), c)
    ensures UpdateHash(h, c) % 32 == c % 32
  {
    hide *;
    Powers();
    UpdateIs(h, c);
    XorCut(h, c, 15, 1024);
    XorCut(h, c, 10, 32);
    XorCut(h, c, 5, 1);
    LowOfLow(BitXor(h * 32, c));
    XorZero(c % 32);
  }

  lemma {:induction false} XorZero(b: nat)
    ensures BitXor(0, b) == b
  {
    if b > 0 { XorZero(b / 2); }
  }

  /** The hash state is such that the next byte completes the hash of a and b with it. */
  ghost predicate Primed(h: nat, a: byte, b: byte)
  {
    h % 1024 == UpdateHash(a, b) % 1024
  }

  lemma PrimedUpdate(h: nat, a: byte, b: byte, c: byte)
    requires Primed(h, a, b)
    ensures UpdateHash(h, c) == UpdateHash(UpdateHash(a, b), c)
    ensures Primed(UpdateHash(h, c), b, c)
  {
    hide UpdateHash;
    var x := UpdateHash(a, b);
    UpdateLow(h, c);
    UpdateLow(x, c);
    UpdateLow(a, b);
    UpdateLow(b, c);
    SameLow(h, x);
  }

  lemma SameLow(h: nat, x: nat)
    requires h % 1024 == x % 1024
    ensures h % 32 == x % 32
  {
    LowOfLow(h);
    LowOfLow(x);
  }

  /** Strings with equal first and second bytes and equal hashes have equal third bytes. */
  lemma HashTellsThird(src: seq<byte>, a: nat, b: nat)
    requires a + 2 < |src| && b + 2 < |src|
    requires HashAt(src, a) == HashAt(src, b) && src[a] == src[b] && src[a + 1] == src[b + 1]
    ensures src[a + 2] == src[b + 2]
  {
    hide BitXor;
    var h := UpdateHash(src[a], src[a + 1]);
    UpdateLow(h, src[a + 2]);
    UpdateLow(h, src[b + 2]);
    BitXorInjective(32 * (h % 1024), src[a + 2], src[b + 2]);
  }

  // -- the chains -------------------------------------------------------------------------

  /** Every chain entry leads to an earlier position with the same hash. Positions in the input are
      absolute; the tables hold them relative to base, and zero for none. A place of prev speaks for
      the last position put there, so a chained position is only followed while it is within the
      window. */
  ghost predicate Chains(head: seq<uint16>, prev: seq<uint16>, src: seq<byte>, base: nat, chained: set<nat>, top: nat)
  {
    && |head| == 32768 && |prev| == 32768 && base % 32768 == 0
    && (forall a :: a in chained ==> a < top && a + 2 < |src|)
    && (forall h :: 0 <= h < 32768 && head[h] != 0 ==> base + head[h] in chained && HashAt(src, base + head[h]) == h)
    && (forall a :: a in chained && a + 32768 >= top ==> Linked(prev[a % 32768], src, base, chained, a))
  }

  /** The entry is none, or an earlier chained position with the same hash as a. */
  ghost predicate Linked(q: nat, src: seq<byte>, base: nat, chained: set<nat>, a: nat)
  {
    && a + 2 < |src|
    && (q != 0 ==>
          base + q in chained && base + q < a && base + q + 2 < |src| && HashAt(src, base + q) == HashAt(src, a))
  }

  lemma NoChains(src: seq<byte>, head: seq<uint16>, prev: seq<uint16>)
    requires |head| == 32768 && |prev| == 32768 && forall h :: 0 <= h < 32768 ==> head[h] == 0
    ensures Chains(head, prev, src, 0, {}, 0)
  {
  }

  /** Two positions less than a window apart use different places. */
  lemma DifferentPlaces(a: nat, b: nat)
    requires a < b < a + 32768
    ensures a % 32768 != b % 32768
  {
  }

  /** Putting a position at the front of its chain. */
  lemma ChainInsert(head: seq<uint16>, prev: seq<uint16>, src: seq<byte>, base: nat, chained: set<nat>, top: nat,
      a: nat)
    requires Chains(head, prev, src, base, chained, top)
    requires top <= a && a + 2 < |src| && base <= a < base + 65536
    ensures |head| == |prev| == 32768
    ensures Linked(head[HashAt(src, a)], src, base, chained, a)
    ensures Chains(head[HashAt(src, a) := a - base], prev[a % 32768 := head[HashAt(src, a)]], src, base, chained + {a},
        a + 1)
  {
    hide HashAt;
    var h := HashAt(src, a);
    var prev2 := prev[a % 32768 := head[h]];
    forall b | b in chained + {a} && b + 32768 >= a + 1
      ensures Linked(prev2[b % 32768], src, base, chained + {a}, b)
    {
      if b != a { DifferentPlaces(b, a); }
    }
  }

  lemma ChainFollow(head: seq<uint16>, prev: seq<uint16>, src: seq<byte>, base: nat, chained: set<nat>, top: nat,
      a: nat)
    requires Chains(head, prev, src, base, chained, top) && a in chained && a + 32768 >= top
    ensures |prev| == 32768 && a + 2 < |src| && Linked(prev[a % 32768], src, base, chained, a)
  {
    hide HashAt;
  }

  /** Rebasing an entry by one window. */
  function Rebase(m: uint16): uint16
  {
    if m >= 32768 then m - 32768 else 0
  }

  function Rebased(s: seq<uint16>): (r: seq<uint16>)
    ensures |r| == |s| && forall i :: 0 <= i < |s| ==> r[i] == Rebase(s[i])
  {
    seq(|s|, i requires 0 <= i < |s| => Rebase(s[i]))
  }

  /** Sliding the window keeps the chains, cut off where they leave it. */
  lemma ChainSlide(head: seq<uint16>, prev: seq<uint16>, src: seq<byte>, base: nat, chained: set<nat>, top: nat)
    requires Chains(head, prev, src, base, chained, top)
    ensures Chains(Rebased(head), Rebased(prev), src, base + 32768, chained, top)
  {
    hide HashAt;
    var head2 := Rebased(head);
    forall h | 0 <= h < 32768 && head2[h] != 0
      ensures base + 32768 + head2[h] in chained && HashAt(src, base + 32768 + head2[h]) == h
    {
      assert base + 32768 + head2[h] == base + head[h];
    }
    var prev2 := Rebased(prev);
    forall a | a in chained && a + 32768 >= top
      ensures Linked(prev2[a % 32768], src, base + 32768, chained, a)
    {
      var q := prev[a % 32768];
      assert Linked(q, src, base, chained, a);
      if Rebase(q) != 0 { assert base + 32768 + Rebase(q) == base + q; }
    }
  }

  lemma SamePlace(base: nat, str: nat)
    requires base % 32768 == 0
    ensures (base + str) % 32768 == str % 32768 < 32768
  {
  }

  lemma LinkedParts(q: nat, src: seq<byte>, base: nat, chained: set<nat>, a: nat)
    requires Linked(q, src, base, chained, a) && q != 0
    ensures base + q in chained && base + q < a && a + 2 < |src| && HashAt(src, base + q) == HashAt(src, a)
  {
    hide HashAt;
  }

  lemma LinkedOnce(q: nat, r: nat, src: seq<byte>, base: nat, chained: set<nat>, a: nat)
    requires q != 0 && Linked(q, src, base, chained, a) && Linked(r, src, base, chained, base + q)
    ensures Linked(r, src, base, chained, a)
  {
    hide HashAt;
  }

  lemma LinkedMore(q: nat, src: seq<byte>, base: nat, chained: set<nat>, a: nat)
    requires a + 2 < |src| && Linked(q, src, base, chained, a)
    ensures Linked(q, src, base, chained + {a}, a)
  {
  }

  // -- nothing chained is passed over ------------------------------------------------------------

  ghost predicate SameHash(src: seq<byte>, a: nat, b: nat)
  {
    a + 2 < |src| && b + 2 < |src| && HashAt(src, a) == HashAt(src, b)
  }

  /** No chained position in the window before a and with its hash is later than the entry. */
  ghost predicate Newest(q: nat, src: seq<byte>, base: nat, chained: set<nat>, a: nat)
  {
    forall b :: b in chained && base < b < a && SameHash(src, b, a) ==> b <= base + q
  }

  /** Every chain leads through all positions put on it that are still in the window, the latest first. */
  ghost predicate Complete(head: seq<uint16>, prev: seq<uint16>, src: seq<byte>, base: nat, chained: set<nat>, top: nat)
  {
    && |head| == 32768 && |prev| == 32768
    && (forall a :: a in chained ==> a < top && a + 2 < |src|)
    && (forall a :: a in chained && base < a ==> a <= base + head[HashAt(src, a)])
    && (forall a :: a in chained && a + 32768 >= top ==> Newest(prev[a % 32768], src, base, chained, a))
  }

  lemma NothingComplete(src: seq<byte>, head: seq<uint16>, prev: seq<uint16>)
    requires |head| == 32768 && |prev| == 32768
    ensures Complete(head, prev, src, 0, {}, 0)
  {
  }

  /** The head of a chain is the latest before any position not yet chained. */
  lemma HeadNewest(head: seq<uint16>, prev: seq<uint16>, src: seq<byte>, base: nat, chained: set<nat>, top: nat, a: nat)
    requires Complete(head, prev, src, base, chained, top) && top <= a && a + 2 < |src|
    ensures |head| == 32768 && Newest(head[HashAt(src, a)], src, base, chained, a)
  {
    hide HashAt;
  }

  lemma NewestAt(q: nat, src: seq<byte>, base: nat, chained: set<nat>, a: nat, b: nat)
    requires Newest(q, src, base, chained, a) && b in chained && base < b < a && SameHash(src, b, a)
    ensures b <= base + q
  {
    hide HashAt;
  }

  lemma ChainsParts(head: seq<uint16>, prev: seq<uint16>, src: seq<byte>, base: nat, chained: set<nat>, top: nat)
    requires Chains(head, prev, src, base, chained, top)
    ensures |head| == |prev| == 32768 && base % 32768 == 0
    ensures forall a :: a in chained ==> a < top && a + 2 < |src|
  {
    hide HashAt, Linked;
  }

  lemma NewestMore(q: nat, src: seq<byte>, base: nat, chained: set<nat>, a: nat, new_: nat)
    requires Newest(q, src, base, chained, a) && a <= new_
    ensures Newest(q, src, base, chained + {new_}, a)
  {
    hide HashAt;
  }

  lemma CompleteInsert(head: seq<uint16>, prev: seq<uint16>, src: seq<byte>, base: nat, chained: set<nat>, top: nat,
      a: nat)
    requires Complete(head, prev, src, base, chained, top)
    requires top <= a && a + 2 < |src| && base <= a < base + 65536
    ensures |head| == |prev| == 32768
    ensures Complete(head[HashAt(src, a) := a - base], prev[a % 32768 := head[HashAt(src, a)]], src, base,
        chained + {a}, a + 1)
  {
    hide HashAt, Newest;
    var h := HashAt(src, a);
    var prev2 := prev[a % 32768 := head[h]];
    HeadNewest(head, prev, src, base, chained, top, a);
    forall b | b in chained + {a} && b + 32768 >= a + 1
      ensures Newest(prev2[b % 32768], src, base, chained + {a}, b)
    {
      if b != a { DifferentPlaces(b, a); }
      NewestMore(prev2[b % 32768], src, base, chained, b, a);
    }
  }

  lemma NewestSlide(q: uint16, src: seq<byte>, base: nat, chained: set<nat>, a: nat)
    requires Newest(q, src, base, chained, a)
    ensures Newest(Rebase(q), src, base + 32768, chained, a)
  {
    hide HashAt;
  }

  lemma CompleteSlide(head: seq<uint16>, prev: seq<uint16>, src: seq<byte>, base: nat, chained: set<nat>, top: nat)
    requires Complete(head, prev, src, base, chained, top)
    ensures Complete(Rebased(head), Rebased(prev), src, base + 32768, chained, top)
  {
    hide HashAt, Newest;
    forall a | a in chained && a + 32768 >= top
      ensures Newest(Rebased(prev)[a % 32768], src, base + 32768, chained, a)
    {
      NewestSlide(prev[a % 32768], src, base, chained, a);
    }
  }

  lemma CompleteFollow(head: seq<uint16>, prev: seq<uint16>, src: seq<byte>, base: nat, chained: set<nat>, top: nat,
      a: nat)
    requires Complete(head, prev, src, base, chained, top) && a in chained && a + 32768 >= top
    ensures |prev| == 32768 && Newest(prev[a % 32768], src, base, chained, a)
  {
    hide HashAt, Newest;
  }

  // -- what a match means ----------------------------------------------------------------------

  /** The len bytes at b also stand at a. */
  ghost predicate Repeats(src: seq<byte>, a: nat, b: nat, len: nat)
  {
    a < b && b + len <= |src| && src[a..a + len] == src[b..b + len]
  }

  /** Copying a repeated string byte by byte extends the output by it, overlap or not. */
  lemma {:induction false} CopyRepeats(src: seq<byte>, a: nat, b: nat, len: nat)
    requires Repeats(src, a, b, len)
    ensures CopyMatch(src[..b], b - a, len) == src[..b + len]
    decreases len
  {
    if len > 0 {
      var x, y := src[a..a + len], src[b..b + len];
      assert src[a] == x[0] == y[0] == src[b];
      assert src[..b] + [src[a]] == src[..b + 1];
      assert src[a + 1..a + len] == x[1..] == y[1..] == src[b + 1..b + len];
      CopyRepeats(src, a + 1, b + 1, len - 1);
    }
  }

  lemma LiteralApplies(src: seq<byte>, k: nat)
    requires k < |src|
    ensures Apply(src[..k], Literal(src[k])) == Some(src[..k + 1])
  {
    assert src[..k] + [src[k]] == src[..k + 1];
  }

  lemma MatchApplies(src: seq<byte>, a: nat, b: nat, len: nat)
    requires Repeats(src, a, b, len)
    ensures Apply(src[..b], Match(b - a, len)) == Some(src[..b + len])
  {
    CopyRepeats(src, a, b, len);
  }

  // -- walking a chain ---------------------------------------------------------------------------

  /** The candidate reached after following the chain from q i times. */
  function Candidate(prev: seq<uint16>, q: nat, i: nat): nat
    requires |prev| == 32768
  {
    if i == 0 then q else prev[Candidate(prev, q, i - 1) % 32768]
  }

  /** Up to the i-th, the candidates after the first stay in reach of the string at scan. */
  ghost predicate InReach(prev: seq<uint16>, q: nat, scan: nat, i: nat)
    requires |prev| == 32768
  {
    forall j :: 1 <= j <= i ==> Candidate(prev, q, j) > if scan > 32506 then scan - 32506 else 0
  }

  lemma NextCandidate(prev: seq<uint16>, q: nat, i: nat)
    requires |prev| == 32768
    ensures Candidate(prev, q, i + 1) == prev[Candidate(prev, q, i) % 32768]
  {
  }
}
