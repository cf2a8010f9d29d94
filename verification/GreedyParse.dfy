/** What it means that tokens are the greedy parse of an input: which positions are hashed while they are sent, which of
    them are looked at for the next token, and that none of those repeats more than the token says. */
module GreedyParse {
  import opened Bits
  import opened Tokens
  import opened HashChains

  function Span(t: Token): nat
  {
    if t.Match? then t.len else 1
  }

  /** How far tokens reach. */
  function Reach(ts: seq<Token>): nat
  {
    if ts == [] then 0 else Reach(ts[..|ts| - 1]) + Span(ts[|ts| - 1])
  }

  /** The positions hashed for a token at p: its start and, inside a match of at most four bytes, every position, as far
      as three bytes are left there. */
  function HashedBy(n: nat, p: nat, t: Token): set<nat>
  {
    (if p + 3 <= n then {p} else {})
    + if t.Match? && t.len <= 4 && p + t.len + 3 <= n then Inside(p, t.len) else {}
  }

  /** The positions inside a string of len bytes at p, but for its first. */
  function Inside(p: nat, len: nat): set<nat>
  {
    if len <= 1 then {} else Inside(p, len - 1) + {p + len - 1}
  }

  lemma InsideOne(p: nat)
    ensures Inside(p, 1) == {}
  {
  }

  lemma InsideMore(p: nat, len: nat)
    requires len >= 1
    ensures Inside(p, len + 1) == Inside(p, len) + {p + len}
  {
  }

  /** The positions hashed for all the tokens, in an input of n bytes. */
  function Hashed(n: nat, ts: seq<Token>): set<nat>
  {
    if ts == [] then {}
    else Hashed(n, ts[..|ts| - 1]) + HashedBy(n, Reach(ts[..|ts| - 1]), ts[|ts| - 1])
  }

  /** The positions of c between q and p that have the hash of p. */
  ghost function Between(src: seq<byte>, c: set<nat>, q: nat, p: nat): set<nat>
  {
    set b | b in c && q < b < p && SameHash(src, b, p)
  }

  /** The string at q is looked at for one like that at p: at most three hashed positions with the hash of p are nearer,
      and q is less than 32506 back, or exactly that with none nearer. The places where the window may start are no
      candidates: their entry reads as none. */
  ghost predicate Considered(src: seq<byte>, c: set<nat>, p: nat, q: nat)
  {
    && q in c && 0 < q < p && |Between(src, c, q, p)| < 4
    && (p - q < 32506 || (p - q == 32506 && Between(src, c, q, p) == {} && q % 32768 != 0))
  }

  /** Nothing looked at agrees with the string at p for more than len bytes. */
  ghost predicate Unbeaten(src: seq<byte>, c: set<nat>, p: nat, len: nat)
  {
    forall q :: Considered(src, c, p, q) ==> !Repeats(src, q, p, len + 1)
  }

  /** The len bytes at a hashed position q and at p agree, and no more do, but for 258 or all there are; nothing nearer
      that is looked at agrees for as many, or for eight. */
  ghost predicate Nearest(src: seq<byte>, c: set<nat>, p: nat, q: int, len: nat)
  {
    && 0 <= q < p && q in c && Repeats(src, q, p, len) && p + len <= |src|
    && (len == 258 || p + len == |src| || src[q + len] != src[p + len])
    && forall x :: x > q && Considered(src, c, p, x) ==> !Repeats(src, x, p, if len < 8 then len else 8)
  }

  /** The token is a greedy choice at p: it takes eight bytes or all there are, or as many as anything looked at agrees
      for; so a literal is sent only where nothing looked at agrees for three. A match is one with the nearest string
      that will do, as far as the two agree. */
  ghost predicate Greedy(src: seq<byte>, c: set<nat>, p: nat, t: Token)
  {
    var len := if t.Match? then t.len else 2;
    && (len >= 8 || p + len >= |src| || Unbeaten(src, c, p, len))
    && (t.Match? ==> Nearest(src, c, p, p - t.dist, len))
  }

  lemma NearestBefore(src: seq<byte>, c: set<nat>, p: nat, q: int, len: nat)
    requires Nearest(src, c + {p}, p, q, len)
    ensures Nearest(src, c, p, q, len)
  {
    hide Considered, Repeats;
    forall x | x > q && Considered(src, c, p, x)
      ensures !Repeats(src, x, p, if len < 8 then len else 8)
    {
      ConsideredBefore(src, c, p, x);
    }
  }

  lemma MakeUnbeaten(src: seq<byte>, c: set<nat>, p: nat, len: nat)
    requires forall q :: Considered(src, c, p, q) ==> !Repeats(src, q, p, len + 1)
    ensures Unbeaten(src, c, p, len)
  {
    hide Considered, Repeats;
  }

  /** Every token is a greedy choice, after those before it. */
  ghost predicate GreedyTokens(src: seq<byte>, ts: seq<Token>)
  {
    forall i :: 0 <= i < |ts| ==> Greedy(src, Hashed(|src|, ts[..i]), Reach(ts[..i]), ts[i])
  }

  lemma GreedyMore(src: seq<byte>, ts: seq<Token>, t: Token)
    requires GreedyTokens(src, ts) && Greedy(src, Hashed(|src|, ts), Reach(ts), t)
    ensures GreedyTokens(src, ts + [t])
    ensures Reach(ts + [t]) == Reach(ts) + Span(t)
    ensures Hashed(|src|, ts + [t]) == Hashed(|src|, ts) + HashedBy(|src|, Reach(ts), t)
  {
    hide Greedy, HashedBy, Span, GreedyTokens;
    assert (ts + [t])[..|ts|] == ts;
    GreedyAdded(src, ts, t);
  }

  lemma GreedyAdded(src: seq<byte>, ts: seq<Token>, t: Token)
    requires GreedyTokens(src, ts) && Greedy(src, Hashed(|src|, ts), Reach(ts), t)
    ensures GreedyTokens(src, ts + [t])
  {
    hide Greedy, Hashed, Reach;
    var us := ts + [t];
    forall i | 0 <= i < |us|
      ensures Greedy(src, Hashed(|src|, us[..i]), Reach(us[..i]), us[i])
    {
      assert us[..i] == ts[..i];
      if i == |ts| { assert ts[..i] == ts; }
    }
  }

  lemma RepeatsHash(src: seq<byte>, q: nat, p: nat, len: nat)
    requires Repeats(src, q, p, len) && len >= 3
    ensures SameHash(src, q, p)
  {
    hide UpdateHash;
    var x, y := src[q..q + len], src[p..p + len];
    assert src[q] == x[0] == y[0] == src[p];
    assert src[q + 1] == x[1] == y[1] == src[p + 1];
    assert src[q + 2] == x[2] == y[2] == src[p + 2];
  }

  lemma SubsetSize(a: set<nat>, b: set<nat>)
    requires a <= b
    ensures |a| <= |b|
  {
    if a != {} {
      var x :| x in a;
      SubsetSize(a - {x}, b - {x});
    }
  }

  /** The string just hashed does not count for itself. */
  lemma ConsideredBefore(src: seq<byte>, c: set<nat>, p: nat, q: nat)
    ensures Considered(src, c + {p}, p, q) <==> Considered(src, c, p, q)
  {
    assert Between(src, c + {p}, q, p) == Between(src, c, q, p);
  }

  lemma UnbeatenBefore(src: seq<byte>, c: set<nat>, p: nat, len: nat)
    requires Unbeaten(src, c + {p}, p, len)
    ensures Unbeaten(src, c, p, len)
  {
    hide Considered, Repeats;
    forall q | Considered(src, c, p, q)
      ensures !Repeats(src, q, p, len + 1)
    {
      ConsideredBefore(src, c, p, q);
    }
  }

  /** Literals alone are no greedy parse of a run of one byte: the third token at the latest is a match. */
  lemma RunTaken(src: seq<byte>, b: byte, ts: seq<Token>)
    requires |src| >= 5 && (forall i :: 0 <= i < |src| ==> src[i] == b)
    requires |ts| >= 3 && GreedyTokens(src, ts)
    ensures ts[0].Match? || ts[1].Match? || ts[2].Match?
  {
    hide Repeats, SameHash, HashAt;
    if ts[0].Literal? && ts[1].Literal? && ts[2].Literal? {
      TwoHashed(|src|, ts[..2], ts[0], ts[1]);
      assert Greedy(src, Hashed(|src|, ts[..2]), Reach(ts[..2]), ts[2]);
      assert Between(src, {0, 1}, 1, 2) == {};
      assert Considered(src, {0, 1}, 2, 1);
      RunRepeats(src, b);
    }
  }

  lemma RunRepeats(src: seq<byte>, b: byte)
    requires |src| >= 5 && (forall i :: 0 <= i < |src| ==> src[i] == b)
    ensures Repeats(src, 1, 2, 3)
  {
    assert src[1..4] == src[2..5];
  }

  lemma TwoHashed(n: nat, ts: seq<Token>, t: Token, u: Token)
    requires n >= 4 && ts == [t, u] && t.Literal? && u.Literal?
    ensures Reach(ts) == 2 && Hashed(n, ts) == {0, 1}
  {
    assert ts[..1] == [t] && [t][..0] == [];
    assert Hashed(n, [t]) == {0};
  }

  // -- the chains lead to everything that is to be looked at ---------------------------------------

  /** The chain of p has come to candidate i, and has not passed q. */
  ghost predicate Underway(prev: seq<uint16>, src: seq<byte>, base: nat, c: set<nat>, p: nat, first: nat, q: nat,
                           i: nat, seen: set<nat>)
  {
    && |prev| == 32768
    && var cur := Candidate(prev, first, i);
    && cur != 0 && base + cur in c && base < q <= base + cur < p && SameHash(src, base + cur, p)
    && InReach(prev, first, p - base, i) && |seen| == i
    && seen <= Between(src, c, base + cur, p)
  }

  lemma MoreBetween(src: seq<byte>, c: set<nat>, a: nat, b: nat, p: nat)
    requires a < b < p && b in c && SameHash(src, b, p)
    ensures Between(src, c, b, p) + {b} <= Between(src, c, a, p) && b !in Between(src, c, b, p)
  {
    hide SameHash;
  }

  lemma BetweenLess(src: seq<byte>, c: set<nat>, a: nat, b: nat, p: nat)
    requires a <= b
    ensures Between(src, c, b, p) <= Between(src, c, a, p)
  {
    hide SameHash;
  }

  lemma SameHashes(src: seq<byte>, a: nat, b: nat, c: nat)
    requires SameHash(src, a, c) && SameHash(src, b, c)
    ensures SameHash(src, a, b)
  {
    hide HashAt;
  }

  lemma UnderwayParts(prev: seq<uint16>, src: seq<byte>, base: nat, c: set<nat>, p: nat, first: nat, q: nat, i: nat,
                      seen: set<nat>)
    requires |prev| == 32768 && Underway(prev, src, base, c, p, first, q, i, seen)
    ensures var cur := Candidate(prev, first, i);
      && cur != 0 && base + cur in c && base < q <= base + cur < p && SameHash(src, base + cur, p)
      && InReach(prev, first, p - base, i) && |seen| == i
      && seen <= Between(src, c, base + cur, p)
  {
  }

  lemma MakeUnderway(prev: seq<uint16>, src: seq<byte>, base: nat, c: set<nat>, p: nat, first: nat, q: nat, i: nat,
                     seen: set<nat>, cur: nat)
    requires |prev| == 32768 && cur == Candidate(prev, first, i)
    requires cur != 0 && base + cur in c && base < q <= base + cur < p && SameHash(src, base + cur, p)
    requires InReach(prev, first, p - base, i) && |seen| == i && seen <= Between(src, c, base + cur, p)
    ensures Underway(prev, src, base, c, p, first, q, i, seen)
  {
  }

  /** The entry behind a candidate that lies after q leads to a position that does not lie before q. */
  lemma NextStep(head: seq<uint16>, prev: seq<uint16>, src: seq<byte>, base: nat, c: set<nat>, p: nat, cur: nat, q: nat)
    requires Chains(head, prev, src, base, c, p + 1) && Complete(head, prev, src, base, c, p + 1)
    requires base + cur in c && base < q < base + cur < p && p - q <= 32506
    requires q in c && SameHash(src, q, p) && SameHash(src, base + cur, p)
    ensures |prev| == 32768
    ensures var next := prev[cur % 32768];
      next != 0 && base + next in c && q <= base + next < base + cur && SameHash(src, base + next, p)
  {
    hide *;
    ChainsParts(head, prev, src, base, c, p + 1);
    SamePlace(base, cur);
    ChainFollow(head, prev, src, base, c, p + 1, base + cur);
    CompleteFollow(head, prev, src, base, c, p + 1, base + cur);
    SameHashes(src, q, base + cur, p);
    var next := prev[cur % 32768];
    NewestAt(next, src, base, c, base + cur, q);
    LinkedParts(next, src, base, c, base + cur);
    SameHashVia(src, base + next, base + cur, p);
  }

  lemma SameHashVia(src: seq<byte>, a: nat, b: nat, c: nat)
    requires a + 2 < |src| && b + 2 < |src| && HashAt(src, a) == HashAt(src, b) && SameHash(src, b, c)
    ensures SameHash(src, a, c)
  {
    hide HashAt;
  }

  lemma MakeSameHash(src: seq<byte>, a: nat, b: nat)
    requires a + 2 < |src| && b + 2 < |src| && HashAt(src, a) == HashAt(src, b)
    ensures SameHash(src, a, b)
  {
    hide HashAt;
  }

  lemma ReachMore(prev: seq<uint16>, first: nat, scan: nat, i: nat)
    requires |prev| == 32768 && InReach(prev, first, scan, i)
    requires Candidate(prev, first, i + 1) > if scan > 32506 then scan - 32506 else 0
    ensures InReach(prev, first, scan, i + 1)
  {
    hide Candidate;
  }

  /** The next candidate has not passed q either. */
  lemma NextUnderway(prev: seq<uint16>, src: seq<byte>, base: nat, c: set<nat>, p: nat, first: nat, q: nat, i: nat,
      seen: set<nat>, cur: nat)
    requires |prev| == 32768 && cur == Candidate(prev, first, i) && Underway(prev, src, base, c, p, first, q, i, seen)
    requires prev[cur % 32768] != 0 && base + prev[cur % 32768] in c && q <= base + prev[cur % 32768] < base + cur
    requires SameHash(src, base + prev[cur % 32768], p) && p - q < 32506
    ensures Underway(prev, src, base, c, p, first, q, i + 1, seen + {base + cur})
  {
    hide *;
    UnderwayParts(prev, src, base, c, p, first, q, i, seen);
    NextCandidate(prev, first, i);
    var next := prev[cur % 32768];
    ReachMore(prev, first, p - base, i);
    MoreBetween(src, c, base + next, base + cur, p);
    MakeUnderway(prev, src, base, c, p, first, q, i + 1, seen + {base + cur}, next);
  }

  /** Following the chain of p, every position with few hashed ones nearer is come to among the first four. */
  lemma {:induction false} Reached(head: seq<uint16>, prev: seq<uint16>, src: seq<byte>, base: nat, c: set<nat>, p: nat,
      first: nat, q: nat, i: nat, seen: set<nat>) returns (k: nat)
    requires |prev| == 32768 && Underway(prev, src, base, c, p, first, q, i, seen)
    requires Chains(head, prev, src, base, c, p + 1) && Complete(head, prev, src, base, c, p + 1)
    requires q in c && SameHash(src, q, p) && |Between(src, c, q, p)| < 4
    requires p - q < 32506 || Between(src, c, q, p) == {}
    ensures base <= p && k < 4 && InReach(prev, first, p - base, k) && base + Candidate(prev, first, k) == q
    decreases 4 - i
  {
    hide *;
    UnderwayParts(prev, src, base, c, p, first, q, i, seen);
    var cur := Candidate(prev, first, i);
    BetweenLess(src, c, q, base + cur, p);
    if base + cur == q {
      SubsetSize(seen, Between(src, c, q, p));
      k := i;
    } else {
      MoreBetween(src, c, q, base + cur, p);
      SubsetSize(seen + {base + cur}, Between(src, c, q, p));
      NextStep(head, prev, src, base, c, p, cur, q);
      NextUnderway(prev, src, base, c, p, first, q, i, seen, cur);
      k := Reached(head, prev, src, base, c, p, first, q, i + 1, seen + {base + cur});
    }
  }

  /** Everything that is to be looked at is among the first four candidates, as far as the chain stays in reach. */
  lemma ConsideredReached(head: seq<uint16>, prev: seq<uint16>, src: seq<byte>, base: nat, c: set<nat>, p: nat,
      first: nat, q: nat) returns (k: nat)
    requires Chains(head, prev, src, base, c, p + 1) && Complete(head, prev, src, base, c, p + 1) && p in c
    requires Linked(first, src, base, c, p) && Newest(first, src, base, c, p)
    requires Considered(src, c, p, q) && SameHash(src, q, p) && base <= p && (base == 0 || p - base >= 32506)
    ensures |prev| == 32768 && first != 0 && p - base - first <= 32506
    ensures k < 4 && InReach(prev, first, p - base, k) && base + Candidate(prev, first, k) == q
  {
    hide *;
    ChainsParts(head, prev, src, base, c, p + 1);
    ConsideredParts(src, c, p, q, base);
    NewestAt(first, src, base, c, p, q);
    LinkedParts(first, src, base, c, p);
    MakeSameHash(src, base + first, p);
    FirstUnderway(prev, src, base, c, p, first, q);
    k := Reached(head, prev, src, base, c, p, first, q, 0, {});
  }

  lemma FirstUnderway(prev: seq<uint16>, src: seq<byte>, base: nat, c: set<nat>, p: nat, first: nat, q: nat)
    requires |prev| == 32768 && first != 0 && base + first in c && base < q <= base + first < p
    requires SameHash(src, base + first, p)
    ensures Underway(prev, src, base, c, p, first, q, 0, {})
  {
    hide SameHash;
  }

  lemma ConsideredParts(src: seq<byte>, c: set<nat>, p: nat, q: nat, base: nat)
    requires Considered(src, c, p, q) && base % 32768 == 0 && base <= p && (base == 0 || p - base >= 32506)
    ensures q in c && base < q < p && p - q <= 32506 && |Between(src, c, q, p)| < 4
    ensures p - q < 32506 || Between(src, c, q, p) == {}
  {
    hide Between;
  }

  // -- the candidates of a chain lie further and further back ---------------------------------------

  /** A candidate in reach is a hashed position before p. */
  ghost predicate OnChain(src: seq<byte>, base: nat, c: set<nat>, p: nat, cur: nat)
  {
    cur != 0 && base + cur in c && base + cur < p && p - base - cur <= 32506
  }

  lemma StepDown(head: seq<uint16>, prev: seq<uint16>, src: seq<byte>, base: nat, c: set<nat>, p: nat, cur: nat)
    requires Chains(head, prev, src, base, c, p + 1) && OnChain(src, base, c, p, cur)
    ensures |prev| == 32768 && (prev[cur % 32768] != 0 ==>
      base + prev[cur % 32768] in c && prev[cur % 32768] < cur)
  {
    hide *;
    ChainsParts(head, prev, src, base, c, p + 1);
    OnChainParts(src, base, c, p, cur);
    SamePlace(base, cur);
    ChainFollow(head, prev, src, base, c, p + 1, base + cur);
    if prev[cur % 32768] != 0 { LinkedParts(prev[cur % 32768], src, base, c, base + cur); }
  }

  lemma OnChainParts(src: seq<byte>, base: nat, c: set<nat>, p: nat, cur: nat)
    requires OnChain(src, base, c, p, cur)
    ensures cur != 0 && base + cur in c && base + cur < p && p - base - cur <= 32506
  {
  }

  lemma ReachLess(prev: seq<uint16>, first: nat, scan: nat, i: nat)
    requires |prev| == 32768 && InReach(prev, first, scan, i + 1)
    ensures InReach(prev, first, scan, i)
    ensures Candidate(prev, first, i + 1) > if scan > 32506 then scan - 32506 else 0
  {
    hide Candidate;
  }

  lemma {:induction false} CandidateOnChain(head: seq<uint16>, prev: seq<uint16>, src: seq<byte>, base: nat,
      c: set<nat>, p: nat, first: nat, i: nat)
    requires Chains(head, prev, src, base, c, p + 1) && OnChain(src, base, c, p, first)
    requires base <= p && |prev| == 32768 && InReach(prev, first, p - base, i)
    ensures OnChain(src, base, c, p, Candidate(prev, first, i))
    ensures i > 0 ==> Candidate(prev, first, i) < Candidate(prev, first, i - 1)
  {
    hide *;
    if i > 0 {
      ReachLess(prev, first, p - base, i - 1);
      CandidateOnChain(head, prev, src, base, c, p, first, i - 1);
      var cur := Candidate(prev, first, i - 1);
      NextCandidate(prev, first, i - 1);
      StepDown(head, prev, src, base, c, p, cur);
      OnChainParts(src, base, c, p, cur);
      MakeOnChain(src, base, c, p, Candidate(prev, first, i));
    } else {
      FirstCandidate(prev, first);
    }
  }

  lemma FirstCandidate(prev: seq<uint16>, first: nat)
    requires |prev| == 32768
    ensures Candidate(prev, first, 0) == first
  {
  }

  lemma MakeOnChain(src: seq<byte>, base: nat, c: set<nat>, p: nat, cur: nat)
    requires cur != 0 && base + cur in c && base + cur < p && p - base - cur <= 32506
    ensures OnChain(src, base, c, p, cur)
  {
  }

  /** A candidate that lies behind another one was come to earlier. */
  lemma {:induction false} Earlier(head: seq<uint16>, prev: seq<uint16>, src: seq<byte>, base: nat, c: set<nat>, p: nat,
      first: nat, i: nat, k: nat)
    requires Chains(head, prev, src, base, c, p + 1) && OnChain(src, base, c, p, first)
    requires base <= p && |prev| == 32768 && InReach(prev, first, p - base, k) && i <= k
    ensures Candidate(prev, first, k) <= Candidate(prev, first, i)
    decreases k - i
  {
    hide *;
    if i < k {
      CandidateOnChain(head, prev, src, base, c, p, first, k);
      ReachLess(prev, first, p - base, k - 1);
      Earlier(head, prev, src, base, c, p, first, i, k - 1);
    }
  }
}
