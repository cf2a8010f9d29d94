/** The running state that counting and sending a tree's code lengths share. */
module RunScanner {
  import opened PrefixCodes
  import opened CodeLengths
  import opened Huffman

  class ScanState {
    var prevlen: int
    var curlen: nat
    var nextlen: nat
    var count: nat
    var maxCount: nat
    var minCount: nat

    /** Place n is next; the run it may continue began count places before it. */
    ghost predicate AtPlace(lens: seq<nat>, n: nat)
      reads this
    {
      && count <= n <= |lens|
      && nextlen == (if n < |lens| then lens[n] else 65535)
      && (forall i :: n - count <= i < n ==> lens[i] == nextlen)
      && (n < |lens| ==>
            maxCount == MaxRun(prevlen, lens[n]) && minCount == MinRun(prevlen, lens[n]) && count < maxCount)
      && (n == |lens| ==> count == 0)
    }

    constructor (tree: array<CtData>, ghost lens: seq<nat>)
      requires lens != [] && tree.Length > 0 && tree[0].length == lens[0]
      ensures AtPlace(lens, 0) && prevlen == -1 && count == 0
    {
      prevlen, curlen, nextlen, count := -1, 0, tree[0].length, 0;
      maxCount, minCount := 7, 4;
      if tree[0].length == 0 {
        maxCount, minCount := 138, 3;
      }
    }

    /** Moves past place n, and tells whether its run ends there. */
    method Advance(tree: array<CtData>, n: nat, ghost lens: seq<nat>) returns (ended: bool)
      requires AtPlace(lens, n) && n < |lens| < tree.Length
      requires tree[n + 1].length == if n + 1 < |lens| then lens[n + 1] else 65535
      requires forall i :: 0 <= i < |lens| ==> lens[i] < 16
      modifies this
      ensures prevlen == old(prevlen) && curlen == lens[n] && count == old(count) + 1 <= n + 1
      ensures minCount == MinRun(prevlen, curlen) && count <= MaxRun(prevlen, curlen)
      ensures nextlen == if n + 1 < |lens| then lens[n + 1] else 65535
      ensures ended ==>
        Items(prevlen, lens[n + 1 - count..]) == RunItems(prevlen, curlen, count) + Items(curlen, lens[n + 1..])
      ensures !ended ==> AtPlace(lens, n + 1)
    {
      hide Items, RunItems, MaxRun, MinRun;
      curlen := nextlen;
      nextlen := tree[n + 1].length;
      count := count + 1;
      ended := count >= maxCount || curlen != nextlen;
      if ended { RunEnds(lens, n + 1 - count, count, prevlen, curlen); }
    }

    lemma AtEnd(lens: seq<nat>)
      requires AtPlace(lens, |lens|)
      ensures count == 0
    {
    }

    /** Starts the next run at place n. */
    method EndRun(n: nat, ghost lens: seq<nat>)
      requires n <= |lens| && nextlen == if n < |lens| then lens[n] else 65535
      modifies this
      ensures AtPlace(lens, n) && count == 0 && prevlen == old(curlen)
    {
      count := 0;
      prevlen := curlen;
      if nextlen == 0 {
        maxCount, minCount := 138, 3;
      } else if curlen == nextlen {
        maxCount, minCount := 6, 3;
      } else {
        maxCount, minCount := 7, 4;
      }
    }
  }

  /** A run that reached its cap, the end, or a different length is exactly what is cut off. */
  lemma RunEnds(lens: seq<nat>, s: nat, c: nat, prev: int, v: nat)
    requires s + c <= |lens| && 0 < c <= MaxRun(prev, v)
    requires forall i :: s <= i < s + c ==> lens[i] == v
    requires c == MaxRun(prev, v) || s + c == |lens| || lens[s + c] != v
    ensures Items(prev, lens[s..]) == RunItems(prev, v, c) + Items(v, lens[s + c..])
  {
    RunCut(lens[s..], v, MaxRun(prev, v), c);
    assert lens[s..][c..] == lens[s + c..];
  }

  lemma {:induction false} RunCut(t: seq<nat>, v: nat, cap: nat, c: nat)
    requires c <= |t| && c <= cap && (forall i :: 0 <= i < c ==> t[i] == v)
    requires c == cap || c == |t| || t[c] != v
    ensures RunLength(t, v, cap) == c
    decreases c
  {
    if c > 0 { RunCut(t[1..], v, cap - 1, c - 1); }
  }

  // -- counting symbols ---------------------------------------------------------------------

  function Syms(items: seq<Item>): (s: seq<nat>)
    ensures |s| == |items| && forall i :: 0 <= i < |items| ==> s[i] == items[i].Sym()
  {
    seq(|items|, i requires 0 <= i < |items| => items[i].Sym())
  }

  lemma SymsConcat(a: seq<Item>, b: seq<Item>)
    ensures Syms(a + b) == Syms(a) + Syms(b)
  {
  }

  lemma {:induction false} CountConcat(a: seq<int>, b: seq<int>, x: int)
    ensures Count(a + b, x) == Count(a, x) + Count(b, x)
  {
    if b == [] {
      assert a + b == a;
    } else {
      CountConcat(a, b[..|b| - 1], x);
      assert (a + b)[..|a + b| - 1] == a + b[..|b| - 1];
    }
  }

  lemma {:induction false} CountSingles(v: nat, n: nat, x: int)
    ensures Count(Syms(Singles(v, n)), x) == if x == v then n else 0
  {
    if n > 0 {
      CountSingles(v, n - 1, x);
      assert Syms(Singles(v, n)) == Syms(Singles(v, n - 1)) + [v];
      assert (Syms(Singles(v, n - 1)) + [v])[..n - 1] == Syms(Singles(v, n - 1)) by { SinglesOnly(v, n - 1); }
    }
  }

  /** How often a run's items use each symbol. */
  function RunUses(prev: int, v: nat, n: nat, x: int): nat
  {
    if n < MinRun(prev, v) then if x == v then n else 0
    else if v != 0 then (if x == 16 then 1 else 0) + (if v != prev && x == v then 1 else 0)
    else if n <= 10 then if x == 17 then 1 else 0
    else if x == 18 then 1 else 0
  }

  lemma RunCount(prev: int, v: nat, n: nat, x: int)
    ensures Count(Syms(RunItems(prev, v, n)), x) == RunUses(prev, v, n, x)
  {
    if n < MinRun(prev, v) {
      CountSingles(v, n, x);
    } else if v != 0 && v != prev {
      assert Syms([Single(v), Copy(n - 1)]) == [v] + [16];
      CountConcat([v], [16], x);
    } else if v != 0 {
      assert Syms([Copy(n)]) == [16];
    } else if n <= 10 {
      assert Syms([FewZeros(n)]) == [17];
    } else {
      assert Syms([ManyZeros(n)]) == [18];
    }
  }

  /** Counting one more run. */
  lemma CountRunMore(done: seq<Item>, prev: int, v: nat, n: nat, x: int)
    ensures Count(Syms(done + RunItems(prev, v, n)), x) == Count(Syms(done), x) + RunUses(prev, v, n, x)
  {
    hide RunItems, Count, RunUses;
    SymsConcat(done, RunItems(prev, v, n));
    CountConcat(Syms(done), Syms(RunItems(prev, v, n)), x);
    RunCount(prev, v, n, x);
  }
}
