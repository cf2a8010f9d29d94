/** The sliding window and the greedy search for earlier copies of the bytes ahead. */
module Matching {
  import opened Bits
  import opened Tokens
  import opened HashChains
  import opened GreedyParse

  class Matcher {
    const src: seq<byte>
    const window: array<byte>
    const prev: array<uint16>
    const head: array<uint16>
    var srcPos: nat
    var highWater: nat
    var insH: nat
    var strstart: nat
    var lookahead: nat
    var insert: nat
    var blockStart: int
    var matchStart: int
    var matchLen: nat
    var prevLength: nat
    ghost var base: nat          // the place in the input of the window's first byte
    ghost var chained: set<nat>  // the places in the input that were hashed
    ghost var top: nat           // all of them lie below this

    /** The first n bytes of the window are the input up to srcPos. */
    ghost predicate Holding(n: nat)
      reads this`base, this`srcPos, window
    {
      window.Length == 65794 && Shown(window[..], src, base, n, srcPos)
    }

    /** The hash chains are sound, and lead through everything chained. */
    ghost predicate Linking()
      reads this`base, this`chained, this`top, prev, head
    {
      prev.Length == 32768 && head.Length == 32768 && prev != head
      && Chains(head[..], prev[..], src, base, chained, top)
      && Complete(head[..], prev[..], src, base, chained, top)
    }

    ghost predicate Sound(n: nat)
      reads this`base, this`strstart, this`srcPos, this`chained, this`top
      reads this`insert, this`highWater, this`prevLength, this`blockStart, window, prev, head
    {
      && Holding(n) && Linking()
      && insert <= strstart && highWater <= 65536 && prevLength == 2
      && blockStart <= strstart && 0 <= base + blockStart
    }

    /** The rolling hash is ready for the current position, which is not yet chained. */
    ghost predicate Valid()
      reads this, window, prev, head
    {
      && Sound(strstart + lookahead) && top + insert <= base + strstart
      && (lookahead >= 3 ==> PrimedAt(insH, src, base + strstart))
    }

    /** The whole reach of the search lies in the window. */
    ghost predicate Deep()
      reads this`base, this`strstart
    {
      base == 0 || strstart >= 32506
    }

    constructor (src: seq<byte>)
      ensures Valid() && this.src == src && fresh(window) && fresh(prev) && fresh(head)
      ensures base == 0 && strstart == 0 && lookahead == 0 && blockStart == 0 && insert == 0 && matchLen == 2
      ensures chained == {}
    {
      this.src := src;
      window := new byte[65794](_ => 0);
      prev := new uint16[32768](_ => 0);
      head := new uint16[32768](_ => 0);
      srcPos, highWater, insH, strstart, lookahead, insert := 0, 0, 0, 0, 0, 0;
      blockStart, matchStart, matchLen, prevLength := 0, 0, 2, 2;
      base, chained, top := 0, {}, 0;
      new;
      NoChains(src, head[..], prev[..]);
      NothingComplete(src, head[..], prev[..]);
    }

    lemma HoldingParts(n: nat)
      requires Holding(n)
      ensures window.Length == 65794 && n <= 65536
      ensures base + n == srcPos <= |src|
    {
    }

    lemma HoldingShown(n: nat)
      requires Holding(n)
      ensures Shown(window[..], src, base, n, srcPos)
    {
    }

    lemma MakeHolding(n: nat)
      requires window.Length == 65794 && Shown(window[..], src, base, n, srcPos)
      ensures Holding(n)
    {
    }

    lemma LinkingParts()
      requires Linking()
      ensures prev.Length == 32768 && head.Length == 32768 && prev != head && base % 32768 == 0
    {
      hide HashAt, Complete;
    }

    lemma LinkingChains()
      requires Linking()
      ensures Chains(head[..], prev[..], src, base, chained, top)
      ensures Complete(head[..], prev[..], src, base, chained, top)
    {
      hide Chains, Complete;
    }

    lemma MakeLinking()
      requires prev.Length == 32768 && head.Length == 32768 && prev != head
      requires Chains(head[..], prev[..], src, base, chained, top)
      requires Complete(head[..], prev[..], src, base, chained, top)
      ensures Linking()
    {
      hide Chains, Complete;
    }

    lemma SoundParts(n: nat)
      requires Sound(n)
      ensures Holding(n) && Linking()
      ensures insert <= strstart && highWater <= 65536 && prevLength == 2
      ensures blockStart <= strstart && 0 <= base + blockStart
    {
    }

    lemma MakeSound(n: nat)
      requires Holding(n) && Linking()
      requires insert <= strstart && highWater <= 65536 && prevLength == 2
      requires blockStart <= strstart && 0 <= base + blockStart
      ensures Sound(n)
    {
    }

    /** Bytes taken from what was skipped, or added to the lookahead, do not change what is held. */
    lemma HoldingAt(n: nat, i: nat)
      requires Holding(n) && i < n
      ensures i < window.Length && base + i < |src| && window[i] == src[base + i]
    {
      ShownAt(window[..], src, base, n, srcPos, i);
    }

    lemma ValidParts()
      requires Valid()
      ensures Sound(strstart + lookahead) && top + insert <= base + strstart
      ensures lookahead >= 3 ==> PrimedAt(insH, src, base + strstart)
    {
    }

    lemma MakeValid()
      requires Sound(strstart + lookahead) && top + insert <= base + strstart
      requires lookahead >= 3 ==> PrimedAt(insH, src, base + strstart)
      ensures Valid()
    {
    }

    /** Hashes the three bytes at str and puts str at the front of their chain. */
    method InsertString(str: nat, ghost n: nat) returns (old_head: nat)
      requires Holding(n) && Linking() && str + 2 < n && top <= base + str
      requires PrimedAt(insH, src, base + str)
      modifies this`insH, this`chained, this`top, prev, head
      ensures Linking() && top == base + str + 1 && chained == old(chained) + {base + str}
      ensures base + str + 2 < |src| && insH == HashAt(src, base + str)
      ensures PrimedAt(insH, src, base + str + 1)
      ensures old_head == old(head[..])[insH] && Linked(old_head, src, base, chained, base + str)
      ensures Newest(old_head, src, base, chained, base + str)
      ensures head[..] == old(head[..])[insH := str]
      ensures prev[..] == old(prev[..])[str % 32768 := old_head]
    {
      hide *;
      HoldingParts(n);
      LinkingParts();
      LinkingChains();
      HashNext(str, n);
      ChainInsert(head[..], prev[..], src, base, chained, top, base + str);
      CompleteInsert(head[..], prev[..], src, base, chained, top, base + str);
      HeadNewest(head[..], prev[..], src, base, chained, top, base + str);
      SamePlace(base, str);
      insH := UpdateHash(insH, window[str + 2]);
      ghost var h0: seq<uint16>, p0: seq<uint16> := head[..], prev[..];
      old_head := head[insH];
      prev[str % 32768] := old_head;
      head[insH] := str;
      assert head[..] == h0[insH := str];
      assert prev[..] == p0[str % 32768 := old_head];
      LinkedMore(old_head, src, base, chained, base + str);
      NewestMore(old_head, src, base, chained, base + str, base + str);
      chained := chained + {base + str};
      top := base + str + 1;
      MakeLinking();
    }

    lemma HashNext(str: nat, n: nat)
      requires Holding(n) && str + 2 < n && PrimedAt(insH, src, base + str)
      ensures str + 2 < window.Length && base + str + 2 < |src|
      ensures UpdateHash(insH, window[str + 2]) == HashAt(src, base + str)
      ensures PrimedAt(HashAt(src, base + str), src, base + str + 1)
    {
      hide *;
      HoldingAt(n, str + 2);
      HashedAt(src, base + str, insH);
    }

    lemma HashStart(str: nat, n: nat)
      requires Holding(n) && str + 1 < n
      ensures str + 1 < window.Length && PrimedAt(UpdateHash(window[str], window[str + 1]), src, base + str)
    {
      hide UpdateHash, Holding;
      HoldingAt(n, str);
      HoldingAt(n, str + 1);
    }

    /** Rebases every chain entry by one window. */
    method SlideHash()
      requires prev.Length == 32768 && head.Length == 32768 && prev != head
      modifies prev, head
      ensures head[..] == Rebased(old(head[..])) && prev[..] == Rebased(old(prev[..]))
    {
      var n := 0;
      while n < 32768
        invariant n <= 32768 && prev[..] == old(prev[..])
        invariant forall i :: 0 <= i < n ==> head[i] == Rebase(old(head[i]))
        invariant forall i :: n <= i < 32768 ==> head[i] == old(head[i])
      {
        var m := head[n];
        head[n] := Rebase(m);
        n := n + 1;
      }
      n := 0;
      while n < 32768
        invariant n <= 32768 && head[..] == Rebased(old(head[..]))
        invariant forall i :: 0 <= i < n ==> prev[i] == Rebase(old(prev[i]))
        invariant forall i :: n <= i < 32768 ==> prev[i] == old(prev[i])
      {
        var m := prev[n];
        prev[n] := Rebase(m);
        n := n + 1;
      }
    }

    /** Moves up to size bytes of input into the window. */
    method ReadBuf(start: nat, size: nat) returns (n: nat)
      requires srcPos <= |src| && start + size <= window.Length
      modifies this`srcPos, window
      ensures n == (if |src| - old(srcPos) <= size then |src| - old(srcPos) else size)
      ensures srcPos == old(srcPos) + n <= |src|
      ensures window[..] == old(window[..start]) + src[old(srcPos)..srcPos] + old(window[start + n..])
    {
      n := if |src| - srcPos <= size then |src| - srcPos else size;
      forall i | 0 <= i < n { window[start + i] := src[srcPos + i]; }
      srcPos := srcPos + n;
    }

    /** Moves the upper half of the window down; returns the free space there is now. */
    method SlideWindow(more: nat) returns (space: nat)
      requires Valid() && strstart >= 65274 && more == 65536 - lookahead - strstart
      modifies this`matchStart, this`strstart, this`blockStart, this`insert, this`base, window, prev, head
      ensures Valid() && base == old(base) + 32768 && strstart == old(strstart) - 32768
      ensures base + blockStart == old(base + blockStart) && matchStart == old(matchStart) - 32768 && Deep()
      ensures insert == (if old(insert) > strstart then strstart else old(insert))
      ensures space == 65536 - lookahead - strstart
    {
      hide *;
      ghost var n := strstart + lookahead;
      ValidParts();
      SoundParts(n);
      HoldingParts(n);
      HoldingShown(n);
      ghost var w: seq<byte> := window[..];
      MoveDown(32768 - more);
      ShownSlide(w, window[..], src, base, n, srcPos);
      matchStart := matchStart - 32768;
      strstart := strstart - 32768;
      blockStart := blockStart - 32768;
      if insert > strstart {
        insert := strstart;
      }
      RebaseChains();
      MakeDeep();
      space := more + 32768;
      MakeHolding(n - 32768);
      MakeSound(n - 32768);
      MakeValid();
    }

    /** Slides the chains along with the window. */
    method RebaseChains()
      requires Linking()
      modifies this`base, prev, head
      ensures Linking() && base == old(base) + 32768
      ensures head[..] == Rebased(old(head[..])) && prev[..] == Rebased(old(prev[..]))
    {
      hide *;
      LinkingParts();
      LinkingChains();
      ChainSlide(head[..], prev[..], src, base, chained, top);
      CompleteSlide(head[..], prev[..], src, base, chained, top);
      SlideHash();
      base := base + 32768;
      MakeLinking();
    }

    /** Copies n bytes from the middle of the window to its start. */
    method MoveDown(n: nat)
      requires n <= 32768 && window.Length == 65794
      modifies window
      ensures forall i :: 0 <= i < window.Length ==> window[i] == old(window[if i < n then 32768 + i else i])
    {
      forall i | 0 <= i < n { window[i] := window[32768 + i]; }
    }

    /** Starts the rolling hash on what was just read, and chains the positions still owed. */
    method HashPending()
      requires Sound(strstart + lookahead) && top + insert <= base + strstart
      modifies this`insH, this`insert, this`chained, this`top, prev, head
      ensures Valid() && insert <= old(insert) && (old(insert) == 0 ==> chained == old(chained))
    {
      hide *;
      SoundParts(strstart + lookahead);
      HoldingParts(strstart + lookahead);
      if lookahead + insert < 3 {
        MakeValid();
        return;
      }
      var str := strstart - insert;
      HashStart(str, strstart + lookahead);
      insH := window[str];
      insH := UpdateHash(insH, window[str + 1]);
      while insert != 0
        invariant Linking() && insert <= old(insert) && str == strstart - insert && top <= base + str
        invariant old(insert) == 0 ==> chained == old(chained)
        invariant lookahead + insert >= 3 && PrimedAt(insH, src, base + str)
        decreases insert
      {
        var h := InsertString(str, strstart + lookahead);
        str := str + 1;
        insert := insert - 1;
        if lookahead + insert < 3 { break; }
      }
      MakeSound(strstart + lookahead);
      MakeValid();
    }

    /** Zeroes the bytes just past the data, as far as they were never written. */
    method ZeroHighWater()
      requires window.Length == 65794 && strstart + lookahead <= 65536 && highWater <= 65536
      modifies this`highWater, window
      ensures var curr := strstart + lookahead;
        if old(highWater) < 65536 && old(highWater) < curr + 258 then
          && highWater == (if curr + 258 <= 65536 then curr + 258 else 65536)
          && forall i :: 0 <= i < window.Length ==>
            window[i] == if curr <= i < highWater && old(highWater) <= i then 0 else old(window[i])
        else
          highWater == old(highWater) && window[..] == old(window[..])
    {
      hide *;
      if highWater >= 65536 { return; }
      var curr := strstart + lookahead;
      if highWater < curr {
        var init := if 65536 - curr <= 258 then 65536 - curr else 258;
        ClearBytes(curr, init);
        highWater := curr + init;
      } else if highWater < curr + 258 {
        var init := if curr + 258 - highWater <= 65536 - highWater then curr + 258 - highWater else 65536 - highWater;
        ClearBytes(highWater, init);
        highWater := highWater + init;
      }
    }

    method ClearBytes(start: nat, n: nat)
      requires start + n <= window.Length
      modifies window
      ensures forall i :: 0 <= i < window.Length ==> window[i] == if start <= i < start + n then 0 else old(window[i])
    {
      forall i | start <= i < start + n { window[i] := 0; }
    }

    /** Reads more input, and brings the hash up to it. */
    method Refill(more: nat)
      requires Valid() && more == 65536 - lookahead - strstart
      modifies this`insert, this`lookahead, this`srcPos, this`insH, this`chained, this`top, window, prev, head
      ensures Valid() && insert <= old(insert) && lookahead >= old(lookahead)
      ensures old(insert) == 0 ==> chained == old(chained)
      ensures srcPos == if |src| - old(srcPos) <= more then |src| else old(srcPos) + more
    {
      hide *;
      ValidParts();
      SoundParts(strstart + lookahead);
      HoldingParts(strstart + lookahead);
      HoldingShown(strstart + lookahead);
      ghost var w: seq<byte>, read := window[..], srcPos;
      var n := ReadBuf(strstart + lookahead, more);
      ShownRead(w, window[..], src, base, strstart + lookahead, read, n);
      lookahead := lookahead + n;
      MakeHolding(strstart + lookahead);
      MakeSound(strstart + lookahead);
      HashPending();
    }

    /** Refills the window: afterwards there is enough lookahead, or the input has run out. */
    method FillWindow()
      requires Valid() && lookahead < 262
      modifies this`matchStart, this`strstart, this`blockStart, this`insert, this`base, this`lookahead, this`srcPos,
               this`insH, this`chained, this`top, this`highWater, window, prev, head
      ensures Valid() && base + strstart == old(base + strstart) && base + blockStart == old(base + blockStart)
      ensures lookahead >= 262 || srcPos == |src|
      ensures lookahead >= old(lookahead) && strstart < 65274 && insert <= old(insert)
      ensures (old(insert) == 0 ==> chained == old(chained)) && (old(Deep()) ==> Deep())
    {
      hide *;
      ghost var pos, block, la, ins := base + strstart, base + blockStart, lookahead, insert;
      ghost var c, deep := chained, Deep();
      while true
        invariant Valid() && la <= lookahead < 262 && insert <= ins
        invariant base + strstart == pos && base + blockStart == block
        invariant (ins == 0 ==> chained == c) && (deep ==> Deep())
        decreases |src| - srcPos
      {
        Bounds();
        var more := 65536 - lookahead - strstart;
        if strstart >= 65274 {
          more := SlideWindow(more);
          Bounds();
        }
        if srcPos == |src| { break; }
        Refill(more);
        if lookahead >= 262 || srcPos == |src| { break; }
      }
      ZeroBeyond();
    }

    /** Zeroing past the data leaves what the window shows alone. */
    method ZeroBeyond()
      requires Valid()
      modifies this`highWater, window
      ensures Valid()
    {
      hide *;
      ghost var n := strstart + lookahead;
      ValidParts();
      SoundParts(n);
      HoldingParts(n);
      HoldingShown(n);
      ghost var w: seq<byte> := window[..];
      ZeroHighWater();
      ShownPrefix(w, window[..], src, base, n, srcPos);
      MakeHolding(n);
      MakeSound(n);
      MakeValid();
    }

    lemma Bounds()
      requires Valid()
      ensures strstart + lookahead <= 65536 && base + strstart + lookahead == srcPos <= |src|
    {
      hide Linking;
    }

    /** Compares a candidate with the current string: zero when one of the four quick tests fails,
        else how far they agree. The third byte is not looked at; the caller knows it agrees. */
    method MatchRun(scan: nat, cand: nat, bestLen: nat, scanEnd1: byte, scanEnd: byte) returns (n: nat)
      requires cand < scan && scan + 258 < window.Length && 2 <= bestLen <= 258
      requires scanEnd1 == window[scan + bestLen - 1] && scanEnd == window[scan + bestLen]
      requires window[cand] == window[scan] && window[cand + 1] == window[scan + 1] ==>
        window[cand + 2] == window[scan + 2]
      ensures n == 0 || 3 <= n <= 258
      ensures Agree(scan, cand, n)
      ensures Measured(scan, cand, bestLen, n)
    {
      if window[cand + bestLen] != scanEnd
        || window[cand + bestLen - 1] != scanEnd1
        || window[cand] != window[scan]
        || window[cand + 1] != window[scan + 1] {
        return 0;
      }
      n := 3;
      while n < 258 && window[scan + n] == window[cand + n]
        invariant 3 <= n <= 258 && Agree(scan, cand, n)
      {
        n := n + 1;
      }
    }

    /** Walks the chain from curMatch for the longest copy of the string at the current position,
        not longer than the lookahead. */
    method LongestMatch(hashHead: nat) returns (len: nat, ghost at: nat)
      requires Sound(strstart + lookahead) && lookahead >= 3 && top == base + strstart + 1 && base + strstart in chained
      requires hashHead != 0 && hashHead + 32506 >= strstart && Linked(hashHead, src, base, chained, base + strstart)
      modifies this`matchStart
      ensures 2 <= len <= 258 && len <= lookahead
      ensures len >= 8 || len == lookahead || Exhausted(strstart, prev[..], hashHead, len)
      ensures len >= 3 ==>
        && 0 <= matchStart < strstart && strstart - matchStart <= 32506
        && Repeats(src, base + matchStart, base + strstart, len)
      ensures BestSoFar(strstart, prev[..], hashHead, at, matchStart, len, 8, lookahead)
    {
      hide *;
      SoundParts(strstart + lookahead);
      HoldingParts(strstart + lookahead);
      var bestLen;
      bestLen, at := WalkChain(hashHead);
      len := if bestLen <= lookahead then bestLen else lookahead;
      FoundRepeats(strstart, matchStart, bestLen, len);
      CutBest(strstart, prev[..], hashHead, at, matchStart, bestLen, len);
    }

    /** Compares candidate i of the chain with the string at scan. */
    method TryCandidate(scan: nat, curMatch: nat, bestLen: nat, scanEnd1: byte, scanEnd: byte, ghost p: seq<uint16>,
        ghost first: nat, ghost i: nat)
      returns (n: nat)
      requires Holding(strstart + lookahead) && scan == strstart && lookahead >= 3 && 2 <= bestLen <= 258
      requires curMatch != 0 && Linked(curMatch, src, base, chained, base + scan)
      requires |p| == 32768 && curMatch == Candidate(p, first, i) && Searched(scan, p, first, i, bestLen)
      requires scan + 258 < window.Length
      requires scanEnd1 == window[scan + bestLen - 1] && scanEnd == window[scan + bestLen]
      ensures curMatch < scan && (n == 0 || 3 <= n <= 258) && Agree(scan, curMatch, n)
      ensures Searched(scan, p, first, i + 1, if n > bestLen then n else bestLen)
      ensures n > 0 ==> Ended(scan, curMatch, n, 258)
    {
      hide *;
      ThirdByte(curMatch, scan);
      n := MatchRun(scan, curMatch, bestLen, scanEnd1, scanEnd);
      if n > 0 { MeasuredEnd(scan, curMatch, bestLen, n); }
      SearchMore(scan, p, first, i, bestLen, n);
    }

    /** The search itself: bestLen may run past the lookahead. */
    method WalkChain(hashHead: nat) returns (bestLen: nat, ghost at: nat)
      requires Sound(strstart + lookahead) && lookahead >= 3 && top == base + strstart + 1
      requires hashHead != 0 && hashHead + 32506 >= strstart && Linked(hashHead, src, base, chained, base + strstart)
      modifies this`matchStart
      ensures 2 <= bestLen <= 258 && Found(strstart, matchStart, bestLen)
      ensures bestLen >= 8 || bestLen >= lookahead || Exhausted(strstart, prev[..], hashHead, bestLen)
      ensures var nice := if 8 > lookahead then lookahead else 8;
        BestSoFar(strstart, prev[..], hashHead, at, matchStart, bestLen, nice, 258)
    {
      hide *;
      at := 0;
      SoundParts(strstart + lookahead);
      HoldingParts(strstart + lookahead);
      LinkingParts();
      var chainLength := if prevLength >= 4 then 1 else 4;
      bestLen := prevLength;
      var niceMatch := 8;
      if niceMatch > lookahead {
        niceMatch := lookahead;
      }
      var limit := if strstart > 32506 then strstart - 32506 else 0;
      var scan: nat := strstart;
      var scanEnd1 := window[scan + bestLen - 1];
      var scanEnd := window[scan + bestLen];
      var curMatch: nat := hashHead;
      NothingFound(scan, matchStart);
      ghost var i, p: seq<uint16> := 0, prev[..];
      NothingSearched(scan, p, hashHead, bestLen);
      NoBest(scan, p, hashHead, matchStart, niceMatch);
      while true
        invariant i + chainLength == 4 && curMatch == Candidate(p, hashHead, i)
        invariant Searched(scan, p, hashHead, i, bestLen)
        invariant InReach(p, hashHead, scan, i) && BestSoFar(scan, p, hashHead, at, matchStart, bestLen, niceMatch, 258)
        invariant chainLength > 0 && 2 <= bestLen <= 258 && bestLen < niceMatch
        invariant curMatch != 0 && curMatch + 32506 >= scan && Linked(curMatch, src, base, chained, base + scan)
        invariant scanEnd1 == window[scan + bestLen - 1] && scanEnd == window[scan + bestLen]
        invariant Found(scan, matchStart, bestLen)
        decreases chainLength
      {
        var n := TryCandidate(scan, curMatch, bestLen, scanEnd1, scanEnd, p, hashHead, i);
        if n > bestLen {
          MakeBest(scan, p, hashHead, i, curMatch, bestLen, n, niceMatch);
          at := i;
          matchStart := curMatch;
          bestLen := n;
          MakeFound(scan, matchStart, bestLen);
          if n >= niceMatch { break; }
          scanEnd1 := window[scan + bestLen - 1];
          scanEnd := window[scan + bestLen];
        }
        NextInChain(curMatch, scan, p, hashHead, i);
        curMatch := prev[curMatch % 32768];
        i := i + 1;
        chainLength := chainLength - 1;
        if curMatch <= limit || chainLength == 0 {
          AllSearched(scan, p, hashHead, i, bestLen);
          break;
        }
        ReachMore(p, hashHead, scan, i - 1);
      }
    }

    // -- which candidates were looked at ----------------------------------------------------------

    /** The candidate does not agree with the string at scan for more than len bytes. */
    ghost predicate NoLonger(scan: nat, q: nat, len: nat)
      reads window
    {
      forall k :: 3 <= k <= 258 && Agree(scan, q, k) ==> k <= len
    }

    /** None of the first i candidates is longer. */
    ghost predicate Searched(scan: nat, p: seq<uint16>, q: nat, i: nat, len: nat)
      requires |p| == 32768
      reads window
    {
      forall j :: 0 <= j < i ==> NoLonger(scan, Candidate(p, q, j), len)
    }

    /** None of the first four candidates, as far as the chain stays in reach, is longer. */
    ghost predicate Exhausted(scan: nat, p: seq<uint16>, q: nat, len: nat)
      requires |p| == 32768
      reads window
    {
      forall i :: 0 <= i < 4 && InReach(p, q, scan, i) ==> NoLonger(scan, Candidate(p, q, i), len)
    }

    /** The strings at m and at scan differ behind their first len bytes, unless those are the most there can be. */
    ghost predicate Ended(scan: nat, m: int, len: nat, most: nat)
      reads window
    {
      || len == 258 || len == most
      || (0 <= m && m + len < window.Length && scan + len < window.Length && window[m + len] != window[scan + len])
    }

    /** A match found starts at a candidate and goes as far as the two agree; of the candidates before it none agrees
        for as many bytes, or for as many as the search is content with. */
    ghost predicate BestSoFar(scan: nat, p: seq<uint16>, first: nat, at: nat, m: int, len: nat, nice: nat, most: nat)
      requires |p| == 32768
      reads window
    {
      len >= 3 ==>
        && at < 4 && m == Candidate(p, first, at) && InReach(p, first, scan, at) && nice >= 3
        && Searched(scan, p, first, at, (if len < nice then len else nice) - 1) && Ended(scan, m, len, most)
    }

    lemma NoBest(scan: nat, p: seq<uint16>, first: nat, m: int, nice: nat)
      requires |p| == 32768
      ensures BestSoFar(scan, p, first, 0, m, 2, nice, 258) && InReach(p, first, scan, 0)
    {
    }

    lemma MakeBest(scan: nat, p: seq<uint16>, first: nat, i: nat, m: nat, best: nat, len: nat, nice: nat)
      requires |p| == 32768 && i < 4 && m == Candidate(p, first, i) && InReach(p, first, scan, i)
      requires Searched(scan, p, first, i, best) && best < len && best < nice && nice >= 3 && Ended(scan, m, len, 258)
      ensures BestSoFar(scan, p, first, i, m, len, nice, 258)
    {
      hide NoLonger, Candidate, InReach, Ended;
      var k := (if len < nice then len else nice) - 1;
      forall j | 0 <= j < i
        ensures NoLonger(scan, Candidate(p, first, j), k)
      {
        LongerStill(scan, Candidate(p, first, j), best, k);
      }
    }

    /** Cut off at the lookahead it still is. */
    lemma CutBest(scan: nat, p: seq<uint16>, first: nat, at: nat, m: int, best: nat, len: nat)
      requires |p| == 32768 && len == if best <= lookahead then best else lookahead
      requires lookahead >= 3 && BestSoFar(scan, p, first, at, m, best, if 8 > lookahead then lookahead else 8, 258)
      ensures BestSoFar(scan, p, first, at, m, len, 8, lookahead)
    {
      hide Searched, Candidate, InReach;
    }

    lemma MeasuredEnd(scan: nat, c: nat, best: nat, n: nat)
      requires Measured(scan, c, best, n) && n > 0
      ensures Ended(scan, c, n, 258)
    {
    }

    lemma NothingSearched(scan: nat, p: seq<uint16>, q: nat, len: nat)
      requires |p| == 32768
      ensures Searched(scan, p, q, 0, len) && Candidate(p, q, 0) == q
    {
    }

    lemma SearchMore(scan: nat, p: seq<uint16>, q: nat, i: nat, best: nat, n: nat)
      requires |p| == 32768 && Searched(scan, p, q, i, best) && 2 <= best <= 258 && scan + 258 < window.Length
      requires Candidate(p, q, i) < scan && Measured(scan, Candidate(p, q, i), best, n)
      ensures Searched(scan, p, q, i + 1, if n > best then n else best)
    {
      hide NoLonger, Measured;
      var len := if n > best then n else best;
      MeasuredLimit(scan, Candidate(p, q, i), best, n);
      forall j | 0 <= j < i
        ensures NoLonger(scan, Candidate(p, q, j), len)
      {
        LongerStill(scan, Candidate(p, q, j), best, len);
      }
    }

    lemma LongerStill(scan: nat, q: nat, best: nat, len: nat)
      requires NoLonger(scan, q, best) && best <= len
      ensures NoLonger(scan, q, len)
    {
    }

    /** A candidate that failed a quick test cannot beat the best so far; another one was measured. */
    lemma MeasuredLimit(scan: nat, c: nat, best: nat, n: nat)
      requires Measured(scan, c, best, n)
      ensures NoLonger(scan, c, if n > best then n else best)
    {
      if n == 0 {
        forall k | 3 <= k <= 258 && Agree(scan, c, k)
          ensures k <= best
        {
          AgreeAt(scan, c, k, 0);
          AgreeAt(scan, c, k, 1);
          if k > best {
            AgreeAt(scan, c, k, best - 1);
            AgreeAt(scan, c, k, best);
          }
        }
      } else {
        forall k | 3 <= k <= 258 && Agree(scan, c, k)
          ensures k <= n
        {
          if k > n { AgreeAt(scan, c, k, n); }
        }
      }
    }

    lemma AgreeAt(scan: nat, m: int, k: nat, i: nat)
      requires Agree(scan, m, k) && i < k
      ensures window[m + i] == window[scan + i]
    {
      assert window[m..m + k][i] == window[scan..scan + k][i];
    }

    lemma AllSearched(scan: nat, p: seq<uint16>, q: nat, i: nat, len: nat)
      requires |p| == 32768 && Searched(scan, p, q, i, len)
      requires 1 <= i && (i == 4 || Candidate(p, q, i) <= if scan > 32506 then scan - 32506 else 0)
      ensures Exhausted(scan, p, q, len)
    {
      hide NoLonger, Candidate;
    }

    /** What the comparison with one candidate says: it failed a quick test against the best so far,
        or it agrees for exactly n bytes, at most 258. */
    ghost predicate Measured(scan: nat, q: nat, best: nat, n: nat)
      reads window
    {
      && q < scan && scan + 258 < window.Length && 2 <= best <= 258 && n <= 258
      && (n > 0 ==> n == 258 || window[q + n] != window[scan + n])
      && (n == 0 <==>
            || window[q + best] != window[scan + best] || window[q + best - 1] != window[scan + best - 1]
            || window[q] != window[scan] || window[q + 1] != window[scan + 1])
    }

    /** The len bytes at m and at scan agree. */
    ghost predicate Agree(scan: nat, m: int, len: nat)
      reads window
    {
      0 <= m < scan && scan + len <= window.Length && window[m..m + len] == window[scan..scan + len]
    }

    /** A match worth sending starts at m, or none was found yet. */
    ghost predicate Found(scan: nat, m: int, len: nat)
      reads window
    {
      len >= 3 ==> 0 <= m < scan && scan - m <= 32506 && Agree(scan, m, len)
    }

    lemma NothingFound(scan: nat, m: int)
      ensures Found(scan, m, 2)
    {
    }

    lemma MakeFound(scan: nat, m: int, len: nat)
      requires 0 <= m < scan && scan - m <= 32506 && Agree(scan, m, len)
      ensures Found(scan, m, len)
    {
    }

    lemma FoundRepeats(scan: nat, m: int, best: nat, len: nat)
      requires Holding(strstart + lookahead) && Found(scan, m, best) && len <= best
      requires scan + len <= strstart + lookahead
      ensures len >= 3 ==> 0 <= m < scan && scan - m <= 32506 && Repeats(src, base + m, base + scan, len)
    {
      if len >= 3 { ShownRepeats(window[..], src, base, strstart + lookahead, srcPos, m, scan, best, len); }
    }

    /** A chained candidate's third byte agrees when its first two do. */
    lemma ThirdByte(q: nat, scan: nat)
      requires Holding(strstart + lookahead) && scan + 2 < strstart + lookahead
      requires q != 0 && Linked(q, src, base, chained, base + scan)
      ensures q < scan && scan + 2 < window.Length
      ensures window[q] == window[scan] && window[q + 1] == window[scan + 1] ==> window[q + 2] == window[scan + 2]
    {
      hide *;
      LinkedParts(q, src, base, chained, base + scan);
      HoldingParts(strstart + lookahead);
      HoldingAt(strstart + lookahead, q);
      HoldingAt(strstart + lookahead, q + 1);
      HoldingAt(strstart + lookahead, q + 2);
      HoldingAt(strstart + lookahead, scan);
      HoldingAt(strstart + lookahead, scan + 1);
      HoldingAt(strstart + lookahead, scan + 2);
      if window[q] == window[scan] && window[q + 1] == window[scan + 1] { HashTellsThird(src, base + q, base + scan); }
    }

    /** The next candidate on the chain, again with the same hash. */
    lemma NextLink(q: nat, scan: nat)
      requires Linking() && q != 0 && Linked(q, src, base, chained, base + scan) && base + q + 32768 >= top
      ensures prev.Length == 32768 && Linked(prev[q % 32768], src, base, chained, base + scan)
    {
      hide *;
      LinkingParts();
      LinkingChains();
      LinkedParts(q, src, base, chained, base + scan);
      SamePlace(base, q);
      ChainFollow(head[..], prev[..], src, base, chained, top, base + q);
      LinkedOnce(q, prev[q % 32768], src, base, chained, base + scan);
    }

    /** The next candidate lies further back on the chain. */
    lemma NextInChain(q: nat, scan: nat, p: seq<uint16>, first: nat, i: nat)
      requires Linking() && q != 0 && Linked(q, src, base, chained, base + scan) && base + q + 32768 >= top
      requires p == prev[..] && q == Candidate(p, first, i)
      ensures prev.Length == 32768 && Linked(prev[q % 32768], src, base, chained, base + scan)
      ensures prev[q % 32768] == Candidate(p, first, i + 1)
    {
      hide *;
      NextLink(q, scan);
      NextCandidate(p, first, i);
    }

    /** Hashes every position inside a short match, and moves past it. */
    method HashInterior(ghost n: nat)
      requires Holding(n) && Linking() && matchLen >= 3 && strstart + matchLen + 3 <= n && top == base + strstart + 1
      requires PrimedAt(insH, src, base + strstart + 1)
      modifies this`insH, this`strstart, this`matchLen, this`chained, this`top, prev, head
      ensures Linking() && matchLen == 0 && strstart == old(strstart) + old(matchLen)
      ensures top == base + strstart && PrimedAt(insH, src, base + strstart)
      ensures chained == old(chained) + Inside(base + old(strstart), old(matchLen))
    {
      hide *;
      ghost var end := strstart + matchLen;
      InsideOne(base + strstart);
      matchLen := matchLen - 1;
      while true
        invariant matchLen >= 1 && strstart + matchLen + 1 == end && Linking()
        invariant top == base + strstart + 1 && PrimedAt(insH, src, base + strstart + 1)
        invariant old(strstart) <= strstart
        invariant chained == old(chained) + Inside(base + old(strstart), strstart + 1 - old(strstart))
        decreases matchLen
      {
        InsideMore(base + old(strstart), strstart + 1 - old(strstart));
        strstart := strstart + 1;
        var h := InsertString(strstart, n);
        matchLen := matchLen - 1;
        if matchLen == 0 { break; }
      }
      strstart := strstart + 1;
    }

    /** Moves past a match, hashing the positions inside it only when it is short. */
    method InsertMatchInterior()
      requires Sound(strstart + matchLen + lookahead) && matchLen >= 3 && insert == 0 && top == base + strstart + 1
      requires PrimedAt(insH, src, base + strstart + 1)
      modifies this`insH, this`strstart, this`matchLen, this`chained, this`top, prev, head
      ensures Valid() && matchLen == 0 && strstart == old(strstart) + old(matchLen)
      ensures chained == old(chained)
        + if old(matchLen) <= 4 && lookahead >= 3 then Inside(base + old(strstart), old(matchLen)) else {}
    {
      hide *;
      ghost var n := strstart + matchLen + lookahead;
      SoundParts(n);
      HoldingParts(n);
      if matchLen <= 4 && lookahead >= 3 {
        HashInterior(n);
      } else {
        strstart := strstart + matchLen;
        matchLen := 0;
        if lookahead >= 3 { HashStart(strstart, n); }
        insH := window[strstart];
        insH := UpdateHash(insH, window[strstart + 1]);
      }
      MakeSound(n);
      MakeValid();
    }

    // -- one step of the search ------------------------------------------------------------------

    /** The current position was looked up, and hashed when there were bytes enough. */
    ghost predicate Looked()
      reads this, window, prev, head
    {
      && Sound(strstart + lookahead) && insert == 0 && top <= base + strstart + 1
      && (lookahead >= 3 ==> top == base + strstart + 1 && PrimedAt(insH, src, base + strstart + 1))
    }

    lemma LookedParts()
      requires Looked()
      ensures Sound(strstart + lookahead) && insert == 0 && top <= base + strstart + 1
      ensures lookahead >= 3 ==> top == base + strstart + 1 && PrimedAt(insH, src, base + strstart + 1)
    {
    }

    lemma MakeLooked()
      requires Sound(strstart + lookahead) && insert == 0 && top <= base + strstart + 1
      requires lookahead >= 3 ==> top == base + strstart + 1 && PrimedAt(insH, src, base + strstart + 1)
      ensures Looked()
    {
    }

    /** A match that may be sent. */
    ghost predicate GoodMatch()
      reads this
    {
      && 3 <= matchLen <= 258 && matchLen <= lookahead
      && 0 <= matchStart < strstart && strstart - matchStart <= 32506
      && Repeats(src, base + matchStart, base + strstart, matchLen)
    }

    /** Takes the longest match the chain leads to. */
    method MatchFrom(first: nat)
      requires Sound(strstart + lookahead) && lookahead >= 3 && top == base + strstart + 1 && Deep() && Headed(first)
      requires first != 0 && strstart - first <= 32506 && (lookahead >= 262 || srcPos == |src|)
      modifies this`matchStart, this`matchLen
      ensures Sound(strstart + lookahead)
      ensures matchLen >= 3 ==> GoodMatch() && Nearest(src, chained, base + strstart, base + matchStart, matchLen)
      ensures matchLen >= 8 || matchLen >= lookahead
        || Unbeaten(src, chained, base + strstart, if matchLen >= 3 then matchLen else 2)
    {
      hide *;
      ghost var n := strstart + lookahead;
      SoundParts(n);
      HeadedParts(first);
      LinkingParts();
      ghost var at;
      matchLen, at := LongestMatch(first);
      if matchLen < 8 && matchLen < lookahead { NothingBetter(first, matchLen); }
      if matchLen >= 3 {
        MakeGood();
        MakeNearest(first, at);
      }
      MakeSound(n);
    }

    /** Looks for a match at the current position. A match length left from before is below three. */
    method FindMatch()
      requires Valid() && insert == 0 && matchLen <= 2 && Deep() && (lookahead >= 262 || srcPos == |src|)
      modifies this`insH, this`chained, this`top, this`matchStart, this`matchLen, prev, head
      ensures Looked() && (matchLen >= 3 ==> GoodMatch())
      ensures chained == old(chained) + if lookahead >= 3 then {base + strstart} else {}
      ensures matchLen >= 3 ==> Nearest(src, chained, base + strstart, base + matchStart, matchLen)
      ensures lookahead < 3 || matchLen >= 8 || matchLen >= lookahead
        || Unbeaten(src, chained, base + strstart, if matchLen >= 3 then matchLen else 2)
    {
      hide *;
      ghost var n := strstart + lookahead;
      ValidParts();
      SoundParts(n);
      var hashHead := 0;
      if lookahead >= 3 {
        hashHead := InsertString(strstart, n);
        MakeSound(n);
        MakeHeaded(hashHead);
        if hashHead == 0 || strstart - hashHead > 32506 { NothingInReach(hashHead); }
      }
      if hashHead != 0 && strstart - hashHead <= 32506 {
        MatchFrom(hashHead);
      }
      MakeLooked();
    }

    /** The match found is the nearest that will do. */
    lemma MakeNearest(first: nat, at: nat)
      requires Linking() && top == base + strstart + 1 && Deep() && Headed(first) && prev.Length == 32768
      requires first != 0 && strstart - first <= 32506 && Holding(strstart + lookahead)
      requires lookahead >= 262 || srcPos == |src|
      requires 3 <= matchLen <= 258 && matchLen <= lookahead && 0 <= matchStart < strstart
      requires Repeats(src, base + matchStart, base + strstart, matchLen)
      requires BestSoFar(strstart, prev[..], first, at, matchStart, matchLen, 8, lookahead)
      ensures Nearest(src, chained, base + strstart, base + matchStart, matchLen)
    {
      hide *;
      var c, p, q, len := chained, base + strstart, base + matchStart, matchLen;
      BestParts(first, at);
      LinkingParts();
      LinkingChains();
      HeadOnChain(first);
      CandidateOnChain(head[..], prev[..], src, base, c, p, first, at);
      OnChainParts(src, base, c, p, matchStart);
      EndedThere();
      forall x | x > q && Considered(src, c, p, x)
        ensures !Repeats(src, x, p, if len < 8 then len else 8)
      {
        NotNearer(first, at, x);
      }
      FoldNearest(src, c, p, q, len);
    }

    lemma BestParts(first: nat, at: nat)
      requires prev.Length == 32768 && matchLen >= 3
      requires BestSoFar(strstart, prev[..], first, at, matchStart, matchLen, 8, lookahead)
      ensures at < 4 && matchStart == Candidate(prev[..], first, at) && InReach(prev[..], first, strstart, at)
      ensures Searched(strstart, prev[..], first, at, (if matchLen < 8 then matchLen else 8) - 1)
      ensures Ended(strstart, matchStart, matchLen, lookahead)
    {
      hide Searched, InReach, Candidate, Ended;
    }

    lemma HeadOnChain(first: nat)
      requires Headed(first) && first != 0 && strstart - first <= 32506
      ensures OnChain(src, base, chained, base + strstart, first)
    {
      hide *;
      HeadedParts(first);
      LinkedParts(first, src, base, chained, base + strstart);
      MakeOnChain(src, base, chained, base + strstart, first);
    }

    /** Where the agreement ends in the window it ends in the input. */
    lemma EndedThere()
      requires Holding(strstart + lookahead) && Ended(strstart, matchStart, matchLen, lookahead)
      requires lookahead >= 262 || srcPos == |src|
      requires 3 <= matchLen <= 258 && matchLen <= lookahead && 0 <= matchStart < strstart
      ensures base + strstart + matchLen <= |src|
      ensures matchLen == 258 || base + strstart + matchLen == |src|
        || src[base + matchStart + matchLen] != src[base + strstart + matchLen]
    {
      hide Holding;
      var n := strstart + lookahead;
      HoldingParts(n);
      if matchLen < lookahead {
        HoldingAt(n, matchStart + matchLen);
        HoldingAt(n, strstart + matchLen);
      }
    }

    /** What lies nearer than the match is a candidate that was tried before. */
    lemma NotNearer(first: nat, at: nat, x: nat)
      requires Linking() && top == base + strstart + 1 && Deep() && Headed(first) && prev.Length == 32768
      requires first != 0 && strstart - first <= 32506 && Holding(strstart + lookahead)
      requires 3 <= matchLen <= lookahead && matchStart >= 0
      requires at < 4 && matchStart == Candidate(prev[..], first, at) && InReach(prev[..], first, strstart, at)
      requires Searched(strstart, prev[..], first, at, (if matchLen < 8 then matchLen else 8) - 1)
      requires x > base + matchStart && Considered(src, chained, base + strstart, x)
      ensures !Repeats(src, x, base + strstart, if matchLen < 8 then matchLen else 8)
    {
      hide *;
      var p, n := base + strstart, if matchLen < 8 then matchLen else 8;
      if Repeats(src, x, p, n) {
        RepeatsHash(src, x, p, n);
        var k := CandidateOf(first, x);
        if k >= at {
          LinkingChains();
          HeadOnChain(first);
          Earlier(head[..], prev[..], src, base, chained, p, first, at, k);
          assert false;
        } else {
          RepeatsAgree(Candidate(prev[..], first, k), n);
          SearchedAt(strstart, prev[..], first, at, n, k);
          assert false;
        }
      }
    }

    lemma SearchedAt(scan: nat, p: seq<uint16>, q: nat, i: nat, n: nat, k: nat)
      requires |p| == 32768 && 3 <= n <= 8 && Searched(scan, p, q, i, n - 1) && k < i
      ensures !Agree(scan, Candidate(p, q, k), n)
    {
      hide Candidate, Agree;
      assert NoLonger(scan, Candidate(p, q, k), n - 1);
    }

    /** The chain of the position just hashed starts at first, and it is the latest there is. */
    ghost predicate Headed(first: nat)
      reads this`base, this`strstart, this`chained
    {
      && base + strstart in chained
      && Linked(first, src, base, chained, base + strstart) && Newest(first, src, base, chained, base + strstart)
    }

    /** What is to be looked at is a candidate of the walk along the chain. */
    lemma CandidateOf(first: nat, q: nat) returns (k: nat)
      requires Linking() && top == base + strstart + 1 && Deep() && Headed(first)
      requires Considered(src, chained, base + strstart, q) && SameHash(src, q, base + strstart)
      ensures prev.Length == 32768 && first != 0 && strstart - first <= 32506
      ensures k < 4 && InReach(prev[..], first, strstart, k) && base + Candidate(prev[..], first, k) == q
    {
      hide *;
      LinkingParts();
      LinkingChains();
      DeepParts();
      HeadedParts(first);
      k := ConsideredReached(head[..], prev[..], src, base, chained, base + strstart, first, q);
    }

    lemma DeepParts()
      requires Deep()
      ensures base == 0 || strstart >= 32506
    {
    }

    lemma MakeDeep()
      requires base == 0 || strstart >= 32506
      ensures Deep()
    {
    }

    lemma HeadedParts(first: nat)
      requires Headed(first)
      ensures base + strstart in chained
      ensures Linked(first, src, base, chained, base + strstart) && Newest(first, src, base, chained, base + strstart)
    {
    }

    lemma MakeHeaded(first: nat)
      requires base + strstart in chained
      requires Linked(first, src, base, chained, base + strstart) && Newest(first, src, base, chained, base + strstart)
      ensures Headed(first)
    {
    }

    lemma NothingInReach(first: nat)
      requires Linking() && top == base + strstart + 1 && Deep() && Headed(first)
      requires first == 0 || strstart - first > 32506
      ensures Unbeaten(src, chained, base + strstart, 2)
    {
      hide *;
      var c, p := chained, base + strstart;
      forall q | Considered(src, c, p, q)
        ensures !Repeats(src, q, p, 3)
      {
        if Repeats(src, q, p, 3) {
          RepeatsHash(src, q, p, 3);
          var k := CandidateOf(first, q);
          assert false;
        }
      }
      MakeUnbeaten(src, c, p, 2);
    }

    lemma NothingBetter(first: nat, len: nat)
      requires Linking() && top == base + strstart + 1 && Deep() && Headed(first)
      requires Holding(strstart + lookahead) && 2 <= len < lookahead && len < 8
      requires prev.Length == 32768 && Exhausted(strstart, prev[..], first, len)
      ensures Unbeaten(src, chained, base + strstart, len)
    {
      hide *;
      var c, p := chained, base + strstart;
      forall q | Considered(src, c, p, q)
        ensures !Repeats(src, q, p, len + 1)
      {
        if Repeats(src, q, p, len + 1) {
          RepeatsHash(src, q, p, len + 1);
          var k := CandidateOf(first, q);
          RepeatsAgree(Candidate(prev[..], first, k), len + 1);
          ExhaustedAt(strstart, prev[..], first, len, k);
          assert false;
        }
      }
      MakeUnbeaten(src, c, p, len);
    }

    /** What repeats in the input agrees in the window. */
    lemma RepeatsAgree(m: nat, len: nat)
      requires Holding(strstart + lookahead) && len <= lookahead && Repeats(src, base + m, base + strstart, len)
      ensures Agree(strstart, m, len)
    {
      hide Holding, Shown;
      var n := strstart + lookahead;
      HoldingParts(n);
      HoldingShown(n);
      ShownSlice(window[..], src, base, n, srcPos, m, m + len);
      ShownSlice(window[..], src, base, n, srcPos, strstart, strstart + len);
      assert window[..][m..m + len] == window[m..m + len];
      assert window[..][strstart..strstart + len] == window[strstart..strstart + len];
    }

    lemma ExhaustedAt(scan: nat, p: seq<uint16>, q: nat, len: nat, k: nat)
      requires |p| == 32768 && Exhausted(scan, p, q, len) && k < 4 && InReach(p, q, scan, k)
      requires 2 <= len < 258
      ensures !Agree(scan, Candidate(p, q, k), len + 1)
    {
      hide InReach, Candidate, Agree;
      assert NoLonger(scan, Candidate(p, q, k), len);
    }

    lemma MakeGood()
      requires 3 <= matchLen <= 258 && matchLen <= lookahead
      requires 0 <= matchStart < strstart && strstart - matchStart <= 32506
      requires Repeats(src, base + matchStart, base + strstart, matchLen)
      ensures GoodMatch()
    {
    }

    lemma GoodParts()
      requires GoodMatch()
      ensures 3 <= matchLen <= 258 && matchLen <= lookahead
      ensures 0 <= matchStart < strstart && strstart - matchStart <= 32506
      ensures Repeats(src, base + matchStart, base + strstart, matchLen)
    {
    }

    /** Moves past the match. */
    method PassMatch()
      requires Looked() && GoodMatch()
      modifies this`insH, this`strstart, this`lookahead, this`matchLen, this`chained, this`top, prev, head
      ensures Valid() && matchLen == 0 && strstart == old(strstart) + old(matchLen)
      ensures lookahead == old(lookahead) - old(matchLen)
      ensures chained == old(chained)
        + if old(matchLen) <= 4 && lookahead >= 3 then Inside(base + old(strstart), old(matchLen)) else {}
    {
      hide *;
      LookedParts();
      GoodParts();
      lookahead := lookahead - matchLen;
      InsertMatchInterior();
    }

    /** Moves past one byte sent as it is. */
    method PassLiteral()
      requires Looked() && lookahead >= 1
      modifies this`strstart, this`lookahead
      ensures Valid() && strstart == old(strstart) + 1 && lookahead == old(lookahead) - 1
    {
      hide *;
      LookedParts();
      SoundParts(strstart + lookahead);
      lookahead := lookahead - 1;
      strstart := strstart + 1;
      MakeSound(strstart + lookahead);
      MakeValid();
    }

    /** The next block starts here. */
    method StartBlock()
      requires Sound(strstart + lookahead)
      modifies this`blockStart
      ensures Sound(strstart + lookahead) && blockStart == strstart && (old(Valid()) ==> Valid())
    {
      hide *;
      ghost var valid := Valid();
      if valid { ValidParts(); }
      SoundParts(strstart + lookahead);
      blockStart := strstart;
      MakeSound(strstart + lookahead);
      if valid { MakeValid(); }
    }

    /** A block that is not longer than the search reaches is still in the window. */
    lemma HeldWhenShort()
      requires Deep() && strstart - blockStart <= 32506 && 0 <= base + blockStart
      ensures blockStart >= 0
    {
    }

    lemma CurrentByte()
      requires Looked() && lookahead >= 1
      ensures strstart < window.Length && base + strstart < |src| && window[strstart] == src[base + strstart]
    {
      hide *;
      LookedParts();
      SoundParts(strstart + lookahead);
      HoldingAt(strstart + lookahead, strstart);
    }

    /** The bytes of the current block, when they are still in the window. */
    lemma BlockBytesHeld()
      requires Sound(strstart + lookahead)
      ensures strstart <= 65536 == window.Length - 258 && 0 <= base + blockStart <= base + strstart <= |src|
      ensures blockStart >= 0 ==> window[blockStart..strstart] == src[base + blockStart..base + strstart]
    {
      hide *;
      ghost var n := strstart + lookahead;
      SoundParts(n);
      HoldingParts(n);
      HoldingShown(n);
      if blockStart >= 0 { ShownSlice(window[..], src, base, n, srcPos, blockStart, strstart); }
    }
  }

  lemma FoldNearest(src: seq<byte>, c: set<nat>, p: nat, q: nat, len: nat)
    requires q < p && q in c && Repeats(src, q, p, len) && p + len <= |src|
    requires len == 258 || p + len == |src| || src[q + len] != src[p + len]
    requires forall x :: x > q && Considered(src, c, p, x) ==> !Repeats(src, x, p, if len < 8 then len else 8)
    ensures Nearest(src, c, p, q, len)
  {
    hide Considered, Repeats;
  }

  // -- what the window shows -------------------------------------------------------------------

  /** The first n bytes of the window are the input from base to pos. */
  ghost predicate Shown(w: seq<byte>, src: seq<byte>, base: nat, n: nat, pos: nat)
  {
    && n <= 65536 <= |w| && base + n == pos <= |src|
    && w[..n] == src[base..pos]
  }

  lemma ShownAt(w: seq<byte>, src: seq<byte>, base: nat, n: nat, pos: nat, i: nat)
    requires Shown(w, src, base, n, pos) && i < n
    ensures i < |w| && base + i < |src| && w[i] == src[base + i]
  {
    assert w[..n][i] == src[base..pos][i];
  }

  lemma ShownPrefix(w: seq<byte>, w2: seq<byte>, src: seq<byte>, base: nat, n: nat, pos: nat)
    requires Shown(w, src, base, n, pos) && |w2| == |w| && forall i :: 0 <= i < n ==> w2[i] == w[i]
    ensures Shown(w2, src, base, n, pos)
  {
    assert w2[..n] == w[..n];
  }

  lemma ShownSlide(w: seq<byte>, w2: seq<byte>, src: seq<byte>, base: nat, n: nat, pos: nat)
    requires Shown(w, src, base, n, pos) && n >= 32768 && |w2| == |w|
    requires forall i :: 0 <= i < n - 32768 ==> w2[i] == w[32768 + i]
    ensures Shown(w2, src, base + 32768, n - 32768, pos)
  {
    assert w2[..n - 32768] == w[..n][32768..];
    assert src[base..pos][32768..] == src[base + 32768..pos];
  }

  lemma ShownRead(w: seq<byte>, w2: seq<byte>, src: seq<byte>, base: nat, n: nat, pos: nat, k: nat)
    requires Shown(w, src, base, n, pos) && pos + k <= |src| && n + k <= 65536
    requires w2 == w[..n] + src[pos..pos + k] + w[n + k..]
    ensures Shown(w2, src, base, n + k, pos + k)
  {
    assert w2[..n + k] == w[..n] + src[pos..pos + k];
    assert src[base..pos] + src[pos..pos + k] == src[base..pos + k];
  }

  /** Equal stretches of the window that end inside the data are equal stretches of the input. */
  lemma ShownRepeats(w: seq<byte>, src: seq<byte>, base: nat, n: nat, pos: nat, m: nat, s: nat, best: nat, len: nat)
    requires Shown(w, src, base, n, pos) && m < s && len <= best && s + best <= |w| && s + len <= n
    requires w[m..m + best] == w[s..s + best]
    ensures Repeats(src, base + m, base + s, len)
  {
    assert w[m..m + len] == w[m..m + best][..len];
    assert w[s..s + len] == w[s..s + best][..len];
    SliceOfSlice(src, base, pos, m, len);
    SliceOfSlice(src, base, pos, s, len);
    SliceOfSlice(w, 0, n, m, len);
    SliceOfSlice(w, 0, n, s, len);
  }

  lemma ShownSlice(w: seq<byte>, src: seq<byte>, base: nat, n: nat, pos: nat, i: nat, j: nat)
    requires Shown(w, src, base, n, pos) && i <= j <= n
    ensures w[i..j] == src[base + i..base + j]
  {
    SliceOfSlice(src, base, pos, i, j - i);
    SliceOfSlice(w, 0, n, i, j - i);
  }

  // -- the rolling hash at a place of the input ----------------------------------------------------

  ghost predicate PrimedAt(h: nat, src: seq<byte>, a: nat)
  {
    a + 1 < |src| && Primed(h, src[a], src[a + 1])
  }

  lemma HashedAt(src: seq<byte>, a: nat, h: nat)
    requires a + 2 < |src| && PrimedAt(h, src, a)
    ensures UpdateHash(h, src[a + 2]) == HashAt(src, a) && PrimedAt(HashAt(src, a), src, a + 1)
  {
    hide UpdateHash;
    PrimedUpdate(h, src[a], src[a + 1], src[a + 2]);
  }
}
