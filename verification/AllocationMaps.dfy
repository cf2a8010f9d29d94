/** The two allocation bitmaps of a database file: one bit for every page, two for every extent. */
module AllocationMaps {
  import opened Arith
  import opened Bits

  const EXTENT_FREE: bv8 := 0
  const EXTENT_PARTIAL: bv8 := 1
  const EXTENT_FULL: bv8 := 3

  /** The page free space map says the page is allocated; it says nothing of pages beyond its end. */
  function PfsAllocated(pfs: seq<bv8>, no: int): bool
  {
    0 <= no && no / 8 < |pfs| && pfs[no / 8] & BitMask(no % 8) != 0
  }

  function PfsSet(pfs: seq<bv8>, no: nat): (r: seq<bv8>)
    requires no / 8 < |pfs|
    ensures |r| == |pfs| && forall j: int :: PfsAllocated(r, j) <==> j == no || PfsAllocated(pfs, j)
  {
    var r := pfs[no / 8 := pfs[no / 8] | BitMask(no % 8)];
    SetReads(pfs, no, r);
    r
  }

  function PfsClear(pfs: seq<bv8>, no: nat): (r: seq<bv8>)
    requires no / 8 < |pfs|
    ensures |r| == |pfs| && forall j: int :: PfsAllocated(r, j) <==> j != no && PfsAllocated(pfs, j)
  {
    var r := pfs[no / 8 := pfs[no / 8] & !BitMask(no % 8)];
    ClearReads(pfs, no, r);
    r
  }

  lemma MaskBits(b: bv8, k: nat, j: nat)
    requires k < 8 && j < 8
    ensures (b | BitMask(k)) & BitMask(j) != 0 <==> j == k || b & BitMask(j) != 0
    ensures (b & !BitMask(k)) & BitMask(j) != 0 <==> j != k && b & BitMask(j) != 0
  {
  }

  lemma SamePage(no: nat, j: int)
    requires j >= 0 && no / 8 == j / 8 && no % 8 == j % 8
    ensures no == j
  {
  }

  lemma SetReads(pfs: seq<bv8>, no: nat, r: seq<bv8>)
    requires no / 8 < |pfs| && r == pfs[no / 8 := pfs[no / 8] | BitMask(no % 8)]
    ensures forall j: int :: PfsAllocated(r, j) <==> j == no || PfsAllocated(pfs, j)
  {
    hide BitMask;
    forall j: int
      ensures PfsAllocated(r, j) <==> j == no || PfsAllocated(pfs, j)
    {
      if 0 <= j && j / 8 == no / 8 {
        MaskBits(pfs[no / 8], no % 8, j % 8);
        if no % 8 == j % 8 { SamePage(no, j); }
      }
    }
  }

  lemma ClearReads(pfs: seq<bv8>, no: nat, r: seq<bv8>)
    requires no / 8 < |pfs| && r == pfs[no / 8 := pfs[no / 8] & !BitMask(no % 8)]
    ensures forall j: int :: PfsAllocated(r, j) <==> j != no && PfsAllocated(pfs, j)
  {
    hide BitMask;
    forall j: int
      ensures PfsAllocated(r, j) <==> j != no && PfsAllocated(pfs, j)
    {
      if 0 <= j && j / 8 == no / 8 {
        MaskBits(pfs[no / 8], no % 8, j % 8);
        if no % 8 == j % 8 { SamePage(no, j); }
      }
    }
  }

  // -- extents -----------------------------------------------------------------------------------

  /** The k-th two-bit entry of a byte. */
  function Entry(b: bv8, k: nat): bv8
    requires k < 4
  {
    if k == 0 then b & 3 else if k == 1 then (b >> 2) & 3 else if k == 2 then (b >> 4) & 3 else (b >> 6) & 3
  }

  function WithEntry(b: bv8, k: nat, state: bv8): bv8
    requires k < 4
  {
    if k == 0 then (b & !3) | state
    else if k == 1 then (b & !(3 << 2)) | (state << 2)
    else if k == 2 then (b & !(3 << 4)) | (state << 4)
    else (b & !(3 << 6)) | (state << 6)
  }

  lemma EntryReads(b: bv8, k: nat, state: bv8, j: nat)
    requires k < 4 && j < 4 && state <= 3
    ensures Entry(WithEntry(b, k, state), j) == if j == k then state else Entry(b, j)
  {
  }

  /** The state the extent allocation map gives an extent; extents beyond its end are free. */
  function ExtentState(eam: seq<bv8>, extent: int): bv8
  {
    if extent < 0 || extent / 4 >= |eam| then EXTENT_FREE else Entry(eam[extent / 4], extent % 4)
  }

  function SetExtentState(eam: seq<bv8>, extent: nat, state: bv8): (r: seq<bv8>)
    requires state <= 3
    ensures |r| == |eam|
    ensures extent / 4 < |eam| ==>
      forall j: int :: ExtentState(r, j) == if j == extent then state else ExtentState(eam, j)
    ensures extent / 4 >= |eam| ==> r == eam
  {
    if extent / 4 >= |eam| then eam
    else
      var r := eam[extent / 4 := WithEntry(eam[extent / 4], extent % 4, state)];
      EntrySetReads(eam, extent, state, r);
      r
  }

  lemma EntrySetReads(eam: seq<bv8>, extent: nat, state: bv8, r: seq<bv8>)
    requires state <= 3 && extent / 4 < |eam|
    requires r == eam[extent / 4 := WithEntry(eam[extent / 4], extent % 4, state)]
    ensures forall j: int :: ExtentState(r, j) == if j == extent then state else ExtentState(eam, j)
  {
    hide Entry, WithEntry;
    forall j: int
      ensures ExtentState(r, j) == if j == extent then state else ExtentState(eam, j)
    {
      if 0 <= j && j / 4 == extent / 4 { EntryReads(eam[extent / 4], extent % 4, state, j % 4); }
    }
  }

  // -- what the maps say together ---------------------------------------------------------------------

  /** Every page of the extent is allocated. */
  ghost predicate ExtentAll(pfs: seq<bv8>, per: nat, extent: nat)
    requires per > 0
  {
    forall no: nat :: no / per == extent ==> PfsAllocated(pfs, no)
  }

  /** No page of the extent is allocated. */
  ghost predicate ExtentNone(pfs: seq<bv8>, per: nat, extent: nat)
    requires per > 0
  {
    forall no: nat :: no / per == extent ==> !PfsAllocated(pfs, no)
  }

  /** The entry is full exactly when all pages of the extent exist and are allocated, and free only
      when none is. An extent emptied page by page stays marked partial. */
  ghost predicate EntryOk(pfs: seq<bv8>, per: nat, extent: nat, state: bv8)
    requires per > 0
  {
    && (state == EXTENT_FREE || state == EXTENT_PARTIAL || state == EXTENT_FULL)
    && (state == EXTENT_FULL <==> ExtentAll(pfs, per, extent))
    && (state == EXTENT_FREE ==> ExtentNone(pfs, per, extent))
  }

  /** The state computed from the page map alone: exact in all three cases. */
  ghost predicate ExactState(pfs: seq<bv8>, per: nat, extent: nat, state: bv8)
    requires per > 0
  {
    && EntryOk(pfs, per, extent, state)
    && (state == EXTENT_FREE <==> ExtentNone(pfs, per, extent))
  }

  ghost predicate ExtentsOk(pfs: seq<bv8>, eam: seq<bv8>, per: nat)
    requires per > 0
  {
    forall e: nat :: EntryOk(pfs, per, e, ExtentState(eam, e))
  }

  /** No page at or past count is marked allocated. */
  ghost predicate NonePast(pfs: seq<bv8>, count: nat)
  {
    forall no: int :: no >= count ==> !PfsAllocated(pfs, no)
  }

  /** last is the highest allocated page, or -1 when there is none. */
  ghost predicate Highest(pfs: seq<bv8>, last: int)
  {
    && last >= -1 && (last >= 0 ==> PfsAllocated(pfs, last))
    && forall no: int :: no > last ==> !PfsAllocated(pfs, no)
  }

  /** The most pages both maps can describe. */
  function MappablePages(payload: nat, per: nat): nat
  {
    var pfsCapacity, eamCapacity := payload * 8, payload * 8 / 2 * per;
    if pfsCapacity <= eamCapacity then pfsCapacity else eamCapacity
  }

  /** Exactly the pages below it have a bit in the one map and their extent an entry in the other. */
  lemma MapsReach(payload: nat, per: nat, no: nat)
    requires per > 0
    ensures no < MappablePages(payload, per) <==> no / 8 < payload && no / per / 4 < payload
  {
    assert payload * 8 / 2 == 4 * payload;
    if no < 4 * payload * per { DivFits(no, per, 4 * payload); }
    if no / per < 4 * payload { DivReaches(no, per, 4 * payload); }
  }

  lemma DivReaches(no: nat, per: nat, bound: nat)
    requires per > 0 && no / per < bound
    ensures no < bound * per
  {
    var q, r := no / per, no % per;
    assert no == q * per + r;
    MulDist(q, 1, per);
    if q + 1 < bound { MulLess(q + 1, bound, per); }
  }

  // -- the n lowest free pages -----------------------------------------------------------------------

  ghost predicate Ascending(s: seq<nat>)
  {
    forall i, j :: 0 <= i < j < |s| ==> s[i] < s[j]
  }

  /** The lowest free pages below limit, n of them or as many as there are. */
  ghost predicate LowestFree(pfs: seq<bv8>, limit: nat, n: nat, s: seq<nat>)
  {
    && |s| <= n && Ascending(s)
    && (forall i :: 0 <= i < |s| ==> s[i] < limit && !PfsAllocated(pfs, s[i]))
    && (forall no: nat :: no < limit && !PfsAllocated(pfs, no) ==>
      no in s || (|s| == n && forall i :: 0 <= i < n ==> s[i] < no))
  }

  /** How many pages below limit are free. */
  function FreeBelow(pfs: seq<bv8>, limit: nat): nat
  {
    if limit == 0 then 0 else FreeBelow(pfs, limit - 1) + if PfsAllocated(pfs, limit - 1) then 0 else 1
  }

  /** The lowest free pages are as many as were asked for, or as there are. */
  lemma {:induction false} LowestCounted(pfs: seq<bv8>, limit: nat, n: nat, s: seq<nat>)
    requires LowestFree(pfs, limit, n, s)
    ensures |s| == if FreeBelow(pfs, limit) < n then FreeBelow(pfs, limit) else n
  {
    hide PfsAllocated;
    assert s != [] ==> s[0] < limit;
    if limit > 0 {
      if s != [] && s[|s| - 1] == limit - 1 {
        WithoutLast(pfs, limit, n, s);
        LowestCounted(pfs, limit - 1, n, s[..|s| - 1]);
      } else {
        LastNotIn(pfs, limit, n, s);
        LowestCounted(pfs, limit - 1, n, s);
      }
    }
  }

  lemma LastNotIn(pfs: seq<bv8>, limit: nat, n: nat, s: seq<nat>)
    requires limit > 0 && LowestFree(pfs, limit, n, s) && (s == [] || s[|s| - 1] != limit - 1)
    ensures LowestFree(pfs, limit - 1, n, s) && (!PfsAllocated(pfs, limit - 1) ==> |s| == n)
  {
    hide PfsAllocated;
    forall i | 0 <= i < |s|
      ensures s[i] < limit - 1
    {
      assert s[i] <= s[|s| - 1];
    }
  }

  lemma WithoutLast(pfs: seq<bv8>, limit: nat, n: nat, s: seq<nat>)
    requires limit > 0 && LowestFree(pfs, limit, n, s) && s != [] && s[|s| - 1] == limit - 1
    ensures LowestFree(pfs, limit - 1, n, s[..|s| - 1])
  {
    hide PfsAllocated;
    var t := s[..|s| - 1];
    forall no: nat | no < limit - 1 && !PfsAllocated(pfs, no)
      ensures no in t
    {
      var i :| 0 <= i < |s| && s[i] == no;
      assert t[i] == no;
    }
  }

  /** Every page past the last in use is free. */
  lemma {:induction false} FreePast(pfs: seq<bv8>, count: nat, more: nat)
    requires NonePast(pfs, count)
    ensures FreeBelow(pfs, count + more) == FreeBelow(pfs, count) + more
  {
    hide PfsAllocated;
    if more > 0 { FreePast(pfs, count, more - 1); }
  }

  /** There is only one such choice. */
  lemma LowestFreeUnique(pfs: seq<bv8>, limit: nat, n: nat, s: seq<nat>, t: seq<nat>)
    requires LowestFree(pfs, limit, n, s) && LowestFree(pfs, limit, n, t)
    ensures s == t
  {
    if |s| <= |t| { OneChoice(pfs, limit, n, s, t); } else { OneChoice(pfs, limit, n, t, s); }
  }

  lemma OneChoice(pfs: seq<bv8>, limit: nat, n: nat, s: seq<nat>, t: seq<nat>)
    requires LowestFree(pfs, limit, n, s) && LowestFree(pfs, limit, n, t) && |s| <= |t|
    ensures s == t
  {
    SamePrefix(pfs, limit, n, s, t, |s|);
    assert s == t[..|s|];
    forall i | 0 <= i < |s|
      ensures s[i] == t[i]
    {
      assert t[..|s|][i] == t[i];
    }
    if |s| < |t| { LongerDiffers(pfs, limit, n, s, t); }
  }

  lemma LongerDiffers(pfs: seq<bv8>, limit: nat, n: nat, s: seq<nat>, t: seq<nat>)
    requires LowestFree(pfs, limit, n, s) && LowestFree(pfs, limit, n, t) && |s| < |t|
    ensures exists i :: 0 <= i < |s| && s[i] != t[i]
  {
    var x := t[|s|];
    assert x < limit && !PfsAllocated(pfs, x);
    var i :| 0 <= i < |s| && s[i] == x;
    assert t[i] < x;
  }

  lemma {:induction false} SamePrefix(pfs: seq<bv8>, limit: nat, n: nat, s: seq<nat>, t: seq<nat>, k: nat)
    requires LowestFree(pfs, limit, n, s) && LowestFree(pfs, limit, n, t) && k <= |s| <= |t|
    ensures s[..k] == t[..k]
  {
    if k > 0 {
      SamePrefix(pfs, limit, n, s, t, k - 1);
      NotSkipped(pfs, limit, n, s, t, k - 1);
      NotSkipped(pfs, limit, n, t, s, k - 1);
    }
  }

  lemma NotSkipped(pfs: seq<bv8>, limit: nat, n: nat, s: seq<nat>, t: seq<nat>, k: nat)
    requires LowestFree(pfs, limit, n, s) && LowestFree(pfs, limit, n, t) && k < |s| && k < |t| && s[..k] == t[..k]
    ensures t[k] <= s[k]
  {
    forall i | 0 <= i < k
      ensures s[i] == t[i]
    {
      assert s[..k][i] == t[..k][i];
    }
  }
}
