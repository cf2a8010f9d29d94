/** The page allocator: two maps, the page count and the last page in use, over any run of
    allocations, releases, growths and shrinkings. */
module PageAllocation {
  import opened Arith
  import opened Bits
  import opened AllocationMaps

  datatype AllocResult = Pages(pages: seq<nat>) | BadCount | TooLarge | OutOfSpace
  datatype ReleaseResult = Released(last: int) | AlreadyFree(no: nat)
  datatype GrowResult = Grown | BadShortfall | PastMaps

  /** The maps agree with each other, with the page count and with the last page in use. */
  ghost predicate Consistent(pfs: seq<bv8>, eam: seq<bv8>, per: nat, pageCount: nat, lastUsed: int)
  {
    && per > 0 && |eam| == |pfs| && pageCount <= MappablePages(|pfs|, per)
    && NonePast(pfs, pageCount) && ExtentsOk(pfs, eam, per) && Highest(pfs, lastUsed)
  }

  /** The page count once there are `missing` pages too few: whole extents are added. */
  function GrownCount(count: nat, missing: nat, per: nat): nat
    requires per > 0
  {
    count + (missing + per - 1) / per * per
  }

  lemma GrowsEnough(count: nat, missing: nat, per: nat)
    requires per > 0
    ensures GrownCount(count, missing, per) >= count + missing
  {
    var q, r := (missing + per - 1) / per, (missing + per - 1) % per;
    assert missing + per - 1 == per * q + r;
  }

  /** The page count with so many extents more. */
  function Extended(count: nat, extents: nat, per: nat): nat
  {
    count + extents * per
  }

  /** Growth adds whole extents, and no fewer would do. */
  lemma GrowsLeast(count: nat, missing: nat, per: nat) returns (extents: nat)
    requires per > 0
    ensures GrownCount(count, missing, per) == Extended(count, extents, per) >= count + missing
    ensures extents > 0 ==> Extended(count, extents - 1, per) < count + missing
    ensures forall k: nat :: Extended(count, k, per) >= count + missing ==>
      GrownCount(count, missing, per) <= Extended(count, k, per)
  {
    GrowsEnough(count, missing, per);
    extents := (missing + per - 1) / per;
    var r := (missing + per - 1) % per;
    assert missing + per - 1 == per * extents + r;
    assert extents * per == (extents - 1) * per + per;
    forall k: nat | Extended(count, k, per) >= count + missing
      ensures extents * per <= k * per
    {
      if k < extents { NotMore(k, extents - 1, per); }
      if extents < k { NotMore(extents, k, per); }
    }
  }

  lemma NotMore(a: nat, b: nat, per: nat)
    requires a <= b
    ensures a * per <= b * per
  {
    if a < b && per > 0 { MulLess(a, b, per); }
  }

  /** The count is the first, extent by extent, below which n pages are free. */
  ghost predicate Fewest(pfs: seq<bv8>, from: nat, to: nat, per: nat, n: int)
  {
    && (exists extents: nat :: to == Extended(from, extents, per)) && FreeBelow(pfs, to) >= n
    && forall k: nat :: Extended(from, k, per) < to ==> FreeBelow(pfs, Extended(from, k, per)) < n
  }

  /** No count the file can be grown to within the limit has n free pages below it. */
  ghost predicate NeverEnough(pfs: seq<bv8>, from: nat, limit: nat, per: nat, n: int)
  {
    forall k: nat :: Extended(from, k, per) <= limit ==> FreeBelow(pfs, Extended(from, k, per)) < n
  }

  lemma FreeAfter(pfs: seq<bv8>, from: nat, k: nat, per: nat)
    requires NonePast(pfs, from)
    ensures FreeBelow(pfs, Extended(from, k, per)) == FreeBelow(pfs, from) + k * per
  {
    hide FreeBelow, NonePast;
    FreePast(pfs, from, k * per);
  }

  /** Growing by what is missing is growing to the first count with enough free pages. */
  lemma GrownIsFewest(pfs: seq<bv8>, from: nat, n: nat, found: seq<nat>, per: nat, limit: nat)
    requires per > 0 && n > 0 && NonePast(pfs, from) && LowestFree(pfs, from, n, found) && from <= limit
    ensures var to := if |found| < n then GrownCount(from, n - |found|, per) else from;
      Fewest(pfs, from, to, per, n) && (to > limit <==> NeverEnough(pfs, from, limit, per, n))
  {
    hide FreeBelow, NonePast, LowestFree, GrownCount;
    LowestCounted(pfs, from, n, found);
    if |found| < n {
      var extents := GrowsLeast(from, n - |found|, per);
      FewestExtents(pfs, from, n, n - |found|, per, extents, limit);
    } else {
      assert Extended(from, 0, per) == from;
      forall k: nat
        ensures Extended(from, k, per) >= from
      {
        NotMore(0, k, per);
      }
    }
  }

  lemma FewestExtents(pfs: seq<bv8>, from: nat, n: nat, missing: nat, per: nat, extents: nat, limit: nat)
    requires per > 0 && NonePast(pfs, from) && FreeBelow(pfs, from) + missing == n
    requires extents * per >= missing
    requires forall k: nat :: Extended(from, k, per) >= from + missing ==>
      Extended(from, extents, per) <= Extended(from, k, per)
    ensures Fewest(pfs, from, Extended(from, extents, per), per, n)
    ensures Extended(from, extents, per) > limit <==> NeverEnough(pfs, from, limit, per, n)
  {
    hide FreeBelow, NonePast;
    FreeAfter(pfs, from, extents, per);
    forall k: nat
      ensures FreeBelow(pfs, Extended(from, k, per)) == FreeBelow(pfs, from) + (Extended(from, k, per) - from)
    {
      FreeAfter(pfs, from, k, per);
    }
  }

  lemma ExtentPages(per: nat, extent: nat, no: nat)
    requires per > 0
    ensures no / per == extent <==> extent * per <= no < extent * per + per
  {
    var q, r := no / per, no % per;
    assert no == q * per + r;
    if extent < q { MulLess(extent, q, per); }
    if q < extent { MulLess(q, extent, per); }
  }

  /** The i-th page of an extent. */
  function PageOf(per: nat, extent: nat, i: nat): nat
  {
    extent * per + i
  }

  /** The extents the pages lie in. */
  function Touched(pages: seq<nat>, per: nat): set<nat>
    requires per > 0
  {
    set i | 0 <= i < |pages| :: pages[i] / per
  }

  lemma TouchedMore(pages: seq<nat>, per: nat, i: nat)
    requires per > 0 && i < |pages|
    ensures Touched(pages[..i + 1], per) == Touched(pages[..i], per) + {pages[i] / per}
  {
    var a, b := pages[..i + 1], pages[..i];
    forall e
      ensures e in Touched(a, per) <==> e in Touched(b, per) + {pages[i] / per}
    {
      if e in Touched(b, per) {
        var j :| 0 <= j < |b| && b[j] / per == e;
        assert a[j] / per == e;
      }
      if e == pages[i] / per { assert a[i] / per == e; }
      if e in Touched(a, per) {
        var j :| 0 <= j < |a| && a[j] / per == e;
        if j < i { assert b[j] / per == e; }
      }
    }
  }

  /** What the allocator holds: the two maps as buffered, the page count, the last page in use, which of the maps the
      next write takes, and the maps as the file has them. */
  datatype Maps = Maps(pfs: seq<bv8>, eam: seq<bv8>, per: nat, pageCount: nat, lastUsed: int,
                       pfsDirty: bool, eamDirty: bool, diskPfs: seq<bv8>, diskEam: seq<bv8>)
  {
    ghost predicate Valid()
    {
      Consistent(pfs, eam, per, pageCount, lastUsed)
    }

    /** A write now would bring the file up to date. */
    ghost predicate Synced()
    {
      && |diskPfs| == |pfs| && |diskEam| == |eam|
      && (!pfsDirty ==> diskPfs == pfs)
      && (!eamDirty ==> diskEam == eam)
    }

    /** A release now would leave nothing unwritten: what it does not mark dirty is on file already. */
    ghost predicate NothingLost(pages: seq<nat>)
    {
      && per > 0 && (pages != [] || diskPfs == pfs)
      && (SomeFull(eam, Touched(pages, per)) || diskEam == eam)
    }
  }

  class PageMaps {
    const pfs: array<bv8>
    const eam: array<bv8>
    const per: nat
    var pageCount: nat
    var lastUsed: int
    // what the edit in progress will do to the two pages when it is flushed
    var pfsBump: nat
    var pfsDirty: bool
    var eamBump: nat
    var eamDirty: bool
    // the two pages as the file holds them
    var diskPfs: seq<bv8>
    var diskEam: seq<bv8>

    ghost predicate Valid()
      reads this, pfs, eam
    {
      pfs != eam && Consistent(pfs[..], eam[..], per, pageCount, lastUsed)
    }

    /** The state of the allocator as a value. */
    ghost function Snapshot(): Maps
      reads this, pfs, eam
    {
      Maps(pfs[..], eam[..], per, pageCount, lastUsed, pfsDirty, eamDirty, diskPfs, diskEam)
    }

    ghost predicate Synced()
      reads this, pfs, eam
    {
      Snapshot().Synced()
    }

    ghost predicate NothingLost(pages: seq<nat>)
      reads this, pfs, eam
    {
      Snapshot().NothingLost(pages)
    }

    /** The state of an extent, from the page map alone. */
    method ComputeExtentState(extent: nat) returns (state: bv8)
      requires per > 0 && NonePast(pfs[..], pageCount)
      ensures ExactState(pfs[..], per, extent, state)
    {
      var used, k := 0, 0;
      while k < per
        invariant 0 <= used <= k <= per
        invariant used == k <==> forall i: nat :: i < k ==> PfsAllocated(pfs[..], PageOf(per, extent, i))
        invariant used == 0 <==> forall i: nat :: i < k ==> !PfsAllocated(pfs[..], PageOf(per, extent, i))
      {
        var no := PageOf(per, extent, k);
        if no < pageCount && PfsAllocated(pfs[..], no) {
          used := used + 1;
        }
        k := k + 1;
      }
      state := if used == 0 then EXTENT_FREE else if used == per then EXTENT_FULL else EXTENT_PARTIAL;
      StateCounted(pfs[..], per, extent, used, state);
    }

    /** The n lowest free pages the maps can describe, or as many as there are. */
    method FindFreePages(n: nat) returns (free: seq<nat>)
      ensures LowestFree(pfs[..], if pageCount <= pfs.Length * 8 then pageCount else pfs.Length * 8, n, free)
    {
      free := [];
      var limit := if pageCount <= pfs.Length * 8 then pageCount else pfs.Length * 8;
      var no := 0;
      while no < limit && |free| < n
        invariant no <= limit && LowestFree(pfs[..], no, n, free)
        invariant forall i :: 0 <= i < |free| ==> free[i] < no
      {
        if !PfsAllocated(pfs[..], no) {
          free := free + [no];
        }
        no := no + 1;
      }
    }

    /** Sets the pages' bits, and counts them towards the map page's state. */
    method MarkPagesAllocated(pages: seq<nat>)
      requires forall i :: 0 <= i < |pages| ==> pages[i] / 8 < pfs.Length
      modifies pfs, this`pfsBump, this`pfsDirty
      ensures BitsAdded(old(pfs[..]), pfs[..], pages)
      ensures pfsDirty && pfsBump == (if old(pfsDirty) then old(pfsBump) else 0) + |pages|
    {
      var k := 0;
      while k < |pages|
        modifies pfs
        invariant k <= |pages|
        invariant forall j: int :: PfsAllocated(pfs[..], j) <==> j in pages[..k] || PfsAllocated(old(pfs[..]), j)
      {
        ghost var before := pfs[..];
        var no := pages[k];
        pfs[no / 8] := pfs[no / 8] | BitMask(no % 8);
        assert pfs[..] == PfsSet(before, no);
        k := k + 1;
      }
      if !pfsDirty { pfsBump := 0; }
      pfsBump := pfsBump + |pages|;
      pfsDirty := true;
    }

    /** Recomputes the entry of every extent the pages lie in. */
    method UpdateExtentMap(pages: seq<nat>) returns (ghost changed: set<nat>)
      requires per > 0 && pfs != eam && NonePast(pfs[..], pageCount)
      requires forall i :: 0 <= i < |pages| ==> pages[i] / per / 4 < eam.Length
      modifies eam, this`eamBump, this`eamDirty
      ensures Recomputed(pfs[..], old(eam[..]), eam[..], per, Touched(pages, per))
      ensures Differing(old(eam[..]), eam[..], changed)
      ensures eamBump == (if old(eamDirty) then old(eamBump) else 0) + |changed|
      ensures eamDirty == (old(eamDirty) || changed != {})
    {
      hide *;
      if !eamDirty { eamBump := 0; }
      var count, seen, k := 0, {}, 0;
      changed := {};
      ghost var p, e0 := pfs[..], eam[..];
      RecomputeNone(p, e0, pages, per);
      while k < |pages|
        modifies eam
        invariant k <= |pages| && seen == Touched(pages[..k], per) && count == |changed|
        invariant Recomputed(p, e0, eam[..], per, seen) && Differing(e0, eam[..], changed)
      {
        TouchedMore(pages, per, k);
        var extent := pages[k] / per;
        if extent !in seen {
          var state := ComputeExtentState(extent);
          RecomputeMore(p, e0, eam[..], per, seen, changed, extent, state);
          seen := seen + {extent};
          if ExtentState(eam[..], extent) != state {
            SetExtentEntry(extent, state);
            changed := changed + {extent};
            count := count + 1;
          }
        } else {
          assert seen + {extent} == seen;
        }
        k := k + 1;
      }
      assert pages[..k] == pages;
      eamBump := eamBump + count;
      if count > 0 { eamDirty := true; }
    }

    method SetExtentEntry(extent: nat, state: bv8)
      requires state <= 3 && extent / 4 < eam.Length
      modifies eam
      ensures eam[..] == SetExtentState(old(eam[..]), extent, state)
    {
      hide Entry, WithEntry;
      eam[extent / 4] := WithEntry(eam[extent / 4], extent % 4, state);
    }

    /** Lengthens the file by whole extents, unless the maps could not describe it. */
    method ExtendFile(shortfall: int) returns (r: GrowResult)
      requires Valid()
      modifies this`pageCount
      ensures Valid()
      ensures r == if shortfall <= 0 then BadShortfall
        else if GrownCount(old(pageCount), shortfall, per) > MappablePages(pfs.Length, per) then PastMaps
        else Grown
      ensures pageCount == if r == Grown then GrownCount(old(pageCount), shortfall, per) else old(pageCount)
      ensures r == Grown ==> exists extents: nat ::
        && extents > 0 && pageCount == Extended(old(pageCount), extents, per)
        && Extended(old(pageCount), extents - 1, per) < old(pageCount) + shortfall <= pageCount
      ensures r == PastMaps ==> forall extents: nat ::
        Extended(old(pageCount), extents, per) >= old(pageCount) + shortfall ==>
        Extended(old(pageCount), extents, per) > MappablePages(pfs.Length, per)
    {
      hide PfsAllocated, ExtentState, EntryOk, MappablePages;
      if shortfall <= 0 { return BadShortfall; }
      GrowsEnough(pageCount, shortfall, per);
      ghost var least := GrowsLeast(pageCount, shortfall, per);
      var extents := (shortfall + per - 1) / per;
      var total := pageCount + extents * per;
      if total > MappablePages(pfs.Length, per) { return PastMaps; }
      pageCount := total;
      return Grown;
    }

    /** Allocates the n lowest free pages, growing the file by as few whole extents as it takes.
        There is always space then. */
    method AllocatePages(n: int) returns (r: AllocResult, ghost found: seq<nat>, ghost changed: set<nat>)
      requires Valid()
      modifies this`pageCount, this`lastUsed, this`pfsBump, this`pfsDirty, this`eamBump, this`eamDirty, pfs, eam
      ensures r.BadCount? <==> n <= 0
      ensures r != OutOfSpace && Valid()
      ensures n > 0 ==> LowestFree(old(pfs[..]), old(pageCount), n, found)
      ensures r.TooLarge? <==>
        n > 0 && |found| < n && GrownCount(old(pageCount), n - |found|, per) > MappablePages(pfs.Length, per)
      ensures pageCount == if r.Pages? && |found| < n then GrownCount(old(pageCount), n - |found|, per)
        else old(pageCount)
      ensures r.Pages? ==> Fewest(old(pfs[..]), old(pageCount), pageCount, per, n)
      ensures r.TooLarge? <==>
        n > 0 && NeverEnough(old(pfs[..]), old(pageCount), MappablePages(pfs.Length, per), per, n)
      ensures !r.Pages? ==> pfs[..] == old(pfs[..]) && eam[..] == old(eam[..]) && lastUsed == old(lastUsed)
      ensures !r.Pages? ==> pfsDirty == old(pfsDirty) && eamDirty == old(eamDirty)
      ensures !r.Pages? ==> pfsBump == old(pfsBump) && eamBump == old(eamBump)
      ensures r.Pages? ==> |r.pages| == n && LowestFree(old(pfs[..]), pageCount, n, r.pages)
      ensures r.Pages? ==> BitsAdded(old(pfs[..]), pfs[..], r.pages)
      ensures r.Pages? ==> Recomputed(pfs[..], old(eam[..]), eam[..], per, Touched(r.pages, per))
      ensures r.Pages? ==> Differing(old(eam[..]), eam[..], changed)
      ensures r.Pages? ==> pfsDirty && pfsBump == (if old(pfsDirty) then old(pfsBump) else 0) + n
      ensures r.Pages? ==> eamDirty == (old(eamDirty) || changed != {})
      ensures r.Pages? ==> eamBump == (if old(eamDirty) then old(eamBump) else 0) + |changed|
      ensures old(Synced()) ==> Synced()
    {
      hide *;
      if n <= 0 { return BadCount, [], {}; }
      ValidParts();
      ghost var p0 := pfs[..];
      SyncedParts();
      var pages := FindFreePages(n);
      found := pages;
      GrownIsFewest(p0, pageCount, n, found, per, MappablePages(pfs.Length, per));
      if |pages| < n {
        var g := ExtendFile(n - |pages|);
        ValidParts();
        if g != Grown { return TooLarge, found, {}; }
        pages := FindFreePages(n);
        GrowsEnough(old(pageCount), n - |found|, per);
        EnoughFree(p0, old(pageCount), pageCount, n, found, pages);
        SyncedParts();
      }
      changed := TakePages(n, pages);
      r := Pages(pages);
    }

    /** Marks the pages chosen in both maps. */
    method TakePages(n: nat, pages: seq<nat>) returns (ghost changed: set<nat>)
      requires Valid() && LowestFree(pfs[..], pageCount, n, pages) && pages != []
      modifies this`lastUsed, this`pfsBump, this`pfsDirty, this`eamBump, this`eamDirty, pfs, eam
      ensures Valid() && BitsAdded(old(pfs[..]), pfs[..], pages)
      ensures Recomputed(pfs[..], old(eam[..]), eam[..], per, Touched(pages, per))
      ensures Differing(old(eam[..]), eam[..], changed)
      ensures pfsDirty && pfsBump == (if old(pfsDirty) then old(pfsBump) else 0) + |pages|
      ensures eamDirty == (old(eamDirty) || changed != {})
      ensures eamBump == (if old(eamDirty) then old(eamBump) else 0) + |changed|
      ensures old(Synced()) ==> Synced()
    {
      hide *;
      ValidParts();
      ghost var p0, e0 := pfs[..], eam[..];
      SyncedParts();
      PagesMappable(p0, pageCount, per, n, pages);
      MarkPagesAllocated(pages);
      AllocationFits(p0, pfs[..], pageCount, lastUsed, n, pages);
      changed := UpdateExtentMap(pages);
      lastUsed := if pages[|pages| - 1] > lastUsed then pages[|pages| - 1] else lastUsed;
      ExtentsAfterAllocation(p0, pfs[..], e0, eam[..], per, pages);
      if changed == {} { NothingChanged(e0, eam[..], changed); }
      MakeValid();
      SyncedParts();
    }

    method InStep() returns (b: bool)
      ensures b <==> Synced()
    {
      b := |diskPfs| == pfs.Length && |diskEam| == eam.Length
        && (pfsDirty || diskPfs == pfs[..]) && (eamDirty || diskEam == eam[..]);
    }

    lemma SyncedParts()
      ensures Synced() <==>
        && |diskPfs| == pfs.Length && |diskEam| == eam.Length
        && (!pfsDirty ==> diskPfs == pfs[..]) && (!eamDirty ==> diskEam == eam[..])
    {
    }

    lemma ValidParts()
      requires Valid()
      ensures pfs != eam && per > 0 && eam.Length == pfs.Length
      ensures pageCount <= MappablePages(pfs.Length, per) && pageCount <= pfs.Length * 8
      ensures NonePast(pfs[..], pageCount) && ExtentsOk(pfs[..], eam[..], per) && Highest(pfs[..], lastUsed)
    {
    }

    lemma MakeValid()
      requires pfs != eam && per > 0 && eam.Length == pfs.Length && pageCount <= MappablePages(pfs.Length, per)
      requires NonePast(pfs[..], pageCount) && ExtentsOk(pfs[..], eam[..], per) && Highest(pfs[..], lastUsed)
      ensures Valid()
    {
    }

    /** Clears the pages' bits. Stops at the first page that is free, by then or from the start. */
    method ClearPages(pages: seq<nat>) returns (ok: bool, bad: nat)
      modifies pfs
      ensures ok <==> Releasable(old(pfs[..]), pages)
      ensures ok ==> BitsRemoved(old(pfs[..]), pfs[..], pages)
      ensures !ok ==> bad in pages && !PfsAllocated(pfs[..], bad)
    {
      hide *;
      ok, bad := true, 0;
      var k := 0;
      ghost var p0 := pfs[..];
      NoneCleared(p0, pages);
      while k < |pages|
        invariant k <= |pages| && Releasable(p0, pages[..k]) && BitsRemoved(p0, pfs[..], pages[..k])
      {
        var no := pages[k];
        ReleasableStep(p0, pfs[..], pages, k);
        if !PfsAllocated(pfs[..], no) { return false, no; }
        InMap(pfs[..], no);
        ghost var before := pfs[..];
        ClearBit(no);
        ClearedStep(p0, before, pages, k);
        k := k + 1;
      }
      assert pages[..k] == pages;
    }

    method ClearBit(no: nat)
      requires no / 8 < pfs.Length
      modifies pfs
      ensures pfs[..] == PfsClear(old(pfs[..]), no)
    {
      hide BitMask;
      pfs[no / 8] := pfs[no / 8] & !BitMask(no % 8);
    }

    /** Marks partial every extent of the pages that was full; no other entry changes. */
    method DowngradeExtents(pages: seq<nat>) returns (count: nat, ghost changed: set<nat>)
      requires per > 0 && pfs != eam
      modifies eam
      ensures Downgraded(old(eam[..]), eam[..], Touched(pages, per))
      ensures Differing(old(eam[..]), eam[..], changed) && count == |changed|
    {
      hide *;
      var seen, k := {}, 0;
      count, changed := 0, {};
      ghost var e0 := eam[..];
      DowngradeNone(e0, pages, per);
      while k < |pages|
        invariant k <= |pages| && seen == Touched(pages[..k], per) && count == |changed|
        invariant Downgraded(e0, eam[..], seen) && Differing(e0, eam[..], changed)
      {
        TouchedMore(pages, per, k);
        var extent := pages[k] / per;
        if extent !in seen {
          DowngradeMore(e0, eam[..], seen, changed, extent);
          seen := seen + {extent};
          if ExtentState(eam[..], extent) == 3 {
            SetExtentEntry(extent, 1);
            count := count + 1;
            changed := changed + {extent};
          }
        } else {
          assert seen + {extent} == seen;
        }
        k := k + 1;
      }
      assert pages[..k] == pages;
    }

    /** The highest allocated page, or -1. */
    method FindLast() returns (last: int)
      requires NonePast(pfs[..], pageCount)
      ensures Highest(pfs[..], last)
    {
      last := -1;
      var no := 0;
      while no < pageCount
        invariant no <= pageCount && -1 <= last < no
        invariant last >= 0 ==> PfsAllocated(pfs[..], last)
        invariant forall j: int :: last < j < no ==> !PfsAllocated(pfs[..], j)
      {
        if PfsAllocated(pfs[..], no) { last := no; }
        no := no + 1;
      }
    }

    /** Frees exactly these pages, if each is allocated and named once; else the maps as buffered are
        no longer usable and the edit has to be abandoned. What the flush will write is set, not
        accumulated. */
    method ReleasePages(pages: seq<nat>) returns (r: ReleaseResult, ghost changed: set<nat>)
      requires Valid()
      modifies this`pfsBump, this`pfsDirty, this`eamBump, this`eamDirty, pfs, eam
      ensures r.Released? <==> Releasable(old(pfs[..]), pages)
      ensures r.AlreadyFree? ==> r.no in pages && !PfsAllocated(pfs[..], r.no)
      ensures r.Released? ==>
        && pfs != eam && Consistent(pfs[..], eam[..], per, pageCount, r.last)
        && BitsRemoved(old(pfs[..]), pfs[..], pages)
        && Downgraded(old(eam[..]), eam[..], Touched(pages, per)) && Differing(old(eam[..]), eam[..], changed)
        && pfsBump == |pages| && eamBump == |changed|
        && pfsDirty == (pages != []) && eamDirty == (changed != {})
      ensures r.Released? && old(Synced()) ==> (Synced() <==> old(NothingLost(pages)))
    {
      hide *;
      ValidParts();
      SyncedParts();
      NothingLostParts(pages);
      changed := {};
      ghost var p0, e0 := pfs[..], eam[..];
      var ok, bad := ClearPages(pages);
      if !ok { return AlreadyFree(bad), {}; }
      pfsBump := |pages|;
      pfsDirty := |pages| > 0;
      NonePastAfter(p0, pfs[..], pageCount, pages);
      var count;
      count, changed := DowngradeExtents(pages);
      eamBump := count;
      eamDirty := count > 0;
      var last := FindLast();
      ExtentsAfterRelease(p0, pfs[..], e0, eam[..], per, pages);
      MakeConsistent(pfs[..], eam[..], per, pageCount, last);
      if pages == [] { NothingRemoved(p0, pfs[..]); }
      if changed == {} { NothingChanged(e0, eam[..], changed); }
      FullChanged(e0, eam[..], Touched(pages, per), changed);
      SyncedParts();
      r := Released(last);
    }

    lemma NothingLostParts(pages: seq<nat>)
      ensures NothingLost(pages) <==>
        && per > 0 && (pages != [] || diskPfs == pfs[..])
        && (SomeFull(eam[..], Touched(pages, per)) || diskEam == eam[..])
    {
    }

    /** Frees pages and moves the last page in use down with them. */
    method FreePages(pages: seq<nat>) returns (r: ReleaseResult, ghost changed: set<nat>)
      requires Valid()
      modifies this`lastUsed, this`pfsBump, this`pfsDirty, this`eamBump, this`eamDirty, pfs, eam
      ensures r.Released? <==> Releasable(old(pfs[..]), pages)
      ensures r.Released? ==> Valid() && lastUsed == r.last && BitsRemoved(old(pfs[..]), pfs[..], pages)
      ensures r.Released? ==> pfsDirty == (pages != []) && eamDirty == (changed != {})
      ensures r.Released? ==> Differing(old(eam[..]), eam[..], changed)
      ensures r.Released? ==> Downgraded(old(eam[..]), eam[..], Touched(pages, per))
      ensures r.Released? && old(Synced()) ==> (Synced() <==> old(NothingLost(pages)))
    {
      hide *;
      r, changed := ReleasePages(pages);
      if r.Released? {
        SyncedParts();
        lastUsed := r.last;
        SyncedParts();
        FoldValid();
      }
    }

    lemma FoldValid()
      requires pfs != eam && Consistent(pfs[..], eam[..], per, pageCount, lastUsed)
      ensures Valid()
    {
    }

    /** Shortens the file to the pages in use, but never below the six of a fresh database. The guard
        against cutting off an allocated page never strikes. */
    method ShrinkToLastUsedPage() returns (ok: bool)
      requires Valid()
      modifies this`pageCount
      ensures ok && Valid()
      ensures var total := if lastUsed + 1 >= 6 then lastUsed + 1 else 6;
        pageCount == if total < old(pageCount) then total else old(pageCount)
    {
      hide *;
      ValidParts();
      HighestParts(pfs[..], lastUsed);
      var total := if lastUsed + 1 >= 6 then lastUsed + 1 else 6;
      if total >= pageCount { return true; }
      var no := total;
      while no < pageCount
        invariant total <= no <= pageCount
      {
        if PfsAllocated(pfs[..], no) {
          assert false;
          return false;
        }
        no := no + 1;
      }
      pageCount := total;
      MakeNonePast(pfs[..], total);
      MakeValid();
      ok := true;
    }

    /** Writes the pages marked dirty to the file, and starts a new edit that reads them back. */
    method Flush()
      requires pfs != eam && |diskPfs| == pfs.Length && |diskEam| == eam.Length
      modifies this`diskPfs, this`diskEam, this`pfsDirty, this`eamDirty, this`pfsBump, this`eamBump, pfs, eam
      ensures diskPfs == (if old(pfsDirty) then old(pfs[..]) else old(diskPfs))
      ensures diskEam == (if old(eamDirty) then old(eam[..]) else old(diskEam))
      ensures pfs[..] == diskPfs && eam[..] == diskEam && Synced()
      ensures !pfsDirty && !eamDirty && pfsBump == 1 && eamBump == 1
    {
      if pfsDirty { diskPfs := pfs[..]; }
      if eamDirty { diskEam := eam[..]; }
      Load(pfs, diskPfs);
      Load(eam, diskEam);
      pfsDirty, eamDirty, pfsBump, eamBump := false, false, 1, 1;
    }

    /** Buffers a page's bytes as the file holds them. */
    static method Load(buf: array<bv8>, page: seq<bv8>)
      requires |page| == buf.Length
      modifies buf
      ensures buf[..] == page
    {
      forall k | 0 <= k < |page| { buf[k] := page[k]; }
    }

    /** The maps of a fresh database: pages 0 to 4 are taken one at a time, page 5 is spare. */
    constructor (payload: nat, per: nat)
      requires per > 0 && 6 <= MappablePages(payload, per)
      ensures Valid() && Synced() && fresh(pfs) && fresh(eam)
      ensures this.per == per && pfs.Length == payload && pageCount == 6 && lastUsed == 4
      ensures forall j: int :: PfsAllocated(pfs[..], j) <==> 0 <= j < 5
      ensures !pfsDirty && !eamDirty && diskPfs == pfs[..] && diskEam == eam[..]
    {
      this.per := per;
      pfs := new bv8[payload](_ => 0);
      eam := new bv8[payload](_ => 0);
      pageCount, lastUsed := 6, 4;
      pfsBump, pfsDirty, eamBump, eamDirty := 1, false, 1, false;
      new;
      hide *;
      EmptyMaps(pfs[..], eam[..], per);
      var no := 0;
      while no < 5
        modifies pfs, eam
        invariant no <= 5
        invariant FirstPages(pfs[..], no) && ExtentsOk(pfs[..], eam[..], per)
      {
        TakeFresh(no);
        no := no + 1;
      }
      diskPfs, diskEam := pfs[..], eam[..];
      FreshHighest(pfs[..]);
      MakeValid();
      SyncedParts();
    }

    /** Allocates one more page of a fresh file. */
    method TakeFresh(no: nat)
      requires no < 5 && per > 0 && pfs != eam && pfs.Length == eam.Length && pageCount == 6
      requires 6 <= MappablePages(pfs.Length, per) && FirstPages(pfs[..], no) && ExtentsOk(pfs[..], eam[..], per)
      modifies pfs, eam
      ensures FirstPages(pfs[..], no + 1) && ExtentsOk(pfs[..], eam[..], per)
    {
      hide *;
      MapsReach(pfs.Length, per, no);
      ghost var p0, e0 := pfs[..], eam[..];
      SetPageBit(no);
      OneMorePage(p0, pfs[..], no);
      var extent := no / per;
      var state := ComputeExtentState(extent);
      OneRecomputed(p0, pfs[..], e0, per, no, state);
      if ExtentState(eam[..], extent) != state {
        SetExtentEntry(extent, state);
      }
    }

    method SetPageBit(no: nat)
      requires no / 8 < pfs.Length
      modifies pfs
      ensures pfs[..] == PfsSet(old(pfs[..]), no)
    {
      pfs[no / 8] := pfs[no / 8] | BitMask(no % 8);
    }
  }

  /** Exactly the bits of these pages were set. */
  ghost predicate BitsAdded(p0: seq<bv8>, p: seq<bv8>, pages: seq<nat>)
  {
    |p| == |p0| && forall j: int :: PfsAllocated(p, j) <==> j in pages || PfsAllocated(p0, j)
  }

  /** The entries of the extents seen are exact, the others are as they were. */
  ghost predicate Recomputed(pfs: seq<bv8>, eam0: seq<bv8>, eam: seq<bv8>, per: nat, seen: set<nat>)
    requires per > 0
  {
    && |eam| == |eam0|
    && forall e: nat :: if e in seen then ExactState(pfs, per, e, ExtentState(eam, e))
                        else ExtentState(eam, e) == ExtentState(eam0, e)
  }

  /** The entries that differ are those of the extents in changed. */
  ghost predicate Differing(eam0: seq<bv8>, eam: seq<bv8>, changed: set<nat>)
  {
    && (forall e: nat :: e in changed <==> ExtentState(eam, e) != ExtentState(eam0, e))
    && (changed == {} ==> eam == eam0)
  }

  lemma RecomputeNone(pfs: seq<bv8>, eam0: seq<bv8>, pages: seq<nat>, per: nat)
    requires per > 0
    ensures Touched(pages[..0], per) == {} && Recomputed(pfs, eam0, eam0, per, {}) && Differing(eam0, eam0, {})
  {
  }

  lemma RecomputeMore(pfs: seq<bv8>, eam0: seq<bv8>, eam: seq<bv8>, per: nat, seen: set<nat>, changed: set<nat>,
                      extent: nat, state: bv8)
    requires per > 0 && Recomputed(pfs, eam0, eam, per, seen) && Differing(eam0, eam, changed)
    requires extent !in seen && extent / 4 < |eam| && ExactState(pfs, per, extent, state)
    ensures state <= 3 && extent !in changed
    ensures if ExtentState(eam, extent) == state then
        Recomputed(pfs, eam0, eam, per, seen + {extent})
      else
        && Recomputed(pfs, eam0, SetExtentState(eam, extent, state), per, seen + {extent})
        && Differing(eam0, SetExtentState(eam, extent, state), changed + {extent})
  {
    hide ExtentState, ExtentAll, ExtentNone;
    if ExtentState(eam, extent) != state {
      var eam2 := SetExtentState(eam, extent, state);
      assert ExtentState(eam2, extent) == state;
    }
  }

  lemma StateCounted(pfs: seq<bv8>, per: nat, extent: nat, used: nat, state: bv8)
    requires per > 0 && used <= per
    requires used == per <==> forall i: nat :: i < per ==> PfsAllocated(pfs, PageOf(per, extent, i))
    requires used == 0 <==> forall i: nat :: i < per ==> !PfsAllocated(pfs, PageOf(per, extent, i))
    requires state == if used == 0 then EXTENT_FREE else if used == per then EXTENT_FULL else EXTENT_PARTIAL
    ensures ExactState(pfs, per, extent, state)
  {
    hide PfsAllocated;
    forall no: nat
      ensures no / per == extent <==> extent * per <= no < extent * per + per
    {
      ExtentPages(per, extent, no);
    }
    forall no: nat | no / per == extent
      ensures used == per ==> PfsAllocated(pfs, no)
      ensures used == 0 ==> !PfsAllocated(pfs, no)
    {
      assert no == PageOf(per, extent, no - extent * per);
    }
    forall i: nat | i < per
      ensures PageOf(per, extent, i) / per == extent
    {
      ExtentPages(per, extent, extent * per + i);
    }
  }

  /** After growing there are enough free pages: the new ones are all free. */
  lemma EnoughFree(pfs: seq<bv8>, old_count: nat, count: nat, n: nat, found: seq<nat>, pages: seq<nat>)
    requires NonePast(pfs, old_count) && LowestFree(pfs, old_count, n, found) && |found| < n
    requires count >= old_count + (n - |found|) && LowestFree(pfs, count, n, pages)
    ensures |pages| == n
  {
    hide PfsAllocated;
    var missing := n - |found|;
    var fresh_pages := seq(missing, i requires 0 <= i < missing => old_count + i);
    var s := found + fresh_pages;
    forall no: nat | no < count && !PfsAllocated(pfs, no)
      ensures no in s || (|s| == n && forall i :: 0 <= i < n ==> s[i] < no)
    {
      if old_count <= no < old_count + missing { assert fresh_pages[no - old_count] == no; }
    }
    LowestFreeUnique(pfs, count, n, s, pages);
  }

  lemma NothingChanged(eam0: seq<bv8>, eam: seq<bv8>, changed: set<nat>)
    requires Differing(eam0, eam, changed) && changed == {}
    ensures eam == eam0
  {
  }

  lemma PagesMappable(pfs: seq<bv8>, count: nat, per: nat, n: nat, pages: seq<nat>)
    requires per > 0 && LowestFree(pfs, count, n, pages) && count <= MappablePages(|pfs|, per)
    ensures forall i :: 0 <= i < |pages| ==> pages[i] / 8 < |pfs| && pages[i] / per / 4 < |pfs|
  {
    hide PfsAllocated, MappablePages;
    forall i | 0 <= i < |pages|
      ensures pages[i] / 8 < |pfs| && pages[i] / per / 4 < |pfs|
    {
      MapsReach(|pfs|, per, pages[i]);
    }
  }

  lemma AllocationFits(p0: seq<bv8>, p: seq<bv8>, count: nat, last: int, n: nat, pages: seq<nat>)
    requires NonePast(p0, count) && Highest(p0, last) && LowestFree(p0, count, n, pages) && pages != []
    requires BitsAdded(p0, p, pages)
    ensures NonePast(p, count)
    ensures Highest(p, if pages[|pages| - 1] > last then pages[|pages| - 1] else last)
  {
    hide PfsAllocated;
    assert pages[|pages| - 1] in pages;
  }

  lemma ExtentsAfterAllocation(p0: seq<bv8>, p: seq<bv8>, e0: seq<bv8>, e: seq<bv8>, per: nat, pages: seq<nat>)
    requires per > 0 && ExtentsOk(p0, e0, per) && Recomputed(p, e0, e, per, Touched(pages, per))
    requires BitsAdded(p0, p, pages)
    ensures ExtentsOk(p, e, per)
  {
    hide PfsAllocated, ExtentState;
    forall x: nat
      ensures EntryOk(p, per, x, ExtentState(e, x))
    {
      assert EntryOk(p0, per, x, ExtentState(e0, x));
      if x !in Touched(pages, per) { SameExtent(p0, p, per, x, pages); }
    }
  }

  /** Pages elsewhere do not matter to an extent. */
  lemma SameExtent(p0: seq<bv8>, p: seq<bv8>, per: nat, extent: nat, pages: seq<nat>)
    requires per > 0 && extent !in Touched(pages, per)
    requires forall j: int :: j !in pages ==> (PfsAllocated(p, j) <==> PfsAllocated(p0, j))
    ensures ExtentAll(p, per, extent) <==> ExtentAll(p0, per, extent)
    ensures ExtentNone(p, per, extent) <==> ExtentNone(p0, per, extent)
  {
    hide PfsAllocated;
    forall i | 0 <= i < |pages|
      ensures pages[i] / per != extent
    {
      assert pages[i] / per in Touched(pages, per);
    }
  }

  // -- releasing ------------------------------------------------------------------------------------

  /** Every page is allocated and named once. */
  ghost predicate Releasable(pfs: seq<bv8>, pages: seq<nat>)
  {
    && (forall i :: 0 <= i < |pages| ==> PfsAllocated(pfs, pages[i]))
    && (forall i, j :: 0 <= i < j < |pages| ==> pages[i] != pages[j])
  }

  /** Exactly the bits of these pages were cleared. */
  ghost predicate BitsRemoved(p0: seq<bv8>, p: seq<bv8>, pages: seq<nat>)
  {
    && |p| == |p0| && (pages == [] ==> p == p0)
    && forall j: int :: PfsAllocated(p, j) <==> j !in pages && PfsAllocated(p0, j)
  }

  function DowngradedState(state: bv8, touched: bool): bv8
  {
    if touched && state == EXTENT_FULL then EXTENT_PARTIAL else state
  }

  /** The full extents among those touched became partial; no other entry changed. */
  ghost predicate Downgraded(eam0: seq<bv8>, eam: seq<bv8>, touched: set<nat>)
  {
    && |eam| == |eam0|
    && forall e: nat :: ExtentState(eam, e) == DowngradedState(ExtentState(eam0, e), e in touched)
  }

  lemma NoneCleared(p0: seq<bv8>, pages: seq<nat>)
    ensures Releasable(p0, pages[..0]) && BitsRemoved(p0, p0, pages[..0])
  {
  }

  lemma InMap(pfs: seq<bv8>, no: nat)
    requires PfsAllocated(pfs, no)
    ensures no / 8 < |pfs|
  {
  }

  lemma ClearedStep(p0: seq<bv8>, p: seq<bv8>, pages: seq<nat>, k: nat)
    requires k < |pages| && BitsRemoved(p0, p, pages[..k]) && pages[k] / 8 < |p|
    ensures BitsRemoved(p0, PfsClear(p, pages[k]), pages[..k + 1])
  {
    hide PfsAllocated, PfsClear;
    assert pages[..k + 1] == pages[..k] + [pages[k]];
  }

  /** Some extent the pages lie in is marked full. */
  ghost predicate SomeFull(eam: seq<bv8>, touched: set<nat>)
  {
    exists e :: e in touched && ExtentState(eam, e) == EXTENT_FULL
  }

  /** A release changes the extent map exactly when it touches a full extent. */
  lemma FullChanged(eam0: seq<bv8>, eam: seq<bv8>, touched: set<nat>, changed: set<nat>)
    requires Downgraded(eam0, eam, touched) && Differing(eam0, eam, changed)
    ensures changed != {} <==> SomeFull(eam0, touched)
  {
    hide ExtentState;
    if SomeFull(eam0, touched) {
      var e :| e in touched && ExtentState(eam0, e) == EXTENT_FULL;
      assert e in changed;
    }
    if changed != {} {
      var e :| e in changed;
      assert ExtentState(eam, e) == DowngradedState(ExtentState(eam0, e), e in touched);
    }
  }

  lemma ReleasableStep(p0: seq<bv8>, p: seq<bv8>, pages: seq<nat>, k: nat)
    requires k < |pages| && Releasable(p0, pages[..k]) && BitsRemoved(p0, p, pages[..k])
    ensures PfsAllocated(p, pages[k]) <==> Releasable(p0, pages[..k + 1])
    ensures !PfsAllocated(p, pages[k]) ==> !Releasable(p0, pages)
  {
    hide PfsAllocated;
    var a := pages[..k];
    assert forall i :: 0 <= i < k ==> a[i] == pages[i];
    if !PfsAllocated(p, pages[k]) && PfsAllocated(p0, pages[k]) {
      var i :| 0 <= i < k && a[i] == pages[k];
      assert pages[..k + 1][i] == pages[..k + 1][k];
    }
    if Releasable(p0, pages[..k + 1]) {
      assert pages[..k + 1][k] == pages[k];
      assert pages[k] !in a by {
        forall i | 0 <= i < k
          ensures a[i] != pages[k]
        {
          assert pages[..k + 1][i] != pages[..k + 1][k];
        }
      }
    }
  }

  lemma DowngradeNone(eam: seq<bv8>, pages: seq<nat>, per: nat)
    requires per > 0
    ensures Touched(pages[..0], per) == {} && Downgraded(eam, eam, {}) && Differing(eam, eam, {})
  {
  }

  lemma DowngradeMore(eam0: seq<bv8>, eam: seq<bv8>, seen: set<nat>, changed: set<nat>, extent: nat)
    requires Downgraded(eam0, eam, seen) && Differing(eam0, eam, changed) && extent !in seen
    ensures extent !in changed
    ensures if ExtentState(eam, extent) == 3 then
        && extent / 4 < |eam|
        && Downgraded(eam0, SetExtentState(eam, extent, 1), seen + {extent})
        && Differing(eam0, SetExtentState(eam, extent, 1), changed + {extent})
      else
        Downgraded(eam0, eam, seen + {extent})
  {
    hide Entry;
    if ExtentState(eam, extent) == 3 {
      var eam2 := SetExtentState(eam, extent, 1);
      assert ExtentState(eam2, extent) == 1;
    }
  }

  lemma NonePastAfter(p0: seq<bv8>, p: seq<bv8>, count: nat, pages: seq<nat>)
    requires NonePast(p0, count) && BitsRemoved(p0, p, pages)
    ensures NonePast(p, count) && |p| == |p0|
  {
    hide PfsAllocated;
  }

  lemma NothingRemoved(p0: seq<bv8>, p: seq<bv8>)
    requires BitsRemoved(p0, p, [])
    ensures p == p0
  {
  }

  /** Only a full extent can lose its standing when pages go: one that was partial never becomes free. */
  lemma ExtentsAfterRelease(p0: seq<bv8>, p: seq<bv8>, e0: seq<bv8>, e: seq<bv8>, per: nat, pages: seq<nat>)
    requires per > 0 && ExtentsOk(p0, e0, per) && Releasable(p0, pages) && BitsRemoved(p0, p, pages)
    requires Downgraded(e0, e, Touched(pages, per))
    ensures ExtentsOk(p, e, per)
  {
    hide PfsAllocated, ExtentState;
    forall x: nat
      ensures EntryOk(p, per, x, ExtentState(e, x))
    {
      assert EntryOk(p0, per, x, ExtentState(e0, x));
      if x in Touched(pages, per) {
        var i :| 0 <= i < |pages| && pages[i] / per == x;
        assert PfsAllocated(p0, pages[i]) && !PfsAllocated(p, pages[i]);
      } else {
        SameExtent(p0, p, per, x, pages);
      }
    }
  }

  lemma MakeConsistent(pfs: seq<bv8>, eam: seq<bv8>, per: nat, pageCount: nat, last: int)
    requires per > 0 && |eam| == |pfs| && pageCount <= MappablePages(|pfs|, per)
    requires NonePast(pfs, pageCount) && ExtentsOk(pfs, eam, per) && Highest(pfs, last)
    ensures Consistent(pfs, eam, per, pageCount, last)
  {
  }

  lemma HighestParts(pfs: seq<bv8>, last: int)
    requires Highest(pfs, last)
    ensures last >= -1 && forall no: int :: no > last ==> !PfsAllocated(pfs, no)
  {
  }

  lemma MakeNonePast(pfs: seq<bv8>, count: nat)
    requires forall no: int :: no >= count ==> !PfsAllocated(pfs, no)
    ensures NonePast(pfs, count)
  {
  }

  // -- a fresh database -----------------------------------------------------------------------------

  ghost predicate FirstPages(pfs: seq<bv8>, n: nat)
  {
    forall j: int :: PfsAllocated(pfs, j) <==> 0 <= j < n
  }

  lemma EmptyMaps(pfs: seq<bv8>, eam: seq<bv8>, per: nat)
    requires per > 0 && (forall i :: 0 <= i < |pfs| ==> pfs[i] == 0) && (forall i :: 0 <= i < |eam| ==> eam[i] == 0)
    ensures FirstPages(pfs, 0) && ExtentsOk(pfs, eam, per)
  {
    forall e: nat
      ensures EntryOk(pfs, per, e, ExtentState(eam, e))
    {
      var no: nat := e * per;
      ExtentPages(per, e, no);
      assert no / per == e && !PfsAllocated(pfs, no);
    }
  }

  lemma OneMorePage(p0: seq<bv8>, p: seq<bv8>, no: nat)
    requires FirstPages(p0, no) && no / 8 < |p0| && p == PfsSet(p0, no) && no < 5
    ensures FirstPages(p, no + 1) && NonePast(p, 6) && BitsAdded(p0, p, [no])
  {
    hide PfsAllocated;
  }

  lemma OneRecomputed(p0: seq<bv8>, p: seq<bv8>, e0: seq<bv8>, per: nat, no: nat, state: bv8)
    requires per > 0 && ExtentsOk(p0, e0, per) && BitsAdded(p0, p, [no]) && ExactState(p, per, no / per, state)
    requires no / per / 4 < |e0|
    ensures state <= 3
    ensures ExtentState(e0, no / per) == state ==> ExtentsOk(p, e0, per)
    ensures ExtentsOk(p, SetExtentState(e0, no / per, state), per)
  {
    hide PfsAllocated, ExtentState;
    var e := SetExtentState(e0, no / per, state);
    forall x: nat
      ensures EntryOk(p, per, x, ExtentState(e, x))
      ensures ExtentState(e0, no / per) == state ==> EntryOk(p, per, x, ExtentState(e0, x))
    {
      assert EntryOk(p0, per, x, ExtentState(e0, x));
      if x != no / per { SameExtent(p0, p, per, x, [no]); }
    }
  }

  lemma FreshHighest(pfs: seq<bv8>)
    requires FirstPages(pfs, 5)
    ensures NonePast(pfs, 6) && Highest(pfs, 4) && forall j: int :: PfsAllocated(pfs, j) <==> 0 <= j < 5
  {
    hide PfsAllocated;
  }

  // -- runs -------------------------------------------------------------------------------------------

  datatype Op = Allocate(n: int) | Release(pages: seq<nat>) | Grow(shortfall: int) | Shrink | Write

  /** Every release meets clean buffers: it comes first or right after a write. */
  predicate CleanReleases(ops: seq<Op>)
  {
    forall i :: 0 <= i < |ops| && ops[i].Release? ==> i == 0 || ops[i - 1].Write?
  }

  /** There are not n pages to be had, even by growing the file as far as the maps reach. */
  ghost predicate TooMany(a: Maps, n: int)
    requires a.per > 0
  {
    exists found: seq<nat> ::
      && n > 0 && LowestFree(a.pfs, a.pageCount, n, found) && |found| < n
      && GrownCount(a.pageCount, n - |found|, a.per) > MappablePages(|a.pfs|, a.per)
  }

  /** The lowest n free pages are taken, in a file grown as far as they need. */
  ghost predicate Taken(a: Maps, b: Maps, n: int)
    requires a.per > 0
  {
    exists pages: seq<nat>, found: seq<nat> ::
      && n > 0 && LowestFree(a.pfs, a.pageCount, n, found)
      && b.pageCount == (if |found| < n then GrownCount(a.pageCount, n - |found|, a.per) else a.pageCount)
      && |pages| == n && LowestFree(a.pfs, b.pageCount, n, pages) && BitsAdded(a.pfs, b.pfs, pages)
      && Recomputed(b.pfs, a.eam, b.eam, a.per, Touched(pages, a.per))
      && b == Maps(b.pfs, b.eam, a.per, b.pageCount, b.lastUsed, true, a.eamDirty || b.eam != a.eam,
                   a.diskPfs, a.diskEam)
  }

  /** Exactly the pages are free, full extents among theirs are partial, and the dirty marks say what this release
      changed, whatever was dirty before. */
  ghost predicate Freed(a: Maps, b: Maps, pages: seq<nat>)
    requires a.per > 0
  {
    && Releasable(a.pfs, pages) && BitsRemoved(a.pfs, b.pfs, pages) && Downgraded(a.eam, b.eam, Touched(pages, a.per))
    && b == Maps(b.pfs, b.eam, a.per, a.pageCount, b.lastUsed, pages != [], b.eam != a.eam, a.diskPfs, a.diskEam)
  }

  function CountAfterGrowth(a: Maps, shortfall: int): nat
    requires a.per > 0
  {
    if shortfall <= 0 || GrownCount(a.pageCount, shortfall, a.per) > MappablePages(|a.pfs|, a.per) then a.pageCount
    else GrownCount(a.pageCount, shortfall, a.per)
  }

  function CountAfterCut(a: Maps): nat
  {
    var total := if a.lastUsed + 1 >= 6 then a.lastUsed + 1 else 6;
    if total < a.pageCount then total else a.pageCount
  }

  /** What one operation makes of the maps. */
  ghost predicate Step(op: Op, a: Maps, b: Maps)
    requires a.per > 0
  {
    match op
    case Allocate(n) => (b == a && (n <= 0 || TooMany(a, n))) || Taken(a, b, n)
    case Release(pages) => Freed(a, b, pages)
    case Grow(shortfall) => b == a.(pageCount := CountAfterGrowth(a, shortfall))
    case Shrink => b == a.(pageCount := CountAfterCut(a))
    case Write => a.Synced() && b == a.(pfsDirty := false, eamDirty := false, diskPfs := a.pfs, diskEam := a.eam)
  }

  /** The states steps go through, all of them consistent. */
  ghost predicate Walked(ops: seq<Op>, trace: seq<Maps>)
  {
    && 1 <= |trace| <= |ops| + 1
    && (forall i :: 0 <= i < |trace| ==> trace[i].per > 0 && trace[i].Valid())
    && (forall i :: 0 <= i < |trace| - 1 ==> Step(ops[i], trace[i], trace[i + 1]))
  }

  /** A whole run. It stops only at a release the maps refuse, or before a write that would lose a change. */
  ghost predicate IsRun(ops: seq<Op>, trace: seq<Maps>)
  {
    Walked(ops, trace) && (|trace| <= |ops| ==> Stops(ops[|trace| - 1], trace[|trace| - 1]))
  }

  ghost predicate Stops(op: Op, a: Maps)
  {
    (op.Release? && !Releasable(a.pfs, op.pages)) || (op.Write? && !a.Synced())
  }

  /** Every release carried out loses nothing by the state it meets. */
  ghost predicate NoneLost(ops: seq<Op>, trace: seq<Maps>)
    requires |trace| <= |ops| + 1
  {
    forall i :: 0 <= i < |trace| - 1 && ops[i].Release? ==> trace[i].NothingLost(ops[i].pages)
  }

  ghost predicate AllSynced(trace: seq<Maps>)
  {
    forall i :: 0 <= i < |trace| ==> trace[i].Synced()
  }

  /** Taking pages leaves no change unmarked. */
  lemma TakenKeeps(a: Maps, b: Maps, n: int)
    requires a.per > 0 && Taken(a, b, n) && a.Synced()
    ensures b.Synced()
  {
    hide LowestFree, PfsAllocated, ExtentState, ExactState, Touched;
  }

  /** A release leaves no change unmarked if and only if it loses nothing by the state it meets. */
  lemma FreedKeeps(a: Maps, b: Maps, pages: seq<nat>)
    requires a.per > 0 && Freed(a, b, pages) && a.Synced()
    ensures b.Synced() <==> a.NothingLost(pages)
  {
    hide PfsAllocated, ExtentState, Touched, Releasable, SomeFull;
    EntriesTell(a.eam, b.eam, Touched(pages, a.per));
  }

  lemma EntryByte(x: bv8, y: bv8)
    requires Entry(x, 0) == Entry(y, 0) && Entry(x, 1) == Entry(y, 1) && Entry(x, 2) == Entry(y, 2)
    requires Entry(x, 3) == Entry(y, 3)
    ensures x == y
  {
  }

  lemma SameEntries(eam0: seq<bv8>, eam: seq<bv8>)
    requires |eam| == |eam0| && forall e: nat :: ExtentState(eam, e) == ExtentState(eam0, e)
    ensures eam == eam0
  {
    hide Entry;
    forall i | 0 <= i < |eam|
      ensures eam[i] == eam0[i]
    {
      var e: nat := 4 * i;
      assert ExtentState(eam, e) == ExtentState(eam0, e) && ExtentState(eam, e + 1) == ExtentState(eam0, e + 1);
      assert ExtentState(eam, e + 2) == ExtentState(eam0, e + 2) && ExtentState(eam, e + 3) == ExtentState(eam0, e + 3);
      EntryByte(eam[i], eam0[i]);
    }
  }

  /** A full extent among those touched is what changes the extent map. */
  lemma EntriesTell(eam0: seq<bv8>, eam: seq<bv8>, touched: set<nat>)
    requires Downgraded(eam0, eam, touched)
    ensures eam != eam0 <==> SomeFull(eam0, touched)
  {
    hide ExtentState;
    if SomeFull(eam0, touched) {
      var e :| e in touched && ExtentState(eam0, e) == EXTENT_FULL;
      assert ExtentState(eam, e) == DowngradedState(ExtentState(eam0, e), e in touched);
    } else {
      forall e: nat
        ensures ExtentState(eam, e) == ExtentState(eam0, e)
      {
        assert ExtentState(eam, e) == DowngradedState(ExtentState(eam0, e), e in touched);
      }
      SameEntries(eam0, eam);
    }
  }

  lemma StepKeeps(op: Op, a: Maps, b: Maps)
    requires a.per > 0 && Step(op, a, b) && a.Synced()
    ensures b.Synced() <==> (op.Release? ==> a.NothingLost(op.pages))
  {
    hide Taken, Freed, TooMany, Maps.NothingLost;
    match op
    case Allocate(n) => if Taken(a, b, n) { TakenKeeps(a, b, n); }
    case Release(pages) => FreedKeeps(a, b, pages);
    case Grow(_) =>
    case Shrink =>
    case Write =>
  }

  /** The pages marked dirty are all that the file is behind by, at every point of a run, if and only if every release
      loses nothing by the state it meets; and then no write stops the run. */
  lemma {:induction false} KeptExactly(ops: seq<Op>, trace: seq<Maps>)
    requires IsRun(ops, trace) && trace[0].Synced()
    ensures AllSynced(trace) <==> NoneLost(ops, trace)
    ensures NoneLost(ops, trace) && |trace| <= |ops| ==> ops[|trace| - 1].Release?
  {
    hide Step, Maps.Valid, Maps.NothingLost, Maps.Synced, Releasable;
    if AllSynced(trace) {
      forall i | 0 <= i < |trace| - 1 && ops[i].Release?
        ensures trace[i].NothingLost(ops[i].pages)
      {
        assert trace[i].Synced() && trace[i + 1].Synced();
        StepKeeps(ops[i], trace[i], trace[i + 1]);
      }
    }
    if NoneLost(ops, trace) {
      var i := 0;
      while i < |trace| - 1
        invariant 0 <= i < |trace| && forall j :: 0 <= j <= i ==> trace[j].Synced()
      {
        StepKeeps(ops[i], trace[i], trace[i + 1]);
        i := i + 1;
      }
    }
  }

  /** Releases that meet clean buffers lose nothing. */
  lemma CleanRun(ops: seq<Op>, trace: seq<Maps>)
    requires IsRun(ops, trace) && CleanReleases(ops)
    requires trace[0].Synced() && !trace[0].pfsDirty && !trace[0].eamDirty
    ensures NoneLost(ops, trace)
  {
    hide Maps.Valid, Releasable, Taken, Freed, TooMany, SomeFull, Touched;
    forall i | 0 <= i < |trace| - 1 && ops[i].Release?
      ensures trace[i].NothingLost(ops[i].pages)
    {
      if i > 0 { assert ops[i - 1].Write? && Step(ops[i - 1], trace[i - 1], trace[i]); }
    }
  }

  lemma WalkStart(ops: seq<Op>, a: Maps)
    requires a.Valid()
    ensures Walked(ops, [a])
  {
    hide Step;
  }

  lemma WalkOn(ops: seq<Op>, trace: seq<Maps>, b: Maps)
    requires Walked(ops, trace) && |trace| <= |ops| && b.Valid()
    requires Step(ops[|trace| - 1], trace[|trace| - 1], b)
    ensures Walked(ops, trace + [b])
  {
    hide Step;
    assert b.per > 0;
  }

  lemma WalkEnded(ops: seq<Op>, trace: seq<Maps>)
    requires Walked(ops, trace) && trace[0].Synced()
    requires |trace| <= |ops| ==> Stops(ops[|trace| - 1], trace[|trace| - 1])
    ensures IsRun(ops, trace) && (AllSynced(trace) <==> NoneLost(ops, trace))
  {
    hide *;
    MakeRun(ops, trace);
    KeptExactly(ops, trace);
  }

  lemma MakeRun(ops: seq<Op>, trace: seq<Maps>)
    requires Walked(ops, trace) && (|trace| <= |ops| ==> Stops(ops[|trace| - 1], trace[|trace| - 1]))
    ensures IsRun(ops, trace)
  {
  }

  lemma WalkState(ops: seq<Op>, trace: seq<Maps>)
    requires Walked(ops, trace)
    ensures 1 <= |trace| <= |ops| + 1 && trace[|trace| - 1].per > 0 && trace[|trace| - 1].Valid()
  {
  }

  lemma SnapshotParts(d: PageMaps)
    ensures d.Valid() ==> d.Snapshot().Valid() && d.per > 0
    ensures d.Synced() <==> d.Snapshot().Synced()
    ensures d.Snapshot() == Maps(d.pfs[..], d.eam[..], d.per, d.pageCount, d.lastUsed, d.pfsDirty, d.eamDirty,
                                 d.diskPfs, d.diskEam)
  {
  }

  /** One operation of a run; a release the maps refuse leaves them as they should no longer be used. */
  method Perform(d: PageMaps, op: Op) returns (ok: bool)
    requires d.Valid() && d.per > 0
    modifies d, d.pfs, d.eam
    ensures ok ==> d.Valid() && Step(op, old(d.Snapshot()), d.Snapshot())
    ensures !ok ==> Stops(op, old(d.Snapshot()))
    ensures !ok && op.Write? ==> d.Valid() && d.Snapshot() == old(d.Snapshot())
  {
    hide *;
    SnapshotParts(d);
    d.ValidParts();
    ghost var a := d.Snapshot();
    ok := true;
    ghost var found, changed;
    match op {
      case Allocate(n) =>
        var r;
        r, found, changed := d.AllocatePages(n);
        SnapshotParts(d);
        if r.Pages? {
          d.ValidParts();
          WasTaken(a, d.Snapshot(), n, r.pages, found, changed);
        } else {
          WasRefused(a, n, found, r.BadCount?);
        }
        MakeAllocate(op, a, d.Snapshot());
      case Release(pages) =>
        var r;
        r, changed := d.FreePages(pages);
        SnapshotParts(d);
        if r.Released? {
          WasFreed(a, d.Snapshot(), pages, changed);
          MakeRelease(op, a, d.Snapshot());
        } else {
          Refused(op, a);
        }
        ok := r.Released?;
      case Grow(shortfall) =>
        var r := d.ExtendFile(shortfall);
        SnapshotParts(d);
        WasGrown(op, a, d.Snapshot());
      case Shrink =>
        var r := d.ShrinkToLastUsedPage();
        SnapshotParts(d);
        WasCut(op, a, d.Snapshot());
      case Write =>
        ok := d.InStep();
        if ok {
          Rewrite(d);
          SnapshotParts(d);
          d.SyncedParts();
          WasWritten(op, a, d.Snapshot());
        } else {
          Refused(op, a);
        }
    }
  }

  lemma WasTaken(a: Maps, b: Maps, n: int, pages: seq<nat>, found: seq<nat>, changed: set<nat>)
    requires a.per > 0 && n > 0 && LowestFree(a.pfs, a.pageCount, n, found)
    requires b.pageCount == if |found| < n then GrownCount(a.pageCount, n - |found|, a.per) else a.pageCount
    requires |pages| == n && LowestFree(a.pfs, b.pageCount, n, pages)
    requires BitsAdded(a.pfs, b.pfs, pages) && Recomputed(b.pfs, a.eam, b.eam, a.per, Touched(pages, a.per))
    requires Differing(a.eam, b.eam, changed)
    requires b == Maps(b.pfs, b.eam, a.per, b.pageCount, b.lastUsed, true, a.eamDirty || changed != {},
                       a.diskPfs, a.diskEam)
    ensures Taken(a, b, n)
  {
    hide LowestFree, BitsAdded, Recomputed, Touched, GrownCount;
    DifferingMeans(a.eam, b.eam, changed);
  }

  lemma DifferingMeans(eam0: seq<bv8>, eam: seq<bv8>, changed: set<nat>)
    requires Differing(eam0, eam, changed)
    ensures changed == {} <==> eam == eam0
  {
    hide ExtentState;
  }

  lemma WasRefused(a: Maps, n: int, found: seq<nat>, bad: bool)
    requires a.per > 0 && (bad <==> n <= 0) && (n > 0 ==> LowestFree(a.pfs, a.pageCount, n, found))
    requires !bad ==> |found| < n && GrownCount(a.pageCount, n - |found|, a.per) > MappablePages(|a.pfs|, a.per)
    ensures n <= 0 || TooMany(a, n)
  {
    hide LowestFree, MappablePages, GrownCount;
  }

  lemma MakeAllocate(op: Op, a: Maps, b: Maps)
    requires op.Allocate? && a.per > 0 && ((b == a && (op.n <= 0 || TooMany(a, op.n))) || Taken(a, b, op.n))
    ensures Step(op, a, b)
  {
    hide TooMany, Taken;
  }

  lemma WasFreed(a: Maps, b: Maps, pages: seq<nat>, changed: set<nat>)
    requires a.per > 0 && Releasable(a.pfs, pages) && BitsRemoved(a.pfs, b.pfs, pages)
    requires Downgraded(a.eam, b.eam, Touched(pages, a.per)) && Differing(a.eam, b.eam, changed)
    requires b == Maps(b.pfs, b.eam, a.per, a.pageCount, b.lastUsed, pages != [], changed != {}, a.diskPfs, a.diskEam)
    ensures Freed(a, b, pages)
  {
    hide Releasable, BitsRemoved, Downgraded, Touched;
    DifferingMeans(a.eam, b.eam, changed);
  }

  lemma MakeRelease(op: Op, a: Maps, b: Maps)
    requires op.Release? && a.per > 0 && Freed(a, b, op.pages)
    ensures Step(op, a, b)
  {
    hide Freed;
  }

  lemma Refused(op: Op, a: Maps)
    requires (op.Release? && !Releasable(a.pfs, op.pages)) || (op.Write? && !a.Synced())
    ensures Stops(op, a)
  {
    hide Releasable;
  }

  lemma WasGrown(op: Op, a: Maps, b: Maps)
    requires op.Grow? && a.per > 0 && b == a.(pageCount := b.pageCount)
    requires b.pageCount == if op.shortfall <= 0
        || GrownCount(a.pageCount, op.shortfall, a.per) > MappablePages(|a.pfs|, a.per)
      then a.pageCount else GrownCount(a.pageCount, op.shortfall, a.per)
    ensures Step(op, a, b)
  {
    hide MappablePages, GrownCount;
  }

  lemma WasCut(op: Op, a: Maps, b: Maps)
    requires op.Shrink? && a.per > 0 && b == a.(pageCount := b.pageCount)
    requires var total := if a.lastUsed + 1 >= 6 then a.lastUsed + 1 else 6;
      b.pageCount == if total < a.pageCount then total else a.pageCount
    ensures Step(op, a, b)
  {
  }

  lemma WasWritten(op: Op, a: Maps, b: Maps)
    requires op.Write? && a.per > 0 && a.Synced() && b.Synced() && !b.pfsDirty && !b.eamDirty
    requires b == a.(pfsDirty := false, eamDirty := false, diskPfs := b.diskPfs, diskEam := b.diskEam)
    ensures Step(op, a, b)
  {
  }

  /** Any run of operations goes through the states its steps make, and keeps the maps consistent. */
  method Run(d: PageMaps, ops: seq<Op>) returns (done: nat, ghost trace: seq<Maps>)
    requires d.Valid() && d.Synced()
    modifies d, d.pfs, d.eam
    ensures IsRun(ops, trace) && |trace| == done + 1 && trace[0] == old(d.Snapshot())
    ensures AllSynced(trace) <==> NoneLost(ops, trace)
    ensures done == |ops| || ops[done].Write? ==> d.Valid() && d.Snapshot() == trace[done]
  {
    hide *;
    done, trace := 0, [d.Snapshot()];
    SnapshotParts(d);
    WalkStart(ops, d.Snapshot());
    while done < |ops|
      invariant done <= |ops| && d.Valid() && |trace| == done + 1 && Walked(ops, trace)
      invariant trace[0] == old(d.Snapshot()) && trace[done] == d.Snapshot()
    {
      SnapshotParts(d);
      var ok := Perform(d, ops[done]);
      if !ok {
        WalkEnded(ops, trace);
        return;
      }
      SnapshotParts(d);
      WalkState(ops, trace);
      WalkOn(ops, trace, d.Snapshot());
      trace := trace + [d.Snapshot()];
      done := done + 1;
    }
    WalkEnded(ops, trace);
  }

  /** Writing what is dirty and reading it back loses nothing when the buffers were in step. */
  method Rewrite(d: PageMaps)
    requires d.Valid() && d.Synced()
    modifies d, d.pfs, d.eam
    ensures d.Valid() && d.Synced() && !d.pfsDirty && !d.eamDirty
    ensures d.pfs[..] == old(d.pfs[..]) && d.eam[..] == old(d.eam[..]) && d.pageCount == old(d.pageCount)
    ensures d.lastUsed == old(d.lastUsed)
  {
    hide Consistent;
    d.Flush();
  }

  lemma SmallMaps(payload: nat)
    requires payload >= 2
    ensures MappablePages(payload, 4) >= 16
  {
  }

  lemma FreshGrowth(p0: seq<bv8>, found: seq<nat>)
    requires LowestFree(p0, 6, 4, found) && forall j: int :: PfsAllocated(p0, j) <==> 0 <= j < 5
    ensures found == [5] && GrownCount(6, 4 - |found|, 4) == 10
  {
    hide PfsAllocated;
    LowestFreeUnique(p0, 6, 4, found, [5]);
  }

  lemma FreshPages(p0: seq<bv8>, pages: seq<nat>)
    requires LowestFree(p0, 10, 4, pages) && forall j: int :: PfsAllocated(p0, j) <==> 0 <= j < 5
    ensures pages == [5, 6, 7, 8]
  {
    hide PfsAllocated;
    LowestFreeUnique(p0, 10, 4, pages, [5, 6, 7, 8]);
  }

  lemma FullAndPartial(p0: seq<bv8>, p1: seq<bv8>, e1: seq<bv8>)
    requires forall j: int :: PfsAllocated(p0, j) <==> 0 <= j < 5
    requires BitsAdded(p0, p1, [5, 6, 7, 8]) && ExtentsOk(p1, e1, 4)
    ensures ExtentState(e1, 1) == EXTENT_FULL && ExtentState(e1, 2) != EXTENT_FULL
    ensures PfsAllocated(p1, 5) && PfsAllocated(p1, 6) && PfsAllocated(p1, 8)
  {
    hide PfsAllocated, ExtentState;
    assert EntryOk(p1, 4, 1, ExtentState(e1, 1)) && EntryOk(p1, 4, 2, ExtentState(e1, 2));
    var nine: nat := 9;
    assert nine / 4 == 2 && !PfsAllocated(p1, nine);
    assert ExtentAll(p1, 4, 1);
  }
}
