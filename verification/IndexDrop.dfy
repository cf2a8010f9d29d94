/** The edit of DROP INDEX on the pages of the file: the pages of the index's tree are freed, the schema stream is
    written over its chain, and the edit is flushed. */
module IndexDrop {
  import opened Bits
  import opened AllocationMaps
  import opened PageAllocation
  import opened PageChains

  /** The schema gives pages of its chain back, the tree has pages in a full extent, and none of the pages given back
      lies in another full extent: then the second release forgets that the first one changed the extent map. */
  ghost predicate LosesExtent(eam: seq<bv8>, per: nat, tree: seq<nat>, p: seq<nat>, n: nat)
  {
    && per > 0 && n < |p| && SomeFull(eam, Touched(tree, per))
    && !SomeFull(eam, Touched(p[n..], per) - Touched(tree, per))
  }

  /** In step with the file, and nothing to write. */
  ghost predicate Clean(m: Maps)
  {
    m.Synced() && !m.pfsDirty && !m.eamDirty
  }

  lemma AfterTree(a: Maps, m: Maps, tree: seq<nat>)
    requires GivenBack(a, m, tree) && Clean(a)
    ensures m.Synced() && m.diskEam == a.eam && m.per == a.per > 0
    ensures m.eam != a.eam <==> SomeFull(a.eam, Touched(tree, a.per))
  {
    hide PfsAllocated, ExtentState, Touched, Releasable, SomeFull;
    EntriesTell(a.eam, m.eam, Touched(tree, a.per));
  }

  /** Extents the first release touched are full no more, the others as before. */
  lemma StillFull(eam0: seq<bv8>, eam: seq<bv8>, tree: set<nat>, s: set<nat>)
    requires Downgraded(eam0, eam, tree)
    ensures SomeFull(eam, s) <==> SomeFull(eam0, s - tree)
  {
    hide ExtentState;
    if SomeFull(eam, s) {
      var e :| e in s && ExtentState(eam, e) == EXTENT_FULL;
      assert ExtentState(eam, e) == DowngradedState(ExtentState(eam0, e), e in tree);
      assert e in s - tree;
    }
    if SomeFull(eam0, s - tree) {
      var e :| e in s - tree && ExtentState(eam0, e) == EXTENT_FULL;
      assert ExtentState(eam, e) == DowngradedState(ExtentState(eam0, e), e in tree);
    }
  }

  lemma TreeGone(a: Maps, m: Maps, tree: seq<nat>)
    requires GivenBack(a, m, tree)
    ensures a.per > 0 && Downgraded(a.eam, m.eam, Touched(tree, a.per)) && BitsRemoved(a.pfs, m.pfs, tree)
    ensures Releasable(a.pfs, tree) && |m.diskPfs| == |a.diskPfs| && |m.diskEam| == |a.diskEam|
  {
    hide PfsAllocated, ExtentState, Touched, Releasable;
  }

  /** The buffers are in step after both releases unless the second forgot what the first changed. */
  lemma BothReleases(a: Maps, m: Maps, b: Maps, tree: seq<nat>, p: seq<nat>, n: nat)
    requires GivenBack(a, m, tree) && Clean(a) && n < |p| && GivenBack(m, b, p[n..])
    ensures b.Synced() <==> !LosesExtent(a.eam, a.per, tree, p, n)
    ensures LosesExtent(a.eam, a.per, tree, p, n) ==> !b.eamDirty && b.diskEam == a.eam
  {
    hide PfsAllocated, ExtentState, Touched, Releasable, SomeFull, Maps.Synced, Downgraded, BitsRemoved;
    AfterTree(a, m, tree);
    TreeGone(a, m, tree);
    StillFull(a.eam, m.eam, Touched(tree, a.per), Touched(p[n..], a.per));
    FreedKeeps(m, b, p[n..]);
    TreeGone(m, b, p[n..]);
    EntriesTell(m.eam, b.eam, Touched(p[n..], m.per));
  }

  /** What the flush leaves on file when the extent map is forgotten. */
  lemma Inconsistent(a: Maps, m: Maps, b: Maps, tree: seq<nat>, more: seq<nat>)
    requires GivenBack(a, m, tree) && GivenBack(m, b, more) && SomeFull(a.eam, Touched(tree, a.per))
    ensures !ExtentsOk(b.pfs, a.eam, a.per)
  {
    hide PfsAllocated, ExtentState, Releasable;
    TreeGone(a, m, tree);
    TreeGone(m, b, more);
    var e :| e in Touched(tree, a.per) && ExtentState(a.eam, e) == EXTENT_FULL;
    var i :| 0 <= i < |tree| && tree[i] / a.per == e;
    assert !PfsAllocated(m.pfs, tree[i]) && !PfsAllocated(b.pfs, tree[i]);
    assert !EntryOk(b.pfs, a.per, e, ExtentState(a.eam, e));
  }

  /** The pages freed are none of the schema's chain, and that is allocated and linked as before. */
  lemma ChainStays(pg: seq<PageBuf>, qg: seq<PageBuf>, f0: seq<bv8>, f1: seq<bv8>, tree: seq<nat>, first: nat,
                   p: seq<nat>)
    requires ChainFrom(pg, first, p) && Tombstoned(pg, qg, tree) && BitsRemoved(f0, f1, tree)
    requires forall i :: 0 <= i < |p| ==> p[i] !in tree && PfsAllocated(f0, p[i])
    ensures ChainFrom(qg, first, p) && forall i :: 0 <= i < |p| ==> PfsAllocated(f1, p[i])
  {
    hide PfsAllocated;
  }

  lemma InUseMeans(f: ChainFile, p: seq<nat>)
    ensures f.InUse(p) <==> forall i :: 0 <= i < |p| ==> PfsAllocated(f.maps.pfs[..], p[i])
  {
  }

  lemma SyncedMeans(m: Maps)
    requires m.Synced()
    ensures |m.diskPfs| == |m.pfs| && |m.diskEam| == |m.eam|
    ensures (!m.pfsDirty ==> m.diskPfs == m.pfs) && (!m.eamDirty ==> m.diskEam == m.eam)
  {
  }

  lemma ConsistentExtents(m: Maps)
    requires m.Valid()
    ensures m.per > 0 && ExtentsOk(m.pfs, m.eam, m.per) && |m.eam| == |m.pfs|
  {
  }

  /** The two releases, and what a flush behind them writes. */
  lemma ReleasedAndFlushed(a: Maps, m: Maps, b: Maps, tree: seq<nat>, p: seq<nat>, n: nat)
    requires GivenBack(a, m, tree) && Clean(a) && n < |p| && GivenBack(m, b, p[n..]) && b.Valid()
    ensures |b.diskPfs| == |b.pfs| && |b.diskEam| == |b.eam| && b.per > 0
    ensures ExtentsOk(if b.pfsDirty then b.pfs else b.diskPfs, if b.eamDirty then b.eam else b.diskEam, b.per)
      <==> !LosesExtent(a.eam, a.per, tree, p, n)
  {
    hide *;
    BothReleases(a, m, b, tree, p, n);
    ConsistentExtents(b);
    CleanSynced(a);
    AfterTree(a, m, tree);
    GivenParts(a, m, tree);
    GivenParts(m, b, p[n..]);
    if LosesExtent(a.eam, a.per, tree, p, n) {
      LosesMeans(a.eam, a.per, tree, p, n);
      Inconsistent(a, m, b, tree, p[n..]);
    } else {
      SyncedMeans(b);
    }
  }

  lemma CleanSynced(a: Maps)
    requires Clean(a)
    ensures a.Synced() && |a.diskPfs| == |a.pfs| && |a.diskEam| == |a.eam|
  {
  }

  lemma LosesMeans(eam: seq<bv8>, per: nat, tree: seq<nat>, p: seq<nat>, n: nat)
    requires LosesExtent(eam, per, tree, p, n)
    ensures per > 0 && n < |p| && SomeFull(eam, Touched(tree, per))
  {
    hide SomeFull, Touched;
  }

  lemma GivenParts(a: Maps, b: Maps, pages: seq<nat>)
    requires GivenBack(a, b, pages)
    ensures b.pfsDirty <==> pages != []
    ensures b.per == a.per && |b.pfs| == |a.pfs| && |b.eam| == |a.eam|
    ensures b.diskPfs == a.diskPfs && b.diskEam == a.diskEam
  {
    hide PfsAllocated, ExtentState, Touched, Releasable;
  }

  /** Without pages given back nothing is forgotten. */
  lemma StillInStep(eam: seq<bv8>, tree: seq<nat>, p: seq<nat>, n: nat, b: Maps)
    requires b.Synced() && b.Valid() && n >= |p|
    ensures |b.diskPfs| == |b.pfs| && |b.diskEam| == |b.eam| && !LosesExtent(eam, b.per, tree, p, n) && b.per > 0
    ensures ExtentsOk(if b.pfsDirty then b.pfs else b.diskPfs, if b.eamDirty then b.eam else b.diskEam, b.per)
  {
    hide ExtentsOk, SomeFull, Touched;
  }

  /** Carries out the edit and flushes it. Unless it fails, which it does without a flush, the two maps on file agree
      if and only if the edit loses no extent, by the state it began in. */
  method DropIndexPages(f: ChainFile, tree: seq<nat>, first: nat, data: seq<byte>, ghost p: seq<nat>)
    returns (ok: bool)
    requires f.Valid() && f.InUse(tree) && f.InUse(p) && ChainFrom(f.pages, first, p) && Clean(f.maps.Snapshot())
    requires (forall i :: 0 <= i < |tree| ==> tree[i] < |f.pages|)
    requires forall i, j :: 0 <= i < j < |tree| ==> tree[i] != tree[j]
    requires forall i :: 0 <= i < |p| ==> p[i] !in tree
    modifies f, f.maps, f.maps.pfs, f.maps.eam
    ensures !ok ==> |p| > 64 || (f.cap > 0 && PagesFor(|data|, f.cap) > |p|)
    ensures f.cap > 0 && f.maps.per > 0
    ensures ok ==>
      (ExtentsOk(f.maps.diskPfs, f.maps.diskEam, f.maps.per) <==>
        !LosesExtent(old(f.maps.eam[..]), f.maps.per, tree, p, PagesFor(|data|, f.cap)))
  {
    hide *;
    ghost var a, pg := f.maps.Snapshot(), f.pages;
    f.ValidParts();
    ghost var n := PagesFor(|data|, f.cap);
    SnapshotParts(f.maps);
    InUseMeans(f, p);
    f.FreeChainPages(tree);
    ghost var m := f.maps.Snapshot();
    f.ValidParts();
    SnapshotParts(f.maps);
    AfterTree(a, m, tree);
    ChainStays(pg, f.pages, a.pfs, m.pfs, tree, first, p);
    InUseMeans(f, p);
    ghost var q;
    ok, q := f.WriteInternalFilePages(first, data, p);
    f.ValidParts();
    SnapshotParts(f.maps);
    if ok {
      ghost var b := f.maps.Snapshot();
      f.maps.ValidParts();
      if n < |p| {
        ReleasedAndFlushed(a, m, b, tree, p, n);
      } else {
        StillInStep(a.eam, tree, p, n, b);
      }
      f.maps.Flush();
    }
  }

  // -- a file whose schema chain has a page to spare ------------------------------------------------------

  /** Ten pages of four to an extent; a chain leads from page 6 to page 8. */
  function SparePages(cap: nat): (pg: seq<PageBuf>)
    ensures |pg| == 10
  {
    seq(10, i => PageBuf(true, if i == 6 then 8 else -1, false, 0, 0, seq(cap, _ => 0)))
  }

  lemma SpareChain(cap: nat)
    ensures ChainFrom(SparePages(cap), 6, [6, 8]) && Padded(SparePages(cap), cap)
  {
  }

  lemma SpareLoses(eam: seq<bv8>, p: seq<nat>)
    requires ExtentState(eam, 1) == EXTENT_FULL && ExtentState(eam, 2) != EXTENT_FULL && p == [6, 8]
    ensures LosesExtent(eam, 4, [5], p, 1)
  {
    hide ExtentState;
    var five: seq<nat> := [5];
    assert five[0] / 4 == 1;
    assert 1 in Touched(five, 4);
    assert p[1..] == [8];
    forall e | e in Touched(p[1..], 4)
      ensures e == 2
    {
    }
  }

  lemma OneIsEnough(n: nat, cap: nat)
    requires cap > 0 && n <= cap
    ensures PagesFor(n, cap) == 1
  {
    PagesForBounds(n, cap);
  }

  /** A file whose schema stream fits one page on a chain of two, as no writer here leaves it: dropping an index whose
      root lies in a full extent leaves the file saying of that extent, where a page is free now, that it is full. */
  method LostExtentUpdate(payload: nat, cap: nat, data: seq<byte>) returns (f: ChainFile)
    requires payload >= 2 && |data| <= cap && cap > 0
    ensures f.maps.per == 4 && !ExtentsOk(f.maps.diskPfs, f.maps.diskEam, 4)
  {
    hide *;
    SmallMaps(payload);
    var d := new PageMaps(payload, 4);
    ghost var p0 := d.pfs[..];
    d.ValidParts();
    ghost var found, changed;
    var r;
    r, found, changed := d.AllocatePages(4);
    FreshGrowth(p0, found);
    FreshPages(p0, r.pages);
    Rewrite(d);
    d.ValidParts();
    SnapshotParts(d);
    FullAndPartial(p0, d.pfs[..], d.eam[..]);
    SpareChain(cap);
    f := new ChainFile(d, SparePages(cap), cap);
    InUseMeans(f, [5]);
    InUseMeans(f, [6, 8]);
    MakeClean(d.Snapshot());
    SpareLoses(d.eam[..], [6, 8]);
    OneIsEnough(|data|, cap);
    var ok := DropIndexPages(f, [5], 6, data, [6, 8]);
  }

  lemma MakeClean(m: Maps)
    requires m.Synced() && !m.pfsDirty && !m.eamDirty
    ensures Clean(m)
  {
  }
}
