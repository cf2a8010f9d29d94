/** Internal files: page chains that are followed, resized through the allocator, written and read. */
module PageChains {
  import opened Arith
  import opened Bits
  import opened Inflate
  import opened LittleEndian
  import opened AllocationMaps
  import opened PageAllocation

  /** A page as buffered: its chain link, the mark of a freed page, its type and owner, its bytes. */
  datatype PageBuf = PageBuf(header: bool, next: int, freed: bool, kind: nat, owner: int, payload: seq<byte>)

  /** Following the links from p[0] visits p, page by page, and ends there. */
  ghost predicate Chain(pg: seq<PageBuf>, p: seq<nat>)
  {
    && p != []
    && (forall i :: 0 <= i < |p| ==> p[i] < |pg| && pg[p[i]].header)
    && (forall i, j :: 0 <= i < j < |p| ==> p[i] != p[j])
    && (forall i :: 0 <= i < |p| - 1 ==> pg[p[i]].next == p[i + 1])
    && pg[p[|p| - 1]].next < 0
  }

  ghost predicate ChainFrom(pg: seq<PageBuf>, first: nat, p: seq<nat>)
  {
    Chain(pg, p) && p[0] == first
  }

  ghost predicate Extends(q: seq<nat>, p: seq<nat>)
  {
    |q| >= |p| && forall i :: 0 <= i < |p| ==> q[i] == p[i]
  }

  /** Two chains with one start are one chain. */
  lemma {:induction false} ChainAgrees(pg: seq<PageBuf>, p: seq<nat>, q: seq<nat>, k: nat)
    requires Chain(pg, p) && Chain(pg, q) && p[0] == q[0] && k < |p| && k < |q|
    ensures p[k] == q[k]
  {
    if k > 0 { ChainAgrees(pg, p, q, k - 1); }
  }

  lemma ChainSame(pg: seq<PageBuf>, p: seq<nat>, q: seq<nat>)
    requires Chain(pg, p) && Chain(pg, q) && p[0] == q[0]
    ensures p == q
  {
    if |p| <= |q| { ChainPrefix(pg, p, q); } else { ChainPrefix(pg, q, p); }
  }

  lemma ChainPrefix(pg: seq<PageBuf>, p: seq<nat>, q: seq<nat>)
    requires Chain(pg, p) && Chain(pg, q) && p[0] == q[0] && |p| <= |q|
    ensures p == q
  {
    forall k | 0 <= k < |p|
      ensures p[k] == q[k]
    {
      ChainAgrees(pg, p, q, k);
    }
    EndsThere(pg, p, q);
  }

  lemma EndsThere(pg: seq<PageBuf>, p: seq<nat>, q: seq<nat>)
    requires Chain(pg, p) && Chain(pg, q) && |p| <= |q| && p[|p| - 1] == q[|p| - 1]
    ensures |p| == |q|
  {
    if |p| < |q| { LinkedOn(pg, q, |p| - 1); }
  }

  lemma LinkedOn(pg: seq<PageBuf>, q: seq<nat>, i: nat)
    requires Chain(pg, q) && i < |q| - 1
    ensures q[i] < |pg| && pg[q[i]].next >= 0
  {
    assert pg[q[i]].next == q[i + 1];
  }

  /** The bytes of the pages, one after the other. */
  function Content(pg: seq<PageBuf>, p: seq<nat>): seq<byte>
    requires forall i :: 0 <= i < |p| ==> p[i] < |pg|
  {
    if p == [] then [] else Content(pg, p[..|p| - 1]) + pg[p[|p| - 1]].payload
  }

  lemma {:induction false} ContentSize(pg: seq<PageBuf>, p: seq<nat>, cap: nat)
    requires forall i :: 0 <= i < |p| ==> p[i] < |pg| && |pg[p[i]].payload| == cap
    ensures |Content(pg, p)| == |p| * cap
  {
    if p != [] {
      ContentSize(pg, p[..|p| - 1], cap);
      MulDist(|p| - 1, 1, cap);
    }
  }

  lemma {:induction false} ContentSame(a: seq<PageBuf>, b: seq<PageBuf>, p: seq<nat>)
    requires forall i :: 0 <= i < |p| ==> p[i] < |a| && p[i] < |b| && a[p[i]].payload == b[p[i]].payload
    ensures Content(a, p) == Content(b, p)
  {
    if p != [] { ContentSame(a, b, p[..|p| - 1]); }
  }

  lemma ContentMore(pg: seq<PageBuf>, p: seq<nat>, i: nat)
    requires i < |p| && forall k :: 0 <= k < |p| ==> p[k] < |pg|
    ensures Content(pg, p[..i + 1]) == Content(pg, p[..i]) + pg[p[i]].payload
  {
    assert p[..i + 1][..i] == p[..i];
  }

  /** The size an internal file's own header gives it. */
  function FileSize(b: seq<byte>): nat
    requires |b| >= 5
  {
    b[0] as int + ReadLe32(b, 1)
  }

  /** The pages needed for n bytes. */
  function PagesFor(n: nat, cap: nat): nat
    requires cap > 0
  {
    var k := (n + cap - 1) / cap;
    if k >= 1 then k else 1
  }

  lemma PagesForBounds(n: nat, cap: nat)
    requires cap > 0
    ensures var k := PagesFor(n, cap); k >= 1 && n <= k * cap && (k - 1) * cap <= n && (k > 1 ==> (k - 1) * cap < n)
  {
    var q, r := (n + cap - 1) / cap, (n + cap - 1) % cap;
    assert n + cap - 1 == cap * q + r;
    MulDist(q, -1, cap);
  }

  class ChainFile {
    const maps: PageMaps
    const cap: nat
    var pages: seq<PageBuf>

    /** All pages of the file are buffered, each with its full payload; the chains in use are
        allocated. */
    ghost predicate Valid()
      reads this, maps, maps.pfs, maps.eam
    {
      maps.Valid() && |pages| == maps.pageCount && cap > 0 && Padded(pages, cap)
    }

    /** Every page of p is allocated. */
    ghost predicate InUse(p: seq<nat>)
      reads maps.pfs
    {
      forall i :: 0 <= i < |p| ==> PfsAllocated(maps.pfs[..], p[i])
    }

    constructor (maps: PageMaps, pages: seq<PageBuf>, cap: nat)
      requires maps.Valid() && |pages| == maps.pageCount && cap > 0
      requires Padded(pages, cap)
      ensures Valid() && this.maps == maps && this.pages == pages && this.cap == cap
    {
      this.maps, this.pages, this.cap := maps, pages, cap;
    }

    /** The chain that starts at a page, through the pages as buffered. */
    method InternalFilePageChain(first: nat) returns (r: Option<seq<nat>>)
      ensures r.Some? ==> ChainFrom(pages, first, r.value) && |r.value| <= 64
      ensures forall q :: ChainFrom(pages, first, q) && |q| <= 64 ==> r == Some(q)
    {
      r := FollowChain(pages, first);
    }

    lemma ValidParts()
      requires Valid()
      ensures maps.Valid() && |pages| == maps.pageCount && cap > 0
      ensures Padded(pages, cap)
    {
    }

    lemma MakeValid()
      requires maps.Valid() && |pages| == maps.pageCount && cap > 0 && Padded(pages, cap)
      ensures Valid()
    {
    }

    /** There is no page to be had: at no count the maps can describe is one free. */
    ghost predicate MapsFull()
      reads maps, maps.pfs
    {
      NeverEnough(maps.pfs[..], maps.pageCount, MappablePages(maps.pfs.Length, maps.per), maps.per, 1)
    }

    lemma MapsFullIs()
      ensures MapsFull() <==>
        NeverEnough(maps.pfs[..], maps.pageCount, MappablePages(maps.pfs.Length, maps.per), maps.per, 1)
    {
      hide NeverEnough;
    }

    /** Allocates the lowest free page, in a file grown by as few extents as it takes, and stamps its header; what its
        payload held stays. */
    method AllocatePage(kind: nat, owner: int) returns (r: Option<nat>)
      requires Valid()
      modifies this`pages, maps, maps.pfs, maps.eam
      ensures Valid()
      ensures r.None? <==> old(MapsFull())
      ensures r.None? ==> pages == old(pages) && maps.pfs[..] == old(maps.pfs[..]) && MapsFull()
      ensures r.Some? ==>
        && LowestFree(old(maps.pfs[..]), |pages|, 1, [r.value])
        && Fewest(old(maps.pfs[..]), old(|pages|), |pages|, maps.per, 1)
      ensures r.Some? ==> Stamped(old(pages), pages, r.value, kind, owner)
      ensures r.Some? ==>
        !PfsAllocated(old(maps.pfs[..]), r.value) && BitsAdded(old(maps.pfs[..]), maps.pfs[..], [r.value])
      ensures old(maps.Synced()) ==> maps.Synced()
    {
      hide *;
      ValidParts();
      ghost var p0, pg0 := maps.pfs[..], pages;
      MapsFullIs();
      ghost var found, changed;
      var res;
      res, found, changed := maps.AllocatePages(1);
      if !res.Pages? {
        maps.ValidParts();
        MapsFullIs();
        MakeValid();
        return None;
      }
      var x := res.pages[0];
      OnePage(p0, maps.pageCount, res.pages);
      maps.ValidParts();
      CountGrows(old(maps.pageCount), 1 - |found|, maps.per, found, p0);
      var blank := PageBuf(false, 0, false, 0, 0, seq(cap, _ => 0));
      var blanks := seq(maps.pageCount - |pages|, _ => blank);
      pages := pages + blanks;
      pages := pages[x := pages[x].(header := true, next := -1, freed := false, kind := kind, owner := owner)];
      StampedPages(pg0, blanks, cap, pages, x, kind, owner);
      MakeValid();
      r := Some(x);
    }

    /** Sets a page's link. */
    method LinkChain(no: nat, next: int)
      requires Valid() && no < |pages|
      modifies this`pages
      ensures Valid() && pages == old(pages)[no := old(pages)[no].(next := next)]
    {
      pages := pages[no := pages[no].(next := next)];
    }

    /** Marks pages as freed; their type, owner and bytes stay. */
    method Tombstone(p: seq<nat>)
      requires forall i :: 0 <= i < |p| ==> p[i] < |pages|
      modifies this`pages
      ensures Tombstoned(old(pages), pages, p)
    {
      ghost var pg0 := pages;
      var k := 0;
      while k < |p|
        modifies this`pages
        invariant k <= |p| && Tombstoned(pg0, pages, p[..k])
      {
        TombstoneMore(pg0, pages, p, k);
        pages := pages[p[k] := pages[p[k]].(freed := true)];
        k := k + 1;
      }
      assert p[..k] == p;
    }

    /** Marks pages as freed and gives them back to the maps. */
    method FreeChainPages(p: seq<nat>)
      requires Valid() && InUse(p) && (forall i :: 0 <= i < |p| ==> p[i] < |pages|)
      requires forall i, j :: 0 <= i < j < |p| ==> p[i] != p[j]
      modifies this`pages, maps, maps.pfs, maps.eam
      ensures Valid() && BitsRemoved(old(maps.pfs[..]), maps.pfs[..], p)
      ensures Tombstoned(old(pages), pages, p) && GivenBack(old(maps.Snapshot()), maps.Snapshot(), p)
    {
      hide *;
      ValidParts();
      InUseParts(p);
      MakeReleasable(maps.pfs[..], p);
      ghost var pg0, m0 := pages, maps.Snapshot();
      SnapshotParts(maps);
      Tombstone(p);
      TombstonedParts(pg0, pages, p, cap);
      ghost var changed;
      var r;
      r, changed := maps.FreePages(p);
      SnapshotParts(maps);
      maps.ValidParts();
      WasFreed(m0, maps.Snapshot(), p, changed);
      MakeGivenBack(m0, maps.Snapshot(), p);
      MakeValid();
    }

    /** Brings a chain to n pages: the lowest free pages are linked to its end, or its last pages are
        freed. It fails only when the maps cannot describe a file long enough. */
    method ResizeChain(p0: seq<nat>, n: nat, kind: nat, owner: int) returns (r: Option<seq<nat>>)
      requires Valid() && Chain(pages, p0) && InUse(p0) && n >= 1
      modifies this`pages, maps, maps.pfs, maps.eam
      ensures Valid() && (r.None? ==> n > |p0| && MapsFull())
      ensures r.Some? ==> Resized(old(pages), old(maps.pfs[..]), p0, pages, maps.pfs[..], r.value, n, kind, owner)
      ensures n >= |p0| && old(maps.Synced()) ==> maps.Synced()
      ensures n < |p0| ==> GivenBack(old(maps.Snapshot()), maps.Snapshot(), p0[n..])
    {
      hide *;
      ghost var a, fa, m0 := pages, maps.pfs[..], maps.Snapshot();
      var p := p0;
      InUseParts(p0);
      GrownStart(a, fa, p0, kind, owner);
      while |p| < n
        invariant Valid() && GrownTo(a, fa, p0, pages, maps.pfs[..], p, kind, owner)
        invariant |p| > |p0| ==> |p| <= n
        invariant old(maps.Synced()) ==> maps.Synced()
        invariant p == p0 ==> maps.Snapshot() == m0
        invariant n <= |p0| ==> p == p0
        decreases n - |p|
      {
        ghost var b, fb := pages, maps.pfs[..];
        var added := AllocatePage(kind, owner);
        if added.None? {
          GrownParts(a, fa, p0, pages, fb, p, kind, owner);
          return None;
        }
        GrowStep(a, fa, p0, b, fb, p, pages, maps.pfs[..], added.value, kind, owner);
        LinkChain(p[|p| - 1], added.value);
        p := p + [added.value];
      }
      GrownParts(a, fa, p0, pages, maps.pfs[..], p, kind, owner);
      if |p| > n {
        ghost var b, fb := pages, maps.pfs[..];
        var freed := p[n..];
        SurplusReady(a, b, fb, p, n);
        p := p[..n];
        LinkChain(p[|p| - 1], -1);
        MakeInUse(freed, fb);
        FreeChainPages(freed);
        Shrunk(a, fa, p0, b, fb, n, pages, maps.pfs[..], kind, owner);
      } else {
        GrownResized(a, fa, p0, pages, maps.pfs[..], p, n, kind, owner);
      }
      r := Some(p);
    }

    lemma InUseParts(p: seq<nat>)
      requires InUse(p)
      ensures forall i :: 0 <= i < |p| ==> PfsAllocated(maps.pfs[..], p[i])
    {
    }

    lemma MakeInUse(p: seq<nat>, f: seq<bv8>)
      requires f == maps.pfs[..] && forall i :: 0 <= i < |p| ==> PfsAllocated(f, p[i])
      ensures InUse(p)
    {
    }

    /** Writes data over the chain that starts at first, resizing it as needed. p is that chain. */
    method WriteInternalFilePages(first: nat, data: seq<byte>, ghost p: seq<nat>) returns (ok: bool, ghost q: seq<nat>)
      requires Valid() && ChainFrom(pages, first, p) && InUse(p)
      modifies this`pages, maps, maps.pfs, maps.eam
      ensures Valid()
      ensures |p| > 64 ==> !ok
      ensures !ok ==> |p| > 64 || (PagesFor(|data|, cap) > |p| && MapsFull())
      ensures ok ==> Rewritten(old(pages), old(maps.pfs[..]), p, pages, maps.pfs[..], q, PagesFor(|data|, cap))
      ensures ok ==> Carries(pages, q, data)
      ensures PagesFor(|data|, cap) >= |p| && old(maps.Synced()) ==> maps.Synced()
      ensures ok && PagesFor(|data|, cap) < |p| ==>
        GivenBack(old(maps.Snapshot()), maps.Snapshot(), p[PagesFor(|data|, cap)..])
    {
      hide *;
      ValidParts();
      q := p;
      ChainParts(pages, first, p);
      var kind, owner := pages[first].kind, pages[first].owner;
      var found := InternalFilePageChain(first);
      if found.None? { return false, q; }
      ChainParts(pages, first, found.value);
      ChainSame(pages, p, found.value);
      var need := (|data| + cap - 1) / cap;
      if need < 1 { need := 1; }
      PagesForIs(|data|, cap, need);
      ghost var a, fa := pages, maps.pfs[..];
      var resized := ResizeChain(found.value, need, kind, owner);
      if resized.None? { return false, q; }
      var chain := resized.value;
      q := chain;
      ResizedParts(a, fa, p, pages, maps.pfs[..], q, need, kind, owner);
      ghost var b := pages;
      CopyIn(chain, data);
      CopiedRewritten(a, fa, p, b, maps.pfs[..], q, need, kind, owner, pages);
      ok := true;
    }

    /** Spreads the data over the pages of the chain. */
    method CopyIn(chain: seq<nat>, data: seq<byte>)
      requires Valid() && Chain(pages, chain) && |data| <= |chain| * cap && (|chain| - 1) * cap <= |data|
      modifies this`pages
      ensures Valid() && PayloadsOnly(old(pages), pages, chain) && Carries(pages, chain, data)
    {
      hide *;
      ValidParts();
      var off, i := 0, 0;
      ghost var b := pages;
      CopyStart(b, chain, data);
      while i < |chain|
        invariant i <= |chain| && off == (if i * cap <= |data| then i * cap else |data|)
        invariant PayloadsOnly(b, pages, chain) && Padded(pages, cap) && CarriesSoFar(pages, chain, i, data, off)
      {
        var no := chain[i];
        CopyBounds(b, pages, chain, i, cap, |data|);
        var n := if cap <= |data| - off then cap else |data| - off;
        CopyStep(b, pages, chain, i, data, off, n, cap);
        pages := pages[no := pages[no].(payload := data[off..off + n] + pages[no].payload[n..])];
        off := off + n;
        i := i + 1;
      }
      CopyEnd(pages, chain, data, off);
      PayloadsOnlySize(b, pages, chain);
      MakeValid();
    }

    /** Reads an internal file: pages are followed while the file's own size says bytes are missing. */
    method ReadInternalFilePages(first: nat) returns (r: Option<seq<byte>>)
      requires Valid()
      ensures forall q, data :: Stored(pages, first, q, data, cap) ==>
        (r.Some? <==> |q| <= 64) && (r.Some? ==> |data| <= |r.value| && r.value[..|data|] == data)
    {
      hide *;
      ValidParts();
      if first >= |pages| {
        NotThere(pages, first, cap);
        return None;
      }
      var out := pages[first].payload;
      PayloadSize(pages, first, cap);
      if |out| < 10 {
        TooSmall(pages, first, cap);
        return None;
      }
      var want := FileSize(out);
      var visited: set<nat> := {first};
      var next := NextOf(pages[first]);
      ghost var p: seq<nat> := [first];
      StartReading(pages, first, cap);
      while |out| < want && next >= 0
        invariant Reading(pages, p, visited, first, next, out, cap)
        decreases 64 - |p|
      {
        ReadingParts(pages, p, visited, first, next, out, cap);
        if next in visited || |visited| >= 64 || next >= |pages| {
          ReadFails(pages, p, visited, first, next, out, cap, want);
          return None;
        }
        ReadStep(pages, p, visited, first, next, out, cap);
        p := p + [next];
        visited := visited + {next};
        out := out + pages[next].payload;
        next := NextOf(pages[next]);
      }
      ReadEnds(pages, p, visited, first, next, out, cap, want);
      r := Some(out);
    }
  }

  /** Follows a chain, on any graph of links. It finds the chain there is, unless that is longer than
      64 pages, and refuses links that loop or leave the file. */
  method FollowChain(pages: seq<PageBuf>, first: nat) returns (r: Option<seq<nat>>)
    ensures r.Some? ==> ChainFrom(pages, first, r.value) && |r.value| <= 64
    ensures forall q :: ChainFrom(pages, first, q) && |q| <= 64 ==> r == Some(q)
  {
    hide *;
    var p: seq<nat> := [first];
    var visited: set<nat> := {first};
    StartWalk(pages, first);
    while true
      invariant Walk(pages, p, visited, first)
      decreases 64 - |p|
    {
      WalkParts(pages, p, visited, first);
      var last := p[|p| - 1];
      if last >= |pages| || !pages[last].header {
        NoChain(pages, p, visited, first);
        return None;
      }
      var next := pages[last].next;
      if next < 0 {
        Whole(pages, p, visited, first);
        return Some(p);
      }
      if next in visited {
        Looped(pages, p, visited, first);
        return None;
      }
      if |p| >= 64 {
        TooLong(pages, p, visited, first);
        return None;
      }
      StepWalk(pages, p, visited, first);
      p := p + [next];
      visited := visited + {next};
    }
  }

  /** How far a walk has come: p is linked up and has no page twice, and every chain from first
      starts with it. */
  ghost predicate Walk(pg: seq<PageBuf>, p: seq<nat>, visited: set<nat>, first: nat)
  {
    && p != [] && p[0] == first && |p| <= 64
    && (forall x :: x in visited <==> x in p)
    && (forall i :: 0 <= i < |p| - 1 ==> p[i] < |pg| && pg[p[i]].header)
    && (forall i :: 0 <= i < |p| - 1 ==> p[i] < |pg| && pg[p[i]].next == p[i + 1])
    && (forall i, j :: 0 <= i < j < |p| ==> p[i] != p[j])
    && (forall q :: ChainFrom(pg, first, q) ==> Extends(q, p))
  }

  lemma StartWalk(pg: seq<PageBuf>, first: nat)
    ensures Walk(pg, [first], {first}, first)
  {
    hide ChainFrom;
    forall q | ChainFrom(pg, first, q)
      ensures Extends(q, [first])
    {
      NotEmpty(pg, first, q);
    }
  }

  lemma NotEmpty(pg: seq<PageBuf>, first: nat, q: seq<nat>)
    requires ChainFrom(pg, first, q)
    ensures q != [] && q[0] == first
  {
  }

  lemma WalkParts(pg: seq<PageBuf>, p: seq<nat>, visited: set<nat>, first: nat)
    requires Walk(pg, p, visited, first)
    ensures p != [] && |p| <= 64
  {
  }

  lemma LastInside(pg: seq<PageBuf>, p: seq<nat>, q: seq<nat>)
    requires Chain(pg, q) && Extends(q, p) && p != []
    ensures p[|p| - 1] < |pg| && pg[p[|p| - 1]].header
    ensures pg[p[|p| - 1]].next >= 0 ==> |q| > |p| && q[|p|] == pg[p[|p| - 1]].next
    ensures pg[p[|p| - 1]].next >= 0 ==> forall i :: 0 <= i < |p| ==> p[i] != pg[p[|p| - 1]].next
  {
    assert q[|p| - 1] == p[|p| - 1];
  }

  lemma NoChain(pg: seq<PageBuf>, p: seq<nat>, visited: set<nat>, first: nat)
    requires Walk(pg, p, visited, first)
    requires var last := p[|p| - 1]; last >= |pg| || !pg[last].header
    ensures forall q :: !ChainFrom(pg, first, q)
  {
    hide Chain, Extends;
    forall q
      ensures !ChainFrom(pg, first, q)
    {
      if ChainFrom(pg, first, q) { LastInside(pg, p, q); }
    }
  }

  lemma Whole(pg: seq<PageBuf>, p: seq<nat>, visited: set<nat>, first: nat)
    requires Walk(pg, p, visited, first)
    requires var last := p[|p| - 1]; last < |pg| && pg[last].header && pg[last].next < 0
    ensures ChainFrom(pg, first, p) && |p| <= 64
    ensures forall q :: ChainFrom(pg, first, q) ==> q == p
  {
    assert Chain(pg, p);
    hide Chain, Extends;
    forall q | ChainFrom(pg, first, q)
      ensures q == p
    {
      ChainSame(pg, p, q);
    }
  }

  lemma Looped(pg: seq<PageBuf>, p: seq<nat>, visited: set<nat>, first: nat)
    requires Walk(pg, p, visited, first)
    requires var last := p[|p| - 1]; last < |pg| && pg[last].next >= 0 && pg[last].next in visited
    ensures forall q :: !ChainFrom(pg, first, q)
  {
    hide Chain, Extends;
    forall q
      ensures !ChainFrom(pg, first, q)
    {
      if ChainFrom(pg, first, q) { LastInside(pg, p, q); }
    }
  }

  lemma TooLong(pg: seq<PageBuf>, p: seq<nat>, visited: set<nat>, first: nat)
    requires Walk(pg, p, visited, first) && |p| >= 64
    requires var last := p[|p| - 1]; last < |pg| && pg[last].next >= 0
    ensures forall q :: ChainFrom(pg, first, q) ==> |q| > 64
  {
    hide Chain, Extends;
    forall q | ChainFrom(pg, first, q)
      ensures |q| > 64
    {
      LastInside(pg, p, q);
    }
  }

  lemma StepWalk(pg: seq<PageBuf>, p: seq<nat>, visited: set<nat>, first: nat)
    requires Walk(pg, p, visited, first) && |p| < 64
    requires var last := p[|p| - 1]; last < |pg| && pg[last].header && pg[last].next >= 0 && pg[last].next !in visited
    ensures var next := pg[p[|p| - 1]].next; Walk(pg, p + [next], visited + {next}, first)
  {
    hide Chain;
    var next := pg[p[|p| - 1]].next;
    forall q | ChainFrom(pg, first, q)
      ensures Extends(q, p + [next])
    {
      LastInside(pg, p, q);
    }
  }

  /** The pages as a reader follows them: one without a header ends its chain. */
  function ReadView(pg: seq<PageBuf>): (r: seq<PageBuf>)
    ensures |r| == |pg| && forall i :: 0 <= i < |pg| ==> r[i] == pg[i].(header := true, next := NextOf(pg[i]))
  {
    seq(|pg|, i requires 0 <= i < |pg| => pg[i].(header := true, next := NextOf(pg[i])))
  }

  // -- changing chains ---------------------------------------------------------------------------------

  ghost predicate Padded(pg: seq<PageBuf>, cap: nat)
  {
    forall no :: 0 <= no < |pg| ==> |pg[no].payload| == cap
  }

  /** Page x got a fresh header; the file may have become longer. */
  ghost predicate Stamped(a: seq<PageBuf>, b: seq<PageBuf>, x: nat, kind: nat, owner: int)
  {
    && |a| <= |b| && x < |b|
    && (forall no: nat :: no < |a| && no != x ==> b[no] == a[no])
    && b[x] == PageBuf(true, -1, false, kind, owner, b[x].payload)
    && (x < |a| ==> b[x].payload == a[x].payload)
  }

  /** The pages p are marked as freed, and nothing else is different. */
  ghost predicate Tombstoned(a: seq<PageBuf>, b: seq<PageBuf>, p: seq<nat>)
  {
    && |a| == |b|
    && forall no: nat :: no < |a| ==> b[no] == if no in p then a[no].(freed := true) else a[no]
  }

  lemma OnePage(pfs: seq<bv8>, count: nat, pages: seq<nat>)
    requires LowestFree(pfs, count, 1, pages) && |pages| == 1
    ensures pages == [pages[0]] && pages[0] < count && !PfsAllocated(pfs, pages[0])
  {
    hide PfsAllocated;
  }

  lemma CountGrows(count: nat, missing: int, per: nat, found: seq<nat>, pfs: seq<bv8>)
    requires per > 0 && LowestFree(pfs, count, 1, found) && missing == 1 - |found|
    ensures missing >= 0 && GrownCount(count, missing, per) >= count
  {
    hide PfsAllocated;
    GrowsEnough(count, missing, per);
  }

  lemma StampedPages(a: seq<PageBuf>, blanks: seq<PageBuf>, cap: nat, b: seq<PageBuf>, x: nat, kind: nat, owner: int)
    requires Padded(a, cap) && Padded(blanks, cap) && x < |a + blanks|
    requires b == (a + blanks)[x := (a + blanks)[x].(header := true, next := -1, freed := false, kind := kind,
        owner := owner)]
    ensures Stamped(a, b, x, kind, owner) && Padded(b, cap)
  {
  }

  lemma TombstonedParts(a: seq<PageBuf>, b: seq<PageBuf>, p: seq<nat>, cap: nat)
    requires Tombstoned(a, b, p) && Padded(a, cap)
    ensures |b| == |a| && Padded(b, cap)
  {
  }

  lemma MakeReleasable(pfs: seq<bv8>, p: seq<nat>)
    requires forall i :: 0 <= i < |p| ==> PfsAllocated(pfs, p[i])
    requires forall i, j :: 0 <= i < j < |p| ==> p[i] != p[j]
    ensures Releasable(pfs, p)
  {
  }

  lemma TombstoneMore(a: seq<PageBuf>, b: seq<PageBuf>, p: seq<nat>, k: nat)
    requires k < |p| && p[k] < |a| && Tombstoned(a, b, p[..k])
    ensures |b| == |a| && Tombstoned(a, b[p[k] := b[p[k]].(freed := true)], p[..k + 1])
  {
    assert p[..k + 1] == p[..k] + [p[k]];
  }

  /** A chain grown so far: p continues p0 with pages that were free, and no other page is different. */
  ghost predicate GrownTo(a: seq<PageBuf>, fa: seq<bv8>, p0: seq<nat>, b: seq<PageBuf>, fb: seq<bv8>, p: seq<nat>,
                          kind: nat, owner: int)
  {
    && Chain(b, p) && Extends(p, p0) && p0 != [] && |a| <= |b|
    && (|p| == |p0| ==> b == a)
    && (forall i :: 0 <= i < |p| ==> PfsAllocated(fb, p[i]))
    && (forall j: int :: PfsAllocated(fb, j) <==> j in p || PfsAllocated(fa, j))
    && (forall i :: 0 <= i < |p0| ==>
      p0[i] < |a| && PfsAllocated(fa, p0[i]) && b[p0[i]] == a[p0[i]].(next := b[p0[i]].next))
    && (forall i :: |p0| <= i < |p| ==>
          !PfsAllocated(fa, p[i]) && b[p[i]].kind == kind && b[p[i]].owner == owner && !b[p[i]].freed)
    && (forall no: nat :: no < |a| && no !in p ==> b[no] == a[no])
  }

  /** A chain of exactly n pages: it shares what it can with p0; pages it gained were free, pages it
      lost are freed, and every other page is as it was. */
  ghost predicate Resized(a: seq<PageBuf>, fa: seq<bv8>, p0: seq<nat>, b: seq<PageBuf>, fb: seq<bv8>, q: seq<nat>,
                          n: nat, kind: nat, owner: int)
  {
    && |q| == n >= 1 && p0 != [] && ChainFrom(b, p0[0], q) && |a| <= |b|
    && (forall i :: 0 <= i < |q| && i < |p0| ==> q[i] == p0[i])
    && (forall i :: 0 <= i < |q| ==> PfsAllocated(fb, q[i]))
    && (forall j: int :: PfsAllocated(fb, j) <==> j in q || (PfsAllocated(fa, j) && j !in p0))
    && (forall i :: 0 <= i < |p0| ==> p0[i] < |a|)
    && (forall i :: 0 <= i < |p0| && i < n ==> b[p0[i]] == a[p0[i]].(next := b[p0[i]].next))
    && (forall i :: n <= i < |p0| ==> b[p0[i]] == a[p0[i]].(freed := true))
    && (forall i :: |p0| <= i < n ==>
          !PfsAllocated(fa, q[i]) && b[q[i]].kind == kind && b[q[i]].owner == owner && !b[q[i]].freed)
    && (forall no: nat :: no < |a| && no !in p0 && no !in q ==> b[no] == a[no])
  }

  lemma GrownStart(a: seq<PageBuf>, fa: seq<bv8>, p0: seq<nat>, kind: nat, owner: int)
    requires Chain(a, p0) && forall i :: 0 <= i < |p0| ==> PfsAllocated(fa, p0[i])
    ensures GrownTo(a, fa, p0, a, fa, p0, kind, owner)
  {
    hide PfsAllocated;
  }

  lemma GrownParts(a: seq<PageBuf>, fa: seq<bv8>, p0: seq<nat>, b: seq<PageBuf>, fb: seq<bv8>, p: seq<nat>,
                   kind: nat, owner: int)
    requires GrownTo(a, fa, p0, b, fb, p, kind, owner)
    ensures p != [] && |p| >= |p0| && (|p| == |p0| ==> p == p0)
    ensures Chain(b, p) && forall i :: 0 <= i < |p| ==> PfsAllocated(fb, p[i])
  {
    hide PfsAllocated;
  }

  lemma GrowStep(a: seq<PageBuf>, fa: seq<bv8>, p0: seq<nat>, b: seq<PageBuf>, fb: seq<bv8>, p: seq<nat>,
                 c: seq<PageBuf>, fc: seq<bv8>, x: nat, kind: nat, owner: int)
    requires GrownTo(a, fa, p0, b, fb, p, kind, owner) && Stamped(b, c, x, kind, owner)
    requires !PfsAllocated(fb, x) && BitsAdded(fb, fc, [x])
    ensures p != [] && p[|p| - 1] < |c|
    ensures GrownTo(a, fa, p0, c[p[|p| - 1] := c[p[|p| - 1]].(next := x)], fc, p + [x], kind, owner)
  {
    hide PfsAllocated, Chain;
    assert x !in p;
    ChainMore(b, p, c, x, kind, owner);
    var last, q := p[|p| - 1], p + [x];
    var d := c[last := c[last].(next := x)];
    assert forall i :: 0 <= i < |q| ==> q[i] == if i < |p| then p[i] else x;
    forall i | 0 <= i < |p|
      ensures d[p[i]] == b[p[i]].(next := d[p[i]].next)
    {
    }
  }

  /** A page that is not on the chain can be linked to its end. */
  lemma ChainMore(b: seq<PageBuf>, p: seq<nat>, c: seq<PageBuf>, x: nat, kind: nat, owner: int)
    requires Chain(b, p) && Stamped(b, c, x, kind, owner) && x !in p
    ensures p != [] && p[|p| - 1] < |c| && Chain(c[p[|p| - 1] := c[p[|p| - 1]].(next := x)], p + [x])
    ensures forall i :: 0 <= i < |p| ==> p[i] < |b|
  {
    var last := p[|p| - 1];
    assert last != x && c[last] == b[last];
  }

  /** What giving pages back makes of the maps. */
  ghost predicate GivenBack(a: Maps, b: Maps, pages: seq<nat>)
  {
    a.per > 0 && Freed(a, b, pages)
  }

  lemma MakeGivenBack(a: Maps, b: Maps, pages: seq<nat>)
    requires a.per > 0 && Freed(a, b, pages)
    ensures GivenBack(a, b, pages)
  {
    hide Freed;
  }

  lemma SurplusReady(a: seq<PageBuf>, b: seq<PageBuf>, fb: seq<bv8>, p: seq<nat>, n: nat)
    requires Chain(b, p) && 1 <= n < |p| && forall i :: 0 <= i < |p| ==> PfsAllocated(fb, p[i])
    ensures p[n - 1] < |b|
    ensures forall i :: 0 <= i < |p[n..]| ==> p[n..][i] < |b| && PfsAllocated(fb, p[n..][i])
    ensures forall i, j :: 0 <= i < j < |p[n..]| ==> p[n..][i] != p[n..][j]
  {
    hide PfsAllocated;
  }

  lemma Shrunk(a: seq<PageBuf>, fa: seq<bv8>, p0: seq<nat>, b: seq<PageBuf>, fb: seq<bv8>, n: nat,
               c: seq<PageBuf>, fc: seq<bv8>, kind: nat, owner: int)
    requires GrownTo(a, fa, p0, b, fb, p0, kind, owner) && 1 <= n < |p0| && p0[n - 1] < |b|
    requires Tombstoned(b[p0[n - 1] := b[p0[n - 1]].(next := -1)], c, p0[n..]) && BitsRemoved(fb, fc, p0[n..])
    ensures Resized(a, fa, p0, c, fc, p0[..n], n, kind, owner)
  {
    hide PfsAllocated;
    var q, s := p0[..n], p0[n..];
    forall i | 0 <= i < |p0|
      ensures p0[i] in s <==> i >= n
    {
      if i >= n { assert s[i - n] == p0[i]; }
    }
    forall i | 0 <= i < n
      ensures q[i] == p0[i] && c[q[i]] == if i == n - 1 then b[q[i]].(next := -1) else b[q[i]]
    {
    }
  }

  lemma GrownResized(a: seq<PageBuf>, fa: seq<bv8>, p0: seq<nat>, b: seq<PageBuf>, fb: seq<bv8>, p: seq<nat>, n: nat,
                     kind: nat, owner: int)
    requires GrownTo(a, fa, p0, b, fb, p, kind, owner) && |p| == n
    ensures Resized(a, fa, p0, b, fb, p, n, kind, owner)
  {
    hide PfsAllocated;
    forall j | j in p0
      ensures j in p
    {
      var i :| 0 <= i < |p0| && p0[i] == j;
      assert p[i] == j;
    }
  }

  // -- writing and reading -----------------------------------------------------------------------------

  /** The data is what the pages' bytes begin with. */
  ghost predicate Carries(pg: seq<PageBuf>, q: seq<nat>, data: seq<byte>)
  {
    && (forall i :: 0 <= i < |q| ==> q[i] < |pg|)
    && |data| <= |Content(pg, q)| && Content(pg, q)[..|data|] == data
  }

  /** Only payloads of these pages differ. */
  ghost predicate PayloadsOnly(a: seq<PageBuf>, b: seq<PageBuf>, chain: seq<nat>)
  {
    && |a| == |b|
    && forall no: nat :: no < |a| ==> b[no] == if no in chain then a[no].(payload := b[no].payload) else a[no]
  }

  /** As Resized, but the bytes of the new chain are free to differ. */
  ghost predicate Rewritten(a: seq<PageBuf>, fa: seq<bv8>, p: seq<nat>, b: seq<PageBuf>, fb: seq<bv8>, q: seq<nat>,
      n: nat)
  {
    && |q| == n >= 1 && p != [] && ChainFrom(b, p[0], q) && |a| <= |b|
    && (forall i :: 0 <= i < |q| && i < |p| ==> q[i] == p[i])
    && (forall j: int :: PfsAllocated(fb, j) <==> j in q || (PfsAllocated(fa, j) && j !in p))
    && (forall i :: |p| <= i < n ==> !PfsAllocated(fa, q[i]))
    && (forall i :: 0 <= i < |p| ==> p[i] < |a|)
    && (forall i :: n <= i < |p| ==> b[p[i]] == a[p[i]].(freed := true))
    && (forall no: nat :: no < |a| && no !in p && no !in q ==> b[no] == a[no])
  }

  lemma ChainParts(pg: seq<PageBuf>, first: nat, p: seq<nat>)
    requires ChainFrom(pg, first, p)
    ensures Chain(pg, p) && p != [] && p[0] == first && first < |pg|
  {
  }

  lemma PagesForIs(n: nat, cap: nat, need: int)
    requires cap > 0 && need == (if (n + cap - 1) / cap < 1 then 1 else (n + cap - 1) / cap)
    ensures need == PagesFor(n, cap) >= 1 && n <= need * cap && (need - 1) * cap <= n
  {
    PagesForBounds(n, cap);
  }

  lemma ResizedParts(a: seq<PageBuf>, fa: seq<bv8>, p: seq<nat>, b: seq<PageBuf>, fb: seq<bv8>, q: seq<nat>, n: nat,
                     kind: nat, owner: int)
    requires Resized(a, fa, p, b, fb, q, n, kind, owner)
    ensures |q| == n && Chain(b, q)
  {
    hide PfsAllocated;
  }

  lemma CopiedRewritten(a: seq<PageBuf>, fa: seq<bv8>, p: seq<nat>, b: seq<PageBuf>, fb: seq<bv8>, q: seq<nat>, n: nat,
                        kind: nat, owner: int, c: seq<PageBuf>)
    requires Chain(a, p) && Resized(a, fa, p, b, fb, q, n, kind, owner) && PayloadsOnly(b, c, q)
    ensures Rewritten(a, fa, p, c, fb, q, n)
  {
    hide PfsAllocated;
    forall i | n <= i < |p|
      ensures c[p[i]] == a[p[i]].(freed := true)
    {
      SurplusOut(a, fa, p, b, fb, q, n, kind, owner, i);
    }
    forall i | 0 <= i < |q|
      ensures c[q[i]].next == b[q[i]].next && c[q[i]].header == b[q[i]].header
    {
    }
  }

  /** A page the chain lost is not in it. */
  lemma SurplusOut(a: seq<PageBuf>, fa: seq<bv8>, p: seq<nat>, b: seq<PageBuf>, fb: seq<bv8>, q: seq<nat>, n: nat,
                   kind: nat, owner: int, i: nat)
    requires Chain(a, p) && Resized(a, fa, p, b, fb, q, n, kind, owner) && n <= i < |p|
    ensures p[i] !in q
  {
    hide PfsAllocated;
  }

  ghost predicate CarriesSoFar(pg: seq<PageBuf>, chain: seq<nat>, i: nat, data: seq<byte>, off: nat)
  {
    && (forall k :: 0 <= k < |chain| ==> chain[k] < |pg|) && i <= |chain| && off <= |data|
    && off <= |Content(pg, chain[..i])| && Content(pg, chain[..i])[..off] == data[..off]
  }

  lemma CopyStart(b: seq<PageBuf>, chain: seq<nat>, data: seq<byte>)
    requires Chain(b, chain)
    ensures PayloadsOnly(b, b, chain) && CarriesSoFar(b, chain, 0, data, 0)
  {
  }

  lemma CopyBounds(b: seq<PageBuf>, pg: seq<PageBuf>, chain: seq<nat>, i: nat, cap: nat, size: nat)
    requires Chain(b, chain) && PayloadsOnly(b, pg, chain) && Padded(pg, cap) && i < |chain|
    requires (|chain| - 1) * cap <= size
    ensures chain[i] < |pg| && |pg[chain[i]].payload| == cap && i * cap <= size && (i + 1) * cap == i * cap + cap
  {
    MulPositive(|chain| - 1 - i, cap);
    MulDist(|chain| - 1 - i, i, cap);
    MulDist(i, 1, cap);
  }

  lemma CopyStep(b: seq<PageBuf>, pg: seq<PageBuf>, chain: seq<nat>, i: nat, data: seq<byte>, off: nat, n: nat,
      cap: nat)
    requires Chain(b, chain) && PayloadsOnly(b, pg, chain) && Padded(pg, cap) && i < |chain|
    requires CarriesSoFar(pg, chain, i, data, off) && off == i * cap && n <= cap && off + n <= |data|
    requires chain[i] < |pg| && |pg[chain[i]].payload| == cap
    ensures var no := chain[i];
      var pg2 := pg[no := pg[no].(payload := data[off..off + n] + pg[no].payload[n..])];
      PayloadsOnly(b, pg2, chain) && Padded(pg2, cap) && CarriesSoFar(pg2, chain, i + 1, data, off + n)
  {
    hide Content;
    var no := chain[i];
    var chunk := data[off..off + n] + pg[no].payload[n..];
    var pg2 := pg[no := pg[no].(payload := chunk)];
    var front := chain[..i];
    assert forall k :: 0 <= k < i ==> front[k] == chain[k] != no;
    ContentSame(pg, pg2, front);
    ContentSize(pg, front, cap);
    ContentMore(pg2, chain, i);
    assert Content(pg2, chain[..i + 1]) == Content(pg, front) + chunk;
    JoinChunk(Content(pg, front), data, off, n, pg[no].payload[n..]);
  }

  lemma JoinChunk(done: seq<byte>, data: seq<byte>, off: nat, n: nat, rest: seq<byte>)
    requires |done| == off && off + n <= |data| && done[..off] == data[..off]
    ensures (done + (data[off..off + n] + rest))[..off + n] == data[..off + n]
  {
    assert done == data[..off];
  }

  lemma CopyEnd(pg: seq<PageBuf>, chain: seq<nat>, data: seq<byte>, off: nat)
    requires CarriesSoFar(pg, chain, |chain|, data, off) && off == |data|
    ensures Carries(pg, chain, data)
  {
    assert chain[..|chain|] == chain && data[..off] == data;
  }

  lemma PayloadsOnlySize(a: seq<PageBuf>, b: seq<PageBuf>, chain: seq<nat>)
    requires PayloadsOnly(a, b, chain)
    ensures |a| == |b|
  {
  }

  /** The link a reader follows; a page without a header ends the chain. */
  function NextOf(b: PageBuf): int
  {
    if b.header then b.next else -1
  }

  /** An internal file on exactly the pages it needs, whose own header gives its size. */
  ghost predicate Stored(pg: seq<PageBuf>, first: nat, q: seq<nat>, data: seq<byte>, cap: nat)
  {
    && ChainFrom(pg, first, q) && Carries(pg, q, data) && cap >= 10 && |data| >= 5
    && FileSize(data) == |data| && |q| == PagesFor(|data|, cap)
  }

  lemma NotThere(pg: seq<PageBuf>, first: nat, cap: nat)
    requires first >= |pg|
    ensures forall q, data :: !Stored(pg, first, q, data, cap)
  {
    hide Carries;
  }

  lemma TooSmall(pg: seq<PageBuf>, first: nat, cap: nat)
    requires cap < 10
    ensures forall q, data :: !Stored(pg, first, q, data, cap)
  {
  }

  lemma PayloadSize(pg: seq<PageBuf>, first: nat, cap: nat)
    requires Padded(pg, cap) && first < |pg|
    ensures |pg[first].payload| == cap
  {
  }

  /** How far reading has come. */
  ghost predicate Reading(pg: seq<PageBuf>, p: seq<nat>, visited: set<nat>, first: nat, next: int, out: seq<byte>,
      cap: nat)
  {
    && p != [] && p[0] == first && |p| <= 64 && Padded(pg, cap)
    && (forall i :: 0 <= i < |p| ==> p[i] < |pg|)
    && (forall x :: x in visited <==> x in p) && |visited| == |p|
    && next == NextOf(pg[p[|p| - 1]]) && out == Content(pg, p)
    && (forall q :: ChainFrom(pg, first, q) ==> Extends(q, p))
  }

  lemma StartReading(pg: seq<PageBuf>, first: nat, cap: nat)
    requires Padded(pg, cap) && first < |pg|
    ensures Reading(pg, [first], {first}, first, NextOf(pg[first]), pg[first].payload, cap)
  {
    hide ChainFrom;
    assert [first][..0] == [];
    assert Content(pg, [first]) == [] + pg[first].payload == pg[first].payload;
    forall q | ChainFrom(pg, first, q)
      ensures Extends(q, [first])
    {
      NotEmpty(pg, first, q);
    }
  }

  lemma ReadingParts(pg: seq<PageBuf>, p: seq<nat>, visited: set<nat>, first: nat, next: int, out: seq<byte>, cap: nat)
    requires Reading(pg, p, visited, first, next, out, cap)
    ensures |p| == |visited| <= 64
  {
    hide Content;
  }

  lemma ReadStep(pg: seq<PageBuf>, p: seq<nat>, visited: set<nat>, first: nat, next: int, out: seq<byte>, cap: nat)
    requires Reading(pg, p, visited, first, next, out, cap) && 0 <= next < |pg| && next !in visited && |visited| < 64
    ensures Reading(pg, p + [next], visited + {next}, first, NextOf(pg[next]), out + pg[next].payload, cap)
  {
    hide ChainFrom;
    assert (p + [next])[..|p|] == p;
    forall q | ChainFrom(pg, first, q)
      ensures Extends(q, p + [next])
    {
      ChainParts(pg, first, q);
      LastInside(pg, p, q);
    }
  }

  /** The first page already tells the size. */
  lemma WantIs(pg: seq<PageBuf>, first: nat, q: seq<nat>, data: seq<byte>, cap: nat)
    requires Stored(pg, first, q, data, cap) && Padded(pg, cap)
    ensures first < |pg| && |pg[first].payload| >= 5 && FileSize(pg[first].payload) == |data|
  {
    var out := Content(pg, q);
    FirstPage(pg, q, cap);
    assert forall i :: 0 <= i < 5 ==> data[i] == out[..|data|][i] == out[i] == pg[first].payload[i];
  }

  lemma {:induction false} FirstPage(pg: seq<PageBuf>, q: seq<nat>, cap: nat)
    requires q != [] && Padded(pg, cap) && forall i :: 0 <= i < |q| ==> q[i] < |pg|
    ensures |Content(pg, q)| >= cap && Content(pg, q)[..cap] == pg[q[0]].payload
  {
    if |q| > 1 {
      FirstPage(pg, q[..|q| - 1], cap);
    } else {
      assert q[..0] == [];
      assert Content(pg, q) == [] + pg[q[0]].payload == pg[q[0]].payload;
    }
  }

  lemma OutSize(pg: seq<PageBuf>, p: seq<nat>, visited: set<nat>, first: nat, next: int, out: seq<byte>, cap: nat)
    requires Reading(pg, p, visited, first, next, out, cap)
    ensures |out| == |p| * cap
  {
    hide Content;
    ContentSize(pg, p, cap);
  }

  lemma MorePages(size: nat, cap: nat, k: nat)
    requires cap > 0 && k * cap < size
    ensures PagesFor(size, cap) > k
  {
    PagesForBounds(size, cap);
    var n := PagesFor(size, cap);
    if n <= k {
      MulPositive(k - n, cap);
      MulDist(k - n, n, cap);
    }
  }

  lemma FewPages(size: nat, cap: nat, k: nat)
    requires cap > 0 && size <= k * cap && k >= 1
    ensures PagesFor(size, cap) <= k
  {
    PagesForBounds(size, cap);
    var n := PagesFor(size, cap);
    if n > k {
      MulPositive(n - 1 - k, cap);
      MulDist(n - 1 - k, k, cap);
    }
  }

  lemma ReadFails(pg: seq<PageBuf>, p: seq<nat>, visited: set<nat>, first: nat, next: int, out: seq<byte>, cap: nat,
      want: nat)
    requires Reading(pg, p, visited, first, next, out, cap) && next >= 0 && |out| < want
    requires next in visited || |visited| >= 64 || next >= |pg|
    requires first < |pg| && |pg[first].payload| >= 5 && want == FileSize(pg[first].payload)
    ensures forall q, data :: Stored(pg, first, q, data, cap) ==> |q| > 64
  {
    hide Content, FileSize;
    OutSize(pg, p, visited, first, next, out, cap);
    forall q, data | Stored(pg, first, q, data, cap)
      ensures |q| > 64
    {
      WantIs(pg, first, q, data, cap);
      MorePages(|data|, cap, |p|);
      LastInside(pg, p, q);
    }
  }

  lemma ReadEnds(pg: seq<PageBuf>, p: seq<nat>, visited: set<nat>, first: nat, next: int, out: seq<byte>, cap: nat,
      want: nat)
    requires Reading(pg, p, visited, first, next, out, cap) && (next < 0 || |out| >= want)
    requires first < |pg| && |pg[first].payload| >= 5 && want == FileSize(pg[first].payload)
    ensures forall q, data :: Stored(pg, first, q, data, cap) ==>
      |q| <= 64 && |data| <= |out| && out[..|data|] == data
  {
    hide Content, FileSize;
    OutSize(pg, p, visited, first, next, out, cap);
    forall q, data | Stored(pg, first, q, data, cap)
      ensures |q| <= 64 && |data| <= |out| && out[..|data|] == data
    {
      WantIs(pg, first, q, data, cap);
      if next < 0 { SameEnd(pg, p, q); } else { FewPages(|data|, cap, |p|); }
      SameSeq(p, q);
    }
  }

  lemma SameEnd(pg: seq<PageBuf>, p: seq<nat>, q: seq<nat>)
    requires Chain(pg, q) && Extends(q, p) && p != [] && p[|p| - 1] < |pg| && NextOf(pg[p[|p| - 1]]) < 0
    ensures |q| == |p|
  {
    assert q[|p| - 1] == p[|p| - 1];
    if |q| > |p| { LinkedOn(pg, q, |p| - 1); }
  }

  lemma SameSeq(p: seq<nat>, q: seq<nat>)
    requires Extends(q, p) && |q| <= |p|
    ensures q == p
  {
  }

  // -- the main results ---------------------------------------------------------------------------------

  /** A chain of allocated pages that has no page in common with the one rewritten is not disturbed. */
  lemma OtherChainKept(a: seq<PageBuf>, fa: seq<bv8>, p: seq<nat>, b: seq<PageBuf>, fb: seq<bv8>, q: seq<nat>, n: nat,
                       c: seq<nat>)
    requires Rewritten(a, fa, p, b, fb, q, n) && Chain(a, c)
    requires forall i :: 0 <= i < |c| ==> PfsAllocated(fa, c[i]) && c[i] !in p
    ensures Chain(b, c) && Content(b, c) == Content(a, c)
    ensures forall i :: 0 <= i < |c| ==> PfsAllocated(fb, c[i]) && c[i] !in q
  {
    hide PfsAllocated, Content;
    forall i | 0 <= i < |c|
      ensures c[i] !in q && b[c[i]] == a[c[i]]
    {
      NotTaken(a, fa, p, b, fb, q, n, c[i]);
    }
    ContentSame(a, b, c);
  }

  lemma NotTaken(a: seq<PageBuf>, fa: seq<bv8>, p: seq<nat>, b: seq<PageBuf>, fb: seq<bv8>, q: seq<nat>, n: nat, x: nat)
    requires Rewritten(a, fa, p, b, fb, q, n) && PfsAllocated(fa, x) && x !in p
    ensures x !in q
  {
    hide PfsAllocated;
    forall i | 0 <= i < |q|
      ensures q[i] != x
    {
      if i < |p| { assert q[i] == p[i]; }
    }
  }

  /** Whatever the size of the data and of the chain it replaces, what was written reads back if and
      only if it takes at most 64 pages. */
  method WriteThenRead(f: ChainFile, first: nat, data: seq<byte>, ghost p: seq<nat>)
    returns (ok: bool, r: Option<seq<byte>>)
    requires f.Valid() && f.cap >= 10 && ChainFrom(f.pages, first, p) && f.InUse(p)
    requires |data| >= 5 && FileSize(data) == |data|
    modifies f, f.maps, f.maps.pfs, f.maps.eam
    ensures f.Valid()
    ensures ok ==> (r.Some? <==> PagesFor(|data|, f.cap) <= 64)
    ensures !ok ==> |p| > 64 || (PagesFor(|data|, f.cap) > |p| && f.MapsFull())
    ensures ok && r.Some? ==> |data| <= |r.value| && r.value[..|data|] == data
  {
    hide *;
    r := None;
    ghost var a, fa := f.pages, f.maps.pfs[..];
    ghost var q;
    ChainParts(a, first, p);
    ok, q := f.WriteInternalFilePages(first, data, p);
    if ok {
      RewrittenStored(a, fa, p, f.pages, f.maps.pfs[..], q, f.cap, first, data);
      r := f.ReadInternalFilePages(first);
    }
  }

  lemma RewrittenStored(a: seq<PageBuf>, fa: seq<bv8>, p: seq<nat>, b: seq<PageBuf>, fb: seq<bv8>, q: seq<nat>,
                        cap: nat, first: nat, data: seq<byte>)
    requires cap >= 10 && Rewritten(a, fa, p, b, fb, q, PagesFor(|data|, cap)) && Carries(b, q, data)
    requires p != [] && p[0] == first && |data| >= 5 && FileSize(data) == |data|
    ensures Stored(b, first, q, data, cap) && |q| == PagesFor(|data|, cap)
  {
    hide PfsAllocated, Carries, FileSize;
  }
}
